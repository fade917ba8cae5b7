/**
 * The persistent parsing/printing state of the converter and its two
 * drivers: `Lex`, which consumes a text buffer by trying the active rules in
 * order and collects unmatched characters into a pending text node, and
 * `SerializeLoop`, which prints a node list until it is empty.
 *
 * The source keeps the rule table inside the state; rules are functions of
 * states, so here the table is passed to the drivers beside the state.
 * Rules in the source may run forever; the drivers take a `fuel` bound that
 * is spent on every successful rule application.
 */
module ParseState {
  import opened Outcomes
  import opened Schema
  import JsString

  /** What `down` saves and `up` restores. */
  datatype Frame = Frame(scope: string, nodes: seq<Node>, text: string)

  /** The state record. `scope` is the source's `object` field: the name of
      the rule set in use ("document", "block", "inline", ...). The frame
      stack has its top at the end. */
  datatype State = State(
    text: string,
    nodes: seq<Node>,
    stack: seq<Frame>,
    marks: seq<string>,
    scope: string,
    depth: int,
    props: Data)

  /** A rule step: a new state, or `None` for a falsy result. */
  type Transform = State -> Option<State>

  datatype Phase = Serializing | Deserializing

  /** A grammar rule: a printer, a parser, or both. */
  datatype Rule = Rule(serialize: Option<Transform>, deserialize: Option<Transform>)

  /** The rule sets, by scope. */
  type RuleSet = map<string, seq<Rule>>

  /** `State.create(rules, props)` */
  function Create(props: Data): State {
    State("", [], [], [], "document", 0, props)
  }

  /** `state.rules`: the rules of the active scope, none if it has no set. */
  function RulesOf(rs: RuleSet, s: State): seq<Rule> {
    if s.scope in rs then rs[s.scope] else []
  }

  /** `use(object)` */
  function Use(s: State, scope: string): State {
    s.(scope := scope)
  }

  /** `setProp(key, value)` */
  function SetProp(s: State, key: string, v: Value): State {
    s.(props := Schema.Set(s.props, key, v))
  }

  /** `getProp(key, default)` */
  function GetProp(s: State, key: string, default: Value): Value {
    GetOr(s.props, key, default)
  }

  lemma GetPropAfterSetProp(s: State, key: string, v: Value, other: string, default: Value)
    ensures GetProp(SetProp(s, key, v), key, default) == v
    ensures other != key ==> GetProp(SetProp(s, key, v), other, default) == GetProp(s, other, default)
    ensures SetProp(s, key, v).(props := s.props) == s
  {
    GetSetSame(s.props, key, v);
    if other != key {
      GetSetOther(s.props, key, v, other);
      if Has(SetProp(s, key, v).props, other) != Has(s.props, other) {
        HasAfterSet(s.props, key, v, other);
      }
    }
  }

  lemma {:induction false} HasAfterSet(d: Data, k: string, v: Value, k2: string)
    requires k2 != k
    ensures Has(Schema.Set(d, k, v), k2) == Has(d, k2)
    decreases |d|
  {
    if |d| > 0 {
      var r := Schema.Set(d, k, v);
      HasCons(d[0], d[1..], k2);
      assert d == [d[0]] + d[1..];
      if d[0].key == k {
        assert r == [Entry(k, v)] + d[1..];
        HasCons(Entry(k, v), d[1..], k2);
      } else {
        HasAfterSet(d[1..], k, v, k2);
        assert r == [d[0]] + Schema.Set(d[1..], k, v);
        HasCons(d[0], Schema.Set(d[1..], k, v), k2);
      }
    }
  }

  /** A key is in a list with a first entry when it is that entry's key or
      in the rest. */
  lemma HasCons(e: Entry, d: Data, k: string)
    ensures Has([e] + d, k) <==> e.key == k || Has(d, k)
  {
    var ed := [e] + d;
    if Has(ed, k) && e.key != k {
      var i :| 0 <= i < |ed| && ed[i].key == k;
      assert d[i - 1].key == k;
    }
    if Has(d, k) {
      var i :| 0 <= i < |d| && d[i].key == k;
      assert ed[i + 1].key == k;
    }
    if e.key == k {
      assert ed[0].key == k;
    }
  }

  /** `write(string)` */
  function Write(s: State, str: string): State {
    s.(text := s.text + str)
  }

  /** `replaceText(text)` */
  function ReplaceText(s: State, text: string): State {
    s.(text := text)
  }

  /** `peek()`: the first node of the list. */
  function Peek(s: State): Option<Node> {
    if |s.nodes| == 0 then None else Some(s.nodes[0])
  }

  /** `shift()`: the list without its first node (an empty list stays empty). */
  function Shift(s: State): State {
    s.(nodes := if |s.nodes| == 0 then [] else s.nodes[1..])
  }

  /** `unshift(node)` */
  function Unshift(s: State, n: Node): State {
    s.(nodes := [n] + s.nodes)
  }

  /** The argument of `push`: one node, or an immutable List of nodes. */
  datatype Pushed = OneNode(node: Node) | NodeList(list: seq<Node>)

  /** `push(node | list)` */
  function Push(s: State, p: Pushed): State {
    match p
    case OneNode(n) => s.(nodes := s.nodes + [n])
    case NodeList(ns) => s.(nodes := s.nodes + ns)
  }

  /** `pushMark(mark)`: add to the set of active marks. */
  function PushMark(s: State, m: string): State {
    if m in s.marks then s else s.(marks := s.marks + [m])
  }

  /** `genText(text)`: a text node carrying the active marks, wrapped in an
      `unstyled` block when the active scope is "block". */
  function GenText(s: State, text: string): Node {
    var t := TextNode(text, s.marks);
    if s.scope == "block" then NewBlock(TEXT, [t]) else t
  }

  /** `pushText(text)` */
  function PushText(s: State, text: string): State {
    Push(s, OneNode(GenText(s, text)))
  }

  /** `down({ nodes, text })`: start a nested level with its own nodes and
      text, saving the current ones. */
  function Down(s: State, nodes: seq<Node>, text: string): State {
    s.(depth := s.depth + 1, nodes := nodes, text := text,
       stack := s.stack + [Frame(s.scope, s.nodes, s.text)])
  }

  /** `up()`: restore the saved level; reading the top of an empty stack
      throws in the source. */
  function Up(s: State): Result<State> {
    if |s.stack| == 0 then Err(TypeError("up() on an empty stack"))
    else
      var f := s.stack[|s.stack| - 1];
      Ok(s.(depth := s.depth - 1, nodes := f.nodes, text := f.text, scope := f.scope,
            stack := s.stack[..|s.stack| - 1]))
  }

  /** `skip(n)`: drop the first `n` characters of the buffer. */
  function Skip(s: State, n: nat): State {
    s.(text := if n <= |s.text| then s.text[n..] else "")
  }

  // ----- properties of the record operations -------------------------------

  /** `push` appends one node, or a whole list, after the existing nodes and
      changes nothing else. */
  lemma PushAppends(s: State, p: Pushed)
    ensures var added := if p.OneNode? then [p.node] else p.list;
      var r := Push(s, p);
      |r.nodes| == |s.nodes| + |added| && r.nodes[..|s.nodes|] == s.nodes
      && r.nodes[|s.nodes|..] == added && r.(nodes := s.nodes) == s
  {
  }

  /** `peek` sees what `unshift` put first, `shift` removes exactly it, and a
      non-empty list is rebuilt by unshifting its peeked node after a shift. */
  lemma PeekShiftUnshift(s: State, n: Node)
    ensures Peek(Unshift(s, n)) == Some(n) && Shift(Unshift(s, n)) == s
    ensures |s.nodes| > 0 ==> Unshift(Shift(s), Peek(s).value) == s
    ensures |Shift(s).nodes| == if |s.nodes| == 0 then 0 else |s.nodes| - 1
  {
    assert ([n] + s.nodes)[1..] == s.nodes;
    if |s.nodes| > 0 {
      assert [s.nodes[0]] + s.nodes[1..] == s.nodes;
    }
  }

  /** After `write(w)`, skipping the old buffer leaves exactly `w`; `skip(n)`
      drops exactly `n` characters. */
  lemma WriteSkip(s: State, w: string, n: nat)
    ensures Skip(Write(s, w), |s.text|).text == w
    ensures n <= |s.text| ==> |Skip(s, n).text| == |s.text| - n && s.text == s.text[..n] + Skip(s, n).text
    ensures Skip(s, n).(text := s.text) == s
  {
    assert (s.text + w)[|s.text|..] == w;
  }

  /** `up` after `down` restores nodes, text, scope, depth and stack, and
      props and marks never change. */
  lemma UpAfterDown(s: State, nodes: seq<Node>, text: string)
    ensures Up(Down(s, nodes, text)) == Ok(s)
  {
    var d := Down(s, nodes, text);
    assert d.stack[..|d.stack| - 1] == s.stack;
  }

  // ----- rule application -------------------------------------------------

  function PhaseOf(r: Rule, phase: Phase): Option<Transform> {
    if phase == Serializing then r.serialize else r.deserialize
  }

  /** The first truthy result of the rules that have a step for `phase`, in
      order; `None` when every such step returns a falsy result. */
  function FirstResult(rules: seq<Rule>, s: State, phase: Phase): Option<State>
    decreases |rules|
  {
    if |rules| == 0 then None
    else match PhaseOf(rules[0], phase)
      case None => FirstResult(rules[1..], s, phase)
      case Some(f) => if f(s).Some? then f(s) else FirstResult(rules[1..], s, phase)
  }

  /** `applyRules(phase)` */
  function ApplyRules(rs: RuleSet, s: State, phase: Phase): Option<State> {
    FirstResult(RulesOf(rs, s), s, phase)
  }

  /** Rule `i` has a step for the phase and that step fails on `s`. */
  predicate Declines(rules: seq<Rule>, i: int, s: State, phase: Phase)
    requires 0 <= i < |rules|
  {
    PhaseOf(rules[i], phase).None? || PhaseOf(rules[i], phase).value(s).None?
  }

  /** `applyRules` yields a state exactly when some rule with a step for the
      phase succeeds and all earlier ones decline; its result is that rule's. */
  lemma {:induction false} FirstResultSpec(rules: seq<Rule>, s: State, phase: Phase)
    ensures FirstResult(rules, s, phase).None? <==> forall i :: 0 <= i < |rules| ==> Declines(rules, i, s, phase)
    ensures FirstResult(rules, s, phase).Some? ==>
      exists i :: 0 <= i < |rules| && !Declines(rules, i, s, phase)
        && FirstResult(rules, s, phase) == PhaseOf(rules[i], phase).value(s)
        && forall j :: 0 <= j < i ==> Declines(rules, j, s, phase)
    decreases |rules|
  {
    if |rules| > 0 {
      FirstResultSpec(rules[1..], s, phase);
      forall i | 1 <= i < |rules|
        ensures Declines(rules, i, s, phase) == Declines(rules[1..], i - 1, s, phase)
      {
        assert rules[1..][i - 1] == rules[i];
      }
      if !Declines(rules, 0, s, phase) {
      } else if FirstResult(rules, s, phase).Some? {
        assert FirstResult(rules, s, phase) == FirstResult(rules[1..], s, phase);
        var k :| 0 <= k < |rules[1..]| && !Declines(rules[1..], k, s, phase)
          && FirstResult(rules[1..], s, phase) == PhaseOf(rules[1..][k], phase).value(s)
          && forall j :: 0 <= j < k ==> Declines(rules[1..], j, s, phase);
        assert rules[1..][k] == rules[k + 1];
        assert !Declines(rules, k + 1, s, phase);
        assert forall j :: 0 <= j < k + 1 ==> Declines(rules, j, s, phase) by {
          forall j | 0 <= j < k + 1 ensures Declines(rules, j, s, phase) {
            if j > 0 {
              assert Declines(rules[1..], j - 1, s, phase);
            }
          }
        }
      } else {
        assert forall i :: 0 <= i < |rules| ==> Declines(rules, i, s, phase) by {
          forall i | 0 <= i < |rules| ensures Declines(rules, i, s, phase) {
            if i > 0 {
              assert Declines(rules[1..], i - 1, s, phase);
            }
          }
        }
      }
    }
  }

  // ----- the parse driver -------------------------------------------------

  /** The options of `lex`: text left pending by earlier characters, whether
      to trim it, and when to stop (a state to return, or `None`). */
  datatype LexOptions = LexOptions(rest: string, trim: bool, stopAt: (State, State) -> Option<State>)

  /** `lex()` with no options. */
  const DefaultLexOptions: LexOptions := LexOptions("", true, (next: State, prev: State) => None)

  /** The pending text as `lex` pushes it. */
  function Pending(opts: LexOptions): string {
    if opts.trim then JsString.Trim(opts.rest) else opts.rest
  }

  /** The state with the pending text pushed as one text node, if any. */
  function Flush(s: State, opts: LexOptions): State {
    if Pending(opts) != "" then PushText(s, Pending(opts)) else s
  }

  /** `lex(opts)` with the pending text cleared once a rule has consumed it:
      after a rule matches, the rule's result already holds the flushed text,
      so lexing goes on with an empty `rest`. */
  function Lex(rs: RuleSet, s: State, opts: LexOptions, fuel: nat): Result<State>
    decreases fuel, |s.text|
  {
    var start := Flush(s, opts);
    if s.text == "" then Ok(start)
    else
      var next := ApplyRules(rs, start, Deserializing);
      if next == Some(start) then Err(NoOpRule)
      else if next.None? then Lex(rs, Skip(s, 1), opts.(rest := opts.rest + [s.text[0]]), fuel)
      else match opts.stopAt(next.value, s)
        case Some(stop) => Ok(stop)
        case None => if fuel == 0 then Err(OutOfFuel) else Lex(rs, next.value, opts.(rest := ""), fuel - 1)
  }

  /** `lex(opts)` as the source writes it: after a match it lexes on with the
      same `opts`, so the pending text it has already pushed is pushed again. */
  function LexAsWritten(rs: RuleSet, s: State, opts: LexOptions, fuel: nat): Result<State>
    decreases fuel, |s.text|
  {
    var start := Flush(s, opts);
    if s.text == "" then Ok(start)
    else
      var next := ApplyRules(rs, start, Deserializing);
      if next == Some(start) then Err(NoOpRule)
      else if next.None? then LexAsWritten(rs, Skip(s, 1), opts.(rest := opts.rest + [s.text[0]]), fuel)
      else match opts.stopAt(next.value, s)
        case Some(stop) => Ok(stop)
        case None => if fuel == 0 then Err(OutOfFuel) else LexAsWritten(rs, next.value, opts, fuel - 1)
  }

  /** A one-rule inline grammar that turns an `X` into an `x` inline node. */
  const MarkerNode: Node := Inline("x", [], false, [])

  function MarkerRule(t: State): Option<State> {
    if JsString.StartsWith(t.text, "X") then Some(Push(Skip(t, 1), OneNode(MarkerNode))) else None
  }

  const MarkerRuleList: seq<Rule> := [Rule(None, Some(MarkerRule))]

  const MarkerRules: RuleSet := map["inline" := MarkerRuleList]

  /** Lexing "aX": `a` matches no rule and becomes pending text, which is
      flushed before `X` matches. The corrected driver yields the text and the
      marker; the driver as written pushes the pending `a` a second time. */
  lemma LexFlushesPendingTextTwice(fuel: nat)
    requires fuel >= 1
    ensures Lex(MarkerRules, MarkerInput, DefaultLexOptions, fuel)
      == Ok(MarkerInput.(text := "", nodes := [TextNode("a", []), MarkerNode]))
    ensures LexAsWritten(MarkerRules, MarkerInput, DefaultLexOptions, fuel)
      == Ok(MarkerInput.(text := "", nodes := [TextNode("a", []), MarkerNode, TextNode("a", [])]))
  {
    MarkerLexSkipsA(fuel);
    var next := MarkerLexMatchesX(fuel);
    FlushNothing(next);
    LexEmptyBuffer(MarkerRules, next, DefaultLexOptions, fuel - 1);
    LexEmptyBuffer(MarkerRules, next, DefaultLexOptions.(rest := "a"), fuel - 1);
    MarkerFlushAgain(next);
  }

  lemma MarkerFlushAgain(next: State)
    requires next == MarkerInput.(text := "", nodes := [TextNode("a", []), MarkerNode])
    ensures Flush(next, DefaultLexOptions.(rest := "a"))
      == MarkerInput.(text := "", nodes := [TextNode("a", []), MarkerNode, TextNode("a", [])])
  {
    JsString.TrimOfUnpadded("a");
    assert next.nodes + [TextNode("a", [])] == [TextNode("a", []), MarkerNode, TextNode("a", [])];
  }

  lemma MarkerLexSkipsA(fuel: nat)
    ensures Lex(MarkerRules, MarkerInput, DefaultLexOptions, fuel)
      == Lex(MarkerRules, MarkerInput.(text := "X"), DefaultLexOptions.(rest := "a"), fuel)
    ensures LexAsWritten(MarkerRules, MarkerInput, DefaultLexOptions, fuel)
      == LexAsWritten(MarkerRules, MarkerInput.(text := "X"), DefaultLexOptions.(rest := "a"), fuel)
  {
    var s := MarkerInput;
    var o := DefaultLexOptions;
    MarkerFirstStep();
    assert s.text[1..] == "X" && s.text[0] == 'a';
    LexStep(MarkerRules, s, o, fuel);
    assert o.(rest := o.rest + [s.text[0]]) == o.(rest := "a");
  }

  lemma MarkerLexMatchesX(fuel: nat) returns (next: State)
    requires fuel >= 1
    ensures next == MarkerInput.(text := "", nodes := [TextNode("a", []), MarkerNode])
    ensures Lex(MarkerRules, MarkerInput.(text := "X"), DefaultLexOptions.(rest := "a"), fuel)
      == Lex(MarkerRules, next, DefaultLexOptions, fuel - 1)
    ensures LexAsWritten(MarkerRules, MarkerInput.(text := "X"), DefaultLexOptions.(rest := "a"), fuel)
      == LexAsWritten(MarkerRules, next, DefaultLexOptions.(rest := "a"), fuel - 1)
  {
    next := MarkerSecondStep();
    LexMatchStep(MarkerRules, MarkerInput.(text := "X"), DefaultLexOptions.(rest := "a"), fuel, next);
    assert DefaultLexOptions.(rest := "a").(rest := "") == DefaultLexOptions;
  }

  const MarkerInput: State := State("aX", [], [], [], "inline", 0, [])

  lemma MarkerRulesOf(s: State)
    requires s.scope == "inline"
    ensures RulesOf(MarkerRules, s) == MarkerRuleList
  {
  }

  lemma MarkerDeclinesInput()
    ensures MarkerRule(MarkerInput) == None
  {
    assert MarkerInput.text[..1] == "a";
  }

  lemma MarkerFirstStep()
    ensures ApplyRules(MarkerRules, Flush(MarkerInput, DefaultLexOptions), Deserializing) == None
  {
    FlushNothing(MarkerInput);
    MarkerRulesOf(MarkerInput);
    MarkerDeclinesInput();
    assert FirstResult(MarkerRuleList, MarkerInput, Deserializing) == None;
  }

  lemma FlushNothing(s: State)
    ensures Flush(s, DefaultLexOptions) == s
  {
    assert Pending(DefaultLexOptions) == "";
  }

  lemma MarkerSecondStep() returns (next: State)
    ensures var s1 := MarkerInput.(text := "X");
      var start := Flush(s1, DefaultLexOptions.(rest := "a"));
      && ApplyRules(MarkerRules, start, Deserializing) == Some(next) && next != start
      && next == MarkerInput.(text := "", nodes := [TextNode("a", []), MarkerNode])
  {
    var start := MarkerFlushA();
    next := MarkerInput.(text := "", nodes := [TextNode("a", []), MarkerNode]);
    MarkerMatches(start, next);
    MarkerRulesOf(start);
    assert FirstResult(MarkerRuleList, start, Deserializing) == Some(next);
  }

  lemma MarkerFlushA() returns (start: State)
    ensures start == Flush(MarkerInput.(text := "X"), DefaultLexOptions.(rest := "a"))
    ensures start == MarkerInput.(text := "X", nodes := [TextNode("a", [])])
  {
    var s1 := MarkerInput.(text := "X");
    var o := DefaultLexOptions.(rest := "a");
    JsString.TrimOfUnpadded("a");
    assert Pending(o) == "a";
    assert GenText(s1, "a") == TextNode("a", []);
    assert s1.nodes + [TextNode("a", [])] == [TextNode("a", [])];
    start := MarkerInput.(text := "X", nodes := [TextNode("a", [])]);
    assert Flush(s1, o) == PushText(s1, "a") == start;
  }

  lemma MarkerMatches(start: State, next: State)
    requires start == MarkerInput.(text := "X", nodes := [TextNode("a", [])])
    requires next == MarkerInput.(text := "", nodes := [TextNode("a", []), MarkerNode])
    ensures MarkerRule(start) == Some(next)
  {
    assert start.text[..1] == "X";
    assert Skip(start, 1) == start.(text := "");
    assert start.nodes + [MarkerNode] == [TextNode("a", []), MarkerNode];
  }

  /** One successful rule step of both drivers. */
  lemma LexMatchStep(rs: RuleSet, s: State, opts: LexOptions, fuel: nat, next: State)
    requires s.text != "" && fuel > 0
    requires ApplyRules(rs, Flush(s, opts), Deserializing) == Some(next) && next != Flush(s, opts)
    requires opts.stopAt(next, s).None?
    ensures Lex(rs, s, opts, fuel) == Lex(rs, next, opts.(rest := ""), fuel - 1)
    ensures LexAsWritten(rs, s, opts, fuel) == LexAsWritten(rs, next, opts, fuel - 1)
  {
  }

  /** On an empty buffer `lex` returns the state with the pending text flushed. */
  lemma LexEmptyBuffer(rs: RuleSet, s: State, opts: LexOptions, fuel: nat)
    requires s.text == ""
    ensures Lex(rs, s, opts, fuel) == Ok(Flush(s, opts))
    ensures LexAsWritten(rs, s, opts, fuel) == Ok(Flush(s, opts))
    ensures Pending(opts) == "" ==> Lex(rs, s, opts, fuel) == Ok(s)
    ensures Pending(opts) != "" ==> Lex(rs, s, opts, fuel).value.nodes == s.nodes + [GenText(s, Pending(opts))]
  {
  }

  /** A rule that returns the state it was given is rejected; when no rule
      matches, exactly one character moves from the buffer to the pending text. */
  lemma LexStep(rs: RuleSet, s: State, opts: LexOptions, fuel: nat)
    requires s.text != ""
    ensures ApplyRules(rs, Flush(s, opts), Deserializing) == Some(Flush(s, opts)) ==>
      Lex(rs, s, opts, fuel) == Err(NoOpRule)
    ensures ApplyRules(rs, Flush(s, opts), Deserializing).None? ==>
      Lex(rs, s, opts, fuel) == Lex(rs, s.(text := s.text[1..]), opts.(rest := opts.rest + [s.text[0]]), fuel)
    ensures ApplyRules(rs, Flush(s, opts), Deserializing).None? ==>
      LexAsWritten(rs, s, opts, fuel)
      == LexAsWritten(rs, s.(text := s.text[1..]), opts.(rest := opts.rest + [s.text[0]]), fuel)
  {
  }

  /** No rule of the active scope parses anything. */
  predicate NoParser(rs: RuleSet, s: State) {
    forall i :: 0 <= i < |RulesOf(rs, s)| ==> RulesOf(rs, s)[i].deserialize.None?
  }

  lemma {:induction false} FirstResultNoStep(rules: seq<Rule>, s: State)
    requires forall i :: 0 <= i < |rules| ==> rules[i].deserialize.None?
    ensures FirstResult(rules, s, Deserializing) == None
    decreases |rules|
  {
    if |rules| > 0 {
      FirstResultNoStep(rules[1..], s);
    }
  }

  /** When no rule parses, the whole buffer becomes pending text and comes out
      as a single text node holding its trimmed content. */
  lemma {:induction false} LexWithoutParsers(rs: RuleSet, s: State, opts: LexOptions, fuel: nat)
    requires NoParser(rs, s)
    ensures Lex(rs, s, opts, fuel) == Ok(Flush(s.(text := ""), opts.(rest := opts.rest + s.text)))
    decreases |s.text|
  {
    if s.text == "" {
      assert opts.(rest := opts.rest + s.text) == opts;
      assert s.(text := "") == s;
    } else {
      var s1 := s.(text := s.text[1..]);
      var o1 := opts.(rest := opts.rest + [s.text[0]]);
      LexSkipsWithoutParsers(rs, s, opts, fuel);
      LexWithoutParsers(rs, s1, o1, fuel);
      assert o1.(rest := o1.rest + s1.text) == opts.(rest := opts.rest + s.text) by {
        assert o1.rest + s1.text == opts.rest + s.text;
      }
      assert s1.(text := "") == s.(text := "");
    }
  }

  /** Without parsers the first character goes to the pending text. */
  lemma LexSkipsWithoutParsers(rs: RuleSet, s: State, opts: LexOptions, fuel: nat)
    requires NoParser(rs, s) && s.text != ""
    ensures NoParser(rs, s.(text := s.text[1..]))
    ensures Lex(rs, s, opts, fuel) == Lex(rs, s.(text := s.text[1..]), opts.(rest := opts.rest + [s.text[0]]), fuel)
  {
    var start := Flush(s, opts);
    assert RulesOf(rs, start) == RulesOf(rs, s);
    FirstResultNoStep(RulesOf(rs, start), start);
    LexStep(rs, s, opts, fuel);
    assert RulesOf(rs, s.(text := s.text[1..])) == RulesOf(rs, s);
  }

  /** Every parse step of `rs` consumes input. */
  predicate Consumes(rs: RuleSet, t: State) {
    var next := ApplyRules(rs, t, Deserializing);
    next.Some? ==> |next.value.text| < |t.text|
  }

  /** With rules that always consume input, `lex` never rejects a step and a
      fuel of one per character is enough: it always returns a state. */
  lemma {:induction false} LexConsumingSucceeds(rs: RuleSet, s: State, opts: LexOptions, fuel: nat)
    requires forall t :: Consumes(rs, t)
    requires fuel >= |s.text|
    ensures Lex(rs, s, opts, fuel).Ok?
    decreases |s.text|
  {
    if s.text != "" {
      var start := Flush(s, opts);
      assert start.text == s.text;
      assert Consumes(rs, start);
      var next := ApplyRules(rs, start, Deserializing);
      if next.None? {
        LexConsumingSucceeds(rs, Skip(s, 1), opts.(rest := opts.rest + [s.text[0]]), fuel);
      } else if opts.stopAt(next.value, s).None? {
        LexConsumingSucceeds(rs, next.value, opts.(rest := ""), fuel - 1);
      }
    }
  }

  // ----- the print driver -------------------------------------------------

  /** `peek().type || ''` as printed in the error message. */
  function TypeName(n: Node): string {
    match TypeOf(n)
    case Some(t) => t
    case None => ""
  }

  /** `_serialize()`: apply printing rules until the node list is empty. */
  function SerializeLoop(rs: RuleSet, s: State, fuel: nat): (r: Result<State>)
    ensures r.Ok? ==> r.value.nodes == []
    ensures |s.nodes| == 0 ==> r == Ok(s)
    ensures |s.nodes| > 0 && ApplyRules(rs, s, Serializing).None? ==>
      r == Err(NoRuleMatch(ObjectOf(s.nodes[0]), TypeName(s.nodes[0])))
    ensures |s.nodes| > 0 && ApplyRules(rs, s, Serializing) == Some(s) ==> r == Err(NoOpRule)
    decreases fuel
  {
    if |s.nodes| == 0 then Ok(s)
    else match ApplyRules(rs, s, Serializing)
      case None => Err(NoRuleMatch(ObjectOf(s.nodes[0]), TypeName(s.nodes[0])))
      case Some(t) =>
        if t == s then Err(NoOpRule)
        else if fuel == 0 then Err(OutOfFuel)
        else SerializeLoop(rs, t, fuel - 1)
  }

  /** Every print step of `rs` removes at least one node. */
  predicate Shrinks(rs: RuleSet, t: State) {
    var next := ApplyRules(rs, t, Serializing);
    next.Some? ==> |next.value.nodes| < |t.nodes|
  }

  /** With printers that always consume a node, a fuel of one per node is
      enough: printing only fails for a node no rule accepts. */
  lemma {:induction false} SerializeShrinkingOnlyFailsOnUnknownNode(rs: RuleSet, s: State, fuel: nat)
    requires forall t :: Shrinks(rs, t)
    requires fuel >= |s.nodes|
    ensures SerializeLoop(rs, s, fuel).Err? ==> SerializeLoop(rs, s, fuel).error.NoRuleMatch?
    decreases fuel
  {
    if |s.nodes| > 0 {
      assert Shrinks(rs, s);
      var next := ApplyRules(rs, s, Serializing);
      if next.Some? {
        SerializeShrinkingOnlyFailsOnUnknownNode(rs, next.value, fuel - 1);
      }
    }
  }

  /** `serialize(nodes)` */
  function Serialize(rs: RuleSet, s: State, nodes: seq<Node>, fuel: nat): Result<string> {
    var t :- SerializeLoop(rs, Down(s, nodes, ""), fuel);
    Ok(t.text)
  }

  /** `serializeDocument(document)` */
  function SerializeDocument(rs: RuleSet, s: State, doc: Node, fuel: nat): Result<string> {
    Serialize(rs, Use(s, "document"), [doc], fuel)
  }

  /** `serializeNode(node)` */
  function SerializeNode(rs: RuleSet, s: State, n: Node, fuel: nat): Result<string> {
    Serialize(rs, s, [n], fuel)
  }

  /** `deserialize(text)`: the nodes parsed from `text` one level down. */
  function Deserialize(rs: RuleSet, s: State, text: string, fuel: nat): Result<seq<Node>> {
    var t :- Lex(rs, Down(s, [], text), DefaultLexOptions, fuel);
    Ok(t.nodes)
  }

  /** A lexing pass over a state a rule has prepared (a lower level with its
      own text and scope): `lex()`. */
  type Lexer = State -> Result<State>

  /** The lexing pass with the rules of `rs`. */
  function LexerOf(rs: RuleSet, fuel: nat): Lexer {
    (t: State) => Lex(rs, t, DefaultLexOptions, fuel)
  }

  /** A printing pass over nodes from a state a rule has prepared:
      `serialize(nodes)`. */
  type Printer = (State, seq<Node>) -> Result<string>

  /** The printing pass with the rules of `rs`. */
  function PrinterOf(rs: RuleSet, fuel: nat): Printer {
    (t: State, nodes: seq<Node>) => Serialize(rs, t, nodes, fuel)
  }

  /** The document `deserializeToDocument` builds from the parsed nodes: the
      first node, or an empty document; a result without children gets one
      empty paragraph. A first node that is a text has no child list and
      throws. */
  function DocumentOf(nodes: seq<Node>): (r: Result<Node>)
    ensures r.Ok? ==> !r.value.Text? && |r.value.nodes| > 0
    ensures nodes == [] ==> r == Ok(Document([], [NewBlock(PARAGRAPH, [EmptyText])]))
    ensures |nodes| > 0 ==> (r.Ok? <==> !nodes[0].Text?)
    ensures |nodes| > 0 && r.Ok? ==> r.value == nodes[0].(nodes := r.value.nodes)
    ensures |nodes| > 0 && !nodes[0].Text? && |nodes[0].nodes| > 0 ==> r == Ok(nodes[0])
  {
    var doc := if |nodes| > 0 then nodes[0] else Document([], []);
    if doc.Text? then Err(TypeError("nodes of a text node"))
    else if |doc.nodes| == 0 then Ok(doc.(nodes := [NewBlock(PARAGRAPH, [EmptyText])]))
    else Ok(doc)
  }

  /** `deserializeToDocument(text)`: never a document without children. */
  function DeserializeToDocument(rs: RuleSet, s: State, text: string, fuel: nat): (r: Result<Node>)
    ensures r.Ok? ==> !r.value.Text? && |r.value.nodes| > 0
  {
    var nodes :- Deserialize(rs, Use(s, "document"), text, fuel);
    DocumentOf(nodes)
  }
}
