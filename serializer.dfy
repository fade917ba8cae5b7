/**
 * Serializer combinators: rule functions that only apply to certain nodes
 * (by type, by object, by mark) and that rewrite the leaves of the first
 * text node.
 */
module Serializers {
  import opened Outcomes
  import opened Schema
  import opened ParseState
  import opened RuleFunctions

  /** A normalized matcher, applied to a type, an object or a mark type. */
  type Matcher = Option<string> -> bool

  /** The matcher forms the source accepts; anything else is `Other`. */
  datatype MatcherInput =
    | FunctionMatcher(f: Matcher)
    | ArrayMatcher(items: seq<string>)
    | StringMatcher(name: string)
    | OtherMatcher

  /** `normalizeMatcher(matcher)` */
  function NormalizeMatcher(m: MatcherInput): (r: Result<Matcher>)
    ensures r.Err? <==> m.OtherMatcher?
    ensures r.Err? ==> r.error == CannotNormalizeMatcher
    ensures m.FunctionMatcher? ==> r == Ok(m.f)
    ensures m.ArrayMatcher? ==> forall t :: r.value(t) <==> t.Some? && t.value in m.items
    ensures m.StringMatcher? ==> forall t :: r.value(t) <==> t == Some(m.name)
  {
    match m
    case FunctionMatcher(f) => Ok(f)
    case ArrayMatcher(items) => Ok((t: Option<string>) => t.Some? && t.value in items)
    case StringMatcher(name) => Ok((t: Option<string>) => t == Some(name))
    case OtherMatcher => Err(CannotNormalizeMatcher)
  }

  /** The first node satisfies `f` on its type. */
  predicate TopTypeIs(s: State, f: Matcher) {
    Peek(s).Some? && f(TypeOf(Peek(s).value))
  }

  /** The first node satisfies `f` on its object. */
  predicate TopObjectIs(s: State, f: Matcher) {
    Peek(s).Some? && f(Some(ObjectOf(Peek(s).value)))
  }

  function MatchTypeWith(rf: RuleFunction, f: Matcher): RuleFunction {
    Filter(rf, (s: State) => TopTypeIs(s, f))
  }

  function MatchObjectWith(rf: RuleFunction, f: Matcher): RuleFunction {
    Filter(rf, (s: State) => TopObjectIs(s, f))
  }

  /** `matchType(matcher)` */
  function MatchType(rf: RuleFunction, m: MatcherInput): Result<RuleFunction> {
    var f :- NormalizeMatcher(m);
    Ok(MatchTypeWith(rf, f))
  }

  /** `matchObject(matcher)` */
  function MatchObject(rf: RuleFunction, m: MatcherInput): Result<RuleFunction> {
    var f :- NormalizeMatcher(m);
    Ok(MatchObjectWith(rf, f))
  }

  function IsTextObject(t: Option<string>): bool {
    t == Some("text")
  }

  /** Some leaf of the node carries a mark whose type satisfies `f`. */
  predicate HasMarkedLeaf(n: Node, f: Matcher) {
    n.Text? && exists i, j :: 0 <= i < |n.leaves| && 0 <= j < |n.leaves[i].marks| && f(Some(n.leaves[i].marks[j]))
  }

  function MatchMarkWith(rf: RuleFunction, f: Matcher): RuleFunction {
    Filter(MatchObjectWith(rf, IsTextObject), (s: State) => Peek(s).Some? && HasMarkedLeaf(Peek(s).value, f))
  }

  /** `matchMark(matcher)` */
  function MatchMark(rf: RuleFunction, m: MatcherInput): Result<RuleFunction> {
    var f :- NormalizeMatcher(m);
    Ok(MatchMarkWith(rf, f))
  }

  /** `matchType` and `matchObject` pass exactly when the first node's type or
      object satisfies the matcher, and then change nothing. */
  lemma MatchTypeObjectRun(rf: RuleFunction, m: MatcherInput, s: State)
    requires !m.OtherMatcher?
    ensures var f := NormalizeMatcher(m).value;
      && (Run(MatchType(rf, m).value, s).Some? <==> Run(rf, s).Some? && TopTypeIs(Run(rf, s).value, f))
      && (Run(MatchObject(rf, m).value, s).Some? <==> Run(rf, s).Some? && TopObjectIs(Run(rf, s).value, f))
      && (Run(MatchType(rf, m).value, s).Some? ==> Run(MatchType(rf, m).value, s) == Run(rf, s))
      && (Run(MatchObject(rf, m).value, s).Some? ==> Run(MatchObject(rf, m).value, s) == Run(rf, s))
  {
  }

  /** A string matcher on types accepts exactly the nodes of that type. */
  lemma MatchTypeByName(rf: RuleFunction, name: string, s: State)
    ensures Run(MatchType(rf, StringMatcher(name)).value, s).Some? <==>
      Run(rf, s).Some? && |Run(rf, s).value.nodes| > 0 && TypeOf(Run(rf, s).value.nodes[0]) == Some(name)
  {
  }

  /** `matchMark` needs a text node with at least one leaf carrying a
      matching mark. */
  lemma MatchMarkRun(rf: RuleFunction, m: MatcherInput, s: State)
    requires !m.OtherMatcher?
    ensures var f := NormalizeMatcher(m).value;
      Run(MatchMark(rf, m).value, s).Some? <==>
        Run(rf, s).Some? && |Run(rf, s).value.nodes| > 0 && HasMarkedLeaf(Run(rf, s).value.nodes[0], f)
  {
  }

  // ----- leaf rewriting -----------------------------------------------------

  function MapLeaves(s: State, leaves: seq<Leaf>, f: (State, Leaf) -> Leaf): (r: seq<Leaf>)
    ensures |r| == |leaves| && forall i :: 0 <= i < |leaves| ==> r[i] == f(s, leaves[i])
  {
    seq(|leaves|, i requires 0 <= i < |leaves| => f(s, leaves[i]))
  }

  /** The callback of `transformLeaves`: rebuild the first text node. */
  function RewriteFirstText(s: State, f: (State, Leaf) -> Leaf): Option<State> {
    match Peek(s)
    case Some(Text(leaves)) => Some(Unshift(Shift(s), Text(MapLeaves(s, leaves, f))))
    case _ => None
  }

  /** `transformLeaves(transform)` */
  function TransformLeaves(rf: RuleFunction, f: (State, Leaf) -> Leaf): RuleFunction {
    Then(MatchObjectWith(rf, IsTextObject), (s: State) => RewriteFirstText(s, f))
  }

  /** `transformLeaves` applies when the first node is a text; it replaces
      that node only, by a text with as many leaves, each transformed. */
  lemma TransformLeavesRun(rf: RuleFunction, f: (State, Leaf) -> Leaf, s: State)
    ensures Run(TransformLeaves(rf, f), s).Some? <==>
      Run(rf, s).Some? && |Run(rf, s).value.nodes| > 0 && Run(rf, s).value.nodes[0].Text?
    ensures Run(TransformLeaves(rf, f), s).Some? ==>
      var p := Run(rf, s).value;
      var r := Run(TransformLeaves(rf, f), s).value;
      && r.(nodes := p.nodes) == p
      && |r.nodes| == |p.nodes| && r.nodes[1..] == p.nodes[1..]
      && r.nodes[0].Text? && |r.nodes[0].leaves| == |p.nodes[0].leaves|
      && forall i :: 0 <= i < |p.nodes[0].leaves| ==> r.nodes[0].leaves[i] == f(p, p.nodes[0].leaves[i])
  {
  }

  /** The position of the first mark satisfying `f`. */
  function FirstMatching(marks: seq<string>, f: Matcher): (r: Option<nat>)
    ensures r.Some? ==> (r.value < |marks| && f(Some(marks[r.value]))
      && forall j :: 0 <= j < r.value ==> !f(Some(marks[j])))
    ensures r.None? ==> forall j :: 0 <= j < |marks| ==> !f(Some(marks[j]))
    decreases |marks|
  {
    if |marks| == 0 then None
    else if f(Some(marks[0])) then Some(0)
    else match FirstMatching(marks[1..], f)
      case None => None
      case Some(k) => Some(k + 1)
  }

  /** `marks.delete(mark)` */
  function RemoveMark(marks: seq<string>, m: string): (r: seq<string>)
    ensures m !in r && forall x :: x in marks && x != m ==> x in r
    ensures forall x :: x in r ==> x in marks
    ensures m !in marks ==> r == marks
    ensures m in marks && NoDuplicates(marks) ==> |r| == |marks| - 1
  {
    if |marks| == 0 then []
    else if marks[0] == m then
      assert NoDuplicates(marks) ==> m !in marks[1..];
      RemoveMark(marks[1..], m)
    else
      assert NoDuplicates(marks) ==> NoDuplicates(marks[1..]);
      assert m in marks ==> m in marks[1..];
      [marks[0]] + RemoveMark(marks[1..], m)
  }

  predicate NoDuplicates(marks: seq<string>) {
    forall i, j :: 0 <= i < j < |marks| ==> marks[i] != marks[j]
  }

  /** The leaf callback of `transformMarkedLeaf`. */
  function MarkedLeaf(s: State, leaf: Leaf, f: Matcher, transform: (State, string, string) -> string): (r: Leaf)
    ensures FirstMatching(leaf.marks, f).None? ==> r == leaf
    ensures FirstMatching(leaf.marks, f).Some? ==>
      var m := leaf.marks[FirstMatching(leaf.marks, f).value];
      r.text == transform(s, leaf.text, m) && m !in r.marks
      && forall x :: x in leaf.marks && x != m <==> x in r.marks
  {
    match FirstMatching(leaf.marks, f)
    case None => leaf
    case Some(k) =>
      var m := leaf.marks[k];
      Leaf(transform(s, leaf.text, m), RemoveMark(leaf.marks, m))
  }

  /** `transformMarkedLeaf(matcher, transform)` */
  function TransformMarkedLeaf(rf: RuleFunction, m: MatcherInput, transform: (State, string, string) -> string)
    : Result<RuleFunction>
  {
    var f :- NormalizeMatcher(m);
    Ok(TransformLeaves(MatchMarkWith(rf, f), (s: State, leaf: Leaf) => MarkedLeaf(s, leaf, f, transform)))
  }

  /** Leaves of a text node: those carrying a matching mark get their text
      transformed and lose the first such mark; the others are unchanged. */
  lemma TransformMarkedLeafRun(rf: RuleFunction, m: MatcherInput, transform: (State, string, string) -> string, s: State)
    requires !m.OtherMatcher?
    ensures var f := NormalizeMatcher(m).value;
      var r := Run(TransformMarkedLeaf(rf, m, transform).value, s);
      && (r.Some? <==> Run(rf, s).Some? && |Run(rf, s).value.nodes| > 0 && HasMarkedLeaf(Run(rf, s).value.nodes[0], f))
      && (r.Some? ==>
        var p := Run(rf, s).value;
        && |r.value.nodes[0].leaves| == |p.nodes[0].leaves|
        && forall i :: 0 <= i < |p.nodes[0].leaves| ==>
             r.value.nodes[0].leaves[i] == MarkedLeaf(p, p.nodes[0].leaves[i], f, transform))
  {
    var f := NormalizeMatcher(m).value;
    var mm := MatchMarkWith(rf, f);
    TransformLeavesRun(mm, (s: State, leaf: Leaf) => MarkedLeaf(s, leaf, f, transform), s);
  }

  // ----- text rewriting -----------------------------------------------------

  /** `leaf.marks.add(mark)` */
  function AddMark(leaf: Leaf, m: string): (r: Leaf)
    ensures r.text == leaf.text && m in r.marks
  {
    if m in leaf.marks then leaf else leaf.(marks := leaf.marks + [m])
  }

  function IsMark(privateMark: string): Matcher {
    (t: Option<string>) => t == Some(privateMark)
  }

  /** The first node is a text whose content is not empty. */
  predicate TopTextNotEmpty(s: State) {
    Peek(s).Some? && TextOf(Peek(s).value) != ""
  }

  /** `transformText(transform)`; `privateMark` stands for the unique mark
      type the source draws with `uid()`. */
  function TransformText(rf: RuleFunction, privateMark: string, transform: (State, Leaf) -> Leaf): RuleFunction {
    TransformLeaves(UnmarkedText(rf, privateMark), MarkingLeaf(privateMark, transform))
  }

  /** The guard of `transformText`: a non-empty text without the private mark. */
  function UnmarkedText(rf: RuleFunction, privateMark: string): RuleFunction {
    FilterNot(Filter(MatchObjectWith(rf, IsTextObject), TopTextNotEmpty),
              Composed(MatchMarkWith(Identity, IsMark(privateMark))))
  }

  /** The leaf callback of `transformText`: transform, then add the private mark. */
  function MarkingLeaf(privateMark: string, transform: (State, Leaf) -> Leaf): (State, Leaf) -> Leaf {
    (s: State, leaf: Leaf) => AddMark(transform(s, leaf), privateMark)
  }

  /** Every leaf `transformText` writes carries its private mark. */
  lemma TransformTextMarks(privateMark: string, transform: (State, Leaf) -> Leaf, s: State)
    ensures Run(TransformText(Identity, privateMark, transform), s).Some? ==>
      var r := Run(TransformText(Identity, privateMark, transform), s).value;
      r.nodes[0].Text? && forall i :: 0 <= i < |r.nodes[0].leaves| ==> privateMark in r.nodes[0].leaves[i].marks
  {
    var guarded := UnmarkedText(Identity, privateMark);
    var g := MarkingLeaf(privateMark, transform);
    var tl := TransformLeaves(guarded, g);
    if Run(tl, s).Some? {
      TransformLeavesRun(guarded, g, s);
      var p := Run(guarded, s).value;
      var r := Run(tl, s).value;
      forall i | 0 <= i < |r.nodes[0].leaves| ensures privateMark in r.nodes[0].leaves[i].marks {
        assert r.nodes[0].leaves[i] == g(p, p.nodes[0].leaves[i]);
        assert g(p, p.nodes[0].leaves[i]) == AddMark(transform(p, p.nodes[0].leaves[i]), privateMark);
      }
    }
  }

  /** `transformText` refuses empty text and text that already holds its
      private mark, so applying it to its own result fails. */
  lemma TransformTextOnce(privateMark: string, transform: (State, Leaf) -> Leaf, s: State)
    requires Run(TransformText(Identity, privateMark, transform), s).Some?
    ensures Run(TransformText(Identity, privateMark, transform), Run(TransformText(Identity, privateMark, transform), s).value).None?
  {
    var tt := TransformText(Identity, privateMark, transform);
    var r := Run(tt, s).value;
    TransformTextMarks(privateMark, transform, s);
    var t := r.nodes[0];
    if |t.leaves| == 0 {
      assert TextOf(t) == "";
      assert !TopTextNotEmpty(r);
    } else {
      assert privateMark in t.leaves[0].marks;
      var j :| 0 <= j < |t.leaves[0].marks| && t.leaves[0].marks[j] == privateMark;
      assert IsMark(privateMark)(Some(t.leaves[0].marks[j]));
      assert HasMarkedLeaf(t, IsMark(privateMark));
      assert Run(MatchMarkWith(Identity, IsMark(privateMark)), r).Some?;
    }
  }
}
