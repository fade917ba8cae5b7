/**
 * Headings: `# Title {#id}` and underlined titles are parsed into one of six
 * heading blocks; a heading is printed back as its level's number of `#`,
 * its inline text and, when it has an id, an empty anchor.
 *
 * The heading regular expressions are match oracles: a match is given to
 * the parser action as a value. The inline lexer and printer the rule calls
 * are function parameters, instantiated from a rule table at the end.
 */
module Headings {
  import opened Outcomes
  import opened Schema
  import opened ParseState
  import JsString

  /** The heading block types, level 1 first. */
  const TYPES: seq<string> := [HEADING_1, HEADING_2, HEADING_3, HEADING_4, HEADING_5, HEADING_6]

  predicate IsLevel(level: int) {
    1 <= level <= 6
  }

  /** `TYPES[level - 1]` */
  function HeadingType(level: int): string
    requires IsLevel(level)
  {
    TYPES[level - 1]
  }

  predicate IsHeadingType(kind: string) {
    kind in TYPES
  }

  /** `TYPES.indexOf(type) + 1` */
  function LevelOf(kind: string): (level: int)
    requires IsHeadingType(kind)
    ensures IsLevel(level) && HeadingType(level) == kind
  {
    if kind == HEADING_1 then 1
    else if kind == HEADING_2 then 2
    else if kind == HEADING_3 then 3
    else if kind == HEADING_4 then 4
    else if kind == HEADING_5 then 5
    else 6
  }

  /** The heading types are pairwise different, so a type names one level. */
  lemma HeadingLevelRoundTrip(level: int)
    requires IsLevel(level)
    ensures IsHeadingType(HeadingType(level)) && LevelOf(HeadingType(level)) == level
  {
  }

  // ----- printing ---------------------------------------------------------------

  /** `Array(depth + 2).join('#')` for the heading at `depth = level - 1`. */
  function Prefix(level: int): (r: string)
    requires IsLevel(level)
  {
    JsString.Join(seq(level + 1, _ => ""), "#")
  }

  /** Joining `n + 1` empty strings with `#` gives exactly `n` of them. */
  lemma {:induction false} JoinEmpties(n: nat)
    ensures JsString.Join(seq(n + 1, _ => ""), "#") == JsString.Repeat('#', n)
  {
    if n > 0 {
      JoinEmpties(n - 1);
      JsString.JoinAppend(seq(n, _ => ""), "", "#");
      assert seq(n + 1, _ => "") == seq(n, _ => "") + [""];
      assert JsString.Repeat('#', n) == JsString.Repeat('#', n - 1) + "#";
    }
  }

  /** The prefix is exactly `level` characters `#`. */
  lemma PrefixHashes(level: int)
    requires IsLevel(level)
    ensures |Prefix(level)| == level && forall i :: 0 <= i < level ==> Prefix(level)[i] == '#'
  {
    JoinEmpties(level);
  }

  /** The inline text printer the rule calls: `state.use('inline').serialize`. */
  type InlinePrinter = seq<Node> -> Result<string>

  function InlineSerializer(rs: RuleSet, s: State, fuel: nat): InlinePrinter {
    (nodes: seq<Node>) => Serialize(rs, Use(s, "inline"), nodes, fuel)
  }

  /** The empty anchor after the title of a heading with an id. */
  function Anchor(escapeXml: string -> string, id: string): string {
    " <a id=\"" + escapeXml(id) + "\"></a>"
  }

  /** The text of one heading: prefix, a space, the inner text, the anchor
      when the id is truthy, and a blank line. A truthy id that is not a
      string cannot be escaped and throws. */
  function HeadingText(printer: InlinePrinter, escapeXml: string -> string, node: Node): (r: Result<string>)
    requires (node.Block? || node.Inline?) && IsHeadingType(node.kind)
  {
    var inner :- printer(node.nodes);
    var id := Get(node.data, "id");
    if !Truthy(id) then Ok(Prefix(LevelOf(node.kind)) + " " + inner + "\n\n")
    else if id.Str? then Ok(Prefix(LevelOf(node.kind)) + " " + inner + Anchor(escapeXml, id.s) + "\n\n")
    else Err(TypeError("escape of a non-string id"))
  }

  /** The printed heading starts with exactly its level's number of `#` and
      a space, ends with a blank line, and holds the inner text, followed by
      the anchor exactly when the id is truthy. */
  lemma HeadingTextShape(printer: InlinePrinter, escapeXml: string -> string, node: Node)
    requires (node.Block? || node.Inline?) && IsHeadingType(node.kind)
    ensures var r := HeadingText(printer, escapeXml, node);
      var level := LevelOf(node.kind);
      var id := Get(node.data, "id");
      r.Ok? <==> printer(node.nodes).Ok? && (!Truthy(id) || id.Str?)
    ensures var r := HeadingText(printer, escapeXml, node);
      var level := LevelOf(node.kind);
      var id := Get(node.data, "id");
      r.Ok? ==> (|r.value| >= level + 3
        && (forall i :: 0 <= i < level ==> r.value[i] == '#')
        && r.value[level] == ' '
        && r.value[|r.value| - 2..] == "\n\n"
        && r.value[level + 1..|r.value| - 2]
          == printer(node.nodes).value + (if Truthy(id) then Anchor(escapeXml, id.s) else ""))
  {
    var r := HeadingText(printer, escapeXml, node);
    var level := LevelOf(node.kind);
    PrefixHashes(level);
    if r.Ok? {
      var id := Get(node.data, "id");
      var tail := printer(node.nodes).value + (if Truthy(id) then Anchor(escapeXml, id.s) else "");
      assert r.value == Prefix(level) + " " + tail + "\n\n";
      assert r.value[level + 1..|r.value| - 2] == tail;
    }
  }

  /** `matchType(TYPES)`: a node whose type is a heading type, block or
      inline. */
  predicate IsHeading(node: Node) {
    (node.Block? || node.Inline?) && IsHeadingType(node.kind)
  }

  /** The heading rule's printer: a heading at the head of the nodes is
      replaced by its text; any other head is declined. */
  function SerializeHeading(printer: InlinePrinter, escapeXml: string -> string, s: State): (r: Result<Option<State>>)
    ensures Peek(s).None? || !IsHeading(Peek(s).value) ==> r == Ok(None)
    ensures r.Ok? && r.value.Some? ==> (Peek(s).Some? && IsHeading(Peek(s).value)
      && HeadingText(printer, escapeXml, Peek(s).value).Ok?
      && r.value.value == Write(Shift(s), HeadingText(printer, escapeXml, Peek(s).value).value))
  {
    match Peek(s)
    case None => Ok(None)
    case Some(node) =>
      if !IsHeading(node) then Ok(None)
      else
        var out :- HeadingText(printer, escapeXml, node);
        Ok(Some(Write(Shift(s), out)))
  }

  // ----- trimming the inline nodes ----------------------------------------------

  /** `getLeaves()`: a text without leaves reads as one empty leaf. */
  function LeavesOf(n: Node): (r: seq<Leaf>)
    requires n.Text?
    ensures |r| > 0 && LeavesText(r) == LeavesText(n.leaves)
  {
    if |n.leaves| == 0 then [Leaf("", [])] else n.leaves
  }

  /** `trimLeftNodesText`: the first leaf of a leading text node loses its
      leading whitespace; other lists are kept. */
  function TrimLeftNodes(nodes: seq<Node>): seq<Node> {
    if |nodes| == 0 || !nodes[0].Text? then nodes
    else
      var leaves := LeavesOf(nodes[0]);
      [Text([leaves[0].(text := JsString.TrimStart(leaves[0].text))] + leaves[1..])] + nodes[1..]
  }

  /** `trimRightNodesText`: the mirror image on the last leaf of a trailing
      text node. */
  function TrimRightNodes(nodes: seq<Node>): seq<Node> {
    if |nodes| == 0 || !nodes[|nodes| - 1].Text? then nodes
    else
      var leaves := LeavesOf(nodes[|nodes| - 1]);
      var last := leaves[|leaves| - 1];
      nodes[..|nodes| - 1] + [Text(leaves[..|leaves| - 1] + [last.(text := JsString.TrimEnd(last.text))])]
  }

  lemma NodesTextCons(n: Node, rest: seq<Node>)
    ensures NodesText([n] + rest) == TextOf(n) + NodesText(rest)
  {
    assert ([n] + rest)[1..] == rest;
  }

  lemma LeavesTextCons(l: Leaf, rest: seq<Leaf>)
    ensures LeavesText([l] + rest) == l.text + LeavesText(rest)
  {
    assert ([l] + rest)[1..] == rest;
  }

  lemma {:induction false} NodesTextAppend(ns: seq<Node>, n: Node)
    ensures NodesText(ns + [n]) == NodesText(ns) + TextOf(n)
    decreases |ns|
  {
    if |ns| == 0 {
      assert ns + [n] == [n];
    } else {
      NodesTextAppend(ns[1..], n);
      assert (ns + [n])[1..] == ns[1..] + [n];
    }
  }

  lemma {:induction false} LeavesTextAppend(ls: seq<Leaf>, l: Leaf)
    ensures LeavesText(ls + [l]) == LeavesText(ls) + l.text
    decreases |ls|
  {
    if |ls| == 0 {
      assert ls + [l] == [l];
    } else {
      LeavesTextAppend(ls[1..], l);
      assert (ls + [l])[1..] == ls[1..] + [l];
    }
  }

  /** Left trimming keeps the number of nodes and every node after the
      first, and keeps a list that does not start with a text. */
  lemma TrimLeftNodesShape(nodes: seq<Node>)
    ensures |TrimLeftNodes(nodes)| == |nodes|
    ensures |nodes| > 0 ==> TrimLeftNodes(nodes)[1..] == nodes[1..]
    ensures |nodes| == 0 || !nodes[0].Text? ==> TrimLeftNodes(nodes) == nodes
  {
  }

  /** Left trimming only removes whitespace, and only from the front of the
      text. */
  lemma TrimLeftNodesText(nodes: seq<Node>)
    ensures var r := NodesText(TrimLeftNodes(nodes)); var t := NodesText(nodes);
      |r| <= |t| && r == t[|t| - |r|..] && JsString.AllSpace(t[..|t| - |r|])
  {
    if |nodes| > 0 && nodes[0].Text? {
      var full, rest := TrimLeftSplit(nodes);
      Suffix(full, JsString.TrimStart(full), rest);
    } else {
      assert NodesText(nodes)[..0] == [];
    }
  }

  /** The text of the nodes as the first leaf's text and the text after
      it, before and after left trimming. */
  lemma TrimLeftSplit(nodes: seq<Node>) returns (full: string, rest: string)
    requires |nodes| > 0 && nodes[0].Text?
    ensures NodesText(nodes) == full + rest
    ensures NodesText(TrimLeftNodes(nodes)) == JsString.TrimStart(full) + rest
  {
    var leaves := LeavesOf(nodes[0]);
    var l0 := leaves[0];
    var tr := JsString.TrimStart(l0.text);
    LeavesTextCons(l0.(text := tr), leaves[1..]);
    NodesTextCons(Text([l0.(text := tr)] + leaves[1..]), nodes[1..]);
    assert NodesText(nodes) == LeavesText(leaves) + NodesText(nodes[1..]);
    assert LeavesText(leaves) == l0.text + LeavesText(leaves[1..]);
    rest := LeavesText(leaves[1..]) + NodesText(nodes[1..]);
    var x := Text([l0.(text := tr)] + leaves[1..]);
    assert TrimLeftNodes(nodes) == [x] + nodes[1..];
    assert TextOf(x) == tr + LeavesText(leaves[1..]);
    full := l0.text;
  }

  /** A suffix of `a`, both followed by `rest`, is a suffix of `a + rest`. */
  lemma Suffix(a: string, b: string, rest: string)
    requires |b| <= |a| && b == a[|a| - |b|..] && JsString.AllSpace(a[..|a| - |b|])
    ensures var t := a + rest; var r := b + rest;
      |r| <= |t| && r == t[|t| - |r|..] && JsString.AllSpace(t[..|t| - |r|])
  {
    var t := a + rest;
    assert t[..|t| - |b + rest|] == a[..|a| - |b|];
  }

  /** A prefix of `a`, both preceded by `before`, is a prefix of `before + a`. */
  lemma Prefixed(before: string, a: string, b: string)
    requires |b| <= |a| && b == a[..|b|] && JsString.AllSpace(a[|b|..])
    ensures var t := before + a; var r := before + b;
      |r| <= |t| && r == t[..|r|] && JsString.AllSpace(t[|r|..])
  {
    var t := before + a;
    assert t[|before + b|..] == a[|b|..];
  }

  /** Right trimming keeps the number of nodes and every node before the
      last, and keeps a list that does not end with a text. */
  lemma TrimRightNodesShape(nodes: seq<Node>)
    ensures |TrimRightNodes(nodes)| == |nodes|
    ensures |nodes| > 0 ==> TrimRightNodes(nodes)[..|nodes| - 1] == nodes[..|nodes| - 1]
    ensures |nodes| == 0 || !nodes[|nodes| - 1].Text? ==> TrimRightNodes(nodes) == nodes
  {
  }

  /** Right trimming only removes whitespace, and only from the end of the
      text. */
  lemma TrimRightNodesText(nodes: seq<Node>)
    ensures var r := NodesText(TrimRightNodes(nodes)); var t := NodesText(nodes);
      |r| <= |t| && r == t[..|r|] && JsString.AllSpace(t[|r|..])
  {
    if |nodes| > 0 && nodes[|nodes| - 1].Text? {
      var before, full := TrimRightSplit(nodes);
      Prefixed(before, full, JsString.TrimEnd(full));
    } else {
      assert NodesText(nodes)[|NodesText(nodes)|..] == [];
    }
  }

  /** The text of the nodes as the text before the last leaf and the last
      leaf's text, before and after right trimming. */
  lemma TrimRightSplit(nodes: seq<Node>) returns (before: string, full: string)
    requires |nodes| > 0 && nodes[|nodes| - 1].Text?
    ensures NodesText(nodes) == before + full
    ensures NodesText(TrimRightNodes(nodes)) == before + JsString.TrimEnd(full)
  {
    var leaves := LeavesOf(nodes[|nodes| - 1]);
    full := leaves[|leaves| - 1].text;
    before := LastLeafText(nodes, JsString.TrimEnd(full));
  }

  /** The text of the nodes with the text of the last leaf of a trailing
      text node replaced by `tr`. */
  lemma LastLeafText(nodes: seq<Node>, tr: string) returns (before: string)
    requires |nodes| > 0 && nodes[|nodes| - 1].Text?
    ensures var leaves := LeavesOf(nodes[|nodes| - 1]);
      var m := |leaves| - 1;
      && NodesText(nodes) == before + leaves[m].text
      && NodesText(nodes[..|nodes| - 1] + [Text(leaves[..m] + [leaves[m].(text := tr)])]) == before + tr
  {
    var n := |nodes| - 1;
    var leaves := LeavesOf(nodes[n]);
    var m := |leaves| - 1;
    var last := leaves[m];
    var x := Text(leaves[..m] + [last.(text := tr)]);
    var front := nodes[..n];
    var lt := LeavesText(leaves[..m]);
    assert TextOf(x) == lt + tr by {
      LeavesTextAppend(leaves[..m], last.(text := tr));
    }
    assert TextOf(nodes[n]) == lt + last.text by {
      LeavesTextAppend(leaves[..m], last);
      assert leaves[..m] + [last] == leaves;
    }
    assert NodesText(front + [x]) == NodesText(front) + TextOf(x) by {
      NodesTextAppend(front, x);
    }
    assert NodesText(nodes) == NodesText(front) + TextOf(nodes[n]) by {
      NodesTextAppend(front, nodes[n]);
      assert front + [nodes[n]] == nodes;
    }
    before := NodesText(front) + lt;
    assert NodesText(front) + (lt + tr) == before + tr;
    assert NodesText(front) + (lt + last.text) == before + last.text;
  }

  /** Trimming the left twice trims nothing more. */
  lemma TrimLeftIdempotent(nodes: seq<Node>)
    ensures TrimLeftNodes(TrimLeftNodes(nodes)) == TrimLeftNodes(nodes)
  {
    if |nodes| > 0 && nodes[0].Text? {
      var leaves := LeavesOf(nodes[0]);
      var tr := JsString.TrimStart(leaves[0].text);
      TrimStartIdempotent(leaves[0].text);
      var once := TrimLeftNodes(nodes);
      var first := [leaves[0].(text := tr)] + leaves[1..];
      assert once[0] == Text(first);
      assert LeavesOf(once[0]) == first;
      assert first[1..] == leaves[1..];
      assert once[1..] == nodes[1..];
    }
  }

  /** Trimming the right twice trims nothing more. */
  lemma TrimRightIdempotent(nodes: seq<Node>)
    ensures TrimRightNodes(TrimRightNodes(nodes)) == TrimRightNodes(nodes)
  {
    if |nodes| > 0 && nodes[|nodes| - 1].Text? {
      var n := |nodes| - 1;
      var leaves := LeavesOf(nodes[n]);
      var m := |leaves| - 1;
      var tr := JsString.TrimEnd(leaves[m].text);
      TrimEndIdempotent(leaves[m].text);
      var once := TrimRightNodes(nodes);
      var lastLeaves := leaves[..m] + [leaves[m].(text := tr)];
      assert once[n] == Text(lastLeaves);
      assert LeavesOf(once[n]) == lastLeaves;
      assert lastLeaves[..m] == leaves[..m];
      assert once[..n] == nodes[..n];
    }
  }

  lemma TrimStartIdempotent(s: string)
    ensures JsString.TrimStart(JsString.TrimStart(s)) == JsString.TrimStart(s)
  {
  }

  lemma TrimEndIdempotent(s: string)
    ensures JsString.TrimEnd(JsString.TrimEnd(s)) == JsString.TrimEnd(s)
  {
  }

  // ----- parsing ----------------------------------------------------------------

  /** A match of the id pattern `{#id}`: the matched text and the id. */
  datatype IdMatch = IdMatch(whole: string, id: string)

  /** The text the inline lexer reads: without the id pattern, trimmed. */
  function HeadingBody(text: string, matchId: Option<IdMatch>): string {
    match matchId
    case Some(m) => JsString.Trim(JsString.ReplaceFirst(text, m.whole, ""))
    case None => JsString.Trim(text)
  }

  /** The id the heading keeps: an explicit non-empty id, else the last
      anchor the inline text set when it is truthy, else none. */
  function ChosenId(matchId: Option<IdMatch>, lastAnchor: Value): (r: Option<Value>)
    ensures r.Some? ==> Truthy(r.value)
  {
    if matchId.Some? && matchId.value.id != "" then Some(Str(matchId.value.id))
    else if Truthy(lastAnchor) then Some(lastAnchor)
    else None
  }

  /** `Block.create({ type, nodes, data })` for data `{ id }` or none. */
  function HeadingNode(level: int, nodes: seq<Node>, id: Option<Value>): Node
    requires IsLevel(level)
  {
    Block(HeadingType(level), if id.Some? then [Entry("id", id.value)] else [], false,
      TrimRightNodes(TrimLeftNodes(nodes)))
  }

  /** `parseHeadingText(state, level, text)` */
  function ParseHeadingText(lex: Lexer, s: State, level: int, text: string, matchId: Option<IdMatch>)
    : (r: Result<State>)
    requires IsLevel(level)
    ensures r.Ok? ==> lex(LoweredState(s, text, matchId)).Ok? && |r.value.nodes| > 0
  {
    var inner :- lex(LoweredState(s, text, matchId));
    var id := ChosenId(matchId, GetProp(inner, "lastAnchorId", Undefined));
    var up :- Up(inner);
    Ok(Push(SetProp(up, "lastAnchorId", Null), OneNode(HeadingNode(level, inner.nodes, id))))
  }

  /** The state the inline lexer is given. */
  function LoweredState(s: State, text: string, matchId: Option<IdMatch>): State {
    Use(Down(s, [], HeadingBody(text, matchId)), "inline")
  }

  /** Parsing a heading fails exactly when lexing its text fails or the
      lexer leaves no level to go back up to. */
  lemma ParseHeadingTextOk(lex: Lexer, s: State, level: int, text: string, matchId: Option<IdMatch>)
    requires IsLevel(level)
    ensures var t := LoweredState(s, text, matchId);
      ParseHeadingText(lex, s, level, text, matchId).Ok? <==> lex(t).Ok? && |lex(t).value.stack| > 0
  {
  }

  /** The parts of a parsed heading: the lexed inline state, the level it
      goes back up to, and the node pushed there. */
  lemma ParsedHeading(lex: Lexer, s: State, level: int, text: string, matchId: Option<IdMatch>)
    returns (inner: State, up: State, node: Node)
    requires IsLevel(level) && ParseHeadingText(lex, s, level, text, matchId).Ok?
    ensures lex(LoweredState(s, text, matchId)) == Ok(inner) && |inner.stack| > 0 && Up(inner) == Ok(up)
    ensures node == HeadingNode(level, inner.nodes, ChosenId(matchId, GetProp(inner, "lastAnchorId", Undefined)))
    ensures ParseHeadingText(lex, s, level, text, matchId).value
      == up.(nodes := up.nodes + [node], props := Schema.Set(up.props, "lastAnchorId", Null))
  {
    inner := lex(LoweredState(s, text, matchId)).value;
    up := Up(inner).value;
    node := HeadingNode(level, inner.nodes, ChosenId(matchId, GetProp(inner, "lastAnchorId", Undefined)));
  }

  /** A parsed heading is the nodes saved when the inline level was entered,
      plus one heading block of the requested level holding the trimmed
      inline nodes. */
  lemma ParseHeadingTextNodes(lex: Lexer, s: State, level: int, text: string, matchId: Option<IdMatch>,
                              inner: State, r: State)
    requires IsLevel(level)
    requires lex(LoweredState(s, text, matchId)) == Ok(inner)
    requires ParseHeadingText(lex, s, level, text, matchId) == Ok(r)
    ensures |r.nodes| > 0 && |inner.stack| > 0
    ensures r.nodes[..|r.nodes| - 1] == inner.stack[|inner.stack| - 1].nodes
    ensures var node := r.nodes[|r.nodes| - 1];
      && node.Block? && node.kind == HeadingType(level) && LevelOf(node.kind) == level
      && node.nodes == TrimRightNodes(TrimLeftNodes(inner.nodes))
  {
    var inner', up, node := ParsedHeading(lex, s, level, text, matchId);
    HeadingLevelRoundTrip(level);
    assert r.nodes == up.nodes + [node];
    assert r.nodes[..|r.nodes| - 1] == up.nodes;
  }

  /** The heading's id is the explicit one when it is non-empty, else the
      last anchor the inline text set when that is truthy, else there is
      none; either way the last anchor is reset to null. */
  lemma ParseHeadingTextId(lex: Lexer, s: State, level: int, text: string, matchId: Option<IdMatch>,
                           inner: State, r: State)
    requires IsLevel(level)
    requires lex(LoweredState(s, text, matchId)) == Ok(inner)
    requires ParseHeadingText(lex, s, level, text, matchId) == Ok(r)
    ensures |r.nodes| > 0 && r.nodes[|r.nodes| - 1].Block?
    ensures var data := r.nodes[|r.nodes| - 1].data;
      var anchor := GetProp(inner, "lastAnchorId", Undefined);
      var explicit := matchId.Some? && matchId.value.id != "";
      && (explicit ==> Get(data, "id") == Str(matchId.value.id))
      && (!explicit && Truthy(anchor) ==> Get(data, "id") == anchor)
      && (!explicit && !Truthy(anchor) ==> !Has(data, "id"))
    ensures GetProp(r, "lastAnchorId", Undefined) == Null
  {
    var inner', up, node := ParsedHeading(lex, s, level, text, matchId);
    GetPropAfterSetProp(up, "lastAnchorId", Null, "lastAnchorId", Undefined);
    HeadingNodeData(level, inner.nodes, ChosenId(matchId, GetProp(inner, "lastAnchorId", Undefined)));
    assert r.nodes[|r.nodes| - 1] == node;
    assert r.props == SetProp(up, "lastAnchorId", Null).props;
  }

  /** A parsed heading prints back with the number of `#` of the level it
      was parsed at. */
  lemma ParsedHeadingPrintsLevel(lex: Lexer, s: State, level: int, text: string, matchId: Option<IdMatch>,
                                 inner: State, r: State, printer: InlinePrinter, escapeXml: string -> string)
    requires IsLevel(level)
    requires lex(LoweredState(s, text, matchId)) == Ok(inner)
    requires ParseHeadingText(lex, s, level, text, matchId) == Ok(r)
    ensures |r.nodes| > 0 && r.nodes[|r.nodes| - 1].Block? && IsHeadingType(r.nodes[|r.nodes| - 1].kind)
    ensures var out := HeadingText(printer, escapeXml, r.nodes[|r.nodes| - 1]);
      out.Ok? ==> (|out.value| > level && (forall i :: 0 <= i < level ==> out.value[i] == '#')
        && out.value[level] == ' ')
  {
    ParseHeadingTextNodes(lex, s, level, text, matchId, inner, r);
    HeadingLevelRoundTrip(level);
    HeadingTextShape(printer, escapeXml, r.nodes[|r.nodes| - 1]);
  }

  lemma HeadingNodeData(level: int, nodes: seq<Node>, id: Option<Value>)
    requires IsLevel(level)
    ensures id.Some? ==> Get(HeadingNode(level, nodes, id).data, "id") == id.value
    ensures id.None? ==> !Has(HeadingNode(level, nodes, id).data, "id")
  {
    if id.Some? {
      assert [Entry("id", id.value)][0].key == "id";
    }
  }

  /** Which line of an underlined heading carries the level: `=` is level
      one, anything else level two. */
  function LineLevel(underline: string): (level: int)
    ensures IsLevel(level)
    ensures level == 1 <==> underline == "="
  {
    if underline == "=" then 1 else 2
  }

  /** A match of one of the heading patterns: the matched text, the text of
      the title and its level (the number of `#`, or the underline's level). */
  datatype HeadingMatch = HeadingMatch(whole: string, title: string, level: int)

  /** A `#`-heading match: one to six `#` and the title. */
  function NormalMatch(whole: string, hashes: string, title: string): HeadingMatch {
    HeadingMatch(whole, title, |hashes|)
  }

  /** An underlined heading match: the title and the last underline character. */
  function LineMatch(whole: string, title: string, underline: string): HeadingMatch {
    HeadingMatch(whole, title, LineLevel(underline))
  }

  /** The parser action of one heading pattern (`matchRegExp`): no match
      declines; a match is skipped in the buffer and its title parsed. */
  function DeserializeMatch(lex: Lexer, s: State, m: Option<HeadingMatch>, matchId: Option<IdMatch>)
    : (r: Result<Option<State>>)
    requires m.Some? ==> IsLevel(m.value.level)
    ensures m.None? ==> r == Ok(None)
    ensures m.Some? ==> (r.Ok? <==> ParseHeadingText(lex, Skip(s, |m.value.whole|), m.value.level, m.value.title, matchId).Ok?)
    ensures m.Some? && r.Ok? ==> r.value == Some(ParseHeadingText(lex, Skip(s, |m.value.whole|), m.value.level, m.value.title, matchId).value)
  {
    match m
    case None => Ok(None)
    case Some(hm) =>
      var t :- ParseHeadingText(lex, Skip(s, |hm.whole|), hm.level, hm.title, matchId);
      Ok(Some(t))
  }

  /** `use([deserializeNormal, deserializeLine])`: the `#` form is tried
      first; the underlined form only when it does not match. Each match
      comes with the id found in its own title. */
  function DeserializeHeading(lex: Lexer, s: State,
                              normal: Option<HeadingMatch>, normalId: Option<IdMatch>,
                              line: Option<HeadingMatch>, lineId: Option<IdMatch>): (r: Result<Option<State>>)
    requires normal.Some? ==> IsLevel(normal.value.level)
    requires line.Some? ==> IsLevel(line.value.level)
    ensures normal.Some? ==> r == DeserializeMatch(lex, s, normal, normalId)
    ensures normal.None? ==> r == DeserializeMatch(lex, s, line, lineId)
  {
    if normal.Some? then DeserializeMatch(lex, s, normal, normalId)
    else DeserializeMatch(lex, s, line, lineId)
  }
}
