/**
 * Building a document from a stream of HTML parser events. The element stack
 * holds the nodes being built (its top is the last element of the sequence);
 * appending a node repairs containment: blocks are flattened into
 * non-containers, and nodes a container does not accept are wrapped.
 */
module HtmlParse {
  import opened Outcomes
  import opened Schema
  import JsString

  // ----- tag tables ---------------------------------------------------------

  function InlineTag(tag: string): Option<string> {
    if tag == "a" then Some(LINK)
    else if tag == "img" then Some(IMAGE)
    else None
  }

  function BlockTag(tag: string): Option<string> {
    if tag == "h1" then Some(HEADING_1)
    else if tag == "h2" then Some(HEADING_2)
    else if tag == "h3" then Some(HEADING_3)
    else if tag == "h4" then Some(HEADING_4)
    else if tag == "h5" then Some(HEADING_5)
    else if tag == "h6" then Some(HEADING_6)
    else if tag == "pre" then Some(CODE)
    else if tag == "blockquote" then Some(BLOCKQUOTE)
    else if tag == "p" then Some(PARAGRAPH)
    else if tag == "hr" then Some(HR)
    else if tag == "table" then Some(TABLE)
    else if tag == "tr" then Some(TABLE_ROW)
    else if tag == "th" || tag == "td" then Some(TABLE_CELL)
    else if tag == "ul" then Some(UL_LIST)
    else if tag == "ol" then Some(OL_LIST)
    else if tag == "li" then Some(LIST_ITEM)
    else None
  }

  function MarkTag(tag: string): Option<string> {
    if tag == "b" || tag == "strong" then Some(BOLD)
    else if tag == "del" then Some(STRIKETHROUGH)
    else if tag == "em" then Some(ITALIC)
    else if tag == "code" then Some(CODE_MARK)
    else None
  }

  /** Attributes of an opening tag. */
  type Attributes = map<string, string>

  function Attr(attribs: Attributes, k: string): Value {
    if k in attribs then Str(attribs[k]) else Undefined
  }

  /** `attribs.alt || ''` */
  function AltOrEmpty(attribs: Attributes): string {
    if "alt" in attribs then attribs["alt"] else ""
  }

  /** `getData(tagName, attribs)`: the node data a tag carries. */
  function TagData(tag: string, attribs: Attributes): (r: Data)
    ensures tag == "a" ==> Get(r, "href") == Attr(attribs, "href") && Get(r, "title") == Str(AltOrEmpty(attribs))
    ensures tag == "img" ==> Get(r, "src") == Attr(attribs, "src") && Get(r, "title") == Str(AltOrEmpty(attribs))
    ensures tag in {"h1", "h2", "h3", "h4", "h5", "h6"} ==>
      (Has(r, "id") <==> "id" in attribs && attribs["id"] != "")
    ensures tag !in {"a", "img", "h1", "h2", "h3", "h4", "h5", "h6"} ==> r == []
  {
    if tag == "a" then [Entry("href", Attr(attribs, "href")), Entry("title", Str(AltOrEmpty(attribs)))]
    else if tag == "img" then [Entry("src", Attr(attribs, "src")), Entry("title", Str(AltOrEmpty(attribs)))]
    else if tag in {"h1", "h2", "h3", "h4", "h5", "h6"} then HeadingAttrs(attribs)
    else []
  }

  /** `resolveHeadingAttrs(attribs)` */
  function HeadingAttrs(attribs: Attributes): (r: Data)
    ensures Has(r, "id") <==> "id" in attribs && attribs["id"] != ""
    ensures Has(r, "id") ==> Get(r, "id") == Str(attribs["id"])
  {
    if "id" in attribs && attribs["id"] != "" then
      assert [Entry("id", Str(attribs["id"]))][0].key == "id";
      [Entry("id", Str(attribs["id"]))]
    else []
  }

  /** `getMarksForClassName(className)`: the only class giving a mark is
      `line-through`. */
  function ClassMarks(className: string): (r: seq<string>)
    ensures forall m :: m in r ==> m == STRIKETHROUGH
    ensures STRIKETHROUGH in r <==> "line-through" in JsString.Split(className, " ")
  {
    NamesToMarks(JsString.Split(className, " "))
  }

  function NamesToMarks(names: seq<string>): (r: seq<string>)
    ensures forall m :: m in r ==> m == STRIKETHROUGH
    ensures STRIKETHROUGH in r <==> "line-through" in names
  {
    if |names| == 0 then []
    else (if names[0] == "line-through" then [STRIKETHROUGH] else []) + NamesToMarks(names[1..])
  }

  // ----- mark sets (kept in insertion order) ----------------------------------

  function AddMark(marks: seq<string>, m: string): (r: seq<string>)
    ensures forall x :: x in r <==> x in marks || x == m
  {
    if m in marks then marks else marks + [m]
  }

  function UnionMarks(marks: seq<string>, more: seq<string>): (r: seq<string>)
    ensures forall x :: x in r <==> x in marks || x in more
    decreases |more|
  {
    if |more| == 0 then marks else UnionMarks(AddMark(marks, more[0]), more[1..])
  }

  function DropMark(marks: seq<string>, m: string): (r: seq<string>)
    ensures forall x :: x in r <==> x in marks && x != m
  {
    if |marks| == 0 then []
    else (if marks[0] == m then [] else [marks[0]]) + DropMark(marks[1..], m)
  }

  // ----- containment ----------------------------------------------------------

  /** `selectInlines(node)`: a block is replaced by the inlines and texts
      below it, in order. */
  function SelectInlines(n: Node): (r: seq<Node>)
    ensures forall i :: 0 <= i < |r| ==> !r[i].Block?
    decreases n, 1
  {
    if !n.Block? then [n] else SelectInlinesAll(n.nodes)
  }

  function SelectInlinesAll(ns: seq<Node>): (r: seq<Node>)
    ensures forall i :: 0 <= i < |r| ==> !r[i].Block?
    decreases ns, 0
  {
    if |ns| == 0 then []
    else
      var a := SelectInlines(ns[0]);
      var b := SelectInlinesAll(ns[1..]);
      assert forall i :: 0 <= i < |a + b| ==> (a + b)[i] == if i < |a| then a[i] else b[i - |a|];
      a + b
  }

  lemma {:induction false} NodesTextAppend(a: seq<Node>, b: seq<Node>)
    ensures NodesText(a + b) == NodesText(a) + NodesText(b)
    decreases |a|
  {
    if |a| > 0 {
      assert (a + b)[0] == a[0];
      assert (a + b)[1..] == a[1..] + b;
      NodesTextAppend(a[1..], b);
    } else {
      assert a + b == b;
    }
  }

  lemma NodesTextSingle(n: Node)
    ensures NodesText([n]) == TextOf(n)
  {
    assert [n][1..] == [];
  }

  lemma TextOfWithNodes(n: Node, ns: seq<Node>)
    requires !n.Text?
    ensures TextOf(WithNodes(n, ns)) == NodesText(ns)
  {
  }

  /** Flattening a node keeps its text, in document order. */
  lemma {:induction false} SelectInlinesKeepsText(n: Node)
    ensures NodesText(SelectInlines(n)) == TextOf(n)
    decreases n, 1
  {
    if n.Block? {
      SelectInlinesAllKeepsText(n.nodes);
    } else {
      assert [n][1..] == [];
    }
  }

  lemma {:induction false} SelectInlinesAllKeepsText(ns: seq<Node>)
    ensures NodesText(SelectInlinesAll(ns)) == NodesText(ns)
    decreases ns, 0
  {
    if |ns| > 0 {
      SelectInlinesKeepsText(ns[0]);
      SelectInlinesAllKeepsText(ns[1..]);
      NodesTextAppend(SelectInlines(ns[0]), SelectInlinesAll(ns[1..]));
    }
  }

  /** A node without blocks below it is its own flattening. */
  lemma SelectInlinesOfInline(n: Node)
    requires !n.Block?
    ensures SelectInlines(n) == [n]
  {
  }

  /** `acceptedBlocks(container)`: looked up by type, or by object when the
      node has no (or an empty) type. */
  function AcceptedBlocks(n: Node): (r: Option<seq<string>>)
    ensures r.Some? ==> |r.value| > 0
  {
    var t := TypeOf(n);
    Containers(if t.Some? && t.value != "" then t.value else ObjectOf(n))
  }

  predicate IsBlockContainer(n: Node) {
    AcceptedBlocks(n).Some?
  }

  /** `defaultBlockType(container)` */
  function DefaultBlockType(c: Node): (r: string)
    requires IsBlockContainer(c)
    ensures r in AcceptedBlocks(c).value
  {
    AcceptedBlocks(c).value[0]
  }

  /** `canContain(block, node)` */
  predicate CanContain(block: Node, n: Node) {
    if n.Inline? || n.Text? then IsLeafType(TypeOf(block))
    else AcceptedBlocks(block).Some? && TypeOf(n).Some? && TypeOf(n).value in AcceptedBlocks(block).value
  }

  /** Inlines and texts are accepted exactly by the leaf types; a block
      exactly when its type is one its container accepts. */
  lemma CanContainSpec(block: Node, n: Node)
    ensures (n.Inline? || n.Text?) ==> (CanContain(block, n) <==>
      TypeOf(block) in {Some(PARAGRAPH), Some(TEXT), Some(TABLE_CELL), Some(CODE_LINE)})
    ensures n.Block? ==> (CanContain(block, n) <==> IsBlockContainer(block) && n.kind in AcceptedBlocks(block).value)
    ensures n.Document? ==> !CanContain(block, n)
  {
  }

  /** The default wrapper of a container is a block that container accepts;
      a text never contains anything. */
  lemma DefaultWrapperAccepted(c: Node, n: Node)
    requires IsBlockContainer(c)
    ensures CanContain(c, NewBlock(DefaultBlockType(c), [n]))
    ensures !CanContain(Text([]), n) && !IsBlockContainer(Text([]))
  {
    var b := NewBlock(DefaultBlockType(c), [n]);
    assert b.Block? && TypeOf(b) == Some(DefaultBlockType(c));
    assert TypeOf(Text([])) == None && ObjectOf(Text([])) == "text";
  }

  /** The node with its children replaced (`node.merge({ nodes })`). */
  function WithNodes(n: Node, ns: seq<Node>): (r: Node)
    requires !n.Text?
    ensures ObjectOf(r) == ObjectOf(n) && TypeOf(r) == TypeOf(n) && Children(r) == ns
  {
    match n
    case Document(d, _) => Document(d, ns)
    case Block(k, d, v, _) => Block(k, d, v, ns)
    case Inline(k, d, v, _) => Inline(k, d, v, ns)
  }

  // ----- the element stack ----------------------------------------------------

  type Stack = seq<Node>

  /** `setNode(stack, node)`: replace the top (popping an empty stack leaves
      it empty). */
  function SetNode(stack: Stack, n: Node): (r: Stack)
    ensures |stack| > 0 ==> |r| == |stack| && r[..|r| - 1] == stack[..|stack| - 1]
    ensures |r| > 0 && r[|r| - 1] == n
  {
    if |stack| == 0 then [n] else stack[..|stack| - 1] + [n]
  }

  /** The children a parent gets when `n` is appended to it. */
  function AppendedChildren(parent: Node, n: Node): seq<Node>
    requires !parent.Text?
  {
    var nodes := Children(parent);
    if !IsBlockContainer(parent) && n.Block? then
      nodes + SelectInlines(n)
    else if IsBlockContainer(parent) && (!n.Block? || !CanContain(parent, n)) then
      if |nodes| > 0 && CanContain(nodes[|nodes| - 1], n) then
        var previous := nodes[|nodes| - 1];
        nodes[..|nodes| - 1] + [WithNodes(previous, Children(previous) + [n])]
      else
        nodes + [NewBlock(DefaultBlockType(parent), [n])]
    else
      nodes + [n]
  }

  /** `appendNode(stack, node)` */
  function AppendNode(stack: Stack, n: Node): (r: Result<Stack>)
    ensures r.Err? <==> |stack| == 0 || stack[|stack| - 1].Text?
    ensures r.Ok? ==> |r.value| == |stack| && r.value[..|r.value| - 1] == stack[..|stack| - 1]
    ensures r.Ok? ==> r.value[|r.value| - 1] == WithNodes(stack[|stack| - 1], AppendedChildren(stack[|stack| - 1], n))
  {
    if |stack| == 0 then Err(TypeError("parent of undefined"))
    else
      var parent := stack[|stack| - 1];
      if parent.Text? then Err(TypeError("nodes of a text"))
      else Ok(SetNode(stack, WithNodes(parent, AppendedChildren(parent, n))))
  }

  /** A block appended to a non-container contributes its flattened inlines. */
  lemma AppendBlockToNonContainer(parent: Node, n: Node)
    requires !parent.Text? && !IsBlockContainer(parent) && n.Block?
    ensures AppendedChildren(parent, n) == Children(parent) + SelectInlines(n)
  {
  }

  /** A node a container does not accept goes into the last child when that
      child can hold it, and otherwise into a new default wrapper. */
  lemma AppendDisallowedToContainer(parent: Node, n: Node)
    requires !parent.Text? && IsBlockContainer(parent) && (!n.Block? || !CanContain(parent, n))
    ensures var nodes := Children(parent);
      if |nodes| > 0 && CanContain(nodes[|nodes| - 1], n) then
        && |AppendedChildren(parent, n)| == |nodes|
        && AppendedChildren(parent, n)[..|nodes| - 1] == nodes[..|nodes| - 1]
        && Children(AppendedChildren(parent, n)[|nodes| - 1]) == Children(nodes[|nodes| - 1]) + [n]
      else
        AppendedChildren(parent, n) == nodes + [NewBlock(DefaultBlockType(parent), [n])]
  {
    var nodes := Children(parent);
    if |nodes| > 0 && CanContain(nodes[|nodes| - 1], n) {
      assert !nodes[|nodes| - 1].Text?;
    }
  }

  /** Where a child belongs: a container holds only blocks it accepts, any
      other node holds no blocks. */
  predicate WellPlaced(parent: Node, child: Node) {
    if IsBlockContainer(parent) then child.Block? && CanContain(parent, child) else !child.Block?
  }

  predicate ChildrenWellPlaced(n: Node) {
    forall i :: 0 <= i < |Children(n)| ==> WellPlaced(n, Children(n)[i])
  }

  /** Children each well placed under `parent` are well placed under the
      parent with those children. */
  lemma PlacedUnder(parent: Node, ns: seq<Node>)
    requires !parent.Text? && forall c :: c in ns ==> WellPlaced(parent, c)
    ensures ChildrenWellPlaced(WithNodes(parent, ns))
  {
    var p2 := WithNodes(parent, ns);
    forall i | 0 <= i < |ns| ensures WellPlaced(p2, ns[i]) {
      assert ns[i] in ns;
    }
  }

  lemma PlacedChildren(parent: Node)
    requires ChildrenWellPlaced(parent)
    ensures forall c :: c in Children(parent) ==> WellPlaced(parent, c)
  {
  }

  /** Appending keeps the parent's children well placed, whatever is
      appended. */
  lemma AppendKeepsPlacement(parent: Node, n: Node)
    requires !parent.Text? && ChildrenWellPlaced(parent)
    ensures ChildrenWellPlaced(WithNodes(parent, AppendedChildren(parent, n)))
  {
    var nodes := Children(parent);
    var ns := AppendedChildren(parent, n);
    PlacedChildren(parent);
    if !IsBlockContainer(parent) && n.Block? {
      var inl := SelectInlines(n);
      assert forall c :: c in inl ==> !c.Block?;
      assert ns == nodes + inl;
    } else if IsBlockContainer(parent) && (!n.Block? || !CanContain(parent, n)) {
      if |nodes| > 0 && CanContain(nodes[|nodes| - 1], n) {
        var previous := nodes[|nodes| - 1];
        assert previous in nodes;
        var prev2 := WithNodes(previous, Children(previous) + [n]);
        assert WellPlaced(parent, prev2);
        assert ns == nodes[..|nodes| - 1] + [prev2];
        assert forall c :: c in nodes[..|nodes| - 1] ==> c in nodes;
      } else {
        DefaultWrapperAccepted(parent, n);
        assert ns == nodes + [NewBlock(DefaultBlockType(parent), [n])];
      }
    } else {
      assert ns == nodes + [n];
    }
    PlacedUnder(parent, ns);
  }

  /** Appending never loses or reorders text: the parent's text grows by the
      appended node's text. */
  lemma AppendKeepsText(parent: Node, n: Node)
    requires !parent.Text?
    ensures NodesText(AppendedChildren(parent, n)) == NodesText(Children(parent)) + TextOf(n)
  {
    var nodes := Children(parent);
    var ns := AppendedChildren(parent, n);
    if !IsBlockContainer(parent) && n.Block? {
      assert ns == nodes + SelectInlines(n);
      NodesTextAppend(nodes, SelectInlines(n));
      SelectInlinesKeepsText(n);
    } else if IsBlockContainer(parent) && (!n.Block? || !CanContain(parent, n)) {
      if |nodes| > 0 && CanContain(nodes[|nodes| - 1], n) {
        AppendIntoPreviousKeepsText(nodes, n);
        assert ns == nodes[..|nodes| - 1] + [WithNodes(nodes[|nodes| - 1], Children(nodes[|nodes| - 1]) + [n])];
      } else {
        var w := NewBlock(DefaultBlockType(parent), [n]);
        assert ns == nodes + [w];
        NodesTextAppend(nodes, [w]);
        NodesTextSingle(n);
        NodesTextSingle(w);
      }
    } else {
      assert ns == nodes + [n];
      NodesTextAppend(nodes, [n]);
      NodesTextSingle(n);
    }
  }

  lemma AppendIntoPreviousKeepsText(nodes: seq<Node>, n: Node)
    requires |nodes| > 0 && !nodes[|nodes| - 1].Text?
    ensures var previous := nodes[|nodes| - 1];
      NodesText(nodes[..|nodes| - 1] + [WithNodes(previous, Children(previous) + [n])]) == NodesText(nodes) + TextOf(n)
  {
    var previous := nodes[|nodes| - 1];
    var prev2 := WithNodes(previous, Children(previous) + [n]);
    var init := nodes[..|nodes| - 1];
    assert nodes == init + [previous];
    NodesTextAppend(init, [previous]);
    NodesTextAppend(init, [prev2]);
    NodesTextAppend(Children(previous), [n]);
    NodesTextSingle(n);
    NodesTextSingle(previous);
    NodesTextSingle(prev2);
    TextOfWithNodes(previous, Children(previous) + [n]);
  }

  /** `pushNode(stack, node)` */
  function PushNode(stack: Stack, n: Node): (r: Stack)
    ensures |r| == |stack| + 1 && r[..|stack|] == stack && r[|stack|] == n
  {
    stack + [n]
  }

  /** `popNode(stack)`: the top is appended to the node below it. */
  function PopNode(stack: Stack): (r: Result<Stack>)
    ensures r.Err? <==> |stack| < 2 || stack[|stack| - 2].Text?
    ensures r.Ok? ==> |r.value| == |stack| - 1 && r.value[..|r.value| - 1] == stack[..|stack| - 2]
  {
    if |stack| == 0 then Err(TypeError("parent of undefined"))
    else AppendNode(stack[..|stack| - 1], stack[|stack| - 1])
  }

  /** A push then a pop appends the pushed node to the former top. */
  lemma PushPop(stack: Stack, n: Node)
    ensures PopNode(PushNode(stack, n)) == AppendNode(stack, n)
  {
    assert PushNode(stack, n)[..|stack|] == stack;
  }

  // ----- closing a code block ---------------------------------------------------

  /** The number of `\n` in `s`, and the number of those preceded by `\r`. */
  function CountLf(s: string): nat {
    if |s| == 0 then 0 else (if s[|s| - 1] == '\n' then 1 else 0) + CountLf(s[..|s| - 1])
  }

  function CountCrlf(s: string): (r: nat)
    ensures r <= CountLf(s)
  {
    if |s| < 2 then 0
    else (if s[|s| - 1] == '\n' && s[|s| - 2] == '\r' then 1 else 0) + CountCrlf(s[..|s| - 1])
  }

  /** `detectNewLine(text) || '\n'`: `\r\n` when it is the more frequent line
      ending, `\n` otherwise. */
  function LineSeparator(text: string): (r: string)
    ensures r == "\n" || r == "\r\n"
    ensures r == "\r\n" <==> CountCrlf(text) > CountLf(text) - CountCrlf(text)
  {
    if CountLf(text) == 0 then "\n"
    else if CountCrlf(text) > CountLf(text) - CountCrlf(text) then "\r\n"
    else "\n"
  }

  /** The lines of a code block; a last line that is blank is dropped. */
  function CodeLines(text: string): (r: seq<string>)
    ensures var lines := JsString.Split(text, LineSeparator(text));
      if JsString.Trim(lines[|lines| - 1]) == "" then r == lines[..|lines| - 1] else r == lines
  {
    var lines := JsString.Split(text, LineSeparator(text));
    if JsString.Trim(lines[|lines| - 1]) == "" then lines[..|lines| - 1] else lines
  }

  /** Joining the code lines gives back the text, minus a blank last line. */
  lemma CodeLinesJoin(text: string)
    ensures var sep := LineSeparator(text);
      var lines := CodeLines(text);
      text == JsString.Join(lines, sep)
      || exists last :: JsString.Trim(last) == "" && text == JsString.Join(lines + [last], sep)
  {
    var sep := LineSeparator(text);
    var lines := JsString.Split(text, sep);
    JsString.JoinSplit(text, sep);
    if JsString.Trim(lines[|lines| - 1]) == "" {
      assert lines == lines[..|lines| - 1] + [lines[|lines| - 1]];
    }
  }

  function CodeLineBlock(line: string): Node {
    NewBlock(CODE_LINE, [TextNode(line, [])])
  }

  /** The code block rebuilt as one code line per line of its text. */
  function SplitCodeBlock(code: Node): (r: Node)
    requires !code.Text?
    ensures ObjectOf(r) == ObjectOf(code) && TypeOf(r) == TypeOf(code)
    ensures |Children(r)| == |CodeLines(TextOf(code))|
    ensures forall i :: 0 <= i < |Children(r)| ==> Children(r)[i] == CodeLineBlock(CodeLines(TextOf(code))[i])
  {
    var lines := CodeLines(TextOf(code));
    WithNodes(code, seq(|lines|, i requires 0 <= i < |lines| => CodeLineBlock(lines[i])))
  }

  /** A split code block holds code lines only, which it accepts. */
  lemma SplitCodeBlockPlaced(code: Node)
    requires code.Block? && code.kind == CODE
    ensures ChildrenWellPlaced(SplitCodeBlock(code))
  {
    var r := SplitCodeBlock(code);
    CodeAcceptsLines(r);
    var lines := CodeLines(TextOf(code));
    forall i | 0 <= i < |Children(r)| ensures WellPlaced(r, Children(r)[i]) {
      CodeLinePlaced(r, lines[i]);
    }
  }

  lemma CodeAcceptsLines(r: Node)
    requires TypeOf(r) == Some(CODE)
    ensures IsBlockContainer(r) && AcceptedBlocks(r).value == [CODE_LINE]
  {
  }

  lemma CodeLinePlaced(r: Node, line: string)
    requires IsBlockContainer(r) && AcceptedBlocks(r).value == [CODE_LINE]
    ensures WellPlaced(r, CodeLineBlock(line))
  {
  }

  // ----- parsing events ---------------------------------------------------------

  /** What the HTML tokenizer reports, entities already decoded. */
  datatype HtmlEvent =
    | OpenTag(name: string, attribs: Attributes)
    | TextEvent(text: string)
    | CloseTag(name: string)

  /** The variables the parser callbacks update. */
  datatype ParserState = ParserState(stack: Stack, marks: seq<string>)

  const InitialParser: ParserState := ParserState([Document([], [])], [])

  /** The non-breaking space, U+00A0. */
  const NBSP: char := 0xA0 as char

  /** `sanitizeSpaces(str)`: non-breaking spaces become spaces. */
  function SanitizeSpaces(s: string): (r: string)
    ensures |r| == |s| && forall i :: 0 <= i < |s| ==> r[i] == if s[i] == NBSP then ' ' else s[i]
  {
    if |s| == 0 then "" else [if s[0] == NBSP then ' ' else s[0]] + SanitizeSpaces(s[1..])
  }

  /** `onopentag(tagName, attribs)`: the element or mark the tag opens,
      then the marks of its class. */
  function OnOpenTag(p: ParserState, tag: string, attribs: Attributes): Result<ParserState> {
    var q :- OpenElement(p, tag, attribs);
    var className := if "class" in attribs then attribs["class"] else "";
    Ok(q.(marks := UnionMarks(q.marks, ClassMarks(className))))
  }

  function OpenElement(p: ParserState, tag: string, attribs: Attributes): Result<ParserState> {
    if BlockTag(tag).Some? then
      var t := BlockTag(tag).value;
      Ok(p.(stack := PushNode(p.stack, Block(t, TagData(tag, attribs), IsVoidType(t), []))))
    else if InlineTag(tag).Some? then
      var t := InlineTag(tag).value;
      Ok(p.(stack := PushNode(p.stack, Inline(t, TagData(tag, attribs), IsVoidType(t), []))))
    else if MarkTag(tag).Some? then
      Ok(p.(marks := AddMark(p.marks, MarkTag(tag).value)))
    else if tag == "br" then
      var stack :- AppendNode(p.stack, TextNode("\n", p.marks));
      Ok(p.(stack := stack))
    else Ok(p)
  }

  /** `ontext(text)` */
  function OnText(p: ParserState, text: string): Result<ParserState> {
    var stack :- AppendNode(p.stack, TextNode(SanitizeSpaces(text), p.marks));
    Ok(p.(stack := stack))
  }

  /** Closing the element on top of the stack: a code block is first split
      into its lines, then the element is appended to its parent. */
  function CloseElement(stack: Stack): Result<Stack>
    requires |stack| > 0
  {
    var parent := stack[|stack| - 1];
    var split := if TypeOf(parent) == Some(CODE) then SetNode(stack, SplitCodeBlock(parent)) else stack;
    PopNode(split)
  }

  /** `onclosetag(tagName)` */
  function OnCloseTag(p: ParserState, tag: string): Result<ParserState> {
    if BlockTag(tag).Some? || InlineTag(tag).Some? then
      if |p.stack| == 0 then Err(TypeError("type of undefined"))
      else
        var popped :- CloseElement(p.stack);
        Ok(p.(stack := popped))
    else if MarkTag(tag).Some? then
      Ok(p.(marks := DropMark(p.marks, MarkTag(tag).value)))
    else Ok(p)
  }

  /** One parser callback. */
  function Step(p: ParserState, e: HtmlEvent): Result<ParserState> {
    match e
    case OpenTag(tag, attribs) => OnOpenTag(p, tag, attribs)
    case TextEvent(text) => OnText(p, text)
    case CloseTag(tag) => OnCloseTag(p, tag)
  }

  /** The callbacks for the remaining events, in order. */
  function Steps(p: ParserState, events: seq<HtmlEvent>): Result<ParserState>
    decreases |events|
  {
    if |events| == 0 then Ok(p)
    else
      var q :- Step(p, events[0]);
      Steps(q, events[1..])
  }

  /** What `parse` returns for the events: the root, when the stack ends with
      only the root on it. */
  function ParseEvents(events: seq<HtmlEvent>): Result<Node> {
    var p :- Steps(InitialParser, events);
    if |p.stack| != 1 then Err(InvalidHtml) else Ok(p.stack[0])
  }

  /** `parse(str)`, over the tokenizer's events: the callbacks reassign the
      stack and the marks, then the stack size is checked. */
  method Parse(events: seq<HtmlEvent>) returns (r: Result<Node>)
    ensures r == ParseEvents(events)
  {
    var stack: Stack := [Document([], [])];
    var marks: seq<string> := [];
    var i := 0;
    while i < |events|
      invariant 0 <= i <= |events|
      invariant Steps(ParserState(stack, marks), events[i..]) == Steps(InitialParser, events)
    {
      assert events[i..][1..] == events[i + 1..];
      var next := Step(ParserState(stack, marks), events[i]);
      if next.Err? {
        return Err(next.error);
      }
      stack := next.value.stack;
      marks := next.value.marks;
      i := i + 1;
    }
    if |stack| != 1 {
      return Err(InvalidHtml);
    }
    return Ok(stack[0]);
  }

  // ----- what parsing guarantees ------------------------------------------------

  /** The root stays at the bottom of the stack and every element on the
      stack has well-placed children. */
  predicate StackInvariant(stack: Stack) {
    && |stack| >= 1 && stack[0].Document?
    && forall k :: 0 <= k < |stack| ==> !stack[k].Text? && ChildrenWellPlaced(stack[k])
  }

  lemma AppendNodeKeepsInvariant(stack: Stack, n: Node)
    requires StackInvariant(stack)
    ensures AppendNode(stack, n).Ok? && StackInvariant(AppendNode(stack, n).value)
  {
    var parent := stack[|stack| - 1];
    AppendKeepsPlacement(parent, n);
    var r := AppendNode(stack, n).value;
    forall k | 0 <= k < |r| ensures !r[k].Text? && ChildrenWellPlaced(r[k]) {
      if k < |r| - 1 {
        assert r[k] == r[..|r| - 1][k];
      }
    }
    if |stack| > 1 {
      assert r[0] == r[..|r| - 1][0];
    }
  }

  lemma PushKeepsInvariant(stack: Stack, n: Node)
    requires StackInvariant(stack) && !n.Text? && Children(n) == []
    ensures StackInvariant(PushNode(stack, n))
  {
    var r := PushNode(stack, n);
    forall k | 0 <= k < |r| ensures !r[k].Text? && ChildrenWellPlaced(r[k]) {
      if k < |stack| {
        assert r[k] == stack[k];
      }
    }
  }

  lemma OpenKeepsInvariant(p: ParserState, tag: string, attribs: Attributes)
    requires StackInvariant(p.stack)
    ensures OnOpenTag(p, tag, attribs).Ok? ==> StackInvariant(OnOpenTag(p, tag, attribs).value.stack)
  {
    if OpenElement(p, tag, attribs).Ok? {
      assert OnOpenTag(p, tag, attribs).value.stack == OpenElement(p, tag, attribs).value.stack;
      if BlockTag(tag).Some? {
        var t := BlockTag(tag).value;
        PushKeepsInvariant(p.stack, Block(t, TagData(tag, attribs), IsVoidType(t), []));
      } else if InlineTag(tag).Some? {
        var t := InlineTag(tag).value;
        PushKeepsInvariant(p.stack, Inline(t, TagData(tag, attribs), IsVoidType(t), []));
      } else if MarkTag(tag).None? && tag == "br" {
        AppendNodeKeepsInvariant(p.stack, TextNode("\n", p.marks));
      }
    }
  }

  lemma CloseKeepsInvariant(p: ParserState, tag: string)
    requires StackInvariant(p.stack)
    ensures OnCloseTag(p, tag).Ok? ==> StackInvariant(OnCloseTag(p, tag).value.stack)
  {
    if BlockTag(tag).Some? || InlineTag(tag).Some? {
      CloseElementKeepsInvariant(p.stack);
    }
  }

  lemma CloseElementKeepsInvariant(stack: Stack)
    requires StackInvariant(stack)
    ensures CloseElement(stack).Ok? ==> StackInvariant(CloseElement(stack).value)
  {
    if |stack| >= 2 {
      var parent := stack[|stack| - 1];
      var split := if TypeOf(parent) == Some(CODE) then SetNode(stack, SplitCodeBlock(parent)) else stack;
      BelowKeepsInvariant(stack);
      assert split[..|split| - 1] == stack[..|stack| - 1];
      PopKeepsInvariant(split);
    }
  }

  lemma BelowKeepsInvariant(stack: Stack)
    requires StackInvariant(stack) && |stack| >= 2
    ensures StackInvariant(stack[..|stack| - 1])
  {
    var below := stack[..|stack| - 1];
    forall k | 0 <= k < |below| ensures below[k] == stack[k] {
    }
  }

  lemma PopKeepsInvariant(stack: Stack)
    requires |stack| >= 2 && StackInvariant(stack[..|stack| - 1])
    ensures PopNode(stack).Ok? && StackInvariant(PopNode(stack).value)
  {
    AppendNodeKeepsInvariant(stack[..|stack| - 1], stack[|stack| - 1]);
  }

  lemma StepKeepsInvariant(p: ParserState, e: HtmlEvent)
    requires StackInvariant(p.stack)
    ensures Step(p, e).Ok? ==> StackInvariant(Step(p, e).value.stack)
  {
    match e
    case OpenTag(tag, attribs) => OpenKeepsInvariant(p, tag, attribs);
    case TextEvent(text) => AppendNodeKeepsInvariant(p.stack, TextNode(SanitizeSpaces(text), p.marks));
    case CloseTag(tag) => CloseKeepsInvariant(p, tag);
  }

  lemma {:induction false} StepsKeepInvariant(p: ParserState, events: seq<HtmlEvent>)
    requires StackInvariant(p.stack)
    ensures Steps(p, events).Ok? ==> StackInvariant(Steps(p, events).value.stack)
    decreases |events|
  {
    if |events| > 0 {
      StepKeepsInvariant(p, events[0]);
      if Step(p, events[0]).Ok? {
        StepsKeepInvariant(Step(p, events[0]).value, events[1..]);
      }
    }
  }

  /** A parse that succeeds yields a document, and each of its children is a
      block of a type a document accepts. */
  lemma ParseYieldsDocument(events: seq<HtmlEvent>)
    ensures ParseEvents(events).Ok? ==>
      var doc := ParseEvents(events).value;
      && doc.Document?
      && forall i :: 0 <= i < |doc.nodes| ==>
           doc.nodes[i].Block? && doc.nodes[i].kind in Containers("document").value
  {
    StepsKeepInvariant(InitialParser, events);
    if ParseEvents(events).Ok? {
      var doc := ParseEvents(events).value;
      assert ChildrenWellPlaced(doc);
      forall i | 0 <= i < |doc.nodes|
        ensures doc.nodes[i].Block? && doc.nodes[i].kind in Containers("document").value
      {
        assert WellPlaced(doc, Children(doc)[i]);
      }
    }
  }

  /** Text outside any element lands in a paragraph of the document. */
  lemma TextAtRootIsWrapped(t: string)
    ensures ParseEvents([TextEvent(t)]) ==
      Ok(Document([], [NewBlock(PARAGRAPH, [TextNode(SanitizeSpaces(t), [])])]))
  {
    var doc := Document([], []);
    var text := TextNode(SanitizeSpaces(t), []);
    assert IsBlockContainer(doc) && DefaultBlockType(doc) == PARAGRAPH;
    assert AppendedChildren(doc, text) == [NewBlock(PARAGRAPH, [text])];
    assert AppendNode([doc], text) == Ok([Document([], [NewBlock(PARAGRAPH, [text])])]);
    var p := Step(InitialParser, TextEvent(t));
    assert Steps(InitialParser, [TextEvent(t)]) == p;
  }

  /** An element left open makes the parse fail. */
  lemma UnclosedElementFails(attribs: Attributes)
    ensures ParseEvents([OpenTag("p", attribs)]) == Err(InvalidHtml)
  {
    var p := Step(InitialParser, OpenTag("p", attribs));
    assert Steps(InitialParser, [OpenTag("p", attribs)]) == p;
  }
}
