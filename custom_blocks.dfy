/**
 * Custom blocks: liquid tags `{% tag ... %}` read into nodes of type
 * `x-<tag>` holding everything up to their closing tag, and printed back as
 * a start tag, the printed children and an end tag.
 */
module CustomBlocks {
  import opened Outcomes
  import opened Schema
  import opened ParseState
  import JsString
  import LiquidTags
  import Lists

  // ----- types and tags ----------------------------------------------------------------

  /** `isCustomType(type)`: the type starts with `x-`. */
  predicate IsCustomType(kind: string) {
    JsString.StartsWith(kind, "x-")
  }

  /** `getTagFromCustomType(type)`: the type without its first two characters. */
  function TagFromCustomType(kind: string): string {
    if |kind| >= 2 then kind[2..] else ""
  }

  /** `getCustomTypeFromTag(tag)` */
  function CustomTypeFromTag(tag: string): string {
    "x-" + tag
  }

  /** `isClosingTag(tag)`: the tag starts with `end`. */
  predicate IsClosingTag(tag: string) {
    JsString.StartsWith(tag, "end")
  }

  /** `isClosingTagFor(tag, forTag)`: the tag starts with `end` and `forTag`. */
  predicate IsClosingTagFor(tag: string, forTag: string) {
    JsString.StartsWith(tag, "end" + forTag)
  }

  /** The type of a tag is custom and gives the tag back; a custom type is
      the type of its tag. */
  lemma CustomTypeRoundTrip(tag: string, kind: string)
    ensures IsCustomType(CustomTypeFromTag(tag)) && TagFromCustomType(CustomTypeFromTag(tag)) == tag
    ensures IsCustomType(kind) <==> CustomTypeFromTag(TagFromCustomType(kind)) == kind
  {
    assert CustomTypeFromTag(tag)[..2] == "x-";
    if CustomTypeFromTag(TagFromCustomType(kind)) == kind {
      assert kind[..2] == "x-";
    }
  }

  /** A tag closes `forTag` when it is `end`, `forTag` and anything after:
      `endtabs` closes `tab` as well as `endtab` does. Closing some tag makes
      it a closing tag. */
  lemma ClosingTagFor(forTag: string, more: string, tag: string)
    ensures IsClosingTagFor("end" + forTag + more, forTag)
    ensures IsClosingTagFor(tag, forTag) ==> IsClosingTag(tag)
  {
    assert ("end" + forTag + more)[..|"end" + forTag|] == "end" + forTag;
    if IsClosingTagFor(tag, forTag) {
      assert tag[..3] == ("end" + forTag)[..3];
    }
  }

  /** No tag is its own closing tag. */
  lemma NotClosingItself(tag: string)
    ensures !IsClosingTagFor(tag, tag)
  {
  }

  /** A node with a custom type; documents and texts have no type. */
  predicate IsCustomNode(n: Node) {
    TypeOf(n).Some? && IsCustomType(TypeOf(n).value)
  }

  /** The tag of a node with a type. */
  function NodeTag(n: Node): string
    requires TypeOf(n).Some?
  {
    TagFromCustomType(TypeOf(n).value)
  }

  // ----- the unending tags ---------------------------------------------------------

  /** `getProp('unendingTags') || List()` answers `includes`: a list, a
      string (by substring) or a falsy value (the empty list). */
  predicate ListLike(v: Value) {
    !Truthy(v) || v.Arr? || v.Str?
  }

  /** `(... || List()).includes(tag)` on a value that has `includes`. */
  predicate Unending(v: Value, tag: string) {
    Truthy(v) && ((v.Arr? && Str(tag) in v.items) || (v.Str? && JsString.Contains(v.s, tag)))
  }

  /** `includes` on the value: any other truthy value has no such method
      and throws. */
  function Includes(v: Value, tag: string): (r: Result<bool>)
    ensures r.Ok? <==> ListLike(v)
    ensures r.Ok? ==> (r.value <==> Unending(v, tag))
    ensures !Truthy(v) ==> r == Ok(false)
  {
    if !Truthy(v) then Ok(false)
    else if v.Arr? then Ok(Str(tag) in v.items)
    else if v.Str? then Ok(JsString.Contains(v.s, tag))
    else Err(TypeError("includes of a value that is neither a list nor a string"))
  }

  // ----- printing ----------------------------------------------------------------------

  /** `wrapInDefaultBlock(nodes)`: a paragraph of the nodes. */
  function WrapInDefaultBlock(nodes: seq<Node>): Node {
    NewBlock(PARAGRAPH, nodes)
  }

  /** The children a custom node prints: themselves when the first is a
      block, else one default block of them all. */
  function InnerNodes(nodes: seq<Node>): seq<Node>
    requires |nodes| > 0
  {
    if nodes[0].Block? then nodes else [WrapInDefaultBlock(nodes)]
  }

  /** The end tag of `tag`: none for an unending tag, else `{% endtag %}`. */
  function EndTag(isArgs: string -> bool, tag: string, unending: bool): string {
    if unending then "" else LiquidTags.StringifyTag(isArgs, "end" + tag, None)
  }

  /** The printed custom node: the start tag, then for a block the
      children and the end tag each after a newline and a blank line at the
      end, for an inline the same without newlines. */
  function CustomText(isBlock: bool, startTag: string, inner: string, endTag: string): string {
    var split := if isBlock then "\n" else "";
    var end := if isBlock then "\n\n" else "";
    startTag + split + inner + split + endTag + end
  }

  /** The custom printer: a node of custom type at the head of the nodes is
      replaced by its start tag and, unless it is void or has no children,
      its printed children (trailing newlines removed) and its end tag, on
      lines of their own when it is a block. */
  function SerializeCustom(printer: Printer, isArgs: string -> bool, s: State): (r: Result<Option<State>>)
    ensures Peek(s).None? || !IsCustomNode(Peek(s).value) ==> r == Ok(None)
  {
    match Peek(s)
    case None => Ok(None)
    case Some(node) =>
      if !IsCustomNode(node) then Ok(None)
      else
        var tag := TagFromCustomType(node.kind);
        var startTag := LiquidTags.StringifyTag(isArgs, tag, Some(node.data));
        var end := if node.Block? then "\n\n" else "";
        if node.isVoid || |node.nodes| == 0 then Ok(Some(Write(Shift(s), startTag + end)))
        else
          var printed :- printer(s, InnerNodes(node.nodes));
          var inner := Lists.TrimTrailingLines(printed);
          var unending :- Includes(GetProp(s, "unendingTags", Undefined), tag);
          Ok(Some(Write(Shift(s), CustomText(node.Block?, startTag, inner, EndTag(isArgs, tag, unending)))))
  }

  /** The end tag is `{% end<tag> %}`, or nothing for an unending tag. */
  lemma EndTagText(isArgs: string -> bool, tag: string, unending: bool)
    ensures EndTag(isArgs, tag, unending) == if unending then "" else "{% end" + tag + " %}"
  {
    assert "{% " + ("end" + tag) + " %}" == "{% end" + tag + " %}";
  }

  /** A void or childless custom node prints its start tag alone, followed
      by a blank line when it is a block; the node is consumed and nothing
      else changes. */
  lemma SerializeCustomVoid(printer: Printer, isArgs: string -> bool, s: State)
    requires Peek(s).Some? && IsCustomNode(Peek(s).value)
    requires Peek(s).value.isVoid || |Peek(s).value.nodes| == 0
    ensures var node := Peek(s).value;
      var startTag := LiquidTags.StringifyTag(isArgs, NodeTag(node), Some(node.data));
      var r := SerializeCustom(printer, isArgs, s);
      && r.Ok? && r.value.Some?
      && r.value.value.nodes == s.nodes[1..]
      && r.value.value.stack == s.stack && r.value.value.props == s.props
      && r.value.value.text == s.text + startTag + (if node.Block? then "\n\n" else "")
  {
  }

  /** A custom node with children prints, when they print and the unending
      tags can be asked, the start tag, the children without trailing
      newlines and the end tag, which an unending tag does not have and any
      other tag has as `{% end<tag> %}`. The node is consumed and nothing
      else changes. */
  lemma SerializeCustomChildren(printer: Printer, isArgs: string -> bool, s: State)
    requires Peek(s).Some? && IsCustomNode(Peek(s).value)
    requires !Peek(s).value.isVoid && |Peek(s).value.nodes| > 0
    ensures var node := Peek(s).value;
      var tag := NodeTag(node);
      var r := SerializeCustom(printer, isArgs, s);
      var printed := printer(s, InnerNodes(node.nodes));
      var list := GetProp(s, "unendingTags", Undefined);
      && (r.Ok? <==> printed.Ok? && ListLike(list))
      && (r.Ok? ==>
            var inner := Lists.TrimTrailingLines(printed.value);
            && r.value.Some?
            && r.value.value.nodes == s.nodes[1..]
            && r.value.value.stack == s.stack && r.value.value.props == s.props
            && r.value.value.text
               == s.text + CustomText(node.Block?, LiquidTags.StringifyTag(isArgs, tag, Some(node.data)), inner,
                                      if Unending(list, tag) then "" else "{% end" + tag + " %}")
            && (inner == "" || inner[|inner| - 1] != '\n'))
  {
    var node := Peek(s).value;
    EndTagText(isArgs, NodeTag(node), Unending(GetProp(s, "unendingTags", Undefined), NodeTag(node)));
  }

  /** The printed children read back from a printed custom node: they sit
      between the start tag and the end tag, each on lines of their own
      for a block, whose text then ends with a blank line. */
  lemma CustomTextInner(isBlock: bool, startTag: string, inner: string, endTag: string)
    ensures var t := CustomText(isBlock, startTag, inner, endTag);
      var split := if isBlock then 1 else 0;
      var end := if isBlock then 2 else 0;
      && |t| == |startTag| + split + |inner| + split + |endTag| + end
      && t[..|startTag|] == startTag
      && t[|startTag| + split..|startTag| + split + |inner|] == inner
      && t[|t| - end - |endTag|..|t| - end] == endTag
      && (isBlock ==> t[|startTag|] == '\n' && t[|startTag| + 1 + |inner|] == '\n'
                      && t[|t| - 2..] == "\n\n")
  {
  }

  /** The children of a custom node are printed as blocks: inline children
      go into one paragraph. */
  lemma InnerNodesAreBlocks(nodes: seq<Node>)
    requires |nodes| > 0
    ensures var inner := InnerNodes(nodes);
      && |inner| > 0 && inner[0].Block?
      && (nodes[0].Block? ==> inner == nodes)
      && (!nodes[0].Block? ==> inner == [Block(PARAGRAPH, [], false, nodes)])
  {
  }

  // ----- reading: closing a tag ----------------------------------------------------------

  /** The node `takeUntil` stops at: for an unending tag, any closing custom
      tag or any unending custom tag; for any other, a closing tag of it. */
  predicate Terminates(unending: string -> bool, tag: string, child: Node) {
    if unending(tag) then IsCustomNode(child) && (IsClosingTag(NodeTag(child)) || unending(NodeTag(child)))
    else IsCustomNode(child) && IsClosingTagFor(NodeTag(child), tag)
  }

  /** The closing node the merge filters out: a custom closing tag of `tag`. */
  predicate OwnClosing(tag: string, child: Node) {
    IsCustomNode(child) && IsClosingTag(NodeTag(child)) && IsClosingTagFor(NodeTag(child), tag)
  }

  /** `between.size`: the position of the first node that terminates the
      tag, or the number of nodes when none does. */
  function FirstTerminator(unending: string -> bool, tag: string, added: seq<Node>): (k: nat)
    ensures k <= |added|
    ensures forall j :: 0 <= j < k ==> !Terminates(unending, tag, added[j])
    ensures k < |added| ==> Terminates(unending, tag, added[k])
    decreases |added|
  {
    if |added| == 0 then 0
    else if Terminates(unending, tag, added[0]) then 0
    else 1 + FirstTerminator(unending, tag, added[1..])
  }

  /** `filterNot` of the merge: the nodes without the closing tags of `tag`. */
  function WithoutOwnClosing(tag: string, ns: seq<Node>): (r: seq<Node>)
    ensures |r| <= |ns|
    ensures forall x :: x in r <==> x in ns && !OwnClosing(tag, x)
    decreases |ns|
  {
    if |ns| == 0 then []
    else (if OwnClosing(tag, ns[0]) then [] else [ns[0]]) + WithoutOwnClosing(tag, ns[1..])
  }

  lemma {:induction false} WithoutOwnClosingAppend(tag: string, a: seq<Node>, b: seq<Node>)
    ensures WithoutOwnClosing(tag, a + b) == WithoutOwnClosing(tag, a) + WithoutOwnClosing(tag, b)
    decreases |a|
  {
    if |a| == 0 {
      assert a + b == b;
    } else {
      assert (a + b)[0] == a[0] && (a + b)[1..] == a[1..] + b;
      WithoutOwnClosingAppend(tag, a[1..], b);
    }
  }

  /** Nodes none of which closes `tag` all stay, in order. */
  lemma {:induction false} WithoutOwnClosingKeeps(tag: string, ns: seq<Node>)
    requires forall i :: 0 <= i < |ns| ==> !OwnClosing(tag, ns[i])
    ensures WithoutOwnClosing(tag, ns) == ns
    decreases |ns|
  {
    if |ns| > 0 {
      var tail := ns[1..];
      forall i | 0 <= i < |tail| ensures !OwnClosing(tag, tail[i]) {
        assert tail[i] == ns[i + 1];
      }
      WithoutOwnClosingKeeps(tag, tail);
      assert !OwnClosing(tag, ns[0]);
      assert ns == [ns[0]] + tail;
    }
  }

  /** `newState.nodes.skip(state.nodes.size)` */
  function Added(state: State, next: State): seq<Node> {
    if |state.nodes| <= |next.nodes| then next.nodes[|state.nodes|..] else []
  }

  /** `state.nodes.butLast()`: the nodes before the placeholder. */
  function ButLast(ns: seq<Node>): seq<Node> {
    if |ns| > 0 then ns[..|ns| - 1] else []
  }

  /** The placeholder made the tag's node: not void, holding the nodes
      between it and its terminator, or one empty text when there are none. */
  function Closed(state: State, tag: string, data: Data, between: seq<Node>): Node {
    Block(CustomTypeFromTag(tag), data, false, if |between| == 0 then [GenText(state, "")] else between)
  }

  /** The `stopAt` of the tag, for the state with its placeholder pushed:
      no stop while no added node terminates the tag; at a terminator the
      placeholder takes the nodes before it as children and the tag's own
      closing nodes are dropped from the level. */
  function Close(state: State, tag: string, data: Data, unending: string -> bool, next: State): Option<State> {
    var added := Added(state, next);
    var k := FirstTerminator(unending, tag, added);
    if k == |added| then None
    else
      var nodes := ButLast(state.nodes) + [Closed(state, tag, data, added[..k])] + added[k..];
      Some(next.(nodes := WithoutOwnClosing(tag, nodes)))
  }

  /** `stopAt` as `lex` calls it, with the new state and the state before
      the step (which the tag does not use). */
  function StopAt(state: State, tag: string, data: Data, unending: string -> bool): (State, State) -> Option<State> {
    (next: State, prev: State) => Close(state, tag, data, unending, next)
  }

  /** The tag's own node survives the filter. */
  lemma ClosedKept(state: State, tag: string, data: Data, between: seq<Node>)
    ensures !OwnClosing(tag, Closed(state, tag, data, between))
  {
    CustomTypeRoundTrip(tag, "");
    NotClosingItself(tag);
  }

  /** Lexing stops exactly when some added node terminates the tag. Then
      the earlier nodes of the level, without the tag's closing nodes, are
      followed by the tag's node, whose children are the added nodes before
      the first terminator (none of them a terminator) or one empty text,
      and by the terminator and what follows, again without the tag's
      closing nodes. */
  lemma CloseSpec(state: State, tag: string, data: Data, unending: string -> bool, next: State)
    ensures var added := Added(state, next);
      var r := Close(state, tag, data, unending, next);
      && (r.Some? <==> exists i :: 0 <= i < |added| && Terminates(unending, tag, added[i]))
      && (r.Some? ==>
            var k := FirstTerminator(unending, tag, added);
            && k < |added| && Terminates(unending, tag, added[k])
            && (forall j :: 0 <= j < k ==> !Terminates(unending, tag, added[j]))
            && r.value == next.(nodes := WithoutOwnClosing(tag, ButLast(state.nodes))
                                          + [Closed(state, tag, data, added[..k])]
                                          + WithoutOwnClosing(tag, added[k..])))
  {
    var added := Added(state, next);
    var k := FirstTerminator(unending, tag, added);
    if k < |added| {
      FilterAroundClosed(state, tag, data, ButLast(state.nodes), added[..k], added[k..]);
    } else {
      assert forall i :: 0 <= i < |added| ==> !Terminates(unending, tag, added[i]);
    }
  }

  /** The filter passes over the tag's own node and works on either side. */
  lemma FilterAroundClosed(state: State, tag: string, data: Data, before: seq<Node>, between: seq<Node>,
                           after: seq<Node>)
    ensures var closed := Closed(state, tag, data, between);
      WithoutOwnClosing(tag, before + [closed] + after)
      == WithoutOwnClosing(tag, before) + [closed] + WithoutOwnClosing(tag, after)
  {
    var closed := Closed(state, tag, data, between);
    WithoutOwnClosingAppend(tag, before + [closed], after);
    WithoutOwnClosingAppend(tag, before, [closed]);
    ClosedKept(state, tag, data, between);
    assert WithoutOwnClosing(tag, [closed]) == [closed] by {
      WithoutOwnClosingKeeps(tag, [closed]);
    }
  }

  /** When the level grows by `between` and then a terminator, the tag
      closes there with exactly `between` as its children (one empty text if
      there is nothing between). */
  lemma CloseAt(state: State, tag: string, data: Data, unending: string -> bool, next: State,
                between: seq<Node>, rest: seq<Node>)
    requires next.nodes == state.nodes + between + rest
    requires forall j :: 0 <= j < |between| ==> !Terminates(unending, tag, between[j])
    requires |rest| > 0 && Terminates(unending, tag, rest[0])
    ensures Close(state, tag, data, unending, next)
      == Some(next.(nodes := WithoutOwnClosing(tag, ButLast(state.nodes))
                             + [Closed(state, tag, data, between)]
                             + WithoutOwnClosing(tag, rest)))
  {
    var added := Added(state, next);
    assert added == between + rest;
    var k := FirstTerminator(unending, tag, added);
    FirstTerminatorAt(unending, tag, between, rest);
    assert added[..k] == between && added[k..] == rest;
    CloseSpec(state, tag, data, unending, next);
  }

  lemma {:induction false} FirstTerminatorAt(unending: string -> bool, tag: string, between: seq<Node>, rest: seq<Node>)
    requires forall j :: 0 <= j < |between| ==> !Terminates(unending, tag, between[j])
    requires |rest| > 0 && Terminates(unending, tag, rest[0])
    ensures FirstTerminator(unending, tag, between + rest) == |between|
    decreases |between|
  {
    if |between| == 0 {
      assert between + rest == rest;
    } else {
      assert (between + rest)[0] == between[0] && (between + rest)[1..] == between[1..] + rest;
      FirstTerminatorAt(unending, tag, between[1..], rest);
    }
  }

  /** The placeholder of `{% end<tag> %}` terminates `tag` when it is not
      unending, and is the tag's own closing node. */
  lemma EndPlaceholderCloses(unending: string -> bool, tag: string, endData: Data)
    requires !unending(tag)
    ensures Terminates(unending, tag, Placeholder("end" + tag, endData))
    ensures OwnClosing(tag, Placeholder("end" + tag, endData))
  {
    CustomTypeRoundTrip("end" + tag, "");
    ClosingTagFor(tag, "", "end" + tag);
    assert "end" + tag + "" == "end" + tag;
  }

  /** The end tag the printer writes closes the tag it was printed for: a
      tag that is not unending, followed on its level by nodes none of which
      is custom and then by the placeholder of `{% end<tag> %}`, becomes one
      node holding them, and the end tag's placeholder is dropped. */
  lemma PrintedEndTagCloses(state: State, tag: string, data: Data, unending: string -> bool, next: State,
                            between: seq<Node>, endData: Data)
    requires !unending(tag)
    requires forall j :: 0 <= j < |between| ==> !IsCustomNode(between[j])
    requires forall i :: 0 <= i < |ButLast(state.nodes)| ==> !OwnClosing(tag, ButLast(state.nodes)[i])
    requires next.nodes == state.nodes + between + [Placeholder("end" + tag, endData)]
    ensures Close(state, tag, data, unending, next)
      == Some(next.(nodes := ButLast(state.nodes) + [Closed(state, tag, data, between)]))
  {
    var endNode := Placeholder("end" + tag, endData);
    EndPlaceholderCloses(unending, tag, endData);
    assert forall j :: 0 <= j < |between| ==> !Terminates(unending, tag, between[j]);
    CloseAt(state, tag, data, unending, next, between, [endNode]);
    assert WithoutOwnClosing(tag, [endNode]) == [] by {
      assert [endNode][1..] == [];
    }
    WithoutOwnClosingKeeps(tag, ButLast(state.nodes));
    var kept := ButLast(state.nodes) + [Closed(state, tag, data, between)];
    assert kept + [] == kept;
  }

  /** An unending tag closes at the next custom node that is a closing
      tag or another unending tag; that node stays on the level unless it
      closes this tag. */
  lemma UnendingClosesAtNextTag(state: State, tag: string, data: Data, unending: string -> bool, next: State,
                                between: seq<Node>, other: Node)
    requires unending(tag)
    requires forall j :: 0 <= j < |between| ==> !IsCustomNode(between[j])
    requires IsCustomNode(other) && (IsClosingTag(NodeTag(other)) || unending(NodeTag(other)))
    requires next.nodes == state.nodes + between + [other]
    ensures Close(state, tag, data, unending, next)
      == Some(next.(nodes := WithoutOwnClosing(tag, ButLast(state.nodes))
                             + [Closed(state, tag, data, between)]
                             + (if OwnClosing(tag, other) then [] else [other])))
  {
    CloseAt(state, tag, data, unending, next, between, [other]);
    assert WithoutOwnClosing(tag, [other]) == (if OwnClosing(tag, other) then [] else [other]) by {
      assert [other][1..] == [];
    }
  }

  // ----- reading: the rule ---------------------------------------------------------------

  /** A match of the custom block pattern: the whole match and the text
      between `{%` and `%}`. */
  datatype CustomMatch = CustomMatch(whole: string, body: string)

  /** What `parseTag` makes of a tag's text. */
  datatype ParsedTag = ParsedTag(tag: string, data: Data)

  /** `lex(opts)` from a state. */
  type OptionsLexer = (State, LexOptions) -> Result<State>

  /** The lexing of `rs`, as the model of `lex` gives it. */
  function OptionsLexerOf(rs: RuleSet, fuel: nat): OptionsLexer {
    (t: State, opts: LexOptions) => Lex(rs, t, opts, fuel)
  }

  /** The placeholder pushed for a tag: void and without children. */
  function Placeholder(tag: string, data: Data): Node {
    Block(CustomTypeFromTag(tag), data, true, [])
  }

  /** The custom block rule's parser action. With templates switched off it
      declines; a blank or unparsable tag is skipped; a closing tag is pushed
      as its placeholder; any other tag is pushed as its placeholder and the
      rest is lexed until the tag closes. */
  function DeserializeCustom(lexWith: OptionsLexer, parseTag: string -> Option<ParsedTag>,
                             s: State, m: Option<CustomMatch>): (r: Result<Option<State>>)
    ensures m.None? || GetProp(s, "template", Undefined) == Bool(false) ==> r == Ok(None)
  {
    match m
    case None => Ok(None)
    case Some(cm) =>
      var state := Skip(s, |cm.whole|);
      if GetProp(state, "template", Undefined) == Bool(false) then Ok(None)
      else
        var text := JsString.Trim(cm.body);
        if text == "" then Ok(Some(state))
        else match parseTag(text)
          case None => Ok(Some(state))
          case Some(parsed) =>
            var pushed := Push(state, OneNode(Placeholder(parsed.tag, parsed.data)));
            if IsClosingTag(parsed.tag) then Ok(Some(pushed))
            else
              var list := GetProp(pushed, "unendingTags", Undefined);
              if !ListLike(list) then Err(TypeError("includes of a value that is neither a list nor a string"))
              else
                var opts := DefaultLexOptions.(stopAt := StopAt(pushed, parsed.tag, parsed.data,
                                                                (t: string) => Unending(list, t)));
                var result :- lexWith(pushed, opts);
                Ok(Some(result))
  }

  /** The outcomes of the parser action on a match, with templates on: the
      tag's text is trimmed; a blank or unparsable one only consumes the
      match; a closing tag adds its void placeholder; any other tag lexes,
      from the state with its placeholder last, with no pending text and the
      tag's `stopAt`. */
  lemma DeserializeCustomSpec(lexWith: OptionsLexer, parseTag: string -> Option<ParsedTag>,
                              s: State, cm: CustomMatch)
    requires GetProp(s, "template", Undefined) != Bool(false)
    ensures var state := Skip(s, |cm.whole|);
      var text := JsString.Trim(cm.body);
      var r := DeserializeCustom(lexWith, parseTag, s, Some(cm));
      && (text == "" || parseTag(text).None? ==> r == Ok(Some(state)))
      && (text != "" && parseTag(text).Some? ==>
            var p := parseTag(text).value;
            var pushed := Push(state, OneNode(Placeholder(p.tag, p.data)));
            var list := GetProp(s, "unendingTags", Undefined);
            && pushed.nodes == s.nodes + [Placeholder(p.tag, p.data)]
            && pushed.text == state.text
            && (IsClosingTag(p.tag) ==> r == Ok(Some(pushed)))
            && (!IsClosingTag(p.tag) && !ListLike(list) ==> r.Err?)
            && (!IsClosingTag(p.tag) && ListLike(list) ==>
                  var opts := LexOptions("", true, StopAt(pushed, p.tag, p.data, (t: string) => Unending(list, t)));
                  (r.Ok? <==> lexWith(pushed, opts).Ok?)
                  && (r.Ok? ==> r.value == Some(lexWith(pushed, opts).value))))
  {
    var state := Skip(s, |cm.whole|);
    assert state.props == s.props;
    var text := JsString.Trim(cm.body);
    if text != "" && parseTag(text).Some? {
      var p := parseTag(text).value;
      var pushed := Push(state, OneNode(Placeholder(p.tag, p.data)));
      assert pushed.props == s.props;
      var list := GetProp(s, "unendingTags", Undefined);
      var stop := StopAt(pushed, p.tag, p.data, (t: string) => Unending(list, t));
      assert DefaultLexOptions.(stopAt := stop) == LexOptions("", true, stop);
    }
  }
}
