/**
 * Printing a node as an HTML tag: its attributes, then either a
 * self-closing tag or an opening tag, the printed children and the closing
 * tag.
 */
module HtmlTags {
  import opened Outcomes
  import opened Schema
  import opened ParseState
  import JsString

  // ----- attributes --------------------------------------------------------------

  /** One attribute of `attrsToString`: nothing for `undefined` and `null`,
      the bare key for the empty string, else `key="value"` with the value
      escaped. The entity encoder works on strings only. */
  function AttrText(escape: string -> string, e: Entry): Result<string> {
    if e.value.Undefined? || e.value.Null? then Ok("")
    else if e.value == Str("") then Ok(" " + e.key)
    else if e.value.Str? then Ok(" " + e.key + "=\"" + escape(e.value.s) + "\"")
    else Err(TypeError("entity encoding of a non-string attribute"))
  }

  /** The `reduce` of `attrsToString`: the attributes in order, appended to
      the output so far. */
  function AttrsFrom(escape: string -> string, attrs: Data, output: string): Result<string>
    decreases |attrs|
  {
    if |attrs| == 0 then Ok(output)
    else
      var piece :- AttrText(escape, attrs[0]);
      AttrsFrom(escape, attrs[1..], output + piece)
  }

  /** `attrsToString(attrs)` */
  function AttrsToString(escape: string -> string, attrs: Data): Result<string> {
    AttrsFrom(escape, attrs, "")
  }

  /** A value the encoder accepts: a string, `undefined` or `null`. */
  predicate Printable(v: Value) {
    v.Undefined? || v.Null? || v.Str?
  }

  /** The attributes printed one after the other (a value the encoder
      refuses contributes nothing here; the reduce fails on it). */
  function AttrsText(escape: string -> string, attrs: Data): string {
    if |attrs| == 0 then ""
    else
      var piece := AttrText(escape, attrs[0]);
      (if piece.Ok? then piece.value else "") + AttrsText(escape, attrs[1..])
  }

  /** The reduce appends the printed attributes to its start value, and
      fails exactly when some value is neither a string, `undefined` nor
      `null`. */
  lemma {:induction false} AttrsFromSpec(escape: string -> string, attrs: Data, output: string)
    ensures AttrsFrom(escape, attrs, output).Ok? <==> forall i :: 0 <= i < |attrs| ==> Printable(attrs[i].value)
    ensures AttrsFrom(escape, attrs, output).Ok? ==> AttrsFrom(escape, attrs, output).value == output + AttrsText(escape, attrs)
    decreases |attrs|
  {
    if |attrs| > 0 {
      var tail := attrs[1..];
      var piece := AttrText(escape, attrs[0]);
      if piece.Ok? {
        assert Printable(attrs[0].value);
        AttrsFromSpec(escape, tail, output + piece.value);
        assert forall i :: 0 <= i < |tail| ==> tail[i] == attrs[i + 1];
        assert (forall i :: 0 <= i < |attrs| ==> Printable(attrs[i].value))
          <==> (forall i :: 0 <= i < |tail| ==> Printable(tail[i].value));
        assert output + piece.value + AttrsText(escape, tail) == output + AttrsText(escape, attrs);
      } else {
        assert !Printable(attrs[0].value);
      }
    }
  }

  /** Attributes set to `undefined` or `null` print nothing. */
  lemma {:induction false} AttrsTextAbsent(escape: string -> string, attrs: Data)
    requires forall i :: 0 <= i < |attrs| ==> attrs[i].value.Undefined? || attrs[i].value.Null?
    ensures AttrsText(escape, attrs) == ""
    decreases |attrs|
  {
    if |attrs| > 0 {
      AttrsTextAbsent(escape, attrs[1..]);
    }
  }

  /** The printed attributes of two lists are those of each, in order. */
  lemma {:induction false} AttrsTextAppend(escape: string -> string, a: Data, b: Data)
    ensures AttrsText(escape, a + b) == AttrsText(escape, a) + AttrsText(escape, b)
    decreases |a|
  {
    if |a| == 0 {
      assert a + b == b;
    } else {
      assert (a + b)[1..] == a[1..] + b;
      AttrsTextAppend(escape, a[1..], b);
    }
  }

  // ----- the tag -------------------------------------------------------------------

  /** What `serializeTag(tag, { isSingleTag, getAttrs })` is built from;
      `getAttrs` defaults to no attributes. */
  datatype TagOptions = TagOptions(isSingleTag: bool, getAttrs: Node -> Data)

  /** The text of a tag around the node's printed children. */
  function TagText(tag: string, attrsText: string, isSingleTag: bool, inner: string): string {
    if isSingleTag then "<" + tag + attrsText + "/>"
    else "<" + tag + attrsText + ">" + inner + "</" + tag + ">"
  }

  /** The serializer `serializeTag` returns, on a state whose first node it
      prints; the children are printed one level down with `printer`. A text
      node has no `nodes`, which `List(undefined)` reads as no children. */
  function SerializeTag(printer: Printer, escape: string -> string, tag: string, opts: TagOptions, s: State)
    : (r: Result<State>)
    requires |s.nodes| > 0
  {
    var node := s.nodes[0];
    var attrsText :- AttrsToString(escape, opts.getAttrs(node));
    var inner :- if opts.isSingleTag then Ok("")
                 else printer(s, Children(node));
    Ok(Write(Shift(s), TagText(tag, attrsText, opts.isSingleTag, inner)))
  }

  /** The serializer fails exactly when an attribute value cannot be
      encoded or the children of a tag that is not single cannot be
      printed; otherwise the first node, and only it, is consumed and the
      tag is appended to the output. */
  lemma SerializeTagSpec(printer: Printer, escape: string -> string, tag: string, opts: TagOptions, s: State)
    requires |s.nodes| > 0
    ensures var node := s.nodes[0];
      var attrs := opts.getAttrs(node);
      var r := SerializeTag(printer, escape, tag, opts, s);
      && (r.Ok? <==>
            (forall i :: 0 <= i < |attrs| ==> Printable(attrs[i].value))
            && (opts.isSingleTag || printer(s, Children(node)).Ok?))
      && (r.Ok? ==>
            && r.value.nodes == s.nodes[1..]
            && r.value.stack == s.stack && r.value.props == s.props
            && r.value.text == s.text + TagText(tag, AttrsText(escape, attrs), opts.isSingleTag,
                                                if opts.isSingleTag then "" else printer(s, Children(node)).value))
      && (node.Text? && !opts.isSingleTag && r.Ok? ==>
            r.value.text == s.text + TagText(tag, AttrsText(escape, attrs), false, printer(s, []).value))
  {
    var attrs := opts.getAttrs(s.nodes[0]);
    AttrsFromSpec(escape, attrs, "");
    assert "" + AttrsText(escape, attrs) == AttrsText(escape, attrs);
  }

  /** A single tag is `<tag attrs/>`; any other is the opening tag, the
      children and the closing tag. */
  lemma TagTextShape(tag: string, attrsText: string, isSingleTag: bool, inner: string)
    ensures var t := TagText(tag, attrsText, isSingleTag, inner);
      && JsString.StartsWith(t, "<" + tag + attrsText)
      && (isSingleTag ==> JsString.EndsWith(t, "/>") && |t| == |tag| + |attrsText| + 3)
      && (!isSingleTag ==>
            (JsString.EndsWith(t, "</" + tag + ">") && t[|tag| + |attrsText| + 1..|t| - |tag| - 3] == ">" + inner))
  {
    var t := TagText(tag, attrsText, isSingleTag, inner);
    var open := "<" + tag + attrsText;
    if isSingleTag {
      assert t == open + "/>";
      assert t[..|open|] == open;
    } else {
      var close := "</" + tag + ">";
      assert t == open + (">" + inner) + close;
      assert t[..|open|] == open;
      assert t[|t| - |close|..] == close;
      assert t[|open|..|t| - |close|] == ">" + inner;
    }
  }
}
