/**
 * Markdown code blocks: printing a code block fenced or indented, and
 * reading a fenced or an indented block back into code lines.
 */
module CodeBlocks {
  import opened Outcomes
  import opened Schema
  import JsString
  import Escapes
  import MarkdownUtils
  import Lists
  import opened ParseState

  // ----- lines ------------------------------------------------------------------

  /** The `split-lines` package: the text cut at every `\r\n` and `\n`. */
  function SplitLines(text: string): seq<string> {
    JsString.Split(JsString.ReplaceAll(text, "\r\n", "\n"), "\n")
  }

  /** `deserializeCodeLines(text)`: one code line block per line, each
      holding one text node without marks. */
  function CodeLines(text: string): (r: seq<Node>)
    ensures |r| == |SplitLines(text)|
    ensures forall i :: 0 <= i < |r| ==> r[i] == NewBlock(CODE_LINE, [TextNode(SplitLines(text)[i], [])])
  {
    var lines := SplitLines(text);
    seq(|lines|, i requires 0 <= i < |lines| => NewBlock(CODE_LINE, [TextNode(lines[i], [])]))
  }

  /** The text of every line of a code block. */
  function LineTexts(nodes: seq<Node>): (r: seq<string>)
    ensures |r| == |nodes| && forall i :: 0 <= i < |nodes| ==> r[i] == TextOf(nodes[i])
  {
    seq(|nodes|, i requires 0 <= i < |nodes| => TextOf(nodes[i]))
  }

  /** A blank line: nothing but whitespace, so that it trims to nothing. */
  predicate Blank(t: string) {
    JsString.AllSpace(t)
  }

  /** `!text.trim()` holds exactly for blank lines. */
  lemma BlankTrim(t: string)
    ensures Blank(t) <==> JsString.Trim(t) == ""
  {
    var a := JsString.TrimStart(t);
    if JsString.AllSpace(t) {
      MarkdownUtils.TrimStartAllSpace(t);
    } else {
      MarkdownUtils.TrimStartOfText(t);
      MarkdownUtils.TrimEndOfText(a);
    }
  }

  /** The text has no character at which a line ends. */
  predicate OneLine(t: string) {
    forall i :: 0 <= i < |t| ==> !JsString.IsLineTerminator(t[i])
  }

  // ----- printing ---------------------------------------------------------------

  /** The fenced form: the syntax after the opening fence. */
  function Fenced(syntax: string, inner: string): string {
    "```" + syntax + "\n" + inner + "\n```\n\n"
  }

  /** One line of the indented form: blank lines print empty, the others
      after four spaces. */
  function IndentLine(t: string): string {
    if Blank(t) then "" else "    " + t
  }

  function IndentLines(ts: seq<string>): (r: seq<string>)
    ensures |r| == |ts| && forall i :: 0 <= i < |ts| ==> r[i] == IndentLine(ts[i])
  {
    seq(|ts|, i requires 0 <= i < |ts| => IndentLine(ts[i]))
  }

  /** The indented form. */
  function Indented(ts: seq<string>): string {
    JsString.Join(IndentLines(ts), "\n") + "\n\n"
  }

  /** `escape(data.get('syntax') || '')`: a missing or falsy syntax escapes
      the empty text; a syntax that is not a string cannot be escaped. */
  function SyntaxOf(data: Data, encodeXml: string -> string): Result<string> {
    var v := Get(data, "syntax");
    if !Truthy(v) then Ok(MarkdownUtils.Escape("", true, encodeXml))
    else if v.Str? then Ok(MarkdownUtils.Escape(v.s, true, encodeXml))
    else Err(TypeError("escape of a non-string syntax"))
  }

  /** Fences are used when the code holds no backtick or a syntax is set. */
  predicate UsesFences(syntax: string, inner: string) {
    !JsString.Contains(inner, "`") || syntax != ""
  }

  /** The text of a code block node. */
  function CodeText(encodeXml: string -> string, node: Node): Result<string>
    requires !node.Text?
  {
    var syntax :- SyntaxOf(node.data, encodeXml);
    var inner := JsString.Join(LineTexts(node.nodes), "\n");
    if UsesFences(syntax, inner) then Ok(Fenced(syntax, inner))
    else Ok(Indented(LineTexts(node.nodes)))
  }

  /** `matchType(BLOCKS.CODE)`: the type alone decides. */
  predicate IsCode(n: Node) {
    TypeOf(n) == Some(CODE)
  }

  /** The code block serializer: declines any first node but a code block,
      and otherwise writes its text in place of the node. */
  function SerializeCode(encodeXml: string -> string, s: State): (r: Result<Option<State>>)
    ensures Peek(s).None? || !IsCode(Peek(s).value) ==> r == Ok(None)
    ensures Peek(s).Some? && IsCode(Peek(s).value) ==>
      (r.Ok? <==> CodeText(encodeXml, Peek(s).value).Ok?)
      && (r.Ok? ==> r.value == Some(Write(Shift(s), CodeText(encodeXml, Peek(s).value).value)))
  {
    match Peek(s)
    case None => Ok(None)
    case Some(node) =>
      if !IsCode(node) then Ok(None)
      else
        var out :- CodeText(encodeXml, node);
        Ok(Some(Write(Shift(s), out)))
  }

  /** The form a code block prints in: fenced with its escaped syntax exactly
      when its text holds no backtick or the syntax is not empty, indented
      otherwise; a syntax that is no string fails. */
  lemma CodeTextChoice(encodeXml: string -> string, node: Node)
    requires !node.Text?
    ensures var v := Get(node.data, "syntax");
      CodeText(encodeXml, node).Err? <==> Truthy(v) && !v.Str?
    ensures var syntax := SyntaxOf(node.data, encodeXml);
      var inner := JsString.Join(LineTexts(node.nodes), "\n");
      syntax.Ok? ==>
        (UsesFences(syntax.value, inner) ==> CodeText(encodeXml, node) == Ok(Fenced(syntax.value, inner)))
        && (!UsesFences(syntax.value, inner) ==> CodeText(encodeXml, node) == Ok(Indented(LineTexts(node.nodes))))
  {
  }

  // ----- reading the indented form -----------------------------------------------

  /** `text.replace(/^( {4}|\t)/gm, '')`: one indent of four spaces, or else
      a tab, is removed at the start of every line. */
  function StripIndentFrom(s: string, atLineStart: bool): string
    decreases |s|
  {
    if atLineStart && JsString.StartsWith(s, "    ") then StripIndentFrom(s[4..], false)
    else if atLineStart && |s| > 0 && s[0] == '\t' then StripIndentFrom(s[1..], false)
    else if |s| == 0 then ""
    else [s[0]] + StripIndentFrom(s[1..], JsString.IsLineTerminator(s[0]))
  }

  function StripIndent(s: string): string {
    StripIndentFrom(s, true)
  }

  /** The text of the code lines an indented block holds;
      `text.replace(/\n+$/, '')` is the same pattern as `trimTrailingLines`. */
  function TabsText(whole: string): string {
    Lists.TrimTrailingLines(StripIndent(whole))
  }

  // ----- reading the fenced form ---------------------------------------------------

  /** The `trim-newlines` package: carriage returns and newlines removed at
      both ends. */
  function TrimNewlinesStart(s: string): string
    decreases |s|
  {
    if |s| > 0 && (s[0] == '\r' || s[0] == '\n') then TrimNewlinesStart(s[1..]) else s
  }

  function TrimNewlinesEnd(s: string): string
    decreases |s|
  {
    if |s| > 0 && (s[|s| - 1] == '\r' || s[|s| - 1] == '\n') then TrimNewlinesEnd(s[..|s| - 1]) else s
  }

  function TrimNewlines(s: string): string {
    TrimNewlinesEnd(TrimNewlinesStart(s))
  }

  /** A match of the fences pattern: the whole match, the language when
      the second group took part, and the body (third group). */
  datatype FenceMatch = FenceMatch(whole: string, lang: Option<string>, body: string)

  /** A match of the indented code pattern. */
  datatype TabsMatch = TabsMatch(whole: string)

  /** The data of a fenced block: the unescaped, trimmed language when one
      was given, else none. */
  function FenceData(lang: Option<string>, decodeHtml: string -> string): (r: Data)
    ensures r == [] <==> lang.None? || lang.value == ""
  {
    if lang.Some? && lang.value != "" then
      [Entry("syntax", Str(MarkdownUtils.Unescape(JsString.Trim(lang.value), decodeHtml)))]
    else []
  }

  /** The block of a fence match, with the data read from its language. */
  function FencesBlock(m: FenceMatch, data: Data): Node {
    Block(CODE, data, false, CodeLines(TrimNewlines(m.body)))
  }

  function TabsBlock(m: TabsMatch): Node {
    NewBlock(CODE, CodeLines(TabsText(m.whole)))
  }

  /** `deserializeFences`: a match is skipped and its block pushed. */
  function DeserializeFences(decodeHtml: string -> string, s: State, m: Option<FenceMatch>): (r: Option<State>)
    ensures m.None? <==> r.None?
    ensures m.Some? ==> (r.value.nodes == s.nodes + [FencesBlock(m.value, FenceData(m.value.lang, decodeHtml))]
                         && r.value.text == Skip(s, |m.value.whole|).text)
  {
    match m
    case None => None
    case Some(fm) => Some(Push(Skip(s, |fm.whole|), OneNode(FencesBlock(fm, FenceData(fm.lang, decodeHtml)))))
  }

  /** `deserializeTabs`: a match is skipped and its block pushed. */
  function DeserializeTabs(s: State, m: Option<TabsMatch>): (r: Option<State>)
    ensures m.None? <==> r.None?
    ensures m.Some? ==> (r.value.nodes == s.nodes + [TabsBlock(m.value)]
                         && r.value.text == Skip(s, |m.value.whole|).text)
  {
    match m
    case None => None
    case Some(tm) => Some(Push(Skip(s, |tm.whole|), OneNode(TabsBlock(tm))))
  }

  /** `use([deserializeFences, deserializeTabs])`: fences first. */
  function DeserializeCode(decodeHtml: string -> string, s: State, fences: Option<FenceMatch>, tabs: Option<TabsMatch>)
    : (r: Option<State>)
    ensures fences.Some? ==> r == DeserializeFences(decodeHtml, s, fences)
    ensures fences.None? ==> r == DeserializeTabs(s, tabs)
  {
    if fences.Some? then DeserializeFences(decodeHtml, s, fences) else DeserializeTabs(s, tabs)
  }

  // ----- round trips ------------------------------------------------------------------

  /** What the indented form keeps of a line: blank lines come back empty. */
  function Blanked(t: string): string {
    if Blank(t) then "" else t
  }

  function BlankedLines(ts: seq<string>): (r: seq<string>)
    ensures |r| == |ts| && forall i :: 0 <= i < |ts| ==> r[i] == Blanked(ts[i])
  {
    seq(|ts|, i requires 0 <= i < |ts| => Blanked(ts[i]))
  }

  /** Every line followed by a newline. */
  function Terminated(ts: seq<string>): string {
    if |ts| == 0 then "" else ts[0] + "\n" + Terminated(ts[1..])
  }

  lemma {:induction false} JoinTerminated(ts: seq<string>)
    requires |ts| > 0
    ensures JsString.Join(ts, "\n") + "\n" == Terminated(ts)
    decreases |ts|
  {
    if |ts| > 1 {
      JoinTerminated(ts[1..]);
      assert JsString.Join(ts, "\n") + "\n" == ts[0] + "\n" + (JsString.Join(ts[1..], "\n") + "\n");
    }
  }

  /** Copying a piece of one line leaves the reader inside the line. */
  lemma {:induction false} StripIndentPlain(t: string, rest: string)
    requires OneLine(t)
    ensures StripIndentFrom(t + rest, false) == t + StripIndentFrom(rest, false)
    decreases |t|
  {
    if |t| == 0 {
      assert t + rest == rest;
    } else {
      assert (t + rest)[0] == t[0] && (t + rest)[1..] == t[1..] + rest;
      assert !JsString.IsLineTerminator(t[0]);
      assert OneLine(t[1..]) by {
        assert forall i :: 0 <= i < |t[1..]| ==> t[1..][i] == t[i + 1];
      }
      if |t| == 1 {
        assert t[1..] + rest == rest;
        assert StripIndentFrom(t + rest, false) == [t[0]] + StripIndentFrom(rest, false);
      } else {
        StripIndentPlain(t[1..], rest);
        assert StripIndentFrom(t + rest, false) == [t[0]] + StripIndentFrom(t[1..] + rest, false);
      }
    }
  }

  /** One indented line and its newline lose exactly the indent. */
  lemma StripIndentLine(t: string, rest: string)
    requires OneLine(t)
    ensures StripIndentFrom(IndentLine(t) + "\n" + rest, true) == Blanked(t) + "\n" + StripIndentFrom(rest, true)
  {
    if Blank(t) {
      assert IndentLine(t) + "\n" + rest == "\n" + rest;
      assert ("\n" + rest)[1..] == rest;
    } else {
      var x := IndentLine(t) + "\n" + rest;
      assert x == "    " + (t + ("\n" + rest));
      assert JsString.StartsWith(x, "    ");
      assert x[4..] == t + ("\n" + rest);
      StripIndentPlain(t, "\n" + rest);
      assert ("\n" + rest)[1..] == rest;
    }
  }

  /** The indented lines, each followed by a newline. */
  function IndentedLines(ts: seq<string>): string {
    if |ts| == 0 then "" else IndentLine(ts[0]) + "\n" + IndentedLines(ts[1..])
  }

  /** The kept lines, each followed by a newline. */
  function BlankedText(ts: seq<string>): string {
    if |ts| == 0 then "" else Blanked(ts[0]) + "\n" + BlankedText(ts[1..])
  }

  lemma {:induction false} IndentedLinesTerminated(ts: seq<string>)
    ensures Terminated(IndentLines(ts)) == IndentedLines(ts)
    decreases |ts|
  {
    if |ts| > 0 {
      assert IndentLines(ts)[1..] == IndentLines(ts[1..]);
      IndentedLinesTerminated(ts[1..]);
    }
  }

  lemma {:induction false} BlankedTextTerminated(ts: seq<string>)
    ensures Terminated(BlankedLines(ts)) == BlankedText(ts)
    decreases |ts|
  {
    if |ts| > 0 {
      assert BlankedLines(ts)[1..] == BlankedLines(ts[1..]);
      BlankedTextTerminated(ts[1..]);
    }
  }

  /** One more indented line in front of a text whose indents come off. */
  lemma StripIndentStep(t: string, il: string, bt: string, rest: string)
    requires OneLine(t)
    requires StripIndentFrom(il + rest, true) == bt + StripIndentFrom(rest, true)
    ensures StripIndentFrom((IndentLine(t) + "\n" + il) + rest, true) == (Blanked(t) + "\n" + bt) + StripIndentFrom(rest, true)
  {
    var x := il + rest;
    assert (IndentLine(t) + "\n" + il) + rest == IndentLine(t) + "\n" + x;
    StripIndentLine(t, x);
  }

  lemma {:induction false} StripIndentTerminated(ts: seq<string>, rest: string)
    requires forall i :: 0 <= i < |ts| ==> OneLine(ts[i])
    ensures StripIndentFrom(IndentedLines(ts) + rest, true) == BlankedText(ts) + StripIndentFrom(rest, true)
    decreases |ts|
  {
    if |ts| == 0 {
      assert IndentedLines(ts) + rest == rest;
    } else {
      var tail := ts[1..];
      forall i | 0 <= i < |tail| ensures OneLine(tail[i]) {
        assert tail[i] == ts[i + 1];
      }
      StripIndentTerminated(tail, rest);
      StripIndentStep(ts[0], IndentedLines(tail), BlankedText(tail), rest);
    }
  }

  lemma DropTrailingNewlinesAfter(a: string)
    requires a != "" && a[|a| - 1] != '\n'
    ensures Lists.TrimTrailingLines(a + "\n\n") == a
  {
    var s := a + "\n\n";
    var s1 := a + "\n";
    assert s[|s| - 1] == '\n' && s[..|s| - 1] == s1;
    assert s1[|s1| - 1] == '\n' && s1[..|s1| - 1] == a;
    assert Lists.TrimTrailingLines(a) == a;
  }

  /** A line of a list of one-line texts, joined by newlines, contains no
      character the lines and the separator avoid. */
  lemma {:induction false} JoinAvoids(ts: seq<string>, sep: string, c: char)
    requires c !in sep && forall i :: 0 <= i < |ts| ==> c !in ts[i]
    ensures c !in JsString.Join(ts, sep)
    decreases |ts|
  {
    if |ts| > 1 {
      JoinAvoids(ts[1..], sep, c);
    }
  }

  /** Splitting lines undoes joining one-line texts by newlines. */
  lemma SplitLinesJoin(ts: seq<string>)
    requires |ts| > 0 && forall i :: 0 <= i < |ts| ==> OneLine(ts[i])
    ensures SplitLines(JsString.Join(ts, "\n")) == ts
  {
    forall i | 0 <= i < |ts| ensures '\r' !in ts[i] && '\n' !in ts[i] {
      assert forall k :: 0 <= k < |ts[i]| ==> !JsString.IsLineTerminator(ts[i][k]);
    }
    var j := JsString.Join(ts, "\n");
    JoinAvoids(ts, "\n", '\r');
    Escapes.NotInNotContains(j, "\r\n");
    JsString.ReplaceAllAbsent(j, "\r\n", "\n");
    JsString.SplitJoinChar(ts, '\n', "");
    assert "" + ts[0] == ts[0];
    assert [ts[0]] + ts[1..] == ts;
  }

  /** Reading back the indented form gives every line in order, blank ones
      emptied, when no line breaks inside and the last line is not blank. */
  lemma IndentedRoundTrip(ts: seq<string>)
    requires |ts| > 0 && forall i :: 0 <= i < |ts| ==> OneLine(ts[i])
    requires !Blank(ts[|ts| - 1])
    ensures SplitLines(TabsText(Indented(ts))) == BlankedLines(ts)
  {
    var b := BlankedLines(ts);
    var j := JsString.Join(b, "\n");
    assert StripIndent(Indented(ts)) == j + "\n\n" by {
      var il := IndentLines(ts);
      JoinTerminated(il);
      IndentedLinesTerminated(ts);
      assert Indented(ts) == IndentedLines(ts) + "\n" by {
        assert Indented(ts) == (JsString.Join(il, "\n") + "\n") + "\n";
      }
      StripIndentTerminated(ts, "\n");
      assert StripIndentFrom("\n", true) == "\n" by {
        assert !JsString.StartsWith("\n", "    ");
        assert "\n"[1..] == "";
      }
      JoinTerminated(b);
      BlankedTextTerminated(ts);
      assert BlankedText(ts) + "\n" == (j + "\n") + "\n";
    }
    assert j != "" && j[|j| - 1] != '\n' by {
      var last := b[|b| - 1];
      assert last == ts[|ts| - 1] && last != "";
      assert OneLine(last);
      JoinLast(b);
    }
    DropTrailingNewlinesAfter(j);
    forall i | 0 <= i < |b| ensures OneLine(b[i]) {
      assert OneLine(ts[i]);
    }
    SplitLinesJoin(b);
  }

  /** The last character of a join is the last character of its last part. */
  lemma {:induction false} JoinLast(ts: seq<string>)
    requires |ts| > 0 && ts[|ts| - 1] != ""
    ensures var j := JsString.Join(ts, "\n"); j != "" && j[|j| - 1] == ts[|ts| - 1][|ts[|ts| - 1]| - 1]
    decreases |ts|
  {
    if |ts| > 1 {
      JoinLast(ts[1..]);
    }
  }
  predicate IsNewline(c: char) {
    c == '\r' || c == '\n'
  }

  /** Nothing but carriage returns and newlines. */
  predicate AllNewlines(p: string) {
    forall i :: 0 <= i < |p| ==> IsNewline(p[i])
  }

  lemma {:induction false} TrimNewlinesStartOf(p: string, x: string)
    requires AllNewlines(p) && (x == "" || !IsNewline(x[0]))
    ensures TrimNewlinesStart(p + x) == x
    decreases |p|
  {
    if |p| == 0 {
      assert p + x == x;
    } else {
      assert (p + x)[0] == p[0] && (p + x)[1..] == p[1..] + x;
      assert AllNewlines(p[1..]) by {
        assert forall i :: 0 <= i < |p[1..]| ==> p[1..][i] == p[i + 1];
      }
      TrimNewlinesStartOf(p[1..], x);
    }
  }

  lemma {:induction false} TrimNewlinesEndOf(x: string, q: string)
    requires AllNewlines(q) && (x == "" || !IsNewline(x[|x| - 1]))
    ensures TrimNewlinesEnd(x + q) == x
    decreases |q|
  {
    if |q| == 0 {
      assert x + q == x;
    } else {
      var n := |q| - 1;
      assert (x + q)[|x + q| - 1] == q[n] && (x + q)[..|x + q| - 1] == x + q[..n];
      assert AllNewlines(q[..n]) by {
        assert forall i :: 0 <= i < n ==> q[..n][i] == q[i];
      }
      TrimNewlinesEndOf(x, q[..n]);
    }
  }

  /** The first character of a join is the first character of its first part. */
  lemma JoinFirst(ts: seq<string>)
    requires |ts| > 0 && ts[0] != ""
    ensures var j := JsString.Join(ts, "\n"); j != "" && j[0] == ts[0][0]
  {
  }

  /** The newlines around a text that neither starts nor ends with one are
      exactly what `trim-newlines` removes. */
  lemma TrimNewlinesAround(p: string, x: string, q: string)
    requires AllNewlines(p) && AllNewlines(q)
    requires x != "" && !IsNewline(x[0]) && !IsNewline(x[|x| - 1])
    ensures TrimNewlines(p + x + q) == x
  {
    assert p + x + q == p + (x + q);
    assert (x + q)[0] == x[0];
    TrimNewlinesStartOf(p, x + q);
    TrimNewlinesEndOf(x, q);
  }

  /** Reading back the body of the fenced form gives every line in order,
      whatever newlines surround it, when no line breaks inside and the
      first and the last line are not empty. */
  lemma FencedRoundTrip(ts: seq<string>, p: string, q: string)
    requires |ts| > 0 && forall i :: 0 <= i < |ts| ==> OneLine(ts[i])
    requires ts[0] != "" && ts[|ts| - 1] != ""
    requires AllNewlines(p) && AllNewlines(q)
    ensures SplitLines(TrimNewlines(p + JsString.Join(ts, "\n") + q)) == ts
  {
    var j := JsString.Join(ts, "\n");
    assert j != "" && !IsNewline(j[0]) && !IsNewline(j[|j| - 1]) by {
      JoinFirst(ts);
      JoinLast(ts);
      assert OneLine(ts[0]) && OneLine(ts[|ts| - 1]);
    }
    TrimNewlinesAround(p, j, q);
    SplitLinesJoin(ts);
  }
  /** The code lines of a text hold its lines, in order. */
  lemma CodeLinesText(text: string)
    ensures LineTexts(CodeLines(text)) == SplitLines(text)
  {
    var r := CodeLines(text);
    forall i | 0 <= i < |r| ensures TextOf(r[i]) == SplitLines(text)[i] {
      var line := SplitLines(text)[i];
      var t := TextNode(line, []);
      assert [Leaf(line, [])][1..] == [];
      assert TextOf(t) == line + LeavesText([]);
      assert [t][1..] == [];
      assert TextOf(r[i]) == NodesText([t]) == TextOf(t) + NodesText([]);
    }
  }

  /** A code block printed in the indented form and read back as a whole
      indented match holds the same lines, blank ones emptied, when no line
      breaks inside and the last line is not blank. */
  lemma IndentedBlockRoundTrip(ts: seq<string>)
    requires |ts| > 0 && forall i :: 0 <= i < |ts| ==> OneLine(ts[i])
    requires !Blank(ts[|ts| - 1])
    ensures LineTexts(TabsBlock(TabsMatch(Indented(ts))).nodes) == BlankedLines(ts)
  {
    IndentedRoundTrip(ts);
    CodeLinesText(TabsText(Indented(ts)));
  }

  /** A code block printed in the fenced form and read back from a fence
      match whose body is the printed text with the newlines around it
      holds the same lines. */
  lemma FencedBlockRoundTrip(ts: seq<string>, p: string, q: string, m: FenceMatch, data: Data)
    requires |ts| > 0 && forall i :: 0 <= i < |ts| ==> OneLine(ts[i])
    requires ts[0] != "" && ts[|ts| - 1] != ""
    requires AllNewlines(p) && AllNewlines(q) && m.body == p + JsString.Join(ts, "\n") + q
    ensures LineTexts(FencesBlock(m, data).nodes) == ts
  {
    FencedLines(ts, p, q);
  }

  lemma FencedLines(ts: seq<string>, p: string, q: string)
    requires |ts| > 0 && forall i :: 0 <= i < |ts| ==> OneLine(ts[i])
    requires ts[0] != "" && ts[|ts| - 1] != ""
    requires AllNewlines(p) && AllNewlines(q)
    ensures LineTexts(CodeLines(TrimNewlines(p + JsString.Join(ts, "\n") + q))) == ts
  {
    FencedRoundTrip(ts, p, q);
    CodeLinesText(TrimNewlines(p + JsString.Join(ts, "\n") + q));
  }
}
