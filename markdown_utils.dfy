/**
 * Helpers shared by the markdown rules: escaping of markdown syntax and of
 * URLs by replacement tables, resolution of link references, and wrapping
 * inline content in markup characters.
 */
module MarkdownUtils {
  import opened Outcomes
  import opened Schema
  import JsString
  import Escapes
  import ParseState
  import Paragraphs

  type Replacements = Escapes.Replacements
  type Replacement = Escapes.Replacement

  /** The markdown characters that are escaped, in table order. The slash is
      deliberately not among them. */
  const REPLACEMENTS_ESCAPE: Replacements := [
    Escapes.Replacement("*", "\\*"), Escapes.Replacement("#", "\\#"), Escapes.Replacement("(", "\\("), Escapes.Replacement(")", "\\)"),
    Escapes.Replacement("[", "\\["), Escapes.Replacement("]", "\\]"), Escapes.Replacement("`", "\\`"), Escapes.Replacement("<", "&lt;"),
    Escapes.Replacement(">", "&gt;"), Escapes.Replacement("_", "\\_"), Escapes.Replacement("|", "\\|")
  ]

  /** Every escaped character is unescaped, and so are the space and `+`. */
  const REPLACEMENTS_UNESCAPE: Replacements :=
    Escapes.Merge(REPLACEMENTS_ESCAPE, [Escapes.Replacement(" ", "\\ "), Escapes.Replacement("+", "\\+")])

  const URL_REPLACEMENTS_ESCAPE: Replacements := [Escapes.Replacement(" ", "%20"), Escapes.Replacement("(", "%28"), Escapes.Replacement(")", "%29")]

  /** `escape(str, escapeXML)`: the markdown table, then the XML entity
      encoder unless `escapeXML` is exactly `false`. */
  function Escape(s: string, escapeXml: bool, encodeXml: string -> string): string {
    var str := Escapes.EscapeWith(REPLACEMENTS_ESCAPE, s);
    if escapeXml then encodeXml(str) else str
  }

  /** `unescape(str)`: the flipped unescape table, then the HTML entity
      decoder. */
  function Unescape(s: string, decodeHtml: string -> string): string {
    decodeHtml(Escapes.UnescapeWith(REPLACEMENTS_UNESCAPE, s))
  }

  /** `escapeURL(str)` */
  function EscapeURL(s: string): string {
    Escapes.EscapeWith(URL_REPLACEMENTS_ESCAPE, s)
  }

  // ----- escaping, character by character ----------------------------------------

  /** What markdown escaping makes of one character. */
  function MarkdownEscapeChar(c: char): string {
    if c == '<' then "&lt;"
    else if c == '>' then "&gt;"
    else if c in "*#()[]`_|" then ['\\', c]
    else [c]
  }

  /** What URL escaping makes of one character. */
  function UrlEscapeChar(c: char): string {
    if c == ' ' then "%20"
    else if c == '(' then "%28"
    else if c == ')' then "%29"
    else [c]
  }

  lemma MarkdownTableRow(i: nat)
    requires i < |REPLACEMENTS_ESCAPE|
    ensures Escapes.CharRow(REPLACEMENTS_ESCAPE, i)
  {
  }

  lemma MarkdownTableIsCharTable()
    ensures Escapes.CharTable(REPLACEMENTS_ESCAPE)
  {
    forall i | 0 <= i < |REPLACEMENTS_ESCAPE| ensures Escapes.CharRow(REPLACEMENTS_ESCAPE, i) {
      MarkdownTableRow(i);
    }
    Escapes.CharTableOfRows(REPLACEMENTS_ESCAPE);
  }

  /** The entry of a markdown character in the table. */
  lemma MarkdownKey(c: char) returns (i: nat)
    requires MarkdownEscapeChar(c) != [c]
    ensures i < |REPLACEMENTS_ESCAPE| && REPLACEMENTS_ESCAPE[i].key == [c]
  {
    i := if c == '*' then 0 else if c == '#' then 1 else if c == '(' then 2 else if c == ')' then 3
      else if c == '[' then 4 else if c == ']' then 5 else if c == '`' then 6 else if c == '<' then 7
      else if c == '>' then 8 else if c == '_' then 9 else 10;
  }

  lemma MarkdownTableValue(i: nat)
    requires i < |REPLACEMENTS_ESCAPE|
    ensures |REPLACEMENTS_ESCAPE[i].key| == 1
    ensures MarkdownEscapeChar(REPLACEMENTS_ESCAPE[i].key[0]) == REPLACEMENTS_ESCAPE[i].value
  {
  }

  lemma MarkdownTableEntries()
    ensures Escapes.EntriesOf(REPLACEMENTS_ESCAPE, (x: char) => [x], MarkdownEscapeChar)
  {
    var m := REPLACEMENTS_ESCAPE;
    forall i | 0 <= i < |m| && |m[i].key| == 1 ensures MarkdownEscapeChar(m[i].key[0]) == m[i].value {
      MarkdownTableValue(i);
    }
    forall x ensures (forall i :: 0 <= i < |m| ==> m[i].key != [x]) ==> MarkdownEscapeChar(x) == [x] {
      if MarkdownEscapeChar(x) != [x] {
        var i := MarkdownKey(x);
      }
    }
  }

  lemma UrlTableRow(i: nat)
    requires i < |URL_REPLACEMENTS_ESCAPE|
    ensures Escapes.CharRow(URL_REPLACEMENTS_ESCAPE, i)
  {
  }

  lemma UrlTableIsCharTable()
    ensures Escapes.CharTable(URL_REPLACEMENTS_ESCAPE)
  {
    forall i | 0 <= i < |URL_REPLACEMENTS_ESCAPE| ensures Escapes.CharRow(URL_REPLACEMENTS_ESCAPE, i) {
      UrlTableRow(i);
    }
    Escapes.CharTableOfRows(URL_REPLACEMENTS_ESCAPE);
  }

  lemma UrlKey(c: char) returns (i: nat)
    requires UrlEscapeChar(c) != [c]
    ensures i < |URL_REPLACEMENTS_ESCAPE| && URL_REPLACEMENTS_ESCAPE[i].key == [c]
  {
    i := if c == ' ' then 0 else if c == '(' then 1 else 2;
  }

  lemma UrlTableEntries()
    ensures Escapes.EntriesOf(URL_REPLACEMENTS_ESCAPE, (x: char) => [x], UrlEscapeChar)
  {
    var m := URL_REPLACEMENTS_ESCAPE;
    forall x ensures (forall i :: 0 <= i < |m| ==> m[i].key != [x]) ==> UrlEscapeChar(x) == [x] {
      if UrlEscapeChar(x) != [x] {
        var i := UrlKey(x);
      }
    }
  }

  /** With `escapeXML === false` every markdown character is replaced on its
      own: `<` and `>` by their entities, the other nine by a backslash and
      the character, and nothing else changes. */
  lemma EscapeSpec(s: string, encodeXml: string -> string)
    ensures Escape(s, false, encodeXml) == Escapes.CharMap(s, MarkdownEscapeChar)
  {
    MarkdownTableIsCharTable();
    MarkdownTableEntries();
    Escapes.EscapeCharwise(REPLACEMENTS_ESCAPE, s, MarkdownEscapeChar);
  }

  /** `escapeURL` replaces space, `(` and `)` by `%20`, `%28` and `%29` and
      changes nothing else. */
  lemma EscapeURLSpec(s: string)
    ensures EscapeURL(s) == Escapes.CharMap(s, UrlEscapeChar)
  {
    UrlTableIsCharTable();
    UrlTableEntries();
    Escapes.EscapeCharwise(URL_REPLACEMENTS_ESCAPE, s, UrlEscapeChar);
  }

  // ----- wrapping inline content ----------------------------------------------------

  function LeadingSpace(s: string): string {
    s[..|s| - |JsString.TrimStart(s)|]
  }

  function TrailingSpace(s: string): string {
    s[|JsString.TrimEnd(s)|..]
  }

  /** `wrapInline(str, chars)`: `chars` goes after the leading whitespace,
      then again before the trailing whitespace of the result. */
  function WrapInline(s: string, chars: string): string {
    var first := LeadingSpace(s) + chars + JsString.TrimStart(s);
    JsString.TrimEnd(first) + chars + TrailingSpace(first)
  }

  /** Trimming the end of `a + b` only touches `b` when `b` holds a
      non-space character. */
  lemma {:induction false} TrimEndAppend(a: string, b: string)
    requires JsString.TrimEnd(b) != ""
    ensures JsString.TrimEnd(a + b) == a + JsString.TrimEnd(b)
    decreases |b|
  {
    var ab := a + b;
    assert ab[|ab| - 1] == b[|b| - 1];
    if JsString.IsJsSpace(b[|b| - 1]) {
      assert ab[..|ab| - 1] == a + b[..|b| - 1];
      TrimEndAppend(a, b[..|b| - 1]);
    }
  }

  lemma {:induction false} TrimStartAllSpace(s: string)
    requires JsString.AllSpace(s)
    ensures JsString.TrimStart(s) == ""
    decreases |s|
  {
    if |s| > 0 {
      assert JsString.AllSpace(s[1..]) by {
        assert forall i :: 0 <= i < |s[1..]| ==> s[1..][i] == s[i + 1];
      }
      TrimStartAllSpace(s[1..]);
    }
  }

  lemma {:induction false} TrimStartOfText(s: string)
    requires !JsString.AllSpace(s)
    ensures JsString.TrimStart(s) != "" && !JsString.IsJsSpace(JsString.TrimStart(s)[0])
    decreases |s|
  {
    var i :| 0 <= i < |s| && !JsString.IsJsSpace(s[i]);
    if JsString.IsJsSpace(s[0]) {
      assert i > 0 && s[1..][i - 1] == s[i];
      TrimStartOfText(s[1..]);
    }
  }

  lemma {:induction false} TrimEndOfText(a: string)
    requires |a| > 0 && !JsString.IsJsSpace(a[0])
    ensures JsString.TrimEnd(a) != ""
    decreases |a|
  {
    if JsString.IsJsSpace(a[|a| - 1]) {
      assert |a| > 1;
      assert a[..|a| - 1][0] == a[0];
      TrimEndOfText(a[..|a| - 1]);
    }
  }

  predicate NoSpace(s: string) {
    forall i :: 0 <= i < |s| ==> !JsString.IsJsSpace(s[i])
  }

  /** A text of whitespace only is followed by both wrappers. */
  lemma WrapInlineBlank(s: string, chars: string)
    requires chars != "" && NoSpace(chars)
    requires JsString.AllSpace(s)
    ensures WrapInline(s, chars) == s + chars + chars
  {
    TrimStartAllSpace(s);
    assert LeadingSpace(s) == s;
    var first := s + chars + "";
    assert first == s + chars;
    assert JsString.TrimEnd(chars) == chars;
    TrimEndAppend(s, chars);
    assert TrailingSpace(first) == "";
  }

  /** The trailing whitespace of `p + a` is that of `a` when `a` holds a
      non-space character. */
  lemma TrailingSpaceAppend(p: string, a: string)
    requires JsString.TrimEnd(a) != ""
    ensures JsString.TrimEnd(p + a) == p + JsString.TrimEnd(a)
    ensures TrailingSpace(p + a) == TrailingSpace(a)
  {
    TrimEndAppend(p, a);
    var e := JsString.TrimEnd(a);
    assert p + a == (p + e) + a[|e|..];
  }

  lemma LeadingSplit(s: string)
    ensures s == LeadingSpace(s) + JsString.TrimStart(s)
  {
  }

  lemma TrailingSplit(s: string)
    ensures s == JsString.TrimEnd(s) + TrailingSpace(s)
  {
  }

  /** A text that is not all whitespace is its leading whitespace, its
      trimmed content and its trailing whitespace. */
  lemma TrimSplit(s: string)
    requires !JsString.AllSpace(s)
    ensures JsString.TrimEnd(JsString.TrimStart(s)) != ""
    ensures s == LeadingSpace(s) + JsString.TrimStart(s)
    ensures TrailingSpace(s) == TrailingSpace(JsString.TrimStart(s))
    ensures s == LeadingSpace(s) + JsString.TrimEnd(JsString.TrimStart(s)) + TrailingSpace(s)
  {
    LeadingSplit(s);
    TrimStartOfText(s);
    TrimEndOfText(JsString.TrimStart(s));
    SplitAround(LeadingSpace(s), JsString.TrimStart(s));
  }

  lemma SplitAround(l: string, a: string)
    requires JsString.TrimEnd(a) != ""
    ensures TrailingSpace(l + a) == TrailingSpace(a)
    ensures l + a == l + JsString.TrimEnd(a) + TrailingSpace(a)
  {
    TrailingSpaceAppend(l, a);
    TrailingSplit(a);
  }

  /** Otherwise the wrappers go inside the outer whitespace, around the
      trimmed text. */
  lemma WrapInlineText(s: string, chars: string)
    requires !JsString.AllSpace(s)
    ensures s == LeadingSpace(s) + JsString.Trim(s) + TrailingSpace(s)
    ensures WrapInline(s, chars) == LeadingSpace(s) + chars + JsString.Trim(s) + chars + TrailingSpace(s)
  {
    var a := JsString.TrimStart(s);
    var l := LeadingSpace(s);
    TrimSplit(s);
    TrailingSpaceAppend(l + chars, a);
    assert JsString.Trim(s) == JsString.TrimEnd(a);
  }

  // ----- link references -------------------------------------------------------------

  /** The key a reference is stored under: whitespace runs collapsed to one
      space, then lower-cased. `lower` is the host's `toLowerCase`, whose
      Unicode case tables are not part of this model. */
  function NormalizeRef(id: string, lower: string -> string): string {
    lower(JsString.CollapseSpaces(id))
  }

  /** What the lemmas need of `toLowerCase`: lower-casing twice is lower-casing
      once, and it neither creates whitespace nor doubles a space. */
  ghost predicate CaseFolding(lower: string -> string) {
    && (forall t :: lower(lower(t)) == lower(t))
    && (forall t :: Paragraphs.SingleSpaced(t) ==> Paragraphs.SingleSpaced(lower(t)))
  }

  /** The fields of an object whose value is truthy, in order. */
  function TruthyEntries(d: Data): (r: Data)
    ensures |r| <= |d|
    ensures forall e :: e in r <==> e in d && Truthy(e.value)
  {
    if |d| == 0 then []
    else if Truthy(d[0].value) then [d[0]] + TruthyEntries(d[1..])
    else TruthyEntries(d[1..])
  }

  /** `resolveRef(state, refID)`: the reference's fields with the falsy ones
      dropped, or `None` when the reference is not defined. The `refs` prop
      must be a map and a defined reference an object. */
  function ResolveRef(s: ParseState.State, refId: string, lower: string -> string): Result<Option<Data>> {
    var refs := ParseState.GetProp(s, "refs", Undefined);
    if !refs.Obj? then Err(TypeError("refs of the state"))
    else
      var data := Get(refs.entries, NormalizeRef(refId, lower));
      if !Truthy(data) then Ok(None)
      else if data.Obj? then Ok(Some(TruthyEntries(data.entries)))
      else Err(TypeError("a reference that is not an object"))
  }

  lemma LowerSingleSpaced(s: string)
    requires Paragraphs.SingleSpaced(s)
    ensures Paragraphs.SingleSpaced(JsString.Lower(s))
  {
    var r := JsString.Lower(s);
    forall i | 0 <= i < |r| && JsString.IsJsSpace(r[i])
      ensures r[i] == ' ' && (i + 1 < |r| ==> !JsString.IsJsSpace(r[i + 1]))
    {
      assert r[i] == JsString.LowerChar(s[i]);
      if i + 1 < |r| {
        assert r[i + 1] == JsString.LowerChar(s[i + 1]);
      }
    }
  }

  /** The ASCII part of `toLowerCase` meets those requirements. */
  lemma AsciiLowerFolds()
    ensures CaseFolding(JsString.Lower)
  {
    forall t: string
      ensures JsString.Lower(JsString.Lower(t)) == JsString.Lower(t)
    {
      var l := JsString.Lower(t);
      assert forall i :: 0 <= i < |l| ==> JsString.LowerChar(l[i]) == l[i];
    }
    forall t: string | Paragraphs.SingleSpaced(t)
      ensures Paragraphs.SingleSpaced(JsString.Lower(t))
    {
      LowerSingleSpaced(t);
    }
  }

  /** A normalized reference is its own normal form. */
  lemma NormalizeRefIdempotent(id: string, lower: string -> string)
    requires CaseFolding(lower)
    ensures NormalizeRef(NormalizeRef(id, lower), lower) == NormalizeRef(id, lower)
  {
    var c := JsString.CollapseSpaces(id);
    Paragraphs.CollapseSpacesSpec(id);
    var n := lower(c);
    assert Paragraphs.SingleSpaced(n);
    Paragraphs.CollapseSpacesOfClean(n);
    assert lower(n) == n;
  }

  /** A reference resolves as its normal form does: it is found whatever
      its case and however its whitespace runs are spelled. */
  lemma ResolveRefNormalized(s: ParseState.State, id: string, lower: string -> string)
    requires CaseFolding(lower)
    ensures ResolveRef(s, NormalizeRef(id, lower), lower) == ResolveRef(s, id, lower)
  {
    NormalizeRefIdempotent(id, lower);
  }

  /** `resolveRef` fails when `refs` is not a map or the reference is not an
      object; it is `None` exactly when the normalized id has no truthy
      entry; otherwise it holds the truthy fields of that entry, in order. */
  lemma ResolveRefSpec(s: ParseState.State, id: string, lower: string -> string)
    ensures var refs := ParseState.GetProp(s, "refs", Undefined);
      var key := NormalizeRef(id, lower);
      var r := ResolveRef(s, id, lower);
      && (r.Err? <==> !refs.Obj? || (Truthy(Get(refs.entries, key)) && !Get(refs.entries, key).Obj?))
      && (r == Ok(None) <==> refs.Obj? && !Truthy(Get(refs.entries, key)))
      && (r.Ok? && r.value.Some? ==>
            var stored := Get(refs.entries, key).entries;
            forall e :: e in r.value.value <==> e in stored && Truthy(e.value))
  {
  }
}
