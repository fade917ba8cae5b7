/**
 * Paragraphs: the text of a paragraph has its whitespace collapsed, while
 * hard line breaks (two spaces before a newline) are kept; a paragraph is
 * only parsed at the top level or directly inside a blockquote or a loose
 * list; it prints as its inline text followed by a blank line.
 *
 * The paragraph regular expression is a match oracle; the inline lexer and
 * printer are function parameters.
 */
module Paragraphs {
  import opened Outcomes
  import opened Schema
  import opened ParseState
  import JsString

  /** A hard line break: two spaces and a newline. */
  const HARD_BREAK := "  \n"

  // ----- the non-whitespace content of a text ----------------------------------

  /** The characters of `s` that are not whitespace, in order. */
  function NonSpace(s: string): string {
    if |s| == 0 then "" else (if JsString.IsJsSpace(s[0]) then "" else [s[0]]) + NonSpace(s[1..])
  }

  lemma {:induction false} NonSpaceConcat(a: string, b: string)
    ensures NonSpace(a + b) == NonSpace(a) + NonSpace(b)
    decreases |a|
  {
    if |a| == 0 {
      assert a + b == b;
    } else {
      var ab := a + b;
      var head := if JsString.IsJsSpace(a[0]) then "" else [a[0]];
      assert ab[0] == a[0] && ab[1..] == a[1..] + b;
      NonSpaceConcat(a[1..], b);
      assert NonSpace(ab) == head + (NonSpace(a[1..]) + NonSpace(b));
      assert head + (NonSpace(a[1..]) + NonSpace(b)) == (head + NonSpace(a[1..])) + NonSpace(b);
    }
  }

  lemma {:induction false} NonSpaceOfSpace(s: string)
    requires JsString.AllSpace(s)
    ensures NonSpace(s) == ""
    decreases |s|
  {
    if |s| > 0 {
      NonSpaceOfSpace(s[1..]);
    }
  }

  lemma NonSpaceTrim(s: string)
    ensures NonSpace(JsString.Trim(s)) == NonSpace(s)
  {
    NonSpaceTrimStart(s);
    NonSpaceTrimEnd(JsString.TrimStart(s));
  }

  lemma NonSpaceTrimEnd(s: string)
    ensures NonSpace(JsString.TrimEnd(s)) == NonSpace(s)
  {
    var r := JsString.TrimEnd(s);
    assert s == r + s[|r|..];
    NonSpaceConcat(r, s[|r|..]);
    NonSpaceOfSpace(s[|r|..]);
  }

  lemma NonSpaceTrimStart(s: string)
    ensures NonSpace(JsString.TrimStart(s)) == NonSpace(s)
  {
    var r := JsString.TrimStart(s);
    assert s == s[..|s| - |r|] + r;
    NonSpaceConcat(s[..|s| - |r|], r);
    NonSpaceOfSpace(s[..|s| - |r|]);
  }

  // ----- collapsing whitespace runs ----------------------------------------------

  /** Every whitespace character is a space without whitespace after it. */
  predicate SingleSpaced(s: string) {
    forall i :: 0 <= i < |s| && JsString.IsJsSpace(s[i]) ==> s[i] == ' ' && (i + 1 < |s| ==> !JsString.IsJsSpace(s[i + 1]))
  }

  /** Collapsing starts and ends with whitespace exactly when the input
      does, and is empty only for the empty input. */
  lemma CollapseSpacesEnds(s: string)
    ensures var r := JsString.CollapseSpaces(s); |r| == 0 <==> |s| == 0
    ensures var r := JsString.CollapseSpaces(s);
      |s| > 0 ==> (JsString.IsJsSpace(r[0]) <==> JsString.IsJsSpace(s[0]))
    ensures var r := JsString.CollapseSpaces(s);
      |s| > 0 ==> (JsString.IsJsSpace(r[|r| - 1]) <==> JsString.IsJsSpace(s[|s| - 1]))
  {
    CollapseEndChars(s);
  }

  /** The first and last characters of a collapse: a run of whitespace at
      either end becomes one space, anything else stays. */
  lemma {:induction false} CollapseEndChars(s: string)
    ensures var r := JsString.CollapseSpaces(s); |r| == 0 <==> |s| == 0
    ensures var r := JsString.CollapseSpaces(s);
      |s| > 0 ==> r[0] == (if JsString.IsJsSpace(s[0]) then ' ' else s[0])
    ensures var r := JsString.CollapseSpaces(s);
      |s| > 0 ==> r[|r| - 1] == (if JsString.IsJsSpace(s[|s| - 1]) then ' ' else s[|s| - 1])
    decreases |s|
  {
    if |s| > 0 {
      var r := JsString.CollapseSpaces(s);
      var last := s[|s| - 1];
      if JsString.IsJsSpace(s[0]) {
        var t := JsString.TrimStart(s);
        var c := JsString.CollapseSpaces(t);
        assert r == " " + c;
        CollapseEndChars(t);
        if |t| == 0 {
          assert s[..|s|] == s;
          assert JsString.IsJsSpace(last);
        } else {
          assert t[|t| - 1] == last;
        }
      } else {
        var c := JsString.CollapseSpaces(s[1..]);
        assert r == [s[0]] + c;
        CollapseEndChars(s[1..]);
        if |s| > 1 {
          assert s[1..][|s| - 2] == last;
        }
      }
    }
  }

  /** Collapsing leaves single spaces and keeps the non-whitespace
      characters. */
  lemma {:induction false} CollapseSpacesSpec(s: string)
    ensures var r := JsString.CollapseSpaces(s);
      SingleSpaced(r) && NonSpace(r) == NonSpace(s)
    decreases |s|
  {
    var r := JsString.CollapseSpaces(s);
    if |s| > 0 {
      if JsString.IsJsSpace(s[0]) {
        var t := JsString.TrimStart(s);
        CollapseSpacesSpec(t);
        CollapseSpacesEnds(t);
        NonSpaceTrimStart(s);
        var c := JsString.CollapseSpaces(t);
        assert r == " " + c;
        NonSpaceConcat(" ", c);
        assert NonSpace(" ") == "";
        SpacePrepended(c);
      } else {
        CollapseSpacesSpec(s[1..]);
        var c := JsString.CollapseSpaces(s[1..]);
        assert r == [s[0]] + c;
        NonSpaceConcat([s[0]], c);
        assert NonSpace(s) == [s[0]] + NonSpace(s[1..]);
        assert NonSpace([s[0]]) == [s[0]];
        forall i | 0 <= i < |r| && JsString.IsJsSpace(r[i])
          ensures r[i] == ' ' && (i + 1 < |r| ==> !JsString.IsJsSpace(r[i + 1]))
        {
          assert r[i] == c[i - 1];
        }
      }
    }
  }

  /** A space in front of a single-spaced text that does not start with
      whitespace keeps it single-spaced. */
  lemma SpacePrepended(c: string)
    requires SingleSpaced(c) && (|c| == 0 || !JsString.IsJsSpace(c[0]))
    ensures SingleSpaced(" " + c)
  {
    var r := " " + c;
    forall i | 0 <= i < |r| && JsString.IsJsSpace(r[i])
      ensures r[i] == ' ' && (i + 1 < |r| ==> !JsString.IsJsSpace(r[i + 1]))
    {
      if i > 0 {
        assert r[i] == c[i - 1];
      }
    }
  }

  /** A part between hard breaks, trimmed and with its whitespace runs
      collapsed. */
  function CollapsePart(part: string): string {
    JsString.CollapseSpaces(JsString.Trim(part))
  }

  /** A clean part: single-spaced, without whitespace at either end. */
  predicate Clean(p: string) {
    SingleSpaced(p) && (|p| == 0 || (!JsString.IsJsSpace(p[0]) && !JsString.IsJsSpace(p[|p| - 1])))
  }

  lemma CollapsePartSpec(part: string)
    ensures Clean(CollapsePart(part)) && NonSpace(CollapsePart(part)) == NonSpace(part)
  {
    var t := JsString.Trim(part);
    CollapseSpacesSpec(t);
    CollapseSpacesEnds(t);
    NonSpaceTrim(part);
  }

  function CollapseParts(parts: seq<string>): (r: seq<string>)
    ensures |r| == |parts| && forall i :: 0 <= i < |parts| ==> r[i] == CollapsePart(parts[i])
  {
    seq(|parts|, i requires 0 <= i < |parts| => CollapsePart(parts[i]))
  }

  /** `collapseWhiteSpaces(text)` */
  function CollapseWhiteSpaces(text: string): string {
    JsString.Trim(JsString.Join(CollapseParts(JsString.Split(text, HARD_BREAK)), HARD_BREAK))
  }

  // ----- the shape of collapsed text ---------------------------------------------

  /** The only whitespace characters are spaces and newlines. */
  predicate SpacesAndNewlines(s: string) {
    forall i :: 0 <= i < |s| && JsString.IsJsSpace(s[i]) ==> s[i] == ' ' || s[i] == '\n'
  }

  /** Every newline ends a hard break. */
  predicate HardBreaksOnly(s: string) {
    forall i :: 0 <= i < |s| && s[i] == '\n' ==> 2 <= i && s[i - 2] == ' ' && s[i - 1] == ' '
  }

  /** Two spaces in a row always start a hard break. */
  predicate DoubleSpacesBreak(s: string) {
    forall i :: 0 <= i < |s| - 1 && s[i] == ' ' && s[i + 1] == ' ' ==> i + 2 < |s| && s[i + 2] == '\n'
  }

  predicate Collapsed(s: string) {
    SpacesAndNewlines(s) && HardBreaksOnly(s) && DoubleSpacesBreak(s)
  }

  /** Where the join of clean parts can start: a non-space or a hard break. */
  predicate StartsWell(s: string) {
    |s| == 0 || !JsString.IsJsSpace(s[0]) || (|s| >= 3 && s[..3] == HARD_BREAK)
  }

  /** Clean parts joined by hard breaks are collapsed text. */
  lemma {:induction false} JoinClean(parts: seq<string>)
    requires forall i :: 0 <= i < |parts| ==> Clean(parts[i])
    ensures Collapsed(JsString.Join(parts, HARD_BREAK)) && StartsWell(JsString.Join(parts, HARD_BREAK))
    decreases |parts|
  {
    if |parts| == 1 {
      CleanCollapsed(parts[0]);
    } else if |parts| > 1 {
      JoinClean(parts[1..]);
      CleanCollapsed(parts[0]);
      JoinStep(parts[0], JsString.Join(parts[1..], HARD_BREAK));
    }
  }

  lemma CleanCollapsed(p: string)
    requires Clean(p)
    ensures Collapsed(p) && StartsWell(p)
  {
  }

  /** One clean part, a hard break, and collapsed text that starts well. */
  lemma JoinStep(p: string, rest: string)
    requires Clean(p) && Collapsed(rest) && StartsWell(rest)
    ensures Collapsed(p + HARD_BREAK + rest) && StartsWell(p + HARD_BREAK + rest)
  {
    JoinSpaces(p, rest);
    JoinBreaks(p, rest);
    JoinDoubles(p, rest);
    if |p| == 0 {
      assert p + HARD_BREAK + rest == HARD_BREAK + rest;
      assert (HARD_BREAK + rest)[..3] == HARD_BREAK;
    }
  }

  /** Where the characters of `p + HARD_BREAK + rest` come from. */
  lemma JoinIndex(p: string, rest: string)
    ensures var j := p + HARD_BREAK + rest;
      var n := |p|;
      && |j| == n + 3 + |rest| && j[n] == ' ' && j[n + 1] == ' ' && j[n + 2] == '\n'
      && (forall i :: 0 <= i < n ==> j[i] == p[i])
      && (forall i :: n + 3 <= i < |j| ==> j[i] == rest[i - n - 3])
  {
  }

  lemma JoinSpaces(p: string, rest: string)
    requires Clean(p) && SpacesAndNewlines(rest)
    ensures SpacesAndNewlines(p + HARD_BREAK + rest)
  {
    JoinIndex(p, rest);
  }

  lemma JoinBreaks(p: string, rest: string)
    requires Clean(p) && HardBreaksOnly(rest)
    ensures HardBreaksOnly(p + HARD_BREAK + rest)
  {
    var j := p + HARD_BREAK + rest;
    var n := |p|;
    JoinIndex(p, rest);
    CleanSpaces(p);
    forall i | 0 <= i < |j| && j[i] == '\n' ensures 2 <= i && j[i - 2] == ' ' && j[i - 1] == ' ' {
      if i >= n + 3 {
        assert rest[i - n - 3] == '\n';
      }
    }
  }

  lemma JoinDoubles(p: string, rest: string)
    requires Clean(p) && DoubleSpacesBreak(rest)
    ensures DoubleSpacesBreak(p + HARD_BREAK + rest)
  {
    var j := p + HARD_BREAK + rest;
    var n := |p|;
    JoinIndex(p, rest);
    CleanSpaces(p);
    forall i | 0 <= i < |j| - 1 && j[i] == ' ' && j[i + 1] == ' ' ensures i + 2 < |j| && j[i + 2] == '\n' {
      if i >= n + 3 {
        assert rest[i - n - 3] == ' ' && rest[i - n - 2] == ' ';
      }
    }
  }

  /** A clean part has no newline, and each of its spaces is followed by a
      character that is not one. */
  lemma CleanSpaces(p: string)
    requires Clean(p)
    ensures forall i :: 0 <= i < |p| ==> p[i] != '\n'
    ensures forall i :: 0 <= i < |p| && p[i] == ' ' ==> i + 1 < |p| && p[i + 1] != ' '
  {
    forall i | 0 <= i < |p| ensures p[i] != '\n' {
      if JsString.IsJsSpace(p[i]) {
        assert p[i] == ' ';
      }
    }
    forall i | 0 <= i < |p| && p[i] == ' ' ensures i + 1 < |p| && p[i + 1] != ' ' {
      assert JsString.IsJsSpace(p[i]);
    }
  }

  lemma TrimCollapsed(s: string)
    requires Collapsed(s)
    ensures Collapsed(JsString.Trim(s))
  {
    var a := JsString.TrimStart(s);
    DropFrontCollapsed(s, |s| - |a|);
    assert a == s[|s| - |a|..];
    var r := JsString.TrimEnd(a);
    DropBackCollapsed(a, |r|);
    assert r == a[..|r|];
  }

  /** Dropping whitespace in front of a non-space keeps text collapsed. */
  lemma DropFrontCollapsed(s: string, k: nat)
    requires Collapsed(s) && k <= |s| && (k == |s| || !JsString.IsJsSpace(s[k]))
    ensures Collapsed(s[k..])
  {
    var r := s[k..];
    assert forall i :: 0 <= i < |r| ==> r[i] == s[k + i];
    forall i | 0 <= i < |r| && r[i] == '\n' ensures 2 <= i && r[i - 2] == ' ' && r[i - 1] == ' ' {
      assert s[k + i] == '\n';
    }
  }

  /** Dropping whitespace after a non-space keeps text collapsed. */
  lemma DropBackCollapsed(s: string, e: nat)
    requires Collapsed(s) && e <= |s| && (e == 0 || !JsString.IsJsSpace(s[e - 1]))
    ensures Collapsed(s[..e])
  {
    var r := s[..e];
    assert forall i :: 0 <= i < |r| ==> r[i] == s[i];
    forall i | 0 <= i < |r| - 1 && r[i] == ' ' && r[i + 1] == ' ' ensures i + 2 < |r| && r[i + 2] == '\n' {
      assert s[i] == ' ' && s[i + 1] == ' ';
    }
  }

  /** The output of `collapseWhiteSpaces` has no whitespace at either end,
      no whitespace but spaces and newlines, a newline only at the end of a
      hard break, and two spaces only in front of a newline; it keeps every
      non-whitespace character of the input, in order. */
  lemma CollapseWhiteSpacesSpec(text: string)
    ensures var r := CollapseWhiteSpaces(text);
      (r == [] || (!JsString.IsJsSpace(r[0]) && !JsString.IsJsSpace(r[|r| - 1])))
      && Collapsed(r) && NonSpace(r) == NonSpace(text)
  {
    CollapseWhiteSpacesShape(text);
    CollapseWhiteSpacesKeeps(text);
  }

  lemma CollapseWhiteSpacesShape(text: string)
    ensures var r := CollapseWhiteSpaces(text);
      (r == [] || (!JsString.IsJsSpace(r[0]) && !JsString.IsJsSpace(r[|r| - 1]))) && Collapsed(r)
  {
    var parts := JsString.Split(text, HARD_BREAK);
    var cleaned := CollapseParts(parts);
    var joined := JsString.Join(cleaned, HARD_BREAK);
    CleanedParts(parts);
    JoinClean(cleaned);
    TrimCollapsed(joined);
    assert CollapseWhiteSpaces(text) == JsString.Trim(joined);
  }

  lemma CollapseWhiteSpacesKeeps(text: string)
    ensures NonSpace(CollapseWhiteSpaces(text)) == NonSpace(text)
  {
    var parts := JsString.Split(text, HARD_BREAK);
    var cleaned := CollapseParts(parts);
    var joined := JsString.Join(cleaned, HARD_BREAK);
    CleanedParts(parts);
    NonSpaceTrim(joined);
    NonSpaceJoin(cleaned, parts);
    JsString.JoinSplit(text, HARD_BREAK);
    assert CollapseWhiteSpaces(text) == JsString.Trim(joined);
  }

  lemma CleanedParts(parts: seq<string>)
    ensures forall i :: 0 <= i < |parts| ==> Clean(CollapseParts(parts)[i])
    ensures forall i :: 0 <= i < |parts| ==> NonSpace(CollapseParts(parts)[i]) == NonSpace(parts[i])
  {
    forall i | 0 <= i < |parts|
      ensures Clean(CollapseParts(parts)[i]) && NonSpace(CollapseParts(parts)[i]) == NonSpace(parts[i])
    {
      CollapsePartSpec(parts[i]);
    }
  }

  /** Joining by a hard break keeps the non-whitespace characters of the
      parts: parts with the same non-whitespace characters give joins with
      the same. */
  lemma {:induction false} NonSpaceJoin(a: seq<string>, b: seq<string>)
    requires |a| == |b| && forall i :: 0 <= i < |a| ==> NonSpace(a[i]) == NonSpace(b[i])
    ensures NonSpace(JsString.Join(a, HARD_BREAK)) == NonSpace(JsString.Join(b, HARD_BREAK))
    decreases |a|
  {
    if |a| > 1 {
      NonSpaceJoin(a[1..], b[1..]);
      JoinedNonSpace(a[0], JsString.Join(a[1..], HARD_BREAK));
      JoinedNonSpace(b[0], JsString.Join(b[1..], HARD_BREAK));
    }
  }

  lemma JoinedNonSpace(p: string, rest: string)
    ensures NonSpace(p + HARD_BREAK + rest) == NonSpace(p) + NonSpace(rest)
  {
    var a := p + HARD_BREAK;
    NonSpaceConcat(a, rest);
    NonSpaceConcat(p, HARD_BREAK);
    assert JsString.AllSpace(HARD_BREAK);
    NonSpaceOfSpace(HARD_BREAK);
    assert NonSpace(a) == NonSpace(p) + "" == NonSpace(p);
  }

  // ----- what collapsing keeps ----------------------------------------------------

  /** A single-spaced text is its own collapse. */
  lemma {:induction false} CollapseSpacesOfClean(s: string)
    requires SingleSpaced(s)
    ensures JsString.CollapseSpaces(s) == s
    decreases |s|
  {
    if |s| > 0 {
      SingleSpacedTail(s);
      CollapseSpacesOfClean(s[1..]);
      if JsString.IsJsSpace(s[0]) {
        assert JsString.TrimStart(s[1..]) == s[1..];
        assert JsString.TrimStart(s) == s[1..];
      }
    }
  }

  lemma SingleSpacedTail(s: string)
    requires SingleSpaced(s) && |s| > 0
    ensures SingleSpaced(s[1..])
  {
    var t := s[1..];
    forall i | 0 <= i < |t| && JsString.IsJsSpace(t[i])
      ensures t[i] == ' ' && (i + 1 < |t| ==> !JsString.IsJsSpace(t[i + 1]))
    {
      assert t[i] == s[i + 1];
    }
  }

  /** Splitting skips a prefix in which no separator starts. */
  lemma {:induction false} SplitFromSkips(a: string, rest: string, sep: string, cur: string)
    requires |sep| > 0
    requires forall i :: 0 <= i < |a| ==> !JsString.StartsWith((a + rest)[i..], sep)
    ensures JsString.SplitFrom(a + rest, sep, cur) == JsString.SplitFrom(rest, sep, cur + a)
    decreases |a|
  {
    if |a| == 0 {
      assert a + rest == rest && cur + a == cur;
    } else {
      assert !JsString.StartsWith((a + rest)[0..], sep);
      assert (a + rest)[0..] == a + rest;
      assert (a + rest)[1..] == a[1..] + rest;
      forall i | 0 <= i < |a[1..]| ensures !JsString.StartsWith((a[1..] + rest)[i..], sep) {
        assert (a[1..] + rest)[i..] == (a + rest)[i + 1..];
      }
      SplitFromSkips(a[1..], rest, sep, cur + [a[0]]);
      assert cur + [a[0]] + a[1..] == cur + a;
    }
  }

  /** No hard break starts inside a text without newlines joined to a hard
      break. */
  lemma NoBreakInside(a: string, rest: string)
    requires forall i :: 0 <= i < |a| ==> a[i] != '\n'
    requires JsString.StartsWith(rest, HARD_BREAK)
    ensures forall i :: 0 <= i < |a| ==> !JsString.StartsWith((a + rest)[i..], HARD_BREAK)
  {
    forall i | 0 <= i < |a| ensures !JsString.StartsWith((a + rest)[i..], HARD_BREAK) {
      if i + 2 < |a| {
        assert (a + rest)[i + 2] == a[i + 2];
      } else {
        assert (a + rest)[i + 2] == rest[i + 2 - |a|];
      }
    }
  }

  lemma {:induction false} NoNewlineNoBreak(b: string)
    requires forall i :: 0 <= i < |b| ==> b[i] != '\n'
    ensures !JsString.Contains(b, HARD_BREAK)
    decreases |b|
  {
    if |b| >= 3 {
      assert b[..3][2] == b[2];
    }
    if |b| > 0 {
      NoNewlineNoBreak(b[1..]);
    }
  }

  /** A text of two lines without newlines, around one hard break, splits
      into the two lines. */
  lemma SplitAroundBreak(a: string, b: string)
    requires forall i :: 0 <= i < |a| ==> a[i] != '\n'
    requires forall i :: 0 <= i < |b| ==> b[i] != '\n'
    ensures JsString.Split(a + HARD_BREAK + b, HARD_BREAK) == [a, b]
  {
    NoBreakInside(a, HARD_BREAK + b);
    assert a + HARD_BREAK + b == a + (HARD_BREAK + b);
    SplitFromSkips(a, HARD_BREAK + b, HARD_BREAK, "");
    assert "" + a == a;
    assert JsString.StartsWith(HARD_BREAK + b, HARD_BREAK);
    assert (HARD_BREAK + b)[|HARD_BREAK|..] == b;
    assert JsString.SplitFrom(HARD_BREAK + b, HARD_BREAK, a) == [a] + JsString.SplitFrom(b, HARD_BREAK, "");
    NoNewlineNoBreak(b);
    JsString.SplitNoSep(b, HARD_BREAK);
  }

  /** A hard break between two clean, non-empty lines is kept as it is. */
  lemma HardBreakKept(a: string, b: string)
    requires Clean(a) && Clean(b) && |a| > 0 && |b| > 0
    ensures CollapseWhiteSpaces(a + HARD_BREAK + b) == a + HARD_BREAK + b
  {
    var text := a + HARD_BREAK + b;
    CleanSpaces(a);
    CleanSpaces(b);
    SplitAroundBreak(a, b);
    assert CollapsePart(a) == a by {
      JsString.TrimOfUnpadded(a);
      CollapseSpacesOfClean(a);
    }
    assert CollapsePart(b) == b by {
      JsString.TrimOfUnpadded(b);
      CollapseSpacesOfClean(b);
    }
    assert CollapseParts([a, b]) == [a, b];
    assert JsString.Join([a, b], HARD_BREAK) == text;
    assert text[0] == a[0] && text[|text| - 1] == b[|b| - 1];
    JsString.TrimOfUnpadded(text);
  }

  // ----- the paragraph rule ------------------------------------------------------

  /** The state the inline printer is given: the inline rules, with hard
      line breaks allowed. */
  function PrintState(s: State): (t: State)
    ensures t.scope == "inline" && GetProp(t, "hardlineBreak", Undefined) == Bool(true)
    ensures t.nodes == s.nodes && t.text == s.text && t.depth == s.depth
  {
    GetPropAfterSetProp(Use(s, "inline"), "hardlineBreak", Bool(true), "hardlineBreak", Undefined);
    SetProp(Use(s, "inline"), "hardlineBreak", Bool(true))
  }

  /** The paragraph rule's printer: a paragraph at the head of the nodes is
      replaced by its inline text and a blank line; any other head is
      declined. */
  function SerializeParagraph(printer: Printer, s: State): (r: Result<Option<State>>)
    ensures Peek(s).None? || TypeOf(Peek(s).value) != Some(PARAGRAPH) ==> r == Ok(None)
    ensures Peek(s).Some? && TypeOf(Peek(s).value) == Some(PARAGRAPH) ==> (
      var inner := printer(PrintState(s), Peek(s).value.nodes);
      (r.Ok? <==> inner.Ok?)
      && (inner.Ok? ==> r == Ok(Some(Write(Shift(s), inner.value + "\n\n")))))
  {
    match Peek(s)
    case None => Ok(None)
    case Some(node) =>
      if TypeOf(node) != Some(PARAGRAPH) then Ok(None)
      else
        var inner :- printer(PrintState(s), node.nodes);
        Ok(Some(Write(Shift(s), inner + "\n\n")))
  }

  /** Where a paragraph may start: at the top level (depth 2), or one level
      below the blockquote or the loose list whose depth the state records. */
  predicate ParagraphAllowed(s: State) {
    s.depth == 2
    || GetProp(s, "blockquote", Undefined) == Num(s.depth - 1)
    || GetProp(s, "looseList", Undefined) == Num(s.depth - 1)
  }

  /** A match of the paragraph pattern: the matched text and the paragraph's
      text. */
  datatype ParagraphMatch = ParagraphMatch(whole: string, body: string)

  /** The state the inline lexer is given: one level down, over the
      collapsed text. */
  function LexState(s: State, body: string): State {
    Use(Down(s, [], CollapseWhiteSpaces(body)), "inline")
  }

  /** The paragraph rule's parser action: no match, or a match where no
      paragraph is allowed, declines; otherwise the collapsed text is lexed
      one level down and a paragraph block of its nodes is pushed. */
  function DeserializeParagraph(lex: Lexer, s: State, m: Option<ParagraphMatch>): (r: Result<Option<State>>)
    ensures m.None? ==> r == Ok(None)
    ensures m.Some? && !ParagraphAllowed(Skip(s, |m.value.whole|)) ==> r == Ok(None)
  {
    match m
    case None => Ok(None)
    case Some(pm) =>
      var t := Skip(s, |pm.whole|);
      if !ParagraphAllowed(t) then Ok(None)
      else
        var inner :- lex(LexState(t, pm.body));
        var up :- Up(inner);
        Ok(Some(Push(up, OneNode(NewBlock(PARAGRAPH, inner.nodes)))))
  }

  /** An allowed paragraph lexes text that is collapsed, and pushes one
      paragraph block holding exactly the lexed nodes after the nodes saved
      when the level was entered. */
  lemma DeserializeParagraphSpec(lex: Lexer, s: State, m: ParagraphMatch)
    requires ParagraphAllowed(Skip(s, |m.whole|))
    ensures var t := LexState(Skip(s, |m.whole|), m.body);
      var r := DeserializeParagraph(lex, s, Some(m));
      (r.Ok? <==> lex(t).Ok? && |lex(t).value.stack| > 0)
      && (r.Ok? ==> (r.value.Some?
        && var inner := lex(t).value;
        r.value.value.nodes == inner.stack[|inner.stack| - 1].nodes + [NewBlock(PARAGRAPH, inner.nodes)]))
    ensures var text := LexState(Skip(s, |m.whole|), m.body).text;
      Collapsed(text) && NonSpace(text) == NonSpace(m.body)
  {
    var t := LexState(Skip(s, |m.whole|), m.body);
    var r := DeserializeParagraph(lex, s, Some(m));
    if lex(t).Ok? {
      var inner := lex(t).value;
      if |inner.stack| > 0 {
        var up := Up(inner).value;
        assert up.nodes == inner.stack[|inner.stack| - 1].nodes;
        assert r == Ok(Some(Push(up, OneNode(NewBlock(PARAGRAPH, inner.nodes)))));
      } else {
        assert r.Err?;
      }
    } else {
      assert r.Err?;
    }
    CollapseWhiteSpacesSpec(m.body);
  }
}
