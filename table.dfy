/**
 * Markdown tables: splitting a row into cells at unescaped pipes, reading and
 * writing the alignment row, printing rows, and deciding when a table must be
 * printed as HTML.
 */
module Tables {
  import opened Outcomes
  import opened Schema
  import opened ParseState
  import JsString
  import LiquidTags

  // ----- cells of a row -----------------------------------------------------

  /** Position `i` is a cell separator: a pipe whose previous character (the
      very same one at position 0) is not a backslash. */
  predicate IsSeparator(t: string, i: int)
    requires 0 <= i < |t|
  {
    t[i] == '|' && t[if i == 0 then 0 else i - 1] != '\\'
  }

  /** The first separator at or after `from`. */
  function NextSeparator(t: string, from: nat): (r: Option<nat>)
    ensures r.Some? ==> (from <= r.value < |t| && IsSeparator(t, r.value)
      && forall j :: from <= j < r.value ==> !IsSeparator(t, j))
    ensures r.None? ==> forall j :: from <= j < |t| ==> !IsSeparator(t, j)
    decreases |t| - from
  {
    if from >= |t| then None
    else if IsSeparator(t, from) then Some(from)
    else NextSeparator(t, from + 1)
  }

  lemma NextSeparatorAt(t: string, from: nat, i: nat)
    requires from <= i < |t| && IsSeparator(t, i)
    requires forall j :: from <= j < i ==> !IsSeparator(t, j)
    ensures NextSeparator(t, from) == Some(i)
  {
  }

  /** `t[from..]` cut at every separator: one piece more than separators. */
  function Pieces(t: string, from: nat): (r: seq<string>)
    requires from <= |t|
    ensures |r| > 0
    decreases |t| - from
  {
    match NextSeparator(t, from)
    case None => [t[from..]]
    case Some(i) => [t[from..i]] + Pieces(t, i + 1)
  }

  lemma PiecesAtSeparator(t: string, from: nat, i: nat)
    requires from <= i < |t| && IsSeparator(t, i)
    requires forall j :: from <= j < i ==> !IsSeparator(t, j)
    ensures Pieces(t, from) == [t[from..i]] + Pieces(t, i + 1)
  {
    NextSeparatorAt(t, from, i);
  }

  lemma PiecesAtEnd(t: string, from: nat)
    requires from <= |t|
    requires forall j :: from <= j < |t| ==> !IsSeparator(t, j)
    ensures Pieces(t, from) == [t[from..]]
  {
    assert NextSeparator(t, from).None?;
  }

  /** The pieces without the empty one before a leading pipe. */
  function DropLeading(t: string, ps: seq<string>): seq<string> {
    if |t| > 0 && t[0] == '|' && |ps| > 0 then ps[1..] else ps
  }

  function DropEmptyLast(ps: seq<string>): seq<string> {
    if |ps| > 0 && ps[|ps| - 1] == "" then ps[..|ps| - 1] else ps
  }

  /** The cells of a trimmed row: the pieces, without the empty one before a
      leading pipe and without an empty last one. */
  function CellsOf(t: string): seq<string> {
    DropEmptyLast(DropLeading(t, Pieces(t, 0)))
  }

  /** `rowToCells(rowStr)`: scan the trimmed row, cutting a cell at each
      unescaped pipe. */
  method RowToCells(row: string) returns (cells: seq<string>)
    ensures cells == CellsOf(JsString.Trim(row))
  {
    cells := SplitCells(JsString.Trim(row));
  }

  /** The scan of `rowToCells` over the trimmed row. */
  method SplitCells(t: string) returns (cells: seq<string>)
    ensures cells == CellsOf(t)
  {
    cells := [];
    var lastSep := 0;
    ghost var done: seq<string> := [];
    for i := 0 to |t|
      invariant Scanned(t, done, lastSep, i, cells)
    {
      var prevIdx := if i == 0 then 0 else i - 1;
      if t[i] == '|' && t[prevIdx] != '\\' {
        SeparatorStep(t, done, lastSep, i, cells);
        if i > 0 {
          cells := cells + [t[lastSep..i]];
        }
        done := done + [t[lastSep..i]];
        lastSep := i + 1;
      } else {
        OtherStep(t, done, lastSep, i, cells);
      }
    }
    LastCell(t, done, lastSep, cells);
    if lastSep < |t| {
      cells := cells + [t[lastSep..]];
    }
  }

  /** After scanning `t[..i]`: `done` are the pieces closed so far, the
      current one starts at `lastSep`, and `cells` are the pushed cells. */
  ghost predicate Scanned(t: string, done: seq<string>, lastSep: nat, i: nat, cells: seq<string>) {
    && lastSep <= i <= |t|
    && (forall j :: lastSep <= j < i ==> !IsSeparator(t, j))
    && Pieces(t, 0) == done + Pieces(t, lastSep)
    && cells == DropLeading(t, done)
    && (|t| > 0 && t[0] == '|' && i > 0 ==> |done| > 0)
  }

  /** A separator at `i` closes the piece that began at `lastSep`. */
  lemma SeparatorStep(t: string, done: seq<string>, lastSep: nat, i: nat, cells: seq<string>)
    requires Scanned(t, done, lastSep, i, cells) && i < |t| && IsSeparator(t, i)
    ensures Scanned(t, done + [t[lastSep..i]], i + 1, i + 1, if i > 0 then cells + [t[lastSep..i]] else cells)
  {
    var piece := t[lastSep..i];
    var done2 := done + [piece];
    PiecesAtSeparator(t, lastSep, i);
    assert Pieces(t, 0) == done2 + Pieces(t, i + 1) by {
      assert done + ([piece] + Pieces(t, i + 1)) == done2 + Pieces(t, i + 1);
    }
    if i == 0 {
      assert |done| == 0;
      assert done2 == [piece];
    } else if t[0] == '|' {
      assert done2[1..] == done[1..] + [piece];
    }
  }

  lemma OtherStep(t: string, done: seq<string>, lastSep: nat, i: nat, cells: seq<string>)
    requires Scanned(t, done, lastSep, i, cells) && i < |t| && !IsSeparator(t, i)
    ensures Scanned(t, done, lastSep, i + 1, cells)
  {
  }

  /** After the scan, what follows the last separator is the last piece. */
  lemma LastCell(t: string, done: seq<string>, lastSep: nat, cells: seq<string>)
    requires Scanned(t, done, lastSep, |t|, cells)
    ensures CellsOf(t) == if lastSep < |t| then cells + [t[lastSep..]] else cells
  {
    PiecesAtEnd(t, lastSep);
    var ps := done + [t[lastSep..]];
    if |t| > 0 && t[0] == '|' {
      assert ps[1..] == done[1..] + [t[lastSep..]];
    }
    var ps1 := DropLeading(t, ps);
    assert ps1 == DropLeading(t, done) + [t[lastSep..]];
    if lastSep == |t| {
      assert ps1[..|ps1| - 1] == DropLeading(t, done);
    }
  }

  /** Putting the pipes back between the pieces gives back the text. */
  lemma {:induction false} JoinPieces(t: string, from: nat)
    requires from <= |t|
    ensures JsString.Join(Pieces(t, from), "|") == t[from..]
    decreases |t| - from
  {
    match NextSeparator(t, from)
    case None =>
    case Some(i) =>
      JoinPieces(t, i + 1);
      var rest := Pieces(t, i + 1);
      assert Pieces(t, from)[1..] == rest;
      assert t[from..] == t[from..i] + "|" + t[i + 1..];
  }

  /** Every pipe inside a piece is escaped by a backslash. */
  predicate PipesEscaped(p: string) {
    forall j :: 0 <= j < |p| && p[j] == '|' ==> j > 0 && p[j - 1] == '\\'
  }

  /** A stretch without separators, not preceded by a backslash, has only
      escaped pipes. */
  lemma StretchPipesEscaped(t: string, from: nat, end: nat)
    requires from <= end <= |t| && (from == 0 || t[from - 1] != '\\')
    requires forall j :: from <= j < end ==> !IsSeparator(t, j)
    ensures PipesEscaped(t[from..end])
  {
    var p := t[from..end];
    forall j | 0 <= j < |p| && p[j] == '|' ensures j > 0 && p[j - 1] == '\\' {
      assert p[j] == t[from + j];
      assert !IsSeparator(t, from + j);
      if j > 0 {
        assert p[j - 1] == t[from + j - 1];
      }
    }
  }

  /** Every pipe that ends up inside a piece is escaped by a backslash: the
      escaped `\|` stays inside its cell. */
  lemma {:induction false} PiecesKeepEscapedPipes(t: string, from: nat)
    requires from <= |t| && (from == 0 || t[from - 1] != '\\')
    ensures forall k :: 0 <= k < |Pieces(t, from)| ==> PipesEscaped(Pieces(t, from)[k])
    decreases |t| - from
  {
    match NextSeparator(t, from)
    case None =>
      StretchPipesEscaped(t, from, |t|);
      assert t[from..|t|] == t[from..];
      var ps := Pieces(t, from);
      assert ps == [t[from..]];
      assert PipesEscaped(ps[0]);
    case Some(i) =>
      StretchPipesEscaped(t, from, i);
      PiecesKeepEscapedPipes(t, i + 1);
      var rest := Pieces(t, i + 1);
      var ps := Pieces(t, from);
      assert ps == [t[from..i]] + rest;
      forall k | 0 <= k < |ps| ensures PipesEscaped(ps[k]) {
        if k > 0 {
          assert ps[k] == rest[k - 1];
        }
      }
  }

  /** Cells hold only escaped pipes. */
  lemma CellsKeepEscapedPipes(t: string)
    ensures forall k :: 0 <= k < |CellsOf(t)| ==> PipesEscaped(CellsOf(t)[k])
  {
    PiecesKeepEscapedPipes(t, 0);
    var ps := Pieces(t, 0);
    var ps1 := DropLeading(t, ps);
    assert forall k :: 0 <= k < |ps1| ==> ps1[k] in ps;
    assert forall k :: 0 <= k < |CellsOf(t)| ==> CellsOf(t)[k] in ps1;
  }

  /** No separator: the whole (non-empty) row is one cell. */
  lemma CellsWithoutSeparator(t: string)
    requires t != [] && forall j :: 0 <= j < |t| ==> !IsSeparator(t, j)
    ensures CellsOf(t) == [t]
  {
    assert Pieces(t, 0) == [t];
    assert t[0] != '|';
  }

  /** A leading pipe starts the first cell right after it. */
  lemma LeadingPipeGivesNoEmptyCell(t: string)
    requires |t| > 0 && t[0] == '|'
    ensures var ps := Pieces(t, 1);
      CellsOf(t) == if ps[|ps| - 1] == "" then ps[..|ps| - 1] else ps
  {
    NextSeparatorAt(t, 0, 0);
    assert Pieces(t, 0) == [t[0..0]] + Pieces(t, 1);
  }

  // ----- alignments ---------------------------------------------------------

  const ALIGN_LEFT := "left"
  const ALIGN_RIGHT := "right"
  const ALIGN_CENTER := "center"

  function StripLeadingSpaces(s: string): (r: string)
    ensures |r| <= |s| && (r == [] || r[0] != ' ')
    ensures r == s[|s| - |r|..]
  {
    if |s| > 0 && s[0] == ' ' then StripLeadingSpaces(s[1..]) else s
  }

  function StripTrailingSpaces(s: string): (r: string)
    ensures |r| <= |s| && (r == [] || r[|r| - 1] != ' ')
    ensures r == s[..|r|]
  {
    if |s| > 0 && s[|s| - 1] == ' ' then StripTrailingSpaces(s[..|s| - 1]) else s
  }

  /** The text between the runs of spaces (U+0020 only) at both ends. */
  function StripSpaces(s: string): string {
    StripTrailingSpaces(StripLeadingSpaces(s))
  }

  predicate Dashes(s: string) {
    |s| > 0 && forall i :: 0 <= i < |s| ==> s[i] == '-'
  }

  /** `/^ *-+: *$/` */
  predicate IsAlignRight(s: string) {
    var u := StripSpaces(s);
    |u| >= 2 && u[|u| - 1] == ':' && Dashes(u[..|u| - 1])
  }

  /** `/^ *:-+: *$/` */
  predicate IsAlignCenter(s: string) {
    var u := StripSpaces(s);
    |u| >= 3 && u[0] == ':' && u[|u| - 1] == ':' && Dashes(u[1..|u| - 1])
  }

  /** `/^ *:-+ *$/` */
  predicate IsAlignLeft(s: string) {
    var u := StripSpaces(s);
    |u| >= 2 && u[0] == ':' && Dashes(u[1..])
  }

  /** The alignment of one cell of the alignment row; `None` is `null`. */
  function AlignOf(s: string): Option<string> {
    if IsAlignRight(s) then Some(ALIGN_RIGHT)
    else if IsAlignCenter(s) then Some(ALIGN_CENTER)
    else if IsAlignLeft(s) then Some(ALIGN_LEFT)
    else None
  }

  /** The three patterns never overlap, so the test order does not matter. */
  lemma AlignPatternsDisjoint(s: string)
    ensures !(IsAlignRight(s) && IsAlignCenter(s))
    ensures !(IsAlignRight(s) && IsAlignLeft(s))
    ensures !(IsAlignCenter(s) && IsAlignLeft(s))
  {
    var u := StripSpaces(s);
    DashesAtEnds(u);
  }

  /** A run of dashes after the first character or before the last one
      pins that end to a dash. */
  lemma DashesAtEnds(u: string)
    ensures |u| >= 2 && Dashes(u[..|u| - 1]) ==> u[0] == '-'
    ensures |u| >= 2 && Dashes(u[1..]) ==> u[|u| - 1] == '-'
  {
    if |u| >= 2 {
      assert u[..|u| - 1][0] == u[0];
      assert u[1..][|u| - 2] == u[|u| - 1];
    }
  }

  /** `mapAligns(aligns)` */
  function MapAligns(cells: seq<string>): (r: seq<Option<string>>)
    ensures |r| == |cells|
    ensures forall i :: 0 <= i < |cells| ==> r[i] == AlignOf(cells[i])
  {
    seq(|cells|, i requires 0 <= i < |cells| => AlignOf(cells[i]))
  }

  /** The segment printed for one column, without its closing pipe. */
  function AlignSegment(a: Option<string>): string {
    if a == Some(ALIGN_RIGHT) then " ---: "
    else if a == Some(ALIGN_CENTER) then " :---: "
    else if a == Some(ALIGN_LEFT) then " :--- "
    else " --- "
  }

  function AlignSegments(aligns: seq<Option<string>>): (r: string)
    ensures r == "" || r[|r| - 1] == '|'
  {
    if |aligns| == 0 then "" else AlignSegment(aligns[0]) + "|" + AlignSegments(aligns[1..])
  }

  /** `alignsToText(aligns)` */
  function AlignsToText(aligns: seq<Option<string>>): (r: string)
    ensures |r| > 0 && r[0] == '|' && r[|r| - 1] == '|'
  {
    "|" + AlignSegments(aligns)
  }

  /** What an alignment reads back as: anything but the three names is `null`. */
  function CanonicalAlign(a: Option<string>): Option<string> {
    if a in {Some(ALIGN_RIGHT), Some(ALIGN_CENTER), Some(ALIGN_LEFT)} then a else None
  }

  lemma AlignOfSegment(a: Option<string>)
    ensures AlignOf(AlignSegment(a)) == CanonicalAlign(a)
  {
    if a == Some(ALIGN_RIGHT) {
      AlignOfRightSegment();
    } else if a == Some(ALIGN_CENTER) {
      AlignOfCenterSegment();
    } else if a == Some(ALIGN_LEFT) {
      AlignOfLeftSegment();
    } else {
      AlignOfPlainSegment();
    }
  }

  lemma AlignOfRightSegment()
    ensures AlignOf(" ---: ") == Some(ALIGN_RIGHT)
  {
    assert " ---: "[1..] == "---: ";
    assert StripLeadingSpaces(" ---: ") == "---: ";
    assert "---: "[..4] == "---:";
    assert StripSpaces(" ---: ") == "---:";
    assert "---:"[..3] == "---";
  }

  lemma AlignOfCenterSegment()
    ensures AlignOf(" :---: ") == Some(ALIGN_CENTER)
  {
    assert " :---: "[1..] == ":---: ";
    assert StripLeadingSpaces(" :---: ") == ":---: ";
    assert ":---: "[..5] == ":---:";
    assert StripSpaces(" :---: ") == ":---:";
    assert ":---:"[..4][0] == ':';
    assert ":---:"[1..4] == "---";
  }

  lemma AlignOfLeftSegment()
    ensures AlignOf(" :--- ") == Some(ALIGN_LEFT)
  {
    assert " :--- "[1..] == ":--- ";
    assert StripLeadingSpaces(" :--- ") == ":--- ";
    assert ":--- "[..4] == ":---";
    assert StripSpaces(" :--- ") == ":---";
    assert ":---"[1..] == "---";
  }

  lemma AlignOfPlainSegment()
    ensures AlignOf(" --- ") == None
  {
    assert " --- "[1..] == "--- ";
    assert StripLeadingSpaces(" --- ") == "--- ";
    assert "--- "[..3] == "---";
    assert StripSpaces(" --- ") == "---";
  }

  predicate SegmentChar(c: char) {
    c == ' ' || c == '-' || c == ':'
  }

  lemma SegmentChars(a: Option<string>)
    ensures |AlignSegment(a)| > 0 && AlignSegment(a)[|AlignSegment(a)| - 1] == ' '
    ensures forall j :: 0 <= j < |AlignSegment(a)| ==> SegmentChar(AlignSegment(a)[j])
  {
  }

  function Segments(aligns: seq<Option<string>>): (r: seq<string>)
    ensures |r| == |aligns| && forall i :: 0 <= i < |aligns| ==> r[i] == AlignSegment(aligns[i])
  {
    seq(|aligns|, i requires 0 <= i < |aligns| => AlignSegment(aligns[i]))
  }

  function CanonicalAligns(aligns: seq<Option<string>>): (r: seq<Option<string>>)
    ensures |r| == |aligns| && forall i :: 0 <= i < |aligns| ==> r[i] == CanonicalAlign(aligns[i])
  {
    seq(|aligns|, i requires 0 <= i < |aligns| => CanonicalAlign(aligns[i]))
  }

  /** Segments each followed by a pipe. */
  function Terminated(segs: seq<string>): string {
    if |segs| == 0 then "" else segs[0] + "|" + Terminated(segs[1..])
  }

  predicate IsSegment(seg: string) {
    |seg| > 0 && seg[|seg| - 1] == ' ' && forall j :: 0 <= j < |seg| ==> SegmentChar(seg[j])
  }

  lemma {:induction false} AlignSegmentsTerminated(aligns: seq<Option<string>>)
    ensures AlignSegments(aligns) == Terminated(Segments(aligns))
    ensures forall i :: 0 <= i < |aligns| ==> IsSegment(Segments(aligns)[i])
    decreases |aligns|
  {
    forall i | 0 <= i < |aligns| ensures IsSegment(Segments(aligns)[i]) {
      SegmentChars(aligns[i]);
    }
    if |aligns| > 0 {
      AlignSegmentsTerminated(aligns[1..]);
      assert Segments(aligns)[1..] == Segments(aligns[1..]);
    }
  }

  lemma {:induction false} PiecesOfTerminated(t: string, from: nat, segs: seq<string>)
    requires 0 < from <= |t| && t[from - 1] == '|' && t[from..] == Terminated(segs)
    requires forall i :: 0 <= i < |segs| ==> IsSegment(segs[i])
    ensures Pieces(t, from) == segs + [""]
    decreases |segs|
  {
    if |segs| == 0 {
      assert |t[from..]| == 0;
      PiecesAtEnd(t, from);
    } else {
      var seg := segs[0];
      PiecesAfterSegment(t, from, seg, Terminated(segs[1..]));
      PiecesOfTerminated(t, from + |seg| + 1, segs[1..]);
      assert segs + [""] == [seg] + (segs[1..] + [""]);
    }
  }

  /** A piece made of spaces, dashes and colons ending in a space, then a
      pipe. */
  lemma PiecesAfterSegment(t: string, from: nat, seg: string, rest: string)
    requires from <= |t| && t[from..] == seg + "|" + rest
    requires IsSegment(seg)
    ensures from + |seg| < |t| && t[from + |seg| + 1..] == rest
    ensures Pieces(t, from) == [seg] + Pieces(t, from + |seg| + 1)
  {
    var k := |seg|;
    SegmentThenSeparator(t, from, seg, rest);
    PiecesAtSeparator(t, from, from + k);
    assert [t[from..from + k]] == [seg];
  }

  /** The separator after a segment is the first one from the segment's
      start. */
  lemma SegmentThenSeparator(t: string, from: nat, seg: string, rest: string)
    requires from <= |t| && t[from..] == seg + "|" + rest
    requires IsSegment(seg)
    ensures from + |seg| < |t| && IsSeparator(t, from + |seg|)
    ensures forall j :: from <= j < from + |seg| ==> !IsSeparator(t, j)
    ensures t[from..from + |seg|] == seg && t[from + |seg| + 1..] == rest
  {
    var k := |seg|;
    var u := t[from..];
    assert u[k] == '|';
    forall j | from <= j < from + k ensures !IsSeparator(t, j) {
      assert t[j] == u[j - from] == seg[j - from];
    }
    assert t[from + k - 1] == u[k - 1] == ' ';
    assert t[from..from + k] == u[..k] == seg;
    assert t[from + k + 1..] == u[k + 1..];
  }

  lemma MapAlignsSegments(aligns: seq<Option<string>>)
    ensures MapAligns(Segments(aligns)) == CanonicalAligns(aligns)
  {
    forall i | 0 <= i < |aligns| ensures MapAligns(Segments(aligns))[i] == CanonicalAligns(aligns)[i] {
      AlignOfSegment(aligns[i]);
    }
  }

  /** Printing the alignments and reading them back gives them back, each
      value other than the three names read as `null`. */
  lemma AlignsRoundTrip(aligns: seq<Option<string>>)
    ensures MapAligns(CellsOf(JsString.Trim(AlignsToText(aligns)))) == CanonicalAligns(aligns)
  {
    AlignsTextIsTrimmed(aligns);
    AlignsTextCells(aligns);
    MapAlignsSegments(aligns);
  }

  lemma AlignsTextIsTrimmed(aligns: seq<Option<string>>)
    ensures JsString.Trim(AlignsToText(aligns)) == AlignsToText(aligns)
  {
    JsString.TrimOfUnpadded(AlignsToText(aligns));
  }

  lemma AlignsTextCells(aligns: seq<Option<string>>)
    ensures CellsOf(AlignsToText(aligns)) == Segments(aligns)
  {
    var t := AlignsToText(aligns);
    PiecesAtSeparator(t, 0, 0);
    assert t[1..] == AlignSegments(aligns);
    AlignSegmentsTerminated(aligns);
    PiecesOfTerminated(t, 1, Segments(aligns));
    assert Pieces(t, 0) == [""] + (Segments(aligns) + [""]);
    assert DropLeading(t, Pieces(t, 0)) == Segments(aligns) + [""];
  }

  /** Alignments as stored in the table data (`null` for none). */
  function AlignsValue(aligns: seq<Option<string>>): (r: Value)
    ensures r.Arr? && |r.items| == |aligns|
  {
    Arr(seq(|aligns|, i requires 0 <= i < |aligns| => if aligns[i].Some? then Str(aligns[i].value) else Null))
  }

  /** An entry of `aligns` as `align == 'right'` and the other loose
      comparisons see it: a string as itself, an array as `String(array)`.
      A number or a boolean compares as a number, which no name converts
      to; an object as `[object Object]`; `null` and `undefined` equal no
      string. */
  function AlignName(v: Value): Option<string> {
    if v.Str? then Some(v.s)
    else if v.Arr? then Some(LiquidTags.ToJsString(v))
    else None
  }

  /** `data.get('aligns')` read back for printing. */
  function AlignsFromValue(v: Value): (r: Result<seq<Option<string>>>)
    ensures r.Ok? <==> v.Arr?
    ensures r.Ok? ==> |r.value| == |v.items| && forall i :: 0 <= i < |v.items| ==> r.value[i] == AlignName(v.items[i])
  {
    if !v.Arr? then Err(TypeError("aligns.map of a non-list"))
    else Ok(seq(|v.items|, i requires 0 <= i < |v.items| => AlignName(v.items[i])))
  }

  /** Loose equality: an entry `["right"]` prints as a right alignment. */
  lemma ArrayEntryAligns()
    ensures AlignsToText(AlignsFromValue(Arr([Arr([Str("right")])])).value) == "| ---: |"
  {
    var r := AlignsFromValue(Arr([Arr([Str("right")])])).value;
    assert LiquidTags.ItemStrings([Str("right")]) == ["right"];
    assert r == [Some("right")];
  }

  lemma AlignsValueRoundTrip(aligns: seq<Option<string>>)
    ensures AlignsFromValue(AlignsValue(aligns)) == Ok(aligns)
  {
    var v := AlignsValue(aligns);
    var back := AlignsFromValue(v).value;
    assert |back| == |aligns|;
    forall i | 0 <= i < |aligns| ensures back[i] == aligns[i] {
      assert v.items[i] == if aligns[i].Some? then Str(aligns[i].value) else Null;
    }
    assert back == aligns;
  }

  // ----- parsing ------------------------------------------------------------

  function CellBlock(nodes: seq<Node>): Node {
    NewBlock(TABLE_CELL, [NewBlock(PARAGRAPH, nodes)])
  }

  /** A table cell holding a single paragraph. */
  predicate IsParagraphCell(n: Node) {
    n.Block? && n.kind == TABLE_CELL && |n.nodes| == 1 && n.nodes[0].Block? && n.nodes[0].kind == PARAGRAPH
  }

  /** One cell, trimmed and parsed with the inline rules only. */
  function CellInlines(rs: RuleSet, s: State, cell: string, fuel: nat): Result<seq<Node>> {
    Deserialize(rs, Use(s, "inline"), JsString.Trim(cell), fuel)
  }

  /** The inline deserializer as the function `parseRow` applies to each cell. */
  type InlineParser = string -> Result<seq<Node>>

  function CellParser(rs: RuleSet, s: State, fuel: nat): InlineParser {
    (cell: string) => CellInlines(rs, s, cell, fuel)
  }

  /** The cells, each parsed by `parse` into one paragraph cell. */
  function ParseCells(parse: InlineParser, cells: seq<string>): (r: Result<seq<Node>>)
    ensures r.Ok? ==> |r.value| == |cells| && forall i :: 0 <= i < |cells| ==> IsParagraphCell(r.value[i])
  {
    if |cells| == 0 then Ok([])
    else
      var nodes :- parse(cells[0]);
      var rest :- ParseCells(parse, cells[1..]);
      Ok([CellBlock(nodes)] + rest)
  }

  /** The cells parse exactly when every cell does. */
  lemma {:induction false} ParseCellsOk(parse: InlineParser, cells: seq<string>)
    ensures ParseCells(parse, cells).Ok? <==> forall i :: 0 <= i < |cells| ==> parse(cells[i]).Ok?
    decreases |cells|
  {
    if |cells| > 0 {
      ParseCellsOk(parse, cells[1..]);
      assert forall i :: 1 <= i < |cells| ==> cells[i] == cells[1..][i - 1];
    }
  }

  /** Each parsed cell holds the inlines its own text parses to. */
  lemma {:induction false} ParseCellsContent(parse: InlineParser, cells: seq<string>)
    requires ParseCells(parse, cells).Ok?
    ensures forall i :: 0 <= i < |cells| ==> parse(cells[i]) == Ok(ParseCells(parse, cells).value[i].nodes[0].nodes)
    decreases |cells|
  {
    if |cells| > 0 {
      var rest := ParseCells(parse, cells[1..]).value;
      ParseCellsContent(parse, cells[1..]);
      var r := ParseCells(parse, cells).value;
      assert r == [CellBlock(parse(cells[0]).value)] + rest;
      forall i | 1 <= i < |cells| ensures parse(cells[i]) == Ok(r[i].nodes[0].nodes) {
        assert cells[i] == cells[1..][i - 1] && r[i] == rest[i - 1];
      }
    }
  }

  /** `parseRow(state, row)` */
  function ParseRow(parse: InlineParser, row: string): (r: Result<Node>)
    ensures r.Ok? ==> (r.value.Block? && r.value.kind == TABLE_ROW
      && |r.value.nodes| == |CellsOf(JsString.Trim(row))|
      && forall i :: 0 <= i < |r.value.nodes| ==> IsParagraphCell(r.value.nodes[i]))
  {
    var cells :- ParseCells(parse, CellsOf(JsString.Trim(row)));
    Ok(NewBlock(TABLE_ROW, cells))
  }

  function ParseRows(parse: InlineParser, rows: seq<string>): (r: Result<seq<Node>>)
    ensures r.Ok? ==> |r.value| == |rows| && forall i :: 0 <= i < |rows| ==> ParseRow(parse, rows[i]) == Ok(r.value[i])
  {
    if |rows| == 0 then Ok([])
    else
      var first :- ParseRow(parse, rows[0]);
      var rest :- ParseRows(parse, rows[1..]);
      assert forall i :: 1 <= i < |rows| ==> rows[i] == rows[1..][i - 1];
      Ok([first] + rest)
  }

  /** `parseTable(state, header, aligns, rows)`: the header row first, then the
      body rows in order; the alignments come from the alignment row. */
  function ParseTable(parse: InlineParser, header: string, aligns: string, rows: seq<string>): (r: Result<Node>)
    ensures r.Ok? ==> (r.value.Block? && r.value.kind == TABLE
      && |r.value.nodes| == |rows| + 1
      && ParseRow(parse, header) == Ok(r.value.nodes[0])
      && (forall i :: 0 <= i < |rows| ==> ParseRow(parse, rows[i]) == Ok(r.value.nodes[i + 1]))
      && Get(r.value.data, "aligns") == AlignsValue(MapAligns(CellsOf(JsString.Trim(aligns)))))
  {
    var headerRow :- ParseRow(parse, header);
    var bodyRows :- ParseRows(parse, rows);
    Ok(Block(TABLE, [Entry("aligns", AlignsValue(MapAligns(CellsOf(JsString.Trim(aligns)))))], false, [headerRow] + bodyRows))
  }

  /** The non-empty lines of the matched table text. */
  function NonEmptyLines(lines: seq<string>): (r: seq<string>)
    ensures forall i :: 0 <= i < |r| ==> r[i] != "" && r[i] in lines
    ensures forall l :: l in lines && l != "" ==> l in r
  {
    if |lines| == 0 then []
    else (if lines[0] == "" then [] else [lines[0]]) + NonEmptyLines(lines[1..])
  }

  /** The table rules' action on the matched text: header, alignment row and
      body rows are its first, second and remaining non-empty lines. */
  function DeserializeTable(rs: RuleSet, s: State, matched: string, fuel: nat): Result<State> {
    TableFromLines(rs, s, NonEmptyLines(JsString.Split(matched, "\n")), fuel)
  }

  function TableFromLines(rs: RuleSet, s: State, lines: seq<string>, fuel: nat): (r: Result<State>)
    ensures |lines| < 2 ==> r.Err?
    ensures |lines| >= 2 ==> (r.Ok? <==> ParseTable(CellParser(rs, s, fuel), lines[0], lines[1], lines[2..]).Ok?)
    ensures r.Ok? ==> r.value.nodes == s.nodes + [ParseTable(CellParser(rs, s, fuel), lines[0], lines[1], lines[2..]).value]
  {
    if |lines| < 2 then Err(TypeError("trim of undefined"))
    else
      var table :- ParseTable(CellParser(rs, s, fuel), lines[0], lines[1], lines[2..]);
      Ok(Push(s, OneNode(table)))
  }

  // ----- printing -----------------------------------------------------------

  /** What `cellToText` prints: the paragraph's children when the cell holds
      a single paragraph, else the cell's children. */
  function CellContent(cell: Node): (r: seq<Node>)
    ensures |Children(cell)| == 1 && TypeOf(Children(cell)[0]) == Some(PARAGRAPH) ==> r == Children(Children(cell)[0])
    ensures !(|Children(cell)| == 1 && TypeOf(Children(cell)[0]) == Some(PARAGRAPH)) ==> r == Children(cell)
  {
    var nodes := Children(cell);
    if |nodes| == 1 && TypeOf(nodes[0]) == Some(PARAGRAPH) then Children(nodes[0]) else nodes
  }

  /** `cellToText(state, cell)` */
  function CellToText(rs: RuleSet, s: State, cell: Node, fuel: nat): Result<string> {
    if cell.Text? then Err(TypeError("nodes of a text"))
    else Serialize(rs, Use(s, "inline"), CellContent(cell), fuel)
  }

  function CellsToText(rs: RuleSet, s: State, cells: seq<Node>, fuel: nat): (r: Result<seq<string>>)
    ensures r.Ok? <==> forall i :: 0 <= i < |cells| ==> CellToText(rs, s, cells[i], fuel).Ok?
    ensures r.Ok? ==> |r.value| == |cells| && forall i :: 0 <= i < |cells| ==> Ok(r.value[i]) == CellToText(rs, s, cells[i], fuel)
  {
    if |cells| == 0 then Ok([])
    else
      var first :- CellToText(rs, s, cells[0], fuel);
      var rest :- CellsToText(rs, s, cells[1..], fuel);
      assert forall i :: 1 <= i < |cells| ==> cells[i] == cells[1..][i - 1];
      Ok([first] + rest)
  }

  /** `rowToText(state, row)`: `| c1 | c2 |`. */
  function RowToText(rs: RuleSet, s: State, row: Node, fuel: nat): (r: Result<string>)
    ensures r.Ok? ==> exists texts: seq<string> ::
      && |texts| == |Children(row)|
      && (forall i :: 0 <= i < |texts| ==> Ok(texts[i]) == CellToText(rs, s, Children(row)[i], fuel))
      && r.value == "| " + JsString.Join(texts, " | ") + " |"
  {
    if row.Text? then Err(TypeError("nodes of a text"))
    else
      var texts :- CellsToText(rs, s, row.nodes, fuel);
      Ok("| " + JsString.Join(texts, " | ") + " |")
  }

  function RowsToText(rs: RuleSet, s: State, rows: seq<Node>, fuel: nat): (r: Result<seq<string>>)
    ensures r.Ok? ==> |r.value| == |rows| && forall i :: 0 <= i < |rows| ==> Ok(r.value[i]) == RowToText(rs, s, rows[i], fuel)
  {
    if |rows| == 0 then Ok([])
    else
      var first :- RowToText(rs, s, rows[0], fuel);
      var rest :- RowsToText(rs, s, rows[1..], fuel);
      assert forall i :: 1 <= i < |rows| ==> rows[i] == rows[1..][i - 1];
      Ok([first] + rest)
  }

  /** A cell holding several blocks, or a block that is not a lone paragraph. */
  predicate IsMultiBlockCell(cell: Node) {
    var nodes := Children(cell);
    && !(|nodes| == 1 && TypeOf(nodes[0]) == Some(PARAGRAPH))
    && !(forall i :: 0 <= i < |nodes| ==> ObjectOf(nodes[i]) != "block")
  }

  /** Some node at or below one of `ns` is a multi-block table cell. */
  predicate HasMultiBlockCell(ns: seq<Node>)
    decreases ns
  {
    exists i :: 0 <= i < |ns| && (
      (TypeOf(ns[i]) == Some(TABLE_CELL) && IsMultiBlockCell(ns[i])) || (!ns[i].Text? && HasMultiBlockCell(ns[i].nodes)))
  }

  /** `mustSerializeAsHTML(table)`: some descendant is a multi-block cell. */
  predicate MustSerializeAsHTML(table: Node) {
    HasMultiBlockCell(Children(table))
  }

  /** No table cell at or below any of `ns`. */
  predicate NoCells(ns: seq<Node>)
    decreases ns
  {
    forall i :: 0 <= i < |ns| ==> TypeOf(ns[i]) != Some(TABLE_CELL) && (ns[i].Text? || NoCells(ns[i].nodes))
  }

  lemma {:induction false} NoCellsNoMultiBlock(ns: seq<Node>)
    requires NoCells(ns)
    ensures !HasMultiBlockCell(ns)
    decreases ns
  {
    forall i | 0 <= i < |ns| ensures ns[i].Text? || !HasMultiBlockCell(ns[i].nodes) {
      if !ns[i].Text? {
        NoCellsNoMultiBlock(ns[i].nodes);
      }
    }
  }

  /** Each child is a cell holding one paragraph with no table cell below it. */
  predicate SimpleCells(row: Node) {
    forall c :: c in Children(row) ==> IsParagraphCell(c) && NoCells(c.nodes[0].nodes)
  }

  /** A row whose cells each hold one paragraph, and nothing cell-like
      below it, prints as markdown. */
  lemma {:induction false} SimpleRowsNeedNoHtml(rows: seq<Node>)
    requires forall r :: r in rows ==> r.Block? && r.kind != TABLE_CELL && SimpleCells(r)
    ensures !HasMultiBlockCell(rows)
  {
    forall i | 0 <= i < |rows| ensures !HasMultiBlockCell(rows[i].nodes) {
      var cs := rows[i].nodes;
      forall j | 0 <= j < |cs| ensures !IsMultiBlockCell(cs[j]) && (cs[j].Text? || !HasMultiBlockCell(cs[j].nodes)) {
        assert cs[j] in Children(rows[i]);
        assert IsParagraphCell(cs[j]);
        var p := cs[j].nodes[0];
        NoCellsNoMultiBlock(p.nodes);
        assert cs[j].nodes == [p];
      }
    }
  }

  /** A table parsed from markdown prints as markdown, provided the inline
      rules produced no table cells. */
  lemma ParsedTableNeedsNoHtml(parse: InlineParser, header: string, aligns: string, rows: seq<string>, t: Node)
    requires ParseTable(parse, header, aligns, rows) == Ok(t)
    requires forall r :: r in Children(t) ==> SimpleCells(r)
    ensures !MustSerializeAsHTML(t)
  {
    forall r | r in t.nodes ensures r.Block? && r.kind != TABLE_CELL {
      var i :| 0 <= i < |t.nodes| && t.nodes[i] == r;
      if i == 0 {
        assert ParseRow(parse, header) == Ok(r);
      } else {
        assert ParseRow(parse, rows[i - 1]) == Ok(r);
      }
    }
    SimpleRowsNeedNoHtml(t.nodes);
  }

  /** A cell with a list beside its paragraph forces HTML output. */
  lemma ListInCellNeedsHtml(p: Node, l: Node)
    requires TypeOf(p) == Some(PARAGRAPH) && l.Block?
    ensures MustSerializeAsHTML(NewBlock(TABLE, [NewBlock(TABLE_ROW, [NewBlock(TABLE_CELL, [p, l])])]))
  {
    var cell := NewBlock(TABLE_CELL, [p, l]);
    assert ObjectOf(Children(cell)[1]) == "block";
    assert IsMultiBlockCell(cell);
    var row := NewBlock(TABLE_ROW, [cell]);
    assert row.nodes[0] == cell;
    assert HasMultiBlockCell(row.nodes);
    var table := NewBlock(TABLE, [row]);
    assert table.nodes[0] == row;
  }

  /** The table printer. `html` prints a document through the HTML
      printers, which are not part of this model. The result is `None` when
      the first node is not a table. */
  function SerializeTable(rs: RuleSet, s: State, fuel: nat, html: Node -> Result<string>): (r: Result<Option<State>>)
    ensures Peek(s).None? || TypeOf(Peek(s).value) != Some(TABLE) ==> r == Ok(None)
    ensures Peek(s).Some? && TypeOf(Peek(s).value) == Some(TABLE) && MustSerializeAsHTML(Peek(s).value) ==>
      r == (match html(Document([], [Peek(s).value])) case Err(e) => Err(e)
              case Ok(out) => Ok(Some(Write(Shift(s), out + "\n\n"))))
    ensures r.Ok? && r.value.Some? && !MustSerializeAsHTML(Peek(s).value) ==>
      var table := Peek(s).value;
      && |Children(table)| > 0
      && RowToText(rs, s, Children(table)[0], fuel).Ok?
      && AlignsFromValue(Get(table.data, "aligns")).Ok?
      && RowsToText(rs, s, Children(table)[1..], fuel).Ok?
      && r.value.value == Write(Shift(s),
           RowToText(rs, s, Children(table)[0], fuel).value + "\n"
           + AlignsToText(AlignsFromValue(Get(table.data, "aligns")).value) + "\n"
           + JsString.Join(RowsToText(rs, s, Children(table)[1..], fuel).value, "\n") + "\n\n")
  {
    match Peek(s)
    case None => Ok(None)
    case Some(table) =>
      if TypeOf(table) != Some(TABLE) then Ok(None)
      else if MustSerializeAsHTML(table) then
        match html(Document([], [table]))
        case Err(e) => Err(e)
        case Ok(out) => Ok(Some(Write(Shift(s), out + "\n\n")))
      else
        if |Children(table)| == 0 then Err(TypeError("nodes of undefined"))
        else
          var header :- RowToText(rs, s, Children(table)[0], fuel);
          var aligns :- AlignsFromValue(Get(table.data, "aligns"));
          var body :- RowsToText(rs, s, Children(table)[1..], fuel);
          Ok(Some(Write(Shift(s), header + "\n" + AlignsToText(aligns) + "\n" + JsString.Join(body, "\n") + "\n\n")))
  }
}
