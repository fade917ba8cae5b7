/**
 * Inline code: printing a code-marked leaf between backtick runs that do
 * not occur in its text, and reading a code span into a code-marked text.
 */
module InlineCode {
  import opened Outcomes
  import opened Schema
  import opened ParseState
  import opened RuleFunctions
  import opened Serializers
  import JsString
  import MarkdownUtils
  import Escapes

  // ----- the separator ---------------------------------------------------------------

  /** A run of `n` backticks. */
  function Backticks(n: nat): string {
    JsString.Repeat('`', n)
  }

  /** A text never contains anything longer than itself. */
  lemma {:induction false} LongerNotContained(s: string, sub: string)
    requires |sub| > |s|
    ensures !JsString.Contains(s, sub)
    decreases |s|
  {
    if |s| > 0 {
      LongerNotContained(s[1..], sub);
    }
  }

  /** The length of the separator, searched from a run of `n` backticks:
      the first length from `n` on whose run the text does not contain. */
  function SeparatorFrom(text: string, n: nat): (r: nat)
    requires n >= 1
    ensures n <= r && (n <= |text| + 1 ==> r <= |text| + 1)
    ensures !JsString.Contains(text, Backticks(r))
    ensures forall j :: n <= j < r ==> JsString.Contains(text, Backticks(j))
    decreases |text| + 1 - n
  {
    if n > |text| then
      LongerNotContained(text, Backticks(n));
      n
    else if JsString.Contains(text, Backticks(n)) then SeparatorFrom(text, n + 1)
    else n
  }

  /** The number of backticks around a code span of `text`: the shortest
      run the text does not contain. */
  function SeparatorLength(text: string): nat {
    SeparatorFrom(text, 1)
  }

  /** The separator is at least one backtick, at most one more than the
      text is long, not in the text, and every shorter run is. */
  lemma SeparatorShortest(text: string)
    ensures var n := SeparatorLength(text);
      1 <= n <= |text| + 1
      && !JsString.Contains(text, Backticks(n))
      && forall j :: 1 <= j < n ==> JsString.Contains(text, Backticks(j))
  {
  }

  /** A text without a backtick is wrapped in single backticks. */
  lemma SeparatorWithoutBacktick(text: string)
    requires '`' !in text
    ensures SeparatorLength(text) == 1
  {
    assert Backticks(1) == "`";
    Escapes.NotInNotContains(text, "`");
  }

  /** The loop of the printer: the separator grows by one backtick for as
      long as the text contains it. */
  method FindSeparator(text: string) returns (separator: string)
    ensures separator == Backticks(SeparatorLength(text))
    ensures !JsString.Contains(text, separator)
  {
    separator := "`";
    assert separator == Backticks(1);
    while JsString.Contains(text, separator)
      invariant 1 <= |separator| && separator == Backticks(|separator|)
      invariant SeparatorFrom(text, |separator|) == SeparatorLength(text)
      decreases |text| + 1 - |separator|
    {
      if |separator| > |text| {
        LongerNotContained(text, separator);
      }
      separator := separator + "`";
      assert forall i :: 0 <= i < |separator| ==> separator[i] == '`';
    }
  }

  // ----- printing --------------------------------------------------------------------

  /** The transform of a code-marked leaf: its text between separators. */
  function CodeLeafText(s: State, text: string, mark: string): string {
    MarkdownUtils.WrapInline(text, Backticks(SeparatorLength(text)))
  }

  /** `Serializer().transformMarkedLeaf(MARKS.CODE, ...)` */
  function SerializeInlineCode(): Result<RuleFunction> {
    TransformMarkedLeaf(Identity, StringMatcher(CODE_MARK), CodeLeafText)
  }

  /** A non-blank code text prints as its leading spaces, the separator,
      the trimmed text, the separator again and its trailing spaces; a blank
      one as itself followed by the separator twice. */
  lemma CodeLeafTextSpec(s: State, text: string, mark: string)
    ensures var sep := Backticks(SeparatorLength(text));
      && (JsString.AllSpace(text) ==> CodeLeafText(s, text, mark) == text + sep + sep)
      && (!JsString.AllSpace(text) ==>
            CodeLeafText(s, text, mark)
            == MarkdownUtils.LeadingSpace(text) + sep + JsString.Trim(text) + sep + MarkdownUtils.TrailingSpace(text))
  {
    var n := SeparatorLength(text);
    var sep := Backticks(n);
    SeparatorShortest(text);
    if JsString.AllSpace(text) {
      assert MarkdownUtils.NoSpace(sep) by {
        assert forall i :: 0 <= i < |sep| ==> sep[i] == '`';
      }
      MarkdownUtils.WrapInlineBlank(text, sep);
    } else {
      MarkdownUtils.WrapInlineText(text, sep);
    }
  }

  /** The inline code printer declines a first node without a code-marked
      leaf, and otherwise puts every code-marked leaf of it between
      separators and takes the code mark off it. */
  lemma SerializeInlineCodeRun(s: State)
    ensures SerializeInlineCode().Ok?
    ensures var r := Run(SerializeInlineCode().value, s);
      && (r.Some? <==> |s.nodes| > 0 && HasMarkedLeaf(s.nodes[0], (t: Option<string>) => t == Some(CODE_MARK)))
      && (r.Some? ==>
        && |r.value.nodes[0].leaves| == |s.nodes[0].leaves|
        && forall i :: 0 <= i < |s.nodes[0].leaves| ==>
             var leaf := s.nodes[0].leaves[i];
             var out := r.value.nodes[0].leaves[i];
             && (CODE_MARK in leaf.marks ==>
                   out.text == CodeLeafText(s, leaf.text, CODE_MARK)
                   && out.marks == RemoveMark(leaf.marks, CODE_MARK))
             && (CODE_MARK !in leaf.marks ==> out == leaf))
  {
    var m := StringMatcher(CODE_MARK);
    var f := NormalizeMatcher(m).value;
    TransformMarkedLeafRun(Identity, m, CodeLeafText, s);
    IdentityRuns(s);
    var r := Run(SerializeInlineCode().value, s);
    assert forall t :: f(t) <==> t == Some(CODE_MARK);
    if r.Some? {
      forall i | 0 <= i < |s.nodes[0].leaves|
        ensures var leaf := s.nodes[0].leaves[i];
          && (CODE_MARK in leaf.marks ==>
                r.value.nodes[0].leaves[i].text == CodeLeafText(s, leaf.text, CODE_MARK)
                && r.value.nodes[0].leaves[i].marks == RemoveMark(leaf.marks, CODE_MARK))
          && (CODE_MARK !in leaf.marks ==> r.value.nodes[0].leaves[i] == leaf)
      {
        var leaf := s.nodes[0].leaves[i];
        MarkedLeafCode(s, leaf, f);
      }
    }
  }

  /** The leaf callback for the code matcher. */
  lemma MarkedLeafCode(s: State, leaf: Leaf, f: Matcher)
    requires forall t :: f(t) <==> t == Some(CODE_MARK)
    ensures var out := MarkedLeaf(s, leaf, f, CodeLeafText);
      && (CODE_MARK in leaf.marks ==>
            out.text == CodeLeafText(s, leaf.text, CODE_MARK) && out.marks == RemoveMark(leaf.marks, CODE_MARK))
      && (CODE_MARK !in leaf.marks ==> out == leaf)
  {
    var k := FirstMatching(leaf.marks, f);
    if CODE_MARK in leaf.marks {
      var i :| 0 <= i < |leaf.marks| && leaf.marks[i] == CODE_MARK;
      assert f(Some(leaf.marks[i]));
      assert k.Some?;
      assert f(Some(leaf.marks[k.value]));
    } else {
      forall j | 0 <= j < |leaf.marks| ensures !f(Some(leaf.marks[j])) {
        assert leaf.marks[j] in leaf.marks;
      }
    }
  }

  // ----- reading ---------------------------------------------------------------------

  /** A match of the inline code pattern: the whole match and the code
      (second group). */
  datatype CodeMatch = CodeMatch(whole: string, code: string)

  /** `[mark, ...state.marks]` made a set: the code mark first, then the
      active marks without it. */
  function CodeMarks(marks: seq<string>): (r: seq<string>)
    ensures |r| > 0 && r[0] == CODE_MARK
    ensures forall x :: x in r <==> x == CODE_MARK || x in marks
    ensures NoDuplicates(marks) ==> NoDuplicates(r)
  {
    var rest := RemoveMark(marks, CODE_MARK);
    assert NoDuplicates(marks) ==> NoDuplicates(rest) by {
      if NoDuplicates(marks) {
        RemoveMarkKeepsDistinct(marks, CODE_MARK);
      }
    }
    [CODE_MARK] + rest
  }

  lemma {:induction false} RemoveMarkKeepsDistinct(marks: seq<string>, m: string)
    requires NoDuplicates(marks)
    ensures NoDuplicates(RemoveMark(marks, m))
    decreases |marks|
  {
    if |marks| > 0 {
      var tail := marks[1..];
      assert NoDuplicates(tail) by {
        forall i, j | 0 <= i < j < |tail| ensures tail[i] != tail[j] {
          assert tail[i] == marks[i + 1] && tail[j] == marks[j + 1];
        }
      }
      RemoveMarkKeepsDistinct(tail, m);
      if marks[0] != m {
        var r := RemoveMark(tail, m);
        assert marks[0] !in tail by {
          forall j | 0 <= j < |tail| ensures tail[j] != marks[0] {
            assert tail[j] == marks[j + 1];
          }
        }
        assert marks[0] !in r;
        var full := [marks[0]] + r;
        forall i, j | 0 <= i < j < |full| ensures full[i] != full[j] {
          if i == 0 {
            assert full[j] == r[j - 1] && r[j - 1] in r;
          } else {
            assert full[i] == r[i - 1] && full[j] == r[j - 1];
          }
        }
      }
    }
  }

  /** `deserialize` of inline code: a match is skipped and a text node of
      its code, marked as code and with the active marks, is pushed. */
  function DeserializeInlineCode(s: State, m: Option<CodeMatch>): (r: Option<State>)
    ensures m.None? <==> r.None?
    ensures m.Some? ==>
      && r.value.text == Skip(s, |m.value.whole|).text
      && r.value.nodes == s.nodes + [TextNode(m.value.code, CodeMarks(s.marks))]
  {
    match m
    case None => None
    case Some(cm) => Some(Push(Skip(s, |cm.whole|), OneNode(TextNode(cm.code, CodeMarks(s.marks)))))
  }
}
