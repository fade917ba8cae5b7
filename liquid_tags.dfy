/**
 * Printing custom liquid tags, `{% tag key=value ... %}`: literals, the
 * escaping of quoted strings, and the argument list.
 */
module LiquidTags {
  import opened Outcomes
  import opened Schema
  import JsString
  import Escapes

  // ----- escaping of string literals ---------------------------------------------------

  /** The characters escaped inside a quoted tag argument, backslash first. */
  const REPLACEMENTS: Escapes.Replacements := [
    Escapes.Replacement("\\", "\\\\"), Escapes.Replacement("*", "\\*"), Escapes.Replacement("#", "\\#"),
    Escapes.Replacement("(", "\\("), Escapes.Replacement(")", "\\)"), Escapes.Replacement("[", "\\["),
    Escapes.Replacement("]", "\\]"), Escapes.Replacement("`", "\\`"), Escapes.Replacement("_", "\\_"),
    Escapes.Replacement("|", "\\|"), Escapes.Replacement("\"", "\\\""), Escapes.Replacement("'", "\\'")
  ]

  /** `escape(str)` of the liquid helpers. */
  function Escape(s: string): string {
    Escapes.EscapeWith(REPLACEMENTS, s)
  }

  /** The characters the table escapes. */
  predicate Special(c: char) {
    c in "\\*#()[]`_|\"'"
  }

  /** What escaping makes of one character: a backslash before it when it
      is special. */
  function EscapeChar(c: char): string {
    if Special(c) then ['\\', c] else [c]
  }

  lemma TableRow(i: nat)
    requires i < |REPLACEMENTS|
    ensures Escapes.CharRow(REPLACEMENTS, i)
  {
  }

  lemma TableIsCharTable()
    ensures Escapes.CharTable(REPLACEMENTS)
  {
    forall i | 0 <= i < |REPLACEMENTS| ensures Escapes.CharRow(REPLACEMENTS, i) {
      TableRow(i);
    }
    Escapes.CharTableOfRows(REPLACEMENTS);
  }

  /** The entry of a special character in the table. */
  lemma KeyOf(c: char) returns (i: nat)
    requires Special(c)
    ensures i < |REPLACEMENTS| && REPLACEMENTS[i].key == [c]
  {
    i := if c == '\\' then 0 else if c == '*' then 1 else if c == '#' then 2 else if c == '(' then 3
      else if c == ')' then 4 else if c == '[' then 5 else if c == ']' then 6 else if c == '`' then 7
      else if c == '_' then 8 else if c == '|' then 9 else if c == '"' then 10 else 11;
  }

  lemma TableValue(i: nat)
    requires i < |REPLACEMENTS|
    ensures |REPLACEMENTS[i].key| == 1
    ensures EscapeChar(REPLACEMENTS[i].key[0]) == REPLACEMENTS[i].value
  {
  }

  lemma TableEntries()
    ensures Escapes.EntriesOf(REPLACEMENTS, (x: char) => [x], EscapeChar)
  {
    var m := REPLACEMENTS;
    forall i | 0 <= i < |m| && |m[i].key| == 1 ensures EscapeChar(m[i].key[0]) == m[i].value {
      TableValue(i);
    }
    forall x ensures (forall i :: 0 <= i < |m| ==> m[i].key != [x]) ==> EscapeChar(x) == [x] {
      if Special(x) {
        var i := KeyOf(x);
      }
    }
  }

  /** Escaping puts a backslash before every special character, the
      backslash included, and changes nothing else; no replacement is
      escaped a second time. */
  lemma EscapeSpec(s: string)
    ensures Escape(s) == Escapes.CharMap(s, EscapeChar)
  {
    TableIsCharTable();
    TableEntries();
    Escapes.EscapeCharwise(REPLACEMENTS, s, EscapeChar);
  }

  /** Reading an escaped text: a backslash stands for the character after
      it, every other character for itself. */
  function Unbackslash(t: string): string
    decreases |t|
  {
    if |t| >= 2 && t[0] == '\\' then [t[1]] + Unbackslash(t[2..])
    else if |t| == 0 then ""
    else [t[0]] + Unbackslash(t[1..])
  }

  lemma UnbackslashChar(c: char, rest: string)
    ensures Unbackslash(EscapeChar(c) + rest) == [c] + Unbackslash(rest)
  {
    var t := EscapeChar(c) + rest;
    if Special(c) {
      assert t[0] == '\\' && t[1] == c && t[2..] == rest;
    } else {
      assert c != '\\';
      assert t[0] == c && t[1..] == rest;
    }
  }

  lemma {:induction false} UnbackslashCharMap(s: string)
    ensures Unbackslash(Escapes.CharMap(s, EscapeChar)) == s
    decreases |s|
  {
    if |s| > 0 {
      UnbackslashChar(s[0], Escapes.CharMap(s[1..], EscapeChar));
      UnbackslashCharMap(s[1..]);
    }
  }

  /** Nothing escaping writes is lost: reading back the backslashes gives
      the text again. */
  lemma EscapeRoundTrip(s: string)
    ensures Unbackslash(Escape(s)) == s
  {
    EscapeSpec(s);
    UnbackslashCharMap(s);
  }

  /** Inside the quotes every double quote of an escaped text has a
      backslash before it. */
  predicate QuotesEscaped(t: string) {
    forall i :: 0 <= i < |t| && t[i] == '"' ==> i > 0 && t[i - 1] == '\\'
  }

  lemma QuotesEscapedAppend(a: string, b: string)
    requires QuotesEscaped(a) && QuotesEscaped(b)
    ensures QuotesEscaped(a + b)
  {
    var t := a + b;
    forall i | 0 <= i < |t| && t[i] == '"' ensures i > 0 && t[i - 1] == '\\' {
      if i >= |a| {
        assert t[i] == b[i - |a|];
        if i - |a| > 0 {
          assert t[i - 1] == b[i - |a| - 1];
        }
      } else {
        assert t[i] == a[i];
      }
    }
  }

  lemma {:induction false} CharMapQuotesEscaped(s: string)
    ensures QuotesEscaped(Escapes.CharMap(s, EscapeChar))
    decreases |s|
  {
    if |s| > 0 {
      CharMapQuotesEscaped(s[1..]);
      QuotesEscapedAppend(EscapeChar(s[0]), Escapes.CharMap(s[1..], EscapeChar));
    }
  }

  lemma EscapeQuotes(s: string)
    ensures QuotesEscaped(Escape(s))
  {
    EscapeSpec(s);
    CharMapQuotesEscaped(s);
  }

  // ----- literals ----------------------------------------------------------------------

  /** `String(v)` for the values the model has: arrays print their items
      joined by commas, with `null` and `undefined` items empty. */
  function ToJsString(v: Value): string
    decreases v, 1
  {
    match v
    case Undefined => "undefined"
    case Null => "null"
    case Bool(b) => if b then "true" else "false"
    case Num(n) => JsString.IntToString(n)
    case Str(s) => s
    case Arr(items) => JsString.Join(ItemStrings(items), ",")
    case Obj(_) => "[object Object]"
  }

  function ItemStrings(items: seq<Value>): (r: seq<string>)
    ensures |r| == |items|
    decreases items, 0
  {
    if |items| == 0 then []
    else
      var first := if items[0].Undefined? || items[0].Null? then "" else ToJsString(items[0]);
      [first] + ItemStrings(items[1..])
  }

  /** `stringifyLiteral(value)` */
  function StringifyLiteral(v: Value): string {
    if v.Bool? then (if v.b then "true" else "false")
    else if v.Str? then "\"" + Escape(v.s) + "\""
    else ToJsString(v)
  }

  /** A string prints between double quotes that its escaped text cannot
      close, and reads back; a boolean prints as `true` or `false`; any
      other value prints as `String(value)`. */
  lemma StringifyLiteralSpec(v: Value)
    ensures v.Bool? ==> StringifyLiteral(v) == (if v.b then "true" else "false")
    ensures v.Str? ==>
      var t := StringifyLiteral(v);
      && |t| >= 2 && t[0] == '"' && t[|t| - 1] == '"'
      && QuotesEscaped(t[1..|t| - 1])
      && Unbackslash(t[1..|t| - 1]) == v.s
    ensures !v.Bool? && !v.Str? ==> StringifyLiteral(v) == ToJsString(v)
  {
    if v.Str? {
      var t := StringifyLiteral(v);
      assert t[1..|t| - 1] == Escape(v.s);
      EscapeQuotes(v.s);
      EscapeRoundTrip(v.s);
    }
  }

  // ----- argument lists ----------------------------------------------------------------

  /** One argument: `Number(key) >= 0` (decided by `isArgs`) prints the
      value alone, any other key prints `key=value`. */
  function Argument(isArgs: string -> bool, e: Entry): string {
    var value := StringifyLiteral(e.value);
    if isArgs(e.key) then value else e.key + "=" + value
  }

  function Arguments(isArgs: string -> bool, data: Data): (r: seq<string>)
    ensures |r| == |data| && forall i :: 0 <= i < |data| ==> r[i] == Argument(isArgs, data[i])
  {
    seq(|data|, i requires 0 <= i < |data| => Argument(isArgs, data[i]))
  }

  /** `stringifyData(data)`: the arguments in entry order, space-separated. */
  function StringifyData(isArgs: string -> bool, data: Data): string {
    JsString.Join(Arguments(isArgs, data), " ")
  }

  /** `stringifyTag({ tag, data })`: absent or empty data prints no
      arguments. */
  function StringifyTag(isArgs: string -> bool, tag: string, data: Option<Data>): string {
    var args := if data.Some? && |data.value| > 0 then " " + StringifyData(isArgs, data.value) else "";
    "{% " + tag + args + " %}"
  }

  /** A printed tag reads back: between `{% ` and ` %}`, splitting at
      spaces gives the tag and then the arguments in entry order, when
      neither the tag nor an argument holds a space. */
  lemma StringifyTagRoundTrip(isArgs: string -> bool, tag: string, data: Option<Data>)
    requires ' ' !in tag
    requires data.Some? ==> forall i :: 0 <= i < |data.value| ==> ' ' !in Argument(isArgs, data.value[i])
    ensures var t := StringifyTag(isArgs, tag, data);
      && |t| >= 6 && t[..3] == "{% " && t[|t| - 3..] == " %}"
      && JsString.Split(t[3..|t| - 3], " ")
         == [tag] + (if data.Some? then Arguments(isArgs, data.value) else [])
  {
    var t := StringifyTag(isArgs, tag, data);
    var args := if data.Some? then Arguments(isArgs, data.value) else [];
    var parts := [tag] + args;
    assert parts[1..] == args;
    if |args| > 0 {
      assert JsString.Join(parts, " ") == tag + " " + StringifyData(isArgs, data.value);
    }
    assert t == "{% " + JsString.Join(parts, " ") + " %}";
    assert t[3..|t| - 3] == JsString.Join(parts, " ");
    JsString.SplitJoinChar(parts, ' ', "");
    assert "" + tag == tag;
  }

  /** The argument list splits back at its spaces into the arguments when
      no argument holds a space. */
  lemma StringifyDataSplit(isArgs: string -> bool, data: Data)
    requires |data| > 0
    requires forall i :: 0 <= i < |data| ==> ' ' !in Argument(isArgs, data[i])
    ensures JsString.Split(StringifyData(isArgs, data), " ") == Arguments(isArgs, data)
  {
    var args := Arguments(isArgs, data);
    JsString.SplitJoinChar(args, ' ', "");
    assert "" + args[0] == args[0];
    assert [args[0]] + args[1..] == args;
  }
}
