/**
 * Markdown lists: the item loop of the list parser (item extraction, bullet
 * and checkbox stripping, outdenting, tight/loose detection) and the list
 * item printer (bullet, checkbox, indented continuation lines, blank line
 * after loose and last items).
 *
 * The list and item regular expressions are external: the item regexp is an
 * `ItemFinder` oracle; the small anchored patterns (bullet and spaces,
 * checkbox, `/\n\n(?!\s*$)/`, the outdent pattern) are written out. The
 * nested `deserialize`/`serialize` calls are passed in as functions, which
 * the entry points instantiate with the drivers of `ParseState`.
 */
module Lists {
  import opened Outcomes
  import opened Schema
  import opened ParseState
  import JsString

  // ----- the list block ------------------------------------------------------

  /** The list type chosen from the bullet: numbered bullets are longer than
      one character. */
  function ListType(bull: string): (r: string)
    ensures r == OL_LIST || r == UL_LIST
    ensures r == OL_LIST <==> |bull| > 1
  {
    if |bull| > 1 then OL_LIST else UL_LIST
  }

  // ----- item extraction -----------------------------------------------------

  /** One match of the global item regexp: its text and its `lastIndex`. */
  datatype ItemMatch = ItemMatch(text: string, end: nat)

  /** `reBlock.list.item.exec(raw)` with `lastIndex` at `from`. */
  type ItemFinder = (string, nat) -> Option<ItemMatch>

  /** The item regexp never matches the empty string, so each match ends after
      the position the search started from, and inside the text. */
  predicate Advances(find: ItemFinder, raw: string) {
    forall from: nat :: from <= |raw| && find(raw, from).Some? ==> from < find(raw, from).value.end <= |raw|
  }

  /** An entry of `items`: the match and the slice of the list text from the
      previous `lastIndex` to this one. */
  datatype RawItem = RawItem(item: ItemMatch, raw: string)

  /** The items found from `from` on, in order. */
  function ItemsFrom(find: ItemFinder, raw: string, from: nat): seq<RawItem>
    requires Advances(find, raw) && from <= |raw|
    decreases |raw| - from
  {
    match find(raw, from)
    case None => []
    case Some(m) => [RawItem(m, raw[from..m.end])] + ItemsFrom(find, raw, m.end)
  }

  /** The do-while loop that collects the items of the list text. */
  method ExtractItems(find: ItemFinder, raw: string) returns (items: seq<RawItem>)
    requires Advances(find, raw)
    ensures items == ItemsFrom(find, raw, 0)
  {
    items := [];
    var lastIndex := 0;
    var done := false;
    while !done
      invariant lastIndex <= |raw|
      invariant !done ==> items + ItemsFrom(find, raw, lastIndex) == ItemsFrom(find, raw, 0)
      invariant done ==> items == ItemsFrom(find, raw, 0)
      decreases |raw| - lastIndex, if done then 0 else 1
    {
      var item := find(raw, lastIndex);
      if item.Some? {
        var rawItem := raw[lastIndex..item.value.end];
        assert ItemsFrom(find, raw, lastIndex) == [RawItem(item.value, rawItem)] + ItemsFrom(find, raw, item.value.end);
        items := items + [RawItem(item.value, rawItem)];
        lastIndex := item.value.end;
      } else {
        done := true;
      }
    }
  }

  function RawSlices(items: seq<RawItem>): seq<string> {
    if |items| == 0 then [] else [items[0].raw] + RawSlices(items[1..])
  }

  /** The raw slices tile the list text from `from` up to a point after which
      the item regexp finds nothing more. */
  lemma {:induction false} RawSlicesTile(find: ItemFinder, raw: string, from: nat)
    requires Advances(find, raw) && from <= |raw|
    ensures exists e :: (from <= e <= |raw| && JsString.Concat(RawSlices(ItemsFrom(find, raw, from))) == raw[from..e]
      && find(raw, e).None?)
    decreases |raw| - from
  {
    match find(raw, from)
    case None =>
      assert JsString.Concat(RawSlices(ItemsFrom(find, raw, from))) == raw[from..from];
    case Some(m) =>
      RawSlicesTile(find, raw, m.end);
      var e :| m.end <= e <= |raw| && JsString.Concat(RawSlices(ItemsFrom(find, raw, m.end))) == raw[m.end..e]
        && find(raw, e).None?;
      var items := ItemsFrom(find, raw, from);
      assert items[1..] == ItemsFrom(find, raw, m.end);
      assert raw[from..e] == raw[from..m.end] + raw[m.end..e];
  }

  // ----- one item's text -----------------------------------------------------

  /** The number of characters from `from` on that satisfy `p`. */
  function RunLength(s: string, from: nat, p: char -> bool): (r: nat)
    requires from <= |s|
    ensures from + r <= |s| && (from + r == |s| || !p(s[from + r]))
    ensures forall j :: from <= j < from + r ==> p(s[j])
    decreases |s| - from
  {
    if from < |s| && p(s[from]) then 1 + RunLength(s, from + 1, p) else 0
  }

  predicate IsSpaceChar(c: char) { c == ' ' }

  predicate IsDigit(c: char) { '0' <= c <= '9' }

  /** The length of the match of `/^ *([*+-]|\d+\.) +/`, if it matches. */
  function BulletPrefix(s: string): (r: Option<nat>)
    ensures r.Some? ==> 0 < r.value <= |s| && s[r.value - 1] == ' ' && (r.value == |s| || s[r.value] != ' ')
  {
    var sp := RunLength(s, 0, IsSpaceChar);
    var bulletEnd: Option<nat> :=
      if sp < |s| && (s[sp] == '*' || s[sp] == '+' || s[sp] == '-') then Some(sp + 1)
      else
        var d := RunLength(s, sp, IsDigit);
        if d > 0 && sp + d < |s| && s[sp + d] == '.' then Some(sp + d + 1) else None;
    match bulletEnd
    case None => None
    case Some(b) =>
      var n := RunLength(s, b, IsSpaceChar);
      if n == 0 then None else Some(b + n)
  }

  /** `text.replace(reBlock.list.bulletAndSpaces, '')` */
  function StripBullet(s: string): (r: string)
    ensures |r| <= |s| && r == s[|s| - |r|..]
  {
    match BulletPrefix(s)
    case None => s
    case Some(n) => s[n..]
  }

  /** `reBlock.list.checkbox.exec(text)`: whether the box is ticked, and the
      length of the match. */
  function Checkbox(s: string): (r: Option<(bool, nat)>)
    ensures r.Some? <==> |s| >= 4 && s[0] == '[' && (s[1] == 'x' || s[1] == ' ') && s[2] == ']' && s[3] == ' '
    ensures r.Some? ==> (r.value.0 <==> s[1] == 'x')
    ensures r.Some? ==> (4 <= r.value.1 <= |s| && (r.value.1 == |s| || s[r.value.1] != ' ')
      && forall j :: 3 <= j < r.value.1 ==> s[j] == ' ')
  {
    if |s| >= 4 && s[0] == '[' && (s[1] == 'x' || s[1] == ' ') && s[2] == ']' && s[3] == ' ' then
      Some((s[1] == 'x', 3 + RunLength(s, 3, IsSpaceChar)))
    else None
  }

  /** The first line terminator at or after `from`. */
  function LineEnd(s: string, from: nat): (r: Option<nat>)
    requires from <= |s|
    ensures r.Some? ==> (from <= r.value < |s| && JsString.IsLineTerminator(s[r.value])
      && forall j :: from <= j < r.value ==> !JsString.IsLineTerminator(s[j]))
    ensures r.None? ==> forall j :: from <= j < |s| ==> !JsString.IsLineTerminator(s[j])
    decreases |s| - from
  {
    if from == |s| then None
    else if JsString.IsLineTerminator(s[from]) then Some(from)
    else LineEnd(s, from + 1)
  }

  /** `text.replace(new RegExp('^ {1,' + space + '}', 'gm'), '')` for a
      positive `space`: at the start of every line, up to `space` spaces go. */
  function Outdent(s: string, space: nat): string
    decreases |s|
  {
    var k := var n := RunLength(s, 0, IsSpaceChar); if n < space then n else space;
    match LineEnd(s, k)
    case None => s[k..]
    case Some(j) => s[k..j + 1] + Outdent(s[j + 1..], space)
  }

  /** An item after its bullet (and checkbox) are stripped. */
  datatype PreparedItem = PreparedItem(text: string, checked: Option<bool>)

  /** The first part of the item loop's body: strip the bullet, read and strip
      a checkbox, and outdent the continuation lines by the width of what was
      stripped. That width is zero only when nothing was stripped; the
      outdent pattern `^ {1,0}` is then not a valid regular expression. */
  function PrepareItem(matched: string): (r: Result<PreparedItem>)
    ensures r.Err? <==> (JsString.Contains(CheckboxStripped(StripBullet(matched)), "\n ")
      && |CheckboxStripped(StripBullet(matched))| == |matched|)
    ensures r.Ok? ==> r.value.checked == (match Checkbox(StripBullet(matched)) case None => None case Some(c) => Some(c.0))
    ensures r.Ok? && !JsString.Contains(CheckboxStripped(StripBullet(matched)), "\n ") ==>
      r.value.text == CheckboxStripped(StripBullet(matched))
  {
    var space := |matched|;
    var t1 := StripBullet(matched);
    var checked := match Checkbox(t1) case None => None case Some(c) => Some(c.0);
    var t2 := CheckboxStripped(t1);
    if JsString.Contains(t2, "\n ") then
      var width := space - |t2|;
      if width <= 0 then Err(SyntaxError("numbers out of order in {} quantifier"))
      else Ok(PreparedItem(Outdent(t2, width), checked))
    else Ok(PreparedItem(t2, checked))
  }

  /** The text after the checkbox, when there is one. */
  function CheckboxStripped(t: string): (r: string)
    ensures |r| <= |t|
  {
    match Checkbox(t)
    case None => t
    case Some(c) => t[c.1..]
  }

  /** The data of the item block: `{ checked }` with a checkbox, none without. */
  function ItemData(checked: Option<bool>): (r: Data)
    ensures checked.None? <==> !Has(r, "checked")
    ensures checked.Some? ==> Get(r, "checked") == Bool(checked.value)
  {
    match checked
    case None => []
    case Some(b) =>
      var d := [Entry("checked", Bool(b))];
      assert d[0].key == "checked";
      d
  }

  /** A one-line text holds no `\n ` to outdent. */
  lemma {:induction false} OneLineNoBreak(t: string)
    requires forall j :: 0 <= j < |t| ==> t[j] != '\n'
    ensures !JsString.Contains(t, "\n ")
    decreases |t|
  {
    if |t| > 0 {
      OneLineNoBreak(t[1..]);
      if |t| >= 2 {
        assert t[..2][0] == t[0] != '\n';
      }
    }
  }

  lemma TickedBullet()
    ensures BulletPrefix("* [x] done") == Some(2)
  {
    assert RunLength("* [x] done", 0, IsSpaceChar) == 0;
    assert RunLength("* [x] done", 1, IsSpaceChar) == 1;
  }

  /** A ticked item. */
  lemma TickedItem()
    ensures PrepareItem("* [x] done") == Ok(PreparedItem("done", Some(true)))
  {
    TickedBullet();
    assert "* [x] done"[2..] == "[x] done";
    assert Checkbox("[x] done") == Some((true, 4));
    assert CheckboxStripped("[x] done") == "done";
    OneLineNoBreak("done");
  }

  lemma UntickedBullet()
    ensures BulletPrefix("- [ ] to do") == Some(2)
  {
    assert RunLength("- [ ] to do", 0, IsSpaceChar) == 0;
    assert RunLength("- [ ] to do", 1, IsSpaceChar) == 1;
  }

  /** An unticked item. */
  lemma UntickedItem()
    ensures PrepareItem("- [ ] to do") == Ok(PreparedItem("to do", Some(false)))
  {
    UntickedBullet();
    assert "- [ ] to do"[2..] == "[ ] to do";
    assert Checkbox("[ ] to do") == Some((false, 4));
    assert CheckboxStripped("[ ] to do") == "to do";
    OneLineNoBreak("to do");
  }

  lemma NumberedBullet()
    ensures BulletPrefix("12. plain") == Some(4)
  {
    assert RunLength("12. plain", 0, IsSpaceChar) == 0;
    assert RunLength("12. plain", 2, IsDigit) == 0;
    assert RunLength("12. plain", 0, IsDigit) == 2;
    assert RunLength("12. plain", 4, IsSpaceChar) == 0;
    assert RunLength("12. plain", 3, IsSpaceChar) == 1;
  }

  /** A numbered item without a checkbox: no `checked` data. */
  lemma PlainNumberedItem()
    ensures PrepareItem("12. plain") == Ok(PreparedItem("plain", None))
  {
    NumberedBullet();
    assert "12. plain"[4..] == "plain";
    assert Checkbox("plain") == None;
    OneLineNoBreak("plain");
  }

  // ----- looseness ----------------------------------------------------------

  /** `/\n\n(?!\s*$)/.test(text)`: a blank line followed, somewhere, by a
      character that is not whitespace. */
  predicate HasInnerBlankLine(t: string) {
    exists i :: 0 <= i < |t| - 1 && t[i] == '\n' && t[i + 1] == '\n' && !JsString.AllSpace(t[i + 2..])
  }

  /** `text.charAt(text.length - 1) === '\n'` */
  predicate EndsWithNewline(t: string) {
    |t| > 0 && t[|t| - 1] == '\n'
  }

  /** The looseness of every item at once: an item is loose if it holds an
      inner blank line, or if it or the item before it ends with a newline,
      the last item's own final newline excepted. */
  function Looseness(texts: seq<string>): (r: seq<bool>)
    ensures |r| == |texts|
    ensures forall i :: 0 <= i < |texts| ==> (r[i] <==>
      (i > 0 && EndsWithNewline(texts[i - 1])) || HasInnerBlankLine(texts[i])
      || (i < |texts| - 1 && EndsWithNewline(texts[i])))
  {
    seq(|texts|, i requires 0 <= i < |texts| =>
      (i > 0 && EndsWithNewline(texts[i - 1])) || HasInnerBlankLine(texts[i])
      || (i < |texts| - 1 && EndsWithNewline(texts[i])))
  }

  /** A non-last item ending in a newline is loose, and so is the next one. */
  lemma TrailingNewlineLoosensBoth(texts: seq<string>, i: nat)
    requires i + 1 < |texts| && EndsWithNewline(texts[i])
    ensures Looseness(texts)[i] && Looseness(texts)[i + 1]
  {
  }

  /** A single-line item list is tight. */
  lemma OneLineItemsAreTight(texts: seq<string>)
    requires forall i :: 0 <= i < |texts| ==> forall j :: 0 <= j < |texts[i]| ==> texts[i][j] != '\n'
    ensures forall i :: 0 <= i < |texts| ==> !Looseness(texts)[i]
  {
    forall i | 0 <= i < |texts| ensures !Looseness(texts)[i] {
      assert !EndsWithNewline(texts[i]);
      assert i > 0 ==> !EndsWithNewline(texts[i - 1]);
    }
  }

  // ----- the item loop -------------------------------------------------------

  /** `state.use('block').deserialize(text)` on the item's state. */
  type BlockParser = (State, string) -> Result<seq<Node>>

  /** The item's nodes are parsed with `looseList` set to the current depth
      when the item is loose. */
  function ItemState(s: State, loose: bool): State {
    if loose then SetProp(s, "looseList", Num(s.depth)) else s
  }

  function ItemNode(parse: BlockParser, s: State, p: PreparedItem, loose: bool): Result<Node> {
    var nodes :- parse(ItemState(s, loose), p.text);
    Ok(Block(LIST_ITEM, ItemData(p.checked), false, nodes))
  }

  /** The flag an item leaves for the next one: it ends with a newline and is
      not the last. */
  predicate NextFlag(t: string, last: bool) {
    !last && EndsWithNewline(t)
  }

  /** `loose = next || /\n\n(?!\s*$)/.test(text)`, then `next` when not last. */
  predicate Loose(t: string, next: bool, last: bool) {
    next || HasInnerBlankLine(t) || NextFlag(t, last)
  }

  /** The item loop from item `i` on, `next` being the flag the previous item
      left behind. */
  function NodesFrom(parse: BlockParser, s: State, preps: seq<Result<PreparedItem>>, i: nat, next: bool): Result<seq<Node>>
    requires i <= |preps|
    decreases |preps| - i
  {
    if i == |preps| then Ok([])
    else
      var p :- preps[i];
      var last := i == |preps| - 1;
      var node :- ItemNode(parse, s, p, Loose(p.text, next, last));
      var rest :- NodesFrom(parse, s, preps, i + 1, NextFlag(p.text, last));
      Ok([node] + rest)
  }

  /** `ns` in front of a successful result. */
  function Prepend(ns: seq<Node>, r: Result<seq<Node>>): Result<seq<Node>> {
    match r
    case Err(e) => Err(e)
    case Ok(v) => Ok(ns + v)
  }

  /** Each item's match, prepared. */
  function Preparations(items: seq<RawItem>): (r: seq<Result<PreparedItem>>)
    ensures |r| == |items| && forall i :: 0 <= i < |items| ==> r[i] == PrepareItem(items[i].item.text)
  {
    seq(|items|, i requires 0 <= i < |items| => PrepareItem(items[i].item.text))
  }

  /** What the list rule's action returns for the matched list text. */
  function ListDeserialized(parse: BlockParser, s: State, find: ItemFinder, raw: string, bull: string): Result<State>
    requires Advances(find, raw)
  {
    var nodes :- NodesFrom(parse, s, Preparations(ItemsFrom(find, raw, 0)), 0, false);
    Ok(Push(s, OneNode(NewBlock(ListType(bull), nodes))))
  }

  /** The list rule's action: extract the items, then build one item block
      each, tracking looseness from item to item. */
  method DeserializeList(parse: BlockParser, s: State, find: ItemFinder, raw: string, bull: string)
    returns (r: Result<State>)
    requires Advances(find, raw)
    ensures r == ListDeserialized(parse, s, find, raw, bull)
  {
    var items := ExtractItems(find, raw);
    ghost var preps := Preparations(items);
    ListDeserializedOf(parse, s, find, raw, bull);
    var next := false;
    var nodes: seq<Node> := [];
    PrependNothing(NodesFrom(parse, s, preps, 0, false));
    for i := 0 to |items|
      invariant NodesFrom(parse, s, preps, 0, false) == Prepend(nodes, NodesFrom(parse, s, preps, i, next))
    {
      var prepared := PrepareItem(items[i].item.text);
      assert prepared == preps[i];
      if prepared.Err? {
        assert NodesFrom(parse, s, preps, i, next) == Err(prepared.error);
        return Err(prepared.error);
      }
      var textItem := prepared.value.text;
      var loose := next || HasInnerBlankLine(textItem);
      var next' := next;
      if i != |items| - 1 {
        next' := EndsWithNewline(textItem);
        if !loose {
          loose := next';
        }
      }
      assert loose == Loose(textItem, next, i == |items| - 1);
      var node := ItemNode(parse, s, prepared.value, loose);
      if node.Err? {
        NodesFromFails(parse, s, preps, i, next, nodes);
        return Err(node.error);
      }
      NodesFromStep(parse, s, preps, i, next, nodes);
      nodes := nodes + [node.value];
      next := next';
    }
    assert NodesFrom(parse, s, preps, |items|, next) == Ok([]);
    assert nodes + [] == nodes;
    r := Ok(Push(s, OneNode(NewBlock(ListType(bull), nodes))));
  }

  lemma PrependNothing(r: Result<seq<Node>>)
    ensures Prepend([], r) == r
  {
    match r
    case Err(e) =>
    case Ok(v) => assert [] + v == v;
  }

  lemma ListDeserializedOf(parse: BlockParser, s: State, find: ItemFinder, raw: string, bull: string)
    requires Advances(find, raw)
    ensures var res := NodesFrom(parse, s, Preparations(ItemsFrom(find, raw, 0)), 0, false);
      ListDeserialized(parse, s, find, raw, bull)
        == if res.Err? then Err(res.error) else Ok(Push(s, OneNode(NewBlock(ListType(bull), res.value))))
  {
  }

  /** One turn of the item loop. */
  lemma NodesFromStep(parse: BlockParser, s: State, preps: seq<Result<PreparedItem>>, i: nat, next: bool, nodes: seq<Node>)
    requires i < |preps| && preps[i].Ok?
    requires ItemNode(parse, s, preps[i].value, Loose(preps[i].value.text, next, i == |preps| - 1)).Ok?
    ensures var p := preps[i].value;
      var next' := if i != |preps| - 1 then EndsWithNewline(p.text) else next;
      Prepend(nodes, NodesFrom(parse, s, preps, i, next))
        == Prepend(nodes + [ItemNode(parse, s, p, Loose(p.text, next, i == |preps| - 1)).value], NodesFrom(parse, s, preps, i + 1, next'))
  {
    var p := preps[i].value;
    var last := i == |preps| - 1;
    var flag := NextFlag(p.text, last);
    var next' := if !last then EndsWithNewline(p.text) else next;
    if last {
      assert NodesFrom(parse, s, preps, i + 1, next') == Ok([]) == NodesFrom(parse, s, preps, i + 1, flag);
    } else {
      assert next' == flag;
    }
    var node := ItemNode(parse, s, p, Loose(p.text, next, last)).value;
    assert NodesFrom(parse, s, preps, i, next) == Prepend([node], NodesFrom(parse, s, preps, i + 1, flag));
    match NodesFrom(parse, s, preps, i + 1, flag)
    case Err(e) =>
    case Ok(rest) =>
      assert nodes + ([node] + rest) == (nodes + [node]) + rest;
  }

  /** An item that fails to prepare or to parse ends the loop with its error. */
  lemma NodesFromFails(parse: BlockParser, s: State, preps: seq<Result<PreparedItem>>, i: nat, next: bool, nodes: seq<Node>)
    requires i < |preps| && preps[i].Ok?
    requires ItemNode(parse, s, preps[i].value, Loose(preps[i].value.text, next, i == |preps| - 1)).Err?
    ensures Prepend(nodes, NodesFrom(parse, s, preps, i, next))
      == Err(ItemNode(parse, s, preps[i].value, Loose(preps[i].value.text, next, i == |preps| - 1)).error)
  {
  }

  /** The item loop agrees with the closed form of looseness: when every
      item prepares, item `i` is parsed loose exactly when `Looseness` says. */
  lemma {:induction false} NodesFromLooseness(parse: BlockParser, s: State, preps: seq<Result<PreparedItem>>, ps: seq<PreparedItem>, i: nat, next: bool)
    requires |ps| == |preps| && i <= |preps|
    requires forall k :: 0 <= k < |preps| ==> preps[k] == Ok(ps[k])
    requires next == (i > 0 && EndsWithNewline(ps[i - 1].text))
    ensures NodesFrom(parse, s, preps, i, next) == ItemNodes(parse, s, ps, Looseness(Texts(ps)), i)
    decreases |preps| - i
  {
    if i < |preps| {
      var last := i == |preps| - 1;
      NodesFromLooseness(parse, s, preps, ps, i + 1, EndsWithNewline(ps[i].text));
      if last {
        assert NodesFrom(parse, s, preps, i + 1, NextFlag(ps[i].text, last)) == Ok([]);
      } else {
        assert NextFlag(ps[i].text, last) == EndsWithNewline(ps[i].text);
      }
      assert Looseness(Texts(ps))[i] == Loose(ps[i].text, next, last);
    }
  }

  function Texts(ps: seq<PreparedItem>): (r: seq<string>)
    ensures |r| == |ps| && forall i :: 0 <= i < |ps| ==> r[i] == ps[i].text
  {
    seq(|ps|, i requires 0 <= i < |ps| => ps[i].text)
  }

  /** The item blocks from `i` on, with the looseness given per item. */
  function ItemNodes(parse: BlockParser, s: State, ps: seq<PreparedItem>, loose: seq<bool>, i: nat): Result<seq<Node>>
    requires |loose| == |ps| && i <= |ps|
    decreases |ps| - i
  {
    if i == |ps| then Ok([])
    else
      var node :- ItemNode(parse, s, ps[i], loose[i]);
      var rest :- ItemNodes(parse, s, ps, loose, i + 1);
      Ok([node] + rest)
  }

  /** The parser of the item bodies: the block rules of `rs`. */
  function BlockDeserializer(rs: RuleSet, fuel: nat): BlockParser {
    (st: State, text: string) => Deserialize(rs, Use(st, "block"), text, fuel)
  }

  // ----- printing an item ----------------------------------------------------

  /** `trimTrailingLines(s)`: without its trailing newlines. */
  function TrimTrailingLines(s: string): (r: string)
    ensures |r| <= |s| && r == s[..|r|]
    ensures r == "" || r[|r| - 1] != '\n'
    ensures forall j :: |r| <= j < |s| ==> s[j] == '\n'
  {
    if |s| > 0 && s[|s| - 1] == '\n' then TrimTrailingLines(s[..|s| - 1]) else s
  }

  /** The lookahead `(?!\s*$)` of `indentString` fails here: the line is
      blank (only whitespace up to its end). */
  predicate BlankAhead(t: string)
    decreases |t|
  {
    |t| == 0 || JsString.IsLineTerminator(t[0]) || (JsString.IsJsSpace(t[0]) && BlankAhead(t[1..]))
  }

  /** `indentString(s, ' ', n)` with `pad` the `n` spaces: `s.replace(/^(?!\s*$)/mg, pad)`,
      the pad before every line that is not blank. */
  function IndentString(s: string, pad: string): string
    decreases |s|
  {
    var head := if BlankAhead(s) then "" else pad;
    match LineEnd(s, 0)
    case None => head + s
    case Some(j) => head + s[..j + 1] + IndentString(s[j + 1..], pad)
  }

  /** One line indented as `indentString` would. */
  function IndentLine(line: string, pad: string): string {
    if JsString.AllSpace(line) then line else pad + line
  }

  function IndentEach(lines: seq<string>, pad: string): (r: seq<string>)
    ensures |r| == |lines| && forall i :: 0 <= i < |lines| ==> r[i] == IndentLine(lines[i], pad)
  {
    seq(|lines|, i requires 0 <= i < |lines| => IndentLine(lines[i], pad))
  }

  predicate NoLineTerminator(line: string) {
    forall j :: 0 <= j < |line| ==> !JsString.IsLineTerminator(line[j])
  }

  lemma {:induction false} BlankAheadOfLine(line: string, rest: string)
    requires NoLineTerminator(line)
    requires rest == "" || JsString.IsLineTerminator(rest[0])
    ensures BlankAhead(line + rest) <==> JsString.AllSpace(line)
    decreases |line|
  {
    if |line| > 0 {
      assert (line + rest)[1..] == line[1..] + rest;
      BlankAheadOfLine(line[1..], rest);
    } else {
      assert line + rest == rest;
    }
  }

  /** `indentString` on lines joined by `\n`: each non-blank line gets the pad. */
  lemma {:induction false} IndentJoined(lines: seq<string>, pad: string)
    requires |lines| > 0 && forall i :: 0 <= i < |lines| ==> NoLineTerminator(lines[i])
    ensures IndentString(JsString.Join(lines, "\n"), pad) == JsString.Join(IndentEach(lines, pad), "\n")
    decreases |lines|
  {
    var l := lines[0];
    if |lines| == 1 {
      assert JsString.Join(lines, "\n") == l + "";
      BlankAheadOfLine(l, "");
      assert LineEnd(l, 0).None?;
    } else {
      var rest := JsString.Join(lines[1..], "\n");
      var s := l + "\n" + rest;
      assert JsString.Join(lines, "\n") == s;
      assert s == l + ("\n" + rest);
      BlankAheadOfLine(l, "\n" + rest);
      LineEndAfterLine(l, "\n" + rest);
      assert s[..|l| + 1] == l + "\n";
      assert s[|l| + 1..] == rest;
      IndentJoined(lines[1..], pad);
      assert IndentEach(lines, pad)[1..] == IndentEach(lines[1..], pad);
    }
  }

  lemma LineEndAfterLine(line: string, rest: string)
    requires NoLineTerminator(line) && |rest| > 0 && JsString.IsLineTerminator(rest[0])
    ensures LineEnd(line + rest, 0) == Some(|line|)
  {
    var s := line + rest;
    assert forall j :: 0 <= j < |line| ==> s[j] == line[j];
    LineEndAt(s, 0, |line|);
  }

  lemma {:induction false} LineEndAt(s: string, from: nat, k: nat)
    requires from <= k < |s| && JsString.IsLineTerminator(s[k])
    requires forall j :: from <= j < k ==> !JsString.IsLineTerminator(s[j])
    ensures LineEnd(s, from) == Some(k)
    decreases k - from
  {
    if from < k {
      LineEndAt(s, from + 1, k);
    }
  }

  /** `s.slice(n)` */
  function Drop(s: string, n: nat): string {
    if n <= |s| then s[n..] else ""
  }

  /** The body of an item as printed: its blocks without trailing blank
      lines, one newline, every non-blank line indented by `indent` spaces,
      and the first line's indent removed again. */
  function ItemBody(body: string, indent: nat): string {
    Drop(IndentString(TrimTrailingLines(body) + "\n", JsString.Repeat(' ', indent)), indent)
  }

  /** `${index + 1}.` for numbered lists, `*` otherwise. */
  function Bullet(list: Node, index: nat): (r: string)
    ensures TypeOf(list) == Some(OL_LIST) ==> r == JsString.NatToString(index + 1) + "."
    ensures TypeOf(list) != Some(OL_LIST) ==> r == "*"
  {
    if TypeOf(list) == Some(OL_LIST) then JsString.NatToString(index + 1) + "." else "*"
  }

  /** Whether some child of the item is a paragraph. */
  predicate HasParagraph(item: Node)
    requires !item.Text?
  {
    exists i :: 0 <= i < |item.nodes| && TypeOf(item.nodes[i]) == Some(PARAGRAPH)
  }

  /** The task-list prefix: `[x] ` or `[ ] ` when the item has `checked`. */
  function CheckboxText(data: Data): (r: string)
    ensures !Has(data, "checked") ==> r == ""
    ensures Has(data, "checked") ==> r == (if Truthy(Get(data, "checked")) then "[x] " else "[ ] ")
  {
    if Has(data, "checked") then (if Truthy(Get(data, "checked")) then "[x]" else "[ ]") + " " else ""
  }

  /** A run of `k` characters satisfying `p`, ended by the text or by one
      that does not, has length `k`. */
  lemma {:induction false} RunLengthExact(s: string, from: nat, k: nat, p: char -> bool)
    requires from + k <= |s| && forall j :: from <= j < from + k ==> p(s[j])
    requires from + k == |s| || !p(s[from + k])
    ensures RunLength(s, from, p) == k
    decreases k
  {
    if k > 0 {
      RunLengthExact(s, from + 1, k - 1, p);
    }
  }

  lemma {:induction false} NatToStringDigits(n: nat)
    ensures forall i :: 0 <= i < |JsString.NatToString(n)| ==> IsDigit(JsString.NatToString(n)[i])
    decreases n
  {
    if n >= 10 {
      NatToStringDigits(n / 10);
    }
  }

  /** The bullet the printer writes reads back: the list type it gives is
      the list's own, and the bullet pattern takes exactly the bullet and
      its space, leaving the rest of the item text. */
  lemma BulletReadBack(list: Node, index: nat, rest: string)
    requires rest == "" || rest[0] != ' '
    ensures var b := Bullet(list, index);
      && ListType(b) == (if TypeOf(list) == Some(OL_LIST) then OL_LIST else UL_LIST)
      && BulletPrefix(b + " " + rest) == Some(|b| + 1)
      && StripBullet(b + " " + rest) == rest
  {
    var b := Bullet(list, index);
    var s := b + " " + rest;
    assert s[|b|] == ' ';
    RunLengthExact(s, |b| + 1, 0, IsSpaceChar);
    RunLengthExact(s, |b|, 1, IsSpaceChar);
    if TypeOf(list) == Some(OL_LIST) {
      var ds := JsString.NatToString(index + 1);
      NatToStringDigits(index + 1);
      assert s[0] == ds[0];
      RunLengthExact(s, 0, 0, IsSpaceChar);
      forall j | 0 <= j < |ds| ensures IsDigit(s[j]) {
        assert s[j] == ds[j];
      }
      assert s[|ds|] == '.';
      RunLengthExact(s, 0, |ds|, IsDigit);
    } else {
      RunLengthExact(s, 0, 0, IsSpaceChar);
    }
    assert s[|b| + 1..] == rest;
  }

  /** The printed checkbox reads back: a checkbox in the item data is
      recognised, ticked exactly when `checked` is truthy, and its match
      takes exactly the four printed characters. */
  lemma CheckboxReadBack(data: Data, rest: string)
    requires Has(data, "checked")
    requires rest == "" || rest[0] != ' '
    ensures Checkbox(CheckboxText(data) + rest) == Some((Truthy(Get(data, "checked")), 4))
    ensures CheckboxStripped(CheckboxText(data) + rest) == rest
  {
    var s := CheckboxText(data) + rest;
    RunLengthExact(s, 4, 0, IsSpaceChar);
    RunLengthExact(s, 3, 1, IsSpaceChar);
    assert s[4..] == rest;
  }

  /** `state.use('block').serialize(nodes)` */
  type BlockPrinter = seq<Node> -> Result<string>

  /** An item whose body the printer accepts. */
  predicate ItemPrints(printer: BlockPrinter, item: Node) {
    !item.Text? && printer(item.nodes).Ok?
  }

  /** `serializeListItem(state, list, item, index)` */
  function ListItemText(printer: BlockPrinter, list: Node, item: Node, index: nat): (r: Result<string>)
    requires !list.Text?
    ensures r.Ok? <==> ItemPrints(printer, item)
  {
    if item.Text? then Err(TypeError("data of a text node"))
    else
      var loose := HasParagraph(item);
      var last := |list.nodes| - 1 == index;
      var bullet := Bullet(list, index);
      var indent := |bullet| + 1;
      var body :- printer(item.nodes);
      var body' := ItemBody(body, indent);
      var body'' := if loose || last then body' + "\n" else body';
      Ok(bullet + " " + CheckboxText(item.data) + body'')
  }

  /** Whether a text ends with a blank line: two newlines in a row. */
  predicate EndsWithBlankLine(t: string) {
    |t| >= 2 && t[|t| - 1] == '\n' && t[|t| - 2] == '\n'
  }

  /** A printed item starts with its bullet, a space and its checkbox; when
      its body prints anything it ends with a newline, and with a blank
      line exactly when the item holds a paragraph or is the last. */
  lemma ListItemTextSpec(printer: BlockPrinter, list: Node, item: Node, index: nat)
    requires !list.Text?
    ensures ListItemText(printer, list, item, index).Ok? ==>
      ItemEnds(ListItemText(printer, list, item, index).value,
               Bullet(list, index) + " " + CheckboxText(item.data),
               ItemBody(printer(item.nodes).value, |Bullet(list, index)| + 1),
               HasParagraph(item) || index == |list.nodes| - 1)
  {
    if ListItemText(printer, list, item, index).Ok? {
      var bullet := Bullet(list, index);
      var prefix := bullet + " " + CheckboxText(item.data);
      var body := printer(item.nodes).value;
      var b := ItemBody(body, |bullet| + 1);
      var blank := HasParagraph(item) || index == |list.nodes| - 1;
      assert ListItemText(printer, list, item, index).value == prefix + (if blank then b + "\n" else b);
      ItemBodyEnd(body, |bullet| + 1);
      ItemEndsOf(prefix, b, blank);
    }
  }

  /** The shape `ListItemTextSpec` states of an item text `r`. */
  predicate ItemEnds(r: string, prefix: string, b: string, blank: bool) {
    && |prefix| <= |r| && r[..|prefix|] == prefix
    && (b != "" ==> |r| > 0 && r[|r| - 1] == '\n' && (EndsWithBlankLine(r) <==> blank))
    && (b == "" ==> (blank <==> r == prefix + "\n"))
  }

  /** The step of `ListItemTextSpec` on the texts alone. */
  lemma ItemEndsOf(prefix: string, b: string, blank: bool)
    requires |prefix| > 0 && prefix[|prefix| - 1] == ' '
    requires b == "" || (b[|b| - 1] == '\n' && (|b| == 1 || b[|b| - 2] != '\n'))
    ensures ItemEnds(prefix + (if blank then b + "\n" else b), prefix, b, blank)
  {
    var r := prefix + (if blank then b + "\n" else b);
    assert r[..|prefix|] == prefix;
    if b != "" && !blank && |b| == 1 {
      assert r[|r| - 2] == prefix[|prefix| - 1];
    }
  }

  /** `a + sep + ...` with `a` prefixed by `pad` is `pad` before the join. */
  lemma JoinFirst(pad: string, a: string, rest: seq<string>, sep: string)
    ensures JsString.Join([pad + a] + rest, sep) == pad + JsString.Join([a] + rest, sep)
  {
    if |rest| > 0 {
      assert ([pad + a] + rest)[1..] == rest;
      assert ([a] + rest)[1..] == rest;
    }
  }

  /** The continuation lines of an item: the first line of the body stays as
      it is, every later non-blank line is indented by the bullet's width
      plus one, and one newline ends the body. */
  lemma ItemBodyOfLines(lines: seq<string>, indent: nat)
    requires |lines| > 0 && forall i :: 0 <= i < |lines| ==> NoLineTerminator(lines[i])
    requires !JsString.AllSpace(lines[0]) && lines[|lines| - 1] != ""
    ensures ItemBody(JsString.Join(lines, "\n"), indent)
      == JsString.Join([lines[0]] + IndentEach(lines[1..], JsString.Repeat(' ', indent)), "\n") + "\n"
  {
    var pad := JsString.Repeat(' ', indent);
    var j := JsString.Join(lines, "\n");
    JoinLast(lines, "\n");
    assert TrimTrailingLines(j) == j;
    JsString.JoinAppend(lines, "", "\n");
    var ls := lines + [""];
    assert j + "\n" == JsString.Join(ls, "\n");
    forall i | 0 <= i < |ls| ensures NoLineTerminator(ls[i]) {
      if i < |lines| {
        assert ls[i] == lines[i];
      }
    }
    IndentJoined(ls, pad);
    var each := IndentEach(ls, pad);
    assert each == [pad + lines[0]] + (IndentEach(lines[1..], pad) + [""]);
    JoinFirst(pad, lines[0], IndentEach(lines[1..], pad) + [""], "\n");
    var tail := [lines[0]] + IndentEach(lines[1..], pad);
    assert [lines[0]] + (IndentEach(lines[1..], pad) + [""]) == tail + [""];
    JsString.JoinAppend(tail, "", "\n");
    assert ItemBody(j, indent) == (pad + JsString.Join(tail + [""], "\n"))[indent..];
  }

  /** The join ends with the last part. */
  lemma {:induction false} JoinLast(parts: seq<string>, sep: string)
    requires |parts| > 0 && parts[|parts| - 1] != ""
    ensures var j := JsString.Join(parts, sep);
      |j| >= |parts[|parts| - 1]| && j[|j| - 1] == parts[|parts| - 1][|parts[|parts| - 1]| - 1]
    decreases |parts|
  {
    if |parts| > 1 {
      JoinLast(parts[1..], sep);
      assert parts[1..][|parts| - 2] == parts[|parts| - 1];
    }
  }

  /** The printed body ends in one newline, or is empty when the blocks
      printed nothing but blank lines; so the item ends with a blank line
      exactly when it holds a paragraph or is the last. */
  lemma ItemBodyEnd(body: string, indent: nat)
    ensures var b := ItemBody(body, indent);
      b == "" || (b[|b| - 1] == '\n' && (|b| == 1 || b[|b| - 2] != '\n'))
  {
    var t := TrimTrailingLines(body);
    var pad := JsString.Repeat(' ', indent);
    var s := t + "\n";
    IndentKeepsEnd(s, pad);
    if |t| > 0 {
      assert s[|s| - 2] == t[|t| - 1];
    }
  }

  /** `r` ends as `s` does: at least as long, with the same last two
      characters, and equal to it when `s` is a single character. */
  predicate KeepsEnd(s: string, r: string)
    requires |s| > 0
  {
    |r| >= |s| && r[|r| - 1] == s[|s| - 1] && (|s| >= 2 ==> r[|r| - 2] == s[|s| - 2])
    && (|s| == 1 ==> r == s)
  }

  /** `indentString` keeps the last two characters of a text that ends with
      a line terminator. */
  lemma {:induction false} IndentKeepsEnd(s: string, pad: string)
    requires |s| > 0 && JsString.IsLineTerminator(s[|s| - 1])
    ensures KeepsEnd(s, IndentString(s, pad))
    decreases |s|
  {
    var front, j := IndentFirstLine(s, pad);
    var rest := s[j + 1..];
    if j < |s| - 1 {
      IndentKeepsEnd(rest, pad);
    }
    KeepsEndAppend(s, front, j, IndentString(rest, pad));
  }

  /** The step of the induction above, on the texts alone. */
  lemma KeepsEndAppend(s: string, front: string, j: nat, tail: string)
    requires j < |s| && |front| >= j + 1 && front[|front| - 1] == s[j]
    requires j == |s| - 1 ==> tail == "" && KeepsEnd(s, front)
    requires j < |s| - 1 ==> KeepsEnd(s[j + 1..], tail)
    ensures KeepsEnd(s, front + tail)
  {
    if j < |s| - 1 {
      var rest := s[j + 1..];
      EndOfAppend(front, tail);
      assert rest[|rest| - 1] == s[|s| - 1];
      if |rest| >= 2 {
        assert rest[|rest| - 2] == s[|s| - 2];
      } else {
        assert tail == rest;
      }
    } else {
      assert front + tail == front;
    }
  }

  /** `indentString` of a text with a line terminator: the first line,
      indented when not blank, then the rest indented. */
  lemma IndentFirstLine(s: string, pad: string) returns (front: string, j: nat)
    requires |s| > 0 && JsString.IsLineTerminator(s[|s| - 1])
    ensures j < |s| && |front| >= j + 1 && front[|front| - 1] == s[j]
    ensures IndentString(s, pad) == front + IndentString(s[j + 1..], pad)
    ensures j == |s| - 1 ==> IndentString(s[j + 1..], pad) == "" && (|s| == 1 ==> front == s)
    ensures j < |s| - 1 ==> |s[j + 1..]| > 0 && JsString.IsLineTerminator(s[j + 1..][|s[j + 1..]| - 1])
    ensures |s| >= 2 && j < |s| - 1 && |s[j + 1..]| < 2 ==> j == |s| - 2
    ensures j == |s| - 1 ==> KeepsEnd(s, front)
  {
    j := LineEnd(s, 0).value;
    var head := if BlankAhead(s) then "" else pad;
    front := head + s[..j + 1];
    if |s| == 1 {
      assert BlankAhead(s);
    }
  }

  /** The last two characters of `a + b` as far as `b` reaches. */
  lemma EndOfAppend(a: string, b: string)
    requires |b| > 0
    ensures var ab := a + b;
      ab[|ab| - 1] == b[|b| - 1]
      && (|b| >= 2 ==> ab[|ab| - 2] == b[|b| - 2])
      && (|b| == 1 && |a| > 0 ==> ab[|ab| - 2] == a[|a| - 1])
  {
  }

  // ----- printing a list -----------------------------------------------------

  /** The items of `list` from `i` on, printed and concatenated. */
  function ItemsText(printer: BlockPrinter, list: Node, i: nat): (r: Result<string>)
    requires !list.Text? && i <= |list.nodes|
    ensures r.Ok? <==> forall k :: i <= k < |list.nodes| ==> ItemPrints(printer, list.nodes[k])
    decreases |list.nodes| - i
  {
    if i == |list.nodes| then Ok("")
    else
      var first :- ListItemText(printer, list, list.nodes[i], i);
      var rest :- ItemsText(printer, list, i + 1);
      Ok(first + rest)
  }

  /** `state.use('block').serialize(nodes)` with the rules of `rs`. */
  function BlockSerializer(rs: RuleSet, s: State, fuel: nat): BlockPrinter {
    (nodes: seq<Node>) => Serialize(rs, Use(s, "block"), nodes, fuel)
  }

  /** The list rule's printer: a list at the head of the nodes is replaced by
      its items' text; any other head is declined. */
  function SerializeList(rs: RuleSet, s: State, fuel: nat): (r: Result<Option<State>>)
    ensures Peek(s).None? || (TypeOf(Peek(s).value) != Some(UL_LIST) && TypeOf(Peek(s).value) != Some(OL_LIST))
      ==> r == Ok(None)
    ensures r.Ok? && r.value.Some? ==> (Peek(s).Some? && !Peek(s).value.Text?
      && ItemsText(BlockSerializer(rs, s, fuel), Peek(s).value, 0).Ok?
      && r.value.value == Write(Shift(s), ItemsText(BlockSerializer(rs, s, fuel), Peek(s).value, 0).value))
  {
    match Peek(s)
    case None => Ok(None)
    case Some(list) =>
      if TypeOf(list) != Some(UL_LIST) && TypeOf(list) != Some(OL_LIST) then Ok(None)
      else
        var output :- ItemsText(BlockSerializer(rs, s, fuel), list, 0);
        Ok(Some(Write(Shift(s), output)))
  }

  /** The list rule's parser action with the block rules of `rs`. */
  method DeserializeListWith(rs: RuleSet, s: State, fuel: nat, find: ItemFinder, raw: string, bull: string)
    returns (r: Result<State>)
    requires Advances(find, raw)
    ensures r.Ok? ==> (|r.value.nodes| == |s.nodes| + 1 && r.value.nodes[..|s.nodes|] == s.nodes
      && r.value.nodes[|s.nodes|].Block? && r.value.nodes[|s.nodes|].kind == ListType(bull))
    ensures r == ListDeserialized(BlockDeserializer(rs, fuel), s, find, raw, bull)
  {
    r := DeserializeList(BlockDeserializer(rs, fuel), s, find, raw, bull);
  }
}
