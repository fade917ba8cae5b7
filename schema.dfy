/**
 * The document model the converter reads and writes (Slate nodes), the
 * property bags attached to nodes and states, and the schema constants:
 * block types, which container accepts which blocks, which blocks hold
 * inline content, and which types are void.
 */
module Schema {
  import opened Outcomes
  import JsString

  /** A JavaScript value as it appears in node data and in state props. */
  datatype Value =
    | Undefined
    | Null
    | Bool(b: bool)
    | Num(n: int)
    | Str(s: string)
    | Arr(items: seq<Value>)
    | Obj(entries: seq<Entry>)

  datatype Entry = Entry(key: string, value: Value)

  /** An immutable map, in insertion order. */
  type Data = seq<Entry>

  /** JavaScript truthiness. */
  predicate Truthy(v: Value) {
    match v
    case Undefined => false
    case Null => false
    case Bool(b) => b
    case Num(n) => n != 0
    case Str(s) => s != ""
    case Arr(_) => true
    case Obj(_) => true
  }

  predicate Has(d: Data, k: string) {
    exists i :: 0 <= i < |d| && d[i].key == k
  }

  /** `map.get(k)`: the value stored under `k`, or `Undefined`. */
  function Get(d: Data, k: string): (v: Value)
    ensures !Has(d, k) ==> v == Undefined
  {
    if |d| == 0 then Undefined
    else if d[0].key == k then d[0].value
    else Get(d[1..], k)
  }

  /** `map.get(k, default)` */
  function GetOr(d: Data, k: string, default: Value): (v: Value)
    ensures !Has(d, k) ==> v == default
    ensures Has(d, k) ==> v == Get(d, k)
  {
    if |d| == 0 then default
    else if d[0].key == k then d[0].value
    else GetOr(d[1..], k, default)
  }

  /** `map.set(k, v)`: an existing key keeps its position, a new one goes last. */
  function Set(d: Data, k: string, v: Value): (r: Data)
    ensures Has(r, k)
  {
    if |d| == 0 then
      assert [Entry(k, v)][0].key == k;
      [Entry(k, v)]
    else if d[0].key == k then
      var r := [Entry(k, v)] + d[1..];
      assert r[0].key == k;
      r
    else
      var rest := Set(d[1..], k, v);
      var i :| 0 <= i < |rest| && rest[i].key == k;
      assert ([d[0]] + rest)[i + 1].key == k;
      [d[0]] + rest
  }

  lemma {:induction false} GetSetSame(d: Data, k: string, v: Value)
    ensures Get(Set(d, k, v), k) == v
    decreases |d|
  {
    if |d| > 0 && d[0].key != k {
      GetSetSame(d[1..], k, v);
    }
  }

  lemma {:induction false} GetSetOther(d: Data, k: string, v: Value, k2: string)
    requires k2 != k
    ensures Get(Set(d, k, v), k2) == Get(d, k2)
    decreases |d|
  {
    if |d| > 0 && d[0].key != k {
      GetSetOther(d[1..], k, v, k2);
    }
  }

  /** A piece of text with the marks (bold, italic, ...) applying to it; the
      marks form a set kept in insertion order. */
  datatype Leaf = Leaf(text: string, marks: seq<string>)

  /** A Slate node. `kind` is Slate's `type`; documents and texts have none. */
  datatype Node =
    | Document(data: Data, nodes: seq<Node>)
    | Block(kind: string, data: Data, isVoid: bool, nodes: seq<Node>)
    | Inline(kind: string, data: Data, isVoid: bool, nodes: seq<Node>)
    | Text(leaves: seq<Leaf>)

  /** Slate's `node.object`. */
  function ObjectOf(n: Node): string {
    match n
    case Document(_, _) => "document"
    case Block(_, _, _, _) => "block"
    case Inline(_, _, _, _) => "inline"
    case Text(_) => "text"
  }

  /** Slate's `node.type`, absent on documents and texts. */
  function TypeOf(n: Node): Option<string> {
    if n.Block? || n.Inline? then Some(n.kind) else None
  }

  function Children(n: Node): seq<Node> {
    if n.Text? then [] else n.nodes
  }

  function LeavesText(ls: seq<Leaf>): string {
    if |ls| == 0 then "" else ls[0].text + LeavesText(ls[1..])
  }

  /** Slate's `node.text`: the text of all descendants, in order. */
  function TextOf(n: Node): string
    decreases n, 1
  {
    if n.Text? then LeavesText(n.leaves) else NodesText(n.nodes)
  }

  function NodesText(ns: seq<Node>): string
    decreases ns, 0
  {
    if |ns| == 0 then "" else TextOf(ns[0]) + NodesText(ns[1..])
  }

  /** `Text.create({ text, marks })` */
  function TextNode(text: string, marks: seq<string>): Node {
    Text([Leaf(text, marks)])
  }

  /** `Text.create()`: one empty leaf. */
  const EmptyText: Node := Text([Leaf("", [])])

  /** `Block.create({ type, nodes })` */
  function NewBlock(kind: string, nodes: seq<Node>): Node {
    Block(kind, [], false, nodes)
  }

  // Block types.
  const TEXT := "unstyled"
  const CODE := "code_block"
  const CODE_LINE := "code_line"
  const BLOCKQUOTE := "blockquote"
  const PARAGRAPH := "paragraph"
  const FOOTNOTE := "footnote"
  const HTML := "html_block"
  const HR := "hr"
  const HEADING_1 := "header_one"
  const HEADING_2 := "header_two"
  const HEADING_3 := "header_three"
  const HEADING_4 := "header_four"
  const HEADING_5 := "header_five"
  const HEADING_6 := "header_six"
  const TABLE := "table"
  const TABLE_ROW := "table_row"
  const TABLE_CELL := "table_cell"
  const OL_LIST := "ordered_list"
  const UL_LIST := "unordered_list"
  const LIST_ITEM := "list_item"
  const COMMENT := "comment"
  const MATH := "math_block"

  /** `Object.values(BLOCKS)`: every block type, with the default
      (`paragraph`) listed a second time at the end. */
  const ALL_BLOCKS: seq<string> := [TEXT, CODE, CODE_LINE, BLOCKQUOTE, PARAGRAPH, FOOTNOTE, HTML, HR,
    HEADING_1, HEADING_2, HEADING_3, HEADING_4, HEADING_5, HEADING_6, TABLE, TABLE_ROW, TABLE_CELL,
    OL_LIST, UL_LIST, LIST_ITEM, COMMENT, MATH, PARAGRAPH]

  // Inline types.
  const LINK := "link"
  const IMAGE := "image"

  // Mark types.
  const BOLD := "BOLD"
  const ITALIC := "ITALIC"
  const CODE_MARK := "CODE"
  const STRIKETHROUGH := "STRIKETHROUGH"

  /** `CONTAINERS[key]`: the block types a container accepts, its default first. */
  function Containers(key: string): (r: Option<seq<string>>)
    ensures r.Some? ==> |r.value| > 0
  {
    if key == "document" then Some([PARAGRAPH] + ALL_BLOCKS)
    else if key == BLOCKQUOTE then Some([TEXT] + ALL_BLOCKS)
    else if key == TABLE then Some([TABLE_ROW])
    else if key == TABLE_ROW then Some([TABLE_CELL])
    else if key == TABLE_CELL then Some([PARAGRAPH] + ALL_BLOCKS)
    else if key == LIST_ITEM then Some([TEXT] + ALL_BLOCKS)
    else if key == OL_LIST then Some([LIST_ITEM])
    else if key == UL_LIST then Some([LIST_ITEM])
    else if key == CODE then Some([CODE_LINE])
    else None
  }

  /** `LEAFS[type]`: the blocks that hold inline and text children. */
  predicate IsLeafType(t: Option<string>) {
    t == Some(PARAGRAPH) || t == Some(TEXT) || t == Some(TABLE_CELL) || t == Some(CODE_LINE)
  }

  /** `VOID[type]` */
  predicate IsVoidType(t: string) {
    t == HR || t == HTML || t == COMMENT || t == IMAGE
  }
}
