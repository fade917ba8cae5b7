# markup-it core, modelled in Dafny

This project models the conversion engine of markup-it. The engine turns
Markdown or HTML text into a Slate document and prints a document back as
text. The project then proves properties of that model. It has three layers:

- **The parse/print state and its drivers** (`ParseState`, `RuleFunctions`,
  `Serializers`). `State` is an immutable record: a text buffer, a node list,
  a frame stack, the active marks, the active rule set ("object"), a depth and
  a prop bag. `lex` consumes text by trying the rules of the active set in
  order. When no rule matches, it moves one character into the pending text.
  `_serialize` prints nodes until none is left. Rules are built from a small
  combinator algebra: `then`, `filter`, `use`, `tap`, `matchType`, `matchMark`,
  `transformLeaves`, `transformMarkedLeaf` and `transformText`.
- **The HTML tree builder** (`HtmlParse`). It repairs containment while it
  builds a document from tokenizer events.
- **The Markdown grammar pieces.** Each has its own module:
  - `Tables`: cell splitting, alignments, rows;
  - `Lists`: item looseness, checkboxes, item printing;
  - `Headings`: anchors and leaf trimming;
  - `Paragraphs`: whitespace collapsing;
  - `CodeBlocks`: fences, or the indented form;
  - `InlineCode`: the backtick separator;
  - `MarkdownUtils`: `wrapInline`, `resolveRef`, `escapeURL`, `escape`;
  - `Escapes`: replacement tables;
  - `LiquidTags`: template tags;
  - `HtmlTags`: HTML tags with attributes;
  - `CustomBlocks`: custom `{% tag %}…{% endtag %}` blocks and unending tags.

Some inputs become parameters, because the engine gets them from code outside
this model:
- regular-expression matches become `Option` match records;
- entity codecs become string functions;
- the HTML tokenizer becomes a sequence of events;
- `Number(key) >= 0` becomes a predicate;
- nested `lex`/`serialize` passes become `Lexer`/`Printer` functions.

A lexer or printer built from a rule table has a fuel bound. `ParseState.LexerOf`
and `ParseState.PrinterOf` are those instances.

JavaScript strings are `seq<char>`. JavaScript whitespace (`trim`, `\s`) is
`JsString.IsJsSpace`. Immutable `Map`s (node data, props) are ordered
association lists (`Schema.Data`). Immutable `Set`s of marks are
duplicate-free sequences in insertion order.

The custom-block rule is modelled from the built bundle `lib/index.js`
(lines 3260-3429); the `src/` file it is built from is not part of this
model. Everything else is modelled from `src/`.

## Model

| member | source | states |
|---|---|---|
| `ParseState.GetPropAfterSetProp` | src/models/state.js:63-81 | `getProp` after `setProp` returns the value set, leaves other keys as they were, and changes nothing but the props |
| `ParseState.PushAppends` | src/models/state.js:144-154 | `push` appends one node, or concatenates a list, after the existing nodes in order, and changes nothing else |
| `ParseState.PeekShiftUnshift` | src/models/state.js:110-135 | `peek` returns the node `unshift` put first, `shift` removes exactly that node, and shift lowers the count by one |
| `ParseState.WriteSkip` | src/models/state.js:89-93 | after `write(w)`, skipping the old text leaves exactly `w`; `skip(n)` drops exactly the first `n` characters and nothing else changes |
| `ParseState.UpAfterDown` | src/models/state.js:206-233 | `up` after `down` restores nodes, text, object, depth and stack; props and marks are untouched |
| `ParseState.FirstResultSpec` | src/models/state.js:306-317 | `applyRules` returns a state iff some rule with a step for the phase succeeds; it is the first such rule's result, and all earlier rules declined |
| `ParseState.LexEmptyBuffer` | src/models/state.js:262-271 | on an empty buffer `lex` returns the state with the trimmed pending text pushed as one text node, or the state itself when nothing is pending |
| `ParseState.LexStep` | src/models/state.js:273-289 | `lex` fails when a rule returns an equal state; with no match, exactly one character moves from the buffer into the pending text |
| `ParseState.LexMatchStep` | src/models/state.js:291-299 | after a matching rule that does not stop, lexing goes on from the rule's result with the pending text cleared |
| `ParseState.LexWithoutParsers` | src/models/state.js:250-300 | with no parsing rule, the whole buffer ends up as pending text and comes out as one text node of its trimmed content |
| `ParseState.LexConsumingSucceeds` | src/models/state.js:250-300 | with rules that always consume input, `lex` never rejects a step and always returns a state |
| `ParseState.LexFlushesPendingTextTwice` | src/models/state.js:291-299 | on input `aX` (`X` matched by a rule, `a` by none), the corrected driver yields the text `a` and the marker; the driver as written pushes `a` a second time |
| `ParseState.SerializeLoop` | src/models/state.js:385-410 | `_serialize` succeeds only with an empty node list; it returns at once when there are no nodes, fails naming the node when no rule matches, and fails when a rule returns an equal state |
| `ParseState.SerializeShrinkingOnlyFailsOnUnknownNode` | src/models/state.js:385-410 | with printers that always consume a node, printing fails only for a node no rule accepts |
| `ParseState.DocumentOf` | src/models/state.js:333-351 | the document is the first parsed node, or an empty document; it never has zero children (an empty paragraph is added); a first node that is a text throws |
| `ParseState.DeserializeToDocument` | src/models/state.js:333-351 | `deserializeToDocument` never returns a document without children |
| `RuleFunctions.IdentityRuns` | src/models/rule-function.js:3-5 | the default transform returns its input |
| `RuleFunctions.ThenRuns` | src/models/rule-function.js:35-44 | `then` yields nothing when the previous step yields nothing, and otherwise applies `next` to the previous result |
| `RuleFunctions.ThenAssociative` | src/models/rule-function.js:35-44 | two `then`s in a row are one `then` of the composed step |
| `RuleFunctions.TapRuns` | src/models/rule-function.js:51-59 | `tap` returns the previous result unchanged |
| `RuleFunctions.FilterRuns` | src/models/rule-function.js:84-94 | `filter` passes iff the previous result is a state the predicate accepts, and then passes it unchanged |
| `RuleFunctions.FilterNotRuns` | src/models/rule-function.js:101-103 | `filterNot(m)` passes iff `m` yields a falsy result on the previous state, and then passes it unchanged |
| `RuleFunctions.FirstTruthySpec` | src/models/rule-function.js:66-77 | the alternatives are tried in list order; the result is the first state obtained, and there is none iff every alternative fails |
| `RuleFunctions.UseRuns` | src/models/rule-function.js:66-77 | `use` runs the alternatives on the previous result, and yields nothing when there is none |
| `Serializers.NormalizeMatcher` | src/models/serializer.js:136-147 | a string means equality, an array means membership, a function passes through, anything else is an error |
| `Serializers.MatchTypeObjectRun` | src/models/serializer.js:12-35 | `matchType`/`matchObject` pass iff the first node's type/object satisfies the matcher, and then change nothing |
| `Serializers.MatchTypeByName` | src/models/serializer.js:12-20 | a string matcher accepts exactly the first nodes of that type |
| `Serializers.MatchMarkRun` | src/models/serializer.js:43-54 | `matchMark` needs a first node that is a text with at least one leaf carrying a matching mark |
| `Serializers.TransformLeavesRun` | src/models/serializer.js:61-73 | `transformLeaves` applies to a first text node only; it replaces that node alone, by a text with as many leaves, each transformed |
| `Serializers.FirstMatching` | src/models/serializer.js:86-90 | the position of the first mark the matcher accepts, or none when no mark matches |
| `Serializers.RemoveMark` | src/models/serializer.js:92 | deleting a mark removes it and only it, and keeps a set without it unchanged |
| `Serializers.MarkedLeaf` | src/models/serializer.js:81-95 | a leaf with a matching mark gets its text transformed and loses that mark, keeping the others; a leaf without one is unchanged |
| `Serializers.TransformMarkedLeafRun` | src/models/serializer.js:81-95 | `transformMarkedLeaf` needs a first node with a marked leaf, keeps the leaf count, and transforms each leaf as above |
| `Serializers.AddMark` | src/models/serializer.js:117-123 | adding the private mark keeps the text and makes the mark present |
| `Serializers.TransformTextMarks` | src/models/serializer.js:102-126 | every leaf `transformText` writes carries its private mark |
| `Serializers.TransformTextOnce` | src/models/serializer.js:102-126 | `transformText` rejects empty text and text already carrying its private mark, so applying it to its own result fails |
| `HtmlParse.TagData` | src/html/parse.js:47-66 | links and images carry `href`/`src` and a `title` taken from `alt` (or empty); headings carry an `id` iff a non-empty one was given; other tags carry no data |
| `HtmlParse.HeadingAttrs` | src/html/parse.js:68-75 | a heading's data has an `id` exactly when the attributes hold a non-empty one, and then it is that id |
| `HtmlParse.ClassMarks` | src/html/parse.js:94-111 | the only class that gives a mark is `line-through`, which gives the strikethrough mark |
| `HtmlParse.UnionMarks` | src/html/parse.js:309-311 | the marks after an opening tag are the old marks and the class marks together |
| `HtmlParse.DropMark` | src/html/parse.js:346-349 | closing a mark tag removes that mark type and keeps every other mark |
| `HtmlParse.SelectInlines` | src/html/parse.js:77-87 | `selectInlines` returns no block |
| `HtmlParse.SelectInlinesKeepsText` | src/html/parse.js:77-87 | flattening a node keeps all of its text, in document order |
| `HtmlParse.SelectInlinesOfInline` | src/html/parse.js:77-87 | an inline or a text is its own flattening |
| `HtmlParse.AcceptedBlocks` | src/html/parse.js:116-121 | the accepted block types of a container, looked up by type or else by object, are never an empty list |
| `HtmlParse.DefaultBlockType` | src/html/parse.js:130-132 | the default block type of a container is one of its accepted types (the first) |
| `HtmlParse.CanContainSpec` | src/html/parse.js:137-143 | inlines and texts are accepted exactly by the leaf block types; a block exactly when its type is in the container's accepted list |
| `HtmlParse.DefaultWrapperAccepted` | src/html/parse.js:220-227 | the default wrapper of a container is a block the container accepts; a text contains nothing |
| `HtmlParse.SetNode` | src/html/parse.js:189-191 | `setNode` replaces the top of the stack and keeps the rest |
| `HtmlParse.AppendNode` | src/html/parse.js:199-234 | `appendNode` fails only on an empty stack or a text on top; otherwise it keeps the stack size and replaces only the top, by the parent with the appended children |
| `HtmlParse.AppendBlockToNonContainer` | src/html/parse.js:203-207 | a block appended to a non-container contributes its flattened inlines instead |
| `HtmlParse.AppendDisallowedToContainer` | src/html/parse.js:209-228 | a node the container does not accept goes into the last child if that child can hold it, and otherwise into a new default wrapper |
| `HtmlParse.AppendKeepsPlacement` | src/html/parse.js:199-234 | appending keeps every child of the parent well placed, whatever is appended |
| `HtmlParse.AppendKeepsText` | src/html/parse.js:199-234 | appending never loses or reorders text: the parent's text grows by exactly the appended node's text |
| `HtmlParse.PushNode` | src/html/parse.js:242-244 | `pushNode` puts the node on top and keeps the rest |
| `HtmlParse.PushKeepsInvariant` | src/html/parse.js:242-244 | pushing a fresh childless element keeps the stack invariant |
| `HtmlParse.StepKeepsInvariant` | src/html/parse.js:272-356 | one tokenizer event keeps the stack invariant |
| `HtmlParse.AppendIntoPreviousKeepsText` | src/html/parse.js:210-216 | moving a node into the previous sibling keeps the text of the level, the node's text last |
| `HtmlParse.NamesToMarks` | src/html/parse.js:94-110 | a class list yields only the strikethrough mark, exactly when `line-through` is among its names |
| `HtmlParse.PopNode` | src/html/parse.js:251-253 | `popNode` lowers the stack size by one and fails only when fewer than two nodes are on it |
| `HtmlParse.PushPop` | src/html/parse.js:242-253 | a push then a pop is the same as appending the node to the former top |
| `HtmlParse.LineSeparator` | src/html/parse.js:179-181 | the separator is `\r\n` when that is the more frequent line ending, else `\n` |
| `HtmlParse.CodeLinesJoin` | src/html/parse.js:326-330 | joining the code lines gives back the text, except for a dropped blank last line |
| `HtmlParse.SplitCodeBlock` | src/html/parse.js:325-343 | closing a code block rebuilds it as one code line per line, keeping its type |
| `HtmlParse.SplitCodeBlockPlaced` | src/html/parse.js:325-343 | a split code block holds only code lines, which it accepts |
| `HtmlParse.SanitizeSpaces` | src/html/parse.js:152-154 | every non-breaking space becomes a space, and nothing else changes |
| `HtmlParse.Parse` | src/html/parse.js:260-368 | the callback loop, which reassigns the stack and the marks event by event, computes exactly the step function over the events and then the final stack check |
| `HtmlParse.AppendNodeKeepsInvariant` | src/html/parse.js:199-234 | appending to a stack with the document at the bottom and no text on it succeeds and keeps that invariant |
| `HtmlParse.OpenKeepsInvariant` | src/html/parse.js:274-312 | an opening tag keeps the stack invariant |
| `HtmlParse.CloseKeepsInvariant` | src/html/parse.js:320-351 | a closing tag keeps the stack invariant |
| `HtmlParse.StepsKeepInvariant` | src/html/parse.js:272-356 | every sequence of events keeps the stack invariant |
| `HtmlParse.ParseYieldsDocument` | src/html/parse.js:361-367 | a parse that succeeds yields a document whose children are all blocks of types a document accepts |
| `HtmlParse.TextAtRootIsWrapped` | src/html/parse.js:314-318 | text outside any element lands in a paragraph of the document |
| `HtmlParse.UnclosedElementFails` | src/html/parse.js:361-365 | an event sequence that leaves an element open fails the final stack check |
| `Tables.NextSeparator` | src/markdown/blocks/table.js:147-152 | the first unescaped pipe at or after a position, or none when there is no such pipe |
| `Tables.RowToCells` | src/markdown/blocks/table.js:142-166 | the scan of the trimmed row computes exactly the reference cell list `CellsOf` |
| `Tables.SplitCells` | src/markdown/blocks/table.js:146-165 | the loop over the trimmed row, updating `lastSep` and pushing cells, computes exactly `CellsOf` |
| `Tables.SeparatorStep` | src/markdown/blocks/table.js:152-158 | at an unescaped pipe the loop closes the piece begun at `lastSep`, except at position 0, and moves `lastSep` past the pipe |
| `Tables.LastCell` | src/markdown/blocks/table.js:161-163 | after the loop, text after the last separator is the final cell |
| `Tables.OtherStep` | src/markdown/blocks/table.js:148-159 | a character that is not an unescaped pipe leaves the cells and `lastSep` as they are |
| `Tables.JoinPieces` | src/markdown/blocks/table.js:142-166 | putting pipes back between the pieces gives back the row |
| `Tables.PiecesKeepEscapedPipes` | src/markdown/blocks/table.js:149-152 | every pipe inside a piece is escaped by a backslash |
| `Tables.CellsKeepEscapedPipes` | src/markdown/blocks/table.js:142-166 | an escaped `\|` stays inside its cell: cells hold only escaped pipes |
| `Tables.CellsWithoutSeparator` | src/markdown/blocks/table.js:161-163 | a non-empty row without separator is one cell |
| `Tables.LeadingPipeGivesNoEmptyCell` | src/markdown/blocks/table.js:154-157 | a leading pipe yields no empty first cell; the cells are the pieces after it, without an empty last piece |
| `Tables.AlignPatternsDisjoint` | src/markdown/blocks/table.js:174-185 | the right, center and left patterns never overlap, so the test order decides nothing |
| `Tables.AlignsToText` | src/markdown/blocks/table.js:227-240 | the alignment row starts and ends with a pipe |
| `Tables.AlignOfSegment` | src/markdown/blocks/table.js:229-238 | each printed segment reads back as its alignment; a value other than the three names reads back as null |
| `Tables.AlignSegmentsTerminated` | src/markdown/blocks/table.js:228-239 | the row is `|` and exactly one segment, each followed by `|`, per column |
| `Tables.AlignsRoundTrip` | src/markdown/blocks/table.js:174-240 | printing alignments and reading them back with `rowToCells` and `mapAligns` gives them back |
| `Tables.AlignsTextCells` | src/markdown/blocks/table.js:227-240 | the alignment row splits into exactly its segments |
| `Tables.AlignsValueRoundTrip` | src/markdown/blocks/table.js:98 | the alignments stored in the table data read back unchanged |
| `Tables.ArrayEntryAligns` | src/markdown/blocks/table.js:230-234 | the loose `==` of the alignment test: an entry `["right"]` prints as a right alignment |
| `Tables.ParseCells` | src/markdown/blocks/table.js:115-128 | one paragraph cell per cell text, in order |
| `Tables.ParseCellsOk` | src/markdown/blocks/table.js:115-128 | the cells of a row parse exactly when every cell does |
| `Tables.ParseCellsContent` | src/markdown/blocks/table.js:115-128 | each cell is one paragraph holding the inlines its own trimmed text parses to |
| `Tables.ParseRow` | src/markdown/blocks/table.js:110-134 | a row is a table row with one paragraph cell per cell of the row text |
| `Tables.ParseRows` | src/markdown/blocks/table.js:90 | the body rows, each parsed in order |
| `Tables.ParseTable` | src/markdown/blocks/table.js:85-101 | the header row comes first, then the body rows in order; the alignments come from the second line |
| `Tables.NonEmptyLines` | src/markdown/blocks/table.js:15 | the kept lines are exactly the non-empty lines of the match |
| `Tables.TableFromLines` | src/markdown/blocks/table.js:13-22 | fewer than two lines is an error; otherwise the parsed table is pushed after the existing nodes |
| `Tables.CellsToText` | src/markdown/blocks/table.js:196 | the cells print exactly when each does, one text per cell |
| `Tables.RowToText` | src/markdown/blocks/table.js:194-197 | a row prints as `| c1 | c2 |` from its cells' texts |
| `Tables.RowsToText` | src/markdown/blocks/table.js:70 | the body rows, each printed in order |
| `Tables.SimpleRowsNeedNoHtml` | src/markdown/blocks/table.js:248-261 | rows whose cells each hold one paragraph, with nothing cell-like below, do not force HTML |
| `Tables.ParsedTableNeedsNoHtml` | src/markdown/blocks/table.js:248-261 | a table parsed from markdown prints as markdown when the inline rules produced no table cells |
| `Tables.ListInCellNeedsHtml` | src/markdown/blocks/table.js:249-256 | a cell with a block beside its paragraph forces HTML output |
| `Tables.SerializeTable` | src/markdown/blocks/table.js:47-73 | the printer declines a first node that is not a table; a table that must be HTML prints as HTML; otherwise header row, alignment row and body rows, then a blank line |
| `Lists.ExtractItems` | src/markdown/blocks/list.js:49-58 | the do-while loop collects exactly the items `ItemsFrom` describes |
| `Lists.RawSlicesTile` | src/markdown/blocks/list.js:53-54 | the raw item slices are consecutive pieces of the list text, ending where the item pattern finds nothing more |
| `Lists.BulletPrefix` | src/markdown/blocks/list.js:69 | the bullet and its spaces end with a space and are followed by a non-space |
| `Lists.StripBullet` | src/markdown/blocks/list.js:69 | removing the bullet leaves a suffix of the item text |
| `Lists.Checkbox` | src/markdown/blocks/list.js:72-74 | a checkbox is `[x] ` or `[ ] ` at the start, ticked exactly for `x`, and its match takes all following spaces |
| `Lists.PrepareItem` | src/markdown/blocks/list.js:67-87 | the checked flag comes from the checkbox; a text with no `\n ` is not outdented; the outdent fails only when nothing was stripped (a zero-width outdent pattern) |
| `Lists.ItemData` | src/markdown/blocks/list.js:63-76 | the item data has `checked` exactly when a checkbox was read, holding whether it was ticked |
| `Lists.TickedItem` | src/markdown/blocks/list.js:67-77 | `* [x] done` is item text `done`, checked |
| `Lists.UntickedItem` | src/markdown/blocks/list.js:67-77 | `- [ ] to do` is item text `to do`, not checked |
| `Lists.PlainNumberedItem` | src/markdown/blocks/list.js:67-77 | `12. plain` is item text `plain` without checkbox data |
| `Lists.Looseness` | src/markdown/blocks/list.js:92-96 | an item is loose exactly when the previous item ended in a newline, it holds a blank line not at its end, or it ends in a newline and is not last |
| `Lists.TrailingNewlineLoosensBoth` | src/markdown/blocks/list.js:93-96 | a non-last item ending with a newline makes itself and the next item loose |
| `Lists.OneLineItemsAreTight` | src/markdown/blocks/list.js:92-96 | items of one line each make a tight list |
| `Lists.DeserializeList` | src/markdown/blocks/list.js:29-115 | the item loop, tracking `next`, computes exactly `ListDeserialized` |
| `Lists.ListDeserializedOf` | src/markdown/blocks/list.js:109-114 | the result pushes one list block of the parsed items, or is the first item's error |
| `Lists.NodesFromStep` | src/markdown/blocks/list.js:60-107 | one turn of the item loop appends the item block and updates `next` only for a non-last item |
| `Lists.NodesFromFails` | src/markdown/blocks/list.js:98-104 | an item whose contents fail to parse ends the loop with that error |
| `Lists.NodesFromLooseness` | src/markdown/blocks/list.js:92-104 | when every item prepares, the loop parses item `i` loose exactly when `Looseness` says |
| `Lists.TrimTrailingLines` | src/markdown/blocks/list.js:144 | the result is a prefix without a final newline, and everything removed is newlines; the indented code reader uses it for the same `/\n+$/` |
| `Lists.IndentJoined` | src/markdown/blocks/list.js:146 | indenting lines joined by newlines indents each non-blank line and keeps blank ones |
| `Lists.ListItemText` | src/markdown/blocks/list.js:126-158 | an item fails exactly when it is a text node or its children do not print |
| `Lists.ListItemTextSpec` | src/markdown/blocks/list.js:126-158 | a printed item starts with bullet, space and checkbox; when its body prints anything it ends with a newline, and with a blank line exactly when the item holds a paragraph or is the last; with an empty body it is the prefix and one newline exactly then |
| `Lists.ItemBodyOfLines` | src/markdown/blocks/list.js:142-146 | the body's first line stays, later non-blank lines are indented by the bullet width plus one, and one newline ends it |
| `Lists.ItemBodyEnd` | src/markdown/blocks/list.js:144-146 | the body ends with exactly one newline, or is empty |
| `Lists.IndentKeepsEnd` | src/markdown/blocks/list.js:146 | indenting keeps the text's final line terminator and the character before it |
| `Lists.BulletReadBack` | src/markdown/blocks/list.js:31-34 | the bullet the printer writes (list.js:138) reads back: it gives the list its own type, and the bullet pattern takes exactly the bullet and its space |
| `Lists.CheckboxReadBack` | src/markdown/blocks/list.js:72-74 | the checkbox the printer writes (list.js:153-155) reads back, ticked exactly when `checked` is truthy, and is stripped leaving the rest |
| `Lists.ItemsText` | src/markdown/blocks/list.js:16-18 | the items print exactly when every item is a node with children that the block printer accepts |
| `Lists.SerializeList` | src/markdown/blocks/list.js:10-21 | a first node that is not a list is declined; a list is shifted and replaced by its items' text |
| `Lists.DeserializeListWith` | src/markdown/blocks/list.js:27-116 | with the block rules, the result adds exactly one node, a list of the bullet's type, after the existing ones |
| `Headings.LevelOf` | src/markdown/blocks/heading.js:26 | a heading type's level is its position among the six types plus one, and names that type back |
| `Headings.HeadingLevelRoundTrip` | src/markdown/blocks/heading.js:7-14 | the six heading types are distinct, so level to type to level is the identity |
| `Headings.PrefixHashes` | src/markdown/blocks/heading.js:27 | `Array(depth + 2).join('#')` is exactly `level` characters `#` |
| `Headings.HeadingTextShape` | src/markdown/blocks/heading.js:22-34 | printing fails only with the inline printer or a non-string truthy id; the text is `level` hashes, a space, the inner text, the anchor exactly when the id is truthy, and a blank line |
| `Headings.SerializeHeading` | src/markdown/blocks/heading.js:20-35 | a first node whose type is not a heading type, block or inline, is declined; a heading is shifted and replaced by its text |
| `Headings.LeavesOf` | src/markdown/blocks/heading.js:80 | the leaves of a text are never empty and have the same text |
| `Headings.TrimLeftNodesShape` | src/markdown/blocks/heading.js:69-92 | left trimming keeps every node after the first, and keeps lists that are empty or start with a non-text |
| `Headings.TrimLeftNodesText` | src/markdown/blocks/heading.js:69-92 | left trimming removes only whitespace, and only from the front |
| `Headings.TrimRightNodesShape` | src/markdown/blocks/heading.js:99-122 | right trimming keeps every node before the last, and keeps lists that are empty or end with a non-text |
| `Headings.TrimRightNodesText` | src/markdown/blocks/heading.js:99-122 | right trimming removes only whitespace, and only from the end |
| `Headings.TrimLeftIdempotent` | src/markdown/blocks/heading.js:69-92 | trimming the left twice is trimming it once |
| `Headings.TrimRightIdempotent` | src/markdown/blocks/heading.js:99-122 | trimming the right twice is trimming it once |
| `Headings.ChosenId` | src/markdown/blocks/heading.js:150-153 | the kept id is always truthy |
| `Headings.ParseHeadingTextOk` | src/markdown/blocks/heading.js:131-172 | parsing fails exactly when lexing the title fails or there is no level to go up to |
| `Headings.ParsedHeading` | src/markdown/blocks/heading.js:144-171 | the result is the state one level up, with the last anchor reset, and the heading node pushed |
| `Headings.ParseHeadingTextNodes` | src/markdown/blocks/heading.js:156-170 | the nodes are the saved outer nodes plus one heading of the requested level holding the trimmed inline nodes |
| `Headings.ParseHeadingTextId` | src/markdown/blocks/heading.js:150-169 | the id is the explicit one when non-empty, else the last anchor when truthy, else absent; the last anchor becomes null |
| `Headings.ParsedHeadingPrintsLevel` | src/markdown/blocks/heading.js:20-172 | a parsed heading prints back with the number of `#` of its level |
| `Headings.HeadingNodeData` | src/markdown/blocks/heading.js:152-163 | the heading data holds the chosen id, or no id at all |
| `Headings.LineLevel` | src/markdown/blocks/heading.js:57 | an `=` underline is level one, any other level two |
| `Headings.DeserializeMatch` | src/markdown/blocks/heading.js:42-60 | no match declines; a match is skipped and its title parsed at its level |
| `Headings.DeserializeHeading` | src/markdown/blocks/heading.js:62 | the `#` form is tried first, the underlined form only when it does not match |
| `Paragraphs.CollapseSpacesSpec` | src/markdown/blocks/paragraph.js:65 | replacing whitespace runs leaves single spaces and keeps every non-whitespace character |
| `Paragraphs.CollapseSpacesEnds` | src/markdown/blocks/paragraph.js:65 | collapsing starts and ends with whitespace exactly when the input does |
| `Paragraphs.CollapseWhiteSpacesSpec` | src/markdown/blocks/paragraph.js:60-70 | the result has no whitespace at either end, spaces and newlines only as single spaces or hard breaks, and every non-whitespace character of the input in order |
| `Paragraphs.NonSpaceJoin` | src/markdown/blocks/paragraph.js:67 | joining by hard breaks keeps the non-whitespace characters of the parts |
| `Paragraphs.SplitAroundBreak` | src/markdown/blocks/paragraph.js:64 | two lines around one hard break split into those two lines |
| `Paragraphs.HardBreakKept` | src/markdown/blocks/paragraph.js:60-70 | a hard break between two clean lines is kept as it is |
| `Paragraphs.PrintState` | src/markdown/blocks/paragraph.js:14-17 | the children print with the inline rules and hard breaks allowed, nothing else changed |
| `Paragraphs.SerializeParagraph` | src/markdown/blocks/paragraph.js:10-20 | a first node that is not a paragraph is declined; a paragraph prints as its inline text and a blank line, failing exactly when its children fail |
| `Paragraphs.DeserializeParagraph` | src/markdown/blocks/paragraph.js:26-35 | no match, or a paragraph outside the top level, a blockquote or a loose list, declines |
| `Paragraphs.DeserializeParagraphSpec` | src/markdown/blocks/paragraph.js:38-52 | an allowed paragraph lexes collapsed text with the body's non-whitespace characters and pushes one paragraph of the lexed nodes after the saved ones |
| `MarkdownUtils.MarkdownTableIsCharTable` | src/markdown/utils.js:8-22 | the markdown table maps distinct single characters, and no key occurs in another entry's value except as its own |
| `MarkdownUtils.MarkdownTableEntries` | src/markdown/utils.js:8-22 | the table's entries are exactly the characters `MarkdownEscapeChar` changes, with its values |
| `MarkdownUtils.EscapeSpec` | src/markdown/utils.js:43-46 | with `escapeXML === false`, escaping replaces each character on its own: `<` and `>` by entities, the nine markdown characters by a backslash before them, nothing else |
| `MarkdownUtils.UrlTableEntries` | src/markdown/utils.js:33 | the URL table's entries are exactly the characters `UrlEscapeChar` changes |
| `MarkdownUtils.EscapeURLSpec` | src/markdown/utils.js:65-67 | `escapeURL` replaces space, `(` and `)` by `%20`, `%28` and `%29` and changes nothing else |
| `MarkdownUtils.WrapInlineBlank` | src/markdown/utils.js:135-139 | a text of whitespace only is followed by both wrappers |
| `MarkdownUtils.WrapInlineText` | src/markdown/utils.js:135-139 | any other text keeps its leading and trailing whitespace outside the wrappers, around the trimmed text |
| `MarkdownUtils.TrimSplit` | src/markdown/utils.js:137-138 | a text is its leading whitespace, its trimmed content and its trailing whitespace |
| `MarkdownUtils.TruthyEntries` | src/markdown/utils.js:126 | the kept fields are exactly the truthy ones |
| `MarkdownUtils.AsciiLowerFolds` | src/markdown/utils.js:119 | the ASCII part of `toLowerCase` lower-cases idempotently and keeps single spacing, as the reference lemmas require of the `lower` parameter |
| `MarkdownUtils.NormalizeRefIdempotent` | src/markdown/utils.js:119 | for any lower-casing that is idempotent and keeps single spacing, a normalized reference id is its own normal form |
| `MarkdownUtils.ResolveRefNormalized` | src/markdown/utils.js:116-127 | for such a lower-casing, a reference resolves as its normal form does: whatever its case and however its whitespace runs are written |
| `MarkdownUtils.ResolveRefSpec` | src/markdown/utils.js:116-127 | looking the id up with its whitespace runs collapsed and lower-cased by `lower`: fails when `refs` is not a map or the entry not an object; undefined exactly when no truthy entry; otherwise the entry's truthy fields |
| `Escapes.PutNew` | src/markdown/utils.js:24-27 | merging a key that is not in the map appends it at the end of the order |
| `Escapes.FlipDistinct` | src/utils/escape.js:27-29 | flipping a map with distinct values turns every entry round and keeps the order |
| `Escapes.EscapeWithAbsent` | src/utils/escape.js:14-19 | with no keys, or keys absent from the text, the text is unchanged |
| `Escapes.EscapeWithAppend` | src/utils/escape.js:14-19 | the reduce applies the entries one after another, in map order |
| `Escapes.ReplaceCharConcat` | src/utils/escape.js:14-19 | replacing every occurrence of one character distributes over concatenation |
| `Escapes.EscapeCharwise` | src/utils/escape.js:14-19 | with a table of one-character keys none of whose values holds another key, each character is replaced on its own, and no replacement is replaced again |
| `CodeBlocks.CodeLinesText` | src/utils/deserializeCodeLines.js:10-19 | the code lines of a text hold its lines, in order |
| `CodeBlocks.BlankTrim` | src/markdown/blocks/code.js:38 | `!text.trim()` holds exactly for blank lines |
| `CodeBlocks.CodeTextChoice` | src/markdown/blocks/code.js:16-45 | a non-string truthy syntax fails; with the escaped syntax, the fenced form is used exactly when the text has no backtick or the syntax is not empty, the indented form otherwise |
| `CodeBlocks.SerializeCode` | src/markdown/blocks/code.js:13-46 | a first node whose type is not the code type is declined; a code block is shifted and replaced by its text |
| `CodeBlocks.DropTrailingNewlinesAfter` | src/markdown/blocks/code.js:92 | the blank line after a block is removed and nothing else |
| `CodeBlocks.FenceData` | src/markdown/blocks/code.js:59-64 | the block has data exactly when a non-empty language was given |
| `CodeBlocks.DeserializeFences` | src/markdown/blocks/code.js:52-77 | a match is skipped and one code block of the trimmed body's lines pushed |
| `CodeBlocks.DeserializeTabs` | src/markdown/blocks/code.js:83-104 | a match is skipped and one code block of the outdented text pushed |
| `CodeBlocks.DeserializeCode` | src/markdown/blocks/code.js:106 | fences are tried first, the indented form when they do not match |
| `CodeBlocks.StripIndentLine` | src/markdown/blocks/code.js:89 | an indented line and its newline lose exactly the four-space indent |
| `CodeBlocks.StripIndentTerminated` | src/markdown/blocks/code.js:89 | outdenting printed indented lines gives the lines back, blank ones emptied |
| `CodeBlocks.SplitLinesJoin` | src/utils/deserializeCodeLines.js:11 | splitting lines undoes joining one-line texts by newlines |
| `CodeBlocks.IndentedRoundTrip` | src/markdown/blocks/code.js:36-43 | the indented form read back gives every line in order, blank ones emptied, when the last line is not blank |
| `CodeBlocks.TrimNewlinesAround` | src/markdown/blocks/code.js:56 | `trim-newlines` removes exactly the newlines around a text that neither starts nor ends with one |
| `CodeBlocks.FencedRoundTrip` | src/markdown/blocks/code.js:31 | the fenced body read back gives every line in order, whatever newlines surround it, when the first and last line are not empty |
| `CodeBlocks.IndentedBlockRoundTrip` | src/markdown/blocks/code.js:83-104 | a block printed indented and read back as an indented match holds the same lines, blank ones emptied |
| `CodeBlocks.FencedBlockRoundTrip` | src/markdown/blocks/code.js:52-77 | a block printed fenced and read back from a fence match holds the same lines |
| `InlineCode.SeparatorFrom` | src/markdown/inlines/code.js:12-17 | the search ends at a run the text does not contain, and every run it passes is contained |
| `InlineCode.SeparatorShortest` | src/markdown/inlines/code.js:12-17 | the separator is the shortest backtick run the text does not contain, at most one longer than the text |
| `InlineCode.SeparatorWithoutBacktick` | src/markdown/inlines/code.js:12-17 | a text without a backtick gets a single backtick |
| `InlineCode.FindSeparator` | src/markdown/inlines/code.js:12-17 | the loop returns the shortest backtick run not contained in the text |
| `InlineCode.CodeLeafTextSpec` | src/markdown/inlines/code.js:19 | a non-blank code text prints as leading space, separator, trimmed text, separator, trailing space; a blank one as itself and two separators |
| `InlineCode.SerializeInlineCodeRun` | src/markdown/inlines/code.js:9-21 | the printer declines a first node without code-marked leaf; otherwise every code leaf is wrapped in its separator and loses the code mark, other leaves unchanged |
| `InlineCode.CodeMarks` | src/markdown/inlines/code.js:33 | the code mark comes first, then the active marks, each once |
| `InlineCode.DeserializeInlineCode` | src/markdown/inlines/code.js:27-36 | a match is skipped and one text of the code, marked as code and with the active marks, pushed |
| `LiquidTags.TableIsCharTable` | src/markdown/liquid/escape.js:5-18 | the liquid table maps distinct single characters, the backslash first |
| `LiquidTags.TableEntries` | src/markdown/liquid/escape.js:5-18 | the table's entries are exactly the special characters, each mapped to a backslash before it |
| `LiquidTags.EscapeSpec` | src/markdown/liquid/escape.js:20 | escaping puts a backslash before every special character, the backslash included, and changes nothing else |
| `LiquidTags.EscapeRoundTrip` | src/markdown/liquid/escape.js:20 | reading the backslashes back gives the text again: nothing escaping writes is lost |
| `LiquidTags.EscapeQuotes` | src/markdown/liquid/escape.js:20 | every double quote of an escaped text has a backslash before it |
| `LiquidTags.StringifyLiteralSpec` | src/markdown/liquid/stringifyTag.js:9-17 | a boolean prints as `true` or `false`; a string between double quotes its escaped text cannot close, and that reads back as the string; anything else as `String(value)` |
| `LiquidTags.StringifyTagRoundTrip` | src/markdown/liquid/stringifyTag.js:48-52 | a printed tag is framed by `{% ` and ` %}`, and splitting what is between at spaces gives back the tag and then the arguments in entry order, when none of them holds a space |
| `LiquidTags.StringifyDataSplit` | src/markdown/liquid/stringifyTag.js:24-38 | when no argument holds a space, splitting the argument list at spaces gives the arguments back |
| `HtmlTags.AttrsFromSpec` | src/html/serializeTag.js:38-49 | the reduce appends the printed attributes to its start value, and fails exactly when a value is neither a string, undefined nor null |
| `HtmlTags.AttrsTextAbsent` | src/html/serializeTag.js:42-43 | attributes that are undefined or null print nothing |
| `HtmlTags.AttrsTextAppend` | src/html/serializeTag.js:41-48 | the attributes of two lists print as those of each, in order |
| `HtmlTags.SerializeTagSpec` | src/html/serializeTag.js:13-31 | fails exactly on an attribute that cannot be encoded or children that cannot be printed (a text node has none, so its tag prints empty); otherwise only the first node is consumed and the tag appended |
| `HtmlTags.TagTextShape` | src/html/serializeTag.js:22-27 | a single tag is `<tag attrs/>`; any other is the opening tag, the children and the closing tag |
| `CustomBlocks.CustomTypeRoundTrip` | lib/index.js:3260-3282 | the type of a tag is custom and gives the tag back; a type is custom exactly when it is the type of its own tag |
| `CustomBlocks.ClosingTagFor` | lib/index.js:3290-3302 | `end`, the tag and anything after close the tag; a tag that closes another is a closing tag |
| `CustomBlocks.NotClosingItself` | lib/index.js:3300-3302 | no tag closes itself |
| `CustomBlocks.Includes` | lib/index.js:3344-3345 | asking a list or string succeeds, answering membership or substring; a falsy value answers no; any other value fails |
| `CustomBlocks.SerializeCustom` | lib/index.js:3322 | a first node that is not of custom type is declined |
| `CustomBlocks.EndTagText` | lib/index.js:3345-3347 | the end tag is `{% end<tag> %}`, or nothing for an unending tag |
| `CustomBlocks.SerializeCustomVoid` | lib/index.js:3335-3338 | a void or childless node prints its start tag alone, and a blank line when it is a block; only the node is consumed |
| `CustomBlocks.SerializeCustomChildren` | lib/index.js:3340-3348 | fails exactly when the children fail to print or the unending tags cannot be asked; otherwise start tag, children without trailing newlines, end tag, and only the node is consumed |
| `CustomBlocks.CustomTextInner` | lib/index.js:3332-3348 | the printed children read back from their place between the start tag and the end tag; for a block each of the three is on lines of its own and the text ends with a blank line |
| `CustomBlocks.InnerNodesAreBlocks` | lib/index.js:3340-3342 | children that start with a block print as they are; inline children go into one paragraph |
| `CustomBlocks.FirstTerminator` | lib/index.js:3397-3407 | `takeUntil` stops at the first terminating node, and no node before it terminates |
| `CustomBlocks.WithoutOwnClosing` | lib/index.js:3421-3423 | the filter keeps exactly the nodes that are not closing tags of this tag |
| `CustomBlocks.WithoutOwnClosingAppend` | lib/index.js:3416-3423 | the filter distributes over concatenation |
| `CustomBlocks.WithoutOwnClosingKeeps` | lib/index.js:3421-3423 | nodes none of which closes the tag all stay, in order |
| `CustomBlocks.ClosedKept` | lib/index.js:3417-3423 | the tag's own merged node survives the filter |
| `CustomBlocks.CloseSpec` | lib/index.js:3394-3425 | lexing stops exactly when an added node terminates the tag; then the earlier nodes, the tag's node holding the nodes before the first terminator, and the rest, all without the tag's closing nodes |
| `CustomBlocks.CloseAt` | lib/index.js:3396-3424 | a level that grows by nodes and then a terminator closes there with those nodes as children, or one empty text when there are none |
| `CustomBlocks.EndPlaceholderCloses` | lib/index.js:3385-3406 | the placeholder of `{% end<tag> %}` terminates a tag that is not unending, and is its own closing node |
| `CustomBlocks.PrintedEndTagCloses` | lib/index.js:3345-3423 | the end tag the printer writes closes the tag it was printed for: the nodes between become its children and the end placeholder disappears |
| `CustomBlocks.UnendingClosesAtNextTag` | lib/index.js:3400-3404 | an unending tag closes at the next closing or unending custom node, which stays on the level unless it closes this tag |
| `CustomBlocks.DeserializeCustom` | lib/index.js:3358-3360 | with templates switched off, or without a match, the rule declines |
| `CustomBlocks.DeserializeCustomSpec` | lib/index.js:3355-3429 | a blank or unparsable tag only consumes the match; a closing tag pushes its void placeholder; any other tag pushes its placeholder and lexes with a stop condition that closes it |

## Left out

- Regular expressions: the block, item, heading, fence, code-span, paragraph and custom-block patterns are inputs (`Option` match records or finder functions such as `Lists.ItemFinder`); only small anchored patterns (alignments, bullets, checkboxes, `/\n\n(?!\s*$)/`, `wrapInline`, outdenting) are modelled concretely.
- The HTML tokenizer (htmlparser2 with htmlclean) behind `parse` in src/html/parse.js: the model takes its callbacks as a sequence of events.
- Entity encoding and decoding (`entities`), `decodeURI` and `is-absolute-url`: string functions passed as parameters; `unescapeURL` is therefore not modelled.
- `Number(key) >= 0` in src/markdown/liquid/stringifyTag.js: a predicate `isArgs` passed as a parameter; `String(value)` is modelled for integers, strings, booleans, null, undefined, arrays and objects, not for floating-point numbers.
- `liquid.parseTag` and its `parseData` loop (lib/index.js, outside lines 3260-3429): a function parameter of `CustomBlocks.DeserializeCustom`.
- `warning(...)` calls in lib/index.js: they only log.
- `uid()`, front matter (src/markdown/document.js), `Html.prettyPrint` and the HTML printers of src/html/blocks and src/html/inlines: outside the core; `Tables.SerializeTable` takes the HTML printer as a parameter.
- Termination: the drivers `Lex` and `Serialize` and every rule that re-enters them carry a `fuel` bound and fail with `OutOfFuel` when it runs out; the source would recurse without bound (or overflow its stack) on a grammar that never stops.
- Rules that re-enter `lex` or `serialize` (lists, headings, paragraphs, tables, custom blocks) receive the nested driver as a `Lexer`/`Printer` parameter or build it from a rule table and fuel; they cannot sit inside the very table they are given, so the fixed point of the full grammar is not modelled.
- Exceptions are `Err` values of `Outcomes.Error`; their messages are not modelled.
- Slate internals: keys, normalisation and the leaf representation; a text is a list of leaves with insertion-ordered mark sets.
- `MarkdownUtils.Escape` with `escapeXML` other than `false`: the encoder is a parameter and no property is stated for it.
- `MarkdownUtils.Unescape`: modelled as a definition used by code fences; it runs through the HTML entity decoder, so no round trip with `Escape` is stated.
- `LiquidTags.EscapeRoundTrip`: states the round trip against a reference decoder (`Unbackslash`), not against `unescape` of src/markdown/liquid/escape.js, which is outside the core.
- `CustomBlocks.DeserializeCustom`: a list value (`Arr`) stands for every value whose `includes` tests membership: an array, an Immutable List or an Immutable Set. When `unendingTags` is truthy but neither such a list nor a string, the model fails as soon as the tag is read, while the source throws only when the stop condition first runs.
- `CustomBlocks.IsCustomNode`: a node without a type (a text) is treated as not custom; in the source `isCustomType(undefined)` would throw.
- `HtmlTags.AttrText`: the entity encoder (`entities.encodeXML`, a parameter here) is only modelled on strings, so an attribute value that is not a string, `undefined` or `null` fails with a type error.
- `MarkdownUtils.NormalizeRef`: `toLowerCase` is a parameter `lower`, since its Unicode case tables are not modelled; the lemmas assume of it only that it is idempotent and keeps single spacing, and `JsString.Lower` (A to Z only) is the instance shown to meet that.
- `ParseState.LexStep`: the no-op test of src/models/state.js:277 compares Immutable records by reference; the model compares states by value, so a rule that returns a newly built state equal to its input fails with `NoOpRule` here while the source lexes on.
- `ParseState.SerializeLoop`: likewise the test `state == this` of src/models/state.js:398 is reference identity, modelled as value equality; a printer returning a newly built but equal state fails here and is printed on in the source.
- `Lists.PrepareItem`: the outdent pattern `^ {1,0}` (nothing stripped before a `\n `) is a `SyntaxError` in JavaScript; the model returns that error.

## Findings

| source | as written | input that shows it | evidently intended | confidence | as-written member | corrected member |
|---|---|---|---|---|---|---|
| src/models/state.js:298 | after a rule matches, `lex` goes on with the same `opts`, whose `rest` still holds the pending text that was just flushed into a text node | one rule that turns `X` into an inline node, input `aX`: the text `a` is pushed, then `X` matches, and `a` is pushed a second time at the end | lexing goes on with an empty `rest`, so `aX` gives the text `a` and the `X` node once each | not executed | `ParseState.LexFlushesPendingTextTwice` | `ParseState.LexMatchStep` |
