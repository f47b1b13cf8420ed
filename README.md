# Spread.util.TSVTransformer in Dafny

`Spread.util.TSVTransformer` is the singleton that a spreadsheet grid uses for
native copy and paste. It has two directions:

- `transformToTSV` walks a row-major list of selected cell positions and builds
  tab-separated text.
  - It writes each cell's value.
  - It writes a tab (`columnSeparator`) before every next cell that is not in
    the selection's root column.
  - It writes a line feed (`lineSeparator`) whenever the row changes. Before
    that line feed it removes one trailing tab, if the text has one.
  - It always ends the text with one line feed.
- `transformToArray` splits pasted text at line feeds. It drops the piece after
  the last line feed and splits every other line at its tabs.

The model is organised as follows:

- `js_strings.dfy` (module `JsStrings`) defines the JavaScript string operations
  the transformer relies on, for a one-character separator: `split`, `join` and
  a count of occurrences.
- `tsv_transformer.dfy` (module `TSVTransformer`) holds the core itself:
  - the two separator constants and the `Position` value;
  - the three buffer helpers;
  - `TransformToTSV` and `TransformToArray` as methods with loops;
  - the functions that specify those methods:
    - `Step`, one turn of the serializer loop;
    - `TsvPrefix`, the buffer after n turns;
    - `Serialize`, the text returned;
    - `Parse`, the rows returned;
    - `CallOrder`, the order of the `validate`/`getValue` calls.
- `serializer_properties.dfy` (module `SerializerProperties`) covers the
  serializer's properties:
  - how many line feeds the text holds;
  - what ends the text;
  - what stands before a row's line feed;
  - `Layout`, a declarative description of the text (values joined by the
    separator each neighbouring pair calls for). The text equals the layout
    followed by one line feed while every row ends in a non-empty value that
    does not end with a tab.
- `round_trip.dfy` (module `GridRoundTrip`) covers the round trip:
  - A grid selection is parsed back into its values provided:
    - the grid is non-empty and every row holds at least one cell;
    - no cell holds a separator;
    - no row but the last ends in an empty cell.
  - The counterexample for that last condition.
  - A corrected serializer that round-trips every non-empty grid of non-empty
    rows without separators in its cells.
- `clipboard_examples.dfy` (module `ClipboardExamples`) works through concrete
  selections and texts.

The serializer's calls on each position are recorded in a ghost trace of `Call`
events: `Validate(i)` stands for `validate()` and `GetValue(i)` for the
`getValue()` inside `addValue`. The selection's root column is a parameter of
the serializer. transformToTSV reads it as
`selectionPositions[+1].view.getSelectionModel().rootPosition.column`, where
`[+1]` is the literal index 1 and not `i+1`. That is equivalent only because
every position of one selection shares the same selection model. The guard on
`selectionPositions[i+1]` ensures that element 1 exists whenever that
expression is evaluated.

## Model

| member | source | states |
|---|---|---|
| TSVTransformer.AddLineBreak | src/util/TSVTransformer.js:90-92 | the buffer is kept unchanged and one line separator is appended after it |
| TSVTransformer.AddTabulator | src/util/TSVTransformer.js:99-101 | the buffer is kept unchanged and one column separator is appended after it |
| TSVTransformer.AddValue | src/util/TSVTransformer.js:109-111 | the buffer is kept unchanged and the position's value follows it, character for character |
| TSVTransformer.Serialize | src/util/TSVTransformer.js:27-65 | the text always ends with the line separator; the empty selection gives exactly "\n" |
| TSVTransformer.CallOrder | src/util/TSVTransformer.js:35-52 | for each position i, `Validate(i)` and then `GetValue(i)`, in index order, two calls per position |
| TSVTransformer.TransformToTSV | src/util/TSVTransformer.js:27-65 | the loop returns the specified text (the buffer after every turn is `TsvPrefix`), the text ends with a line feed, "\n" for no positions; validate is called once per position, in index order, just before its value is read |
| TSVTransformer.Parse | src/util/TSVTransformer.js:72-83 | one row per line feed in the text; each row is non-empty and joins with tabs back into its line; no cell holds a tab or a line feed |
| TSVTransformer.TransformToArray | src/util/TSVTransformer.js:72-83 | the loop returns `Parse` of the text: one row per line feed, row i being line i split at its tabs |
| JsStrings.Split | src/util/TSVTransformer.js:75-79 | `split` returns one piece more than the separator occurs, and no piece holds the separator |
| JsStrings.SplitJoinsBack | src/util/TSVTransformer.js:75-79 | joining the pieces of a split with the separator gives the original string back |
| JsStrings.SplitJoin | src/util/TSVTransformer.js:75-79 | splitting a join of a non-empty list of separator-free parts gives the parts back |
| JsStrings.SplitTerminated | src/util/TSVTransformer.js:75-77 | splitting separator-free lines, each followed by the separator, gives the lines plus one empty last piece, the piece the parser drops |
| SerializerProperties.TrailingTabRemoval | src/util/TSVTransformer.js:44-46 | the strip removes the last character exactly when it is a tab, removes nothing else, and removes no line feed |
| SerializerProperties.StepLineBreaks | src/util/TSVTransformer.js:41-58 | a turn adds one line feed if its position starts a new row and none otherwise (for a value without line feeds) |
| SerializerProperties.PrefixStepLineBreaks | src/util/TSVTransformer.js:41-49 | when value i holds no line feed, the buffer gains a line feed at position i exactly when i's row differs from position i-1's |
| SerializerProperties.PrefixLineBreaks | src/util/TSVTransformer.js:35-59 | when no value holds a line feed, the buffer after n turns holds one line feed per row change among the first n positions |
| SerializerProperties.LineBreakCount | src/util/TSVTransformer.js:41-62 | when no value holds a line feed, the text holds one line feed per row change plus the final one |
| SerializerProperties.BufferEndsWithValue | src/util/TSVTransformer.js:52-58 | after position i the buffer is exactly the buffer before its value (the previous buffer, with its one trailing tab stripped and a line feed added when i starts a new row), then its value, then a tab exactly when a next position exists outside the root column |
| SerializerProperties.TextEndsWithLastValue | src/util/TSVTransformer.js:55-62 | no tab follows the last position: the text is exactly the buffer before the last value, then that value, then the final line feed |
| SerializerProperties.DropTabAfterCleanValue | src/util/TSVTransformer.js:44-46 | removing the trailing tab after a non-empty value that does not end in a tab leaves that value at the end of the buffer |
| SerializerProperties.BoundaryStep | src/util/TSVTransformer.js:44-47 | at a row boundary the line feed directly follows the buffer with at most one trailing tab removed |
| SerializerProperties.NoTabBeforeRowBreak | src/util/TSVTransformer.js:41-48 | after a non-empty value that does not end in a tab, the line feed of a new row is preceded by that value's last character, never by a tab |
| SerializerProperties.LayoutAppend | src/util/TSVTransformer.js:35-59 | the layout of two non-empty selections placed one after the other is their layouts joined by the separator between them |
| SerializerProperties.PrefixLayout | src/util/TSVTransformer.js:35-59 | while every row ends in a non-empty value that does not end in a tab, the buffer after n turns is the layout of the first n positions plus the tab already written for the next |
| SerializerProperties.SerializeLayout | src/util/TSVTransformer.js:27-65 | while every row ends in a non-empty value that does not end in a tab, the text is the layout followed by one line feed |
| GridRoundTrip.RowPositions | src/util/TSVTransformer.js:34 | builds the caller's input, the "already well-ordered" selection: a row of values selected from a column becomes consecutive positions on that row, one per value |
| GridRoundTrip.RowLayout | src/util/TSVTransformer.js:55-58 | the layout of one non-empty row, starting at or right of the root column, is its values joined by tabs |
| GridRoundTrip.GridLayout | src/util/TSVTransformer.js:41-58 | the layout of a non-empty grid of non-empty rows, selected from the root column, is its rows' tab-joined texts joined by line feeds |
| GridRoundTrip.GridRowsEndClean | src/util/TSVTransformer.js:41-46 | a grid without separators in its cells, whose non-final rows end in filled cells, has every row boundary after a non-empty value that does not end in a tab |
| GridRoundTrip.ParseGridText | src/util/TSVTransformer.js:72-83 | for a non-empty grid of non-empty rows whose cells hold no separators, parsing its layout plus the final line feed gives the grid back |
| GridRoundTrip.RoundTrip | src/util/TSVTransformer.js:27-83 | transformToArray(transformToTSV(positions of g)) == g, for a non-empty grid of non-empty rows whose cells hold no separators and whose non-final rows end in filled cells |
| GridRoundTrip.ParseTerminatedLines | src/util/TSVTransformer.js:72-83 | parsing lines without line feeds, each followed by a line feed, gives one row per line, its split at tabs |
| GridRoundTrip.EmptyRowEndText | src/util/TSVTransformer.js:41-62 | the selection [["a", ""], ["c", "d"]] serializes to "a\nc\td\n": the tab after "a" is stripped |
| GridRoundTrip.ParseOneThenTwo | src/util/TSVTransformer.js:72-83 | "a\nc\td\n" parses into [["a"], ["c", "d"]] |
| GridRoundTrip.EmptyRowEndLost | src/util/TSVTransformer.js:44-46 | as written, [["a", ""], ["c", "d"]] comes back as [["a"], ["c", "d"]], so it does not round-trip |
| GridRoundTrip.TwoEmptyRowEndText | src/util/TSVTransformer.js:41-62 | the selection [["a", "", ""], ["c", "d", "e"]] serializes to "a\t\nc\td\te\n": one of the two tabs is stripped and the other stays before the line feed |
| GridRoundTrip.SplitCellThenEmpty | src/util/TSVTransformer.js:79 | "a\t" splits into a cell and an empty cell |
| GridRoundTrip.SplitThreeCells | src/util/TSVTransformer.js:79 | "c\td\te" splits into three cells |
| GridRoundTrip.ParseTwoThenThree | src/util/TSVTransformer.js:72-83 | "a\t\nc\td\te\n" parses into [["a", ""], ["c", "d", "e"]] |
| GridRoundTrip.TwoEmptyRowEndLost | src/util/TSVTransformer.js:44-47 | as written, [["a", "", ""], ["c", "d", "e"]] gives a text with a tab directly before a line feed, and comes back as [["a", ""], ["c", "d", "e"]] |
| GridRoundTrip.CorrectedSerialize | src/util/TSVTransformer.js:61-64 | the corrected text also ends with a line feed |
| GridRoundTrip.CorrectedStepLayout | src/util/TSVTransformer.js:41-58 | a corrected turn appends the separator the neighbouring pair calls for, then the value, then the pending tab |
| GridRoundTrip.CorrectedPrefixLayout | src/util/TSVTransformer.js:35-59 | the corrected buffer after n turns is the layout of the first n positions plus the pending tab, for every selection |
| GridRoundTrip.CorrectedEmptyRowEndText | src/util/TSVTransformer.js:44-46 | the corrected text of [["a", ""], ["c", "d"]] is "a\t\nc\td\n": it keeps a tab directly before the line feed |
| GridRoundTrip.CorrectedSerializeLayout | src/util/TSVTransformer.js:27-65 | the corrected text is the layout followed by one line feed, for every selection |
| GridRoundTrip.CorrectionAgrees | src/util/TSVTransformer.js:44-46 | where every row ends in a non-empty value that does not end in a tab, the corrected text equals the text as written |
| GridRoundTrip.CorrectedRoundTrip | src/util/TSVTransformer.js:27-83 | with the correction, every non-empty grid of non-empty rows without separators in its cells round-trips |
| ClipboardExamples.SingleCell | src/util/TSVTransformer.js:27-65 | one cell "x" gives "x\n" |
| ClipboardExamples.TwoCellsOneRow | src/util/TSVTransformer.js:55-58 | two cells of one row give "a\tb\n" |
| ClipboardExamples.TwoCellsTwoRows | src/util/TSVTransformer.js:41-48 | two cells of one column give "a\nb\n" |
| ClipboardExamples.UnterminatedTextHasNoRows | src/util/TSVTransformer.js:74-82 | text without a line feed, "" and "a\tb" included, parses to no rows |
| ClipboardExamples.TwoByTwoText | src/util/TSVTransformer.js:27-65 | the block [["a", "b"], ["c", "d"]] at the origin serializes to "a\tb\nc\td\n" |
| ClipboardExamples.ParseTwoByTwo | src/util/TSVTransformer.js:72-83 | "a\tb\nc\td\n" parses into [["a", "b"], ["c", "d"]] |
| ClipboardExamples.EmptySelection | src/util/TSVTransformer.js:29-30 | the empty selection gives "\n", which parses back as one row holding one empty cell |

## Left out

- The `Ext.define` class and `singleton` machinery are left out. The two separators are module constants.
- The `view.getSelectionModel().rootPosition.column` call chain belongs to the grid's selection model. The root column is a parameter of the serializer instead.
- The effect of `validate()` on the grid record is an external side effect. The model records only that the call was made, and in what order.
- Values are taken as strings. The JavaScript `+=` coercion of non-string values in `addValue` is not modelled.
- A `validate()` or `getValue()` that throws ends transformToTSV early with its exception. Collaborator failures are not modelled: every call returns, and the call trace always reaches `CallOrder` of all positions.
- Clipboard access, grid rendering and the computation of the selection are left out; they are external collaborators.
- Rows and columns are natural numbers. The `-1` sentinel of `currentRow` therefore never collides with a real row.
- `Split` is modelled for a one-character separator only, which is the only kind the transformer uses.
- GridRoundTrip.RoundTrip: requires a non-empty grid, because the empty selection gives "\n", which parses to [[""]] rather than [].
- GridRoundTrip.RoundTrip: requires that no row but the last ends in an empty cell; without that the serializer as written loses a tab (see Findings).
- SerializerProperties.NoTabBeforeRowBreak: requires the value before the row change to be non-empty and not to end in a tab (`EndsClean`). The serializer as written does not keep the unconditional promise that no line feed follows a tab: when a row ends in two empty cells, the strip removes one of their tabs and leaves the other directly before the line feed (`GridRoundTrip.TwoEmptyRowEndLost`, see Findings).

## Findings

| source | as written | input that shows it | evidently intended | confidence | as-written member | corrected member |
|---|---|---|---|---|---|---|
| src/util/TSVTransformer.js:44-46 | at a row change the buffer's last character is removed whenever it is a tab, even when that tab separates a row's last, empty cell from its left neighbour | the selection [["a", ""], ["c", "d"]] gives "a\nc\td\n", which parses into [["a"], ["c", "d"]] | remove only the dangling tab written for the next position, so that every non-empty grid of non-empty rows without separators in its cells comes back unchanged; the corrected text then keeps a tab directly before the line feed after an empty last cell ("a\t\nc\td\n", `GridRoundTrip.CorrectedEmptyRowEndText`), as any serializer that returns such a cell must | medium; not executed | GridRoundTrip.EmptyRowEndLost | GridRoundTrip.CorrectedRoundTrip |
| src/util/TSVTransformer.js:44-47 | at most one trailing tab is removed before the line feed, so when a row ends in two empty cells a tab is left directly before the line feed and one cell is lost | the selection [["a", "", ""], ["c", "d", "e"]] gives "a\t\nc\td\te\n", which parses into [["a", ""], ["c", "d", "e"]] | every non-empty grid of non-empty rows without separators in its cells comes back unchanged; no serializer that does so can avoid a tab before the line feed of a row ending in an empty cell, so the corrected serializer keeps the tabs and gives up that shape | medium; not executed | GridRoundTrip.TwoEmptyRowEndLost | GridRoundTrip.CorrectedRoundTrip |
