/**
 * Spread.util.TSVTransformer: converts a spreadsheet cell selection into
 * tab-separated clipboard text and pasted clipboard text back into rows of
 * cell values.
 *
 * The selection's root (leftmost) column is a parameter here; transformToTSV
 * reads it from the selection model of the position at the literal index 1
 * (`selectionPositions[+1]`), which is equivalent because every position of
 * one selection shares that model.
 */
module TSVTransformer {
  import opened JsStrings

  /** Separator written after every row, including the last one. */
  const LineSeparator: char := '\n'
  /** Separator written between two cells of one row. */
  const ColumnSeparator: char := '\t'

  /** One selected cell: its address and its value as a string. */
  datatype Position = Position(row: nat, column: nat, value: string)

  /**
   * The calls the serializer makes on a position, in order: `Validate(i)`
   * commits position i's record, `GetValue(i)` reads its value.
   */
  datatype Call = Validate(index: nat) | GetValue(index: nat)

  // ---------------------------------------------------------------------
  // Buffer helpers

  /** Appends a line separator to the buffer. */
  function AddLineBreak(text: string): (r: string)
    ensures |r| == |text| + 1 && r[..|text|] == text && r[|text|] == LineSeparator
  {
    text + [LineSeparator]
  }

  /** Appends a column separator to the buffer. */
  function AddTabulator(text: string): (r: string)
    ensures |r| == |text| + 1 && r[..|text|] == text && r[|text|] == ColumnSeparator
  {
    text + [ColumnSeparator]
  }

  /** Appends the position's value to the buffer. */
  function AddValue(text: string, position: Position): (r: string)
    ensures |r| == |text| + |position.value|
    ensures r[..|text|] == text && r[|text|..] == position.value
  {
    text + position.value
  }

  /** The buffer without one trailing column separator, if it has one. */
  function WithoutTrailingTab(text: string): string
  {
    if |text| > 0 && text[|text| - 1] == ColumnSeparator then text[..|text| - 1] else text
  }

  // ---------------------------------------------------------------------
  // Serializer

  /** A line break goes before position i: it starts a row other than the previous one's. */
  predicate StartsNewRow(ps: seq<Position>, i: nat)
    requires i < |ps|
  {
    i > 0 && ps[i].row != ps[i - 1].row
  }

  /** A tab goes after position i: a next position exists and is not in the root column. */
  predicate TabAfter(ps: seq<Position>, rootColumn: nat, i: nat)
  {
    i + 1 < |ps| && ps[i + 1].column != rootColumn
  }

  /**
   * One turn of the loop: the buffer after handling position i, given the
   * buffer before it.
   */
  function Step(text: string, ps: seq<Position>, rootColumn: nat, i: nat): string
    requires i < |ps|
  {
    var broken := if StartsNewRow(ps, i) then WithoutTrailingTab(text) + [LineSeparator] else text;
    broken + ps[i].value + (if TabAfter(ps, rootColumn, i) then [ColumnSeparator] else [])
  }

  /** The buffer once the loop has handled positions 0 .. n-1. */
  function TsvPrefix(ps: seq<Position>, rootColumn: nat, n: nat): string
    requires n <= |ps|
  {
    if n == 0 then "" else Step(TsvPrefix(ps, rootColumn, n - 1), ps, rootColumn, n - 1)
  }

  /** The text the serializer returns for the selection `ps`. */
  function Serialize(ps: seq<Position>, rootColumn: nat): (text: string)
    ensures |text| > 0 && text[|text| - 1] == LineSeparator
    ensures ps == [] ==> text == [LineSeparator]
  {
    TsvPrefix(ps, rootColumn, |ps|) + [LineSeparator]
  }

  /**
   * The calls made on the first n positions: each is validated once, in
   * index order, immediately before its value is read.
   */
  function CallOrder(n: nat): (calls: seq<Call>)
    ensures |calls| == 2 * n
    ensures forall i :: 0 <= i < n ==> calls[2 * i] == Validate(i) && calls[2 * i + 1] == GetValue(i)
  {
    if n == 0 then [] else CallOrder(n - 1) + [Validate(n - 1), GetValue(n - 1)]
  }

  /**
   * transformToTSV. `calls` records the calls made on the positions: each
   * position is validated once, in index order, just before its value is read.
   */
  method TransformToTSV(positions: seq<Position>, rootColumn: nat)
    returns (tsvText: string, ghost calls: seq<Call>)
    ensures tsvText == Serialize(positions, rootColumn)
    ensures |tsvText| > 0 && tsvText[|tsvText| - 1] == LineSeparator
    ensures positions == [] ==> tsvText == [LineSeparator]
    ensures |calls| == 2 * |positions|
    ensures calls == CallOrder(|positions|)
  {
    var currentRow: int := -1;
    tsvText := "";
    calls := [];
    for i := 0 to |positions|
      invariant tsvText == TsvPrefix(positions, rootColumn, i)
      invariant currentRow == if i == 0 then -1 else positions[i - 1].row
      invariant calls == CallOrder(i)
    {
      calls := calls + [Validate(i)];
      ghost var before := tsvText;
      if currentRow != positions[i].row && currentRow != -1 {
        if |tsvText| > 0 && tsvText[|tsvText| - 1] == ColumnSeparator {
          tsvText := tsvText[..|tsvText| - 1];
        }
        assert tsvText == WithoutTrailingTab(before);
        tsvText := AddLineBreak(tsvText);
        assert tsvText == WithoutTrailingTab(before) + [LineSeparator];
      }
      ghost var broken := tsvText;
      assert broken == if StartsNewRow(positions, i) then WithoutTrailingTab(before) + [LineSeparator] else before;
      currentRow := positions[i].row;
      calls := calls + [GetValue(i)];
      assert calls == CallOrder(i + 1);
      tsvText := AddValue(tsvText, positions[i]);
      assert tsvText == broken + positions[i].value;
      if i + 1 < |positions| && positions[i + 1].column != rootColumn {
        tsvText := AddTabulator(tsvText);
      }
      assert tsvText == broken + positions[i].value + (if TabAfter(positions, rootColumn, i) then [ColumnSeparator] else []);
    }
    tsvText := AddLineBreak(tsvText);
  }

  // ---------------------------------------------------------------------
  // Parser

  /**
   * The rows parsed from `text`: every line but the piece after the last
   * line separator, each split into cells at the column separators.
   */
  function Parse(text: string): (grid: seq<seq<string>>)
    ensures |grid| == Count(text, LineSeparator)
    ensures forall i :: 0 <= i < |grid| ==>
              |grid[i]| > 0 && Join(grid[i], ColumnSeparator) == Split(text, LineSeparator)[i]
    ensures forall i, j :: 0 <= i < |grid| && 0 <= j < |grid[i]| ==>
              ColumnSeparator !in grid[i][j] && LineSeparator !in grid[i][j]
  {
    var lines := Split(text, LineSeparator);
    var grid := seq(|lines| - 1, i requires 0 <= i < |lines| - 1 => Split(lines[i], ColumnSeparator));
    assert forall i :: 0 <= i < |grid| ==> grid[i] == Split(lines[i], ColumnSeparator);
    forall i | 0 <= i < |grid|
      ensures forall j :: 0 <= j < |grid[i]| ==> LineSeparator !in grid[i][j]
      ensures Join(grid[i], ColumnSeparator) == lines[i]
    {
      SplitPiecesAvoid(lines[i], ColumnSeparator, LineSeparator);
      SplitJoinsBack(lines[i], ColumnSeparator);
    }
    grid
  }

  /** transformToArray. */
  method TransformToArray(clipboardData: string) returns (dataArray: seq<seq<string>>)
    ensures dataArray == Parse(clipboardData)
    ensures |dataArray| == Count(clipboardData, LineSeparator)
    ensures forall i :: 0 <= i < |dataArray| ==>
              dataArray[i] == Split(Split(clipboardData, LineSeparator)[i], ColumnSeparator)
  {
    dataArray := [];
    var rows := Split(clipboardData, LineSeparator);
    for i := 0 to |rows| - 1
      invariant |dataArray| == i
      invariant forall k :: 0 <= k < i ==> dataArray[k] == Split(rows[k], ColumnSeparator)
    {
      dataArray := dataArray + [Split(rows[i], ColumnSeparator)];
    }
  }
}
