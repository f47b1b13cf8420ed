/**
 * Serializing a row-major grid selection and parsing the text back.
 *
 * A grid of values `g` selected with its top-left cell at (row r, column c)
 * is the row-major sequence of positions `GridPositions(g, r, c)`, and its
 * root column is c. The round trip gives `g` back provided `g` is a
 * non-empty grid of non-empty rows, no cell holds a separator and no row but
 * the last ends in an empty cell. That last
 * condition is needed because at a row boundary the serializer removes a
 * trailing tab from the text without checking that it wrote it as a dangling
 * separator: after an empty last cell, the tab it removes is the one that
 * separated that cell from its left neighbour (`EmptyRowEndLost`), and after
 * two empty last cells one tab is lost while the other stays directly before
 * the line break (`TwoEmptyRowEndLost`). The
 * corrected serializer at the end of this module removes only the tab it
 * appended for the next position, and round-trips every non-empty grid of
 * non-empty rows whose cells hold no separators.
 */
module GridRoundTrip {
  import opened JsStrings
  import opened TSVTransformer
  import opened SerializerProperties

  /** The positions of one row of values, from column `col` rightwards. */
  function RowPositions(row: seq<string>, r: nat, col: nat): (ps: seq<Position>)
    ensures |ps| == |row|
    ensures forall j :: 0 <= j < |ps| ==> ps[j] == Position(r, col + j, row[j])
  {
    if row == [] then [] else [Position(r, col, row[0])] + RowPositions(row[1..], r, col + 1)
  }

  /** The positions of a grid of values, row by row, its top-left cell at (r, col). */
  function GridPositions(g: seq<seq<string>>, r: nat, col: nat): (ps: seq<Position>)
    ensures |g| > 0 && |g[0]| > 0 ==> |ps| > 0 && ps[0] == Position(r, col, g[0][0])
  {
    if g == [] then [] else RowPositions(g[0], r, col) + GridPositions(g[1..], r + 1, col)
  }

  /** Every row holds at least one cell. */
  predicate NonEmptyRows(g: seq<seq<string>>)
  {
    forall i :: 0 <= i < |g| ==> |g[i]| > 0
  }

  /** No cell holds a tab or a line separator. */
  predicate CleanCells(g: seq<seq<string>>)
  {
    forall i, j :: 0 <= i < |g| && 0 <= j < |g[i]| ==>
      ColumnSeparator !in g[i][j] && LineSeparator !in g[i][j]
  }

  /** Every row but the last ends in a non-empty cell. */
  predicate FilledRowEnds(g: seq<seq<string>>)
  {
    forall i :: 0 <= i < |g| - 1 ==> |g[i]| > 0 && g[i][|g[i]| - 1] != []
  }

  /** Each row's cells joined by tabs. */
  function RowTexts(g: seq<seq<string>>): (lines: seq<string>)
    ensures |lines| == |g|
  {
    seq(|g|, i requires 0 <= i < |g| => Join(g[i], ColumnSeparator))
  }

  /** The layout of one non-empty row, at or right of the root column, is its values joined by tabs. */
  lemma {:induction false} RowLayout(row: seq<string>, r: nat, col: nat, rootColumn: nat)
    requires |row| > 0 && col >= rootColumn
    ensures Layout(RowPositions(row, r, col), rootColumn) == Join(row, ColumnSeparator)
  {
    if |row| > 1 {
      var ps := RowPositions(row, r, col);
      assert ps[1..] == RowPositions(row[1..], r, col + 1);
      assert Separator(ps[0], ps[1], rootColumn) == [ColumnSeparator];
      RowLayout(row[1..], r, col + 1, rootColumn);
    }
  }

  /** The layout of a non-empty grid of non-empty rows, selected from the root column, is its row texts joined by line separators. */
  lemma {:induction false} GridLayout(g: seq<seq<string>>, r: nat, rootColumn: nat)
    requires |g| > 0 && NonEmptyRows(g)
    ensures Layout(GridPositions(g, r, rootColumn), rootColumn) == Join(RowTexts(g), LineSeparator)
  {
    var a := RowPositions(g[0], r, rootColumn);
    var b := GridPositions(g[1..], r + 1, rootColumn);
    RowLayout(g[0], r, rootColumn, rootColumn);
    if |g| == 1 {
      assert b == [];
      assert a + b == a;
      assert RowTexts(g) == [Join(g[0], ColumnSeparator)];
    } else {
      assert RowTexts(g) == [Join(g[0], ColumnSeparator)] + RowTexts(g[1..]);
      GridLayout(g[1..], r + 1, rootColumn);
      assert a[|a| - 1].row == r && b[0].row == r + 1;
      LayoutAppend(a, b, rootColumn);
    }
  }

  /** Positions within one row never start a new row. */
  lemma RowHasNoBreak(row: seq<string>, r: nat, col: nat)
    ensures forall i :: 0 <= i < |row| ==> !StartsNewRow(RowPositions(row, r, col), i)
  {
  }

  /** In a grid of non-empty rows without separators in its cells, whose non-final rows end in filled cells, every row ends cleanly. */
  lemma {:induction false} GridRowsEndClean(g: seq<seq<string>>, r: nat, rootColumn: nat)
    requires NonEmptyRows(g) && CleanCells(g) && FilledRowEnds(g)
    ensures RowEndsClean(GridPositions(g, r, rootColumn))
  {
    if g != [] {
      var a := RowPositions(g[0], r, rootColumn);
      var b := GridPositions(g[1..], r + 1, rootColumn);
      var ps := a + b;
      assert GridPositions(g, r, rootColumn) == ps;
      RowHasNoBreak(g[0], r, rootColumn);
      GridRowsEndClean(g[1..], r + 1, rootColumn);
      forall i | 0 <= i < |ps| && StartsNewRow(ps, i)
        ensures EndsClean(ps[i - 1].value)
      {
        if i < |a| {
          assert ps[i] == a[i] && ps[i - 1] == a[i - 1];
          assert StartsNewRow(a, i);
          assert false;
        } else if i == |a| {
          assert |g| > 1;
          var v := g[0][|g[0]| - 1];
          assert ps[i - 1].value == v;
          assert v != [] && ColumnSeparator !in v;
        } else {
          assert ps[i] == b[i - |a|] && ps[i - 1] == b[i - |a| - 1];
          assert StartsNewRow(b, i - |a|);
        }
      }
    }
  }

  /** Parsing the layout of a non-empty grid of non-empty rows without separators in its cells, terminated, gives the grid back. */
  lemma ParseGridText(g: seq<seq<string>>, r: nat, rootColumn: nat)
    requires |g| > 0 && NonEmptyRows(g) && CleanCells(g)
    ensures Parse(Layout(GridPositions(g, r, rootColumn), rootColumn) + [LineSeparator]) == g
  {
    var lines := RowTexts(g);
    GridLayout(g, r, rootColumn);
    TerminatedIsJoin(lines, LineSeparator);
    var text := Terminated(lines, LineSeparator);
    forall i | 0 <= i < |lines|
      ensures LineSeparator !in lines[i]
    {
      JoinAvoids(g[i], ColumnSeparator, LineSeparator);
    }
    SplitTerminated(lines, LineSeparator);
    var grid := Parse(text);
    assert |grid| == |g|;
    forall i | 0 <= i < |g|
      ensures grid[i] == g[i]
    {
      SplitJoin(grid[i], ColumnSeparator);
      SplitJoin(g[i], ColumnSeparator);
    }
  }

  /**
   * transformToArray(transformToTSV(positions of g)) == g, for a non-empty
   * grid of non-empty rows whose cells hold no separators and whose non-final
   * rows end in filled cells.
   */
  lemma RoundTrip(g: seq<seq<string>>, r: nat, rootColumn: nat)
    requires |g| > 0 && NonEmptyRows(g) && CleanCells(g) && FilledRowEnds(g)
    ensures Parse(Serialize(GridPositions(g, r, rootColumn), rootColumn)) == g
  {
    GridRowsEndClean(g, r, rootColumn);
    SerializeLayout(GridPositions(g, r, rootColumn), rootColumn);
    ParseGridText(g, r, rootColumn);
  }

  /** Parsing lines without line separators, each terminated, splits each line at its tabs. */
  lemma ParseTerminatedLines(lines: seq<string>)
    requires forall i :: 0 <= i < |lines| ==> LineSeparator !in lines[i]
    ensures var grid := Parse(Terminated(lines, LineSeparator));
            |grid| == |lines| && forall i :: 0 <= i < |lines| ==> grid[i] == Split(lines[i], ColumnSeparator)
  {
    SplitTerminated(lines, LineSeparator);
  }

  /** The selection [["a", ""], ["c", "d"]] serializes without the tab after "a". */
  lemma EmptyRowEndText()
    ensures Serialize(GridPositions([["a", ""], ["c", "d"]], 0, 0), 0) == "a\nc\td\n"
  {
    var ps := GridPositions([["a", ""], ["c", "d"]], 0, 0);
    assert ps == [Position(0, 0, "a"), Position(0, 1, ""), Position(1, 0, "c"), Position(1, 1, "d")];
    assert TsvPrefix(ps, 0, 1) == "a\t";
    assert TsvPrefix(ps, 0, 2) == "a\t";
    assert TsvPrefix(ps, 0, 3) == "a\nc\t";
    assert TsvPrefix(ps, 0, 4) == "a\nc\td";
  }

  /** A cell text without tabs is one cell; "c\td" is two. */
  lemma SplitSmallRows()
    ensures Split("a", ColumnSeparator) == ["a"]
    ensures Split("c\td", ColumnSeparator) == ["c", "d"]
  {
    SplitWithoutSeparator("a", ColumnSeparator);
    SplitAtFirst("c", ColumnSeparator, "d");
    SplitWithoutSeparator("d", ColumnSeparator);
    assert "c\td" == "c" + [ColumnSeparator] + "d";
  }

  /** "a\nc\td\n" parses into a row of one cell and a row of two. */
  lemma ParseOneThenTwo()
    ensures Parse("a\nc\td\n") == [["a"], ["c", "d"]]
  {
    var lines := ["a", "c\td"];
    assert Terminated(lines[1..], LineSeparator) == "c\td\n";
    assert "a\nc\td\n" == Terminated(lines, LineSeparator);
    ParseTerminatedLines(lines);
    SplitSmallRows();
  }

  /**
   * An empty cell at the end of a non-final row loses the tab before it: the
   * row ["a", ""] comes back as ["a"].
   */
  lemma EmptyRowEndLost()
    ensures var g := [["a", ""], ["c", "d"]];
            && Parse(Serialize(GridPositions(g, 0, 0), 0)) == [["a"], ["c", "d"]]
            && Parse(Serialize(GridPositions(g, 0, 0), 0)) != g
  {
    EmptyRowEndText();
    ParseOneThenTwo();
    assert [["a"], ["c", "d"]][0] != [["a", ""], ["c", "d"]][0];
  }

  /**
   * With two empty cells ending the first row, the strip removes only the
   * last of their two tabs, and the other one stays directly before the line
   * break.
   */
  lemma TwoEmptyRowEndText()
    ensures Serialize(GridPositions([["a", "", ""], ["c", "d", "e"]], 0, 0), 0) == "a\t\nc\td\te\n"
  {
    var ps := GridPositions([["a", "", ""], ["c", "d", "e"]], 0, 0);
    assert ps == [Position(0, 0, "a"), Position(0, 1, ""), Position(0, 2, ""),
                  Position(1, 0, "c"), Position(1, 1, "d"), Position(1, 2, "e")];
    assert TsvPrefix(ps, 0, 1) == "a\t";
    assert TsvPrefix(ps, 0, 2) == "a\t\t";
    assert TsvPrefix(ps, 0, 3) == "a\t\t";
    assert TsvPrefix(ps, 0, 4) == "a\t\nc\t";
    assert TsvPrefix(ps, 0, 5) == "a\t\nc\td\t";
    assert TsvPrefix(ps, 0, 6) == "a\t\nc\td\te";
  }

  /** "a\t" is a cell followed by an empty cell. */
  lemma SplitCellThenEmpty()
    ensures Split("a\t", ColumnSeparator) == ["a", ""]
  {
    SplitAtFirst("a", ColumnSeparator, "");
    assert "a\t" == "a" + [ColumnSeparator] + "";
  }

  /** "c\td\te" is three cells. */
  lemma SplitThreeCells()
    ensures Split("c\td\te", ColumnSeparator) == ["c", "d", "e"]
  {
    SplitWithoutSeparator("e", ColumnSeparator);
    SplitAtFirst("d", ColumnSeparator, "e");
    assert "d\te" == "d" + [ColumnSeparator] + "e";
    SplitAtFirst("c", ColumnSeparator, "d\te");
    assert "c\td\te" == "c" + [ColumnSeparator] + "d\te";
  }

  /** "a\t\nc\td\te\n" parses into a row of two cells and a row of three. */
  lemma ParseTwoThenThree()
    ensures Parse("a\t\nc\td\te\n") == [["a", ""], ["c", "d", "e"]]
  {
    var lines := ["a\t", "c\td\te"];
    assert Terminated(lines[1..], LineSeparator) == "c\td\te\n";
    assert "a\t\nc\td\te\n" == Terminated(lines, LineSeparator);
    ParseTerminatedLines(lines);
    SplitCellThenEmpty();
    SplitThreeCells();
  }

  /**
   * Two empty cells at the end of a non-final row leave a tab before the
   * line break and come back as one: the row ["a", "", ""] returns as ["a", ""].
   */
  lemma TwoEmptyRowEndLost()
    ensures var g := [["a", "", ""], ["c", "d", "e"]];
            var text := Serialize(GridPositions(g, 0, 0), 0);
            && (exists k :: 0 < k < |text| && text[k - 1] == ColumnSeparator && text[k] == LineSeparator)
            && Parse(text) == [["a", ""], ["c", "d", "e"]]
            && Parse(text) != g
  {
    TwoEmptyRowEndText();
    ParseTwoThenThree();
    var text: string := "a\t\nc\td\te\n";
    assert text[1] == ColumnSeparator && text[2] == LineSeparator;
    assert [["a", ""], ["c", "d", "e"]][0] != [["a", "", ""], ["c", "d", "e"]][0];
  }

  // ---------------------------------------------------------------------
  // The serializer with the row-boundary strip limited to the tab it wrote

  /**
   * One turn of the corrected loop: at a row boundary the trailing tab is
   * removed only if it was appended after the previous position.
   */
  function CorrectedStep(text: string, ps: seq<Position>, rootColumn: nat, i: nat): string
    requires i < |ps|
  {
    var broken :=
      if StartsNewRow(ps, i) then
        (if TabAfter(ps, rootColumn, i - 1) then WithoutTrailingTab(text) else text) + [LineSeparator]
      else text;
    broken + ps[i].value + (if TabAfter(ps, rootColumn, i) then [ColumnSeparator] else [])
  }

  /** The buffer of the corrected loop after n positions. */
  function CorrectedPrefix(ps: seq<Position>, rootColumn: nat, n: nat): string
    requires n <= |ps|
  {
    if n == 0 then "" else CorrectedStep(CorrectedPrefix(ps, rootColumn, n - 1), ps, rootColumn, n - 1)
  }

  function CorrectedSerialize(ps: seq<Position>, rootColumn: nat): (text: string)
    ensures |text| > 0 && text[|text| - 1] == LineSeparator
  {
    CorrectedPrefix(ps, rootColumn, |ps|) + [LineSeparator]
  }

  /** A corrected turn on the layout so far appends the separator, the value and the next pending tab. */
  lemma CorrectedStepLayout(ps: seq<Position>, rootColumn: nat, i: nat)
    requires 0 < i < |ps|
    ensures var lay := Layout(ps[..i], rootColumn);
            CorrectedStep(lay + PendingTab(ps, rootColumn, i), ps, rootColumn, i)
              == lay + Separator(ps[i - 1], ps[i], rootColumn) + ps[i].value + PendingTab(ps, rootColumn, i + 1)
  {
    var lay := Layout(ps[..i], rootColumn);
    if StartsNewRow(ps, i) && TabAfter(ps, rootColumn, i - 1) {
      assert (lay + [ColumnSeparator])[..|lay|] == lay;
    }
  }

  lemma CorrectedPrefixStep(ps: seq<Position>, rootColumn: nat, i: nat)
    requires 0 < i < |ps|
    requires CorrectedPrefix(ps, rootColumn, i) == Layout(ps[..i], rootColumn) + PendingTab(ps, rootColumn, i)
    ensures CorrectedPrefix(ps, rootColumn, i + 1) == Layout(ps[..i + 1], rootColumn) + PendingTab(ps, rootColumn, i + 1)
  {
    LayoutStep(ps, rootColumn, i);
    CorrectedStepLayout(ps, rootColumn, i);
  }

  /** For every selection, the corrected buffer is the layout plus the pending tab. */
  lemma {:induction false} CorrectedPrefixLayout(ps: seq<Position>, rootColumn: nat, n: nat)
    requires n <= |ps|
    ensures CorrectedPrefix(ps, rootColumn, n) == Layout(ps[..n], rootColumn) + PendingTab(ps, rootColumn, n)
  {
    if n == 1 {
      assert ps[..1] == [ps[0]];
    } else if n > 1 {
      CorrectedPrefixLayout(ps, rootColumn, n - 1);
      CorrectedPrefixStep(ps, rootColumn, n - 1);
    }
  }

  /**
   * The corrected text of [["a", ""], ["c", "d"]] keeps the tab before the
   * empty cell, directly before the line break: a serializer that returns an
   * empty last cell cannot also avoid a tab before every line break.
   */
  lemma CorrectedEmptyRowEndText()
    ensures CorrectedSerialize(GridPositions([["a", ""], ["c", "d"]], 0, 0), 0) == "a\t\nc\td\n"
  {
    var ps := GridPositions([["a", ""], ["c", "d"]], 0, 0);
    assert ps == [Position(0, 0, "a"), Position(0, 1, ""), Position(1, 0, "c"), Position(1, 1, "d")];
    assert CorrectedPrefix(ps, 0, 1) == "a\t";
    assert CorrectedPrefix(ps, 0, 2) == "a\t";
    assert CorrectedPrefix(ps, 0, 3) == "a\t\nc\t";
    assert CorrectedPrefix(ps, 0, 4) == "a\t\nc\td";
  }

  /** For every selection, the corrected text is the layout followed by one line break. */
  lemma CorrectedSerializeLayout(ps: seq<Position>, rootColumn: nat)
    ensures CorrectedSerialize(ps, rootColumn) == Layout(ps, rootColumn) + [LineSeparator]
  {
    CorrectedPrefixLayout(ps, rootColumn, |ps|);
    assert ps[..|ps|] == ps;
  }

  /** The correction changes nothing while every row ends cleanly. */
  lemma CorrectionAgrees(ps: seq<Position>, rootColumn: nat)
    requires RowEndsClean(ps)
    ensures CorrectedSerialize(ps, rootColumn) == Serialize(ps, rootColumn)
  {
    CorrectedSerializeLayout(ps, rootColumn);
    SerializeLayout(ps, rootColumn);
  }

  /** With the correction, every non-empty grid of non-empty rows without separators in its cells round-trips. */
  lemma CorrectedRoundTrip(g: seq<seq<string>>, r: nat, rootColumn: nat)
    requires |g| > 0 && NonEmptyRows(g) && CleanCells(g)
    ensures Parse(CorrectedSerialize(GridPositions(g, r, rootColumn), rootColumn)) == g
  {
    CorrectedSerializeLayout(GridPositions(g, r, rootColumn), rootColumn);
    ParseGridText(g, r, rootColumn);
  }
}
