/**
 * Concrete selections and clipboard texts, worked through the model.
 */
module ClipboardExamples {
  import opened JsStrings
  import opened TSVTransformer
  import opened GridRoundTrip

  /** One cell gives its value and the final line break. */
  lemma SingleCell()
    ensures Serialize([Position(0, 0, "x")], 0) == "x\n"
  {
    assert TsvPrefix([Position(0, 0, "x")], 0, 1) == "x";
  }

  /** Two cells of one row are separated by a tab. */
  lemma TwoCellsOneRow()
    ensures Serialize([Position(0, 0, "a"), Position(0, 1, "b")], 0) == "a\tb\n"
  {
    var ps := [Position(0, 0, "a"), Position(0, 1, "b")];
    assert TsvPrefix(ps, 0, 1) == "a\t";
  }

  /** Two cells of one column are separated by a line break. */
  lemma TwoCellsTwoRows()
    ensures Serialize([Position(0, 0, "a"), Position(1, 0, "b")], 0) == "a\nb\n"
  {
    var ps := [Position(0, 0, "a"), Position(1, 0, "b")];
    assert TsvPrefix(ps, 0, 1) == "a";
  }

  /** Text without any line separator, the empty text included, parses to no rows. */
  lemma UnterminatedTextHasNoRows(text: string)
    requires LineSeparator !in text
    ensures Parse(text) == []
  {
  }

  /** A two-by-two block selected at the origin serializes to two tab-separated lines. */
  lemma TwoByTwoText()
    ensures Serialize(GridPositions([["a", "b"], ["c", "d"]], 0, 0), 0) == "a\tb\nc\td\n"
  {
    var ps := GridPositions([["a", "b"], ["c", "d"]], 0, 0);
    assert ps == [Position(0, 0, "a"), Position(0, 1, "b"), Position(1, 0, "c"), Position(1, 1, "d")];
    assert TsvPrefix(ps, 0, 1) == "a\t";
    assert TsvPrefix(ps, 0, 2) == "a\tb";
    assert TsvPrefix(ps, 0, 3) == "a\tb\nc\t";
    assert TsvPrefix(ps, 0, 4) == "a\tb\nc\td";
  }

  /** A two-by-two block of tab-separated text parses into its four cells. */
  lemma ParseTwoByTwo()
    ensures Parse("a\tb\nc\td\n") == [["a", "b"], ["c", "d"]]
  {
    var g := [["a", "b"], ["c", "d"]];
    assert CleanCells(g);
    TwoByTwoText();
    RoundTrip(g, 0, 0);
  }

  /** The empty selection gives "\n", which parses back as one row holding one empty cell. */
  lemma EmptySelection()
    ensures Serialize([], 0) == "\n"
    ensures Parse(Serialize([], 0)) == [[""]]
  {
    assert Parse("\n") == Parse(Terminated([""], LineSeparator));
    ParseTerminatedLines([""]);
  }
}
