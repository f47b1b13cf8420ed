/**
 * What the text built by transformToTSV looks like: how many line breaks it
 * holds, what ends it, what precedes a line break inserted at a row
 * boundary, and, when every row ends in a non-empty value that does not end
 * with a tab, a declarative description of the whole text.
 */
module SerializerProperties {
  import opened JsStrings
  import opened TSVTransformer

  /** Number of positions among the first n that start a new row. */
  function RowBreaks(ps: seq<Position>, n: nat): (breaks: nat)
    requires n <= |ps|
    ensures n > 0 ==> breaks < n
  {
    if n == 0 then 0 else RowBreaks(ps, n - 1) + (if StartsNewRow(ps, n - 1) then 1 else 0)
  }

  /** No value holds a line separator of its own. */
  predicate ValuesOnOneLine(ps: seq<Position>)
  {
    forall i :: 0 <= i < |ps| ==> LineSeparator !in ps[i].value
  }

  /**
   * Before a row's line break, the buffer loses its last character if that
   * is a tab, and nothing else; no line separator is lost.
   */
  lemma TrailingTabRemoval(text: string)
    ensures var r := WithoutTrailingTab(text);
            && (r == text || r + [ColumnSeparator] == text)
            && (r != text <==> |text| > 0 && text[|text| - 1] == ColumnSeparator)
            && Count(r, LineSeparator) == Count(text, LineSeparator)
  {
    if |text| > 0 && text[|text| - 1] == ColumnSeparator {
      var r := text[..|text| - 1];
      assert |r| < |text|;
      assert r + [ColumnSeparator] == text;
      CountConcat(r, [ColumnSeparator], LineSeparator);
      assert Count([ColumnSeparator], LineSeparator) == 0;
    }
  }

  /** Handling position i, whose value holds no line break, adds one line break if it starts a new row, and none otherwise. */
  lemma StepLineBreaks(text: string, ps: seq<Position>, rootColumn: nat, i: nat)
    requires i < |ps| && LineSeparator !in ps[i].value
    ensures Count(Step(text, ps, rootColumn, i), LineSeparator)
         == Count(text, LineSeparator) + (if StartsNewRow(ps, i) then 1 else 0)
  {
    var kept := WithoutTrailingTab(text);
    TrailingTabRemoval(text);
    CountConcat(kept, [LineSeparator], LineSeparator);
    var broken := if StartsNewRow(ps, i) then kept + [LineSeparator] else text;
    assert Count(broken, LineSeparator) == Count(text, LineSeparator) + (if StartsNewRow(ps, i) then 1 else 0);
    CountConcat(broken, ps[i].value, LineSeparator);
    var tail: string := if TabAfter(ps, rootColumn, i) then [ColumnSeparator] else [];
    CountConcat(broken + ps[i].value, tail, LineSeparator);
    assert Count(tail, LineSeparator) == 0;
  }

  /** Handling position n-1, whose value holds no line break, adds one line break if it starts a new row, and none otherwise. */
  lemma PrefixStepLineBreaks(ps: seq<Position>, rootColumn: nat, n: nat)
    requires 0 < n <= |ps| && LineSeparator !in ps[n - 1].value
    ensures Count(TsvPrefix(ps, rootColumn, n), LineSeparator)
         == Count(TsvPrefix(ps, rootColumn, n - 1), LineSeparator) + (if StartsNewRow(ps, n - 1) then 1 else 0)
  {
    StepLineBreaks(TsvPrefix(ps, rootColumn, n - 1), ps, rootColumn, n - 1);
  }

  lemma {:induction false} PrefixLineBreaks(ps: seq<Position>, rootColumn: nat, n: nat)
    requires n <= |ps| && ValuesOnOneLine(ps)
    ensures Count(TsvPrefix(ps, rootColumn, n), LineSeparator) == RowBreaks(ps, n)
  {
    if n > 0 {
      PrefixLineBreaks(ps, rootColumn, n - 1);
      PrefixStepLineBreaks(ps, rootColumn, n);
    }
  }

  /**
   * When no value holds a line separator, the text has one line break per
   * row change plus the final one.
   */
  lemma LineBreakCount(ps: seq<Position>, rootColumn: nat)
    requires ValuesOnOneLine(ps)
    ensures Count(Serialize(ps, rootColumn), LineSeparator) == RowBreaks(ps, |ps|) + 1
  {
    var body := TsvPrefix(ps, rootColumn, |ps|);
    PrefixLineBreaks(ps, rootColumn, |ps|);
    CountConcat(body, [LineSeparator], LineSeparator);
  }

  /**
   * The buffer just before position i's value is appended: the buffer after
   * the previous positions, with its line break when i starts a new row.
   */
  function BeforeValue(ps: seq<Position>, rootColumn: nat, i: nat): string
    requires i < |ps|
  {
    var before := TsvPrefix(ps, rootColumn, i);
    if StartsNewRow(ps, i) then WithoutTrailingTab(before) + [LineSeparator] else before
  }

  /**
   * After position i the buffer ends with its value, followed by one tab
   * exactly when a next position exists outside the root column; before the
   * value stands the previous buffer, with its line break when position i
   * starts a new row.
   */
  lemma BufferEndsWithValue(ps: seq<Position>, rootColumn: nat, i: nat)
    requires i < |ps|
    ensures var b := TsvPrefix(ps, rootColumn, i + 1);
            var tail := ps[i].value + (if TabAfter(ps, rootColumn, i) then [ColumnSeparator] else []);
            && |b| >= |tail| && b[|b| - |tail|..] == tail
            && b[..|b| - |tail|] == BeforeValue(ps, rootColumn, i)
  {
    var broken := BeforeValue(ps, rootColumn, i);
    var tail := ps[i].value + (if TabAfter(ps, rootColumn, i) then [ColumnSeparator] else []);
    var b := broken + tail;
    assert TsvPrefix(ps, rootColumn, i + 1) == b;
    assert b[..|broken|] == broken && b[|broken|..] == tail;
  }

  /**
   * No tab follows the last position: the text is the buffer as it stood
   * before the last value, then that value and the final line break.
   */
  lemma TextEndsWithLastValue(ps: seq<Position>, rootColumn: nat)
    requires |ps| > 0
    ensures var text := Serialize(ps, rootColumn);
            var n := |ps| - 1;
            var v := ps[n].value;
            && |text| >= |v| + 1 && text[|text| - |v| - 1..] == v + [LineSeparator]
            && text[..|text| - |v| - 1] == BeforeValue(ps, rootColumn, n)
  {
    var n := |ps| - 1;
    var b := TsvPrefix(ps, rootColumn, n + 1);
    BufferEndsWithValue(ps, rootColumn, n);
    assert !TabAfter(ps, rootColumn, n);
    assert Serialize(ps, rootColumn) == b + [LineSeparator];
    SlicesBeforeLineBreak(Serialize(ps, rootColumn), b, ps[n].value, BeforeValue(ps, rootColumn, n));
  }

  lemma SlicesBeforeLineBreak(text: string, b: string, v: string, front: string)
    requires text == b + [LineSeparator]
    requires |b| >= |v| && b[|b| - |v|..] == v && b[..|b| - |v|] == front
    ensures |text| >= |v| + 1 && text[|text| - |v| - 1..] == v + [LineSeparator]
    ensures text[..|text| - |v| - 1] == front
  {
  }

  /** A non-empty value whose last character is not a tab. */
  predicate EndsClean(v: string)
  {
    v != [] && v[|v| - 1] != ColumnSeparator
  }

  /**
   * Dropping one trailing tab from a buffer that ends with a cleanly ending
   * value, possibly followed by a tab, leaves a buffer that ends with that value.
   */
  lemma DropTabAfterCleanValue(b: string, v: string, tab: bool)
    requires EndsClean(v)
    requires var tail := v + (if tab then [ColumnSeparator] else []);
             |b| >= |tail| && b[|b| - |tail|..] == tail
    ensures var kept := WithoutTrailingTab(b);
            |kept| >= |v| && kept[|kept| - |v|..] == v
  {
    var tail := v + (if tab then [ColumnSeparator] else []);
    assert b[|b| - 1] == tail[|tail| - 1];
    if tab {
      assert WithoutTrailingTab(b) == b[..|b| - 1];
      assert b[..|b| - 1][|b| - 1 - |v|..] == tail[..|v|] == v;
    } else {
      assert WithoutTrailingTab(b) == b;
    }
  }

  /** At a row boundary, the text so far loses at most one trailing tab before the line break. */
  lemma BoundaryStep(ps: seq<Position>, rootColumn: nat, i: nat)
    requires i < |ps| && StartsNewRow(ps, i)
    ensures var kept := WithoutTrailingTab(TsvPrefix(ps, rootColumn, i));
            TsvPrefix(ps, rootColumn, i + 1)[..|kept| + 1] == kept + [LineSeparator]
  {
  }

  /**
   * At a row boundary after a value that ends cleanly, the line break is
   * placed directly after that value's last character: the one trailing tab
   * the buffer may hold is removed first, and no other character is.
   */
  lemma NoTabBeforeRowBreak(ps: seq<Position>, rootColumn: nat, i: nat)
    requires i < |ps| && StartsNewRow(ps, i) && EndsClean(ps[i - 1].value)
    ensures var kept := WithoutTrailingTab(TsvPrefix(ps, rootColumn, i));
            var v := ps[i - 1].value;
            && |kept| > 0 && kept[|kept| - 1] == v[|v| - 1] != ColumnSeparator
            && TsvPrefix(ps, rootColumn, i + 1)[..|kept| + 1] == kept + [LineSeparator]
  {
    BufferEndsWithValue(ps, rootColumn, i - 1);
    DropTabAfterCleanValue(TsvPrefix(ps, rootColumn, i), ps[i - 1].value, TabAfter(ps, rootColumn, i - 1));
    var kept := WithoutTrailingTab(TsvPrefix(ps, rootColumn, i));
    var v := ps[i - 1].value;
    assert kept[|kept| - 1] == kept[|kept| - |v|..][|v| - 1];
    BoundaryStep(ps, rootColumn, i);
  }

  // ---------------------------------------------------------------------
  // A declarative description of the text

  /** What stands between two consecutive positions p and q. */
  function Separator(p: Position, q: Position, rootColumn: nat): string
  {
    if q.row != p.row then [LineSeparator]
    else if q.column != rootColumn then [ColumnSeparator]
    else []
  }

  /** The values of `ps` in order, each pair separated as `Separator` says. */
  function Layout(ps: seq<Position>, rootColumn: nat): string
  {
    if |ps| == 0 then ""
    else if |ps| == 1 then ps[0].value
    else ps[0].value + Separator(ps[0], ps[1], rootColumn) + Layout(ps[1..], rootColumn)
  }

  lemma {:induction false} LayoutAppend(a: seq<Position>, b: seq<Position>, rootColumn: nat)
    requires |a| > 0 && |b| > 0
    ensures Layout(a + b, rootColumn)
         == Layout(a, rootColumn) + Separator(a[|a| - 1], b[0], rootColumn) + Layout(b, rootColumn)
  {
    if |a| == 1 {
      assert (a + b)[1..] == b;
    } else {
      assert (a + b)[1..] == a[1..] + b;
      LayoutAppend(a[1..], b, rootColumn);
    }
  }

  /** The layout ends with the value of the last position. */
  lemma LayoutEndsWithLast(s: seq<Position>, rootColumn: nat)
    requires |s| > 0
    ensures var lay := Layout(s, rootColumn);
            var v := s[|s| - 1].value;
            |lay| >= |v| && lay[|lay| - |v|..] == v
  {
    if |s| > 1 {
      var init := s[..|s| - 1];
      assert s == init + [s[|s| - 1]];
      LayoutAppend(init, [s[|s| - 1]], rootColumn);
    }
  }

  /** Every value before a row change ends cleanly. */
  predicate RowEndsClean(ps: seq<Position>)
  {
    forall i :: 0 <= i < |ps| && StartsNewRow(ps, i) ==> EndsClean(ps[i - 1].value)
  }

  /** Extending the positions by one adds its separator and its value to the layout. */
  lemma LayoutStep(ps: seq<Position>, rootColumn: nat, i: nat)
    requires 0 < i < |ps|
    ensures Layout(ps[..i + 1], rootColumn)
         == Layout(ps[..i], rootColumn) + Separator(ps[i - 1], ps[i], rootColumn) + ps[i].value
  {
    assert ps[..i + 1] == ps[..i] + [ps[i]];
    LayoutAppend(ps[..i], [ps[i]], rootColumn);
  }

  /** The tab the buffer holds after position n-1, waiting for the next value. */
  function PendingTab(ps: seq<Position>, rootColumn: nat, n: nat): string
  {
    if n > 0 && TabAfter(ps, rootColumn, n - 1) then [ColumnSeparator] else []
  }

  /** At a row boundary the tab dropped, if any, is the pending one: the layout so far stays whole. */
  lemma BoundaryKeepsLayout(ps: seq<Position>, rootColumn: nat, i: nat)
    requires 0 < i < |ps| && RowEndsClean(ps) && StartsNewRow(ps, i)
    ensures WithoutTrailingTab(Layout(ps[..i], rootColumn) + PendingTab(ps, rootColumn, i))
         == Layout(ps[..i], rootColumn)
  {
    var lay := Layout(ps[..i], rootColumn);
    if !TabAfter(ps, rootColumn, i - 1) {
      var v := ps[i - 1].value;
      assert EndsClean(v);
      LayoutEndsWithLast(ps[..i], rootColumn);
      assert lay[|lay| - 1] == lay[|lay| - |v|..][|v| - 1];
      assert lay + PendingTab(ps, rootColumn, i) == lay;
    } else {
      assert (lay + [ColumnSeparator])[..|lay|] == lay;
    }
  }

  lemma PrefixLayoutStep(ps: seq<Position>, rootColumn: nat, i: nat)
    requires 0 < i < |ps| && RowEndsClean(ps)
    requires TsvPrefix(ps, rootColumn, i) == Layout(ps[..i], rootColumn) + PendingTab(ps, rootColumn, i)
    ensures TsvPrefix(ps, rootColumn, i + 1) == Layout(ps[..i + 1], rootColumn) + PendingTab(ps, rootColumn, i + 1)
  {
    LayoutStep(ps, rootColumn, i);
    if StartsNewRow(ps, i) {
      BoundaryKeepsLayout(ps, rootColumn, i);
    }
  }

  /**
   * While every row ends cleanly, the buffer after n positions is the layout
   * of those positions plus the tab already written for the next one.
   */
  lemma {:induction false} PrefixLayout(ps: seq<Position>, rootColumn: nat, n: nat)
    requires n <= |ps| && RowEndsClean(ps)
    ensures TsvPrefix(ps, rootColumn, n) == Layout(ps[..n], rootColumn) + PendingTab(ps, rootColumn, n)
  {
    if n == 1 {
      assert ps[..1] == [ps[0]];
    } else if n > 1 {
      PrefixLayout(ps, rootColumn, n - 1);
      PrefixLayoutStep(ps, rootColumn, n - 1);
    }
  }

  /** While every row ends cleanly, the text is the layout followed by one line break. */
  lemma SerializeLayout(ps: seq<Position>, rootColumn: nat)
    requires RowEndsClean(ps)
    ensures Serialize(ps, rootColumn) == Layout(ps, rootColumn) + [LineSeparator]
  {
    PrefixLayout(ps, rootColumn, |ps|);
    assert ps[..|ps|] == ps;
  }
}
