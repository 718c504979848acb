/**
 * The line-clear engine (removeRows): one bottom-up pass over rows
 * NumRows-1 .. 1 that, at every row found full when the pass reaches it,
 * empties that row, shifts the rows above it down by one and scores a point.
 */
module LineClear {
  import opened Cells
  import opened Field

  /**
   * The field after handling a full row i.  The shift copies rows i-1 .. 1
   * into rows i .. 2; row 0 is never used as a source, so row 1 keeps its
   * content (and now also appears in row 2), and only when i = 1 does the
   * emptied row survive.
   */
  function Collapse(g: Grid, i: int): (h: Grid)
    requires WellFormed(g) && 1 <= i < NumRows
    ensures WellFormed(h)
  {
    seq(NumRows, r requires 0 <= r < NumRows =>
      if r == i && i == 1 then EmptyRow()
      else if 2 <= r <= i then g[r - 1]
      else g[r])
  }

  lemma {:induction false} CollapsedRowsCount(g: Grid, i: int, k: nat)
    requires WellFormed(g) && 2 <= i < NumRows && 2 <= k <= i + 1
    ensures FilledRows(Collapse(g, i), k) == FilledRows(g, k - 1) + FilledAmong(g[1], NumCols)
  {
    var h := Collapse(g, i);
    if k == 2 {
      assert FilledRows(h, 1) == FilledRows(g, 1);
    } else {
      CollapsedRowsCount(g, i, k - 1);
    }
  }

  /**
   * The blocks a full row's clear leaves on the field.  The NumCols blocks of
   * row i go, and for i >= 2 the copy of row 1 that the shift leaves in row 2
   * comes in addition.  A clear therefore need not lower the count by a
   * multiple of the row width: it raises it whenever row 1 is full.
   */
  lemma CollapseCount(g: Grid, i: int)
    requires WellFormed(g) && 1 <= i < NumRows && RowFull(g, i)
    ensures i >= 2 ==> FilledCount(Collapse(g, i)) == FilledCount(g) - NumCols + FilledAmong(g[1], NumCols)
    ensures i == 1 ==> FilledCount(Collapse(g, i)) == FilledCount(g) - NumCols
  {
    var h := Collapse(g, i);
    FilledAmongAll(g[i], NumCols);
    if i >= 2 {
      CollapsedRowsCount(g, i, i + 1);
      FilledRowsTail(g, h, i + 1, NumRows, FilledAmong(g[1], NumCols) - NumCols);
    } else {
      FilledAmongNone(h[1], NumCols);
      assert FilledRows(h, 1) == FilledRows(g, 1);
      FilledRowsTail(g, h, 2, NumRows, -NumCols);
    }
  }

  /** What one pass leaves: the field and the number of rows it cleared. */
  datatype Swept = Swept(grid: Grid, cleared: nat)

  /**
   * The pass from row i up to row 1.  A row is tested once, when the pass
   * reaches it, against the field as earlier clears have left it.
   */
  function Sweep(g: Grid, i: int): (s: Swept)
    requires WellFormed(g) && i < NumRows
    ensures WellFormed(s.grid)
    ensures s.cleared <= if i < 0 then 0 else i
    ensures s.grid[0] == g[0]
    ensures forall r :: i < r < NumRows && 0 <= r ==> s.grid[r] == g[r]
    decreases i
  {
    if i <= 0 then Swept(g, 0)
    else
      var full := RowFull(g, i);
      var rest := Sweep(if full then Collapse(g, i) else g, i - 1);
      Swept(rest.grid, rest.cleared + if full then 1 else 0)
  }

  /** removeRows as a whole: the pass from the bottom row. */
  function RemoveRows(g: Grid): (s: Swept)
    requires WellFormed(g)
    ensures WellFormed(s.grid)
    ensures s.grid[0] == g[0]
    ensures s.cleared <= NumRows - 1
  {
    Sweep(g, NumRows - 1)
  }

  /** Handling a full row i >= 2 duplicates row 1: rows 1 and 2 both end up holding the old row 1. */
  lemma CollapseKeepsTopRows(g: Grid, i: int)
    requires WellFormed(g) && 1 <= i < NumRows
    ensures Collapse(g, i)[0] == g[0]
    ensures i >= 2 ==> Collapse(g, i)[1] == g[1] && Collapse(g, i)[2] == g[1]
    ensures i == 1 ==> Collapse(g, i)[1] == EmptyRow()
  {
  }

  /** A pass over a field with no full row changes nothing and scores nothing. */
  lemma {:induction false} SweepWithoutFullRows(g: Grid, i: int)
    requires WellFormed(g) && i < NumRows
    requires forall r :: 1 <= r <= i ==> !RowFull(g, r)
    ensures Sweep(g, i) == Swept(g, 0)
  {
    if i > 0 {
      SweepWithoutFullRows(g, i - 1);
    }
  }

  /** A pass scores at least one point when some row it reaches first is full. */
  lemma SweepScoresFullRow(g: Grid, i: int)
    requires WellFormed(g) && 1 <= i < NumRows && RowFull(g, i)
    ensures Sweep(g, i).cleared >= 1
  {
  }

  /**
   * A full row anywhere among rows 1 .. i makes the pass score: the rows
   * above the pass are untouched until it reaches them.
   */
  lemma {:induction false} SweepScoresAnyFull(g: Grid, i: int, r: int)
    requires WellFormed(g) && i < NumRows && 1 <= r <= i && RowFull(g, r)
    ensures Sweep(g, i).cleared >= 1
    decreases i
  {
    if !RowFull(g, i) {
      SweepScoresAnyFull(g, i - 1, r);
    }
  }

  /** The pass scores nothing exactly when none of rows 1 .. i is full when it starts. */
  lemma SweepScoresIffFullRow(g: Grid, i: int)
    requires WellFormed(g) && i < NumRows
    ensures Sweep(g, i).cleared == 0 <==> forall r :: 1 <= r <= i ==> !RowFull(g, r)
  {
    if forall r :: 1 <= r <= i ==> !RowFull(g, r) {
      SweepWithoutFullRows(g, i);
    } else {
      var r :| 1 <= r <= i && RowFull(g, r);
      SweepScoresAnyFull(g, i, r);
    }
  }

  /**
   * A full row shifted down into the row just cleared is not tested again in
   * the same pass: with rows i and i-1 both full, row i is still full after it.
   */
  lemma StackedFullRowSurvives(g: Grid, i: int)
    requires WellFormed(g) && 2 <= i < NumRows
    requires RowFull(g, i) && RowFull(g, i - 1)
    ensures RowFull(Sweep(g, i).grid, i)
  {
    var h := Collapse(g, i);
    assert h[i] == g[i - 1];
    assert Sweep(g, i).grid[i] == Sweep(h, i - 1).grid[i] == h[i];
  }
}
