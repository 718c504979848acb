/**
 * The playing field as a value: a NumRows x NumCols grid of cell codes, with
 * the operations on whole grids that the engine's methods are specified by.
 */
module Field {
  import opened Cells

  type Grid = seq<seq<int>>

  predicate InField(r: int, c: int) {
    0 <= r < NumRows && 0 <= c < NumCols
  }

  predicate WellFormed(g: Grid) {
    |g| == NumRows && forall r :: 0 <= r < NumRows ==> |g[r]| == NumCols
  }

  /** Two well-formed grids that agree cell by cell are equal. */
  lemma GridEq(a: Grid, b: Grid)
    requires WellFormed(a) && WellFormed(b)
    requires forall r, c :: InField(r, c) ==> a[r][c] == b[r][c]
    ensures a == b
  {
    forall r | 0 <= r < NumRows
      ensures a[r] == b[r]
    {
      forall c | 0 <= c < NumCols
        ensures a[r][c] == b[r][c]
      {
        assert InField(r, c);
      }
    }
  }

  /** The grid every cell of which is Empty (what clearField leaves behind). */
  function Cleared(): (g: Grid)
    ensures WellFormed(g)
    ensures forall r, c :: InField(r, c) ==> g[r][c] == Empty
  {
    seq(NumRows, r => seq(NumCols, c => Empty))
  }

  /** A row holding no block at all. */
  function EmptyRow(): (row: seq<int>)
    ensures |row| == NumCols
    ensures forall c :: 0 <= c < NumCols ==> row[c] == Empty
  {
    seq(NumCols, c => Empty)
  }

  /** 1 for a cell holding a block, 0 for an Empty one. */
  function Occupied(v: int): nat {
    if v != Empty then 1 else 0
  }

  /** The number of non-Empty cells among the first n cells of a row. */
  function FilledAmong(row: seq<int>, n: nat): (k: nat)
    requires n <= |row|
    ensures k <= n
    ensures k == n ==> n == 0 || row[n - 1] != Empty
  {
    if n == 0 then 0 else FilledAmong(row, n - 1) + Occupied(row[n - 1])
  }

  /** A row is full when none of its NumCols cells is Empty. */
  predicate RowFull(g: Grid, i: int)
    requires WellFormed(g) && 0 <= i < NumRows
  {
    forall c :: 0 <= c < NumCols ==> g[i][c] != Empty
  }

  /** The counter reaches n exactly when every one of the first n cells is filled. */
  lemma {:induction false} FilledAmongAll(row: seq<int>, n: nat)
    requires n <= |row|
    ensures FilledAmong(row, n) == n <==> forall c :: 0 <= c < n ==> row[c] != Empty
  {
    if n > 0 {
      FilledAmongAll(row, n - 1);
    }
  }

  /** The counter stays at 0 exactly when none of the first n cells is filled. */
  lemma {:induction false} FilledAmongNone(row: seq<int>, n: nat)
    requires n <= |row|
    ensures FilledAmong(row, n) == 0 <==> forall c :: 0 <= c < n ==> row[c] == Empty
  {
    if n > 0 {
      FilledAmongNone(row, n - 1);
    }
  }

  /** The number of non-Empty cells in the first k rows of the grid. */
  function FilledRows(g: Grid, k: nat): (n: nat)
    requires WellFormed(g) && k <= NumRows
    ensures n <= k * NumCols
  {
    if k == 0 then 0 else FilledRows(g, k - 1) + FilledAmong(g[k - 1], NumCols)
  }

  /** The number of blocks on the field. */
  function FilledCount(g: Grid): (n: nat)
    requires WellFormed(g)
    ensures n <= NumRows * NumCols
  {
    FilledRows(g, NumRows)
  }

  lemma {:induction false} FilledAmongSame(x: seq<int>, y: seq<int>, n: nat)
    requires n <= |x| && n <= |y|
    requires forall j :: 0 <= j < n ==> x[j] == y[j]
    ensures FilledAmong(x, n) == FilledAmong(y, n)
  {
    if n > 0 {
      FilledAmongSame(x, y, n - 1);
    }
  }

  /**
   * Two rows that differ only in the three cells from column c0 on, and hold
   * as many blocks there, hold as many blocks in all.
   */
  lemma {:induction false} FilledAmongWindow(x: seq<int>, y: seq<int>, c0: int, n: nat)
    requires |x| == |y| && 0 <= c0 && c0 + 3 <= n <= |x|
    requires forall j :: 0 <= j < |x| && !(c0 <= j < c0 + 3) ==> x[j] == y[j]
    requires Occupied(x[c0]) + Occupied(x[c0 + 1]) + Occupied(x[c0 + 2])
          == Occupied(y[c0]) + Occupied(y[c0 + 1]) + Occupied(y[c0 + 2])
    ensures FilledAmong(x, n) == FilledAmong(y, n)
  {
    if n == c0 + 3 {
      FilledAmongSame(x, y, c0);
      assert FilledAmong(x, c0 + 2) == FilledAmong(x, c0) + Occupied(x[c0]) + Occupied(x[c0 + 1]);
      assert FilledAmong(y, c0 + 2) == FilledAmong(y, c0) + Occupied(y[c0]) + Occupied(y[c0 + 1]);
    } else {
      FilledAmongWindow(x, y, c0, n - 1);
    }
  }

  /** Three rows hold as many blocks as three others when every column of them does. */
  lemma {:induction false} FilledAmongColumns(a: seq<int>, b: seq<int>, c: seq<int>,
                                              a': seq<int>, b': seq<int>, c': seq<int>, n: nat)
    requires n <= |a| && n <= |b| && n <= |c| && n <= |a'| && n <= |b'| && n <= |c'|
    requires forall j :: 0 <= j < n ==>
      Occupied(a[j]) + Occupied(b[j]) + Occupied(c[j]) == Occupied(a'[j]) + Occupied(b'[j]) + Occupied(c'[j])
    ensures FilledAmong(a, n) + FilledAmong(b, n) + FilledAmong(c, n)
         == FilledAmong(a', n) + FilledAmong(b', n) + FilledAmong(c', n)
  {
    if n > 0 {
      FilledAmongColumns(a, b, c, a', b', c', n - 1);
    }
  }

  lemma {:induction false} FilledRowsSame(g: Grid, h: Grid, k: nat)
    requires WellFormed(g) && WellFormed(h) && k <= NumRows
    requires forall r :: 0 <= r < k ==> g[r] == h[r]
    ensures FilledRows(g, k) == FilledRows(h, k)
  {
    if k > 0 {
      FilledRowsSame(g, h, k - 1);
    }
  }

  /**
   * Once the first k0 rows of h hold d more blocks than those of g, and the
   * rows from k0 on agree, every longer prefix differs by the same d.
   */
  lemma {:induction false} FilledRowsTail(g: Grid, h: Grid, k0: nat, k: nat, d: int)
    requires WellFormed(g) && WellFormed(h) && k0 <= k <= NumRows
    requires forall r :: k0 <= r < NumRows ==> g[r] == h[r]
    requires FilledRows(h, k0) == FilledRows(g, k0) + d
    ensures FilledRows(h, k) == FilledRows(g, k) + d
  {
    if k > k0 {
      FilledRowsTail(g, h, k0, k - 1, d);
    }
  }

  /** The blocks held by rows r0, r0+1 and r0+2. */
  function FilledThree(g: Grid, r0: int): nat
    requires WellFormed(g) && 0 <= r0 <= NumRows - 3
  {
    FilledAmong(g[r0], NumCols) + FilledAmong(g[r0 + 1], NumCols) + FilledAmong(g[r0 + 2], NumCols)
  }

  /**
   * Two grids that differ only in rows r0 .. r0+2, and hold as many blocks
   * there, hold as many blocks in all.
   */
  lemma {:induction false} FilledRowsWindow(g: Grid, h: Grid, r0: int, k: nat)
    requires WellFormed(g) && WellFormed(h) && 0 <= r0 && r0 + 3 <= k <= NumRows
    requires forall r :: 0 <= r < NumRows && !(r0 <= r < r0 + 3) ==> g[r] == h[r]
    requires FilledThree(g, r0) == FilledThree(h, r0)
    ensures FilledRows(g, k) == FilledRows(h, k)
  {
    if k == r0 + 3 {
      FilledRowsSame(g, h, r0);
      assert FilledRows(g, r0 + 2) == FilledRows(g, r0) + FilledAmong(g[r0], NumCols) + FilledAmong(g[r0 + 1], NumCols);
      assert FilledRows(h, r0 + 2) == FilledRows(h, r0) + FilledAmong(h[r0], NumCols) + FilledAmong(h[r0 + 1], NumCols);
    } else {
      FilledRowsWindow(g, h, r0, k - 1);
    }
  }

  /**
   * The value a cell holds once the drawing code has checked it: anything
   * below 0 or above Empty becomes InvalidColor, the rest is kept.
   */
  function NormalizeCell(v: int): (w: int)
    ensures 0 <= w <= Empty
    ensures 0 <= v <= Empty ==> w == v
    ensures w == v || w == InvalidColor
  {
    if v < 0 || v > Empty then InvalidColor else v
  }

  function Normalized(g: Grid): (h: Grid)
    requires WellFormed(g)
    ensures WellFormed(h)
    ensures forall r, c :: InField(r, c) ==> 0 <= h[r][c] <= Empty
    ensures forall r, c :: InField(r, c) && 0 <= g[r][c] <= Empty ==> h[r][c] == g[r][c]
    ensures forall r, c :: InField(r, c) && h[r][c] != g[r][c] ==> h[r][c] == InvalidColor
  {
    seq(NumRows, r requires 0 <= r < NumRows => seq(NumCols, c requires 0 <= c < NumCols => NormalizeCell(g[r][c])))
  }

  /** After normalisation every cell holds a defined code, and a second pass changes nothing. */
  lemma NormalizedIsStable(g: Grid)
    requires WellFormed(g)
    ensures forall r, c :: InField(r, c) ==> 0 <= Normalized(g)[r][c] <= Empty
    ensures Normalized(Normalized(g)) == Normalized(g)
  {
    var h := Normalized(g);
    GridEq(Normalized(h), h);
  }
}
