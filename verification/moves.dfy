/**
 * Movement and rotation rules: the legality test of a one-step move
 * (validMove), the shift of a 2x2 piece one step left, down or right (the body
 * of move before it clears rows) and the rotation of the 2x2 window.
 * The piece is not an object: it is whatever sits in the 2x2 window whose
 * top-left cell is the anchor (row, col).
 */
module Moves {
  import opened Cells
  import opened Field

  /** The cells validMove reads all lie inside the field. */
  predicate Probeable(row: int, col: int, dir: Direction) {
    match dir
    case Left => col <= 0 || (0 <= row <= NumRows - 3 && col <= NumCols - 2)
    case Right => col > NumCols - 3 || (0 <= row <= NumRows - 3 && 0 <= col)
    case Down => row > NumRows - 3 || (0 <= row && 0 <= col <= NumCols - 2)
  }

  /** Every cell a move in direction dir reads or writes lies inside the field. */
  predicate MoveInRange(row: int, col: int, dir: Direction) {
    match dir
    case Left => 0 <= row <= NumRows - 2 && 1 <= col <= NumCols - 2
    case Down => 0 <= row <= NumRows - 3 && 0 <= col <= NumCols - 2
    case Right => 0 <= row <= NumRows - 2 && 0 <= col <= NumCols - 3
  }

  /** The 2x2 window anchored at (row, col). */
  predicate InWindow(row: int, col: int, r: int, c: int) {
    row <= r <= row + 1 && col <= c <= col + 1
  }

  /** The cells a move may change: the window and the strip it moves into. */
  predicate InFootprint(row: int, col: int, dir: Direction, r: int, c: int) {
    match dir
    case Left => row <= r <= row + 1 && col - 1 <= c <= col + 1
    case Down => row <= r <= row + 2 && col <= c <= col + 1
    case Right => row <= r <= row + 1 && col <= c <= col + 2
  }

  /** The back face of the window, which a move leaves behind. */
  predicate Vacated(row: int, col: int, dir: Direction, r: int, c: int) {
    match dir
    case Left => row <= r <= row + 1 && c == col + 1
    case Down => r == row && col <= c <= col + 1
    case Right => row <= r <= row + 1 && c == col
  }

  /**
   * validMove: the boundary checks, then the collision checks in the order the
   * source makes them.  The collision checks below the piece apply to every
   * direction; the lateral ones only to LEFT and RIGHT.
   */
  function ValidMove(g: Grid, row: int, col: int, dir: Direction): (ok: bool)
    requires WellFormed(g) && Probeable(row, col, dir)
    ensures ok ==> MoveInRange(row, col, dir)
    ensures ok && dir != Down ==> row <= NumRows - 3
  {
    if dir == Left && col <= 0 then false
    else if dir == Right && col > NumCols - 3 then false
    else if dir == Down && row > NumRows - 3 then false
    else if g[row + 1][col] != Empty && g[row][col] != Empty
         && g[row + 1][col + 1] != Empty && g[row][col + 1] != Empty then false
    else if g[row + 2][col] != Empty && g[row + 1][col] != Empty then false
    else if g[row + 1][col + 1] != Empty && g[row + 2][col + 1] != Empty then false
    else if dir == Right then
      if g[row][col + 2] != Empty && g[row][col + 1] != Empty then false
      else if g[row + 1][col + 2] != Empty && g[row + 1][col + 1] != Empty then false
      else true
    else if dir == Left then
      if g[row][col] != Empty && g[row][col - 1] != Empty then false
      else if g[row + 1][col] != Empty && g[row + 1][col - 1] != Empty then false
      else true
    else true
  }

  /** The refusals validMove promises, whatever else the field holds. */
  lemma ValidMoveRefusals(g: Grid, row: int, col: int, dir: Direction)
    requires WellFormed(g) && Probeable(row, col, dir)
    ensures dir == Left && col <= 0 ==> !ValidMove(g, row, col, dir)
    ensures dir == Right && col > NumCols - 3 ==> !ValidMove(g, row, col, dir)
    ensures dir == Down && row > NumRows - 3 ==> !ValidMove(g, row, col, dir)
    ensures ValidMove(g, row, col, dir) ==>
      !(forall r, c :: InWindow(row, col, r, c) ==> g[r][c] != Empty)
    ensures ValidMove(g, row, col, dir) ==> g[row + 1][col] == Empty || g[row + 2][col] == Empty
    ensures ValidMove(g, row, col, dir) ==> g[row + 1][col + 1] == Empty || g[row + 2][col + 1] == Empty
    ensures ValidMove(g, row, col, dir) && dir == Right ==>
      (g[row][col + 2] == Empty || g[row][col + 1] == Empty)
      && (g[row + 1][col + 2] == Empty || g[row + 1][col + 1] == Empty)
    ensures ValidMove(g, row, col, dir) && dir == Left ==>
      (g[row][col] == Empty || g[row][col - 1] == Empty)
      && (g[row + 1][col] == Empty || g[row + 1][col - 1] == Empty)
  {
    if ValidMove(g, row, col, dir) {
      assert InWindow(row, col, row, col) && InWindow(row, col, row + 1, col);
      assert InWindow(row, col, row, col + 1) && InWindow(row, col, row + 1, col + 1);
    }
  }

  /** The converse: a move that none of validMove's tests refuses is allowed. */
  lemma ValidMoveAllows(g: Grid, row: int, col: int, dir: Direction)
    requires WellFormed(g) && Probeable(row, col, dir)
    requires !(dir == Left && col <= 0)
    requires !(dir == Right && col > NumCols - 3)
    requires !(dir == Down && row > NumRows - 3)
    requires !(g[row + 1][col] != Empty && g[row][col] != Empty
               && g[row + 1][col + 1] != Empty && g[row][col + 1] != Empty)
    requires g[row + 1][col] == Empty || g[row + 2][col] == Empty
    requires g[row + 1][col + 1] == Empty || g[row + 2][col + 1] == Empty
    requires dir == Right ==>
      (g[row][col + 2] == Empty || g[row][col + 1] == Empty)
      && (g[row + 1][col + 2] == Empty || g[row + 1][col + 1] == Empty)
    requires dir == Left ==>
      (g[row][col] == Empty || g[row][col - 1] == Empty)
      && (g[row + 1][col] == Empty || g[row + 1][col - 1] == Empty)
    ensures ValidMove(g, row, col, dir)
  {
  }

  /** What a moved cell leaves at its destination: an Empty cell never overwrites a block. */
  function Merge(src: int, dst: int): int {
    if src != Empty then src else dst
  }

  /**
   * The field after the shift part of move(row, col, dir), cell by cell: the
   * front face of the piece lands on the strip next to the window (merged
   * with what is there), the back face takes the place of the front face, and
   * the back face's old place is emptied.
   */
  function ShiftedCell(g: Grid, row: int, col: int, dir: Direction, r: int, c: int): int
    requires WellFormed(g) && MoveInRange(row, col, dir) && InField(r, c)
  {
    match dir
    case Down =>
      if col <= c <= col + 1 && r == row then Empty
      else if col <= c <= col + 1 && r == row + 1 then g[row][c]
      else if col <= c <= col + 1 && r == row + 2 then Merge(g[row + 1][c], g[row + 2][c])
      else g[r][c]
    case Left =>
      if row <= r <= row + 1 && c == col - 1 then Merge(g[r][col], g[r][col - 1])
      else if row <= r <= row + 1 && c == col then g[r][col + 1]
      else if row <= r <= row + 1 && c == col + 1 then Empty
      else g[r][c]
    case Right =>
      if row <= r <= row + 1 && c == col + 2 then Merge(g[r][col + 1], g[r][col + 2])
      else if row <= r <= row + 1 && c == col + 1 then g[r][col]
      else if row <= r <= row + 1 && c == col then Empty
      else g[r][c]
  }

  function Shifted(g: Grid, row: int, col: int, dir: Direction): (h: Grid)
    requires WellFormed(g) && MoveInRange(row, col, dir)
    ensures WellFormed(h)
    ensures forall r, c :: InField(r, c) && !InFootprint(row, col, dir, r, c) ==> h[r][c] == g[r][c]
    ensures forall r, c :: InField(r, c) && Vacated(row, col, dir, r, c) ==> h[r][c] == Empty
  {
    seq(NumRows, r requires 0 <= r < NumRows =>
      seq(NumCols, c requires 0 <= c < NumCols => ShiftedCell(g, row, col, dir, r, c)))
  }

  /**
   * A block outside the moving window is never erased by a shift, and it is
   * left exactly as it was unless a block of the piece moves onto it.
   */
  lemma ShiftKeepsSettledBlocks(g: Grid, row: int, col: int, dir: Direction, r: int, c: int)
    requires WellFormed(g) && MoveInRange(row, col, dir)
    requires InField(r, c) && !InWindow(row, col, r, c) && g[r][c] != Empty
    ensures Shifted(g, row, col, dir)[r][c] != Empty
    ensures Shifted(g, row, col, dir)[r][c] == g[r][c] ||
      (dir == Down && Shifted(g, row, col, dir)[r][c] == g[r - 1][c] != Empty) ||
      (dir == Left && Shifted(g, row, col, dir)[r][c] == g[r][c + 1] != Empty) ||
      (dir == Right && Shifted(g, row, col, dir)[r][c] == g[r][c - 1] != Empty)
  {
  }

  /** A shift leaves every row outside rows row .. row+2 as it was. */
  lemma ShiftKeepsOtherRows(g: Grid, row: int, col: int, dir: Direction)
    requires WellFormed(g) && MoveInRange(row, col, dir) && row <= NumRows - 3
    ensures forall r :: 0 <= r < NumRows && !(row <= r < row + 3) ==> Shifted(g, row, col, dir)[r] == g[r]
  {
    var h := Shifted(g, row, col, dir);
    forall r | 0 <= r < NumRows && !(row <= r < row + 3)
      ensures h[r] == g[r]
    {
      forall c | 0 <= c < NumCols
        ensures h[r][c] == g[r][c]
      {
        assert !InFootprint(row, col, dir, r, c);
      }
    }
  }

  /** A lateral shift keeps the number of blocks in each of the two rows it moves. */
  lemma LateralShiftKeepsRowCounts(g: Grid, row: int, col: int, dir: Direction, r: int)
    requires WellFormed(g) && Probeable(row, col, dir) && ValidMove(g, row, col, dir) && dir != Down
    requires row <= r <= row + 1
    ensures FilledAmong(Shifted(g, row, col, dir)[r], NumCols) == FilledAmong(g[r], NumCols)
  {
    ValidMoveRefusals(g, row, col, dir);
    var h := Shifted(g, row, col, dir);
    var c0 := if dir == Left then col - 1 else col;
    forall c | 0 <= c < NumCols && !(c0 <= c < c0 + 3)
      ensures h[r][c] == g[r][c]
    {
      assert !InFootprint(row, col, dir, r, c);
    }
    FilledAmongWindow(h[r], g[r], c0, NumCols);
  }

  /** A downward shift keeps the number of blocks in each column of the three rows it touches. */
  lemma DownShiftKeepsColumnCounts(g: Grid, row: int, col: int)
    requires WellFormed(g) && Probeable(row, col, Down) && ValidMove(g, row, col, Down)
    ensures FilledThree(Shifted(g, row, col, Down), row) == FilledThree(g, row)
  {
    ValidMoveRefusals(g, row, col, Down);
    var h := Shifted(g, row, col, Down);
    forall c | 0 <= c < NumCols
      ensures Occupied(h[row][c]) + Occupied(h[row + 1][c]) + Occupied(h[row + 2][c])
           == Occupied(g[row][c]) + Occupied(g[row + 1][c]) + Occupied(g[row + 2][c])
    {
      if !(col <= c <= col + 1) {
        assert !InFootprint(row, col, Down, row, c);
        assert !InFootprint(row, col, Down, row + 1, c);
        assert !InFootprint(row, col, Down, row + 2, c);
      }
    }
    FilledAmongColumns(h[row], h[row + 1], h[row + 2], g[row], g[row + 1], g[row + 2], NumCols);
  }

  /**
   * A legal shift neither creates nor destroys blocks: validMove refuses
   * every move in which a filled front cell would land on a filled cell.
   */
  lemma ShiftPreservesFilled(g: Grid, row: int, col: int, dir: Direction)
    requires WellFormed(g) && Probeable(row, col, dir) && ValidMove(g, row, col, dir)
    ensures FilledCount(Shifted(g, row, col, dir)) == FilledCount(g)
  {
    var h := Shifted(g, row, col, dir);
    ShiftKeepsOtherRows(g, row, col, dir);
    if dir == Down {
      DownShiftKeepsColumnCounts(g, row, col);
    } else {
      LateralShiftKeepsRowCounts(g, row, col, dir, row);
      LateralShiftKeepsRowCounts(g, row, col, dir, row + 1);
      var below := row + 2;
      forall c | 0 <= c < NumCols
        ensures h[below][c] == g[below][c]
      {
        assert !InFootprint(row, col, dir, below, c);
      }
      assert h[below] == g[below];
    }
    FilledRowsWindow(h, g, row, NumRows);
  }

  /** The 2x2 window after rotate(row, col): TL <- TR <- BR <- BL <- TL. */
  function Rotated(g: Grid, row: int, col: int): (h: Grid)
    requires WellFormed(g) && 0 <= row <= NumRows - 2 && 0 <= col <= NumCols - 2
    ensures WellFormed(h)
    ensures forall r, c :: InField(r, c) && !InWindow(row, col, r, c) ==> h[r][c] == g[r][c]
  {
    seq(NumRows, r requires 0 <= r < NumRows => seq(NumCols, c requires 0 <= c < NumCols =>
      if r == row && c == col then g[row][col + 1]
      else if r == row && c == col + 1 then g[row + 1][col + 1]
      else if r == row + 1 && c == col + 1 then g[row + 1][col]
      else if r == row + 1 && c == col then g[row][col]
      else g[r][c]))
  }

  /** A rotation only permutes the four window cells: their colours, with multiplicity, are kept. */
  lemma RotateKeepsWindowContents(g: Grid, row: int, col: int)
    requires WellFormed(g) && 0 <= row <= NumRows - 2 && 0 <= col <= NumCols - 2
    ensures var h := Rotated(g, row, col);
      multiset{h[row][col], h[row][col + 1], h[row + 1][col], h[row + 1][col + 1]}
      == multiset{g[row][col], g[row][col + 1], g[row + 1][col], g[row + 1][col + 1]}
  {
    var h := Rotated(g, row, col);
    assert h[row][col] == g[row][col + 1];
    assert h[row][col + 1] == g[row + 1][col + 1];
    assert h[row + 1][col + 1] == g[row + 1][col];
    assert h[row + 1][col] == g[row][col];
  }

  /** Four rotations at the same anchor give back the field exactly. */
  lemma RotateFourTimes(g: Grid, row: int, col: int)
    requires WellFormed(g) && 0 <= row <= NumRows - 2 && 0 <= col <= NumCols - 2
    ensures Rotated(Rotated(Rotated(Rotated(g, row, col), row, col), row, col), row, col) == g
  {
    var g1 := Rotated(g, row, col);
    var g2 := Rotated(g1, row, col);
    var g3 := Rotated(g2, row, col);
    var g4 := Rotated(g3, row, col);
    GridEq(g4, g);
  }
}
