/**
 * The game engine object: the 20x10 field updated in place, the score and the
 * anchor of the active piece.  Most methods are proved against the value-level
 * definitions of modules Field, Moves, LineClear and Turn through Cells() and
 * State(), the values the array and the fields currently hold; MoveFaceBlock,
 * ShiftRowsDown, PaintMiddleColumn and PaintBottomRows are specified cell by
 * cell on the array.  validMove is Moves.ValidMove applied to Cells().
 */
module Engine {
  import opened Cells
  import opened Field
  import opened Moves
  import opened LineClear
  import opened Turn

  class Mintris {
    const field: array2<int>
    var score: int
    var currRow: int
    var currCol: int

    predicate Valid() {
      field.Length0 == NumRows && field.Length1 == NumCols
    }

    /** The field as a grid value. */
    function Cells(): (g: Grid)
      reads field
      requires Valid()
      ensures WellFormed(g)
      ensures forall r, c :: InField(r, c) ==> g[r][c] == field[r, c]
    {
      seq(NumRows, r requires 0 <= r < NumRows reads field =>
        seq(NumCols, c requires 0 <= c < NumCols reads field => field[r, c]))
    }

    /** The whole engine state as a value. */
    function State(): (s: Game)
      reads this, field
      requires Valid()
      ensures s.field == Cells() && s.score == score && s.row == currRow && s.col == currCol
    {
      Game(Cells(), score, currRow, currCol)
    }

    /** A new engine: Java's zero-initialised int array, score 0, anchor (0, 0). */
    constructor ()
      ensures Valid() && fresh(field)
      ensures forall r, c :: InField(r, c) ==> field[r, c] == InvalidColor
      ensures score == 0 && currRow == 0 && currCol == 0
    {
      field := new int[NumRows, NumCols]((r, c) => InvalidColor);
      score := 0;
      currRow := 0;
      currCol := 0;
    }

    /** clearField: every cell becomes Empty. */
    method ClearField()
      requires Valid()
      modifies field
      ensures Cells() == Cleared()
      ensures forall r, c :: InField(r, c) ==> field[r, c] == Empty
    {
      for i := 0 to field.Length0
        invariant forall r, c :: 0 <= r < i && 0 <= c < NumCols ==> field[r, c] == Empty
      {
        for j := 0 to field.Length1
          invariant forall r, c :: 0 <= r < i && 0 <= c < NumCols ==> field[r, c] == Empty
          invariant forall c :: 0 <= c < j ==> field[i, c] == Empty
        {
          field[i, j] := Empty;
        }
      }
      GridEq(Cells(), Cleared());
    }

    /** rotate: a 90-degree turn of the 2x2 window, with no legality check. */
    method Rotate(row: int, col: int)
      requires Valid() && 0 <= row <= NumRows - 2 && 0 <= col <= NumCols - 2
      modifies field
      ensures Cells() == Rotated(old(Cells()), row, col)
    {
      ghost var g := Cells();
      var temp := field[row, col];
      field[row, col] := field[row, col + 1];
      field[row, col + 1] := field[row + 1, col + 1];
      field[row + 1, col + 1] := field[row + 1, col];
      field[row + 1, col] := temp;
      GridEq(Cells(), Rotated(g, row, col));
    }

    /** moveFaceBlock: copy a cell unless it is Empty, so an Empty cell never overwrites a block. */
    method MoveFaceBlock(rowFrom: int, colFrom: int, rowTo: int, colTo: int)
      requires Valid() && InField(rowFrom, colFrom) && InField(rowTo, colTo)
      modifies field
      ensures old(field[rowFrom, colFrom]) == Empty ==> field[rowTo, colTo] == old(field[rowTo, colTo])
      ensures old(field[rowFrom, colFrom]) != Empty ==> field[rowTo, colTo] == old(field[rowFrom, colFrom])
      ensures forall r, c :: InField(r, c) && (r != rowTo || c != colTo) ==> field[r, c] == old(field[r, c])
    {
      if field[rowFrom, colFrom] != Empty {
        field[rowTo, colTo] := field[rowFrom, colFrom];
      }
    }

    /** The shift part of move: the piece moves one step; nothing else is touched. */
    method Shift(row: int, col: int, dir: Direction)
      requires Valid() && MoveInRange(row, col, dir)
      modifies field
      ensures Cells() == Shifted(old(Cells()), row, col, dir)
    {
      match dir {
        case Left => ShiftLeft(row, col);
        case Down => ShiftDown(row, col);
        case Right => ShiftRight(row, col);
      }
    }

    /** The LEFT branch of move: front face (column col) first, then the back face, then empty column col+1. */
    method ShiftLeft(row: int, col: int)
      requires Valid() && MoveInRange(row, col, Left)
      modifies field
      ensures Cells() == Shifted(old(Cells()), row, col, Left)
    {
      ghost var g := Cells();
      MoveFaceBlock(row, col, row, col - 1);
      MoveFaceBlock(row + 1, col, row + 1, col - 1);
      field[row + 1, col] := field[row + 1, col + 1];
      field[row, col] := field[row, col + 1];
      field[row, col + 1] := Empty;
      field[row + 1, col + 1] := Empty;
      forall r, c | InField(r, c)
        ensures field[r, c] == ShiftedCell(g, row, col, Left, r, c)
      {
      }
      GridEq(Cells(), Shifted(g, row, col, Left));
    }

    /** The DOWN branch of move: front face (row row+1) first, then the back face, then empty row row. */
    method ShiftDown(row: int, col: int)
      requires Valid() && MoveInRange(row, col, Down)
      modifies field
      ensures Cells() == Shifted(old(Cells()), row, col, Down)
    {
      ghost var g := Cells();
      MoveFaceBlock(row + 1, col, row + 2, col);
      MoveFaceBlock(row + 1, col + 1, row + 2, col + 1);
      field[row + 1, col + 1] := field[row, col + 1];
      field[row + 1, col] := field[row, col];
      field[row, col] := Empty;
      field[row, col + 1] := Empty;
      forall r, c | InField(r, c)
        ensures field[r, c] == ShiftedCell(g, row, col, Down, r, c)
      {
      }
      GridEq(Cells(), Shifted(g, row, col, Down));
    }

    /** The RIGHT branch of move: front face (column col+1) first, then the back face, then empty column col. */
    method ShiftRight(row: int, col: int)
      requires Valid() && MoveInRange(row, col, Right)
      modifies field
      ensures Cells() == Shifted(old(Cells()), row, col, Right)
    {
      ghost var g := Cells();
      MoveFaceBlock(row, col + 1, row, col + 2);
      MoveFaceBlock(row + 1, col + 1, row + 1, col + 2);
      field[row, col + 1] := field[row, col];
      field[row + 1, col + 1] := field[row + 1, col];
      field[row, col] := Empty;
      field[row + 1, col] := Empty;
      forall r, c | InField(r, c)
        ensures field[r, c] == ShiftedCell(g, row, col, Right, r, c)
      {
      }
      GridEq(Cells(), Shifted(g, row, col, Right));
    }

    /** move: shift the piece, then always run the line-clear pass. */
    method Move(row: int, col: int, dir: Direction)
      requires Valid() && MoveInRange(row, col, dir)
      modifies this, field
      ensures Cells() == LineClear.RemoveRows(Shifted(old(Cells()), row, col, dir)).grid
      ensures score == old(score) + LineClear.RemoveRows(Shifted(old(Cells()), row, col, dir)).cleared
      ensures currRow == old(currRow) && currCol == old(currCol)
    {
      Shift(row, col, dir);
      RemoveRows();
    }

    /** checkRow: count the filled cells of the row and compare with NumCols. */
    method CheckRow(row: int) returns (full: bool)
      requires Valid() && 0 <= row < NumRows
      ensures full == RowFull(Cells(), row)
    {
      var count := 0;
      for j := 0 to NumCols
        invariant count == FilledAmong(Cells()[row], j)
      {
        if field[row, j] != Empty {
          count := count + 1;
        }
      }
      FilledAmongAll(Cells()[row], NumCols);
      full := count == NumCols;
    }

    /** The body of removeRows for a full row i: empty it, then shift rows i-1 .. 1 down by one. */
    method CollapseRow(i: int)
      requires Valid() && 1 <= i < NumRows
      modifies field
      ensures Cells() == Collapse(old(Cells()), i)
    {
      ghost var g := Cells();
      for j := 0 to NumCols
        invariant forall c :: 0 <= c < j ==> field[i, c] == Empty
        invariant forall r, c :: InField(r, c) && r != i ==> field[r, c] == g[r][c]
      {
        field[i, j] := Empty;
      }
      ShiftRowsDown(i);
      forall r, c | InField(r, c)
        ensures Cells()[r][c] == Collapse(g, i)[r][c]
      {
        if r == i && i == 1 {
          assert Collapse(g, i)[r] == EmptyRow();
        }
      }
      GridEq(Cells(), Collapse(g, i));
    }

    /** The shift loop of removeRows: row r takes the content of row r-1, for r = i down to 2. */
    method ShiftRowsDown(i: int)
      requires Valid() && 1 <= i < NumRows
      modifies field
      ensures forall r, c :: InField(r, c) ==>
        field[r, c] == if 2 <= r <= i then old(field[r - 1, c]) else old(field[r, c])
    {
      var row := i - 1;
      while row > 0
        invariant 0 <= row <= i - 1
        invariant forall r, c :: 0 <= r <= row + 1 && 0 <= c < NumCols ==> field[r, c] == old(field[r, c])
        invariant forall r, c :: row + 2 <= r <= i && 0 <= c < NumCols ==> field[r, c] == old(field[r - 1, c])
        invariant forall r, c :: i < r < NumRows && 0 <= c < NumCols ==> field[r, c] == old(field[r, c])
      {
        for col := 0 to NumCols
          invariant forall r, c :: 0 <= r <= row && 0 <= c < NumCols ==> field[r, c] == old(field[r, c])
          invariant forall c :: 0 <= c < col ==> field[row + 1, c] == old(field[row, c])
          invariant forall r, c :: r == row + 1 && col <= c < NumCols ==> field[r, c] == old(field[r, c])
          invariant forall r, c :: row + 2 <= r <= i && 0 <= c < NumCols ==> field[r, c] == old(field[r - 1, c])
          invariant forall r, c :: i < r < NumRows && 0 <= c < NumCols ==> field[r, c] == old(field[r, c])
        {
          field[row + 1, col] := field[row, col];
        }
        row := row - 1;
      }
    }

    /** removeRows: scan rows NumRows-1 down to 1, handling each row found full and scoring it. */
    method RemoveRows()
      requires Valid()
      modifies this, field
      ensures Cells() == LineClear.RemoveRows(old(Cells())).grid
      ensures score == old(score) + LineClear.RemoveRows(old(Cells())).cleared
      ensures currRow == old(currRow) && currCol == old(currCol)
    {
      ghost var target := LineClear.RemoveRows(Cells());
      var i := NumRows - 1;
      while i > 0
        invariant 0 <= i <= NumRows - 1
        invariant currRow == old(currRow) && currCol == old(currCol)
        invariant Sweep(Cells(), i).grid == target.grid
        invariant score + Sweep(Cells(), i).cleared == old(score) + target.cleared
      {
        ghost var before := Cells();
        var full := CheckRow(i);
        if full {
          CollapseRow(i);
          score := score + 1;
        }
        assert Cells() == if RowFull(before, i) then Collapse(before, i) else before;
        i := i - 1;
      }
    }

    /**
     * createRandomPiece, with the three random draws as parameters: fill the
     * window at (0, col) with the colour, empty one of its cells, and move the
     * anchor there.
     */
    method CreateRandomPiece(col: int, color: int, which: int)
      requires Valid() && 0 <= col <= NumCols - 2 && 0 <= which < 4
      modifies this, field
      ensures State() == Spawn(old(State()), Draw(col, color, which))
    {
      ghost var g := Cells();
      for x := 0 to 2
        modifies field
        invariant forall r, c :: InField(r, c) ==>
          field[r, c] == if r < x && col <= c <= col + 1 then color else g[r][c]
      {
        for y := 0 to 2
          invariant forall r, c :: InField(r, c) ==>
            field[r, c] == if (r < x || (r == x && c < col + y)) && col <= c <= col + 1 then color else g[r][c]
        {
          field[x, y + col] := color;
        }
      }
      var x := which / 2;
      var y := which % 2;
      field[x, y + col] := Empty;
      currRow := 0;
      currCol := col;
      GridEq(Cells(), Spawned(g, col, color, which));
    }

    /** The test layout of the 't' key, before its spawn. */
    method LayOutTest()
      requires Valid()
      modifies field
      ensures Cells() == TestGrid()
    {
      ClearField();
      PaintMiddleColumn();
      PaintBottomRows();
      ghost var h := Cells();
      var lastRow := field.Length0 - 1;
      field[lastRow, 0] := Empty;
      field[lastRow - 1, 1] := Empty;
      field[lastRow - 1, 0] := Empty;
      forall r, c | InField(r, c)
        ensures field[r, c] == TestGrid()[r][c]
      {
        if !((r == NumRows - 1 && c == 0) || (r == NumRows - 2 && c <= 1)) {
          assert field[r, c] == h[r][c];
        }
      }
      GridEq(Cells(), TestGrid());
    }

    /** First loop of the test layout: the middle column is blue from row 3 down. */
    method PaintMiddleColumn()
      requires Valid()
      modifies field
      ensures forall r, c :: InField(r, c) ==>
        field[r, c] == if c == NumCols / 2 && 3 <= r then BlueBlock else old(field[r, c])
    {
      for i := 3 to field.Length0
        invariant forall r, c :: InField(r, c) ==>
          field[r, c] == if c == NumCols / 2 && 3 <= r < i then BlueBlock else old(field[r, c])
      {
        field[i, NumCols / 2] := BlueBlock;
      }
    }

    /** Second loop of the test layout: the two bottom rows are red. */
    method PaintBottomRows()
      requires Valid()
      modifies field
      ensures forall r, c :: InField(r, c) ==>
        field[r, c] == if NumRows - 2 <= r then RedBlock else old(field[r, c])
    {
      for x := field.Length0 - 2 to field.Length0
        invariant forall r, c :: InField(r, c) ==>
          field[r, c] == if NumRows - 2 <= r < x then RedBlock else old(field[r, c])
      {
        for y := 0 to field.Length1
          invariant forall r, c :: InField(r, c) ==>
            field[r, c] == if NumRows - 2 <= r < x || (r == x && c < y) then RedBlock else old(field[r, c])
        {
          field[x, y] := RedBlock;
        }
      }
    }

    /**
     * The value check of the drawing loop: a cell below 0 or above Empty is
     * rewritten to InvalidColor.
     */
    method Normalize()
      requires Valid()
      modifies field
      ensures Cells() == Normalized(old(Cells()))
    {
      ghost var g := Cells();
      for row := 0 to field.Length0
        invariant forall r, c :: InField(r, c) ==>
          field[r, c] == if r < row then NormalizeCell(g[r][c]) else g[r][c]
      {
        for col := 0 to field.Length1
          invariant forall r, c :: InField(r, c) ==>
            field[r, c] == if r < row || (r == row && c < col) then NormalizeCell(g[r][c]) else g[r][c]
        {
          if field[row, col] < 0 || field[row, col] > Empty {
            field[row, col] := InvalidColor;
          }
        }
      }
      GridEq(Cells(), Normalized(g));
    }

    /**
     * keyPressed: run the command, then, whatever the key, the landed check.
     * `reset` holds the draws of the spawn of a new game or of the test
     * layout, `landing` those of the landed check's spawn.
     */
    method KeyPressed(cmd: Command, reset: Draw, landing: Draw)
      requires Valid() && AnchorOk(State()) && DrawOk(reset) && DrawOk(landing)
      modifies this, field
      ensures State() == Step(old(State()), cmd, reset, landing)
      ensures AnchorOk(State())
    {
      Dispatch(cmd, reset);
      if !ValidMove(Cells(), currRow, currCol, Down) {
        RemoveRows();
        CreateRandomPiece(landing.col, landing.color, landing.which);
      }
    }

    /** The switch of keyPressed: the command's own effect. */
    method Dispatch(cmd: Command, reset: Draw)
      requires Valid() && AnchorOk(State()) && DrawOk(reset)
      modifies this, field
      ensures State() == Act(old(State()), cmd, reset)
    {
      ghost var s := State();
      match cmd {
        case MoveLeft => TryMove(Left);
        case MoveRight => TryMove(Right);
        case MoveDown => TryMove(Down);
        case HardDrop => DropPiece();
        case Rotate => Rotate(currRow, currCol);
        case NewGame =>
          ClearField();
          CreateRandomPiece(reset.col, reset.color, reset.which);
          score := 0;
        case TestLayout =>
          LayOutTest();
          CreateRandomPiece(reset.col, reset.color, reset.which);
        case Other =>
      }
    }

    /** The arrow-key cases of keyPressed: if validMove allows it, move and follow the piece with the anchor. */
    method TryMove(dir: Direction)
      requires Valid() && Probeable(currRow, currCol, dir)
      modifies this, field
      ensures State() == Advance(old(State()), dir)
    {
      if ValidMove(Cells(), currRow, currCol, dir) {
        Move(currRow, currCol, dir);
        match dir {
          case Left => currCol := currCol - 1;
          case Right => currCol := currCol + 1;
          case Down => currRow := currRow + 1;
        }
      }
    }

    /** The hard drop of the space key: move down while validMove allows it. */
    method DropPiece()
      requires Valid() && Placed(State())
      modifies this, field
      ensures State() == Drop(old(State()))
    {
      while ValidMove(Cells(), currRow, currCol, Down)
        invariant Placed(State())
        invariant Drop(State()) == Drop(old(State()))
        decreases NumRows - currRow
      {
        ghost var before := State();
        Move(currRow, currCol, Down);
        currRow := currRow + 1;
        assert State() == Advance(before, Down);
      }
    }
  }
}
