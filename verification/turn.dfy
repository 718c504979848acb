/**
 * The turn controller as a state machine on values: the game state, the
 * random piece spawner (with its three random draws passed in), the guarded
 * moves, the hard drop and one key press followed by the landed check.
 */
module Turn {
  import opened Cells
  import opened Field
  import opened Moves
  import opened LineClear

  /** The whole engine state: field, score and the anchor of the active piece. */
  datatype Game = Game(field: Grid, score: int, row: int, col: int)

  /** The anchor invariant that holds between key presses. */
  predicate AnchorOk(s: Game) {
    0 <= s.row <= NumRows - 3 && 0 <= s.col <= NumCols - 2
  }

  /** The weaker invariant inside a key press: the piece's window lies in the field. */
  predicate Placed(s: Game) {
    0 <= s.row <= NumRows - 2 && 0 <= s.col <= NumCols - 2
  }

  /**
   * The three random draws of one spawn: the column (nextInt(NumCols - 1)),
   * the colour (nextInt(NumColors) + 1) and which window cell stays empty
   * (nextInt(4)).
   */
  datatype Draw = Draw(col: int, color: int, which: int)

  predicate DrawOk(d: Draw) {
    0 <= d.col <= NumCols - 2 && IsColor(d.color) && 0 <= d.which < 4
  }

  /** The key commands the engine reacts to; Other is any key it ignores. */
  datatype Command = MoveLeft | MoveRight | MoveDown | HardDrop | Rotate | NewGame | TestLayout | Other

  /**
   * createRandomPiece on the field: the window at (0, col) is filled with the
   * colour, then cell (which / 2, col + which % 2) is emptied.
   */
  function Spawned(g: Grid, col: int, color: int, which: int): (h: Grid)
    requires WellFormed(g) && 0 <= col <= NumCols - 2 && 0 <= which < 4
    ensures WellFormed(h)
    ensures h[which / 2][col + which % 2] == Empty
    ensures forall r, c :: InWindow(0, col, r, c) && (r != which / 2 || c != col + which % 2) ==> h[r][c] == color
    ensures forall r, c :: InField(r, c) && !InWindow(0, col, r, c) ==> h[r][c] == g[r][c]
  {
    seq(NumRows, r requires 0 <= r < NumRows => seq(NumCols, c requires 0 <= c < NumCols =>
      if r == which / 2 && c == col + which % 2 then Empty
      else if r <= 1 && col <= c <= col + 1 then color
      else g[r][c]))
  }

  /** The number of cells of the window at (row, col) that hold v. */
  function WindowCount(g: Grid, row: int, col: int, v: int): (n: nat)
    requires WellFormed(g) && 0 <= row <= NumRows - 2 && 0 <= col <= NumCols - 2
    ensures n <= 4
  {
    (if g[row][col] == v then 1 else 0) + (if g[row][col + 1] == v then 1 else 0)
    + (if g[row + 1][col] == v then 1 else 0) + (if g[row + 1][col + 1] == v then 1 else 0)
  }

  /**
   * A spawned piece is three cells of one colour and one Empty cell, at the
   * drawn position; the rest of the field is untouched.
   */
  lemma SpawnShape(g: Grid, d: Draw)
    requires WellFormed(g) && DrawOk(d)
    ensures WindowCount(Spawned(g, d.col, d.color, d.which), 0, d.col, d.color) == 3
    ensures WindowCount(Spawned(g, d.col, d.color, d.which), 0, d.col, Empty) == 1
    ensures Spawned(g, d.col, d.color, d.which)[d.which / 2][d.col + d.which % 2] == Empty
    ensures forall r, c :: InField(r, c) && !InWindow(0, d.col, r, c) ==>
      Spawned(g, d.col, d.color, d.which)[r][c] == g[r][c]
  {
  }

  function Spawn(s: Game, d: Draw): (t: Game)
    requires WellFormed(s.field) && 0 <= d.col <= NumCols - 2 && 0 <= d.which < 4
    ensures WellFormed(t.field) && AnchorOk(t) && t.score == s.score
    ensures t.row == 0 && t.col == d.col
  {
    Game(Spawned(s.field, d.col, d.color, d.which), s.score, 0, d.col)
  }

  /**
   * The debugging layout of the 't' key: a blue column from row 3 down in
   * the middle column, the two bottom rows red except cells (NumRows-1, 0),
   * (NumRows-2, 0) and (NumRows-2, 1).
   */
  function TestGrid(): (g: Grid)
    ensures WellFormed(g)
  {
    seq(NumRows, r requires 0 <= r < NumRows => seq(NumCols, c requires 0 <= c < NumCols =>
      if (r == NumRows - 1 && c == 0) || (r == NumRows - 2 && c <= 1) then Empty
      else if r >= NumRows - 2 then RedBlock
      else if c == NumCols / 2 && r >= 3 then BlueBlock
      else Empty))
  }

  /** The row and column offset of a move. */
  function DeltaRow(dir: Direction): int {
    if dir == Down then 1 else 0
  }

  function DeltaCol(dir: Direction): int {
    match dir
    case Left => -1
    case Down => 0
    case Right => 1
  }

  /** move: the shift, then the line-clear pass, which may raise the score. */
  function Moved(s: Game, dir: Direction): (t: Game)
    requires WellFormed(s.field) && MoveInRange(s.row, s.col, dir)
    ensures WellFormed(t.field) && t.row == s.row && t.col == s.col && t.score >= s.score
  {
    var m := RemoveRows(Shifted(s.field, s.row, s.col, dir));
    Game(m.grid, s.score + m.cleared, s.row, s.col)
  }

  /** A guarded move: if validMove allows it, move and follow the piece with the anchor. */
  function Advance(s: Game, dir: Direction): (t: Game)
    requires WellFormed(s.field) && Probeable(s.row, s.col, dir)
    ensures WellFormed(t.field)
    ensures t == s || (t.row == s.row + DeltaRow(dir) && t.col == s.col + DeltaCol(dir))
    ensures !ValidMove(s.field, s.row, s.col, dir) ==> t == s
    ensures ValidMove(s.field, s.row, s.col, dir) ==>
      t.row == s.row + DeltaRow(dir) && t.col == s.col + DeltaCol(dir) && t.score >= s.score
  {
    if ValidMove(s.field, s.row, s.col, dir) then
      var t := Moved(s, dir);
      t.(row := s.row + DeltaRow(dir), col := s.col + DeltaCol(dir))
    else s
  }

  /**
   * The hard drop: move down while validMove allows it.  It ends because the
   * row grows by one per step and DOWN is refused past row NumRows - 3.
   */
  function Drop(s: Game): (t: Game)
    requires WellFormed(s.field) && Placed(s)
    ensures WellFormed(t.field) && Placed(t)
    ensures !ValidMove(t.field, t.row, t.col, Down)
    ensures t.col == s.col && s.row <= t.row && s.score <= t.score
    decreases NumRows - s.row
  {
    if ValidMove(s.field, s.row, s.col, Down) then Drop(Advance(s, Down)) else s
  }

  /** The landed check after every key: a piece that cannot go down triggers a clear and a spawn. */
  function Land(s: Game, d: Draw): (t: Game)
    requires WellFormed(s.field) && Placed(s) && DrawOk(d)
    ensures WellFormed(t.field) && AnchorOk(t)
    ensures ValidMove(s.field, s.row, s.col, Down) ==> t == s
    ensures !ValidMove(s.field, s.row, s.col, Down) ==> t.row == 0 && t.col == d.col && t.score >= s.score
  {
    if ValidMove(s.field, s.row, s.col, Down) then s
    else
      var m := RemoveRows(s.field);
      Spawn(Game(m.grid, s.score + m.cleared, s.row, s.col), d)
  }

  /** What a key does before the landed check.  `reset` is the spawn of a new game or of the test layout. */
  function Act(s: Game, cmd: Command, reset: Draw): (t: Game)
    requires WellFormed(s.field) && AnchorOk(s) && DrawOk(reset)
    ensures WellFormed(t.field) && Placed(t)
  {
    match cmd
    case MoveLeft => Advance(s, Left)
    case MoveRight => Advance(s, Right)
    case MoveDown => Advance(s, Down)
    case HardDrop => Drop(s)
    case Rotate => s.(field := Rotated(s.field, s.row, s.col))
    case NewGame => Spawn(s.(field := Cleared()), reset).(score := 0)
    case TestLayout => Spawn(s.(field := TestGrid()), reset)
    case Other => s
  }

  /**
   * One key press: the command, then the landed check with the draws
   * `landing`.  Between key presses the anchor stays inside the field.
   */
  function Step(s: Game, cmd: Command, reset: Draw, landing: Draw): (t: Game)
    requires WellFormed(s.field) && AnchorOk(s) && DrawOk(reset) && DrawOk(landing)
    ensures WellFormed(t.field) && AnchorOk(t)
    ensures cmd != NewGame ==> t.score >= s.score
    ensures s.score >= 0 ==> t.score >= 0
  {
    Land(Act(s, cmd, reset), landing)
  }

  /** A freshly spawned piece on an empty field can always move down. */
  lemma SpawnOnClearedCanFall(d: Draw)
    requires DrawOk(d)
    ensures ValidMove(Spawned(Cleared(), d.col, d.color, d.which), 0, d.col, Down)
  {
    var g := Spawned(Cleared(), d.col, d.color, d.which);
    assert g[d.which / 2][d.col + d.which % 2] == Empty;
    assert g[2][d.col] == Empty && g[2][d.col + 1] == Empty;
  }

  /** A new game starts at score 0 with a piece at the top and nothing else on the field. */
  lemma NewGameResets(s: Game, reset: Draw, landing: Draw)
    requires WellFormed(s.field) && AnchorOk(s) && DrawOk(reset) && DrawOk(landing)
    ensures Step(s, NewGame, reset, landing).score == 0
    ensures Step(s, NewGame, reset, landing).row == 0
    ensures Step(s, NewGame, reset, landing).col == reset.col
    ensures Step(s, NewGame, reset, landing).field == Spawned(Cleared(), reset.col, reset.color, reset.which)
  {
    SpawnOnClearedCanFall(reset);
  }

  /** After a hard drop the piece has landed, so the landed check always spawns a new piece. */
  lemma HardDropSpawns(s: Game, reset: Draw, landing: Draw)
    requires WellFormed(s.field) && AnchorOk(s) && DrawOk(reset) && DrawOk(landing)
    ensures Step(s, HardDrop, reset, landing).row == 0
    ensures Step(s, HardDrop, reset, landing).col == landing.col
    ensures Step(s, HardDrop, reset, landing).score >= s.score
  {
  }
}
