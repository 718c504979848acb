# Mintris game-state engine in Dafny

Mintris is a small falling-blocks game played on a 20 x 10 field of integer
cells. A cell holds a colour (`RED_BLOCK = 1`, `GREEN_BLOCK = 2`,
`BLUE_BLOCK = 3`), `EMPTY = NUM_COLORS + 1 = 4`, or `INVALID_COLOR = 0`.
The active piece has no object of its own. It is the content of the 2 x 2
window whose top-left corner is the anchor (`currRow`, `currCol`).

A key press does one of the following:
- shifts the window one step left, right or down, if `validMove` allows it;
- drops it as far as it goes;
- rotates it;
- starts a new game;
- lays out a fixed test position.

Every key press ends with the landed check. A piece that cannot go down
triggers the line-clear pass `removeRows`, and then a new piece spawns at
the top.

The project has six modules:

- `Cells` (cells.dfy): the constants and the three move directions.
- `Field` (field.dfy): the field as a value (`Grid`, a sequence of rows). It holds:
  - the cleared field;
  - the full-row test;
  - counts of filled cells;
  - the value normalisation done while painting.
- `Moves` (moves.dfy):
  - `validMove`, transcribed condition by condition;
  - the shift that `move` performs before its line-clear pass;
  - the rotation;
  - their properties.
- `LineClear` (lineclear.dfy): the `removeRows` pass as a recursive function.
- `Turn` (turn.dfy): the whole game state as a value (`Game`). It holds the
  spawn, the guarded moves, the hard drop, the landed check and the key
  dispatch.
- `Engine` (mintris.dfy): the class `Mintris` itself. It has:
  - the field as an `array2<int>`, with `score`, `currRow` and `currCol` as mutable fields;
  - every state-changing operation, and `checkRow`, as a method with the source's loops;
  - `validMove` as `Moves.ValidMove` applied to `Cells()`.

  Most methods are proved against the value-level function of the same
  operation through `Cells()` (the array read as a `Grid`) and `State()`
  (the whole state as a `Game`). The exceptions are specified cell by cell
  on the array:
  - `MoveFaceBlock`;
  - `ShiftRowsDown`, the shift loop of `removeRows`;
  - `PaintMiddleColumn` and `PaintBottomRows`, the two fill loops of the test layout.

  `CheckRow` returns the value of the predicate `Field.RowFull` on the current field.

The model follows the code where it departs from idealised play:
- `validMove` refuses RIGHT only when `col > NUM_COLS - 3`.
- Its collision tests are the ad hoc ones of the code.
- A filled source cell overwrites a filled destination in `moveFaceBlock`.
- `removeRows` never shifts row 0. Its shift copies rows `i-1 .. 1` into
  rows `i .. 2`, so after a clear at row `i >= 2`, row 1 is kept and also
  appears in row 2.
- `removeRows` moves on to row `i - 1` after a clear, so a full row shifted
  into row `i` is not tested again in the same pass.

A line clear therefore does not always lower the number of blocks by a
multiple of the row width. A clear at row `i >= 2` removes that row's
`NUM_COLS` blocks and adds a copy of row 1's blocks (`LineClear.CollapseCount`).
In particular, when row 19 is cleared, row 0 is not emptied: it keeps its
content, and row 1 is duplicated into row 2.

The random draws of `createRandomPiece` are parameters:
- `col` in `0 .. NUM_COLS-2`;
- `type` in `1 .. NUM_COLORS`;
- `which` in `0 .. 3`.

`KeyPressed` takes two sets of draws:
- `reset` for the spawn done by the N and T keys;
- `landing` for the spawn done by the landed check.

## Model

| member | source | states |
|---|---|---|
| Engine.Mintris.constructor | MintrisGameStarterVer2/Mintris.java:55-58 | a new engine holds a 20 x 10 field of zeroes (`INVALID_COLOR`), score 0 and anchor (0, 0); the anchor fields are initialised at Mintris.java:347-348 |
| Engine.Mintris.ClearField | MintrisGameStarterVer2/Mintris.java:71-81 | afterwards every cell of the field is `EMPTY` |
| Field.Cleared | MintrisGameStarterVer2/Mintris.java:71-81 | the cleared field is well formed and all its cells are `EMPTY` |
| Engine.Mintris.Rotate | MintrisGameStarterVer2/Mintris.java:93-102 | the new field is the old one rotated by `Moves.Rotated`, so only the four window cells change |
| Moves.Rotated | MintrisGameStarterVer2/Mintris.java:93-102 | a rotation leaves every cell outside the 2 x 2 window unchanged |
| Moves.RotateKeepsWindowContents | MintrisGameStarterVer2/Mintris.java:95-100 | a rotation permutes the four window cells: the multiset of their values is kept |
| Moves.RotateFourTimes | MintrisGameStarterVer2/Mintris.java:93-102 | four rotations at the same anchor restore the field exactly |
| Engine.Mintris.MoveFaceBlock | MintrisGameStarterVer2/Mintris.java:115-122 | an `EMPTY` source leaves the destination as it was; a filled source is copied over it; no other cell changes |
| Moves.Shifted | MintrisGameStarterVer2/Mintris.java:143-175 | the shift changes no cell outside the move's footprint and empties the two vacated back cells |
| Engine.Mintris.Shift | MintrisGameStarterVer2/Mintris.java:143-175 | the shift part of `move` turns the field into `Moves.Shifted` of the old one, in every direction |
| Engine.Mintris.ShiftLeft | MintrisGameStarterVer2/Mintris.java:143-153 | the LEFT branch yields `Moves.Shifted(old, row, col, Left)` |
| Engine.Mintris.ShiftDown | MintrisGameStarterVer2/Mintris.java:154-164 | the DOWN branch yields `Moves.Shifted(old, row, col, Down)` |
| Engine.Mintris.ShiftRight | MintrisGameStarterVer2/Mintris.java:165-175 | the RIGHT branch yields `Moves.Shifted(old, row, col, Right)` |
| Moves.ShiftKeepsSettledBlocks | MintrisGameStarterVer2/Mintris.java:115-122 | a settled block outside the window is never erased by a shift; it stays, or a block of the piece replaces it |
| Moves.ShiftPreservesFilled | MintrisGameStarterVer2/Mintris.java:141-175 | a shift that `validMove` allows keeps the number of filled cells on the field |
| Moves.LateralShiftKeepsRowCounts | MintrisGameStarterVer2/Mintris.java:143-153 | a legal LEFT or RIGHT shift keeps the number of blocks in each of the two rows it moves |
| Moves.DownShiftKeepsColumnCounts | MintrisGameStarterVer2/Mintris.java:154-164 | a legal DOWN shift keeps the number of blocks in each column of the three rows it touches |
| Moves.ShiftKeepsOtherRows | MintrisGameStarterVer2/Mintris.java:143-175 | a shift leaves every row outside rows `row .. row+2` unchanged |
| Engine.Mintris.Move | MintrisGameStarterVer2/Mintris.java:141-178 | `move` is the shift followed by the line-clear pass; the score rises by the rows that pass clears; the anchor is untouched |
| Moves.ValidMove | MintrisGameStarterVer2/Mintris.java:197-268 | a true result guarantees that every index the move touches is in range, and a lateral move leaves room for `row+2` |
| Moves.ValidMoveRefusals | MintrisGameStarterVer2/Mintris.java:197-268 | refuses LEFT at `col <= 0`, RIGHT at `col > NUM_COLS-3`, DOWN at `row > NUM_ROWS-3`; a legal move has a non-full window, no column `col`/`col+1` filled at both `row+1` and `row+2`, and no lateral collision in the rows it moves |
| Moves.ValidMoveAllows | MintrisGameStarterVer2/Mintris.java:197-268 | the converse of the refusals: a move that passes the boundary tests, the full-window test, both column-stack tests and, for LEFT and RIGHT, the lateral tests is allowed |
| Engine.Mintris.CheckRow | MintrisGameStarterVer2/Mintris.java:276-294 | true exactly when every cell of the row is non-`EMPTY`; the loop keeps the counter equal to the number of filled cells among the first `j` columns |
| Field.FilledAmong | MintrisGameStarterVer2/Mintris.java:278-285 | the count of filled cells never exceeds the number of cells scanned and reaches it only if the last one is filled |
| Field.FilledAmongAll | MintrisGameStarterVer2/Mintris.java:286-293 | the count equals the number of cells scanned if and only if all of them are filled |
| Field.FilledAmongNone | MintrisGameStarterVer2/Mintris.java:278-285 | the count is 0 if and only if none of the cells scanned is filled |
| LineClear.Collapse | MintrisGameStarterVer2/Mintris.java:312-322 | clearing full row `i` yields a well-formed field |
| LineClear.CollapseKeepsTopRows | MintrisGameStarterVer2/Mintris.java:312-322 | row 0 is kept; for `i >= 2`, rows 1 and 2 both hold the old row 1; for `i = 1`, row 1 becomes empty |
| LineClear.CollapseCount | MintrisGameStarterVer2/Mintris.java:312-322 | a clear at `i >= 2` removes `NUM_COLS` blocks and adds row 1's blocks; a clear at `i = 1` removes `NUM_COLS` blocks |
| LineClear.CollapsedRowsCount | MintrisGameStarterVer2/Mintris.java:316-322 | after the shift, the first `k` rows hold the blocks of the old first `k-1` rows plus those of row 1 |
| Engine.Mintris.CollapseRow | MintrisGameStarterVer2/Mintris.java:312-322 | emptying row `i` and shifting the rows above it yields `LineClear.Collapse` of the old field |
| Engine.Mintris.ShiftRowsDown | MintrisGameStarterVer2/Mintris.java:316-322 | rows `2 .. i` take the old rows `1 .. i-1`; rows 0, 1 and those below `i` are unchanged |
| LineClear.Sweep | MintrisGameStarterVer2/Mintris.java:308-325 | the pass from row `i` up clears at most `i` rows, never changes row 0, and leaves the rows below `i` alone |
| LineClear.RemoveRows | MintrisGameStarterVer2/Mintris.java:303-327 | the whole pass keeps row 0 and clears at most `NUM_ROWS-1` rows |
| LineClear.SweepWithoutFullRows | MintrisGameStarterVer2/Mintris.java:303-327 | on a field with no full row among rows `1 .. i` the pass changes nothing and scores nothing |
| LineClear.SweepScoresAnyFull | MintrisGameStarterVer2/Mintris.java:308-325 | a full row anywhere among rows `1 .. i` makes the pass score at least one point |
| LineClear.SweepScoresIffFullRow | MintrisGameStarterVer2/Mintris.java:303-327 | the pass scores nothing if and only if none of rows `1 .. i` is full when it starts |
| LineClear.SweepScoresFullRow | MintrisGameStarterVer2/Mintris.java:310-323 | the pass scores at least one point when the first row it reaches is full |
| LineClear.StackedFullRowSurvives | MintrisGameStarterVer2/Mintris.java:308-322 | with rows `i` and `i-1` both full, row `i` is still full after the pass, because the index moves on after a clear |
| Engine.Mintris.RemoveRows | MintrisGameStarterVer2/Mintris.java:303-327 | the field becomes the pass's result and the score rises by exactly the number of rows it cleared; the anchor is untouched |
| Turn.Spawn | MintrisGameStarterVer2/Mintris.java:373-398 | a spawn puts the anchor at row 0 and the drawn column, inside the field, and keeps the score |
| Turn.SpawnShape | MintrisGameStarterVer2/Mintris.java:380-392 | exactly three window cells at row 0 hold the drawn colour; the drawn cell `(which/2, col+which%2)` is `EMPTY`; every other cell is unchanged |
| Turn.Spawned | MintrisGameStarterVer2/Mintris.java:380-392 | the drawn cell `(which/2, col+which%2)` is `EMPTY`, the other three window cells at row 0 hold the colour, and every cell outside the window is unchanged |
| Engine.Mintris.CreateRandomPiece | MintrisGameStarterVer2/Mintris.java:373-398 | the new state is `Turn.Spawn` of the old one with the given draws |
| Turn.TestGrid | MintrisGameStarterVer2/Mintris.java:579-594 | the test layout is a well-formed field |
| Engine.Mintris.PaintMiddleColumn | MintrisGameStarterVer2/Mintris.java:580-583 | column `NUM_COLS/2` becomes blue from row 3 to the bottom; every other cell keeps its value |
| Engine.Mintris.PaintBottomRows | MintrisGameStarterVer2/Mintris.java:584-590 | the two bottom rows become red; every other cell keeps its value |
| Engine.Mintris.LayOutTest | MintrisGameStarterVer2/Mintris.java:579-594 | the T key's layout loops produce exactly `Turn.TestGrid` |
| Field.NormalizeCell | MintrisGameStarterVer2/Mintris.java:477-480 | a value in `0 .. EMPTY` is kept; any other value becomes `INVALID_COLOR`; the result is always in `0 .. EMPTY` |
| Field.Normalized | MintrisGameStarterVer2/Mintris.java:467-480 | after the whole-field pass every cell is in `0 .. EMPTY`; cells already in range are kept, and any cell that changed now holds `INVALID_COLOR` |
| Field.NormalizedIsStable | MintrisGameStarterVer2/Mintris.java:467-480 | after normalisation every cell is in range, and normalising again changes nothing |
| Engine.Mintris.Normalize | MintrisGameStarterVer2/Mintris.java:467-480 | the paint loop rewrites the field into `Field.Normalized` of the old one |
| Turn.Moved | MintrisGameStarterVer2/Mintris.java:141-178 | a move keeps the anchor and never lowers the score |
| Turn.Advance | MintrisGameStarterVer2/Mintris.java:519-551 | a move `validMove` refuses leaves the state unchanged; an allowed one moves the anchor by the direction's offset and never lowers the score |
| Engine.Mintris.TryMove | MintrisGameStarterVer2/Mintris.java:519-551 | one arrow key's guarded move yields `Turn.Advance` of the old state |
| Turn.Drop | MintrisGameStarterVer2/Mintris.java:554-560 | the hard drop terminates where DOWN is refused, keeps the column, and never lowers the row or the score |
| Engine.Mintris.DropPiece | MintrisGameStarterVer2/Mintris.java:554-560 | the hard-drop loop yields `Turn.Drop` of the old state |
| Turn.Land | MintrisGameStarterVer2/Mintris.java:606-610 | a piece that can still go down is left alone; a landed one triggers the line-clear pass and a spawn, so the anchor becomes (0, drawn column) and the score does not fall |
| Turn.Act | MintrisGameStarterVer2/Mintris.java:516-603 | after any command the anchor row leaves room for the 2 x 2 window |
| Engine.Mintris.Dispatch | MintrisGameStarterVer2/Mintris.java:516-603 | the key switch yields `Turn.Act` of the old state |
| Turn.Step | MintrisGameStarterVer2/Mintris.java:512-610 | between key presses the anchor stays within rows `0 .. NUM_ROWS-3` and columns `0 .. NUM_COLS-2`; only a new game can lower the score, and a non-negative score stays non-negative |
| Engine.Mintris.KeyPressed | MintrisGameStarterVer2/Mintris.java:512-610 | a key press yields `Turn.Step` of the old state, and the anchor stays inside the field |
| Turn.SpawnOnClearedCanFall | MintrisGameStarterVer2/Mintris.java:569-574 | a piece spawned on a cleared field can always move down |
| Turn.NewGameResets | MintrisGameStarterVer2/Mintris.java:569-574 | after N the score is 0, the anchor is at the top at the drawn column, and the field is the new piece alone |
| Turn.HardDropSpawns | MintrisGameStarterVer2/Mintris.java:554-560 | after a hard drop the landed check always spawns: the anchor is back at row 0, and the score has not dropped |

## Left out

- Drawing: `paint`, `drawBlock`, `blockColors`, fonts and window geometry. Only the value normalisation inside `paint` is modelled.
- UI plumbing: `main`, the `JFrame`, the window listener, `repaint()`, `keyReleased` and `keyTyped`.
- Key-code decoding. The keys become the `Turn.Command` values. A key the switch does not handle is `Other`, which still runs the landed check.
- The Q key. It ends the process with `System.exit(0)` and has no state to model.
- `java.util.Random`. Its three draws are parameters, with the ranges the calls produce.
- Calls with out-of-range indices. In the source these throw `ArrayIndexOutOfBoundsException`; the model's preconditions exclude them. For `move` and `moveFaceBlock` these are the preconditions that `keyPressed` meets through its `validMove` guards. The `rotate` call has no guard; its precondition holds through the anchor invariant that `Turn.Step` keeps between key presses.
- Integer directions other than `LEFT`, `DOWN` and `RIGHT`. `Direction` has only these three.
- Engine.Mintris.Move: does not model the 32-bit wrap-around of `score`. The score is an unbounded integer, because it would take more than two billion cleared rows to wrap.
