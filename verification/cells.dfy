/**
 * Cell encoding of the Mintris playing field.
 *
 * The field is a 20x10 grid of integers.  The values 1..NumColors are block
 * colours, Empty (= NumColors + 1) is a free cell and InvalidColor (= 0) is the
 * marker an out-of-range value is normalised to before it is drawn.
 */
module Cells {
  const NumRows: int := 20
  const NumCols: int := 10

  const NumColors: int := 3
  const InvalidColor: int := 0
  const RedBlock: int := 1
  const GreenBlock: int := 2
  const BlueBlock: int := 3
  const Empty: int := NumColors + 1

  /** The three directions a piece can be moved in (LEFT = -1, DOWN = 0, RIGHT = 1). */
  datatype Direction = Left | Down | Right

  /** A block colour, as drawn by the random piece generator. */
  predicate IsColor(v: int) {
    1 <= v <= NumColors
  }
}
