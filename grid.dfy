/** Board geometry and the packed cell encoding of the snake game.

    The board is a fixed 20 x 20 grid addressed by a linear index
    `BOARD_WIDTH * y + x`. Every cell is one 32-bit word whose bits 2-3 hold
    the occupancy kind and whose bits 0-1 hold the direction the snake segment
    on it was travelling when it was laid down. */
module Grid {

  const BOARD_WIDTH: int := 20
  const BOARD_HEIGHT: int := 20
  const BOARD_SIZE: int := BOARD_WIDTH * BOARD_HEIGHT

  /** A packed cell, the occupancy kind and the direction are all C `int` words. */
  type Cell = bv32
  type CellType = bv32
  type CellDirection = bv32

  const EMPTY: CellType := 0x00
  const APPLE: CellType := 0x04
  const SNAKE: CellType := 0x08
  const TYPE_MASK: CellType := 0x0C

  const UP: CellDirection := 0
  const LEFT: CellDirection := 1
  const DOWN: CellDirection := 2
  const RIGHT: CellDirection := 3
  const DIRECTION_COUNT: CellDirection := 4
  const DIRECTION_MASK: CellDirection := 0x03

  function Min(a: int, b: int): int { if a < b then a else b }

  function Max(a: int, b: int): int { if a > b then a else b }

  /** C's `/` on `int`, which truncates toward zero. */
  function CDiv(a: int, b: int): int
    requires b > 0
  {
    if a >= 0 then a / b else -((-a) / b)
  }

  /** C's `%` on `int`, whose result takes the sign of the dividend. */
  function CRem(a: int, b: int): int
    requires b > 0
  {
    if a >= 0 then a % b else -((-a) % b)
  }

  predicate InBoard(c: int) { 0 <= c < BOARD_SIZE }

  // ---------------------------------------------------------------------------
  // Coordinates

  /** The linear index of column `x`, row `y`. */
  function CellIndex(x: int, y: int): (c: int)
    ensures 0 <= x < BOARD_WIDTH && 0 <= y < BOARD_HEIGHT ==>
              InBoard(c) && CellX(c) == x && CellY(c) == y
  {
    BOARD_WIDTH * y + x
  }

  /** The column of a linear index. */
  function CellX(c: int): (x: int)
    ensures InBoard(c) ==> 0 <= x < BOARD_WIDTH
  {
    CRem(c, BOARD_WIDTH)
  }

  /** The row of a linear index. */
  function CellY(c: int): (y: int)
    ensures InBoard(c) ==> 0 <= y < BOARD_HEIGHT
  {
    CDiv(c, BOARD_WIDTH)
  }

  /** Splitting an index into coordinates and joining them again is the identity. */
  lemma CoordinatesRoundTrip(c: int)
    requires InBoard(c)
    ensures CellIndex(CellX(c), CellY(c)) == c
  {
  }

  // ---------------------------------------------------------------------------
  // Neighbours

  /** The neighbour of `c` in direction `dir`, clamped at the edges of the
      board: a move off an edge stays on the edge cell. Any other value of
      `dir` leaves the cell where it is. */
  function CellDir(c: int, dir: CellDirection): (r: int)
    ensures InBoard(c) ==> InBoard(r)
  {
    var x := CellX(c);
    var y := CellY(c);
    if dir == UP then CellIndex(x, Max(y - 1, 0))
    else if dir == LEFT then CellIndex(Max(x - 1, 0), y)
    else if dir == DOWN then CellIndex(x, Min(y + 1, BOARD_HEIGHT - 1))
    else if dir == RIGHT then CellIndex(Min(x + 1, BOARD_WIDTH - 1), y)
    else CellIndex(x, y)
  }

  /** `c` lies on the edge that a move in `dir` would leave (or `dir` names no direction). */
  predicate AtEdge(c: int, dir: CellDirection)
  {
    || (dir == UP && CellY(c) == 0)
    || (dir == LEFT && CellX(c) == 0)
    || (dir == DOWN && CellY(c) == BOARD_HEIGHT - 1)
    || (dir == RIGHT && CellX(c) == BOARD_WIDTH - 1)
    || dir > RIGHT
  }

  /** `CellDir` in terms of linear indices alone: one row up or down is
      `BOARD_WIDTH` cells away, one column left or right is one cell away, and
      the cell stays put exactly when it is at the edge it would leave. */
  lemma CellDirIsClampedStep(c: int, dir: CellDirection)
    requires InBoard(c)
    ensures dir == UP ==> CellDir(c, dir) == (if c < BOARD_WIDTH then c else c - BOARD_WIDTH)
    ensures dir == DOWN ==>
              CellDir(c, dir) == (if c >= BOARD_SIZE - BOARD_WIDTH then c else c + BOARD_WIDTH)
    ensures dir == LEFT ==> CellDir(c, dir) == (if c % BOARD_WIDTH == 0 then c else c - 1)
    ensures dir == RIGHT ==>
              CellDir(c, dir) == (if c % BOARD_WIDTH == BOARD_WIDTH - 1 then c else c + 1)
    ensures dir > RIGHT ==> CellDir(c, dir) == c
    ensures CellDir(c, dir) == c <==> AtEdge(c, dir)
  {
  }

  /** A horizontal move keeps the row (it never wraps into the next row) and a
      vertical move keeps the column; either changes the other coordinate by at
      most one. */
  lemma CellDirStaysOnAxis(c: int, dir: CellDirection)
    requires InBoard(c)
    ensures dir == LEFT || dir == RIGHT ==>
              CellY(CellDir(c, dir)) == CellY(c) &&
              -1 <= CellX(CellDir(c, dir)) - CellX(c) <= 1
    ensures dir == UP || dir == DOWN ==>
              CellX(CellDir(c, dir)) == CellX(c) &&
              -1 <= CellY(CellDir(c, dir)) - CellY(c) <= 1
  {
  }

  // ---------------------------------------------------------------------------
  // Cell codec

  /** The occupancy kind stored in bits 2-3 of a cell. */
  function TypeOf(c: Cell): (t: CellType)
    ensures t == EMPTY || t == APPLE || t == SNAKE || t == TYPE_MASK
  {
    c & TYPE_MASK
  }

  /** The direction stored in bits 0-1 of a cell. */
  function DirOf(c: Cell): (d: CellDirection)
    ensures d <= DIRECTION_MASK
  {
    c & DIRECTION_MASK
  }

  predicate IsCellType(t: CellType) { t == EMPTY || t == APPLE || t == SNAKE }

  predicate IsSnake(c: Cell) { TypeOf(c) == SNAKE }

  /** Packs an occupancy kind and a direction into one cell. The two fields
      occupy disjoint bits, so both can be read back unchanged. */
  function MakeCell(t: CellType, d: CellDirection): (c: Cell)
    ensures IsCellType(t) && d <= DIRECTION_MASK ==> TypeOf(c) == t && DirOf(c) == d
  {
    t | d
  }

  /** A snake segment travelling in direction `d`. */
  function SnakeCell(d: CellDirection): (c: Cell)
    requires d <= DIRECTION_MASK
    ensures IsSnake(c) && DirOf(c) == d && c != EMPTY
  {
    MakeCell(SNAKE, d)
  }

  /** A cell that uses only the two fields is rebuilt from them. */
  lemma CellFromFields(c: Cell)
    requires c <= 0x0F
    ensures MakeCell(TypeOf(c), DirOf(c)) == c
  {
  }

  /** The reverse of a direction. */
  function Opposite(d: CellDirection): CellDirection
    requires d <= DIRECTION_MASK
  {
    (d + 2) % DIRECTION_COUNT
  }

  /** Two directions have the same parity exactly when they lie on the same
      axis: the same direction or its reverse. */
  lemma SameParityIsSameAxis(a: CellDirection, b: CellDirection)
    requires a <= DIRECTION_MASK && b <= DIRECTION_MASK
    ensures (a % 2 == b % 2) <==> (b == a || b == Opposite(a))
  {
  }
}
