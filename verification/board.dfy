/** Shared vocabulary of the sliding-block puzzle: pieces, the exit zone and
    the cells a piece covers. Both the level parser and the movement engine
    speak in these terms. */
module Board {

  datatype Option<T> = None | Some(value: T)

  /** The type letter of the goal piece, the only one allowed on the exit. */
  const GoalKind: char := 'd'

  /** A rectangular piece: `row`/`col` is its top-left cell. */
  datatype Piece = Piece(id: string, kind: char, row: int, col: int, width: int, height: int)

  /** The exit zone: cells `(row, lo)` .. `(row, hi)` on one row. */
  datatype Exit = Exit(row: int, lo: int, hi: int)

  /** Cell (r, c) is among those `p` would cover with its top-left at (row, col). */
  predicate InFootprint(p: Piece, row: int, col: int, r: int, c: int) {
    row <= r < row + p.height && col <= c < col + p.width
  }

  /** Cell (r, c) is covered by `p` where it currently stands. */
  predicate Covers(p: Piece, r: int, c: int) {
    InFootprint(p, p.row, p.col, r, c)
  }

  predicate InExit(e: Exit, r: int, c: int) {
    r == e.row && e.lo <= c <= e.hi
  }

  /** The set of cells `p` covers. */
  function Footprint(p: Piece): (cells: set<(int, int)>)
    ensures forall r, c :: (r, c) in cells <==> Covers(p, r, c)
  {
    set r, c | p.row <= r < p.row + p.height && p.col <= c < p.col + p.width :: (r, c)
  }

  /** `p` relocated so that its top-left is (row, col); nothing else changes. */
  function MoveTo(p: Piece, row: int, col: int): Piece {
    p.(row := row, col := col)
  }
}
