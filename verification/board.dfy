/** The 8x8 board of `CheckersPanel` (the `Piece[][] board` field) and the
    diagonal geometry the rules are written in. */
module Boards {
  import opened Options
  import opened Pieces

  /** `BOARD_SIZE`. */
  const Size: int := 8

  datatype Pos = Pos(row: int, col: int)

  type Cell = Option<Piece>

  /** Exactly `Size` rows of exactly `Size` cells. */
  ghost predicate IsGrid(cells: seq<seq<Cell>>) {
    |cells| == Size && forall r :: 0 <= r < |cells| ==> |cells[r]| == Size
  }

  type Board = cells: seq<seq<Cell>> | IsGrid(cells)
    witness seq(Size, _ => seq(Size, _ => None))

  predicate OnBoard(p: Pos) {
    0 <= p.row < Size && 0 <= p.col < Size
  }

  function Get(b: Board, p: Pos): Cell
    requires OnBoard(p)
  {
    b[p.row][p.col]
  }

  /** `board[row][col] = v`: only the addressed cell changes. */
  function Set(b: Board, p: Pos, v: Cell): (r: Board)
    requires OnBoard(p)
    ensures Get(r, p) == v
    ensures forall q :: OnBoard(q) && q != p ==> Get(r, q) == Get(b, q)
  {
    b[p.row := b[p.row][p.col := v]]
  }

  /** The cell is on the board and holds a piece. */
  predicate Occupied(b: Board, p: Pos) {
    OnBoard(p) && Get(b, p).Some?
  }

  /** The cell is on the board and holds a piece of colour `t`. */
  predicate HasType(b: Board, p: Pos, t: PieceType) {
    Occupied(b, p) && Get(b, p).value.pieceType == t
  }

  function Abs(x: int): nat {
    if x < 0 then -x else x
  }

  /** Java's `x / 2` on `int`, which truncates toward zero (Dafny's `/`
      rounds toward negative infinity for a negative dividend). */
  function Quot2(x: int): (q: int)
    ensures x >= 0 ==> 0 <= x - 2 * q <= 1
    ensures x < 0 ==> -1 <= x - 2 * q <= 0
    ensures x >= 0 ==> 0 <= q <= x
    ensures x < 0 ==> x <= q <= 0
  {
    if x >= 0 then x / 2 else -((-x) / 2)
  }

  /** One component of a diagonal direction: `+1` or `-1`. */
  type Delta = s: int | s == 1 || s == -1 witness 1

  /** A diagonal direction `{rowDirection, colDirection}`. */
  datatype Dir = Dir(dr: Delta, dc: Delta)

  /** The direction component the source computes as `diff > 0 ? 1 : -1`. */
  function SignOf(x: int): (s: Delta)
    ensures s == 1 <==> x > 0
  {
    if x > 0 then 1 else -1
  }

  /** `x + k * s` for a unit step `s`, written without multiplication. */
  function Along(x: int, s: Delta, k: int): int {
    if s == 1 then x + k else x - k
  }

  /** The cell `k` steps from `p` in direction `d`. */
  function Shift(p: Pos, d: Dir, k: int): Pos {
    Pos(Along(p.row, d.dr, k), Along(p.col, d.dc, k))
  }

  /** Every cell between two on-board cells of a ray is on the board. */
  lemma ShiftBetweenOnBoard(p: Pos, d: Dir, k: int, n: int)
    requires OnBoard(p) && OnBoard(Shift(p, d, n)) && 0 <= k <= n
    ensures OnBoard(Shift(p, d, k))
  {
  }

  /** The cell `p` comes at or after `(row, col)` in row-major order, the
      order of the source's nested board loops. */
  predicate AtOrAfter(p: Pos, row: int, col: int) {
    p.row > row || (p.row == row && p.col >= col)
  }

  /** Dark squares: the only squares the setup uses, `(row + col)` odd. */
  predicate IsDark(p: Pos) {
    (p.row + p.col) % 2 != 0
  }

  /** Every piece on the board stands on a dark square. */
  ghost predicate PiecesOnDark(b: Board) {
    forall p :: Occupied(b, p) ==> IsDark(p)
  }
}
