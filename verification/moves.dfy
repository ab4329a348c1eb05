/** `Move.java`: the move record and the two static helpers the rules use
    to walk a diagonal. */
module Moves {
  import opened Options
  import opened Pieces
  import opened Boards

  /** An immutable move; the datatype fields are the four getters. */
  datatype Move = Move(fromRow: int, fromCol: int, toRow: int, toCol: int)

  function From(m: Move): Pos {
    Pos(m.fromRow, m.fromCol)
  }

  function To(m: Move): Pos {
    Pos(m.toRow, m.toCol)
  }

  function MoveOf(from: Pos, to: Pos): (m: Move)
    ensures From(m) == from && To(m) == to
  {
    Move(from.row, from.col, to.row, to.col)
  }

  /** Source and target lie on one diagonal, `n >= 1` steps apart. */
  predicate IsDiagonal(from: Pos, to: Pos) {
    Abs(to.row - from.row) == Abs(to.col - from.col) >= 1
  }

  /** The unit direction from `from` toward `to`, as the source computes it
      component-wise (a zero difference counts as negative). */
  function Heading(from: Pos, to: Pos): Dir {
    Dir(SignOf(to.row - from.row), SignOf(to.col - from.col))
  }

  /** `translateMoveDirection`: `null` (None) unless the two differences
      have the same magnitude; otherwise each component is `+1` exactly when
      its difference is positive. */
  function TranslateMoveDirection(from: Pos, to: Pos): (r: Option<Dir>)
    ensures r.None? <==> Abs(to.row - from.row) != Abs(to.col - from.col)
    ensures r.Some? ==> (r.value.dr == 1 <==> to.row > from.row)
    ensures r.Some? ==> (r.value.dc == 1 <==> to.col > from.col)
    // stepping |rowDiff| times along the direction reaches the target, and no
    // earlier step does, so the walking loops that stop there terminate
    ensures r.Some? && from != to ==> Shift(from, r.value, Abs(to.row - from.row)) == to
    ensures r.Some? ==> forall k :: 0 <= k < Abs(to.row - from.row) ==> Shift(from, r.value, k) != to
  {
    if Abs(to.row - from.row) != Abs(to.col - from.col) then None
    else Some(Heading(from, to))
  }

  /** A piece of the other colour than `t` stands at `p`. */
  predicate IsEnemy(b: Board, p: Pos, t: PieceType) {
    Occupied(b, p) && Get(b, p).value.pieceType != t
  }

  /** The loop of `hasPassedThroughEnemy`, at the cell `k` steps out of `n`:
      it reports an enemy exactly when one stands at some step in `[k, n)`. */
  function EnemyWalk(b: Board, from: Pos, d: Dir, t: PieceType, k: nat, n: nat): (r: bool)
    requires k <= n
    ensures r <==> exists j :: k <= j < n && IsEnemy(b, Shift(from, d, j), t)
    decreases n - k
  {
    if k == n then false
    else if IsEnemy(b, Shift(from, d, k), t) then true
    else
      assert forall j :: k <= j < n && IsEnemy(b, Shift(from, d, j), t) ==> k + 1 <= j;
      EnemyWalk(b, from, d, t, k + 1, n)
  }

  /** Some cell strictly between origin and target holds a piece of the
      other colour than the piece at the origin. */
  ghost predicate PassesEnemy(b: Board, from: Pos, to: Pos) {
    && Occupied(b, from)
    && exists k :: 0 < k < Abs(to.row - from.row)
                && IsEnemy(b, Shift(from, Heading(from, to), k), Get(b, from).value.pieceType)
  }

  /** `hasPassedThroughEnemy`: walks the cells strictly between origin and
      target; true on the first one holding a piece whose colour differs from
      the piece at the origin (friendly pieces are skipped). The walk
      terminates only on a diagonal with distinct ends, and reads the origin's
      colour, hence the preconditions. */
  function HasPassedThroughEnemy(b: Board, from: Pos, to: Pos): (r: bool)
    requires OnBoard(from) && OnBoard(to) && IsDiagonal(from, to)
    requires Occupied(b, from)
    ensures r <==> PassesEnemy(b, from, to)
    ensures Abs(to.row - from.row) == 1 ==> !r
  {
    var n := Abs(to.row - from.row);
    EnemyWalk(b, from, Heading(from, to), Get(b, from).value.pieceType, 1, n)
  }
}
