/** The move rules of `CheckersPanel`: `isValidMove`, `movePiece`, and the
    queen-capture removal its two callers perform before `movePiece`. */
module Rules {
  import opened Options
  import opened Pieces
  import opened Boards
  import opened Moves

  /** The row direction a regular piece of colour `t` moves in: RED moves
      down the rows (toward row 7), BLACK up (toward row 0). */
  function Forward(t: PieceType): Delta {
    if t == Red then 1 else -1
  }

  /** The row on which a piece of colour `t` is promoted. */
  function PromotionRow(t: PieceType): int {
    if t == Red then Size - 1 else 0
  }

  // ---------------------------------------------------------------------
  // Paths along a ray: the cells `from + j * d` for `k <= j < n`.

  /** No piece of colour `t` on the steps `[k, n)`. */
  ghost predicate NoFriendOnPath(b: Board, from: Pos, d: Dir, t: PieceType, k: int, n: int) {
    forall j :: k <= j < n ==> !HasType(b, Shift(from, d, j), t)
  }

  /** At most one occupied cell on the steps `[k, n)`. */
  ghost predicate AtMostOneOnPath(b: Board, from: Pos, d: Dir, k: int, n: int) {
    forall i, j :: k <= i < j < n ==> !(Occupied(b, Shift(from, d, i)) && Occupied(b, Shift(from, d, j)))
  }

  /** Every cell on the steps `[k, n)` is free. */
  ghost predicate PathClear(b: Board, from: Pos, d: Dir, k: int, n: int) {
    forall j :: k <= j < n ==> !Occupied(b, Shift(from, d, j))
  }

  /** A path whose first cell is the only occupied one holds at most one
      piece. */
  lemma FirstOnlyOnPath(b: Board, from: Pos, d: Dir, k: int, n: int)
    requires PathClear(b, from, d, k + 1, n)
    ensures AtMostOneOnPath(b, from, d, k, n)
  {
    forall i, j | k <= i < j < n
      ensures !(Occupied(b, Shift(from, d, i)) && Occupied(b, Shift(from, d, j)))
    {
      assert !Occupied(b, Shift(from, d, j));
    }
  }

  /** The loop of the queen branch of `isValidMove`, at the cell `k` steps
      out of `n`: a friendly piece, or any piece after one has already been
      passed, makes the move illegal. So it accepts exactly when the rest of
      the path holds no friendly piece and at most one piece, and no piece at
      all once one has been passed. */
  function QueenWalk(b: Board, from: Pos, d: Dir, t: PieceType, k: nat, n: nat, captured: bool): (r: bool)
    requires k <= n
    ensures r <==> NoFriendOnPath(b, from, d, t, k, n) && AtMostOneOnPath(b, from, d, k, n)
                   && (captured ==> PathClear(b, from, d, k, n))
    decreases n - k
  {
    if k == n then true
    else if Occupied(b, Shift(from, d, k)) then
      if Get(b, Shift(from, d, k)).value.pieceType == t || captured then false
      else
        var r := QueenWalk(b, from, d, t, k + 1, n, true);
        if r then FirstOnlyOnPath(b, from, d, k, n); r else r
    else QueenWalk(b, from, d, t, k + 1, n, captured)
  }

  // ---------------------------------------------------------------------
  // isValidMove

  /** What `isValidMove` needs to run without an exception: once the target
      is on the board and empty it reads the piece at the origin, and for a
      queen it dereferences `translateMoveDirection`, which is `null` off a
      diagonal. */
  predicate IsValidMovePre(b: Board, from: Pos, to: Pos) {
    OnBoard(to) && Get(b, to).None? ==>
      Occupied(b, from)
      && (Get(b, from).value.isQueen ==> Abs(to.row - from.row) == Abs(to.col - from.col))
  }

  /** `isValidMove`. */
  function IsValidMove(b: Board, from: Pos, to: Pos): (r: bool)
    requires IsValidMovePre(b, from, to)
    // an off-board or occupied target is never legal
    ensures r ==> OnBoard(to) && Get(b, to).None?
    // every legal move is a diagonal of at least one step
    ensures r ==> IsDiagonal(from, to)
    // a regular piece: one forward step, or a forward jump over an enemy
    ensures OnBoard(to) && Get(b, to).None? && !Get(b, from).value.isQueen ==>
              (r <==> var t := Get(b, from).value.pieceType;
                      && IsDiagonal(from, to)
                      && Heading(from, to).dr == Forward(t)
                      && (Abs(to.row - from.row) == 1
                          || (Abs(to.row - from.row) == 2 && IsEnemy(b, Shift(from, Heading(from, to), 1), t))))
    // a queen: any diagonal, passing no friendly piece and at most one piece
    ensures OnBoard(to) && Get(b, to).None? && Get(b, from).value.isQueen ==>
              (r <==> var n := Abs(to.row - from.row);
                      && n >= 1
                      && NoFriendOnPath(b, from, Heading(from, to), Get(b, from).value.pieceType, 1, n)
                      && AtMostOneOnPath(b, from, Heading(from, to), 1, n))
  {
    if !OnBoard(to) then false
    else if Get(b, to).Some? then false
    else
      var rowDiff := to.row - from.row;
      var colDiff := to.col - from.col;
      var t := Get(b, from).value.pieceType;
      if !Get(b, from).value.isQueen then
        if t == Red && rowDiff <= 0 then false
        else if t == Black && rowDiff >= 0 then false
        else if Abs(rowDiff) == 1 && Abs(colDiff) == 1 then true
        else if Abs(rowDiff) == 2 && Abs(colDiff) == 2 then
          var capture := Pos(from.row + Quot2(rowDiff), from.col + Quot2(colDiff));
          assert capture == Shift(from, Heading(from, to), 1);
          Get(b, capture).Some? && Get(b, capture).value.pieceType != t
        else false
      else
        var dir := TranslateMoveDirection(from, to).value;
        QueenWalk(b, from, dir, t, 1, Abs(rowDiff), false)
  }

  /** The move is legal and checking it raises no exception. */
  predicate Legal(b: Board, from: Pos, to: Pos) {
    IsValidMovePre(b, from, to) && IsValidMove(b, from, to)
  }

  // ---------------------------------------------------------------------
  // movePiece

  /** The cell `movePiece` clears when the row difference is two, computed
      with Java's truncating division. */
  function JumpedCell(from: Pos, to: Pos): Pos {
    Pos(from.row + Quot2(to.row - from.row), from.col + Quot2(to.col - from.col))
  }

  /** The piece after landing on row `row`: promoted when that is its
      colour's far row, otherwise unchanged. */
  function Landed(p: Piece, row: int): Piece {
    if (p.pieceType == Red && row == Size - 1) || (p.pieceType == Black && row == 0)
    then SetQueen(p, true) else p
  }

  /** `movePiece`. The code reads the piece at the target after moving it,
      so the origin must hold a piece and differ from the target. */
  function MovePiece(b: Board, from: Pos, to: Pos): (r: Board)
    requires OnBoard(from) && OnBoard(to) && from != to
    requires Occupied(b, from)
    // the target receives the moving piece, same colour, promoted exactly on
    // its far row, and never demoted
    ensures Get(r, to).Some?
    ensures Get(r, to).value.pieceType == Get(b, from).value.pieceType
    ensures Get(r, to).value.isQueen
            <==> Get(b, from).value.isQueen || to.row == PromotionRow(Get(b, from).value.pieceType)
    // the origin becomes empty
    ensures Get(r, from).None?
    // a two-row move empties the cell in between
    ensures Abs(to.row - from.row) == 2 ==> OnBoard(JumpedCell(from, to)) && Get(r, JumpedCell(from, to)).None?
    // nothing else changes
    ensures forall p :: OnBoard(p) && p != from && p != to
                        && !(Abs(to.row - from.row) == 2 && p == JumpedCell(from, to))
                        ==> Get(r, p) == Get(b, p)
  {
    var rowDiff := to.row - from.row;
    var cleared := if Abs(rowDiff) == 2 then Set(b, JumpedCell(from, to), None) else b;
    var moved := Set(Set(cleared, to, Get(cleared, from)), from, None);
    Set(moved, to, Some(Landed(Get(moved, to).value, to.row)))
  }

  // ---------------------------------------------------------------------
  // Playing a move: lines 94-100 (human) and 227-233 (AI) of the panel

  /** The cell right before the target on the ray, `to - dir`. */
  function BeforeTarget(from: Pos, to: Pos): Pos {
    var dir := Heading(from, to);
    Pos(to.row - dir.dr, to.col - dir.dc)
  }

  /** `to - dir` is the last cell of the path, one step short of the target. */
  lemma BeforeTargetOnPath(from: Pos, to: Pos)
    requires OnBoard(from) && OnBoard(to) && IsDiagonal(from, to)
    ensures BeforeTarget(from, to) == Shift(from, Heading(from, to), Abs(to.row - from.row) - 1)
    ensures OnBoard(BeforeTarget(from, to))
    ensures Abs(to.row - from.row) >= 2 ==> BeforeTarget(from, to) != from
  {
  }

  /** The queen-capture clearing of lines 94-98 and 227-231: for a queen
      whose path passed an enemy, the cell `to - dir` is emptied. */
  function ClearQueenCapture(b: Board, from: Pos, to: Pos): (r: Board)
    requires OnBoard(from) && OnBoard(to) && from != to
    requires Occupied(b, from)
    requires Get(b, from).value.isQueen ==> Abs(to.row - from.row) == Abs(to.col - from.col)
    ensures Get(r, from) == Get(b, from)
    ensures Get(b, from).value.isQueen && HasPassedThroughEnemy(b, from, to)
            ==> Get(r, BeforeTarget(from, to)).None?
    ensures forall p :: OnBoard(p)
                        && !(Get(b, from).value.isQueen && HasPassedThroughEnemy(b, from, to) && p == BeforeTarget(from, to))
                        ==> Get(r, p) == Get(b, p)
  {
    if Get(b, from).value.isQueen && HasPassedThroughEnemy(b, from, to) then
      var dir := TranslateMoveDirection(from, to).value;
      BeforeTargetOnPath(from, to);
      Set(b, Pos(to.row - dir.dr, to.col - dir.dc), None)
    else b
  }

  /** What both callers of `movePiece` do: for a queen whose path passed an
      enemy, clear the cell `to - dir`, then `movePiece`. */
  function PlayMove(b: Board, from: Pos, to: Pos): (r: Board)
    requires OnBoard(from) && OnBoard(to) && from != to
    requires Occupied(b, from)
    requires Get(b, from).value.isQueen ==> Abs(to.row - from.row) == Abs(to.col - from.col)
    ensures Get(r, from).None?
    ensures Get(r, to) == Some(Landed(Get(b, from).value, to.row))
    // a queen that passed an enemy clears the cell just before its target
    ensures Get(b, from).value.isQueen && HasPassedThroughEnemy(b, from, to)
            ==> Get(r, BeforeTarget(from, to)).None?
    // a two-row move clears the cell in between
    ensures Abs(to.row - from.row) == 2 ==> Get(r, JumpedCell(from, to)).None?
    // no other cell changes
    ensures forall p :: OnBoard(p) && p != from && p != to
                        && !(Abs(to.row - from.row) == 2 && p == JumpedCell(from, to))
                        && !(Get(b, from).value.isQueen && HasPassedThroughEnemy(b, from, to) && p == BeforeTarget(from, to))
                        ==> Get(r, p) == Get(b, p)
  {
    var cleared := ClearQueenCapture(b, from, to);
    var r := MovePiece(cleared, from, to);
    assert Get(r, to).value == Landed(Get(b, from).value, to.row);
    r
  }

  // ---------------------------------------------------------------------
  // Effect of a legal move

  /** The cell whose piece a legal move removes, if any: the jumped cell of
      a regular two-step jump, or, for a queen, the cell just before the
      target when it holds a piece. */
  function CapturedCell(b: Board, from: Pos, to: Pos): Option<Pos>
    requires Occupied(b, from)
  {
    if !Get(b, from).value.isQueen then
      if Abs(to.row - from.row) == 2 then Some(JumpedCell(from, to)) else None
    else if Abs(to.row - from.row) >= 2 && Occupied(b, BeforeTarget(from, to)) then Some(BeforeTarget(from, to))
    else None
  }

  /** A legal move empties its origin, puts the (possibly promoted) piece on
      its target and removes exactly one enemy, the one at `CapturedCell`,
      or none; every other cell keeps its content. */
  lemma PlayLegalMove(b: Board, from: Pos, to: Pos)
    requires Legal(b, from, to)
    ensures Occupied(b, from) && OnBoard(to) && from != to
    ensures var r := PlayMove(b, from, to);
            var c := CapturedCell(b, from, to);
            && Get(r, from).None?
            && Get(r, to) == Some(Landed(Get(b, from).value, to.row))
            && (c.Some? ==> && OnBoard(c.value) && c.value != from && c.value != to
                            && IsEnemy(b, c.value, Get(b, from).value.pieceType)
                            && Get(r, c.value).None?)
            && (forall p :: OnBoard(p) && p != from && p != to && c != Some(p) ==> Get(r, p) == Get(b, p))
  {
    var r := PlayMove(b, from, to);
    var n := Abs(to.row - from.row);
    var d := Heading(from, to);
    var t := Get(b, from).value.pieceType;
    BeforeTargetOnPath(from, to);
    if n == 2 {
      assert JumpedCell(from, to) == Shift(from, d, 1);
    }
    if Get(b, from).value.isQueen {
      var c := CapturedCell(b, from, to);
      if c.Some? {
        assert IsEnemy(b, c.value, t);
        assert HasPassedThroughEnemy(b, from, to);
      } else if n == 2 {
        assert !Occupied(b, Shift(from, d, 1));
      }
      forall p | OnBoard(p) && p != from && p != to && c != Some(p)
        ensures Get(r, p) == Get(b, p)
      {
        if HasPassedThroughEnemy(b, from, to) && p == BeforeTarget(from, to) {
          assert !Occupied(b, p);
        }
      }
    }
  }

  /** A queen landing further than one cell past the enemy it passed does
      not remove it: only `to - dir` is cleared. Of the pieces on a queen's
      path, exactly the one next to the target disappears. */
  lemma QueenPassedEnemySurvivesUnlessAdjacent(b: Board, from: Pos, to: Pos, k: int)
    requires Legal(b, from, to) && Get(b, from).value.isQueen
    requires 0 < k < Abs(to.row - from.row)
    requires IsEnemy(b, Shift(from, Heading(from, to), k), Get(b, from).value.pieceType)
    ensures Occupied(PlayMove(b, from, to), Shift(from, Heading(from, to), k))
            <==> k < Abs(to.row - from.row) - 1
  {
  }

  /** Pieces stay on dark squares: every legal move is a diagonal, which
      keeps `(row + col) % 2`. */
  lemma PlayLegalMoveKeepsDark(b: Board, from: Pos, to: Pos)
    requires Legal(b, from, to)
    requires PiecesOnDark(b)
    ensures PiecesOnDark(PlayMove(b, from, to))
  {
    PlayLegalMove(b, from, to);
    var r := PlayMove(b, from, to);
    assert IsDark(to) by {
      var dr := to.row - from.row;
      var dc := to.col - from.col;
      assert dr == dc || dr == -dc;
      assert (to.row + to.col) == (from.row + from.col) + dr + dc;
    }
    forall p | Occupied(r, p) ensures IsDark(p) {
      if p != to {
        assert Occupied(b, p);
      }
    }
  }
}
