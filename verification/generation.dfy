/** Move enumeration of `CheckersPanel`: `getPossibleMovesForPiece` and
    `getAllPossibleMoves`. */
module Generation {
  import opened Options
  import opened Pieces
  import opened Boards
  import opened Moves
  import opened Rules

  /** The directions walked for a piece, in the source's order: all four
      diagonals for a queen, the two forward diagonals otherwise. */
  function DirsFor(p: Piece): seq<Dir> {
    if p.isQueen then [Dir(1, -1), Dir(1, 1), Dir(-1, -1), Dir(-1, 1)]
    else if p.pieceType == Red then [Dir(1, -1), Dir(1, 1)]
    else [Dir(-1, -1), Dir(-1, 1)]
  }

  /** The moves the enumeration produces from `from` to `to`: legal moves
      whose path is free except possibly for the cell right before the
      target; with `captureOnly`, only those where that cell holds a piece
      (the piece being jumped). */
  ghost predicate Generable(b: Board, from: Pos, to: Pos, captureOnly: bool) {
    var n := Abs(to.row - from.row);
    var d := Heading(from, to);
    && Occupied(b, from)
    && Legal(b, from, to)
    && IsDiagonal(from, to)
    && PathClear(b, from, d, 1, n - 1)
    && (captureOnly ==> n >= 2 && Occupied(b, Shift(from, d, n - 1)))
  }

  /** The generable moves in direction `d` at least `k` steps out. */
  ghost predicate RayTarget(b: Board, from: Pos, d: Dir, k: nat, captureOnly: bool, m: Move) {
    && From(m) == from && Heading(from, To(m)) == d
    && Abs(To(m).row - from.row) >= k
    && Generable(b, from, To(m), captureOnly)
  }

  /** Where the walk along `d` stands when it reaches the cell `k` steps
      out: every cell before it is free, and a regular piece only ever
      reaches the first cell of a forward diagonal. */
  ghost predicate WalkState(b: Board, from: Pos, d: Dir, k: nat) {
    && Occupied(b, from) && k >= 1
    && PathClear(b, from, d, 1, k)
    && (!Get(b, from).value.isQueen ==> k == 1 && d.dr == Forward(Get(b, from).value.pieceType))
  }

  /** The inner `while` loop of `getPossibleMovesForPiece`, at the cell `k`
      steps from the piece in direction `d`. A legal target is emitted unless
      only captures are wanted; a queen then keeps walking, a regular piece
      stops. The first illegal target ends the walk, after trying the cell
      one step beyond it as a capture. Started on a piece's own direction,
      the walk emits exactly the generable moves in that direction. */
  function RayMoves(b: Board, from: Pos, d: Dir, k: nat, captureOnly: bool): (r: seq<Move>)
    requires Occupied(b, from) && k >= 1
    ensures WalkState(b, from, d, k) ==>
              forall m :: m in r <==> RayTarget(b, from, d, k, captureOnly, m)
    decreases Size - k
  {
    var p := Shift(from, d, k);
    if !OnBoard(p) then
      RayOffBoard(b, from, d, k, captureOnly);
      []
    else if IsValidMove(b, from, p) then
      RayStepFree(b, from, d, k, captureOnly);
      (if captureOnly then [] else [MoveOf(from, p)])
      + (if Get(b, from).value.isQueen then RayMoves(b, from, d, k + 1, captureOnly) else [])
    else
      var c := Shift(from, d, k + 1);
      RayStepBlocked(b, from, d, k, captureOnly);
      if IsValidMove(b, from, c) then [MoveOf(from, c)] else []
  }

  /** The `for` loop over the directions: for directions the piece may take,
      exactly the generable moves heading in one of them. */
  function MovesAlong(b: Board, from: Pos, dirs: seq<Dir>, captureOnly: bool): (r: seq<Move>)
    requires Occupied(b, from)
    ensures DirsAllowed(Get(b, from).value, dirs) ==>
              forall m :: m in r <==> From(m) == from && Heading(from, To(m)) in dirs
                                      && Generable(b, from, To(m), captureOnly)
  {
    if |dirs| == 0 then []
    else
      assert dirs == [dirs[0]] + dirs[1..];
      RayMoves(b, from, dirs[0], 1, captureOnly) + MovesAlong(b, from, dirs[1..], captureOnly)
  }

  /** `getPossibleMovesForPiece`: exactly the generable moves of the piece.
      For a regular piece these are its legal forward steps and jumps; for a
      queen, every free cell up to the first piece on each diagonal, plus the
      cell just past that piece when it is an enemy and the cell is free;
      with `captureOnly`, only the latter. Nothing for an empty cell. */
  function PossibleMovesForPiece(b: Board, from: Pos, captureOnly: bool): (r: seq<Move>)
    requires OnBoard(from)
    ensures forall m :: m in r <==> From(m) == from && Generable(b, from, To(m), captureOnly)
  {
    if Get(b, from).None? then []
    else
      HeadingsWalked(b, from);
      MovesAlong(b, from, DirsFor(Get(b, from).value), captureOnly)
  }

  /** The nested loops of `getAllPossibleMoves`, from cell `(row, col)` on
      in row-major order: the generable moves of the pieces of colour `t`
      standing at or after that cell. */
  function CollectMoves(b: Board, t: PieceType, captureOnly: bool, row: nat, col: nat): (r: seq<Move>)
    requires row <= Size && col <= Size
    ensures forall m :: m in r <==> HasType(b, From(m), t) && AtOrAfter(From(m), row, col)
                                    && Generable(b, From(m), To(m), captureOnly)
    decreases Size - row, Size - col
  {
    if row == Size then []
    else if col == Size then CollectMoves(b, t, captureOnly, row + 1, 0)
    else
      var p := Pos(row, col);
      (if HasType(b, p, t) then PossibleMovesForPiece(b, p, captureOnly) else [])
      + CollectMoves(b, t, captureOnly, row, col + 1)
  }

  /** `getAllPossibleMoves`: exactly the generable moves of the pieces of
      colour `t`. */
  function AllPossibleMoves(b: Board, t: PieceType, captureOnly: bool): (r: seq<Move>)
    ensures forall m :: m in r <==> HasType(b, From(m), t) && Generable(b, From(m), To(m), captureOnly)
  {
    CollectMoves(b, t, captureOnly, 0, 0)
  }

  // ---------------------------------------------------------------------
  // One step of the walk

  /** On a ray whose first `k - 1` cells are free, the cell `k` steps out
      is a legal target exactly when it is free. */
  lemma ClearRayTarget(b: Board, from: Pos, d: Dir, k: nat)
    requires WalkState(b, from, d, k) && OnBoard(Shift(from, d, k))
    ensures IsValidMovePre(b, from, Shift(from, d, k))
    ensures IsValidMove(b, from, Shift(from, d, k)) <==> !Occupied(b, Shift(from, d, k))
    ensures Heading(from, Shift(from, d, k)) == d && Abs(Shift(from, d, k).row - from.row) == k
  {
  }

  /** A target on the ray `d`, `n` steps out. */
  lemma OnRay(from: Pos, d: Dir, to: Pos)
    requires Heading(from, to) == d && IsDiagonal(from, to)
    ensures to == Shift(from, d, Abs(to.row - from.row))
  {
  }

  lemma RayTargetOnBoard(b: Board, from: Pos, d: Dir, k: nat, captureOnly: bool, m: Move)
    requires Occupied(b, from) && k >= 1
    requires RayTarget(b, from, d, k, captureOnly, m)
    ensures OnBoard(Shift(from, d, k))
    ensures To(m) == Shift(from, d, Abs(To(m).row - from.row))
  {
    OnRay(from, d, To(m));
    ShiftBetweenOnBoard(from, d, k, Abs(To(m).row - from.row));
  }

  /** Past the edge of the board there is nothing left to emit. */
  lemma RayOffBoard(b: Board, from: Pos, d: Dir, k: nat, captureOnly: bool)
    requires Occupied(b, from) && k >= 1 && !OnBoard(Shift(from, d, k))
    ensures forall m :: !RayTarget(b, from, d, k, captureOnly, m)
  {
    forall m ensures !RayTarget(b, from, d, k, captureOnly, m) {
      if RayTarget(b, from, d, k, captureOnly, m) {
        RayTargetOnBoard(b, from, d, k, captureOnly, m);
      }
    }
  }

  /** The walk when the cell `k` steps out is occupied: only the capture one
      step further can be emitted. */
  lemma RayBlocked(b: Board, from: Pos, d: Dir, k: nat, captureOnly: bool, m: Move)
    requires WalkState(b, from, d, k) && Occupied(b, Shift(from, d, k))
    ensures IsValidMovePre(b, from, Shift(from, d, k + 1))
    ensures (m == MoveOf(from, Shift(from, d, k + 1)) && IsValidMove(b, from, Shift(from, d, k + 1)))
            <==> RayTarget(b, from, d, k, captureOnly, m)
  {
  }

  /** The walk when the cell `k` steps out is free: emit it (unless only
      captures are wanted) and, for a queen, go on. */
  lemma RayFree(b: Board, from: Pos, d: Dir, k: nat, captureOnly: bool, m: Move)
    requires WalkState(b, from, d, k)
    requires OnBoard(Shift(from, d, k)) && !Occupied(b, Shift(from, d, k))
    ensures PathClear(b, from, d, 1, k + 1)
    ensures RayTarget(b, from, d, k, captureOnly, m)
            <==> || (!captureOnly && m == MoveOf(from, Shift(from, d, k)))
                 || (Get(b, from).value.isQueen && RayTarget(b, from, d, k + 1, captureOnly, m))
  {
  }

  /** A legal cell `k` steps out: the walk emits it and a queen walks on. */
  lemma RayStepFree(b: Board, from: Pos, d: Dir, k: nat, captureOnly: bool)
    requires Occupied(b, from) && k >= 1 && IsValidMovePre(b, from, Shift(from, d, k))
    ensures WalkState(b, from, d, k) && IsValidMove(b, from, Shift(from, d, k)) ==>
              && (Get(b, from).value.isQueen ==> WalkState(b, from, d, k + 1))
              && forall m :: RayTarget(b, from, d, k, captureOnly, m)
                             <==> || (!captureOnly && m == MoveOf(from, Shift(from, d, k)))
                                  || (Get(b, from).value.isQueen && RayTarget(b, from, d, k + 1, captureOnly, m))
  {
    if WalkState(b, from, d, k) && IsValidMove(b, from, Shift(from, d, k)) {
      forall m ensures RayTarget(b, from, d, k, captureOnly, m)
                       <==> || (!captureOnly && m == MoveOf(from, Shift(from, d, k)))
                            || (Get(b, from).value.isQueen && RayTarget(b, from, d, k + 1, captureOnly, m))
      {
        RayFree(b, from, d, k, captureOnly, m);
      }
    }
  }

  /** An illegal cell `k` steps out: the walk ends with at most the capture
      one step further. */
  lemma RayStepBlocked(b: Board, from: Pos, d: Dir, k: nat, captureOnly: bool)
    requires Occupied(b, from) && k >= 1 && OnBoard(Shift(from, d, k))
    requires IsValidMovePre(b, from, Shift(from, d, k)) && IsValidMovePre(b, from, Shift(from, d, k + 1))
    ensures WalkState(b, from, d, k) && !IsValidMove(b, from, Shift(from, d, k)) ==>
              forall m :: (m == MoveOf(from, Shift(from, d, k + 1)) && IsValidMove(b, from, Shift(from, d, k + 1)))
                          <==> RayTarget(b, from, d, k, captureOnly, m)
  {
    if WalkState(b, from, d, k) && !IsValidMove(b, from, Shift(from, d, k)) {
      ClearRayTarget(b, from, d, k);
      forall m ensures (m == MoveOf(from, Shift(from, d, k + 1)) && IsValidMove(b, from, Shift(from, d, k + 1)))
                       <==> RayTarget(b, from, d, k, captureOnly, m)
      {
        RayBlocked(b, from, d, k, captureOnly, m);
      }
    }
  }

  // ---------------------------------------------------------------------
  // The directions walked

  /** The directions a piece of this kind may be walked in. */
  predicate DirsAllowed(piece: Piece, dirs: seq<Dir>) {
    forall i :: 0 <= i < |dirs| ==> piece.isQueen || dirs[i].dr == Forward(piece.pieceType)
  }

  /** Every move a piece may legally make leaves in one of its walked
      directions. */
  lemma HeadingsWalked(b: Board, from: Pos)
    requires Occupied(b, from)
    ensures DirsAllowed(Get(b, from).value, DirsFor(Get(b, from).value))
    ensures forall to :: Legal(b, from, to) ==> Heading(from, to) in DirsFor(Get(b, from).value)
  {
  }

  // ---------------------------------------------------------------------
  // Consequences

  /** Every generated move starts on a piece of the requested colour, lands
      on the board, is legal and diagonal; a regular piece moves one or two
      rows in its forward direction only. */
  lemma GeneratedMoveIsLegal(b: Board, t: PieceType, captureOnly: bool, m: Move)
    requires m in AllPossibleMoves(b, t, captureOnly)
    ensures HasType(b, From(m), t) && OnBoard(From(m)) && OnBoard(To(m))
    ensures Legal(b, From(m), To(m)) && IsDiagonal(From(m), To(m)) && From(m) != To(m)
    ensures !Get(b, From(m)).value.isQueen ==>
              && Heading(From(m), To(m)).dr == Forward(t)
              && (Abs(m.toRow - m.fromRow) == 1 || Abs(m.toRow - m.fromRow) == 2)
  {
  }

  /** Of the generable moves, the capturing ones are exactly those that
      pass an enemy, and the enemy they pass stands at `to - dir`. */
  lemma GenerableCaptureIff(b: Board, from: Pos, to: Pos)
    requires Generable(b, from, to, false)
    ensures Generable(b, from, to, true) <==> PassesEnemy(b, from, to)
    ensures PassesEnemy(b, from, to) ==> IsEnemy(b, BeforeTarget(from, to), Get(b, from).value.pieceType)
  {
    var n := Abs(to.row - from.row);
    var d := Heading(from, to);
    var t := Get(b, from).value.pieceType;
    BeforeTargetOnPath(from, to);
    var last := Shift(from, d, n - 1);
    if n >= 2 && Occupied(b, last) {
      if Get(b, from).value.isQueen {
        assert !HasType(b, last, t);
      } else {
        assert n == 2;
      }
      assert IsEnemy(b, last, t);
    }
    if PassesEnemy(b, from, to) {
      var k :| 0 < k < n && IsEnemy(b, Shift(from, d, k), t);
      assert k == n - 1;
    }
  }

  /** The capture-only list holds exactly the generated moves that pass an
      enemy; in particular it is contained in the full list. */
  lemma CaptureOnlyIff(b: Board, t: PieceType, m: Move)
    ensures m in AllPossibleMoves(b, t, true)
            <==> m in AllPossibleMoves(b, t, false) && PassesEnemy(b, From(m), To(m))
    ensures m in AllPossibleMoves(b, t, true) ==> m in AllPossibleMoves(b, t, false)
  {
    if HasType(b, From(m), t) && Generable(b, From(m), To(m), false) {
      GenerableCaptureIff(b, From(m), To(m));
    }
  }

  /** For every generated queen capture the cell `to - dir` cleared by the
      callers is the jumped enemy, and after the move the whole path is
      free. */
  lemma GeneratedQueenCaptureClearsJumped(b: Board, t: PieceType, captureOnly: bool, m: Move)
    requires m in AllPossibleMoves(b, t, captureOnly)
    requires Occupied(b, From(m)) && Get(b, From(m)).value.isQueen && PassesEnemy(b, From(m), To(m))
    ensures Legal(b, From(m), To(m)) && OnBoard(To(m)) && From(m) != To(m)
    ensures IsEnemy(b, BeforeTarget(From(m), To(m)), t)
    ensures CapturedCell(b, From(m), To(m)) == Some(BeforeTarget(From(m), To(m)))
    ensures PathClear(PlayMove(b, From(m), To(m)), From(m), Heading(From(m), To(m)), 1, Abs(m.toRow - m.fromRow))
  {
    assert HasType(b, From(m), t) && Generable(b, From(m), To(m), false);
    QueenCaptureClearsPath(b, From(m), To(m));
  }

  /** A generable queen capture removes the enemy it passes, which stands at
      `to - dir`, and leaves the whole path free. */
  lemma QueenCaptureClearsPath(b: Board, from: Pos, to: Pos)
    requires Generable(b, from, to, false)
    requires Get(b, from).value.isQueen && PassesEnemy(b, from, to)
    ensures Legal(b, from, to) && OnBoard(to) && from != to
    ensures IsEnemy(b, BeforeTarget(from, to), Get(b, from).value.pieceType)
    ensures CapturedCell(b, from, to) == Some(BeforeTarget(from, to))
    ensures PathClear(PlayMove(b, from, to), from, Heading(from, to), 1, Abs(to.row - from.row))
  {
    GenerableCaptureIff(b, from, to);
    BeforeTargetOnPath(from, to);
    PlayLegalMove(b, from, to);
    var n := Abs(to.row - from.row);
    var d := Heading(from, to);
    var r := PlayMove(b, from, to);
    forall j | 1 <= j < n ensures !Occupied(r, Shift(from, d, j)) {
      ShiftBetweenOnBoard(from, d, j, n);
      if j < n - 1 {
        assert !Occupied(b, Shift(from, d, j));
      }
    }
  }

  /** Some piece of colour `t` has a legal move. */
  ghost predicate CanMove(b: Board, t: PieceType) {
    exists from, to :: HasType(b, from, t) && Legal(b, from, to)
  }

  /** The full list is empty exactly when no piece of colour `t` has any
      legal move: although a queen's long landings past an enemy are not
      listed, the landing right past that enemy always is. */
  lemma NoMovesIff(b: Board, t: PieceType)
    ensures AllPossibleMoves(b, t, false) == [] <==> !CanMove(b, t)
  {
    if AllPossibleMoves(b, t, false) != [] {
      var m := AllPossibleMoves(b, t, false)[0];
      GeneratedMoveIsLegal(b, t, false, m);
    }
    if CanMove(b, t) {
      var from, to :| HasType(b, from, t) && Legal(b, from, to);
      var target := GenerableTarget(b, from, to);
      assert MoveOf(from, target) in AllPossibleMoves(b, t, false);
    }
  }

  /** A generable target in the direction of any legal move. */
  lemma GenerableTarget(b: Board, from: Pos, to: Pos) returns (target: Pos)
    requires Occupied(b, from) && Legal(b, from, to)
    ensures Generable(b, from, target, false)
    ensures Heading(from, target) == Heading(from, to)
  {
    var n := Abs(to.row - from.row);
    var d := Heading(from, to);
    if PathClear(b, from, d, 1, n - 1) {
      target := to;
    } else {
      var j :| 1 <= j < n - 1 && Occupied(b, Shift(from, d, j));
      target := ShortCapture(b, from, to, j);
    }
  }

  /** A legal move whose path holds a piece `j` steps out: landing right
      past that piece is a generable capture. */
  lemma ShortCapture(b: Board, from: Pos, to: Pos, j: int) returns (target: Pos)
    requires Occupied(b, from) && Legal(b, from, to)
    requires 1 <= j < Abs(to.row - from.row) - 1 && Occupied(b, Shift(from, Heading(from, to), j))
    ensures target == Shift(from, Heading(from, to), j + 1)
    ensures Generable(b, from, target, true)
    ensures Heading(from, target) == Heading(from, to)
  {
    var n := Abs(to.row - from.row);
    var d := Heading(from, to);
    target := Shift(from, d, j + 1);
    ShiftBetweenOnBoard(from, d, j + 1, n);
    assert Heading(from, target) == d && Abs(target.row - from.row) == j + 1;
    assert !Occupied(b, target);
    assert Legal(b, from, target);
  }

  /** Some piece of colour `t` has a legal move that passes an enemy. */
  ghost predicate CanCapture(b: Board, t: PieceType) {
    exists from, to :: HasType(b, from, t) && Legal(b, from, to) && PassesEnemy(b, from, to)
  }

  /** Every legal capture has a generable capture in the same direction:
      the move itself when nothing stands before the cell next to its
      target, otherwise the landing right past the first piece. */
  lemma CaptureTarget(b: Board, from: Pos, to: Pos) returns (target: Pos)
    requires Occupied(b, from) && Legal(b, from, to) && PassesEnemy(b, from, to)
    ensures Generable(b, from, target, true)
    ensures Heading(from, target) == Heading(from, to)
  {
    var n := Abs(to.row - from.row);
    var d := Heading(from, to);
    if PathClear(b, from, d, 1, n - 1) {
      var k :| 0 < k < n && IsEnemy(b, Shift(from, d, k), Get(b, from).value.pieceType);
      assert k == n - 1;
      target := to;
    } else {
      var j :| 1 <= j < n - 1 && Occupied(b, Shift(from, d, j));
      target := ShortCapture(b, from, to, j);
    }
  }

  /** The capture-only list is non-empty exactly when some piece of colour
      `t` has a legal capture: long queen landings are not listed, but the
      landing right past the enemy always is. */
  lemma CaptureListNonEmptyIff(b: Board, t: PieceType)
    ensures AllPossibleMoves(b, t, true) != [] <==> CanCapture(b, t)
  {
    if AllPossibleMoves(b, t, true) != [] {
      var m := AllPossibleMoves(b, t, true)[0];
      CaptureOnlyIff(b, t, m);
      GeneratedMoveIsLegal(b, t, false, m);
    }
    if CanCapture(b, t) {
      var from, to :| HasType(b, from, t) && Legal(b, from, to) && PassesEnemy(b, from, to);
      var target := CaptureTarget(b, from, to);
      assert MoveOf(from, target) in AllPossibleMoves(b, t, true);
    }
  }
}
