/** `checkGameEnd` of `CheckersPanel`, returning the outcome the source
    announces in its game-over dialog instead of opening the dialog. */
module GameEnd {
  import opened Pieces
  import opened Boards
  import opened Generation

  /** Why the game ended: "Black wins!" / "Red wins!" are `NoPiecesLeft`,
      "... has no moves left." is `NoMovesLeft`. */
  datatype Reason = NoPiecesLeft | NoMovesLeft

  datatype Outcome = Ongoing | Over(winner: PieceType, reason: Reason)

  /** Some piece of colour `t` is on the board. */
  ghost predicate HasPieces(b: Board, t: PieceType) {
    exists p :: HasType(b, p, t)
  }

  /** The first loop of `checkGameEnd`, from cell `(row, col)` on: the flags
      `(redExists, blackExists)`. */
  function ColoursFrom(b: Board, row: nat, col: nat): (r: (bool, bool))
    requires row <= Size && col <= Size
    ensures r.0 <==> exists p :: HasType(b, p, Red) && AtOrAfter(p, row, col)
    ensures r.1 <==> exists p :: HasType(b, p, Black) && AtOrAfter(p, row, col)
    decreases Size - row, Size - col
  {
    if row == Size then (false, false)
    else if col == Size then ColoursFrom(b, row + 1, 0)
    else
      var rest := ColoursFrom(b, row, col + 1);
      var here := Pos(row, col);
      if !Occupied(b, here) then rest
      else if Get(b, here).value.pieceType == Red then
        assert HasType(b, here, Red) && AtOrAfter(here, row, col);
        (true, rest.1)
      else
        assert HasType(b, here, Black) && AtOrAfter(here, row, col);
        (rest.0, true)
  }

  /** `checkGameEnd`: the first of four conditions that holds, in this
      order, regardless of whose turn it is. */
  function CheckGameEnd(b: Board): (r: Outcome)
    ensures r == Over(Black, NoPiecesLeft) <==> !HasPieces(b, Red)
    ensures r == Over(Red, NoPiecesLeft) <==> HasPieces(b, Red) && !HasPieces(b, Black)
    ensures r == Over(Black, NoMovesLeft)
            <==> HasPieces(b, Red) && HasPieces(b, Black) && !CanMove(b, Red)
    ensures r == Over(Red, NoMovesLeft)
            <==> HasPieces(b, Red) && HasPieces(b, Black) && CanMove(b, Red) && !CanMove(b, Black)
    ensures r == Ongoing <==> CanMove(b, Red) && CanMove(b, Black)
  {
    var flags := ColoursFrom(b, 0, 0);
    NoMovesIff(b, Red);
    NoMovesIff(b, Black);
    CanMoveHasPieces(b, Red);
    CanMoveHasPieces(b, Black);
    if !flags.0 then Over(Black, NoPiecesLeft)
    else if !flags.1 then Over(Red, NoPiecesLeft)
    else if AllPossibleMoves(b, Red, false) == [] then Over(Black, NoMovesLeft)
    else if AllPossibleMoves(b, Black, false) == [] then Over(Red, NoMovesLeft)
    else Ongoing
  }

  /** A colour that can move has pieces. */
  lemma CanMoveHasPieces(b: Board, t: PieceType)
    ensures CanMove(b, t) ==> HasPieces(b, t)
  {
  }
}
