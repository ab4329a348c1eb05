/** `initializeBoard` of `CheckersPanel`. */
module Setup {
  import opened Options
  import opened Pieces
  import opened Boards
  import opened Rules
  import opened Generation
  import opened GameEnd

  /** The content the second loop of `initializeBoard` leaves in a cell of
      the cleared board. */
  function StartCell(row: int, col: int): Cell {
    if (row + col) % 2 != 0 then
      if row < 3 then Some(NewPiece(Red))
      else if row > 4 then Some(NewPiece(Black))
      else None
    else None
  }

  /** `initializeBoard`: every cell is first cleared, then RED fills the dark
      squares of rows 0-2 and BLACK those of rows 5-7. The result does not
      depend on the previous board. */
  function InitializeBoard(): (b: Board)
    ensures PiecesOnDark(b)
    ensures forall p :: HasType(b, p, Red) <==> OnBoard(p) && IsDark(p) && p.row < 3
    ensures forall p :: HasType(b, p, Black) <==> OnBoard(p) && IsDark(p) && p.row > 4
    ensures forall p :: OnBoard(p) && 3 <= p.row <= 4 ==> !Occupied(b, p)
    ensures forall p :: Occupied(b, p) ==> !Get(b, p).value.isQueen
  {
    seq(Size, row => seq(Size, col => StartCell(row, col)))
  }

  /** The starting position is not over: both sides have pieces and moves,
      e.g. RED (2,1) to (3,0) and BLACK (5,0) to (4,1). */
  lemma InitialBoardOngoing()
    ensures CheckGameEnd(InitializeBoard()) == Ongoing
  {
    var b := InitializeBoard();
    assert Get(b, Pos(3, 0)).None? && Get(b, Pos(4, 1)).None?;
    assert HasType(b, Pos(2, 1), Red) && Legal(b, Pos(2, 1), Pos(3, 0));
    assert HasType(b, Pos(5, 0), Black) && Legal(b, Pos(5, 0), Pos(4, 1));
    assert CanMove(b, Red) && CanMove(b, Black);
  }
}
