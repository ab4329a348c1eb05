/** Pieces and their colours (`PieceType.java`, `Piece.java`).

    A Java `Piece` is a mutable object whose only mutable field is the queen
    flag. No two board cells ever share a `Piece` reference, so an immutable
    value `(pieceType, isQueen)` with `SetQueen` returning the updated value is
    a faithful model: the colour is fixed by construction. */
module Pieces {

  /** The two colours, in the order the enum declares them. */
  datatype PieceType = Black | Red

  datatype Piece = Piece(pieceType: PieceType, isQueen: bool)

  /** `new Piece(type)`: every piece starts as a regular (non-queen) piece. */
  function NewPiece(t: PieceType): (p: Piece)
    ensures p.pieceType == t
    ensures !p.isQueen
  {
    Piece(t, false)
  }

  /** `setQueen(b)`: sets the flag to exactly `b` and keeps the colour. */
  function SetQueen(p: Piece, queen: bool): (r: Piece)
    ensures r.pieceType == p.pieceType
    ensures r.isQueen == queen
  {
    p.(isQueen := queen)
  }
}
