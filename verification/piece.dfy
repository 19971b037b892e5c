/**
 * A draughts piece: a colour fixed at creation, a board position, and a king
 * flag that only ever goes from false to true.
 */
module Pieces {

  datatype Color = Red | Black

  /** The side that moves after `c`. */
  function Opponent(c: Color): (o: Color)
    ensures o != c
  {
    if c == Red then Black else Red
  }

  datatype Piece = Piece(color: Color, row: int, col: int, king: bool)

  /** The constructor: colour and coordinates as given, never a king. */
  function NewPiece(color: Color, row: int, col: int): (p: Piece)
    ensures p.color == color && p.row == row && p.col == col
    ensures !p.king
  {
    Piece(color, row, col, false)
  }

  /** Promotion: the piece becomes a king and nothing else about it changes. */
  function MakeKing(p: Piece): (q: Piece)
    ensures q.king
    ensures q.color == p.color && q.row == p.row && q.col == p.col
    ensures p.king ==> q == p
  {
    p.(king := true)
  }
}
