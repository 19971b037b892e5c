/**
 * The 8x8 board: a grid of optional pieces with bounds-safe lookup, the
 * move and remove primitives, row-major listing and counting of a colour,
 * and the "does this colour have any move" query.
 *
 * The board is a value. The source mutates one grid in place and copies it
 * for look-ahead; here every operation returns a new board.
 */
module Boards {
  import opened Wrappers
  import opened Pieces

  const Size: int := 8

  type Cell = Option<Piece>

  predicate InBounds(row: int, col: int) {
    0 <= row < Size && 0 <= col < Size
  }

  /**
   * An 8x8 grid in which every piece records the coordinates of the cell
   * holding it, so that a piece is never orphaned or duplicated.
   */
  predicate WellFormed(g: seq<seq<Cell>>) {
    && |g| == Size
    && (forall r :: 0 <= r < Size ==> |g[r]| == Size)
    && (forall r, c :: 0 <= r < Size && 0 <= c < Size && g[r][c].Some? ==>
          g[r][c].value.row == r && g[r][c].value.col == c)
  }

  const EmptyGrid: seq<seq<Cell>> := seq(Size, r => seq(Size, c => None))

  type Board = g: seq<seq<Cell>> | WellFormed(g) witness EmptyGrid

  /** A board with no pieces on it. */
  function EmptyBoard(): (b: Board)
    ensures forall r, c :: GetPiece(b, r, c) == None
  {
    var g: seq<seq<Cell>> := seq(Size, r => seq(Size, c => None));
    assert WellFormed(g);
    g
  }

  /** Lookup that answers "no piece" outside the board instead of failing. */
  function GetPiece(b: Board, row: int, col: int): (r: Cell)
    ensures !InBounds(row, col) ==> r == None
    ensures r.Some? ==> InBounds(row, col) && r.value.row == row && r.value.col == col
  {
    if InBounds(row, col) then b[row][col] else None
  }

  /** Two boards that agree on every cell are the same board. */
  lemma BoardExt(b: Board, b': Board)
    requires forall r, c :: InBounds(r, c) ==> GetPiece(b, r, c) == GetPiece(b', r, c)
    ensures b == b'
  {
    forall r | 0 <= r < Size
      ensures b[r] == b'[r]
    {
      forall c | 0 <= c < Size
        ensures b[r][c] == b'[r][c]
      {
        assert GetPiece(b, r, c) == GetPiece(b', r, c);
      }
    }
  }

  /** Writes one in-bounds cell; the value must name that cell as its position. */
  function SetCell(b: Board, row: int, col: int, v: Cell): (r: Board)
    requires InBounds(row, col)
    requires v.Some? ==> v.value.row == row && v.value.col == col
    ensures GetPiece(r, row, col) == v
    ensures forall r', c' :: (r' != row || c' != col) ==> GetPiece(r, r', c') == GetPiece(b, r', c')
  {
    var g := b[row := b[row][col := v]];
    assert WellFormed(g) by {
      forall r', c' | 0 <= r' < Size && 0 <= c' < Size && g[r'][c'].Some?
        ensures g[r'][c'].value.row == r' && g[r'][c'].value.col == c'
      {
        if r' != row || c' != col {
          assert g[r'][c'] == b[r'][c'];
        }
      }
    }
    g
  }

  /** `removePiece`: clears an in-bounds cell; out of bounds it does nothing. */
  function RemovePiece(b: Board, row: int, col: int): (r: Board)
    ensures !InBounds(row, col) ==> r == b
    ensures GetPiece(r, row, col) == None
    ensures forall r', c' :: (r' != row || c' != col) ==> GetPiece(r, r', c') == GetPiece(b, r', c')
  {
    if InBounds(row, col) then SetCell(b, row, col, None) else b
  }

  /** The piece `p` after being placed at (row, col): colour and king flag carried over. */
  function MovedTo(p: Piece, row: int, col: int): (q: Piece)
    ensures q.color == p.color && q.king == p.king
    ensures q.row == row && q.col == col
  {
    p.(row := row, col := col)
  }

  /**
   * `movePiece`: no-op for an absent piece; otherwise empties the piece's
   * cell and puts it, with its new coordinates, on the destination.
   * The source indexes both cells without a bounds check, so both must be
   * on the board.
   */
  function MovePiece(b: Board, piece: Cell, row: int, col: int): (r: Board)
    requires piece.Some? ==> InBounds(piece.value.row, piece.value.col) && InBounds(row, col)
    ensures piece.None? ==> r == b
    ensures piece.Some? ==> GetPiece(r, row, col) == Some(MovedTo(piece.value, row, col))
    ensures piece.Some? && (piece.value.row != row || piece.value.col != col) ==>
              GetPiece(r, piece.value.row, piece.value.col) == None
    ensures piece.Some? ==>
              forall r', c' :: (r' != row || c' != col) && (r' != piece.value.row || c' != piece.value.col) ==>
                GetPiece(r, r', c') == GetPiece(b, r', c')
  {
    match piece
    case None => b
    case Some(p) => SetCell(SetCell(b, p.row, p.col, None), row, col, Some(MovedTo(p, row, col)))
  }

  /** 1 when the cell holds a piece of `color`, 0 otherwise. */
  function Weight(cell: Cell, color: Color): nat {
    if cell.Some? && cell.value.color == color then 1 else 0
  }

  /** The pieces of `color` in a run of cells, left to right. */
  function RowPieces(cells: seq<Cell>, color: Color): seq<Piece>
    decreases |cells|
  {
    if |cells| == 0 then []
    else
      var last := cells[|cells| - 1];
      RowPieces(cells[..|cells| - 1], color) + (if Weight(last, color) == 1 then [last.value] else [])
  }

  /** The pieces of `color` in a run of rows, top to bottom and left to right in each row. */
  function GridPieces(rows: seq<seq<Cell>>, color: Color): seq<Piece>
    decreases |rows|
  {
    if |rows| == 0 then []
    else GridPieces(rows[..|rows| - 1], color) + RowPieces(rows[|rows| - 1], color)
  }

  /** p comes strictly before q in a row-major scan. */
  predicate RowMajorBefore(p: Piece, q: Piece) {
    p.row < q.row || (p.row == q.row && p.col < q.col)
  }

  /** `getPiecesOfColor`: every piece of `color`, in row-major order. */
  function PiecesOfColor(b: Board, color: Color): (ps: seq<Piece>)
    ensures forall p :: p in ps <==> p.color == color && GetPiece(b, p.row, p.col) == Some(p)
    ensures forall i, j :: 0 <= i < j < |ps| ==> RowMajorBefore(ps[i], ps[j])
  {
    GridPiecesFacts(b, Size, color);
    assert b[..Size] == b;
    GridPieces(b, color)
  }

  lemma {:induction false} RowPiecesFacts(b: Board, row: int, n: nat, color: Color)
    requires 0 <= row < Size && n <= Size
    ensures forall p :: p in RowPieces(b[row][..n], color) <==>
              p.color == color && p.row == row && 0 <= p.col < n && b[row][p.col] == Some(p)
    ensures forall i, j :: 0 <= i < j < |RowPieces(b[row][..n], color)| ==>
              RowPieces(b[row][..n], color)[i].col < RowPieces(b[row][..n], color)[j].col
    ensures forall i :: 0 <= i < |RowPieces(b[row][..n], color)| ==>
              RowPieces(b[row][..n], color)[i].col < n
  {
    if n > 0 {
      RowPiecesFacts(b, row, n - 1, color);
      assert b[row][..n][..n - 1] == b[row][..n - 1];
    }
  }

  lemma {:induction false} GridPiecesFacts(b: Board, n: nat, color: Color)
    requires n <= Size
    ensures forall p :: p in GridPieces(b[..n], color) <==>
              p.color == color && 0 <= p.row < n && 0 <= p.col < Size && b[p.row][p.col] == Some(p)
    ensures forall i, j :: 0 <= i < j < |GridPieces(b[..n], color)| ==>
              RowMajorBefore(GridPieces(b[..n], color)[i], GridPieces(b[..n], color)[j])
    ensures forall i :: 0 <= i < |GridPieces(b[..n], color)| ==> GridPieces(b[..n], color)[i].row < n
  {
    if n > 0 {
      GridPiecesFacts(b, n - 1, color);
      RowPiecesFacts(b, n - 1, Size, color);
      assert b[..n][..n - 1] == b[..n - 1];
      assert b[n - 1][..Size] == b[n - 1];
      var front := GridPieces(b[..n - 1], color);
      var back := RowPieces(b[n - 1], color);
      assert GridPieces(b[..n], color) == front + back;
      forall i | 0 <= i < |back|
        ensures back[i].row == n - 1
      {
        assert back[i] in back;
      }
    }
  }

  /** Pieces of `color` in a run of cells, counted left to right. */
  function CountCells(cells: seq<Cell>, color: Color): nat
    decreases |cells|
  {
    if |cells| == 0 then 0
    else CountCells(cells[..|cells| - 1], color) + Weight(cells[|cells| - 1], color)
  }

  /** Pieces of `color` in a run of rows, counted row by row. */
  function CountRows(rows: seq<seq<Cell>>, color: Color): nat
    decreases |rows|
  {
    if |rows| == 0 then 0
    else CountRows(rows[..|rows| - 1], color) + CountCells(rows[|rows| - 1], color)
  }

  /** `countPieces`: the number of pieces `getPiecesOfColor` lists. */
  function CountPieces(b: Board, color: Color): (n: nat)
    ensures n == |PiecesOfColor(b, color)|
  {
    CountRowsMatchesList(b, color);
    CountRows(b, color)
  }

  lemma {:induction false} CountCellsMatchesList(cells: seq<Cell>, color: Color)
    ensures CountCells(cells, color) == |RowPieces(cells, color)|
    decreases |cells|
  {
    if |cells| > 0 {
      CountCellsMatchesList(cells[..|cells| - 1], color);
    }
  }

  lemma {:induction false} CountRowsMatchesList(rows: seq<seq<Cell>>, color: Color)
    ensures CountRows(rows, color) == |GridPieces(rows, color)|
    decreases |rows|
  {
    if |rows| > 0 {
      CountRowsMatchesList(rows[..|rows| - 1], color);
      CountCellsMatchesList(rows[|rows| - 1], color);
    }
  }

  /** All pieces on the board. */
  function Total(b: Board): nat {
    CountPieces(b, Red) + CountPieces(b, Black)
  }

  lemma {:induction false} CountCellsUpdate(cells: seq<Cell>, i: nat, v: Cell, color: Color)
    requires i < |cells|
    ensures CountCells(cells[i := v], color) == CountCells(cells, color) - Weight(cells[i], color) + Weight(v, color)
    decreases |cells|
  {
    var n := |cells|;
    assert CountCells(cells[i := v], color) == CountCells(cells[i := v][..n - 1], color) + Weight(cells[i := v][n - 1], color);
    if i < n - 1 {
      assert cells[i := v][..n - 1] == cells[..n - 1][i := v];
      CountCellsUpdate(cells[..n - 1], i, v, color);
    } else {
      assert cells[i := v][..n - 1] == cells[..n - 1];
    }
  }

  lemma {:induction false} CountRowsUpdate(rows: seq<seq<Cell>>, i: nat, row: seq<Cell>, color: Color)
    requires i < |rows|
    ensures CountRows(rows[i := row], color) == CountRows(rows, color) - CountCells(rows[i], color) + CountCells(row, color)
    decreases |rows|
  {
    var n := |rows|;
    var rows' := rows[i := row];
    assert CountRows(rows', color) == CountRows(rows'[..n - 1], color) + CountCells(rows'[n - 1], color);
    assert CountRows(rows, color) == CountRows(rows[..n - 1], color) + CountCells(rows[n - 1], color);
    if i < n - 1 {
      assert rows'[..n - 1] == rows[..n - 1][i := row];
      CountRowsUpdate(rows[..n - 1], i, row, color);
    } else {
      assert rows'[..n - 1] == rows[..n - 1];
    }
  }

  /** Writing one cell changes the count of a colour by what left and what arrived. */
  lemma CountSetCell(b: Board, row: int, col: int, v: Cell, color: Color)
    requires InBounds(row, col)
    requires v.Some? ==> v.value.row == row && v.value.col == col
    ensures CountPieces(SetCell(b, row, col, v), color) ==
              CountPieces(b, color) - Weight(GetPiece(b, row, col), color) + Weight(v, color)
  {
    CountCellsUpdate(b[row], col, v, color);
    CountRowsUpdate(b, row, b[row][col := v], color);
  }

  /** `hasValidMoves` with the move generator passed in, as the source does. */
  function HasValidMoves<M>(b: Board, color: Color, moves: (Board, Piece) -> seq<M>): (r: bool)
    ensures r <==> exists p :: p in PiecesOfColor(b, color) && |moves(b, p)| > 0
  {
    AnyHasMoves(b, PiecesOfColor(b, color), moves)
  }

  /** Scans `ps` in order for a piece with a non-empty move list. */
  function AnyHasMoves<M>(b: Board, ps: seq<Piece>, moves: (Board, Piece) -> seq<M>): (r: bool)
    ensures r <==> exists p :: p in ps && |moves(b, p)| > 0
  {
    if |ps| == 0 then false
    else if |moves(b, ps[0])| > 0 then true
    else
      assert forall p :: p in ps ==> p == ps[0] || p in ps[1..];
      AnyHasMoves(b, ps[1..], moves)
  }

  /** The cell `setup` fills: black men on rows 0-2, red men on the last three rows, on cells with r+c even. */
  function InitialCell(row: int, col: int): Cell {
    if (row + col) % 2 == 0 && row < 3 then Some(NewPiece(Black, row, col))
    else if (row + col) % 2 == 0 && Size - 3 <= row then Some(NewPiece(Red, row, col))
    else None
  }

  /**
   * `setup`: a fresh grid with the starting layout. It reads nothing of the
   * previous board, so calling it again yields the same layout.
   */
  function Setup(): (b: Board)
    ensures forall r, c :: GetPiece(b, r, c) == (if InBounds(r, c) then InitialCell(r, c) else None)
  {
    var g := seq(Size, r => seq(Size, c => InitialCell(r, c)));
    assert WellFormed(g);
    g
  }

  lemma {:induction false} CountAlternating(cells: seq<Cell>, k: nat, color: Color, on: bool, parity: int)
    requires k <= |cells| && (parity == 0 || parity == 1)
    requires forall c :: 0 <= c < |cells| ==> Weight(cells[c], color) == (if on && c % 2 == parity then 1 else 0)
    ensures CountCells(cells[..k], color) == (if on then (k + 1 - parity) / 2 else 0)
  {
    if k > 0 {
      CountAlternating(cells, k - 1, color, on, parity);
      assert cells[..k][..k - 1] == cells[..k - 1];
    }
  }

  lemma {:induction false} SetupRowCount(row: int, color: Color)
    requires 0 <= row < Size
    ensures CountCells(Setup()[row], color) ==
              (if (color == Black && row < 3) || (color == Red && Size - 3 <= row) then 4 else 0)
  {
    var cells := Setup()[row];
    var on := (color == Black && row < 3) || (color == Red && Size - 3 <= row);
    forall c | 0 <= c < |cells|
      ensures Weight(cells[c], color) == (if on && c % 2 == row % 2 then 1 else 0)
    {
      assert cells[c] == InitialCell(row, c);
    }
    CountAlternating(cells, Size, color, on, row % 2);
    assert cells[..Size] == cells;
  }

  lemma {:induction false} SetupPrefixCount(k: nat, color: Color)
    requires k <= Size
    ensures CountRows(Setup()[..k], color) ==
              (if color == Black then 4 * (if k < 3 then k else 3)
               else 4 * (if k < Size - 3 then 0 else k - (Size - 3)))
  {
    if k > 0 {
      SetupPrefixCount(k - 1, color);
      SetupRowCount(k - 1, color);
      assert Setup()[..k][..k - 1] == Setup()[..k - 1];
    }
  }

  /**
   * The starting position holds twelve men of each colour, all on cells
   * with r+c even, black on rows 0-2 and red on rows 5-7.
   */
  lemma SetupLayout()
    ensures CountPieces(Setup(), Black) == 12 && CountPieces(Setup(), Red) == 12
    ensures forall r, c :: GetPiece(Setup(), r, c).Some? ==>
              (r + c) % 2 == 0 && !GetPiece(Setup(), r, c).value.king
    ensures forall r, c :: GetPiece(Setup(), r, c).Some? && GetPiece(Setup(), r, c).value.color == Black ==> 0 <= r < 3
    ensures forall r, c :: GetPiece(Setup(), r, c).Some? && GetPiece(Setup(), r, c).value.color == Red ==> Size - 3 <= r < Size
  {
    SetupPrefixCount(Size, Black);
    SetupPrefixCount(Size, Red);
    assert Setup()[..Size] == Setup();
  }
}
