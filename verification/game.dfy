/**
 * The turn state machine of a game between two local players: selecting a
 * piece (with the forced-capture rule), moving it, continuing a capture
 * chain, passing the turn, and deciding the end of the game.
 *
 * A state is the board, the side to move, the selected piece and its
 * highlighted moves, the count of moves since the last capture, and the
 * outcome. Rendering, sound, status text, callbacks, network play and the
 * computer player's timed moves are not part of the state.
 */
module Game {
  import opened Wrappers
  import opened Pieces
  import opened Boards
  import opened Moves
  import opened Search

  /** Fifty moves in a row without a capture draw the game. */
  const MaxMovesWithoutCapture: nat := 50

  datatype Outcome = Ongoing | Won(winner: Color) | Drawn

  datatype GameState = GameState(
    board: Board,
    current: Color,
    selected: Option<Piece>,
    validMoves: seq<Move>,
    movesWithoutCapture: nat,
    outcome: Outcome)

  /** Every piece stands on a square with an even row + column sum. */
  predicate OnDarkSquares(b: Board) {
    forall r, c :: 0 <= r < Size && 0 <= c < Size && GetPiece(b, r, c).Some? ==> (r + c) % 2 == 0
  }

  /** Some piece of `color` has a capture. */
  predicate SideCanCapture(b: Board, color: Color) {
    exists p :: p in PiecesOfColor(b, color) && |CapturesFrom(b, p)| > 0
  }

  /**
   * The states the game passes through: a selection is one of the current
   * side's pieces on the board with moves the generator produced for it,
   * only captures while the side can capture; no selection has no moves.
   */
  predicate Valid(g: GameState) {
    && OnDarkSquares(g.board)
    && (g.selected.None? ==> g.validMoves == [])
    && (g.selected.Some? ==>
          && OnBoard(g.board, g.selected.value)
          && g.selected.value.color == g.current
          && (forall m :: m in g.validMoves ==> m in ValidMoves(g.board, g.selected))
          && (SideCanCapture(g.board, g.current) ==> forall m :: m in g.validMoves ==> m.capture.Some?))
  }

  // ---------------------------------------------------------------- reset

  /** `reset` (and the constructor): the initial layout, red to move, nothing selected, counter 0, game on. */
  function Reset(): (g: GameState)
    ensures Valid(g)
    ensures g.board == Setup() && g.current == Red && g.selected.None? && g.validMoves == []
    ensures g.movesWithoutCapture == 0 && g.outcome == Ongoing
  {
    SetupLayout();
    GameState(Setup(), Red, None, [], 0, Ongoing)
  }

  // ---------------------------------------------------------- turn, end

  /** `switchTurn`: the other side is to move; nothing else changes. */
  function SwitchTurn(g: GameState): (r: GameState)
    ensures r.current != g.current
    ensures r == g.(current := r.current)
  {
    g.(current := Opponent(g.current))
  }

  /** Switching twice gives the turn back. */
  lemma SwitchTurnTwice(g: GameState)
    ensures SwitchTurn(SwitchTurn(g)) == g
  {
    match g.current
    case Red =>
    case Black =>
  }

  function CanMove(b: Board, color: Color): bool {
    HasValidMoves(b, color, (b': Board, p: Piece) => ValidMoves(b', Some(p)))
  }

  /**
   * `checkGameEnd`, in priority order: a side without pieces loses (black
   * wins if both are empty); the side to move without a move loses; fifty
   * moves without a capture draw. The outcome says which rule fired.
   */
  function CheckGameEnd(g: GameState): (r: GameState)
    ensures r == g.(outcome := r.outcome)
    ensures r.outcome == Won(Black) <==>
              CountPieces(g.board, Red) == 0
              || (CountPieces(g.board, Black) > 0 && g.current == Red && !CanMove(g.board, Red))
              || (g.outcome == Won(Black) && CountPieces(g.board, Black) > 0 && CanMove(g.board, g.current)
                  && g.movesWithoutCapture < MaxMovesWithoutCapture)
    ensures r.outcome == Won(Red) <==>
              (CountPieces(g.board, Red) > 0 && CountPieces(g.board, Black) == 0)
              || (CountPieces(g.board, Red) > 0 && CountPieces(g.board, Black) > 0 && g.current == Black && !CanMove(g.board, Black))
              || (g.outcome == Won(Red) && CountPieces(g.board, Red) > 0 && CountPieces(g.board, Black) > 0
                  && CanMove(g.board, g.current) && g.movesWithoutCapture < MaxMovesWithoutCapture)
    ensures r.outcome == Drawn ==> g.movesWithoutCapture >= MaxMovesWithoutCapture || g.outcome == Drawn
    ensures CountPieces(g.board, Red) > 0 && CountPieces(g.board, Black) > 0 && CanMove(g.board, g.current) ==>
              (r.outcome == Drawn <==> g.movesWithoutCapture >= MaxMovesWithoutCapture || g.outcome == Drawn)
    ensures r.outcome == Ongoing <==>
              CountPieces(g.board, Red) > 0 && CountPieces(g.board, Black) > 0 && CanMove(g.board, g.current)
              && g.movesWithoutCapture < MaxMovesWithoutCapture && g.outcome == Ongoing
  {
    var red := CountPieces(g.board, Red);
    var black := CountPieces(g.board, Black);
    if red == 0 || black == 0 then
      g.(outcome := Won(if red == 0 then Black else Red))
    else if !CanMove(g.board, g.current) then
      g.(outcome := Won(Opponent(g.current)))
    else if g.movesWithoutCapture >= MaxMovesWithoutCapture then
      g.(outcome := Drawn)
    else g
  }

  // ----------------------------------------------------------------- move

  /** The lookup among the highlighted moves: the first one landing on (row, col). */
  function FindMove(ms: seq<Move>, row: int, col: int): (r: Option<Move>)
    ensures r.None? <==> forall m :: m in ms ==> m.row != row || m.col != col
    ensures r.Some? ==> r.value in ms && r.value.row == row && r.value.col == col
    ensures r.Some? ==>
              exists i :: 0 <= i < |ms| && ms[i] == r.value && (forall j :: 0 <= j < i ==> ms[j].row != row || ms[j].col != col)
  {
    if |ms| == 0 then None
    else if ms[0].row == row && ms[0].col == col then Some(ms[0])
    else
      var r := FindMove(ms[1..], row, col);
      assert forall m :: m in ms <==> m == ms[0] || m in ms[1..];
      if r.Some? then
        var i :| 0 <= i < |ms[1..]| && ms[1..][i] == r.value &&
                 forall j :: 0 <= j < i ==> ms[1..][j].row != row || ms[1..][j].col != col;
        assert ms[i + 1] == r.value;
        assert forall j :: 0 <= j < i + 1 ==> ms[j].row != row || ms[j].col != col by {
          forall j | 0 <= j < i + 1
            ensures ms[j].row != row || ms[j].col != col
          {
            if j > 0 {
              assert ms[j] == ms[1..][j - 1];
            }
          }
        }
        r
      else r
  }

  /**
   * The board after the selected piece `p` plays `m`: capture removed,
   * piece moved, crowned on its last row. `handleMove` crowns with
   * `makeKing` whatever the piece was, which for a king changes nothing, so
   * this is the same board change the AI applies to its clones.
   */
  function PlayOn(b: Board, p: Piece, m: Move): (r: Board)
    requires OnBoard(b, p) && m in ValidMoves(b, Some(p))
    ensures OnBoard(r, Landed(p, m))
    ensures p.row != m.row || p.col != m.col
    ensures GetPiece(r, p.row, p.col) == None
    ensures m.capture.Some? ==> GetAt(r, m.capture.value) == None
    ensures forall r', c' ::
              ((r' != m.row || c' != m.col) && (r' != p.row || c' != p.col)
               && (m.capture.None? || r' != m.capture.value.row || c' != m.capture.value.col)) ==>
              GetPiece(r, r', c') == GetPiece(b, r', c')
  {
    ApplyMove(b, Some(p), m)
  }

  /** The state after the move's board change, before the turn passes or the chain continues. */
  function Played(g: GameState, p: Piece, m: Move): (r: GameState)
    requires OnBoard(g.board, p) && m in ValidMoves(g.board, Some(p))
  {
    g.(board := PlayOn(g.board, p, m),
       movesWithoutCapture := if m.capture.Some? then 0 else g.movesWithoutCapture + 1)
  }

  /** The chain continues: the move captured, the piece was not just crowned, and it has another capture. */
  predicate ChainContinues(g: GameState, p: Piece, m: Move)
    requires OnBoard(g.board, p) && m in ValidMoves(g.board, Some(p))
  {
    var q := Landed(p, m);
    m.capture.Some? && !(!p.king && ReachesLastRow(p, m.row)) && |CapturesFrom(PlayOn(g.board, p, m), q)| > 0
  }

  /**
   * `handleMove(row, col)`: a square that is not among the highlighted
   * moves drops the selection. Otherwise the move is played; when the chain
   * continues the same piece stays selected with exactly its captures and
   * the turn stays; otherwise the selection is cleared, the turn passes and
   * the end of the game is checked.
   */
  function HandleMove(g: GameState, row: int, col: int): (r: GameState)
    requires Valid(g)
    ensures FindMove(g.validMoves, row, col).None? ==>
              r == g.(selected := None, validMoves := [])
    ensures FindMove(g.validMoves, row, col).Some? ==>
              var p := g.selected.value;
              var m := FindMove(g.validMoves, row, col).value;
              && r.board == PlayOn(g.board, p, m)
              && r.movesWithoutCapture == (if m.capture.Some? then 0 else g.movesWithoutCapture + 1)
              && (ChainContinues(g, p, m) ==>
                    r.current == g.current && r.outcome == g.outcome
                    && r.selected == Some(Landed(p, m)) && r.validMoves == CapturesFrom(r.board, Landed(p, m)))
              && (!ChainContinues(g, p, m) ==>
                    r.current == Opponent(g.current) && r.selected.None? && r.validMoves == []
                    && r == CheckGameEnd(r.(outcome := g.outcome)))
  {
    match FindMove(g.validMoves, row, col)
    case None => g.(selected := None, validMoves := [])
    case Some(m) =>
      var p := g.selected.value;
      var after := Played(g, p, m);
      var q := Landed(p, m);
      if ChainContinues(g, p, m) then
        after.(selected := Some(q), validMoves := CapturesFrom(after.board, q))
      else
        CheckGameEnd(SwitchTurn(after.(selected := None, validMoves := [])))
  }

  // ---------------------------------------------------------------- click

  /**
   * The click handler: nothing happens once the game is over. A click on
   * one of the current side's pieces selects it, except that while the side
   * can capture only a piece with a capture may be selected, and then only
   * its captures are highlighted. A click elsewhere with a selection plays
   * `handleMove`.
   */
  function Click(g: GameState, row: int, col: int): (r: GameState)
    requires Valid(g)
  {
    if g.outcome != Ongoing then g
    else
      var clicked := GetPiece(g.board, row, col);
      if clicked.Some? && clicked.value.color == g.current then
        var p := clicked.value;
        if SideCanCapture(g.board, g.current) then
          if |CapturesFrom(g.board, p)| == 0 then g
          else g.(selected := Some(p), validMoves := CapturesFrom(g.board, p))
        else g.(selected := Some(p), validMoves := ValidMoves(g.board, Some(p)))
      else if g.selected.Some? then HandleMove(g, row, col)
      else g
  }

  // ------------------------------------------------------------ properties

  /** Moving a piece along a diagonal keeps every piece on the dark squares. */
  lemma DiagonalMoveKeepsDarkSquares(b: Board, p: Piece, m: Move)
    requires OnDarkSquares(b) && OnBoard(b, p) && InBounds(m.row, m.col) && OnDiagonal(p, m)
    ensures OnDarkSquares(ApplyMove(b, Some(p), m))
  {
    var r := ApplyMove(b, Some(p), m);
    DiagonalParity(p, m);
    assert (p.row + p.col) % 2 == 0;
    forall row, col | 0 <= row < Size && 0 <= col < Size && GetPiece(r, row, col).Some?
      ensures (row + col) % 2 == 0
    {
      if row != m.row || col != m.col {
        assert GetPiece(b, row, col).Some?;
      }
    }
  }

  /** Moves keep every piece on the dark squares. */
  lemma PlayOnKeepsDarkSquares(b: Board, p: Piece, m: Move)
    requires OnDarkSquares(b) && OnBoard(b, p) && m in ValidMoves(b, Some(p))
    ensures OnDarkSquares(PlayOn(b, p, m))
  {
    assert OnDiagonal(p, m) && InBounds(m.row, m.col);
    DiagonalMoveKeepsDarkSquares(b, p, m);
  }

  /** Every transition the click handler makes keeps the state valid. */
  lemma ClickKeepsValid(g: GameState, row: int, col: int)
    requires Valid(g)
    ensures Valid(Click(g, row, col))
  {
    var clicked := GetPiece(g.board, row, col);
    if g.outcome == Ongoing && !(clicked.Some? && clicked.value.color == g.current) && g.selected.Some? {
      HandleMoveKeepsValid(g, row, col);
    }
  }

  lemma HandleMoveKeepsValid(g: GameState, row: int, col: int)
    requires Valid(g)
    ensures Valid(HandleMove(g, row, col))
  {
    match FindMove(g.validMoves, row, col)
    case None =>
    case Some(m) =>
      var p := g.selected.value;
      PlayOnKeepsDarkSquares(g.board, p, m);
      if ChainContinues(g, p, m) {
        var b' := PlayOn(g.board, p, m);
        var q := Landed(p, m);
        assert forall m' :: m' in CapturesFrom(b', q) ==> m' in ValidMoves(b', Some(q)) && m'.capture.Some?;
      }
  }

  /**
   * The forced-capture rule: while the side to move can capture, whatever
   * is selected has only captures highlighted, and a click on a piece
   * without a capture changes nothing.
   */
  lemma ForcedCapture(g: GameState, row: int, col: int)
    requires Valid(g) && g.outcome == Ongoing && SideCanCapture(g.board, g.current)
    requires GetPiece(g.board, row, col).Some? && GetPiece(g.board, row, col).value.color == g.current
    ensures var r := Click(g, row, col);
            && (|CapturesFrom(g.board, GetPiece(g.board, row, col).value)| == 0 ==> r == g)
            && (|CapturesFrom(g.board, GetPiece(g.board, row, col).value)| > 0 ==>
                  r.selected == GetPiece(g.board, row, col)
                  && r.validMoves == CapturesFrom(g.board, GetPiece(g.board, row, col).value)
                  && forall m :: m in r.validMoves ==> m.capture.Some?)
  {
  }

  /**
   * Selecting a piece when no capture is forced: the clicked piece of the
   * side to move becomes the selection with all its generated moves.
   */
  lemma FreeSelection(g: GameState, row: int, col: int)
    requires Valid(g) && g.outcome == Ongoing && !SideCanCapture(g.board, g.current)
    requires GetPiece(g.board, row, col).Some? && GetPiece(g.board, row, col).value.color == g.current
    ensures Click(g, row, col) ==
              g.(selected := GetPiece(g.board, row, col), validMoves := ValidMoves(g.board, GetPiece(g.board, row, col)))
  {
  }

  /** With a piece selected, a click on a square not holding a piece of the side to move is a move attempt. */
  lemma ClickElsewhereMoves(g: GameState, row: int, col: int)
    requires Valid(g) && g.outcome == Ongoing && g.selected.Some?
    requires GetPiece(g.board, row, col).None? || GetPiece(g.board, row, col).value.color != g.current
    ensures Click(g, row, col) == HandleMove(g, row, col)
  {
  }

  /** A click on a square with no highlighted move drops the selection and changes nothing else. */
  lemma MissedClickDeselects(g: GameState, row: int, col: int)
    requires Valid(g) && g.outcome == Ongoing && g.selected.Some?
    requires GetPiece(g.board, row, col).None? && FindMove(g.validMoves, row, col).None?
    ensures Click(g, row, col) == g.(selected := None, validMoves := [])
  {
  }

  /** A capture takes one piece of the other side off the board and resets the counter. */
  lemma CaptureTakesOnePiece(g: GameState, row: int, col: int)
    requires Valid(g) && FindMove(g.validMoves, row, col).Some?
    requires FindMove(g.validMoves, row, col).value.capture.Some?
    ensures var r := HandleMove(g, row, col);
            && CountPieces(r.board, Opponent(g.current)) == CountPieces(g.board, Opponent(g.current)) - 1
            && CountPieces(r.board, g.current) == CountPieces(g.board, g.current)
            && r.movesWithoutCapture == 0
  {
    var p := g.selected.value;
    var m := FindMove(g.validMoves, row, col).value;
    assert CaptureShape(g.board, p, m);
    CaptureCountOneColor(g.board, p, m, g.current);
    CaptureCountOneColor(g.board, p, m, Opponent(g.current));
  }

  /** A move without a capture adds one to the counter and leaves the number of pieces alone. */
  lemma QuietMoveCounts(g: GameState, row: int, col: int)
    requires Valid(g) && FindMove(g.validMoves, row, col).Some?
    requires FindMove(g.validMoves, row, col).value.capture.None?
    ensures var r := HandleMove(g, row, col);
            && r.movesWithoutCapture == g.movesWithoutCapture + 1 && r.current == Opponent(g.current)
            && forall c :: CountPieces(r.board, c) == CountPieces(g.board, c)
  {
    var p := g.selected.value;
    var m := FindMove(g.validMoves, row, col).value;
    assert m in ValidMoves(g.board, Some(p));
    assert EmptyCell(g.board, Coord(m.row, m.col));
    forall c: Color
      ensures CountPieces(HandleMove(g, row, col).board, c) == CountPieces(g.board, c)
    {
      QuietCountOneColor(g.board, p, m, c);
    }
  }

  /** After a move the moved piece stands on its target, crowned if it reached its last row. */
  lemma MovedPieceCrowned(g: GameState, row: int, col: int)
    requires Valid(g) && FindMove(g.validMoves, row, col).Some?
    ensures var r := HandleMove(g, row, col);
            && GetPiece(r.board, row, col).Some?
            && GetPiece(r.board, row, col).value.color == g.current
            && ((g.current == Red && row == 0) || (g.current == Black && row == Size - 1) ==>
                  GetPiece(r.board, row, col).value.king)
  {
  }

  /** Once the game is over no click changes anything. */
  lemma FinishedGameIsFrozen(g: GameState, row: int, col: int)
    requires Valid(g) && g.outcome != Ongoing
    ensures Click(g, row, col) == g
  {
  }
}
