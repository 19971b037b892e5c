/**
 * The simulation layer the AI searches with: board clones, applying a move
 * to a clone, the capture-chain depth-first search, the "can this piece be
 * taken next ply" test, the static evaluation and the depth-limited minimax.
 *
 * Boards are values, so a clone shares nothing with the board it was taken
 * from and playing on it can never be observed on the original.
 */
module Search {
  import opened Wrappers
  import opened Pieces
  import opened Boards
  import opened Moves

  /** A piece together with one of its moves: the `{ piece, move }` pairs the AI collects. */
  datatype Choice = Choice(piece: Piece, move: Move)

  /** The piece stands on the square its coordinates name. */
  predicate OnBoard(b: Board, p: Piece) {
    GetPiece(b, p.row, p.col) == Some(p)
  }

  // ----------------------------------------------------------- collection

  /** The piece `p` paired with each of the moves `ms`, in order. */
  function PairWith(p: Piece, ms: seq<Move>): (cs: seq<Choice>)
    ensures forall c :: c in cs <==> c.piece == p && c.move in ms
  {
    if |ms| == 0 then []
    else
      assert forall m :: m in ms <==> m == ms[0] || m in ms[1..];
      [Choice(p, ms[0])] + PairWith(p, ms[1..])
  }

  /** Every (piece, move) pair of the pieces `ps`, piece by piece, each piece's moves in generator order. */
  function AllChoices(b: Board, ps: seq<Piece>): (cs: seq<Choice>)
    ensures forall c :: c in cs <==> c.piece in ps && c.move in ValidMoves(b, Some(c.piece))
  {
    if |ps| == 0 then []
    else
      assert forall q :: q in ps <==> q == ps[0] || q in ps[1..];
      PairWith(ps[0], ValidMoves(b, Some(ps[0]))) + AllChoices(b, ps[1..])
  }

  /** All moves of every piece of `color`, in the order the AI collects them. */
  function ChoicesOf(b: Board, color: Color): (cs: seq<Choice>)
    ensures forall c :: c in cs <==>
              c.piece.color == color && OnBoard(b, c.piece) && c.move in ValidMoves(b, Some(c.piece))
    ensures forall c :: c in cs ==> EmptyCell(b, Coord(c.move.row, c.move.col))
  {
    AllChoices(b, PiecesOfColor(b, color))
  }

  /** A side has no pair to collect exactly when `hasValidMoves` is false for it. */
  lemma NoChoicesIffNoMoves(b: Board, color: Color)
    ensures |ChoicesOf(b, color)| == 0 <==> !HasValidMoves(b, color, (b': Board, p: Piece) => ValidMoves(b', Some(p)))
  {
    var cs := ChoicesOf(b, color);
    if |cs| > 0 {
      assert cs[0] in cs;
      assert cs[0].piece in PiecesOfColor(b, color);
    }
    forall p | p in PiecesOfColor(b, color) && |ValidMoves(b, Some(p))| > 0
      ensures |cs| > 0
    {
      assert Choice(p, ValidMoves(b, Some(p))[0]) in cs;
    }
  }

  /** A pair the generator produced for a piece that is on the board. */
  predicate Playable(b: Board, c: Choice) {
    OnBoard(b, c.piece) && c.move in ValidMoves(b, Some(c.piece))
  }

  // ------------------------------------------------------ clone and apply

  function CopyCell(cell: Cell): Cell {
    match cell
    case None => None
    case Some(p) => Some(Piece(p.color, p.row, p.col, p.king))
  }

  /**
   * `cloneBoardForAI`: a fresh grid with a copy of colour, row, column and
   * king flag of the piece on every square. The copy equals the original.
   */
  function CloneBoard(b: Board): (c: Board)
    ensures forall r, col :: GetPiece(c, r, col) == GetPiece(b, r, col)
    ensures c == b
  {
    var g := seq(Size, r => seq(Size, col => CopyCell(GetPiece(b, r, col))));
    assert WellFormed(g);
    BoardExt(g, b);
    g
  }

  /** The clone's promotion rule: red reaching row 0, black reaching the last row. */
  function ReachesLastRow(p: Piece, row: int): bool {
    (p.color == Red && row == 0) || (p.color == Black && row == Size - 1)
  }

  /** The piece as it stands after `m`: moved, and a king if it was one or has just been promoted. */
  function Landed(p: Piece, m: Move): (q: Piece)
    ensures q.color == p.color && q.row == m.row && q.col == m.col
    ensures q.king <==> p.king || ReachesLastRow(p, m.row)
  {
    var moved := MovedTo(p, m.row, m.col);
    if !p.king && ReachesLastRow(p, m.row) then MakeKing(moved) else moved
  }

  /**
   * `applyMoveOnClone`: removes the captured piece, moves the piece, and
   * promotes it on the far row. An absent piece leaves the board as it is.
   */
  function ApplyMove(b: Board, piece: Cell, m: Move): (r: Board)
    requires piece.Some? ==> InBounds(piece.value.row, piece.value.col) && InBounds(m.row, m.col)
    ensures piece.None? ==> r == b
    ensures piece.Some? ==> GetPiece(r, m.row, m.col) == Some(Landed(piece.value, m))
    ensures piece.Some? && (piece.value.row != m.row || piece.value.col != m.col) ==>
              GetPiece(r, piece.value.row, piece.value.col) == None
    ensures piece.Some? && m.capture.Some? && (m.capture.value.row != m.row || m.capture.value.col != m.col) ==>
              GetAt(r, m.capture.value) == None
    ensures piece.Some? ==>
              forall r', c' ::
                ((r' != m.row || c' != m.col) && (r' != piece.value.row || c' != piece.value.col)
                 && (m.capture.None? || r' != m.capture.value.row || c' != m.capture.value.col)) ==>
                GetPiece(r, r', c') == GetPiece(b, r', c')
  {
    match piece
    case None => b
    case Some(p) =>
      var b1 := if m.capture.Some? then RemovePiece(b, m.capture.value.row, m.capture.value.col) else b;
      var b2 := MovePiece(b1, Some(p), m.row, m.col);
      if !p.king && ReachesLastRow(p, m.row) then SetCell(b2, m.row, m.col, Some(Landed(p, m))) else b2
  }

  /** A collected pair played on a clone of `b`, the piece looked up on the clone by its coordinates. */
  function ApplyChoice(b: Board, c: Choice): Board
    requires InBounds(c.move.row, c.move.col)
  {
    var clone := CloneBoard(b);
    ApplyMove(clone, GetPiece(clone, c.piece.row, c.piece.col), c.move)
  }

  /** The squares a capture touches: the capturer's, the taken piece's and the landing, all distinct. */
  predicate CaptureShape(b: Board, p: Piece, m: Move) {
    OnBoard(b, p) && m.capture.Some? && EmptyCell(b, Coord(m.row, m.col))
    && GetAt(b, m.capture.value).Some? && GetAt(b, m.capture.value).value.color != p.color
  }

  lemma CaptureCountOneColor(b: Board, p: Piece, m: Move, color: Color)
    requires CaptureShape(b, p, m)
    ensures CountPieces(ApplyMove(b, Some(p), m), color) == CountPieces(b, color) - Weight(GetAt(b, m.capture.value), color)
  {
    var x := m.capture.value;
    var b1 := SetCell(b, x.row, x.col, None);
    assert GetPiece(b1, p.row, p.col) == Some(p);
    var b1' := SetCell(b1, p.row, p.col, None);
    assert GetPiece(b1', m.row, m.col) == None;
    var b2 := SetCell(b1', m.row, m.col, Some(MovedTo(p, m.row, m.col)));
    CountSetCell(b, x.row, x.col, None, color);
    CountSetCell(b1, p.row, p.col, None, color);
    CountSetCell(b1', m.row, m.col, Some(MovedTo(p, m.row, m.col)), color);
    if !p.king && ReachesLastRow(p, m.row) {
      CountSetCell(b2, m.row, m.col, Some(Landed(p, m)), color);
    }
  }

  /** A move without a capture onto an empty square keeps every colour's count. */
  lemma QuietCountOneColor(b: Board, p: Piece, m: Move, color: Color)
    requires OnBoard(b, p) && m.capture.None? && EmptyCell(b, Coord(m.row, m.col))
    ensures CountPieces(ApplyMove(b, Some(p), m), color) == CountPieces(b, color)
  {
    var b1 := SetCell(b, p.row, p.col, None);
    assert GetPiece(b1, m.row, m.col) == None;
    var b2 := SetCell(b1, m.row, m.col, Some(MovedTo(p, m.row, m.col)));
    CountSetCell(b, p.row, p.col, None, color);
    CountSetCell(b1, m.row, m.col, Some(MovedTo(p, m.row, m.col)), color);
    if !p.king && ReachesLastRow(p, m.row) {
      CountSetCell(b2, m.row, m.col, Some(Landed(p, m)), color);
    }
  }

  /** A capture takes exactly one piece off the board and leaves the capturer on its landing square. */
  lemma CaptureRemovesOne(b: Board, p: Piece, m: Move)
    requires CaptureShape(b, p, m)
    ensures Total(ApplyMove(b, Some(p), m)) == Total(b) - 1
    ensures OnBoard(ApplyMove(b, Some(p), m), Landed(p, m))
  {
    CaptureCountOneColor(b, p, m, Red);
    CaptureCountOneColor(b, p, m, Black);
  }

  // ------------------------------------------------------ capture chains

  /** The captures `p` has from where it stands. */
  function CapturesFrom(b: Board, p: Piece): seq<Move> {
    CapturesOf(ValidMoves(b, Some(p)))
  }

  /** Every capture the generator offers a piece on the board has the shape of a capture. */
  lemma GeneratedCapturesHaveShape(b: Board, p: Piece)
    requires OnBoard(b, p)
    ensures forall m :: m in CapturesFrom(b, p) ==> CaptureShape(b, p, m)
  {
  }

  /** The board after the piece `p` plays the capture `m`, on a clone. */
  function AfterCapture(b: Board, p: Piece, m: Move): (r: Board)
    requires CaptureShape(b, p, m)
    ensures Total(r) < Total(b)
    ensures OnBoard(r, Landed(p, m))
  {
    CaptureRemovesOne(b, p, m);
    ApplyMove(CloneBoard(b), Some(p), m)
  }

  /**
   * The depth-first search inside `getMaxCaptureChain`: 0 when the piece has
   * no capture, otherwise the best of 1 + the search after each capture.
   * Every capture removes a piece, so the number of pieces bounds the depth.
   */
  function ChainDfs(b: Board, p: Piece): nat
    requires OnBoard(b, p)
    decreases Total(b), 1
  {
    var caps := CapturesFrom(b, p);
    GeneratedCapturesHaveShape(b, p);
    if |caps| == 0 then 0 else MaxOf(Branches(b, p, caps))
  }

  /** For each capture in `ms`, 1 + the search from where it lands: the loop body's `sub`. */
  function Branches(b: Board, p: Piece, ms: seq<Move>): (vs: seq<nat>)
    requires forall m :: m in ms ==> CaptureShape(b, p, m)
    ensures |vs| == |ms|
    decreases Total(b), 0
  {
    seq(|ms|, i requires 0 <= i < |ms| => 1 + ChainDfs(AfterCapture(b, p, ms[i]), Landed(p, ms[i])))
  }

  /**
   * `getMaxCaptureChain`: plays `start` for `piece` on a clone, then counts
   * the longest run of further captures. The piece is looked up on the clone
   * by its coordinates; if it is not there the answer is 0.
   */
  function MaxCaptureChain(b: Board, piece: Piece, start: Move): nat
    requires InBounds(start.row, start.col)
  {
    var clone := CloneBoard(b);
    match GetPiece(clone, piece.row, piece.col)
    case None => 0
    case Some(cp) => ChainDfs(ApplyMove(clone, Some(cp), start), Landed(cp, start))
  }

  /** `ms` is a run of captures that `p` can play one after another from `b`. */
  ghost predicate IsChain(b: Board, p: Piece, ms: seq<Move>)
    requires OnBoard(b, p)
    decreases |ms|
  {
    |ms| == 0 ||
    (ms[0] in CapturesFrom(b, p)
     && (GeneratedCapturesHaveShape(b, p); IsChain(AfterCapture(b, p, ms[0]), Landed(p, ms[0]), ms[1..])))
  }

  /** No run of captures is longer than what the search reports. */
  lemma {:induction false} ChainDfsIsUpperBound(b: Board, p: Piece, ms: seq<Move>)
    requires OnBoard(b, p) && IsChain(b, p, ms)
    ensures |ms| <= ChainDfs(b, p)
    decreases |ms|
  {
    if |ms| > 0 {
      GeneratedCapturesHaveShape(b, p);
      ChainDfsIsUpperBound(AfterCapture(b, p, ms[0]), Landed(p, ms[0]), ms[1..]);
      EveryCaptureBounded(b, p, ms[0]);
    }
  }

  /** The search's answer is the length of a run of captures that can actually be played. */
  lemma {:induction false} ChainDfsIsAttained(b: Board, p: Piece) returns (ms: seq<Move>)
    requires OnBoard(b, p)
    ensures IsChain(b, p, ms) && |ms| == ChainDfs(b, p)
    decreases Total(b)
  {
    if |CapturesFrom(b, p)| == 0 {
      ms := [];
    } else {
      var m := BestCapture(b, p);
      var rest := ChainDfsIsAttained(AfterCapture(b, p, m), Landed(p, m));
      ms := [m] + rest;
      ChainCons(b, p, m, rest);
    }
  }

  /** A capture through which the search's best count is reached. */
  lemma BestCapture(b: Board, p: Piece) returns (m: Move)
    requires OnBoard(b, p) && |CapturesFrom(b, p)| > 0
    ensures m in CapturesFrom(b, p) && CaptureShape(b, p, m)
    ensures ChainDfs(b, p) == 1 + ChainDfs(AfterCapture(b, p, m), Landed(p, m))
  {
    var caps := CapturesFrom(b, p);
    GeneratedCapturesHaveShape(b, p);
    var subs := Branches(b, p, caps);
    assert ChainDfs(b, p) == MaxOf(subs);
    var i :| 0 <= i < |subs| && subs[i] == MaxOf(subs);
    m := caps[i];
  }

  /** Each capture's continuation is at most one less than the search's count. */
  lemma EveryCaptureBounded(b: Board, p: Piece, m: Move)
    requires OnBoard(b, p) && m in CapturesFrom(b, p) && CaptureShape(b, p, m)
    ensures 1 + ChainDfs(AfterCapture(b, p, m), Landed(p, m)) <= ChainDfs(b, p)
  {
    var caps := CapturesFrom(b, p);
    GeneratedCapturesHaveShape(b, p);
    var subs := Branches(b, p, caps);
    assert ChainDfs(b, p) == MaxOf(subs);
    var i :| 0 <= i < |caps| && caps[i] == m;
    assert subs[i] in subs;
  }

  /** A capture followed by a run of captures from where it lands is a run of captures. */
  lemma ChainCons(b: Board, p: Piece, m: Move, rest: seq<Move>)
    requires m in CapturesFrom(b, p) && CaptureShape(b, p, m)
    requires IsChain(AfterCapture(b, p, m), Landed(p, m), rest)
    ensures IsChain(b, p, [m] + rest)
  {
    var ms := [m] + rest;
    assert ms[0] == m && ms[1..] == rest;
  }

  /**
   * `getMaxCaptureChain` for a piece on the board: after the start move, the
   * longest run of captures the piece can play, one that is reached and
   * that no run exceeds.
   */
  lemma MaxCaptureChainIsLongest(b: Board, p: Piece, start: Move) returns (best: seq<Move>)
    requires OnBoard(b, p) && InBounds(start.row, start.col)
    ensures OnBoard(ApplyMove(b, Some(p), start), Landed(p, start))
    ensures IsChain(ApplyMove(b, Some(p), start), Landed(p, start), best)
    ensures |best| == MaxCaptureChain(b, p, start)
    ensures forall ms :: IsChain(ApplyMove(b, Some(p), start), Landed(p, start), ms) ==> |ms| <= |best|
  {
    var after := ApplyMove(b, Some(p), start);
    var q := Landed(p, start);
    assert GetPiece(after, start.row, start.col) == Some(q);
    best := ChainDfsIsAttained(after, q);
    forall ms | IsChain(after, q, ms)
      ensures |ms| <= |best|
    {
      ChainDfsIsUpperBound(after, q, ms);
    }
  }

  /** The search is 0 exactly when the piece has no capture, and at least 1 otherwise. */
  lemma ChainDfsZeroIffNoCapture(b: Board, p: Piece)
    requires OnBoard(b, p)
    ensures ChainDfs(b, p) == 0 <==> |CapturesFrom(b, p)| == 0
  {
    var caps := CapturesFrom(b, p);
    if |caps| > 0 {
      GeneratedCapturesHaveShape(b, p);
      var vs := Branches(b, p, caps);
      assert ChainDfs(b, p) == MaxOf(vs);
      assert vs[0] in vs;
    }
  }

  // ------------------------------------------------------- vulnerability

  /** Some move in `ms` captures the square `target`. */
  function SomeMoveCaptures(ms: seq<Move>, target: Coord): (r: bool)
    ensures r <==> exists m :: m in ms && m.capture == Some(target)
  {
    if |ms| == 0 then false
    else if ms[0].capture == Some(target) then true
    else
      assert forall m :: m in ms ==> m == ms[0] || m in ms[1..];
      SomeMoveCaptures(ms[1..], target)
  }

  /** Some piece in `qs` has a move capturing the square `target`. */
  function SomePieceCaptures(b: Board, qs: seq<Piece>, target: Coord): (r: bool)
    ensures r <==> exists q: Piece, m :: q in qs && m in ValidMoves(b, Some(q)) && m.capture == Some(target)
  {
    if |qs| == 0 then false
    else if SomeMoveCaptures(ValidMoves(b, Some(qs[0])), target) then true
    else
      assert forall q :: q in qs ==> q == qs[0] || q in qs[1..];
      SomePieceCaptures(b, qs[1..], target)
  }

  /** `pieceIsVulnerable`: an opposing piece has a move that captures this piece's square. */
  function PieceIsVulnerable(b: Board, piece: Piece): (r: bool)
    ensures r <==> exists q: Piece, m :: q.color == Opponent(piece.color) && OnBoard(b, q)
                    && m in ValidMoves(b, Some(q)) && m.capture == Some(Coord(piece.row, piece.col))
  {
    SomePieceCaptures(b, PiecesOfColor(b, Opponent(piece.color)), Coord(piece.row, piece.col))
  }

  /**
   * `moveLeadsToImmediateCapture`: after playing the pair on a clone, some
   * piece of the side opposing `ai` can capture the moved piece.
   */
  function MoveLeadsToImmediateCapture(b: Board, c: Choice, ai: Color): bool
    requires InBounds(c.move.row, c.move.col)
  {
    var clone := CloneBoard(b);
    match GetPiece(clone, c.piece.row, c.piece.col)
    case None => false
    case Some(cp) =>
      var after := ApplyMove(clone, Some(cp), c.move);
      var moved := Landed(cp, c.move);
      SomePieceCaptures(after, PiecesOfColor(after, Opponent(ai)), Coord(moved.row, moved.col))
  }

  /** For the side's own piece, the move is dangerous exactly when the moved piece is then vulnerable. */
  lemma ImmediateCaptureIsVulnerability(b: Board, c: Choice, ai: Color)
    requires Playable(b, c) && c.piece.color == ai
    ensures MoveLeadsToImmediateCapture(b, c, ai) ==
              PieceIsVulnerable(ApplyChoice(b, c), Landed(c.piece, c.move))
  {
  }

  // ---------------------------------------------------------- evaluation

  function Abs(x: int): nat {
    if x < 0 then -x else x
  }

  /**
   * `evaluatePosition` on the 8x8 board: max(0, 10 - d) with d the
   * Manhattan distance from (row, col) to the centre (3.5, 3.5), plus 4 on
   * the first and last rows. Computed in doubled coordinates, where 2d is
   * |2row-7| + |2col-7|; that sum is even, so d is a whole number.
   */
  function EvaluatePosition(row: int, col: int): (s: int)
    ensures 0 <= s <= 14
    ensures InBounds(row, col) ==> 4 <= s <= 10
  {
    var twiceDist := Abs(2 * row - (Size - 1)) + Abs(2 * col - (Size - 1));
    var centreScore := if 20 - twiceDist > 0 then (20 - twiceDist) / 2 else 0;
    var backRowScore := if row == 0 || row == Size - 1 then 4 else 0;
    centreScore + backRowScore
  }

  function RAbs(x: real): real {
    if x < 0.0 then -x else x
  }

  /**
   * The score is the source's formula evaluated exactly: with d the
   * Manhattan distance from (row, col) to the centre ((Size-1)/2, (Size-1)/2),
   * max(0, 10 - d) plus 4 on the first and last rows.
   */
  lemma EvaluatePositionExact(row: int, col: int)
    ensures var centre := (Size - 1) as real / 2.0;
            var d := RAbs(row as real - centre) + RAbs(col as real - centre);
            EvaluatePosition(row, col) as real ==
              (if 10.0 - d > 0.0 then 10.0 - d else 0.0) + (if row == 0 || row == Size - 1 then 4.0 else 0.0)
  {
  }

  /** The positional score is symmetric under both mirror images of the board. */
  lemma EvaluatePositionMirror(row: int, col: int)
    ensures EvaluatePosition(row, col) == EvaluatePosition(Size - 1 - row, col)
    ensures EvaluatePosition(row, col) == EvaluatePosition(row, Size - 1 - col)
  {
  }

  /** One piece's term in `evaluateBoard`. */
  function PieceScore(b: Board, p: Piece, ai: Color): int {
    var base := if p.king then 160 else 100;
    var pos := EvaluatePosition(p.row, p.col);
    if p.color == ai then base + pos - (if PieceIsVulnerable(b, p) then 40 else 0)
    else -(base + pos) + (if PieceIsVulnerable(b, p) then 20 else 0)
  }

  function ScoreCells(b: Board, cells: seq<Cell>, ai: Color): int
    decreases |cells|
  {
    if |cells| == 0 then 0
    else
      var last := cells[|cells| - 1];
      ScoreCells(b, cells[..|cells| - 1], ai) + (if last.Some? then PieceScore(b, last.value, ai) else 0)
  }

  function ScoreRows(b: Board, rows: seq<seq<Cell>>, ai: Color): int
    decreases |rows|
  {
    if |rows| == 0 then 0
    else ScoreRows(b, rows[..|rows| - 1], ai) + ScoreCells(b, rows[|rows| - 1], ai)
  }

  /**
   * `evaluateBoard`: material (man 100, king 160) plus position for each
   * piece of `ai`, less 40 when it can be taken; the same subtracted for
   * each opposing piece, with 20 back when that piece can be taken.
   */
  function EvaluateBoard(b: Board, ai: Color): int {
    ScoreRows(b, b, ai)
  }

  /** Every piece of `ai` is worth 64 to 170 and every opposing piece -170 to -84. */
  lemma PieceScoreBounds(b: Board, p: Piece, ai: Color)
    requires InBounds(p.row, p.col)
    ensures p.color == ai ==> 64 <= PieceScore(b, p, ai) <= 170
    ensures p.color != ai ==> -170 <= PieceScore(b, p, ai) <= -84
  {
  }

  predicate PiecesInBounds(cells: seq<Cell>) {
    forall i :: 0 <= i < |cells| && cells[i].Some? ==> InBounds(cells[i].value.row, cells[i].value.col)
  }

  lemma {:induction false} ScoreCellsBounds(b: Board, cells: seq<Cell>, ai: Color)
    requires PiecesInBounds(cells)
    ensures 64 * CountCells(cells, ai) - 170 * CountCells(cells, Opponent(ai)) <= ScoreCells(b, cells, ai)
    ensures ScoreCells(b, cells, ai) <= 170 * CountCells(cells, ai) - 84 * CountCells(cells, Opponent(ai))
    decreases |cells|
  {
    if |cells| > 0 {
      var last := cells[|cells| - 1];
      ScoreCellsBounds(b, cells[..|cells| - 1], ai);
      if last.Some? {
        PieceScoreBounds(b, last.value, ai);
      }
    }
  }

  lemma {:induction false} ScoreRowsBounds(b: Board, n: nat, ai: Color)
    requires n <= Size
    ensures 64 * CountRows(b[..n], ai) - 170 * CountRows(b[..n], Opponent(ai)) <= ScoreRows(b, b[..n], ai)
    ensures ScoreRows(b, b[..n], ai) <= 170 * CountRows(b[..n], ai) - 84 * CountRows(b[..n], Opponent(ai))
  {
    if n > 0 {
      ScoreRowsBounds(b, n - 1, ai);
      assert b[..n][..n - 1] == b[..n - 1];
      assert PiecesInBounds(b[n - 1]);
      ScoreCellsBounds(b, b[n - 1], ai);
    }
  }

  /**
   * The evaluation is bounded by the material on the board: at least 64 per
   * own piece less 170 per opposing piece, at most 170 per own piece less 84
   * per opposing piece.
   */
  lemma EvaluateBoardBounds(b: Board, ai: Color)
    ensures 64 * CountPieces(b, ai) - 170 * CountPieces(b, Opponent(ai)) <= EvaluateBoard(b, ai)
    ensures EvaluateBoard(b, ai) <= 170 * CountPieces(b, ai) - 84 * CountPieces(b, Opponent(ai))
  {
    ScoreRowsBounds(b, Size, ai);
    assert b[..Size] == b;
  }

  predicate NoneVulnerable(b: Board, cells: seq<Cell>) {
    forall i :: 0 <= i < |cells| && cells[i].Some? ==> !PieceIsVulnerable(b, cells[i].value)
  }

  lemma {:induction false} ScoreCellsZeroSum(b: Board, cells: seq<Cell>, ai: Color)
    requires NoneVulnerable(b, cells)
    ensures ScoreCells(b, cells, ai) == -ScoreCells(b, cells, Opponent(ai))
    decreases |cells|
  {
    if |cells| > 0 {
      ScoreCellsZeroSum(b, cells[..|cells| - 1], ai);
    }
  }

  lemma {:induction false} ScoreRowsZeroSum(b: Board, n: nat, ai: Color)
    requires n <= Size
    requires forall r :: 0 <= r < Size ==> NoneVulnerable(b, b[r])
    ensures ScoreRows(b, b[..n], ai) == -ScoreRows(b, b[..n], Opponent(ai))
  {
    if n > 0 {
      ScoreRowsZeroSum(b, n - 1, ai);
      assert b[..n][..n - 1] == b[..n - 1];
      ScoreCellsZeroSum(b, b[n - 1], ai);
    }
  }

  /** With no piece under attack the evaluation is zero-sum: one side's score is the other's negated. */
  lemma EvaluateBoardZeroSum(b: Board, ai: Color)
    requires forall r, c :: GetPiece(b, r, c).Some? ==> !PieceIsVulnerable(b, GetPiece(b, r, c).value)
    ensures EvaluateBoard(b, ai) == -EvaluateBoard(b, Opponent(ai))
  {
    forall r | 0 <= r < Size
      ensures NoneVulnerable(b, b[r])
    {
      forall i | 0 <= i < |b[r]| && b[r][i].Some?
        ensures !PieceIsVulnerable(b, b[r][i].value)
      {
        assert GetPiece(b, r, i) == b[r][i];
      }
    }
    ScoreRowsZeroSum(b, Size, ai);
    assert b[..Size] == b;
  }

  // -------------------------------------------------------------- minimax

  /** The largest value, as the source's running `if (val > best) best = val`. */
  function MaxOf(vs: seq<int>): (r: int)
    requires |vs| > 0
    ensures r in vs && forall v :: v in vs ==> v <= r
    decreases |vs|
  {
    if |vs| == 1 then vs[0]
    else
      var best := MaxOf(vs[..|vs| - 1]);
      assert forall v :: v in vs ==> v in vs[..|vs| - 1] || v == vs[|vs| - 1];
      if vs[|vs| - 1] > best then vs[|vs| - 1] else best
  }

  /** The smallest value, as the source's running `if (val < worst) worst = val`. */
  function MinOf(vs: seq<int>): (r: int)
    requires |vs| > 0
    ensures r in vs && forall v :: v in vs ==> r <= v
    decreases |vs|
  {
    if |vs| == 1 then vs[0]
    else
      var worst := MinOf(vs[..|vs| - 1]);
      assert forall v :: v in vs ==> v in vs[..|vs| - 1] || v == vs[|vs| - 1];
      if vs[|vs| - 1] < worst then vs[|vs| - 1] else worst
  }

  /** The side to move at a node: the AI on maximising nodes, its opponent otherwise. */
  function Mover(isMax: bool, ai: Color): Color {
    if isMax then ai else Opponent(ai)
  }

  /**
   * `minimax` without pruning: the evaluation at depth 0; -9999 for the AI
   * and +9999 for the opponent when the side to move has no move; otherwise
   * the maximum or minimum over the children, sides alternating.
   */
  function Minimax(b: Board, depth: nat, isMax: bool, ai: Color): int
    decreases depth
  {
    if depth == 0 then EvaluateBoard(b, ai)
    else
      var cs := ChoicesOf(b, Mover(isMax, ai));
      if |cs| == 0 then (if isMax then -9999 else 9999)
      else
        var vals := ChildValues(b, cs, depth, isMax, ai);
        if isMax then MaxOf(vals) else MinOf(vals)
  }

  /** The minimax value of every child, in the order the moves were collected. */
  function ChildValues(b: Board, cs: seq<Choice>, depth: nat, isMax: bool, ai: Color): (vs: seq<int>)
    requires depth >= 1
    requires forall c :: c in cs ==> InBounds(c.move.row, c.move.col)
    ensures |vs| == |cs|
    decreases depth, 0
  {
    seq(|cs|, i requires 0 <= i < |cs| => Minimax(ApplyChoice(b, cs[i]), depth - 1, !isMax, ai))
  }

  /**
   * At a maximising node the value is one child's value and no child is
   * worth more; at a minimising node it is one child's value and no child is
   * worth less.
   */
  lemma MinimaxPicksBestChild(b: Board, depth: nat, isMax: bool, ai: Color)
    requires depth >= 1 && |ChoicesOf(b, Mover(isMax, ai))| > 0
    ensures var cs := ChoicesOf(b, Mover(isMax, ai));
            forall c :: c in cs ==>
              if isMax then Minimax(ApplyChoice(b, c), depth - 1, false, ai) <= Minimax(b, depth, isMax, ai)
              else Minimax(b, depth, isMax, ai) <= Minimax(ApplyChoice(b, c), depth - 1, true, ai)
    ensures var cs := ChoicesOf(b, Mover(isMax, ai));
            exists c :: c in cs && Minimax(b, depth, isMax, ai) == Minimax(ApplyChoice(b, c), depth - 1, !isMax, ai)
  {
    var cs := ChoicesOf(b, Mover(isMax, ai));
    var vals := ChildValues(b, cs, depth, isMax, ai);
    forall c | c in cs
      ensures Minimax(ApplyChoice(b, c), depth - 1, !isMax, ai) in vals
    {
      var i :| 0 <= i < |cs| && cs[i] == c;
      assert vals[i] == Minimax(ApplyChoice(b, c), depth - 1, !isMax, ai);
    }
    var v := Minimax(b, depth, isMax, ai);
    assert v in vals;
    var i :| 0 <= i < |vals| && vals[i] == v;
    assert cs[i] in cs;
  }

  /** A side with no move is scored as lost for it: -9999 for the AI, +9999 for its opponent. */
  lemma MinimaxNoMoves(b: Board, depth: nat, isMax: bool, ai: Color)
    requires depth >= 1 && !HasValidMoves(b, Mover(isMax, ai), (b': Board, p: Piece) => ValidMoves(b', Some(p)))
    ensures Minimax(b, depth, isMax, ai) == if isMax then -9999 else 9999
  {
    NoChoicesIffNoMoves(b, Mover(isMax, ai));
  }
}
