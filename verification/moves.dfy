/**
 * The move generator: from a board and one piece, the list of destination
 * moves that piece has on its own, each with the square it captures, if any.
 * Forced capture across a whole side is left to the callers.
 *
 * Men step one square diagonally forward and capture by jumping an adjacent
 * enemy in a forward direction only. Kings ("flying kings") slide any
 * distance along a diagonal and capture by landing anywhere behind exactly
 * one enemy on that diagonal.
 */
module Moves {
  import opened Wrappers
  import opened Pieces
  import opened Boards

  datatype Coord = Coord(row: int, col: int)

  /**
   * A destination, the captured square when the move jumps a piece, and the
   * promotion flag, which only men's captures carry.
   */
  datatype Move = Move(row: int, col: int, capture: Option<Coord>, isPromotion: Option<bool>)

  /** A diagonal direction; both components are 1 or -1. */
  datatype Dir = Dir(dr: int, dc: int)

  /** The four diagonals, in the order the king scans them. */
  const Diagonals: seq<Dir> := [Dir(-1, -1), Dir(-1, 1), Dir(1, -1), Dir(1, 1)]

  predicate UnitDir(d: Dir) {
    (d.dr == 1 || d.dr == -1) && (d.dc == 1 || d.dc == -1)
  }

  /** The row direction a man of `color` advances in: red up the board, black down. */
  function Forward(color: Color): int {
    if color == Red then -1 else 1
  }

  /** A man's two directions, left diagonal first. */
  function ForwardDirs(color: Color): seq<Dir> {
    [Dir(Forward(color), -1), Dir(Forward(color), 1)]
  }

  /** `x` moved `k` steps in direction `dx` (1 or -1). */
  function Step(x: int, dx: int, k: int): int {
    if dx >= 0 then x + k else x - k
  }

  /** The number of steps in direction `dx` that lead from `x` to `y`. */
  function Offset(x: int, dx: int, y: int): int {
    if dx >= 0 then y - x else x - y
  }

  /** The square `k` steps from `p` along `d`. */
  function At(p: Piece, d: Dir, k: int): Coord {
    Coord(Step(p.row, d.dr, k), Step(p.col, d.dc, k))
  }

  function GetAt(b: Board, x: Coord): Cell {
    GetPiece(b, x.row, x.col)
  }

  predicate EmptyCell(b: Board, x: Coord) {
    InBounds(x.row, x.col) && GetAt(b, x).None?
  }

  predicate EnemyCell(b: Board, p: Piece, x: Coord) {
    GetAt(b, x).Some? && GetAt(b, x).value.color != p.color
  }

  /** Every square `lo`..`hi`-1 steps from `p` along `d` is on the board and empty. */
  predicate Clear(b: Board, p: Piece, d: Dir, lo: int, hi: int) {
    forall j :: lo <= j < hi ==> EmptyCell(b, At(p, d, j))
  }

  // ---------------------------------------------------------------- kings

  /** Steps left before the scan from `p` along `d` leaves the board by rows. */
  function RayRoom(p: Piece, d: Dir, k: int): int {
    if d.dr >= 0 then Size - p.row - k else p.row + 1 - k
  }

  /**
   * One iteration of the king's scan, at the square `k` steps along `d`;
   * `found` is the enemy already passed on this ray. Empty squares are
   * landings (capturing `found` if there is one); the scan stops at an own
   * piece, at a second enemy, or off the board.
   */
  function Ray(b: Board, p: Piece, d: Dir, k: int, found: Option<Coord>): seq<Move>
    decreases RayRoom(p, d, k)
  {
    var x := At(p, d, k);
    if !InBounds(x.row, x.col) then []
    else
      match GetAt(b, x)
      case None => [Move(x.row, x.col, found, None)] + Ray(b, p, d, k + 1, found)
      case Some(q) =>
        if q.color == p.color then []
        else if found.Some? then []
        else Ray(b, p, d, k + 1, Some(x))
  }

  function KingMoves(b: Board, p: Piece): seq<Move> {
    Ray(b, p, Diagonals[0], 1, None) + Ray(b, p, Diagonals[1], 1, None)
    + Ray(b, p, Diagonals[2], 1, None) + Ray(b, p, Diagonals[3], 1, None)
  }

  // ----------------------------------------------------------------- men

  /** The promotion flag of a man's capture landing on `row`; row 7 is written as a literal. */
  function Promotes(p: Piece, row: int): bool {
    !p.king && ((p.color == Red && row == 0) || (p.color == Black && row == 7))
  }

  /** A man's plain step along `d`, when the square is on the board and empty. */
  function StepTo(b: Board, p: Piece, d: Dir): seq<Move> {
    var x := At(p, d, 1);
    if InBounds(x.row, x.col) && GetAt(b, x).None? then [Move(x.row, x.col, None, None)] else []
  }

  /** A man's capture along `d`: an adjacent enemy with an empty, on-board square behind it. */
  function JumpOver(b: Board, p: Piece, d: Dir): seq<Move> {
    var x1 := At(p, d, 1);
    var x2 := At(p, d, 2);
    if InBounds(x2.row, x2.col) && GetAt(b, x1).Some? && GetAt(b, x1).value.color != p.color && GetAt(b, x2).None?
    then [Move(x2.row, x2.col, Some(x1), Some(Promotes(p, x2.row)))]
    else []
  }

  /** Plain steps first, then captures; both only in the two forward directions. */
  function ManMoves(b: Board, p: Piece): seq<Move> {
    var fw := ForwardDirs(p.color);
    StepTo(b, p, fw[0]) + StepTo(b, p, fw[1]) + JumpOver(b, p, fw[0]) + JumpOver(b, p, fw[1])
  }

  // ------------------------------------------------------------ contracts

  /** A man's plain move: one empty square diagonally forward. */
  predicate ManStep(b: Board, p: Piece, m: Move) {
    && m.capture.None? && m.isPromotion.None?
    && m.row == p.row + Forward(p.color)
    && (m.col == p.col - 1 || m.col == p.col + 1)
    && EmptyCell(b, Coord(m.row, m.col))
  }

  /** A man's capture: two squares diagonally forward, over an adjacent enemy. */
  predicate ManJump(b: Board, p: Piece, m: Move) {
    && m.row == p.row + 2 * Forward(p.color)
    && (m.col == p.col - 2 || m.col == p.col + 2)
    && EmptyCell(b, Coord(m.row, m.col))
    && m.capture == Some(Coord(p.row + Forward(p.color), (p.col + m.col) / 2))
    && EnemyCell(b, p, m.capture.value)
    && m.isPromotion == Some(!p.king && ((p.color == Red && m.row == 0) || (p.color == Black && m.row == 7)))
  }

  /**
   * A king's landing along `d`: an empty square `k` steps away with every
   * square before it empty, or with exactly one enemy before it, which is
   * then the capture.
   */
  predicate KingMoveOnRay(b: Board, p: Piece, d: Dir, m: Move) {
    var k := Offset(p.row, d.dr, m.row);
    && k >= 1
    && m.col == Step(p.col, d.dc, k)
    && EmptyCell(b, Coord(m.row, m.col))
    && m.isPromotion.None?
    && match m.capture
       case None => Clear(b, p, d, 1, k)
       case Some(x) =>
         var e := Offset(p.row, d.dr, x.row);
         && 1 <= e < k && x == At(p, d, e)
         && EnemyCell(b, p, x)
         && Clear(b, p, d, 1, e) && Clear(b, p, d, e + 1, k)
  }

  /** What the scan has established when it reaches step `k` of a ray. */
  predicate RayInv(b: Board, p: Piece, d: Dir, k: int, found: Option<Coord>) {
    && k >= 1
    && match found
       case None => Clear(b, p, d, 1, k)
       case Some(x) =>
         var e := Offset(p.row, d.dr, x.row);
         && 1 <= e < k && x == At(p, d, e)
         && EnemyCell(b, p, x)
         && Clear(b, p, d, 1, e) && Clear(b, p, d, e + 1, k)
  }

  lemma {:induction false} RaySound(b: Board, p: Piece, d: Dir, k: int, found: Option<Coord>)
    requires UnitDir(d) && RayInv(b, p, d, k, found)
    ensures forall m :: m in Ray(b, p, d, k, found) ==>
              KingMoveOnRay(b, p, d, m) && Offset(p.row, d.dr, m.row) >= k
    decreases RayRoom(p, d, k)
  {
    var x := At(p, d, k);
    if InBounds(x.row, x.col) {
      match GetAt(b, x)
      case None =>
        assert EmptyCell(b, At(p, d, k));
        assert RayInv(b, p, d, k + 1, found);
        RaySound(b, p, d, k + 1, found);
      case Some(q) =>
        if q.color != p.color && found.None? {
          assert RayInv(b, p, d, k + 1, Some(x));
          RaySound(b, p, d, k + 1, Some(x));
        }
    }
  }

  /** Where the square `k` steps along the ray sits relative to a landing at least `k` steps away. */
  lemma PathCellAt(b: Board, p: Piece, d: Dir, m: Move, k: int)
    requires UnitDir(d) && k >= 1
    ensures KingMoveOnRay(b, p, d, m) && Offset(p.row, d.dr, m.row) == k ==>
              EmptyCell(b, At(p, d, k)) && m.row == At(p, d, k).row && m.col == At(p, d, k).col
    ensures KingMoveOnRay(b, p, d, m) && Offset(p.row, d.dr, m.row) > k ==>
              EmptyCell(b, At(p, d, k)) || (m.capture == Some(At(p, d, k)) && EnemyCell(b, p, At(p, d, k)))
  {
    if KingMoveOnRay(b, p, d, m) && Offset(p.row, d.dr, m.row) > k {
      if m.capture.Some? {
        var e := Offset(p.row, d.dr, m.capture.value.row);
        if k < e {
          assert EmptyCell(b, At(p, d, k));
        } else if e < k {
          assert EmptyCell(b, At(p, d, k));
        }
      } else {
        assert EmptyCell(b, At(p, d, k));
      }
    }
  }

  lemma {:induction false} RayComplete(b: Board, p: Piece, d: Dir, k: int, found: Option<Coord>)
    requires UnitDir(d) && RayInv(b, p, d, k, found)
    ensures forall m :: KingMoveOnRay(b, p, d, m) && Offset(p.row, d.dr, m.row) >= k ==>
              m in Ray(b, p, d, k, found)
    decreases RayRoom(p, d, k)
  {
    var x := At(p, d, k);
    if InBounds(x.row, x.col) {
      match GetAt(b, x)
      case None =>
        assert EmptyCell(b, At(p, d, k));
        assert RayInv(b, p, d, k + 1, found);
        RayComplete(b, p, d, k + 1, found);
      case Some(q) =>
        if q.color != p.color && found.None? {
          assert RayInv(b, p, d, k + 1, Some(x));
          RayComplete(b, p, d, k + 1, Some(x));
        }
    }
    forall m
      ensures KingMoveOnRay(b, p, d, m) && Offset(p.row, d.dr, m.row) >= k ==> m in Ray(b, p, d, k, found)
    {
      PathCellAt(b, p, d, m, k);
      if found.Some? && m.capture.Some? {
        var e0 := Offset(p.row, d.dr, found.value.row);
        var e := Offset(p.row, d.dr, m.capture.value.row);
        assert EnemyCell(b, p, At(p, d, e0));
        assert e != e0 ==> At(p, d, e) != At(p, d, e0);
      }
    }
  }

  /** A king's scan along one ray yields exactly its landings in that direction. */
  lemma RayExact(b: Board, p: Piece, d: Dir)
    requires UnitDir(d)
    ensures forall m :: m in Ray(b, p, d, 1, None) <==> KingMoveOnRay(b, p, d, m)
  {
    RaySound(b, p, d, 1, None);
    RayComplete(b, p, d, 1, None);
  }

  /**
   * `getValidMoves`: no moves for an absent piece; otherwise the king's ray
   * scan or the man's forward steps and captures. Every move lands on an
   * empty square of the board, on a diagonal through the piece, and every
   * captured square holds an enemy on that diagonal strictly between the
   * piece and its landing.
   */
  function ValidMoves(b: Board, piece: Cell): (ms: seq<Move>)
    ensures piece.None? ==> ms == []
    ensures forall m :: m in ms ==> EmptyCell(b, Coord(m.row, m.col))
    ensures piece.Some? ==> forall m :: m in ms ==> OnDiagonal(piece.value, m)
    ensures piece.Some? ==> forall m :: m in ms && m.capture.Some? ==>
              EnemyCell(b, piece.value, m.capture.value) && Between(piece.value, m.capture.value, m)
  {
    match piece
    case None => []
    case Some(p) =>
      if p.king then
        KingMovesExact(b, p);
        KingMoves(b, p)
      else
        ManMovesExact(b, p);
        ManMoves(b, p)
  }

  /** The landing of `m` lies on a diagonal through `p`, at least one step away. */
  predicate OnDiagonal(p: Piece, m: Move) {
    exists d :: d in Diagonals && Offset(p.row, d.dr, m.row) >= 1
      && m.col == Step(p.col, d.dc, Offset(p.row, d.dr, m.row))
  }

  /** `x` lies strictly between `p` and the landing of `m`, on the same diagonal. */
  predicate Between(p: Piece, x: Coord, m: Move) {
    exists d :: d in Diagonals
      && 1 <= Offset(p.row, d.dr, x.row) < Offset(p.row, d.dr, m.row)
      && x == At(p, d, Offset(p.row, d.dr, x.row))
      && m.col == Step(p.col, d.dc, Offset(p.row, d.dr, m.row))
  }

  lemma StepToExact(b: Board, p: Piece, s: int)
    requires s == 1 || s == -1
    ensures forall m :: m in StepTo(b, p, Dir(Forward(p.color), s)) <==> ManStep(b, p, m) && m.col == p.col + s
  {
  }

  lemma JumpOverExact(b: Board, p: Piece, s: int)
    requires !p.king && (s == 1 || s == -1)
    ensures forall m :: m in JumpOver(b, p, Dir(Forward(p.color), s)) <==> ManJump(b, p, m) && m.col == p.col + 2 * s
  {
    var d := Dir(Forward(p.color), s);
    forall m
      ensures m in JumpOver(b, p, d) <==> ManJump(b, p, m) && m.col == p.col + 2 * s
    {
      if ManJump(b, p, m) && m.col == p.col + 2 * s {
        assert (p.col + m.col) / 2 == p.col + s;
      }
    }
  }

  /** A man's moves are exactly its forward steps and forward captures. */
  lemma ManMovesExact(b: Board, p: Piece)
    requires !p.king
    ensures forall m :: m in ManMoves(b, p) <==> ManStep(b, p, m) || ManJump(b, p, m)
    ensures forall m :: m in ManMoves(b, p) ==> OnDiagonal(p, m)
    ensures forall m :: m in ManMoves(b, p) && m.capture.Some? ==>
              EnemyCell(b, p, m.capture.value) && Between(p, m.capture.value, m)
  {
    var dl := Dir(Forward(p.color), -1);
    var dr := Dir(Forward(p.color), 1);
    StepToExact(b, p, -1);
    StepToExact(b, p, 1);
    JumpOverExact(b, p, -1);
    JumpOverExact(b, p, 1);
    assert ManMoves(b, p) == StepTo(b, p, dl) + StepTo(b, p, dr) + JumpOver(b, p, dl) + JumpOver(b, p, dr);
    assert dl in Diagonals && dr in Diagonals;
    forall m | m in ManMoves(b, p)
      ensures OnDiagonal(p, m)
      ensures m.capture.Some? ==> EnemyCell(b, p, m.capture.value) && Between(p, m.capture.value, m)
    {
      var d := if m.col < p.col then dl else dr;
      assert Offset(p.row, d.dr, m.row) >= 1;
      if m.capture.Some? {
        assert m.capture.value == At(p, d, 1);
      }
    }
  }

  /** A king's moves are exactly its landings along the four diagonals. */
  lemma KingMovesExact(b: Board, p: Piece)
    ensures forall m :: m in KingMoves(b, p) <==>
              KingMoveOnRay(b, p, Diagonals[0], m) || KingMoveOnRay(b, p, Diagonals[1], m)
              || KingMoveOnRay(b, p, Diagonals[2], m) || KingMoveOnRay(b, p, Diagonals[3], m)
    ensures forall m :: m in KingMoves(b, p) ==> OnDiagonal(p, m)
    ensures forall m :: m in KingMoves(b, p) && m.capture.Some? ==>
              EnemyCell(b, p, m.capture.value) && Between(p, m.capture.value, m)
  {
    RayExact(b, p, Diagonals[0]);
    RayExact(b, p, Diagonals[1]);
    RayExact(b, p, Diagonals[2]);
    RayExact(b, p, Diagonals[3]);
    forall m | m in KingMoves(b, p)
      ensures OnDiagonal(p, m)
      ensures m.capture.Some? ==> EnemyCell(b, p, m.capture.value) && Between(p, m.capture.value, m)
    {
      var i :| 0 <= i < 4 && KingMoveOnRay(b, p, Diagonals[i], m);
      assert Diagonals[i] in Diagonals;
    }
  }

  /** The capturing moves of `ms`, in order (the source's `filter(m => m.capture)`). */
  function CapturesOf(ms: seq<Move>): (cs: seq<Move>)
    ensures forall m :: m in cs <==> m in ms && m.capture.Some?
    ensures |cs| <= |ms|
  {
    if |ms| == 0 then []
    else (if ms[0].capture.Some? then [ms[0]] else []) + CapturesOf(ms[1..])
  }

  // ------------------------------------------------------------ properties

  lemma DiagonalParity(p: Piece, m: Move)
    requires OnDiagonal(p, m)
    ensures (m.row + m.col) % 2 == (p.row + p.col) % 2
  {
    var d :| d in Diagonals && Offset(p.row, d.dr, m.row) >= 1
      && m.col == Step(p.col, d.dc, Offset(p.row, d.dr, m.row));
    var k := Offset(p.row, d.dr, m.row);
    if d.dr == d.dc {
      assert m.row + m.col == p.row + p.col + 2 * d.dr * k;
    } else {
      assert m.row + m.col == p.row + p.col;
    }
  }

  /** Every move keeps the piece on squares of the same colour: r+c keeps its parity. */
  lemma MovesKeepParity(b: Board, p: Piece)
    ensures forall m :: m in ValidMoves(b, Some(p)) ==> (m.row + m.col) % 2 == (p.row + p.col) % 2
  {
    forall m | m in ValidMoves(b, Some(p))
      ensures (m.row + m.col) % 2 == (p.row + p.col) % 2
    {
      DiagonalParity(p, m);
    }
  }

  /**
   * Only a man's captures carry the promotion flag, and it is true exactly
   * when a red man lands on row 0 or a black man on row 7.
   */
  lemma PromotionFlag(b: Board, p: Piece)
    ensures forall m :: m in ValidMoves(b, Some(p)) ==>
              (m.isPromotion.Some? <==> !p.king && m.capture.Some?)
    ensures forall m :: m in ValidMoves(b, Some(p)) ==>
              (m.isPromotion == Some(true) <==>
                 !p.king && m.capture.Some? && ((p.color == Red && m.row == 0) || (p.color == Black && m.row == 7)))
  {
    var ms := ValidMoves(b, Some(p));
    if p.king {
      assert ms == KingMoves(b, p);
      KingMovesExact(b, p);
    } else {
      assert ms == ManMoves(b, p);
      ManMovesExact(b, p);
    }
  }

  /**
   * Along one diagonal, every square a king passes over on its way to a
   * landing is empty except at most the one enemy it captures: the scan never
   * crosses an own piece or a second enemy, and a plain landing lies before
   * any enemy.
   */
  lemma KingPassesOnlyItsCapture(b: Board, p: Piece, d: Dir, m: Move)
    requires p.king && d in Diagonals && m in ValidMoves(b, Some(p))
    requires Offset(p.row, d.dr, m.row) >= 1 && m.col == Step(p.col, d.dc, Offset(p.row, d.dr, m.row))
    ensures forall j :: 1 <= j < Offset(p.row, d.dr, m.row) ==>
              EmptyCell(b, At(p, d, j)) || (EnemyCell(b, p, At(p, d, j)) && m.capture == Some(At(p, d, j)))
  {
    KingMovesExact(b, p);
    assert m in KingMoves(b, p);
    var d' := if KingMoveOnRay(b, p, Diagonals[0], m) then Diagonals[0]
              else if KingMoveOnRay(b, p, Diagonals[1], m) then Diagonals[1]
              else if KingMoveOnRay(b, p, Diagonals[2], m) then Diagonals[2]
              else Diagonals[3];
    assert KingMoveOnRay(b, p, d', m);
    SameRay(p, d, d', m);
    RayPassesOnlyItsCapture(b, p, d, m);
  }

  /** On the ray a king move was found on, the squares passed are empty but for the captured one. */
  lemma RayPassesOnlyItsCapture(b: Board, p: Piece, d: Dir, m: Move)
    requires KingMoveOnRay(b, p, d, m)
    ensures forall j :: 1 <= j < Offset(p.row, d.dr, m.row) ==>
              EmptyCell(b, At(p, d, j)) || (EnemyCell(b, p, At(p, d, j)) && m.capture == Some(At(p, d, j)))
  {
  }

  /** Two diagonals from the same square meet a given square at most once. */
  lemma SameRay(p: Piece, d: Dir, d': Dir, m: Move)
    requires d in Diagonals && d' in Diagonals
    requires Offset(p.row, d.dr, m.row) >= 1 && m.col == Step(p.col, d.dc, Offset(p.row, d.dr, m.row))
    requires Offset(p.row, d'.dr, m.row) >= 1 && m.col == Step(p.col, d'.dc, Offset(p.row, d'.dr, m.row))
    ensures d == d'
  {
  }

  /** A red king on (3,3), one black man on (5,5), nothing else. */
  function KingExampleBoard(): (b: Board)
    ensures forall r, c :: GetPiece(b, r, c) ==
              if r == 3 && c == 3 then Some(Piece(Red, 3, 3, true))
              else if r == 5 && c == 5 then Some(Piece(Black, 5, 5, false))
              else None
  {
    SetCell(SetCell(EmptyBoard(), 3, 3, Some(Piece(Red, 3, 3, true))), 5, 5, Some(Piece(Black, 5, 5, false)))
  }

  lemma KingExampleLandings()
    ensures KingMoveOnRay(KingExampleBoard(), Piece(Red, 3, 3, true), Dir(1, 1), Move(6, 6, Some(Coord(5, 5)), None))
    ensures KingMoveOnRay(KingExampleBoard(), Piece(Red, 3, 3, true), Dir(1, 1), Move(7, 7, Some(Coord(5, 5)), None))
  {
    var p := Piece(Red, 3, 3, true);
    var b := KingExampleBoard();
    var d := Dir(1, 1);
    assert At(p, d, 1) == Coord(4, 4) && At(p, d, 2) == Coord(5, 5) && At(p, d, 3) == Coord(6, 6);
    assert EmptyCell(b, At(p, d, 1)) && EmptyCell(b, At(p, d, 3));
    assert Clear(b, p, d, 1, 2);
    assert Clear(b, p, d, 3, 4);
  }

  lemma KingExampleOnlyCaptures(m: Move, d: Dir)
    requires d in Diagonals && m.capture.Some?
    requires KingMoveOnRay(KingExampleBoard(), Piece(Red, 3, 3, true), d, m)
    ensures m == Move(6, 6, Some(Coord(5, 5)), None) || m == Move(7, 7, Some(Coord(5, 5)), None)
  {
    var p := Piece(Red, 3, 3, true);
    var b := KingExampleBoard();
    var x := m.capture.value;
    assert EnemyCell(b, p, x);
    assert x == Coord(5, 5);
    var e := Offset(p.row, d.dr, x.row);
    assert x == At(p, d, e);
    assert d == Dir(1, 1) && e == 2;
    var k := Offset(p.row, d.dr, m.row);
    assert k == 3 || k == 4;
  }

  /**
   * A king on (3,3) with one enemy on (5,5) and nothing else on the board
   * captures it by landing on (6,6) or on (7,7), and has no other capture.
   */
  lemma FlyingKingCaptureExample()
    ensures forall m :: m in ValidMoves(KingExampleBoard(), Some(Piece(Red, 3, 3, true))) && m.capture.Some? <==>
              m == Move(6, 6, Some(Coord(5, 5)), None) || m == Move(7, 7, Some(Coord(5, 5)), None)
  {
    var p := Piece(Red, 3, 3, true);
    var b := KingExampleBoard();
    KingMovesExact(b, p);
    KingExampleLandings();
    assert Dir(1, 1) == Diagonals[3];
    forall m | m in ValidMoves(b, Some(p)) && m.capture.Some?
      ensures m == Move(6, 6, Some(Coord(5, 5)), None) || m == Move(7, 7, Some(Coord(5, 5)), None)
    {
      var i :| 0 <= i < 4 && KingMoveOnRay(b, p, Diagonals[i], m);
      KingExampleOnlyCaptures(m, Diagonals[i]);
    }
  }

  /** The same king with black men on (5,5) and (6,6): two enemies in a row on one diagonal. */
  function BlockedKingBoard(): (b: Board)
    ensures forall r, c :: GetPiece(b, r, c) ==
              if r == 3 && c == 3 then Some(Piece(Red, 3, 3, true))
              else if r == 5 && c == 5 then Some(Piece(Black, 5, 5, false))
              else if r == 6 && c == 6 then Some(Piece(Black, 6, 6, false))
              else None
  {
    SetCell(KingExampleBoard(), 6, 6, Some(Piece(Black, 6, 6, false)))
  }

  /** On that board no king landing along any diagonal captures. */
  lemma BlockedKingRayQuiet(m: Move, d: Dir)
    requires d in Diagonals
    requires KingMoveOnRay(BlockedKingBoard(), Piece(Red, 3, 3, true), d, m)
    ensures m.capture.None?
  {
    var p := Piece(Red, 3, 3, true);
    var b := BlockedKingBoard();
    if m.capture.Some? {
      var x := m.capture.value;
      assert x == Coord(5, 5) || x == Coord(6, 6);
      var e := Offset(p.row, d.dr, x.row);
      assert x == At(p, d, e);
      assert d == Dir(1, 1);
      // Capturing (5,5) lands on or past the occupied (6,6); capturing (6,6)
      // passes the occupied (5,5). Naming both squares exposes the clash.
      var next := EmptyCell(b, At(p, d, e + 1));
      var before := EmptyCell(b, At(p, d, 2));
      assert false;
    }
  }

  /**
   * Two enemies in a row block the king: the scan stops at the second one,
   * so the king has no capture at all on that board.
   */
  lemma SecondEnemyBlocksKing()
    ensures forall m :: m in ValidMoves(BlockedKingBoard(), Some(Piece(Red, 3, 3, true))) ==> m.capture.None?
  {
    var p := Piece(Red, 3, 3, true);
    var b := BlockedKingBoard();
    assert ValidMoves(b, Some(p)) == KingMoves(b, p);
    KingMovesExact(b, p);
    forall m | m in KingMoves(b, p)
      ensures m.capture.None?
    {
      var i :| 0 <= i < 4 && KingMoveOnRay(b, p, Diagonals[i], m);
      BlockedKingRayQuiet(m, Diagonals[i]);
    }
  }

  /** A red man on (5,3) with black men on (4,2), (4,4), (6,2) and (6,4). */
  function ManExampleBoard(): Board {
    SetCell(SetCell(SetCell(SetCell(SetCell(EmptyBoard(), 5, 3, Some(Piece(Red, 5, 3, false))),
      4, 2, Some(Piece(Black, 4, 2, false))), 4, 4, Some(Piece(Black, 4, 4, false))),
      6, 2, Some(Piece(Black, 6, 2, false))), 6, 4, Some(Piece(Black, 6, 4, false)))
  }

  /**
   * The man captures forward over (4,2) and over (4,4), as two separate
   * single captures; the black men behind it give it nothing.
   */
  lemma ManCapturesForwardOnlyExample()
    ensures ValidMoves(ManExampleBoard(), Some(Piece(Red, 5, 3, false))) ==
              [Move(3, 1, Some(Coord(4, 2)), Some(false)), Move(3, 5, Some(Coord(4, 4)), Some(false))]
  {
  }
}
