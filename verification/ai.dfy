/**
 * The computer player's move choice. Every move of the AI's pieces is
 * collected; when any of them captures only the captures are considered;
 * then the difficulty decides: a uniform pick (easy), the longest capture
 * chain or a centre-and-safety score among the best three (medium), or a
 * two-ply minimax score within 10 of the best (hard).
 *
 * `Math.random` is a caller-supplied `draw`: the pick is the element at
 * index `draw % n`, so every element of the list is reachable.
 */
module AI {
  import opened Wrappers
  import opened Pieces
  import opened Boards
  import opened Moves
  import opened Search

  /** The recognised difficulty strings; any other string falls to the random branch. */
  datatype Difficulty = Easy | Medium | Hard | Unrecognised

  /** A collected pair with the score a policy gave it. */
  datatype Scored = Scored(choice: Choice, score: int)

  // --------------------------------------------------------------- random

  /** `getRandomMove`: the element at `floor(random * n)`, with the random index given as `draw`. */
  function RandomPick<T>(xs: seq<T>, draw: nat): (x: T)
    requires |xs| > 0
    ensures x in xs
  {
    xs[draw % |xs|]
  }

  /** Every element of the list is the pick for some draw. */
  lemma RandomPickCoversAll<T>(xs: seq<T>, i: nat)
    requires i < |xs|
    ensures RandomPick(xs, i) == xs[i]
  {
  }

  // ------------------------------------------------------- forced capture

  /** The capturing pairs of `cs`, in order (`filter(m => m.move.capture)`). */
  function CaptureChoices(cs: seq<Choice>): (r: seq<Choice>)
    ensures forall c :: c in r <==> c in cs && c.move.capture.Some?
  {
    if |cs| == 0 then []
    else
      assert forall c :: c in cs <==> c == cs[0] || c in cs[1..];
      (if cs[0].move.capture.Some? then [cs[0]] else []) + CaptureChoices(cs[1..])
  }

  /** Some pair of `cs` captures. */
  predicate SomeCapture(cs: seq<Choice>) {
    exists c :: c in cs && c.move.capture.Some?
  }

  /** The pairs the policy chooses among: the captures if there is one, otherwise all of them. */
  function Candidates(all: seq<Choice>): (cs: seq<Choice>)
    ensures SomeCapture(all) ==> forall c :: c in cs <==> c in all && c.move.capture.Some?
    ensures !SomeCapture(all) ==> cs == all
    ensures |all| > 0 ==> |cs| > 0
  {
    var caps := CaptureChoices(all);
    if |caps| > 0 then
      assert caps[0] in caps;
      caps
    else
      assert !SomeCapture(all);
      all
  }

  // -------------------------------------------------------------- sorting

  predicate Descending(xs: seq<Scored>) {
    forall i, j :: 0 <= i < j < |xs| ==> xs[i].score >= xs[j].score
  }

  /** Places `x` before the first element it is not below, so it stays ahead of its equals. */
  function InsertDesc(x: Scored, ys: seq<Scored>): (r: seq<Scored>)
    ensures multiset(r) == multiset(ys) + multiset{x}
    ensures |r| == |ys| + 1
    ensures forall s :: s in r <==> s in ys || s == x
  {
    if |ys| == 0 then [x]
    else if x.score >= ys[0].score then [x] + ys
    else
      assert ys == [ys[0]] + ys[1..];
      [ys[0]] + InsertDesc(x, ys[1..])
  }

  /** Inserting into a descending list keeps it descending. */
  lemma {:induction false} InsertDescSorted(x: Scored, ys: seq<Scored>)
    requires Descending(ys)
    ensures Descending(InsertDesc(x, ys))
    decreases |ys|
  {
    if |ys| > 0 && x.score < ys[0].score {
      var rest := InsertDesc(x, ys[1..]);
      InsertDescSorted(x, ys[1..]);
      var r := [ys[0]] + rest;
      assert InsertDesc(x, ys) == r;
      forall i | 0 < i < |r|
        ensures r[i].score <= ys[0].score
      {
        assert r[i] == rest[i - 1];
        assert rest[i - 1] in rest;
        if r[i] != x {
          var k :| 0 <= k < |ys[1..]| && ys[1..][k] == r[i];
          assert ys[k + 1] == r[i];
        }
      }
      forall i, j | 0 <= i < j < |r|
        ensures r[i].score >= r[j].score
      {
        if i > 0 {
          assert r[i] == rest[i - 1] && r[j] == rest[j - 1];
        }
      }
    }
  }

  /**
   * The sort by descending score: a stable sort,
   * as an insertion sort from the back of the list.
   */
  function SortDesc(xs: seq<Scored>): (r: seq<Scored>)
    ensures Descending(r)
    ensures multiset(r) == multiset(xs)
    ensures |r| == |xs|
  {
    if |xs| == 0 then []
    else
      assert xs == [xs[0]] + xs[1..];
      InsertDescSorted(xs[0], SortDesc(xs[1..]));
      InsertDesc(xs[0], SortDesc(xs[1..]))
  }

  /** The first element of a descending list scores at least as much as every element. */
  lemma HeadIsBest(xs: seq<Scored>)
    requires Descending(xs) && |xs| > 0
    ensures forall s :: s in xs ==> s.score <= xs[0].score
  {
  }

  /** How many elements score strictly more than `v`. */
  function CountAbove(xs: seq<Scored>, v: int): nat
    decreases |xs|
  {
    if |xs| == 0 then 0
    else CountAbove(xs[..|xs| - 1], v) + (if xs[|xs| - 1].score > v then 1 else 0)
  }

  lemma {:induction false} CountAboveAppend(xs: seq<Scored>, ys: seq<Scored>, v: int)
    ensures CountAbove(xs + ys, v) == CountAbove(xs, v) + CountAbove(ys, v)
    decreases |ys|
  {
    if |ys| == 0 {
      assert xs + ys == xs;
    } else {
      var n := |ys|;
      assert (xs + ys)[..|xs + ys| - 1] == xs + ys[..n - 1];
      CountAboveAppend(xs, ys[..n - 1], v);
    }
  }

  /** Inserting adds one to the count exactly when the inserted element scores above `v`. */
  lemma {:induction false} InsertDescCount(x: Scored, ys: seq<Scored>, v: int)
    ensures CountAbove(InsertDesc(x, ys), v) == CountAbove(ys, v) + (if x.score > v then 1 else 0)
    decreases |ys|
  {
    assert CountAbove([x], v) == (if x.score > v then 1 else 0) by {
      assert [x][..0] == [];
    }
    if |ys| == 0 {
    } else if x.score >= ys[0].score {
      CountAboveAppend([x], ys, v);
    } else {
      var rest := InsertDesc(x, ys[1..]);
      InsertDescCount(x, ys[1..], v);
      CountAboveAppend([ys[0]], rest, v);
      CountAboveAppend([ys[0]], ys[1..], v);
      assert ys == [ys[0]] + ys[1..];
    }
  }

  /** Sorting keeps the number of elements above any score. */
  lemma {:induction false} SortDescCount(xs: seq<Scored>, v: int)
    ensures CountAbove(SortDesc(xs), v) == CountAbove(xs, v)
    decreases |xs|
  {
    if |xs| > 0 {
      SortDescCount(xs[1..], v);
      InsertDescCount(xs[0], SortDesc(xs[1..]), v);
      CountAboveAppend([xs[0]], xs[1..], v);
      assert xs == [xs[0]] + xs[1..];
      assert CountAbove([xs[0]], v) == (if xs[0].score > v then 1 else 0) by {
        assert [xs[0]][..0] == [];
      }
    }
  }

  /** In a descending list, fewer than `i + 1` elements beat the element at index `i`. */
  lemma {:induction false} CountAboveDescending(xs: seq<Scored>, i: nat)
    requires Descending(xs) && i < |xs|
    ensures CountAbove(xs, xs[i].score) <= i
  {
    TailNotAbove(xs, i, |xs|);
    assert xs[..|xs|] == xs;
  }

  lemma {:induction false} TailNotAbove(xs: seq<Scored>, i: nat, n: nat)
    requires Descending(xs) && i < n <= |xs|
    ensures CountAbove(xs[..n], xs[i].score) <= i
    decreases n
  {
    assert xs[..n][..n - 1] == xs[..n - 1];
    if n - 1 > i {
      TailNotAbove(xs, i, n - 1);
    } else {
      assert CountAbove(xs[..i], xs[i].score) <= i by { CountAboveLength(xs[..i], xs[i].score); }
    }
    if n == |xs| {
      assert xs[..n] == xs;
    }
  }

  lemma {:induction false} CountAboveLength(xs: seq<Scored>, v: int)
    ensures CountAbove(xs, v) <= |xs|
    decreases |xs|
  {
    if |xs| > 0 {
      CountAboveLength(xs[..|xs| - 1], v);
    }
  }

  // ----------------------------------------------------------- filtering

  /** The elements scoring exactly `v`, in order. */
  function ScoreIs(xs: seq<Scored>, v: int): (r: seq<Scored>)
    ensures forall s :: s in r <==> s in xs && s.score == v
  {
    if |xs| == 0 then []
    else
      assert forall s :: s in xs <==> s == xs[0] || s in xs[1..];
      (if xs[0].score == v then [xs[0]] else []) + ScoreIs(xs[1..], v)
  }

  /** The elements scoring at least `v`, in order. */
  function ScoreAtLeast(xs: seq<Scored>, v: int): (r: seq<Scored>)
    ensures forall s :: s in r <==> s in xs && s.score >= v
  {
    if |xs| == 0 then []
    else
      assert forall s :: s in xs <==> s == xs[0] || s in xs[1..];
      (if xs[0].score >= v then [xs[0]] else []) + ScoreAtLeast(xs[1..], v)
  }

  // -------------------------------------------------------------- scoring

  /** Every pair lands on the board. */
  predicate Landable(cs: seq<Choice>) {
    forall c :: c in cs ==> InBounds(c.move.row, c.move.col)
  }

  /** The medium policy's capture score: the chain the capture starts. */
  function ChainScore(b: Board, c: Choice): int
    requires InBounds(c.move.row, c.move.col)
  {
    MaxCaptureChain(b, c.piece, c.move)
  }

  /** The medium policy's quiet-move score: centrality of the landing, 30 off if the piece can then be taken. */
  function SafetyScore(b: Board, c: Choice, ai: Color): int
    requires InBounds(c.move.row, c.move.col)
  {
    EvaluatePosition(c.move.row, c.move.col) + (if MoveLeadsToImmediateCapture(b, c, ai) then -30 else 0)
  }

  /** The hard policy's score: the two-ply minimax value after the move, the opponent to reply. */
  function HardScore(b: Board, c: Choice, ai: Color): int
    requires InBounds(c.move.row, c.move.col)
  {
    Minimax(ApplyChoice(b, c), 2, false, ai)
  }

  /** Each pair with its chain score, in order. */
  function ChainScored(b: Board, cs: seq<Choice>): (r: seq<Scored>)
    requires Landable(cs)
    ensures |r| == |cs|
    ensures forall s :: s in r <==> s.choice in cs && s.score == ChainScore(b, s.choice)
  {
    if |cs| == 0 then []
    else
      assert forall c :: c in cs <==> c == cs[0] || c in cs[1..];
      [Scored(cs[0], ChainScore(b, cs[0]))] + ChainScored(b, cs[1..])
  }

  /** Each pair with its safety score, in order. */
  function SafetyScored(b: Board, cs: seq<Choice>, ai: Color): (r: seq<Scored>)
    requires Landable(cs)
    ensures |r| == |cs|
    ensures forall s :: s in r <==> s.choice in cs && s.score == SafetyScore(b, s.choice, ai)
  {
    if |cs| == 0 then []
    else
      assert forall c :: c in cs <==> c == cs[0] || c in cs[1..];
      [Scored(cs[0], SafetyScore(b, cs[0], ai))] + SafetyScored(b, cs[1..], ai)
  }

  /** Each pair with its minimax score, in order. */
  function HardScored(b: Board, cs: seq<Choice>, ai: Color): (r: seq<Scored>)
    requires Landable(cs)
    ensures |r| == |cs|
    ensures forall s :: s in r <==> s.choice in cs && s.score == HardScore(b, s.choice, ai)
  {
    if |cs| == 0 then []
    else
      assert forall c :: c in cs <==> c == cs[0] || c in cs[1..];
      [Scored(cs[0], HardScore(b, cs[0], ai))] + HardScored(b, cs[1..], ai)
  }

  /** How many pairs of `cs` have a safety score strictly above `v`. */
  function SaferThan(b: Board, cs: seq<Choice>, ai: Color, v: int): nat
    requires Landable(cs)
  {
    CountAbove(SafetyScored(b, cs, ai), v)
  }

  // ------------------------------------------------------------ policies

  /** `getMediumMove` with captures available: one of the captures whose chain is the longest. */
  function MediumCapture(b: Board, caps: seq<Choice>, draw: nat): (r: Choice)
    requires |caps| > 0 && Landable(caps)
    ensures r in caps
    ensures forall c :: c in caps ==> ChainScore(b, c) <= ChainScore(b, r)
  {
    var sorted := SortDesc(ChainScored(b, caps));
    assert Scored(caps[0], ChainScore(b, caps[0])) in multiset(sorted);
    HeadIsBest(sorted);
    var top := ScoreIs(sorted, sorted[0].score);
    assert sorted[0] in top;
    var pick := RandomPick(top, draw);
    assert pick in multiset(sorted);
    assert forall c :: c in caps ==> ChainScore(b, c) <= ChainScore(b, pick.choice) by {
      forall c | c in caps
        ensures ChainScore(b, c) <= ChainScore(b, pick.choice)
      {
        assert Scored(c, ChainScore(b, c)) in multiset(sorted);
      }
    }
    pick.choice
  }

  /**
   * `getMediumMove` without captures: one of the first three after sorting
   * by safety score, so at most two pairs score strictly better.
   */
  function MediumQuiet(b: Board, cs: seq<Choice>, ai: Color, draw: nat): (r: Choice)
    requires |cs| > 0 && Landable(cs)
    ensures r in cs
    ensures SaferThan(b, cs, ai, SafetyScore(b, r, ai)) < 3
  {
    var scored := SafetyScored(b, cs, ai);
    var sorted := SortDesc(scored);
    var n := if |sorted| < 3 then |sorted| else 3;
    var pick := RandomPick(sorted[..n], draw);
    assert pick == sorted[draw % n];
    assert pick in multiset(sorted);
    CountAboveDescending(sorted, draw % n);
    SortDescCount(scored, pick.score);
    pick.choice
  }

  /** `getMediumMove`: the capture branch when any candidate captures, the quiet branch otherwise. */
  function MediumMove(b: Board, cs: seq<Choice>, ai: Color, draw: nat): (r: Choice)
    requires |cs| > 0 && Landable(cs)
    ensures r in cs
    ensures SomeCapture(cs) ==> r.move.capture.Some?
    ensures SomeCapture(cs) ==>
              forall c :: c in cs && c.move.capture.Some? ==> ChainScore(b, c) <= ChainScore(b, r)
    ensures !SomeCapture(cs) ==> SaferThan(b, cs, ai, SafetyScore(b, r, ai)) < 3
  {
    var caps := CaptureChoices(cs);
    if |caps| > 0 then
      assert caps[0] in caps;
      MediumCapture(b, caps, draw)
    else
      MediumQuiet(b, cs, ai, draw)
  }

  /** `getHardMove`: a pair whose minimax score is within 10 of the best one's. */
  function HardMove(b: Board, cs: seq<Choice>, ai: Color, draw: nat): (r: Choice)
    requires |cs| > 0 && Landable(cs)
    ensures r in cs
    ensures forall c :: c in cs ==> HardScore(b, c, ai) - 10 <= HardScore(b, r, ai)
  {
    var sorted := SortDesc(HardScored(b, cs, ai));
    assert Scored(cs[0], HardScore(b, cs[0], ai)) in multiset(sorted);
    HeadIsBest(sorted);
    var top := ScoreAtLeast(sorted, sorted[0].score - 10);
    assert sorted[0] in top;
    var pick := RandomPick(top, draw);
    assert pick in multiset(sorted);
    assert forall c :: c in cs ==> HardScore(b, c, ai) - 10 <= HardScore(b, pick.choice, ai) by {
      forall c | c in cs
        ensures HardScore(b, c, ai) - 10 <= HardScore(b, pick.choice, ai)
      {
        assert Scored(c, HardScore(b, c, ai)) in multiset(sorted);
      }
    }
    pick.choice
  }

  /** The dispatch on the difficulty: the policy for `level`, the random one for an unknown level. */
  function Policy(b: Board, cs: seq<Choice>, ai: Color, level: Difficulty, draw: nat): (r: Choice)
    requires |cs| > 0 && Landable(cs)
    ensures r in cs
    ensures level == Medium && SomeCapture(cs) ==>
              forall c :: c in cs && c.move.capture.Some? ==> ChainScore(b, c) <= ChainScore(b, r)
    ensures level == Medium && !SomeCapture(cs) ==> SaferThan(b, cs, ai, SafetyScore(b, r, ai)) < 3
    ensures level == Hard ==> forall c :: c in cs ==> HardScore(b, c, ai) - 10 <= HardScore(b, r, ai)
  {
    match level
    case Easy => RandomPick(cs, draw)
    case Medium => MediumMove(b, cs, ai, draw)
    case Hard => HardMove(b, cs, ai, draw)
    case Unrecognised => RandomPick(cs, draw)
  }

  /**
   * `getBestMove`: no move exactly when the AI's side has none; otherwise a
   * pair the generator produced for one of the AI's pieces, a capture
   * whenever any capture exists; at the medium level the capture with the
   * longest chain, or without captures a move fewer than three others beat
   * on safety score; at the hard level a move within 10 of the best minimax
   * score among the candidates.
   */
  function BestMove(b: Board, ai: Color, level: Difficulty, draw: nat): (r: Option<Choice>)
    ensures r.None? <==> !HasValidMoves(b, ai, (b': Board, p: Piece) => ValidMoves(b', Some(p)))
    ensures r.Some? ==> r.value in Candidates(ChoicesOf(b, ai))
    ensures r.Some? && SomeCapture(ChoicesOf(b, ai)) ==> r.value.move.capture.Some?
    ensures r.Some? && level == Medium && SomeCapture(ChoicesOf(b, ai)) ==>
              forall c :: c in Candidates(ChoicesOf(b, ai)) ==> ChainScore(b, c) <= ChainScore(b, r.value)
    ensures r.Some? && level == Medium && !SomeCapture(ChoicesOf(b, ai)) ==>
              SaferThan(b, ChoicesOf(b, ai), ai, SafetyScore(b, r.value, ai)) < 3
    ensures r.Some? && level == Hard ==>
              forall c :: c in Candidates(ChoicesOf(b, ai)) ==> HardScore(b, c, ai) - 10 <= HardScore(b, r.value, ai)
  {
    var all := ChoicesOf(b, ai);
    NoChoicesIffNoMoves(b, ai);
    if |all| == 0 then None
    else
      var cs := Candidates(all);
      CandidatesKeepCapture(all);
      Some(Policy(b, cs, ai, level, draw))
  }

  /** When some pair captures, so does some candidate, and every candidate does. */
  lemma CandidatesKeepCapture(all: seq<Choice>)
    ensures SomeCapture(all) ==> SomeCapture(Candidates(all))
    ensures SomeCapture(all) ==> forall c :: c in Candidates(all) ==> c in all && c.move.capture.Some?
  {
    if SomeCapture(all) {
      var c :| c in all && c.move.capture.Some?;
      assert c in Candidates(all);
    }
  }

  /** What `getBestMove` returns is a move of one of the AI's own pieces on the board. */
  lemma BestMoveIsPlayable(b: Board, ai: Color, level: Difficulty, draw: nat)
    requires BestMove(b, ai, level, draw).Some?
    ensures var r := BestMove(b, ai, level, draw).value;
            r.piece.color == ai && Playable(b, r) && r in ChoicesOf(b, ai)
  {
    CandidatesKeepCapture(ChoicesOf(b, ai));
  }
}
