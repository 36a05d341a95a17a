/** Position scoring and root move ordering: each side is scored by how close its
    pieces are to the corner it races towards; the search compares the two scores. */
module Evaluation {
  import opened Types
  import opened Board

  /** The score of a side with no pieces off its corner, before any distance is subtracted. */
  const BaseScore: int := 1000
  /** The score of a side whose ten pieces fill the triangle at its target corner. */
  const WinScore: int := 980
  /** The largest Manhattan distance between two cells of the board. */
  const MaxDistance: int := 14
  /** A bound on |Evaluate| over every board: 64 cells at distance at most 14. */
  const MaxEvaluation: int := MaxDistance * CellCount

  /** The corner each side's pieces are scored against: (0, 7) for black, (7, 0) for white. */
  function Corner(p: Player): Coord
  {
    if p == Black then Coord(0, 7) else Coord(7, 0)
  }

  function Distance(a: Coord, c: Coord): nat
  {
    Abs(a.x - c.x) + Abs(a.y - c.y)
  }

  /** The distance a cell contributes to side `p`'s total: its distance to `p`'s corner
      when it holds a `p` piece, nothing otherwise. */
  function Contribution(b: Board, p: Player, i: int): (d: nat)
    requires 0 <= i < CellCount
    ensures d <= MaxDistance
    ensures d > 0 ==> b[i] == Occupied(p)
  {
    if b[i] == Occupied(p) then Distance(Cell(i), Corner(p)) else 0
  }

  /** Total distance of `p`'s pieces on the first `n` cells, in row-major order. */
  function DistanceSum(b: Board, p: Player, n: nat): (s: nat)
    requires n <= CellCount
    ensures s <= MaxDistance * n
    decreases n
  {
    if n == 0 then 0 else DistanceSum(b, p, n - 1) + Contribution(b, p, n - 1)
  }

  /** 1000 minus the cumulative distance of `p`'s pieces to `p`'s corner. */
  function CountPlayerScore(p: Player, b: Board): (score: int)
    ensures BaseScore - MaxEvaluation <= score <= BaseScore
  {
    BaseScore - DistanceSum(b, p, CellCount)
  }

  /** Side `p` has won: its score has reached the win sentinel. */
  predicate Finished(b: Board, p: Player)
  {
    CountPlayerScore(p, b) == WinScore
  }

  /** White's score minus black's, seen from the side to move: positive when the side
      to move is ahead, negative when it is behind, zero on a tie. */
  function Evaluate(b: Board, p: Player): (r: int)
    ensures r == CountPlayerScore(p, b) - CountPlayerScore(Opponent(p), b)
    ensures -MaxEvaluation <= r <= MaxEvaluation
  {
    var whiteScore := CountPlayerScore(White, b);
    var blackScore := CountPlayerScore(Black, b);
    var evaluation := whiteScore - blackScore;
    var perspective := if p == White then 1 else -1;
    evaluation * perspective
  }

  /** The evaluation is zero-sum: the two sides see the same position with opposite signs. */
  lemma EvaluateAntisymmetric(b: Board)
    ensures Evaluate(b, White) == -Evaluate(b, Black)
    ensures Evaluate(b, White) == CountPlayerScore(White, b) - CountPlayerScore(Black, b)
  {
  }

  // ---------------------------------------------------------------------------
  // How a move changes the scores
  // ---------------------------------------------------------------------------

  lemma {:induction false} DistanceSumChange(b: Board, b': Board, p: Player, k: int, n: nat)
    requires n <= CellCount && 0 <= k < CellCount
    requires forall i :: 0 <= i < CellCount && i != k ==> b'[i] == b[i]
    ensures DistanceSum(b', p, n) ==
      DistanceSum(b, p, n) + (if k < n then Contribution(b', p, k) - Contribution(b, p, k) else 0)
    decreases n
  {
    if n > 0 {
      DistanceSumChange(b, b', p, k, n - 1);
    }
  }

  /** Moving a `p` piece to an empty cell raises `p`'s score by exactly the distance it
      gained towards `p`'s corner, and leaves the other side's score alone. */
  lemma ScoreAfterMove(b: Board, m: Move, p: Player)
    requires Reversible(b, m) && GetPiece(b, m.from) == Occupied(p)
    ensures CountPlayerScore(p, DoMove(b, m)) ==
      CountPlayerScore(p, b) + Distance(m.from, Corner(p)) - Distance(m.to, Corner(p))
    ensures CountPlayerScore(Opponent(p), DoMove(b, m)) == CountPlayerScore(Opponent(p), b)
  {
    IndexBijective(m.from, m.to);
    var cleared := SetPiece(b, m.from, Empty);
    assert DoMove(b, m) == SetPiece(cleared, m.to, Occupied(p));
    MoverScore(b, cleared, m, p);
    OtherScore(b, cleared, m, p);
  }

  lemma MoverScore(b: Board, cleared: Board, m: Move, p: Player)
    requires Reversible(b, m) && GetPiece(b, m.from) == Occupied(p)
    requires cleared == SetPiece(b, m.from, Empty)
    ensures DistanceSum(SetPiece(cleared, m.to, Occupied(p)), p, CellCount) ==
      DistanceSum(b, p, CellCount) - Distance(m.from, Corner(p)) + Distance(m.to, Corner(p))
  {
    IndexBijective(m.from, m.to);
    assert Cell(Index(m.from)) == m.from && Cell(Index(m.to)) == m.to;
    DistanceAfterSet(b, m.from, Empty, p);
    DistanceAfterSet(cleared, m.to, Occupied(p), p);
  }

  lemma OtherScore(b: Board, cleared: Board, m: Move, p: Player)
    requires Reversible(b, m) && GetPiece(b, m.from) == Occupied(p)
    requires cleared == SetPiece(b, m.from, Empty)
    ensures DistanceSum(SetPiece(cleared, m.to, Occupied(p)), Opponent(p), CellCount) ==
      DistanceSum(b, Opponent(p), CellCount)
  {
    var q := Opponent(p);
    var after := SetPiece(cleared, m.to, Occupied(p));
    IndexBijective(m.from, m.to);
    DistanceAfterSet(b, m.from, Empty, q);
    DistanceAfterSet(cleared, m.to, Occupied(p), q);
    assert Contribution(b, q, Index(m.from)) == 0 == Contribution(cleared, q, Index(m.from));
    assert Contribution(cleared, q, Index(m.to)) == 0 == Contribution(after, q, Index(m.to));
  }

  /** Overwriting one cell changes side `q`'s distance total by the change of that
      cell's contribution alone. */
  lemma DistanceAfterSet(b: Board, c: Coord, piece: Piece, q: Player)
    requires InBounds(c)
    ensures DistanceSum(SetPiece(b, c, piece), q, CellCount) ==
      DistanceSum(b, q, CellCount) + Contribution(SetPiece(b, c, piece), q, Index(c)) - Contribution(b, q, Index(c))
  {
    DistanceSumChange(b, SetPiece(b, c, piece), q, Index(c), CellCount);
  }

  // ---------------------------------------------------------------------------
  // Root move ordering
  // ---------------------------------------------------------------------------

  /** The corner the ordering heuristic measures against: x is 0 for black and 7
      otherwise, y is 7 for white and 0 otherwise, i.e. (0, 0) for black and (7, 7) for
      white. These are the score corners reflected top to bottom. */
  function OrderingCorner(p: Player): Coord
  {
    Coord(if p == Black then 0 else 7, if p == White then 7 else 0)
  }

  /** The ordering heuristic: the distance the move gains towards `OrderingCorner(p)`. */
  function EvaluateMove(m: Move, p: Player): int
  {
    var initialDistance := Distance(m.from, OrderingCorner(p));
    var endingDistance := Distance(m.to, OrderingCorner(p));
    initialDistance - endingDistance
  }

  /** Progress of a move towards `p`'s score corner, split into its column and row parts. */
  function ColumnGain(m: Move, p: Player): int
  {
    Abs(m.from.x - Corner(p).x) - Abs(m.to.x - Corner(p).x)
  }

  function RowGain(m: Move, p: Player): int
  {
    Abs(m.from.y - Corner(p).y) - Abs(m.to.y - Corner(p).y)
  }

  /** On the board, the ordering heuristic agrees with the score on column progress and
      has the opposite sign on row progress: it rewards moving away from the scored row. */
  lemma EvaluateMoveFlipsRows(m: Move, p: Player)
    requires InBounds(m.from) && InBounds(m.to)
    ensures Distance(m.from, Corner(p)) - Distance(m.to, Corner(p)) == ColumnGain(m, p) + RowGain(m, p)
    ensures EvaluateMove(m, p) == ColumnGain(m, p) - RowGain(m, p)
  {
  }

  /** So the heuristic can rank a move first that lowers the mover's score: a white step
      from (0, 0) to (0, 1) scores +1 for ordering but costs white one point. */
  lemma EvaluateMoveDisagreesWithScore()
    ensures
      var m := Move(Coord(0, 0), Coord(0, 1), [Coord(0, 0), Coord(0, 1)]);
      EvaluateMove(m, White) == 1 &&
      Distance(m.from, Corner(White)) - Distance(m.to, Corner(White)) == -1
  {
  }

  predicate NonIncreasing(ms: seq<Move>, p: Player)
  {
    forall i, j :: 0 <= i < j < |ms| ==> EvaluateMove(ms[i], p) >= EvaluateMove(ms[j], p)
  }

  predicate NonDecreasing(ms: seq<Move>, p: Player)
  {
    forall i, j :: 0 <= i < j < |ms| ==> EvaluateMove(ms[i], p) <= EvaluateMove(ms[j], p)
  }

  lemma AppendLargest(s: seq<Move>, x: Move, p: Player)
    requires NonDecreasing(s, p)
    requires forall y :: y in s ==> EvaluateMove(y, p) <= EvaluateMove(x, p)
    ensures NonDecreasing(s + [x], p)
  {
    var r := s + [x];
    forall i, j | 0 <= i < j < |r|
      ensures EvaluateMove(r[i], p) <= EvaluateMove(r[j], p)
    {
      if j == |s| {
        assert r[i] in s;
      }
    }
  }

  /** Inserts `m` after every element whose key is at most its own: a stable insertion. */
  function InsertAscending(s: seq<Move>, m: Move, p: Player): (r: seq<Move>)
    requires NonDecreasing(s, p)
    ensures multiset(r) == multiset(s) + multiset{m}
    ensures forall x :: x in r ==> x in s || x == m
    ensures NonDecreasing(r, p)
    decreases |s|
  {
    if s == [] then [m]
    else if EvaluateMove(Last(s), p) <= EvaluateMove(m, p) then
      AppendLargest(s, m, p);
      s + [m]
    else
      var init := s[..|s| - 1];
      assert s == init + [Last(s)];
      var front := InsertAscending(init, m, p);
      assert forall y :: y in init ==> EvaluateMove(y, p) <= EvaluateMove(Last(s), p);
      AppendLargest(front, Last(s), p);
      front + [Last(s)]
  }

  /** The stable ascending sort by `EvaluateMove` that the ordering calls. */
  function SortAscending(ms: seq<Move>, p: Player): (r: seq<Move>)
    ensures multiset(r) == multiset(ms)
    ensures NonDecreasing(r, p)
    decreases |ms|
  {
    if ms == [] then []
    else
      var init := ms[..|ms| - 1];
      assert ms == init + [Last(ms)];
      InsertAscending(SortAscending(init, p), Last(ms), p)
  }

  function Reverse(s: seq<Move>): (r: seq<Move>)
    ensures |r| == |s|
    ensures forall i :: 0 <= i < |s| ==> r[i] == s[|s| - 1 - i]
    decreases |s|
  {
    if s == [] then [] else [Last(s)] + Reverse(s[..|s| - 1])
  }

  lemma ReversePermutes(s: seq<Move>)
    ensures multiset(Reverse(s)) == multiset(s)
    decreases |s|
  {
    if s != [] {
      ReversePermutes(s[..|s| - 1]);
      assert s == s[..|s| - 1] + [Last(s)];
    }
  }

  /** Best-looking moves first: the moves sorted ascending by the heuristic, then reversed.
      The result is a permutation of the input, non-increasing in `EvaluateMove`. */
  function OrderMoves(ms: seq<Move>, p: Player): (r: seq<Move>)
    ensures multiset(r) == multiset(ms)
    ensures NonIncreasing(r, p)
  {
    var sorted := SortAscending(ms, p);
    ReversePermutes(sorted);
    Reverse(sorted)
  }
}
