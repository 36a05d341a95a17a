/** The game-playing search: fail-hard negamax with alpha-beta pruning, its reference
    negamax without pruning, and the root driver that maps a difficulty to a depth and
    collects the tied best moves. The in-place do/undo on one shared board is modelled
    by threading the board through every call and proving it comes back unchanged.
    The search is stated over a `Game` (move generator, win test, evaluation); the
    engine plays `Engine()`, the rules of the other modules. */
module Search {
  import opened Types
  import opened Board
  import opened Moves
  import opened Evaluation

  /** Stands for the infinite window bounds: beyond every evaluation. */
  const Inf: int := 1_000_000

  /** A search result: the value and the board as the search leaves it. */
  datatype Outcome = Outcome(value: int, board: Board)

  function Max(a: int, b: int): int
  {
    if a >= b then a else b
  }

  function Clamp(v: int, alpha: int, beta: int): int
    requires alpha < beta
  {
    if v <= alpha then alpha else if v >= beta then beta else v
  }

  /** What the search needs from the game: the moves of a side, whether a side has won,
      and the evaluation of a position for the side to move. */
  datatype Rules = Rules(
    moves: (Board, Player) -> seq<Move>,
    won: (Board, Player) -> bool,
    evaluate: (Board, Player) -> int)

  /** Every generated move can be done and undone, and every evaluation is finite. */
  ghost predicate Sound(g: Rules)
  {
    && (forall b, p, m :: m in g.moves(b, p) ==> Reversible(b, m))
    && (forall b, p :: -Inf < g.evaluate(b, p) < Inf)
  }

  function NoMoves(b: Board, p: Player): seq<Move> { [] }
  function NeverWon(b: Board, p: Player): bool { false }
  function Level(b: Board, p: Player): int { 0 }

  type Game = g: Rules | Sound(g) witness Rules(NoMoves, NeverWon, Level)

  lemma EngineSound()
    ensures Sound(Rules(AllMoves, Finished, Evaluate))
  {
    forall b, p | true
      ensures forall m :: m in AllMoves(b, p) ==> Reversible(b, m)
    {
      AllMovesReversible(b, p);
    }
  }

  /** The game the engine plays: the move rules, the win sentinel and the evaluation. */
  function Engine(): (g: Game)
    ensures forall b, p :: g.moves(b, p) == AllMoves(b, p)
    ensures forall b, p :: g.won(b, p) == Finished(b, p)
    ensures forall b, p :: g.evaluate(b, p) == Evaluate(b, p)
  {
    EngineSound();
    Rules(AllMoves, Finished, Evaluate)
  }

  /** The search stops at depth zero and at a position the side to move has already won. */
  predicate Leaf(g: Game, depth: nat, b: Board, p: Player)
  {
    depth == 0 || g.won(b, p)
  }

  // ---------------------------------------------------------------------------
  // The alpha-beta search as the engine runs it
  // ---------------------------------------------------------------------------

  /** Fail-hard negamax with alpha-beta pruning. At a leaf it returns the evaluation;
      otherwise its value lies in [alpha, beta], is alpha when the side to move has no
      move, and the board always comes back exactly as it was given. */
  function AlphaBeta(g: Game, depth: nat, b: Board, p: Player, alpha: int, beta: int): (r: Outcome)
    ensures r.board == b
    ensures Leaf(g, depth, b, p) ==> r.value == g.evaluate(b, p)
    ensures !Leaf(g, depth, b, p) && alpha < beta ==> alpha <= r.value <= beta
    ensures !Leaf(g, depth, b, p) && g.moves(b, p) == [] ==> r.value == alpha
    decreases depth, 1
  {
    if Leaf(g, depth, b, p) then Outcome(g.evaluate(b, p), b)
    else TryMoves(g, depth, b, p, g.moves(b, p), alpha, beta)
  }

  /** The loop over the moves at one node: try each move in turn, cut off with beta as
      soon as a reply reaches beta, otherwise raise alpha and go on. */
  function TryMoves(g: Game, depth: nat, b: Board, p: Player, moves: seq<Move>, alpha: int, beta: int): (r: Outcome)
    requires depth > 0
    requires forall m :: m in moves ==> Reversible(b, m)
    ensures r.board == b
    ensures alpha < beta ==> alpha <= r.value <= beta
    ensures moves == [] ==> r.value == alpha
    decreases depth, 0, |moves| + 1
  {
    if moves == [] then Outcome(alpha, b)
    else
      assert moves[0] in moves;
      var reply := Reply(g, depth, b, p, moves[0], alpha, beta);
      if reply.value >= beta then Outcome(beta, reply.board)
      else TryMoves(g, depth, reply.board, p, moves[1..], Max(alpha, reply.value), beta)
  }

  /** One turn of that loop: do the move, search the opponent's position with the
      negated window, negate the result, undo the move. The undo restores the board. */
  function Reply(g: Game, depth: nat, b: Board, p: Player, move: Move, alpha: int, beta: int): (r: Outcome)
    requires depth > 0 && Reversible(b, move)
    ensures r.board == b
    decreases depth, 0, 0
  {
    var child := AlphaBeta(g, depth - 1, DoMove(b, move), Opponent(p), -beta, -alpha);
    UndoAfterDo(b, move);
    Outcome(-child.value, UndoMove(child.board, move))
  }

  // ---------------------------------------------------------------------------
  // The reference: plain negamax without pruning
  // ---------------------------------------------------------------------------

  /** The exact negamax value: the evaluation at a leaf, otherwise the best negated
      reply value, and -Inf for a side with no move. */
  function Negamax(g: Game, depth: nat, b: Board, p: Player): (v: int)
    ensures -Inf <= v <= Inf
    decreases depth, 1
  {
    if Leaf(g, depth, b, p) then g.evaluate(b, p)
    else BestReply(g, depth, b, p, g.moves(b, p))
  }

  function BestReply(g: Game, depth: nat, b: Board, p: Player, moves: seq<Move>): (v: int)
    requires depth > 0
    requires forall m :: m in moves ==> Reversible(b, m)
    ensures -Inf <= v <= Inf
    decreases depth, 0, |moves|
  {
    if moves == [] then -Inf
    else
      assert moves[0] in moves && Reversible(b, moves[0]);
      Max(-Negamax(g, depth - 1, DoMove(b, moves[0]), Opponent(p)), BestReply(g, depth, b, p, moves[1..]))
  }

  /** Alpha-beta computes negamax: at a leaf exactly, elsewhere clamped to the window. */
  lemma {:induction false} AlphaBetaIsNegamax(g: Game, depth: nat, b: Board, p: Player, alpha: int, beta: int)
    requires -Inf <= alpha < beta <= Inf
    ensures Leaf(g, depth, b, p) ==> AlphaBeta(g, depth, b, p, alpha, beta).value == Negamax(g, depth, b, p)
    ensures !Leaf(g, depth, b, p) ==>
      AlphaBeta(g, depth, b, p, alpha, beta).value == Clamp(Negamax(g, depth, b, p), alpha, beta)
    decreases depth, 1, 0, 0
  {
    if !Leaf(g, depth, b, p) {
      TryMovesIsBestReply(g, depth, b, p, g.moves(b, p), alpha, beta);
    }
  }

  lemma {:induction false} TryMovesIsBestReply(g: Game, depth: nat, b: Board, p: Player, moves: seq<Move>, alpha: int, beta: int)
    requires depth > 0 && -Inf <= alpha < beta <= Inf
    requires forall m :: m in moves ==> Reversible(b, m)
    ensures TryMoves(g, depth, b, p, moves, alpha, beta).value == Clamp(BestReply(g, depth, b, p, moves), alpha, beta)
    decreases depth, 0, |moves| + 1, 1
  {
    if moves != [] {
      assert moves[0] in moves;
      var evaluation, exact := ReplyIsExact(g, depth, b, p, moves[0], alpha, beta);
      var rest := BestReply(g, depth, b, p, moves[1..]);
      assert BestReply(g, depth, b, p, moves) == Max(exact, rest);
      if evaluation < beta {
        TryMovesIsBestReply(g, depth, b, p, moves[1..], Max(alpha, evaluation), beta);
        ClampAfterRaise(exact, evaluation, rest, alpha, beta);
      } else {
        ClampAtCutoff(exact, evaluation, rest, alpha, beta);
      }
    }
  }

  /** A reply's searched value agrees with its exact value inside the window. */
  lemma {:induction false} ReplyIsExact(g: Game, depth: nat, b: Board, p: Player, move: Move, alpha: int, beta: int)
      returns (evaluation: int, exact: int)
    requires depth > 0 && -Inf <= alpha < beta <= Inf && Reversible(b, move)
    ensures evaluation == Reply(g, depth, b, p, move, alpha, beta).value
    ensures exact == -Negamax(g, depth - 1, DoMove(b, move), Opponent(p))
    ensures Clamp(evaluation, alpha, beta) == Clamp(exact, alpha, beta)
    decreases depth, 0, 0, 0
  {
    var after := DoMove(b, move);
    var searched := AlphaBeta(g, depth - 1, after, Opponent(p), -beta, -alpha).value;
    var n := Negamax(g, depth - 1, after, Opponent(p));
    evaluation := -searched;
    exact := -n;
    AlphaBetaIsNegamax(g, depth - 1, after, Opponent(p), -beta, -alpha);
    ReplyAgrees(searched, n, Leaf(g, depth - 1, after, Opponent(p)), alpha, beta);
  }

  /** A reply searched with the negated window, negated back, agrees with the exact
      reply value once both are clamped to the original window. */
  lemma ReplyAgrees(v: int, n: int, leaf: bool, alpha: int, beta: int)
    requires alpha < beta
    requires v == if leaf then n else Clamp(n, -beta, -alpha)
    ensures Clamp(-v, alpha, beta) == Clamp(-n, alpha, beta)
  {
  }

  /** A reply at or above beta makes the whole node clamp to beta. */
  lemma ClampAtCutoff(exact: int, evaluation: int, rest: int, alpha: int, beta: int)
    requires alpha < beta <= evaluation
    requires Clamp(evaluation, alpha, beta) == Clamp(exact, alpha, beta)
    ensures Clamp(Max(exact, rest), alpha, beta) == beta
  {
  }

  /** Raising alpha to a value that agrees with `exact` inside the window and clamping the
      rest is the same as clamping the maximum of both. */
  lemma ClampAfterRaise(exact: int, evaluation: int, rest: int, alpha: int, beta: int)
    requires alpha < beta && evaluation < beta
    requires Clamp(evaluation, alpha, beta) == Clamp(exact, alpha, beta)
    ensures Clamp(rest, Max(alpha, evaluation), beta) == Clamp(Max(exact, rest), alpha, beta)
  {
  }

  /** With the full window the search returns the exact negamax value. */
  lemma FullWindowIsExact(g: Game, depth: nat, b: Board, p: Player)
    ensures AlphaBeta(g, depth, b, p, -Inf, Inf).value == Negamax(g, depth, b, p)
  {
    AlphaBetaIsNegamax(g, depth, b, p, -Inf, Inf);
  }

  // ---------------------------------------------------------------------------
  // The root driver
  // ---------------------------------------------------------------------------

  /** Plies searched below the root for each difficulty. */
  function DepthFor(d: Difficulty): nat
  {
    match d
    case Easy => 0
    case Medium => 1
    case Hard => 2
  }

  /** The exact value of a root move for the AI: the evaluation right away if the move
      wins, otherwise the negated negamax value of the opponent's position. */
  function RootValue(g: Game, b: Board, ai: Player, depth: nat, m: Move): (v: int)
    requires Reversible(b, m)
    ensures -Inf <= v <= Inf
  {
    if g.won(DoMove(b, m), ai) then g.evaluate(DoMove(b, m), ai)
    else -Negamax(g, depth, DoMove(b, m), Opponent(ai))
  }

  /** One turn of the root loop: do the move, score it (the evaluation if it wins, else
      the negated full-window alpha-beta search of the reply), undo it. The score is the
      move's exact value and the board comes back unchanged. */
  function ScoreMove(g: Game, b: Board, ai: Player, depth: nat, m: Move): (r: Outcome)
    requires Reversible(b, m)
    ensures r.board == b
    ensures r.value == RootValue(g, b, ai, depth, m)
  {
    var after := DoMove(b, m);
    UndoAfterDo(b, m);
    if g.won(after, ai) then Outcome(g.evaluate(after, ai), UndoMove(after, m))
    else
      var reply := AlphaBeta(g, depth, after, Opponent(ai), -Inf, Inf);
      FullWindowIsExact(g, depth, after, Opponent(ai));
      Outcome(-reply.value, UndoMove(reply.board, m))
  }

  /** The best root value among `moves`, starting from `best`. */
  function BestValue(g: Game, b: Board, ai: Player, depth: nat, moves: seq<Move>, best: int): int
    requires forall m :: m in moves ==> Reversible(b, m)
    decreases |moves|
  {
    if moves == [] then best
    else
      assert moves[0] in moves;
      BestValue(g, b, ai, depth, moves[1..], Max(best, RootValue(g, b, ai, depth, moves[0])))
  }

  /** The moves of `moves` whose root value is `value`, in order. */
  function WithValue(g: Game, b: Board, ai: Player, depth: nat, moves: seq<Move>, value: int): (r: seq<Move>)
    requires forall m :: m in moves ==> Reversible(b, m)
    ensures forall m :: m in r <==> m in moves && RootValue(g, b, ai, depth, m) == value
    decreases |moves|
  {
    if moves == [] then []
    else
      assert moves[0] in moves;
      var rest := WithValue(g, b, ai, depth, moves[1..], value);
      if RootValue(g, b, ai, depth, moves[0]) == value then [moves[0]] + rest else rest
  }

  lemma {:induction false} BestValueBounds(g: Game, b: Board, ai: Player, depth: nat, moves: seq<Move>, best: int)
    requires forall m :: m in moves ==> Reversible(b, m)
    ensures BestValue(g, b, ai, depth, moves, best) >= best
    ensures forall m :: m in moves ==> BestValue(g, b, ai, depth, moves, best) >= RootValue(g, b, ai, depth, m)
    ensures BestValue(g, b, ai, depth, moves, best) == best ||
      exists m :: m in moves && BestValue(g, b, ai, depth, moves, best) == RootValue(g, b, ai, depth, m)
    decreases |moves|
  {
    if moves != [] {
      assert moves[0] in moves;
      BestValueBounds(g, b, ai, depth, moves[1..], Max(best, RootValue(g, b, ai, depth, moves[0])));
    }
  }

  lemma Regroup(front: seq<Move>, m: Move, back: seq<Move>)
    ensures (front + [m]) + back == front + ([m] + back)
  {
  }

  datatype RootState = RootState(bestScore: int, bestMoves: seq<Move>, board: Board)

  /** The root loop: score each move in turn and keep every move tied for the best score
      seen so far; a strictly better move restarts the list. The final list is the
      earlier ties (when the best score never moved) followed by every move of `moves`
      whose value is the final best, in order; the board comes back unchanged. */
  function RootLoop(g: Game, b: Board, ai: Player, depth: nat, moves: seq<Move>, bestScore: int, bestMoves: seq<Move>): (r: RootState)
    requires forall m :: m in moves ==> Reversible(b, m)
    ensures r.board == b
    ensures r.bestScore == BestValue(g, b, ai, depth, moves, bestScore)
    ensures r.bestMoves ==
      (if r.bestScore == bestScore then bestMoves else []) + WithValue(g, b, ai, depth, moves, r.bestScore)
    decreases |moves|
  {
    if moves == [] then RootState(bestScore, bestMoves, b)
    else
      var move := moves[0];
      assert move in moves;
      var scored := ScoreMove(g, b, ai, depth, move);
      var ourScore := scored.value;
      BestValueBounds(g, b, ai, depth, moves[1..], Max(bestScore, ourScore));
      if ourScore > bestScore then RootLoop(g, scored.board, ai, depth, moves[1..], ourScore, [move])
      else if ourScore == bestScore then
        var r := RootLoop(g, scored.board, ai, depth, moves[1..], bestScore, bestMoves + [move]);
        Regroup(bestMoves, move, WithValue(g, b, ai, depth, moves[1..], r.bestScore));
        r
      else RootLoop(g, scored.board, ai, depth, moves[1..], bestScore, bestMoves)
  }

  /** Starting from -Inf the root loop keeps at least one move of a nonempty list. */
  lemma RootLoopFindsTie(g: Game, b: Board, ai: Player, depth: nat, moves: seq<Move>)
    requires forall m :: m in moves ==> Reversible(b, m)
    ensures moves != [] ==> RootLoop(g, b, ai, depth, moves, -Inf, []).bestMoves != []
  {
    var root := RootLoop(g, b, ai, depth, moves, -Inf, []);
    BestValueBounds(g, b, ai, depth, moves, -Inf);
    if moves != [] {
      assert moves[0] in moves;
      if root.bestScore == -Inf {
        assert moves[0] in root.bestMoves;
      } else {
        var m :| m in moves && root.bestScore == RootValue(g, b, ai, depth, m);
        assert m in root.bestMoves;
      }
    }
  }

  /** The root: order the AI's moves best-looking first and run the root loop over them.
      The result holds exactly the moves of greatest root value, and at least one when
      the AI has a move. */
  function Ties(g: Game, b: Board, ai: Player, depth: nat): (r: RootState)
    ensures r.board == b
    ensures forall m :: m in r.bestMoves <==> m in g.moves(b, ai) && RootValue(g, b, ai, depth, m) == r.bestScore
    ensures forall m :: m in g.moves(b, ai) ==> RootValue(g, b, ai, depth, m) <= r.bestScore
    ensures g.moves(b, ai) != [] ==> r.bestMoves != []
  {
    var candidates := g.moves(b, ai);
    var ordered := OrderMoves(candidates, ai);
    assert forall m :: m in ordered <==> m in candidates by {
      assert forall m :: m in ordered <==> m in multiset(ordered);
    }
    BestValueBounds(g, b, ai, depth, ordered, -Inf);
    RootLoopFindsTie(g, b, ai, depth, ordered);
    RootLoop(g, b, ai, depth, ordered, -Inf, [])
  }

  /** What the root returns: the chosen move, or none, and the board as it is left. */
  datatype Decision = Decision(move: Option<Move>, board: Board)

  /** The root decision in a game: no move when the AI has already won or has no move;
      otherwise a move of greatest root value, picked among the ties by `roll` (the
      uniform random choice). The board comes back unchanged. */
  function Choose(g: Game, b: Board, ai: Player, depth: nat, roll: nat): (r: Decision)
    ensures r.board == b
    ensures r.move == None <==> g.won(b, ai) || g.moves(b, ai) == []
    ensures r.move.Some? ==>
      && r.move.value in g.moves(b, ai)
      && Reversible(b, r.move.value)
      && forall m :: m in g.moves(b, ai) ==> RootValue(g, b, ai, depth, m) <= RootValue(g, b, ai, depth, r.move.value)
  {
    if g.won(b, ai) then Decision(None, b)
    else
      var root := Ties(g, b, ai, depth);
      if |root.bestMoves| == 0 then Decision(None, root.board)
      else
        var chosen := root.bestMoves[roll % |root.bestMoves|];
        assert chosen in root.bestMoves;
        Decision(Some(chosen), root.board)
  }

  /** Every move tied for the best value is chosen for some roll. */
  lemma EveryTieReachable(g: Game, b: Board, ai: Player, depth: nat, m: Move)
    requires !g.won(b, ai) && m in g.moves(b, ai)
    requires forall o :: o in g.moves(b, ai) ==> RootValue(g, b, ai, depth, o) <= RootValue(g, b, ai, depth, m)
    ensures exists roll :: Choose(g, b, ai, depth, roll).move == Some(m)
  {
    var root := Ties(g, b, ai, depth);
    var top := root.bestMoves[0];
    assert top in root.bestMoves;
    assert RootValue(g, b, ai, depth, top) <= RootValue(g, b, ai, depth, m);
    assert m in root.bestMoves;
    var i :| 0 <= i < |root.bestMoves| && root.bestMoves[i] == m;
    ChooseTakesRoll(g, b, ai, depth, i);
  }

  lemma ChooseTakesRoll(g: Game, b: Board, ai: Player, depth: nat, roll: nat)
    requires !g.won(b, ai) && roll < |Ties(g, b, ai, depth).bestMoves|
    ensures Choose(g, b, ai, depth, roll).move == Some(Ties(g, b, ai, depth).bestMoves[roll])
  {
    ModBelow(roll, |Ties(g, b, ai, depth).bestMoves|);
  }

  lemma ModBelow(x: nat, n: nat)
    requires x < n
    ensures x % n == x
  {
  }

  /** When one move is strictly better than every other, every roll picks it. */
  lemma UniqueBestIsChosen(g: Game, b: Board, ai: Player, depth: nat, m: Move, roll: nat)
    requires !g.won(b, ai) && m in g.moves(b, ai)
    requires forall o :: o in g.moves(b, ai) && o != m ==> RootValue(g, b, ai, depth, o) < RootValue(g, b, ai, depth, m)
    ensures Choose(g, b, ai, depth, roll).move == Some(m)
  {
  }

  /** The engine's move choice: the root decision in the engine's game, searched to the
      depth of the difficulty. */
  function FindMove(b: Board, ai: Player, difficulty: Difficulty, roll: nat): (r: Decision)
    ensures r.board == b
    ensures r.move == None <==> Finished(b, ai) || AllMoves(b, ai) == []
    ensures r.move.Some? ==> r.move.value in AllMoves(b, ai)
    ensures (AllMovesReversible(b, ai);
      r.move.Some? ==> forall m :: m in AllMoves(b, ai) ==>
        RootValue(Engine(), b, ai, DepthFor(difficulty), m) <= RootValue(Engine(), b, ai, DepthFor(difficulty), r.move.value))
  {
    Choose(Engine(), b, ai, DepthFor(difficulty), roll)
  }

  /** On easy the search looks no further than the move itself: a move's value is the
      evaluation of the position it leads to, seen by the AI. */
  lemma EasyIsGreedy(b: Board, ai: Player, m: Move)
    requires Reversible(b, m)
    ensures RootValue(Engine(), b, ai, DepthFor(Easy), m) == Evaluate(DoMove(b, m), ai)
  {
  }
}
