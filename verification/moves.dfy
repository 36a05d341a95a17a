/** The move generator: single steps in eight directions, chained jumps over any
    occupied neighbour, deduplication per (from, to) and the all-pieces aggregate. */
module Moves {
  import opened Types
  import opened Board
  import Dedup

  /** The eight directions in scan order: N, NE, E, SE, S, SW, W, NW. */
  const Offsets: seq<Coord> :=
    [Coord(0, 1), Coord(1, 1), Coord(1, 0), Coord(1, -1),
     Coord(0, -1), Coord(-1, -1), Coord(-1, 0), Coord(-1, 1)]

  function Shift(c: Coord, d: Coord, k: int): Coord
  {
    Coord(c.x + k * d.x, c.y + k * d.y)
  }

  // ---------------------------------------------------------------------------
  // The movement rules, stated independently of the search that enumerates them
  // ---------------------------------------------------------------------------

  predicate Adjacent(a: Coord, c: Coord)
  {
    a != c && -1 <= c.x - a.x <= 1 && -1 <= c.y - a.y <= 1
  }

  /** A simple step: to one of the eight neighbours, inside the board, onto an empty cell. */
  predicate StepOk(b: Board, a: Coord, c: Coord)
  {
    Adjacent(a, c) && InBounds(c) && GetPiece(b, c) == Empty
  }

  predicate IsLeapDelta(n: int)
  {
    n == -2 || n == 0 || n == 2
  }

  function Midpoint(a: Coord, c: Coord): Coord
  {
    Coord((a.x + c.x) / 2, (a.y + c.y) / 2)
  }

  /** A single jump: two cells along one of the eight directions, over an occupied
      cell (either colour), onto an empty in-bounds cell. */
  predicate JumpOk(b: Board, a: Coord, c: Coord)
  {
    && InBounds(a) && InBounds(c) && a != c
    && IsLeapDelta(c.x - a.x) && IsLeapDelta(c.y - a.y)
    && GetPiece(b, Midpoint(a, c)) != Empty
    && GetPiece(b, c) == Empty
  }

  predicate Distinct(s: seq<Coord>)
  {
    forall i, j :: 0 <= i < j < |s| ==> s[i] != s[j]
  }

  /** One or more jumps, each link a legal jump on the unchanged board. */
  predicate JumpChain(b: Board, path: seq<Coord>)
  {
    |path| >= 2 && forall i :: 0 <= i < |path| - 1 ==> JumpOk(b, path[i], path[i + 1])
  }

  /** The reference definition of a legal move of the piece on `origin`: a single step,
      or a jump chain that never visits a cell twice and may stop after any jump. */
  predicate LegalMove(b: Board, origin: Coord, m: Move)
  {
    && m.from == origin
    && |m.path| >= 2 && m.path[0] == origin && m.to == Last(m.path)
    && ((|m.path| == 2 && StepOk(b, origin, m.to)) || (JumpChain(b, m.path) && Distinct(m.path)))
  }

  // ---------------------------------------------------------------------------
  // The recursive search, as the generator performs it
  // ---------------------------------------------------------------------------

  ghost function Cells(): set<Coord>
  {
    set i | 0 <= i < CellCount :: Cell(i)
  }

  /** The in-bounds cells not yet on the path: shrinks with every jump, so the search ends. */
  ghost function Unvisited(path: seq<Coord>): set<Coord>
  {
    set c | c in Cells() && c !in path
  }

  lemma UnvisitedShrinks(path: seq<Coord>, land: Coord)
    requires InBounds(land) && land !in path
    ensures Unvisited(path + [land]) < Unvisited(path)
  {
    assert land == Cell(Index(land));
    assert land in Unvisited(path);
  }

  /** Adding a legal jump to a non-repeating start or chain yields a non-repeating chain. */
  lemma ExtendChain(b: Board, path: seq<Coord>, land: Coord)
    requires |path| >= 1 && Distinct(path) && (|path| == 1 || JumpChain(b, path))
    requires JumpOk(b, Last(path), land) && land !in path
    ensures JumpChain(b, path + [land]) && Distinct(path + [land])
  {
    var extended := path + [land];
    forall k | 0 <= k < |extended| - 1
      ensures JumpOk(b, extended[k], extended[k + 1])
    {
      if k < |path| - 1 {
        assert extended[k] == path[k] && extended[k + 1] == path[k + 1];
      }
    }
  }

  /** The move the search starts from: only the start cell, its target not yet set. */
  function Initial(origin: Coord): Move
  {
    Move(origin, Coord(-1, -1), [origin])
  }

  /** What the search needs of the move it is extending at `pos`. */
  predicate Partial(b: Board, pos: Coord, current: Move, hasJumped: bool)
  {
    && InBounds(pos)
    && |current.path| >= 1 && current.path[0] == current.from && Last(current.path) == pos
    && Distinct(current.path)
    && (hasJumped ==> JumpChain(b, current.path))
    && (!hasJumped ==> current.path == [pos])
  }

  /** The simple steps from `pos`, directions scanned from index `i` on. */
  function Steps(b: Board, pos: Coord, current: Move, i: nat): (r: seq<Move>)
    requires InBounds(pos) && i <= |Offsets|
    ensures forall m :: m in r ==>
      m.from == current.from && m.path == current.path + [m.to] && StepOk(b, pos, m.to)
    decreases |Offsets| - i
  {
    if i == |Offsets| then []
    else
      var next := Shift(pos, Offsets[i], 1);
      var rest := Steps(b, pos, current, i + 1);
      if !InBounds(next) || GetPiece(b, next) != Empty then rest
      else [current.(path := current.path + [next], to := next)] + rest
  }

  /** The jumps from `pos`, directions scanned from index `i` on, each followed by
      everything the search finds from its landing cell. */
  function Jumps(b: Board, pos: Coord, current: Move, i: nat): (r: seq<Move>)
    requires Partial(b, pos, current, |current.path| >= 2) && i <= |Offsets|
    ensures forall m :: m in r ==>
      && m.from == current.from && |current.path| < |m.path| && current.path <= m.path
      && m.to == Last(m.path) && JumpChain(b, m.path) && Distinct(m.path)
    decreases Unvisited(current.path), 0, |Offsets| - i
  {
    if i == |Offsets| then []
    else
      var land := Shift(pos, Offsets[i], 2);
      var rest := Jumps(b, pos, current, i + 1);
      if !InBounds(land) then rest
      else
        var over := Shift(pos, Offsets[i], 1);
        var isSomeoneToJumpOver := GetPiece(b, over) != Empty;
        var isSomewhereToLand := GetPiece(b, land) == Empty;
        var hasBeenHereBefore := land in current.path;
        if !isSomeoneToJumpOver || !isSomewhereToLand || hasBeenHereBefore then rest
        else
          assert Midpoint(pos, land) == over;
          var extended := current.(path := current.path + [land]);
          ExtendChain(b, current.path, land);
          UnvisitedShrinks(current.path, land);
          Search(b, land, extended, true) + rest
  }

  /** The recursive search from `pos`: steps (only before any jump), then jumps with
      their continuations, then, once a jump has been made, stopping where the piece is. */
  function Search(b: Board, pos: Coord, current: Move, hasJumped: bool): (r: seq<Move>)
    requires Partial(b, pos, current, hasJumped)
    ensures forall m :: m in r ==>
      && |current.path| <= |m.path| && current.path <= m.path
      && LegalMove(b, current.from, m)
      && (hasJumped ==> JumpChain(b, m.path) && Distinct(m.path))
    decreases Unvisited(current.path), 1, 0
  {
    var steps := if hasJumped then [] else Steps(b, pos, current, 0);
    var jumps := Jumps(b, pos, current, 0);
    var stop := if hasJumped then [current.(to := pos)] else [];
    steps + jumps + stop
  }

  // ---------------------------------------------------------------------------
  // Completeness: every legal move is found by the search
  // ---------------------------------------------------------------------------

  lemma DirectionOf(d: Coord) returns (k: nat)
    requires Adjacent(Coord(0, 0), d)
    ensures k < |Offsets| && Offsets[k] == d
  {
    if d == Offsets[0] { k := 0; }
    else if d == Offsets[1] { k := 1; }
    else if d == Offsets[2] { k := 2; }
    else if d == Offsets[3] { k := 3; }
    else if d == Offsets[4] { k := 4; }
    else if d == Offsets[5] { k := 5; }
    else if d == Offsets[6] { k := 6; }
    else { k := 7; }
  }

  lemma {:induction false} StepsContain(b: Board, pos: Coord, current: Move, i: nat, k: nat)
    requires InBounds(pos) && i <= k < |Offsets|
    requires StepOk(b, pos, Shift(pos, Offsets[k], 1))
    ensures
      var next := Shift(pos, Offsets[k], 1);
      current.(path := current.path + [next], to := next) in Steps(b, pos, current, i)
    decreases k - i
  {
    if i < k {
      StepsContain(b, pos, current, i + 1, k);
    }
  }

  /** The search from `pos` may jump in direction k, and `m` is among what it finds
      after that jump. */
  predicate JumpTaken(b: Board, pos: Coord, current: Move, k: nat, m: Move)
    requires Partial(b, pos, current, |current.path| >= 2) && k < |Offsets|
  {
    var land := Shift(pos, Offsets[k], 2);
    && InBounds(land) && GetPiece(b, Shift(pos, Offsets[k], 1)) != Empty
    && GetPiece(b, land) == Empty && land !in current.path
    && JumpChain(b, current.path + [land])
    && m in Search(b, land, current.(path := current.path + [land]), true)
  }

  /** What `Jumps` finds from direction i + 1 on, it also finds from direction i on. */
  lemma JumpsKeepRest(b: Board, pos: Coord, current: Move, i: nat, m: Move)
    requires Partial(b, pos, current, |current.path| >= 2) && i < |Offsets|
    requires m in Jumps(b, pos, current, i + 1)
    ensures m in Jumps(b, pos, current, i)
  {
  }

  /** A jump the search may take in direction k contributes all its continuations. */
  lemma JumpsTakeJump(b: Board, pos: Coord, current: Move, k: nat, m: Move)
    requires Partial(b, pos, current, |current.path| >= 2) && k < |Offsets|
    requires JumpTaken(b, pos, current, k, m)
    ensures m in Jumps(b, pos, current, k)
  {
  }

  lemma {:induction false} JumpsContain(b: Board, pos: Coord, current: Move, i: nat, k: nat, m: Move)
    requires Partial(b, pos, current, |current.path| >= 2) && i <= k < |Offsets|
    requires JumpTaken(b, pos, current, k, m)
    ensures m in Jumps(b, pos, current, i)
    decreases k - i
  {
    if i < k {
      JumpsContain(b, pos, current, i + 1, k, m);
      JumpsKeepRest(b, pos, current, i, m);
    } else {
      JumpsTakeJump(b, pos, current, k, m);
    }
  }

  /** The step of `ChainFound`: the next cell of `p` is a jump in direction `k` from
      `pos` that the search takes, and the path extended by it is again a partial chain. */
  lemma NextJump(b: Board, pos: Coord, current: Move, hasJumped: bool, p: seq<Coord>) returns (k: nat, land: Coord)
    requires Partial(b, pos, current, hasJumped)
    requires |current.path| < |p| && current.path <= p && Distinct(p)
    requires forall i :: |current.path| - 1 <= i < |p| - 1 ==> JumpOk(b, p[i], p[i + 1])
    ensures k < |Offsets| && land == p[|current.path|]
    ensures InBounds(land) && Shift(pos, Offsets[k], 2) == land
    ensures GetPiece(b, Shift(pos, Offsets[k], 1)) != Empty && GetPiece(b, land) == Empty
    ensures land !in current.path
    ensures JumpChain(b, current.path + [land]) && Distinct(current.path + [land])
    ensures current.path + [land] <= p
  {
    var n := |current.path|;
    land := p[n];
    assert p[n - 1] == pos;
    assert JumpOk(b, pos, land);
    var d := Coord((land.x - pos.x) / 2, (land.y - pos.y) / 2);
    k := DirectionOf(d);
    assert Shift(pos, Offsets[k], 2) == land;
    assert Shift(pos, Offsets[k], 1) == Midpoint(pos, land);
    assert land !in current.path by {
      forall j | 0 <= j < n
        ensures current.path[j] != land
      {
        assert current.path[j] == p[j];
      }
    }
    var extended := current.path + [land];
    assert extended == p[..n + 1];
    assert JumpChain(b, extended) by {
      forall j | 0 <= j < |extended| - 1
        ensures JumpOk(b, extended[j], extended[j + 1])
      {
        if j < n - 1 {
          assert hasJumped;
          assert extended[j] == current.path[j] && extended[j + 1] == current.path[j + 1];
        }
      }
    }
    assert Distinct(extended) by {
      forall i, j | 0 <= i < j < |extended|
        ensures extended[i] != extended[j]
      {
        assert extended[i] == p[i] && extended[j] == p[j];
      }
    }
  }

  /** Every extension of the current path by legal, non-repeating jumps is returned,
      stopping at its last cell. */
  lemma {:induction false} ChainFound(b: Board, pos: Coord, current: Move, hasJumped: bool, p: seq<Coord>)
    requires Partial(b, pos, current, hasJumped)
    requires |current.path| <= |p| && current.path <= p && Distinct(p)
    requires forall i :: |current.path| - 1 <= i < |p| - 1 ==> JumpOk(b, p[i], p[i + 1])
    requires hasJumped || |current.path| < |p|
    ensures Move(current.from, Last(p), p) in Search(b, pos, current, hasJumped)
    decreases |p| - |current.path|
  {
    var r := Search(b, pos, current, hasJumped);
    var steps := if hasJumped then [] else Steps(b, pos, current, 0);
    var jumps := Jumps(b, pos, current, 0);
    var stop := if hasJumped then [current.(to := pos)] else [];
    assert r == steps + jumps + stop;
    if |p| == |current.path| {
      assert p == current.path;
      assert current.(to := pos) == Move(current.from, Last(p), p);
    } else {
      var k, land := NextJump(b, pos, current, hasJumped, p);
      var extended := current.(path := current.path + [land]);
      ChainFound(b, land, extended, true, p);
      JumpsContain(b, pos, current, 0, k, Move(current.from, Last(p), p));
    }
  }

  /** The search started at a cell returns exactly the legal moves of that cell:
      every returned move is legal, and every legal move is returned. */
  lemma SearchIsExact(b: Board, origin: Coord, m: Move)
    requires InBounds(origin)
    ensures m in Search(b, origin, Initial(origin), false) <==> LegalMove(b, origin, m)
  {
    if LegalMove(b, origin, m) {
      if |m.path| == 2 && StepOk(b, origin, m.to) {
        StepFound(b, origin, m);
      } else {
        ChainIsFound(b, origin, m);
      }
    }
  }

  /** A legal single step is among the search's results. */
  lemma StepFound(b: Board, origin: Coord, m: Move)
    requires InBounds(origin) && LegalMove(b, origin, m)
    requires |m.path| == 2 && StepOk(b, origin, m.to)
    ensures m in Search(b, origin, Initial(origin), false)
  {
    var current := Initial(origin);
    assert Search(b, origin, current, false) == Steps(b, origin, current, 0) + Jumps(b, origin, current, 0) + [];
    var k := DirectionOf(Coord(m.to.x - origin.x, m.to.y - origin.y));
    assert Shift(origin, Offsets[k], 1) == m.to;
    StepsContain(b, origin, current, 0, k);
    assert m == current.(path := current.path + [m.to], to := m.to);
  }

  /** A legal jump chain is among the search's results. */
  lemma ChainIsFound(b: Board, origin: Coord, m: Move)
    requires InBounds(origin) && LegalMove(b, origin, m)
    requires !(|m.path| == 2 && StepOk(b, origin, m.to))
    ensures m in Search(b, origin, Initial(origin), false)
  {
    var current := Initial(origin);
    assert Search(b, origin, current, false) == Steps(b, origin, current, 0) + Jumps(b, origin, current, 0) + [];
    assert m.path[..1] == current.path;
    ChainFound(b, origin, current, false, m.path);
    assert m == Move(current.from, Last(m.path), m.path);
  }

  /** The cells a piece can end its move on, in a given list of moves. */
  function Targets(ms: seq<Move>): set<Coord>
  {
    set m | m in ms :: m.to
  }

  // ---------------------------------------------------------------------------
  // The generator's public operations
  // ---------------------------------------------------------------------------

  /** All moves of the piece on `origin`: the search's results deduplicated to one move
      per target cell. Every move returned is legal and no target appears twice. */
  function FromTile(b: Board, origin: Coord): (r: seq<Move>)
    requires InBounds(origin)
    ensures forall m :: m in r ==> LegalMove(b, origin, m)
    ensures forall i, j :: 0 <= i < j < |r| ==> r[i].to != r[j].to
  {
    var found := Search(b, origin, Initial(origin), false);
    var r := Dedup.Deduplicate(found);
    assert forall m :: m in r ==> m in found && m.from == origin;
    r
  }

  /** Every legal move of the piece is represented: its target is reached by a returned
      move, and every returned move to that target has a path no longer than it. */
  lemma FromTileComplete(b: Board, origin: Coord, m: Move)
    requires InBounds(origin) && LegalMove(b, origin, m)
    ensures m.to in Targets(FromTile(b, origin))
    ensures forall o :: o in FromTile(b, origin) && o.to == m.to ==> |o.path| <= |m.path|
  {
    var found := Search(b, origin, Initial(origin), false);
    var r := FromTile(b, origin);
    SearchIsExact(b, origin, m);
    assert Dedup.KeyOf(m) in Dedup.KeysOf(found);
    assert Dedup.KeyOf(m) in Dedup.KeysOf(r);
    var o :| o in r && Dedup.KeyOf(o) == Dedup.KeyOf(m);
    assert m.to in Targets(r);
  }

  /** The dedup keeps a shortest move: no legal move to the same target is shorter. */
  lemma FromTileShortest(b: Board, origin: Coord, o: Move, m: Move)
    requires InBounds(origin) && o in FromTile(b, origin)
    requires LegalMove(b, origin, m) && m.to == o.to
    ensures |o.path| <= |m.path|
  {
    FromTileComplete(b, origin, m);
  }

  /** A legal move never ends where it started, ends on an empty cell, and so can be
      done and undone on the board it was generated from. */
  lemma LegalIsReversible(b: Board, origin: Coord, m: Move)
    requires InBounds(origin) && LegalMove(b, origin, m)
    ensures Reversible(b, m)
  {
    if !(|m.path| == 2 && StepOk(b, origin, m.to)) {
      assert JumpOk(b, m.path[|m.path| - 2], m.path[|m.path| - 1]);
      assert m.path[0] != m.path[|m.path| - 1];
    }
  }

  /** The flat indices 0 .. n-1. */
  function Below(n: nat): (r: set<int>)
    ensures |r| == n
    ensures forall k :: k in r <==> 0 <= k < n
  {
    if n == 0 then {} else Below(n - 1) + {n - 1}
  }

  lemma {:induction false} DistinctIndexSize(s: seq<Coord>)
    requires forall c :: c in s ==> InBounds(c)
    requires Distinct(s)
    ensures |set c | c in s :: Index(c)| == |s|
  {
    if s != [] {
      var init := s[..|s| - 1];
      DistinctIndexSize(init);
      assert (set c | c in s :: Index(c)) == (set c | c in init :: Index(c)) + {Index(Last(s))};
      forall c | c in init
        ensures Index(c) != Index(Last(s))
      {
        IndexBijective(c, Last(s));
      }
      assert Index(Last(s)) !in (set c | c in init :: Index(c));
    }
  }

  lemma DistinctCellsBound(s: seq<Coord>)
    requires forall c :: c in s ==> InBounds(c)
    requires Distinct(s)
    ensures |s| <= CellCount
  {
    DistinctIndexSize(s);
    var used := set c | c in s :: Index(c);
    assert used <= Below(CellCount);
    assert Below(CellCount) == used + (Below(CellCount) - used);
  }

  lemma ChainInBounds(b: Board, path: seq<Coord>)
    requires JumpChain(b, path)
    ensures forall c :: c in path ==> InBounds(c)
  {
    forall c | c in path
      ensures InBounds(c)
    {
      var i :| 0 <= i < |path| && path[i] == c;
      if i < |path| - 1 {
        assert JumpOk(b, path[i], path[i + 1]);
      } else {
        assert JumpOk(b, path[i - 1], path[i]);
      }
    }
  }

  /** A move's path never revisits a cell, so it holds at most 64 cells. */
  lemma PathLengthBound(b: Board, origin: Coord, m: Move)
    requires InBounds(origin) && LegalMove(b, origin, m)
    ensures |m.path| <= CellCount
    ensures m.from != m.to
  {
    LegalIsReversible(b, origin, m);
    if !(|m.path| == 2 && StepOk(b, origin, m.to)) {
      ChainInBounds(b, m.path);
      DistinctCellsBound(m.path);
    }
  }

  /** Moves of every `p` piece on cells from flat index `i` on, in row-major order. */
  function AllMovesFrom(b: Board, p: Player, i: nat): (r: seq<Move>)
    requires i <= CellCount
    ensures forall m :: m in r ==>
      && InBounds(m.from) && i <= Index(m.from)
      && GetPiece(b, m.from) == Occupied(p) && LegalMove(b, m.from, m)
    decreases CellCount - i
  {
    if i == CellCount then []
    else
      var c := Cell(i);
      var tileMoves := if GetPiece(b, c) == Occupied(p) then FromTile(b, c) else [];
      tileMoves + AllMovesFrom(b, p, i + 1)
  }

  /** All moves of player `p`: the per-cell moves of its pieces, concatenated in row-major
      order. The board is only read. */
  function AllMoves(b: Board, p: Player): (r: seq<Move>)
    ensures forall m :: m in r ==>
      InBounds(m.from) && GetPiece(b, m.from) == Occupied(p) && LegalMove(b, m.from, m)
  {
    AllMovesFrom(b, p, 0)
  }

  lemma {:induction false} AllMovesFromContains(b: Board, p: Player, i: nat, c: Coord, m: Move)
    requires i <= CellCount && InBounds(c) && i <= Index(c)
    requires GetPiece(b, c) == Occupied(p) && m in FromTile(b, c)
    ensures m in AllMovesFrom(b, p, i)
    decreases CellCount - i
  {
    if i < Index(c) {
      AllMovesFromContains(b, p, i + 1, c, m);
    } else {
      assert Cell(i) == c;
    }
  }

  /** A move is among player `p`'s moves exactly when it is a generated move of a cell
      holding a `p` piece. */
  lemma AllMovesExact(b: Board, p: Player, m: Move)
    ensures m in AllMoves(b, p) <==>
      InBounds(m.from) && GetPiece(b, m.from) == Occupied(p) && m in FromTile(b, m.from)
  {
    if InBounds(m.from) && GetPiece(b, m.from) == Occupied(p) && m in FromTile(b, m.from) {
      AllMovesFromContains(b, p, 0, m.from, m);
    }
    if m in AllMoves(b, p) {
      AllMovesMember(b, p, 0, m);
    }
  }

  lemma {:induction false} AllMovesMember(b: Board, p: Player, i: nat, m: Move)
    requires i <= CellCount && m in AllMovesFrom(b, p, i)
    ensures InBounds(m.from) && m in FromTile(b, m.from)
    decreases CellCount - i
  {
    var c := Cell(i);
    var tileMoves := if GetPiece(b, c) == Occupied(p) then FromTile(b, c) else [];
    if m !in tileMoves {
      AllMovesMember(b, p, i + 1, m);
    }
  }

  /** Every move the generator offers player `p` can be done and undone on `b`. */
  lemma AllMovesReversible(b: Board, p: Player)
    ensures forall m :: m in AllMoves(b, p) ==> Reversible(b, m)
  {
    forall m | m in AllMoves(b, p)
      ensures Reversible(b, m)
    {
      LegalIsReversible(b, m.from, m);
    }
  }

  /** A piece may stop after any jump: every prefix of a returned jump chain that holds
      at least one jump is itself returned. */
  lemma JumpPrefixesFound(b: Board, origin: Coord, m: Move, n: nat)
    requires InBounds(origin) && m in Search(b, origin, Initial(origin), false)
    requires JumpChain(b, m.path) && 2 <= n <= |m.path|
    ensures Move(origin, m.path[n - 1], m.path[..n]) in Search(b, origin, Initial(origin), false)
  {
    SearchIsExact(b, origin, m);
    PrefixLegal(b, origin, m, n);
    SearchIsExact(b, origin, Move(origin, m.path[n - 1], m.path[..n]));
  }

  /** The jump chain of a legal move cut after its (n-1)-th jump is a legal move. */
  lemma PrefixLegal(b: Board, origin: Coord, m: Move, n: nat)
    requires LegalMove(b, origin, m) && JumpChain(b, m.path) && 2 <= n <= |m.path|
    ensures LegalMove(b, origin, Move(origin, m.path[n - 1], m.path[..n]))
  {
    assert JumpOk(b, m.path[0], m.path[1]);
    assert Distinct(m.path);
    PrefixChain(b, m.path, n);
    PrefixDistinct(m.path, n);
    assert m.path[..n][0] == origin;
  }

  lemma PrefixChain(b: Board, path: seq<Coord>, n: nat)
    requires JumpChain(b, path) && 2 <= n <= |path|
    ensures JumpChain(b, path[..n])
  {
    var prefix := path[..n];
    forall i | 0 <= i < |prefix| - 1
      ensures JumpOk(b, prefix[i], prefix[i + 1])
    {
      assert prefix[i] == path[i] && prefix[i + 1] == path[i + 1];
    }
  }

  lemma PrefixDistinct(path: seq<Coord>, n: nat)
    requires Distinct(path) && n <= |path|
    ensures Distinct(path[..n])
  {
  }

  /** A jump passes over an occupied neighbour of its start cell. */
  lemma JumpOverNeighbour(b: Board, a: Coord, c: Coord) returns (k: nat)
    requires JumpOk(b, a, c)
    ensures k < |Offsets| && InBounds(Shift(a, Offsets[k], 1))
    ensures GetPiece(b, Shift(a, Offsets[k], 1)) != Empty
  {
    k := DirectionOf(Coord((c.x - a.x) / 2, (c.y - a.y) / 2));
    assert Shift(a, Offsets[k], 1) == Midpoint(a, c);
  }

  /** With no occupied neighbour there is nothing to jump over: a lone piece only steps. */
  lemma LonePieceOnlySteps(b: Board, origin: Coord, m: Move)
    requires InBounds(origin)
    requires forall k :: 0 <= k < |Offsets| && InBounds(Shift(origin, Offsets[k], 1)) ==>
      GetPiece(b, Shift(origin, Offsets[k], 1)) == Empty
    requires m in FromTile(b, origin)
    ensures |m.path| == 2 && StepOk(b, origin, m.to)
  {
    assert LegalMove(b, origin, m);
    if !(|m.path| == 2 && StepOk(b, origin, m.to)) {
      assert JumpOk(b, m.path[0], m.path[1]);
      var k := JumpOverNeighbour(b, origin, m.path[1]);
    }
  }
}
