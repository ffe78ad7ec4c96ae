/**
 Graph queries over the board: the cells a player may grow into, the roots
 still connected to a player's tree, and what a player can see through the
 fog of war. All of them are built on hex adjacency.
 */
module Territory {
  import opened Hex
  import opened Tiles

  // ---------------------------------------------------------------------------
  // Growth frontier

  /** `p` is on the board and owned by `player`. */
  predicate OwnedBy(b: Board, player: int, p: Pos) {
    InBounds(b, p) && At(b, p).owner == player
  }

  /** Some tile owned by `player` lists `q` among its six neighbours. */
  predicate NextToOwned(b: Board, zeroIsOddColumn: bool, player: int, q: Pos) {
    exists x, y :: 0 <= x < Width(b) && 0 <= y < Height(b) &&
      b[x][y].owner == player && q in Adjacent(zeroIsOddColumn, Pos(x, y))
  }

  /**
   A tile nobody may grow into: the player's own, a mountain, a cell off the
   map, or the rabbit's cell.
   */
  predicate Blocked(t: Tile, player: int) {
    t.owner == player || t.ground == Ground.Mountain || t.ground == Ground.None
    || t.above == Above.Rabbit
  }

  /**
   `q` is a legal root-growth target for `player`: on the board, next to one
   of the player's tiles, and not blocked. Opponents' roots and trees and dead
   roots are targets too.
   */
  predicate IsGrowthTarget(b: Board, zeroIsOddColumn: bool, player: int, q: Pos) {
    InBounds(b, q) && NextToOwned(b, zeroIsOddColumn, player, q) && !Blocked(At(b, q), player)
  }

  /** The set of legal growth targets, as a set comprehension. */
  function GrowthFrontier(b: Board, zeroIsOddColumn: bool, player: int): (r: set<Pos>)
    ensures forall q :: q in r <==> IsGrowthTarget(b, zeroIsOddColumn, player, q)
  {
    set x, y | 0 <= x < Width(b) && 0 <= y < Height(b)
      && IsGrowthTarget(b, zeroIsOddColumn, player, Pos(x, y)) :: Pos(x, y)
  }

  /**
   Column-major prefix of the board: cells scanned before `(x, y)`. A named
   wrapper of `ScansBefore` so that the loop invariants have a trigger.
   */
  predicate Scanned(p: Pos, x: int, y: int) {
    ScansBefore(p, Pos(x, y))
  }

  /** `q` is a neighbour on the board of an owned tile scanned before `(x, y)`. */
  ghost predicate NextToOwnedBefore(b: Board, zeroIsOddColumn: bool, player: int, q: Pos, x: int, y: int) {
    InBounds(b, q) &&
    exists p :: Scanned(p, x, y) && OwnedBy(b, player, p) && q in Adjacent(zeroIsOddColumn, p)
  }

  /** The in-bounds neighbours of `p` (the effect of `TryAdd` on each of them). */
  function NeighboursOnBoard(b: Board, zeroIsOddColumn: bool, p: Pos): (r: set<Pos>)
    ensures forall q :: q in r <==> q in Adjacent(zeroIsOddColumn, p) && InBounds(b, q)
  {
    set q | q in Adjacent(zeroIsOddColumn, p) && InBounds(b, q)
  }

  /** Scanning cell `(x, y)` adds exactly its on-board neighbours when it is owned. */
  lemma NextToOwnedBeforeStep(b: Board, zeroIsOddColumn: bool, player: int, x: int, y: int, q: Pos)
    requires 0 <= x < Width(b) && 0 <= y < Height(b)
    ensures NextToOwnedBefore(b, zeroIsOddColumn, player, q, x, y + 1) <==>
      NextToOwnedBefore(b, zeroIsOddColumn, player, q, x, y)
      || (b[x][y].owner == player && q in NeighboursOnBoard(b, zeroIsOddColumn, Pos(x, y)))
  {
    var p := Pos(x, y);
    if b[x][y].owner == player && q in NeighboursOnBoard(b, zeroIsOddColumn, p) {
      assert Scanned(p, x, y + 1) && OwnedBy(b, player, p);
    }
    if NextToOwnedBefore(b, zeroIsOddColumn, player, q, x, y + 1) {
      var w :| Scanned(w, x, y + 1) && OwnedBy(b, player, w) && q in Adjacent(zeroIsOddColumn, w);
      if w != p {
        assert Scanned(w, x, y);
      }
    }
  }

  /** Finishing column `x` is the same as starting column `x + 1`. */
  lemma NextToOwnedBeforeColumn(b: Board, zeroIsOddColumn: bool, player: int, x: int, q: Pos)
    requires 0 <= x < Width(b)
    ensures NextToOwnedBefore(b, zeroIsOddColumn, player, q, x, Height(b)) <==>
      NextToOwnedBefore(b, zeroIsOddColumn, player, q, x + 1, 0)
  {
    if NextToOwnedBefore(b, zeroIsOddColumn, player, q, x + 1, 0) {
      var w :| Scanned(w, x + 1, 0) && OwnedBy(b, player, w) && q in Adjacent(zeroIsOddColumn, w);
      assert Scanned(w, x, Height(b));
    }
  }

  /** Once the whole board is scanned, the collected cells are the on-board neighbours of owned tiles. */
  lemma NextToOwnedBeforeAll(b: Board, zeroIsOddColumn: bool, player: int, q: Pos)
    ensures NextToOwnedBefore(b, zeroIsOddColumn, player, q, Width(b), 0) <==>
      InBounds(b, q) && NextToOwned(b, zeroIsOddColumn, player, q)
  {
    if NextToOwnedBefore(b, zeroIsOddColumn, player, q, Width(b), 0) {
      ScannedNextToOwned(b, zeroIsOddColumn, player, q);
    }
    if InBounds(b, q) && NextToOwned(b, zeroIsOddColumn, player, q) {
      NextToOwnedScanned(b, zeroIsOddColumn, player, q);
    }
  }

  /** A cell collected by the full scan is next to an owned tile. */
  lemma ScannedNextToOwned(b: Board, zeroIsOddColumn: bool, player: int, q: Pos)
    requires NextToOwnedBefore(b, zeroIsOddColumn, player, q, Width(b), 0)
    ensures InBounds(b, q) && NextToOwned(b, zeroIsOddColumn, player, q)
  {
    var w :| Scanned(w, Width(b), 0) && OwnedBy(b, player, w) && q in Adjacent(zeroIsOddColumn, w);
    assert 0 <= w.x < Width(b) && 0 <= w.y < Height(b) && b[w.x][w.y].owner == player;
  }

  /** An on-board cell next to an owned tile is collected by the full scan. */
  lemma NextToOwnedScanned(b: Board, zeroIsOddColumn: bool, player: int, q: Pos)
    requires InBounds(b, q) && NextToOwned(b, zeroIsOddColumn, player, q)
    ensures NextToOwnedBefore(b, zeroIsOddColumn, player, q, Width(b), 0)
  {
    var i, j :| 0 <= i < Width(b) && 0 <= j < Height(b) &&
      b[i][j].owner == player && q in Adjacent(zeroIsOddColumn, Pos(i, j));
    var p := Pos(i, j);
    assert At(b, p) == b[i][j];
    assert Scanned(p, Width(b), 0) && OwnedBy(b, player, p);
  }

  /** First pass of the engine's frontier computation: the on-board neighbours of every owned tile. */
  method CollectNeighbours(b: Board, zeroIsOddColumn: bool, player: int) returns (s: set<Pos>)
    ensures forall q :: q in s <==> InBounds(b, q) && NextToOwned(b, zeroIsOddColumn, player, q)
  {
    s := {};
    var x := 0;
    while x < Width(b)
      invariant 0 <= x <= Width(b)
      invariant forall q :: q in s <==> NextToOwnedBefore(b, zeroIsOddColumn, player, q, x, 0)
    {
      var y := 0;
      while y < Height(b)
        invariant 0 <= y <= Height(b)
        invariant forall q :: q in s <==> NextToOwnedBefore(b, zeroIsOddColumn, player, q, x, y)
      {
        forall q {
          NextToOwnedBeforeStep(b, zeroIsOddColumn, player, x, y, q);
        }
        if b[x][y].owner == player {
          s := s + NeighboursOnBoard(b, zeroIsOddColumn, Pos(x, y));
        }
        y := y + 1;
      }
      forall q {
        NextToOwnedBeforeColumn(b, zeroIsOddColumn, player, x, q);
      }
      x := x + 1;
    }
    forall q {
      NextToOwnedBeforeAll(b, zeroIsOddColumn, player, q);
    }
  }

  /** Second pass of the engine's frontier computation: drop every blocked on-board cell. */
  method RemoveBlocked(b: Board, player: int, s0: set<Pos>) returns (s: set<Pos>)
    requires forall q :: q in s0 ==> InBounds(b, q)
    ensures forall q :: q in s <==> q in s0 && !Blocked(At(b, q), player)
  {
    s := s0;
    var x := 0;
    while x < Width(b)
      invariant 0 <= x <= Width(b)
      invariant forall q :: q in s <==> q in s0 && !(Scanned(q, x, 0) && Blocked(At(b, q), player))
    {
      var y := 0;
      while y < Height(b)
        invariant 0 <= y <= Height(b)
        invariant forall q :: q in s <==> q in s0 && !(Scanned(q, x, y) && Blocked(At(b, q), player))
      {
        if Blocked(b[x][y], player) {
          s := s - {Pos(x, y)};
        }
        y := y + 1;
      }
      x := x + 1;
    }
  }

  /**
   The engine's two-pass computation: first collect the on-board neighbours of
   every owned tile, then remove every blocked tile. Its result is exactly the
   set of legal growth targets.
   */
  method ValidRootGrowthTiles(b: Board, zeroIsOddColumn: bool, player: int) returns (valid: set<Pos>)
    ensures forall q :: q in valid <==> IsGrowthTarget(b, zeroIsOddColumn, player, q)
    ensures valid == GrowthFrontier(b, zeroIsOddColumn, player)
  {
    var collected := CollectNeighbours(b, zeroIsOddColumn, player);
    valid := RemoveBlocked(b, player, collected);
  }

  // ---------------------------------------------------------------------------
  // Connected roots

  /** One step of the root search: `q` neighbours `p` and is the player's on the board. */
  predicate Step(b: Board, zeroIsOddColumn: bool, player: int, p: Pos, q: Pos) {
    q in Adjacent(zeroIsOddColumn, p) && OwnedBy(b, player, q)
  }

  /** A walk that starts on the board and then moves only onto the player's tiles. */
  ghost predicate IsRootPath(b: Board, zeroIsOddColumn: bool, player: int, path: seq<Pos>) {
    |path| >= 1 && InBounds(b, path[0]) &&
    forall k :: 0 <= k < |path| - 1 ==> Step(b, zeroIsOddColumn, player, path[k], path[k + 1])
  }

  /** `q` is reachable from `origin` through the player's tiles. */
  ghost predicate Reaches(b: Board, zeroIsOddColumn: bool, player: int, origin: Pos, q: Pos) {
    exists path :: IsRootPath(b, zeroIsOddColumn, player, path) && path[0] == origin && path[|path| - 1] == q
  }

  /** A set no step leads out of, except possibly from the cells still to explore. */
  ghost predicate ClosedOutside(b: Board, zeroIsOddColumn: bool, player: int, s: set<Pos>, pending: seq<Pos>) {
    forall p, q :: p in s && p !in pending && Step(b, zeroIsOddColumn, player, p, q) ==> q in s
  }

  lemma ReachesOrigin(b: Board, zeroIsOddColumn: bool, player: int, origin: Pos)
    requires InBounds(b, origin)
    ensures Reaches(b, zeroIsOddColumn, player, origin, origin)
  {
    assert IsRootPath(b, zeroIsOddColumn, player, [origin]);
  }

  lemma {:induction false} ReachesStep(b: Board, zeroIsOddColumn: bool, player: int, origin: Pos, p: Pos, q: Pos)
    requires Reaches(b, zeroIsOddColumn, player, origin, p)
    requires Step(b, zeroIsOddColumn, player, p, q)
    ensures Reaches(b, zeroIsOddColumn, player, origin, q)
  {
    var path :| IsRootPath(b, zeroIsOddColumn, player, path) && path[0] == origin && path[|path| - 1] == p;
    var longer := path + [q];
    assert forall k :: 0 <= k < |path| ==> longer[k] == path[k];
    assert IsRootPath(b, zeroIsOddColumn, player, longer);
  }

  /** Reachable cells are on the board. */
  lemma ReachesInBounds(b: Board, zeroIsOddColumn: bool, player: int, origin: Pos, q: Pos)
    requires Reaches(b, zeroIsOddColumn, player, origin, q)
    ensures InBounds(b, origin) && InBounds(b, q)
  {
    var path :| IsRootPath(b, zeroIsOddColumn, player, path) && path[0] == origin && path[|path| - 1] == q;
    if |path| > 1 {
      assert Step(b, zeroIsOddColumn, player, path[|path| - 2], path[|path| - 1]);
    }
  }

  /** A step-closed set holding the start of a root path holds all of it. */
  lemma {:induction false} ClosedHoldsPath(b: Board, zeroIsOddColumn: bool, player: int, s: set<Pos>, path: seq<Pos>)
    requires IsRootPath(b, zeroIsOddColumn, player, path) && path[0] in s
    requires ClosedOutside(b, zeroIsOddColumn, player, s, [])
    ensures path[|path| - 1] in s
    decreases |path|
  {
    if |path| > 1 {
      var prefix := path[..|path| - 1];
      assert forall k :: 0 <= k < |prefix| ==> prefix[k] == path[k];
      assert IsRootPath(b, zeroIsOddColumn, player, prefix);
      ClosedHoldsPath(b, zeroIsOddColumn, player, s, prefix);
      assert Step(b, zeroIsOddColumn, player, path[|path| - 2], path[|path| - 1]);
    }
  }

  /** The candidates among `cands` that are the player's on the board and not yet visited. */
  function FreshRoots(b: Board, player: int, visited: set<Pos>, cands: seq<Pos>): (r: seq<Pos>)
    ensures forall q :: q in r <==> q in cands && OwnedBy(b, player, q) && q !in visited
  {
    if cands == [] then []
    else
      var rest := FreshRoots(b, player, visited, cands[1..]);
      if OwnedBy(b, player, cands[0]) && cands[0] !in visited then [cands[0]] + rest else rest
  }

  /** What the worklist exploration keeps true between steps. */
  ghost predicate ExploreInvariant(b: Board, zeroIsOddColumn: bool, player: int, origin: Pos,
                                   visited: set<Pos>, pending: seq<Pos>) {
    && visited <= AllCells(b)
    && (forall q :: q in pending ==> q in visited)
    && (forall q :: q in visited ==> Reaches(b, zeroIsOddColumn, player, origin, q))
    && ClosedOutside(b, zeroIsOddColumn, player, visited, pending)
  }

  /**
   Examining the first pending cell keeps the invariant, and either finds
   new cells (fewer unvisited cells remain) or shortens the worklist.
   */
  lemma ExploreStep(b: Board, zeroIsOddColumn: bool, player: int, origin: Pos,
                    visited: set<Pos>, pending: seq<Pos>, found: seq<Pos>)
    requires ExploreInvariant(b, zeroIsOddColumn, player, origin, visited, pending)
    requires pending != []
    requires found == FreshRoots(b, player, visited, Adjacent(zeroIsOddColumn, pending[0]))
    ensures (visited + (set q | q in found)) <= AllCells(b)
    ensures forall q :: q in (pending[1..] + found) ==> q in (visited + (set q | q in found))
    ensures forall q :: q in (visited + (set q | q in found)) ==> Reaches(b, zeroIsOddColumn, player, origin, q)
    ensures ClosedOutside(b, zeroIsOddColumn, player, (visited + (set q | q in found)), (pending[1..] + found))
    ensures found != [] ==> |AllCells(b) - (visited + (set q | q in found))| < |AllCells(b) - visited|
  {
    var visited' := visited + (set q | q in found);
    var pending' := pending[1..] + found;
    ExploreStepReaches(b, zeroIsOddColumn, player, origin, visited, pending[0], found);
    ExploreStepClosed(b, zeroIsOddColumn, player, visited, pending, found);
    assert visited' <= AllCells(b) by {
      forall q | q in found ensures q in AllCells(b) {
        assert OwnedBy(b, player, q);
      }
    }
    assert forall q :: q in pending' ==> q in visited' by {
      forall q | q in pending' ensures q in visited' {
        assert q in pending[1..] || q in found;
      }
    }
    if found != [] {
      assert found[0] in found;
      ExploreStepShrinks(b, visited, found);
    }
  }

  lemma ExploreStepReaches(b: Board, zeroIsOddColumn: bool, player: int, origin: Pos,
                           visited: set<Pos>, p: Pos, found: seq<Pos>)
    requires p in visited
    requires forall q :: q in visited ==> Reaches(b, zeroIsOddColumn, player, origin, q)
    requires found == FreshRoots(b, player, visited, Adjacent(zeroIsOddColumn, p))
    ensures forall q :: q in visited + (set q | q in found) ==> Reaches(b, zeroIsOddColumn, player, origin, q)
  {
    forall q | q in found ensures Reaches(b, zeroIsOddColumn, player, origin, q) {
      ReachesStep(b, zeroIsOddColumn, player, origin, p, q);
    }
  }

  lemma ExploreStepClosed(b: Board, zeroIsOddColumn: bool, player: int,
                          visited: set<Pos>, pending: seq<Pos>, found: seq<Pos>)
    requires pending != [] && pending[0] in visited
    requires ClosedOutside(b, zeroIsOddColumn, player, visited, pending)
    requires found == FreshRoots(b, player, visited, Adjacent(zeroIsOddColumn, pending[0]))
    ensures ClosedOutside(b, zeroIsOddColumn, player, visited + (set q | q in found), pending[1..] + found)
  {
    var p := pending[0];
    var visited' := visited + (set q | q in found);
    var pending' := pending[1..] + found;
    forall u, q | u in visited' && u !in pending' && Step(b, zeroIsOddColumn, player, u, q)
      ensures q in visited'
    {
      assert u !in found;
      assert u in visited;
    }
  }

  lemma ExploreStepShrinks(b: Board, visited: set<Pos>, found: seq<Pos>)
    requires found != [] && InBounds(b, found[0]) && found[0] !in visited
    ensures |AllCells(b) - (visited + (set q | q in found))| < |AllCells(b) - visited|
  {
    var before := AllCells(b) - visited;
    var after := AllCells(b) - (visited + (set q | q in found));
    assert found[0] in before;
    assert after <= before - {found[0]};
    SubsetSize(after, before - {found[0]});
  }

  lemma {:induction false} SubsetSize<T>(a: set<T>, b: set<T>)
    requires a <= b
    ensures |a| <= |b|
    decreases a
  {
    if a != {} {
      var x :| x in a;
      SubsetSize(a - {x}, b - {x});
    }
  }

  /**
   Worklist exploration: `visited` holds every cell found so far, `pending`
   those whose neighbours are still to be examined.
   */
  function Explore(b: Board, zeroIsOddColumn: bool, player: int, ghost origin: Pos,
                   visited: set<Pos>, pending: seq<Pos>): (r: set<Pos>)
    requires ExploreInvariant(b, zeroIsOddColumn, player, origin, visited, pending)
    ensures visited <= r
    ensures forall q :: q in r ==> Reaches(b, zeroIsOddColumn, player, origin, q)
    ensures ClosedOutside(b, zeroIsOddColumn, player, r, [])
    decreases |AllCells(b) - visited|, |pending|
  {
    if pending == [] then visited
    else
      var found := FreshRoots(b, player, visited, Adjacent(zeroIsOddColumn, pending[0]));
      ExploreStep(b, zeroIsOddColumn, player, origin, visited, pending, found);
      Explore(b, zeroIsOddColumn, player, origin, visited + (set q | q in found), pending[1..] + found)
  }

  /**
   The roots connected to `origin` (normally the player's tree): the origin
   itself when it is on the board, and every tile of the player reachable
   from it through neighbouring tiles of the player.
   */
  function ConnectedRoots(b: Board, zeroIsOddColumn: bool, origin: Pos, player: int): (r: set<Pos>)
    ensures forall q :: q in r <==> Reaches(b, zeroIsOddColumn, player, origin, q)
    ensures r <= AllCells(b)
    ensures InBounds(b, origin) <==> origin in r
  {
    if !InBounds(b, origin) then
      assert forall q :: !Reaches(b, zeroIsOddColumn, player, origin, q) by {
        forall q | Reaches(b, zeroIsOddColumn, player, origin, q) ensures false {
          ReachesInBounds(b, zeroIsOddColumn, player, origin, q);
        }
      }
      {}
    else
      ReachesOrigin(b, zeroIsOddColumn, player, origin);
      assert ExploreInvariant(b, zeroIsOddColumn, player, origin, {origin}, [origin]);
      var r := Explore(b, zeroIsOddColumn, player, origin, {origin}, [origin]);
      assert forall q :: Reaches(b, zeroIsOddColumn, player, origin, q) ==> q in r by {
        forall q | Reaches(b, zeroIsOddColumn, player, origin, q) ensures q in r {
          var path :| IsRootPath(b, zeroIsOddColumn, player, path) && path[0] == origin && path[|path| - 1] == q;
          ClosedHoldsPath(b, zeroIsOddColumn, player, r, path);
        }
      }
      assert r <= AllCells(b) by {
        forall q | q in r ensures q in AllCells(b) {
          ReachesInBounds(b, zeroIsOddColumn, player, origin, q);
        }
      }
      r
  }

  // ---------------------------------------------------------------------------
  // Vision and fog of war

  /**
   `q` is within two neighbour steps of `p`. The middle cell may be off the
   board, even in column -1, where the truncated remainder decides its shift.
   */
  predicate WithinTwoSteps(zeroIsOddColumn: bool, p: Pos, q: Pos) {
    q == p || q in Adjacent(zeroIsOddColumn, p) ||
    exists i :: 0 <= i < 6 && q in Adjacent(zeroIsOddColumn, Adjacent(zeroIsOddColumn, p)[i])
  }

  /** Some tile of the player has `q` within two steps. */
  predicate SeenFromOwned(b: Board, zeroIsOddColumn: bool, player: int, q: Pos) {
    exists x, y :: 0 <= x < Width(b) && 0 <= y < Height(b) &&
      b[x][y].owner == player && WithinTwoSteps(zeroIsOddColumn, Pos(x, y), q)
  }

  /** The cells the player sees: on the board and within two steps of one of its tiles. */
  function SeenTiles(b: Board, zeroIsOddColumn: bool, player: int): (r: set<Pos>)
    ensures forall q :: q in r <==> (InBounds(b, q) && SeenFromOwned(b, zeroIsOddColumn, player, q))
  {
    set q | q in AllCells(b) && SeenFromOwned(b, zeroIsOddColumn, player, q)
  }

  /**
   The cells hidden from the player: none when fog of war is off; otherwise
   every unseen cell that is on the map and does not hold a tree.
   */
  function FogPositions(b: Board, zeroIsOddColumn: bool, fogOfWar: bool, player: int): (r: set<Pos>)
    ensures !fogOfWar ==> r == {}
    ensures fogOfWar ==> forall q :: q in r <==>
      InBounds(b, q) && q !in SeenTiles(b, zeroIsOddColumn, player)
      && At(b, q).above != Above.Tree && At(b, q).ground != Ground.None
  {
    if !fogOfWar then {}
    else
      var seen := SeenTiles(b, zeroIsOddColumn, player);
      set x, y | 0 <= x < Width(b) && 0 <= y < Height(b) && Pos(x, y) !in seen
        && b[x][y].above != Above.Tree && b[x][y].ground != Ground.None :: Pos(x, y)
  }

  /** A player always sees its own tiles, so fog never covers them. */
  lemma OwnTilesNeverFogged(b: Board, zeroIsOddColumn: bool, fogOfWar: bool, player: int, q: Pos)
    requires OwnedBy(b, player, q)
    ensures q in SeenTiles(b, zeroIsOddColumn, player)
    ensures q !in FogPositions(b, zeroIsOddColumn, fogOfWar, player)
  {
    assert WithinTwoSteps(zeroIsOddColumn, Pos(q.x, q.y), q);
  }

  /** Fog never hides a legal growth target: every target neighbours one of the player's tiles. */
  lemma GrowthTargetsVisible(b: Board, zeroIsOddColumn: bool, fogOfWar: bool, player: int, q: Pos)
    requires IsGrowthTarget(b, zeroIsOddColumn, player, q)
    ensures q in SeenTiles(b, zeroIsOddColumn, player)
    ensures q !in FogPositions(b, zeroIsOddColumn, fogOfWar, player)
  {
    var x, y :| 0 <= x < Width(b) && 0 <= y < Height(b) &&
      b[x][y].owner == player && q in Adjacent(zeroIsOddColumn, Pos(x, y));
    assert WithinTwoSteps(zeroIsOddColumn, Pos(x, y), q);
  }
}
