/**
 The turn-based engine: construction, the single player action (growing a
 root), turn hand-over with root pruning and the rabbit's move, victory
 detection and a player leaving the match.
 */
module Engine {
  import opened Hex
  import opened Tiles
  import opened Territory
  import opened Economy
  import opened Rabbit
  import W = Wrappers

  datatype PlayerAction = GrowRoot

  /** Match settings, fixed at construction. The map name is only used to load the map. */
  datatype GameParameters = GameParameters(
    numPlayers: Byte,
    tilesForVictory: int,
    fogOfWarEnabled: bool,
    rabbitEnabled: bool,
    firstPlayerFirstTurnCount: int,
    playerDefaultTurnCount: int)

  const DefaultParameters := GameParameters(2, 20, false, true, 1, 2)

  /** The engine's whole state. `victoryPlayer` is -1 while the match goes on. */
  datatype Game = Game(
    parameters: GameParameters,
    tiles: Board,
    zeroIsOddColumn: bool,
    ledger: Ledger,
    turnNumber: int,
    remainingMoves: int,
    currentPlayer: SByte,
    victoryPlayer: SByte)

  predicate GameOver(g: Game) {
    g.victoryPlayer >= 0
  }

  function NumPlayers(g: Game): int {
    g.parameters.numPlayers
  }

  /**
   The shape every running match has: between 1 and 127 players (player ids
   are `sbyte`s), one record per player whose id is its index, and a current
   player among them.
   */
  predicate WellFormed(g: Game) {
    && 1 <= NumPlayers(g) <= 127
    && |g.ledger.players| == NumPlayers(g)
    && 0 <= g.currentPlayer < NumPlayers(g)
    && (forall i :: 0 <= i < |g.ledger.players| ==> g.ledger.players[i].id == i)
  }

  // ---------------------------------------------------------------------------
  // Construction

  /** Every player starts with the default allotment and a territory count of 1. */
  function InitialPlayers(parameters: GameParameters): (r: seq<Player>)
    requires parameters.numPlayers <= 127
    ensures |r| == parameters.numPlayers
    ensures forall i :: 0 <= i < |r| ==>
      r[i].id == i && r[i].tilesControlled == 1 && r[i].numMoves == parameters.playerDefaultTurnCount
  {
    seq(parameters.numPlayers, i requires 0 <= i < parameters.numPlayers =>
      Player(i, 1, parameters.playerDefaultTurnCount))
  }

  /**
   A new match: player 0 moves first with the first-turn allotment, nobody has
   won, and without the hazard the map is stripped of rabbits and carrots.
   More than 127 players overflow the `sbyte` loop counter, so they are excluded.
   */
  function NewGame(parameters: GameParameters, initial: Board, zeroIsOddColumn: bool): (g: Game)
    requires parameters.numPlayers <= 127
    ensures g.parameters == parameters && g.zeroIsOddColumn == zeroIsOddColumn
    ensures g.currentPlayer == 0 && g.turnNumber == 0 && !GameOver(g)
    ensures g.remainingMoves == parameters.firstPlayerFirstTurnCount
    ensures !g.ledger.rabbitEnraged
    ensures |g.ledger.players| == parameters.numPlayers
    ensures forall i :: 0 <= i < |g.ledger.players| ==>
      g.ledger.players[i] == Player(i, 1, parameters.playerDefaultTurnCount)
    ensures parameters.rabbitEnabled ==> g.tiles == initial
    ensures !parameters.rabbitEnabled ==>
      && Width(g.tiles) == Width(initial) && Height(g.tiles) == Height(initial)
      && (forall q :: InBounds(g.tiles, q) ==> !IsCarrot(At(g.tiles, q)) && !HasRabbit(At(g.tiles, q)))
      && g.tiles == RemoveRabbitAndCarrot(initial)
    ensures parameters.numPlayers >= 1 ==> WellFormed(g)
  {
    var tiles := if parameters.rabbitEnabled then initial else RemoveRabbitAndCarrot(initial);
    Game(parameters, tiles, zeroIsOddColumn, Ledger(InitialPlayers(parameters), false),
         0, parameters.firstPlayerFirstTurnCount, 0, -1)
  }

  // ---------------------------------------------------------------------------
  // Trees and victory

  predicate IsTreeOf(t: Tile, player: int) {
    t.owner == player && t.above == Above.Tree
  }

  /** The first tree of `player` in row-major order, if any. */
  function TreeOf(b: Board, player: int): (r: W.Option<Pos>)
    ensures r.Some? ==> InBounds(b, r.value) && IsTreeOf(At(b, r.value), player)
    ensures r.Some? ==> forall q :: InBounds(b, q) && RowScansBefore(q, r.value) ==> !IsTreeOf(At(b, q), player)
    ensures r.None? <==> forall q :: InBounds(b, q) ==> !IsTreeOf(At(b, q), player)
  {
    FirstCellByRows(b, t => IsTreeOf(t, player))
  }

  predicate HasTree(b: Board, player: int) {
    TreeOf(b, player).Some?
  }

  /** A board position holds a tree of `player` exactly when `HasTree` says so. */
  lemma HasTreeMeans(b: Board, player: int)
    ensures HasTree(b, player) <==> exists q :: InBounds(b, q) && IsTreeOf(At(b, q), player)
  {
  }

  predicate Qualifies(players: seq<Player>, goal: int, i: int)
    requires 0 <= i < |players|
  {
    players[i].tilesControlled >= goal
  }

  /** The index of the last player whose territory count reaches `goal`, or -1. */
  function LastQualifying(players: seq<Player>, goal: int): (r: int)
    ensures -1 <= r < |players|
    ensures r >= 0 ==> Qualifies(players, goal, r)
    ensures forall j :: r < j < |players| ==> !Qualifies(players, goal, j)
  {
    if |players| == 0 then -1
    else if Qualifies(players, goal, |players| - 1) then |players| - 1
    else
      var front := players[..|players| - 1];
      assert forall j :: 0 <= j < |front| ==> Qualifies(front, goal, j) == Qualifies(players, goal, j);
      LastQualifying(front, goal)
  }

  /** For each of the players `0 .. n-1`, whether it still holds a tree. */
  function Alive(b: Board, n: nat): (r: seq<bool>)
    ensures |r| == n && forall j :: 0 <= j < n ==> r[j] == HasTree(b, j)
  {
    seq(n, j requires 0 <= j < n => HasTree(b, j))
  }

  /** The indices of the `true` entries, in increasing order. */
  function Holders(alive: seq<bool>): (r: seq<int>)
    ensures forall i :: i in r <==> 0 <= i < |alive| && alive[i]
    ensures forall i, j :: 0 <= i < j < |r| ==> r[i] < r[j]
    ensures forall i :: 0 <= i < |r| ==> 0 <= r[i] < |alive|
  {
    if |alive| == 0 then []
    else
      var front := alive[..|alive| - 1];
      assert forall j :: 0 <= j < |front| ==> front[j] == alive[j];
      Holders(front) + (if alive[|alive| - 1] then [|alive| - 1] else [])
  }

  /** `w` is the only one of the `n` players still holding a tree. */
  ghost predicate SoleTreeHolder(b: Board, n: int, w: int) {
    0 <= w < n && HasTree(b, w) && forall j :: 0 <= j < n && j != w ==> !HasTree(b, j)
  }

  /**
   The winner, or -1. A territory win goes to the last player in the list
   whose count reaches the goal; failing that, the only player left with a
   tree wins by elimination.
   */
  function CheckVictory(players: seq<Player>, goal: int, b: Board, n: nat): (r: int)
    ensures (forall i :: 0 <= i < |players| ==> players[i].id == i) ==>
      && (forall k :: (0 <= k < |players| && Qualifies(players, goal, k)
            && (forall j :: k < j < |players| ==> !Qualifies(players, goal, j))) ==> r == k)
      && ((forall k :: 0 <= k < |players| ==> !Qualifies(players, goal, k)) ==>
            && (forall w :: SoleTreeHolder(b, n, w) ==> r == w)
            && ((forall w :: !SoleTreeHolder(b, n, w)) ==> r == -1))
  {
    var k := LastQualifying(players, goal);
    var victory := if k >= 0 then players[k].id else -1;
    if victory != -1 then victory
    else
      var holders := Holders(Alive(b, n));
      SoleHolderIsOnlyEntry(b, n, holders);
      if |holders| == 1 then holders[0] else -1
  }

  /** The tree-holder list has one entry exactly when one player holds a tree. */
  lemma SoleHolderIsOnlyEntry(b: Board, n: nat, holders: seq<int>)
    requires holders == Holders(Alive(b, n))
    ensures |holders| == 1 ==> SoleTreeHolder(b, n, holders[0])
    ensures forall w :: SoleTreeHolder(b, n, w) ==> |holders| == 1 && holders[0] == w
  {
    var alive := Alive(b, n);
    if |holders| == 1 {
      assert holders[0] in holders;
    }
    forall w | SoleTreeHolder(b, n, w) ensures |holders| == 1 && holders[0] == w {
      SoleEntryList(alive, w);
    }
  }

  /** With no `true` entry among the first `m`, the holder list of that prefix is empty. */
  lemma {:induction false} NoHolders(alive: seq<bool>, m: nat)
    requires m <= |alive| && forall j :: 0 <= j < m ==> !alive[j]
    ensures Holders(alive[..m]) == []
  {
    if m > 0 {
      NoHolders(alive, m - 1);
      assert alive[..m][..m - 1] == alive[..m - 1];
    }
  }

  /** When `w` is the only `true` entry, the holder list is exactly `[w]`. */
  lemma {:induction false} SoleEntryList(alive: seq<bool>, w: int)
    requires 0 <= w < |alive| && alive[w]
    requires forall j :: 0 <= j < |alive| && j != w ==> !alive[j]
    ensures Holders(alive) == [w]
    decreases |alive|
  {
    var n := |alive|;
    var front := alive[..n - 1];
    HoldersExtend(alive);
    if n - 1 == w {
      NoHolders(alive, n - 1);
    } else {
      SoleEntryList(front, w);
    }
  }

  /** The holder list of `alive` is that of all but its last entry, followed by that entry's index if it holds. */
  lemma HoldersExtend(alive: seq<bool>)
    requires |alive| > 0
    ensures var n := |alive|;
      Holders(alive) == Holders(alive[..n - 1]) + (if alive[n - 1] then [n - 1] else [])
  {
  }

  // ---------------------------------------------------------------------------
  // Growing a root

  /**
   The effect of a validated growth by `player` on `pos`. An unowned tile that
   is not a dead root becomes the player's root and the player collects its
   bonus. Any other tile not already the player's is stripped: it loses its
   owner, its occupant becomes the `Max` marker, and the previous owner loses
   the bonus. The bonus is judged on the tile as it was before the change.
   */
  function ApplyGrowth(b: Board, l: Ledger, player: SByte, pos: Pos): (r: (Board, Ledger))
    requires InBounds(b, pos) && 0 <= player < |l.players|
    requires Chargeable(At(b, pos), |l.players|)
    ensures Width(r.0) == Width(b) && Height(r.0) == Height(b)
    ensures forall q :: InBounds(b, q) && q != pos ==> At(r.0, q) == At(b, q)
    ensures SameRoster(r.1.players, l.players)
    ensures var t := At(b, pos);
      t.above != Above.TreeRootsDead && t.owner == NoOwner ==>
        && At(r.0, pos) == Tile(player, t.ground, Above.TreeRoots)
        && r.1.players[player].numMoves == l.players[player].numMoves + Bonus(t)
        && (forall j :: 0 <= j < |l.players| && j != player ==> r.1.players[j] == l.players[j])
        && (r.1.rabbitEnraged <==> l.rabbitEnraged || IsCarrot(t))
    ensures var t := At(b, pos);
      (t.above == Above.TreeRootsDead || t.owner != NoOwner) && t.owner != player ==>
        && At(r.0, pos) == Tile(NoOwner, t.ground, Above.Max)
        && (t.owner >= 0 && IsBonus(t) ==> r.1.players[t.owner].numMoves == l.players[t.owner].numMoves - 1)
        && (forall j :: 0 <= j < |l.players| && (j != t.owner || !IsBonus(t)) ==> r.1.players[j] == l.players[j])
        && (r.1.rabbitEnraged <==> l.rabbitEnraged && !(IsCarrot(t) && t.owner >= 0))
    ensures At(b, pos).owner == player ==> r == (b, l)
  {
    var t := At(b, pos);
    if t.above != Above.TreeRootsDead && t.owner == NoOwner then
      (Put(b, pos, t.(owner := player, above := Above.TreeRoots)), AddResource(l, player, t))
    else if t.owner != player then
      (Put(b, pos, t.(owner := NoOwner, above := Above.Max)), RemoveResource(l, t))
    else
      // Unreachable through DoAction: the player's own tiles are never growth targets.
      (b, l)
  }

  /** The current player's legal growth targets. */
  function ValidTargets(g: Game): (r: set<Pos>)
    ensures forall q :: q in r <==> IsGrowthTarget(g.tiles, g.zeroIsOddColumn, g.currentPlayer, q)
  {
    GrowthFrontier(g.tiles, g.zeroIsOddColumn, g.currentPlayer)
  }

  /** GrowRoot only indexes the player list through a target's owner as `Chargeable` allows. */
  predicate GrowRootDefined(g: Game, pos: Pos) {
    pos in ValidTargets(g) ==> Chargeable(At(g.tiles, pos), |g.ledger.players|)
  }

  /**
   A growth by the current player: refused, with nothing changed, unless
   `pos` is one of its legal targets.
   */
  function GrowRootStep(g: Game, pos: Pos): (r: (bool, Game))
    requires WellFormed(g) && GrowRootDefined(g, pos)
    ensures r.0 <==> pos in ValidTargets(g)
    ensures !r.0 ==> r.1 == g
    ensures Width(r.1.tiles) == Width(g.tiles) && Height(r.1.tiles) == Height(g.tiles)
    ensures r.0 ==> InBounds(g.tiles, pos)
    ensures r.0 ==> At(g.tiles, pos).owner != g.currentPlayer && At(r.1.tiles, pos) != At(g.tiles, pos)
    ensures r.0 ==> (r.1.tiles, r.1.ledger) == ApplyGrowth(g.tiles, g.ledger, g.currentPlayer, pos)
    ensures r.1 == g.(tiles := r.1.tiles, ledger := r.1.ledger)
    ensures WellFormed(r.1)
  {
    if pos !in ValidTargets(g) then (false, g)
    else
      var (b, l) := ApplyGrowth(g.tiles, g.ledger, g.currentPlayer, pos);
      (true, g.(tiles := b, ledger := l))
  }

  // ---------------------------------------------------------------------------
  // Turn hand-over

  /** The player after the current one, wrapping to 0. */
  function NextPlayer(g: Game): (r: SByte)
    requires WellFormed(g)
    ensures r == (g.currentPlayer + 1) % NumPlayers(g)
  {
    var n := NumPlayers(g);
    if g.currentPlayer + 1 >= n then
      ModSelf(n);
      0
    else
      ModBelow(g.currentPlayer + 1, n);
      g.currentPlayer + 1
  }

  /** A number below the modulus is its own remainder (kept apart from the game state, where the solver loses its way). */
  lemma ModBelow(x: int, n: int)
    requires 0 <= x < n
    ensures x % n == x
  {
  }

  /** The modulus leaves remainder 0. */
  lemma ModSelf(n: int)
    requires 0 < n
    ensures n % n == 0
  {
  }

  /** The rabbit's move, when the hazard is on. */
  function RabbitPhase(g: Game, choice: nat): (r: (Board, Ledger))
    requires !g.parameters.rabbitEnabled || MoveRabbitDefined(g.tiles, g.zeroIsOddColumn, g.ledger, choice)
    ensures Width(r.0) == Width(g.tiles) && Height(r.0) == Height(g.tiles)
    ensures SameRoster(r.1.players, g.ledger.players)
    ensures !g.parameters.rabbitEnabled ==> r == (g.tiles, g.ledger)
    ensures g.parameters.rabbitEnabled ==> r == MoveRabbit(g.tiles, g.zeroIsOddColumn, g.ledger, choice)
  {
    if g.parameters.rabbitEnabled then MoveRabbit(g.tiles, g.zeroIsOddColumn, g.ledger, choice)
    else (g.tiles, g.ledger)
  }

  /**
   What the hand-over needs: the rabbit's move is defined, and the incoming
   player still holds a tree after it (the engine dereferences the tree's
   position unchecked).
   */
  predicate NextTurnDefined(g: Game, choice: nat) {
    && WellFormed(g)
    && (!g.parameters.rabbitEnabled || MoveRabbitDefined(g.tiles, g.zeroIsOddColumn, g.ledger, choice))
    && HasTree(RabbitPhase(g, choice).0, NextPlayer(g))
  }

  /**
   The pruning done when `player`'s turn starts: every root of the player
   not connected to its first tree dies. Afterwards the tree is where it was
   and every remaining root of the player is reachable from it.
   */
  function PruneRoots(b: Board, zeroIsOddColumn: bool, l: Ledger, player: int): (r: (Board, Ledger))
    requires 0 <= player < |l.players| && HasTree(b, player)
    ensures Width(r.0) == Width(b) && Height(r.0) == Height(b)
    ensures SameRoster(r.1.players, l.players)
    ensures TreeOf(r.0, player) == TreeOf(b, player)
    ensures forall q :: OwnedBy(r.0, player, q) ==>
      Reaches(r.0, zeroIsOddColumn, player, TreeOf(r.0, player).value, q)
    ensures r == KillRoots(b, l, ConnectedRoots(b, zeroIsOddColumn, TreeOf(b, player).value, player), player)
  {
    var tree := TreeOf(b, player).value;
    var connected := ConnectedRoots(b, zeroIsOddColumn, tree, player);
    var (pruned, l') := KillRoots(b, l, connected, player);
    PruningKeepsTree(b, pruned, player, tree, connected);
    PrunedRootsConnected(b, pruned, zeroIsOddColumn, player, tree);
    (pruned, l')
  }

  /**
   Hands the turn to the next player: the turn counter advances, the rabbit
   moves, the incoming player's roots cut off from its tree die, and the
   player gets its full allotment. Afterwards every tile of the incoming
   player is connected to its tree.
   */
  function NextTurn(g: Game, choice: nat): (r: Game)
    requires NextTurnDefined(g, choice)
    ensures WellFormed(r)
    ensures r.turnNumber == g.turnNumber + 1
    ensures r.currentPlayer == NextPlayer(g) == (g.currentPlayer + 1) % NumPlayers(g)
    ensures r.remainingMoves == r.ledger.players[r.currentPlayer].numMoves
    ensures r.parameters == g.parameters && r.zeroIsOddColumn == g.zeroIsOddColumn
    ensures r.victoryPlayer == g.victoryPlayer
    ensures SameRoster(r.ledger.players, g.ledger.players)
    ensures HasTree(r.tiles, r.currentPlayer)
    ensures forall q :: OwnedBy(r.tiles, r.currentPlayer, q) ==>
      Reaches(r.tiles, r.zeroIsOddColumn, r.currentPlayer, TreeOf(r.tiles, r.currentPlayer).value, q)
    ensures var (moved, l1) := RabbitPhase(g, choice);
      (r.tiles, r.ledger) == PruneRoots(moved, g.zeroIsOddColumn, l1, NextPlayer(g))
  {
    var next := NextPlayer(g);
    var (moved, l1) := RabbitPhase(g, choice);
    var (pruned, l2) := PruneRoots(moved, g.zeroIsOddColumn, l1, next);
    var r := g.(tiles := pruned, ledger := l2, turnNumber := g.turnNumber + 1,
                currentPlayer := next, remainingMoves := l2.players[next].numMoves);
    RosterKeepsWellFormed(g, l1, r);
    r
  }

  /** Replacing the ledger by one with the same roster keeps a game well formed. */
  lemma RosterKeepsWellFormed(g: Game, mid: Ledger, r: Game)
    requires WellFormed(g) && r.parameters == g.parameters
    requires SameRoster(mid.players, g.ledger.players) && SameRoster(r.ledger.players, mid.players)
    requires 0 <= r.currentPlayer < NumPlayers(g)
    ensures WellFormed(r) && SameRoster(r.ledger.players, g.ledger.players)
  {
  }

  /**
   Pruning leaves the first tree in place and creates no tree, so the
   incoming player's first tree is where it was.
   */
  lemma PruningKeepsTree(b: Board, b': Board, player: int, tree: Pos, connected: set<Pos>)
    requires Width(b') == Width(b) && Height(b') == Height(b)
    requires TreeOf(b, player) == W.Some(tree) && tree in connected
    requires forall q :: InBounds(b, q) && Severed(b, connected, player, q) ==> At(b', q) == DeadRoot(At(b, q))
    requires forall q :: InBounds(b, q) && !Severed(b, connected, player, q) ==> At(b', q) == At(b, q)
    ensures TreeOf(b', player) == W.Some(tree)
  {
    assert IsTreeOf(At(b', tree), player);
    assert forall q :: InBounds(b', q) && IsTreeOf(At(b', q), player) ==> IsTreeOf(At(b, q), player);
  }

  /**
   After the roots cut off from `tree` are killed, every remaining root of the
   player is reachable from the tree: the paths that reached it survive.
   */
  lemma PrunedRootsConnected(b: Board, b': Board, zeroIsOddColumn: bool, player: int, tree: Pos)
    requires Width(b') == Width(b) && Height(b') == Height(b)
    requires forall q :: InBounds(b, q) && At(b', q).owner == player ==>
      q in ConnectedRoots(b, zeroIsOddColumn, tree, player)
    requires forall q :: InBounds(b, q) && q in ConnectedRoots(b, zeroIsOddColumn, tree, player) ==>
      At(b', q) == At(b, q)
    ensures forall q :: OwnedBy(b', player, q) ==> Reaches(b', zeroIsOddColumn, player, tree, q)
  {
    forall q | OwnedBy(b', player, q) ensures Reaches(b', zeroIsOddColumn, player, tree, q) {
      var path :| IsRootPath(b, zeroIsOddColumn, player, path) && path[0] == tree && path[|path| - 1] == q;
      RootPathSurvives(b, b', zeroIsOddColumn, player, tree, path);
    }
  }

  /** A root path from `tree` is still one once the cells connected to `tree` are left as they were. */
  lemma {:induction false} RootPathSurvives(b: Board, b': Board, zeroIsOddColumn: bool, player: int,
                                            tree: Pos, path: seq<Pos>)
    requires Width(b') == Width(b) && Height(b') == Height(b)
    requires forall q :: InBounds(b, q) && q in ConnectedRoots(b, zeroIsOddColumn, tree, player) ==>
      At(b', q) == At(b, q)
    requires IsRootPath(b, zeroIsOddColumn, player, path) && path[0] == tree
    ensures IsRootPath(b', zeroIsOddColumn, player, path)
    decreases |path|
  {
    if |path| > 1 {
      var n := |path|;
      var prefix := path[..n - 1];
      assert forall k :: 0 <= k < |prefix| ==> prefix[k] == path[k];
      assert IsRootPath(b, zeroIsOddColumn, player, prefix);
      RootPathSurvives(b, b', zeroIsOddColumn, player, tree, prefix);
      var last := path[n - 1];
      assert Step(b, zeroIsOddColumn, player, path[n - 2], last);
      assert Reaches(b, zeroIsOddColumn, player, tree, last);
      assert At(b', last) == At(b, last);
      assert Step(b', zeroIsOddColumn, player, path[n - 2], last);
      assert forall k :: 0 <= k < n - 2 ==> Step(b', zeroIsOddColumn, player, prefix[k], prefix[k + 1]);
    }
  }

  // ---------------------------------------------------------------------------
  // The action entry point

  /** The state after a successful growth, before any hand-over: winner recomputed, one move used. */
  function AfterGrowth(g: Game, pos: Pos): (r: Game)
    requires WellFormed(g) && GrowRootDefined(g, pos) && pos in ValidTargets(g)
    ensures WellFormed(r)
    ensures SameRoster(r.ledger.players, g.ledger.players)
    ensures r.parameters == g.parameters && r.zeroIsOddColumn == g.zeroIsOddColumn
    ensures r.currentPlayer == g.currentPlayer && r.turnNumber == g.turnNumber
    ensures r.tiles == GrowRootStep(g, pos).1.tiles && r.ledger == GrowRootStep(g, pos).1.ledger
    ensures r.remainingMoves == g.remainingMoves - 1
    ensures r.victoryPlayer == CheckVictory(r.ledger.players, g.parameters.tilesForVictory, r.tiles, NumPlayers(g))
  {
    var grown := GrowRootStep(g, pos).1;
    var winner := CheckVictory(grown.ledger.players, g.parameters.tilesForVictory, grown.tiles, NumPlayers(g));
    grown.(victoryPlayer := winner, remainingMoves := g.remainingMoves - 1)
  }

  /** What DoAction needs: GrowRoot is defined and so is the hand-over, if one follows. */
  predicate DoActionDefined(g: Game, pos: Pos, choice: nat) {
    && WellFormed(g)
    && GrowRootDefined(g, pos)
    && (pos in ValidTargets(g) && g.remainingMoves - 1 <= 0 ==> NextTurnDefined(AfterGrowth(g, pos), choice))
  }

  /** The result of an action: whether it was legal, and the state after it. */
  datatype Outcome = Outcome(valid: bool, game: Game)

  /**
   The single action entry point. An illegal target is refused and changes
   nothing. A legal one is applied, the winner is recomputed, one move is
   used, and when none are left the turn passes on. `choice` stands for the
   random draw the rabbit may make during the hand-over.
   */
  function DoAction(g: Game, action: PlayerAction, pos: Pos, choice: nat): (r: Outcome)
    requires DoActionDefined(g, pos, choice)
    ensures r.valid <==> pos in ValidTargets(g)
    ensures !r.valid ==> r.game == g
    ensures WellFormed(r.game)
    ensures r.game.parameters == g.parameters && r.game.zeroIsOddColumn == g.zeroIsOddColumn
    ensures r.valid ==> r.game.victoryPlayer == CheckVictory(
      GrowRootStep(g, pos).1.ledger.players, g.parameters.tilesForVictory,
      GrowRootStep(g, pos).1.tiles, NumPlayers(g))
    ensures r.valid && g.remainingMoves > 1 ==>
      && r.game.remainingMoves == g.remainingMoves - 1
      && r.game.currentPlayer == g.currentPlayer && r.game.turnNumber == g.turnNumber
      && r.game.tiles == GrowRootStep(g, pos).1.tiles
      && r.game.ledger == GrowRootStep(g, pos).1.ledger
    ensures r.valid && g.remainingMoves <= 1 ==> r.game == NextTurn(AfterGrowth(g, pos), choice)
  {
    match action
    case GrowRoot =>
      if pos !in ValidTargets(g) then Outcome(false, g)
      else Outcome(true, EndOfMove(AfterGrowth(g, pos), choice))
  }

  /**
   The move that uses the last of a player's moves hands the turn over: the
   turn counter advances, the next player is current, and it has its full
   allotment of moves.
   */
  lemma LastMoveHandsOver(g: Game, pos: Pos, choice: nat)
    requires DoActionDefined(g, pos, choice) && pos in ValidTargets(g) && g.remainingMoves <= 1
    ensures var r := DoAction(g, PlayerAction.GrowRoot, pos, choice).game;
      && r.turnNumber == g.turnNumber + 1
      && r.currentPlayer == NextPlayer(g)
      && r.remainingMoves == r.ledger.players[r.currentPlayer].numMoves
  {
    var g1 := AfterGrowth(g, pos);
    assert NextPlayer(g1) == NextPlayer(g);
  }

  /** No action changes the roster: the ids and territory counts stay as they were. */
  lemma ActionKeepsRoster(g: Game, action: PlayerAction, pos: Pos, choice: nat)
    requires DoActionDefined(g, pos, choice)
    ensures SameRoster(DoAction(g, action, pos, choice).game.ledger.players, g.ledger.players)
  {
    if pos in ValidTargets(g) {
      var g1 := AfterGrowth(g, pos);
      var g2 := EndOfMove(g1, choice);
      assert DoAction(g, action, pos, choice).game == g2;
      SameRosterTransitive(g2.ledger.players, g1.ledger.players, g.ledger.players);
    } else {
      assert DoAction(g, action, pos, choice).game == g;
    }
  }

  /** After a move: the turn passes on once the player has no moves left. */
  function EndOfMove(g: Game, choice: nat): (r: Game)
    requires WellFormed(g) && (g.remainingMoves <= 0 ==> NextTurnDefined(g, choice))
    ensures WellFormed(r)
    ensures SameRoster(r.ledger.players, g.ledger.players)
    ensures r.parameters == g.parameters && r.zeroIsOddColumn == g.zeroIsOddColumn
    ensures r.victoryPlayer == g.victoryPlayer
    ensures g.remainingMoves > 0 ==> r == g
    ensures g.remainingMoves <= 0 ==> r == NextTurn(g, choice)
    ensures g.remainingMoves <= 0 ==>
      && r.turnNumber == g.turnNumber + 1
      && r.currentPlayer == NextPlayer(g)
      && r.remainingMoves == r.ledger.players[r.currentPlayer].numMoves
  {
    if g.remainingMoves <= 0 then NextTurn(g, choice) else g
  }

  // ---------------------------------------------------------------------------
  // A player leaving

  /**
   A player leaving the match: its first tree (if any) is cleared to an
   empty, unowned cell. Its roots stay and die at its next turn.
   */
  function PlayerLeft(g: Game, player: SByte): (r: Game)
    ensures TreeOf(g.tiles, player).None? ==> r == g
    ensures r == g.(tiles := r.tiles)
    ensures Width(r.tiles) == Width(g.tiles) && Height(r.tiles) == Height(g.tiles)
    ensures TreeOf(g.tiles, player).Some? ==>
      var t := TreeOf(g.tiles, player).value;
      && At(r.tiles, t) == Tile(NoOwner, At(g.tiles, t).ground, Above.None)
      && forall q :: InBounds(g.tiles, q) && q != t ==> At(r.tiles, q) == At(g.tiles, q)
  {
    match TreeOf(g.tiles, player)
    case None => g
    case Some(t) => g.(tiles := Put(g.tiles, t, At(g.tiles, t).(owner := NoOwner, above := Above.None)))
  }

  /** `player` has at most one tree on the board. */
  ghost predicate AtMostOneTree(b: Board, player: int) {
    forall q, q' :: InBounds(b, q) && InBounds(b, q') && IsTreeOf(At(b, q), player) && IsTreeOf(At(b, q'), player) ==> q == q'
  }

  /**
   Leaving eliminates a player that had a single tree, and every other
   player keeps its tree where it was.
   */
  lemma LeavingEliminates(g: Game, player: SByte)
    requires AtMostOneTree(g.tiles, player)
    ensures !HasTree(PlayerLeft(g, player).tiles, player)
    ensures forall j :: j != player ==> TreeOf(PlayerLeft(g, player).tiles, j) == TreeOf(g.tiles, j)
  {
    var b := g.tiles;
    var b' := PlayerLeft(g, player).tiles;
    forall j | j != player ensures TreeOf(b', j) == TreeOf(b, j) {
      SameTreesSameFirst(b, b', j);
    }
  }

  /** Two boards of one shape with the same trees of `player` agree on its first tree. */
  lemma SameTreesSameFirst(b: Board, b': Board, player: int)
    requires Width(b') == Width(b) && Height(b') == Height(b)
    requires forall q :: InBounds(b, q) && At(b', q) != At(b, q) ==>
      !IsTreeOf(At(b', q), player) && !IsTreeOf(At(b, q), player)
    ensures TreeOf(b', player) == TreeOf(b, player)
  {
    assert forall q :: InBounds(b, q) ==> (IsTreeOf(At(b', q), player) <==> IsTreeOf(At(b, q), player));
  }

  /**
   Every player's territory count stays at its starting value of 1, so a
   goal above 1 is never reached: the winner is then decided by elimination
   alone.
   */
  lemma OnlyEliminationWins(players: seq<Player>, goal: int, b: Board, n: nat)
    requires forall i :: 0 <= i < |players| ==> players[i].id == i && players[i].tilesControlled == 1
    requires goal > 1
    ensures forall w :: SoleTreeHolder(b, n, w) ==> CheckVictory(players, goal, b, n) == w
    ensures (forall w :: !SoleTreeHolder(b, n, w)) ==> CheckVictory(players, goal, b, n) == -1
  {
    assert forall k :: 0 <= k < |players| ==> !Qualifies(players, goal, k);
  }

  /**
   Growing onto a free bonus tile and then having it cut by another player
   leaves the tile unowned and marked, and hands back exactly the move the
   capture earned.
   */
  lemma CaptureThenCutRestoresMoves(b: Board, l: Ledger, player: SByte, other: SByte, pos: Pos)
    requires InBounds(b, pos) && 0 <= player < |l.players| && 0 <= other < |l.players| && other != player
    requires At(b, pos).owner == NoOwner && At(b, pos).above != Above.TreeRootsDead
    ensures var (b1, l1) := ApplyGrowth(b, l, player, pos);
      && Chargeable(At(b1, pos), |l1.players|)
      && var (b2, l2) := ApplyGrowth(b1, l1, other, pos);
      && At(b2, pos) == Tile(NoOwner, At(b, pos).ground, Above.Max)
      && l2.players == l.players
  {
    var (b1, l1) := ApplyGrowth(b, l, player, pos);
    var (b2, l2) := ApplyGrowth(b1, l1, other, pos);
    assert At(b1, pos).owner == player;
    assert IsBonus(At(b1, pos)) == IsBonus(At(b, pos));
  }
}
