/**
 The move economy: each player's per-turn move allotment rises while it owns
 resource tiles (water, rich soil, the carrot) and falls when it loses them.
 Capturing the carrot also enrages the rabbit, losing it calms the rabbit.
 */
module Economy {
  import opened Hex
  import opened Tiles

  /** A player: its id, the (never updated) territory counter and its moves per turn. */
  datatype Player = Player(id: SByte, tilesControlled: int, numMoves: int)

  /** The state resource accounting touches: the players and the rabbit's mood. */
  datatype Ledger = Ledger(players: seq<Player>, rabbitEnraged: bool)

  /** The players with player `i`'s move allotment shifted by `delta`. */
  function ShiftMoves(players: seq<Player>, i: int, delta: int): (r: seq<Player>)
    requires 0 <= i < |players|
    ensures |r| == |players|
    ensures r[i].id == players[i].id && r[i].tilesControlled == players[i].tilesControlled
    ensures r[i].numMoves - players[i].numMoves == delta
    ensures forall j :: 0 <= j < |r| && j != i ==> r[j] == players[j]
  {
    players[i := players[i].(numMoves := players[i].numMoves + delta)]
  }

  /** Only move allotments differ between the two player lists. */
  ghost predicate SameRoster(a: seq<Player>, b: seq<Player>) {
    |a| == |b| &&
    forall i :: 0 <= i < |a| ==> a[i].id == b[i].id && a[i].tilesControlled == b[i].tilesControlled
  }

  /** Rosters that agree with a common one agree with each other. */
  lemma SameRosterTransitive(a: seq<Player>, b: seq<Player>, c: seq<Player>)
    requires SameRoster(a, b) && SameRoster(b, c)
    ensures SameRoster(a, c)
  {
  }

  /** How much owning this tile is worth in moves per turn. */
  function Bonus(t: Tile): int {
    if IsBonus(t) then 1 else 0
  }

  /**
   Taking `t` (as it was before the capture) for `player`: a resource or the
   carrot is worth one more move per turn, and the carrot enrages the rabbit.
   */
  function AddResource(l: Ledger, player: int, t: Tile): (r: Ledger)
    requires 0 <= player < |l.players|
    ensures SameRoster(r.players, l.players)
    ensures r.players[player].numMoves == l.players[player].numMoves + Bonus(t)
    ensures forall j :: 0 <= j < |r.players| && j != player ==> r.players[j] == l.players[j]
    ensures r.rabbitEnraged <==> l.rabbitEnraged || IsCarrot(t)
  {
    if IsResource(t) then
      l.(players := ShiftMoves(l.players, player, 1))
    else if IsCarrot(t) then
      Ledger(ShiftMoves(l.players, player, 1), true)
    else
      l
  }

  /**
   RemoveResource indexes the player list with the tile's owner only when the
   tile is a bonus tile with a non-negative owner.
   */
  predicate Chargeable(t: Tile, numPlayers: int) {
    t.owner < 0 || !IsBonus(t) || t.owner < numPlayers
  }

  /**
   Losing `t` (as it was before the change): its owner, when it has one, gives
   back the move the tile was worth; losing the carrot calms the rabbit.
   */
  function RemoveResource(l: Ledger, t: Tile): (r: Ledger)
    requires Chargeable(t, |l.players|)
    ensures SameRoster(r.players, l.players)
    ensures IsBonus(t) && t.owner >= 0 ==>
      r.players[t.owner].numMoves == l.players[t.owner].numMoves - 1
    ensures !(IsBonus(t) && t.owner >= 0) ==> r.players == l.players
    ensures forall j :: 0 <= j < |r.players| && j != t.owner ==> r.players[j] == l.players[j]
    ensures r.rabbitEnraged <==> l.rabbitEnraged && !(IsCarrot(t) && t.owner >= 0)
  {
    if IsResource(t) && t.owner >= 0 then
      l.(players := ShiftMoves(l.players, t.owner, -1))
    else if IsCarrot(t) && t.owner >= 0 then
      Ledger(ShiftMoves(l.players, t.owner, -1), false)
    else
      l
  }

  /**
   Capturing a tile and then losing it gives the captor its allotment back:
   the bonus granted on capture is exactly the one withdrawn on loss.
   */
  lemma CaptureThenLoseRestoresMoves(l: Ledger, player: SByte, t: Tile)
    requires 0 <= player < |l.players|
    ensures RemoveResource(AddResource(l, player, t), t.(owner := player)).players == l.players
  {
    var added := AddResource(l, player, t);
    var back := RemoveResource(added, t.(owner := player));
    assert forall j :: 0 <= j < |l.players| ==> back.players[j] == l.players[j];
  }

  // ---------------------------------------------------------------------------
  // Dead roots

  /** `q` holds a root of `player` that is not in `connected`. */
  predicate Severed(b: Board, connected: set<Pos>, player: int, q: Pos)
    requires InBounds(b, q)
  {
    At(b, q).owner == player && q !in connected
  }

  /** The tiles KillRoots kills. */
  function SeveredCells(b: Board, connected: set<Pos>, player: int): (r: set<Pos>)
    ensures forall q :: q in r <==> InBounds(b, q) && Severed(b, connected, player, q)
  {
    set q | q in AllCells(b) && Severed(b, connected, player, q)
  }

  /** The severed tiles that were worth a move. */
  function SeveredBonusCells(b: Board, connected: set<Pos>, player: int): (r: set<Pos>)
    ensures r <= SeveredCells(b, connected, player)
    ensures forall q :: q in r <==> InBounds(b, q) && Severed(b, connected, player, q) && IsBonus(At(b, q))
  {
    set q | q in SeveredCells(b, connected, player) && IsBonus(At(b, q))
  }

  /** No severed tile is the carrot. */
  predicate NoSeveredCarrot(b: Board, connected: set<Pos>, player: int) {
    forall q :: q in SeveredCells(b, connected, player) ==> !IsCarrot(At(b, q))
  }

  /** A dead root: unowned, marked dead, on the same ground. */
  function DeadRoot(t: Tile): Tile {
    Tile(NoOwner, t.ground, Above.TreeRootsDead)
  }

  /**
   Kills every tile of `player` outside `connected`: the tile becomes an
   unowned dead root and the player loses the move it was worth. Killing the
   carrot calms the rabbit.
   */
  function KillRoots(b: Board, l: Ledger, connected: set<Pos>, player: int): (r: (Board, Ledger))
    requires 0 <= player < |l.players|
    ensures Width(r.0) == Width(b) && Height(r.0) == Height(b)
    ensures forall q :: InBounds(b, q) && At(r.0, q).owner == player ==> q in connected
    ensures forall q :: InBounds(b, q) && Severed(b, connected, player, q) ==> At(r.0, q) == DeadRoot(At(b, q))
    ensures forall q :: InBounds(b, q) && !Severed(b, connected, player, q) ==> At(r.0, q) == At(b, q)
    ensures SameRoster(r.1.players, l.players)
    ensures r.1.players[player].numMoves ==
      l.players[player].numMoves - |SeveredBonusCells(b, connected, player)|
    ensures forall j :: 0 <= j < |l.players| && j != player ==> r.1.players[j] == l.players[j]
    ensures r.1.rabbitEnraged <==>
      l.rabbitEnraged && NoSeveredCarrot(b, connected, player)
    ensures r.1 == KillLedger(b, l, connected, player)
  {
    var board := MapCells(b, (q: Pos, t: Tile) => if t.owner == player && q !in connected then DeadRoot(t) else t);
    (board, KillLedger(b, l, connected, player))
  }

  /** The ledger side of KillRoots: one move lost per severed bonus tile, the rabbit calmed by a severed carrot. */
  function KillLedger(b: Board, l: Ledger, connected: set<Pos>, player: int): (r: Ledger)
    requires 0 <= player < |l.players|
  {
    Ledger(ShiftMoves(l.players, player, -|SeveredBonusCells(b, connected, player)|),
           l.rabbitEnraged && NoSeveredCarrot(b, connected, player))
  }

  // ---------------------------------------------------------------------------
  // The kill loop, one tile at a time

  /** `RemoveResource` applied to each tile of `ts` in turn. */
  function RemoveEach(l: Ledger, ts: seq<Tile>): (r: Ledger)
    requires forall i :: 0 <= i < |ts| ==> Chargeable(ts[i], |l.players|)
    ensures SameRoster(r.players, l.players)
    decreases |ts|
  {
    if ts == [] then l else RemoveEach(RemoveResource(l, ts[0]), ts[1..])
  }

  /** None of `ts` is the carrot. */
  predicate NoCarrot(ts: seq<Tile>) {
    forall i :: 0 <= i < |ts| ==> !IsCarrot(ts[i])
  }

  /** How many of `ts` are worth a move. */
  function CountBonus(ts: seq<Tile>): (r: nat)
    ensures r <= |ts|
  {
    if ts == [] then 0 else Bonus(ts[0]) + CountBonus(ts[1..])
  }

  /** The tiles at `cells`, in order. */
  function TilesAt(b: Board, cells: seq<Pos>): (r: seq<Tile>)
    requires forall i :: 0 <= i < |cells| ==> InBounds(b, cells[i])
    ensures |r| == |cells| && forall i :: 0 <= i < |cells| ==> r[i] == At(b, cells[i])
  {
    seq(|cells|, i requires 0 <= i < |cells| => At(b, cells[i]))
  }

  /** Shifting one allotment twice is shifting it once by the sum. */
  lemma ShiftTwice(players: seq<Player>, i: int, d1: int, d2: int)
    requires 0 <= i < |players|
    ensures ShiftMoves(ShiftMoves(players, i, d1), i, d2) == ShiftMoves(players, i, d1 + d2)
  {
  }

  /**
   Losing tiles of `player` one after another costs it one move per bonus
   tile, and leaves the rabbit enraged only if none of them was the carrot.
   */
  lemma {:induction false} RemoveEachOwned(l: Ledger, ts: seq<Tile>, player: int)
    requires 0 <= player < |l.players|
    requires forall i :: 0 <= i < |ts| ==> ts[i].owner == player
    ensures RemoveEach(l, ts) ==
      Ledger(ShiftMoves(l.players, player, -(CountBonus(ts) as int)),
             l.rabbitEnraged && NoCarrot(ts))
    decreases |ts|
  {
    if ts == [] {
      assert l.players == ShiftMoves(l.players, player, 0);
    } else {
      var l1 := RemoveResource(l, ts[0]);
      var rest := ts[1..];
      calc {
        RemoveEach(l, ts);
        RemoveEach(l1, rest);
      == { RemoveEachOwned(l1, rest, player); }
        Ledger(ShiftMoves(l1.players, player, -(CountBonus(rest) as int)), l1.rabbitEnraged && NoCarrot(rest));
      == { RemoveOwnedTile(l, ts[0], player); }
        Ledger(ShiftMoves(ShiftMoves(l.players, player, -Bonus(ts[0])), player, -(CountBonus(rest) as int)),
               l.rabbitEnraged && !IsCarrot(ts[0]) && NoCarrot(rest));
      == { ShiftTwice(l.players, player, -Bonus(ts[0]), -(CountBonus(rest) as int));
           assert NoCarrot(ts) <==> !IsCarrot(ts[0]) && NoCarrot(rest); }
        Ledger(ShiftMoves(l.players, player, -(CountBonus(ts) as int)), l.rabbitEnraged && NoCarrot(ts));
      }
    }
  }

  /** Losing one tile of `player`: it pays the tile's bonus, and the carrot calms the rabbit. */
  lemma {:induction false} RemoveOwnedTile(l: Ledger, t: Tile, player: int)
    requires 0 <= player < |l.players| && t.owner == player
    ensures RemoveResource(l, t) == Ledger(ShiftMoves(l.players, player, -Bonus(t)), l.rabbitEnraged && !IsCarrot(t))
  {
    if !IsBonus(t) {
      assert l.players == ShiftMoves(l.players, player, 0);
    }
  }

  /** The bonus tiles among `cells`, as a set. */
  function BonusCells(b: Board, cells: seq<Pos>): set<Pos> {
    set q | q in cells && InBounds(b, q) && IsBonus(At(b, q))
  }

  /** Counting the bonus tiles along a list of distinct cells counts the set of them. */
  lemma {:induction false} CountBonusIsSetSize(b: Board, cells: seq<Pos>)
    requires Distinct(cells) && forall i :: 0 <= i < |cells| ==> InBounds(b, cells[i])
    ensures CountBonus(TilesAt(b, cells)) == |BonusCells(b, cells)|
    decreases |cells|
  {
    if cells != [] {
      assert TilesAt(b, cells)[1..] == TilesAt(b, cells[1..]);
      CountBonusIsSetSize(b, cells[1..]);
      BonusCellsSplit(b, cells);
    }
  }

  /** The first of distinct cells adds its own bonus to the set of the rest. */
  lemma BonusCellsSplit(b: Board, cells: seq<Pos>)
    requires Distinct(cells) && cells != [] && InBounds(b, cells[0])
    ensures |BonusCells(b, cells)| == |BonusCells(b, cells[1..])| + Bonus(At(b, cells[0]))
  {
    var whole, tail := BonusCells(b, cells), BonusCells(b, cells[1..]);
    assert cells[0] !in tail;
    if IsBonus(At(b, cells[0])) {
      assert whole == tail + {cells[0]};
    } else {
      assert whole == tail;
    }
  }

  /**
   KillRoots agrees with the engine's loop: visiting the severed tiles one at
   a time, in any order, and taking each one's resource away leaves the
   ledger KillRoots returns.
   */
  lemma {:induction false} KillRootsIsTheLoop(b: Board, l: Ledger, connected: set<Pos>, player: int, cells: seq<Pos>)
    requires 0 <= player < |l.players|
    requires Distinct(cells)
    requires forall q :: q in cells <==> q in SeveredCells(b, connected, player)
    ensures forall i :: 0 <= i < |cells| ==> InBounds(b, cells[i])
    ensures forall i :: 0 <= i < |cells| ==> Chargeable(TilesAt(b, cells)[i], |l.players|)
    ensures RemoveEach(l, TilesAt(b, cells)) == KillLedger(b, l, connected, player)
  {
    SeveredList(b, connected, player, cells);
    LoopClosedForm(b, l, connected, player, TilesAt(b, cells));
  }

  /** Tiles of `player` that pay what the severed ones pay leave the ledger KillRoots leaves. */
  lemma {:induction false} LoopClosedForm(b: Board, l: Ledger, connected: set<Pos>, player: int, ts: seq<Tile>)
    requires 0 <= player < |l.players|
    requires forall i :: 0 <= i < |ts| ==> ts[i].owner == player
    requires CountBonus(ts) == |SeveredBonusCells(b, connected, player)|
    requires NoCarrot(ts) == NoSeveredCarrot(b, connected, player)
    ensures forall i :: 0 <= i < |ts| ==> Chargeable(ts[i], |l.players|)
    ensures RemoveEach(l, ts) == KillLedger(b, l, connected, player)
  {
    RemoveEachOwned(l, ts, player);
  }

  /** What the loop sees along an enumeration of the severed cells. */
  lemma SeveredList(b: Board, connected: set<Pos>, player: int, cells: seq<Pos>)
    requires Distinct(cells)
    requires forall q :: q in cells <==> q in SeveredCells(b, connected, player)
    ensures forall i :: 0 <= i < |cells| ==> InBounds(b, cells[i])
    ensures forall i :: 0 <= i < |cells| ==> TilesAt(b, cells)[i].owner == player
    ensures CountBonus(TilesAt(b, cells)) == |SeveredBonusCells(b, connected, player)|
    ensures NoCarrot(TilesAt(b, cells)) == NoSeveredCarrot(b, connected, player)
  {
    SeveredTilesOwned(b, connected, player, cells);
    SeveredBonusCount(b, connected, player, cells);
    SeveredCarrots(b, connected, player, cells);
  }

  lemma SeveredTilesOwned(b: Board, connected: set<Pos>, player: int, cells: seq<Pos>)
    requires forall q :: q in cells <==> q in SeveredCells(b, connected, player)
    ensures forall i :: 0 <= i < |cells| ==> InBounds(b, cells[i])
    ensures forall i :: 0 <= i < |cells| ==> TilesAt(b, cells)[i].owner == player
  {
    assert forall i :: 0 <= i < |cells| ==> cells[i] in cells;
  }

  lemma SeveredBonusCount(b: Board, connected: set<Pos>, player: int, cells: seq<Pos>)
    requires Distinct(cells)
    requires forall q :: q in cells <==> q in SeveredCells(b, connected, player)
    ensures forall i :: 0 <= i < |cells| ==> InBounds(b, cells[i])
    ensures CountBonus(TilesAt(b, cells)) == |SeveredBonusCells(b, connected, player)|
  {
    SeveredTilesOwned(b, connected, player, cells);
    CountBonusIsSetSize(b, cells);
    assert BonusCells(b, cells) == SeveredBonusCells(b, connected, player);
  }

  lemma SeveredCarrots(b: Board, connected: set<Pos>, player: int, cells: seq<Pos>)
    requires forall q :: q in cells <==> q in SeveredCells(b, connected, player)
    ensures forall i :: 0 <= i < |cells| ==> InBounds(b, cells[i])
    ensures NoCarrot(TilesAt(b, cells)) <==> NoSeveredCarrot(b, connected, player)
  {
    SeveredTilesOwned(b, connected, player, cells);
    var ts := TilesAt(b, cells);
    if forall i :: 0 <= i < |cells| ==> !IsCarrot(ts[i]) {
      forall q | q in SeveredCells(b, connected, player) ensures !IsCarrot(At(b, q)) {
        assert q in cells;
        var i :| 0 <= i < |cells| && cells[i] == q;
        assert ts[i] == At(b, q);
      }
    }
    if forall q :: q in SeveredCells(b, connected, player) ==> !IsCarrot(At(b, q)) {
      forall i | 0 <= i < |cells| ensures !IsCarrot(ts[i]) {
        assert cells[i] in cells;
      }
    }
  }
}
