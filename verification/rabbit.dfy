/**
 The optional rabbit hazard. A calm rabbit hops to a random free
 neighbouring cell; an enraged one (some player holds the carrot) steps to
 the first neighbour closer to the carrot, whatever is there. With the hazard
 switched off, the map is cleared of rabbits and carrots at construction.
 */
module Rabbit {
  import opened Hex
  import opened Tiles
  import opened Economy
  import W = Wrappers

  predicate HasRabbit(t: Tile) {
    t.above == Above.Rabbit
  }

  /**
   The first rabbit in scan order, or (0,0) when the board has none (the
   engine's "should never return" fallback).
   */
  function FindRabbit(b: Board): (r: Pos)
    ensures (exists q :: InBounds(b, q) && HasRabbit(At(b, q))) ==>
      InBounds(b, r) && HasRabbit(At(b, r)) &&
      forall q :: InBounds(b, q) && ScansBefore(q, r) ==> !HasRabbit(At(b, q))
    ensures (forall q :: InBounds(b, q) ==> !HasRabbit(At(b, q))) ==> r == Pos(0, 0)
  {
    FirstCell(b, t => HasRabbit(t)).GetOr(Pos(0, 0))
  }

  /** The first carrot tile in scan order, or (0,0) when the board has none. */
  function FindCarrot(b: Board): (r: Pos)
    ensures (exists q :: InBounds(b, q) && IsCarrot(At(b, q))) ==>
      InBounds(b, r) && IsCarrot(At(b, r)) &&
      forall q :: InBounds(b, q) && ScansBefore(q, r) ==> !IsCarrot(At(b, q))
    ensures (forall q :: InBounds(b, q) ==> !IsCarrot(At(b, q))) ==> r == Pos(0, 0)
  {
    FirstCell(b, t => IsCarrot(t)).GetOr(Pos(0, 0))
  }

  // ---------------------------------------------------------------------------
  // Calm rabbit

  /** A calm rabbit may hop onto an empty on-map cell that is not a mountain. */
  predicate OpenForRabbit(b: Board, q: Pos) {
    InBounds(b, q) && At(b, q).above == Above.None
    && At(b, q).ground != Ground.Mountain && At(b, q).ground != Ground.None
  }

  /** The open cells among `cands`, in their original order. */
  function CalmMoves(b: Board, cands: seq<Pos>): (r: seq<Pos>)
    ensures |r| <= |cands|
    ensures forall q :: q in r <==> q in cands && OpenForRabbit(b, q)
    ensures Distinct(cands) ==> Distinct(r)
  {
    if cands == [] then []
    else
      var last := cands[|cands| - 1];
      var front := cands[..|cands| - 1];
      assert cands == front + [last];
      assert Distinct(cands) ==> Distinct(front) && last !in front;
      CalmMoves(b, front) + (if OpenForRabbit(b, last) then [last] else [])
  }

  /** `idx` is strictly increasing. */
  predicate Increasing(idx: seq<nat>) {
    forall i, j :: 0 <= i < j < |idx| ==> idx[i] < idx[j]
  }

  /** `idx` lists, entry by entry, where in `cands` each element of `picked` sits. */
  predicate Picks(idx: seq<nat>, cands: seq<Pos>, picked: seq<Pos>) {
    |idx| == |picked| && forall k :: 0 <= k < |idx| ==> idx[k] < |cands| && cands[idx[k]] == picked[k]
  }

  /** `idx` holds exactly the positions of the open cells of `cands`. */
  predicate MarksOpen(b: Board, idx: seq<nat>, cands: seq<Pos>) {
    forall k :: 0 <= k < |cands| ==> (k in idx <==> OpenForRabbit(b, cands[k]))
  }

  /**
   The positions in `cands` of the open cells, in increasing order. They
   index `CalmMoves` entry by entry, so `CalmMoves` keeps exactly the open
   candidates, in the order they came.
   */
  function OpenIndices(b: Board, cands: seq<Pos>): (r: seq<nat>)
    ensures Increasing(r)
    ensures Picks(r, cands, CalmMoves(b, cands))
    ensures MarksOpen(b, r, cands)
  {
    if cands == [] then []
    else
      var n := |cands| - 1;
      var rest := OpenIndices(b, cands[..n]);
      IndicesExtend(b, rest, cands);
      rest + (if OpenForRabbit(b, cands[n]) then [n] else [])
  }

  /** Taking one more candidate extends the index list by its position exactly when it is open. */
  lemma IndicesExtend(b: Board, idx: seq<nat>, cands: seq<Pos>)
    requires cands != []
    requires var front := cands[..|cands| - 1];
      Increasing(idx) && Picks(idx, front, CalmMoves(b, front)) && MarksOpen(b, idx, front)
    ensures var n := |cands| - 1;
      var idx' := idx + (if OpenForRabbit(b, cands[n]) then [n] else []);
      Increasing(idx') && Picks(idx', cands, CalmMoves(b, cands)) && MarksOpen(b, idx', cands)
  {
    var n := |cands| - 1;
    var front := cands[..n];
    CalmMovesExtend(b, cands, n);
    assert cands[..n + 1] == cands == front + [cands[n]];
    IndicesAppend(b, idx, front, CalmMoves(b, front), cands[n]);
  }

  /** The step of `IndicesExtend` on an explicit split of the candidates. */
  lemma IndicesAppend(b: Board, idx: seq<nat>, front: seq<Pos>, picked: seq<Pos>, c: Pos)
    requires Increasing(idx) && Picks(idx, front, picked) && MarksOpen(b, idx, front)
    ensures var open := OpenForRabbit(b, c);
      var idx' := idx + (if open then [|front|] else []);
      && Increasing(idx')
      && Picks(idx', front + [c], picked + (if open then [c] else []))
      && MarksOpen(b, idx', front + [c])
  {
    var n := |front|;
    var cands := front + [c];
    assert forall k :: 0 <= k < n ==> cands[k] == front[k];
    assert n !in idx;
  }

  /**
   The engine's in-place filter of the six neighbours: a blocked entry is
   removed and the index stays put (its `i--` undoes the loop's `i++`), and
   each removal lowers a counter that starts at 5. It leaves the open
   neighbours in order, and the counter one below their number.
   */
  method FilterRabbitMoves(b: Board, cands: seq<Pos>) returns (moves: seq<Pos>, numValidPos: int)
    requires |cands| == 6
    ensures moves == CalmMoves(b, cands)
    ensures numValidPos == |moves| - 1
  {
    moves := cands;
    numValidPos := 5;
    ghost var seen := 0;
    ghost var kept: seq<Pos> := [];
    var i := 0;
    while i < |moves|
      invariant 0 <= seen <= |cands|
      invariant kept == CalmMoves(b, cands[..seen])
      invariant moves == kept + cands[seen..]
      invariant i == |kept|
      invariant numValidPos == 5 - (seen - i)
      decreases |moves| - i
    {
      FilterStep(b, cands, seen, kept, moves);
      if !OpenForRabbit(b, moves[i]) {
        moves := moves[..i] + moves[i + 1..];
        numValidPos := numValidPos - 1;
      } else {
        kept := kept + [cands[seen]];
        i := i + 1;
      }
      seen := seen + 1;
    }
    assert cands[..seen] == cands;
  }

  /**
   One round of the filter: the entry under the index is the next candidate;
   a blocked one is cut out of the list, an open one joins the kept prefix.
   */
  lemma FilterStep(b: Board, cands: seq<Pos>, seen: nat, kept: seq<Pos>, moves: seq<Pos>)
    requires seen < |cands| && kept == CalmMoves(b, cands[..seen]) && moves == kept + cands[seen..]
    ensures |kept| < |moves| && moves[|kept|] == cands[seen]
    ensures !OpenForRabbit(b, cands[seen]) ==>
      && CalmMoves(b, cands[..seen + 1]) == kept
      && moves[..|kept|] + moves[|kept| + 1..] == kept + cands[seen + 1..]
    ensures OpenForRabbit(b, cands[seen]) ==>
      && CalmMoves(b, cands[..seen + 1]) == kept + [cands[seen]]
      && moves == (kept + [cands[seen]]) + cands[seen + 1..]
  {
    CalmMovesExtend(b, cands, seen);
    SplitAfter(kept, cands[seen..]);
    assert cands[seen..][1..] == cands[seen + 1..];
  }

  /** Taking the head of the tail apart in `kept + tail`. */
  lemma SplitAfter(kept: seq<Pos>, tail: seq<Pos>)
    requires tail != []
    ensures (kept + tail)[|kept|] == tail[0]
    ensures (kept + tail)[..|kept|] + (kept + tail)[|kept| + 1..] == kept + tail[1..]
    ensures kept + tail == (kept + [tail[0]]) + tail[1..]
  {
    assert (kept + tail)[..|kept|] == kept;
    assert (kept + tail)[|kept| + 1..] == tail[1..];
  }

  /** Filtering one more candidate appends it exactly when it is open. */
  lemma CalmMovesExtend(b: Board, cands: seq<Pos>, k: nat)
    requires k < |cands|
    ensures CalmMoves(b, cands[..k + 1]) ==
      CalmMoves(b, cands[..k]) + (if OpenForRabbit(b, cands[k]) then [cands[k]] else [])
  {
    assert cands[..k + 1][..k] == cands[..k];
  }

  /**
   The outcome `rnd.Next(n)` may produce: 0 when `n` is 0, otherwise a
   number in `[0, n)`.
   */
  predicate IsDraw(n: int, choice: nat) {
    if n == 0 then choice == 0 else choice < n
  }

  /** What a calm hop needs: the draw is one `rnd.Next` can return when the rabbit moves. */
  predicate CalmStepDefined(b: Board, zeroIsOddColumn: bool, rabbit: Pos, choice: nat) {
    var moves := CalmMoves(b, Adjacent(zeroIsOddColumn, rabbit));
    moves == [] || (InBounds(b, rabbit) && IsDraw(|moves| - 1, choice))
  }

  /**
   The cell a calm rabbit hops to: the drawn entry of its open neighbours.
   The draw ranges over one fewer than the number of open neighbours (the
   engine's counter starts at 5 for six neighbours), so with two or more open
   cells the last one is never picked; with exactly one it is taken.
   */
  function CalmTarget(b: Board, zeroIsOddColumn: bool, rabbit: Pos, choice: nat): (r: Pos)
    requires CalmMoves(b, Adjacent(zeroIsOddColumn, rabbit)) != []
    requires CalmStepDefined(b, zeroIsOddColumn, rabbit, choice)
    ensures r in Adjacent(zeroIsOddColumn, rabbit) && OpenForRabbit(b, r)
    ensures var moves := CalmMoves(b, Adjacent(zeroIsOddColumn, rabbit));
      |moves| >= 2 ==> r != moves[|moves| - 1]
  {
    var moves := CalmMoves(b, Adjacent(zeroIsOddColumn, rabbit));
    assert Distinct(Adjacent(zeroIsOddColumn, rabbit));
    moves[choice]
  }

  /**
   A calm hop: the rabbit leaves its cell for the drawn open neighbour, or
   stays when no neighbour is open. Ownership and terrain are untouched.
   */
  function CalmStep(b: Board, zeroIsOddColumn: bool, rabbit: Pos, choice: nat): (r: Board)
    requires CalmStepDefined(b, zeroIsOddColumn, rabbit, choice)
    ensures Width(r) == Width(b) && Height(r) == Height(b)
    ensures CalmMoves(b, Adjacent(zeroIsOddColumn, rabbit)) == [] ==> r == b
    ensures CalmMoves(b, Adjacent(zeroIsOddColumn, rabbit)) != [] ==>
      var target := CalmTarget(b, zeroIsOddColumn, rabbit, choice);
      && At(r, rabbit) == At(b, rabbit).(above := Above.None)
      && At(r, target) == At(b, target).(above := Above.Rabbit)
      && (forall q :: InBounds(b, q) && q != rabbit && q != target ==> At(r, q) == At(b, q))
  {
    if CalmMoves(b, Adjacent(zeroIsOddColumn, rabbit)) != [] then
      HopOnto(b, rabbit, CalmTarget(b, zeroIsOddColumn, rabbit, choice))
    else
      b
  }

  /** The rabbit hops from `from` to `target`; only the occupants of those two cells change. */
  function HopOnto(b: Board, from: Pos, target: Pos): (r: Board)
    requires InBounds(b, from) && InBounds(b, target) && from != target
    ensures Width(r) == Width(b) && Height(r) == Height(b)
    ensures At(r, from) == At(b, from).(above := Above.None)
    ensures At(r, target) == At(b, target).(above := Above.Rabbit)
    ensures forall q :: InBounds(b, q) && q != from && q != target ==> At(r, q) == At(b, q)
  {
    var cleared := Put(b, from, At(b, from).(above := Above.None));
    Put(cleared, target, At(cleared, target).(above := Above.Rabbit))
  }

  // ---------------------------------------------------------------------------
  // Enraged rabbit

  /** Squared Euclidean distance; it orders pairs of cells as the float distance does. */
  function Dist2(p: Pos, q: Pos): nat {
    (p.x - q.x) * (p.x - q.x) + (p.y - q.y) * (p.y - q.y)
  }

  /** The index of the first of `cands[k..]` strictly closer to `goal` than `from` is. */
  function FirstCloser(cands: seq<Pos>, from: Pos, goal: Pos, k: nat): (r: W.Option<nat>)
    requires k <= |cands|
    decreases |cands| - k
    ensures r.Some? ==> k <= r.value < |cands| && Dist2(cands[r.value], goal) < Dist2(from, goal)
    ensures r.Some? ==> forall j :: k <= j < r.value ==> Dist2(cands[j], goal) >= Dist2(from, goal)
    ensures r.None? ==> forall j :: k <= j < |cands| ==> Dist2(cands[j], goal) >= Dist2(from, goal)
  {
    if k == |cands| then W.None
    else if Dist2(cands[k], goal) < Dist2(from, goal) then W.Some(k)
    else FirstCloser(cands, from, goal, k + 1)
  }

  /** The neighbour an enraged rabbit at `rabbit` steps to, if any is closer to the carrot. */
  function ChargeTarget(b: Board, zeroIsOddColumn: bool, rabbit: Pos): W.Option<nat> {
    FirstCloser(Adjacent(zeroIsOddColumn, rabbit), rabbit, FindCarrot(b), 0)
  }

  /** The neighbour an enraged rabbit steps to, when there is one. */
  function ChargeCell(b: Board, zeroIsOddColumn: bool, rabbit: Pos): (r: Pos)
    requires ChargeTarget(b, zeroIsOddColumn, rabbit).Some?
    ensures r in Adjacent(zeroIsOddColumn, rabbit)
    ensures Dist2(r, FindCarrot(b)) < Dist2(rabbit, FindCarrot(b))
  {
    Adjacent(zeroIsOddColumn, rabbit)[ChargeTarget(b, zeroIsOddColumn, rabbit).value]
  }

  /**
   What a charge needs: the engine writes the rabbit's cell and the chosen
   neighbour without bounds checks, and charges the carrot's owner (indexing
   the player list by it) only when the rabbit lands on the carrot.
   */
  predicate EnragedStepDefined(b: Board, zeroIsOddColumn: bool, l: Ledger, rabbit: Pos) {
    ChargeTarget(b, zeroIsOddColumn, rabbit).Some? ==>
      var target := ChargeCell(b, zeroIsOddColumn, rabbit);
      && InBounds(b, rabbit) && InBounds(b, target)
      && (IsCarrot(At(b, target)) ==> Chargeable(At(b, target), |l.players|))
  }

  /**
   An enraged step: the rabbit moves to the first neighbour strictly closer to
   the carrot, regardless of terrain or occupant, and the cell it lands on
   loses its owner (a tree there is destroyed). Landing on the carrot takes
   its bonus from the owner and calms the rabbit.
   */
  function EnragedStep(b: Board, zeroIsOddColumn: bool, l: Ledger, rabbit: Pos): (r: (Board, Ledger))
    requires EnragedStepDefined(b, zeroIsOddColumn, l, rabbit)
    ensures Width(r.0) == Width(b) && Height(r.0) == Height(b)
    ensures SameRoster(r.1.players, l.players)
    ensures ChargeTarget(b, zeroIsOddColumn, rabbit).None? ==> r == (b, l)
    ensures ChargeTarget(b, zeroIsOddColumn, rabbit).Some? ==>
      var target := ChargeCell(b, zeroIsOddColumn, rabbit);
      && At(r.0, rabbit) == At(b, rabbit).(above := Above.None)
      && At(r.0, target) == Tile(NoOwner, At(b, target).ground, Above.Rabbit)
      && (forall q :: InBounds(b, q) && q != rabbit && q != target ==> At(r.0, q) == At(b, q))
      && r.1 == (if IsCarrot(At(b, target)) then RemoveResource(l, At(b, target)) else l)
  {
    if ChargeTarget(b, zeroIsOddColumn, rabbit).None? then (b, l)
    else ChargeOnto(b, l, rabbit, ChargeCell(b, zeroIsOddColumn, rabbit))
  }

  /**
   The rabbit at `from` charges onto `target`: it leaves its cell, the target
   loses its owner and holds the rabbit, and a carrot there is taken from its
   owner. The target is judged as it was before the rabbit arrived.
   */
  function ChargeOnto(b: Board, l: Ledger, from: Pos, target: Pos): (r: (Board, Ledger))
    requires InBounds(b, from) && InBounds(b, target) && from != target
    requires IsCarrot(At(b, target)) ==> Chargeable(At(b, target), |l.players|)
    ensures Width(r.0) == Width(b) && Height(r.0) == Height(b)
    ensures SameRoster(r.1.players, l.players)
    ensures At(r.0, from) == At(b, from).(above := Above.None)
    ensures At(r.0, target) == Tile(NoOwner, At(b, target).ground, Above.Rabbit)
    ensures forall q :: InBounds(b, q) && q != from && q != target ==> At(r.0, q) == At(b, q)
    ensures r.1 == (if IsCarrot(At(b, target)) then RemoveResource(l, At(b, target)) else l)
  {
    var cleared := Put(b, from, At(b, from).(above := Above.None));
    var landed := At(cleared, target);
    var l' := if IsCarrot(landed) then RemoveResource(l, landed) else l;
    (Put(cleared, target, landed.(above := Above.Rabbit, owner := NoOwner)), l')
  }

  // ---------------------------------------------------------------------------
  // Turn step and map cleanup

  /** What the rabbit's turn needs from the board, the ledger and the draw. */
  predicate MoveRabbitDefined(b: Board, zeroIsOddColumn: bool, l: Ledger, choice: nat) {
    var rabbit := FindRabbit(b);
    if l.rabbitEnraged then EnragedStepDefined(b, zeroIsOddColumn, l, rabbit)
    else CalmStepDefined(b, zeroIsOddColumn, rabbit, choice)
  }

  /** The rabbit's move at the start of a turn, calm or enraged. */
  function MoveRabbit(b: Board, zeroIsOddColumn: bool, l: Ledger, choice: nat): (r: (Board, Ledger))
    requires MoveRabbitDefined(b, zeroIsOddColumn, l, choice)
    ensures Width(r.0) == Width(b) && Height(r.0) == Height(b)
    ensures SameRoster(r.1.players, l.players)
    ensures !l.rabbitEnraged ==> r.1 == l
    ensures forall q :: InBounds(b, q) && At(r.0, q) != At(b, q) ==>
      q == FindRabbit(b) || q in Adjacent(zeroIsOddColumn, FindRabbit(b))
    ensures l.rabbitEnraged ==> r == EnragedStep(b, zeroIsOddColumn, l, FindRabbit(b))
    ensures !l.rabbitEnraged ==> r.0 == CalmStep(b, zeroIsOddColumn, FindRabbit(b), choice)
  {
    var rabbit := FindRabbit(b);
    if l.rabbitEnraged then EnragedStep(b, zeroIsOddColumn, l, rabbit)
    else (CalmStep(b, zeroIsOddColumn, rabbit, choice), l)
  }

  /** A tile with any carrot turned to grass and any rabbit removed. */
  function WithoutRabbitOrCarrot(t: Tile): Tile {
    t.(ground := if IsCarrot(t) then Ground.Grass else t.ground,
       above := if HasRabbit(t) then Above.None else t.above)
  }

  /**
   The cleanup applied when the hazard is disabled: no carrot or rabbit is
   left; carrots become grass, rabbits leave empty cells; nothing else changes.
   */
  function RemoveRabbitAndCarrot(b: Board): (r: Board)
    ensures Width(r) == Width(b) && Height(r) == Height(b)
    ensures forall q :: InBounds(r, q) ==> !IsCarrot(At(r, q)) && !HasRabbit(At(r, q))
    ensures forall q :: InBounds(b, q) ==> At(r, q).owner == At(b, q).owner
    ensures forall q :: InBounds(b, q) ==>
      At(r, q).ground == (if IsCarrot(At(b, q)) then Ground.Grass else At(b, q).ground)
    ensures forall q :: InBounds(b, q) ==>
      At(r, q).above == (if HasRabbit(At(b, q)) then Above.None else At(b, q).above)
  {
    MapCells(b, (q: Pos, t: Tile) => WithoutRabbitOrCarrot(t))
  }
}
