# Root Wars game engine, modelled in Dafny

This project models the rules engine of "Root Wars", a turn-based territory
game on a hex map. Each player owns a tree and grows roots from it into
neighbouring tiles. Players capture or strip opponents' roots, earn extra
moves from resource tiles, and lose roots that get cut off from their tree.
A rabbit may roam the map. A player wins by territory or by being the last
one with a tree. The engine is the `GameLogic` class over the `RootTileData`
tile record. The small `ReleasePool<T>` object pool is modelled alongside it,
as an independent component.

The model is functional. The board is an immutable `seq<seq<Tile>>`, indexed
by column and then row, like the engine's `RootTileData[,]`. The whole game
state is a `Game` record. Every engine operation is a pure function from one
state to the next. Two loops are kept as methods with loop invariants,
because their shape is part of the behaviour:

- the two-pass growth-frontier computation;
- the rabbit's in-place neighbour filter.

The two frontier passes visit the board column by column. The engine's
`AllTilesPositionIter` goes row by row. Each pass builds a set, so the visiting
order does not change the result.

Modules, one per file:

| file | module | contents |
|---|---|---|
| `wrappers.dfy` | `Wrappers` | `Option` |
| `hex.dfy` | `Hex` | positions; C#'s truncating `% 2`; the six-neighbour offset-column adjacency |
| `tiles.dfy` | `Tiles` | ground and occupant kinds, the tile record, the rectangular board, single-cell update, the two first-match scan orders |
| `territory.dfy` | `Territory` | growth frontier (as a set and as the engine's two loops), connected roots (worklist search, proved equal to path reachability), seen tiles, fog of war |
| `economy.dfy` | `Economy` | players, the move ledger, `AddResource`/`RemoveResource`, `KillRoots` |
| `rabbit.dfy` | `Rabbit` | `FindRabbit`/`FindCarrot`, the calm random hop, the enraged charge, map cleanup |
| `engine.dfy` | `Engine` | parameters, construction, `GrowRoot`, `DoAction`, `NextTurn`, `CheckVictory`, `PlayerLeft` |
| `release_pool.dfy` | `ReleasePool` | `Get`/`Release` and FIFO properties |

Conventions that follow the C# code:

- **Ids.** Player ids and tile owners are `sbyte` values (`SByte`). The owner -1 (`NoOwner`) means nobody owns the tile.
- **Player count.** The number of players is a `byte`.
- **Winner.** `GameOver` holds exactly when the winner field is non-negative.
- **Random draw.** The engine's only random draw, `rnd.Next(n)`, is an explicit `choice` argument. It may be any value `rnd.Next` can return: 0 when `n` is 0, otherwise a number below `n`.
- **Value-type tiles.** Tiles are copied by value in C#, so resource accounting always sees the tile as it was before the change. The model passes the pre-update tile as well.
- **Scan orders.** The engine scans the board in two orders:
  - `FindRabbit`, `FindCarrot` and the map cleanup use nested `for` loops, column by column (`Tiles.FirstCell`).
  - `GetPlayerTreePosition` and the other loops over `AllTilesPositionIter` use Unity's `RectInt` position enumerator, where x varies fastest, so they go row by row (`Tiles.FirstCellByRows`).

  The order matters only for "first match" lookups, so the tree lookup uses the row order. The set-building loops give the same set in either order.

Behaviour of the code that is easy to misread, modelled as written:

- **Missing enum values.** The shipped `GroundTileType`/`AboveTileType` enums lack the carrot ground and the rabbit occupant that `GameLogic` uses. The model adds `Ground.Carrot` and `Above.Rabbit`.
- **Rabbit blocks growth unconditionally.** The engine excludes the rabbit's cell from growth even when the hazard is off (`GameLogic.cs:305`). With the hazard off the map has no rabbit, so the exclusion then never applies.
- **Territory win is unreachable.** The territory counter `TilesControlled` is set to 1 and never changed. So a territory win can only happen with a goal of at most 1 (`Engine.OnlyEliminationWins`, `Engine.ActionKeepsRoster`).
- **Calm rabbit's count starts at 5.** The calm rabbit's move counter starts at 5 for six neighbours. With two or more open cells, the draw never picks the last one. This is modelled as written (`Rabbit.CalmTarget`).
- **Enraged rabbit ignores the map.** The enraged rabbit steps to the first neighbour strictly closer to the carrot, whatever is there. The cell it lands on loses its owner. This is also modelled as written.

## Model

| member | source | states |
|---|---|---|
| Hex.TruncRem2 | Assets/_Scripts/GameLogic.cs:263 | the remainder `x % 2` truncates toward zero: it lies strictly between -2 and 2, has the sign of `x`, and differs from `x` by a multiple of 2 |
| Hex.Adjacent | Assets/_Scripts/GameLogic.cs:259-283 | exactly six distinct neighbours, none equal to the cell, each within one column and one row; the cells directly above and below are always among them; in an unshifted column the side neighbours are on the same row or the row below, in a shifted column on the same row or the row above |
| Hex.ShiftAlternates | Assets/_Scripts/GameLogic.cs:262-263 | on non-negative columns, neighbouring columns always have opposite shifts |
| Hex.NegativeOddColumnIsOffset | Assets/_Scripts/GameLogic.cs:262-263 | a negative odd column counts as shifted under either polarity, because the truncated remainder is -1 |
| Hex.AdjacencySymmetric | Assets/_Scripts/GameLogic.cs:259-283 | on non-negative columns, if q is a neighbour of p then p is a neighbour of q |
| Hex.AdjacencyAsymmetricOffBoard | Assets/_Scripts/GameLogic.cs:259-283 | off the board the relation is not symmetric: with zero as an odd column, (-1,1) neighbours (0,0) but (0,0) does not neighbour (-1,1) |
| Tiles.FirstCell | Assets/_Scripts/GameLogic.cs:115-127 | column-by-column first match: the result matches and no earlier cell does; nothing is found exactly when no cell matches |
| Tiles.FirstCellByRows | Assets/_Scripts/GameLogic.cs:520-528 | the same for the row-by-row enumerator order |
| Territory.GrowthFrontier | Assets/_Scripts/GameLogic.cs:285-312 | a cell is a growth target exactly when it is on the board, next to one of the player's tiles, not the player's own, not mountain or off-map ground, and not the rabbit's cell; opponents' trees and dead roots qualify |
| Territory.CollectNeighbours | Assets/_Scripts/GameLogic.cs:288-297 | the first loop collects exactly the on-board neighbours of the player's tiles |
| Territory.RemoveBlocked | Assets/_Scripts/GameLogic.cs:300-309 | the second loop removes exactly the blocked cells and keeps every other collected cell |
| Territory.ValidRootGrowthTiles | Assets/_Scripts/GameLogic.cs:285-320 | the engine's two passes compute exactly the growth frontier |
| Territory.ReachesStep | Assets/_Scripts/GameLogic.cs:338-344 | a player tile next to a reachable cell is reachable |
| Territory.ClosedHoldsPath | Assets/_Scripts/GameLogic.cs:323-348 | a set that no root step leaves contains every root path that starts in it |
| Territory.Explore | Assets/_Scripts/GameLogic.cs:326-347 | the worklist search only adds reachable cells and stops with a set that no step leaves |
| Territory.ConnectedRoots | Assets/_Scripts/GameLogic.cs:323-348 | the result holds exactly the cells reachable from the origin through the player's neighbouring tiles; it is on the board and contains the origin exactly when the origin is on the board |
| Territory.SeenTiles | Assets/_Scripts/GameLogic.cs:365-385 | a cell is seen exactly when it is on the board and within two neighbour steps of a tile of the player; the middle step may leave the board |
| Territory.FogPositions | Assets/_Scripts/GameLogic.cs:387-405 | empty with fog off; with fog on, exactly the unseen on-board cells with on-map ground and no tree |
| Territory.OwnTilesNeverFogged | Assets/_Scripts/GameLogic.cs:365-405 | the player sees all of its tiles, and fog covers none of them |
| Territory.GrowthTargetsVisible | Assets/_Scripts/GameLogic.cs:365-405 | every legal growth target is seen, so fog never hides one |
| Economy.AddResource | Assets/_Scripts/GameLogic.cs:233-244 | capturing water, rich soil or the carrot gives the captor one more move; nobody else changes; capturing the carrot enrages the rabbit, and nothing else changes its mood |
| Economy.RemoveResource | Assets/_Scripts/GameLogic.cs:246-257 | losing an owned bonus tile costs its owner one move; an unowned or plain tile changes no one; losing an owned carrot calms the rabbit |
| Economy.CaptureThenLoseRestoresMoves | Assets/_Scripts/GameLogic.cs:233-257 | losing a tile right after capturing it restores every player's moves |
| Economy.KillRoots | Assets/_Scripts/GameLogic.cs:351-363 | afterwards every tile of the player is in the connected set; each severed tile becomes an unowned dead root on the same ground; all other tiles are untouched; the player loses one move per severed bonus tile; other players are untouched |
| Economy.RemoveEachOwned | Assets/_Scripts/GameLogic.cs:246-257 | removing the player's tiles one after another costs one move per bonus tile, and leaves the rabbit enraged only if none of them was the carrot |
| Economy.KillRootsIsTheLoop | Assets/_Scripts/GameLogic.cs:351-363 | taking each severed tile's resource away in turn, in any order, yields the same ledger as `KillRoots` |
| Rabbit.FindRabbit | Assets/_Scripts/GameLogic.cs:112-128 | the first rabbit column by column, or (0,0) when there is none |
| Rabbit.FindCarrot | Assets/_Scripts/GameLogic.cs:130-146 | the first carrot column by column, or (0,0) when there is none |
| Rabbit.CalmMoves | Assets/_Scripts/GameLogic.cs:413-424 | exactly the open candidates (on the board, nothing on them, not mountain, on-map ground), without repeats |
| Rabbit.OpenIndices | Assets/_Scripts/GameLogic.cs:413-424 | the open candidates' positions, strictly increasing, are exactly the positions of the open cells, and they pick out `CalmMoves` entry by entry: the filter keeps the open candidates in their original order |
| Rabbit.FilterRabbitMoves | Assets/_Scripts/GameLogic.cs:409-424 | the in-place removal loop leaves exactly the open neighbours in order, and its counter ends one below their number |
| Rabbit.CalmTarget | Assets/_Scripts/GameLogic.cs:425-429 | the hop goes to an open neighbour; with two or more open neighbours it is never the last one |
| Rabbit.CalmStep | Assets/_Scripts/GameLogic.cs:425-430 | with no open neighbour the board is unchanged; otherwise the rabbit leaves its cell for the drawn neighbour, and every other tile and all ownership stay as they were |
| Rabbit.FirstCloser | Assets/_Scripts/GameLogic.cs:434-437 | the first neighbour strictly closer to the carrot, and every earlier neighbour is not closer; none when no neighbour is closer |
| Rabbit.ChargeCell | Assets/_Scripts/GameLogic.cs:432-436 | the cell an enraged rabbit charges is one of its neighbours and strictly closer to the carrot than the rabbit is |
| Rabbit.EnragedStep | Assets/_Scripts/GameLogic.cs:432-447 | with no closer neighbour nothing changes; otherwise the rabbit moves to the charge cell, which loses its owner and keeps its ground; only those two cells change; landing on the carrot charges its owner as `RemoveResource` does, and landing anywhere else leaves the ledger alone |
| Rabbit.MoveRabbit | Assets/_Scripts/GameLogic.cs:407-448 | an enraged rabbit makes the enraged step and a calm one the calm hop; only the rabbit's cell and its neighbours change; a calm hop leaves the ledger alone; the roster is kept |
| Rabbit.RemoveRabbitAndCarrot | Assets/_Scripts/GameLogic.cs:92-110 | afterwards no carrot and no rabbit remain; carrots become grass, rabbits leave empty cells, owners are kept |
| Engine.InitialPlayers | Assets/_Scripts/GameLogic.cs:503-516 | one record per player, whose id is its index, with territory count 1 and the default allotment |
| Engine.NewGame | Assets/_Scripts/GameLogic.cs:76-90 | player 0 moves first with the first-turn allotment; the turn counter is 0, nobody has won and the rabbit is calm; with the hazard on the map is the given one; with it off the map is the given one cleaned by `RemoveRabbitAndCarrot`, so it holds no rabbit or carrot; the state is well formed |
| Engine.TreeOf | Assets/_Scripts/GameLogic.cs:518-529 | the first tree of the player in enumerator order, and none exactly when the player has no tree |
| Engine.HasTreeMeans | Assets/_Scripts/GameLogic.cs:518-529 | a player has a tree exactly when some on-board tile is its tree |
| Engine.LastQualifying | Assets/_Scripts/GameLogic.cs:545-551 | the last player whose territory count reaches the goal, with no later one qualifying; -1 when none does |
| Engine.Holders | Assets/_Scripts/GameLogic.cs:556-564 | exactly the players still holding a tree, in increasing order |
| Engine.SoleEntryList | Assets/_Scripts/GameLogic.cs:556-569 | when exactly one player holds a tree, the holder list is that player alone |
| Engine.SoleHolderIsOnlyEntry | Assets/_Scripts/GameLogic.cs:566-569 | the holder list has one entry exactly when one player alone holds a tree |
| Engine.CheckVictory | Assets/_Scripts/GameLogic.cs:541-573 | a territory win goes to the last qualifying player; failing that, the only player left with a tree wins; otherwise -1 |
| Engine.OnlyEliminationWins | Assets/_Scripts/GameLogic.cs:541-573 | with every territory count at its initial 1 and a goal above 1, only elimination decides the winner |
| Engine.ApplyGrowth | Assets/_Scripts/GameLogic.cs:199-219 | only the target tile changes; a free tile that is not a dead root becomes the mover's root and the mover gains its bonus; any other tile not the mover's loses its owner and gets the `MAX` marker, and the former owner loses the bonus |
| Engine.CaptureThenCutRestoresMoves | Assets/_Scripts/GameLogic.cs:199-219 | a free tile captured by one player and then cut by another ends up unowned with the marker, and every allotment is back where it started |
| Engine.GrowRootStep | Assets/_Scripts/GameLogic.cs:195-220 | succeeds exactly on a legal target; a refused growth changes nothing; a successful one changes the target tile, leaves board and ledger as `ApplyGrowth` does (so every other tile is kept), touches no other field and keeps the state well formed |
| Engine.NextPlayer | Assets/_Scripts/GameLogic.cs:176-180 | the next player is `(current + 1) mod NumPlayers` |
| Engine.PruneRoots | Assets/_Scripts/GameLogic.cs:186-188 | the board and ledger are those `KillRoots` gives for the roots connected to the player's first tree (so the severed roots die, every other tile and every other player is untouched, one move is lost per severed bonus tile); the first tree stays in place, and afterwards every tile of the player is reachable from it |
| Engine.PruningKeepsTree | Assets/_Scripts/GameLogic.cs:186-188 | killing severed roots neither moves nor creates the player's first tree |
| Engine.PrunedRootsConnected | Assets/_Scripts/GameLogic.cs:186-188 | after the kill, every remaining tile of the player is reachable from the tree on the new board |
| Engine.RabbitPhase | Assets/_Scripts/GameLogic.cs:181-185 | with the hazard on the rabbit makes its move (`MoveRabbit` from `FindRabbit`'s cell); with it off board and ledger are unchanged; the roster is kept |
| Engine.NextTurn | Assets/_Scripts/GameLogic.cs:173-193 | the turn counter advances by one; the next player is `(current + 1) mod NumPlayers`; board and ledger are the rabbit's move followed by the pruning of the incoming player's roots; it gets its full allotment from that ledger; it still has a tree, and all its tiles connect to it; the winner, parameters and roster are kept |
| Engine.AfterGrowth | Assets/_Scripts/GameLogic.cs:161-163 | after a legal growth the board and ledger are those of the growth, one move is used, the winner is recomputed by `CheckVictory` on the grown board and ledger, and the player, turn, parameters and roster are kept |
| Engine.DoAction | Assets/_Scripts/GameLogic.cs:148-170 | an action is valid exactly on a legal target; an invalid one changes nothing; a valid one sets the winner from the board after the growth; with moves left the same player continues with one move fewer, on the board and ledger the growth left; on the last move the result is `NextTurn` applied to the state after the growth (rabbit move, pruning, new allotment); the state stays well formed |
| Engine.LastMoveHandsOver | Assets/_Scripts/GameLogic.cs:163-167 | the move that uses up the turn advances the turn counter and passes the turn to the next player with its full allotment |
| Engine.EndOfMove | Assets/_Scripts/GameLogic.cs:164-167 | with moves left nothing changes; otherwise the result is exactly `NextTurn`: the turn counter advances and the next player takes over with its allotment |
| Engine.ActionKeepsRoster | Assets/_Scripts/GameLogic.cs:148-193 | no action changes player ids or territory counts |
| Engine.PlayerLeft | Assets/_Scripts/GameLogic.cs:531-539 | the leaver's first tree becomes an empty unowned cell; every other tile is kept; nothing changes if it has no tree |
| Engine.LeavingEliminates | Assets/_Scripts/GameLogic.cs:531-539 | a player with a single tree has none after leaving, and every other player's tree stays where it was |
| ReleasePool.Get | Assets/_Scripts/Utils/ReleasePool.cs:15-25 | from an empty pool, the factory's object, with the pool unchanged; otherwise the oldest released object, with the rest kept in order |
| ReleasePool.Release | Assets/_Scripts/Utils/ReleasePool.cs:27-30 | the object goes to the back; the pool grows by one and keeps its order |
| ReleasePool.ReleaseThenGet | Assets/_Scripts/Utils/ReleasePool.cs:15-30 | releasing into an empty pool and getting returns the released object and leaves the pool empty |
| ReleasePool.FirstInFirstOut | Assets/_Scripts/Utils/ReleasePool.cs:15-30 | releasing a then b and getting twice yields a then b |
| ReleasePool.ReleaseAllAppends | Assets/_Scripts/Utils/ReleasePool.cs:27-30 | releasing a batch appends it in order |
| ReleasePool.GetManyDrains | Assets/_Scripts/Utils/ReleasePool.cs:17-21 | as many gets as there are released objects return exactly those objects in release order and empty the pool |
| ReleasePool.ReleaseAllThenGetAll | Assets/_Scripts/Utils/ReleasePool.cs:15-30 | any batch released into an empty pool comes back out in the same order |

## Left out

- The map name in the match settings: the engine never reads it.
- The engine's query properties (`Tiles`, `MapWidth`, `CurrentTurn`, `RemainingMovesThisTurn`, `Winner`, the position enumerator): these are plain reads of state the model exposes directly.
- `Debug.Log` calls, and the commented-out rabbit switch at the end of `moveRabbit`: they have no effect on the state.
- The network controller, the map controller, the earlier game-controller draft, and the UI, camera and map-loader components: scene glue around the engine.
- `System.Random`: it is replaced by the `choice` argument, which is limited to the values `rnd.Next` can return.
- `Rabbit.Dist2`: `Vector2Int.Distance` is a float square root. The model compares squared integer distances, which order cells the same way except for float rounding on very large boards.
- The recursion depth of `GetConnectedRoots` (`GameLogic.cs:323-348`, the recursive call at line 343): a large connected region can overflow the C# call stack. The model's worklist search has no such limit.
- 32-bit overflow of the turn counter and of move allotments: counters are unbounded integers.
- `Engine.NewGame`: requires at most 127 players. The `sbyte` loop counter in `InitializePlayers` wraps past 127 and the array write then fails.
- `Engine.NextTurn`: requires that the incoming player still holds a tree after the rabbit moved. The engine dereferences the tree's position unchecked.
- `Rabbit.EnragedStep`: requires that the rabbit's cell and the chosen neighbour are on the board, and, when that neighbour is the carrot, that its owner is one of the players. These are the only unchecked indexings of the board and the player list in the charge.
- `Rabbit.CalmStep`: requires that the rabbit's cell is on the board when a hop happens. With no rabbit, the engine's (0,0) fallback is indexed.
- `Economy.RemoveResource`: requires that a charged owner is one of the players. A bonus tile with an owner id beyond the player list would make the engine fail.
- Actions after the game is over: the engine does not refuse them, and neither does the model.
- Mutation in place: each operation returns a new state instead of updating fields. A `DoAction` that fails leaves the old state, which is the engine's observable behaviour too.
