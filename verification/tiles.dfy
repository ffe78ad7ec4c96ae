/**
 The tile record and the board: a rectangular grid of tiles addressed by
 column and row, with bounds, single-cell update and the two first-match
 scans the engine uses to locate things on the map: column by column (its
 nested loops) and row by row (its position enumerator).
 */
module Tiles {
  import opened Hex
  import W = Wrappers

  /** C#'s `sbyte`, the type of a tile owner id and of player ids. */
  type SByte = x: int | -128 <= x < 128

  /** C#'s `byte`, the type of the player count. */
  type Byte = x: int | 0 <= x < 256

  /**
   Terrain kinds. `None` is the default value and marks a cell that is not
   part of the map; `Carrot` is used by the engine although the shipped enum
   lacks it; `Max` is a sentinel past the real kinds.
   */
  datatype Ground =
    | None | Desert | Grass | MesaDark | MesaLight | Mountain
    | RichSoil | Test | TestYellow | Water | Carrot | Max

  /**
   What stands on a tile. `Rabbit` is used by the engine although the shipped
   enum lacks it; `Max` is the sentinel the engine writes on a tile whose roots
   were stripped by an opponent.
   */
  datatype Above = None | Tree | TreeRoots | TreeRootsDead | Rabbit | Max

  /** One cell. `owner` is the owning player's id, or -1 for no owner. */
  datatype Tile = Tile(owner: SByte, ground: Ground, above: Above)

  /** Constant for the "no owner" id. */
  const NoOwner: SByte := -1

  /** Water and rich soil grant an extra move while owned. */
  predicate IsResource(t: Tile) {
    t.ground == Ground.Water || t.ground == Ground.RichSoil
  }

  predicate IsCarrot(t: Tile) {
    t.ground == Ground.Carrot
  }

  /** Tiles whose ownership is worth a move: resources and the carrot. */
  predicate IsBonus(t: Tile) {
    IsResource(t) || IsCarrot(t)
  }

  /** A C# two-dimensional array: every column has the same height. */
  type Board = b: seq<seq<Tile>> | forall i :: 0 <= i < |b| ==> |b[i]| == |b[0]|

  function Width(b: Board): nat {
    |b|
  }

  function Height(b: Board): nat {
    if |b| == 0 then 0 else |b[0]|
  }

  /** `RectInt.Contains` for the rectangle covering the whole board. */
  predicate InBounds(b: Board, p: Pos) {
    0 <= p.x < Width(b) && 0 <= p.y < Height(b)
  }

  function At(b: Board, p: Pos): Tile
    requires InBounds(b, p)
  {
    b[p.x][p.y]
  }

  /** The board with the tile at `p` replaced by `t`. */
  function Put(b: Board, p: Pos, t: Tile): (r: Board)
    requires InBounds(b, p)
    ensures Width(r) == Width(b) && Height(r) == Height(b)
    ensures At(r, p) == t
    ensures forall q :: InBounds(b, q) && q != p ==> At(r, q) == At(b, q)
  {
    b[p.x := b[p.x][p.y := t]]
  }

  /** The board with every tile rewritten by `f`, which sees the tile's position. */
  function MapCells(b: Board, f: (Pos, Tile) -> Tile): (r: Board)
    ensures Width(r) == Width(b) && Height(r) == Height(b)
    ensures forall q :: InBounds(b, q) ==> At(r, q) == f(q, At(b, q))
  {
    seq(|b|, x requires 0 <= x < |b| =>
      seq(|b[x]|, y requires 0 <= y < |b[x]| => f(Pos(x, y), b[x][y])))
  }

  /** Every position on the board. */
  function AllCells(b: Board): (r: set<Pos>)
    ensures forall q :: q in r <==> InBounds(b, q)
  {
    set x, y | 0 <= x < Width(b) && 0 <= y < Height(b) :: Pos(x, y)
  }

  /** No position occurs twice. */
  predicate Distinct(s: seq<Pos>) {
    forall i, j :: 0 <= i < j < |s| ==> s[i] != s[j]
  }

  /**
   Column-major order, the order of the engine's nested `for` loops over
   columns and then rows: all of column x, bottom to top, before column x + 1.
   */
  predicate ScansBefore(p: Pos, q: Pos) {
    p.x < q.x || (p.x == q.x && p.y < q.y)
  }

  /**
   The first cell at or after `(x, y)`, in scan order, whose tile satisfies
   `wanted`; the nested `for` loops of the engine's lookups.
   */
  function ScanFrom(b: Board, wanted: Tile -> bool, x: nat, y: nat): (r: W.Option<Pos>)
    requires x <= Width(b) && y <= Height(b)
    decreases Width(b) - x, Height(b) - y
    ensures r.Some? ==> InBounds(b, r.value) && wanted(At(b, r.value))
    ensures r.Some? ==> !ScansBefore(r.value, Pos(x, y))
    ensures forall q :: InBounds(b, q) && !ScansBefore(q, Pos(x, y)) && wanted(At(b, q)) ==>
      r.Some? && !ScansBefore(q, r.value)
  {
    if x == Width(b) then W.None
    else if y == Height(b) then ScanFrom(b, wanted, x + 1, 0)
    else if wanted(b[x][y]) then W.Some(Pos(x, y))
    else ScanFrom(b, wanted, x, y + 1)
  }

  /**
   The first cell of the whole board, in scan order, whose tile satisfies
   `wanted`, or nothing if no tile does.
   */
  function FirstCell(b: Board, wanted: Tile -> bool): (r: W.Option<Pos>)
    ensures r.Some? ==> InBounds(b, r.value) && wanted(At(b, r.value))
    ensures r.Some? ==> forall q :: InBounds(b, q) && ScansBefore(q, r.value) ==> !wanted(At(b, q))
    ensures r.None? <==> forall q :: InBounds(b, q) ==> !wanted(At(b, q))
  {
    ScanFrom(b, wanted, 0, 0)
  }

  /**
   Row-major order, the order of the board's position enumerator: all of
   row y, left to right, before row y + 1.
   */
  predicate RowScansBefore(p: Pos, q: Pos) {
    p.y < q.y || (p.y == q.y && p.x < q.x)
  }

  /** The first cell at or after `(x, y)`, in row-major order, whose tile satisfies `wanted`. */
  function RowScanFrom(b: Board, wanted: Tile -> bool, x: nat, y: nat): (r: W.Option<Pos>)
    requires x <= Width(b) && y <= Height(b)
    decreases Height(b) - y, Width(b) - x
    ensures r.Some? ==> InBounds(b, r.value) && wanted(At(b, r.value))
    ensures r.Some? ==> !RowScansBefore(r.value, Pos(x, y))
    ensures forall q :: InBounds(b, q) && !RowScansBefore(q, Pos(x, y)) && wanted(At(b, q)) ==>
      r.Some? && !RowScansBefore(q, r.value)
  {
    if y == Height(b) then W.None
    else if x == Width(b) then RowScanFrom(b, wanted, 0, y + 1)
    else if wanted(b[x][y]) then W.Some(Pos(x, y))
    else RowScanFrom(b, wanted, x + 1, y)
  }

  /**
   The first cell of the whole board, in row-major order, whose tile
   satisfies `wanted`, or nothing if no tile does.
   */
  function FirstCellByRows(b: Board, wanted: Tile -> bool): (r: W.Option<Pos>)
    ensures r.Some? ==> InBounds(b, r.value) && wanted(At(b, r.value))
    ensures r.Some? ==> forall q :: InBounds(b, q) && RowScansBefore(q, r.value) ==> !wanted(At(b, q))
    ensures r.None? <==> forall q :: InBounds(b, q) ==> !wanted(At(b, q))
  {
    RowScanFrom(b, wanted, 0, 0)
  }
}
