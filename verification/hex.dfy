/**
 Hex-grid geometry of the board: integer cell positions and the six
 neighbours of a cell under the "offset column" layout, where every other
 column is shifted half a cell up.
 */
module Hex {

  /** A board cell, addressed by column `x` and row `y` (Unity's `Vector2Int`). */
  datatype Pos = Pos(x: int, y: int)

  /**
   C#'s `a % 2`: the remainder truncates toward zero, so it carries the
   sign of the dividend (`-1 % 2 == -1`), unlike Dafny's Euclidean `%`.
   */
  function TruncRem2(a: int): (r: int)
    ensures -2 < r < 2
    ensures a >= 0 ==> r >= 0
    ensures a < 0 ==> r <= 0
    ensures (a - r) % 2 == 0
  {
    if a >= 0 then a % 2 else -((-a) % 2)
  }

  /** The remainder a column must have to be an unshifted column. */
  function Polarity(zeroIsOddColumn: bool): int {
    if zeroIsOddColumn then 1 else 0
  }

  /**
   A column is shifted (an "offset column") when its truncated remainder
   modulo 2 differs from the board's polarity. Every negative odd column
   has remainder -1, so it is shifted whatever the polarity.
   */
  predicate IsOffsetColumn(zeroIsOddColumn: bool, x: int) {
    TruncRem2(x) != Polarity(zeroIsOddColumn)
  }

  /**
   The six neighbours of `p`, in the order the engine lists them. They may
   lie outside the board; callers check bounds.
   */
  function Adjacent(zeroIsOddColumn: bool, p: Pos): (r: seq<Pos>)
    ensures |r| == 6
    ensures forall i :: 0 <= i < 6 ==> -1 <= r[i].x - p.x <= 1 && -1 <= r[i].y - p.y <= 1
    ensures forall i :: 0 <= i < 6 ==> r[i] != p
    ensures forall i, j :: 0 <= i < j < 6 ==> r[i] != r[j]
    ensures Pos(p.x, p.y - 1) in r && Pos(p.x, p.y + 1) in r
    ensures !IsOffsetColumn(zeroIsOddColumn, p.x) ==>
      forall i :: 0 <= i < 6 && r[i].x != p.x ==> r[i].y in {p.y - 1, p.y}
    ensures IsOffsetColumn(zeroIsOddColumn, p.x) ==>
      forall i :: 0 <= i < 6 && r[i].x != p.x ==> r[i].y in {p.y, p.y + 1}
  {
    var x, y := p.x, p.y;
    if !IsOffsetColumn(zeroIsOddColumn, x) then
      [Pos(x - 1, y - 1), Pos(x - 1, y), Pos(x, y - 1), Pos(x, y + 1), Pos(x + 1, y - 1), Pos(x + 1, y)]
    else
      [Pos(x - 1, y), Pos(x - 1, y + 1), Pos(x, y - 1), Pos(x, y + 1), Pos(x + 1, y), Pos(x + 1, y + 1)]
  }

  /** Two neighbouring non-negative columns always have opposite shifts. */
  lemma ShiftAlternates(zeroIsOddColumn: bool, x: int)
    requires x >= 0
    ensures IsOffsetColumn(zeroIsOddColumn, x + 1) == !IsOffsetColumn(zeroIsOddColumn, x)
  {
    assert TruncRem2(x) == x % 2;
    assert TruncRem2(x + 1) == (x + 1) % 2;
  }

  /** Negative odd columns are shifted under either polarity. */
  lemma NegativeOddColumnIsOffset(zeroIsOddColumn: bool, x: int)
    requires x < 0 && x % 2 == 1
    ensures IsOffsetColumn(zeroIsOddColumn, x)
  {
    assert TruncRem2(x) == -1;
  }

  /** On non-negative columns adjacency is symmetric. */
  lemma AdjacencySymmetric(zeroIsOddColumn: bool, p: Pos, q: Pos)
    requires p.x >= 0 && q.x >= 0
    requires q in Adjacent(zeroIsOddColumn, p)
    ensures p in Adjacent(zeroIsOddColumn, q)
  {
    if q.x == p.x + 1 {
      ShiftAlternates(zeroIsOddColumn, p.x);
    } else if q.x == p.x - 1 {
      ShiftAlternates(zeroIsOddColumn, q.x);
    }
  }

  /**
   Column -1 breaks the symmetry: with `zeroIsOddColumn` set, column 0 is
   shifted and so is column -1, so (0,0) sees (-1,1) but (-1,1) does not
   see (0,0).
   */
  lemma AdjacencyAsymmetricOffBoard()
    ensures Pos(-1, 1) in Adjacent(true, Pos(0, 0))
    ensures Pos(0, 0) !in Adjacent(true, Pos(-1, 1))
  {
    assert TruncRem2(-1) == -1;
    assert Adjacent(true, Pos(0, 0))[1] == Pos(-1, 1);
  }
}
