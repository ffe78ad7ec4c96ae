/**
 A small reuse pool: released objects wait in a list and are handed out
 again oldest first; only when the list is empty is a new object made.
 The factory is a caller-supplied function, so the object it would make is
 passed in as `made`.
 */
module ReleasePool {

  /** The released objects, oldest first. */
  datatype Pool<T> = Pool(released: seq<T>)

  /** A pool with nothing released yet. */
  function Empty<T>(): (p: Pool<T>)
    ensures |p.released| == 0
  {
    Pool([])
  }

  /** The outcome of `Get`: the object, the pool after it, and whether the factory was used. */
  datatype Taken<T> = Taken(obj: T, pool: Pool<T>, madeNew: bool)

  /**
   Hands out the oldest released object and drops it from the pool; with
   nothing released, the factory's object is handed out and the pool stays
   empty.
   */
  function Get<T>(p: Pool<T>, made: T): (r: Taken<T>)
    ensures r.madeNew <==> |p.released| == 0
    ensures r.madeNew ==> r.obj == made && r.pool == p
    ensures !r.madeNew ==> r.obj == p.released[0] && |r.pool.released| == |p.released| - 1
    ensures !r.madeNew ==> forall i :: 0 <= i < |r.pool.released| ==> r.pool.released[i] == p.released[i + 1]
  {
    if |p.released| > 0 then Taken(p.released[0], Pool(p.released[1..]), false)
    else Taken(made, p, true)
  }

  /** Puts `obj` at the back of the pool; the objects already there keep their order. */
  function Release<T>(p: Pool<T>, obj: T): (r: Pool<T>)
    ensures |r.released| == |p.released| + 1
    ensures r.released[|p.released|] == obj
    ensures forall i :: 0 <= i < |p.released| ==> r.released[i] == p.released[i]
  {
    Pool(p.released + [obj])
  }

  /** Releases the objects of `xs` one after another. */
  function ReleaseAll<T>(p: Pool<T>, xs: seq<T>): (r: Pool<T>)
    ensures |r.released| == |p.released| + |xs|
    decreases |xs|
  {
    if |xs| == 0 then p else ReleaseAll(Release(p, xs[0]), xs[1..])
  }

  /** `k` successive `Get`s; `made` stands for what the factory makes each time. */
  function GetMany<T>(p: Pool<T>, k: nat, made: T): (r: (seq<T>, Pool<T>))
    ensures |r.0| == k
    decreases k
  {
    if k == 0 then ([], p)
    else
      var t := Get(p, made);
      var (rest, p') := GetMany(t.pool, k - 1, made);
      ([t.obj] + rest, p')
  }

  /** Releasing `obj` into an empty pool and getting once hands back `obj` and empties the pool. */
  lemma ReleaseThenGet<T>(obj: T, made: T)
    ensures var r := Get(Release(Empty(), obj), made);
      r.obj == obj && !r.madeNew && r.pool == Empty()
  {
  }

  /** Releasing `a` then `b` into an empty pool, two `Get`s return `a` then `b`. */
  lemma FirstInFirstOut<T>(a: T, b: T, made: T)
    ensures var r1 := Get(Release(Release(Empty(), a), b), made);
      var r2 := Get(r1.pool, made);
      r1.obj == a && r2.obj == b && !r1.madeNew && !r2.madeNew && r2.pool == Empty()
  {
    var p := Release(Release(Empty(), a), b);
    assert p.released == [a, b];
  }

  /** Releasing a batch appends it, in order, behind what was already there. */
  lemma {:induction false} ReleaseAllAppends<T>(p: Pool<T>, xs: seq<T>)
    ensures ReleaseAll(p, xs).released == p.released + xs
    decreases |xs|
  {
    if |xs| > 0 {
      ReleaseAllAppends(Release(p, xs[0]), xs[1..]);
      assert p.released + [xs[0]] + xs[1..] == p.released + xs;
    }
  }

  /**
   As many `Get`s as there are released objects return exactly those
   objects, in release order, and leave the pool empty.
   */
  lemma {:induction false} GetManyDrains<T>(p: Pool<T>, made: T)
    ensures GetMany(p, |p.released|, made) == (p.released, Empty())
    decreases |p.released|
  {
    if |p.released| > 0 {
      var t := Get(p, made);
      assert t.pool.released == p.released[1..];
      GetManyDrains(t.pool, made);
      assert [p.released[0]] + p.released[1..] == p.released;
    }
  }

  /** Any batch released into an empty pool comes back out in the same order. */
  lemma ReleaseAllThenGetAll<T>(xs: seq<T>, made: T)
    ensures GetMany(ReleaseAll(Empty(), xs), |xs|, made) == (xs, Empty())
  {
    ReleaseAllAppends(Empty<T>(), xs);
    assert ReleaseAll(Empty<T>(), xs).released == xs;
    GetManyDrains(ReleaseAll(Empty<T>(), xs), made);
  }
}
