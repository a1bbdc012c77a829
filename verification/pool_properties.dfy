/**
  Properties of `Pool<T>` (src/Pool.ts) that relate several operations: the
  invariant every operation keeps, LIFO reuse, exclusive ownership of handed-out
  objects, and `releaseAll` as a sequence of single releases.
 */
module PoolProperties {
  import opened Limits
  import opened ObjectPool

  /** Releasing the objects one at a time, in order, as the limits test does. */
  function ReleaseEach(p: Pool, xs: seq<ObjId>): Pool
    decreases |xs|
  {
    if xs == [] then p else ReleaseEach(Release(p, xs[0]), xs[1..])
  }

  /** The result of calling `create` several times: the pool afterwards and the
      objects handed out, in order. */
  datatype Batch = Batch(pool: Pool, objs: seq<ObjId>)

  /** `create` called `n` times in a row. On an empty free list every call
      constructs a new object, never handed out before and distinct from the
      others, and every one of them is owned by the caller afterwards. */
  function CreateMany(p: Pool, n: nat): (b: Batch)
    ensures |b.objs| == n
    ensures b.pool.limit == p.limit && p.next <= b.pool.next
    ensures p.free == [] ==> b.pool.free == []
    ensures p.free == [] ==> forall i | 0 <= i < n :: p.next <= b.objs[i] && Live(b.pool, b.objs[i])
    ensures p.free == [] ==> Distinct(b.objs)
    ensures forall y | Live(p, y) :: Live(b.pool, y)
    decreases n
  {
    if n == 0 then Batch(p, [])
    else
      var c := Create(p);
      var rest := CreateMany(c.pool, n - 1);
      Batch(rest.pool, [c.obj] + rest.objs)
  }

  /** `create` keeps the invariant. */
  lemma CreatePreservesValid(p: Pool)
    requires Valid(p)
    ensures Valid(Create(p).pool)
  {
    var c := Create(p);
    if |p.free| > 0 {
      var last := |p.free| - 1;
      forall i | 0 <= i < |c.pool.free|
        ensures c.pool.free[i] in c.pool.deconstructed
      {
        assert c.pool.free[i] == p.free[i] && p.free[i] != p.free[last];
      }
    }
  }

  /** `create` hands out an object no caller owns, which its caller then owns;
      every other owned object stays owned, and no other object becomes owned.
      So two `create` calls with no `release` in between never hand the same
      object to two callers. */
  lemma CreateHandsOutUnowned(p: Pool)
    requires Valid(p)
    ensures !Live(p, Create(p).obj)
    ensures Live(Create(p).pool, Create(p).obj)
    ensures forall y | Live(p, y) :: Live(Create(p).pool, y)
    ensures forall y | Live(Create(p).pool, y) :: Live(p, y) || y == Create(p).obj
  {
    var c := Create(p);
    if |p.free| > 0 {
      assert c.obj == p.free[|p.free| - 1];
    }
  }

  /** Two `create` calls in a row return different objects. */
  lemma CreateTwiceDistinct(p: Pool)
    requires Valid(p)
    ensures Create(Create(p).pool).obj != Create(p).obj
  {
    var c := Create(p);
    CreateHandsOutUnowned(p);
    CreatePreservesValid(p);
    CreateHandsOutUnowned(c.pool);
  }

  /** `release` keeps the invariant when the caller returns an object that is
      not already stored. It may be one built outside the pool. */
  lemma ReleasePreservesValid(p: Pool, x: ObjId)
    requires Valid(p)
    requires x !in p.free
    ensures Valid(Release(p, x))
  {
    var s := p.free + [x];
    assert Distinct(s) by {
      forall i, j | 0 <= i < j < |s|
        ensures s[i] != s[j]
      {
        if j == |p.free| {
          assert s[i] == p.free[i];
        }
      }
    }
    var r := Release(p, x);
    assert r.free == s[..|r.free|];
    forall i | 0 <= i < |r.free|
      ensures r.free[i] < r.next
    {
      assert r.free[i] == s[i];
    }
  }

  /** `releaseAll` keeps the invariant when the caller returns distinct objects
      that are not already stored. They may be built outside the pool. */
  lemma ReleaseAllPreservesValid(p: Pool, xs: seq<ObjId>)
    requires Valid(p)
    requires Distinct(xs)
    requires forall i | 0 <= i < |xs| :: xs[i] !in p.free
    ensures Valid(ReleaseAll(p, xs))
  {
    var s := p.free + xs;
    assert Distinct(s) by {
      forall i, j | 0 <= i < j < |s|
        ensures s[i] != s[j]
      {
        if i < |p.free| && |p.free| <= j {
          assert s[j] == xs[j - |p.free|];
          assert s[i] in p.free;
        } else if |p.free| <= i {
          assert s[i] == xs[i - |p.free|] && s[j] == xs[j - |p.free|];
        }
      }
    }
    var r := ReleaseAll(p, xs);
    assert r.free == s[..|r.free|];
    forall i | 0 <= i < |r.free|
      ensures r.free[i] < r.next
    {
      assert r.free[i] == s[i];
      if |p.free| <= i {
        assert s[i] == xs[i - |p.free|];
      }
    }
  }

  /** `setLimit` keeps the invariant. */
  lemma SetLimitPreservesValid(p: Pool, limit: Limit)
    requires Valid(p)
    ensures Valid(SetLimit(p, limit))
  {
    var r := SetLimit(p, limit);
    assert r.free == p.free[..|r.free|];
  }

  /** After a `release` on a pool with room, the next `create` returns the
      released object and restores the free list; on a full pool the released
      object is discarded, and `create` returns something else. */
  lemma ReleaseThenCreate(p: Pool, x: ObjId)
    requires Fits(p.free, p.limit)
    requires x !in p.free
    ensures Create(Release(p, x)).obj == x <==> HasRoom(p)
    ensures HasRoom(p) ==> Create(Release(p, x)).pool.free == p.free
  {
    var r := Release(p, x);
    if HasRoom(p) {
      assert r.free == p.free + [x];
      assert (p.free + [x])[..|p.free|] == p.free;
    } else {
      assert r.free == p.free;
      if |p.free| > 0 {
        assert p.free[|p.free| - 1] in p.free;
      }
    }
  }

  /** An object built outside the pool and released to a new pool is handed out
      by the first `create`; the second `create` constructs a different one. */
  lemma OutsideObjectReused(x: ObjId)
    ensures Create(Release(New(), x)).obj == x
    ensures Create(Create(Release(New(), x)).pool).obj != x
  {
    var c := Create(Release(New(), x));
    assert c.pool.free == [];
  }

  /** Releasing the same object twice stores it twice, and src/Pool.ts does not
      guard against this. On a pool with room for both copies, two `create` calls
      then hand the object to two callers at once, so ownership is exclusive
      only for callers that release each object once. */
  lemma DoubleReleaseSharesObject(p: Pool, x: ObjId)
    requires p.limit.Unbounded? || |p.free| + 2 <= p.limit.n
    ensures Create(Release(Release(p, x), x)).obj == x
    ensures Create(Create(Release(Release(p, x), x)).pool).obj == x
  {
    var q := Release(Release(p, x), x);
    assert q.free == p.free + [x] + [x];
    var c := Create(q);
    assert c.pool.free == p.free + [x];
  }

  /** The objects of a non-empty list are its head and the objects of its tail. */
  lemma ElemsCons(xs: seq<ObjId>)
    requires xs != []
    ensures Elems(xs) == {xs[0]} + Elems(xs[1..])
  {
    assert xs == [xs[0]] + xs[1..];
  }

  /** Releasing the first object and trimming, then the rest and trimming, is
      releasing all of them and trimming once. */
  lemma TrimStep(s: seq<ObjId>, xs: seq<ObjId>, limit: Limit)
    requires xs != []
    ensures Trim(Trim(s + [xs[0]], limit) + xs[1..], limit) == Trim(s + xs, limit)
  {
    TrimAppendTrim(s + [xs[0]], xs[1..], limit);
    assert s + [xs[0]] + xs[1..] == s + xs;
  }

  /** Raising the counter past the first id, then past the rest, is raising it
      past all of them. */
  lemma IdBoundStep(next: ObjId, xs: seq<ObjId>)
    requires xs != []
    ensures IdBound(if xs[0] < next then next else xs[0] + 1, xs[1..]) == IdBound(next, xs)
  {
    var n0 := if xs[0] < next then next else xs[0] + 1;
    var a := IdBound(n0, xs[1..]);
    var b := IdBound(next, xs);
    assert a <= b by {
      forall i | 0 <= i < |xs[1..]|
        ensures xs[1..][i] < b
      {
        assert xs[1..][i] == xs[i + 1];
      }
      IdBoundLeast(n0, xs[1..], b);
    }
    assert b <= a by {
      forall i | 0 <= i < |xs|
        ensures xs[i] < a
      {
        if i > 0 {
          assert xs[i] == xs[1..][i - 1];
        }
      }
      IdBoundLeast(next, xs, a);
    }
  }

  /** Releasing the first object alone and then the rest in one batch is the same
      as releasing the whole batch. */
  lemma ReleaseAllStep(p: Pool, xs: seq<ObjId>)
    requires xs != []
    ensures ReleaseAll(Release(p, xs[0]), xs[1..]) == ReleaseAll(p, xs)
  {
    var q := Release(p, xs[0]);
    var r := ReleaseAll(p, xs);
    var r' := ReleaseAll(q, xs[1..]);
    assert r'.free == r.free by {
      TrimStep(p.free, xs, p.limit);
    }
    assert r'.deconstructed == r.deconstructed by {
      ElemsCons(xs);
    }
    assert r'.next == r.next by {
      assert q.next == if xs[0] < p.next then p.next else xs[0] + 1;
      IdBoundStep(p.next, xs);
    }
    assert r'.limit == r.limit;
  }

  /** `releaseAll(xs)` ends in the same state as releasing each object of `xs`
      in order: truncation composes. The pool must be within its limit, as every
      public operation leaves it. */
  lemma {:induction false} ReleaseAllIsReleaseEach(p: Pool, xs: seq<ObjId>)
    requires Fits(p.free, p.limit)
    ensures ReleaseAll(p, xs) == ReleaseEach(p, xs)
    decreases |xs|
  {
    if xs == [] {
      assert p.free + xs == p.free;
      assert Elems(xs) == {};
    } else {
      ReleaseAllIsReleaseEach(Release(p, xs[0]), xs[1..]);
      ReleaseAllStep(p, xs);
    }
  }

  /** Releasing objects one at a time leaves `min(size + count, limit)` of them. */
  lemma {:induction false} ReleaseEachSize(p: Pool, xs: seq<ObjId>)
    requires Fits(p.free, p.limit)
    ensures GetSize(ReleaseEach(p, xs)) == MinLen(GetSize(p) + |xs|, p.limit)
  {
    ReleaseAllIsReleaseEach(p, xs);
  }

  /** The "Pool limits" test, for any limit `l` and any count `n >= l`: set the
      limit of a new pool, create `n` objects, release them one by one, and the
      pool holds exactly `l`. */
  lemma LimitsScenario(l: nat, n: nat)
    requires l <= n
    ensures
      var p := SetLimit(New(), Bounded(l));
      var b := CreateMany(p, n);
      GetSize(ReleaseEach(b.pool, b.objs)) == l
  {
    var p := SetLimit(New(), Bounded(l));
    var b := CreateMany(p, n);
    ReleaseEachSize(b.pool, b.objs);
  }

  /** The test's own numbers: limit 500, 1000 objects created and released. */
  lemma LimitsScenario500()
    ensures
      var p := SetLimit(New(), Bounded(500));
      var b := CreateMany(p, 1000);
      GetSize(ReleaseEach(b.pool, b.objs)) == 500
  {
    LimitsScenario(500, 1000);
  }

  /** The "Pool" test: create an object, release it, create again, and the
      same object comes back. */
  lemma ReuseScenario()
    ensures
      var c1 := Create(New());
      var c2 := Create(Release(c1.pool, c1.obj));
      c2.obj == c1.obj && GetSize(c2.pool) == 0
  {
    var c1 := Create(New());
    ReleaseThenCreate(c1.pool, c1.obj);
  }
}
