/**
  The state machine of `Pool<T>` (src/Pool.ts): a bounded LIFO free list of
  reusable objects. Objects are opaque ids; the user's `Class`, `Constructor`
  (reinitializer) and `Deconstructor` callbacks are abstract, and what the model
  keeps of their effect is which ids are currently in the deconstructed state.
 */
module ObjectPool {
  import opened Limits

  /** An object reference. Object references are always truthy in JavaScript,
      so a popped element always takes the reuse branch of `create`. */
  type ObjId = nat

  /** The pool and the part of the world it touches:
      - `free` is the free list `this.pool`, oldest entry first;
      - `limit` is `this.limit`;
      - `next` stands for `new this.Class(...)`: no id at or above it has been
        allocated by the pool or released to it, so a fresh id never names an
        object that already exists, even one built outside the pool;
      - `deconstructed` holds the ids whose deconstructor has run since they
        were last constructed or reinitialized. */
  datatype Pool = Pool(free: seq<ObjId>, limit: Limit, next: ObjId, deconstructed: set<ObjId>)

  /** The result of `create`: the pool afterwards and the object handed out. */
  datatype Created = Created(pool: Pool, obj: ObjId)

  /** The least id counter at or above `next` that lies above every id in `xs`:
      the counter after `xs` are released, so that later fresh ids never name
      one of them. */
  function IdBound(next: ObjId, xs: seq<ObjId>): (b: ObjId)
    ensures next <= b
    ensures forall i | 0 <= i < |xs| :: xs[i] < b
    ensures b == next || exists i | 0 <= i < |xs| :: b == xs[i] + 1
    decreases |xs|
  {
    if xs == [] then next
    else
      var b := IdBound(next, xs[..|xs| - 1]);
      if xs[|xs| - 1] < b then b else xs[|xs| - 1] + 1
  }

  /** `IdBound` is the least such counter. */
  lemma IdBoundLeast(next: ObjId, xs: seq<ObjId>, c: ObjId)
    requires next <= c
    requires forall i | 0 <= i < |xs| :: xs[i] < c
    ensures IdBound(next, xs) <= c
  {
  }

  /** The objects of a list, as a set. */
  function Elems(xs: seq<ObjId>): set<ObjId> {
    set x | x in xs
  }

  /** No object appears twice in the list. */
  predicate Distinct(xs: seq<ObjId>) {
    forall i, j | 0 <= i < j < |xs| :: xs[i] != xs[j]
  }

  /** Every object stored in the free list is in the deconstructed state. */
  predicate StoredDeconstructed(p: Pool) {
    forall i | 0 <= i < |p.free| :: p.free[i] in p.deconstructed
  }

  /** The invariant of a pool whose callers release only objects they own: the
      free list is within the limit, holds no object twice, holds only
      deconstructed objects, and holds only objects that were allocated. */
  predicate Valid(p: Pool) {
    && Fits(p.free, p.limit)
    && Distinct(p.free)
    && StoredDeconstructed(p)
    && (forall i | 0 <= i < |p.free| :: p.free[i] < p.next)
  }

  /** An object a caller currently owns: allocated, and not deconstructed since
      it was last handed out. */
  predicate Live(p: Pool, x: ObjId) {
    x < p.next && x !in p.deconstructed
  }

  /** A release would keep the released object. */
  predicate HasRoom(p: Pool) {
    p.limit.Unbounded? || |p.free| < p.limit.n
  }

  /** `new Pool(Class, Constructor, Deconstructor, limit)`: an empty free list.
      The limit defaults to `Infinity`. */
  function New(limit: Limit := Unbounded): (p: Pool)
    ensures GetSize(p) == 0 && GetLimit(p) == limit
    ensures Valid(p)
    ensures forall x :: !Live(p, x)
  {
    Pool([], limit, 0, {})
  }

  /** `getLimit()`: the cap that the free list of a valid pool respects. */
  function GetLimit(p: Pool): (l: Limit)
    ensures Valid(p) ==> Fits(p.free, l)
  {
    p.limit
  }

  /** `getSize()`: the number of stored objects, zero exactly when none is
      stored, and within the limit for a valid pool. */
  function GetSize(p: Pool): (n: nat)
    ensures n == 0 <==> p.free == []
    ensures Valid(p) && p.limit.Bounded? ==> n <= p.limit.n
  {
    |p.free|
  }

  /** `cleanUpPool()`: enforce the limit by truncating the free list. */
  function CleanUp(p: Pool): (r: Pool)
    ensures Fits(r.free, r.limit)
    ensures r.free <= p.free
    ensures GetSize(r) == MinLen(GetSize(p), p.limit)
    ensures Fits(p.free, p.limit) <==> r == p
    ensures r.limit == p.limit && r.next == p.next && r.deconstructed == p.deconstructed
  {
    p.(free := Trim(p.free, p.limit))
  }

  /** `setLimit(limit)`: replace the limit, then trim. The limit defaults to
      `Infinity`, so `setLimit()` removes the cap. */
  function SetLimit(p: Pool, limit: Limit := Unbounded): (r: Pool)
    ensures GetLimit(r) == limit
    ensures GetSize(r) == MinLen(GetSize(p), limit)
    ensures r.free <= p.free
    ensures r.next == p.next && r.deconstructed == p.deconstructed
  {
    CleanUp(p.(limit := limit))
  }

  /** `create(...args)`: pop the most recently stored object and reinitialize
      it, or, when the free list is empty, construct a new one. */
  function Create(p: Pool): (c: Created)
    ensures |p.free| > 0 ==> c.obj == p.free[|p.free| - 1] && c.pool.free + [c.obj] == p.free
    ensures |p.free| == 0 ==> c.pool.free == [] && p.next <= c.obj < c.pool.next
    ensures c.obj !in c.pool.deconstructed
    ensures c.pool.limit == p.limit
    ensures |p.free| > 0 ==> c.pool.next == p.next
    ensures |p.free| == 0 ==> c.pool.next == p.next + 1
    ensures c.pool.deconstructed == p.deconstructed - {c.obj}
  {
    if |p.free| > 0 then
      var obj := p.free[|p.free| - 1];
      Created(p.(free := p.free[..|p.free| - 1], deconstructed := p.deconstructed - {obj}), obj)
    else
      Created(p.(next := p.next + 1, deconstructed := p.deconstructed - {p.next}), p.next)
  }

  /** `release(object, ...args)`: deconstruct the object, append it, then trim. */
  function Release(p: Pool, x: ObjId): (r: Pool)
    ensures Fits(r.free, r.limit)
    ensures r.free <= p.free + [x]
    ensures r.free == p.free + [x] <==> Fits(p.free + [x], p.limit)
    ensures GetSize(r) == MinLen(GetSize(p) + 1, p.limit)
    ensures r.deconstructed == p.deconstructed + {x}
    ensures StoredDeconstructed(p) ==> StoredDeconstructed(r)
    ensures r.limit == p.limit
    ensures x < r.next && (x < p.next ==> r.next == p.next) && (p.next <= x ==> r.next == x + 1)
  {
    var next := if x < p.next then p.next else x + 1;
    CleanUp(p.(free := p.free + [x], next := next, deconstructed := p.deconstructed + {x}))
  }

  /** `releaseAll(objects, ...args)`: deconstruct and append every object in
      order, then trim once. */
  function ReleaseAll(p: Pool, xs: seq<ObjId>): (r: Pool)
    ensures Fits(r.free, r.limit)
    ensures r.free <= p.free + xs
    ensures GetSize(r) == MinLen(GetSize(p) + |xs|, p.limit)
    ensures r.deconstructed == p.deconstructed + Elems(xs)
    ensures forall i | 0 <= i < |xs| :: xs[i] in r.deconstructed
    ensures StoredDeconstructed(p) ==> StoredDeconstructed(r)
    ensures r.limit == p.limit && r.next == IdBound(p.next, xs)
  {
    CleanUp(p.(free := p.free + xs, next := IdBound(p.next, xs), deconstructed := p.deconstructed + Elems(xs)))
  }

  /** `releaseAll` as written: a loop that deconstructs and pushes one object
      at a time, and a single trim after it. */
  method ReleaseAllLoop(p: Pool, xs: seq<ObjId>) returns (r: Pool)
    ensures r == ReleaseAll(p, xs)
  {
    var free := p.free;
    var deconstructed := p.deconstructed;
    var next := p.next;
    for i := 0 to |xs|
      invariant free == p.free + xs[..i]
      invariant deconstructed == p.deconstructed + Elems(xs[..i])
      invariant next == IdBound(p.next, xs[..i])
    {
      assert xs[..i + 1] == xs[..i] + [xs[i]];
      assert xs[..i + 1][..i] == xs[..i];
      deconstructed := deconstructed + {xs[i]};
      if next <= xs[i] {
        next := xs[i] + 1;
      }
      free := free + [xs[i]];
    }
    assert xs[..|xs|] == xs;
    r := CleanUp(p.(free := free, next := next, deconstructed := deconstructed));
  }

  /** `clear()`: empty the free list without deconstructing anything again. */
  function Clear(p: Pool): (r: Pool)
    ensures GetSize(r) == 0
    ensures GetLimit(r) == GetLimit(p)
    ensures r.deconstructed == p.deconstructed && r.next == p.next
    ensures Valid(r)
  {
    p.(free := [])
  }
}
