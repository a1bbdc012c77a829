# ts-pool: a Dafny model of `Pool<T>`

`Pool<T>` (src/Pool.ts) is a generic object pool. It keeps a free list of
objects that callers have released, so it can hand them out again instead of
allocating new ones. `create` pops the most recently released object and
reinitializes it. When the free list is empty, `create` constructs a new object
instead. `release` and `releaseAll` run the deconstructor on each object, append
it to the free list, and then trim the list to the pool's limit. `setLimit`
changes the limit and trims. `clear` empties the list. `getSize` and `getLimit`
observe the state. Both the constructor and `setLimit` default the limit to
`Infinity`, which is `Unbounded` here: `New()` and `SetLimit(p)`.

The model is functional. A pool is an immutable value, and each operation is a
pure function from the old pool to the new one:

- `Limits` holds the limit (`Unbounded`, JavaScript's `Infinity`, or
  `Bounded(n)`) and the truncation `Trim` that `cleanUpPool` performs.
- `ObjectPool` holds the pool datatype and one function per public operation.
  `ReleaseAllLoop` is `releaseAll` written as the source writes it, as a loop.
  Objects are opaque ids (`ObjId`). The field `next` stands for the allocator
  behind `new this.Class(...)`. No id at or above it has been allocated by the
  pool or released to it. `release` and `releaseAll` raise it past every id
  they store, so a later fresh id never names an existing object, even one
  built outside the pool.
  The field `deconstructed` records which ids the deconstructor has run on since
  they were last constructed or reinitialized. These are the only effects of the
  user's callbacks that the model keeps.
- `PoolProperties` holds what relates several operations. It covers the
  invariant `Valid`: the list is within the limit, holds no duplicates, holds
  only deconstructed objects and holds only ids below the counter. It also covers LIFO
  reuse, exclusive ownership of handed-out objects, `releaseAll` as a sequence
  of single releases, and the two scenarios of src/Pool.test.ts.
- `DefaultDeconstructor` models `DEFAULT_DECONSTRUCTOR` on an object given as
  maps of own and inherited enumerable properties.

`getSize` and `getLimit` are the observers `GetSize` and `GetLimit`. The
contracts of `New`, `SetLimit`, `Release`, `ReleaseAll` and `Clear` are stated
through them.

Two points about the source:

- A released object is reused by the next `create` only when the pool had room
  for it. On a full pool, `release` appends the object and the trim drops it
  again. `ReleaseThenCreate` states both directions. The test at
  src/Pool.test.ts:20-40 starts from an empty, unbounded pool, so it is in the
  first case.
- src/Pool.test.ts:21 and :43 call `new Pool(Person, Person.deconstructor)`. The
  constructor at src/Pool.ts:34-44 has no two-argument overload, so that
  argument becomes the reinitializer (`Constructor`), and the pool uses
  `DEFAULT_DECONSTRUCTOR` on release. The model follows src/Pool.ts as written.
  Read that way, three assertions of the test at src/Pool.test.ts:20-40 would
  not hold: those at lines 30, 34 and 35. First, the default reset sets the own
  property `meta` to `null` (`DeconstructNullsNestedObject`), so reading
  `person.meta.age` at line 30 throws a `TypeError`. That stops the test, so
  lines 34-37 are never reached. Second, on reuse `Person.deconstructor` runs
  as the reinitializer. It sets `name` to `null`, so `newPerson.name` at line
  34 would be `null`, not `"bob"`. Third, it also sets `meta` to `{}`, so
  `newPerson.meta.age` at line 35 would be `undefined`, not 61. Only the
  identity assertion at line 37 is about the pool. `ReuseScenario` models that
  one, and it holds whatever the callbacks do.

## Model

| member | source | states |
|---|---|---|
| Limits.Trim | src/Pool.ts:88-91 | The trimmed list is a prefix of the original, fits the limit, and has length min(length, limit). It equals the original exactly when the original already fits. |
| Limits.TrimIsLongestFittingPrefix | src/Pool.ts:88-91 | Every prefix that fits the limit is a prefix of the trimmed list. So trimming keeps the longest fitting prefix and evicts only from the tail. |
| Limits.TrimAppendTrim | src/Pool.ts:88-91 | Trimming, then appending, then trimming again gives the same list as appending and trimming once. Truncation composes. |
| ObjectPool.New | src/Pool.ts:34-44 | A new pool has size 0, the given limit, and satisfies the pool invariant. No object is owned by a caller yet. |
| ObjectPool.GetLimit | src/Pool.ts:46-48 | getLimit returns the cap that the free list of a valid pool respects. |
| ObjectPool.GetSize | src/Pool.ts:84-86 | getSize is 0 exactly when no object is stored. For a valid pool with a finite limit, it is at most that limit. |
| ObjectPool.CleanUp | src/Pool.ts:88-93 | After cleanUpPool the free list fits the limit, is a prefix of the old list, and has size min(size, limit). It is a no-op exactly when the list already fits. The limit and object states are unchanged. |
| ObjectPool.SetLimit | src/Pool.ts:46-52 | Afterwards getLimit returns the new limit, getSize is min(old size, new limit), and the free list is a prefix of the old one. |
| ObjectPool.Create | src/Pool.ts:54-63 | On a non-empty list, create returns the last element, and the list without it remains (LIFO). On an empty list, the list stays empty and the object is newly allocated, above every earlier id. Reuse allocates nothing, and a fresh create allocates exactly one id. Either way, only the returned object leaves the deconstructed state. |
| ObjectPool.Release | src/Pool.ts:65-69 | Only the object is newly deconstructed. The list is a prefix of old ++ [x] of size min(old size + 1, limit). The object is kept exactly when old ++ [x] fits, and objects stored in the list stay deconstructed. The id counter moves past x only if x was at or above it. |
| ObjectPool.ReleaseAll | src/Pool.ts:71-77 | Exactly the released objects are newly deconstructed. The list is a prefix of old ++ xs within the limit, of size min(old size + number released, limit). Objects stored in the list stay deconstructed. The id counter becomes the least value at or above its old value that is past every released id. |
| ObjectPool.ReleaseAllLoop | src/Pool.ts:71-77 | The loop that deconstructs and pushes each object, followed by one trim, ends in the state ReleaseAll describes. |
| ObjectPool.Clear | src/Pool.ts:79-82 | Afterwards the size is 0 and the limit is unchanged. No object is deconstructed again, and the pool invariant holds. |
| PoolProperties.CreateMany | src/Pool.ts:54-63 | n creates on an empty list return n distinct, newly allocated objects, and all of them are owned by the caller. The list stays empty. Objects owned before stay owned. |
| PoolProperties.CreatePreservesValid | src/Pool.ts:54-63 | create keeps the invariant: within the limit, no duplicates, stored objects deconstructed, stored ids below the counter. |
| PoolProperties.CreateHandsOutUnowned | src/Pool.ts:54-63 | create hands out an object that no caller owned, and the caller owns it afterwards. Every other owned object stays owned, and no other object becomes owned. |
| PoolProperties.CreateTwiceDistinct | src/Pool.ts:54-63 | Two creates with no release in between return different objects. |
| PoolProperties.ReleasePreservesValid | src/Pool.ts:65-69 | release of any object that is not already stored keeps the invariant, including the size-within-limit part. The object may be one built outside the pool. |
| PoolProperties.ReleaseAllPreservesValid | src/Pool.ts:71-77 | releaseAll of distinct objects that are not already stored keeps the invariant. They may be built outside the pool. |
| PoolProperties.SetLimitPreservesValid | src/Pool.ts:49-52 | setLimit keeps the invariant for any new limit. |
| PoolProperties.ReleaseThenCreate | src/Pool.ts:54-69 | After release(x), create returns x if and only if the pool had room. With room, the free list is back to what it was. |
| PoolProperties.OutsideObjectReused | src/Pool.ts:54-69 | An object built outside the pool and released to a new pool comes back from the first create. The second create constructs a different object. |
| PoolProperties.DoubleReleaseSharesObject | src/Pool.ts:65-69 | On a pool with room for both copies, releasing one object twice makes the next two creates both return it. The no-double-release discipline is needed for exclusive ownership. |
| PoolProperties.ReleaseAllStep | src/Pool.ts:65-77 | Releasing the head alone and then the tail as a batch gives the same state as releasing the whole batch. |
| PoolProperties.ReleaseAllIsReleaseEach | src/Pool.ts:65-77 | releaseAll(xs) gives the same state (list, limit, allocator, deconstructed objects) as releasing each object of xs in order. |
| PoolProperties.ReleaseEachSize | src/Pool.ts:65-69 | Releasing k objects one at a time leaves min(size + k, limit) objects in the list. |
| PoolProperties.LimitsScenario | src/Pool.test.ts:42-57 | With limit l, creating n >= l objects and releasing them one by one leaves size l. |
| PoolProperties.LimitsScenario500 | src/Pool.test.ts:42-57 | The test's numbers: limit 500 and 1000 objects leave size 500. |
| PoolProperties.ReuseScenario | src/Pool.test.ts:20-40 | create, release and create again return the same object, and leave the pool empty. |
| DefaultDeconstructor.Deconstruct | src/Pool.ts:15-21 | Every own property keeps its key and is set to null. Inherited properties are untouched. |
| DefaultDeconstructor.DeconstructFixesCleared | src/Pool.ts:15-21 | The default deconstructor leaves an object unchanged exactly when all its own properties are already null. |
| DefaultDeconstructor.DeconstructNullsNestedObject | src/Pool.ts:15-21 | An own property that holds an object reference, such as the test's `meta`, becomes null rather than an empty object. |
| DefaultDeconstructor.DeconstructIdempotent | src/Pool.ts:15-21 | Running the default deconstructor twice is the same as running it once. |

## Left out

- Callback behaviour: what `Class`, `Constructor` (the reinitializer) and `Deconstructor` do to an object's fields is not modelled, and neither are the argument lists passed to them. The model keeps only whether an object is in the deconstructed state.
- Exceptions thrown by callbacks are not modelled. Each operation is modelled as completing.
- The truthiness test at src/Pool.ts:57 is not modelled. The model assumes `T` is an object type, so a popped element is always truthy and is reused. A falsy pooled value would be popped and then lost.
- Limits other than a natural number or `Infinity` are not modelled, and src/Pool.ts behaves differently for each kind. A negative limit makes `this.pool.length = limit` at src/Pool.ts:90 throw `RangeError` at the first trim, even on an empty list. A fractional limit throws only once the list grows past it. A `NaN` limit never throws: the comparison at src/Pool.ts:89 is false, so line 90 is never reached and trimming is silently disabled.
- Object identity is an id, and `new this.Class` is a per-pool counter that `release` and `releaseAll` raise past every id they store. An object built outside the pool and released to it is stored and reused like any other, as in src/Pool.ts. Releasing the same object twice is allowed by the operations, and src/Pool.ts does not guard against it. The invariant lemmas require that callers do not do it.
- DefaultDeconstructor.Deconstruct: only own and inherited enumerable properties are modelled. Non-enumerable properties, getters and setters, and numbers other than integers are not.
- The method-chaining return value (`return this`) is not modelled. Each operation returns the new pool value.
- src/Pool.benchmark.ts is timing and console output, and is not part of this model.
- src/Pool.test.ts is used only as a source of scenarios.
