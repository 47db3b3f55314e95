# Sharded LRU cache (`cache::NWayLRU`)

This project models `cache::NWayLRU`, the sharded LRU cache of the userver
framework (`core/include/cache/nway_lru_cache.hpp`), in Dafny and proves
properties of the model.

The cache holds a fixed vector of *ways*. Each way is an independent
single-way LRU cache (`cache::LRU`) with its own mutex and the same
capacity. A key always lives in the way `hash(key) % ways`. Every keyed
operation (`Put`, `Get`, `GetOr`, `InvalidateByKey`) forwards to exactly one
way. The whole-cache operations (`Invalidate`, `VisitAll`, `GetSize`,
`UpdateWaySize`) walk over all ways in order.

Layout:

- `wrappers.dfy`: `Option` (the model of `boost::optional`) and `Result`.
- `lru_spec.dfy` (`LruSpec`): a pure model of one LRU way. It is a list of
  `Entry(key, value)` ordered from least to most recently used, with distinct
  keys. It defines `Find`, `Remove`, `Trim` (drop the oldest entries down to a
  capacity), `Put` and `Touch` (move a hit to the most-recent end), and
  proves the LRU laws about them.
- `lru_cache.dfy` (`LruCache`): the way's engine as a class `Lru`. Each
  method updates `entries`/`maxSize` in place and states its new state
  through the `LruSpec` functions.
- `nway_spec.dfy` (`NWaySpec`): the routing function, the *partition*
  invariant, and whole-cache transition functions. The invariant says every
  entry sits in the way its key routes to and keys are distinct within a
  way. `PutAt`, `TouchAt`, `EraseAt`, `ValidatedGet`, `ClearAll` and
  `ResizeAll` each map the contents of all ways to their new contents. The
  lemmas prove what each transition promises: the invariant is kept, only
  the routed way changes, and lookups behave as expected.
- `nway_lru_cache.dfy` (`NWayLruCache`): the facade as a class `NWayLru`. It
  holds a vector of `Lru` objects (never resized, mutated in place) and the
  hash function. Each method is proved to move the ways' contents exactly
  as the corresponding `NWaySpec` transition does, and to keep `Valid()`.
  `Valid()` means: at least one way, the ways are distinct objects, every
  way has the common capacity `waySize`, and the contents are partitioned.

## Model

| member | source | states |
|---|---|---|
| NWayLruCache.NWayLru.Create | core/include/cache/nway_lru_cache.hpp:60-67 | zero ways is a `Failure(InvalidConfiguration)` (the `logic_error`); otherwise a valid cache with `ways` distinct, empty ways, each of capacity `way_size` |
| NWayLruCache.NWayLru.constructor | core/include/cache/nway_lru_cache.hpp:48 | builds `ways` fresh, empty placeholder ways of capacity 1 (the capacity is reset afterwards) |
| LruCache.Lru.constructor | core/include/cache/nway_lru_cache.hpp:48 | a new engine is empty and has the given capacity (1 for the placeholder ways) |
| NWayLruCache.NWayLru.WayIndex | core/include/cache/nway_lru_cache.hpp:145 | the way index of a key lies inside the vector of ways; it reads no mutable state, so it depends only on the key, the fixed hash and the fixed number of ways, and never on capacities or contents |
| NWayLruCache.NWayLru.GetWay | core/include/cache/nway_lru_cache.hpp:143-147 | returns the way object at index `hash(key) % ways` |
| NWaySpec.Route | core/include/cache/nway_lru_cache.hpp:145 | the routed index is below the number of ways |
| NWayLruCache.NWayLru.Put | core/include/cache/nway_lru_cache.hpp:69-75 | the new contents are `PutAt` of the old: only the routed way changes, by an LRU put at the common capacity; the invariant is kept |
| NWaySpec.PutAtSpec | core/include/cache/nway_lru_cache.hpp:69-75 | a put keeps the partition invariant, changes no other way, and leaves the routed way within capacity |
| NWaySpec.PutAtLookup | core/include/cache/nway_lru_cache.hpp:69-75 | after `Put(k, v)` with a positive capacity, a lookup of `k` gives `v`; any other key gives its old value or nothing (it may have been evicted) |
| NWayLruCache.NWayLru.GetValidated | core/include/cache/nway_lru_cache.hpp:77-91 | result and new contents are `ValidatedGet` of the old contents |
| NWaySpec.ValidatedGetSpec | core/include/cache/nway_lru_cache.hpp:79-91 | three outcomes. A miss changes nothing. A hit that passes the validator returns the value and touches the key. A hit that fails returns nothing and leaves exactly the state of erasing the key (the touch before the erase is invisible). Any value returned satisfies the validator; the invariant is kept; other keys keep their values |
| NWayLruCache.NWayLru.Get | core/include/cache/nway_lru_cache.hpp:25-27 | returns the routed way's value for the key (or nothing) and touches the key |
| NWaySpec.PlainGetSpec | core/include/cache/nway_lru_cache.hpp:25-27 | the validated get with an always-true validator is exactly a lookup plus a touch |
| NWayLruCache.NWayLru.GetOr | core/include/cache/nway_lru_cache.hpp:100-105 | returns the stored value or the default, and touches the key like `Get` |
| NWaySpec.TouchAtSpec | core/include/cache/nway_lru_cache.hpp:83 | a touch keeps the invariant, changes no other way and changes no lookup result |
| NWayLruCache.NWayLru.InvalidateByKey | core/include/cache/nway_lru_cache.hpp:93-98 | the new contents are `EraseAt` of the old |
| NWaySpec.EraseAtSpec | core/include/cache/nway_lru_cache.hpp:93-98 | erasing keeps the invariant and changes no other way; afterwards the key misses, and every other key keeps its lookup result |
| NWayLruCache.NWayLru.Invalidate | core/include/cache/nway_lru_cache.hpp:107-113 | every way is emptied, capacities are unchanged |
| NWaySpec.ClearAllSpec | core/include/cache/nway_lru_cache.hpp:107-113 | after clearing, the invariant holds, the total size is 0 and every lookup misses |
| NWayLruCache.NWayLru.UpdateWaySize | core/include/cache/nway_lru_cache.hpp:134-140 | every way gets capacity `n` and keeps its `n` most recent entries (`ResizeAll`) |
| NWaySpec.ResizeAllSpec | core/include/cache/nway_lru_cache.hpp:134-140 | after resizing, the invariant holds, a way that held `m` entries keeps exactly `min(m, n)`, its most recent ones, and the total is at most `ways * n` |
| NWayLruCache.NWayLru.GetSize | core/include/cache/nway_lru_cache.hpp:124-132 | the result is the sum of the way sizes, and is at most `ways * way_size` |
| NWaySpec.FlattenSize | core/include/cache/nway_lru_cache.hpp:124-132 | the sum of the way sizes equals the number of entries visited by `VisitAll` |
| NWaySpec.BoundedTotal | core/include/cache/nway_lru_cache.hpp:124-132 | if each way holds at most `n` entries, the total is at most `ways * n` |
| NWaySpec.EmptyTotal | core/include/cache/nway_lru_cache.hpp:107-113 | if all ways are empty, the total is 0 |
| NWayLruCache.NWayLru.VisitAll | core/include/cache/nway_lru_cache.hpp:115-122 | visits the ways in order and each way's entries: no key is visited twice, the count equals `GetSize`, and `(k, v)` is visited iff a lookup of `k` gives `v` |
| NWaySpec.FlattenMember | core/include/cache/nway_lru_cache.hpp:115-122 | an entry is visited iff it is stored in some way |
| NWaySpec.FlattenDistinct | core/include/cache/nway_lru_cache.hpp:115-122 | under the partition invariant, the visited entries have distinct keys (a key lives in only one way) |
| NWaySpec.VisitedIsLookup | core/include/cache/nway_lru_cache.hpp:115-122 | under the invariant, `(k, v)` is visited iff the routed way maps `k` to `v` |
| LruCache.Lru.Put | core/include/cache/nway_lru_cache.hpp:74 | the way's new entries are `LruSpec.Put` of the old ones at its capacity; keys stay distinct and within capacity |
| LruCache.Lru.Get | core/include/cache/nway_lru_cache.hpp:83 | returns the stored value (or nothing) and moves a hit to the most-recent end |
| LruCache.Lru.GetOr | core/include/cache/nway_lru_cache.hpp:104 | returns the stored value or the default, touching the key |
| LruCache.Lru.Erase | core/include/cache/nway_lru_cache.hpp:87 | removes the key's entry, keeping everything else in order |
| LruCache.Lru.Invalidate | core/include/cache/nway_lru_cache.hpp:111 | empties the way and keeps its capacity |
| LruCache.Lru.SetMaxSize | core/include/cache/nway_lru_cache.hpp:66 | sets the capacity and evicts the oldest entries down to it |
| LruCache.Lru.EvictOverflow | core/include/cache/nway_lru_cache.hpp:138 | the eviction loop drops the oldest entry until the way fits its capacity, ending at `Trim` of the old entries |
| LruCache.Lru.GetSize | core/include/cache/nway_lru_cache.hpp:129 | the number of stored entries, never above the capacity |
| LruCache.Lru.VisitAll | core/include/cache/nway_lru_cache.hpp:120 | visits exactly the stored entries, with distinct keys |
| LruSpec.Find | core/include/cache/nway_lru_cache.hpp:83 | a miss exactly when the key is not stored; a hit returns a stored entry's value |
| LruSpec.FindEntry | core/include/cache/nway_lru_cache.hpp:83 | with distinct keys, a stored entry `(k, v)` is what a lookup of `k` returns |
| LruSpec.Remove | core/include/cache/nway_lru_cache.hpp:87 | the result keeps exactly the entries with another key |
| LruSpec.RemoveDistinct | core/include/cache/nway_lru_cache.hpp:87 | removing keeps keys distinct, and shortens the way by one exactly when the key was present |
| LruSpec.FindRemove | core/include/cache/nway_lru_cache.hpp:97 | after removing `k`, `k` misses and every other key keeps its lookup result |
| LruSpec.TrimSubset | core/include/cache/nway_lru_cache.hpp:138 | trimming keeps keys distinct and only drops entries |
| LruSpec.PutDistinct | core/include/cache/nway_lru_cache.hpp:74 | a put keeps keys distinct |
| LruSpec.PutFind | core/include/cache/nway_lru_cache.hpp:74 | a put stays within capacity; with positive capacity the key then maps to the new value; other keys keep their value or were evicted, and keep it when nothing was evicted |
| LruSpec.PutElements | core/include/cache/nway_lru_cache.hpp:74 | every entry after a put is the new entry or an old entry with another key |
| LruSpec.PutAppends | core/include/cache/nway_lru_cache.hpp:74 | putting a new key into a way with room appends it at the most-recent end |
| LruSpec.PutEvictsOldest | core/include/cache/nway_lru_cache.hpp:74 | putting a new key into a full way evicts exactly the least recently used entry |
| LruSpec.TouchFind | core/include/cache/nway_lru_cache.hpp:83 | a touch keeps keys distinct, the length and every lookup result; a hit moves to the most-recent end |
| LruSpec.RemoveTouch | core/include/cache/nway_lru_cache.hpp:87 | erasing after a touch equals erasing without it (the validator-rejected path) |
| LruSpec.RemoveIdempotent | core/include/cache/nway_lru_cache.hpp:97 | erasing a key twice equals erasing it once |
| LruSpec.TouchOnRead | core/include/cache/nway_lru_cache.hpp:74-83 | with capacity 2: put a, put b, read a, put c evicts b and keeps a and c (a read protects an entry from eviction) |

## Left out

- `engine::Mutex` and the per-way lock scopes are not modelled: every
  operation is atomic here. So `GetSize`, `VisitAll`, `Invalidate` and
  `UpdateWaySize` are whole-cache snapshots. In the source they lock one
  way at a time, and concurrent writers may interleave between ways.
- `cache::LRU` (`cache/lru_cache.hpp`) is not part of this model. Its
  behaviour is taken from its role: a recency-ordered map that evicts the
  least recently used entry when full. `Get` and `GetOr` count as uses,
  `Erase` removes, `SetMaxSize` evicts down to the new capacity, and
  `VisitAll` visits each entry once. The order of `VisitAll` within one way
  is modelled as least to most recent; the source leaves it unspecified.
- The `Hash` and `Equal` functors are an arbitrary total function
  `K -> nat` and Dafny equality. `size_t` width is not modelled: no overflow
  of the hash value or of the size sum in `GetSize`.
- `VisitAll`'s callback `func` is not modelled as a call. The method
  returns the sequence of entries that would be passed to it, in order.
- `Get`'s `Validator` is a pure total function `V -> bool`. Side effects
  and exceptions from it, and from moving or copying values, are out.
- The constructor's `std::logic_error` is a `Failure` result of
  `NWayLru.Create`. As in the source, the ways are built first and the
  number of ways is checked afterwards; on failure the built object is
  simply discarded, and exception propagation itself is not modelled.
- Capacity 0: the facade passes `way_size` 0 through to the ways without a
  check, both when building and in `UpdateWaySize`. What a capacity-0
  `cache::LRU` does is defined in `cache/lru_cache.hpp`, which is not part
  of this model. The model's choice is that a put then leaves the way empty
  (`PutFind` only promises the hit for a positive capacity).
- `Way`'s copy constructor is not modelled (it only serves the vector
  fill).
