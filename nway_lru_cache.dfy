/** The sharded ("N-way") LRU cache: a fixed, non-empty sequence of ways,
    each an independent LRU engine, and a hash that routes every key to
    exactly one way. Single-key operations touch only the key's own way;
    whole-cache operations go over the ways one after the other. The
    per-way locks are not modelled: the cache is treated as sequential. */
module NWayLruCache {
  import opened Wrappers
  import opened LruSpec
  import opened NWaySpec
  import opened LruCache

  /** Raised when the cache is asked for zero ways. */
  datatype ConfigError = InvalidConfiguration

  class NWayLru<K(==), V> {
    /** The ways; their number is fixed, their engines change in place. */
    const caches: seq<Lru<K, V>>
    /** The routing hash, fixed for the cache's lifetime. */
    const hash: K -> nat
    /** The capacity every way has: capacities only change all together. */
    ghost var waySize: nat

    ghost predicate Valid()
      reads this, caches
    {
      && |caches| > 0
      && (forall i, j :: 0 <= i < j < |caches| ==> caches[i] != caches[j])
      && (forall i :: 0 <= i < |caches| ==> caches[i].Valid() && caches[i].maxSize == waySize)
      && Partitioned(Contents(), hash)
    }

    /** The entries of each way, in recency order. */
    ghost function Contents(): (s: seq<seq<Entry<K, V>>>)
      reads this, caches
      ensures |s| == |caches|
      ensures forall i :: 0 <= i < |caches| ==> s[i] == caches[i].entries
    {
      seq(|caches|, i reads caches requires 0 <= i < |caches| => caches[i].entries)
    }

    /** The index of the way `key` is routed to. */
    function WayIndex(key: K): (i: nat)
      requires |caches| > 0
      ensures i < |caches|
    {
      Route(hash(key), |caches|)
    }

    /** Builds `ways` empty ways, each with the placeholder capacity 1. */
    constructor (ways: nat, hash: K -> nat)
      ensures |caches| == ways && this.hash == hash && waySize == 1
      ensures forall i :: 0 <= i < ways ==> fresh(caches[i])
      ensures forall i :: 0 <= i < ways ==> caches[i].entries == [] && caches[i].maxSize == 1
      ensures ways > 0 ==> Valid()
    {
      var ws: seq<Lru<K, V>> := [];
      while |ws| < ways
        invariant |ws| <= ways
        invariant forall i :: 0 <= i < |ws| ==> fresh(ws[i])
        invariant forall i :: 0 <= i < |ws| ==> ws[i].Valid() && ws[i].entries == [] && ws[i].maxSize == 1
        invariant forall i, j :: 0 <= i < j < |ws| ==> ws[i] != ws[j]
      {
        var w := new Lru(1);
        ws := ws + [w];
      }
      caches := ws;
      this.hash := hash;
      waySize := 1;
    }

    /** Creates a cache of `ways` ways, each of capacity `waySize`; fails
        when `ways` is zero. */
    static method Create(ways: nat, waySize: nat, hash: K -> nat)
      returns (r: Result<NWayLru<K, V>, ConfigError>)
      ensures r.Failure? <==> ways == 0
      ensures r.Failure? ==> r.error == InvalidConfiguration
      ensures r.Success? ==>
                && fresh(r.value) && r.value.Valid()
                && |r.value.caches| == ways && r.value.hash == hash && r.value.waySize == waySize
                && forall i :: 0 <= i < ways ==>
                     fresh(r.value.caches[i]) && r.value.caches[i].entries == [] &&
                     r.value.caches[i].maxSize == waySize
    {
      var c := new NWayLru(ways, hash);
      if ways == 0 {
        return Failure(InvalidConfiguration);
      }
      c.UpdateWaySize(waySize);
      r := Success(c);
    }

    /** The way `key` is routed to. */
    method GetWay(key: K) returns (way: Lru<K, V>)
      requires Valid()
      ensures way == caches[WayIndex(key)]
      ensures way in caches
    {
      way := caches[Route(hash(key), |caches|)];
    }

    /** Inserts or replaces `key` in its own way; no other way changes. */
    method Put(key: K, value: V)
      requires Valid()
      modifies caches[WayIndex(key)]
      ensures Valid()
      ensures Contents() == PutAt(old(Contents()), hash, key, value, waySize)
    {
      var way := GetWay(key);
      ghost var was := Contents();
      ghost var idx := WayIndex(key);
      PutAtSpec(was, hash, key, value, waySize);
      way.Put(key, value);
      SameWaysBut(idx, was);
    }

    /** After a call that changed way `idx` only, the contents are the old
        ones with that way replaced. */
    lemma SameWaysBut(idx: nat, was: seq<seq<Entry<K, V>>>)
      requires |caches| == |was| && idx < |caches|
      requires forall i, j :: 0 <= i < j < |caches| ==> caches[i] != caches[j]
      requires forall i :: 0 <= i < |caches| && i != idx ==> caches[i].entries == was[i]
      ensures Contents() == was[idx := caches[idx].entries]
    {
    }

    /** Looks `key` up and asks `validator` about a hit: an accepted value
        is returned, a rejected one is erased from its way. */
    method GetValidated(key: K, validator: V -> bool) returns (r: Option<V>)
      requires Valid()
      modifies caches[WayIndex(key)]
      ensures Valid()
      ensures (r, Contents()) == ValidatedGet(old(Contents()), hash, key, validator)
    {
      var way := GetWay(key);
      ghost var was := Contents();
      ghost var idx := WayIndex(key);
      ValidatedGetSpec(was, hash, key, validator);
      TouchAtSpec(was, hash, key);
      var value := way.Get(key);
      SameWaysBut(idx, was);
      ghost var touched := Contents();
      assert touched == TouchAt(was, hash, key);
      assert value == LookupIn(was, hash, key);
      if value.Some? && !validator(value.value) {
        EraseAtSpec(touched, hash, key);
        way.Erase(key);
        SameWaysBut(idx, touched);
        assert Contents() == EraseAt(touched, hash, key);
        r := None;
      } else {
        r := value;
        assert value.None? ==> touched == was;
      }
    }

    /** A plain lookup: `GetValidated` with a validator that accepts every
        value, so it never erases. */
    method Get(key: K) returns (r: Option<V>)
      requires Valid()
      modifies caches[WayIndex(key)]
      ensures Valid()
      ensures r == LookupIn(old(Contents()), hash, key)
      ensures Contents() == TouchAt(old(Contents()), hash, key)
    {
      PlainGetSpec(Contents(), hash, key);
      r := GetValidated(key, (_: V) => true);
    }

    /** The value of `key`, or `default` on a miss (which is not inserted). */
    method GetOr(key: K, default: V) returns (r: V)
      requires Valid()
      modifies caches[WayIndex(key)]
      ensures Valid()
      ensures r == LookupIn(old(Contents()), hash, key).GetOr(default)
      ensures Contents() == TouchAt(old(Contents()), hash, key)
    {
      var way := GetWay(key);
      ghost var was := Contents();
      ghost var idx := WayIndex(key);
      TouchAtSpec(was, hash, key);
      r := way.GetOr(key, default);
      SameWaysBut(idx, was);
    }

    /** Erases `key` from its own way. */
    method InvalidateByKey(key: K)
      requires Valid()
      modifies caches[WayIndex(key)]
      ensures Valid()
      ensures Contents() == EraseAt(old(Contents()), hash, key)
    {
      var way := GetWay(key);
      ghost var was := Contents();
      ghost var idx := WayIndex(key);
      EraseAtSpec(was, hash, key);
      way.Erase(key);
      SameWaysBut(idx, was);
    }

    /** Empties every way, one after the other; capacities stay. */
    method Invalidate()
      requires Valid()
      modifies caches
      ensures Valid()
      ensures Contents() == ClearAll(old(Contents()))
    {
      ClearAllSpec(Contents(), hash);
      var i := 0;
      while i < |caches|
        invariant 0 <= i <= |caches|
        invariant forall j :: 0 <= j < |caches| ==> caches[j].maxSize == old(caches[j].maxSize)
        invariant forall j :: 0 <= j < |caches| ==>
                    caches[j].entries == if j < i then [] else old(caches[j].entries)
      {
        caches[i].Invalidate();
        i := i + 1;
      }
    }

    /** Sets every way's capacity to `n`, one way after the other; each way
        keeps its `n` most recently touched entries. */
    method UpdateWaySize(n: nat)
      requires Valid()
      modifies this, caches
      ensures Valid()
      ensures waySize == n
      ensures Contents() == ResizeAll(old(Contents()), n)
    {
      ghost var was := Contents();
      var i := 0;
      while i < |caches|
        invariant 0 <= i <= |caches|
        invariant waySize == old(waySize)
        invariant forall j :: 0 <= j < |caches| ==>
                    if j < i then caches[j].maxSize == n && caches[j].entries == Trim(was[j], n)
                    else caches[j].maxSize == waySize && caches[j].entries == was[j]
      {
        caches[i].SetMaxSize(n);
        i := i + 1;
      }
      waySize := n;
      ResizedWays(was, n);
    }

    /** Once every way has been resized to `n`, the cache is well-formed
        again and holds `ResizeAll` of what it held before. */
    lemma ResizedWays(was: seq<seq<Entry<K, V>>>, n: nat)
      requires |caches| == |was| > 0 && Partitioned(was, hash)
      requires forall i, j :: 0 <= i < j < |caches| ==> caches[i] != caches[j]
      requires waySize == n
      requires forall j :: 0 <= j < |caches| ==>
                 caches[j].maxSize == n && caches[j].entries == Trim(was[j], n)
      ensures Valid()
      ensures Contents() == ResizeAll(was, n)
    {
      assert Contents() == ResizeAll(was, n);
      ResizeAllSpec(was, hash, n);
    }

    /** The number of entries over all ways. */
    method GetSize() returns (size: nat)
      requires Valid()
      ensures size == TotalEntries(Contents())
      ensures size <= |caches| * waySize
    {
      size := 0;
      var i := 0;
      while i < |caches|
        invariant 0 <= i <= |caches|
        invariant size == TotalEntries(Contents()[..i])
      {
        var s := caches[i].GetSize();
        assert Contents()[..i + 1][..i] == Contents()[..i];
        size := size + s;
        i := i + 1;
      }
      assert Contents()[..|caches|] == Contents();
      BoundedTotal(Contents(), waySize);
    }

    /** Every entry of every way, way by way: each key once, and exactly the
        entries a lookup finds. */
    method VisitAll() returns (visited: seq<Entry<K, V>>)
      requires Valid()
      ensures visited == Flatten(Contents())
      ensures |visited| == TotalEntries(Contents())
      ensures DistinctKeys(visited)
      ensures forall x :: x in visited <==> LookupIn(Contents(), hash, x.key) == Some(x.value)
    {
      visited := [];
      var i := 0;
      while i < |caches|
        invariant 0 <= i <= |caches|
        invariant visited == Flatten(Contents()[..i])
      {
        var part := caches[i].VisitAll();
        assert Contents()[..i + 1][..i] == Contents()[..i];
        visited := visited + part;
        i := i + 1;
      }
      assert Contents()[..|caches|] == Contents();
      FlattenSize(Contents());
      FlattenDistinct(Contents(), hash);
      forall x ensures x in visited <==> LookupIn(Contents(), hash, x.key) == Some(x.value) {
        VisitedIsLookup(Contents(), hash, x.key, x.value);
      }
    }
  }
}
