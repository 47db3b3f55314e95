/** One way's cache engine: a bounded map whose entries are kept in recency
    order and whose least recently touched entry is evicted first. The
    engine's own implementation (a hash table threaded by a recency list) is
    not part of this model; only its observable state is. */
module LruCache {
  import opened Wrappers
  import opened LruSpec

  class Lru<K(==), V> {
    /** Entries, the least recently touched first. */
    var entries: seq<Entry<K, V>>
    /** The capacity: the engine never holds more entries after a call. */
    var maxSize: nat

    ghost predicate Valid()
      reads this
    {
      DistinctKeys(entries) && |entries| <= maxSize
    }

    /** An empty engine with the given capacity. */
    constructor (maxSize: nat)
      ensures Valid()
      ensures entries == [] && this.maxSize == maxSize
    {
      entries := [];
      this.maxSize := maxSize;
    }

    /** Evicts the least recently touched entry until the capacity holds. */
    method EvictOverflow()
      requires DistinctKeys(entries)
      modifies this
      ensures Valid()
      ensures maxSize == old(maxSize)
      ensures entries == Trim(old(entries), maxSize)
    {
      while |entries| > maxSize
        invariant maxSize == old(maxSize)
        invariant DistinctKeys(entries)
        invariant Trim(entries, maxSize) == Trim(old(entries), maxSize)
        decreases |entries|
      {
        entries := entries[1..];
      }
    }

    /** Inserts or replaces `key` as the most recently touched entry and
        evicts down to the capacity. */
    method Put(key: K, value: V)
      requires Valid()
      modifies this
      ensures Valid()
      ensures maxSize == old(maxSize)
      ensures entries == LruSpec.Put(old(entries), key, value, maxSize)
    {
      RemoveDistinct(entries, key);
      AppendDistinct(Remove(entries, key), Entry(key, value));
      entries := Remove(entries, key) + [Entry(key, value)];
      EvictOverflow();
    }

    /** Looks `key` up; a hit makes the entry the most recently touched. */
    method Get(key: K) returns (r: Option<V>)
      requires Valid()
      modifies this
      ensures Valid()
      ensures maxSize == old(maxSize)
      ensures r == Find(old(entries), key)
      ensures entries == Touch(old(entries), key)
    {
      TouchFind(entries, key);
      r := Find(entries, key);
      entries := Touch(entries, key);
    }

    /** As `Get`, but yields `default` on a miss without inserting it. */
    method GetOr(key: K, default: V) returns (r: V)
      requires Valid()
      modifies this
      ensures Valid()
      ensures maxSize == old(maxSize)
      ensures r == Find(old(entries), key).GetOr(default)
      ensures entries == Touch(old(entries), key)
    {
      var found := Get(key);
      r := found.GetOr(default);
    }

    /** Removes the entry of `key` if there is one. */
    method Erase(key: K)
      requires Valid()
      modifies this
      ensures Valid()
      ensures maxSize == old(maxSize)
      ensures entries == Remove(old(entries), key)
    {
      RemoveDistinct(entries, key);
      entries := Remove(entries, key);
    }

    /** Removes every entry. */
    method Invalidate()
      requires Valid()
      modifies this
      ensures Valid()
      ensures maxSize == old(maxSize)
      ensures entries == []
    {
      entries := [];
    }

    /** Sets the capacity and evicts the least recently touched entries
        that no longer fit. */
    method SetMaxSize(n: nat)
      requires Valid()
      modifies this
      ensures Valid()
      ensures maxSize == n
      ensures entries == Trim(old(entries), n)
    {
      maxSize := n;
      EvictOverflow();
    }

    /** The number of entries held. */
    method GetSize() returns (size: nat)
      requires Valid()
      ensures size == |entries| <= maxSize
    {
      size := |entries|;
    }

    /** The entries a visitor is shown, each once; the traversal neither
        touches nor changes any of them. */
    method VisitAll() returns (visited: seq<Entry<K, V>>)
      requires Valid()
      ensures visited == entries
      ensures DistinctKeys(visited)
    {
      visited := entries;
    }
  }
}
