/** The abstract state of one single-way LRU engine: its entries in recency
    order, the least recently touched first and the most recently touched
    last, with pairwise distinct keys. The functions here say what each
    engine operation does to that sequence; the lemmas prove that the
    sequence behaves as a bounded finite map with least-recently-used
    eviction. */
module LruSpec {
  import opened Wrappers

  /** One cached key with its value. */
  datatype Entry<K, V> = Entry(key: K, value: V)

  /** No key occurs twice in the recency order. */
  ghost predicate DistinctKeys<K, V>(e: seq<Entry<K, V>>) {
    forall i, j :: 0 <= i < j < |e| ==> e[i].key != e[j].key
  }

  /** The keys an engine currently holds. */
  ghost function Keys<K, V>(e: seq<Entry<K, V>>): set<K> {
    set x | x in e :: x.key
  }

  /** Looks up `k`; finds nothing exactly when no entry has that key. */
  function Find<K(==), V>(e: seq<Entry<K, V>>, k: K): (r: Option<V>)
    ensures r.None? <==> k !in Keys(e)
    ensures r.Some? ==> Entry(k, r.value) in e
  {
    if e == [] then None
    else if e[0].key == k then Some(e[0].value)
    else
      assert Keys(e) == {e[0].key} + Keys(e[1..]) by {
        assert e == [e[0]] + e[1..];
      }
      Find(e[1..], k)
  }

  /** Erases the entry with key `k`, keeping the others in recency order. */
  function Remove<K(==), V>(e: seq<Entry<K, V>>, k: K): (r: seq<Entry<K, V>>)
    ensures forall i :: 0 <= i < |r| ==> r[i] in e && r[i].key != k
    ensures forall i :: 0 <= i < |e| && e[i].key != k ==> e[i] in r
    ensures |r| <= |e|
  {
    if e == [] then []
    else if e[0].key == k then Remove(e[1..], k)
    else [e[0]] + Remove(e[1..], k)
  }

  /** What eviction down to the capacity `n` leaves: the `n` most recently
      touched entries, or all of them when they fit. */
  function Trim<K, V>(e: seq<Entry<K, V>>, n: nat): seq<Entry<K, V>> {
    if |e| <= n then e else e[|e| - n..]
  }

  /** Inserts or replaces `k` as the most recently touched entry, then
      evicts down to the capacity `n`. */
  function Put<K(==), V>(e: seq<Entry<K, V>>, k: K, v: V, n: nat): seq<Entry<K, V>> {
    Trim(Remove(e, k) + [Entry(k, v)], n)
  }

  /** A hit on `k` moves its entry to the most recently touched position;
      a miss changes nothing. */
  function Touch<K(==), V>(e: seq<Entry<K, V>>, k: K): seq<Entry<K, V>> {
    match Find(e, k)
    case None => e
    case Some(v) => Remove(e, k) + [Entry(k, v)]
  }

  // ---------------------------------------------------------------------
  // Finite-map behaviour

  /** With distinct keys, an entry that is present is what a lookup finds. */
  lemma {:induction false} FindEntry<K, V>(e: seq<Entry<K, V>>, k: K, v: V)
    requires DistinctKeys(e)
    requires Entry(k, v) in e
    ensures Find(e, k) == Some(v)
  {
    if e[0] != Entry(k, v) {
      assert e[0].key != k by {
        var i :| 0 <= i < |e| && e[i] == Entry(k, v);
      }
      FindEntry(e[1..], k, v);
    }
  }

  /** Distinct keys survive the removal of any key. */
  lemma {:induction false} RemoveDistinct<K, V>(e: seq<Entry<K, V>>, k: K)
    requires DistinctKeys(e)
    ensures DistinctKeys(Remove(e, k))
    ensures |Remove(e, k)| == if k in Keys(e) then |e| - 1 else |e|
  {
    if e != [] {
      var t := e[1..];
      assert DistinctKeys(t);
      RemoveDistinct(t, k);
      assert Keys(e) == {e[0].key} + Keys(t) by {
        assert forall x :: x in e <==> x == e[0] || x in t;
      }
      assert e[0].key !in Keys(t) by {
        forall x | x in t ensures x.key != e[0].key {
          var i :| 0 <= i < |t| && t[i] == x;
          assert e[i + 1] == x;
        }
      }
      if e[0].key != k {
        var r := [e[0]] + Remove(t, k);
        forall i, j | 0 <= i < j < |r| ensures r[i].key != r[j].key {
          if i == 0 {
            assert r[j] in Remove(t, k);
          }
        }
      }
    }
  }

  /** A lookup after removing `k` misses `k` and sees every other key as
      before. */
  lemma FindRemove<K, V>(e: seq<Entry<K, V>>, k: K, k': K)
    requires DistinctKeys(e)
    ensures Find(Remove(e, k), k') == if k' == k then None else Find(e, k')
  {
    RemoveDistinct(e, k);
    var r := Remove(e, k);
    if k' == k {
      assert k !in Keys(r);
    } else if Find(e, k').Some? {
      FindEntry(r, k', Find(e, k').value);
    }
  }

  /** Appending a key that is not present keeps the keys distinct. */
  lemma AppendDistinct<K, V>(e: seq<Entry<K, V>>, x: Entry<K, V>)
    requires DistinctKeys(e)
    requires x.key !in Keys(e)
    ensures DistinctKeys(e + [x])
  {
    var r := e + [x];
    forall i, j | 0 <= i < j < |r| ensures r[i].key != r[j].key {
      if j == |e| {
        assert r[i] in e;
      }
    }
  }

  /** Whatever eviction leaves is a suffix, so it keeps distinct keys and
      holds only entries that were there. */
  lemma TrimSubset<K, V>(e: seq<Entry<K, V>>, n: nat)
    requires DistinctKeys(e)
    ensures DistinctKeys(Trim(e, n))
    ensures forall x :: x in Trim(e, n) ==> x in e
  {
    var r := Trim(e, n);
    var d := |e| - |r|;
    forall i, j | 0 <= i < j < |r| ensures r[i].key != r[j].key {
      assert r[i] == e[d + i] && r[j] == e[d + j];
    }
    forall x | x in r ensures x in e {
      var i :| 0 <= i < |r| && r[i] == x;
      assert e[d + i] == x;
    }
  }

  /** `Put` keeps the keys distinct. */
  lemma PutDistinct<K, V>(e: seq<Entry<K, V>>, k: K, v: V, n: nat)
    requires DistinctKeys(e)
    ensures DistinctKeys(Put(e, k, v, n))
  {
    RemoveDistinct(e, k);
    assert k !in Keys(Remove(e, k));
    AppendDistinct(Remove(e, k), Entry(k, v));
    TrimSubset(Remove(e, k) + [Entry(k, v)], n);
  }

  /** The capacity bound and the lookups `Put` guarantees: the key is found
      with its new value unless the capacity is zero, any other key is
      either as before or evicted, and when nothing has to be evicted every
      other key is exactly as before. */
  lemma PutFind<K, V>(e: seq<Entry<K, V>>, k: K, v: V, n: nat)
    requires DistinctKeys(e)
    ensures DistinctKeys(Put(e, k, v, n))
    ensures |Put(e, k, v, n)| <= n
    ensures n > 0 ==> Find(Put(e, k, v, n), k) == Some(v)
    ensures forall k' :: k' != k ==>
              Find(Put(e, k, v, n), k') == Find(e, k') || Find(Put(e, k, v, n), k').None?
    ensures |Remove(e, k)| < n ==>
              forall k' :: k' != k ==> Find(Put(e, k, v, n), k') == Find(e, k')
  {
    var m := Remove(e, k) + [Entry(k, v)];
    RemoveDistinct(e, k);
    assert k !in Keys(Remove(e, k));
    AppendDistinct(Remove(e, k), Entry(k, v));
    TrimSubset(m, n);
    var r := Put(e, k, v, n);
    if n > 0 {
      assert r[|r| - 1] == Entry(k, v);
      FindEntry(r, k, v);
    }
    forall k' | k' != k
      ensures Find(r, k') == Find(e, k') || Find(r, k').None?
      ensures |Remove(e, k)| < n ==> Find(r, k') == Find(e, k')
    {
      FindRemove(e, k, k');
      if Find(r, k').Some? {
        var w := Find(r, k').value;
        assert Entry(k', w) in Remove(e, k);
        FindEntry(e, k', w);
      }
      if |Remove(e, k)| < n && Find(e, k').Some? {
        var w := Find(e, k').value;
        assert Entry(k', w) in m;
        assert r == m;
        FindEntry(r, k', w);
      }
    }
  }

  /** Every entry `Put` leaves behind was there before or is the new one. */
  lemma PutElements<K, V>(e: seq<Entry<K, V>>, k: K, v: V, n: nat)
    ensures forall x :: x in Put(e, k, v, n) ==> x in e || x == Entry(k, v)
  {
    var rm := Remove(e, k);
    var m := rm + [Entry(k, v)];
    var r := Put(e, k, v, n);
    forall x | x in r ensures x in e || x == Entry(k, v) {
      var i :| 0 <= i < |r| && r[i] == x;
      var j := |m| - |r| + i;
      assert x == m[j];
      if j < |rm| {
        assert m[j] == rm[j];
      }
    }
  }

  /** Eviction order: putting a new key into a full engine evicts exactly
      the least recently touched entry. */
  lemma {:induction false} PutEvictsOldest<K, V>(e: seq<Entry<K, V>>, k: K, v: V, n: nat)
    requires k !in Keys(e)
    requires |e| == n > 0
    ensures Put(e, k, v, n) == e[1..] + [Entry(k, v)]
  {
    RemoveAbsent(e, k);
    var m := e + [Entry(k, v)];
    assert Trim(m, n) == Trim(m[1..], n);
    assert m[1..] == e[1..] + [Entry(k, v)];
  }

  /** A new key put into an engine with room to spare is appended as the
      most recently touched entry and nothing is evicted. */
  lemma PutAppends<K, V>(e: seq<Entry<K, V>>, k: K, v: V, n: nat)
    requires Find(e, k).None?
    requires |e| < n
    ensures Put(e, k, v, n) == e + [Entry(k, v)]
  {
    RemoveAbsent(e, k);
  }

  /** Removing a key that is absent changes nothing. */
  lemma {:induction false} RemoveAbsent<K, V>(e: seq<Entry<K, V>>, k: K)
    requires k !in Keys(e)
    ensures Remove(e, k) == e
  {
    if e != [] {
      assert e[0] in e;
      assert k !in Keys(e[1..]) by {
        forall x | x in e[1..] ensures x in e { }
      }
      RemoveAbsent(e[1..], k);
      assert e == [e[0]] + e[1..];
    }
  }

  /** A read touches the entry without changing what any lookup finds; a
      hit makes the key the most recently touched one. */
  lemma TouchFind<K, V>(e: seq<Entry<K, V>>, k: K)
    requires DistinctKeys(e)
    ensures DistinctKeys(Touch(e, k))
    ensures |Touch(e, k)| == |e|
    ensures forall k' :: Find(Touch(e, k), k') == Find(e, k')
    ensures Find(e, k).Some? ==> Touch(e, k)[|e| - 1] == Entry(k, Find(e, k).value)
  {
    if Find(e, k).Some? {
      var v := Find(e, k).value;
      var t := Touch(e, k);
      RemoveDistinct(e, k);
      assert k !in Keys(Remove(e, k));
      AppendDistinct(Remove(e, k), Entry(k, v));
      forall k' ensures Find(t, k') == Find(e, k') {
        FindRemove(e, k, k');
        if k' == k {
          FindEntry(t, k, v);
        } else {
          if Find(e, k').Some? {
            FindEntry(t, k', Find(e, k').value);
          }
          if Find(t, k').Some? {
            assert Entry(k', Find(t, k').value) in Remove(e, k);
          }
        }
      }
    }
  }

  /** Erasing after a touch is the same as erasing straight away: a read
      followed by an erase leaves exactly the other entries, in order. */
  lemma {:induction false} RemoveTouch<K, V>(e: seq<Entry<K, V>>, k: K)
    ensures Remove(Touch(e, k), k) == Remove(e, k)
  {
    if Find(e, k).Some? {
      var v := Find(e, k).value;
      RemoveAppend(Remove(e, k), Entry(k, v), k);
      RemoveIdempotent(e, k);
    }
  }

  lemma {:induction false} RemoveAppend<K, V>(e: seq<Entry<K, V>>, x: Entry<K, V>, k: K)
    requires x.key == k
    ensures Remove(e + [x], k) == Remove(e, k)
  {
    if e == [] {
      assert [x][1..] == [];
    } else {
      assert (e + [x])[1..] == e[1..] + [x];
      RemoveAppend(e[1..], x, k);
    }
  }

  lemma {:induction false} RemoveIdempotent<K, V>(e: seq<Entry<K, V>>, k: K)
    ensures Remove(Remove(e, k), k) == Remove(e, k)
  {
    assert k !in Keys(Remove(e, k));
    RemoveAbsent(Remove(e, k), k);
  }

  /** Capacity two: put a, put b, read a, put c evicts b and keeps a and c. */
  lemma TouchOnRead<K, V>(a: K, b: K, c: K, va: V, vb: V, vc: V)
    requires a != b && b != c && a != c
    ensures var e := Put(Touch(Put(Put([], a, va, 2), b, vb, 2), a), c, vc, 2);
            Find(e, b).None? && Find(e, a) == Some(va) && Find(e, c) == Some(vc)
  {
    var e1 := Put([], a, va, 2);
    PutAppends([], a, va, 2);
    var e2 := Put(e1, b, vb, 2);
    PutAppends(e1, b, vb, 2);
    assert e2 == [Entry(a, va), Entry(b, vb)];
    var e3 := Touch(e2, a);
    assert Find(e2, a) == Some(va);
    assert Remove(e2, a) == [Entry(b, vb)] by {
      assert Remove(e2[1..], a) == [Entry(b, vb)] by {
        assert e2[1..][1..] == [];
      }
    }
    assert e3 == [Entry(b, vb), Entry(a, va)];
    var e4 := Put(e3, c, vc, 2);
    assert c !in Keys(e3);
    PutEvictsOldest(e3, c, vc, 2);
    assert e4 == [Entry(a, va), Entry(c, vc)];
  }
}
