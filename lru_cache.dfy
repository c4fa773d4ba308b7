/**
 * The least-recently-used cache of `src/utils/cache.ts`. Its backing JavaScript `Map`
 * iterates in insertion order, so it is modelled as the sequence of its entries, oldest
 * first: `delete` removes an entry wherever it sits, `set` of a new key appends at the
 * end, and the first entry is the least recently used one.
 */
module LruCacheModel {
  import opened Wrappers

  type Entries<V> = seq<(string, V)>

  function Keys<V>(e: Entries<V>): (r: seq<string>)
    ensures |r| == |e|
    ensures forall i :: 0 <= i < |e| ==> r[i] == e[i].0
  {
    if e == [] then [] else [e[0].0] + Keys(e[1..])
  }

  /** No key occurs twice, as in any `Map`. */
  predicate DistinctKeys<V>(e: Entries<V>) {
    forall i, j :: 0 <= i < j < |e| ==> e[i].0 != e[j].0
  }

  /** `Map.get`. */
  function Lookup<V>(e: Entries<V>, k: string): (r: Option<V>)
    ensures r.Some? <==> k in Keys(e)
  {
    if e == [] then None
    else if e[0].0 == k then Some(e[0].1)
    else Lookup(e[1..], k)
  }

  /** `Map.delete`: the entries without key `k`, in their order. */
  function Without<V>(e: Entries<V>, k: string): (r: Entries<V>)
    ensures k !in Keys(r)
    ensures |r| <= |e|
    ensures forall x :: x in r ==> x in e
  {
    if e == [] then []
    else if e[0].0 == k then Without(e[1..], k)
    else [e[0]] + Without(e[1..], k)
  }

  /** The entries after `get(k)`: a stored key moves to the end, an absent one changes nothing. */
  function AfterGet<V>(e: Entries<V>, k: string): Entries<V> {
    match Lookup(e, k)
    case None => e
    case Some(v) => Without(e, k) + [(k, v)]
  }

  /** The entries after `set(k, v)`: an existing key is removed first; otherwise, when the
    * map already holds `maxSize` entries, the first one is evicted; then `(k, v)` is
    * appended. On an empty map the eviction finds no key and removes nothing. */
  function AfterSet<V>(e: Entries<V>, k: string, v: V, maxSize: int): Entries<V> {
    if k in Keys(e) then Without(e, k) + [(k, v)]
    else if |e| >= maxSize && e != [] then e[1..] + [(k, v)]
    else e + [(k, v)]
  }

  /** The bound `set` keeps: `maxSize` entries, or one when `maxSize` is below one. */
  function Capacity(maxSize: int): (c: nat)
    ensures c >= 1 && (maxSize >= 1 ==> c == maxSize)
  {
    if maxSize >= 1 then maxSize else 1
  }

  /** The invariant of the cache: distinct keys, and no more entries than the capacity. */
  predicate Bounded<V>(e: Entries<V>, maxSize: int) {
    DistinctKeys(e) && |e| <= Capacity(maxSize)
  }

  lemma WithoutFacts<V>(e: Entries<V>, k: string)
    requires DistinctKeys(e)
    ensures DistinctKeys(Without(e, k))
    ensures k in Keys(e) ==> |Without(e, k)| == |e| - 1
    ensures k !in Keys(e) ==> Without(e, k) == e
    ensures forall j :: j != k ==> Lookup(Without(e, k), j) == Lookup(e, j)
    ensures forall j :: j in Keys(Without(e, k)) <==> (j in Keys(e) && j != k)
  {
    WithoutKeys(e, k);
    WithoutDistinct(e, k);
    WithoutSize(e, k);
    forall j | j != k ensures Lookup(Without(e, k), j) == Lookup(e, j) {
      WithoutLookup(e, k, j);
    }
  }

  /** `delete` removes exactly key `k` from the keys. */
  lemma {:induction false} WithoutKeys<V>(e: Entries<V>, k: string)
    ensures forall j :: j in Keys(Without(e, k)) <==> (j in Keys(e) && j != k)
    ensures k !in Keys(e) ==> Without(e, k) == e
  {
    if e != [] {
      WithoutKeys(e[1..], k);
      assert Keys(e) == [e[0].0] + Keys(e[1..]);
      if e[0].0 != k {
        var r := [e[0]] + Without(e[1..], k);
        assert r[1..] == Without(e[1..], k);
        assert Keys(r) == [e[0].0] + Keys(Without(e[1..], k));
      }
    }
  }

  lemma {:induction false} WithoutDistinct<V>(e: Entries<V>, k: string)
    requires DistinctKeys(e)
    ensures DistinctKeys(Without(e, k))
  {
    if e != [] {
      assert DistinctKeys(e[1..]);
      WithoutDistinct(e[1..], k);
      if e[0].0 != k {
        var r := [e[0]] + Without(e[1..], k);
        assert r[1..] == Without(e[1..], k);
        forall i, j | 0 <= i < j < |r| ensures r[i].0 != r[j].0 {
          if i == 0 {
            assert r[j] in e[1..];
            var m :| 0 <= m < |e[1..]| && e[1..][m] == r[j];
            assert e[m + 1] == r[j];
          }
        }
      }
    }
  }

  lemma {:induction false} WithoutSize<V>(e: Entries<V>, k: string)
    requires DistinctKeys(e)
    ensures k in Keys(e) ==> |Without(e, k)| == |e| - 1
  {
    if e != [] {
      assert DistinctKeys(e[1..]);
      assert Keys(e) == [e[0].0] + Keys(e[1..]);
      if e[0].0 == k {
        assert k !in Keys(e[1..]);
        WithoutKeys(e[1..], k);
      } else {
        WithoutSize(e[1..], k);
      }
    }
  }

  lemma {:induction false} WithoutLookup<V>(e: Entries<V>, k: string, j: string)
    requires j != k
    ensures Lookup(Without(e, k), j) == Lookup(e, j)
  {
    if e != [] {
      WithoutLookup(e[1..], k, j);
      if e[0].0 != k {
        assert ([e[0]] + Without(e[1..], k))[1..] == Without(e[1..], k);
      }
    }
  }

  lemma {:induction false} LookupLast<V>(e: Entries<V>, k: string, v: V)
    requires k !in Keys(e)
    ensures Lookup(e + [(k, v)], k) == Some(v)
    ensures forall j :: j != k ==> Lookup(e + [(k, v)], j) == Lookup(e, j)
    ensures Keys(e + [(k, v)]) == Keys(e) + [k]
  {
    if e != [] {
      assert (e + [(k, v)])[1..] == e[1..] + [(k, v)];
      assert Keys(e) == [e[0].0] + Keys(e[1..]);
      LookupLast(e[1..], k, v);
    }
  }

  lemma AppendDistinct<V>(e: Entries<V>, k: string, v: V)
    requires DistinctKeys(e) && k !in Keys(e)
    ensures DistinctKeys(e + [(k, v)])
  {
    var r := e + [(k, v)];
    forall i, j | 0 <= i < j < |r| ensures r[i].0 != r[j].0 {
      if j == |e| {
        assert Keys(e)[i] == e[i].0;
      }
    }
  }

  lemma LookupFirst<V>(e: Entries<V>)
    requires DistinctKeys(e) && e != []
    ensures forall j :: j != e[0].0 ==> Lookup(e[1..], j) == Lookup(e, j)
    ensures forall j :: j in Keys(e[1..]) <==> (j in Keys(e) && j != e[0].0)
    ensures DistinctKeys(e[1..])
  {
    assert Keys(e) == [e[0].0] + Keys(e[1..]);
  }

  /** `set` keeps the cache bounded: with `maxSize >= 1` the size never exceeds `maxSize`. */
  lemma SetKeepsBound<V>(e: Entries<V>, k: string, v: V, maxSize: int)
    requires Bounded(e, maxSize)
    ensures Bounded(AfterSet(e, k, v, maxSize), maxSize)
  {
    if k in Keys(e) {
      WithoutFacts(e, k);
      AppendDistinct(Without(e, k), k, v);
    } else if |e| >= maxSize && e != [] {
      LookupFirst(e);
      AppendDistinct(e[1..], k, v);
    } else {
      AppendDistinct(e, k, v);
    }
  }

  /** `get` keeps the cache bounded and the same key-value pairs. */
  lemma GetKeepsContents<V>(e: Entries<V>, k: string, maxSize: int)
    requires Bounded(e, maxSize)
    ensures Bounded(AfterGet(e, k), maxSize)
    ensures forall j :: Lookup(AfterGet(e, k), j) == Lookup(e, j)
  {
    if Lookup(e, k).Some? {
      var v := Lookup(e, k).value;
      WithoutFacts(e, k);
      AppendDistinct(Without(e, k), k, v);
      LookupLast(Without(e, k), k, v);
    }
  }

  /** `get` of a stored key makes it the most recently used entry: it is now last, and every
    * other key keeps its relative order. */
  lemma GetMakesMostRecent<V>(e: Entries<V>, k: string)
    requires Lookup(e, k).Some?
    ensures |AfterGet(e, k)| > 0
    ensures AfterGet(e, k)[|AfterGet(e, k)| - 1] == (k, Lookup(e, k).value)
    ensures AfterGet(e, k)[..|AfterGet(e, k)| - 1] == Without(e, k)
  {
  }

  /** `set(k, v)` followed by `get(k)` gives `v`. */
  lemma SetThenGet<V>(e: Entries<V>, k: string, v: V, maxSize: int)
    requires DistinctKeys(e)
    ensures Lookup(AfterSet(e, k, v, maxSize), k) == Some(v)
  {
    if k in Keys(e) {
      WithoutFacts(e, k);
      LookupLast(Without(e, k), k, v);
    } else if |e| >= maxSize && e != [] {
      LookupFirst(e);
      LookupLast(e[1..], k, v);
    } else {
      LookupLast(e, k, v);
    }
  }

  /** Overwriting a stored key evicts nothing: the same keys remain, the others with
    * their values. */
  lemma OverwriteEvictsNothing<V>(e: Entries<V>, k: string, v: V, maxSize: int)
    requires DistinctKeys(e) && k in Keys(e)
    ensures |AfterSet(e, k, v, maxSize)| == |e|
    ensures forall j :: j in Keys(AfterSet(e, k, v, maxSize)) <==> j in Keys(e)
    ensures forall j :: j != k ==> Lookup(AfterSet(e, k, v, maxSize), j) == Lookup(e, j)
  {
    WithoutFacts(e, k);
    LookupLast(Without(e, k), k, v);
  }

  /** Inserting a new key into a full cache evicts exactly the least recently used key,
    * the first entry, and keeps every other entry. */
  lemma FullInsertEvictsOldest<V>(e: Entries<V>, k: string, v: V, maxSize: int)
    requires Bounded(e, maxSize) && k !in Keys(e) && |e| >= maxSize && e != []
    ensures |AfterSet(e, k, v, maxSize)| == |e|
    ensures Lookup(AfterSet(e, k, v, maxSize), e[0].0) == None
    ensures forall j :: j != k && j != e[0].0 ==> Lookup(AfterSet(e, k, v, maxSize), j) == Lookup(e, j)
  {
    LookupFirst(e);
    LookupLast(e[1..], k, v);
  }

  class LruCache<V> {
    var entries: Entries<V>
    const maxSize: int

    ghost predicate Valid()
      reads this
    {
      Bounded(entries, maxSize)
    }

    constructor (maxSize: int)
      ensures Valid() && entries == [] && this.maxSize == maxSize
    {
      entries := [];
      this.maxSize := maxSize;
    }

    /** `get`: the stored value, if any; the key becomes the most recently used. */
    method Get(key: string) returns (r: Option<V>)
      requires Valid()
      modifies this
      ensures Valid()
      ensures r == Lookup(old(entries), key)
      ensures entries == AfterGet(old(entries), key)
    {
      r := Lookup(entries, key);
      GetKeepsContents(entries, key, maxSize);
      if r.None? {
        return;
      }
      entries := Without(entries, key);
      entries := entries + [(key, r.value)];
    }

    /** `set`: store the value as the most recently used entry, evicting the oldest entry
      * when a new key meets a full cache. */
    method Set(key: string, value: V)
      requires Valid()
      modifies this
      ensures Valid()
      ensures entries == AfterSet(old(entries), key, value, maxSize)
    {
      SetKeepsBound(entries, key, value, maxSize);
      if key in Keys(entries) {
        entries := Without(entries, key);
      } else if |entries| >= maxSize && entries != [] {
        entries := entries[1..];
      }
      entries := entries + [(key, value)];
    }

    /** `clear`. */
    method Clear()
      requires Valid()
      modifies this
      ensures Valid() && entries == []
    {
      entries := [];
    }

    /** The `size` getter, which never exceeds `maxSize` when that is at least one. */
    function Size(): (n: nat)
      reads this
      requires Valid()
      ensures maxSize >= 1 ==> n <= maxSize
      ensures n == 0 <==> Keys(entries) == []
    {
      |entries|
    }
  }
}
