/** What a cache of entries laid over a plain map answers, and how sums over a cache change. */
module CacheOverlay {
  import opened Common

  ghost function Get<K, V>(m: map<K, V>, k: K): Option<V> {
    if k in m then Some(m[k]) else None
  }

  ghost function Put<K, V>(m: map<K, V>, k: K, v: Option<V>): map<K, V> {
    if v.Some? then m[k := v.value] else m - {k}
  }

  /** The map seen through a cache: a cached key answers with its entry, alive or dead. */
  function Overlay<K(==), V, E>(base: map<K, V>, cache: map<K, E>, live: E -> Option<V>): map<K, V> {
    map k | k in base.Keys + cache.Keys && (k in cache ==> live(cache[k]).Some?)
      :: if k in cache then live(cache[k]).value else base[k]
  }

  lemma OverlayAt<K, V, E>(base: map<K, V>, cache: map<K, E>, live: E -> Option<V>, k: K)
    ensures Get(Overlay(base, cache, live), k) == if k in cache then live(cache[k]) else Get(base, k)
  {
  }

  /** Two plain maps are equal when every lookup is. */
  lemma SameMap<K(!new), V>(a: map<K, V>, b: map<K, V>)
    requires forall k :: Get(a, k) == Get(b, k)
    ensures a == b
  {
    forall k
      ensures k in a <==> k in b
      ensures k in a ==> a[k] == b[k]
    {
      assert Get(a, k) == Get(b, k);
    }
    assert a.Keys == b.Keys;
  }

  /** Changing one entry changes one answer. */
  lemma OverlayPut<K(!new), V, E>(base: map<K, V>, cache: map<K, E>, live: E -> Option<V>, k: K, e: E)
    ensures Overlay(base, cache[k := e], live) == Put(Overlay(base, cache, live), k, live(e))
  {
  }

  /** Forgetting an entry brings the base answer back. */
  lemma OverlayDrop<K(!new), V, E>(base: map<K, V>, cache: map<K, E>, live: E -> Option<V>, k: K)
    ensures Overlay(base, cache - {k}, live) == Put(Overlay(base, cache, live), k, Get(base, k))
  {
  }

  /** An empty cache is transparent. */
  lemma OverlayEmpty<K(!new), V, E>(base: map<K, V>, live: E -> Option<V>)
    ensures Overlay(base, map[], live) == base
  {
  }

  /** Entries that repeat the base answer can be left out of a write. */
  lemma OverlayDirty<K(!new), V, E>(base: map<K, V>, cache: map<K, E>, live: E -> Option<V>, dirty: map<K, E>)
    requires dirty.Keys <= cache.Keys && forall k :: k in dirty ==> dirty[k] == cache[k]
    requires forall k :: k in cache && k !in dirty ==> live(cache[k]) == Get(base, k)
    ensures Overlay(base, dirty, live) == Overlay(base, cache, live)
  {
    forall k
      ensures Get(Overlay(base, dirty, live), k) == Get(Overlay(base, cache, live), k)
    {
      OverlayAt(base, dirty, live, k);
      OverlayAt(base, cache, live, k);
    }
    SameMap(Overlay(base, dirty, live), Overlay(base, cache, live));
  }

  /** Filling the cache with what the base answers anyway changes nothing. */
  lemma OverlayFill<K(!new), V, E>(base: map<K, V>, cache: map<K, E>, live: E -> Option<V>, k: K, e: E)
    requires k !in cache && live(e) == Get(base, k)
    ensures Overlay(base, cache[k := e], live) == Overlay(base, cache, live)
  {
  }

  /** Midway through a batch write: the keys of child that are no longer pending have been written over was. */
  ghost predicate Written<K(!new), V, E>(now: map<K, V>, was: map<K, V>, child: map<K, E>, pending: map<K, E>, live: E -> Option<V>) {
    && pending.Keys <= child.Keys
    && (forall k :: k in pending ==> pending[k] == child[k])
    && (forall k :: Get(now, k) == if k in child && k !in pending then live(child[k]) else Get(was, k))
  }

  lemma WrittenNone<K(!new), V, E>(was: map<K, V>, child: map<K, E>, live: E -> Option<V>)
    ensures Written(was, was, child, child, live)
  {
  }

  lemma WrittenStep<K(!new), V, E>(now: map<K, V>, was: map<K, V>, child: map<K, E>, pending: map<K, E>, live: E -> Option<V>, k: K)
    requires Written(now, was, child, pending, live)
    requires k in pending
    ensures Get(now, k) == Get(was, k)
    ensures Written(Put(now, k, live(pending[k])), was, child, pending - {k}, live)
    ensures Get(now, k) == live(pending[k]) ==> Put(now, k, live(pending[k])) == now
  {
  }

  lemma WrittenAll<K(!new), V, E>(now: map<K, V>, was: map<K, V>, child: map<K, E>, live: E -> Option<V>)
    requires Written(now, was, child, map[], live)
    ensures now == Overlay(was, child, live)
  {
  }

  /** The total weight of the entries of a cache. */
  ghost function Total<K, E>(m: map<K, E>, weight: E -> nat): nat
    decreases |m|
  {
    if m == map[] then 0 else
      var k :| k in m;
      weight(m[k]) + Total(m - {k}, weight)
  }

  /** The total splits at any key, whichever order it was computed in. */
  lemma {:induction false} TotalAt<K, E>(m: map<K, E>, weight: E -> nat, k: K)
    requires k in m
    ensures Total(m, weight) == weight(m[k]) + Total(m - {k}, weight)
    decreases |m|
  {
    var c :| c in m && Total(m, weight) == weight(m[c]) + Total(m - {c}, weight);
    if c != k {
      TotalAt(m - {c}, weight, k);
      TotalAt(m - {k}, weight, c);
      assert m - {c} - {k} == m - {k} - {c};
    }
  }

  lemma TotalPut<K, E>(m: map<K, E>, weight: E -> nat, k: K, e: E)
    ensures Total(m[k := e], weight) == Total(m - {k}, weight) + weight(e)
    ensures k !in m ==> m - {k} == m
  {
    TotalAt(m[k := e], weight, k);
    assert m[k := e] - {k} == m - {k};
  }
}
