/** The stack of write-back caches over the coin database (class CCoinsViewCache of src/coins.cpp). */
module CoinsCache {
  import opened Common
  import opened CacheOverlay
  import opened CoinRecord

  type Hash = nat

  /** uint256() */
  const NULL_HASH: Hash := 0

  datatype ShieldedType = SPROUT | SAPLING

  /** The Sprout and the Sapling map of the source are one map here, keyed by the pool as well. */
  type Key = (ShieldedType, Hash)

  /** hashSproutAnchor and hashSaplingAnchor */
  datatype BestAnchors = BestAnchors(sprout: Hash, sapling: Hash) {
    function At(pool: ShieldedType): Hash {
      if pool == SPROUT then sprout else sapling
    }

    function With(pool: ShieldedType, h: Hash): BestAnchors {
      if pool == SPROUT then this.(sprout := h) else this.(sapling := h)
    }

    function Or(base: BestAnchors): BestAnchors {
      BestAnchors(OrElse(sprout, base.sprout), OrElse(sapling, base.sapling))
    }
  }

  /** A null hash defers to the view below. */
  function OrElse(h: Hash, base: Hash): Hash {
    if h != NULL_HASH then h else base
  }

  datatype CoinsEntry = CoinsEntry(coins: Coins, isDirty: bool, isFresh: bool)
  datatype AnchorEntry<Tree> = AnchorEntry(entered: bool, tree: Tree, isDirty: bool)
  datatype NullifierEntry = NullifierEntry(entered: bool, isDirty: bool)

  /** A pruned entry counts as absent. */
  function LiveCoins(e: CoinsEntry): Option<Coins> {
    if e.coins.IsPruned() then None else Some(e.coins)
  }

  function LiveTree<Tree>(e: AnchorEntry<Tree>): Option<Tree> {
    if e.entered then Some(e.tree) else None
  }

  function LiveNullifier(e: NullifierEntry): Option<()> {
    if e.entered then Some(()) else None
  }

  /** Tree roots and memory usage are computed by code outside this component. */
  datatype Env<!Tree(!new)> = Env(root: Tree -> Hash, treeUsage: Tree -> nat, coinsUsage: Coins -> nat) {
    ghost predicate RootDeterminesTree() {
      forall s: Tree, t: Tree :: root(s) == root(t) ==> s == t
    }

    function CoinsWeight(e: CoinsEntry): nat {
      coinsUsage(e.coins)
    }

    function TreeWeight(e: AnchorEntry<Tree>): nat {
      treeUsage(e.tree)
    }

    ghost predicate Rooted(anchors: map<Key, Tree>) {
      forall k :: k in anchors ==> root(anchors[k]) == k.1
    }

    ghost predicate EntriesRooted(anchors: map<Key, AnchorEntry<Tree>>) {
      forall k :: k in anchors ==> root(anchors[k].tree) == k.1
    }
  }

  /** The plain contents of a view: what the whole stack must be indistinguishable from. */
  datatype Ledger<Tree> = Ledger(
    coins: map<Hash, Coins>,
    anchors: map<Key, Tree>,
    nullifiers: map<Key, ()>,
    bestBlock: Hash,
    bestAnchors: BestAnchors)

  /** The live CCoinsModifier of a cache: the entry it refers to and the usage it noted. */
  datatype Modifier = Modifier(txid: Hash, usage: nat)

  /** The fields of one CCoinsViewCache. */
  datatype Cache<Tree> = Cache(
    hashBlock: Hash,
    hashAnchors: BestAnchors,
    coins: map<Hash, CoinsEntry>,
    anchors: map<Key, AnchorEntry<Tree>>,
    nullifiers: map<Key, NullifierEntry>,
    usage: nat,
    modifier: Option<Modifier>)

  function EmptyCache<Tree>(hashBlock: Hash, hashAnchors: BestAnchors): Cache<Tree> {
    Cache(hashBlock, hashAnchors, map[], map[], map[], 0, None)
  }

  /** A ledger seen through one cache. */
  ghost function Seen<Tree>(base: Ledger<Tree>, c: Cache<Tree>): Ledger<Tree> {
    Ledger(Overlay(base.coins, c.coins, LiveCoins), Overlay(base.anchors, c.anchors, LiveTree),
           Overlay(base.nullifiers, c.nullifiers, LiveNullifier), OrElse(c.hashBlock, base.bestBlock),
           c.hashAnchors.Or(base.bestAnchors))
  }

  /** What the DIRTY and FRESH flags mean, for a cache over the view base whose own cache holds held. */
  ghost predicate FlagsHold(base: map<Hash, Coins>, held: Option<set<Hash>>, cache: map<Hash, CoinsEntry>) {
    forall k :: k in cache ==> EntryHolds(base, held, k, cache[k])
  }

  /** The keys of the cache below, or None when the store is below, which has no entries that can be missing. */
  ghost predicate MayHold(held: Option<set<Hash>>, k: Hash) {
    held.Some? ==> k in held.value
  }

  ghost predicate EntryHolds(base: map<Hash, Coins>, held: Option<set<Hash>>, k: Hash, e: CoinsEntry) {
    && (e.isFresh ==> k !in base)
    && (!e.isFresh ==> MayHold(held, k))
    && (!e.isDirty ==> LiveCoins(e) == Get(base, k))
  }

  ghost predicate AnchorFlagsHold<Tree>(base: map<Key, Tree>, cache: map<Key, AnchorEntry<Tree>>) {
    forall k :: k in cache && !cache[k].isDirty ==> LiveTree(cache[k]) == Get(base, k)
  }

  ghost predicate NullifierFlagsHold(base: map<Key, ()>, cache: map<Key, NullifierEntry>) {
    forall k :: k in cache && !cache[k].isDirty ==> LiveNullifier(cache[k]) == Get(base, k)
  }

  /** Reading an entry in from the base. */
  lemma FillCoins<Tree(!new)>(env: Env<Tree>, base: map<Hash, Coins>, held: Option<set<Hash>>, cache: map<Hash, CoinsEntry>,
                              k: Hash, e: CoinsEntry, m: Hash)
    requires FlagsHold(base, held, cache) && EntryHolds(base, held, k, e) && !e.isDirty && k !in cache
    ensures FlagsHold(base, held, cache[k := e])
    ensures Overlay(base, cache[k := e], LiveCoins) == Overlay(base, cache, LiveCoins)
    ensures Total(cache[k := e], env.CoinsWeight) == Total(cache, env.CoinsWeight) + env.coinsUsage(e.coins)
    ensures m in cache ==>
              Total(cache[k := e] - {m}, env.CoinsWeight) == Total(cache - {m}, env.CoinsWeight) + env.coinsUsage(e.coins)
  {
    OverlayFill(base, cache, LiveCoins, k, e);
    TotalPut(cache, env.CoinsWeight, k, e);
    if m in cache {
      TotalPut(cache - {m}, env.CoinsWeight, k, e);
      assert cache[k := e] - {m} == (cache - {m})[k := e];
    }
  }

  lemma StoredCoins(base: map<Hash, Coins>, cache: map<Hash, CoinsEntry>)
    requires forall k :: k in base ==> !base[k].IsPruned() && base[k].IsClean()
    requires forall k :: k in cache ==> cache[k].coins.IsClean()
    ensures var m := Overlay(base, cache, LiveCoins); forall k :: k in m ==> !m[k].IsPruned() && m[k].IsClean()
  {
  }

  lemma StoredAnchors<Tree(!new)>(env: Env<Tree>, base: map<Key, Tree>, cache: map<Key, AnchorEntry<Tree>>)
    requires env.Rooted(base) && env.EntriesRooted(cache)
    ensures env.Rooted(Overlay(base, cache, LiveTree))
  {
  }

  // ---- one entry of a batch write ----

  /** What BatchWrite does to the parent's entry for one child entry. */
  function WrittenCoins(cache: map<Hash, CoinsEntry>, k: Hash, e: CoinsEntry): map<Hash, CoinsEntry> {
    if !e.isDirty then cache
    else if k !in cache then (if e.coins.IsPruned() then cache else cache[k := CoinsEntry(e.coins, true, true)])
    else if cache[k].isFresh && e.coins.IsPruned() then cache - {k}
    else cache[k := CoinsEntry(e.coins, true, cache[k].isFresh)]
  }

  /** Writing one child entry keeps the parent's flags meaningful, makes the parent answer what the child
      answered for that key, and never meets the state its assertion on FRESH guards against. */
  lemma WriteCoinsStep(base: map<Hash, Coins>, held: Option<set<Hash>>, cache: map<Hash, CoinsEntry>, k: Hash, e: CoinsEntry)
    requires FlagsHold(base, held, cache)
    requires EntryHolds(Overlay(base, cache, LiveCoins), Some(cache.Keys), k, e)
    ensures FlagsHold(base, held, WrittenCoins(cache, k, e))
    ensures Overlay(base, WrittenCoins(cache, k, e), LiveCoins) == Put(Overlay(base, cache, LiveCoins), k, LiveCoins(e))
    ensures e.isDirty && k !in cache && !e.coins.IsPruned() ==> e.isFresh
  {
    var view := Overlay(base, cache, LiveCoins);
    OverlayAt(base, cache, LiveCoins, k);
    if e.isDirty && k in cache && cache[k].isFresh && e.coins.IsPruned() {
      OverlayDrop(base, cache, LiveCoins, k);
    } else if e.isDirty && (k in cache || !e.coins.IsPruned()) {
      OverlayPut(base, cache, LiveCoins, k, WrittenCoins(cache, k, e)[k]);
    } else {
      forall x ensures Get(Put(view, k, LiveCoins(e)), x) == Get(view, x) {}
      SameMap(Put(view, k, LiveCoins(e)), view);
    }
  }

  function WrittenAnchor<Tree>(cache: map<Key, AnchorEntry<Tree>>, k: Key, e: AnchorEntry<Tree>): map<Key, AnchorEntry<Tree>> {
    if !e.isDirty then cache
    else if k !in cache then cache[k := AnchorEntry(e.entered, e.tree, true)]
    else if cache[k].entered != e.entered then cache[k := cache[k].(entered := e.entered, isDirty := true)]
    else cache
  }

  /** Flipping only the entered bit is enough because the root determines the tree. */
  lemma WriteAnchorStep<Tree(!new)>(env: Env<Tree>, base: map<Key, Tree>, cache: map<Key, AnchorEntry<Tree>>, k: Key, e: AnchorEntry<Tree>)
    requires env.RootDeterminesTree() && env.EntriesRooted(cache) && env.root(e.tree) == k.1
    requires AnchorFlagsHold(base, cache)
    requires !e.isDirty ==> LiveTree(e) == Get(Overlay(base, cache, LiveTree), k)
    ensures env.EntriesRooted(WrittenAnchor(cache, k, e))
    ensures AnchorFlagsHold(base, WrittenAnchor(cache, k, e))
    ensures Overlay(base, WrittenAnchor(cache, k, e), LiveTree) == Put(Overlay(base, cache, LiveTree), k, LiveTree(e))
  {
    var view := Overlay(base, cache, LiveTree);
    OverlayAt(base, cache, LiveTree, k);
    if e.isDirty && (k !in cache || cache[k].entered != e.entered) {
      assert k in cache ==> cache[k].tree == e.tree;
      OverlayPut(base, cache, LiveTree, k, WrittenAnchor(cache, k, e)[k]);
    } else {
      assert k in cache && e.isDirty ==> cache[k].tree == e.tree;
      assert LiveTree(e) == Get(view, k);
      forall x ensures Get(Put(view, k, LiveTree(e)), x) == Get(view, x) {}
      SameMap(Put(view, k, LiveTree(e)), view);
    }
  }

  function WrittenNullifier(cache: map<Key, NullifierEntry>, k: Key, e: NullifierEntry): map<Key, NullifierEntry> {
    if !e.isDirty then cache
    else if k !in cache then cache[k := NullifierEntry(e.entered, true)]
    else if cache[k].entered != e.entered then cache[k := NullifierEntry(e.entered, true)]
    else cache
  }

  lemma WriteNullifierStep(base: map<Key, ()>, cache: map<Key, NullifierEntry>, k: Key, e: NullifierEntry)
    requires NullifierFlagsHold(base, cache)
    requires !e.isDirty ==> LiveNullifier(e) == Get(Overlay(base, cache, LiveNullifier), k)
    ensures NullifierFlagsHold(base, WrittenNullifier(cache, k, e))
    ensures Overlay(base, WrittenNullifier(cache, k, e), LiveNullifier)
         == Put(Overlay(base, cache, LiveNullifier), k, LiveNullifier(e))
  {
  }

  // ---- the whole stack, as values ----

  /** cachedCoinsUsage is the summed usage of all cached coins and trees; a live modifier's entry counts as it was. */
  ghost predicate UsageHolds<Tree(!new)>(env: Env<Tree>, c: Cache<Tree>) {
    c.usage == Total(c.anchors, env.TreeWeight) + match c.modifier
      case None => Total(c.coins, env.CoinsWeight)
      case Some(m) => Total(c.coins - {m.txid}, env.CoinsWeight) + m.usage
  }

  ghost predicate ModifierHolds<Tree>(c: Cache<Tree>) {
    && (c.modifier.Some? ==> c.modifier.value.txid in c.coins && c.coins[c.modifier.value.txid].isDirty)
    && (forall k :: k in c.coins && !(c.modifier.Some? && k == c.modifier.value.txid) ==> c.coins[k].coins.IsClean())
  }

  ghost predicate CacheOk<Tree(!new)>(env: Env<Tree>, base: Ledger<Tree>, held: Option<set<Hash>>, c: Cache<Tree>) {
    && FlagsHold(base.coins, held, c.coins)
    && AnchorFlagsHold(base.anchors, c.anchors) && env.EntriesRooted(c.anchors)
    && NullifierFlagsHold(base.nullifiers, c.nullifiers)
    && ModifierHolds(c) && UsageHolds(env, c)
  }

  /** The store holds unspent, cleaned-up coins and trees under their roots. */
  ghost predicate StoreOk<Tree(!new)>(env: Env<Tree>, store: Ledger<Tree>) {
    && (forall k :: k in store.coins ==> !store.coins[k].IsPruned() && store.coins[k].IsClean())
    && env.Rooted(store.anchors)
  }

  /** What level n of the stack answers: level 0 is the store, level n the cache caches[n - 1]. */
  ghost function ViewOf<Tree>(store: Ledger<Tree>, caches: seq<Cache<Tree>>, n: nat): Ledger<Tree>
    requires n <= |caches|
  {
    if n == 0 then store else Seen(ViewOf(store, caches, n - 1), caches[n - 1])
  }

  /** The keys that level n holds entries for. */
  ghost function HeldAt<Tree>(caches: seq<Cache<Tree>>, n: nat): Option<set<Hash>>
    requires n <= |caches|
  {
    if n == 0 then None else Some(caches[n - 1].coins.Keys)
  }

  ghost predicate StackOk<Tree(!new)>(env: Env<Tree>, store: Ledger<Tree>, caches: seq<Cache<Tree>>) {
    && env.RootDeterminesTree()
    && StoreOk(env, store)
    && (forall i :: 0 <= i < |caches| ==> CacheOk(env, ViewOf(store, caches, i), HeldAt(caches, i), caches[i]))
    && (forall i :: 0 <= i < |caches| - 1 ==> caches[i].modifier.None?)
  }

  /** A view depends only on the levels up to it. */
  lemma {:induction false} ViewPrefix<Tree>(store: Ledger<Tree>, a: seq<Cache<Tree>>, b: seq<Cache<Tree>>, n: nat)
    requires n <= |a| && n <= |b| && a[..n] == b[..n]
    ensures ViewOf(store, a, n) == ViewOf(store, b, n)
  {
    if n > 0 {
      assert a[..n - 1] == a[..n][..n - 1] == b[..n][..n - 1] == b[..n - 1];
      assert a[n - 1] == a[..n][n - 1] == b[..n][n - 1] == b[n - 1];
      ViewPrefix(store, a, b, n - 1);
    }
  }

  /** Replacing a cache by one that answers the same leaves every view alone. */
  lemma {:induction false} ViewReplaced<Tree>(store: Ledger<Tree>, caches: seq<Cache<Tree>>, i: nat, c: Cache<Tree>, n: nat)
    requires i < |caches| && n <= |caches|
    requires Seen(ViewOf(store, caches, i), c) == Seen(ViewOf(store, caches, i), caches[i])
    ensures ViewOf(store, caches[i := c], n) == ViewOf(store, caches, n)
  {
    hide Seen;
    if n <= i {
      ViewPrefix(store, caches[i := c], caches, n);
    } else {
      ViewReplaced(store, caches, i, c, n - 1);
    }
  }

  /** A cache stays consistent when the cache below it holds more. */
  lemma HeldMore<Tree(!new)>(env: Env<Tree>, base: Ledger<Tree>, held: set<Hash>, more: set<Hash>, c: Cache<Tree>)
    requires CacheOk(env, base, Some(held), c) && held <= more
    ensures CacheOk(env, base, Some(more), c)
  {
  }

  /** Every operation that only fills a cache is invisible at every level. */
  lemma FillKeepsStack<Tree(!new)>(env: Env<Tree>, store: Ledger<Tree>, caches: seq<Cache<Tree>>, i: nat, c: Cache<Tree>)
    requires StackOk(env, store, caches) && i < |caches|
    requires Seen(ViewOf(store, caches, i), c) == Seen(ViewOf(store, caches, i), caches[i])
    requires CacheOk(env, ViewOf(store, caches, i), HeldAt(caches, i), c)
    requires caches[i].coins.Keys <= c.coins.Keys && c.modifier == caches[i].modifier
    ensures StackOk(env, store, caches[i := c])
    ensures forall n :: 0 <= n <= |caches| ==> ViewOf(store, caches[i := c], n) == ViewOf(store, caches, n)
  {
    hide Seen, CacheOk, StoreOk;
    var new_ := caches[i := c];
    forall n | 0 <= n <= |caches|
      ensures ViewOf(store, new_, n) == ViewOf(store, caches, n)
    {
      ViewReplaced(store, caches, i, c, n);
    }
    forall j | 0 <= j < |caches|
      ensures CacheOk(env, ViewOf(store, new_, j), HeldAt(new_, j), new_[j])
    {
      assert CacheOk(env, ViewOf(store, caches, j), HeldAt(caches, j), caches[j]);
      if j == i + 1 {
        HeldMore(env, ViewOf(store, caches, j), caches[i].coins.Keys, c.coins.Keys, caches[j]);
      }
    }
  }

  /** The topmost cache may change in any way that keeps its own invariant. */
  lemma TopKeepsStack<Tree(!new)>(env: Env<Tree>, store: Ledger<Tree>, caches: seq<Cache<Tree>>, c: Cache<Tree>)
    requires StackOk(env, store, caches) && caches != []
    requires CacheOk(env, ViewOf(store, caches, |caches| - 1), HeldAt(caches, |caches| - 1), c)
    ensures StackOk(env, store, caches[|caches| - 1 := c])
    ensures forall n :: 0 <= n < |caches| ==> ViewOf(store, caches[|caches| - 1 := c], n) == ViewOf(store, caches, n)
    ensures ViewOf(store, caches[|caches| - 1 := c], |caches|) == Seen(ViewOf(store, caches, |caches| - 1), c)
  {
    hide Seen, CacheOk, StoreOk;
    var top := |caches| - 1;
    var new_ := caches[top := c];
    forall n | 0 <= n <= top
      ensures ViewOf(store, new_, n) == ViewOf(store, caches, n)
    {
      ViewPrefix(store, new_, caches, n);
    }
    forall j | 0 <= j < |caches|
      ensures CacheOk(env, ViewOf(store, new_, j), HeldAt(new_, j), new_[j])
    {
      assert CacheOk(env, ViewOf(store, caches, j), HeldAt(caches, j), caches[j]);
    }
  }
}
