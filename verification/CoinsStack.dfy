/** The operations of CCoinsViewCache on a stack of caches, against the plain ledger each level stands for. */
module CoinsStack {
  import opened Common
  import opened CacheOverlay
  import opened CoinRecord
  import opened CoinsCache
  import opened CoinsLevels

  // ---- reads: what filling a cache keeps ----

  lemma ReadCoins<Tree(!new)>(env: Env<Tree>, base: Ledger<Tree>, held: Option<set<Hash>>, c: Cache<Tree>, k: Hash, coins: Coins)
    requires CacheOk(env, base, held, c) && k !in c.coins && coins.IsClean() && MayHold(held, k)
    requires Get(base.coins, k) == if coins.IsPruned() then None else Some(coins)
    ensures var c' := c.(coins := c.coins[k := CoinsEntry(coins, false, coins.IsPruned())], usage := c.usage + env.coinsUsage(coins));
            CacheOk(env, base, held, c') && Seen(base, c') == Seen(base, c)
  {
    hide Overlay, Total, AnchorFlagsHold, NullifierFlagsHold;
    FillCoins(env, base.coins, held, c.coins, k, CoinsEntry(coins, false, coins.IsPruned()),
              if c.modifier.Some? then c.modifier.value.txid else k);
  }

  lemma ReadAnchor<Tree(!new)>(env: Env<Tree>, base: Ledger<Tree>, held: Option<set<Hash>>, c: Cache<Tree>, k: Key, tree: Tree)
    requires CacheOk(env, base, held, c) && k !in c.anchors && Get(base.anchors, k) == Some(tree) && env.root(tree) == k.1
    ensures var c' := c.(anchors := c.anchors[k := AnchorEntry(true, tree, false)], usage := c.usage + env.treeUsage(tree));
            CacheOk(env, base, held, c') && Seen(base, c') == Seen(base, c)
  {
    hide Overlay, Total, FlagsHold, NullifierFlagsHold;
    OverlayFill(base.anchors, c.anchors, LiveTree, k, AnchorEntry(true, tree, false));
    TotalPut(c.anchors, env.TreeWeight, k, AnchorEntry(true, tree, false));
  }

  lemma ReadNullifier<Tree(!new)>(env: Env<Tree>, base: Ledger<Tree>, held: Option<set<Hash>>, c: Cache<Tree>, k: Key)
    requires CacheOk(env, base, held, c) && k !in c.nullifiers
    ensures var c' := c.(nullifiers := c.nullifiers[k := NullifierEntry(k in base.nullifiers, false)]);
            CacheOk(env, base, held, c') && Seen(base, c') == Seen(base, c)
  {
    hide Overlay, Total, FlagsHold, AnchorFlagsHold;
    assert k in base.nullifiers ==> base.nullifiers[k] == ();
    OverlayFill(base.nullifiers, c.nullifiers, LiveNullifier, k, NullifierEntry(k in base.nullifiers, false));
  }

  lemma StoreRooted<Tree(!new)>(env: Env<Tree>, store: Ledger<Tree>, caches: seq<Cache<Tree>>)
    requires StackOk(env, store, caches)
    ensures env.Rooted(store.anchors)
  {
    hide CacheOk;
  }

  lemma CacheRooted<Tree(!new)>(env: Env<Tree>, base: Ledger<Tree>, held: Option<set<Hash>>, c: Cache<Tree>)
    requires CacheOk(env, base, held, c)
    ensures env.EntriesRooted(c.anchors)
  {
  }

  /** Every tree a level answers with sits under its own root. */
  lemma {:induction false} ViewRooted<Tree(!new)>(env: Env<Tree>, store: Ledger<Tree>, caches: seq<Cache<Tree>>, n: nat)
    requires StackOk(env, store, caches) && n <= |caches|
    ensures env.Rooted(ViewOf(store, caches, n).anchors)
  {
    hide StackOk, CacheOk, Overlay;
    if n == 0 {
      StoreRooted(env, store, caches);
    } else {
      ViewRooted(env, store, caches, n - 1);
      StackAt(env, store, caches, n - 1);
      CacheRooted(env, ViewOf(store, caches, n - 1), HeldAt(caches, n - 1), caches[n - 1]);
      StoredAnchors(env, ViewOf(store, caches, n - 1).anchors, caches[n - 1].anchors);
    }
  }

  // ---- edits through a modifier ----

  /** Opening a modifier marks the entry dirty and is not visible. */
  lemma OpenModifier<Tree(!new)>(env: Env<Tree>, base: Ledger<Tree>, held: Option<set<Hash>>, c: Cache<Tree>, k: Hash, e: CoinsEntry)
    requires CacheOk(env, base, held, c) && c.modifier.None?
    requires EntryHolds(base.coins, held, k, e) && e.isDirty
    requires if k in c.coins then e.coins == c.coins[k].coins else LiveCoins(e) == Get(base.coins, k)
    ensures var u := if k in c.coins then env.coinsUsage(c.coins[k].coins) else 0;
            var c' := c.(coins := c.coins[k := e], modifier := Some(Modifier(k, u)));
            CacheOk(env, base, held, c') && Seen(base, c') == Seen(base, c)
  {
    hide Overlay, Total, AnchorFlagsHold, NullifierFlagsHold;
    OverlayPut(base.coins, c.coins, LiveCoins, k, e);
    OverlayAt(base.coins, c.coins, LiveCoins, k);
    SamePut(Overlay(base.coins, c.coins, LiveCoins), k, LiveCoins(e));
    assert c.coins[k := e] - {k} == c.coins - {k};
    if k in c.coins {
      TotalAt(c.coins, env.CoinsWeight, k);
    } else {
      assert c.coins - {k} == c.coins;
    }
  }

  /** Writing through the modifier changes the answer for its own transaction only. */
  lemma WriteThrough<Tree(!new)>(env: Env<Tree>, base: Ledger<Tree>, held: Option<set<Hash>>, c: Cache<Tree>, coins: Coins)
    requires CacheOk(env, base, held, c) && c.modifier.Some?
    ensures var k := c.modifier.value.txid;
            var e := c.coins[k].(coins := coins);
            var c' := c.(coins := c.coins[k := e]);
            CacheOk(env, base, held, c') && Seen(base, c') == Seen(base, c).(coins := Put(Seen(base, c).coins, k, LiveCoins(e)))
  {
    hide Overlay, Total, AnchorFlagsHold, NullifierFlagsHold;
    var k := c.modifier.value.txid;
    OverlayPut(base.coins, c.coins, LiveCoins, k, c.coins[k].(coins := coins));
    assert c.coins[k := c.coins[k].(coins := coins)] - {k} == c.coins - {k};
  }

  /** Closing it either drops a fresh pruned entry or keeps the cleaned-up coins. */
  lemma CloseModifier<Tree(!new)>(env: Env<Tree>, base: Ledger<Tree>, held: Option<set<Hash>>, c: Cache<Tree>)
    requires CacheOk(env, base, held, c) && c.modifier.Some?
    ensures c.usage >= c.modifier.value.usage
    ensures CacheOk(env, base, held, Closed(env, c))
    ensures var k := c.modifier.value.txid;
            Seen(base, Closed(env, c)) ==
            Seen(base, c).(coins := Put(Seen(base, c).coins, k, LiveCoins(c.coins[k].(coins := c.coins[k].coins.Cleaned()))))
  {
    hide Overlay, Total, AnchorFlagsHold, NullifierFlagsHold;
    var m := c.modifier.value;
    var e := c.coins[m.txid].(coins := c.coins[m.txid].coins.Cleaned());
    OverlayPut(base.coins, c.coins, LiveCoins, m.txid, e);
    OverlayDrop(base.coins, c.coins, LiveCoins, m.txid);
    TotalPut(c.coins, env.CoinsWeight, m.txid, e);
  }

  function Closed<Tree(!new)>(env: Env<Tree>, c: Cache<Tree>): Cache<Tree>
    requires c.modifier.Some? && c.modifier.value.txid in c.coins && c.usage >= c.modifier.value.usage
  {
    var m := c.modifier.value;
    var e := c.coins[m.txid].(coins := c.coins[m.txid].coins.Cleaned());
    if e.isFresh && e.coins.IsPruned()
    then c.(coins := c.coins - {m.txid}, usage := c.usage - m.usage, modifier := None)
    else c.(coins := c.coins[m.txid := e], usage := c.usage - m.usage + env.coinsUsage(e.coins), modifier := None)
  }

  lemma SamePut<K(!new), V>(m: map<K, V>, k: K, v: Option<V>)
    requires Get(m, k) == v
    ensures Put(m, k, v) == m
  {
  }

  // ---- edits of anchors and nullifiers ----

  lemma EnterAnchor<Tree(!new)>(env: Env<Tree>, base: Ledger<Tree>, held: Option<set<Hash>>, c: Cache<Tree>, k: Key, tree: Tree)
    requires env.RootDeterminesTree() && CacheOk(env, base, held, c) && env.root(tree) == k.1
    ensures var c' := c.(anchors := c.anchors[k := AnchorEntry(true, tree, true)],
                         usage := if k in c.anchors then c.usage else c.usage + env.treeUsage(tree));
            CacheOk(env, base, held, c') && Seen(base, c') == Seen(base, c).(anchors := Put(Seen(base, c).anchors, k, Some(tree)))
  {
    hide Overlay, Total, FlagsHold, NullifierFlagsHold;
    var e := AnchorEntry(true, tree, true);
    OverlayPut(base.anchors, c.anchors, LiveTree, k, e);
    TotalPut(c.anchors, env.TreeWeight, k, e);
    if k in c.anchors {
      assert c.anchors[k].tree == tree;
      TotalAt(c.anchors, env.TreeWeight, k);
    }
  }

  lemma LeaveAnchor<Tree(!new)>(env: Env<Tree>, base: Ledger<Tree>, held: Option<set<Hash>>, c: Cache<Tree>, k: Key)
    requires CacheOk(env, base, held, c) && k in c.anchors
    ensures var c' := c.(anchors := c.anchors[k := c.anchors[k].(entered := false, isDirty := true)]);
            CacheOk(env, base, held, c') && Seen(base, c') == Seen(base, c).(anchors := Put(Seen(base, c).anchors, k, None))
  {
    hide Overlay, Total, FlagsHold, NullifierFlagsHold;
    var e := c.anchors[k].(entered := false, isDirty := true);
    OverlayPut(base.anchors, c.anchors, LiveTree, k, e);
    TotalPut(c.anchors, env.TreeWeight, k, e);
    TotalAt(c.anchors, env.TreeWeight, k);
  }

  lemma EnterNullifier<Tree(!new)>(env: Env<Tree>, base: Ledger<Tree>, held: Option<set<Hash>>, c: Cache<Tree>, k: Key, spent: bool)
    requires CacheOk(env, base, held, c)
    ensures var c' := c.(nullifiers := c.nullifiers[k := NullifierEntry(spent, true)]);
            CacheOk(env, base, held, c') &&
            Seen(base, c') == Seen(base, c).(nullifiers := Put(Seen(base, c).nullifiers, k, if spent then Some(()) else None))
  {
    hide Overlay, Total, FlagsHold, AnchorFlagsHold;
    OverlayPut(base.nullifiers, c.nullifiers, LiveNullifier, k, NullifierEntry(spent, true));
  }

  // ---- batch writes, one map at a time ----

  method BatchWriteCoins<Tree(!new)>(env: Env<Tree>, mapCoins: map<Hash, CoinsEntry>, cacheCoins: map<Hash, CoinsEntry>,
                                     cachedUsage: nat, ghost base: map<Hash, Coins>, ghost held: Option<set<Hash>>)
    returns (coins: map<Hash, CoinsEntry>, usage: nat)
    requires FlagsHold(base, held, cacheCoins)
    requires FlagsHold(Overlay(base, cacheCoins, LiveCoins), Some(cacheCoins.Keys), mapCoins)
    requires forall k :: k in cacheCoins ==> cacheCoins[k].coins.IsClean()
    requires forall k :: k in mapCoins ==> mapCoins[k].coins.IsClean()
    requires cachedUsage >= Total(cacheCoins, env.CoinsWeight)
    ensures FlagsHold(base, held, coins)
    ensures Overlay(base, coins, LiveCoins) == Overlay(Overlay(base, cacheCoins, LiveCoins), mapCoins, LiveCoins)
    ensures forall k :: k in coins ==> coins[k].coins.IsClean()
    ensures usage - Total(coins, env.CoinsWeight) == cachedUsage - Total(cacheCoins, env.CoinsWeight)
  {
    hide Overlay, Total, FlagsHold, Written;
    coins, usage := cacheCoins, cachedUsage;
    var pending := mapCoins;
    ghost var view := Overlay(base, cacheCoins, LiveCoins);
    WrittenNone(view, mapCoins, LiveCoins);
    while pending != map[]
      invariant Written(Overlay(base, coins, LiveCoins), view, mapCoins, pending, LiveCoins)
      invariant pending.Keys <= mapCoins.Keys && forall k :: k in pending ==> pending[k] == mapCoins[k]
      invariant forall k :: k in pending ==> (k in coins <==> k in cacheCoins)
      invariant FlagsHold(base, held, coins)
      invariant forall k :: k in coins ==> coins[k].coins.IsClean()
      invariant usage - Total(coins, env.CoinsWeight) == cachedUsage - Total(cacheCoins, env.CoinsWeight)
      decreases |pending|
    {
      var k :| k in pending;
      var e := pending[k];
      PendingHolds(base, coins, view, cacheCoins.Keys, mapCoins, pending, k);
      WriteCoinsStep(base, held, coins, k, e);
      WrittenStep(Overlay(base, coins, LiveCoins), view, mapCoins, pending, LiveCoins, k);
      WrittenUsage(env, coins, k, e);
      if e.isDirty {
        if k !in coins {
          if !e.coins.IsPruned() {
            assert e.isFresh;
            coins := coins[k := CoinsEntry(e.coins, true, true)];
            usage := usage + env.coinsUsage(e.coins);
          }
        } else if coins[k].isFresh && e.coins.IsPruned() {
          usage := usage - env.coinsUsage(coins[k].coins);
          coins := coins - {k};
        } else {
          usage := usage - env.coinsUsage(coins[k].coins);
          coins := coins[k := CoinsEntry(e.coins, true, coins[k].isFresh)];
          usage := usage + env.coinsUsage(e.coins);
        }
      }
      pending := pending - {k};
    }
    WrittenAll(Overlay(base, coins, LiveCoins), view, mapCoins, LiveCoins);
  }

  /** An entry that is still pending relates to the parent as it did before the batch. */
  lemma PendingHolds(base: map<Hash, Coins>, coins: map<Hash, CoinsEntry>, view: map<Hash, Coins>, keys: set<Hash>,
                     child: map<Hash, CoinsEntry>, pending: map<Hash, CoinsEntry>, k: Hash)
    requires Written(Overlay(base, coins, LiveCoins), view, child, pending, LiveCoins)
    requires FlagsHold(view, Some(keys), child) && k in pending && k in child
    requires k in coins <==> k in keys
    ensures EntryHolds(Overlay(base, coins, LiveCoins), Some(coins.Keys), k, pending[k])
  {
    hide Overlay;
    assert Get(Overlay(base, coins, LiveCoins), k) == Get(view, k);
  }

  lemma WrittenUsage<Tree(!new)>(env: Env<Tree>, coins: map<Hash, CoinsEntry>, k: Hash, e: CoinsEntry)
    ensures Total(coins[k := e], env.CoinsWeight) == Total(coins - {k}, env.CoinsWeight) + env.coinsUsage(e.coins)
    ensures forall f :: Total(coins[k := CoinsEntry(e.coins, true, f)], env.CoinsWeight)
                     == Total(coins - {k}, env.CoinsWeight) + env.coinsUsage(e.coins)
    ensures k in coins ==> Total(coins, env.CoinsWeight) == Total(coins - {k}, env.CoinsWeight) + env.coinsUsage(coins[k].coins)
    ensures k !in coins ==> coins - {k} == coins
  {
    TotalPut(coins, env.CoinsWeight, k, e);
    forall f ensures Total(coins[k := CoinsEntry(e.coins, true, f)], env.CoinsWeight)
                  == Total(coins - {k}, env.CoinsWeight) + env.coinsUsage(e.coins) {
      TotalPut(coins, env.CoinsWeight, k, CoinsEntry(e.coins, true, f));
    }
    if k in coins {
      TotalAt(coins, env.CoinsWeight, k);
    }
  }

  /** BatchWriteAnchors, src/coins.cpp */
  method BatchWriteAnchors<Tree(!new)>(env: Env<Tree>, mapAnchors: map<Key, AnchorEntry<Tree>>,
                                       cacheAnchors: map<Key, AnchorEntry<Tree>>, cachedUsage: nat, ghost base: map<Key, Tree>)
    returns (anchors: map<Key, AnchorEntry<Tree>>, usage: nat)
    requires env.RootDeterminesTree() && env.EntriesRooted(cacheAnchors) && env.EntriesRooted(mapAnchors)
    requires AnchorFlagsHold(base, cacheAnchors)
    requires AnchorFlagsHold(Overlay(base, cacheAnchors, LiveTree), mapAnchors)
    requires cachedUsage >= Total(cacheAnchors, env.TreeWeight)
    ensures env.EntriesRooted(anchors) && AnchorFlagsHold(base, anchors)
    ensures Overlay(base, anchors, LiveTree) == Overlay(Overlay(base, cacheAnchors, LiveTree), mapAnchors, LiveTree)
    ensures usage - Total(anchors, env.TreeWeight) == cachedUsage - Total(cacheAnchors, env.TreeWeight)
  {
    hide Overlay, Total, Written;
    anchors, usage := cacheAnchors, cachedUsage;
    var pending := mapAnchors;
    ghost var view := Overlay(base, cacheAnchors, LiveTree);
    WrittenNone(view, mapAnchors, LiveTree);
    while pending != map[]
      invariant Written(Overlay(base, anchors, LiveTree), view, mapAnchors, pending, LiveTree)
      invariant pending.Keys <= mapAnchors.Keys && forall k :: k in pending ==> pending[k] == mapAnchors[k]
      invariant env.EntriesRooted(anchors) && AnchorFlagsHold(base, anchors)
      invariant usage - Total(anchors, env.TreeWeight) == cachedUsage - Total(cacheAnchors, env.TreeWeight)
      decreases |pending|
    {
      var k :| k in pending;
      var e := pending[k];
      WrittenStep(Overlay(base, anchors, LiveTree), view, mapAnchors, pending, LiveTree, k);
      WriteAnchorStep(env, base, anchors, k, e);
      FlippedUsage(env, anchors, k, e);
      if e.isDirty {
        if k !in anchors {
          anchors := anchors[k := AnchorEntry(e.entered, e.tree, true)];
          usage := usage + env.treeUsage(e.tree);
        } else if anchors[k].entered != e.entered {
          anchors := anchors[k := anchors[k].(entered := e.entered, isDirty := true)];
        }
      }
      pending := pending - {k};
    }
    WrittenAll(Overlay(base, anchors, LiveTree), view, mapAnchors, LiveTree);
  }

  lemma FlippedUsage<Tree(!new)>(env: Env<Tree>, anchors: map<Key, AnchorEntry<Tree>>, k: Key, e: AnchorEntry<Tree>)
    ensures var after := WrittenAnchor(anchors, k, e);
            Total(after, env.TreeWeight) == Total(anchors, env.TreeWeight) + (if e.isDirty && k !in anchors then env.treeUsage(e.tree) else 0)
  {
    hide Total;
    var after := WrittenAnchor(anchors, k, e);
    if k in anchors {
      TotalAt(anchors, env.TreeWeight, k);
    }
    if k in after {
      TotalPut(anchors, env.TreeWeight, k, after[k]);
      assert after == anchors[k := after[k]];
    }
  }

  /** BatchWriteNullifiers, src/coins.cpp */
  method BatchWriteNullifiers(mapNullifiers: map<Key, NullifierEntry>, cacheNullifiers: map<Key, NullifierEntry>, ghost base: map<Key, ()>)
    returns (nullifiers: map<Key, NullifierEntry>)
    requires NullifierFlagsHold(base, cacheNullifiers)
    requires NullifierFlagsHold(Overlay(base, cacheNullifiers, LiveNullifier), mapNullifiers)
    ensures NullifierFlagsHold(base, nullifiers)
    ensures Overlay(base, nullifiers, LiveNullifier)
         == Overlay(Overlay(base, cacheNullifiers, LiveNullifier), mapNullifiers, LiveNullifier)
  {
    hide Overlay, Written;
    nullifiers := cacheNullifiers;
    var pending := mapNullifiers;
    ghost var view := Overlay(base, cacheNullifiers, LiveNullifier);
    WrittenNone(view, mapNullifiers, LiveNullifier);
    while pending != map[]
      invariant Written(Overlay(base, nullifiers, LiveNullifier), view, mapNullifiers, pending, LiveNullifier)
      invariant pending.Keys <= mapNullifiers.Keys && forall k :: k in pending ==> pending[k] == mapNullifiers[k]
      invariant NullifierFlagsHold(base, nullifiers)
      decreases |pending|
    {
      var k :| k in pending;
      var e := pending[k];
      WrittenStep(Overlay(base, nullifiers, LiveNullifier), view, mapNullifiers, pending, LiveNullifier, k);
      WriteNullifierStep(base, nullifiers, k, e);
      if e.isDirty {
        if k !in nullifiers {
          nullifiers := nullifiers[k := NullifierEntry(e.entered, true)];
        } else if nullifiers[k].entered != e.entered {
          nullifiers := nullifiers[k := NullifierEntry(e.entered, true)];
        }
      }
      pending := pending - {k};
    }
    WrittenAll(Overlay(base, nullifiers, LiveNullifier), view, mapNullifiers, LiveNullifier);
  }

  /** CCoinsViewCache::BatchWrite. Coins, anchors and nullifiers arrive exactly; the three hashes are overwritten
      even by null ones, so the answer for those is the child's hash or else the one below the parent. */
  method BatchWrite<Tree(!new)>(env: Env<Tree>, child: Cache<Tree>, us: Cache<Tree>, ghost base: Ledger<Tree>, ghost held: Option<set<Hash>>)
    returns (r: Cache<Tree>)
    requires env.RootDeterminesTree() && us.modifier.None? && child.modifier.None?
    requires CacheOk(env, base, held, us) && CacheOk(env, Seen(base, us), Some(us.coins.Keys), child)
    ensures CacheOk(env, base, held, r) && r.modifier.None?
    ensures r.hashBlock == child.hashBlock && r.hashAnchors == child.hashAnchors
    ensures Seen(base, r) == Seen(Seen(base, us), child).(bestBlock := OrElse(child.hashBlock, base.bestBlock),
                                                          bestAnchors := child.hashAnchors.Or(base.bestAnchors))
  {
    hide Overlay, Total, FlagsHold, AnchorFlagsHold, NullifierFlagsHold;
    var coins, usage := BatchWriteCoins(env, child.coins, us.coins, us.usage, base.coins, held);
    var anchors, usage' := BatchWriteAnchors(env, child.anchors, us.anchors, usage, base.anchors);
    var nullifiers := BatchWriteNullifiers(child.nullifiers, us.nullifiers, base.nullifiers);
    r := Cache(child.hashBlock, child.hashAnchors, coins, anchors, nullifiers, usage', None);
  }

  function DirtyCoins(c: map<Hash, CoinsEntry>): map<Hash, CoinsEntry> {
    map k | k in c && c[k].isDirty :: c[k]
  }

  function DirtyAnchors<Tree>(c: map<Key, AnchorEntry<Tree>>): map<Key, AnchorEntry<Tree>> {
    map k | k in c && c[k].isDirty :: c[k]
  }

  function DirtyNullifiers(c: map<Key, NullifierEntry>): map<Key, NullifierEntry> {
    map k | k in c && c[k].isDirty :: c[k]
  }

  /** CCoinsViewDB::BatchWrite, src/txdb.cpp: the dirty entries are written or erased, null hashes are ignored. */
  function StoreWrite<Tree>(store: Ledger<Tree>, c: Cache<Tree>): Ledger<Tree> {
    Ledger(Overlay(store.coins, DirtyCoins(c.coins), LiveCoins), Overlay(store.anchors, DirtyAnchors(c.anchors), LiveTree),
           Overlay(store.nullifiers, DirtyNullifiers(c.nullifiers), LiveNullifier),
           OrElse(c.hashBlock, store.bestBlock), c.hashAnchors.Or(store.bestAnchors))
  }

  /** Writing only the dirty entries leaves the store answering what the cache answered. */
  lemma StoreWriteSeen<Tree(!new)>(env: Env<Tree>, store: Ledger<Tree>, c: Cache<Tree>)
    requires StoreOk(env, store) && CacheOk(env, store, None, c) && c.modifier.None?
    ensures StoreWrite(store, c) == Seen(store, c) && StoreOk(env, Seen(store, c))
  {
    hide Overlay;
    OverlayDirty(store.coins, c.coins, LiveCoins, DirtyCoins(c.coins));
    OverlayDirty(store.anchors, c.anchors, LiveTree, DirtyAnchors(c.anchors));
    OverlayDirty(store.nullifiers, c.nullifiers, LiveNullifier, DirtyNullifiers(c.nullifiers));
    StoredCoins(store.coins, c.coins);
    StoredAnchors(env, store.anchors, c.anchors);
  }

  // ---- the stack of caches ----

  /** A store and the caches above it; level 0 is the store and level n is caches[n - 1], whose base is level n - 1. */
  class CoinsViewStack<Tree(!new)> {
    const env: Env<Tree>
    var store: Ledger<Tree>
    var caches: seq<Cache<Tree>>

    ghost predicate Valid()
      reads this
    {
      StackOk(env, store, caches)
    }

    /** The plain ledger that level n stands for. */
    ghost function View(n: nat): Ledger<Tree>
      requires n <= |caches|
      reads this
    {
      ViewOf(store, caches, n)
    }

    /** The stack of plain levels that the caches stand for, each with the hashes of its own cache. */
    ghost function Levels(): seq<Ledger<Tree>>
      reads this
    {
      LevelsOf(store, caches)
    }

    twostate predicate SameViews()
      reads this
    {
      && store == old(store) && |caches| == |old(caches)|
      && (forall n :: 0 <= n <= |caches| ==> View(n) == old(View(n)))
    }

    twostate predicate SameModifiers()
      reads this
    {
      |caches| == |old(caches)| && forall j :: 0 <= j < |caches| ==> caches[j].modifier == old(caches)[j].modifier
    }

    constructor (env: Env<Tree>, store: Ledger<Tree>)
      requires env.RootDeterminesTree() && StoreOk(env, store)
      ensures Valid() && this.env == env && this.store == store && caches == []
    {
      this.env, this.store, caches := env, store, [];
    }

    /** GetCoins with FetchCoins inside it. Level 0 is the store's own GetCoins. */
    method GetCoins(level: nat, txid: Hash) returns (found: bool, coins: Coins)
      requires Valid() && level <= |caches|
      modifies this`caches
      ensures Valid() && SameViews() && caches[level..] == old(caches)[level..]
      ensures SameModifiers() && Levels() == old(Levels())
      ensures Get(View(level).coins, txid) == if found && !coins.IsPruned() then Some(coins) else None
      ensures found ==> MayHold(HeldAt(caches, level), txid)
      ensures level > 0 ==> (found <==> txid in caches[level - 1].coins) && (found ==> coins == caches[level - 1].coins[txid].coins)
      ensures found && (level < |caches| || level == 0) ==> coins.IsClean()
      decreases level
    {
      hide Seen, StackOk, ViewOf;
      if level == 0 {
        found := txid in store.coins;
        coins := if found then store.coins[txid] else EMPTY_COINS;
        StoredAnswer(env, store, caches, txid);
      } else {
        FetchCoins(level, txid);
        found := txid in caches[level - 1].coins;
        coins := if found then caches[level - 1].coins[txid].coins else EMPTY_COINS;
        CachedAnswer(env, store, caches, level, txid);
        StackAt(env, store, caches, level - 1);
      }
    }

    /** FetchCoins: bring the entry in from the base, if the base has one. */
    method FetchCoins(level: nat, txid: Hash)
      requires Valid() && 0 < level <= |caches|
      modifies this`caches
      ensures Valid() && SameViews() && caches[level..] == old(caches)[level..]
      ensures SameModifiers() && Levels() == old(Levels())
      ensures txid !in caches[level - 1].coins ==> txid !in View(level - 1).coins
      decreases level, 0
    {
      hide Seen, StackOk, ViewOf, CacheOk;
      if txid !in caches[level - 1].coins {
        var ok, tmp := GetCoins(level - 1, txid);
        if ok {
          var c := caches[level - 1];
          StackAt(env, store, caches, level - 1);
          ReadCoins(env, View(level - 1), HeldAt(caches, level - 1), c, txid, tmp);
          c := c.(coins := c.coins[txid := CoinsEntry(tmp, false, tmp.IsPruned())], usage := c.usage + env.coinsUsage(tmp));
          FillKeepsStack(env, store, caches, level - 1, c);
          LevelsFill(store, caches, level - 1, c);
          caches := caches[level - 1 := c];
        }
      }
    }

    /** HaveCoins: exact on cleaned-up entries, which all are unless a modifier is still open on them; of those it says
        whether any outputs are left, spent or not. */
    method HaveCoins(level: nat, txid: Hash) returns (have: bool)
      requires Valid() && level <= |caches|
      modifies this`caches
      ensures Valid() && SameViews() && SameModifiers() && Levels() == old(Levels())
      ensures have <==> if level > 0 && EditsIn(caches[level - 1], txid) then caches[level - 1].coins[txid].coins.vout != []
                        else txid in View(level).coins
      ensures txid in View(level).coins ==> have
    {
      hide Seen, StackOk, ViewOf;
      var found, coins := GetCoins(level, txid);
      have := found && coins.vout != [];
      if level > 0 {
        StackAt(env, store, caches, level - 1);
      }
    }

    method GetAnchorAt(level: nat, pool: ShieldedType, rt: Hash) returns (found: bool, tree: Option<Tree>)
      requires Valid() && level <= |caches|
      modifies this`caches
      ensures Valid() && SameViews() && caches[level..] == old(caches)[level..]
      ensures SameModifiers() && Levels() == old(Levels())
      ensures forall j :: 0 <= j < |caches| ==> caches[j].hashAnchors == old(caches)[j].hashAnchors
      ensures found == tree.Some? && tree == Get(View(level).anchors, (pool, rt))
      ensures level > 0 && found ==> (pool, rt) in caches[level - 1].anchors && caches[level - 1].anchors[(pool, rt)].entered
      decreases level
    {
      hide Seen, StackOk, CacheOk, ViewOf;
      var k := (pool, rt);
      if level == 0 {
        found := k in store.anchors;
        tree := if found then Some(store.anchors[k]) else None;
        BottomView(store, caches);
      } else if k in caches[level - 1].anchors {
        var e := caches[level - 1].anchors[k];
        found := e.entered;
        tree := if found then Some(e.tree) else None;
        CachedAnchor(env, store, caches, level, k);
      } else {
        CachedAnchor(env, store, caches, level, k);
        found, tree := GetAnchorAt(level - 1, pool, rt);
        if found {
          FillAnchor(level, k, tree.value);
        }
      }
    }

    method FillAnchor(level: nat, k: Key, tree: Tree)
      requires Valid() && 0 < level <= |caches|
      requires k !in caches[level - 1].anchors && Get(View(level - 1).anchors, k) == Some(tree)
      modifies this`caches
      ensures Valid() && SameViews() && Levels() == old(Levels())
      ensures caches == old(caches)[level - 1 := old(caches)[level - 1].(
                          anchors := old(caches)[level - 1].anchors[k := AnchorEntry(true, tree, false)],
                          usage := old(caches)[level - 1].usage + env.treeUsage(tree))]
    {
      hide Seen, StackOk, CacheOk, ViewOf;
      var c := caches[level - 1];
      StackAt(env, store, caches, level - 1);
      ViewRooted(env, store, caches, level - 1);
      ReadAnchor(env, View(level - 1), HeldAt(caches, level - 1), c, k, tree);
      c := c.(anchors := c.anchors[k := AnchorEntry(true, tree, false)], usage := c.usage + env.treeUsage(tree));
      FillKeepsStack(env, store, caches, level - 1, c);
      LevelsFill(store, caches, level - 1, c);
      caches := caches[level - 1 := c];
    }

    method GetNullifier(level: nat, pool: ShieldedType, nullifier: Hash) returns (spent: bool)
      requires Valid() && level <= |caches|
      modifies this`caches
      ensures Valid() && SameViews() && caches[level..] == old(caches)[level..]
      ensures SameModifiers() && Levels() == old(Levels())
      ensures spent <==> (pool, nullifier) in View(level).nullifiers
      decreases level
    {
      hide Seen, StackOk, CacheOk, ViewOf;
      var k := (pool, nullifier);
      if level == 0 {
        spent := k in store.nullifiers;
        BottomView(store, caches);
      } else if k in caches[level - 1].nullifiers {
        spent := caches[level - 1].nullifiers[k].entered;
        CachedNullifier(env, store, caches, level, k);
      } else {
        CachedNullifier(env, store, caches, level, k);
        spent := GetNullifier(level - 1, pool, nullifier);
        var c := caches[level - 1];
        StackAt(env, store, caches, level - 1);
        ReadNullifier(env, View(level - 1), HeldAt(caches, level - 1), c, k);
        c := c.(nullifiers := c.nullifiers[k := NullifierEntry(spent, false)]);
        FillKeepsStack(env, store, caches, level - 1, c);
        LevelsFill(store, caches, level - 1, c);
        caches := caches[level - 1 := c];
      }
    }

    /** A null hash takes the value that the base answers. */
    method FillHash(level: nat, best: Best, h: Hash)
      requires Valid() && 0 < level <= |caches|
      requires HashOf(caches[level - 1], best) == NULL_HASH && h == BestOf(View(level - 1), best)
      modifies this`caches
      ensures Valid() && SameViews() && caches == old(caches)[level - 1 := WithHash(old(caches)[level - 1], best, h)]
      ensures Levels() == old(Levels())[level := WithBest(old(Levels())[level], best, h)]
    {
      hide StackOk, CacheOk, ViewOf, Overlay;
      StackAt(env, store, caches, level - 1);
      var c := WithHash(caches[level - 1], best, h);
      HashesOutside(env, View(level - 1), HeldAt(caches, level - 1), caches[level - 1], c);
      FillKeepsStack(env, store, caches, level - 1, c);
      LevelsFill(store, caches, level - 1, c);
      caches := caches[level - 1 := c];
    }

    method GetBestBlock(level: nat) returns (h: Hash)
      requires Valid() && level <= |caches|
      modifies this`caches
      ensures Valid() && SameViews() && caches[level..] == old(caches)[level..]
      ensures SameModifiers() && forall j :: 0 <= j < |caches| ==> caches[j].hashAnchors == old(caches)[j].hashAnchors
      ensures h == View(level).bestBlock && (level > 0 ==> caches[level - 1].hashBlock == h)
      ensures Levels() == Filled(old(Levels()), Block, level)
      decreases level
    {
      hide StackOk, CacheOk, ViewOf, Overlay;
      if level == 0 {
        h := store.bestBlock;
        BottomView(store, caches);
      } else {
        StackAt(env, store, caches, level - 1);
        if caches[level - 1].hashBlock == NULL_HASH {
          ShownIsView(store, caches, Block, level - 1);
          h := GetBestBlock(level - 1);
          FillHash(level, Block, h);
        }
        h := caches[level - 1].hashBlock;
      }
    }

    method GetBestAnchor(level: nat, pool: ShieldedType) returns (h: Hash)
      requires Valid() && level <= |caches|
      modifies this`caches
      ensures Valid() && SameViews() && caches[level..] == old(caches)[level..]
      ensures SameModifiers() && forall j :: 0 <= j < |caches| ==> caches[j].hashBlock == old(caches)[j].hashBlock
      ensures h == View(level).bestAnchors.At(pool) && (level > 0 ==> caches[level - 1].hashAnchors.At(pool) == h)
      ensures level > 0 ==> caches[level - 1] == old(caches)[level - 1].(hashAnchors := old(caches)[level - 1].hashAnchors.With(pool, h))
      ensures Levels() == Filled(old(Levels()), Anchor(pool), level)
      decreases level
    {
      hide StackOk, CacheOk, ViewOf, Overlay;
      if level == 0 {
        h := store.bestAnchors.At(pool);
        BottomView(store, caches);
      } else {
        StackAt(env, store, caches, level - 1);
        if caches[level - 1].hashAnchors.At(pool) == NULL_HASH {
          ShownIsView(store, caches, Anchor(pool), level - 1);
          h := GetBestAnchor(level - 1, pool);
          FillHash(level, Anchor(pool), h);
        }
        h := caches[level - 1].hashAnchors.At(pool);
      }
    }

    // ---- operations on the topmost cache ----

    /** The cache on top, and the ledger it stands for. */
    function TopCache(): Cache<Tree>
      requires caches != []
      reads this
    {
      caches[|caches| - 1]
    }

    ghost function Top(): Ledger<Tree>
      reads this
    {
      View(|caches|)
    }

    ghost function BelowTop(): Ledger<Tree>
      requires caches != []
      reads this
    {
      View(|caches| - 1)
    }

    /** Only the topmost level changes, to l. */
    twostate predicate OnlyTop(l: Ledger<Tree>)
      reads this
    {
      && store == old(store) && |caches| == |old(caches)|
      && (forall n :: 0 <= n < |caches| ==> View(n) == old(View(n)))
      && View(|caches|) == l
    }

    /** The topmost level with the hashes of its own cache. */
    ghost function TopLevel(): Ledger<Tree>
      requires caches != []
      reads this
    {
      Own(Top(), TopCache())
    }

    lemma TopLevelLast()
      requires caches != []
      ensures Levels()[|caches|] == TopLevel()
    {
      hide ViewOf;
    }

    method SetTop(c: Cache<Tree>)
      requires Valid() && caches != []
      requires CacheOk(env, View(|caches| - 1), HeldAt(caches, |caches| - 1), c)
      modifies this`caches
      ensures Valid() && caches == old(caches)[|old(caches)| - 1 := c]
      ensures OnlyTop(Seen(old(View(|caches| - 1)), c))
      ensures Levels() == old(Levels())[|caches| := TopLevel()]
    {
      hide Seen, StackOk, CacheOk, ViewOf;
      TopKeepsStack(env, store, caches, c);
      LevelsTop(store, caches, c);
      caches := caches[|caches| - 1 := c];
    }

    /** CCoinsViewCache::ModifyCoins: opens the modifier; nothing is visible yet. */
    method ModifyCoins(txid: Hash)
      requires Valid() && caches != [] && TopCache().modifier.None?
      modifies this`caches
      ensures Valid() && SameViews() && Levels() == old(Levels())
      ensures TopCache().modifier.Some? && TopCache().modifier.value.txid == txid
    {
      hide Seen, StackOk, CacheOk, ViewOf;
      var top := |caches| - 1;
      var e: CoinsEntry, usage := *, 0;
      if txid !in caches[top].coins {
        var found, coins := GetCoins(top, txid);
        e := if !found then CoinsEntry(EMPTY_COINS, true, true) else CoinsEntry(coins, true, coins.IsPruned());
        StackAt(env, store, caches, top);
      } else {
        e := caches[top].coins[txid].(isDirty := true);
        usage := env.coinsUsage(e.coins);
        StackAt(env, store, caches, top);
        CachedEntry(env, View(top), HeldAt(caches, top), caches[top], txid);
      }
      var c := caches[top];
      OpenModifier(env, View(top), HeldAt(caches, top), c, txid, e);
      SetTop(c.(coins := c.coins[txid := e], modifier := Some(Modifier(txid, usage))));
    }

    /** The caller writes new coins through the modifier. */
    method WriteCoins(coins: Coins)
      requires Valid() && caches != [] && TopCache().modifier.Some?
      modifies this`caches
      ensures Valid() && |caches| == |old(caches)| && TopCache().modifier == old(TopCache().modifier)
      ensures OnlyTop(WithCoins(old(Top()), old(TopCache().modifier.value.txid), coins))
      ensures Levels() == old(Levels()[|caches| := WithCoins(TopLevel(), TopCache().modifier.value.txid, coins)])
      ensures var k := TopCache().modifier.value.txid; k in TopCache().coins && TopCache().coins[k].coins == coins
    {
      hide Seen, StackOk, CacheOk, ViewOf;
      var top := |caches| - 1;
      var c := caches[top];
      StackAt(env, store, caches, top);
      ModifierAt(env, View(top), HeldAt(caches, top), c);
      WriteThrough(env, View(top), HeldAt(caches, top), c, coins);
      var k := c.modifier.value.txid;
      SetTop(c.(coins := c.coins[k := c.coins[k].(coins := coins)]));
    }

    /** The destructor of CCoinsModifier. */
    method CloseModify()
      requires Valid() && caches != [] && TopCache().modifier.Some?
      modifies this`caches
      ensures Valid() && |caches| == |old(caches)| && TopCache().modifier.None?
      ensures OnlyTop(WithCoins(old(Top()), old(TopCache().modifier.value.txid), old(EditedCoins(TopCache()))))
      ensures Levels() == old(Levels()[|caches| := WithCoins(TopLevel(), TopCache().modifier.value.txid, EditedCoins(TopCache()))])
    {
      hide Seen, StackOk, CacheOk, ViewOf;
      var top := |caches| - 1;
      var c := caches[top];
      StackAt(env, store, caches, top);
      ModifierAt(env, View(top), HeldAt(caches, top), c);
      CloseModifier(env, View(top), HeldAt(caches, top), c);
      var m := c.modifier.value;
      var coins := Cleanup(c.coins[m.txid].coins);
      var e := c.coins[m.txid].(coins := coins);
      c := c.(usage := c.usage - m.usage, modifier := None);
      if e.isFresh && coins.IsPruned() {
        c := c.(coins := c.coins - {m.txid});
      } else {
        c := c.(coins := c.coins[m.txid := e], usage := c.usage + env.coinsUsage(coins));
      }
      SetTop(c);
    }

    method PushAnchor(pool: ShieldedType, tree: Tree)
      requires Valid() && caches != []
      modifies this`caches
      ensures Valid() && |caches| == |old(caches)| && TopCache().modifier == old(TopCache().modifier)
      ensures if old(Top()).bestAnchors.At(pool) == env.root(tree) then SameViews()
              else OnlyTop(WithAnchor(old(Top()), pool, env.root(tree), Some(tree), env.root(tree), old(BelowTop())))
      ensures Levels() == PushedAnchor(env, old(Levels()), pool, tree)
    {
      hide StackOk, CacheOk, ViewOf, Seen, LevelsOf, Filled;
      ShownIsView(store, caches, Anchor(pool), |caches|);
      var newrt := env.root(tree);
      var top := |caches| - 1;
      var currentRoot := GetBestAnchor(|caches|, pool);
      TopLevelLast();
      if currentRoot != newrt {
        var k := (pool, newrt);
        var c := caches[top];
        StackAt(env, store, caches, top);
        EnterAnchor(env, View(top), HeldAt(caches, top), c, k, tree);
        var inserted := k !in c.anchors;
        c := c.(anchors := c.anchors[k := AnchorEntry(true, tree, true)]);
        if inserted {
          c := c.(usage := c.usage + env.treeUsage(tree));
        }
        var c' := c.(hashAnchors := c.hashAnchors.With(pool, newrt));
        HashesOutside(env, View(top), HeldAt(caches, top), c, c');
        AnchorMoved(View(top), caches[top], c, k, Some(tree), newrt);
        SetTop(c');
      }
    }

    method PopAnchor(pool: ShieldedType, newrt: Hash)
      requires Valid() && caches != []
      requires Top().bestAnchors.At(pool) != newrt ==>
                 (pool, Top().bestAnchors.At(pool)) in Top().anchors
      modifies this`caches
      ensures Valid() && |caches| == |old(caches)| && TopCache().modifier == old(TopCache().modifier)
      ensures if old(Top()).bestAnchors.At(pool) == newrt then SameViews()
              else OnlyTop(WithAnchor(old(Top()), pool, old(Top()).bestAnchors.At(pool), None, newrt, old(BelowTop())))
      ensures Levels() == PoppedAnchor(old(Levels()), pool, newrt)
    {
      hide StackOk, CacheOk, ViewOf, Seen, LevelsOf, Filled;
      ShownIsView(store, caches, Anchor(pool), |caches|);
      var top := |caches| - 1;
      var currentRoot := GetBestAnchor(|caches|, pool);
      TopLevelLast();
      if currentRoot != newrt {
        var k := (pool, currentRoot);
        var found, _ := GetAnchorAt(|caches|, pool, currentRoot);
        assert found;
        TopLevelLast();
        var c := caches[top];
        StackAt(env, store, caches, top);
        LeaveAnchor(env, View(top), HeldAt(caches, top), c, k);
        c := c.(anchors := c.anchors[k := c.anchors[k].(entered := false, isDirty := true)]);
        var c' := c.(hashAnchors := c.hashAnchors.With(pool, newrt));
        HashesOutside(env, View(top), HeldAt(caches, top), c, c');
        AnchorMoved(View(top), caches[top], c, k, None, newrt);
        SetTop(c');
      }
    }

    method SetNullifier(pool: ShieldedType, nullifier: Hash, spent: bool)
      requires Valid() && caches != []
      modifies this`caches
      ensures Valid() && |caches| == |old(caches)| && TopCache().modifier == old(TopCache().modifier)
      ensures OnlyTop(Marked(old(Top()), pool, [nullifier], spent))
      ensures Levels() == old(Levels()[|caches| := Marked(TopLevel(), pool, [nullifier], spent)])
    {
      hide StackOk, CacheOk, ViewOf, Seen;
      var k := (pool, nullifier);
      var top := |caches| - 1;
      var c := caches[top];
      StackAt(env, store, caches, top);
      EnterNullifier(env, View(top), HeldAt(caches, top), c, k, spent);
      SetTop(c.(nullifiers := c.nullifiers[k := NullifierEntry(spent, true)]));
    }

    /** One of the two loops of SetNullifiers. */
    method SetNullifiers(pool: ShieldedType, nullifiers: seq<Hash>, spent: bool)
      requires Valid() && caches != []
      modifies this`caches
      ensures Valid() && |caches| == |old(caches)| && TopCache().modifier == old(TopCache().modifier)
      ensures OnlyTop(Marked(old(Top()), pool, nullifiers, spent))
      ensures Levels() == old(Levels()[|caches| := Marked(TopLevel(), pool, nullifiers, spent)])
    {
      hide StackOk, CacheOk, ViewOf, Seen, LevelsOf;
      TopLevelLast();
      for i := 0 to |nullifiers|
        invariant Valid() && |caches| == |old(caches)| && TopCache().modifier == old(TopCache().modifier)
        invariant OnlyTop(Marked(old(Top()), pool, nullifiers[..i], spent))
        invariant Levels() == old(Levels()[|caches| := Marked(TopLevel(), pool, nullifiers[..i], spent)])
      {
        TopLevelLast();
        SetNullifier(pool, nullifiers[i], spent);
        assert nullifiers[..i + 1][..i] == nullifiers[..i];
      }
      assert nullifiers[..|nullifiers|] == nullifiers;
    }

    method SetBestBlock(h: Hash)
      requires Valid() && caches != []
      modifies this`caches
      ensures Valid() && |caches| == |old(caches)| && TopCache().modifier == old(TopCache().modifier) && TopCache().hashBlock == h
      ensures OnlyTop(old(Top()).(bestBlock := OrElse(h, old(BelowTop()).bestBlock)))
      ensures Levels() == old(Levels()[|caches| := TopLevel().(bestBlock := h)])
    {
      hide StackOk, CacheOk, ViewOf, Overlay;
      var top := |caches| - 1;
      StackAt(env, store, caches, top);
      var c := caches[top].(hashBlock := h);
      HashesOutside(env, View(top), HeldAt(caches, top), caches[top], c);
      SetTop(c);
    }

    /** A new cache on top of the stack answers what was on top before. */
    method Enter()
      requires Valid() && (caches != [] ==> TopCache().modifier.None?)
      modifies this`caches
      ensures Valid() && |caches| == |old(caches)| + 1 && store == old(store) && TopCache().modifier.None?
      ensures caches == old(caches) + [EmptyCache(NULL_HASH, BestAnchors(NULL_HASH, NULL_HASH))]
      ensures forall n :: 0 <= n < |caches| ==> View(n) == old(View(n))
      ensures Top() == old(Top())
      ensures Levels() == old(Levels()) + [old(Top()).(bestBlock := NULL_HASH, bestAnchors := BestAnchors(NULL_HASH, NULL_HASH))]
    {
      hide StackOk, CacheOk, Seen;
      var c := EmptyCache(NULL_HASH, BestAnchors(NULL_HASH, NULL_HASH));
      EmptyOk(env, Top(), HeldAt(caches, |caches|), NULL_HASH, BestAnchors(NULL_HASH, NULL_HASH));
      EnteredViews(store, caches, c);
      EnterKeepsStack(env, store, caches, c);
      caches := caches + [c];
    }

    /** Dropping the topmost cache forgets its changes and leaves the rest of the stack consistent. */
    method Leave()
      requires Valid() && caches != [] && TopCache().modifier.None?
      modifies this`caches
      ensures Valid() && caches == old(caches)[..|old(caches)| - 1] && store == old(store)
      ensures caches != [] ==> TopCache().modifier.None?
      ensures forall n :: 0 <= n <= |caches| ==> View(n) == old(View(n))
      ensures Levels() == old(Levels())[..|old(caches)|]
    {
      hide ViewOf, StackOk;
      LeaveKeepsStack(env, store, caches);
      caches := caches[..|caches| - 1];
    }

    /** CCoinsViewCache::Flush. The base answers what this cache answered for every coin, anchor and nullifier; for
        each of the hashes it does exactly when this cache's hash is set, or the base had none of its own to lose. */
    method Flush()
      requires Valid() && caches != [] && TopCache().modifier.None?
      modifies this
      ensures Valid() && |caches| == |old(caches)| && TopCache().modifier.None?
      ensures TopCache() == EmptyCache(old(TopCache()).hashBlock, old(TopCache()).hashAnchors)
      ensures forall n :: 0 <= n < |caches| - 1 ==> View(n) == old(View(n))
      ensures var l, b, t := old(Top()), BelowTop(), Top();
              b.coins == t.coins == l.coins && b.anchors == t.anchors == l.anchors && b.nullifiers == t.nullifiers == l.nullifiers
      ensures var below := if |caches| == 1 then old(BelowTop()) else View(|caches| - 2);
              forall best :: BestOf(BelowTop(), best) == BestOf(old(Top()), best) <==> Passes(old(caches), best, BestOf(below, best))
      ensures Levels() == FlushedLevels(old(Levels()))
    {
      hide StackOk, CacheOk, Seen, ViewOf, LevelsOf, FlushedLevels, Passes, BestOf;
      var top := |caches| - 1;
      var c := caches[top];
      StackAt(env, store, caches, top);
      if top == 0 {
        BottomView(store, caches);
        StoreWriteSeen(env, store, c);
        FlushToStore(env, store, caches);
        store := StoreWrite(store, c);
        caches := [EmptyCache(c.hashBlock, c.hashAnchors)];
      } else {
        StackAt(env, store, caches, top - 1);
        var r := BatchWrite(env, c, caches[top - 1], View(top - 1), HeldAt(caches, top - 1));
        FlushedViews(env, store, caches, r, top);
        FlushKeepsStack(env, store, caches, r);
        FlushToCache(env, store, caches, r);
        caches := caches[top - 1 := r][top := EmptyCache(c.hashBlock, c.hashAnchors)];
      }
    }
  }

  /** A modifier is live on the entry for txid. */
  predicate EditsIn<Tree>(c: Cache<Tree>, txid: Hash) {
    c.modifier.Some? && c.modifier.value.txid == txid && txid in c.coins
  }

  /** What the live modifier holds, cleaned up. */
  function EditedCoins<Tree>(c: Cache<Tree>): Coins {
    if c.modifier.Some? && c.modifier.value.txid in c.coins then c.coins[c.modifier.value.txid].coins.Cleaned() else EMPTY_COINS
  }

  function HashOf<Tree>(c: Cache<Tree>, best: Best): Hash {
    match best
    case Block => c.hashBlock
    case Anchor(pool) => c.hashAnchors.At(pool)
  }

  function WithHash<Tree>(c: Cache<Tree>, best: Best, h: Hash): Cache<Tree> {
    match best
    case Block => c.(hashBlock := h)
    case Anchor(pool) => c.(hashAnchors := c.hashAnchors.With(pool, h))
  }

  /** The anchor rt of a pool is entered or removed, and best becomes the best one; a null best defers to the base. */
  ghost function WithAnchor<Tree>(l: Ledger<Tree>, pool: ShieldedType, rt: Hash, tree: Option<Tree>, best: Hash, base: Ledger<Tree>): Ledger<Tree> {
    l.(anchors := Put(l.anchors, (pool, rt), tree),
       bestAnchors := l.bestAnchors.With(pool, OrElse(best, base.bestAnchors.At(pool))))
  }

  ghost function WithCoins<Tree>(l: Ledger<Tree>, k: Hash, coins: Coins): Ledger<Tree> {
    l.(coins := Put(l.coins, k, if coins.IsPruned() then None else Some(coins)))
  }

  /** Whether a hash survives a flush of the topmost cache; below is what the base's base answers. */
  ghost predicate Passes<Tree>(caches: seq<Cache<Tree>>, best: Best, below: Hash)
    requires caches != []
  {
    var n := |caches|;
    || HashOf(caches[n - 1], best) != NULL_HASH
    || n == 1 || HashOf(caches[n - 2], best) == NULL_HASH || HashOf(caches[n - 2], best) == below
  }

  /** The nullifiers of one pool, marked in order. */
  ghost function Marked<Tree>(l: Ledger<Tree>, pool: ShieldedType, nullifiers: seq<Hash>, spent: bool): Ledger<Tree> {
    if nullifiers == [] then l else
      var i := |nullifiers| - 1;
      var r := Marked(l, pool, nullifiers[..i], spent);
      r.(nullifiers := Put(r.nullifiers, (pool, nullifiers[i]), if spent then Some(()) else None))
  }

  lemma CachedEntry<Tree(!new)>(env: Env<Tree>, base: Ledger<Tree>, held: Option<set<Hash>>, c: Cache<Tree>, k: Hash)
    requires CacheOk(env, base, held, c) && k in c.coins
    ensures EntryHolds(base.coins, held, k, c.coins[k])
  {
  }

  lemma ModifierAt<Tree(!new)>(env: Env<Tree>, base: Ledger<Tree>, held: Option<set<Hash>>, c: Cache<Tree>)
    requires CacheOk(env, base, held, c) && c.modifier.Some?
    ensures c.modifier.value.txid in c.coins
  {
  }

  /** An empty cache over any view is consistent and transparent. */
  lemma EmptyOk<Tree(!new)>(env: Env<Tree>, base: Ledger<Tree>, held: Option<set<Hash>>, h: Hash, a: BestAnchors)
    ensures CacheOk(env, base, held, EmptyCache(h, a))
    ensures Seen(base, EmptyCache(h, a)) == base.(bestBlock := OrElse(h, base.bestBlock), bestAnchors := a.Or(base.bestAnchors))
  {
    OverlayEmpty<Hash, Coins, CoinsEntry>(base.coins, LiveCoins);
    OverlayEmpty<Key, Tree, AnchorEntry<Tree>>(base.anchors, LiveTree);
    OverlayEmpty<Key, (), NullifierEntry>(base.nullifiers, LiveNullifier);
  }

  lemma EnteredViews<Tree(!new)>(store: Ledger<Tree>, caches: seq<Cache<Tree>>, c: Cache<Tree>)
    ensures forall n :: 0 <= n <= |caches| ==> ViewOf(store, caches + [c], n) == ViewOf(store, caches, n)
    ensures ViewOf(store, caches + [c], |caches| + 1) == Seen(ViewOf(store, caches, |caches|), c)
  {
    hide Seen;
    forall n | 0 <= n <= |caches| ensures ViewOf(store, caches + [c], n) == ViewOf(store, caches, n) {
      ViewPrefix(store, caches + [c], caches, n);
    }
  }

  lemma EnterKeepsStack<Tree(!new)>(env: Env<Tree>, store: Ledger<Tree>, caches: seq<Cache<Tree>>, c: Cache<Tree>)
    requires StackOk(env, store, caches) && (caches != [] ==> caches[|caches| - 1].modifier.None?)
    requires CacheOk(env, ViewOf(store, caches, |caches|), HeldAt(caches, |caches|), c)
    ensures StackOk(env, store, caches + [c])
  {
    hide Seen, CacheOk, StoreOk, ViewOf;
    var new_ := caches + [c];
    EnteredViews(store, caches, c);
    forall j | 0 <= j < |new_| ensures CacheOk(env, ViewOf(store, new_, j), HeldAt(new_, j), new_[j]) {
      if j < |caches| {
        assert CacheOk(env, ViewOf(store, caches, j), HeldAt(caches, j), caches[j]);
      }
    }
  }

  lemma LeaveKeepsStack<Tree(!new)>(env: Env<Tree>, store: Ledger<Tree>, caches: seq<Cache<Tree>>)
    requires StackOk(env, store, caches) && caches != []
    ensures var new_ := caches[..|caches| - 1];
            && StackOk(env, store, new_)
            && (forall n :: 0 <= n <= |new_| ==> ViewOf(store, new_, n) == ViewOf(store, caches, n))
            && (new_ != [] ==> new_[|new_| - 1].modifier.None?)
  {
    hide Seen, CacheOk, StoreOk;
    var new_ := caches[..|caches| - 1];
    forall n | 0 <= n <= |new_| ensures ViewOf(store, new_, n) == ViewOf(store, caches, n) {
      ViewPrefix(store, new_, caches, n);
    }
    forall j | 0 <= j < |new_| ensures CacheOk(env, ViewOf(store, new_, j), HeldAt(new_, j), new_[j]) {
      assert CacheOk(env, ViewOf(store, caches, j), HeldAt(caches, j), caches[j]);
    }
  }

  lemma FlushToStore<Tree(!new)>(env: Env<Tree>, store: Ledger<Tree>, caches: seq<Cache<Tree>>)
    requires StackOk(env, store, caches) && |caches| == 1 && StoreOk(env, Seen(store, caches[0]))
    ensures var l := Seen(store, caches[0]); var new_ := [EmptyCache(caches[0].hashBlock, caches[0].hashAnchors)];
            && StackOk(env, l, new_) && ViewOf(l, new_, 0) == l && ViewOf(store, caches, 1) == l && ViewOf(store, caches, 0) == store
            && ViewOf(l, new_, 1) == l
            && LevelsOf(l, new_) == FlushedLevels(LevelsOf(store, caches))
            && (forall best :: Passes(caches, best, BestOf(store, best)))
  {
    hide CacheOk, StoreOk, Overlay;
    var c := caches[0];
    var l := Seen(store, c);
    EmptyOk(env, l, None, c.hashBlock, c.hashAnchors);
    assert ViewOf(store, caches, 0) == store;
    var new_ := [EmptyCache<Tree>(c.hashBlock, c.hashAnchors)];
    assert ViewOf(l, new_, 0) == l;
    assert ViewOf(l, new_, 1) == Seen(l, new_[0]);
    assert CacheOk(env, ViewOf(l, new_, 0), HeldAt(new_, 0), new_[0]);
    SameLevels(l, new_, FlushedLevels(LevelsOf(store, caches)));
  }

  /** What a flush to another cache leaves at the two topmost levels, and which hashes it passes on. */
  lemma FlushToCache<Tree(!new)>(env: Env<Tree>, store: Ledger<Tree>, caches: seq<Cache<Tree>>, r: Cache<Tree>)
    requires StackOk(env, store, caches) && |caches| >= 2
    requires r.hashBlock == caches[|caches| - 1].hashBlock && r.hashAnchors == caches[|caches| - 1].hashAnchors
    requires var base, child := ViewOf(store, caches, |caches| - 2), caches[|caches| - 1];
             Seen(base, r) == ViewOf(store, caches, |caches|).(bestBlock := OrElse(child.hashBlock, base.bestBlock),
                                                               bestAnchors := child.hashAnchors.Or(base.bestAnchors))
    ensures LevelsOf(store, Flushed(caches, r)) == FlushedLevels(LevelsOf(store, caches))
    ensures var new_ := Flushed(caches, r);
            var l, b, t := ViewOf(store, caches, |caches|), ViewOf(store, new_, |caches| - 1), ViewOf(store, new_, |caches|);
            && b.coins == t.coins == l.coins && b.anchors == t.anchors == l.anchors && b.nullifiers == t.nullifiers == l.nullifiers
            && (forall best :: BestOf(b, best) == BestOf(l, best) <==>
                               Passes(caches, best, BestOf(ViewOf(store, caches, |caches| - 2), best)))
  {
    hide StackOk, CacheOk, ViewOf, Overlay;
    var top := |caches| - 1;
    var new_ := Flushed(caches, r);
    FlushedViews(env, store, caches, r, top);
    EmptyOk(env, ViewOf(store, new_, top), HeldAt(new_, top), caches[top].hashBlock, caches[top].hashAnchors);
    StackAt(env, store, caches, top);
    StackAt(env, store, caches, top - 1);
    SameLevels(store, new_, FlushedLevels(LevelsOf(store, caches)));
  }

  /** The caches after the topmost one has been flushed into r, the new contents of the one below it. */
  function Flushed<Tree>(caches: seq<Cache<Tree>>, r: Cache<Tree>): seq<Cache<Tree>>
    requires |caches| >= 2
  {
    var top := |caches| - 1;
    caches[top - 1 := r][top := EmptyCache(caches[top].hashBlock, caches[top].hashAnchors)]
  }

  lemma FlushedViews<Tree(!new)>(env: Env<Tree>, store: Ledger<Tree>, caches: seq<Cache<Tree>>, r: Cache<Tree>, top: nat)
    requires top + 1 == |caches| >= 2
    ensures forall n :: 0 <= n < top ==> ViewOf(store, Flushed(caches, r), n) == ViewOf(store, caches, n)
    ensures ViewOf(store, Flushed(caches, r), top) == Seen(ViewOf(store, caches, top - 1), r)
    ensures ViewOf(store, Flushed(caches, r), top + 1) == Seen(ViewOf(store, Flushed(caches, r), top), Flushed(caches, r)[top])
  {
    hide Seen;
    forall n | 0 <= n < top ensures ViewOf(store, Flushed(caches, r), n) == ViewOf(store, caches, n) {
      ViewPrefix(store, Flushed(caches, r), caches, n);
    }
  }

  lemma FlushKeepsStack<Tree(!new)>(env: Env<Tree>, store: Ledger<Tree>, caches: seq<Cache<Tree>>, r: Cache<Tree>)
    requires StackOk(env, store, caches) && |caches| >= 2 && r.modifier.None?
    requires CacheOk(env, ViewOf(store, caches, |caches| - 2), HeldAt(caches, |caches| - 2), r)
    ensures StackOk(env, store, Flushed(caches, r))
  {
    hide Seen, CacheOk, StoreOk, ViewOf;
    var top := |caches| - 1;
    var new_ := Flushed(caches, r);
    FlushedViews(env, store, caches, r, top);
    EmptyOk(env, ViewOf(store, new_, top), HeldAt(new_, top), caches[top].hashBlock, caches[top].hashAnchors);
    forall j | 0 <= j < |new_| ensures CacheOk(env, ViewOf(store, new_, j), HeldAt(new_, j), new_[j]) {
      if j < top - 1 {
        StackAt(env, store, caches, j);
      }
    }
  }

  /** A changed anchor and a new best one, as the view and as the level has them. */
  lemma AnchorMoved<Tree(!new)>(base: Ledger<Tree>, was: Cache<Tree>, c: Cache<Tree>, k: Key, tree: Option<Tree>, rt: Hash)
    requires c.hashBlock == was.hashBlock && c.hashAnchors == was.hashAnchors
    requires Seen(base, c) == Seen(base, was).(anchors := Put(Seen(base, was).anchors, k, tree))
    ensures var c' := c.(hashAnchors := c.hashAnchors.With(k.0, rt)); var l := Own(Seen(base, was), was);
            && Seen(base, c') == WithAnchor(Seen(base, was), k.0, k.1, tree, rt, base)
            && Own(Seen(base, c'), c') == WithBest(l, Anchor(k.0), rt).(anchors := Put(l.anchors, k, tree))
  {
    hide Overlay;
  }

  /** The hashes play no part in a cache's consistency. */
  lemma HashesOutside<Tree(!new)>(env: Env<Tree>, base: Ledger<Tree>, held: Option<set<Hash>>, c: Cache<Tree>, c': Cache<Tree>)
    requires CacheOk(env, base, held, c)
    requires c' == c.(hashBlock := c'.hashBlock, hashAnchors := c'.hashAnchors)
    ensures CacheOk(env, base, held, c')
  {
  }

  lemma BottomView<Tree>(store: Ledger<Tree>, caches: seq<Cache<Tree>>)
    ensures ViewOf(store, caches, 0) == store
  {
  }

  lemma CachedAnchor<Tree(!new)>(env: Env<Tree>, store: Ledger<Tree>, caches: seq<Cache<Tree>>, level: nat, k: Key)
    requires StackOk(env, store, caches) && 0 < level <= |caches|
    ensures Get(ViewOf(store, caches, level).anchors, k) ==
            if k in caches[level - 1].anchors then LiveTree(caches[level - 1].anchors[k])
            else Get(ViewOf(store, caches, level - 1).anchors, k)
  {
    OverlayAt(ViewOf(store, caches, level - 1).anchors, caches[level - 1].anchors, LiveTree, k);
  }

  lemma CachedNullifier<Tree(!new)>(env: Env<Tree>, store: Ledger<Tree>, caches: seq<Cache<Tree>>, level: nat, k: Key)
    requires StackOk(env, store, caches) && 0 < level <= |caches|
    ensures k in ViewOf(store, caches, level).nullifiers <==>
            if k in caches[level - 1].nullifiers then caches[level - 1].nullifiers[k].entered
            else k in ViewOf(store, caches, level - 1).nullifiers
  {
    OverlayAt(ViewOf(store, caches, level - 1).nullifiers, caches[level - 1].nullifiers, LiveNullifier, k);
  }

  lemma StackAt<Tree(!new)>(env: Env<Tree>, store: Ledger<Tree>, caches: seq<Cache<Tree>>, i: nat)
    requires StackOk(env, store, caches) && i < |caches|
    ensures CacheOk(env, ViewOf(store, caches, i), HeldAt(caches, i), caches[i])
    ensures i < |caches| - 1 ==> caches[i].modifier.None?
    ensures env.RootDeterminesTree() && StoreOk(env, store)
    ensures ViewOf(store, caches, i + 1) == Seen(ViewOf(store, caches, i), caches[i])
  {
    hide CacheOk, Seen;
  }

  lemma StoredAnswer<Tree(!new)>(env: Env<Tree>, store: Ledger<Tree>, caches: seq<Cache<Tree>>, k: Hash)
    requires StackOk(env, store, caches)
    ensures ViewOf(store, caches, 0) == store
    ensures k in store.coins ==> !store.coins[k].IsPruned() && store.coins[k].IsClean()
  {
    hide CacheOk, Seen;
  }

  /** What a cached entry, or its absence, says about the level it is on. */
  lemma CachedAnswer<Tree(!new)>(env: Env<Tree>, store: Ledger<Tree>, caches: seq<Cache<Tree>>, level: nat, k: Hash)
    requires StackOk(env, store, caches) && 0 < level <= |caches|
    ensures Get(ViewOf(store, caches, level).coins, k) ==
            if k in caches[level - 1].coins then LiveCoins(caches[level - 1].coins[k])
            else Get(ViewOf(store, caches, level - 1).coins, k)
    ensures caches[level - 1].modifier.None? && k in caches[level - 1].coins ==> caches[level - 1].coins[k].coins.IsClean()
  {
    OverlayAt(ViewOf(store, caches, level - 1).coins, caches[level - 1].coins, LiveCoins, k);
    assert CacheOk(env, ViewOf(store, caches, level - 1), HeldAt(caches, level - 1), caches[level - 1]);
  }
}
