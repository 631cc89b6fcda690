/** Any run over a stack of caches gives the answers that a stack of plain levels gives. */
module CoinsRun {
  import opened Common
  import opened CacheOverlay
  import opened CoinRecord
  import opened CoinsCache
  import opened CoinsLevels
  import opened CoinsStack
  import opened CoinsOps

  ghost predicate Idle<Tree(!new)>(s: CoinsViewStack<Tree>)
    reads s
  {
    s.Valid() && (s.caches != [] ==> s.TopCache().modifier.None?)
  }

  /** The views of the caches are the ledgers that their levels amount to. */
  lemma LedgersAreViews<Tree>(store: Ledger<Tree>, caches: seq<Cache<Tree>>, n: nat)
    requires n <= |caches|
    ensures Ledgers(LevelsOf(store, caches))[n] == ViewOf(store, caches, n)
  {
    hide ViewOf, Shown;
    ShownIsView(store, caches, Block, n);
    ShownIsView(store, caches, Anchor(SPROUT), n);
    ShownIsView(store, caches, Anchor(SAPLING), n);
    BottomView(store, caches);
  }

  method Read<Tree(!new)>(s: CoinsViewStack<Tree>, op: Op<Tree>) returns (answer: Answer<Tree>)
    requires Idle(s) && op.Reads()
    modifies s
    ensures Idle(s) && s.SameViews() && s.Levels() == Step(s.env, old(s.Levels()), op) && answer == Reply(old(s.Levels()), op)
  {
    hide StackOk, ViewOf, Seen, CacheOk, LevelsOf, Filled, Shown;
    var level := |s.caches|;
    LedgersAreViews(s.store, s.caches, level);
    match op {
      case GetCoins(txid) =>
        var found, coins := s.GetCoins(level, txid);
        answer := CoinsAnswer(if found && !coins.IsPruned() then Some(coins) else None);
      case HaveCoins(txid) =>
        var have := s.HaveCoins(level, txid);
        answer := Flag(have);
      case GetAnchorAt(pool, rt) =>
        var _, tree := s.GetAnchorAt(level, pool, rt);
        answer := TreeAnswer(tree);
      case GetNullifier(pool, nullifier) =>
        var spent := s.GetNullifier(level, pool, nullifier);
        answer := Flag(spent);
      case GetBest(best) =>
        var h;
        match best {
          case Block => h := s.GetBestBlock(level);
          case Anchor(pool) => h := s.GetBestAnchor(level, pool);
        }
        answer := HashAnswer(h);
    }
  }

  /** An edit, from ModifyCoins to the end of the modifier's life. */
  method Edit<Tree(!new)>(s: CoinsViewStack<Tree>, txid: Hash, coins: Coins)
    requires Idle(s) && s.caches != []
    modifies s
    ensures Idle(s) && s.OnlyTop(WithCoins(old(s.Top()), txid, coins.Cleaned()))
    ensures s.Levels() == old(s.Levels())[|s.caches| := WithCoins(old(s.TopLevel()), txid, coins.Cleaned())]
  {
    hide StackOk, ViewOf, Seen, CacheOk, LevelsOf;
    s.TopLevelLast();
    s.ModifyCoins(txid);
    s.TopLevelLast();
    s.WriteCoins(coins);
    s.TopLevelLast();
    s.CloseModify();
    PutTwice(old(s.Top()).coins, txid, LiveCoins(CoinsEntry(coins, true, true)), LiveCoins(CoinsEntry(coins.Cleaned(), true, true)));
  }

  lemma PutTwice<K(!new), V>(m: map<K, V>, k: K, a: Option<V>, b: Option<V>)
    ensures Put(Put(m, k, a), k, b) == Put(m, k, b)
  {
  }

  /** One write to the topmost cache. */
  method Write<Tree(!new)>(s: CoinsViewStack<Tree>, op: Op<Tree>)
    requires Idle(s) && s.caches != [] && Enabled(s.Levels(), op)
    requires op.ModifyCoins? || op.PushAnchor? || op.PopAnchor? || op.SetNullifiers? || op.SetBestBlock?
    modifies s
    ensures Idle(s) && |s.caches| == |old(s.caches)| && s.Levels() == Step(s.env, old(s.Levels()), op)
  {
    hide StackOk, ViewOf, Seen, CacheOk, Marked, LevelsOf, Filled;
    s.TopLevelLast();
    match op {
      case ModifyCoins(txid, coins) => Edit(s, txid, coins);
      case PushAnchor(pool, tree) => s.PushAnchor(pool, tree);
      case PopAnchor(pool, rt) =>
        ShownIsView(s.store, s.caches, Anchor(pool), |s.caches|);
        s.PopAnchor(pool, rt);
      case SetNullifiers(pool, nullifiers, spent) => s.SetNullifiers(pool, nullifiers, spent);
      case SetBestBlock(h) => s.SetBestBlock(h);
    }
  }

  method Apply<Tree(!new)>(s: CoinsViewStack<Tree>, op: Op<Tree>) returns (answer: Answer<Tree>)
    requires Idle(s) && Enabled(s.Levels(), op)
    modifies s
    ensures Idle(s) && s.Levels() == Step(s.env, old(s.Levels()), op) && answer == Reply(old(s.Levels()), op)
  {
    hide StackOk, ViewOf, Seen, CacheOk, Marked, LevelsOf, FlushedLevels, PushedAnchor, PoppedAnchor, Filled;
    answer := Done;
    match op {
      case Enter =>
        LedgersAreViews(s.store, s.caches, |s.caches|);
        s.Enter();
      case Leave => s.Leave();
      case Flush => s.Flush();
      case ModifyCoins(_, _) => Write(s, op);
      case PushAnchor(_, _) => Write(s, op);
      case PopAnchor(_, _) => Write(s, op);
      case SetNullifiers(_, _, _) => Write(s, op);
      case SetBestBlock(_) => Write(s, op);
      case _ => answer := Read(s, op);
    }
  }

  /** Every run: each answer, and what every level has in the end, is as on the plain levels; and where no null hash
      covers one that is not null, as on plain ledgers. */
  method Replay<Tree(!new)>(s: CoinsViewStack<Tree>, ops: seq<Op<Tree>>) returns (answers: seq<Answer<Tree>>)
    requires Idle(s) && RunEnabled(s.env, s.Levels(), ops)
    modifies s
    ensures Idle(s) && s.Levels() == Run(s.env, old(s.Levels()), ops).0 && answers == Run(s.env, old(s.Levels()), ops).1
    ensures RunTransparent(s.env, old(s.Levels()), ops) ==>
              && PlainEnabled(s.env, old(Ledgers(s.Levels())), ops)
              && Ledgers(s.Levels()) == PlainRun(s.env, old(Ledgers(s.Levels())), ops).0
              && answers == PlainRun(s.env, old(Ledgers(s.Levels())), ops).1
    ensures forall n :: 0 <= n <= |s.caches| ==> s.View(n) == Ledgers(s.Levels())[n]
  {
    hide StackOk, ViewOf, Seen, CacheOk, Step, Enabled, LevelsOf, Ledgers, Transparent, PlainStep;
    answers := [];
    var rest := ops;
    while rest != []
      invariant Idle(s) && RunEnabled(s.env, s.Levels(), rest)
      invariant Run(s.env, old(s.Levels()), ops).0 == Run(s.env, s.Levels(), rest).0
      invariant Run(s.env, old(s.Levels()), ops).1 == answers + Run(s.env, s.Levels(), rest).1
      decreases |rest|
    {
      ghost var more := Run(s.env, s.Levels(), rest).1;
      var answer := Apply(s, rest[0]);
      assert more == [answer] + Run(s.env, s.Levels(), rest[1..]).1;
      answers := answers + [answer];
      rest := rest[1..];
    }
    if RunTransparent(s.env, old(s.Levels()), ops) {
      RunPlain(s.env, old(s.Levels()), ops);
    }
    forall n | 0 <= n <= |s.caches| ensures s.View(n) == Ledgers(s.Levels())[n] {
      LedgersAreViews(s.store, s.caches, n);
    }
  }

  /** A child whose own hash is still null takes its parent's best block away when it is flushed. */
  method FlushLosesBestBlock<Tree(!new)>(env: Env<Tree>, store: Ledger<Tree>, h: Hash) returns (s: CoinsViewStack<Tree>, ghost before: Hash)
    requires env.RootDeterminesTree() && StoreOk(env, store) && h != NULL_HASH && h != store.bestBlock
    ensures s.Valid() && |s.caches| == 2 && before == h && s.View(1).bestBlock != h
  {
    hide StackOk, CacheOk, Overlay, ViewOf;
    s := new CoinsViewStack<Tree>(env, store);
    s.Enter();
    BottomView(s.store, s.caches);
    s.SetBestBlock(h);
    BottomView(s.store, s.caches);
    s.Enter();
    before := s.Top().bestBlock;
    ghost var top, caches := s.Top(), s.caches;
    s.Flush();
    BottomView(s.store, s.caches);
    assert !Passes(caches, Block, BestOf(s.View(0), Block));
    assert BestOf(s.View(1), Block) != BestOf(top, Block);
  }
}
