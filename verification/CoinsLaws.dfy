/** What a read answers after a write, for every operation of the coins view. */
module CoinsLaws {
  import opened Common
  import opened CacheOverlay
  import opened CoinRecord
  import opened CoinsCache
  import opened CoinsLevels
  import opened CoinsStack
  import opened CoinsOps

  // ---- coins and nullifiers ----

  /** The outputs written are read back without the spent ones at the end; nothing else reads differently. */
  lemma ModifiedRead<Tree(!new)>(env: Env<Tree>, stack: seq<Ledger<Tree>>, txid: Hash, coins: Coins, read: Op<Tree>, n: nat)
    requires |stack| >= 2 && read.Reads() && n <= |coins.vout|
    requires (n == 0 || coins.vout[n - 1].nValue != -1) && forall i :: n <= i < |coins.vout| ==> coins.vout[i].nValue == -1
    ensures Reply(Step(env, stack, ModifyCoins(txid, coins)), read)
         == if read == GetCoins(txid) then CoinsAnswer(if n == 0 then None else Some(coins.(vout := coins.vout[..n])))
            else if read == HaveCoins(txid) then Flag(n > 0)
            else Reply(stack, read)
  {
    hide Shown;
    TrimUnique(coins.vout, n);
    var top := |stack| - 1;
    if read.GetBest? {
      ShownPrefix(Step(env, stack, ModifyCoins(txid, coins)), stack, read.best, top);
    } else {
      assert coins.Cleaned().IsPruned() <==> n == 0;
    }
  }

  lemma {:induction false} MarkedExactly<Tree>(l: Ledger<Tree>, pool: ShieldedType, nullifiers: seq<Hash>, spent: bool, k: Key)
    ensures var m := Marked(l, pool, nullifiers, spent);
            && (k in m.nullifiers <==> if k.0 == pool && k.1 in nullifiers then spent else k in l.nullifiers)
            && m == l.(nullifiers := m.nullifiers)
  {
    if nullifiers != [] {
      var i := |nullifiers| - 1;
      MarkedExactly(l, pool, nullifiers[..i], spent, k);
      assert nullifiers == nullifiers[..i] + [nullifiers[i]];
    }
  }

  /** The nullifiers of a transaction read as spent, or as unspent again; nothing else reads differently. */
  lemma MarkedRead<Tree(!new)>(env: Env<Tree>, stack: seq<Ledger<Tree>>, pool: ShieldedType, nullifiers: seq<Hash>, spent: bool, read: Op<Tree>)
    requires |stack| >= 2 && read.Reads()
    ensures Reply(Step(env, stack, SetNullifiers(pool, nullifiers, spent)), read)
         == if read.GetNullifier? && read.pool == pool && read.nullifier in nullifiers then Flag(spent) else Reply(stack, read)
  {
    hide Shown, Marked;
    var top := |stack| - 1;
    var r := Step(env, stack, SetNullifiers(pool, nullifiers, spent));
    MarkedExactly(stack[top], pool, nullifiers, spent, if read.GetNullifier? then (read.pool, read.nullifier) else (pool, 0));
    if read.GetBest? {
      ShownPrefix(r, stack, read.best, top);
    }
  }

  // ---- anchors ----

  /** A new anchor is the best one, and its tree is found under its root; nothing else reads differently. */
  lemma PushedRead<Tree(!new)>(env: Env<Tree>, stack: seq<Ledger<Tree>>, pool: ShieldedType, tree: Tree, read: Op<Tree>)
    requires |stack| >= 2 && read.Reads() && env.root(tree) != NULL_HASH && Shown(stack, Anchor(pool), |stack| - 1) != env.root(tree)
    ensures Reply(Step(env, stack, PushAnchor(pool, tree)), read)
         == if read == GetAnchorAt(pool, env.root(tree)) then TreeAnswer(Some(tree))
            else if read == GetBest(Anchor(pool)) then HashAnswer(env.root(tree))
            else Reply(stack, read)
  {
    hide Shown, Filled;
    var top := |stack| - 1;
    var r := Step(env, stack, PushAnchor(pool, tree));
    var f := Filled(stack, Anchor(pool), top);
    FilledShown(stack, Anchor(pool), top, top);
    if read.GetBest? && read.best == Anchor(pool) {
      OwnShown(r, read.best, top);
    } else if read.GetBest? {
      OtherShown(stack, f, r, Anchor(pool), read.best, top);
    }
  }

  lemma OwnShown<Tree>(stack: seq<Ledger<Tree>>, best: Best, n: nat)
    requires n < |stack| && BestOf(stack[n], best) != NULL_HASH
    ensures Shown(stack, best, n) == BestOf(stack[n], best)
  {
  }

  /** Filling one hash and changing it at the top is not seen in another one. */
  lemma OtherShown<Tree>(stack: seq<Ledger<Tree>>, f: seq<Ledger<Tree>>, r: seq<Ledger<Tree>>, best: Best, other: Best, n: nat)
    requires n < |stack| == |f| == |r| && other != best && f == Filled(stack, best, n) && r[..n] == f[..n]
    requires BestOf(r[n], other) == BestOf(f[n], other)
    ensures Shown(r, other, n) == Shown(stack, other, n)
  {
    hide Filled, Shown;
    forall i | 0 <= i <= n
      ensures BestOf(r[i], other) == BestOf(stack[i], other)
    {
      FilledShown(stack, best, n, i);
      if i < n {
        assert r[i] == r[..n][i] == f[i];
      }
    }
    ShownPrefix(r, stack, other, n);
  }

  /** Removing an anchor: its root is unknown, and the given one is the best; nothing else reads differently. */
  lemma PoppedRead<Tree(!new)>(env: Env<Tree>, stack: seq<Ledger<Tree>>, pool: ShieldedType, rt: Hash, read: Op<Tree>)
    requires |stack| >= 2 && read.Reads() && rt != NULL_HASH && Shown(stack, Anchor(pool), |stack| - 1) != rt
    requires Enabled(stack, Op<Tree>.PopAnchor(pool, rt))
    ensures Reply(Step(env, stack, PopAnchor(pool, rt)), read)
         == if read == GetAnchorAt(pool, Shown(stack, Anchor(pool), |stack| - 1)) then TreeAnswer(None)
            else if read == GetBest(Anchor(pool)) then HashAnswer(rt)
            else Reply(stack, read)
  {
    hide Shown, Filled;
    var top := |stack| - 1;
    var r := Step(env, stack, PopAnchor(pool, rt));
    FilledShown(stack, Anchor(pool), top, top);
    if read.GetBest? && read.best == Anchor(pool) {
      OwnShown(r, read.best, top);
    } else if read.GetBest? {
      OtherShown(stack, Filled(stack, Anchor(pool), top), r, Anchor(pool), read.best, top);
    }
  }

  /** Disconnecting a block undoes connecting it: popping back to the former best anchor leaves what reading that one would. */
  lemma PushPop<Tree(!new)>(env: Env<Tree>, stack: seq<Ledger<Tree>>, pool: ShieldedType, tree: Tree)
    requires |stack| >= 2 && env.root(tree) != NULL_HASH
    requires Shown(stack, Anchor(pool), |stack| - 1) != NULL_HASH
    requires Shown(stack, Anchor(pool), |stack| - 1) == env.root(tree) || (pool, env.root(tree)) !in stack[|stack| - 1].anchors
    ensures var best := Shown(stack, Anchor(pool), |stack| - 1);
            var pushed := Step(env, stack, PushAnchor(pool, tree));
            && Enabled(pushed, Op<Tree>.PopAnchor(pool, best))
            && Step(env, pushed, PopAnchor(pool, best)) == Filled(stack, Anchor(pool), |stack| - 1)
  {
    hide Shown, Filled;
    var n, rt := |stack| - 1, env.root(tree);
    var f := Filled(stack, Anchor(pool), n);
    FilledShown(stack, Anchor(pool), n, n);
    FilledOwn(stack, Anchor(pool), n);
    if Shown(stack, Anchor(pool), n) == rt {
      FilledOnce(f, Anchor(pool), n);
    } else {
      var r := PushedAnchor(env, stack, pool, tree);
      OwnShown(r, Anchor(pool), n);
      FilledOnce(r, Anchor(pool), n);
      var best := Shown(stack, Anchor(pool), n);
      var back := WithBest(r[n], Anchor(pool), best).(anchors := r[n].anchors - {(pool, rt)});
      assert r[n].anchors - {(pool, rt)} == f[n].anchors;
      assert back == f[n];
      assert r[n := back] == f;
    }
  }

  lemma {:induction false} FilledOwn<Tree>(stack: seq<Ledger<Tree>>, best: Best, n: nat)
    requires n < |stack|
    ensures BestOf(Filled(stack, best, n)[n], best) == Shown(stack, best, n)
  {
  }

  lemma FilledOnce<Tree>(stack: seq<Ledger<Tree>>, best: Best, n: nat)
    requires n < |stack| && BestOf(stack[n], best) != NULL_HASH
    ensures Filled(stack, best, n) == stack
  {
  }

  // ---- hashes and levels ----

  /** The best block is the one set; a null one brings back what the level below answers. */
  lemma BestBlockRead<Tree(!new)>(env: Env<Tree>, stack: seq<Ledger<Tree>>, h: Hash, read: Op<Tree>)
    requires |stack| >= 2 && read.Reads()
    ensures Reply(Step(env, stack, SetBestBlock(h)), read)
         == if read != GetBest(Block) then Reply(stack, read)
            else HashAnswer(if h != NULL_HASH then h else Shown(stack, Block, |stack| - 2))
  {
    var top := |stack| - 1;
    var r := Step(env, stack, SetBestBlock(h));
    if read.GetBest? && read.best != Block {
      ShownPrefix(r, stack, read.best, top);
    } else {
      ShownPrefix(r, stack, Block, top - 1);
    }
  }

  /** Reading changes no later answer. */
  lemma ReadRead<Tree(!new)>(env: Env<Tree>, stack: seq<Ledger<Tree>>, first: Op<Tree>, read: Op<Tree>)
    requires stack != [] && first.Reads() && read.Reads()
    ensures Reply(Step(env, stack, first), read) == Reply(stack, read)
  {
    hide Shown, Filled;
    var top := |stack| - 1;
    if first.GetBest? {
      FilledShown(stack, first.best, top, top);
      if read.GetBest? && read.best != first.best {
        var f := Filled(stack, first.best, top);
        OtherShown(stack, f, f, first.best, read.best, top);
      }
    }
  }

  /** A new cache answers as the one below it, and leaving it gives that one back. */
  lemma EnterLeave<Tree(!new)>(env: Env<Tree>, stack: seq<Ledger<Tree>>, read: Op<Tree>)
    requires stack != [] && read.Reads()
    ensures Reply(Step(env, stack, Enter), read) == Reply(stack, read) && Step(env, Step(env, stack, Enter), Leave) == stack
  {
    if read.GetBest? {
      ShownPrefix(Step(env, stack, Enter), stack, read.best, |stack| - 1);
    }
  }

  /** A flush moves every answer to the level below, but for a hash that does not survive. */
  lemma FlushLeave<Tree(!new)>(env: Env<Tree>, stack: seq<Ledger<Tree>>, read: Op<Tree>)
    requires |stack| >= 2 && read.Reads()
    ensures Reply(Step(env, Step(env, stack, Flush), Leave), read) == Reply(stack, read) <==> (read.GetBest? ==> Survives(stack, read.best))
  {
    var n := |stack| - 1;
    var r := Step(env, Step(env, stack, Flush), Leave);
    if read.GetBest? {
      var best := read.best;
      assert Shown(stack, best, n) == OrElse(BestOf(stack[n], best), Shown(stack, best, n - 1));
      if n == 1 {
        assert BestOf(r[0], best) == OrElse(BestOf(stack[1], best), BestOf(stack[0], best));
      } else {
        ShownPrefix(r, stack, best, n - 2);
        assert r[n - 1] == stack[n];
        assert Shown(stack, best, n - 1) == OrElse(BestOf(stack[n - 1], best), Shown(stack, best, n - 2));
      }
    }
  }
}
