/** Runs of operations on a stack of plain levels, and when they are runs on a stack of plain ledgers. */
module CoinsOps {
  import opened Common
  import opened CacheOverlay
  import opened CoinRecord
  import opened CoinsCache
  import opened CoinsLevels
  import opened CoinsStack

  datatype Op<Tree> =
    | GetCoins(txid: Hash)
    | HaveCoins(txid: Hash)
    | ModifyCoins(txid: Hash, coins: Coins)
    | GetAnchorAt(pool: ShieldedType, rt: Hash)
    | PushAnchor(pool: ShieldedType, tree: Tree)
    | PopAnchor(pool: ShieldedType, rt: Hash)
    | GetNullifier(pool: ShieldedType, nullifier: Hash)
    | SetNullifiers(pool: ShieldedType, nullifiers: seq<Hash>, spent: bool)
    | GetBest(best: Best)
    | SetBestBlock(h: Hash)
    | Enter
    | Flush
    | Leave
  {
    predicate Reads() {
      GetCoins? || HaveCoins? || GetAnchorAt? || GetNullifier? || GetBest?
    }
  }

  datatype Answer<Tree> = Done | CoinsAnswer(coins: Option<Coins>) | TreeAnswer(tree: Option<Tree>) | Flag(b: bool) | HashAnswer(h: Hash)

  /** What the source asserts of its callers: there is a cache to write to, and an anchor that is replaced is known. */
  ghost predicate Enabled<Tree>(stack: seq<Ledger<Tree>>, op: Op<Tree>)
    requires stack != []
  {
    var n := |stack| - 1;
    && (n == 0 ==> op.Reads() || op.Enter?)
    && (op.PopAnchor? ==>
          var best := Shown(stack, Anchor(op.pool), n);
          best != op.rt ==> (op.pool, best) in stack[n].anchors)
  }

  /** One operation on a stack of plain levels. */
  ghost function Step<Tree(!new)>(env: Env<Tree>, stack: seq<Ledger<Tree>>, op: Op<Tree>): (r: seq<Ledger<Tree>>)
    requires stack != [] && Enabled(stack, op)
    ensures r != []
  {
    var n := |stack| - 1;
    var top := stack[n];
    match op
    case ModifyCoins(txid, coins) => stack[n := WithCoins(top, txid, coins.Cleaned())]
    case PushAnchor(pool, tree) => PushedAnchor(env, stack, pool, tree)
    case PopAnchor(pool, rt) => PoppedAnchor(stack, pool, rt)
    case SetNullifiers(pool, nullifiers, spent) => stack[n := Marked(top, pool, nullifiers, spent)]
    case GetBest(best) => Filled(stack, best, n)
    case SetBestBlock(h) => stack[n := top.(bestBlock := h)]
    case Enter => stack + [top.(bestBlock := NULL_HASH, bestAnchors := BestAnchors(NULL_HASH, NULL_HASH))]
    case Flush => FlushedLevels(stack)
    case Leave => stack[..n]
    case _ => stack
  }

  ghost function Reply<Tree>(stack: seq<Ledger<Tree>>, op: Op<Tree>): Answer<Tree>
    requires stack != []
  {
    var n := |stack| - 1;
    match op
    case GetCoins(txid) => CoinsAnswer(Get(stack[n].coins, txid))
    case HaveCoins(txid) => Flag(txid in stack[n].coins)
    case GetAnchorAt(pool, rt) => TreeAnswer(Get(stack[n].anchors, (pool, rt)))
    case GetNullifier(pool, nullifier) => Flag((pool, nullifier) in stack[n].nullifiers)
    case GetBest(best) => HashAnswer(Shown(stack, best, n))
    case _ => Done
  }

  ghost predicate RunEnabled<Tree(!new)>(env: Env<Tree>, stack: seq<Ledger<Tree>>, ops: seq<Op<Tree>>)
    requires stack != []
    decreases |ops|
  {
    ops == [] || (Enabled(stack, ops[0]) && RunEnabled(env, Step(env, stack, ops[0]), ops[1..]))
  }

  /** The final stack of levels and the answers given on the way. */
  ghost function Run<Tree(!new)>(env: Env<Tree>, stack: seq<Ledger<Tree>>, ops: seq<Op<Tree>>): (seq<Ledger<Tree>>, seq<Answer<Tree>>)
    requires stack != [] && RunEnabled(env, stack, ops)
    decreases |ops|
  {
    if ops == [] then (stack, []) else
      var (end, answers) := Run(env, Step(env, stack, ops[0]), ops[1..]);
      (end, [Reply(stack, ops[0])] + answers)
  }

  // ---- plain ledgers: no hash is ever null or read from below ----

  /** Level n as a ledger by itself. */
  ghost function Resolved<Tree>(stack: seq<Ledger<Tree>>, n: nat): Ledger<Tree>
    requires n < |stack|
  {
    stack[n].(bestBlock := Shown(stack, Block, n),
              bestAnchors := BestAnchors(Shown(stack, Anchor(SPROUT), n), Shown(stack, Anchor(SAPLING), n)))
  }

  ghost function Ledgers<Tree>(stack: seq<Ledger<Tree>>): (r: seq<Ledger<Tree>>)
    ensures |r| == |stack|
  {
    seq(|stack|, n requires 0 <= n < |stack| => Resolved(stack, n))
  }

  ghost function PlainStep<Tree(!new)>(env: Env<Tree>, stack: seq<Ledger<Tree>>, op: Op<Tree>): (r: seq<Ledger<Tree>>)
    requires stack != [] && (|stack| == 1 ==> op.Reads() || op.Enter?)
    ensures r != []
  {
    var n := |stack| - 1;
    var top := stack[n];
    match op
    case ModifyCoins(txid, coins) => stack[n := WithCoins(top, txid, coins.Cleaned())]
    case PushAnchor(pool, tree) =>
      var rt := env.root(tree);
      if top.bestAnchors.At(pool) == rt then stack
      else stack[n := top.(anchors := top.anchors[(pool, rt) := tree], bestAnchors := top.bestAnchors.With(pool, rt))]
    case PopAnchor(pool, rt) =>
      var best := top.bestAnchors.At(pool);
      if best == rt then stack
      else stack[n := top.(anchors := top.anchors - {(pool, best)}, bestAnchors := top.bestAnchors.With(pool, rt))]
    case SetNullifiers(pool, nullifiers, spent) => stack[n := Marked(top, pool, nullifiers, spent)]
    case SetBestBlock(h) => stack[n := top.(bestBlock := h)]
    case Enter => stack + [top]
    case Flush => stack[n - 1 := top]
    case Leave => stack[..n]
    case _ => stack
  }

  ghost function PlainReply<Tree>(top: Ledger<Tree>, op: Op<Tree>): Answer<Tree> {
    match op
    case GetCoins(txid) => CoinsAnswer(Get(top.coins, txid))
    case HaveCoins(txid) => Flag(txid in top.coins)
    case GetAnchorAt(pool, rt) => TreeAnswer(Get(top.anchors, (pool, rt)))
    case GetNullifier(pool, nullifier) => Flag((pool, nullifier) in top.nullifiers)
    case GetBest(best) => HashAnswer(BestOf(top, best))
    case _ => Done
  }

  /** Whether a hash comes through a flush: it is set, or the level below has none of its own to lose. */
  ghost predicate Survives<Tree>(stack: seq<Ledger<Tree>>, best: Best)
    requires |stack| >= 2
  {
    var n := |stack| - 1;
    || BestOf(stack[n], best) != NULL_HASH || n == 1 || BestOf(stack[n - 1], best) == NULL_HASH
    || BestOf(stack[n - 1], best) == Shown(stack, best, n - 2)
  }

  /** Whether the topmost level will show h once that is its own hash. */
  ghost predicate Settable<Tree>(stack: seq<Ledger<Tree>>, best: Best, h: Hash)
    requires |stack| >= 2
  {
    h != NULL_HASH || Shown(stack, best, |stack| - 2) == NULL_HASH
  }

  /** Where levels and ledgers agree. */
  ghost predicate Transparent<Tree(!new)>(env: Env<Tree>, stack: seq<Ledger<Tree>>, op: Op<Tree>)
    requires stack != [] && Enabled(stack, op)
  {
    var n := |stack| - 1;
    match op
    case PushAnchor(pool, tree) => Shown(stack, Anchor(pool), n) == env.root(tree) || Settable(stack, Anchor(pool), env.root(tree))
    case PopAnchor(pool, rt) => Shown(stack, Anchor(pool), n) == rt || Settable(stack, Anchor(pool), rt)
    case SetBestBlock(h) => Settable(stack, Block, h)
    case Flush => forall best :: Survives(stack, best)
    case _ => true
  }

  /** What a level shows depends only on the hashes up to it. */
  lemma {:induction false} ShownPrefix<Tree>(a: seq<Ledger<Tree>>, b: seq<Ledger<Tree>>, best: Best, n: nat)
    requires n < |a| && n < |b| && forall i :: 0 <= i <= n ==> BestOf(a[i], best) == BestOf(b[i], best)
    ensures Shown(a, best, n) == Shown(b, best, n)
  {
    if n > 0 {
      ShownPrefix(a, b, best, n - 1);
    }
  }

  /** Reading a hash changes no level but in its own copy of that hash, and nothing that any level shows. */
  lemma {:induction false} FilledShown<Tree>(stack: seq<Ledger<Tree>>, best: Best, n: nat, m: nat)
    requires n < |stack| && m < |stack|
    ensures Filled(stack, best, n)[m] == WithBest(stack[m], best, BestOf(Filled(stack, best, n)[m], best))
    ensures Shown(Filled(stack, best, n), best, m) == Shown(stack, best, m)
    decreases n, m
  {
    if n > 0 && BestOf(stack[n], best) == NULL_HASH {
      FilledShown(stack, best, n - 1, m);
      var f := Filled(stack, best, n - 1);
      if m > 0 {
        FilledShown(stack, best, n, m - 1);
        FilledShown(stack, best, n - 1, m - 1);
        assert m > n ==> f[m] == f[n..][m - n] == stack[n..][m - n] == stack[m];
      }
    }
  }

  lemma FilledLedgers<Tree>(stack: seq<Ledger<Tree>>, best: Best, n: nat)
    requires n < |stack|
    ensures Ledgers(Filled(stack, best, n)) == Ledgers(stack)
  {
    hide Filled, Shown;
    var f := Filled(stack, best, n);
    forall m | 0 <= m < |stack| ensures Resolved(f, m) == Resolved(stack, m) {
      forall i | 0 <= i <= m ensures f[i] == WithBest(stack[i], best, BestOf(f[i], best)) {
        FilledShown(stack, best, n, i);
      }
      FilledShown(stack, best, n, m);
      forall other: Best | other != best ensures Shown(f, other, m) == Shown(stack, other, m) {
        ShownPrefix(f, stack, other, m);
      }
    }
  }

  /** A level over a ledger. */
  ghost function Above<Tree>(below: Ledger<Tree>, l: Ledger<Tree>): Ledger<Tree> {
    l.(bestBlock := OrElse(l.bestBlock, below.bestBlock), bestAnchors := l.bestAnchors.Or(below.bestAnchors))
  }

  lemma LedgerAt<Tree>(stack: seq<Ledger<Tree>>, n: nat, best: Best)
    requires n < |stack|
    ensures BestOf(Ledgers(stack)[n], best) == Shown(stack, best, n)
    ensures n > 0 ==> Ledgers(stack)[n] == Above(Ledgers(stack)[n - 1], stack[n])
  {
  }

  /** A change of the topmost level is a change of the topmost ledger. */
  lemma TopLedger<Tree>(stack: seq<Ledger<Tree>>, l: Ledger<Tree>)
    requires |stack| >= 2
    ensures var n := |stack| - 1; Ledgers(stack[n := l]) == Ledgers(stack)[n := Above(Ledgers(stack)[n - 1], l)]
  {
    hide Shown;
    var n := |stack| - 1;
    var new_ := stack[n := l];
    forall m | 0 <= m < n ensures Resolved(new_, m) == Resolved(stack, m) {
      ShownPrefix(new_, stack, Block, m);
      ShownPrefix(new_, stack, Anchor(SPROUT), m);
      ShownPrefix(new_, stack, Anchor(SAPLING), m);
    }
    LedgerAt(new_, n, Block);
  }

  // ---- each kind of operation, on levels and on ledgers ----

  lemma AnchorPlain<Tree(!new)>(env: Env<Tree>, stack: seq<Ledger<Tree>>, op: Op<Tree>)
    requires stack != [] && Enabled(stack, op) && (op.PushAnchor? || op.PopAnchor?)
    ensures Ledgers(Step(env, stack, op)) == PlainStep(env, Ledgers(stack), op) <==> Transparent(env, stack, op)
  {
    hide Filled, Shown, Ledgers;
    var n, best := |stack| - 1, Anchor(op.pool);
    var f := Filled(stack, best, n);
    FilledLedgers(stack, best, n);
    LedgerAt(f, n, best);
    LedgerAt(stack, n, best);
    LedgerAt(stack, n - 1, best);
    var rt := if op.PushAnchor? then env.root(op.tree) else op.rt;
    if Shown(stack, best, n) != rt {
      TopLedger(f, Step(env, stack, op)[n]);
      SameAt(Ledgers(stack), n, Above(Ledgers(stack)[n - 1], Step(env, stack, op)[n]), PlainStep(env, Ledgers(stack), op)[n]);
    }
  }

  lemma TopPlain<Tree(!new)>(env: Env<Tree>, stack: seq<Ledger<Tree>>, op: Op<Tree>)
    requires stack != [] && Enabled(stack, op) && (op.ModifyCoins? || op.SetNullifiers? || op.SetBestBlock?)
    ensures Ledgers(Step(env, stack, op)) == PlainStep(env, Ledgers(stack), op) <==> Transparent(env, stack, op)
  {
    hide Marked, Shown, Ledgers;
    var n := |stack| - 1;
    var l := Step(env, stack, op)[n];
    TopLedger(stack, l);
    LedgerAt(stack, n, Block);
    LedgerAt(stack, n - 1, Block);
    if op.SetNullifiers? {
      MarkedHashes(stack[n], Ledgers(stack)[n], op.pool, op.nullifiers, op.spent);
    }
    SameAt(Ledgers(stack), n, Above(Ledgers(stack)[n - 1], l), PlainStep(env, Ledgers(stack), op)[n]);
  }

  lemma SameAt<T>(s: seq<T>, n: nat, a: T, b: T)
    requires n < |s|
    ensures s[n := a] == s[n := b] <==> a == b
  {
    assert s[n := a][n] == a && s[n := b][n] == b;
  }

  /** Marking nullifiers has nothing to do with the hashes. */
  lemma {:induction false} MarkedHashes<Tree>(a: Ledger<Tree>, b: Ledger<Tree>, pool: ShieldedType, nullifiers: seq<Hash>, spent: bool)
    requires b == a.(bestBlock := b.bestBlock, bestAnchors := b.bestAnchors)
    ensures Marked(b, pool, nullifiers, spent)
         == Marked(a, pool, nullifiers, spent).(bestBlock := b.bestBlock, bestAnchors := b.bestAnchors)
    ensures Marked(a, pool, nullifiers, spent).bestBlock == a.bestBlock && Marked(a, pool, nullifiers, spent).bestAnchors == a.bestAnchors
  {
    if nullifiers != [] {
      MarkedHashes(a, b, pool, nullifiers[..|nullifiers| - 1], spent);
    }
  }

  lemma FlushPlain<Tree(!new)>(env: Env<Tree>, stack: seq<Ledger<Tree>>)
    requires |stack| >= 2
    ensures Ledgers(FlushedLevels(stack)) == PlainStep(env, Ledgers(stack), Flush) <==> forall best :: Survives(stack, best)
  {
    var n := |stack| - 1;
    var new_ := FlushedLevels(stack);
    var p := PlainStep(env, Ledgers(stack), Flush);
    forall m | 0 <= m < n - 1 ensures Ledgers(new_)[m] == p[m] {
      ShownPrefix(new_, stack, Block, m);
      ShownPrefix(new_, stack, Anchor(SPROUT), m);
      ShownPrefix(new_, stack, Anchor(SAPLING), m);
    }
    forall best ensures Shown(new_, best, n - 1) == Shown(new_, best, n)
      ensures Shown(new_, best, n - 1) == Shown(stack, best, n) <==> Survives(stack, best) {
      if n >= 2 {
        ShownPrefix(new_, stack, best, n - 2);
      }
    }
    assert Ledgers(new_)[n - 1] == Resolved(new_, n - 1) && Ledgers(new_)[n] == Resolved(new_, n);
    assert p[n - 1] == p[n] == Resolved(stack, n);
    if Ledgers(new_) == p {
      forall best ensures Survives(stack, best) {
        assert BestOf(Resolved(new_, n - 1), best) == BestOf(Resolved(stack, n), best);
      }
    }
  }

  /** Entering and leaving a level. */
  lemma LevelPlain<Tree(!new)>(env: Env<Tree>, stack: seq<Ledger<Tree>>, op: Op<Tree>)
    requires stack != [] && Enabled(stack, op) && (op.Enter? || op.Leave?)
    ensures Ledgers(Step(env, stack, op)) == PlainStep(env, Ledgers(stack), op)
  {
    hide Shown;
    var n := |stack| - 1;
    var new_ := Step(env, stack, op);
    forall m | 0 <= m < |new_| && m < |stack| ensures Resolved(new_, m) == Resolved(stack, m) {
      ShownPrefix(new_, stack, Block, m);
      ShownPrefix(new_, stack, Anchor(SPROUT), m);
      ShownPrefix(new_, stack, Anchor(SAPLING), m);
    }
    if op.Enter? {
      forall best ensures Shown(new_, best, n + 1) == Shown(stack, best, n) {
        ShownPrefix(new_, stack, best, n);
        ShownAbove(new_, best, n + 1);
      }
      assert Resolved(new_, n + 1) == Resolved(stack, n);
    }
  }

  lemma ShownAbove<Tree>(stack: seq<Ledger<Tree>>, best: Best, n: nat)
    requires 0 < n < |stack|
    ensures Shown(stack, best, n) == OrElse(BestOf(stack[n], best), Shown(stack, best, n - 1))
  {
  }

  /** Levels behave like plain ledgers exactly where no null hash is set over, or handed down to, one that is not null. */
  lemma StepPlain<Tree(!new)>(env: Env<Tree>, stack: seq<Ledger<Tree>>, op: Op<Tree>)
    requires stack != [] && Enabled(stack, op)
    ensures Ledgers(Step(env, stack, op)) == PlainStep(env, Ledgers(stack), op) <==> Transparent(env, stack, op)
    ensures Reply(stack, op) == PlainReply(Ledgers(stack)[|stack| - 1], op)
  {
    hide Shown, Filled, Marked;
    if op.PushAnchor? || op.PopAnchor? {
      AnchorPlain(env, stack, op);
    } else if op.ModifyCoins? || op.SetNullifiers? || op.SetBestBlock? {
      TopPlain(env, stack, op);
    } else if op.Flush? {
      FlushPlain(env, stack);
    } else if op.Enter? || op.Leave? {
      LevelPlain(env, stack, op);
    } else if op.GetBest? {
      FilledLedgers(stack, op.best, |stack| - 1);
    }
  }

  ghost predicate RunTransparent<Tree(!new)>(env: Env<Tree>, stack: seq<Ledger<Tree>>, ops: seq<Op<Tree>>)
    requires stack != [] && RunEnabled(env, stack, ops)
    decreases |ops|
  {
    ops == [] || (Transparent(env, stack, ops[0]) && RunTransparent(env, Step(env, stack, ops[0]), ops[1..]))
  }

  /** There is always something to write to. */
  ghost predicate PlainEnabled<Tree(!new)>(env: Env<Tree>, stack: seq<Ledger<Tree>>, ops: seq<Op<Tree>>)
    requires stack != []
    decreases |ops|
  {
    ops == [] || ((|stack| == 1 ==> ops[0].Reads() || ops[0].Enter?) && PlainEnabled(env, PlainStep(env, stack, ops[0]), ops[1..]))
  }

  ghost function PlainRun<Tree(!new)>(env: Env<Tree>, stack: seq<Ledger<Tree>>, ops: seq<Op<Tree>>): (seq<Ledger<Tree>>, seq<Answer<Tree>>)
    requires stack != [] && PlainEnabled(env, stack, ops)
    decreases |ops|
  {
    if ops == [] then (stack, []) else
      var (end, answers) := PlainRun(env, PlainStep(env, stack, ops[0]), ops[1..]);
      (end, [PlainReply(stack[|stack| - 1], ops[0])] + answers)
  }

  /** A run whose hashes are set before they are handed down is a run on plain ledgers. */
  lemma {:induction false} RunPlain<Tree(!new)>(env: Env<Tree>, stack: seq<Ledger<Tree>>, ops: seq<Op<Tree>>)
    requires stack != [] && RunEnabled(env, stack, ops) && RunTransparent(env, stack, ops)
    ensures PlainEnabled(env, Ledgers(stack), ops)
    ensures Ledgers(Run(env, stack, ops).0) == PlainRun(env, Ledgers(stack), ops).0
    ensures Run(env, stack, ops).1 == PlainRun(env, Ledgers(stack), ops).1
    decreases |ops|
  {
    hide Step, PlainStep, Reply, PlainReply, Transparent, Ledgers;
    if ops != [] {
      StepPlain(env, stack, ops[0]);
      RunPlain(env, Step(env, stack, ops[0]), ops[1..]);
    }
  }
}
