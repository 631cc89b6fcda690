/** The plain counterpart of a stack of caches: every level has whole maps, and hashes of its own that may be null. */
module CoinsLevels {
  import opened CoinsCache

  /** One of the three hashes of a view. */
  datatype Best = Block | Anchor(pool: ShieldedType)

  function BestOf<Tree>(l: Ledger<Tree>, best: Best): Hash {
    match best
    case Block => l.bestBlock
    case Anchor(pool) => l.bestAnchors.At(pool)
  }

  function WithBest<Tree>(l: Ledger<Tree>, best: Best, h: Hash): Ledger<Tree> {
    match best
    case Block => l.(bestBlock := h)
    case Anchor(pool) => l.(bestAnchors := l.bestAnchors.With(pool, h))
  }

  /** The hash that level n answers with: its own, or what the level below answers. */
  ghost function Shown<Tree>(stack: seq<Ledger<Tree>>, best: Best, n: nat): Hash
    requires n < |stack|
  {
    if n == 0 then BestOf(stack[0], best) else OrElse(BestOf(stack[n], best), Shown(stack, best, n - 1))
  }

  /** A level asked for a hash it does not have keeps the answer it gets from below. */
  ghost function Filled<Tree>(stack: seq<Ledger<Tree>>, best: Best, n: nat): (r: seq<Ledger<Tree>>)
    requires n < |stack|
    ensures |r| == |stack| && r[n + 1..] == stack[n + 1..]
  {
    if n == 0 || BestOf(stack[n], best) != NULL_HASH then stack
    else Filled(stack, best, n - 1)[n := WithBest(stack[n], best, Shown(stack, best, n - 1))]
  }

  /** PushAnchor and PopAnchor read the best anchor, and change nothing else if it is the given one already. */
  ghost function PushedAnchor<Tree(!new)>(env: Env<Tree>, stack: seq<Ledger<Tree>>, pool: ShieldedType, tree: Tree): seq<Ledger<Tree>>
    requires stack != []
  {
    var n := |stack| - 1;
    var f := Filled(stack, Anchor(pool), n);
    var rt := env.root(tree);
    if Shown(stack, Anchor(pool), n) == rt then f
    else f[n := WithBest(f[n], Anchor(pool), rt).(anchors := f[n].anchors[(pool, rt) := tree])]
  }

  ghost function PoppedAnchor<Tree>(stack: seq<Ledger<Tree>>, pool: ShieldedType, rt: Hash): seq<Ledger<Tree>>
    requires stack != []
  {
    var n := |stack| - 1;
    var f := Filled(stack, Anchor(pool), n);
    var best := Shown(stack, Anchor(pool), n);
    if best == rt then f
    else f[n := WithBest(f[n], Anchor(pool), rt).(anchors := f[n].anchors - {(pool, best)})]
  }

  /** The topmost level is copied to the level below, null hashes and all; only the store keeps its hash over a null one. */
  ghost function FlushedLevels<Tree>(stack: seq<Ledger<Tree>>): seq<Ledger<Tree>>
    requires |stack| >= 2
  {
    var n := |stack| - 1;
    if n == 1 then
      stack[0 := stack[1].(bestBlock := OrElse(stack[1].bestBlock, stack[0].bestBlock),
                           bestAnchors := stack[1].bestAnchors.Or(stack[0].bestAnchors))]
    else stack[n - 1 := stack[n]]
  }

  // ---- the levels of a stack of caches ----

  /** A view with the hashes of one cache only. */
  ghost function Own<Tree>(view: Ledger<Tree>, c: Cache<Tree>): Ledger<Tree> {
    view.(bestBlock := c.hashBlock, bestAnchors := c.hashAnchors)
  }

  ghost function LevelOf<Tree>(store: Ledger<Tree>, caches: seq<Cache<Tree>>, n: nat): Ledger<Tree>
    requires n <= |caches|
  {
    if n == 0 then store else Own(ViewOf(store, caches, n), caches[n - 1])
  }

  ghost function LevelsOf<Tree>(store: Ledger<Tree>, caches: seq<Cache<Tree>>): (r: seq<Ledger<Tree>>)
    ensures |r| == |caches| + 1
  {
    seq(|caches| + 1, n requires 0 <= n <= |caches| => LevelOf(store, caches, n))
  }

  /** What a level shows is what its view says. */
  lemma {:induction false} ShownIsView<Tree>(store: Ledger<Tree>, caches: seq<Cache<Tree>>, best: Best, n: nat)
    requires n <= |caches|
    ensures Shown(LevelsOf(store, caches), best, n) == BestOf(ViewOf(store, caches, n), best)
  {
    if n > 0 {
      ShownIsView(store, caches, best, n - 1);
    }
  }

  /** The levels are determined by the views and by the caches' own hashes. */
  lemma SameLevels<Tree>(store: Ledger<Tree>, caches: seq<Cache<Tree>>, stack: seq<Ledger<Tree>>)
    requires |stack| == |caches| + 1 && forall n :: 0 <= n <= |caches| ==> LevelOf(store, caches, n) == stack[n]
    ensures LevelsOf(store, caches) == stack
  {
  }

  /** A change of one cache that leaves the views alone can be seen in that cache's hashes only. */
  lemma LevelsFill<Tree>(store: Ledger<Tree>, caches: seq<Cache<Tree>>, i: nat, c: Cache<Tree>)
    requires i < |caches|
    requires forall n :: 0 <= n <= |caches| ==> ViewOf(store, caches[i := c], n) == ViewOf(store, caches, n)
    ensures LevelsOf(store, caches[i := c]) == LevelsOf(store, caches)[i + 1 := Own(ViewOf(store, caches, i + 1), c)]
    ensures c.hashBlock == caches[i].hashBlock && c.hashAnchors == caches[i].hashAnchors ==>
              LevelsOf(store, caches[i := c]) == LevelsOf(store, caches)
  {
    hide ViewOf;
  }

  lemma LevelsTop<Tree>(store: Ledger<Tree>, caches: seq<Cache<Tree>>, c: Cache<Tree>)
    requires caches != []
    requires forall n :: 0 <= n < |caches| ==> ViewOf(store, caches[|caches| - 1 := c], n) == ViewOf(store, caches, n)
    ensures LevelsOf(store, caches[|caches| - 1 := c])
         == LevelsOf(store, caches)[|caches| := Own(ViewOf(store, caches[|caches| - 1 := c], |caches|), c)]
  {
    hide ViewOf;
  }
}
