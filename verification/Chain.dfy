/** The active chain (CChain of src/chain.h and src/chain.cpp): an array of blocks by height. */
module Chain {
  import opened Common
  import opened BlockIndex

  /** Every entry is the ancestor of the last one at its own height. */
  ghost predicate ChainOf(chain: seq<Block?>, tip: Block) {
    && WellFormed(tip) && |chain| == tip.nHeight + 1
    && (forall h :: 0 <= h < |chain| ==> chain[h] == Up(tip, tip.nHeight - h))
  }

  ghost predicate IsChain(chain: seq<Block?>) {
    chain == [] || (chain[|chain| - 1] != null && ChainOf(chain, chain[|chain| - 1]))
  }

  function At(chain: seq<Block?>, height: int): Block? {
    if 0 <= height < |chain| then chain[height] else null
  }

  predicate Contains(chain: seq<Block?>, b: Block) {
    At(chain, b.nHeight) == b
  }

  /** Below a block on the chain there are its ancestors. */
  lemma ContainsAncestors(chain: seq<Block?>, b: Block, height: nat)
    requires IsChain(chain) && WellFormed(b) && Contains(chain, b) && height <= b.nHeight
    ensures At(chain, height) == Up(b, b.nHeight - height)
  {
    var tip := chain[|chain| - 1];
    UpUp(tip, tip.nHeight - b.nHeight, b.nHeight - height);
  }

  /** The chain while SetTip works its way down from the new tip. */
  ghost predicate Rewritten(before: seq<Block?>, chain: seq<Block?>, tip: Block, height: int) {
    && WellFormed(tip) && |chain| == tip.nHeight + 1 && -1 <= height <= tip.nHeight
    && (forall h :: height < h < |chain| ==> chain[h] == Up(tip, tip.nHeight - h))
    && (forall h :: 0 <= h <= height ==> chain[h] == At(before, h))
  }

  function Resized(chain: seq<Block?>, n: nat): (r: seq<Block?>)
    ensures |r| == n && forall h :: 0 <= h < n ==> r[h] == At(chain, h)
  {
    seq(n, h => At(chain, h))
  }

  lemma RewriteStep(before: seq<Block?>, chain: seq<Block?>, tip: Block, height: int)
    requires Rewritten(before, chain, tip, height) && height >= 0
    ensures Rewritten(before, chain[height := Up(tip, tip.nHeight - height)], tip, height - 1)
  {
  }

  /** Once an entry is right already, so is everything below it. */
  lemma RewriteEnd(before: seq<Block?>, chain: seq<Block?>, tip: Block, height: int)
    requires IsChain(before) && Rewritten(before, chain, tip, height)
    requires height >= 0 ==> chain[height] == Up(tip, tip.nHeight - height)
    ensures ChainOf(chain, tip)
  {
    hide Up, IsChain;
    if height >= 0 {
      var b := Up(tip, tip.nHeight - height);
      assert Contains(before, b);
      forall h | 0 <= h <= height
        ensures chain[h] == Up(tip, tip.nHeight - h)
      {
        ContainsAncestors(before, b, h);
        UpUp(tip, tip.nHeight - height, height - h);
      }
    }
  }

  lemma EmptyChain()
    ensures IsChain([])
  {
  }

  lemma ChainTip(chain: seq<Block?>, tip: Block)
    requires ChainOf(chain, tip)
    ensures IsChain(chain) && chain[|chain| - 1] == tip
  {
    assert chain[|chain| - 1] == Up(tip, 0);
  }

  /** The ancestors of a block that a locator lists so far, from the top. */
  ghost predicate Locates(have: seq<Block>, start: Block) {
    && WellFormed(start)
    && (forall i :: 0 <= i < |have| ==> have[i].nHeight <= start.nHeight && have[i] == Up(start, start.nHeight - have[i].nHeight))
    && (forall i, j :: 0 <= i < j < |have| ==> have[i].nHeight > have[j].nHeight)
    && (|have| > 0 ==> have[0] == start)
  }

  /** How far below the first entry of a locator the entry i is, unless that is below the genesis block. */
  function Back(i: nat): nat {
    if i <= 11 then i else Pow2(i - 10) + 9
  }

  function Lower(top: nat, n: nat): nat {
    if top > n then top - n else 0
  }

  class CChain {
    var vChain: seq<Block?>

    ghost predicate Valid()
      reads this
    {
      IsChain(vChain)
    }

    constructor ()
      ensures Valid() && vChain == []
    {
      vChain := [];
    }

    /** Height: -1 for the empty chain */
    method Height() returns (h: int)
      requires Valid()
      ensures h == if vChain == [] then -1 else vChain[|vChain| - 1].nHeight
    {
      h := |vChain| - 1;
    }

    /** Next: the successor on this chain, if any */
    method Next(b: Block) returns (r: Block?)
      requires Valid() && WellFormed(b)
      ensures r != null <==> Contains(vChain, b) && b.nHeight + 1 < |vChain|
      ensures r != null ==> r.pprev == b && Contains(vChain, r)
    {
      r := if Contains(vChain, b) then At(vChain, b.nHeight + 1) else null;
      if r != null {
        ghost var tip := vChain[|vChain| - 1];
        ContainsAncestors(vChain, r, b.nHeight);
        UpOne(r);
      }
    }

    /** SetTip: stops as soon as an entry is right */
    method SetTip(b: Block?)
      requires Valid() && (b != null ==> WellFormed(b))
      modifies this
      ensures Valid()
      ensures if b == null then vChain == [] else ChainOf(vChain, b)
    {
      hide Up, IsChain, ChainOf;
      if b == null {
        vChain := [];
        EmptyChain();
      } else {
        UpNone(b);
        ghost var before := vChain;
        vChain := Resized(vChain, b.nHeight + 1);
        var pindex: Block? := b;
        ghost var height: int := b.nHeight;
        while pindex != null && vChain[pindex.nHeight] != pindex
          invariant Rewritten(before, vChain, b, height)
          invariant if pindex == null then height == -1 else height >= 0 && pindex == Up(b, b.nHeight - height)
          decreases height
        {
          RewriteStep(before, vChain, b, height);
          vChain := vChain[pindex.nHeight := pindex];
          if height > 0 {
            UpUp(b, b.nHeight - height, 1);
            UpOne(pindex);
          }
          pindex := pindex.pprev;
          height := height - 1;
        }
        RewriteEnd(before, vChain, b, height);
        ChainTip(vChain, b);
      }
    }

    /** FindFork: the highest ancestor of a block that is on this chain */
    method FindFork(b: Block?) returns (r: Block?)
      requires Valid() && (b != null ==> WellFormed(b) && Linked(b))
      ensures b == null ==> r == null
      ensures b != null && r == null ==> forall k :: 0 <= k <= b.nHeight ==> !Contains(vChain, Up(b, k))
      ensures b != null && r != null ==>
                && Contains(vChain, r) && r.nHeight <= b.nHeight && r == Up(b, b.nHeight - r.nHeight)
                && (forall k :: 0 <= k < b.nHeight - r.nHeight ==> !Contains(vChain, Up(b, k)))
    {
      r := b;
      if b != null {
        ghost var n := 0;
        if b.nHeight > |vChain| - 1 {
          var a, _ := b.GetAncestor(|vChain| - 1);
          r := a;
          n := b.nHeight - (|vChain| - 1);
        }
        while r != null && !Contains(vChain, r)
          invariant 0 <= n <= b.nHeight + 1 && (forall k :: 0 <= k < n && k <= b.nHeight ==> !Contains(vChain, Up(b, k)))
          invariant if r == null then n == b.nHeight + 1 else n <= b.nHeight && r == Up(b, n)
          decreases b.nHeight + 1 - n
        {
          if n < b.nHeight {
            UpUp(b, n, 1);
            UpOne(r);
          }
          r := r.pprev;
          n := n + 1;
        }
      }
    }

    /** A step back from an ancestor of start, by the chain's index if possible. */
    method StepBack(start: Block, b: Block, nStep: nat) returns (r: Block)
      requires Valid() && WellFormed(start) && b.nHeight <= start.nHeight && b == Up(start, start.nHeight - b.nHeight)
      requires Contains(vChain, b) || Linked(start)
      ensures r.nHeight == if b.nHeight > nStep then b.nHeight - nStep else 0
      ensures r == Up(start, start.nHeight - r.nHeight) && (Contains(vChain, b) ==> Contains(vChain, r))
    {
      hide Up, Linked, IsChain;
      var nHeight: nat := if b.nHeight > nStep then b.nHeight - nStep else 0;
      UpUp(start, start.nHeight - b.nHeight, b.nHeight - nHeight);
      if Contains(vChain, b) {
        ContainsAncestors(vChain, b, nHeight);
        r := At(vChain, nHeight);
      } else {
        LinkedUp(start, start.nHeight - b.nHeight);
        var a, _ := b.GetAncestor(nHeight);
        r := a;
      }
    }

    /**
     * GetLocator, with the blocks themselves for their hashes: ancestors of the block, or of the tip, one by one at first
     * and then in steps that double, down to the genesis block; only logarithmically many.
     */
    method GetLocator(b: Block?) returns (vHave: seq<Block>)
      requires Valid() && (b != null ==> WellFormed(b) && Linked(b))
      ensures vHave == [] <==> b == null && vChain == []
      ensures vHave != [] ==>
                && Locates(vHave, vHave[0]) && vHave[|vHave| - 1].nHeight == 0
                && vHave[0] == (if b == null then vChain[|vChain| - 1] else b)
                && (forall i :: 0 <= i < |vHave| ==> vHave[i].nHeight == Lower(vHave[0].nHeight, Back(i)))
                && (forall i :: 0 <= i < |vHave| - 1 ==> vHave[i].nHeight > 0)
                && (|vHave| > 12 ==> Pow2(|vHave| - 12) <= vHave[0].nHeight)
    {
      hide Up, Linked, IsChain, Locates, Back, Stepping, Line;
      vHave := [];
      if b != null || vChain != [] {
        TipOnChain(vChain);
        var start := if b != null then b else vChain[|vChain| - 1];
        LocateStart(start);
        var pindex: Block, nStep: nat, done := start, 1, false;
        while !done
          invariant WellFormed(start) && pindex.nHeight <= start.nHeight && pindex == Up(start, start.nHeight - pindex.nHeight)
          invariant (b != null ==> start == b && Linked(b)) && (b == null ==> Contains(vChain, pindex))
          invariant Locates(vHave, start) && (if vHave == [] then pindex == start && !done else vHave[0] == start)
          invariant vHave != [] && !done ==> pindex.nHeight < vHave[|vHave| - 1].nHeight
          invariant done ==> vHave[|vHave| - 1].nHeight == 0 && Listed(vHave, start.nHeight)
          invariant !done ==> Stepping(vHave, start.nHeight, pindex.nHeight, nStep)
          decreases !done, pindex.nHeight
        {
          LocateStep(vHave, start, pindex);
          StepStep(vHave, pindex, start.nHeight, nStep);
          vHave := vHave + [pindex];
          if pindex.nHeight == 0 {
            done := true;
          } else {
            LineAllocated(start);
            pindex := StepBack(start, pindex, nStep);
            if |vHave| > 10 {
              nStep := nStep * 2;
            }
          }
        }
        Few(vHave, start.nHeight);
      }
    }
  }

  /** After any sequence of tips the chain is that of the last one. */
  method SetTips(tips: seq<Block?>) returns (c: CChain)
    requires forall i :: 0 <= i < |tips| && tips[i] != null ==> WellFormed(tips[i])
    ensures c.Valid()
    ensures if tips == [] || tips[|tips| - 1] == null then c.vChain == [] else ChainOf(c.vChain, tips[|tips| - 1])
  {
    hide IsChain, ChainOf;
    c := new CChain();
    for n := 0 to |tips|
      invariant fresh(c) && c.Valid()
      invariant if n == 0 || tips[n - 1] == null then c.vChain == [] else ChainOf(c.vChain, tips[n - 1])
    {
      c.SetTip(tips[n]);
    }
  }

  lemma TipOnChain(chain: seq<Block?>)
    requires IsChain(chain)
    ensures chain != [] ==> chain[|chain| - 1] != null && WellFormed(chain[|chain| - 1]) && Contains(chain, chain[|chain| - 1])
  {
  }

  /** The heights of the blocks listed. */
  ghost predicate Listed(have: seq<Block>, top: nat) {
    && (forall i :: 0 <= i < |have| ==> have[i].nHeight == Lower(top, Back(i)))
    && (forall i :: 0 <= i < |have| - 1 ==> have[i].nHeight > 0)
  }

  /** And the height of the next one, and the step to the one after that. */
  ghost predicate Stepping(have: seq<Block>, top: nat, height: nat, step: nat) {
    && Listed(have, top) && (forall i :: 0 <= i < |have| ==> have[i].nHeight > 0)
    && height == Lower(top, Back(|have|)) && step == Back(|have| + 1) - Back(|have|)
  }

  lemma LocateStart(start: Block)
    requires WellFormed(start)
    ensures Up(start, 0) == start && Locates([], start) && Stepping([], start.nHeight, start.nHeight, 1)
  {
  }

  lemma LocateStep(have: seq<Block>, start: Block, b: Block)
    requires Locates(have, start) && b.nHeight <= start.nHeight && b == Up(start, start.nHeight - b.nHeight)
    requires (have == [] ==> b == start) && (have != [] ==> b.nHeight < have[|have| - 1].nHeight)
    ensures Locates(have + [b], start)
  {
    hide Up;
    var more := have + [b];
    forall i, j | 0 <= i < j < |more|
      ensures more[i].nHeight > more[j].nHeight
    {
      assert i < |have| - 1 ==> have[i].nHeight > have[|have| - 1].nHeight;
    }
  }

  /** After b is listed, either it is the last, or the next one is a step back. */
  lemma StepStep(have: seq<Block>, b: Block, top: nat, step: nat)
    requires Stepping(have, top, b.nHeight, step)
    ensures step >= 1 && (have != [] ==> b.nHeight < have[|have| - 1].nHeight) && Listed(have + [b], top)
    ensures b.nHeight > 0 ==> Stepping(have + [b], top, Lower(b.nHeight, step), if |have| + 1 > 10 then step * 2 else step)
  {
  }

  /** The steps double, so that there are few of them. */
  lemma Few(have: seq<Block>, top: nat)
    requires Listed(have, top) && have != []
    ensures |have| > 12 ==> Pow2(|have| - 12) <= top
  {
    if |have| > 12 {
      assert have[|have| - 2].nHeight > 0;
    }
  }
}
