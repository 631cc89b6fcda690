/** The block index with its skip links (src/chain.cpp, src/chain.h), compared with walking from parent to parent. */
module BlockIndex {

  /** Turns the lowest '1' bit of a number into a '0': n & (n - 1). */
  function InvertLowestOne(n: nat): (r: nat)
    ensures n > 0 ==> r < n
  {
    if n == 0 then 0 else if n % 2 == 1 then n - 1 else 2 * InvertLowestOne(n / 2)
  }

  /** The height to jump back to; always lower. */
  function GetSkipHeight(height: int): (r: nat)
    ensures height >= 1 ==> r < height
  {
    if height < 2 then 0
    else if height % 2 == 1 then InvertLowestOne(InvertLowestOne(height - 1)) + 1
    else InvertLowestOne(height)
  }

  /** Where the walk to a height goes on from w, over the skip link or to the parent. */
  function Hop(w: nat, height: nat): (r: nat)
    requires w > height
    ensures height <= r < w
  {
    var skip, skipPrev := GetSkipHeight(w), GetSkipHeight(w - 1);
    if skip == height || (skip > height && !(skipPrev < skip - 2 && skipPrev >= height)) then skip else w - 1
  }

  /** The number of moves of the walk when every skip link is there. */
  function Steps(w: nat, height: nat): nat {
    if w <= height then 0 else 1 + Steps(Hop(w, height), height)
  }

  class Block {
    const pprev: Block?
    const nHeight: nat
    var pskip: Block?

    constructor (pprev: Block?)
      requires pprev != null ==> WellFormed(pprev)
      ensures this.pprev == pprev && pskip == null && WellFormed(this)
    {
      this.pprev := pprev;
      nHeight := if pprev == null then 0 else pprev.nHeight + 1;
      pskip := null;
    }

    /** GetAncestor: the block at that height below this one, if there is one */
    method GetAncestor(height: int) returns (r: Block?, ghost steps: nat)
      requires WellFormed(this) && Linked(this)
      ensures height < 0 || height > nHeight ==> r == null && steps == 0
      ensures 0 <= height <= nHeight ==> r == Up(this, nHeight - height)
      ensures 0 <= height <= nHeight && FullyLinked(this) ==> steps == Steps(nHeight, height)
    {
      hide Linked, Up, GetSkipHeight, SkipOk, FullyLinked;
      UpNone(this);
      r, steps := null, 0;
      if 0 <= height <= nHeight {
        var pindexWalk, heightWalk := this, nHeight;
        while heightWalk > height
          invariant Linked(this) && height <= heightWalk <= nHeight && pindexWalk == Up(this, nHeight - heightWalk)
          invariant FullyLinked(this) ==> steps + Steps(heightWalk, height) == Steps(nHeight, height)
          decreases heightWalk
        {
          steps := steps + 1;
          var heightSkip := GetSkipHeight(heightWalk);
          var heightSkipPrev := GetSkipHeight(heightWalk - 1);
          SkipAt(this, heightWalk);
          if pindexWalk.pskip != null
             && (heightSkip == height || (heightSkip > height && !(heightSkipPrev < heightSkip - 2 && heightSkipPrev >= height))) {
            pindexWalk := pindexWalk.pskip;
            heightWalk := heightSkip;
          } else {
            pindexWalk := pindexWalk.pprev;
            heightWalk := heightWalk - 1;
          }
        }
        r := pindexWalk;
      }
    }

    /** BuildSkip, once the parent's links are built */
    method BuildSkip()
      requires WellFormed(this) && (pprev != null ==> Linked(pprev)) && (pprev == null ==> SkipOk(this))
      modifies this`pskip
      ensures Linked(this) && (pprev != null ==> pskip == Up(this, nHeight - GetSkipHeight(nHeight)))
      ensures pprev == null || old(FullyLinked(pprev)) ==> FullyLinked(this)
    {
      if pprev != null {
        var r, _ := pprev.GetAncestor(GetSkipHeight(nHeight));
        pskip := r;
        assert Up(this, nHeight - GetSkipHeight(nHeight)) == Up(pprev, nHeight - GetSkipHeight(nHeight) - 1);
      }
      forall k | 0 <= k <= nHeight
        ensures SkipOk(Up(this, k))
        ensures k < nHeight && old(FullyLinked(pprev)) ==> Up(this, k).pskip != null
      {
        if k > 0 {
          assert Up(this, k) == Up(pprev, k - 1);
          assert Up(this, k).nHeight < nHeight;
          assert old(SkipOk(Up(pprev, k - 1)));
          assert k < nHeight && old(FullyLinked(pprev)) ==> old(Up(pprev, k - 1).pskip) != null;
        }
      }
    }
  }

  /** A new block on top of another one, with its skip link. */
  method Extend(pprev: Block?) returns (b: Block)
    requires pprev != null ==> WellFormed(pprev) && Linked(pprev)
    ensures fresh(b) && b.pprev == pprev && WellFormed(b) && Linked(b)
    ensures pprev != null ==> b.pskip == Up(b, b.nHeight - GetSkipHeight(b.nHeight))
    ensures pprev == null || FullyLinked(pprev) ==> FullyLinked(b)
  {
    hide Up, GetSkipHeight;
    if pprev != null {
      LineAllocated(pprev);
    }
    b := new Block(pprev);
    b.BuildSkip();
  }

  /** Heights count the ancestors. */
  ghost predicate WellFormed(b: Block)
    decreases b.nHeight
  {
    if b.pprev == null then b.nHeight == 0 else b.nHeight == b.pprev.nHeight + 1 && WellFormed(b.pprev)
  }

  /** n steps from parent to parent. */
  ghost function Up(b: Block, n: nat): (r: Block)
    requires WellFormed(b) && n <= b.nHeight
    ensures WellFormed(r) && r.nHeight == b.nHeight - n
  {
    if n == 0 then b else Up(b.pprev, n - 1)
  }

  lemma {:induction false} UpUp(b: Block, m: nat, n: nat)
    requires WellFormed(b) && m + n <= b.nHeight
    ensures Up(Up(b, m), n) == Up(b, m + n)
  {
    if m > 0 {
      UpUp(b.pprev, m - 1, n);
    }
  }

  /** A skip link leads to the ancestor at the skip height. */
  ghost predicate SkipOk(b: Block)
    requires WellFormed(b)
    reads b
  {
    b.pskip == null || (b.nHeight > 0 && b.pskip == Up(b, b.nHeight - GetSkipHeight(b.nHeight)))
  }

  lemma UpNone(b: Block)
    requires WellFormed(b)
    ensures Up(b, 0) == b
  {
  }

  /** Both ways on from the ancestor at some height. */
  lemma SkipAt(b: Block, height: nat)
    requires WellFormed(b) && Linked(b) && 0 < height <= b.nHeight
    ensures var w := Up(b, b.nHeight - height);
            && w.pprev == Up(b, b.nHeight - (height - 1))
            && (w.pskip != null ==> w.pskip == Up(b, b.nHeight - GetSkipHeight(height)))
            && (FullyLinked(b) ==> w.pskip != null)
  {
    hide Up, GetSkipHeight, Linked;
    var n := b.nHeight - height;
    var w := Up(b, n);
    LinkedAt(b, n);
    UpUp(b, n, 1);
    UpOne(w);
    UpUp(b, n, height - GetSkipHeight(height));
  }

  lemma LinkedAt(b: Block, n: nat)
    requires WellFormed(b) && Linked(b) && n <= b.nHeight
    ensures SkipOk(Up(b, n))
  {
  }

  lemma UpOne(b: Block)
    requires WellFormed(b) && b.nHeight > 0
    ensures Up(b, 1) == b.pprev
  {
    assert Up(b, 1) == Up(b.pprev, 0);
  }

  ghost function Line(b: Block): set<Block>
    requires WellFormed(b)
  {
    set k | 0 <= k <= b.nHeight :: Up(b, k)
  }

  /** All skip links from a block down are right. */
  ghost predicate Linked(b: Block)
    requires WellFormed(b)
    reads Line(b)
  {
    forall k :: 0 <= k <= b.nHeight ==> SkipOk(Up(b, k))
  }

  /** And none of them is missing above the first block. */
  ghost predicate FullyLinked(b: Block)
    requires WellFormed(b)
    reads Line(b)
  {
    Linked(b) && forall k :: 0 <= k < b.nHeight ==> Up(b, k).pskip != null
  }

  lemma LinkedUp(b: Block, n: nat)
    requires WellFormed(b) && Linked(b) && n <= b.nHeight
    ensures Linked(Up(b, n))
  {
    var a := Up(b, n);
    forall k | 0 <= k <= a.nHeight
      ensures SkipOk(Up(a, k))
    {
      UpUp(b, n, k);
    }
  }

  lemma {:induction false} UpAllocated(b: Block, n: nat)
    requires WellFormed(b) && n <= b.nHeight
    ensures allocated(Up(b, n))
  {
    if n > 0 {
      UpAllocated(b.pprev, n - 1);
    }
  }

  lemma LineAllocated(b: Block)
    requires WellFormed(b)
    ensures forall c :: c in Line(b) ==> allocated(c)
  {
    forall k | 0 <= k <= b.nHeight
      ensures allocated(Up(b, k))
    {
      UpAllocated(b, k);
    }
  }
}
