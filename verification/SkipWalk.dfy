/** How many moves GetAncestor needs at most (src/chain.cpp). */
module SkipWalk {
  import opened Common
  import opened BlockIndex

  // ---- binary numerals ----

  /** The lowest k bits of x are zero. */
  predicate Clear(x: nat, k: nat) {
    k == 0 || (x % 2 == 0 && Clear(x / 2, k - 1))
  }

  lemma {:induction false} ClearSum(x: nat, y: nat, k: nat)
    requires Clear(x, k) && Clear(y, k)
    ensures Clear(x + y, k) && (x >= y ==> Clear(x - y, k))
  {
    if k > 0 {
      ClearSum(x / 2, y / 2, k - 1);
      assert (x + y) / 2 == x / 2 + y / 2;
      assert x >= y ==> x / 2 >= y / 2 && (x - y) / 2 == x / 2 - y / 2;
    }
  }

  lemma {:induction false} ClearFewer(x: nat, k: nat, j: nat)
    requires Clear(x, k) && j <= k
    ensures Clear(x, j)
  {
    if j > 0 {
      ClearFewer(x / 2, k - 1, j - 1);
    }
  }

  lemma {:induction false} ClearPow2(k: nat)
    ensures Clear(Pow2(k), k)
  {
    if k > 0 {
      ClearPow2(k - 1);
      ClearTwice(Pow2(k - 1), k - 1);
    }
  }

  lemma ClearTwice(x: nat, k: nat)
    requires Clear(x, k)
    ensures Clear(2 * x, k + 1)
  {
    assert (2 * x) % 2 == 0 && (2 * x) / 2 == x;
  }

  lemma {:induction false} ClearSmall(x: nat, k: nat)
    requires Clear(x, k) && x < Pow2(k)
    ensures x == 0
  {
    if k > 0 {
      ClearSmall(x / 2, k - 1);
    }
  }

  lemma {:induction false} Pow2Grows(j: nat, k: nat)
    requires j <= k
    ensures Pow2(j) <= Pow2(k)
  {
    if j < k {
      Pow2Grows(j, k - 1);
    }
  }

  lemma {:induction false} LowestOne(a: nat, k: nat)
    requires Clear(a, k + 1)
    ensures InvertLowestOne(a + Pow2(k)) == a
  {
    if k > 0 {
      LowestOne(a / 2, k - 1);
      assert (a + Pow2(k)) / 2 == a / 2 + Pow2(k - 1);
    }
  }

  /** Every positive number has a lowest one. */
  lemma {:induction false} HasLowestOne(x: nat, k: nat) returns (i: nat, a: nat)
    requires Clear(x, k) && x > 0
    ensures k <= i && Clear(a, i + 1) && x == a + Pow2(i)
    decreases x
  {
    if x % 2 == 1 {
      i, a := 0, x - 1;
    } else {
      i, a := HasLowestOne(x / 2, if k == 0 then 0 else k - 1);
      i, a := i + 1, 2 * a;
    }
  }

  /** The highest bit in which two numbers differ, and what they have in common above it. */
  lemma {:induction false} HighestDifference(w: nat, h: nat) returns (a: nat, m: nat)
    requires w > h
    ensures Clear(a, m + 1) && a <= h < a + Pow2(m) <= w < a + Pow2(m + 1)
    decreases w
  {
    if w / 2 == h / 2 {
      a, m := h, 0;
    } else {
      a, m := HighestDifference(w / 2, h / 2);
      a, m := 2 * a, m + 1;
    }
  }

  /** Clearing the lowest one takes away at least 2^k. */
  lemma Lowered(a: nat, k: nat)
    requires Clear(a, k)
    ensures a > 0 ==> InvertLowestOne(a) + Pow2(k) <= a
    ensures InvertLowestOne(a) <= a
  {
    if a > 0 {
      var i, b := HasLowestOne(a, k);
      LowestOne(b, i);
      Pow2Grows(k, i);
    }
  }

  // ---- single moves ----

  /** From an odd height the skip link is taken whenever it does not lead too far. */
  lemma OddHop(w: nat, h: nat)
    requires w % 2 == 1 && w > h
    ensures Hop(w, h) == if GetSkipHeight(w) >= h then GetSkipHeight(w) else w - 1
    ensures w > 1 ==> GetSkipHeight(w) == InvertLowestOne(InvertLowestOne(w - 1)) + 1
  {
    hide InvertLowestOne;
    if w > 1 {
      Lowered(InvertLowestOne(w - 1), 0);
    }
  }

  /** From an even height it is, too, but for the two lowest bits, where the link of the parent may lead further. */
  lemma EvenHop(a: nat, j: nat, h: nat)
    requires j >= 1 && Clear(a, j + 1) && h < a + Pow2(j)
    ensures var r := Hop(a + Pow2(j), h);
            && (a < h ==> r == a + Pow2(j) - 1)
            && (a == h ==> r == a)
            && (a > h && j == 1 ==> r == if InvertLowestOne(InvertLowestOne(a)) + 1 >= h then a + 1 else a)
            && (a > h && j == 2 ==> r == if InvertLowestOne(a) + 1 >= h then a + 3 else a)
            && (a > h && j >= 3 ==> r == a)
  {
    hide InvertLowestOne, Clear, GetSkipHeight, Pow2;
    LowestOne(a, j);
    EvenSum(a, j);
    EvenSkip(a + Pow2(j));
    if a > h {
      Lowered(a, j + 1);
      Lowered(InvertLowestOne(a), 0);
      PrevSkip(a, j);
    }
  }

  lemma EvenSkip(w: nat)
    requires w % 2 == 0 && w >= 2
    ensures GetSkipHeight(w) == InvertLowestOne(w)
  {
  }

  lemma OddOf(w: nat)
    requires w % 2 == 1 && w >= 2
    ensures GetSkipHeight(w) == InvertLowestOne(InvertLowestOne(w - 1)) + 1
  {
  }

  lemma EvenSum(a: nat, j: nat)
    requires j >= 1 && Clear(a, j + 1)
    ensures a % 2 == 0 && (a + Pow2(j)) % 2 == 0 && Pow2(j) % 2 == 0 && Pow2(j) >= 2 && Pow2(1) == 2 && Pow2(2) == 4 && Pow2(3) == 8
    ensures j >= 3 ==> Pow2(j) >= 8
  {
    if j >= 3 {
      Pow2Grows(3, j);
    }
  }

  /** The skip height of the parent of an even height. */
  lemma PrevSkip(a: nat, j: nat)
    requires j >= 1 && Clear(a, j + 1) && a > 0
    ensures j == 1 ==> GetSkipHeight(a + Pow2(j) - 1) == InvertLowestOne(InvertLowestOne(a)) + 1
    ensures j == 2 ==> GetSkipHeight(a + Pow2(j) - 1) == InvertLowestOne(a) + 1
    ensures j >= 3 ==> GetSkipHeight(a + Pow2(j) - 1) == a + Pow2(j) - 7
  {
    hide InvertLowestOne, Clear, GetSkipHeight;
    EvenSum(a, j);
    OddOf(a + Pow2(j) - 1);
    if j == 2 {
      ClearFewer(a, j + 1, 2);
      LowestOne(a, 1);
    } else if j >= 3 {
      Under(a, j, 1);
      Under(a, j, 2);
      LowestOne(a + Pow2(j) - 4, 1);
      LowestOne(a + Pow2(j) - 8, 2);
    }
  }

  /** a + 2^m has room for the lower bits of a + 2^m - 2^i. */
  lemma Under(a: nat, m: nat, i: nat)
    requires Clear(a, m + 1) && i < m
    ensures Pow2(i + 1) <= Pow2(m) && Clear(a + Pow2(m) - Pow2(i + 1), i + 1)
  {
    hide Clear;
    Pow2Grows(i + 1, m);
    ClearFewer(a, m + 1, i + 1);
    ClearPow2(m);
    ClearFewer(Pow2(m), m, i + 1);
    ClearPow2(i + 1);
    ClearSum(a, Pow2(m), i + 1);
    ClearSum(a + Pow2(m), Pow2(i + 1), i + 1);
  }

  // ---- the walk from a power of two above a multiple, when the target lies between them ----

  /** The moves this takes: once around each lower bit, in strides of two bits. */
  function Corners(m: nat): nat {
    if m <= 1 then 0 else Corners(m - 1) + (m - 1) / 2 + 2
  }

  lemma {:induction false} CornersGrow(k: nat, m: nat)
    requires k <= m
    ensures Corners(k) <= Corners(m) && (m >= 1 ==> Corners(m) >= 2 * (m - 1))
    decreases m
  {
    if k < m {
      CornersGrow(k, m - 1);
    } else if k >= 1 {
      CornersGrow(k - 1, k - 1);
    }
  }

  lemma {:induction false} CornersClosed(m: nat)
    requires m >= 1
    ensures Corners(m) == (m - 1) * (m - 1) / 4 + 2 * (m - 1)
  {
    if m >= 3 {
      CornersClosed(m - 2);
      var q := (m - 3) * (m - 3);
      assert (m - 1) * (m - 1) == q + 4 * (m - 2);
      Quarter(q, m - 2);
    }
  }

  lemma Quarter(q: nat, k: nat)
    ensures (q + 4 * k) / 4 == q / 4 + k
  {
  }

  /** Two low targets take one move more. */
  function Slack(a: nat, m: nat, h: nat): nat {
    if 1 <= m <= 2 && h == a + 1 then 1 else 0
  }

  /** The odd heights below a + 2^m whose skip links lead from one to the next. */
  function Odd(a: nat, m: nat, i: nat): nat
    requires i <= m
  {
    Pow2Grows(i, m);
    a + Pow2(m) - Pow2(i) + 1
  }

  lemma OddSkip(a: nat, m: nat, i: nat)
    requires Clear(a, m + 1) && 1 <= i < m
    ensures Odd(a, m, i) > 1 && Odd(a, m, i) % 2 == 1 && Odd(a, m, i) >= a + 2
    ensures i + 2 <= m ==> GetSkipHeight(Odd(a, m, i)) == Odd(a, m, i + 2)
    ensures i + 1 == m ==> GetSkipHeight(Odd(a, m, i)) == InvertLowestOne(a) + 1
  {
    hide InvertLowestOne, Clear;
    Under(a, m, i);
    LowestOne(a + Pow2(m) - Pow2(i + 1), i);
    EvenSum(a + Pow2(m) - Pow2(i + 1), i);
    if i + 2 <= m {
      Under(a, m, i + 1);
      LowestOne(a + Pow2(m) - Pow2(i + 2), i + 1);
    }
  }

  /** At a + 2^m, with the target between a and there. */
  lemma {:induction false} Cornered(a: nat, m: nat, h: nat)
    requires Clear(a, m + 1) && a < h <= a + Pow2(m)
    ensures Steps(a + Pow2(m), h) <= Corners(m) + Slack(a, m, h)
    decreases m, 1, 0
  {
    hide Clear, Hop;
    if h < a + Pow2(m) && m >= 1 {
      EvenHop(a, m, h);
      if m >= 2 {
        Pow2Grows(1, m);
        assert Odd(a, m, 1) == a + Pow2(m) - 1;
        OddWalk(a, m, 1, h);
      }
    }
  }

  lemma {:induction false} OddWalk(a: nat, m: nat, i: nat, h: nat)
    requires Clear(a, m + 1) && 1 <= i <= m && i % 2 == 1 && m >= 2 && a < h <= Odd(a, m, i)
    ensures Steps(Odd(a, m, i), h) + 1 + (i - 1) / 2 <= Corners(m) + Slack(a, m, h)
    decreases m, 0, m - i
  {
    hide Clear, Hop, GetSkipHeight, InvertLowestOne;
    CornersGrow(m, m);
    if h < Odd(a, m, i) {
      OddSkip(a, m, i);
      OddHop(Odd(a, m, i), h);
      if i + 1 == m {
        Lowered(a, 0);
        ClearFewer(a, m + 1, m);
        if a > 0 || h > 1 {
          Cornered(a, m - 1, h);
        }
      } else if h <= Odd(a, m, i + 2) {
        OddWalk(a, m, i + 2, h);
      } else {
        Turn(a, m, i, h);
      }
    }
  }

  /** The stride of two bits would lead too far. */
  lemma {:induction false} Turn(a: nat, m: nat, i: nat, h: nat)
    requires Clear(a, m + 1) && 1 <= i && i + 2 <= m && i % 2 == 1 && Odd(a, m, i + 2) < h < Odd(a, m, i)
    ensures 1 + Steps(Odd(a, m, i) - 1, h) + 1 + (i - 1) / 2 <= Corners(m)
    decreases m, 0, 0
  {
    hide Clear, Hop, GetSkipHeight, InvertLowestOne;
    Under(a, m, i);
    Under(a, m, i + 1);
    CornersGrow(i + 2, m);
    var b, b' := a + Pow2(m) - Pow2(i + 1), a + Pow2(m) - Pow2(i + 2);
    if b < h {
      Cornered(b, i, h);
    } else {
      EvenHop(b, i, h);
      LowestOne(b', i + 1);
      Lowered(b', 0);
      Cornered(b', i + 1, h);
    }
  }

  // ---- the way there: a is what w and h have in common, 2^m the highest bit in which they differ ----

  ghost predicate Between(a: nat, m: nat, x: nat, h: nat) {
    Clear(a, m + 1) && a <= h < a + Pow2(m) && x < Pow2(m)
  }

  /** A bit of x that is lowest in x is lowest in a + 2^m + x. */
  lemma Within(a: nat, m: nat, x: nat, h: nat, k: nat) returns (i: nat, y: nat)
    requires Between(a, m, x, h) && Clear(x, k) && x > 0
    ensures k <= i < m && Clear(y, i + 1) && x == y + Pow2(i) && Between(a, m, y, h)
    ensures Clear(a + Pow2(m) + y, i + 1) && InvertLowestOne(a + Pow2(m) + x) == a + Pow2(m) + y
  {
    hide Clear, InvertLowestOne;
    i, y := HasLowestOne(x, k);
    if i >= m {
      Pow2Grows(m, i);
    }
    ClearFewer(a, m + 1, i + 1);
    ClearPow2(m);
    ClearFewer(Pow2(m), m, i + 1);
    ClearSum(a, Pow2(m), i + 1);
    ClearSum(a + Pow2(m), y, i + 1);
    LowestOne(a + Pow2(m) + y, i);
  }

  lemma Arrived(a: nat, m: nat, h: nat)
    requires Between(a, m, 0, h)
    ensures InvertLowestOne(a + Pow2(m)) == a
    ensures 1 <= Steps(a + Pow2(m), h) <= if h == a then 1 else Corners(m) + Slack(a, m, h)
    ensures m >= 1 ==> InvertLowestOne(a) + 1 < h || (a == 0 && h <= 1)
    ensures Steps(a + 1, h) <= 1
  {
    hide Clear, InvertLowestOne, Hop;
    LowestOne(a, m);
    ClearFewer(a, m + 1, 1);
    Lowered(a, 1);
    Lowered(InvertLowestOne(a), 0);
    ClearEven(a, 0);
    if h == a {
      OddHop(a + 1, h);
      if m >= 1 {
        EvenHop(a, m, h);
      }
    } else {
      Cornered(a, m, h);
    }
  }

  lemma ClearNone(x: nat)
    ensures Clear(x, 0)
  {
  }

  lemma ClearEven(a: nat, k: nat)
    requires Clear(a, k + 1)
    ensures a % 2 == 0
  {
  }

  /** From an odd height, two bits at a time. */
  lemma {:induction false} FromOdd(a: nat, m: nat, x: nat, j: nat, h: nat)
    requires Between(a, m, x, h) && Clear(x, j) && 1 <= j <= m
    ensures Steps(a + Pow2(m) + x + 1, h) <= (m - j + 3) / 2 + Steps(a + Pow2(m), h)
    decreases x
  {
    hide Clear, InvertLowestOne, Hop, Pow2, GetSkipHeight;
    var w := a + Pow2(m) + x + 1;
    Arrived(a, m, h);
    OddAbove(a, m, x, j);
    OddHop(w, h);
    Lowered(a, 0);
    if x > 0 {
      var i, y := Within(a, m, x, h, j);
      if y > 0 {
        var i', y' := Within(a, m, y, h, i + 1);
        FromOdd(a, m, y', i' + 1, h);
      } else if h > a + 1 {
        FromBit(a, m, i, h);
      }
    }
  }

  lemma OddAbove(a: nat, m: nat, x: nat, j: nat)
    requires Clear(a, m + 1) && Clear(x, j) && 1 <= j <= m
    ensures (a + Pow2(m) + x + 1) % 2 == 1 && a + Pow2(m) + x + 1 > 1
  {
    hide Clear;
    ClearEven(a, m);
    ClearEven(x, j - 1);
    ClearPow2(m);
    ClearEven(Pow2(m), m - 1);
  }

  /** From a single bit above 2^m. */
  lemma FromBit(a: nat, m: nat, i: nat, h: nat)
    requires Clear(a, m + 1) && Clear(a + Pow2(m), i + 1) && 1 <= i < m && a + 1 < h < a + Pow2(m)
    ensures Hop(a + Pow2(m) + Pow2(i), h) == a + Pow2(m)
  {
    hide Clear, InvertLowestOne, Hop;
    EvenHop(a + Pow2(m), i, h);
    LowestOne(a, m);
    Lowered(a, 0);
  }

  /** From a multiple of eight, bit by bit. */
  lemma {:induction false} FromEight(a: nat, m: nat, x: nat, j: nat, h: nat)
    requires Between(a, m, x, h) && Clear(x, j) && 3 <= j <= m
    ensures Steps(a + Pow2(m) + x, h) <= m - j + Steps(a + Pow2(m), h)
    decreases x
  {
    hide Clear, InvertLowestOne, Hop, GetSkipHeight;
    if x > 0 {
      var i, y := Within(a, m, x, h, j);
      EvenHop(a + Pow2(m) + y, i, h);
      FromEight(a, m, y, i + 1, h);
    }
  }

  lemma FromTwo(a: nat, m: nat, y: nat, h: nat)
    requires Between(a, m, y + 2, h) && Clear(y, 2) && m >= 2 && Clear(a + Pow2(m) + y, 2)
    ensures Steps(a + Pow2(m) + y + 2, h) <= (m + 3) / 2 + Steps(a + Pow2(m), h)
  {
    hide Clear, InvertLowestOne, Hop, GetSkipHeight;
    var b := a + Pow2(m) + y;
    EvenHop(b, 1, h);
    Arrived(a, m, h);
    if Hop(b + 2, h) == b + 1 {
      FromOdd(a, m, y, 2, h);
    } else if y > 0 {
      var i, z := Within(a, m, y, h, 2);
      if z > 0 {
        var i', z' := Within(a, m, z, h, i + 1);
      }
      FromBit(a, m, i, h);
    }
  }

  lemma FromFour(a: nat, m: nat, y: nat, h: nat)
    requires Between(a, m, y + 4, h) && Clear(y, 3) && m >= 3 && Clear(a + Pow2(m) + y, 3)
    ensures Steps(a + Pow2(m) + y + 4, h) <= (m + 3) / 2 + Steps(a + Pow2(m), h)
  {
    hide Clear, InvertLowestOne, Hop, GetSkipHeight;
    var b := a + Pow2(m) + y;
    EvenHop(b, 2, h);
    Arrived(a, m, h);
    if Hop(b + 4, h) == b + 3 {
      ClearEven(b, 2);
      OddHop(b + 3, h);
      LowestOne(b, 1) by { ClearFewer(b, 3, 2); }
      if y > 0 {
        var i, z := Within(a, m, y, h, 3);
        FromOdd(a, m, z, i + 1, h);
      }
    } else if y > 0 {
      var i, z := Within(a, m, y, h, 3);
    }
  }

  /** The most moves that getting to a + 2^m takes. */
  function Approach(m: nat): nat {
    if (m + 3) / 2 >= m - 3 then (m + 3) / 2 else m - 3
  }

  /** The walk between two heights that differ first in bit m. */
  lemma Differing(a: nat, m: nat, x: nat, h: nat)
    requires Between(a, m, x, h)
    ensures Steps(a + Pow2(m) + x, h) <= Approach(m) + Steps(a + Pow2(m), h)
    ensures Steps(a + Pow2(m), h) <= if m >= 3 then Corners(m) else 3
  {
    hide Clear, InvertLowestOne, Hop, GetSkipHeight;
    Arrived(a, m, h);
    CornersGrow(m, m);
    if x > 0 {
      ClearNone(x);
      var i, y := Within(a, m, x, h, 0);
      Pow2Small();
      if i == 0 {
        FromOdd(a, m, y, 1, h);
      } else if i == 1 {
        FromTwo(a, m, y, h);
      } else if i == 2 {
        FromFour(a, m, y, h);
      } else {
        FromEight(a, m, x, 3, h) by { ClearAt(y, i); }
      }
    }
  }

  lemma Pow2Small()
    ensures Pow2(0) == 1 && Pow2(1) == 2 && Pow2(2) == 4
  {
  }

  lemma ClearAt(y: nat, i: nat)
    requires Clear(y, i + 1) && i >= 3
    ensures Clear(y + Pow2(i), 3)
  {
    ClearPow2(i);
    ClearFewer(y, i + 1, i);
    ClearSum(y, Pow2(i), i);
    ClearFewer(y + Pow2(i), i, 3);
  }

  /** Below 2^b the walk has about b^2/4 moves at most. */
  lemma WalkBound(w: nat, h: nat, b: nat)
    requires w < Pow2(b) && b >= 4
    ensures Steps(w, h) <= (b - 2) * (b - 2) / 4 + 2 * (b - 2) + Approach(b - 1)
  {
    CornersClosed(b - 1);
    CornersWalk(w, h, b);
  }

  lemma CornersWalk(w: nat, h: nat, b: nat)
    requires w < Pow2(b) && b >= 4
    ensures Steps(w, h) <= Corners(b - 1) + Approach(b - 1)
  {
    hide Clear, Pow2, Hop, Corners;
    if w > h {
      var a, m := HighestDifference(w, h);
      if m >= b {
        Pow2Grows(b, m);
      }
      Pow2Step(m);
      Differing(a, m, w - a - Pow2(m), h);
      CornersGrow(m, b - 1);
      CornersGrow(3, b - 1);
    }
  }

  lemma Pow2Step(m: nat)
    ensures Pow2(m + 1) == 2 * Pow2(m)
    ensures Pow2(m + 6) == 64 * Pow2(m)
  {
    assert Pow2(m + 6) == 2 * Pow2(m + 5) == 4 * Pow2(m + 4) == 8 * Pow2(m + 3) == 16 * Pow2(m + 2);
  }

  /** As src/chain.cpp says: at most 110 moves from any of the first 2^18 blocks to any other. */
  lemma MaxSteps(w: nat, h: nat)
    requires w < 0x40000
    ensures Steps(w, h) <= 110
  {
    Pow2Step(0);
    Pow2Step(6);
    Pow2Step(12);
    WalkBound(w, h, 18);
  }

  // ---- the bound is reached ----

  lemma {:induction false} ClearZero(k: nat)
    ensures Clear(0, k)
  {
    if k > 0 {
      ClearZero(k - 1);
    }
  }

  /** Cornered over 0 with the target 2. */
  lemma {:induction false} CorneredLow(a: nat, m: nat, h: nat)
    requires m >= 1 && a == 0 && h == 2
    ensures Steps(a + Pow2(m), h) == Corners(m)
    decreases m, 1, 0
  {
    hide Clear, Hop;
    if m >= 2 {
      Pow2Grows(2, m);
      ClearZero(m + 1);
      EvenHop(a, m, h);
      OddWalkLow(a, m, 1, h);
    }
  }

  lemma {:induction false} OddWalkLow(a: nat, m: nat, i: nat, h: nat)
    requires 1 <= i < m && i % 2 == 1 && a == 0 && h == 2
    ensures Steps(Odd(a, m, i), h) + 1 + (i - 1) / 2 == Corners(m)
    decreases m, 0, m - i
  {
    hide Clear, Hop, GetSkipHeight, InvertLowestOne;
    ClearZero(m + 1);
    OddSkip(a, m, i);
    Pow2Grows(i + 1, m);
    Pow2Grows(1, i);
    OddHop(Odd(a, m, i), h);
    if i + 2 < m {
      Pow2Grows(i + 3, m);
      OddWalkLow(a, m, i + 2, h);
    } else {
      CorneredLow(a, m - 1, h);
      Lowered(a, 0);
      if i + 2 == m {
        TurnLow(a, m, i, h);
      }
    }
  }

  lemma TurnLow(a: nat, m: nat, i: nat, h: nat)
    requires 1 <= i && i + 2 == m && i % 2 == 1 && a == 0 && h == 2
    ensures Odd(a, m, i) - 1 > h && Hop(Odd(a, m, i) - 1, h) == a + Pow2(m - 1)
  {
    hide Clear, Hop, InvertLowestOne;
    ClearZero(m + 1);
    Under(a, m, i);
    Pow2Grows(1, i);
    EvenHop(a + Pow2(i + 1), i, h);
    ClearZero(i + 2);
    LowestOne(a, i + 1);
    Lowered(a, 0);
  }

  lemma {:induction false} EightsLow(m: nat, j: nat, h: nat)
    requires 3 <= j <= m && h == 2
    ensures Pow2(j) <= Pow2(m) && Steps(2 * Pow2(m) - Pow2(j), h) == m - j + Steps(Pow2(m), h)
    decreases m - j
  {
    hide Clear, Hop;
    Pow2Grows(j, m);
    if j < m {
      EightsLow(m, j + 1, h);
      ClearZero(m + 2);
      Under(0, m + 1, j);
      EvenHop(2 * Pow2(m) - Pow2(j + 1), j, h);
    }
  }

  lemma CornersReached(b: nat, h: nat)
    requires b >= 9 && h == 2
    ensures Pow2(b) >= 8 && Steps(Pow2(b) - 8, h) == Corners(b - 1) + Approach(b - 1)
  {
    hide Steps, Corners;
    CorneredLow(0, b - 1, h);
    EightsLow(b - 1, 3, h);
    Pow2Grows(3, b);
    assert Pow2(3) == 8 && Pow2(b) == 2 * Pow2(b - 1);
  }

  /** The bound is exact: for every b from 9 on, the walk from 2^b - 8 to 2 takes so many moves. */
  lemma WalkBoundReached(b: nat)
    requires b >= 9
    ensures Pow2(b) >= 8 && Steps(Pow2(b) - 8, 2) == (b - 2) * (b - 2) / 4 + 2 * (b - 2) + Approach(b - 1)
  {
    hide Steps, Corners, Approach;
    CornersClosed(b - 1);
    CornersReached(b, 2);
  }
}
