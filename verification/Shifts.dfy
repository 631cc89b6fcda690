/** What shifting limbs by whole limbs and by bits does to the number they stand for. */
module Shifts {
  import opened Limbs

  /** x << s in 32 bits: what stays, and what is shifted out at the top. */
  function Low(x: word, s: nat): int
    requires s <= 32
  {
    x % Pow(2, 32 - s) * Pow(2, s)
  }

  function High(x: word, s: nat): int
    requires s <= 32
  {
    x / Pow(2, 32 - s)
  }

  lemma PowBits(s: nat)
    requires s <= 32
    ensures Pow(2, s) * Pow(2, 32 - s) == BASE && Pow(2, 32 - s) * Pow(2, s) == BASE
  {
    PowAdd(2, s, 32 - s);
    PowAdd(2, 32 - s, s);
    Pow32();
  }

  /** Low and High are the two words of x * 2^s; there is room below Low for s bits. */
  lemma LowHigh(x: word, s: nat)
    requires s <= 32
    ensures Low(x, s) == x * Pow(2, s) % BASE && High(x, s) == x * Pow(2, s) / BASE
    ensures Low(x, s) + High(x, s) * BASE == x * Pow(2, s)
    ensures 0 <= High(x, s) < Pow(2, s) && 0 <= Low(x, s) && Low(x, s) % Pow(2, s) == 0
    ensures Low(x, s) + Pow(2, s) <= BASE
  {
    PowBits(s);
    hide Pow;
    LowHighOf(x, Pow(2, 32 - s), Pow(2, s));
  }

  lemma LowHighOf(x: word, p: nat, q: nat)
    requires p >= 1 && q >= 1 && q * p == BASE
    ensures var l, h := x % p * q, x / p;
            && l == x * q % BASE && h == x * q / BASE && l + h * BASE == x * q
            && 0 <= h < q && 0 <= l && l % q == 0 && l + q <= BASE
  {
    var h, l := x / p, x % p;
    assert x == h * p + l;
    LowHighAlgebra(x, h, l, p, q);
    DivUnique(x * q, BASE, h, l * q);
    DivUnique(l * q, q, l, 0);
    HighBound(x, h, l, p, q);
  }

  lemma HighBound(x: int, h: int, l: int, p: int, q: int)
    requires x == h * p + l && x < q * p && 0 <= l && p >= 1
    ensures h < q
  {
    if h >= q {
      MulMonotone(q, h, p);
    }
  }

  lemma LowHighAlgebra(x: int, h: int, l: int, p: int, q: int)
    requires x == h * p + l && q * p == BASE && 0 <= l < p && q >= 1
    ensures x * q == h * BASE + l * q && 0 <= l * q && l * q + q <= BASE
  {
    assert (h * p + l) * q == h * (q * p) + l * q;
    MulMonotone(l + 1, p, q);
    assert (l + 1) * q == l * q + q;
    MulMonotone(0, l, q);
  }

  // ---- to the left ----

  ghost function LeftCarry(a: seq<word>, s: nat, i: nat): int
    requires s <= 32 && i <= |a|
  {
    if i == 0 then 0 else High(a[i - 1], s)
  }

  /** The limbs of a shifted left. */
  ghost predicate ShiftedLeft(a: seq<word>, r: seq<word>, k: nat, s: nat) {
    && |r| == |a| && s < 32
    && (forall m :: 0 <= m < |r| && m < k ==> r[m] == 0)
    && (forall m :: 0 <= m - k && m < |r| ==> r[m] == Low(a[m - k], s) + LeftCarry(a, s, m - k))
  }

  lemma {:induction false} LeftPrefix(a: seq<word>, r: seq<word>, k: nat, s: nat, j: nat)
    requires ShiftedLeft(a, r, k, s) && k <= |a| && j <= |a| - k
    ensures Val(r[..k + j]) + LeftCarry(a, s, j) * Pow(BASE, k + j) == Pow(2, s) * (Pow(BASE, k) * Val(a[..j]))
  {
    hide Pow, Low, High;
    if j == 0 {
      ValZero(r[..k]);
      assert Val(a[..0]) == 0;
    } else {
      LeftPrefix(a, r, k, s, j - 1);
      ValSnoc(r, k + j - 1);
      ValSnoc(a, j - 1);
      PowAdd(BASE, k, j - 1);
      PowStep(BASE, k + j - 1);
      LowHigh(a[j - 1], s);
      assert r[k + j - 1] == Low(a[k + j - 1 - k], s) + LeftCarry(a, s, j - 1);
      LeftAlgebra(a[j - 1], Low(a[j - 1], s), High(a[j - 1], s), LeftCarry(a, s, j - 1), Pow(2, s), Pow(BASE, k),
                  Val(a[..j - 1]), Pow(BASE, j - 1), Val(r[..k + j - 1]));
    }
  }

  lemma LeftAlgebra(x: int, lo: int, hi: int, c: int, t: int, pk: int, v: int, p: int, r: int)
    requires lo + hi * BASE == x * t && r + c * (pk * p) == t * (pk * v)
    ensures r + (lo + c) * (pk * p) + hi * (BASE * (pk * p)) == t * (pk * (v + x * p))
  {
    var q := pk * p;
    assert (lo + c) * q + hi * (BASE * q) == (lo + hi * BASE) * q + c * q;
    assert pk * (v + x * p) == pk * v + x * q;
    assert t * (pk * v + x * q) == t * (pk * v) + (x * t) * q;
  }

  lemma LeftValue(a: seq<word>, r: seq<word>, k: nat, s: nat)
    requires ShiftedLeft(a, r, k, s)
    ensures Val(r) == Val(a) * Pow(2, 32 * k + s) % Pow(BASE, |a|)
  {
    hide Pow, Low, High;
    var n := |a|;
    PowLimb(k, s);
    ValBound(r);
    if k >= n {
      ValZero(r);
      PowAdd(BASE, k - n, n);
      var d := Val(a) * (Pow(BASE, k - n) * Pow(2, s));
      Rearrange(Val(a), Pow(BASE, k - n), Pow(BASE, n), Pow(2, s));
      ModUnique(0, Val(a) * (Pow(BASE, k) * Pow(2, s)), d, Pow(BASE, n));
    } else {
      LeftPrefix(a, r, k, s, n - k);
      assert r[..n] == r;
      ValSplit(a, n - k);
      PowAdd(BASE, n - k, k);
      var c, hi := LeftCarry(a, s, n - k), Val(a[n - k..]);
      LeftWhole(Val(a[..n - k]), hi, Pow(BASE, n - k), Pow(BASE, k), Pow(2, s), c, Val(r));
      ModUnique(Val(r), Val(a) * (Pow(BASE, k) * Pow(2, s)), c + hi * Pow(2, s), Pow(BASE, n));
    }
  }

  lemma Rearrange(v: int, p: int, q: int, t: int)
    ensures (v * (p * t)) * q == v * ((p * q) * t)
  {
    assert (p * t) * q == (p * q) * t;
    MulAssociative(v, p * t, q);
  }

  lemma LeftWhole(lo: int, hi: int, p: int, pk: int, t: int, c: int, r: int)
    requires r + c * (p * pk) == t * (pk * lo)
    ensures r + (c + hi * t) * (p * pk) == (lo + p * hi) * (pk * t)
  {
    assert (c + hi * t) * (p * pk) == c * (p * pk) + (hi * t) * (p * pk);
    assert (lo + p * hi) * (pk * t) == lo * (pk * t) + (p * hi) * (pk * t);
    assert t * (pk * lo) == lo * (pk * t);
    assert (hi * t) * (p * pk) == (p * hi) * (pk * t);
  }

  // ---- to the right ----

  /** What comes down from the next limb. */
  ghost function RightCarry(a: seq<word>, s: nat, i: nat): int
    requires s < 32
  {
    if s != 0 && i < |a| then Low(a[i], 32 - s) else 0
  }

  ghost predicate ShiftedRight(a: seq<word>, r: seq<word>, k: nat, s: nat) {
    && |r| == |a| && s < 32
    && (forall m :: 0 <= m && m + k < |a| ==> r[m] == a[m + k] / Pow(2, s) + RightCarry(a, s, m + k + 1))
    && (forall m :: 0 <= m < |r| && m + k >= |a| ==> r[m] == 0)
  }

  /** The bits of limb i that are shifted out, if there is such a limb. */
  ghost function Cut(a: seq<word>, s: nat, i: nat): int {
    if i < |a| then a[i] % Pow(2, s) else 0
  }

  lemma CarryCut(a: seq<word>, s: nat, i: nat)
    requires s < 32
    ensures Pow(2, s) * RightCarry(a, s, i) == Cut(a, s, i) * BASE
  {
    if s != 0 && i < |a| {
      PowBits(s);
      assert Pow(2, 32 - (32 - s)) == Pow(2, s);
      CutAlgebra(a[i] % Pow(2, s), Pow(2, s), Pow(2, 32 - s));
    } else {
      assert Pow(2, 0) == 1;
    }
  }

  lemma CutAlgebra(c: int, t: int, u: int)
    ensures t * (c * u) == c * (t * u)
  {
  }

  lemma {:induction false} RightPrefix(a: seq<word>, r: seq<word>, k: nat, s: nat, j: nat)
    requires ShiftedRight(a, r, k, s) && k <= |a| && j <= |a| - k
    ensures Pow(2, s) * Val(r[..j]) == Val(a[k..k + j]) - Cut(a, s, k) + Cut(a, s, k + j) * Pow(BASE, j)
  {
    hide Pow, Cut, RightCarry;
    PowStep(BASE, 0);
    if j > 0 {
      RightPrefix(a, r, k, s, j - 1);
      var i := j - 1;
      ValSnoc(r, i);
      ValSnoc(a[k..], i);
      assert a[k..][..i] == a[k..k + i] && a[k..][..i + 1] == a[k..k + j];
      PowStep(BASE, i);
      CarryCut(a, s, k + j);
      CutHere(a, s, k + i);
      RightAlgebra(a[k + i], a[k + i] / Pow(2, s), RightCarry(a, s, k + j), Cut(a, s, k + i), Cut(a, s, k + j), Pow(2, s),
                   Pow(BASE, i), Val(r[..i]), Val(a[k..k + i]), Cut(a, s, k));
    }
  }

  lemma CutHere(a: seq<word>, s: nat, i: nat)
    requires i < |a|
    ensures Pow(2, s) * (a[i] / Pow(2, s)) == a[i] - Cut(a, s, i)
  {
  }

  lemma RightAlgebra(x: int, d: int, rc: int, c: int, c1: int, t: int, p: int, v: int, w: int, c0: int)
    requires t * d == x - c && t * rc == c1 * BASE && t * v == w - c0 + c * p
    ensures t * (v + (d + rc) * p) == w + x * p - c0 + c1 * (BASE * p)
  {
    assert t * (v + (d + rc) * p) == t * v + (t * d) * p + (t * rc) * p;
    assert (x - c) * p == x * p - c * p;
    MulAssociative(c1, BASE, p);
  }

  lemma RightValue(a: seq<word>, r: seq<word>, k: nat, s: nat)
    requires ShiftedRight(a, r, k, s)
    ensures Val(r) == Val(a) / Pow(2, 32 * k + s)
  {
    var n := |a|;
    PowLimb(k, s);
    if k >= n {
      RightAll(a, r, k, s);
    } else {
      RightPrefix(a, r, k, s, n - k);
      CutBound(a, s, k);
      ValSplit(r, n - k);
      ValZero(r[n - k..]);
      ValSplit(a, k);
      ValBound(a[..k]);
      assert a[k..k + (n - k)] == a[k..];
      hide Pow, Val;
      RightWhole(Val(a[..k]), Val(a[k..]), Cut(a, s, k), Pow(2, s), Pow(BASE, k), Val(r));
    }
  }

  lemma CutBound(a: seq<word>, s: nat, i: nat)
    ensures 0 <= Cut(a, s, i) < Pow(2, s) && (i >= |a| ==> Cut(a, s, i) == 0)
  {
  }

  /** Everything is shifted out. */
  lemma RightAll(a: seq<word>, r: seq<word>, k: nat, s: nat)
    requires ShiftedRight(a, r, k, s) && k >= |a|
    ensures Val(r) == Val(a) / (Pow(BASE, k) * Pow(2, s))
  {
    ValZero(r);
    ValBound(a);
    hide Pow, Val;
    PowMonotone(BASE, |a|, k);
    MulMonotone(1, Pow(2, s), Pow(BASE, k));
    DivUnique(Val(a), Pow(BASE, k) * Pow(2, s), 0, Val(a));
  }

  lemma RightWhole(lo: int, hi: int, c: int, t: int, p: int, r: int)
    requires t * r == hi - c && 0 <= c < t && 0 <= lo < p
    ensures r == (lo + p * hi) / (p * t)
  {
    var m := p * t;
    BelowNext(lo, c, p, t);
    MulMonotone(0, c, p);
    MulMonotone(1, t, p);
    assert p * hi == p * (t * r) + p * c;
    MulAssociative(p, t, r);
    assert t * p == m;
    DivUnique(lo + p * hi, m, r, c * p + lo);
  }

  // ---- the loops of the shift operators ----

  /** Limb m after the first i limbs of a have been shifted in from the left. */
  ghost function LeftLimb(a: seq<word>, k: nat, s: nat, i: nat, m: nat): int
    requires s < 32 && i <= |a| && m < |a|
  {
    if m < k then 0
    else if m - k < i then Low(a[m - k], s) + LeftCarry(a, s, m - k)
    else if m - k == i then LeftCarry(a, s, i)
    else 0
  }

  ghost predicate LeftDone(a: seq<word>, cur: seq<word>, k: nat, s: nat, i: nat) {
    && |cur| == |a| && s < 32 && i <= |a|
    && (forall m :: 0 <= m < |cur| ==> cur[m] == LeftLimb(a, k, s, i, m))
  }

  lemma LeftStart(a: seq<word>, cur: seq<word>, k: nat, s: nat)
    requires |cur| == |a| && s < 32 && forall m :: 0 <= m < |cur| ==> cur[m] == 0
    ensures LeftDone(a, cur, k, s, 0)
  {
  }

  /** The bits to be combined do not overlap. */
  lemma LeftOr(a: seq<word>, cur: seq<word>, k: nat, s: nat, i: nat)
    requires LeftDone(a, cur, k, s, i) && i < |a|
    ensures i + k + 1 < |a| ==> cur[i + k + 1] == 0 && Or(0, High(a[i], s)) == High(a[i], s) && 0 <= High(a[i], s) < BASE
    ensures Low(a[i], s) == a[i] * Pow(2, s) % BASE
    ensures i + k < |a| ==> Or(cur[i + k], Low(a[i], s)) == Low(a[i], s) + LeftCarry(a, s, i) && 0 <= Low(a[i], s) + LeftCarry(a, s, i) < BASE
    ensures s == 0 ==> High(a[i], s) == 0
  {
    hide Pow, Low, High;
    LowHigh(a[i], s);
    PowStep(2, 0);
    if i > 0 {
      LowHigh(a[i - 1], s);
    }
    OrDisjoint(Low(a[i], s), LeftCarry(a, s, i), s);
  }

  lemma LeftStep(a: seq<word>, cur: seq<word>, next: seq<word>, k: nat, s: nat, i: nat)
    requires LeftDone(a, cur, k, s, i) && i < |a| && |next| == |cur|
    requires forall m :: 0 <= m < |cur| && m != i + k && m != i + k + 1 ==> next[m] == cur[m]
    requires i + k < |a| ==> next[i + k] == Low(a[i], s) + LeftCarry(a, s, i)
    requires i + k + 1 < |a| ==> next[i + k + 1] == High(a[i], s)
    ensures LeftDone(a, next, k, s, i + 1)
  {
    hide Low, High;
    forall m | 0 <= m < |next|
      ensures next[m] == LeftLimb(a, k, s, i + 1, m)
    {
      if m != i + k && m != i + k + 1 {
        assert next[m] == cur[m] == LeftLimb(a, k, s, i, m);
      }
    }
  }

  lemma LeftEnd(a: seq<word>, cur: seq<word>, k: nat, s: nat)
    requires LeftDone(a, cur, k, s, |a|)
    ensures ShiftedLeft(a, cur, k, s)
  {
    hide Low, High;
    forall m | 0 <= m - k && m < |cur|
      ensures cur[m] == Low(a[m - k], s) + LeftCarry(a, s, m - k)
    {
      assert cur[m] == LeftLimb(a, k, s, |a|, m);
    }
    forall m | 0 <= m < |cur| && m < k
      ensures cur[m] == 0
    {
      assert cur[m] == LeftLimb(a, k, s, |a|, m);
    }
  }

  /** Limb m after the first i limbs of a have been shifted down. */
  ghost function RightLimb(a: seq<word>, k: nat, s: nat, i: nat, m: nat): int
    requires s < 32 && i <= |a| && m < |a|
  {
    if m + k < i then a[m + k] / Pow(2, s) + (if m + k + 1 < i then RightCarry(a, s, m + k + 1) else 0) else 0
  }

  ghost predicate RightDone(a: seq<word>, cur: seq<word>, k: nat, s: nat, i: nat) {
    && |cur| == |a| && s < 32 && i <= |a|
    && (forall m :: 0 <= m < |cur| ==> cur[m] == RightLimb(a, k, s, i, m))
  }

  lemma RightStart(a: seq<word>, cur: seq<word>, k: nat, s: nat)
    requires |cur| == |a| && s < 32 && forall m :: 0 <= m < |cur| ==> cur[m] == 0
    ensures RightDone(a, cur, k, s, 0)
  {
  }

  lemma RightOr(a: seq<word>, cur: seq<word>, k: nat, s: nat, i: nat)
    requires RightDone(a, cur, k, s, i) && i < |a|
    ensures i - k >= 0 ==> cur[i - k] == 0 && Or(0, a[i] / Pow(2, s)) == a[i] / Pow(2, s) && 0 <= a[i] / Pow(2, s) < BASE
    ensures i - k - 1 >= 0 && s != 0 ==>
              && a[i] * Pow(2, 32 - s) % BASE == RightCarry(a, s, i)
              && Or(cur[i - k - 1], RightCarry(a, s, i)) == a[i - 1] / Pow(2, s) + RightCarry(a, s, i) < BASE
  {
    RightFits(a[i], s);
    if i - k - 1 >= 0 && s != 0 {
      assert cur[i - k - 1] == RightLimb(a, k, s, i, i - k - 1);
      LowHigh(a[i], 32 - s);
      DownFits(a[i - 1], s);
      hide Pow, Low;
      OrDisjoint(Low(a[i], 32 - s), a[i - 1] / Pow(2, s), 32 - s);
    }
  }

  lemma RightFits(x: word, s: nat)
    ensures 0 <= x / Pow(2, s) < BASE
  {
    hide Pow;
    MulMonotone(1, Pow(2, s), x / Pow(2, s));
  }

  lemma DivBelow(x: nat, p: nat, q: nat)
    requires p >= 1 && x < q * p
    ensures 0 <= x / p < q
  {
    assert x == x / p * p + x % p;
    HighBound(x, x / p, x % p, p, q);
  }

  lemma DownFits(x: word, s: nat)
    requires s <= 32
    ensures 0 <= x / Pow(2, s) < Pow(2, 32 - s)
  {
    PowBits(s);
    hide Pow;
    DivBelow(x, Pow(2, s), Pow(2, 32 - s));
  }

  lemma RightStep(a: seq<word>, cur: seq<word>, next: seq<word>, k: nat, s: nat, i: nat)
    requires RightDone(a, cur, k, s, i) && i < |a| && |next| == |cur|
    requires forall m :: 0 <= m < |cur| && m != i - k && m != i - k - 1 ==> next[m] == cur[m]
    requires i - k >= 0 ==> next[i - k] == a[i] / Pow(2, s)
    requires i - k - 1 >= 0 ==> next[i - k - 1] == a[i - 1] / Pow(2, s) + RightCarry(a, s, i)
    ensures RightDone(a, next, k, s, i + 1)
  {
    hide Pow, RightCarry;
    forall m | 0 <= m < |next|
      ensures next[m] == RightLimb(a, k, s, i + 1, m)
    {
      if m != i - k && m != i - k - 1 {
        assert next[m] == cur[m] == RightLimb(a, k, s, i, m);
      }
    }
  }

  lemma RightEnd(a: seq<word>, cur: seq<word>, k: nat, s: nat)
    requires RightDone(a, cur, k, s, |a|)
    ensures ShiftedRight(a, cur, k, s)
  {
    hide Pow;
    forall m | 0 <= m && m + k < |a|
      ensures cur[m] == a[m + k] / Pow(2, s) + RightCarry(a, s, m + k + 1)
    {
      assert cur[m] == RightLimb(a, k, s, |a|, m);
    }
    forall m | 0 <= m < |cur| && m + k >= |a|
      ensures cur[m] == 0
    {
      assert cur[m] == RightLimb(a, k, s, |a|, m);
    }
  }
}
