/** Little-endian 32-bit limbs and the numbers they stand for. */
module Limbs {

  const BASE := 0x1_0000_0000

  /** uint32_t and uint64_t */
  type word = x: int | 0 <= x < 0x1_0000_0000
  type dword = x: int | 0 <= x < 0x1_0000_0000_0000_0000

  // ---- powers ----

  lemma MulMonotone(a: int, b: int, c: int)
    requires a <= b && c >= 0
    ensures a * c <= b * c && c * a <= c * b
  {
    assert b * c - a * c == (b - a) * c;
  }

  lemma MulAssociative(a: int, b: int, c: int)
    ensures a * (b * c) == (a * b) * c
  {
  }

  function Pow(b: nat, n: nat): (p: nat)
    ensures b >= 1 ==> p >= 1
  {
    if n == 0 then 1 else
      var q := Pow(b, n - 1);
      if b >= 1 then MulMonotone(1, b, q); b * q else b * q
  }

  lemma PowStep(b: nat, n: nat)
    ensures Pow(b, n + 1) == b * Pow(b, n) && Pow(b, 0) == 1
  {
  }

  lemma {:induction false} PowAdd(b: nat, m: nat, n: nat)
    ensures Pow(b, m + n) == Pow(b, m) * Pow(b, n)
  {
    hide Pow;
    PowStep(b, n);
    if m > 0 {
      PowAdd(b, m - 1, n);
      PowStep(b, m - 1);
      PowStep(b, m - 1 + n);
      MulAssociative(b, Pow(b, m - 1), Pow(b, n));
    }
  }

  lemma {:induction false} PowMul(b: nat, m: nat, n: nat)
    ensures Pow(Pow(b, m), n) == Pow(b, m * n)
  {
    if n > 0 {
      PowMul(b, m, n - 1);
      assert m * n == m + m * (n - 1);
      PowAdd(b, m, m * (n - 1));
    } else {
      assert m * n == 0;
    }
  }

  lemma PowMonotone(b: nat, m: nat, n: nat)
    requires b >= 1 && m <= n
    ensures Pow(b, m) <= Pow(b, n)
  {
    hide Pow;
    PowAdd(b, m, n - m);
    MulMonotone(1, Pow(b, n - m), Pow(b, m));
  }

  lemma Pow32()
    ensures Pow(2, 32) == BASE
  {
    assert Pow(2, 8) == 0x100;
    PowAdd(2, 8, 8);
    PowAdd(2, 16, 16);
  }

  /** A power of two split into limbs and bits. */
  lemma PowLimb(k: nat, s: nat)
    ensures Pow(2, 32 * k + s) == Pow(BASE, k) * Pow(2, s)
  {
    PowAdd(2, 32 * k, s);
    PowMul(2, 32, k);
    Pow32();
  }

  // ---- the value of limbs ----

  ghost function Val(s: seq<word>): (v: int)
    ensures v >= 0
  {
    if s == [] then 0 else Val(s[..|s| - 1]) + s[|s| - 1] * Pow(BASE, |s| - 1)
  }

  lemma ValSnoc(s: seq<word>, n: nat)
    requires n < |s|
    ensures Val(s[..n + 1]) == Val(s[..n]) + s[n] * Pow(BASE, n)
  {
    assert s[..n + 1][..n] == s[..n];
  }

  lemma BelowNext(v: int, x: int, p: int, b: int)
    requires 0 <= v < p && 0 <= x < b
    ensures v + x * p < b * p
  {
    MulMonotone(x + 1, b, p);
    assert (x + 1) * p == x * p + p;
  }

  lemma {:induction false} ValBound(s: seq<word>)
    ensures Val(s) < Pow(BASE, |s|)
  {
    hide Pow;
    PowStep(BASE, 0);
    if s != [] {
      var n := |s| - 1;
      ValBound(s[..n]);
      PowStep(BASE, n);
      BelowNext(Val(s[..n]), s[n], Pow(BASE, n), BASE);
    }
  }

  lemma {:induction false} ValSplit(s: seq<word>, n: nat)
    requires n <= |s|
    ensures Val(s) == Val(s[..n]) + Pow(BASE, n) * Val(s[n..])
  {
    if n == |s| {
      assert s[..n] == s && s[n..] == [];
    } else {
      var m := |s| - 1;
      ValSplit(s[..m], n);
      assert s[..m][..n] == s[..n];
      assert s[n..][..m - n] == s[..m][n..];
      PowAdd(BASE, n, m - n);
      assert Val(s[n..]) == Val(s[..m][n..]) + s[m] * Pow(BASE, m - n);
      hide Pow, Val;
      Distribute(Pow(BASE, n), Val(s[..m][n..]), s[m], Pow(BASE, m - n));
    }
  }

  lemma Distribute(p: int, v: int, x: int, q: int)
    ensures p * (v + x * q) == p * v + x * (p * q)
  {
  }

  lemma {:induction false} ValUpdate(s: seq<word>, i: nat, x: word)
    requires i < |s|
    ensures Val(s[i := x]) == Val(s) + (x - s[i]) * Pow(BASE, i)
  {
    var n := |s| - 1;
    if i == n {
      assert s[i := x][..n] == s[..n];
      assert (x - s[i]) * Pow(BASE, i) == x * Pow(BASE, i) - s[i] * Pow(BASE, i);
    } else {
      assert s[i := x][..n] == s[..n][i := x];
      ValUpdate(s[..n], i, x);
    }
  }

  lemma {:induction false} ValZero(s: seq<word>)
    requires forall i :: 0 <= i < |s| ==> s[i] == 0
    ensures Val(s) == 0
  {
    if s != [] {
      ValZero(s[..|s| - 1]);
    }
  }

  /** Only zero limbs make zero. */
  lemma {:induction false} ValNonZero(s: seq<word>, i: nat)
    requires i < |s| && s[i] != 0
    ensures Val(s) >= Pow(BASE, i)
  {
    var n := |s| - 1;
    if i == n {
      MulMonotone(1, s[n], Pow(BASE, n));
    } else {
      ValNonZero(s[..n], i);
      assert s[n] * Pow(BASE, n) >= 0;
    }
  }

  // ---- division with remainder ----

  lemma MulZero(a: int, b: int)
    requires b > 0 && -b < a * b < b
    ensures a == 0
  {
    if a >= 1 {
      MulMonotone(1, a, b);
    } else if a <= -1 {
      MulMonotone(a, -1, b);
    }
  }

  lemma DivUnique(a: int, b: int, q: int, r: int)
    requires b > 0 && a == q * b + r && 0 <= r < b
    ensures q == a / b && r == a % b
  {
    var q', r' := a / b, a % b;
    assert a == q' * b + r';
    assert (q - q') * b == q * b - q' * b == r' - r;
    MulZero(q - q', b);
  }

  /** A number within a multiple of m of another one, and below m, is its remainder. */
  lemma ModUnique(v: int, w: int, k: int, m: int)
    requires m > 0 && v + k * m == w && 0 <= v < m
    ensures v == w % m
  {
    DivUnique(w, m, k, v);
  }

  // ---- bitwise or ----

  function Or(a: nat, b: nat): nat
    decreases a + b
  {
    if a == 0 then b else if b == 0 then a else 2 * Or(a / 2, b / 2) + (if a % 2 == 1 || b % 2 == 1 then 1 else 0)
  }

  /** Bits that do not overlap add up. */
  lemma {:induction false} OrDisjoint(a: nat, b: nat, k: nat)
    requires a % Pow(2, k) == 0 && b < Pow(2, k)
    ensures Or(a, b) == a + b && Or(b, a) == a + b
  {
    if k > 0 && a > 0 && b > 0 {
      var p := Pow(2, k - 1);
      var q := a / (2 * p);
      assert a == q * (2 * p) + a % (2 * p);
      assert a == 2 * (q * p);
      DivUnique(a / 2, p, q, 0);
      OrDisjoint(a / 2, b / 2, k - 1);
    }
  }
}
