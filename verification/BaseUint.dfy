/** Fixed-width unsigned integers (base_uint of src/arith_uint256.h and .cpp), for any width. */
module BaseUint {
  import opened Limbs
  import opened Shifts

  // ---- one limb at a time ----

  lemma LimbCarry(n: nat, p: nat)
    ensures (n % BASE) * p + (n / BASE) * (BASE * p) == n * p
  {
    var r, q := n % BASE, n / BASE;
    assert n == r + q * BASE;
    assert (r + q * BASE) * p == r * p + q * (BASE * p);
  }

  /** A limb is written and the carry passed on. */
  lemma CarryStep(cur: seq<word>, next: seq<word>, i: nat, carry: nat, n: nat, sum: int, t: int)
    requires i < |cur| == |next| && Val(cur[..i]) + carry * Pow(BASE, i) == sum && n == carry + t
    requires next[i] == n % BASE && forall j :: 0 <= j < i ==> next[j] == cur[j]
    ensures Val(next[..i + 1]) + (n / BASE) * Pow(BASE, i + 1) == sum + t * Pow(BASE, i)
  {
    hide Pow;
    ValSnoc(next, i);
    assert next[..i] == cur[..i];
    PowStep(BASE, i);
    LimbCarry(n, Pow(BASE, i));
    assert n * Pow(BASE, i) == carry * Pow(BASE, i) + t * Pow(BASE, i);
  }

  lemma ScaledSnoc(m: nat, s: seq<word>, i: nat)
    requires i < |s|
    ensures m * Val(s[..i + 1]) == m * Val(s[..i]) + (m * s[i]) * Pow(BASE, i)
  {
    hide Pow;
    ValSnoc(s, i);
    Distribute(m, Val(s[..i]), s[i], Pow(BASE, i));
    MulAssociative(m, s[i], Pow(BASE, i));
    assert s[i] * (m * Pow(BASE, i)) == m * (s[i] * Pow(BASE, i));
  }

  lemma ComplementAlgebra(x: int, p: int)
    ensures (BASE - 1 - x) * p == BASE * p - p - x * p
  {
  }

  lemma {:induction false} Complement(s: seq<word>, c: seq<word>)
    requires |c| == |s| && forall i :: 0 <= i < |s| ==> c[i] == BASE - 1 - s[i]
    ensures Val(c) == Pow(BASE, |s|) - 1 - Val(s)
  {
    hide Pow;
    PowStep(BASE, 0);
    if s != [] {
      var n := |s| - 1;
      Complement(s[..n], c[..n]);
      PowStep(BASE, n);
      ComplementAlgebra(s[n], Pow(BASE, n));
    }
  }

  /** The integer of two's complement: v modulo the number of values. */
  ghost function Wrap(v: int, width: nat): (w: int)
    ensures 0 <= w < Pow(BASE, width)
  {
    v % Pow(BASE, width)
  }

  /** x << s and x >> s on uint32_t */
  function WordLeft(x: word, s: nat): word {
    x * Pow(2, s) % BASE
  }

  function WordRight(x: word, s: nat): word {
    RightFits(x, s);
    x / Pow(2, s)
  }

  lemma NoCarry(a: seq<word>, cur: seq<word>, k: nat, s: nat, i: nat)
    requires RightDone(a, cur, k, s, i) && i < |a|
    ensures s == 0 && i - k - 1 >= 0 ==> cur[i - k - 1] == a[i - 1] / Pow(2, s) + RightCarry(a, s, i)
  {
    if s == 0 && i - k - 1 >= 0 {
      assert cur[i - k - 1] == RightLimb(a, k, s, i, i - k - 1);
    }
  }

  class Number {
    const pn: array<word>

    ghost function Value(): (v: int)
      reads pn
      ensures v >= 0
    {
      Val(pn[..])
    }

    constructor (width: nat)
      ensures fresh(pn) && pn.Length == width && Value() == 0
    {
      pn := new word[width](_ => 0);
      new;
      ValZero(pn[..]);
    }

    constructor Copy(b: Number)
      ensures fresh(pn) && pn[..] == b.pn[..]
    {
      pn := new word[b.pn.Length](i requires 0 <= i < b.pn.Length reads b.pn => b.pn[i]);
    }

    method SetZero()
      modifies pn
      ensures Value() == 0 && forall i :: 0 <= i < pn.Length ==> pn[i] == 0
    {
      for i := 0 to pn.Length
        invariant forall j :: 0 <= j < i ==> pn[j] == 0
      {
        pn[i] := 0;
      }
      ValZero(pn[..]);
    }

    /** operator=(uint64_t) */
    method SetLow(b: dword)
      requires pn.Length >= 2
      modifies pn
      ensures Value() == b
    {
      pn[0] := b % BASE;
      pn[1] := b / BASE;
      for i := 2 to pn.Length
        invariant pn[0] == b % BASE && pn[1] == b / BASE && forall j :: 2 <= j < i ==> pn[j] == 0
      {
        pn[i] := 0;
      }
      TwoLimbs(pn[..]);
    }

    /** operator+=; b may be the number itself */
    method AddAssign(b: Number)
      requires b.pn.Length == pn.Length
      modifies pn
      ensures Value() == Wrap(old(Value()) + old(b.Value()), pn.Length)
    {
      hide Val, Pow;
      ghost var a0, b0 := pn[..], b.pn[..];
      var carry: dword := 0;
      SumNone(a0, b0, pn[..]);
      for i := 0 to pn.Length
        invariant carry <= 1
        invariant Val(pn[..][..i]) + carry * Pow(BASE, i) == Val(a0[..i]) + Val(b0[..i])
        invariant forall j :: i <= j < pn.Length ==> pn[j] == a0[j] && b.pn[j] == b0[j]
      {
        var n: dword := carry + pn[i] + b.pn[i];
        ghost var cur := pn[..];
        pn[i] := n % BASE;
        CarryStep(cur, pn[..], i, carry, n, Val(a0[..i]) + Val(b0[..i]), Sum(a0[i], b0[i]));
        SumSnoc(a0, b0, i);
        carry := n / BASE;
      }
      Whole(pn[..], a0, b0);
      ValBound(pn[..]);
      ModUnique(Val(pn[..]), Val(a0) + Val(b0), carry, Pow(BASE, pn.Length));
    }

    /** operator*=(uint32_t) */
    method MulWord(b32: word)
      modifies pn
      ensures Value() == Wrap(b32 * old(Value()), pn.Length)
    {
      hide Val, Pow, Multiplied;
      ghost var a0 := pn[..];
      var carry: dword := 0;
      MultiplyNone(pn[..], b32, a0);
      for i := 0 to pn.Length
        invariant carry < BASE && Multiplied(pn[..], i, carry, b32, a0)
        invariant forall j :: i <= j < pn.Length ==> pn[j] == a0[j]
      {
        ghost var cur := pn[..];
        MultiplyFits(carry, b32, pn[i]);
        var n: dword := carry + b32 as dword * pn[i];
        pn[i] := n % BASE;
        MultiplyStep(cur, pn[..], i, carry, n, b32, a0);
        carry := n / BASE;
      }
      MultiplyAll(pn[..], carry, b32, a0);
    }

    /** operator++ */
    method Increment()
      requires pn.Length > 0
      modifies pn
      ensures Value() == Wrap(old(Value()) + 1, pn.Length)
    {
      hide Val, Pow;
      ghost var a0 := pn[..];
      var i := 0;
      SumNone(a0, a0, pn[..]);
      PowStep(BASE, 0);
      var n: dword := 1 as dword + pn[0];
      pn[0] := n % BASE;
      CarryStep(a0, pn[..], 0, 1, n, 1, a0[0]);
      ValSnoc(a0, 0);
      while pn[i] == 0 && i < pn.Length - 1
        invariant 0 <= i < pn.Length
        invariant Val(pn[..][..i + 1]) + (if pn[i] == 0 then 1 else 0) * Pow(BASE, i + 1) == Val(a0[..i + 1]) + 1
        invariant forall j :: i < j < pn.Length ==> pn[j] == a0[j]
      {
        i := i + 1;
        ghost var cur := pn[..];
        n := 1 as dword + pn[i];
        pn[i] := n % BASE;
        CarryStep(cur, pn[..], i, 1, n, Val(a0[..i]) + 1, a0[i]);
        ValSnoc(a0, i);
      }
      ghost var carry := if pn[i] == 0 then 1 else 0;
      RestSame(pn[..], a0, i + 1);
      ValBound(pn[..]);
      if pn[i] == 0 {
        Whole(pn[..], a0, a0);
        ModUnique(Val(pn[..]), Val(a0) + 1, 1, Pow(BASE, pn.Length));
      } else {
        ModUnique(Val(pn[..]), Val(a0) + 1, 0, Pow(BASE, pn.Length));
      }
    }

    /** unary operator- */
    method Negated() returns (r: Number)
      requires pn.Length > 0
      ensures fresh(r) && fresh(r.pn) && r.pn.Length == pn.Length && r.Value() == Wrap(-Value(), pn.Length)
    {
      hide Val, Pow;
      r := new Number(pn.Length);
      for i := 0 to pn.Length
        invariant fresh(r) && fresh(r.pn) && r.pn.Length == pn.Length
        invariant forall j :: 0 <= j < i ==> r.pn[j] == BASE - 1 - pn[j]
      {
        r.pn[i] := BASE - 1 - pn[i];
      }
      Complement(pn[..], r.pn[..]);
      r.Increment();
      ShiftMod(-Val(pn[..]), Pow(BASE, pn.Length));
    }

    /** operator-= */
    method SubAssign(b: Number)
      requires b.pn.Length == pn.Length > 0
      modifies pn
      ensures Value() == Wrap(old(Value()) - old(b.Value()), pn.Length)
    {
      hide Val, Pow;
      var m := b.Negated();
      AddAssign(m);
      AddMod(old(Value()), 0 - old(b.Value()), Pow(BASE, pn.Length));
    }

    /** operator*=(const base_uint&); a number multiplied by itself in place has been cleared before it is read */
    method MulAssign(b: Number)
      requires b.pn.Length == pn.Length
      modifies pn
      ensures Value() == if b.pn == pn then 0 else Wrap(old(Value()) * old(b.Value()), pn.Length)
    {
      hide Val, Pow, RowAdded, Products;
      var a := pn[..];
      SetZero();
      ghost var b0 := b.pn[..];
      ProductsNone(pn[..], a, b0);
      for j := 0 to pn.Length
        invariant Products(pn[..], j, a, b0) && b.pn[..] == b0
        invariant b.pn == pn ==> forall k :: 0 <= k < pn.Length ==> pn[k] == 0
      {
        ghost var row := pn[..];
        var carry: dword := 0;
        RowNone(row, a, b0, j);
        for i := 0 to pn.Length - j
          invariant carry < BASE && RowAdded(row, pn[..], i, carry, a, b0, j) && b.pn[..] == b0
          invariant forall k :: i + j <= k < pn.Length ==> pn[k] == row[k]
          invariant b.pn == pn ==> carry == 0 && forall k :: 0 <= k < pn.Length ==> pn[k] == 0
        {
          ghost var cur := pn[..];
          MultiplyFits2(carry, pn[i + j], a[j], b.pn[i]);
          var n: dword := carry + pn[i + j] + a[j] as dword * b.pn[i];
          pn[i + j] := n % BASE;
          RowStep(row, cur, pn[..], i, carry, n, a, b0, j);
          carry := n / BASE;
        }
        ProductsStep(row, pn[..], carry, a, b0, j);
      }
      ProductsAll(pn[..], a, b0);
      if b.pn == pn {
        ValZero(pn[..]);
      }
    }

    /** operator<<= */
    method ShiftLeft(shift: nat)
      modifies pn
      ensures Value() == Wrap(old(Value()) * Pow(2, shift), pn.Length)
    {
      hide Val, Pow, LeftDone, ShiftedLeft, Low, LeftCarry;
      var a := pn[..];
      SetZero();
      var k, s := shift / 32, shift % 32;
      LeftStart(a, pn[..], k, s);
      for i := 0 to pn.Length
        invariant LeftDone(a, pn[..], k, s, i)
      {
        ghost var cur := pn[..];
        LeftOr(a, cur, k, s, i);
        if i + k + 1 < pn.Length && s != 0 {
          pn[i + k + 1] := Or(pn[i + k + 1], WordRight(a[i], 32 - s));
        }
        if i + k < pn.Length {
          pn[i + k] := Or(pn[i + k], WordLeft(a[i], s));
        }
        LeftStep(a, cur, pn[..], k, s, i);
      }
      LeftEnd(a, pn[..], k, s);
      LeftValue(a, pn[..], k, s);
    }

    /** operator>>= */
    method ShiftRight(shift: nat)
      modifies pn
      ensures Value() == old(Value()) / Pow(2, shift)
    {
      hide Val, Pow, RightDone, ShiftedRight, RightCarry;
      var a := pn[..];
      SetZero();
      var k, s := shift / 32, shift % 32;
      RightStart(a, pn[..], k, s);
      for i := 0 to pn.Length
        invariant RightDone(a, pn[..], k, s, i)
      {
        ghost var cur := pn[..];
        RightOr(a, cur, k, s, i);
        NoCarry(a, cur, k, s, i);
        if i - k - 1 >= 0 && s != 0 {
          pn[i - k - 1] := Or(pn[i - k - 1], WordLeft(a[i], 32 - s));
        }
        if i - k >= 0 {
          pn[i - k] := Or(pn[i - k], WordRight(a[i], s));
        }
        RightStep(a, cur, pn[..], k, s, i);
      }
      RightEnd(a, pn[..], k, s);
      RightValue(a, pn[..], k, s);
    }

    /** The position of the highest bit set plus one, or zero */
    method Bits() returns (n: nat)
      ensures n == 0 <==> Value() == 0
      ensures n > 0 ==> Pow(2, n - 1) <= Value() < Pow(2, n)
      ensures n <= 32 * pn.Length
    {
      hide Val, Pow;
      var pos := pn.Length;
      while pos > 0 && pn[pos - 1] == 0
        invariant 0 <= pos <= pn.Length && forall j :: pos <= j < pn.Length ==> pn[j] == 0
      {
        pos := pos - 1;
      }
      n := 0;
      if pos == 0 {
        ValZero(pn[..]);
      } else {
        var bits := TopBit(pn[pos - 1]);
        n := 32 * (pos - 1) + bits + 1;
        TopValue(pn[..], pos - 1, bits);
      }
    }

    /**
     * operator/=: shift and subtract. It fails on a zero divisor, leaving the number at zero; b may be the number itself.
     */
    method DivAssign(b: Number) returns (ok: bool)
      requires b.pn.Length == pn.Length > 0
      modifies pn
      ensures ok <==> old(b.Value()) != 0
      ensures Value() == if ok then old(Value()) / old(b.Value()) else 0
    {
      hide Val, Pow, Dividing, Clear;
      var div := new Number.Copy(b);
      var num := new Number.Copy(this);
      ghost var a0, b0 := Value(), b.Value();
      SetZero();
      var num_bits := num.Bits();
      var div_bits := div.Bits();
      ok := div_bits != 0;
      if ok && div_bits > num_bits {
        Smaller(a0, b0, num_bits, div_bits);
      } else if ok {
        var shift := num_bits - div_bits;
        DivideStart(a0, b0, num_bits, div_bits, pn[..]);
        div.ShiftLeft(shift);
        while shift >= 0
          invariant fresh(num.pn) && fresh(div.pn) && num.pn.Length == pn.Length && div.pn.Length == pn.Length && num.pn != div.pn
          invariant -1 <= shift < 32 * pn.Length
          invariant Dividing(num.Value(), Value(), a0, b0, shift) && Clear(pn[..], shift + 1)
          invariant shift >= 0 ==> div.Value() == b0 * Pow(2, shift)
          decreases shift
        {
          ghost var before := num.Value();
          var c := num.CompareTo(div);
          if c >= 0 {
            ValBound(num.pn[..]);
            NoBorrow(before, div.Value(), pn.Length);
            num.SubAssign(div);
            SetBit(shift);
          } else {
            ClearLess(pn[..], shift);
          }
          DivideStep(before, num.Value(), Value(), a0, b0, shift, c >= 0);
          Halve(b0, shift);
          div.ShiftRight(1);
          shift := shift - 1;
        }
        DivideEnd(num.Value(), Value(), a0, b0);
      }
    }

    /** pn[shift / 32] |= 1 << (shift & 31), where this and all lower bits are still clear */
    method SetBit(shift: nat)
      requires shift < 32 * pn.Length && Clear(pn[..], shift + 1)
      modifies pn
      ensures Value() == old(Value()) + Pow(2, shift) && Clear(pn[..], shift)
    {
      hide Val, Pow, Clear, Multiple, WordLeft;
      var w, r := shift / 32, shift % 32;
      ghost var s := pn[..];
      OneShifted(r);
      BitAdded(s, shift);
      pn[w] := Or(pn[w], WordLeft(1, r));
      assert pn[..] == WithBit(s, shift);
    }

    /** CompareTo, without its test on the addresses of the arrays */
    method CompareTo(b: Number) returns (c: int)
      requires b.pn.Length == pn.Length
      ensures c == if Value() < b.Value() then -1 else if Value() > b.Value() then 1 else 0
    {
      hide Val, Pow;
      var i := pn.Length;
      while i > 0 && pn[i - 1] == b.pn[i - 1]
        invariant 0 <= i <= pn.Length && forall j :: i <= j < pn.Length ==> pn[j] == b.pn[j]
      {
        i := i - 1;
      }
      c := if i == 0 then 0 else if pn[i - 1] < b.pn[i - 1] then -1 else 1;
      if i == 0 {
        assert pn[..] == b.pn[..];
      } else if c == -1 {
        TopLimb(pn[..], b.pn[..], i - 1);
      } else {
        TopLimb(b.pn[..], pn[..], i - 1);
      }
    }
  }

  // ---- lemmas for the loops ----

  lemma SumNone(a: seq<word>, b: seq<word>, c: seq<word>)
    ensures Val(a[..0]) == 0 && Val(b[..0]) == 0 && Val(c[..0]) == 0
  {
  }

  lemma Whole(a: seq<word>, b: seq<word>, c: seq<word>)
    ensures a[..|a|] == a && b[..|b|] == b && c[..|c|] == c
  {
  }

  function Sum(a: int, b: int): int {
    a + b
  }

  lemma SumSnoc(a: seq<word>, b: seq<word>, i: nat)
    requires i < |a| && i < |b|
    ensures Val(a[..i + 1]) + Val(b[..i + 1]) == Val(a[..i]) + Val(b[..i]) + Sum(a[i], b[i]) * Pow(BASE, i)
  {
    hide Pow;
    ValSnoc(a, i);
    ValSnoc(b, i);
  }

  lemma ProductFits(a: int, b: int, m: int)
    requires 0 <= a <= m && 0 <= b <= m
    ensures 0 <= a * b <= m * m
  {
    MulMonotone(0, a, b);
    MulMonotone(a, m, b);
    MulMonotone(b, m, m);
  }

  /** The product of the first i limbs, with its carry. */
  ghost predicate Multiplied(cur: seq<word>, i: nat, carry: int, m: nat, a: seq<word>)
    requires i <= |cur| && i <= |a|
  {
    Val(cur[..i]) + carry * Pow(BASE, i) == m * Val(a[..i])
  }

  lemma MultiplyNone(cur: seq<word>, m: nat, a: seq<word>)
    ensures Multiplied(cur, 0, 0, m, a)
  {
  }

  /** n, the carry and the product of two words, fits in 64 bits. */
  lemma MultiplyFits(carry: int, x: word, y: word)
    requires 0 <= carry < BASE
    ensures 0 <= carry + x * y < 0x1_0000_0000_0000_0000 && (carry + x * y) / BASE < BASE
  {
    ProductFits(x, y, BASE - 1);
  }

  lemma MultiplyStep(cur: seq<word>, next: seq<word>, i: nat, carry: nat, n: nat, m: nat, a: seq<word>)
    requires i < |cur| == |next| == |a| && Multiplied(cur, i, carry, m, a) && n == carry + m * a[i]
    requires next[i] == n % BASE && forall j :: 0 <= j < i ==> next[j] == cur[j]
    ensures Multiplied(next, i + 1, n / BASE, m, a)
  {
    hide Pow, Val;
    CarryStep(cur, next, i, carry, n, m * Val(a[..i]), m * a[i]);
    ScaledSnoc(m, a, i);
  }

  lemma MultiplyAll(cur: seq<word>, carry: int, m: nat, a: seq<word>)
    requires |cur| == |a| && Multiplied(cur, |cur|, carry, m, a)
    ensures Val(cur) == Wrap(m * Val(a), |cur|)
  {
    hide Pow, Val;
    Whole(cur, a, a);
    ValBound(cur);
    ModUnique(Val(cur), m * Val(a), carry, Pow(BASE, |cur|));
  }

  lemma TwoLimbs(s: seq<word>)
    requires |s| >= 2 && forall j :: 2 <= j < |s| ==> s[j] == 0
    ensures Val(s) == s[0] + s[1] * BASE
  {
    ValSplit(s, 2);
    ValZero(s[2..]);
    ValSnoc(s, 0);
    ValSnoc(s, 1);
    assert s[..0] == [];
    PowStep(BASE, 0);
  }

  lemma RestSame(a: seq<word>, b: seq<word>, n: nat)
    requires n <= |a| == |b| && forall j :: n <= j < |a| ==> a[j] == b[j]
    ensures Val(a) - Val(a[..n]) == Val(b) - Val(b[..n])
  {
    ValSplit(a, n);
    ValSplit(b, n);
    assert a[n..] == b[n..];
  }

  lemma ShiftMod(v: int, m: int)
    requires m > 0
    ensures (m + v) % m == v % m
  {
    ModUnique(v % m, m + v, v / m + 1, m);
  }

  lemma AddMod(a: int, b: int, m: int)
    requires m > 0
    ensures (a + b % m) % m == (a + b) % m
  {
    var q := (a + b) / m;
    ModUnique((a + b) % m, a + b % m, q - b / m, m);
  }

  /** The highest limb that differs decides. */
  lemma TopLimb(a: seq<word>, b: seq<word>, i: nat)
    requires i < |a| == |b| && a[i] < b[i] && forall j :: i < j < |a| ==> a[j] == b[j]
    ensures Val(a) < Val(b)
  {
    hide Pow, Val;
    RestSame(a, b, i + 1);
    ValSnoc(a, i);
    ValSnoc(b, i);
    ValBound(a[..i]);
    var x: int, p := a[i], Pow(BASE, i);
    MulMonotone(x + 1, b[i], p);
    assert (x + 1) * p == x * p + p;
  }

  // ---- multiplication ----

  /** The first j limbs of a have been multiplied in, up to a multiple of the modulus. */
  ghost predicate Products(cur: seq<word>, j: nat, a: seq<word>, b: seq<word>)
    requires j <= |a|
  {
    exists k :: Val(cur) + k * Pow(BASE, |cur|) == Val(a[..j]) * Val(b)
  }

  lemma ProductsNone(cur: seq<word>, a: seq<word>, b: seq<word>)
    requires Val(cur) == 0
    ensures Products(cur, 0, a, b)
  {
    assert Val(cur) + 0 * Pow(BASE, |cur|) == Val(a[..0]) * Val(b);
  }

  /** a[j] * b is being added to the limbs from j on; i limbs are done. */
  ghost predicate RowAdded(row: seq<word>, cur: seq<word>, i: nat, carry: int, a: seq<word>, b: seq<word>, j: nat)
    requires i + j <= |row| == |cur| && i <= |b| && j < |a|
  {
    Val(cur[..i + j]) + carry * Pow(BASE, i + j) == Val(row[..i + j]) + a[j] * (Val(b[..i]) * Pow(BASE, j))
  }

  lemma RowNone(row: seq<word>, a: seq<word>, b: seq<word>, j: nat)
    requires j < |row| && j < |a|
    ensures RowAdded(row, row, 0, 0, a, b, j)
  {
    assert Val(b[..0]) * Pow(BASE, j) == 0;
  }

  lemma MultiplyFits2(carry: int, z: word, x: word, y: word)
    requires 0 <= carry < BASE
    ensures 0 <= x * y && 0 <= carry + z + x * y < 0x1_0000_0000_0000_0000 && (carry + z + x * y) / BASE < BASE
  {
    ProductFits(x, y, BASE - 1);
  }

  lemma RowStep(row: seq<word>, cur: seq<word>, next: seq<word>, i: nat, carry: nat, n: nat, a: seq<word>, b: seq<word>, j: nat)
    requires i + j < |row| == |cur| == |next| && i < |b| && j < |a| && RowAdded(row, cur, i, carry, a, b, j)
    requires cur[i + j] == row[i + j] && n == carry + row[i + j] + a[j] as int * b[i]
    requires next[i + j] == n % BASE && forall k :: 0 <= k < i + j ==> next[k] == cur[k]
    ensures RowAdded(row, next, i + 1, n / BASE, a, b, j)
  {
    hide Pow, Val;
    var x: int, y: int, z: int, v, p, q := a[j], b[i], row[i + j], Val(b[..i]), Pow(BASE, i), Pow(BASE, j);
    CarryStep(cur, next, i + j, carry, n, Val(row[..i + j]) + x * (v * q), z + x * y);
    ValSnoc(row, i + j);
    ValSnoc(b, i);
    PowAdd(BASE, i, j);
    RowAlgebra(x, y, z, v, p, q);
  }

  lemma RowAlgebra(x: int, y: int, z: int, v: int, p: int, q: int)
    ensures (z + x * y) * (p * q) == z * (p * q) + x * ((v + y * p) * q) - x * (v * q)
  {
    assert (v + y * p) * q == v * q + y * (p * q);
    assert x * (v * q + y * (p * q)) == x * (v * q) + (x * y) * (p * q);
  }

  lemma ProductsStep(row: seq<word>, cur: seq<word>, carry: nat, a: seq<word>, b: seq<word>, j: nat)
    requires |row| == |cur| == |a| == |b| && j < |a| && Products(row, j, a, b) && RowAdded(row, cur, |row| - j, carry, a, b, j)
    ensures Products(cur, j + 1, a, b)
  {
    var n := |row|;
    var k :| Val(row) + k * Pow(BASE, n) == Val(a[..j]) * Val(b);
    hide Pow, Val;
    Whole(row, cur, b);
    ValSnoc(a, j);
    ValSplit(b, n - j);
    PowAdd(BASE, n - j, j);
    var x: int, lo, hi, p, q := a[j], Val(b[..n - j]), Val(b[n - j..]), Pow(BASE, n - j), Pow(BASE, j);
    ProductsAlgebra(x, lo, hi, p, q, carry, Val(cur), Val(row), k, Val(a[..j]), Val(b));
    assert Val(cur) + (carry + k + x * hi) * Pow(BASE, |cur|) == Val(a[..j + 1]) * Val(b);
  }

  lemma ProductsAlgebra(x: int, lo: int, hi: int, p: int, q: int, carry: int, cur: int, row: int, k: int, v: int, b: int)
    requires b == lo + p * hi && cur + carry * (p * q) == row + x * (lo * q) && row + k * (p * q) == v * b
    ensures cur + (carry + k + x * hi) * (p * q) == (v + x * q) * b
  {
    assert (carry + k + x * hi) * (p * q) == carry * (p * q) + k * (p * q) + (x * hi) * (p * q);
    assert (x * q) * (lo + p * hi) == x * (lo * q) + (x * hi) * (p * q);
    assert (v + x * q) * b == v * b + (x * q) * b;
  }

  lemma ProductsAll(cur: seq<word>, a: seq<word>, b: seq<word>)
    requires |cur| == |a| && Products(cur, |a|, a, b)
    ensures Val(cur) == Wrap(Val(a) * Val(b), |cur|)
  {
    hide Pow, Val;
    Whole(cur, a, b);
    ValBound(cur);
    var k :| Val(cur) + k * Pow(BASE, |cur|) == Val(a) * Val(b);
    ModUnique(Val(cur), Val(a) * Val(b), k, Pow(BASE, |cur|));
  }

  // ---- bits and division ----

  /** The loop of bits() within a limb. */
  method TopBit(x: word) returns (bits: nat)
    requires x != 0
    ensures bits < 32 && Pow(2, bits) <= x < Pow(2, bits + 1)
  {
    hide Pow;
    Pow32();
    PowStep(2, 0);
    bits := 31;
    while bits > 0 && x / Pow(2, bits) % 2 == 0
      invariant 0 <= bits < 32 && x < Pow(2, bits + 1)
    {
      PowStep(2, bits);
      BitClear(x, Pow(2, bits));
      bits := bits - 1;
    }
    if bits > 0 {
      BitSet(x, Pow(2, bits));
    }
  }

  lemma BitClear(x: nat, p: nat)
    requires p >= 1 && x < 2 * p && x / p % 2 == 0
    ensures x < p
  {
    DivBelow(x, p, 2);
    assert x == x / p * p + x % p;
  }

  lemma BitSet(x: nat, p: nat)
    requires p >= 1 && x / p % 2 != 0
    ensures x >= p
  {
  }

  lemma TopValue(s: seq<word>, pos: nat, bits: nat)
    requires pos < |s| && bits < 32 && Pow(2, bits) <= s[pos] < Pow(2, bits + 1) && forall j :: pos < j < |s| ==> s[j] == 0
    ensures Pow(2, 32 * pos + bits) <= Val(s) < Pow(2, 32 * pos + bits + 1)
  {
    ValSplit(s, pos + 1);
    ValZero(s[pos + 1..]);
    ValSnoc(s, pos);
    ValBound(s[..pos]);
    hide Pow, Val;
    PowLimb(pos, bits);
    PowLimb(pos, bits + 1);
    TopAlgebra(Val(s[..pos]), s[pos], Pow(BASE, pos), Pow(2, bits), Pow(2, bits + 1));
  }

  lemma TopAlgebra(v: int, x: int, p: int, t: int, u: int)
    requires 0 <= v < p && t <= x < u
    ensures p * t <= v + x * p < p * u
  {
    MulMonotone(t, x, p);
    MulMonotone(x + 1, u, p);
    assert (x + 1) * p == x * p + p;
  }

  predicate Multiple(x: int, p: int)
    requires p != 0
  {
    x % p == 0
  }

  /** The n lowest bits are clear. */
  ghost predicate Clear(s: seq<word>, n: nat) {
    && (forall j :: 0 <= j < n / 32 && j < |s| ==> s[j] == 0)
    && (n / 32 < |s| ==> Multiple(s[n / 32], Pow(2, n % 32)))
  }

  lemma ModHalf(x: nat, p: nat)
    requires p >= 1 && Multiple(x, 2 * p)
    ensures Multiple(x, p) && Multiple(x + p, p)
  {
    var q := x / (2 * p);
    assert x == q * (2 * p);
    DivUnique(x, p, 2 * q, 0);
    DivUnique(x + p, p, 2 * q + 1, 0);
  }

  lemma ClearLess(s: seq<word>, n: nat)
    requires Clear(s, n + 1)
    ensures Clear(s, n)
  {
    hide Pow, Multiple;
    if n / 32 < |s| {
      ClearAt(s, n);
      PowStep(2, n % 32);
      ModHalf(s[n / 32], Pow(2, n % 32));
    }
  }

  lemma ZeroMultiple(p: int)
    requires p > 0
    ensures Multiple(0, p)
  {
  }

  lemma ClearAt(s: seq<word>, shift: nat)
    requires shift < 32 * |s| && Clear(s, shift + 1)
    ensures Multiple(s[shift / 32], Pow(2, shift % 32 + 1))
  {
    hide Pow, Multiple;
    ZeroMultiple(Pow(2, shift % 32 + 1));
    if shift % 32 != 31 {
      assert (shift + 1) % 32 == shift % 32 + 1;
    }
  }

  lemma ClearSet(s: seq<word>, shift: nat, x: word)
    requires shift < 32 * |s| && Clear(s, shift + 1) && Multiple(x, Pow(2, shift % 32))
    ensures Clear(s[shift / 32 := x], shift)
  {
    hide Pow, Multiple;
  }

  lemma OneShifted(r: nat)
    requires r < 32
    ensures WordLeft(1, r) == Pow(2, r) < BASE
  {
    hide Pow;
    PowStep(2, r);
    PowMonotone(2, r + 1, 32);
    Pow32();
    DivUnique(1 * Pow(2, r), BASE, 0, Pow(2, r));
  }

  /** Setting a bit at which, and below which, all is clear. */
  lemma OneMore(x: word, r: nat)
    requires r < 32 && Multiple(x, Pow(2, r + 1))
    ensures Or(x, Pow(2, r)) == x + Pow(2, r) < BASE && Multiple(x + Pow(2, r), Pow(2, r))
  {
    hide Pow, Multiple;
    PowStep(2, r);
    PowAdd(2, r + 1, 32 - (r + 1));
    Pow32();
    RoomAbove(x, Pow(2, r), Pow(2, 32 - (r + 1)));
    ModHalf(x, Pow(2, r));
    OrMultiple(x, Pow(2, r), r + 1);
  }

  ghost function WithBit(s: seq<word>, shift: nat): seq<word>
    requires shift < 32 * |s| && Clear(s, shift + 1)
  {
    ClearAt(s, shift);
    OneMore(s[shift / 32], shift % 32);
    s[shift / 32 := Or(s[shift / 32], Pow(2, shift % 32))]
  }

  lemma BitAdded(s: seq<word>, shift: nat)
    requires shift < 32 * |s| && Clear(s, shift + 1)
    ensures Or(s[shift / 32], Pow(2, shift % 32)) < BASE
    ensures Val(WithBit(s, shift)) == Val(s) + Pow(2, shift) && Clear(WithBit(s, shift), shift)
  {
    hide Pow, Val, Multiple, Clear;
    var w, r := shift / 32, shift % 32;
    ClearAt(s, shift);
    OneMore(s[w], r);
    var x: word := Or(s[w], Pow(2, r));
    ValUpdate(s, w, x);
    ClearSet(s, shift, x);
    PowLimb(w, r);
    assert (x - s[w] as int) == Pow(2, r);
  }

  lemma OrMultiple(x: nat, y: nat, k: nat)
    requires Multiple(x, Pow(2, k)) && y < Pow(2, k)
    ensures Or(x, y) == x + y
  {
    OrDisjoint(x, y, k);
  }

  /** A multiple of 2p below the word size leaves room for p. */
  lemma RoomAbove(x: nat, p: nat, q: nat)
    requires p >= 1 && Multiple(x, 2 * p) && x < BASE && 2 * p * q == BASE
    ensures x + p < BASE
  {
    var d := x / (2 * p);
    assert x == d * (2 * p);
    if d >= q {
      MulMonotone(q, d, 2 * p);
    }
    MulMonotone(d + 1, q, 2 * p);
  }

  lemma NoBorrow(a: int, d: int, width: nat)
    requires 0 <= d <= a < Pow(BASE, width)
    ensures Wrap(a - d, width) == a - d
  {
    hide Pow;
    DivUnique(a - d, Pow(BASE, width), 0, a - d);
  }

  /** What is left of the numerator, and the quotient so far, when the bits above shift are decided. */
  ghost predicate Dividing(num: int, q: int, a: int, b: int, shift: int) {
    shift >= -1 && b > 0 && num + q * b == a && 0 <= num < b * Pow(2, shift + 1)
  }

  lemma Smaller(a: int, b: int, n: nat, d: nat)
    requires n < d && 0 <= a < Pow(2, n) && Pow(2, d - 1) <= b
    ensures a / b == 0
  {
    hide Pow;
    PowMonotone(2, n, d - 1);
    DivUnique(a, b, 0, a);
  }

  lemma DivideStart(a: int, b: int, n: nat, d: nat, q: seq<word>)
    requires 0 < d <= n <= 32 * |q| && 0 <= a < Pow(2, n) && Pow(2, d - 1) <= b < Pow(2, d)
    requires forall i :: 0 <= i < |q| ==> q[i] == 0
    ensures Dividing(a, 0, a, b, n - d) && Clear(q, n - d + 1) && Wrap(b * Pow(2, n - d), |q|) == b * Pow(2, n - d)
  {
    hide Pow, Wrap, Multiple;
    DivideRange(a, b, n, d);
    DivideFits(b, n, d, |q|);
    ZeroMultiple(Pow(2, (n - d + 1) % 32));
  }

  lemma DivideRange(a: int, b: int, n: nat, d: nat)
    requires 0 < d <= n && 0 <= a < Pow(2, n) && Pow(2, d - 1) <= b
    ensures b > 0 && a < b * Pow(2, n - d + 1)
  {
    hide Pow;
    PowAdd(2, d - 1, n - d + 1);
    MulMonotone(Pow(2, d - 1), b, Pow(2, n - d + 1));
  }

  lemma DivideFits(b: int, n: nat, d: nat, width: nat)
    requires 0 < d <= n <= 32 * width && 0 <= b < Pow(2, d)
    ensures Wrap(b * Pow(2, n - d), width) == b * Pow(2, n - d)
  {
    hide Pow;
    PowAdd(2, d, n - d);
    MulMonotone(0, b, Pow(2, n - d));
    Strictly(b, Pow(2, d), Pow(2, n - d));
    PowMonotone(2, n, 32 * width);
    PowLimb(width, 0);
    PowStep(2, 0);
    DivUnique(b * Pow(2, n - d), Pow(BASE, width), 0, b * Pow(2, n - d));
  }

  lemma Strictly(a: int, b: int, c: int)
    requires a < b && c > 0
    ensures a * c < b * c
  {
    MulMonotone(a + 1, b, c);
    assert (a + 1) * c == a * c + c;
  }

  lemma DivideStep(before: int, after: int, q: int, a: int, b: int, shift: nat, taken: bool)
    requires Dividing(before, q - (if taken then Pow(2, shift) else 0), a, b, shift)
    requires taken <==> before >= b * Pow(2, shift)
    requires after == before - if taken then b * Pow(2, shift) else 0
    ensures Dividing(after, q, a, b, shift - 1)
  {
    hide Pow;
    PowStep(2, shift);
    var p := Pow(2, shift);
    assert b * (2 * p) == b * p + b * p;
    assert (q - p) * b == q * b - b * p;
  }

  lemma Halve(b: int, shift: nat)
    requires b >= 0
    ensures shift >= 1 ==> b * Pow(2, shift) / Pow(2, 1) == b * Pow(2, shift - 1)
  {
    if shift >= 1 {
      PowStep(2, shift - 1);
      PowStep(2, 0);
      hide Pow;
      var p := Pow(2, shift - 1);
      assert b * (2 * p) == (b * p) * 2;
    }
  }

  lemma DivideEnd(num: int, q: int, a: int, b: int)
    requires Dividing(num, q, a, b, -1)
    ensures q == a / b
  {
    assert Pow(2, 0) == 1;
    DivUnique(a, b, q, num);
  }
}
