/** The compact form of difficulty targets (SetCompact and GetCompact of src/arith_uint256.cpp). */
module Compact {
  import opened Limbs
  import opened Shifts
  import opened BaseUint

  const SIGN := 0x80_0000
  const WIDTH := 8

  // ---- the format ----

  /** The number of bytes that a number takes. */
  function Bytes(v: nat): nat {
    if v == 0 then 0 else 1 + Bytes(v / 256)
  }

  function Scale(v: nat, p: nat): nat {
    MulMonotone(0, v, p);
    v * p
  }

  function Unscale(v: nat, p: nat): nat
    requires p >= 1
  {
    v / p
  }

  /** The three highest bytes. */
  function Leading(v: nat): nat {
    var k := Bytes(v);
    if k <= 3 then Scale(v, Pow(256, 3 - k)) else Unscale(v, Pow(256, k - 3))
  }

  /** The mantissa keeps clear of the sign bit, at the cost of a byte. */
  function Mantissa(v: nat): nat {
    if Leading(v) < SIGN then Leading(v) else Leading(v) / 256
  }

  function Exponent(v: nat): nat {
    if Leading(v) < SIGN then Bytes(v) else Bytes(v) + 1
  }

  function Encode(v: nat, fNegative: bool): nat {
    Exponent(v) * 0x100_0000 + Mantissa(v) + if fNegative && Mantissa(v) != 0 then SIGN else 0
  }

  /** The magnitude that a compact number stands for, however large. */
  function Magnitude(n: nat): nat {
    var size, mantissa := n / 0x100_0000, n % SIGN;
    if size <= 3 then Unscale(mantissa, Pow(256, 3 - size)) else Scale(mantissa, Pow(256, size - 3))
  }

  predicate Negative(n: nat) {
    n / SIGN % 2 == 1 && Magnitude(n) != 0
  }

  // ---- bytes ----

  lemma {:induction false} BytesRange(v: nat)
    ensures v < Pow(256, Bytes(v)) && (v > 0 ==> Bytes(v) > 0 && Pow(256, Bytes(v) - 1) <= v)
  {
    hide Pow;
    PowStep(256, 0);
    if v > 0 {
      BytesRange(v / 256);
      PowStep(256, Bytes(v / 256));
      if v / 256 > 0 {
        PowStep(256, Bytes(v / 256) - 1);
      }
    }
  }

  lemma BytesUnique(v: nat, k: nat)
    requires v < Pow(256, k) && (k > 0 ==> Pow(256, k - 1) <= v)
    ensures Bytes(v) == k
  {
    hide Pow, Bytes;
    PowStep(256, 0);
    BytesRange(v);
    if Bytes(v) < k {
      PowMonotone(256, Bytes(v), k - 1);
    } else if k < Bytes(v) && v > 0 {
      PowMonotone(256, k, Bytes(v) - 1);
    } else if v == 0 {
      assert Bytes(0) == 0 by {
        NoBytes();
      }
    }
  }

  lemma NoBytes()
    ensures Bytes(0) == 0
  {
  }

  lemma ByteBits(k: nat)
    ensures Pow(256, k) == Pow(2, 8 * k)
  {
    PowMul(2, 8, k);
    assert Pow(2, 8) == 256;
  }

  lemma BitsToBytes(v: nat, n: nat)
    requires (n == 0 <==> v == 0) && (n > 0 ==> Pow(2, n - 1) <= v < Pow(2, n))
    ensures Bytes(v) == (n + 7) / 8
  {
    if n > 0 {
      hide Pow;
      var k := (n + 7) / 8;
      ByteBits(k);
      ByteBits(k - 1);
      PowMonotone(2, 8 * (k - 1), n - 1);
      PowMonotone(2, n, 8 * k);
      BytesUnique(v, k);
    }
  }

  lemma Cubes()
    ensures Pow(256, 0) == 1 && Pow(256, 1) == 256 && Pow(256, 2) == 0x1_0000 && Pow(256, 3) == 0x100_0000
  {
    PowStep(256, 0);
    PowStep(256, 1);
    PowStep(256, 2);
  }

  lemma DivRange(v: nat, p: nat, lo: nat, hi: nat)
    requires p >= 1 && lo * p <= v < hi * p
    ensures lo <= v / p < hi
  {
    assert v == v / p * p + v % p;
    HighBound(v, v / p, v % p, p, hi);
    LowBound(v / p, v % p, p, lo);
  }

  lemma LowBound(h: int, l: int, p: int, lo: int)
    requires 0 <= l < p && lo * p <= h * p + l
    ensures lo <= h
  {
    assert (h + 1) * p == h * p + p;
    if h < lo {
      MulMonotone(h + 1, lo, p);
    }
  }

  lemma LeadingRange(v: nat)
    ensures Leading(v) < 0x100_0000 && (v > 0 ==> 0x1_0000 <= Leading(v)) && (v == 0 ==> Leading(v) == 0)
  {
    if v > 0 {
      hide Pow;
      Cubes();
      BytesRange(v);
      var k := Bytes(v);
      if k <= 3 {
        PowAdd(256, k - 1, 3 - k);
        PowAdd(256, k, 3 - k);
        MulMonotone(Pow(256, k - 1), v, Pow(256, 3 - k));
        Strictly(v, Pow(256, k), Pow(256, 3 - k));
      } else {
        PowAdd(256, 2, k - 3);
        PowAdd(256, 3, k - 3);
        DivRange(v, Pow(256, k - 3), 0x1_0000, 0x100_0000);
      }
    }
  }

  lemma MantissaRange(v: nat)
    ensures Mantissa(v) < SIGN && (v > 0 ==> 0x8000 <= Mantissa(v)) && (v == 0 ==> Mantissa(v) == 0 && Exponent(v) == 0)
  {
    hide Leading;
    LeadingRange(v);
    NoBytes();
  }

  /** A 256-bit number takes at most 32 bytes, so the exponent fits. */
  lemma ExponentFits(v: nat)
    requires v < Pow(BASE, WIDTH)
    ensures Bytes(v) <= 32 && Exponent(v) <= 33
  {
    hide Pow, Bytes, Leading;
    ByteBits(32);
    PowLimb(WIDTH, 0);
    PowStep(2, 0);
    BytesRange(v);
    if Bytes(v) > 32 {
      PowMonotone(256, 32, Bytes(v) - 1);
    }
    NoBytes();
  }

  lemma EncodeParts(v: nat)
    requires v < Pow(BASE, WIDTH)
    ensures var n := Encode(v, false); n / 0x100_0000 == Exponent(v) && n % SIGN == Mantissa(v) && n / SIGN % 2 == 0 && n < BASE
  {
    hide Pow, Mantissa, Exponent;
    MantissaRange(v);
    ExponentFits(v);
  }

  // ---- the round trip ----

  /** Decoding what was encoded drops the low bytes: everything below the exponent. */
  lemma Decoded(v: nat)
    requires v < Pow(BASE, WIDTH)
    ensures var e, w := Exponent(v), Magnitude(Encode(v, false));
            w == if e <= 3 then v else v / Pow(256, e - 3) * Pow(256, e - 3)
  {
    hide Pow, Bytes;
    EncodeParts(v);
    LeadingRange(v);
    var k, l, e := Bytes(v), Leading(v), Exponent(v);
    Cubes();
    if k > 3 {
      if l >= SIGN {
        PowStep(256, k - 3);
        DivTwice(v, Pow(256, k - 3), 256);
      }
    } else if l < SIGN {
      DivUnique(l, Pow(256, 3 - k), v, 0);
    } else if k == 3 {
      assert l == v * 1;
    } else {
      PowStep(256, 2 - k);
      var p := Pow(256, 2 - k);
      assert v * (256 * p) == (v * p) * 256;
      DivUnique(l, 256, v * p, 0);
      DivUnique(v * p, p, v, 0);
    }
  }

  lemma DivTwice(v: nat, p: nat, q: nat)
    requires p >= 1 && q >= 1
    ensures q * p >= 1 && v / p / q == v / (q * p)
  {
    var a, r := v / p, v % p;
    assert v == a * p + r;
    var b, s := a / q, a % q;
    assert a == b * q + s;
    BelowNext(r, s, p, q);
    MulMonotone(0, s, p);
    assert (b * q + s) * p == b * (q * p) + s * p;
    DivUnique(v, q * p, b, s * p + r);
  }

  lemma Rounded(v: nat, p: nat)
    requires p >= 1
    ensures v / p * p <= v && v - v / p * p < p && (v / p * p) / p == v / p
  {
    assert v == v / p * p + v % p;
    DivUnique(v / p * p, p, v / p, 0);
  }

  /**
   * Encoding rounds down, by less than one unit of the last place kept (not at all up to exponent 3),
   * and what comes back has the same code, without sign or overflow.
   */
  lemma RoundTrip(v: nat)
    requires v < Pow(BASE, WIDTH)
    ensures var n := Encode(v, false); var w := Magnitude(n);
            && n < BASE && w <= v && (Exponent(v) <= 3 ==> w == v) && (Exponent(v) > 3 ==> v - w < Pow(256, Exponent(v) - 3))
            && Encode(w, false) == n && !Negative(n) && w < Pow(BASE, WIDTH)
  {
    hide Pow, Encode, Exponent, Magnitude;
    EncodeParts(v);
    Decoded(v);
    if Exponent(v) > 3 {
      Rounded(v, Pow(256, Exponent(v) - 3));
      SameCode(v);
    }
  }

  /** The sign is written exactly for a number that is not zero, and it is all that it changes. */
  lemma SignBack(v: nat, fNegative: bool)
    requires v < Pow(BASE, WIDTH)
    ensures var n := Encode(v, fNegative);
            n < BASE && Magnitude(n) == Magnitude(Encode(v, false)) && (Negative(n) <==> fNegative && v != 0)
  {
    hide Pow, Exponent, Mantissa;
    MantissaRange(v);
    ExponentFits(v);
    EncodeParts(v);
    SignedParts(Exponent(v), Mantissa(v), fNegative && Mantissa(v) != 0);
    Kept15(v);
  }

  lemma SignedParts(e: nat, m: nat, sign: bool)
    requires m < SIGN && e <= 33
    ensures var n := e * 0x100_0000 + m + (if sign then SIGN else 0);
            n / 0x100_0000 == e && n % SIGN == m && (n / SIGN % 2 == 1 <==> sign) && n < BASE
  {
    assert sign ==> (e * 0x100_0000 + m + SIGN) / SIGN == 2 * e + 1;
    assert (e * 0x100_0000 + m) / SIGN == 2 * e;
  }

  /** At least fifteen bits of the number are kept. */
  lemma Kept15(v: nat)
    requires v < Pow(BASE, WIDTH)
    ensures var w := Magnitude(Encode(v, false)); w <= v && 0x8000 * (v - w) <= w && (v == 0 <==> w == 0)
  {
    hide Pow, Encode, Exponent, Mantissa;
    RoundTrip(v);
    EncodeParts(v);
    MantissaRange(v);
    if Exponent(v) > 3 {
      var p := Pow(256, Exponent(v) - 3);
      MulMonotone(0x8000, Mantissa(v), p);
    }
  }

  lemma SameCode(v: nat)
    requires Exponent(v) > 3
    ensures var p := Pow(256, Exponent(v) - 3); Encode(v / p * p, false) == Encode(v, false)
  {
    hide Pow, Bytes;
    var e, k := Exponent(v), Bytes(v);
    var p := Pow(256, e - 3);
    var w := v / p * p;
    LeadingRange(v);
    NoBytes();
    Rounded(v, p);
    SameBytes(v, e - 3);
    Cubes();
    if k > 3 && e == k + 1 {
      PowStep(256, k - 3);
      var q := Pow(256, k - 3);
      DivTwice(v, q, 256);
      DivTwice(w, q, 256);
      assert w == (v / p * 256) * q;
      DivUnique(w, q, v / p * 256, 0);
    } else if k == 3 {
      assert Leading(v) == v * 1 && Leading(w) == w * 1;
    }
  }

  /** Rounding off the low bytes keeps the number of bytes. */
  lemma SameBytes(v: nat, j: nat)
    requires j < Bytes(v)
    ensures var p := Pow(256, j); Bytes(v / p * p) == Bytes(v)
  {
    hide Pow, Bytes;
    var p, k := Pow(256, j), Bytes(v);
    NoBytes();
    BytesRange(v);
    PowAdd(256, k - 1 - j, j);
    Rounded(v, p);
    KeepsBound(v, p, Pow(256, k - 1 - j));
    BytesUnique(v / p * p, k);
  }

  lemma KeepsBound(v: nat, p: nat, q: nat)
    requires p >= 1 && q * p <= v
    ensures q * p <= v / p * p
  {
    assert v == v / p * p + v % p;
    LowBound(v / p, v % p, p, q);
    MulMonotone(q, v / p, p);
  }

  // ---- overflow ----

  /** The flag is set exactly when the magnitude does not fit in 256 bits. */
  lemma OverflowExact(word: nat, size: nat)
    requires word < SIGN && size > 3
    ensures (word != 0 && (size > 34 || (word > 0xff && size > 33) || (word > 0xffff && size > 32)))
            <==> word * Pow(256, size - 3) >= Pow(BASE, WIDTH)
  {
    hide Pow;
    ByteBits(32);
    PowLimb(WIDTH, 0);
    PowStep(2, 0);
    Cubes();
    var e := size - 3;
    if word == 0 {
    } else if e >= 32 {
      PowMonotone(256, 32, e);
      MulMonotone(1, word, Pow(256, e));
    } else {
      PowAdd(256, 32 - e, e);
      var p, q := Pow(256, 32 - e), Pow(256, e);
      if word >= p {
        MulMonotone(p, word, q);
      } else {
        Strictly(word, p, q);
      }
      if e < 30 {
        PowMonotone(256, 3, 32 - e);
      }
    }
  }

  lemma SmallMagnitude(word: nat, size: nat)
    requires word < SIGN && size <= 3
    ensures word / Pow(256, 3 - size) <= word < Pow(BASE, WIDTH)
  {
    hide Pow;
    PowMonotone(BASE, 1, WIDTH);
    PowStep(BASE, 0);
    MulMonotone(1, Pow(256, 3 - size), word / Pow(256, 3 - size));
    assert word == word / Pow(256, 3 - size) * Pow(256, 3 - size) + word % Pow(256, 3 - size);
  }

  // ---- the two operations ----

  /** SetCompact: the value modulo 2^256, and the two flags */
  method SetCompact(r: Number, nCompact: word) returns (fNegative: bool, fOverflow: bool)
    requires r.pn.Length == WIDTH
    modifies r.pn
    ensures r.Value() == Wrap(Magnitude(nCompact), WIDTH)
    ensures fOverflow <==> Magnitude(nCompact) >= Pow(BASE, WIDTH)
    ensures !fOverflow ==> r.Value() == Magnitude(nCompact)
    ensures fNegative <==> Negative(nCompact)
  {
    hide Val, Pow, Magnitude, Number.Value;
    var nSize := nCompact / 0x100_0000;
    var nWord: nat := nCompact % SIGN;
    MagnitudeIs(nCompact);
    if nSize <= 3 {
      nWord := nWord / Pow(2, 8 * (3 - nSize));
      r.SetLow(nWord);
    } else {
      r.SetLow(nWord);
      r.ShiftLeft(8 * (nSize - 3));
    }
    fNegative := nWord != 0 && nCompact / SIGN % 2 != 0;
    fOverflow := nWord != 0 && (nSize > 34 || (nWord > 0xff && nSize > 33) || (nWord > 0xffff && nSize > 32));
  }

  /** The magnitude in terms of shifts, when it overflows, and when it is zero. */
  lemma MagnitudeIs(n: nat)
    ensures var size, m := n / 0x100_0000, n % SIGN;
            && Wrap(Magnitude(n), WIDTH) >= 0 && (Magnitude(n) < Pow(BASE, WIDTH) ==> Wrap(Magnitude(n), WIDTH) == Magnitude(n))
            && (size <= 3 ==>
                  && Magnitude(n) == m / Pow(2, 8 * (3 - size)) && 0 <= m / Pow(2, 8 * (3 - size)) < 0x1_0000_0000_0000_0000
                  && Magnitude(n) < Pow(BASE, WIDTH))
            && (size > 3 ==>
                  && Magnitude(n) == m * Pow(2, 8 * (size - 3)) && (Magnitude(n) == 0 <==> m == 0)
                  && (Magnitude(n) >= Pow(BASE, WIDTH) <==>
                      m != 0 && (size > 34 || (m > 0xff && size > 33) || (m > 0xffff && size > 32))))
  {
    hide Pow;
    var size, m := n / 0x100_0000, n % SIGN;
    if Magnitude(n) < Pow(BASE, WIDTH) {
      NoBorrow(Magnitude(n), 0, WIDTH);
    }
    if size <= 3 {
      SmallMagnitude(m, size);
      ByteBits(3 - size);
    } else {
      ByteBits(size - 3);
      OverflowExact(m, size);
      ProductZero(m, Pow(256, size - 3));
    }
  }

  lemma ProductZero(a: nat, p: nat)
    requires p >= 1
    ensures a * p == 0 <==> a == 0
  {
    MulMonotone(1, p, a);
  }

  /** GetLow64 */
  method Low64(x: Number) returns (n: dword)
    requires x.pn.Length >= 2
    ensures n == x.Value() % 0x1_0000_0000_0000_0000
  {
    hide Val, Pow;
    n := x.pn[0] + x.pn[1] as dword * BASE;
    LowLimbs(x.pn[..]);
  }

  lemma LowLimbs(s: seq<word>)
    requires |s| >= 2
    ensures Val(s) % 0x1_0000_0000_0000_0000 == s[0] + s[1] as int * BASE
  {
    hide Val, Pow;
    ValSplit(s, 2);
    TwoLimbs(s[..2]);
    PowStep(BASE, 0);
    PowStep(BASE, 1);
    ModUnique(Val(s[..2]), Val(s), Val(s[2..]), 0x1_0000_0000_0000_0000);
  }

  /** The mantissa before the sign bit is looked at. */
  method LeadingBytes(x: Number, nSize: nat) returns (nCompact: word)
    requires x.pn.Length == WIDTH && nSize == Bytes(x.Value())
    ensures nCompact == Leading(x.Value())
  {
    hide Val, Pow, Bytes, Truncate, Number.Value;
    ghost var v := x.Value();
    LeadingRange(v);
    if nSize <= 3 {
      var low := Low64(x);
      ByteBits(3 - nSize);
      SmallLow(v, nSize);
      TruncateSmall(v);
      TruncateSmall(v * Pow(256, 3 - nSize));
      nCompact := Truncate(low * Pow(2, 8 * (3 - nSize)));
    } else {
      var bn := new Number.Copy(x);
      SameNumber(bn, x);
      bn.ShiftRight(8 * (nSize - 3));
      ByteBits(nSize - 3);
      TruncateSmall(bn.Value());
      var low := Low64(bn);
      nCompact := Truncate(low);
    }
  }

  /** A 64-bit result stored in 32 bits. */
  function Truncate(x: nat): word {
    x % 0x1_0000_0000_0000_0000 % BASE
  }

  lemma TruncateSmall(x: nat)
    requires x < BASE
    ensures Truncate(x) == x && x % 0x1_0000_0000_0000_0000 == x
  {
  }

  lemma SameNumber(x: Number, y: Number)
    requires x.pn[..] == y.pn[..]
    ensures x.Value() == y.Value()
  {
  }

  /** GetCompact; both of its assertions hold */
  method GetCompact(x: Number, fNegative: bool) returns (nCompact: word)
    requires x.pn.Length == WIDTH
    ensures nCompact == Encode(x.Value(), fNegative)
  {
    hide Val, Pow, Bytes, Leading, Or;
    ghost var v := x.Value();
    ValBound(x.pn[..]);
    LeadingRange(v);
    MantissaRange(v);
    ExponentFits(v);
    var bits := x.Bits();
    BitsToBytes(v, bits);
    var nSize := (bits + 7) / 8;
    nCompact := LeadingBytes(x, nSize);
    if nCompact / SIGN % 2 != 0 {
      nCompact := nCompact / 256;
      nSize := nSize + 1;
    }
    assert nCompact < SIGN;
    assert nSize < 256;
    nCompact := Assemble(nCompact, nSize, fNegative);
  }

  /** The size and the sign are put in. */
  method Assemble(mantissa: word, nSize: nat, fNegative: bool) returns (nCompact: word)
    requires mantissa < SIGN && nSize < 256
    ensures nCompact == nSize * 0x100_0000 + mantissa + if fNegative && mantissa != 0 then SIGN else 0
  {
    hide Or;
    Assembled(mantissa, nSize);
    nCompact := Or(mantissa, nSize * 0x100_0000);
    if fNegative && nCompact % SIGN != 0 {
      nCompact := Or(nCompact, SIGN);
    }
  }

  lemma SmallLow(v: nat, k: nat)
    requires k == Bytes(v) <= 3
    ensures v < 0x100_0000 && v * Pow(256, 3 - k) < 0x100_0000
  {
    LeadingRange(v);
    hide Pow, Bytes;
    MulMonotone(1, Pow(256, 3 - k), v);
  }

  /** The mantissa, the size and the sign bit do not overlap. */
  lemma Assembled(m: nat, size: nat)
    requires m < SIGN && size < 256
    ensures Or(m, size * 0x100_0000) == m + size * 0x100_0000 < BASE
    ensures Or(m + size * 0x100_0000, SIGN) == m + size * 0x100_0000 + SIGN < BASE
  {
    hide Pow, Or;
    Pow23();
    assert (size * 0x100_0000) % 0x100_0000 == 0;
    OrDisjoint(size * 0x100_0000, m, 24);
    DivUnique(m + size * 0x100_0000, SIGN, 2 * size, m);
    OrBit(m + size * 0x100_0000, 23);
  }

  lemma Pow23()
    ensures Pow(2, 23) == SIGN && Pow(2, 24) == 0x100_0000
  {
    ByteBits(3);
    Cubes();
    PowStep(2, 23);
  }

  /** Setting a bit that is clear adds it. */
  lemma {:induction false} OrBit(x: nat, k: nat)
    requires x / Pow(2, k) % 2 == 0
    ensures Or(x, Pow(2, k)) == x + Pow(2, k)
  {
    if x > 0 && k > 0 {
      PowStep(2, k - 1);
      DivTwice(x, 2, Pow(2, k - 1));
      OrBit(x / 2, k - 1);
    }
  }

  /** A target survives GetCompact and SetCompact up to rounding, and rounding is idempotent. */
  method Requantize(x: Number) returns (nCompact: word, fNegative: bool, fOverflow: bool)
    requires x.pn.Length == WIDTH
    modifies x.pn
    ensures !fNegative && !fOverflow && nCompact == Encode(old(x.Value()), false) == Encode(x.Value(), false)
    ensures x.Value() <= old(x.Value())
    ensures var e := Exponent(old(x.Value())); if e <= 3 then x.Value() == old(x.Value()) else old(x.Value()) - x.Value() < Pow(256, e - 3)
  {
    hide Val, Pow, Encode, Magnitude, Exponent;
    ValBound(x.pn[..]);
    RoundTrip(x.Value());
    nCompact := GetCompact(x, false);
    fNegative, fOverflow := SetCompact(x, nCompact);
  }
}
