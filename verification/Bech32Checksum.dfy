/** The checksum of Bech32 (src/bech32.cpp; section "Checksum" of BIP 173). */
module Bech32Checksum {

  /** A list of bytes; in a Bech32 string each is below 32. */
  type data = seq<bv8>

  // ---- one step of PolyMod ----

  function Xor(a: bv32, b: bv32): bv32 {
    a ^ b
  }

  predicate Bit(c0: bv32, n: nat) {
    match n
    case 0 => c0 & 1 != 0
    case 1 => c0 & 2 != 0
    case 2 => c0 & 4 != 0
    case 3 => c0 & 8 != 0
    case _ => c0 & 16 != 0
  }

  /** if (c0 & (1 << n)) c ^= k */
  function Add(c: bv32, c0: bv32, n: nat, k: bv32): bv32 {
    if Bit(c0, n) then Xor(c, k) else c
  }

  function Head(c: bv32, v: bv8): bv32 {
    ((c & 0x1ff_ffff) << 5) ^ (v as bv32)
  }

  /** The polynomial times x, plus the next coefficient, modulo the generator. */
  function Step(c: bv32, v: bv8): bv32 {
    var c0 := c >> 25;
    Add(Add(Add(Add(Add(Head(c, v), c0, 0, 0x3b6a_57b2), c0, 1, 0x2650_8e6d), c0, 2, 0x1ea1_19fa), c0, 3, 0x3d42_33dd), c0, 4, 0x2a14_62b3)
  }

  function Feed(c: bv32, v: data): bv32
    decreases |v|
  {
    if v == [] then c else Feed(Step(c, v[0]), v[1..])
  }

  method PolyMod(v: data) returns (c: bv32)
    ensures c == Feed(1, v)
  {
    hide Head, Add;
    c := 1;
    assert v[0..] == v;
    for i := 0 to |v|
      invariant Feed(1, v) == Feed(c, v[i..])
    {
      assert v[i..][0] == v[i] && v[i..][1..] == v[i + 1..];
      var c0 := c >> 25;
      c := Head(c, v[i]);
      c := Add(c, c0, 0, 0x3b6a_57b2);
      c := Add(c, c0, 1, 0x2650_8e6d);
      c := Add(c, c0, 2, 0x1ea1_19fa);
      c := Add(c, c0, 3, 0x3d42_33dd);
      c := Add(c, c0, 4, 0x2a14_62b3);
    }
  }

  // ---- it is linear ----

  lemma Cancel(k: bv32)
    ensures Xor(k, k) == 0 && Xor(k, 0) == k && Xor(0, k) == k
  {
  }

  lemma BitXor(a: bv32, b: bv32, n: nat)
    ensures Bit(Xor(a, b), n) <==> Bit(a, n) != Bit(b, n)
  {
  }

  lemma Associative(a: bv32, b: bv32, c: bv32)
    ensures Xor(Xor(a, b), c) == Xor(a, Xor(b, c))
  {
  }

  lemma Commutative(a: bv32, b: bv32)
    ensures Xor(a, b) == Xor(b, a)
  {
  }

  lemma AddCases(a: bv32, b: bv32, k: bv32)
    ensures Xor(Xor(a, k), b) == Xor(Xor(a, b), k) && Xor(a, Xor(b, k)) == Xor(Xor(a, b), k)
    ensures Xor(Xor(a, k), Xor(b, k)) == Xor(a, b)
  {
    hide Xor;
    Associative(a, k, b);
    Commutative(k, b);
    Associative(a, b, k);
    Associative(Xor(a, k), b, k);
    Associative(Xor(a, b), k, k);
    Cancel(k);
    Cancel(Xor(a, b));
  }

  lemma AddXor(a: bv32, b: bv32, x: bv32, y: bv32, n: nat, k: bv32)
    ensures Xor(Add(a, x, n, k), Add(b, y, n, k)) == Add(Xor(a, b), Xor(x, y), n, k)
  {
    hide Xor, Bit;
    BitXor(x, y, n);
    AddCases(a, b, k);
  }

  lemma HeadXor(c: bv32, d: bv32, v: bv8, w: bv8)
    ensures Xor(Head(c, v), Head(d, w)) == Head(Xor(c, d), v ^ w)
    ensures Xor(c >> 25, d >> 25) == Xor(c, d) >> 25
  {
  }

  lemma StepXor(c: bv32, d: bv32, v: bv8, w: bv8)
    ensures Xor(Step(c, v), Step(d, w)) == Step(Xor(c, d), v ^ w)
  {
    hide Head, Add, Xor;
    HeadXor(c, d, v, w);
    var x, y := c >> 25, d >> 25;
    var a0, b0 := Head(c, v), Head(d, w);
    AddXor(a0, b0, x, y, 0, 0x3b6a_57b2);
    var a1, b1 := Add(a0, x, 0, 0x3b6a_57b2), Add(b0, y, 0, 0x3b6a_57b2);
    AddXor(a1, b1, x, y, 1, 0x2650_8e6d);
    var a2, b2 := Add(a1, x, 1, 0x2650_8e6d), Add(b1, y, 1, 0x2650_8e6d);
    AddXor(a2, b2, x, y, 2, 0x1ea1_19fa);
    var a3, b3 := Add(a2, x, 2, 0x1ea1_19fa), Add(b2, y, 2, 0x1ea1_19fa);
    AddXor(a3, b3, x, y, 3, 0x3d42_33dd);
    var a4, b4 := Add(a3, x, 3, 0x3d42_33dd), Add(b3, y, 3, 0x3d42_33dd);
    AddXor(a4, b4, x, y, 4, 0x2a14_62b3);
  }

  /** The symbol-wise difference of two lists. */
  function Difference(u: data, w: data): (d: data)
    requires |u| == |w|
    ensures |d| == |u| && forall i :: 0 <= i < |u| ==> d[i] == u[i] ^ w[i]
  {
    seq(|u|, i requires 0 <= i < |u| => u[i] ^ w[i])
  }

  lemma {:induction false} FeedXor(c: bv32, d: bv32, u: data, w: data)
    requires |u| == |w|
    ensures Xor(Feed(c, u), Feed(d, w)) == Feed(Xor(c, d), Difference(u, w))
    decreases |u|
  {
    hide Step, Xor;
    if u != [] {
      StepXor(c, d, u[0], w[0]);
      FeedXor(Step(c, u[0]), Step(d, w[0]), u[1..], w[1..]);
      assert Difference(u, w)[1..] == Difference(u[1..], w[1..]);
    }
  }

  lemma {:induction false} FeedAppend(c: bv32, u: data, w: data)
    ensures Feed(c, u + w) == Feed(Feed(c, u), w)
    decreases |u|
  {
    hide Step;
    if u == [] {
      assert u + w == w;
    } else {
      FeedAppend(Step(c, u[0]), u[1..], w);
      assert (u + w)[1..] == u[1..] + w;
    }
  }

  // ---- it is injective ----

  lemma StepBound(c: bv32, v: bv8)
    ensures Step(c, v) < 0x4000_0000
  {
  }

  /** Multiplication by x is invertible: only zero goes to zero. */
  lemma StepInjective(c: bv32)
    requires c < 0x4000_0000
    ensures Step(c, 0) == 0 <==> c == 0
  {
  }

  lemma {:induction false} ZerosInjective(c: bv32, z: data)
    requires c < 0x4000_0000 && forall i :: 0 <= i < |z| ==> z[i] == 0
    ensures Feed(c, z) == 0 <==> c == 0
    decreases |z|
  {
    hide Step;
    if z != [] {
      StepInjective(c);
      StepBound(c, 0);
      ZerosInjective(Step(c, 0), z[1..]);
    }
  }

  /** The number of values that n symbols can make. */
  function Limit(n: nat): bv32 {
    match n
    case 0 => 1
    case 1 => 0x20
    case 2 => 0x400
    case 3 => 0x8000
    case 4 => 0x10_0000
    case 5 => 0x200_0000
    case _ => 0x4000_0000
  }

  /** While there is room, a step only shifts. */
  lemma StepShifts(c: bv32, v: bv8)
    requires c < 0x200_0000
    ensures Step(c, v) == (c << 5) ^ (v as bv32)
  {
  }

  lemma StepSmall(c: bv32, v: bv8, n: nat)
    requires n < 6 && c < Limit(n) && v < 32
    ensures Step(c, v) < Limit(n + 1)
    ensures Step(c, v) == 0 <==> c == 0 && v == 0
  {
    hide Step;
    StepShifts(c, v);
  }

  /** Up to six symbols are packed without loss. */
  lemma {:induction false} PackNonZero(c: bv32, n: nat, d: data)
    requires n + |d| <= 6 && c < Limit(n) && forall i :: 0 <= i < |d| ==> d[i] < 32
    ensures Feed(c, d) < 0x4000_0000
    ensures Feed(c, d) == 0 <==> c == 0 && forall i :: 0 <= i < |d| ==> d[i] == 0
    decreases |d|
  {
    hide Step, Limit;
    LimitTop(c, n);
    if d != [] {
      StepSmall(c, d[0], n);
      PackNonZero(Step(c, d[0]), n + 1, d[1..]);
      assert (forall i :: 0 <= i < |d| ==> d[i] == 0) <==> d[0] == 0 && forall i :: 0 <= i < |d[1..]| ==> d[1..][i] == 0;
    }
  }

  lemma LimitTop(c: bv32, n: nat)
    requires c < Limit(n)
    ensures c < 0x4000_0000
  {
  }

  // ---- error detection ----

  /** The lists differ, but only at positions from first up to six symbols on. */
  ghost predicate BurstError(u: data, w: data, first: nat) {
    && |u| == |w| && u != w
    && (forall i :: 0 <= i < |u| ==> u[i] < 32 && w[i] < 32)
    && (forall i :: 0 <= i < |u| && (i < first || first + 6 <= i) ==> u[i] == w[i])
  }

  lemma XorSmall(v: bv8, w: bv8)
    ensures (v ^ w == 0 <==> v == w) && (v < 32 && w < 32 ==> v ^ w < 32)
  {
  }

  lemma XorEqual(a: bv32, b: bv32)
    ensures Xor(a, b) == 0 <==> a == b
  {
  }

  lemma {:induction false} ZerosNothing(z: data)
    requires forall i :: 0 <= i < |z| ==> z[i] == 0
    ensures Feed(0, z) == 0
    decreases |z|
  {
    ZerosInjective(0, z);
  }

  /** Lists that differ in a burst lead to different remainders, whatever surrounds them and however long they are. */
  lemma BurstDetected(c: bv32, u: data, w: data, first: nat)
    requires BurstError(u, w, first)
    ensures Feed(c, u) != Feed(c, w)
  {
    hide Feed, Xor, Step;
    var d := Difference(u, w);
    FeedXor(c, c, u, w);
    Cancel(c);
    BurstDifference(u, w, first);
    XorEqual(Feed(c, u), Feed(c, w));
  }

  lemma BurstDifference(u: data, w: data, first: nat)
    requires BurstError(u, w, first)
    ensures Feed(0, Difference(u, w)) != 0
  {
    hide Feed, Step;
    var d, n := Difference(u, w), |u|;
    DifferenceSymbols(u, w);
    assert first < n by {
      assert forall i :: 0 <= i < n && i < first ==> u[i] == w[i];
    }
    var end := if first + 6 < n then first + 6 else n;
    Surrounded(d, first, end);
    var b := d[first..end];
    assert !(forall i :: 0 <= i < |b| ==> b[i] == 0) by {
      var k :| 0 <= k < n && u[k] != w[k];
      assert d[k] == b[k - first];
    }
    PackNonZero(0, 0, b);
    ZerosInjective(Feed(0, b), d[end..]);
  }

  lemma DifferenceSymbols(u: data, w: data)
    requires |u| == |w|
    ensures forall i :: 0 <= i < |u| ==> (Difference(u, w)[i] == 0 <==> u[i] == w[i])
    ensures forall i :: 0 <= i < |u| && u[i] < 32 && w[i] < 32 ==> Difference(u, w)[i] < 32
  {
    forall i | 0 <= i < |u|
      ensures Difference(u, w)[i] == 0 <==> u[i] == w[i]
      ensures u[i] < 32 && w[i] < 32 ==> Difference(u, w)[i] < 32
    {
      XorSmall(u[i], w[i]);
    }
  }

  /** Zeros before a stretch of symbols do not matter. */
  lemma Surrounded(d: data, first: nat, end: nat)
    requires first <= end <= |d| && forall i :: 0 <= i < first ==> d[i] == 0
    ensures Feed(0, d) == Feed(Feed(0, d[first..end]), d[end..])
  {
    hide Feed, Step;
    var a, b, z := d[..first], d[first..end], d[end..];
    assert d == a + (b + z);
    FeedAppend(0, a, b + z);
    FeedAppend(0, b, z);
    ZerosNothing(a);
  }

  lemma XorBound(c: bv32, d: bv32)
    requires c < 0x4000_0000 && d < 0x4000_0000
    ensures Xor(c, d) < 0x4000_0000
  {
  }

  /** What follows cannot make up for a difference. */
  lemma FeedApart(c: bv32, d: bv32, v: data)
    requires c < 0x4000_0000 && d < 0x4000_0000 && c != d
    ensures Feed(c, v) != Feed(d, v)
  {
    hide Feed, Xor, Step;
    FeedXor(c, d, v, v);
    DifferenceSymbols(v, v);
    XorBound(c, d);
    XorEqual(c, d);
    XorEqual(Feed(c, v), Feed(d, v));
    ZerosInjective(Xor(c, d), Difference(v, v));
  }

  // ---- the step as division of polynomials over GF(32) ----

  /** Multiplication by a, modulo a^5 + a^3 + 1. */
  function TimesA(x: bv32): bv32 {
    if x & 16 != 0 then (x << 1) ^ 0x29 else x << 1
  }

  /** The product of two field elements. */
  function Product(x: bv32, y: bv32): bv32 {
    var x2, x4 := TimesA(x), TimesA(TimesA(x));
    var x8, x16 := TimesA(x4), TimesA(TimesA(x4));
    Xor(Xor(Xor(Xor(If(Bit(y, 0), x), If(Bit(y, 1), x2)), If(Bit(y, 2), x4)), If(Bit(y, 3), x8)), If(Bit(y, 4), x16))
  }

  /** A field element, or zero. */
  function If(b: bool, x: bv32): bv32 {
    if b then x else 0
  }

  /** The coefficients of the generator x^6 + {29}x^5 + {22}x^4 + {20}x^3 + {21}x^2 + {29}x + {18}. */
  function Generator(k: nat): bv32 {
    match k
    case 0 => 18
    case 1 => 29
    case 2 => 21
    case 3 => 20
    case 4 => 22
    case _ => 29
  }

  /** The coefficient of x^k in a remainder. */
  function Coefficient(c: bv32, k: nat): bv32 {
    match k
    case 0 => c & 31
    case 1 => (c >> 5) & 31
    case 2 => (c >> 10) & 31
    case 3 => (c >> 15) & 31
    case 4 => (c >> 20) & 31
    case _ => (c >> 25) & 31
  }

  /** The field has the product that the source gives as its example. */
  lemma ProductExample()
    ensures Product(5, 26) == 9
  {
  }

  lemma Xor0(c: bv32, d: bv32)
    ensures ((c ^ d) & 31) == (c & 31) ^ (d & 31)
  {
  }

  lemma Xor1(c: bv32, d: bv32)
    ensures (((c ^ d) >> 5) & 31) == ((c >> 5) & 31) ^ ((d >> 5) & 31)
  {
  }

  lemma Xor2(c: bv32, d: bv32)
    ensures (((c ^ d) >> 10) & 31) == ((c >> 10) & 31) ^ ((d >> 10) & 31)
  {
  }

  lemma Xor3(c: bv32, d: bv32)
    ensures (((c ^ d) >> 15) & 31) == ((c >> 15) & 31) ^ ((d >> 15) & 31)
  {
  }

  lemma Xor4(c: bv32, d: bv32)
    ensures (((c ^ d) >> 20) & 31) == ((c >> 20) & 31) ^ ((d >> 20) & 31)
  {
  }

  lemma Xor5(c: bv32, d: bv32)
    ensures (((c ^ d) >> 25) & 31) == ((c >> 25) & 31) ^ ((d >> 25) & 31)
  {
  }

  lemma CoefficientXor(c: bv32, d: bv32, k: nat)
    ensures Coefficient(Xor(c, d), k) == Xor(Coefficient(c, k), Coefficient(d, k))
  {
    match k
    case 0 => Xor0(c, d);
    case 1 => Xor1(c, d);
    case 2 => Xor2(c, d);
    case 3 => Xor3(c, d);
    case 4 => Xor4(c, d);
    case _ => Xor5(c, d);
  }

  lemma HeadCoefficient(c: bv32, v: bv8, k: nat)
    requires c < 0x4000_0000 && v < 32 && k < 6
    ensures Coefficient(Head(c, v), k) == if k == 0 then v as bv32 else Coefficient(c, k - 1)
  {
    match k
    case 0 => Head0(c, v);
    case 1 => Head1(c, v);
    case 2 => Head2(c, v);
    case 3 => Head3(c, v);
    case 4 => Head4(c, v);
    case 5 => Head5(c, v);
  }

  lemma Head0(c: bv32, v: bv8)
    requires v < 32
    ensures Head(c, v) & 31 == v as bv32
  {
  }

  lemma Head1(c: bv32, v: bv8)
    requires v < 32
    ensures (Head(c, v) >> 5) & 31 == c & 31
  {
  }

  lemma Head2(c: bv32, v: bv8)
    requires v < 32
    ensures (Head(c, v) >> 10) & 31 == (c >> 5) & 31
  {
  }

  lemma Head3(c: bv32, v: bv8)
    requires v < 32
    ensures (Head(c, v) >> 15) & 31 == (c >> 10) & 31
  {
  }

  lemma Head4(c: bv32, v: bv8)
    requires v < 32
    ensures (Head(c, v) >> 20) & 31 == (c >> 15) & 31
  {
  }

  lemma Head5(c: bv32, v: bv8)
    requires v < 32
    ensures (Head(c, v) >> 25) & 31 == (c >> 20) & 31
  {
  }

  lemma AddCoefficient(c: bv32, c0: bv32, n: nat, g: bv32, k: nat)
    ensures Coefficient(Add(c, c0, n, g), k) == Xor(Coefficient(c, k), If(Bit(c0, n), Coefficient(g, k)))
  {
    CoefficientXor(c, g, k);
    hide Coefficient;
    XorNothing(Coefficient(c, k));
  }

  lemma XorNothing(x: bv32)
    ensures Xor(x, 0) == x
  {
  }

  /** The constants of the source are the multiples of the generator by the powers of a. */
  lemma Multiples(k: nat)
    requires k < 6
    ensures var g := Generator(k);
            && Coefficient(0x3b6a_57b2, k) == g && Coefficient(0x2650_8e6d, k) == TimesA(g) && Coefficient(0x1ea1_19fa, k) == TimesA(TimesA(g))
            && Coefficient(0x3d42_33dd, k) == TimesA(TimesA(TimesA(g))) && Coefficient(0x2a14_62b3, k) == TimesA(TimesA(TimesA(TimesA(g))))
  {
  }

  lemma ProductIs(g: bv32, c0: bv32, h: bv32)
    ensures Xor(Xor(Xor(Xor(Xor(h, If(Bit(c0, 0), g)), If(Bit(c0, 1), TimesA(g))), If(Bit(c0, 2), TimesA(TimesA(g)))),
                    If(Bit(c0, 3), TimesA(TimesA(TimesA(g))))), If(Bit(c0, 4), TimesA(TimesA(TimesA(TimesA(g))))))
         == Xor(h, Product(g, c0))
  {
    hide TimesA, Xor, Bit, If;
    var x4 := TimesA(TimesA(g));
    Regroup(h, If(Bit(c0, 0), g), If(Bit(c0, 1), TimesA(g)), If(Bit(c0, 2), x4), If(Bit(c0, 3), TimesA(x4)), If(Bit(c0, 4), TimesA(TimesA(x4))));
  }

  lemma Regroup(h: bv32, a: bv32, b: bv32, c: bv32, d: bv32, e: bv32)
    ensures Xor(Xor(Xor(Xor(Xor(h, a), b), c), d), e) == Xor(h, Xor(Xor(Xor(Xor(a, b), c), d), e))
  {
    Associative(h, a, b);
    Associative(h, Xor(a, b), c);
    Associative(h, Xor(Xor(a, b), c), d);
    Associative(h, Xor(Xor(Xor(a, b), c), d), e);
    hide Xor;
  }

  lemma Leading(c: bv32)
    requires c < 0x4000_0000
    ensures c >> 25 == Coefficient(c, 5)
  {
  }

  /** One step multiplies by x, adds the symbol, and subtracts the generator times what was the leading coefficient. */
  lemma StepDivides(c: bv32, v: bv8, k: nat)
    requires c < 0x4000_0000 && v < 32 && k < 6
    ensures Coefficient(Step(c, v), k) == Xor(if k == 0 then v as bv32 else Coefficient(c, k - 1), Product(Generator(k), Coefficient(c, 5)))
  {
    Leading(c);
    HeadCoefficient(c, v, k);
    Multiples(k);
    hide Coefficient, Product, Generator, TimesA, Xor, Bit, Head, Add, If;
    var c0, h := c >> 25, Head(c, v);
    var h1 := Add(h, c0, 0, 0x3b6a_57b2);
    var h2 := Add(h1, c0, 1, 0x2650_8e6d);
    var h3 := Add(h2, c0, 2, 0x1ea1_19fa);
    var h4 := Add(h3, c0, 3, 0x3d42_33dd);
    AddCoefficient(h, c0, 0, 0x3b6a_57b2, k);
    AddCoefficient(h1, c0, 1, 0x2650_8e6d, k);
    AddCoefficient(h2, c0, 2, 0x1ea1_19fa, k);
    AddCoefficient(h3, c0, 3, 0x3d42_33dd, k);
    AddCoefficient(h4, c0, 4, 0x2a14_62b3, k);
    ProductIs(Generator(k), c0, Coefficient(h, k));
  }
}
