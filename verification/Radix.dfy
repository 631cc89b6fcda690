/** Big-endian digits in any base, and how many digits another base needs. */
module Radix {
  import opened Limbs

  ghost predicate Digits(b: nat, s: seq<nat>) {
    forall i :: 0 <= i < |s| ==> s[i] < b
  }

  /** The number that digits stand for. */
  function Num(b: nat, s: seq<nat>): nat {
    if s == [] then 0 else Num(b, s[..|s| - 1]) * b + s[|s| - 1]
  }

  /** The digits of a number, without leading zeros. */
  function Repr(b: nat, v: nat): seq<nat>
    requires b >= 2
  {
    if v == 0 then [] else Repr(b, v / b) + [v % b]
  }

  /** The digits after the leading zeros. */
  function Strip(s: seq<nat>): seq<nat> {
    if s != [] && s[0] == 0 then Strip(s[1..]) else s
  }

  function Zeros(s: seq<nat>): (n: nat)
    ensures n <= |s| && s[n..] == Strip(s) && (forall i :: 0 <= i < n ==> s[i] == 0)
  {
    if s != [] && s[0] == 0 then
      assert s[1..][Zeros(s[1..])..] == s[1 + Zeros(s[1..])..];
      1 + Zeros(s[1..])
    else 0
  }

  function Repeat(n: nat): (s: seq<nat>)
    ensures |s| == n && forall i :: 0 <= i < n ==> s[i] == 0
  {
    seq(n, _ => 0)
  }

  /** The other base, with one zero digit for each leading zero. */
  function Recode(a: nat, b: nat, s: seq<nat>): seq<nat>
    requires b >= 2
  {
    Repeat(Zeros(s)) + Repr(b, Num(a, Strip(s)))
  }

  // ---- digits and numbers ----

  lemma {:induction false} NumBound(b: nat, s: seq<nat>)
    requires Digits(b, s)
    ensures Num(b, s) < Pow(b, |s|) || (b == 0 && s != [])
  {
    hide Pow;
    PowStep(b, 0);
    if s != [] && b > 0 {
      var p := s[..|s| - 1];
      NumBound(b, p);
      PowStep(b, |p|);
      NextBelow(Num(b, p), s[|p|], b, Pow(b, |p|));
    }
  }

  lemma NextBelow(v: int, d: int, b: int, p: int)
    requires 0 <= v < p && 0 <= d < b
    ensures v * b + d < b * p
  {
    MulMonotone(v + 1, p, b);
    assert (v + 1) * b == v * b + b;
  }

  lemma {:induction false} ReprDigits(b: nat, v: nat)
    requires b >= 2
    ensures Digits(b, Repr(b, v)) && Num(b, Repr(b, v)) == v && Strip(Repr(b, v)) == Repr(b, v)
  {
    if v != 0 {
      ReprDigits(b, v / b);
      var p, d := Repr(b, v / b), v % b;
      DivMod(v, b);
      hide Repr, Strip;
      assert (p + [d])[..|p|] == p;
      NotStripped(b, p, d, v);
    }
  }

  lemma DivMod(v: nat, b: nat)
    requires b >= 2
    ensures v / b * b + v % b == v && v % b < b && (v != 0 ==> v / b != 0 || v % b != 0)
    ensures v != 0 ==> Repr(b, v) == Repr(b, v / b) + [v % b]
    ensures Repr(b, 0) == []
  {
  }

  lemma NotStripped(b: nat, p: seq<nat>, d: nat, v: nat)
    requires b >= 2 && Strip(p) == p && (p == [] ==> d != 0 || v == 0)
    requires v != 0 && p == Repr(b, v / b) && d == v % b
    ensures Strip(p + [d]) == p + [d]
  {
    StripSnoc(p, d);
  }

  lemma DivDigit(n: nat, b: nat, d: nat)
    requires b >= 2 && d < b
    ensures (n * b + d) / b == n && (n * b + d) % b == d
  {
    DivUnique(n * b + d, b, n, d);
  }

  /** Numbers determine their digits up to leading zeros. */
  lemma {:induction false} StripRepr(b: nat, s: seq<nat>)
    requires b >= 2 && Digits(b, s)
    ensures Strip(s) == Repr(b, Num(b, s))
  {
    if s != [] {
      var p, d := s[..|s| - 1], s[|s| - 1];
      StripRepr(b, p);
      DivDigit(Num(b, p), b, d);
      StripSnoc(p, d);
      assert s == p + [d];
      if Num(b, s) == 0 {
        NumZero(b, p, d);
      } else {
        ReprSnoc(b, p, d);
      }
    }
  }

  lemma NumZero(b: nat, p: seq<nat>, d: nat)
    requires b >= 2 && Num(b, p) * b + d == 0
    ensures d == 0 && Num(b, p) == 0
  {
    MulMonotone(1, b, Num(b, p));
  }

  lemma ReprSnoc(b: nat, p: seq<nat>, d: nat)
    requires b >= 2 && d < b && Num(b, p) * b + d != 0
    ensures Repr(b, Num(b, p) * b + d) == Repr(b, Num(b, p)) + [d]
  {
    DivDigit(Num(b, p), b, d);
  }

  lemma {:induction false} StripSnoc(p: seq<nat>, d: nat)
    ensures Strip(p + [d]) == if Strip(p) == [] && d == 0 then [] else Strip(p) + [d]
  {
    var s := p + [d];
    if p == [] {
      assert s[1..] == [];
    } else if p[0] == 0 {
      assert s[1..] == p[1..] + [d];
      StripSnoc(p[1..], d);
    }
  }

  lemma {:induction false} StripRepeat(n: nat, s: seq<nat>)
    requires Strip(s) == s
    ensures Strip(Repeat(n) + s) == s && Zeros(Repeat(n) + s) == n
  {
    var t := Repeat(n) + s;
    if n == 0 {
      assert t == s;
    } else {
      assert t[1..] == Repeat(n - 1) + s;
      StripRepeat(n - 1, s);
    }
  }

  lemma RecodeStripped(a: nat, b: nat, n: nat, s: seq<nat>)
    requires b >= 2 && Strip(s) == s
    ensures Recode(a, b, Repeat(n) + s) == Repeat(n) + Repr(b, Num(a, s))
  {
    hide Strip, Num, Repr, Repeat;
    StripRepeat(n, s);
  }

  lemma StripTwice(s: seq<nat>)
    ensures Strip(Strip(s)) == Strip(s)
  {
  }

  lemma StripDigits(b: nat, s: seq<nat>)
    requires Digits(b, s)
    ensures Digits(b, Strip(s))
  {
    assert Strip(s) == s[Zeros(s)..];
  }

  /** Recoding there and back gives the same digits, for any two bases. */
  lemma RecodeInverse(a: nat, b: nat, s: seq<nat>)
    requires a >= 2 && b >= 2 && Digits(a, s)
    ensures Digits(b, Recode(a, b, s)) && Recode(b, a, Recode(a, b, s)) == s
  {
    hide Num, Repr, Strip;
    var v := Num(a, Strip(s));
    ReprDigits(b, v);
    StripRepeat(Zeros(s), Repr(b, v));
    StripDigits(a, s);
    StripRepr(a, Strip(s));
    StripTwice(s);
    assert s == Repeat(Zeros(s)) + Strip(s);
  }

  // ---- how many digits are enough ----

  lemma {:induction false} PowBase(x: nat, y: nat, n: nat)
    requires x <= y
    ensures Pow(x, n) <= Pow(y, n)
  {
    if n > 0 {
      PowBase(x, y, n - 1);
      hide Pow;
      PowStep(x, n - 1);
      PowStep(y, n - 1);
      MulMonotone(x, y, Pow(x, n - 1));
      MulMonotone(Pow(x, n - 1), Pow(y, n - 1), y);
    }
  }

  lemma PowMore(b: nat, m: nat, n: nat)
    requires b >= 2 && m < n
    ensures Pow(b, m) < Pow(b, n)
  {
    hide Pow;
    PowMonotone(b, m + 1, n);
    PowMonotone(b, 0, m);
    PowStep(b, m);
    MulMonotone(2, b, Pow(b, m));
  }

  /** If q digits of base x hold p digits of base y, then k hold n with room to spare in a higher proportion. */
  lemma Enough(x: nat, y: nat, q: nat, p: nat, k: nat, n: nat, pk: nat, qn: nat, pn: nat)
    requires x >= 2 && Pow(x, q) >= Pow(y, p) && pk == p * k && qn == q * n && pn == p * n && pk > qn
    ensures Pow(x, k) > Pow(y, n)
  {
    hide Pow;
    PowMul(x, q, n);
    PowMul(y, p, n);
    PowBase(Pow(y, p), Pow(x, q), n);
    PowMore(x, qn, pk);
    Powers(x, k, p, pk);
    Powers(y, n, p, pn);
    Root(Pow(x, k), Pow(y, n), p);
  }

  lemma Powers(x: nat, k: nat, p: nat, pk: nat)
    requires pk == p * k
    ensures Pow(x, pk) == Pow(Pow(x, k), p)
  {
    hide Pow;
    PowMul(x, k, p);
    Commute(k, p);
  }

  lemma Commute(a: int, b: int)
    ensures a * b == b * a
  {
  }

  lemma Root(x: nat, y: nat, p: nat)
    requires Pow(x, p) > Pow(y, p)
    ensures x > y
  {
    if x <= y {
      PowBase(x, y, p);
    }
  }

  lemma SmallPowers()
    ensures Pow(58, 6) >= Pow(2, 35) && Pow(58, 7) >= Pow(2, 41) && Pow(58, 10) <= Pow(2, 59) && Pow(58, 22) <= Pow(2, 129)
  {
    hide Pow;
    PowerOf58();
    PowersOf2();
  }

  lemma PowerOf58()
    ensures Pow(58, 6) == 38068692544 && Pow(58, 7) == 2207984167552 && Pow(58, 10) == 430804206899405824
    ensures Pow(58, 22) == 430804206899405824 * 430804206899405824 * 3364
  {
    assert Pow(58, 1) == 58 && Pow(58, 2) == 3364;
    hide Pow;
    PowAdd(58, 2, 2);
    PowAdd(58, 4, 2);
    PowAdd(58, 6, 1);
    PowAdd(58, 6, 4);
    PowAdd(58, 10, 10);
    PowAdd(58, 20, 2);
  }

  lemma PowersOf2()
    ensures Pow(2, 35) == 34359738368 && Pow(2, 41) == 2199023255552 && Pow(2, 59) == 576460752303423488
    ensures Pow(2, 129) == 2 * 0x1_0000_0000_0000_0000 * 0x1_0000_0000_0000_0000
  {
    Pow32();
    assert Pow(2, 1) == 2 && Pow(2, 3) == 8;
    hide Pow;
    PowAdd(2, 32, 3);
    PowAdd(2, 3, 3);
    PowAdd(2, 35, 6);
    PowAdd(2, 6, 6);
    PowAdd(2, 12, 6);
    PowAdd(2, 41, 18);
    PowAdd(2, 32, 32);
    PowAdd(2, 64, 64);
    PowAdd(2, 128, 1);
  }

  /** 69 digits of base 58 hold 50 bytes. */
  lemma BytesIn58()
    ensures Pow(58, 69) >= Pow(256, 50)
  {
    hide Pow;
    SmallPowers();
    PowAdd(58, 63, 6);
    PowMul(58, 7, 9);
    PowMul(2, 41, 9);
    PowBase(Pow(2, 41), Pow(58, 7), 9);
    PowAdd(2, 369, 35);
    MulMonotone(Pow(2, 369), Pow(58, 63), Pow(58, 6));
    MulMonotone(Pow(2, 35), Pow(58, 6), Pow(2, 369));
    Pow256(50);
    PowMonotone(2, 400, 404);
  }

  lemma Pow256(n: nat)
    ensures Pow(256, n) == Pow(2, 8 * n)
  {
    PowMul(2, 8, n);
    assert Pow(2, 8) == 256;
  }

  /** 733 bytes hold 1000 digits of base 58. */
  lemma DigitsInBytes()
    ensures Pow(256, 733) >= Pow(58, 1000)
  {
    hide Pow;
    SmallPowers();
    PowAdd(58, 990, 10);
    PowMul(58, 22, 45);
    PowMul(2, 129, 45);
    PowBase(Pow(58, 22), Pow(2, 129), 45);
    PowAdd(2, 5805, 59);
    MulMonotone(Pow(58, 990), Pow(2, 5805), Pow(58, 10));
    MulMonotone(Pow(58, 10), Pow(2, 59), Pow(2, 5805));
    Pow256(733);
  }

  /** The space that EncodeBase58 allocates for n bytes. */
  lemma EncodeSpace(n: nat)
    ensures Pow(58, n * 138 / 100 + 1) > Pow(256, n)
  {
    hide Pow;
    BytesIn58();
    var k := n * 138 / 100 + 1;
    Enough(58, 256, 69, 50, k, n, 50 * k, 69 * n, 50 * n);
  }

  /** The space that DecodeBase58 allocates for n characters. */
  lemma DecodeSpace(n: nat)
    ensures Pow(256, n * 733 / 1000 + 1) > Pow(58, n)
  {
    hide Pow;
    DigitsInBytes();
    var k := n * 733 / 1000 + 1;
    Enough(256, 58, 733, 1000, k, n, 1000 * k, 733 * n, 1000 * n);
  }
}
