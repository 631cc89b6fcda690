/** Exactly which 64-bit amounts survive CompressAmount and DecompressAmount (src/compressor.cpp). */
module AmountWrap {
  import opened Limbs
  import opened Amount

  /** An amount whose compressed form takes more than 64 bits does not end in zero. */
  lemma NoTens(u: nat)
    requires u < WORD && Compress(u) >= WORD
    ensures u % 10 != 0 && Compress(u) == 1 + (u / 10 * 9 + u % 10 - 1) * 10 && Compress(u) < 9 * WORD
  {
    hide Pow;
    DecompressCompress(u);
    StripTensExact(u, 0);
    var (m, e) := StripTens(u, 0);
    if e == 0 {
      TenTimes(m, 0);
    } else {
      TenTimes(m, e - 1);
      ScaledUp(m, e - 1);
    }
  }

  lemma ScaledUp(m: nat, k: nat)
    ensures m <= m * Pow(10, k)
  {
    hide Pow;
    PowMonotone(10, 0, k);
    PowStep(10, 0);
    MulMonotone(1, Pow(10, k), m);
  }

  /** Only one amount u can agree with (u - c) * ten modulo 2^64, because ten - 1 has an inverse. */
  lemma OneSolution(u: nat, c: nat, ten: nat, inverse: nat, s: nat, k: nat, r: nat)
    requires u < WORD && r < WORD && u >= c && (ten - 1) * inverse == 1 + s * WORD && inverse * (c * ten) == r + k * WORD
    ensures ((u - c) * ten) % WORD == u ==> u == r
  {
    var t := (u - c) * ten / WORD;
    if (u - c) * ten % WORD == u {
      Solved(u, c, ten, t);
      Cancelled(u, c * ten, ten - 1, inverse, s, t);
      var q := inverse * t - u * s + k;
      assert u - r == q * WORD by {
        assert q * WORD == inverse * t * WORD - u * s * WORD + k * WORD;
      }
      ModUnique(r, u, q, WORD);
    }
  }

  lemma Solved(u: nat, c: nat, ten: nat, t: nat)
    requires u >= c && (u - c) * ten == t * WORD + u
    ensures u * (ten - 1) == c * ten + t * WORD
  {
    assert (u - c) * ten == u * ten - c * ten;
    assert u * (ten - 1) == u * ten - u;
  }

  lemma Cancelled(u: nat, p: nat, n: int, inverse: nat, s: nat, t: nat)
    requires u * n == p + t * WORD && n * inverse == 1 + s * WORD
    ensures u == inverse * p + inverse * t * WORD - u * s * WORD
  {
    assert inverse * (u * n) == inverse * (p + t * WORD) == inverse * p + inverse * t * WORD;
    assert inverse * (u * n) == u * (n * inverse) == u * (1 + s * WORD) == u + u * s * WORD;
  }

  /** The number and the exponent that are read when the compressed form of u exceeds 64 bits j times over. */
  predicate WrapsTo(u: nat, x: nat, j: nat) {
    u < WORD && x < WORD && u % 10 != 0 && 1 + (u / 10 * 9 + u % 10 - 1) * 10 == x + j * WORD
  }

  /** Reading then shifts the amount by about j * 2^64 / 9 and scales it by ten. */
  lemma ReadAs(u: nat, x: nat, j: nat, e: nat, ten: nat, a: nat, b: nat)
    requires WrapsTo(u, x, j) && j * WORD + e == 10 * (9 * a + b) && e < 9 && b < 9 && Pow(10, e) == ten
    ensures var c := 10 * a + b;
            (u >= c && Decompress(x) == (u - c) * ten) || (u >= c + 1 && Decompress(x) == (u - (c + 1)) * ten)
  {
    hide Pow;
    var q, d := u / 10, u % 10;
    var y := 9 * (q - a) + d - 1 - b;
    assert x - 1 == 10 * y + e;
    assert y >= 0;
    assert (x - 1) % 10 == e && (x - 1) / 10 == y;
    if d - 1 >= b {
      assert y / 9 == q - a && y % 9 == d - 1 - b;
    } else {
      assert y / 9 == q - a - 1 && y % 9 == d - 1 - b + 9;
    }
  }

  lemma Tens()
    ensures Pow(10, 0) == 1 && Pow(10, 2) == 100 && Pow(10, 4) == 10000 && Pow(10, 6) == 1000000 && Pow(10, 8) == 100000000
  {
    assert Pow(10, 1) == 10 && Pow(10, 2) == 100;
    hide Pow;
    PowAdd(10, 2, 2);
    PowAdd(10, 4, 2);
    PowAdd(10, 4, 4);
  }

  lemma Wrap1(u: nat, x: nat)
    requires WrapsTo(u, x, 1)
    ensures Decompress(x) % WORD != u
  {
    hide Pow, Decompress;
    Tens();
    ReadAs(u, x, 1, 4, 10000, 204963823041217240, 2);
    if u >= 2049638230412172402 {
      OneSolution(u, 2049638230412172402, 10000, 13458245626333751279, 7295, 14953606251481945867176, 15288550632769423584);
    }
    if u >= 2049638230412172403 {
      OneSolution(u, 2049638230412172403, 10000, 13458245626333751279, 7295, 14953606251481945874472, 10300052185393623248);
    }
  }

  lemma Wrap2(u: nat, x: nat)
    requires WrapsTo(u, x, 2)
    ensures Decompress(x) % WORD != u
  {
    hide Pow, Decompress;
    Tens();
    ReadAs(u, x, 2, 8, 100000000, 409927646082434480, 4);
    if u >= 4099276460824344804 {
      OneSolution(u, 4099276460824344804, 100000000, 300153063250403071, 1627133, 6670068072231179356278725, 14480868974329830400);
    }
    if u >= 4099276460824344805 {
      OneSolution(u, 4099276460824344805, 100000000, 300153063250403071, 1627133, 6670068072231179357905858, 14781022037580233472);
    }
  }

  lemma Wrap3(u: nat, x: nat)
    requires WrapsTo(u, x, 3)
    ensures Decompress(x) % WORD != u
  {
    hide Pow, Decompress;
    Tens();
    ReadAs(u, x, 3, 2, 100, 614891469123651720, 5);
    if u >= 6148914691236517205 {
      OneSolution(u, 6148914691236517205, 100, 12670490878911611211, 68, 422349695963720373677, 1925417731599313468);
    }
    if u >= 6148914691236517206 {
      OneSolution(u, 6148914691236517206, 100, 12670490878911611211, 68, 422349695963720373745, 14595908610510924680);
    }
  }

  lemma Wrap4(u: nat, x: nat)
    requires WrapsTo(u, x, 4)
    ensures Decompress(x) % WORD != u
  {
    hide Pow, Decompress;
    Tens();
    ReadAs(u, x, 4, 6, 1000000, 819855292164868960, 7);
    if u >= 8198552921648689607 {
      OneSolution(u, 8198552921648689607, 1000000, 1672254362768354751, 90653, 743224161230379889323260, 14161661572577611840);
    }
    if u >= 8198552921648689608 {
      OneSolution(u, 8198552921648689608, 1000000, 1672254362768354751, 90653, 743224161230379889413913, 15833915935345966592);
    }
  }

  lemma Wrap5(u: nat, x: nat)
    requires WrapsTo(u, x, 5)
    ensures Decompress(x) % WORD != u
  {
    hide Pow, Decompress;
    Tens();
    ReadAs(u, x, 5, 0, 1, 1024819115206086200, 8);
  }

  lemma Wrap6(u: nat, x: nat)
    requires WrapsTo(u, x, 6)
    ensures Decompress(x) % WORD != u
  {
    hide Pow, Decompress;
    Tens();
    ReadAs(u, x, 6, 4, 10000, 1229782938247303441, 1);
    if u >= 12297829382473034411 {
      OneSolution(u, 12297829382473034411, 10000, 13458245626333751279, 7295, 89721637508891675195765, 4486081875444583760);
    }
    if u >= 12297829382473034412 {
      OneSolution(u, 12297829382473034412, 10000, 13458245626333751279, 7295, 89721637508891675203060, 17944327501778335040);
    }
  }

  lemma Wrap7(u: nat, x: nat)
    requires WrapsTo(u, x, 7)
    ensures Decompress(x) % WORD != u
  {
    hide Pow, Decompress;
    Tens();
    ReadAs(u, x, 7, 8, 100000000, 1434746761288520681, 3);
    if u >= 14347467612885206813 {
      OneSolution(u, 14347467612885206813, 100000000, 300153063250403071, 1627133, 23345238252809127745348407, 4266028162630124288);
    }
    if u >= 14347467612885206814 {
      OneSolution(u, 14347467612885206814, 100000000, 300153063250403071, 1627133, 23345238252809127746975540, 4566181225880527360);
    }
  }

  lemma Wrap8(u: nat, x: nat)
    requires WrapsTo(u, x, 8)
    ensures Decompress(x) % WORD != u
  {
    hide Pow, Decompress;
    Tens();
    ReadAs(u, x, 8, 2, 100, 1639710584329737921, 4);
    if u >= 16397105843297379214 {
      OneSolution(u, 16397105843297379214, 100, 12670490878911611211, 68, 1126265855903254329851, 7432526512302726184);
    }
    if u >= 16397105843297379215 {
      OneSolution(u, 16397105843297379215, 100, 12670490878911611211, 68, 1126265855903254329920, 1656273317504785780);
    }
  }

  /** If the compressed form does not fit, the amount is lost. */
  lemma WrappedLost(u: nat)
    requires u < WORD && Compress(u) >= WORD
    ensures Decompress(Compress(u) % WORD) % WORD != u
  {
    hide Compress, Decompress;
    NoTens(u);
    var j, x := Compress(u) / WORD, Compress(u) % WORD;
    assert 1 <= j <= 8 && WrapsTo(u, x, j);
    match j
    case 1 => Wrap1(u, x);
    case 2 => Wrap2(u, x);
    case 3 => Wrap3(u, x);
    case 4 => Wrap4(u, x);
    case 5 => Wrap5(u, x);
    case 6 => Wrap6(u, x);
    case 7 => Wrap7(u, x);
    case 8 => Wrap8(u, x);
  }

  /** The exact condition for an amount to come back: it is a signed 64-bit number whose word compresses to 64 bits. */
  lemma KeptExactly(v: int)
    ensures KeptAmount(v) == v <==> -0x8000_0000_0000_0000 <= v < 0x8000_0000_0000_0000 && Compress(v % WORD) < WORD
  {
    hide Compress, Decompress;
    var u := v % WORD;
    assert -0x8000_0000_0000_0000 <= v < 0x8000_0000_0000_0000 ==> Signed(u) == v;
    DecompressCompress(u);
    if Compress(u) >= WORD {
      WrappedLost(u);
    }
  }

  /** Amounts that are not negative are safe up to a ninth of 2^64... */
  lemma SmallKept(v: int)
    requires 0 <= v && 9 * v < WORD
    ensures KeptAmount(v) == v
  {
    hide Compress, KeptAmount;
    DecompressCompress(v);
    KeptExactly(v);
    assert v % WORD == v;
  }

  /** ... and not always beyond: the largest one is lost. */
  lemma LargestLost()
    ensures KeptAmount(0x7fff_ffff_ffff_ffff) != 0x7fff_ffff_ffff_ffff
  {
    hide KeptAmount;
    var v: nat := 0x7fff_ffff_ffff_ffff;
    assert v % WORD == v && StripTens(v, 0) == (v, 0);
    KeptExactly(v);
  }
}
