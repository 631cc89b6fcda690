/** The compact form of amounts (CompressAmount and DecompressAmount of src/compressor.cpp). */
module Amount {
  import opened Limbs

  /** Divides by ten as long as possible, but no more than nine times in all. */
  function StripTens(n: nat, e: nat): (nat, nat)
    requires n > 0 && e <= 9
    decreases n
  {
    if n % 10 == 0 && e < 9 then StripTens(n / 10, e + 1) else (n, e)
  }

  function Pack(m: nat, e: nat): int {
    if e < 9 then 1 + (m / 10 * 9 + m % 10 - 1) * 10 + e else 1 + (m - 1) * 10 + 9
  }

  function Compress(n: nat): (x: int)
  {
    if n == 0 then 0 else var (m, e) := StripTens(n, 0); Pack(m, e)
  }

  /** The number and the exponent of ten that a compressed amount stands for. */
  function Unpack(x: nat): (nat, nat)
    requires x > 0
  {
    var e, y := (x - 1) % 10, (x - 1) / 10;
    if e < 9 then (y / 9 * 10 + y % 9 + 1, e) else (y + 1, e)
  }

  function Decompress(x: nat): nat {
    if x == 0 then 0 else var (m, e) := Unpack(x); m * Pow(10, e)
  }

  // ---- they are inverse to each other ----

  predicate Stripped(m: nat, e: nat) {
    m > 0 && e <= 9 && (e < 9 ==> m % 10 != 0)
  }

  lemma {:induction false} StripTensExact(n: nat, e: nat)
    requires n > 0 && e <= 9
    ensures var (m, f) := StripTens(n, e); e <= f && Stripped(m, f) && n == m * Pow(10, f - e)
    decreases n
  {
    hide Pow;
    if n % 10 == 0 && e < 9 {
      StripTensExact(n / 10, e + 1);
      var (m, f) := StripTens(n, e);
      TenTimes(m, f - e - 1);
    } else {
      TenTimes(n, 0);
    }
  }

  lemma {:induction false} StripScaled(m: nat, k: nat, e: nat)
    requires Stripped(m, e + k)
    ensures var n := m * Pow(10, k); n > 0 && StripTens(n, e) == (m, e + k)
    decreases k
  {
    hide Pow;
    TenTimes(m, k);
    if k > 0 {
      StripScaled(m, k - 1, e + 1);
      TenTimes(m, k - 1);
      StripOne(m * Pow(10, k - 1), e);
    }
  }

  lemma StripOne(n: nat, e: nat)
    requires n > 0 && e < 9
    ensures StripTens(10 * n, e) == StripTens(n, e + 1)
  {
    assert (10 * n) / 10 == n;
  }

  lemma TenTimes(m: nat, k: nat)
    ensures m * Pow(10, k + 1) == 10 * (m * Pow(10, k)) && m * Pow(10, 0) == m && (m > 0 ==> m * Pow(10, k) > 0)
  {
    PowStep(10, k);
    PowStep(10, 0);
    hide Pow;
    assert m * (10 * Pow(10, k)) == 10 * (m * Pow(10, k));
    MulMonotone(1, Pow(10, k), m);
  }

  lemma PackUnpack(m: nat, e: nat)
    requires Stripped(m, e)
    ensures Pack(m, e) > 0 && Unpack(Pack(m, e)) == (m, e)
  {
    var x, d, q := Pack(m, e), m % 10, m / 10;
    if e < 9 {
      var y := q * 9 + d - 1;
      assert (x - 1) / 10 == y && (x - 1) % 10 == e;
      assert y / 9 == q && y % 9 == d - 1;
    }
  }

  lemma PackBound(m: nat, e: nat)
    requires Stripped(m, e)
    ensures Pack(m, e) <= if e == 0 then 9 * m else 18 * m
  {
  }

  lemma UnpackPack(x: nat)
    requires x > 0
    ensures var (m, e) := Unpack(x); Stripped(m, e) && Pack(m, e) == x
  {
  }

  /** Every amount comes back, and its compressed form is at most nine times as large. */
  lemma DecompressCompress(n: nat)
    ensures 0 <= Compress(n) <= 9 * n && Decompress(Compress(n)) == n
  {
    if n > 0 {
      StripTensExact(n, 0);
      var (m, e) := StripTens(n, 0);
      PackUnpack(m, e);
      PackSmall(m, e);
    }
  }

  lemma PackSmall(m: nat, e: nat)
    requires Stripped(m, e)
    ensures Pack(m, e) <= 9 * (m * Pow(10, e))
  {
    PackBound(m, e);
    if e == 0 {
      PowStep(10, 0);
    } else {
      PowMonotone(10, 1, e);
      PowStep(10, 0);
      hide Pow;
      MulMonotone(10, Pow(10, e), m);
    }
  }

  /** Every number is the compressed form of some amount. */
  lemma CompressDecompress(x: nat)
    ensures Compress(Decompress(x)) == x
  {
    if x > 0 {
      UnpackPack(x);
      var (m, e) := Unpack(x);
      StripScaled(m, e, 0);
    }
  }

  /** The amounts that the tests of the repository fix: one unit, a cent, a coin, 50 coins and 21 million coins. */
  lemma Examples()
    ensures Compress(0) == 0x0 && Compress(1) == 0x1 && Compress(1_000_000) == 0x7 && Compress(100_000_000) == 0x9
    ensures Compress(5_000_000_000) == 0x32 && Compress(2_100_000_000_000_000) == 0x1406f40
  {
    Scaled(1, 0);
    Scaled(1, 6);
    Scaled(1, 8);
    Scaled(5, 9);
    Scaled(2_100_000, 9);
    Powers();
  }

  lemma Powers()
    ensures Pow(10, 0) == 1 && Pow(10, 6) == 1_000_000 && Pow(10, 8) == 100_000_000 && Pow(10, 9) == 1_000_000_000
  {
    assert Pow(10, 1) == 10 && Pow(10, 2) == 100;
    hide Pow;
    PowStep(10, 0);
    PowAdd(10, 2, 2);
    PowAdd(10, 4, 2);
    PowAdd(10, 6, 2);
    PowAdd(10, 8, 1);
  }

  lemma Scaled(m: nat, e: nat)
    requires Stripped(m, e)
    ensures m * Pow(10, e) > 0 && Compress(m * Pow(10, e)) == Pack(m, e)
  {
    hide Pow;
    StripScaled(m, e, 0);
  }

  // ---- in 64 bits ----

  const WORD := 0x1_0000_0000_0000_0000

  /** The two's complement value of a 64-bit word. */
  function Signed(u: nat): int {
    if u < 0x8000_0000_0000_0000 then u else u - WORD
  }

  /** A signed amount as it is stored, and as it is read. */
  function Packed(v: int): (x: nat)
    ensures x < WORD
  {
    Compress(v % WORD) % WORD
  }

  function Unpacked(x: nat): int {
    Signed(Decompress(x % WORD) % WORD)
  }

  /** What an amount is read back as. */
  function KeptAmount(v: int): int {
    Unpacked(Packed(v))
  }

  /** No amount is read as -1, which would mark the output as spent. */
  lemma NeverNull(x: nat)
    ensures Unpacked(x) != -1
  {
    var u := x % WORD;
    if u > 0 {
      var (m, e) := Unpack(u);
      assert m < 0x8000_0000_0000_0000;
      if e == 0 {
        PowStep(10, 0);
      } else {
        TenTimes(m, e - 1);
        EvenWord(5 * (m * Pow(10, e - 1)));
      }
    }
  }

  lemma EvenWord(n: nat)
    ensures (2 * n) % WORD % 2 == 0
  {
    var q, r := 2 * n / WORD, 2 * n % WORD;
    assert 2 * n == q * WORD + r;
    assert r == 2 * (n - q * 0x8000_0000_0000_0000);
  }

  // ---- the loops ----

  method CompressAmount(nAmount: dword) returns (x: dword)
    ensures x == Compress(nAmount) % WORD
  {
    x := 0;
    if nAmount != 0 {
      var n, e := nAmount, 0;
      while n % 10 == 0 && e < 9
        invariant 0 < n <= nAmount && 0 <= e <= 9 && StripTens(n, e) == StripTens(nAmount, 0)
        decreases n
      {
        n := n / 10;
        e := e + 1;
      }
      if e < 9 {
        var d := n % 10;
        assert 1 <= d <= 9;
        n := n / 10;
        x := (1 + (n as int * 9 + d - 1) * 10 + e) % WORD;
      } else {
        x := (1 + (n as int - 1) * 10 + 9) % WORD;
      }
    }
  }

  method DecompressAmount(compressed: dword) returns (n: dword)
    ensures n == Decompress(compressed) % WORD
  {
    n := 0;
    if compressed != 0 {
      var x: dword := compressed - 1;
      var e := x % 10;
      x := x / 10;
      ghost var (m, k) := Unpack(compressed);
      if e < 9 {
        var d := x % 9 + 1;
        x := x / 9;
        n := x * 10 + d;
      } else {
        n := x + 1;
      }
      TenTimes(m, 0);
      assert n == m;
      while e != 0
        invariant 0 <= e <= k && n == m * Pow(10, k - e) % WORD
        decreases e
      {
        TenTimes(m, k - e);
        TimesTen(m * Pow(10, k - e));
        n := (n as int * 10) % WORD;
        e := e - 1;
      }
    }
  }

  lemma TimesTen(a: nat)
    ensures ((a % WORD) * 10) % WORD == (10 * a) % WORD
  {
    var q, r := a / WORD, a % WORD;
    assert a == q * WORD + r;
    assert 10 * a == (10 * q) * WORD + 10 * r;
    var t, v := 10 * r / WORD, 10 * r % WORD;
    assert v + (10 * q + t) * WORD == 10 * a;
    ModUnique(v, 10 * a, 10 * q + t, WORD);
  }
}
