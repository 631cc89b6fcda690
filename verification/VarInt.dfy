/** Variable-length integers (WriteVarInt and ReadVarInt of src/serialize.h). */
module VarInt {
  import opened Common
  import opened Limbs

  /** A byte stream. */
  type bytes = seq<nat>

  /** All but the last byte of the encoding, for what remains after the last seven bits. */
  function Front(n: int): bytes
    requires n >= -1
    decreases n
  {
    if n < 0 then [] else Front(n / 128 - 1) + [n % 128 + 128]
  }

  /** The encoding; a negative signed number is cut to its last seven bits. */
  function Encoded(n: int): bytes {
    (if n < 128 then [] else Front(n / 128 - 1)) + [n % 128]
  }

  function DecodeFrom(acc: nat, s: bytes): Option<(nat, bytes)>
    decreases |s|
  {
    if s == [] then None
    else
      var n := acc * 128 + s[0] % 128;
      if s[0] / 128 % 2 == 1 then DecodeFrom(n + 1, s[1..]) else Some((n, s[1..]))
  }

  function Decoded(s: bytes): Option<(nat, bytes)> {
    DecodeFrom(0, s)
  }

  lemma {:induction false} FrontBack(n: int, rest: bytes)
    requires n >= -1
    ensures DecodeFrom(0, Front(n) + rest) == DecodeFrom(n + 1, rest)
    decreases n
  {
    if n < 0 {
      assert [] + rest == rest;
    } else {
      var b, m := n % 128 + 128, n / 128 - 1;
      assert Front(n) + rest == Front(m) + ([b] + rest);
      FrontBack(m, [b] + rest);
      OneByte(m + 1, b, rest);
    }
  }

  lemma OneByte(acc: nat, b: nat, rest: bytes)
    requires b < 256
    ensures DecodeFrom(acc, [b] + rest) ==
            if b >= 128 then DecodeFrom(acc * 128 + b - 128 + 1, rest) else Some((acc * 128 + b, rest))
  {
    var s := [b] + rest;
    assert s[0] == b && s[1..] == rest;
  }

  /** Reading gives the number back, with negative ones reduced to their last seven bits. */
  lemma RoundTrip(n: int, rest: bytes)
    ensures Decoded(Encoded(n) + rest) == Some((if n < 0 then n % 128 else n, rest))
  {
    if n < 128 {
      assert Encoded(n) + rest == [n % 128] + rest;
      OneByte(0, n % 128, rest);
    } else {
      var m := n / 128 - 1;
      assert Encoded(n) + rest == Front(m) + ([n % 128] + rest);
      FrontBack(m, [n % 128] + rest);
      OneByte(m + 1, n % 128, rest);
    }
  }

  // ---- what the documentation of the format promises ----

  predicate Bytes(s: bytes) {
    forall i :: 0 <= i < |s| ==> s[i] < 256
  }

  /** A byte sequence in which exactly the last byte has the high bit clear. */
  predicate IsCode(s: bytes) {
    s != [] && s[|s| - 1] < 128 && forall i :: 0 <= i < |s| - 1 ==> 128 <= s[i] < 256
  }

  /** The last digit, and 128^i times each other digit plus one. */
  function Meaning(s: bytes): nat
    requires IsCode(s)
  {
    MeaningFrom(0, s)
  }

  function MeaningFrom(acc: nat, s: bytes): nat
    requires IsCode(s)
    decreases |s|
  {
    if |s| == 1 then acc * 128 + s[0] else MeaningFrom(acc * 128 + (s[0] - 128) + 1, s[1..])
  }

  lemma {:induction false} DecodeMeans(acc: nat, s: bytes, rest: bytes)
    requires IsCode(s)
    ensures DecodeFrom(acc, s + rest) == Some((MeaningFrom(acc, s), rest))
    decreases |s|
  {
    assert s + rest == [s[0]] + (s[1..] + rest);
    OneByte(acc, s[0], s[1..] + rest);
    if |s| > 1 {
      DecodeMeans(acc * 128 + s[0] - 128 + 1, s[1..], rest);
    } else {
      assert s[1..] + rest == rest;
    }
  }

  /** Reading stops behind a code, whose meaning is the number read. */
  lemma {:induction false} DecodeSplits(acc: nat, s: bytes) returns (n: nat)
    requires Bytes(s) && DecodeFrom(acc, s).Some?
    ensures 0 < n <= |s| && IsCode(s[..n]) && DecodeFrom(acc, s) == Some((MeaningFrom(acc, s[..n]), s[n..]))
    decreases |s|
  {
    assert s == [s[0]] + s[1..];
    OneByte(acc, s[0], s[1..]);
    if s[0] >= 128 {
      var m := DecodeSplits(acc * 128 + s[0] - 128 + 1, s[1..]);
      n := m + 1;
      assert s[..n] == [s[0]] + s[1..][..m] && s[..n][1..] == s[1..][..m] && s[1..][m..] == s[n..];
    } else {
      n := 1;
    }
  }

  /** The highest digits first, without the last one. */
  lemma {:induction false} FrontMeans(acc: nat, s: bytes)
    requires IsCode(s)
    ensures acc == 0 ==> Encoded(MeaningFrom(0, s)) == s
    ensures Front(acc - 1) + s == Encoded(MeaningFrom(acc, s)) || acc == 0
    decreases |s|
  {
    if |s| == 1 {
      Digit(acc, s[0]);
      assert s == [s[0]];
    } else {
      var next := acc * 128 + (s[0] - 128) + 1;
      FrontMeans(next, s[1..]);
      Digit(acc, s[0] - 128);
      FrontStep(next - 1, s[1..]);
      assert [s[0]] + s[1..] == s;
      if acc == 0 {
        assert Front(-1) + ([s[0]] + s[1..]) == s;
      }
    }
  }

  lemma Digit(acc: nat, d: nat)
    requires d < 128
    ensures (acc * 128 + d) / 128 == acc && (acc * 128 + d) % 128 == d
  {
  }

  /** Every code is the encoding of its meaning: each number has exactly one encoding, and no byte sequence is wasted. */
  lemma OneEncoding(s: bytes)
    requires Bytes(s) && Decoded(s).Some?
    ensures var (n, rest) := Decoded(s).value; s == Encoded(n) + rest
  {
    var k := DecodeSplits(0, s);
    FrontMeans(0, s[..k]);
    assert s == s[..k] + s[k..];
  }

  /** One byte up to 127, two up to 16511, three up to 2113663. */
  lemma Sizes(n: nat)
    ensures |Encoded(n)| == 1 <==> n <= 127
    ensures |Encoded(n)| == 2 <==> 128 <= n <= 16511
    ensures |Encoded(n)| == 3 <==> 16512 <= n <= 2113663
  {
    if n >= 128 {
      var m := n / 128 - 1;
      assert |Encoded(n)| == 1 + |Front(m)| && |Front(m)| == 1 + |Front(m / 128 - 1)|;
      if m >= 128 {
        var l := m / 128 - 1;
        assert |Front(l)| == 1 + |Front(l / 128 - 1)|;
      }
    }
  }

  /** The examples of the source, but for 16511 and 65535, where it lists other bytes. */
  lemma Examples()
    ensures Encoded(0) == [0x00] && Encoded(127) == [0x7F] && Encoded(128) == [0x80, 0x00] && Encoded(255) == [0x80, 0x7F]
    ensures Encoded(256) == [0x81, 0x00] && Encoded(16383) == [0xFE, 0x7F] && Encoded(16384) == [0xFF, 0x00]
  {
  }

  lemma LongExamples()
    ensures Encoded(16511) == [0xFF, 0x7F] && Encoded(65535) == [0x82, 0xFE, 0x7F]
    ensures Encoded(0x1_0000_0000) == [0x8E, 0xFE, 0xFE, 0xFF, 0x00]
  {
    hide Front;
    FrontNext(-1);
    FrontNext(127);
    FrontNext(2);
    FrontNext(510);
    FrontNext(14);
    FrontNext(2046);
    FrontNext(262142);
    FrontNext(33554431);
  }

  lemma FrontNext(n: int)
    requires n >= -1
    ensures Front(n) == if n < 0 then [] else Front(n / 128 - 1) + [n % 128 + 128]
  {
  }

  /** WriteVarInt: digits are collected from the low end and written from the high end */
  method Write(os: bytes, value: int) returns (r: bytes)
    ensures r == os + Encoded(value)
  {
    hide Front, Reversed, Encoded;
    var n := value;
    var tmp: bytes := [n % 128];
    EncodedSplit(value);
    while n > 0x7F
      invariant n < 128 ==> Encoded(value) == Reversed(tmp)
      invariant n >= 128 ==> Encoded(value) == Front(n / 128 - 1) + Reversed(tmp)
      decreases n
    {
      n := n / 128 - 1;
      ReversedSnoc(tmp, n % 128 + 128);
      FrontStep(n, Reversed(tmp));
      tmp := tmp + [n % 128 + 128];
    }
    r := Emit(os, tmp);
  }

  lemma EncodedSplit(n: int)
    ensures Reversed([n % 128]) == [n % 128]
    ensures Encoded(n) == if n < 128 then [n % 128] else Front(n / 128 - 1) + [n % 128]
  {
  }

  method Emit(os: bytes, tmp: bytes) returns (r: bytes)
    ensures r == os + Reversed(tmp)
  {
    r := os;
    var len := |tmp|;
    assert tmp[..len] == tmp;
    while len > 0
      invariant 0 <= len <= |tmp| && r + Reversed(tmp[..len]) == os + Reversed(tmp)
    {
      assert tmp[..len][..len - 1] == tmp[..len - 1];
      r, len := r + [tmp[len - 1]], len - 1;
    }
  }

  function Reversed(s: bytes): (r: bytes)
    ensures |r| == |s|
  {
    if s == [] then [] else [s[|s| - 1]] + Reversed(s[..|s| - 1])
  }

  lemma ReversedSnoc(s: bytes, b: nat)
    ensures Reversed(s + [b]) == [b] + Reversed(s)
  {
    assert (s + [b])[..|s|] == s;
  }

  lemma FrontStep(n: int, t: bytes)
    requires n >= 0
    ensures Front(n) + t == Front(n / 128 - 1) + ([n % 128 + 128] + t)
    ensures n < 128 ==> Front(n) + t == [n % 128 + 128] + t
  {
  }

  /** ReadVarInt; it fails at the end of the stream */
  method Read(is_: bytes) returns (ok: bool, n: nat, rest: bytes)
    ensures Decoded(is_) == if ok then Some((n, rest)) else None
  {
    n, rest := 0, is_;
    ok := false;
    var more := true;
    while more && rest != []
      invariant more ==> Decoded(is_) == DecodeFrom(n, rest) && !ok
      invariant !more ==> ok && Decoded(is_) == Some((n, rest))
      decreases more, |rest|
    {
      var chData := rest[0];
      rest := rest[1..];
      n := n * 128 + chData % 128;
      if chData / 128 % 2 == 1 {
        n := n + 1;
      } else {
        more, ok := false, true;
      }
    }
  }

  /** ReadVarInt for a 64-bit type, where what does not fit is shifted out */
  method ReadWord(is_: bytes) returns (ok: bool, n: dword, rest: bytes)
    ensures match Decoded(is_)
            case None => !ok
            case Some((m, after)) => ok && n == m % 0x1_0000_0000_0000_0000 && rest == after
  {
    n, rest := 0, is_;
    ok := false;
    var more := true;
    ghost var m: nat := 0;
    while more && rest != []
      invariant n == m % 0x1_0000_0000_0000_0000
      invariant more ==> Decoded(is_) == DecodeFrom(m, rest) && !ok
      invariant !more ==> ok && Decoded(is_) == Some((m, rest))
      decreases more, |rest|
    {
      var chData := rest[0];
      rest := rest[1..];
      Shifted(m, chData % 128);
      Shifted(m, chData % 128 + 1);
      m := m * 128 + chData % 128;
      if chData / 128 % 2 == 1 {
        n := (n as int * 128 + chData % 128 + 1) % 0x1_0000_0000_0000_0000;
        m := m + 1;
      } else {
        n := (n as int * 128 + chData % 128) % 0x1_0000_0000_0000_0000;
        more, ok := false, true;
      }
    }
  }

  lemma Shifted(m: nat, d: nat)
    ensures (m % 0x1_0000_0000_0000_0000 * 128 + d) % 0x1_0000_0000_0000_0000 == (m * 128 + d) % 0x1_0000_0000_0000_0000
  {
    var w := 0x1_0000_0000_0000_0000;
    var q, r := m / w, m % w;
    var t, v := (r * 128 + d) / w, (r * 128 + d) % w;
    assert v + (128 * q + t) * w == m * 128 + d;
    ModUnique(v, m * 128 + d, 128 * q + t, w);
  }
}
