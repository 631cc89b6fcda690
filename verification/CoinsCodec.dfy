/** The stored form of a coins record (CCoins::Serialize and Unserialize of src/coins.h). */
module CoinsCodec {
  import opened Common
  import opened CoinRecord
  import opened VarInt
  import Amount
  import AmountWrap
  import ScriptCodec

  type Keys = ScriptCodec.Keys

  // ---- bits of a byte ----

  function ByteOf(bits: seq<bool>): nat {
    if bits == [] then 0 else (if bits[0] then 1 else 0) + 2 * ByteOf(bits[1..])
  }

  function BitsOf(n: nat, k: nat): (bits: seq<bool>)
    ensures |bits| == k
  {
    if k == 0 then [] else [n % 2 == 1] + BitsOf(n / 2, k - 1)
  }

  lemma {:induction false} BitsBack(bits: seq<bool>)
    ensures BitsOf(ByteOf(bits), |bits|) == bits
    ensures ByteOf(bits) == 0 <==> forall i :: 0 <= i < |bits| ==> !bits[i]
  {
    if bits != [] {
      BitsBack(bits[1..]);
      assert bits == [bits[0]] + bits[1..];
    }
  }

  // ---- the bitmask ----

  function Available(vout: seq<TxOut>): (a: seq<bool>)
    ensures |a| == |vout| && forall i :: 0 <= i < |vout| ==> a[i] == !vout[i].IsNull()
  {
    seq(|vout|, i requires 0 <= i < |vout| => !vout[i].IsNull())
  }

  predicate BitAt(a: seq<bool>, i: nat) {
    i < |a| && a[i]
  }

  /** The availability of the outputs that byte b of the mask covers; the first two outputs are not in it. */
  function Block(a: seq<bool>, b: nat): (bits: seq<bool>)
    ensures |bits| == 8 && forall i :: 0 <= i < 8 ==> bits[i] == BitAt(a, 2 + 8 * b + i)
  {
    seq(8, i requires 0 <= i => BitAt(a, 2 + 8 * b + i))
  }

  function MaskByte(a: seq<bool>, b: nat): nat {
    ByteOf(Block(a, b))
  }

  function Blocks(n: nat): nat {
    if n <= 2 then 0 else (n + 5) / 8
  }

  /** One more than the last byte below n that is not zero, and how many are not. */
  function LastUsed(a: seq<bool>, n: nat): (r: nat)
    ensures r <= n && (r > 0 ==> MaskByte(a, r - 1) != 0) && forall b :: r <= b < n ==> MaskByte(a, b) == 0
  {
    if n == 0 then 0 else if MaskByte(a, n - 1) != 0 then n else LastUsed(a, n - 1)
  }

  function NonZero(a: seq<bool>, n: nat): nat {
    if n == 0 then 0 else NonZero(a, n - 1) + if MaskByte(a, n - 1) != 0 then 1 else 0
  }

  function MaskBytes(a: seq<bool>, b: nat, n: nat): bytes
    requires b <= n
    decreases n - b
  {
    if b == n then [] else [MaskByte(a, b)] + MaskBytes(a, b + 1, n)
  }

  /** The availability of the outputs that bytes b up to n cover. */
  function MaskBits(a: seq<bool>, b: nat, n: nat): (s: seq<bool>)
    requires b <= n
    ensures |s| == 8 * (n - b) && forall i :: 0 <= i < |s| ==> s[i] == BitAt(a, 2 + 8 * b + i)
    decreases n - b
  {
    if b == n then [] else
      var s := Block(a, b) + MaskBits(a, b + 1, n);
      assert forall i :: 8 <= i < |s| ==> s[i] == MaskBits(a, b + 1, n)[i - 8];
      s
  }

  /** CalcMaskSize: the bytes of the bitmask, and how many of them are not zero */
  method CalcMaskSize(vout: seq<TxOut>) returns (nBytes: nat, nNonzeroBytes: nat)
    ensures var a, n := Available(vout), Blocks(|vout|); nBytes == LastUsed(a, n) && nNonzeroBytes == NonZero(a, n)
  {
    hide MaskByte;
    nBytes, nNonzeroBytes := 0, 0;
    var b := 0;
    ghost var a := Available(vout);
    while 2 + b * 8 < |vout|
      invariant 0 <= b <= Blocks(|vout|) && nBytes == LastUsed(a, b) && nNonzeroBytes == NonZero(a, b)
    {
      var fZero := NoneLeft(vout, b);
      b := b + 1;
      if !fZero {
        nBytes := b;
        nNonzeroBytes := nNonzeroBytes + 1;
      }
    }
  }

  /** The inner loop: whether all outputs of a byte are spent. */
  method NoneLeft(vout: seq<TxOut>, b: nat) returns (fZero: bool)
    ensures fZero <==> MaskByte(Available(vout), b) == 0
  {
    hide ByteOf;
    ghost var a := Available(vout);
    ghost var bits := Block(a, b);
    fZero := true;
    for i := 0 to 8
      invariant fZero <==> forall j :: 0 <= j < i ==> !bits[j]
    {
      var spent := 2 + b * 8 + i >= |vout| || vout[2 + b * 8 + i].IsNull();
      assert bits[i] == BitAt(a, 2 + 8 * b + i);
      fZero := fZero && spent;
    }
    BitsBack(bits);
  }

  /** The mask is read until enough bytes were not zero. */
  function ReadMask(s: bytes, count: nat): Option<(seq<bool>, bytes)>
    decreases |s|
  {
    if count == 0 then Some(([], s))
    else if s == [] then None
    else
      match ReadMask(s[1..], if s[0] != 0 then count - 1 else count)
      case None => None
      case Some((bits, rest)) => Some((BitsOf(s[0], 8) + bits, rest))
  }

  lemma {:induction false} NonZeroGrows(a: seq<bool>, b: nat, n: nat)
    requires b <= n
    ensures NonZero(a, b) <= NonZero(a, n) && (b < n && MaskByte(a, n - 1) != 0 ==> NonZero(a, b) < NonZero(a, n))
  {
    if b < n {
      NonZeroGrows(a, b, n - 1);
    }
  }

  lemma {:induction false} MaskBack(a: seq<bool>, b: nat, n: nat, rest: bytes)
    requires b <= n && (b < n ==> MaskByte(a, n - 1) != 0)
    ensures NonZero(a, b) <= NonZero(a, n)
    ensures ReadMask(MaskBytes(a, b, n) + rest, NonZero(a, n) - NonZero(a, b)) == Some((MaskBits(a, b, n), rest))
    decreases n - b
  {
    hide MaskByte, Block, BitsOf, NonZero, MaskBytes, MaskBits, ReadMask;
    NonZeroGrows(a, b, n);
    MaskCons(a, b, n, rest);
    if b < n {
      MaskBack(a, b + 1, n, rest);
      NonZeroGrows(a, b + 1, n);
      NonZeroStep(a, b);
      ReadMaskStep(MaskByte(a, b), MaskBytes(a, b + 1, n) + rest, NonZero(a, n) - NonZero(a, b));
      BlockBits(a, b);
    }
  }

  lemma MaskCons(a: seq<bool>, b: nat, n: nat, rest: bytes)
    requires b <= n
    ensures b == n ==> MaskBytes(a, b, n) + rest == rest && MaskBits(a, b, n) == [] && ReadMask(rest, 0) == Some(([], rest))
    ensures b < n ==> MaskBytes(a, b, n) + rest == [MaskByte(a, b)] + (MaskBytes(a, b + 1, n) + rest)
    ensures b < n ==> MaskBits(a, b, n) == Block(a, b) + MaskBits(a, b + 1, n)
  {
    hide MaskByte, Block;
  }

  lemma NonZeroStep(a: seq<bool>, b: nat)
    ensures NonZero(a, b + 1) == NonZero(a, b) + if MaskByte(a, b) != 0 then 1 else 0
  {
  }

  lemma ReadMaskStep(x: nat, s: bytes, count: nat)
    requires count > 0
    ensures ReadMask([x] + s, count) ==
            match ReadMask(s, if x != 0 then count - 1 else count) case None => None case Some((bits, rest)) => Some((BitsOf(x, 8) + bits, rest))
  {
    assert ([x] + s)[1..] == s;
  }

  lemma BlockBits(a: seq<bool>, b: nat)
    ensures BitsOf(MaskByte(a, b), 8) == Block(a, b) && |Block(a, b)| == 8
    ensures forall i :: 0 <= i < 8 ==> Block(a, b)[i] == BitAt(a, 2 + 8 * b + i)
  {
    BitsBack(Block(a, b));
  }

  // ---- outputs ----

  function OutBytes(keys: Keys, o: TxOut): bytes {
    VarInt.Encoded(Amount.Packed(o.nValue)) + ScriptCodec.Encoded(keys, o.script)
  }

  function ReadOut(keys: Keys, s: bytes): Option<(TxOut, bytes)> {
    match VarInt.Decoded(s)
    case None => None
    case Some((x, rest)) =>
      match ScriptCodec.Decoded(keys, rest)
      case None => None
      case Some((script, rest')) => Some((TxOut(Amount.Unpacked(x), script), rest'))
  }

  function KeptOut(keys: Keys, o: TxOut): TxOut {
    if o.IsNull() then NULL_OUT else TxOut(Amount.KeptAmount(o.nValue), ScriptCodec.Kept(keys, o.script))
  }

  lemma OutBack(keys: Keys, o: TxOut, rest: bytes)
    requires ScriptCodec.KeysOk(keys) && !o.IsNull()
    ensures ReadOut(keys, OutBytes(keys, o) + rest) == Some((KeptOut(keys, o), rest))
  {
    hide VarInt.Encoded, VarInt.Decoded, ScriptCodec.Encoded, ScriptCodec.Decoded, Amount.Packed, Amount.Unpacked, ScriptCodec.KeysOk, ScriptCodec.Kept;
    var x, t := Amount.Packed(o.nValue), ScriptCodec.Encoded(keys, o.script);
    assert VarInt.Encoded(x) + t + rest == VarInt.Encoded(x) + (t + rest);
    VarInt.RoundTrip(x, t + rest);
    ScriptCodec.RoundTrip(keys, o.script, rest);
  }

  function OutsBytes(keys: Keys, vout: seq<TxOut>): bytes {
    if vout == [] then [] else (if vout[0].IsNull() then [] else OutBytes(keys, vout[0])) + OutsBytes(keys, vout[1..])
  }

  function ReadOuts(keys: Keys, s: bytes, avail: seq<bool>): Option<(seq<TxOut>, bytes)>
    decreases |avail|
  {
    if avail == [] then Some(([], s))
    else if avail[0] then
      match ReadOut(keys, s)
      case None => None
      case Some((o, rest)) =>
        (match ReadOuts(keys, rest, avail[1..])
         case None => None
         case Some((outs, rest')) => Some(([o] + outs, rest')))
    else
      match ReadOuts(keys, s, avail[1..])
      case None => None
      case Some((outs, rest')) => Some(([NULL_OUT] + outs, rest'))
  }

  function KeptOuts(keys: Keys, vout: seq<TxOut>): (r: seq<TxOut>)
    ensures |r| == |vout| && forall i :: 0 <= i < |vout| ==> r[i] == KeptOut(keys, vout[i])
  {
    seq(|vout|, i requires 0 <= i < |vout| => KeptOut(keys, vout[i]))
  }

  function Nulls(n: nat): (r: seq<TxOut>)
    ensures |r| == n && forall i :: 0 <= i < n ==> r[i] == NULL_OUT
  {
    seq(n, _ => NULL_OUT)
  }

  /** Reading the outputs, where the bitmask may go on beyond the last one. */
  lemma {:induction false} OutsBack(keys: Keys, vout: seq<TxOut>, avail: seq<bool>, rest: bytes)
    requires ScriptCodec.KeysOk(keys) && |vout| <= |avail|
    requires forall i :: 0 <= i < |avail| ==> avail[i] == BitAt(Available(vout), i)
    ensures ReadOuts(keys, OutsBytes(keys, vout) + rest, avail) == Some((KeptOuts(keys, vout) + Nulls(|avail| - |vout|), rest))
    decreases |avail|
  {
    hide OutBytes, ReadOut, ScriptCodec.KeysOk, KeptOut;
    var s := OutsBytes(keys, vout) + rest;
    var all := KeptOuts(keys, vout) + Nulls(|avail| - |vout|);
    if vout == [] {
      assert s == rest;
      NoneBack(keys, avail, rest);
      assert all == Nulls(|avail|);
    } else {
      var tail := OutsBytes(keys, vout[1..]) + rest;
      OutsBack(keys, vout[1..], avail[1..], rest);
      assert all == [KeptOut(keys, vout[0])] + (KeptOuts(keys, vout[1..]) + Nulls(|avail| - |vout|));
      if vout[0].IsNull() {
        NullKept(keys, vout[0]);
        assert s == tail;
      } else {
        assert s == OutBytes(keys, vout[0]) + tail;
        OutBack(keys, vout[0], tail);
      }
    }
  }

  lemma NullKept(keys: Keys, o: TxOut)
    requires o.IsNull()
    ensures KeptOut(keys, o) == NULL_OUT
  {
  }

  lemma {:induction false} NoneBack(keys: Keys, avail: seq<bool>, s: bytes)
    requires forall i :: 0 <= i < |avail| ==> !avail[i]
    ensures ReadOuts(keys, s, avail) == Some((Nulls(|avail|), s))
    decreases |avail|
  {
    if avail != [] {
      NoneBack(keys, avail[1..], s);
      assert Nulls(|avail|) == [NULL_OUT] + Nulls(|avail| - 1);
    }
  }

  // ---- the whole record ----

  function FirstTwo(a: seq<bool>): seq<bool> {
    [BitAt(a, 0), BitAt(a, 1)]
  }

  /** The header code: the number of mask bytes that are not zero, and three flags. */
  function Code(fCoinBase: bool, a: seq<bool>, nonZero: nat): int {
    8 * (nonZero - if BitAt(a, 0) || BitAt(a, 1) then 0 else 1)
    + (if fCoinBase then 1 else 0) + (if BitAt(a, 0) then 2 else 0) + (if BitAt(a, 1) then 4 else 0)
  }

  function Serialized(keys: Keys, c: Coins): bytes {
    var a, n := Available(c.vout), Blocks(|c.vout|);
    VarInt.Encoded(c.nVersion) + (VarInt.Encoded(Code(c.fCoinBase, a, NonZero(a, n))) +
    (MaskBytes(a, 0, LastUsed(a, n)) + (OutsBytes(keys, c.vout) + VarInt.Encoded(c.nHeight))))
  }

  function CodeAvail(code: nat): seq<bool> {
    [code / 2 % 2 == 1, code / 4 % 2 == 1]
  }

  function MaskCount(code: nat): nat {
    code / 8 + if code / 2 % 4 != 0 then 0 else 1
  }

  function Unserialized(keys: Keys, s: bytes): Option<(Coins, bytes)> {
    match VarInt.Decoded(s)
    case None => None
    case Some((version, s1)) =>
      match VarInt.Decoded(s1)
      case None => None
      case Some((code, s2)) =>
        match ReadMask(s2, MaskCount(code))
        case None => None
        case Some((bits, s3)) =>
          match ReadOuts(keys, s3, CodeAvail(code) + bits)
          case None => None
          case Some((outs, s4)) =>
            match VarInt.Decoded(s4)
            case None => None
            case Some((height, s5)) => Some((Coins(code % 2 == 1, outs, height, version).Cleaned(), s5))
  }

  /** A signed number as it is read back. */
  function KeptInt(n: int): int {
    if n < 0 then n % 128 else n
  }

  function KeptCoins(keys: Keys, c: Coins): Coins {
    Coins(c.fCoinBase, KeptOuts(keys, c.vout), KeptInt(c.nHeight), KeptInt(c.nVersion))
  }

  lemma CodeBack(fCoinBase: bool, a: seq<bool>, nonZero: nat)
    requires BitAt(a, 0) || BitAt(a, 1) || nonZero > 0
    ensures var code := Code(fCoinBase, a, nonZero);
            code >= 0 && (code % 2 == 1 <==> fCoinBase) && CodeAvail(code) == FirstTwo(a) && MaskCount(code) == nonZero
  {
    hide BitAt;
    var f := (if fCoinBase then 1 else 0) + (if BitAt(a, 0) then 2 else 0) + (if BitAt(a, 1) then 4 else 0);
    var k := nonZero - if BitAt(a, 0) || BitAt(a, 1) then 0 else 1;
    EightParts(k, f);
  }

  /** The header in bits: coinbase, the first two outputs, and above them the number of mask bytes that are not zero, less one
      if neither of the two is unspent. */
  lemma CodeBits(fCoinBase: bool, a: seq<bool>, nonZero: nat)
    requires BitAt(a, 0) || BitAt(a, 1) || nonZero > 0
    ensures var code := Code(fCoinBase, a, nonZero);
            && code >= 0 && (code % 2 == 1 <==> fCoinBase) && (code / 2 % 2 == 1 <==> BitAt(a, 0)) && (code / 4 % 2 == 1 <==> BitAt(a, 1))
            && code / 8 == if BitAt(a, 0) || BitAt(a, 1) then nonZero else nonZero - 1
  {
    hide BitAt;
    var f := (if fCoinBase then 1 else 0) + (if BitAt(a, 0) then 2 else 0) + (if BitAt(a, 1) then 4 else 0);
    EightParts(nonZero - if BitAt(a, 0) || BitAt(a, 1) then 0 else 1, f);
  }

  lemma EightParts(k: nat, f: nat)
    requires f < 8
    ensures var n := 8 * k + f; n / 8 == k && n % 2 == f % 2 && n / 2 % 2 == f / 2 % 2 && n / 4 % 2 == f / 4 % 2 && n / 2 % 4 == f / 2
  {
    var n := 8 * k + f;
    assert n / 2 == 4 * k + f / 2;
    assert n / 4 == 2 * k + f / 4;
  }

  /** Some output is unspent, and so the assertion of Serialize holds. */
  lemma SomethingLeft(vout: seq<TxOut>)
    requires vout != [] && !vout[|vout| - 1].IsNull()
    ensures var a, n := Available(vout), Blocks(|vout|);
            && (BitAt(a, 0) || BitAt(a, 1) || NonZero(a, n) > 0) && |vout| <= 2 + 8 * LastUsed(a, n)
            && NonZero(a, LastUsed(a, n)) == NonZero(a, n)
  {
    hide MaskByte;
    var a, n := Available(vout), Blocks(|vout|);
    if |vout| > 2 {
      LastByte(vout);
      NonZeroGrows(a, 0, n);
    } else {
      assert a[|vout| - 1];
    }
  }

  /** The last output is in the last byte. */
  lemma LastByte(vout: seq<TxOut>)
    requires |vout| > 2 && !vout[|vout| - 1].IsNull()
    ensures Blocks(|vout|) > 0 && MaskByte(Available(vout), Blocks(|vout|) - 1) != 0 && |vout| <= 2 + 8 * Blocks(|vout|)
  {
    hide ByteOf;
    var a, b := Available(vout), Blocks(|vout|) - 1;
    var i := |vout| - 1 - 2 - 8 * b;
    assert 0 <= i < 8;
    BitsBack(Block(a, b));
    assert Block(a, b)[i] == BitAt(a, |vout| - 1);
  }

  lemma Associate(x: bytes, y: bytes, z: bytes)
    ensures x + y + z == x + (y + z)
  {
  }

  /** A record that is cleaned up and not fully spent is read back as it is, up to what KeptCoins changes. */
  lemma UnserializeSerialize(keys: Keys, c: Coins, rest: bytes)
    requires ScriptCodec.KeysOk(keys) && c.IsClean() && c.vout != []
    ensures Unserialized(keys, Serialized(keys, c) + rest) == Some((KeptCoins(keys, c), rest))
  {
    hide VarInt.Encoded, VarInt.Decoded, MaskBytes, ReadMask, ReadOuts, OutsBytes, Code, MaskCount, NonZero, LastUsed;
    hide ScriptCodec.KeysOk, KeptOut, MaskByte, Trim, CodeAvail, Unserialized;
    var a, n := Available(c.vout), Blocks(|c.vout|);
    SomethingLeft(c.vout);
    var code, size := Code(c.fCoinBase, a, NonZero(a, n)), LastUsed(a, n);
    CodeBack(c.fCoinBase, a, NonZero(a, n));
    var v, k, m, o, h := VarInt.Encoded(c.nVersion), VarInt.Encoded(code), MaskBytes(a, 0, size), OutsBytes(keys, c.vout), VarInt.Encoded(c.nHeight);
    Associate(v, k + (m + (o + h)), rest);
    Associate(k, m + (o + h), rest);
    Associate(m, o + h, rest);
    Associate(o, h, rest);
    VarInt.RoundTrip(c.nVersion, k + (m + (o + (h + rest))));
    VarInt.RoundTrip(code, m + (o + (h + rest)));
    var outs := BodyBack(keys, c.vout, h + rest);
    VarInt.RoundTrip(c.nHeight, rest);
    UnserializedIs(keys, Serialized(keys, c) + rest, KeptInt(c.nVersion), k + (m + (o + (h + rest))), code, m + (o + (h + rest)),
                   MaskBits(a, 0, size), o + (h + rest), outs, h + rest, KeptInt(c.nHeight), rest);
  }

  /** The bitmask and the outputs. */
  lemma BodyBack(keys: Keys, vout: seq<TxOut>, rest: bytes) returns (outs: seq<TxOut>)
    requires ScriptCodec.KeysOk(keys) && vout != [] && !vout[|vout| - 1].IsNull()
    ensures var a, n := Available(vout), Blocks(|vout|); var size, tail := LastUsed(a, n), OutsBytes(keys, vout) + rest;
            && ReadMask(MaskBytes(a, 0, size) + tail, NonZero(a, n)) == Some((MaskBits(a, 0, size), tail))
            && ReadOuts(keys, tail, FirstTwo(a) + MaskBits(a, 0, size)) == Some((outs, rest)) && Trim(outs) == KeptOuts(keys, vout)
  {
    hide MaskBytes, ReadMask, ReadOuts, OutsBytes, NonZero, LastUsed, ScriptCodec.KeysOk, KeptOut, MaskByte, Trim, BitAt;
    var a, n := Available(vout), Blocks(|vout|);
    var size := LastUsed(a, n);
    SomethingLeft(vout);
    NoneBelow(a);
    MaskBack(a, 0, size, OutsBytes(keys, vout) + rest);
    var avail := FirstTwo(a) + MaskBits(a, 0, size);
    AvailBack(a, size);
    OutsBack(keys, vout, avail, rest);
    TrimBack(keys, vout, |avail| - |vout|);
    outs := KeptOuts(keys, vout) + Nulls(|avail| - |vout|);
  }

  lemma UnserializedIs(keys: Keys, s: bytes, version: nat, s1: bytes, code: nat, s2: bytes, bits: seq<bool>, s3: bytes,
                       outs: seq<TxOut>, s4: bytes, height: nat, s5: bytes)
    requires VarInt.Decoded(s) == Some((version, s1)) && VarInt.Decoded(s1) == Some((code, s2))
    requires ReadMask(s2, MaskCount(code)) == Some((bits, s3)) && ReadOuts(keys, s3, CodeAvail(code) + bits) == Some((outs, s4))
    requires VarInt.Decoded(s4) == Some((height, s5))
    ensures Unserialized(keys, s) == Some((Coins(code % 2 == 1, Trim(outs), height, version), s5))
  {
    hide VarInt.Decoded, ReadMask, ReadOuts, MaskCount, CodeAvail, Trim;
  }

  lemma NoneBelow(a: seq<bool>)
    ensures NonZero(a, 0) == 0
  {
  }

  lemma AvailBack(a: seq<bool>, size: nat)
    ensures var avail := FirstTwo(a) + MaskBits(a, 0, size);
            |avail| == 2 + 8 * size && forall i :: 0 <= i < |avail| ==> avail[i] == BitAt(a, i)
  {
  }

  lemma TrimBack(keys: Keys, vout: seq<TxOut>, n: nat)
    requires vout != [] && !vout[|vout| - 1].IsNull()
    ensures Trim(KeptOuts(keys, vout) + Nulls(n)) == KeptOuts(keys, vout)
  {
    var s := KeptOuts(keys, vout) + Nulls(n);
    Amount.NeverNull(Amount.Packed(vout[|vout| - 1].nValue));
    assert !s[|vout| - 1].IsNull();
    TrimUnique(s, |vout|);
    assert s[..|vout|] == KeptOuts(keys, vout);
  }

  /** Spent outputs are blank; of others the amount is a 64-bit one whose compressed form fits, and the script is within the limit. */
  predicate StorableOut(o: TxOut) {
    if o.IsNull() then o == NULL_OUT
    else
      && -0x8000_0000_0000_0000 <= o.nValue < 0x8000_0000_0000_0000 && Amount.Compress(o.nValue % Amount.WORD) < Amount.WORD
      && |o.script| <= ScriptCodec.MAX_SCRIPT_SIZE
  }

  predicate Storable(c: Coins) {
    c.nVersion >= 0 && c.nHeight >= 0 && forall i :: 0 <= i < |c.vout| ==> StorableOut(c.vout[i])
  }

  lemma OutKept(keys: Keys, o: TxOut)
    ensures KeptOut(keys, o) == o <==> StorableOut(o)
  {
    hide ScriptCodec.Kept, Amount.KeptAmount, Amount.Compress;
    ScriptCodec.KeptExactly(keys, o.script);
    AmountWrap.KeptExactly(o.nValue);
  }

  /** The exact condition for a record to survive. */
  lemma RoundTrip(keys: Keys, c: Coins, rest: bytes)
    requires ScriptCodec.KeysOk(keys) && c.IsClean() && c.vout != []
    ensures Unserialized(keys, Serialized(keys, c) + rest) == Some((c, rest)) <==> Storable(c)
  {
    hide Serialized, Unserialized, ScriptCodec.KeysOk, KeptOut, StorableOut;
    UnserializeSerialize(keys, c, rest);
    var k := KeptCoins(keys, c);
    forall i | 0 <= i < |c.vout|
      ensures k.vout[i] == c.vout[i] <==> StorableOut(c.vout[i])
    {
      OutKept(keys, c.vout[i]);
    }
    if Storable(c) {
      assert k.vout == c.vout;
    }
    if k == c {
      assert forall i :: 0 <= i < |c.vout| ==> k.vout[i] == c.vout[i];
    }
  }

  /** The signed version is the hazard: a negative one is silently replaced. */
  lemma NegativeVersionLost(keys: Keys)
    requires ScriptCodec.KeysOk(keys)
    ensures var c := Coins(false, [TxOut(0, [])], 0, -1); Unserialized(keys, Serialized(keys, c)) == Some((c.(nVersion := 127), []))
  {
    hide Serialized, Unserialized, ScriptCodec.KeysOk;
    var c := Coins(false, [TxOut(0, [])], 0, -1);
    UnserializeSerialize(keys, c, []);
    assert Serialized(keys, c) + [] == Serialized(keys, c);
    OutKept(keys, c.vout[0]);
    assert KeptOuts(keys, c.vout) == c.vout;
  }
}
