/** The loops of CCoins::Serialize and CCoins::Unserialize (src/coins.h), proved against the stored form. */
module CoinsStream {
  import opened Common
  import opened CoinRecord
  import opened VarInt
  import opened CoinsCodec
  import Amount
  import ScriptCodec
  import opened Limbs

  lemma {:induction false} ByteSnoc(bits: seq<bool>, x: bool)
    ensures ByteOf(bits + [x]) == ByteOf(bits) + if x then Pow(2, |bits|) else 0
  {
    var s := bits + [x];
    if bits == [] {
      assert s[1..] == [];
    } else {
      ByteSnoc(bits[1..], x);
      assert s[1..] == bits[1..] + [x];
      PowStep(2, |bits| - 1);
    }
  }

  lemma {:induction false} ByteBound(bits: seq<bool>)
    ensures ByteOf(bits) < Pow(2, |bits|)
  {
    if bits != [] {
      ByteBound(bits[1..]);
      PowStep(2, |bits| - 1);
    }
  }

  /** One byte of the bitmask. */
  method AvailByte(vout: seq<TxOut>, b: nat) returns (chAvail: nat)
    ensures chAvail == MaskByte(Available(vout), b)
  {
    hide ByteOf, Pow;
    chAvail := 0;
    ghost var bits := Block(Available(vout), b);
    NoBits();
    for i := 0 to 8
      invariant chAvail == ByteOf(bits[..i])
    {
      assert bits[..i + 1] == bits[..i] + [bits[i]];
      ByteSnoc(bits[..i], bits[i]);
      ByteBound(bits[..i]);
      OrDisjoint(Pow(2, i), chAvail, i);
      if 2 + b * 8 + i < |vout| && !vout[2 + b * 8 + i].IsNull() {
        chAvail := Or(chAvail, Pow(2, i));
      }
    }
    assert bits[..8] == bits;
  }

  lemma NoBits()
    ensures ByteOf([]) == 0
  {
  }

  lemma MaskSnoc(a: seq<bool>, b: nat, n: nat)
    requires b <= n
    ensures MaskBytes(a, b, n + 1) == MaskBytes(a, b, n) + [MaskByte(a, n)]
    decreases n - b
  {
    hide MaskByte;
    if b < n {
      MaskSnoc(a, b + 1, n);
    }
  }

  /** CCoins::Serialize; only records that are not fully spent can be stored */
  method Serialize(keys: Keys, c: Coins) returns (s: bytes)
    requires !c.IsPruned()
    ensures s == Serialized(keys, c)
  {
    hide OutsBytes, MaskByte, MaskBytes, VarInt.Encoded;
    ghost var a := Available(c.vout);
    var nMaskSize, nMaskCode := CalcMaskSize(c.vout);
    var fFirst := |c.vout| > 0 && !c.vout[0].IsNull();
    var fSecond := |c.vout| > 1 && !c.vout[1].IsNull();
    Unspent(c);
    assert fFirst || fSecond || nMaskCode != 0;
    var nCode := 8 * (nMaskCode - (if fFirst || fSecond then 0 else 1)) + (if c.fCoinBase then 1 else 0) + (if fFirst then 2 else 0) + (if fSecond then 4 else 0);
    assert nCode == Code(c.fCoinBase, a, nMaskCode);
    var version := VarInt.Write([], c.nVersion);
    var code := VarInt.Write([], nCode);
    var mask := WriteMask(c.vout, nMaskSize);
    var outs := WriteOuts(keys, c.vout);
    var height := VarInt.Write([], c.nHeight);
    Nothing(VarInt.Encoded(c.nVersion));
    Nothing(VarInt.Encoded(nCode));
    Nothing(VarInt.Encoded(c.nHeight));
    s := version + (code + (mask + (outs + height)));
  }

  lemma Nothing(s: bytes)
    ensures [] + s == s
  {
  }

  /** The assertion of Serialize holds for every record that is not fully spent. */
  lemma Unspent(c: Coins)
    requires !c.IsPruned()
    ensures var a := Available(c.vout); BitAt(a, 0) || BitAt(a, 1) || NonZero(a, Blocks(|c.vout|)) > 0
  {
    hide MaskByte;
    var a, n := Available(c.vout), Blocks(|c.vout|);
    var i :| 0 <= i < |c.vout| && !c.vout[i].IsNull();
    if i >= 2 {
      var b := (i - 2) / 8;
      ByteHolds(a, i);
      NonZeroGrows(a, 0, b + 1);
      NonZeroGrows(a, b + 1, n);
    }
  }

  lemma ByteHolds(a: seq<bool>, i: nat)
    requires i >= 2 && BitAt(a, i)
    ensures MaskByte(a, (i - 2) / 8) != 0
  {
    hide ByteOf;
    var b := (i - 2) / 8;
    BitsBack(Block(a, b));
    assert Block(a, b)[i - 2 - 8 * b] == BitAt(a, i);
  }

  method WriteMask(vout: seq<TxOut>, n: nat) returns (s: bytes)
    ensures s == MaskBytes(Available(vout), 0, n)
  {
    s := [];
    ghost var a := Available(vout);
    for b := 0 to n
      invariant s == MaskBytes(a, 0, b)
    {
      hide MaskByte, MaskBytes;
      var chAvail := AvailByte(vout, b);
      MaskSnoc(a, 0, b);
      s := s + [chAvail];
    }
  }

  method WriteOuts(keys: Keys, vout: seq<TxOut>) returns (s: bytes)
    ensures s == OutsBytes(keys, vout)
  {
    hide OutBytes;
    s := [];
    assert vout[0..] == vout;
    Nothing(OutsBytes(keys, vout));
    for i := 0 to |vout|
      invariant s + OutsBytes(keys, vout[i..]) == OutsBytes(keys, vout)
    {
      assert vout[i..][0] == vout[i] && vout[i..][1..] == vout[i + 1..];
      if !vout[i].IsNull() {
        Associate(s, OutBytes(keys, vout[i]), OutsBytes(keys, vout[i + 1..]));
        var out := WriteOut(keys, vout[i]);
        s := s + out;
      } else {
        Nothing(OutsBytes(keys, vout[i + 1..]));
      }
    }
    assert s + [] == s;
  }

  /** CTxOutCompressor for writing */
  method WriteOut(keys: Keys, o: TxOut) returns (s: bytes)
    ensures s == OutBytes(keys, o)
  {
    hide VarInt.Encoded, ScriptCodec.Encoded, Amount.Compress;
    var nVal := Amount.CompressAmount(o.nValue % Amount.WORD);
    var amount := VarInt.Write([], nVal);
    Nothing(VarInt.Encoded(nVal));
    s := amount + ScriptCodec.Encoded(keys, o.script);
  }

  /** CCoins::Unserialize; None when the stream ends too early */
  method Unserialize(keys: Keys, s: bytes) returns (r: Option<(Coins, bytes)>)
    ensures r == Unserialized(keys, s)
  {
    hide VarInt.Decoded, ReadMask, ReadOuts, Trim;
    r := None;
    var ok, version, rest := VarInt.Read(s);
    var code: nat := 0;
    if ok {
      ok, code, rest := VarInt.Read(rest);
    }
    if ok {
      var mask := LoadMask(rest, MaskCount(code));
      if mask.Some? {
        var outs := LoadOuts(keys, mask.value.1, CodeAvail(code) + mask.value.0);
        if outs.Some? {
          var height;
          ok, height, rest := VarInt.Read(outs.value.1);
          if ok {
            var c := Cleanup(Coins(code % 2 == 1, outs.value.0, height, version));
            r := Some((c, rest));
          }
        }
      }
    }
  }

  /** The loop over the bitmask. */
  method LoadMask(s: bytes, count: nat) returns (r: Option<(seq<bool>, bytes)>)
    ensures r == ReadMask(s, count)
  {
    var bits: seq<bool>, rest, nMaskCode := [], s, count;
    MaskAfterNothing(ReadMask(s, count));
    while nMaskCode > 0 && rest != []
      invariant ReadMask(s, count) == MaskAfter(bits, ReadMask(rest, nMaskCode))
      decreases |rest|
    {
      var chAvail := rest[0];
      var more := if chAvail != 0 then nMaskCode - 1 else nMaskCode;
      MaskAfterTwice(bits, BitsOf(chAvail, 8), ReadMask(rest[1..], more));
      bits := bits + BitsOf(chAvail, 8);
      rest, nMaskCode := rest[1..], more;
    }
    r := if nMaskCode == 0 then Some((bits, rest)) else None;
    assert bits + [] == bits;
  }

  function MaskAfter(bits: seq<bool>, r: Option<(seq<bool>, bytes)>): Option<(seq<bool>, bytes)> {
    match r
    case None => None
    case Some((more, rest)) => Some((bits + more, rest))
  }

  lemma MaskAfterNothing(r: Option<(seq<bool>, bytes)>)
    ensures MaskAfter([], r) == r
  {
    if r.Some? {
      assert [] + r.value.0 == r.value.0;
    }
  }

  lemma MaskAfterTwice(a: seq<bool>, b: seq<bool>, r: Option<(seq<bool>, bytes)>)
    ensures MaskAfter(a, MaskAfter(b, r)) == MaskAfter(a + b, r)
  {
    if r.Some? {
      assert a + (b + r.value.0) == (a + b) + r.value.0;
    }
  }

  function OutsAfter(outs: seq<TxOut>, r: Option<(seq<TxOut>, bytes)>): Option<(seq<TxOut>, bytes)> {
    match r
    case None => None
    case Some((more, rest)) => Some((outs + more, rest))
  }

  lemma OutsAfterNothing(r: Option<(seq<TxOut>, bytes)>)
    ensures OutsAfter([], r) == r
  {
    if r.Some? {
      assert [] + r.value.0 == r.value.0;
    }
  }

  lemma OutsAfterTwice(a: seq<TxOut>, o: TxOut, r: Option<(seq<TxOut>, bytes)>)
    ensures OutsAfter(a, OutsAfter([o], r)) == OutsAfter(a + [o], r)
  {
    if r.Some? {
      assert a + ([o] + r.value.0) == (a + [o]) + r.value.0;
    }
  }

  /** CTxOutCompressor for reading */
  method LoadOut(keys: Keys, s: bytes) returns (r: Option<(TxOut, bytes)>)
    ensures r == ReadOut(keys, s)
  {
    hide VarInt.Decoded, ScriptCodec.Decoded, Amount.Decompress;
    r := None;
    var ok, nVal, rest := VarInt.ReadWord(s);
    if ok {
      var nValue := Amount.DecompressAmount(nVal);
      match ScriptCodec.Decoded(keys, rest) {
        case None =>
        case Some((script, after)) => r := Some((TxOut(Amount.Signed(nValue), script), after));
      }
    }
  }

  /** The loop over the outputs. */
  method LoadOuts(keys: Keys, s: bytes, vAvail: seq<bool>) returns (r: Option<(seq<TxOut>, bytes)>)
    ensures r == ReadOuts(keys, s, vAvail)
  {
    hide ReadOut;
    var vout: seq<TxOut>, rest, ok, i := [], s, true, 0;
    assert vAvail[0..] == vAvail;
    OutsAfterNothing(ReadOuts(keys, s, vAvail));
    while ok && i < |vAvail|
      invariant 0 <= i <= |vAvail|
      invariant ReadOuts(keys, s, vAvail) == if ok then OutsAfter(vout, ReadOuts(keys, rest, vAvail[i..])) else None
      decreases ok, |vAvail| - i
    {
      assert vAvail[i..][0] == vAvail[i] && vAvail[i..][1..] == vAvail[i + 1..];
      var o := NULL_OUT;
      if vAvail[i] {
        var out := LoadOut(keys, rest);
        match out {
          case None => ok := false;
          case Some((out, after)) => o, rest := out, after;
        }
      }
      if ok {
        OutsAfterTwice(vout, o, ReadOuts(keys, rest, vAvail[i + 1..]));
        vout := vout + [o];
        i := i + 1;
      }
    }
    r := if ok then Some((vout, rest)) else None;
    assert vout + [] == vout;
  }

  /** A storable record survives being written and read. */
  method StoreAndLoad(keys: Keys, c: Coins) returns (r: Option<(Coins, bytes)>)
    requires ScriptCodec.KeysOk(keys) && c.IsClean() && c.vout != []
    ensures r == Some((c, [])) <==> Storable(c)
  {
    hide Serialized, Unserialized, ScriptCodec.KeysOk, Storable;
    CoinsCodec.RoundTrip(keys, c, []);
    Unemptied(c);
    var s := Serialize(keys, c);
    assert s + [] == s;
    r := Unserialize(keys, s);
  }

  lemma Unemptied(c: Coins)
    requires c.IsClean() && c.vout != []
    ensures !c.IsPruned()
  {
    assert !c.vout[|c.vout| - 1].IsNull();
  }
}
