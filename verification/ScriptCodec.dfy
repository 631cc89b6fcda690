/** The compact form of output scripts (CScriptCompressor of src/compressor.h and src/compressor.cpp). */
module ScriptCodec {
  import opened Common
  import opened VarInt

  const OP_RETURN: nat := 0x6a
  const OP_DUP := 0x76
  const OP_EQUAL := 0x87
  const OP_EQUALVERIFY := 0x88
  const OP_HASH160 := 0xa9
  const OP_CHECKSIG := 0xac
  const SPECIAL_SCRIPTS := 6
  const MAX_SCRIPT_SIZE := 10000

  /** Public keys: whether an uncompressed key is valid, and the uncompressed form of a compressed one. */
  datatype Keys = Keys(valid: bytes -> bool, expand: (nat, bytes) -> Option<bytes>)

  /** A valid key is recovered from its first coordinate and the parity of its second one. */
  ghost predicate KeysOk(keys: Keys) {
    forall key: bytes :: |key| == 65 && key[0] == 4 && keys.valid(key) ==> keys.expand(2 + key[64] % 2, key[1..33]) == Some(key)
  }

  predicate IsToKeyID(s: bytes) {
    |s| == 25 && s[0] == OP_DUP && s[1] == OP_HASH160 && s[2] == 20 && s[23] == OP_EQUALVERIFY && s[24] == OP_CHECKSIG
  }

  predicate IsToScriptID(s: bytes) {
    |s| == 23 && s[0] == OP_HASH160 && s[1] == 20 && s[22] == OP_EQUAL
  }

  predicate IsToShortKey(s: bytes) {
    |s| == 35 && s[0] == 33 && s[34] == OP_CHECKSIG && (s[1] == 2 || s[1] == 3)
  }

  predicate IsToLongKey(keys: Keys, s: bytes) {
    |s| == 67 && s[0] == 65 && s[66] == OP_CHECKSIG && s[1] == 4 && keys.valid(s[1..66])
  }

  /** CScriptCompressor::Compress */
  function Compress(keys: Keys, s: bytes): Option<bytes> {
    if IsToKeyID(s) then Some([0] + s[3..23])
    else if IsToScriptID(s) then Some([1] + s[2..22])
    else if IsToShortKey(s) then Some([s[1]] + s[2..34])
    else if IsToLongKey(keys, s) then Some([4 + s[65] % 2] + s[2..34])
    else None
  }

  function SpecialSize(n: nat): nat {
    if n <= 1 then 20 else if n <= 5 then 32 else 0
  }

  /** CScriptCompressor::Decompress; a key that cannot be expanded leaves the script empty */
  function Decompress(keys: Keys, n: nat, data: bytes): bytes {
    if n == 0 then [OP_DUP, OP_HASH160, 20] + data + [OP_EQUALVERIFY, OP_CHECKSIG]
    else if n == 1 then [OP_HASH160, 20] + data + [OP_EQUAL]
    else if n == 2 || n == 3 then [33, n] + data + [OP_CHECKSIG]
    else if n == 4 || n == 5 then
      match keys.expand(n - 2, data)
      case None => []
      case Some(key) => [65] + key + [OP_CHECKSIG]
    else []
  }

  function Encoded(keys: Keys, s: bytes): bytes {
    match Compress(keys, s)
    case Some(out) => out
    case None => VarInt.Encoded(|s| + SPECIAL_SCRIPTS) + s
  }

  /** Reading a script; it fails when the stream is too short, and an overlong script becomes a short invalid one. */
  function Decoded(keys: Keys, s: bytes): Option<(bytes, bytes)> {
    match VarInt.Decoded(s)
    case None => None
    case Some((n, rest)) =>
      if n < SPECIAL_SCRIPTS then
        if |rest| < SpecialSize(n) then None else Some((Decompress(keys, n, rest[..SpecialSize(n)]), rest[SpecialSize(n)..]))
      else
        var size := n - SPECIAL_SCRIPTS;
        if |rest| < size then None
        else if size > MAX_SCRIPT_SIZE then Some(([OP_RETURN], rest[size..]))
        else Some((rest[..size], rest[size..]))
  }

  /** What a script is read back as. */
  function Kept(keys: Keys, s: bytes): bytes {
    if Compress(keys, s).None? && |s| > MAX_SCRIPT_SIZE then [OP_RETURN] else s
  }

  /** Only scripts over the size limit are changed. */
  lemma KeptExactly(keys: Keys, s: bytes)
    ensures Kept(keys, s) == s <==> |s| <= MAX_SCRIPT_SIZE
  {
  }

  lemma CompressBack(keys: Keys, s: bytes)
    requires KeysOk(keys) && Compress(keys, s).Some?
    ensures var out := Compress(keys, s).value;
            && out != [] && out[0] < SPECIAL_SCRIPTS && |out| == 1 + SpecialSize(out[0]) && Decompress(keys, out[0], out[1..]) == s
  {
    var out := Compress(keys, s).value;
    if IsToKeyID(s) {
      KeyIdBack(keys, s);
    } else if IsToScriptID(s) {
      assert out[1..] == s[2..22];
      assert [OP_HASH160, 20] + s[2..22] + [OP_EQUAL] == s;
    } else if IsToShortKey(s) {
      assert out[1..] == s[2..34];
      assert [33, s[1]] + s[2..34] + [OP_CHECKSIG] == s;
    } else {
      LongKeyBack(keys, s);
    }
  }

  /** The four forms in bytes: the header byte, and the hash or the first coordinate of the key. */
  lemma Forms(keys: Keys, hash: bytes, x: bytes, y: bytes)
    requires |hash| == 20 && |x| == 32 && |y| == 32
    ensures Compress(keys, [0x76, 0xa9, 20] + hash + [0x88, 0xac]) == Some([0] + hash)
    ensures Compress(keys, [0xa9, 20] + hash + [0x87]) == Some([1] + hash)
    ensures Compress(keys, [33, 2] + x + [0xac]) == Some([2] + x) && Compress(keys, [33, 3] + x + [0xac]) == Some([3] + x)
    ensures Compress(keys, [65, 4] + x + y + [0xac]) == if keys.valid([4] + x + y) then Some([4 + y[31] % 2] + x) else None
  {
    var a := [0x76, 0xa9, 20] + hash + [0x88, 0xac];
    assert a[3..23] == hash;
    var b := [0xa9, 20] + hash + [0x87];
    assert b[2..22] == hash;
    ShortForm(keys, x, 2);
    ShortForm(keys, x, 3);
    var d := [65, 4] + x + y + [0xac];
    assert d[1..66] == [4] + x + y && d[2..34] == x && d[65] == y[31];
  }

  lemma ShortForm(keys: Keys, x: bytes, n: nat)
    requires |x| == 32 && (n == 2 || n == 3)
    ensures Compress(keys, [33, n] + x + [0xac]) == Some([n] + x)
  {
    var c := [33, n] + x + [0xac];
    assert c[2..34] == x;
  }

  lemma KeyIdBack(keys: Keys, s: bytes)
    requires IsToKeyID(s)
    ensures Decompress(keys, 0, ([0] + s[3..23])[1..]) == s
  {
    assert ([0] + s[3..23])[1..] == s[3..23];
    assert [OP_DUP, OP_HASH160, 20] + s[3..23] + [OP_EQUALVERIFY, OP_CHECKSIG] == s;
  }

  lemma LongKeyBack(keys: Keys, s: bytes)
    requires KeysOk(keys) && IsToLongKey(keys, s)
    ensures Decompress(keys, 4 + s[65] % 2, ([4 + s[65] % 2] + s[2..34])[1..]) == s
  {
    var key := s[1..66];
    assert key[64] == s[65] && key[1..33] == s[2..34];
    assert ([4 + s[65] % 2] + s[2..34])[1..] == s[2..34];
    assert [65] + key + [OP_CHECKSIG] == s;
  }

  lemma FirstByte(b: nat, rest: bytes)
    requires b < 128
    ensures VarInt.Decoded([b] + rest) == Some((b, rest))
  {
    OneByte(0, b, rest);
  }

  /** Scripts come back, except for those over the size limit. */
  lemma RoundTrip(keys: Keys, s: bytes, rest: bytes)
    requires KeysOk(keys)
    ensures Decoded(keys, Encoded(keys, s) + rest) == Some((Kept(keys, s), rest))
  {
    hide Compress, Decompress, VarInt.Decoded, VarInt.Encoded, KeysOk;
    match Compress(keys, s) {
      case Some(out) =>
        CompressBack(keys, s);
        assert out + rest == [out[0]] + (out[1..] + rest);
        FirstByte(out[0], out[1..] + rest);
        assert (out[1..] + rest)[..|out| - 1] == out[1..] && (out[1..] + rest)[|out| - 1..] == rest;
      case None =>
        var n := |s| + SPECIAL_SCRIPTS;
        assert VarInt.Encoded(n) + s + rest == VarInt.Encoded(n) + (s + rest);
        VarInt.RoundTrip(n, s + rest);
        assert (s + rest)[..|s|] == s && (s + rest)[|s|..] == rest;
    }
  }
}
