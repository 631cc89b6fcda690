/** Encoding and decoding Bech32 strings (src/bech32.cpp; section "Bech32" of BIP 173). */
module Bech32 {
  import opened Common
  import opened Bech32Checksum

  // ---- checksums ----

  /** A character of a std::string as an unsigned char. */
  function Code(c: char): nat {
    c as nat % 256
  }

  function HighBits(c: char): bv8 {
    (Code(c) / 32) as bv8
  }

  function LowBits(c: char): bv8 {
    (Code(c) % 32) as bv8
  }

  function ExpandHRP(hrp: string): data {
    seq(|hrp|, i requires 0 <= i < |hrp| => HighBits(hrp[i])) + [0] + seq(|hrp|, i requires 0 <= i < |hrp| => LowBits(hrp[i]))
  }

  predicate VerifyChecksum(hrp: string, values: data) {
    Feed(1, ExpandHRP(hrp) + values) == 1
  }

  const SIX_ZEROES: data := [0, 0, 0, 0, 0, 0]

  /** A 30-bit number shifted right by 6 - k groups of five bits. */
  function Top(m: bv32, k: nat): bv32
    decreases 6 - k
  {
    if k >= 6 then m else Top(m, k + 1) >> 5
  }

  /** The six 5-bit groups of a 30-bit number, highest first. */
  function Groups(m: bv32): (g: data)
    ensures |g| == 6
  {
    seq(6, i requires 0 <= i => Low(Top(m, i + 1)))
  }

  function Low(x: bv32): bv8 {
    (x & 31) as bv8
  }

  function CreateChecksum(hrp: string, values: data): data {
    Groups(Xor(Feed(1, ExpandHRP(hrp) + values + SIX_ZEROES), 1))
  }

  lemma Widen(x: bv32)
    ensures Low(x) as bv32 == x & 31 && Low(x) < 32
  {
  }

  lemma LastGroup(x: bv32)
    ensures ((x >> 5) << 5) ^ (x & 31) == x && x >> 5 <= x && (x < 0x4000_0000 ==> x >> 5 < 0x200_0000)
  {
  }

  lemma {:induction false} TopBound(m: bv32, k: nat)
    requires m < 0x4000_0000
    ensures Top(m, k) < 0x4000_0000
    decreases 6 - k
  {
    if k < 6 {
      TopBound(m, k + 1);
      LastGroup(Top(m, k + 1));
    }
  }

  lemma TopGroup(m: bv32, k: nat)
    requires m < 0x4000_0000 && k < 6
    ensures Top(m, k) < 0x200_0000 && (Top(m, k) << 5) ^ (Groups(m)[k] as bv32) == Top(m, k + 1) && Groups(m)[k] < 32
  {
    TopBound(m, k + 1);
    LastGroup(Top(m, k + 1));
    Widen(Top(m, k + 1));
    hide Low;
  }

  lemma TopStep(m: bv32, k: nat)
    requires m < 0x4000_0000 && k < 6
    ensures Step(Top(m, k), Groups(m)[k]) == Top(m, k + 1) && Groups(m)[k] < 32
  {
    TopGroup(m, k);
    hide Step, Top, Groups;
    StepShifts(Top(m, k), Groups(m)[k]);
  }

  lemma TopEnds(m: bv32)
    requires m < 0x4000_0000
    ensures Top(m, 0) == 0 && Top(m, 6) == m
  {
    AllShifted(m);
  }

  lemma AllShifted(m: bv32)
    requires m < 0x4000_0000
    ensures ((((((m >> 5) >> 5) >> 5) >> 5) >> 5) >> 5) == 0
  {
  }

  /** The six groups, fed to the checksum, give the number back. */
  lemma GroupsPack(m: bv32)
    requires m < 0x4000_0000
    ensures Feed(0, Groups(m)) == m && |Groups(m)| == 6 && forall i :: 0 <= i < 6 ==> Groups(m)[i] < 32
  {
    hide Step, Groups, Feed, Top;
    TopEnds(m);
    forall k | 0 <= k < 6
      ensures Step(Top(m, k), Groups(m)[k]) == Top(m, k + 1) && Groups(m)[k] < 32
    {
      TopStep(m, k);
    }
    FeedSix(Groups(m), Top(m, 1), Top(m, 2), Top(m, 3), Top(m, 4), Top(m, 5), Top(m, 6));
  }

  lemma FeedSix(g: data, s1: bv32, s2: bv32, s3: bv32, s4: bv32, s5: bv32, s6: bv32)
    requires |g| == 6 && Step(0, g[0]) == s1 && Step(s1, g[1]) == s2 && Step(s2, g[2]) == s3
    requires Step(s3, g[3]) == s4 && Step(s4, g[4]) == s5 && Step(s5, g[5]) == s6
    ensures Feed(0, g) == s6
  {
    hide Step;
    assert Feed(0, g) == Feed(s1, g[1..]);
    assert g[1..][1..] == g[2..] && g[2..][1..] == g[3..] && g[3..][1..] == g[4..] && g[4..][1..] == g[5..] && g[5..][1..] == [];
    assert Feed(s1, g[1..]) == Feed(s2, g[2..]);
    assert Feed(s2, g[2..]) == Feed(s3, g[3..]);
    assert Feed(s3, g[3..]) == Feed(s4, g[4..]);
    assert Feed(s4, g[4..]) == Feed(s5, g[5..]);
    assert Feed(s5, g[5..]) == Feed(s6, []);
  }

  /** Zeros change nothing in a difference. */
  lemma XorZero(v: bv8)
    ensures v ^ 0 == v && 0 ^ v == v
  {
  }

  /** A created checksum is always accepted. */
  lemma ChecksumAccepted(hrp: string, values: data)
    ensures VerifyChecksum(hrp, values + CreateChecksum(hrp, values))
    ensures |CreateChecksum(hrp, values)| == 6 && forall i :: 0 <= i < 6 ==> CreateChecksum(hrp, values)[i] < 32
  {
    hide Feed, Step, Xor, Groups, ExpandHRP;
    var enc := ExpandHRP(hrp) + values;
    var r := Feed(1, enc + SIX_ZEROES);
    var m := Xor(r, 1);
    RemainderBound(enc + SIX_ZEROES);
    FlipLast(r);
    GroupsPack(m);
    var s := Groups(m);
    var zeroes: data := seq(|enc|, _ => 0);
    FeedXor(1, 0, enc + SIX_ZEROES, zeroes + s);
    FeedAppend(0, zeroes, s);
    ZerosNothing(zeroes);
    var d := Difference(enc + SIX_ZEROES, zeroes + s);
    forall i | 0 <= i < |enc| + 6
      ensures d[i] == (enc + s)[i]
    {
      XorZero((enc + s)[i]);
    }
    assert d == enc + s;
    Cancel(1);
    assert ExpandHRP(hrp) + (values + s) == enc + s;
  }

  lemma RemainderBound(v: data)
    requires v != []
    ensures Feed(1, v) < 0x4000_0000
  {
    hide Feed, Step;
    var n := |v| - 1;
    FeedAppend(1, v[..n], v[n..]);
    assert v == v[..n] + v[n..];
    FeedOne(Feed(1, v[..n]), v[n]);
    assert v[n..] == [v[n]];
    StepBound(Feed(1, v[..n]), v[n]);
  }

  lemma FeedOne(c: bv32, v: bv8)
    ensures Feed(c, [v]) == Step(c, v)
  {
    hide Step;
    assert Feed(Step(c, v), [v][1..]) == Step(c, v);
  }

  lemma FlipLast(r: bv32)
    requires r < 0x4000_0000
    ensures Xor(r, 1) < 0x4000_0000 && Xor(r, Xor(r, 1)) == 1
  {
  }

  /** Of two lists under the same HRP that differ in a burst of at most six symbols, at most one is accepted, at any length. */
  lemma BurstsRejected(hrp: string, u: data, w: data, first: nat)
    requires BurstError(u, w, first)
    ensures !(VerifyChecksum(hrp, u) && VerifyChecksum(hrp, w))
  {
    hide Feed, ExpandHRP;
    FeedAppend(1, ExpandHRP(hrp), u);
    FeedAppend(1, ExpandHRP(hrp), w);
    BurstDetected(Feed(1, ExpandHRP(hrp)), u, w, first);
  }

  /** In particular a single wrong symbol is always detected. */
  lemma SubstitutionRejected(hrp: string, u: data, i: nat, v: bv8)
    requires i < |u| && v < 32 && v != u[i] && forall k :: 0 <= k < |u| ==> u[k] < 32
    ensures !(VerifyChecksum(hrp, u) && VerifyChecksum(hrp, u[i := v]))
  {
    assert u != u[i := v] by {
      assert u[i] != u[i := v][i];
    }
    BurstsRejected(hrp, u, u[i := v], i);
  }

  // ---- the human-readable part ----

  /** A symbol as a number. */
  function Number(v: bv8): nat {
    v as nat
  }

  lemma SymbolBack(n: nat)
    requires n < 32
    ensures Number(n as bv8) == n && (n as bv8) < 32
  {
  }

  lemma BitsExact(c: char)
    ensures 32 * Number(HighBits(c)) + Number(LowBits(c)) == Code(c) && HighBits(c) < 32 && LowBits(c) < 32
  {
    hide Number, Code;
    assert Code(c) < 256 by { CodeBound(c); }
    SymbolBack(Code(c) / 32);
    SymbolBack(Code(c) % 32);
  }

  lemma CodeBound(c: char)
    ensures Code(c) < 256
  {
  }

  lemma ExpandAt(hrp: string, i: nat)
    requires i <= 2 * |hrp|
    ensures |ExpandHRP(hrp)| == 2 * |hrp| + 1
    ensures ExpandHRP(hrp)[i] == if i < |hrp| then HighBits(hrp[i]) else if i == |hrp| then 0 else LowBits(hrp[i - |hrp| - 1])
  {
    hide HighBits, LowBits;
  }

  /** The high and the low bits around a zero give every character back. */
  lemma ExpandExact(hrp: string)
    ensures var x, n := ExpandHRP(hrp), |hrp|;
            && |x| == 2 * n + 1 && x[n] == 0
            && (forall i :: 0 <= i < |x| ==> x[i] < 32)
            && (forall i :: 0 <= i < n ==> 32 * Number(x[i]) + Number(x[n + 1 + i]) == Code(hrp[i]))
  {
    hide HighBits, LowBits, Number, Code, ExpandHRP;
    var x, n := ExpandHRP(hrp), |hrp|;
    ExpandAt(hrp, n);
    forall i | 0 <= i < |x|
      ensures x[i] < 32
    {
      ExpandAt(hrp, i);
      if i != n {
        BitsExact(hrp[if i < n then i else i - n - 1]);
      }
    }
    forall i | 0 <= i < n
      ensures 32 * Number(x[i]) + Number(x[n + 1 + i]) == Code(hrp[i])
    {
      ExpandAt(hrp, i);
      ExpandAt(hrp, n + 1 + i);
      BitsExact(hrp[i]);
    }
  }

  /** So that no two of them are expanded alike. */
  lemma ExpandInjective(a: string, b: string)
    requires ExpandHRP(a) == ExpandHRP(b)
    ensures |a| == |b| && forall i :: 0 <= i < |a| ==> Code(a[i]) == Code(b[i])
  {
    hide ExpandHRP, Code, Number;
    ExpandExact(a);
    ExpandExact(b);
    var x, n := ExpandHRP(a), |a|;
    forall i | 0 <= i < n
      ensures Code(a[i]) == Code(b[i])
    {
      assert 32 * Number(x[i]) + Number(x[n + 1 + i]) == Code(a[i]);
    }
  }

  /** Two HRPs whose expansions differ within six consecutive symbols do not both accept the same values. */
  lemma HrpBurst(a: string, b: string, values: data, first: nat)
    requires BurstError(ExpandHRP(a), ExpandHRP(b), first)
    ensures !(VerifyChecksum(a, values) && VerifyChecksum(b, values))
  {
    hide Feed, ExpandHRP, Step;
    var n := |ExpandHRP(a)|;
    FeedAppend(1, ExpandHRP(a), values);
    FeedAppend(1, ExpandHRP(b), values);
    BurstDetected(1, ExpandHRP(a), ExpandHRP(b), first);
    FeedApart(Feed(1, ExpandHRP(a)), Feed(1, ExpandHRP(b)), values) by {
      ExpandNonempty(a);
      ExpandNonempty(b);
      RemainderBound(ExpandHRP(a));
      RemainderBound(ExpandHRP(b));
    }
  }

  lemma ExpandNonempty(hrp: string)
    ensures ExpandHRP(hrp) != []
  {
    assert |ExpandHRP(hrp)| >= 1;
  }

  /** A wrong character of the HRP is detected when it is wrong in its high or in its low bits only, or the HRP is short. */
  lemma HrpSubstitution(a: string, b: string, values: data, k: nat)
    requires k < |a| == |b| && Code(a[k]) != Code(b[k]) && (forall i :: 0 <= i < |a| && i != k ==> Code(a[i]) == Code(b[i]))
    requires |a| <= 4 || Code(a[k]) / 32 == Code(b[k]) / 32 || Code(a[k]) % 32 == Code(b[k]) % 32
    ensures !(VerifyChecksum(a, values) && VerifyChecksum(b, values))
  {
    hide VerifyChecksum, ExpandHRP, Code, HighBits, LowBits;
    var n := |a|;
    HrpDiffers(a, b, k);
    var first := if Code(a[k]) / 32 == Code(b[k]) / 32 then n + 1 + k else k;
    forall i | 0 <= i <= 2 * n && (i < first || first + 6 <= i)
      ensures ExpandHRP(a)[i] == ExpandHRP(b)[i]
    {
      ExpandAt(a, i);
      ExpandAt(b, i);
      if i != n {
        var j := if i < n then i else i - n - 1;
        SameBits(a[j], b[j]);
      }
    }
    HrpBurst(a, b, values, first);
  }

  lemma SameBits(c: char, d: char)
    ensures Code(c) / 32 == Code(d) / 32 ==> HighBits(c) == HighBits(d)
    ensures Code(c) % 32 == Code(d) % 32 ==> LowBits(c) == LowBits(d)
  {
  }

  /** Of two different HRPs of the same length up to two, such as "zs", at most one accepts given values. */
  lemma ShortHrps(a: string, b: string, values: data)
    requires |a| == |b| <= 2 && exists k :: 0 <= k < |a| && Code(a[k]) != Code(b[k])
    ensures !(VerifyChecksum(a, values) && VerifyChecksum(b, values))
  {
    hide VerifyChecksum, ExpandHRP, Code;
    var k :| 0 <= k < |a| && Code(a[k]) != Code(b[k]);
    HrpDiffers(a, b, k);
    HrpBurst(a, b, values, 0);
  }

  lemma HrpDiffers(a: string, b: string, k: nat)
    requires k < |a| == |b| && Code(a[k]) != Code(b[k])
    ensures ExpandHRP(a) != ExpandHRP(b) && |ExpandHRP(a)| == |ExpandHRP(b)| == 2 * |a| + 1
    ensures forall i :: 0 <= i <= 2 * |a| ==> ExpandHRP(a)[i] < 32 && ExpandHRP(b)[i] < 32
  {
    hide ExpandHRP, Code, Number;
    ExpandExact(a);
    ExpandExact(b);
    if ExpandHRP(a) == ExpandHRP(b) {
      ExpandInjective(a, b);
    }
  }

  // ---- strings ----

  /** CHARSET */
  function Charset(v: nat): char
    requires v < 32
  {
    match v
    case 0 => 'q'
    case 1 => 'p'
    case 2 => 'z'
    case 3 => 'r'
    case 4 => 'y'
    case 5 => '9'
    case 6 => 'x'
    case 7 => '8'
    case 8 => 'g'
    case 9 => 'f'
    case 10 => '2'
    case 11 => 't'
    case 12 => 'v'
    case 13 => 'd'
    case 14 => 'w'
    case 15 => '0'
    case 16 => 's'
    case 17 => '3'
    case 18 => 'j'
    case 19 => 'n'
    case 20 => '5'
    case 21 => '4'
    case 22 => 'k'
    case 23 => 'h'
    case 24 => 'c'
    case 25 => 'e'
    case 26 => '6'
    case 27 => 'm'
    case 28 => 'u'
    case 29 => 'a'
    case 30 => '7'
    case _ => 'l'
  }

  /** CHARSET_REV, with no value where the table has -1 */
  function CharsetRev(c: char): Option<nat> {
    match c
    case '0' => Some(15)
    case '2' => Some(10)
    case '3' => Some(17)
    case '4' => Some(21)
    case '5' => Some(20)
    case '6' => Some(26)
    case '7' => Some(30)
    case '8' => Some(7)
    case '9' => Some(5)
    case 'A' => Some(29)
    case 'C' => Some(24)
    case 'D' => Some(13)
    case 'E' => Some(25)
    case 'F' => Some(9)
    case 'G' => Some(8)
    case 'H' => Some(23)
    case 'J' => Some(18)
    case 'K' => Some(22)
    case 'L' => Some(31)
    case 'M' => Some(27)
    case 'N' => Some(19)
    case 'P' => Some(1)
    case 'Q' => Some(0)
    case 'R' => Some(3)
    case 'S' => Some(16)
    case 'T' => Some(11)
    case 'U' => Some(28)
    case 'V' => Some(12)
    case 'W' => Some(14)
    case 'X' => Some(6)
    case 'Y' => Some(4)
    case 'Z' => Some(2)
    case 'a' => Some(29)
    case 'c' => Some(24)
    case 'd' => Some(13)
    case 'e' => Some(25)
    case 'f' => Some(9)
    case 'g' => Some(8)
    case 'h' => Some(23)
    case 'j' => Some(18)
    case 'k' => Some(22)
    case 'l' => Some(31)
    case 'm' => Some(27)
    case 'n' => Some(19)
    case 'p' => Some(1)
    case 'q' => Some(0)
    case 'r' => Some(3)
    case 's' => Some(16)
    case 't' => Some(11)
    case 'u' => Some(28)
    case 'v' => Some(12)
    case 'w' => Some(14)
    case 'x' => Some(6)
    case 'y' => Some(4)
    case 'z' => Some(2)
    case _ => None
  }

  lemma CharsetBack(v: nat)
    requires v < 32
    ensures CharsetRev(Charset(v)) == Some(v)
  {
    hide Charset, CharsetRev;
    if v < 16 {
      LowCharsetBack(v);
    } else {
      HighCharsetBack(v);
    }
  }

  lemma LowCharsetBack(v: nat)
    requires v < 16
    ensures CharsetRev(Charset(v)) == Some(v)
  {
  }

  lemma HighCharsetBack(v: nat)
    requires 16 <= v < 32
    ensures CharsetRev(Charset(v)) == Some(v)
  {
  }

  lemma CharsetRange(v: nat)
    requires v < 32
    ensures var c := Charset(v); 33 <= c as nat <= 126 && c != '1' && !IsUpper(c)
  {
  }

  predicate IsUpper(c: char) {
    'A' <= c <= 'Z'
  }

  predicate IsLower(c: char) {
    'a' <= c <= 'z'
  }

  function LowerCase(c: char): char {
    if IsUpper(c) then c - 'A' + 'a' else c
  }

  function LowerAll(s: string): (r: string)
    ensures |r| == |s| && forall i :: 0 <= i < |s| ==> r[i] == LowerCase(s[i])
  {
    seq(|s|, i requires 0 <= i < |s| => LowerCase(s[i]))
  }

  predicate Symbols(v: data) {
    forall i :: 0 <= i < |v| ==> v[i] < 32
  }

  function Letters(v: data): (s: string)
    requires Symbols(v)
    ensures |s| == |v|
  {
    seq(|v|, i requires 0 <= i < |v| => Charset(v[i] as nat))
  }

  function Encode(hrp: string, values: data): string {
    var combined := values + CreateChecksum(hrp, values);
    if Symbols(combined) then hrp + "1" + Letters(combined) else ""
  }

  /** The symbols that letters stand for, unless one of them is not in the character set. */
  function ReadLetters(s: string): Option<data> {
    if s == "" then Some([])
    else
      match CharsetRev(s[0])
      case None => None
      case Some(v) =>
        match ReadLetters(s[1..])
        case None => None
        case Some(rest) => if v < 256 then Some([v as bv8] + rest) else None
  }

  /** The position after the last '1', or 0. */
  function AfterLastOne(s: string): (n: nat)
    ensures n <= |s| && (n > 0 ==> s[n - 1] == '1') && forall i :: n <= i < |s| ==> s[i] != '1'
  {
    if s == "" then 0 else if s[|s| - 1] == '1' then |s| else AfterLastOne(s[..|s| - 1])
  }

  predicate Acceptable(s: string) {
    && (forall i :: 0 <= i < |s| ==> 33 <= s[i] as nat <= 126)
    && !((exists i :: 0 <= i < |s| && IsLower(s[i])) && (exists i :: 0 <= i < |s| && IsUpper(s[i])))
  }

  /** The empty pair stands for failure. */
  function Decode(s: string): (string, data) {
    var n := AfterLastOne(s);
    if !Acceptable(s) || |s| > 1023 || n <= 1 || n + 6 > |s| then ("", [])
    else
      match ReadLetters(s[n..])
      case None => ("", [])
      case Some(values) =>
        var hrp := LowerAll(s[..n - 1]);
        if |values| >= 6 && VerifyChecksum(hrp, values) then (hrp, values[..|values| - 6]) else ("", [])
  }

  // ---- the round trip ----

  /** What can be encoded so that it is decoded again. */
  predicate Encodable(hrp: string, values: data) {
    && hrp != "" && (forall i :: 0 <= i < |hrp| ==> 33 <= hrp[i] as nat <= 126 && !IsUpper(hrp[i]))
    && Symbols(values) && |hrp| + |values| + 7 <= 1023
  }

  lemma {:induction false} LettersBack(v: data)
    requires Symbols(v)
    ensures ReadLetters(Letters(v)) == Some(v)
    decreases |v|
  {
    hide Charset, CharsetRev, Letters;
    if v == [] {
      assert Letters(v) == "";
    } else {
      FirstLetter(v);
      LettersBack(v[1..]);
      SymbolCode(v[0]);
      assert v == [v[0]] + v[1..];
    }
  }

  lemma FirstLetter(v: data)
    requires Symbols(v) && v != []
    ensures CharsetRev(Letters(v)[0]) == Some(v[0] as nat) && Letters(v)[1..] == Letters(v[1..])
  {
    hide Charset, CharsetRev;
    SymbolCode(v[0]);
    CharsetBack(v[0] as nat);
  }

  lemma SymbolCode(v: bv8)
    ensures (v as nat) as bv8 == v && (v < 32 <==> v as nat < 32)
  {
  }

  lemma LetterAt(v: data, i: nat)
    requires Symbols(v) && i < |v|
    ensures var c := Letters(v)[i]; 33 <= c as nat <= 126 && c != '1' && !IsUpper(c)
  {
    hide Charset, CharsetRev;
    SymbolCode(v[i]);
    CharsetRange(v[i] as nat);
  }

  /** The separator is the last '1'. */
  lemma {:induction false} SeparatorFound(a: string, b: string)
    requires forall i :: 0 <= i < |b| ==> b[i] != '1'
    ensures AfterLastOne(a + "1" + b) == |a| + 1
    decreases |b|
  {
    var s := a + "1" + b;
    if b != "" {
      var b' := b[..|b| - 1];
      SeparatorFound(a, b');
      assert s[..|s| - 1] == a + "1" + b';
      assert s[|s| - 1] == b[|b| - 1];
    } else {
      assert s[|s| - 1] == '1';
    }
  }

  lemma EncodedAcceptable(hrp: string, v: data)
    requires Symbols(v) && forall i :: 0 <= i < |hrp| ==> 33 <= hrp[i] as nat <= 126 && !IsUpper(hrp[i])
    ensures Acceptable(hrp + "1" + Letters(v)) && forall i :: 0 <= i < |Letters(v)| ==> Letters(v)[i] != '1'
  {
    hide Letters;
    var s := hrp + "1" + Letters(v);
    forall i | 0 <= i < |v|
      ensures var c := Letters(v)[i]; 33 <= c as nat <= 126 && c != '1' && !IsUpper(c)
    {
      LetterAt(v, i);
    }
    forall i | 0 <= i < |s|
      ensures 33 <= s[i] as nat <= 126 && !IsUpper(s[i])
    {
      if i > |hrp| {
        assert s[i] == Letters(v)[i - |hrp| - 1];
      }
    }
  }

  lemma EncodeDecode(hrp: string, values: data)
    requires Encodable(hrp, values)
    ensures Encode(hrp, values) != "" && Decode(Encode(hrp, values)) == (hrp, values)
  {
    hide CreateChecksum, Letters, ReadLetters, AfterLastOne, VerifyChecksum, Acceptable;
    ChecksumAccepted(hrp, values);
    var combined := values + CreateChecksum(hrp, values);
    var t := Letters(combined);
    var s := hrp + "1" + t;
    EncodedAcceptable(hrp, combined);
    SeparatorFound(hrp, t);
    LettersBack(combined);
    assert s[|hrp| + 1..] == t && s[..|hrp|] == hrp;
    assert LowerAll(hrp) == hrp;
    assert combined[..|values|] == values;
  }

  /** Decoding never gives upper-case letters in the HRP, a character out of range, or a wrong symbol. */
  lemma DecodeRange(s: string)
    ensures var (hrp, values) := Decode(s);
            hrp == "" ==> values == []
    ensures var (hrp, values) := Decode(s);
            && (forall i :: 0 <= i < |hrp| ==> 33 <= hrp[i] as nat <= 126 && !IsUpper(hrp[i]))
            && Symbols(values) && |hrp| + |values| + 7 <= 1023
  {
    hide VerifyChecksum, ReadLetters;
    var n := AfterLastOne(s);
    if Acceptable(s) && n > 1 {
      LettersRange(s[n..]);
    }
  }

  lemma {:induction false} LettersRange(s: string)
    ensures ReadLetters(s).Some? ==> |ReadLetters(s).value| == |s| && Symbols(ReadLetters(s).value)
    decreases |s|
  {
    hide CharsetRev;
    if s != "" {
      LettersRange(s[1..]);
      RevRange(s[0]);
    }
  }

  lemma RevRange(c: char)
    ensures CharsetRev(c).Some? ==> CharsetRev(c).value < 32 && CharsetRev(c).value as bv8 < 32
  {
  }

  /** The exact domain: only the empty pair, which also stands for failure, comes back without being encodable. */
  lemma RoundTrip(hrp: string, values: data)
    ensures Decode(Encode(hrp, values)) == (hrp, values) <==> Encodable(hrp, values) || (hrp == "" && values == [])
  {
    hide Encode, Decode;
    DecodeRange(Encode(hrp, values));
    if Encodable(hrp, values) {
      EncodeDecode(hrp, values);
    }
    if hrp == "" && values == [] {
      NoHrp(values);
    }
  }

  lemma NoHrp(values: data)
    ensures Decode(Encode("", values)) == ("", [])
  {
    hide CreateChecksum, Letters, ReadLetters, AfterLastOne, VerifyChecksum, Acceptable;
    var combined := values + CreateChecksum("", values);
    if Symbols(combined) {
      forall i | 0 <= i < |combined|
        ensures Letters(combined)[i] != '1'
      {
        LetterAt(combined, i);
      }
      SeparatorFound("", Letters(combined));
    } else {
      EmptySeparator();
    }
  }

  lemma EmptySeparator()
    ensures AfterLastOne("") == 0
  {
  }
}
