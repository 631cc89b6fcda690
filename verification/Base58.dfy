/** Base58 text (src/base58.cpp). Bytes and digits are natural numbers. */
module Base58 {
  import opened Common
  import opened Limbs
  import opened Radix

  // ---- the alphabet ----

  /** All alphanumeric characters except for '0', 'I', 'O' and 'l'. */
  function Letter(d: nat): char
    requires d < 58
  {
    if d < 9 then '1' + d as char
    else if d < 17 then 'A' + (d - 9) as char
    else if d < 22 then 'J' + (d - 17) as char
    else if d < 33 then 'P' + (d - 22) as char
    else if d < 44 then 'a' + (d - 33) as char
    else 'm' + (d - 44) as char
  }

  function LetterValue(c: char): Option<nat> {
    if '1' <= c <= '9' then Some((c - '1') as nat)
    else if 'A' <= c <= 'H' then Some((c - 'A') as nat + 9)
    else if 'J' <= c <= 'N' then Some((c - 'J') as nat + 17)
    else if 'P' <= c <= 'Z' then Some((c - 'P') as nat + 22)
    else if 'a' <= c <= 'k' then Some((c - 'a') as nat + 33)
    else if 'm' <= c <= 'z' then Some((c - 'm') as nat + 44)
    else None
  }

  lemma LetterBack(d: nat)
    requires d < 58
    ensures LetterValue(Letter(d)) == Some(d) && !IsSpace(Letter(d))
  {
  }

  lemma ValueBack(c: char)
    ensures LetterValue(c).Some? ==> LetterValue(c).value < 58 && Letter(LetterValue(c).value) == c && !IsSpace(c)
  {
  }

  predicate IsSpace(c: char) {
    c == ' ' || 9 as char <= c <= 13 as char
  }

  // ---- encoding and decoding ----

  function Letters(s: seq<nat>): (t: string)
    requires Digits(58, s)
    ensures |t| == |s| && forall i :: 0 <= i < |s| ==> t[i] == Letter(s[i])
  {
    seq(|s|, i requires 0 <= i < |s| => Letter(s[i]))
  }

  predicate Alphabetic(t: string) {
    forall i :: 0 <= i < |t| ==> LetterValue(t[i]).Some?
  }

  function Values(t: string): (s: seq<nat>)
    requires Alphabetic(t)
    ensures |s| == |t| && Digits(58, s) && forall i :: 0 <= i < |t| ==> Some(s[i]) == LetterValue(t[i])
  {
    forall i | 0 <= i < |t| ensures LetterValue(t[i]).value < 58 { ValueBack(t[i]); }
    seq(|t|, i requires 0 <= i < |t| => LetterValue(t[i]).value)
  }

  ghost function Encode(v: seq<nat>): string
    requires Digits(256, v)
  {
    RecodeInverse(256, 58, v);
    Letters(Recode(256, 58, v))
  }

  function SkipSpaces(t: string): string {
    if t != "" && IsSpace(t[0]) then SkipSpaces(t[1..]) else t
  }

  function WordLength(t: string): (n: nat)
    ensures n <= |t|
  {
    if t == "" || IsSpace(t[0]) then 0 else 1 + WordLength(t[1..])
  }

  /** Spaces are allowed before and after, and nothing else. */
  function Decode(t: string): Option<seq<nat>> {
    var u := SkipSpaces(t);
    var n := WordLength(u);
    if Alphabetic(u[..n]) && SkipSpaces(u[n..]) == "" then Some(Recode(58, 256, Values(u[..n]))) else None
  }

  // ---- round trips ----

  lemma {:induction false} WholeWord(t: string)
    requires forall i :: 0 <= i < |t| ==> !IsSpace(t[i])
    ensures SkipSpaces(t) == t && WordLength(t) == |t|
  {
    if t != "" {
      WholeWord(t[1..]);
    }
  }

  lemma AlphabeticWord(t: string)
    requires Alphabetic(t)
    ensures Decode(t) == Some(Recode(58, 256, Values(t)))
  {
    forall i | 0 <= i < |t|
      ensures !IsSpace(t[i])
    {
      ValueBack(t[i]);
    }
    WholeWord(t);
    assert t[..|t|] == t && t[|t|..] == "";
  }

  lemma LettersValues(s: seq<nat>)
    requires Digits(58, s)
    ensures Alphabetic(Letters(s)) && Values(Letters(s)) == s
  {
    forall i | 0 <= i < |s|
      ensures LetterValue(Letters(s)[i]) == Some(s[i])
    {
      LetterBack(s[i]);
    }
  }

  /** Every byte sequence comes back. */
  lemma DecodeEncode(v: seq<nat>)
    requires Digits(256, v)
    ensures Decode(Encode(v)) == Some(v)
  {
    hide Decode, Recode;
    RecodeInverse(256, 58, v);
    LettersValues(Recode(256, 58, v));
    AlphabeticWord(Encode(v));
  }

  /** Every string over the alphabet comes back. */
  lemma EncodeDecode(t: string)
    requires Alphabetic(t)
    ensures Decode(t).Some? && Digits(256, Decode(t).value) && Encode(Decode(t).value) == t
  {
    hide Decode, Recode;
    AlphabeticWord(t);
    RecodeInverse(58, 256, Values(t));
    LettersValues(Values(t));
    forall i | 0 <= i < |t|
      ensures Letters(Values(t))[i] == t[i]
    {
      ValueBack(t[i]);
    }
    assert Letters(Values(t)) == t;
  }

  /** The alphabet is the alphanumeric characters without 0, I, O and l, in the order of their codes. */
  lemma Alphabet(c: char, d: nat, e: nat)
    ensures LetterValue(c).Some? <==> ('0' <= c <= '9' || 'A' <= c <= 'Z' || 'a' <= c <= 'z') && c != '0' && c != 'I' && c != 'O' && c != 'l'
    ensures d < e < 58 ==> Letter(d) < Letter(e)
    ensures IsSpace(c) <==> c as int == 0x20 || 0x09 <= c as int <= 0x0D
  {
  }

  predicate Spaces(t: string) {
    forall i :: 0 <= i < |t| ==> IsSpace(t[i])
  }

  /** A text is a word of the alphabet with spaces around it. */
  predicate IsWord(t: string, a: nat, b: nat) {
    a <= b <= |t| && Spaces(t[..a]) && Alphabetic(t[a..b]) && Spaces(t[b..])
  }

  lemma {:induction false} SkipSpacesIs(t: string) returns (a: nat)
    ensures a <= |t| && SkipSpaces(t) == t[a..] && Spaces(t[..a]) && (a < |t| ==> !IsSpace(t[a]))
  {
    if t != "" && IsSpace(t[0]) {
      var b := SkipSpacesIs(t[1..]);
      a := b + 1;
      assert t[1..][b..] == t[a..] && t[..a] == [t[0]] + t[1..][..b];
    } else {
      a := 0;
      assert t[0..] == t;
    }
  }

  /** Decoding gives bytes exactly if the text is a word with spaces around it, and then the word is their encoding. */
  lemma DecodeExactly(t: string, v: seq<nat>)
    requires Digits(256, v)
    ensures Decode(t) == Some(v) <==> exists a: nat, b: nat :: IsWord(t, a, b) && t[a..b] == Encode(v)
  {
    hide Recode, Encode, SkipSpaces, WordLength;
    if Decode(t) == Some(v) {
      var a, b := DecodeWord(t);
      EncodeDecode(t[a..b]);
      AlphabeticWord(t[a..b]);
      assert IsWord(t, a, b) && t[a..b] == Encode(v);
    }
    if exists a: nat, b: nat :: IsWord(t, a, b) && t[a..b] == Encode(v) {
      var a: nat, b: nat :| IsWord(t, a, b) && t[a..b] == Encode(v);
      WordDecodes(t, a, b);
      DecodeEncode(v);
    }
  }

  lemma DecodeWord(t: string) returns (a: nat, b: nat)
    requires Decode(t).Some?
    ensures IsWord(t, a, b) && Decode(t) == Some(Recode(58, 256, Values(t[a..b])))
  {
    hide Recode;
    a := SkipSpacesIs(t);
    var u := t[a..];
    var n := WordLength(u);
    b := a + n;
    assert u[..n] == t[a..b] && u[n..] == t[b..];
    var k := SkipSpacesIs(t[b..]);
    assert t[b..][..k] == t[b..];
  }

  lemma {:induction false} SkipsSpaces(x: string, t: string)
    requires Spaces(x)
    ensures SkipSpaces(x + t) == SkipSpaces(t)
  {
    if x == "" {
      assert x + t == t;
    } else {
      assert (x + t)[1..] == x[1..] + t;
      SkipsSpaces(x[1..], t);
    }
  }

  lemma {:induction false} WordOf(w: string, t: string)
    requires Alphabetic(w) && Spaces(t)
    ensures WordLength(w + t) == |w|
  {
    if w == "" {
      assert w + t == t;
    } else {
      ValueBack(w[0]);
      assert (w + t)[1..] == w[1..] + t;
      WordOf(w[1..], t);
    }
  }

  lemma WordDecodes(t: string, a: nat, b: nat)
    requires IsWord(t, a, b)
    ensures Decode(t) == Decode(t[a..b])
  {
    hide Recode, SkipSpaces, WordLength, IsSpace, LetterValue;
    var w, tail := t[a..b], t[b..];
    AlphabeticWord(w);
    assert t == t[..a] + (w + tail);
    SkipsSpaces(t[..a], w + tail);
    SkipsSpaces(tail, "");
    assert tail + "" == tail;
    SkipNothing(w, tail);
    if w == "" {
      assert w + tail == tail;
    } else {
      WordOf(w, tail);
      assert (w + tail)[..|w|] == w && (w + tail)[|w|..] == tail;
    }
  }

  lemma SkipNothing(w: string, t: string)
    requires Alphabetic(w)
    ensures SkipSpaces("") == "" && WordLength("") == 0 && (w != "" ==> SkipSpaces(w + t) == w + t)
  {
    if w != "" {
      ValueBack(w[0]);
    }
  }

  // ---- with a checksum ----

  /** The first four bytes of the hash of some bytes. */
  type Hash4 = seq<nat> -> seq<nat>

  ghost predicate HashOk(hash: Hash4) {
    forall v :: |hash(v)| == 4 && Digits(256, hash(v))
  }

  ghost function EncodeCheck(hash: Hash4, v: seq<nat>): string
    requires HashOk(hash) && Digits(256, v)
  {
    Encode(v + hash(v))
  }

  function DecodeCheck(hash: Hash4, t: string): Option<seq<nat>> {
    match Decode(t)
    case None => None
    case Some(w) =>
      if |w| < 4 || hash(w[..|w| - 4]) != w[|w| - 4..] then None else Some(w[..|w| - 4])
  }

  lemma CheckRoundTrip(hash: Hash4, v: seq<nat>)
    requires HashOk(hash) && Digits(256, v)
    ensures DecodeCheck(hash, EncodeCheck(hash, v)) == Some(v)
  {
    hide Decode, Encode;
    var w := v + hash(v);
    DecodeEncode(w);
    assert w[..|w| - 4] == v && w[|w| - 4..] == hash(v);
  }

  /** Whatever is accepted is the text of the bytes that are returned. */
  lemma CheckAccepts(hash: Hash4, t: string)
    requires HashOk(hash) && Alphabetic(t)
    ensures var r := DecodeCheck(hash, t); r.Some? ==> Digits(256, r.value) && EncodeCheck(hash, r.value) == t
  {
    hide Decode, Encode;
    EncodeDecode(t);
    var r := DecodeCheck(hash, t);
    if r.Some? {
      assert Decode(t).value == r.value + hash(r.value);
    }
  }
}

/** The digit buffers of src/base58.cpp, rewritten in place. */
module Base58Code {
  import opened Common
  import opened Limbs
  import opened Radix
  import opened Base58

  // ---- buf = buf * mult + d ----

  lemma {:induction false} NumCons(b: nat, x: nat, s: seq<nat>)
    ensures Num(b, [x] + s) == x * Pow(b, |s|) + Num(b, s)
  {
    var t := [x] + s;
    PowStep(b, 0);
    if s == [] {
      assert t[..0] == [] && Num(b, [x][..0]) == 0;
      assert t == [x];
    } else {
      var n := |s| - 1;
      assert t[..|t| - 1] == [x] + s[..n];
      NumCons(b, x, s[..n]);
      PowStep(b, n);
      hide Pow, Num;
      ConsAlgebra(x, Pow(b, n), b, Num(b, s[..n]));
    }
  }

  lemma ConsAlgebra(x: int, p: int, b: int, v: int)
    ensures (x * p + v) * b == x * (b * p) + v * b
  {
  }

  /** One digit of the buffer is rewritten and the carry passed on. */
  ghost predicate Carried(base: nat, mult: nat, before: seq<nat>, after: seq<nat>, d: nat, carry: int) {
    |after| == |before| && Num(base, after) + carry * Pow(base, |after|) == Num(base, before) * mult + d
  }

  lemma CarryStep(base: nat, mult: nat, before: seq<nat>, after: seq<nat>, d: nat, carry: nat, x: nat)
    requires base >= 2 && Carried(base, mult, before, after, d, carry)
    ensures var n := carry + mult * x; n >= 0 && Carried(base, mult, [x] + before, [n % base] + after, d, n / base)
  {
    hide Pow, Num;
    MulMonotone(0, mult, x);
    var n := carry + mult * x;
    NumCons(base, x, before);
    NumCons(base, n % base, after);
    PowStep(base, |after|);
    CarryAlgebra(base, mult, Num(base, before), Num(base, after), d, carry, x, Pow(base, |after|));
  }

  lemma CarryAlgebra(b: nat, m: int, u: int, v: int, d: int, c: int, x: int, p: int)
    requires b >= 2 && v + c * p == u * m + d
    ensures var n := c + m * x; (n % b) * p + v + (n / b) * (b * p) == (x * p + u) * m + d
  {
    var n := c + m * x;
    var r, q := n % b, n / b;
    assert n == q * b + r;
    assert r * p + q * (b * p) == (q * b + r) * p;
    assert (c + m * x) * p == c * p + (m * x) * p;
    assert (x * p + u) * m == (m * x) * p + u * m;
  }

  lemma CarryBound(base: nat, mult: nat, carry: nat, x: nat)
    requires base >= 2 && carry < mult && x < base
    ensures 0 <= (carry + mult * x) / base < mult
  {
    MulMonotone(x, base - 1, mult);
    MulMonotone(0, x, mult);
    assert mult * (base - 1) == mult * base - mult;
    var n := carry + mult * x;
    DivLess(n, base, mult);
  }

  lemma DivLess(n: nat, b: nat, m: nat)
    requires b >= 2 && n < m * b
    ensures n / b < m
  {
    assert n == n / b * b + n % b;
    if n / b >= m {
      MulMonotone(m, n / b, b);
    }
  }

  /** The inner loop of both directions, from the last digit to the first. */
  method MulAdd(buf: array<nat>, base: nat, mult: nat, d: nat) returns (carry: nat)
    requires base >= 2 && d < mult && Digits(base, buf[..])
    modifies buf
    ensures Digits(base, buf[..]) && carry < mult && Carried(base, mult, old(buf[..]), buf[..], d, carry)
  {
    hide Carried;
    ghost var before := buf[..];
    carry := d;
    var i := buf.Length;
    NothingCarried(base, mult, before[i..], buf[i..], d);
    while i > 0
      invariant 0 <= i <= buf.Length && carry < mult && Digits(base, buf[..])
      invariant forall j :: 0 <= j < i ==> buf[j] == before[j]
      invariant Carried(base, mult, before[i..], buf[i..], d, carry)
    {
      i := i - 1;
      ghost var x, rest := buf[i], buf[i + 1..];
      CarryStep(base, mult, before[i + 1..], rest, d, carry, x);
      CarryBound(base, mult, carry, x);
      assert before[i..] == [x] + before[i + 1..];
      carry := carry + mult * buf[i];
      buf[i] := carry % base;
      assert buf[i..] == [carry % base] + rest;
      carry := carry / base;
    }
    assert before[0..] == before && buf[0..] == buf[..];
  }

  lemma NothingCarried(base: nat, mult: nat, a: seq<nat>, b: seq<nat>, d: nat)
    requires a == [] && b == []
    ensures Carried(base, mult, a, b, d, d)
  {
    assert Pow(base, 0) == 1;
  }

  /** Room enough for the number means no carry. */
  lemma NoCarry(base: nat, mult: nat, before: seq<nat>, after: seq<nat>, d: nat, carry: nat)
    requires Carried(base, mult, before, after, d, carry) && Num(base, before) * mult + d < Pow(base, |after|)
    ensures carry == 0 && Num(base, after) == Num(base, before) * mult + d
  {
    hide Pow, Num;
    if carry >= 1 {
      MulMonotone(1, carry, Pow(base, |after|));
    }
  }

  lemma NumSnoc(b: nat, s: seq<nat>, i: nat)
    requires i < |s|
    ensures Num(b, s[..i + 1]) == Num(b, s[..i]) * b + s[i]
  {
    assert s[..i + 1][..i] == s[..i];
  }

  lemma PrefixBound(b: nat, s: seq<nat>, i: nat)
    requires b >= 1 && i <= |s| && Digits(b, s)
    ensures Num(b, s[..i]) < Pow(b, |s|)
  {
    NumBound(b, s[..i]);
    PowMonotone(b, i, |s|);
  }

  /** The outer loop: digits of one base into a buffer of another that is large enough; the carry assertion never fails. */
  method Convert(digits: seq<nat>, mult: nat, base: nat, size: nat) returns (out: seq<nat>)
    requires base >= 2 && mult >= 2 && Digits(mult, digits) && Pow(base, size) >= Pow(mult, |digits|)
    ensures out == Repr(base, Num(mult, digits))
  {
    hide Pow, Num, Repr, Strip;
    var buf := new nat[size](_ => 0);
    AllZero(base, buf[..]);
    NoDigits(mult, digits);
    for i := 0 to |digits|
      invariant Digits(base, buf[..]) && Num(base, buf[..]) == Num(mult, digits[..i])
    {
      ghost var before := buf[..];
      var carry := MulAdd(buf, base, mult, digits[i]);
      NumSnoc(mult, digits, i);
      PrefixBound(mult, digits, i + 1);
      NoCarry(base, mult, before, buf[..], digits[i], carry);
      assert carry == 0;
    }
    assert digits[..|digits|] == digits;
    StripRepr(base, buf[..]);
    out := SkipZeros(buf[..]);
  }

  lemma {:induction false} AllZero(b: nat, s: seq<nat>)
    requires b >= 2 && forall i :: 0 <= i < |s| ==> s[i] == 0
    ensures Num(b, s) == 0 && Digits(b, s)
  {
    if s != [] {
      AllZero(b, s[..|s| - 1]);
    }
  }

  lemma NoDigits(b: nat, s: seq<nat>)
    ensures Num(b, s[..0]) == 0
  {
  }

  method SkipZeros(s: seq<nat>) returns (r: seq<nat>)
    ensures r == Strip(s)
  {
    var i := 0;
    assert s[0..] == s;
    while i < |s| && s[i] == 0
      invariant i <= |s| && Strip(s) == Strip(s[i..])
    {
      assert s[i..][0] == 0 && s[i..][1..] == s[i + 1..];
      i := i + 1;
    }
    r := s[i..];
  }

  method EncodeBase58(v: seq<nat>) returns (str: string)
    requires Digits(256, v)
    ensures str == Encode(v)
  {
    hide Pow, Num, Repr;
    var rest := SkipZeros(v);
    var zeroes := |v| - |rest|;
    StripDigits(256, v);
    EncodeSpace(|rest|);
    var b58 := Convert(rest, 256, 58, |rest| * 138 / 100 + 1);
    ReprDigits(58, Num(256, rest));
    assert zeroes == Zeros(v);
    str := "";
    for i := 0 to zeroes
      invariant |str| == i && forall j :: 0 <= j < i ==> str[j] == '1'
    {
      str := str + "1";
    }
    for i := 0 to |b58|
      invariant |str| == zeroes + i && forall j :: 0 <= j < zeroes ==> str[j] == '1'
      invariant Digits(58, b58) && forall j :: 0 <= j < i ==> str[zeroes + j] == Letter(b58[j])
    {
      str := str + [Letter(b58[i])];
    }
    SameText(v, zeroes, b58, str);
  }

  lemma SameText(v: seq<nat>, zeroes: nat, b58: seq<nat>, str: string)
    requires Digits(256, v) && Digits(58, b58) && Recode(256, 58, v) == Repeat(zeroes) + b58
    requires |str| == zeroes + |b58| && (forall j :: 0 <= j < zeroes ==> str[j] == '1') && forall j :: 0 <= j < |b58| ==> str[zeroes + j] == Letter(b58[j])
    ensures str == Encode(v)
  {
    hide Recode;
    RecodeInverse(256, 58, v);
    var t := Encode(v);
    forall i | 0 <= i < |str|
      ensures str[i] == t[i]
    {
      if i >= zeroes {
        assert str[zeroes + (i - zeroes)] == Letter(b58[i - zeroes]);
      }
    }
  }

  lemma {:induction false} WordSplit(u: string, k: nat)
    requires k <= |u| && forall j :: 0 <= j < k ==> !IsSpace(u[j])
    ensures WordLength(u) == k + WordLength(u[k..])
  {
    if k > 0 {
      WordSplit(u[1..], k - 1);
      assert u[1..][k - 1..] == u[k..];
    } else {
      assert u[0..] == u;
    }
  }

  method DropSpaces(t: string) returns (r: string)
    ensures r == SkipSpaces(t)
  {
    var i := 0;
    assert t[0..] == t;
    while i < |t| && IsSpace(t[i])
      invariant i <= |t| && SkipSpaces(t) == SkipSpaces(t[i..])
    {
      assert t[i..][0] == t[i] && t[i..][1..] == t[i + 1..];
      i := i + 1;
    }
    r := t[i..];
  }

  /** The loop over the characters, after the leading spaces and ones. */
  method ReadDigits(psz: string) returns (ok: bool, n: nat, b256: seq<nat>)
    ensures n <= |psz| && Alphabetic(psz[..n]) && (forall j :: 0 <= j < n ==> !IsSpace(psz[j]))
    ensures ok ==> n == WordLength(psz) && b256 == Repr(256, Num(58, Values(psz[..n])))
    ensures !ok ==> n < WordLength(psz) && LetterValue(psz[n]) == None
  {
    hide Pow, Num, Repr, Strip, WordLength, LetterValue;
    var buf := new nat[|psz| * 733 / 1000 + 1](_ => 0);
    DecodeSpace(|psz|);
    AllZero(256, buf[..]);
    ok, n := true, 0;
    assert Values(psz[..0]) == [];
    NoDigits(58, []);
    while ok && n < |psz| && !IsSpace(psz[n])
      invariant n <= |psz| && Alphabetic(psz[..n]) && (forall j :: 0 <= j < n ==> !IsSpace(psz[j]))
      invariant Digits(256, buf[..]) && Num(256, buf[..]) == Num(58, Values(psz[..n]))
      invariant !ok ==> n < |psz| && !IsSpace(psz[n]) && LetterValue(psz[n]) == None
      decreases ok, |psz| - n
    {
      var ch := LetterValue(psz[n]);
      if ch.None? {
        ok := false;
      } else {
        ValueBack(psz[n]);
        MoreValues(psz, n);
        DigitsFit(psz, n + 1);
        ghost var before := buf[..];
        var carry := MulAdd(buf, 256, 58, ch.value);
        NoCarry(256, 58, before, buf[..], ch.value, carry);
        assert carry == 0;
        n := n + 1;
      }
    }
    WordSplit(psz, n);
    WordAt(psz, n);
    StripRepr(256, buf[..]);
    b256 := SkipZeros(buf[..]);
  }

  lemma WordAt(u: string, n: nat)
    requires n <= |u|
    ensures WordLength(u[n..]) == 0 <==> n == |u| || IsSpace(u[n])
  {
  }

  lemma MoreValues(t: string, n: nat)
    requires n < |t| && Alphabetic(t[..n]) && LetterValue(t[n]).Some?
    ensures Alphabetic(t[..n + 1]) && Values(t[..n + 1]) == Values(t[..n]) + [LetterValue(t[n]).value]
    ensures Num(58, Values(t[..n + 1])) == Num(58, Values(t[..n])) * 58 + LetterValue(t[n]).value
  {
    hide Num, LetterValue;
    assert t[..n + 1] == t[..n] + [t[n]];
    var s := Values(t[..n + 1]);
    NumSnoc(58, s, n);
    assert s[..n + 1] == s && s[..n] == Values(t[..n]);
  }

  lemma DigitsFit(t: string, n: nat)
    requires n <= |t| && Alphabetic(t[..n])
    ensures Num(58, Values(t[..n])) < Pow(58, |t|)
  {
    hide Pow, Num;
    NumBound(58, Values(t[..n]));
    PowMonotone(58, n, |t|);
  }

  method DecodeBase58(psz: string) returns (r: Option<seq<nat>>)
    ensures r == Decode(psz)
  {
    hide Pow, Num, Repr, Recode, WordLength, SkipSpaces, LetterValue;
    var u := DropSpaces(psz);
    var zeroes := 0;
    while zeroes < |u| && u[zeroes] == '1'
      invariant zeroes <= |u| && forall j :: 0 <= j < zeroes ==> u[j] == '1'
    {
      zeroes := zeroes + 1;
    }
    var ok, n, b256 := ReadDigits(u[zeroes..]);
    OnesFirst(u, zeroes, n);
    var trailing := DropSpaces(u[zeroes + n..]);
    if ok && trailing == "" {
      r := Some(Repeat(zeroes) + b256);
    } else {
      r := None;
    }
  }

  /** Counting the ones first, and reading the other letters after them, is recoding the whole word. */
  lemma OnesFirst(u: string, zeroes: nat, n: nat)
    requires zeroes + n <= |u| && (forall j :: 0 <= j < zeroes ==> u[j] == '1') && (zeroes < |u| ==> u[zeroes] != '1')
    requires Alphabetic(u[zeroes..][..n]) && forall j :: 0 <= j < n ==> !IsSpace(u[zeroes..][j])
    ensures WordLength(u) == zeroes + WordLength(u[zeroes..])
    ensures Alphabetic(u[..zeroes + n]) && Recode(58, 256, Values(u[..zeroes + n])) == Repeat(zeroes) + Repr(256, Num(58, Values(u[zeroes..][..n])))
    ensures n < WordLength(u[zeroes..]) && LetterValue(u[zeroes..][n]) == None ==> !Alphabetic(u[..WordLength(u)])
  {
    hide Num, Repr, WordLength, LetterValue, Strip, Zeros, Recode, Repeat, Values;
    var w, x := u[..zeroes + n], u[zeroes..][..n];
    OnesValue();
    assert w == u[..zeroes] + x;
    OnesThen(u[..zeroes], x);
    WordSplit(u, zeroes);
    RecodeStripped(58, 256, zeroes, Values(x));
    if n < WordLength(u[zeroes..]) && LetterValue(u[zeroes..][n]) == None {
      assert u[..WordLength(u)][zeroes + n] == u[zeroes..][n];
    }
  }

  lemma OnesThen(ones: string, x: string)
    requires (forall j :: 0 <= j < |ones| ==> ones[j] == '1') && Alphabetic(x) && (x != "" ==> x[0] != '1')
    ensures Alphabetic(ones + x) && Values(ones + x) == Repeat(|ones|) + Values(x) && Strip(Values(x)) == Values(x)
  {
    hide LetterValue;
    OnesValue();
    var w := ones + x;
    assert forall j :: |ones| <= j < |w| ==> w[j] == x[j - |ones|];
    assert Values(w) == Repeat(|ones|) + Values(x);
    if x != "" {
      ValueBack(x[0]);
    }
  }

  lemma OnesValue()
    ensures LetterValue('1') == Some(0) && Letter(0) == '1'
  {
  }

  method DecodeBase58Check(hash: Hash4, psz: string) returns (r: Option<seq<nat>>)
    ensures r == DecodeCheck(hash, psz)
  {
    hide Decode;
    r := DecodeBase58(psz);
    if r.Some? {
      var vch := r.value;
      if |vch| < 4 {
        r := None;
      } else if hash(vch[..|vch| - 4]) != vch[|vch| - 4..] {
        r := None;
      } else {
        r := Some(vch[..|vch| - 4]);
      }
    }
  }
}
