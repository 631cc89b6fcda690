/** What exactly Decode of src/bech32.cpp accepts. */
module Bech32Exact {
  import opened Common
  import opened Bech32Checksum
  import opened Bech32

  /** No mixture of upper and lower case. */
  predicate OneCase(s: string) {
    (forall i :: 0 <= i < |s| ==> !IsLower(s[i])) || (forall i :: 0 <= i < |s| ==> !IsUpper(s[i]))
  }

  // ---- the case of letters ----

  lemma LowerLetter(c: char)
    ensures var d := LowerCase(c); !IsUpper(d) && LowerCase(d) == d && (d == '1' <==> c == '1') && (33 <= c as nat <= 126 <==> 33 <= d as nat <= 126)
    ensures !IsUpper(c) ==> LowerCase(c) == c
  {
  }

  lemma RevLower(c: char)
    ensures CharsetRev(LowerCase(c)) == CharsetRev(c)
  {
    if 'A' <= c < 'N' {
      RevUpper(c);
    } else if 'N' <= c <= 'Z' {
      RevUpperRest(c);
    }
  }

  lemma RevUpper(c: char)
    requires 'A' <= c < 'N'
    ensures CharsetRev(c - 'A' + 'a') == CharsetRev(c)
  {
  }

  lemma RevUpperRest(c: char)
    requires 'N' <= c <= 'Z'
    ensures CharsetRev(c - 'A' + 'a') == CharsetRev(c)
  {
  }

  lemma {:induction false} ReadLower(s: string)
    ensures ReadLetters(LowerAll(s)) == ReadLetters(s)
    decreases |s|
  {
    hide CharsetRev, LowerCase;
    if s != "" {
      RevLower(s[0]);
      ReadLower(s[1..]);
      assert LowerAll(s)[1..] == LowerAll(s[1..]);
    }
  }

  lemma {:induction false} SeparatorLower(s: string)
    ensures AfterLastOne(LowerAll(s)) == AfterLastOne(s)
    decreases |s|
  {
    hide LowerCase;
    if s != "" {
      var n := |s| - 1;
      LowerLetter(s[n]);
      SeparatorLower(s[..n]);
      assert LowerAll(s)[..n] == LowerAll(s[..n]);
    }
  }

  lemma AcceptableLower(s: string)
    ensures Acceptable(s) <==> OneCase(s) && Acceptable(LowerAll(s))
  {
    hide LowerCase, IsUpper, IsLower;
    var t := LowerAll(s);
    forall i | 0 <= i < |s|
      ensures !IsUpper(t[i]) && (33 <= s[i] as nat <= 126 <==> 33 <= t[i] as nat <= 126)
    {
      LowerLetter(s[i]);
    }
    if forall i :: 0 <= i < |s| ==> 33 <= t[i] as nat <= 126 {
      forall i | 0 <= i < |s|
        ensures 33 <= s[i] as nat <= 126
      {
        assert 33 <= t[i] as nat <= 126;
      }
    }
  }

  lemma LowerTwice(s: string)
    ensures LowerAll(LowerAll(s)) == LowerAll(s)
  {
    hide LowerCase;
    forall i | 0 <= i < |s|
      ensures LowerCase(LowerCase(s[i])) == LowerCase(s[i])
    {
      LowerLetter(s[i]);
    }
  }

  /** Upper case is read as lower case, but a mixture is refused. */
  lemma CaseBlind(s: string)
    ensures Decode(s) == if OneCase(s) then Decode(LowerAll(s)) else ("", [])
  {
    hide VerifyChecksum, ReadLetters, AfterLastOne, Acceptable, OneCase, LowerCase;
    AcceptableLower(s);
    SeparatorLower(s);
    var n, t := AfterLastOne(s), LowerAll(s);
    if Acceptable(s) && n > 1 {
      assert t[n..] == LowerAll(s[n..]) && t[..n - 1] == LowerAll(s[..n - 1]);
      ReadLower(s[n..]);
      LowerTwice(s[..n - 1]);
    }
  }

  // ---- every accepted string is an encoding ----

  lemma RevCharset(c: char)
    requires CharsetRev(c).Some? && !IsUpper(c)
    ensures CharsetRev(c).value < 32 && Charset(CharsetRev(c).value) == c
  {
    if c < 'a' {
      RevDigit(c);
    } else {
      RevLetter(c);
    }
  }

  lemma RevDigit(c: char)
    requires CharsetRev(c).Some? && !IsUpper(c) && c < 'a'
    ensures CharsetRev(c).value < 32 && Charset(CharsetRev(c).value) == c
  {
  }

  lemma RevLetter(c: char)
    requires CharsetRev(c).Some? && 'a' <= c
    ensures CharsetRev(c).value < 32 && Charset(CharsetRev(c).value) == c
  {
  }

  lemma SymbolNat(n: nat)
    requires n < 32
    ensures (n as bv8) as nat == n && (n as bv8) < 32
  {
  }

  lemma {:induction false} LettersAgain(s: string)
    requires ReadLetters(s).Some? && forall i :: 0 <= i < |s| ==> !IsUpper(s[i])
    ensures Symbols(ReadLetters(s).value) && Letters(ReadLetters(s).value) == s
    decreases |s|
  {
    hide Charset, CharsetRev, IsUpper;
    LettersRange(s);
    if s != "" {
      LettersAgain(s[1..]);
      RevCharset(s[0]);
      SymbolNat(CharsetRev(s[0]).value);
      var v := ReadLetters(s).value;
      assert v[1..] == ReadLetters(s[1..]).value;
      assert Letters(v) == [Charset(v[0] as nat)] + Letters(v[1..]);
    }
  }

  /** The checksum is determined by the values. */
  lemma ChecksumUnique(hrp: string, u: data)
    requires |u| >= 6 && Symbols(u) && VerifyChecksum(hrp, u)
    ensures u == u[..|u| - 6] + CreateChecksum(hrp, u[..|u| - 6])
  {
    hide VerifyChecksum, CreateChecksum;
    var values := u[..|u| - 6];
    var w := values + CreateChecksum(hrp, values);
    ChecksumAccepted(hrp, values);
    if u != w {
      BurstsRejected(hrp, u, w, |values|);
    }
  }

  lemma LowerAccepted(t: string)
    requires Decode(t).0 != "" && forall i :: 0 <= i < |t| ==> !IsUpper(t[i])
    ensures var (hrp, values) := Decode(t); t == Encode(hrp, values)
  {
    hide VerifyChecksum, CreateChecksum, ReadLetters, AfterLastOne, Acceptable, Letters, LowerCase, IsUpper;
    var n := AfterLastOne(t);
    LettersAgain(t[n..]);
    LettersRange(t[n..]);
    var u := ReadLetters(t[n..]).value;
    forall i | 0 <= i < n - 1
      ensures LowerCase(t[i]) == t[i]
    {
      LowerLetter(t[i]);
    }
    assert LowerAll(t[..n - 1]) == t[..n - 1];
    ChecksumUnique(t[..n - 1], u);
    assert t == t[..n - 1] + "1" + t[n..];
  }

  /** Exactly the encodings are accepted, in lower or in upper case. */
  lemma DecodeExactly(s: string, hrp: string, values: data)
    requires hrp != ""
    ensures Decode(s) == (hrp, values) <==> OneCase(s) && Encodable(hrp, values) && LowerAll(s) == Encode(hrp, values)
  {
    hide Decode, Encode, OneCase, LowerCase, IsUpper;
    CaseBlind(s);
    if Encodable(hrp, values) {
      EncodeDecode(hrp, values);
    }
    if Decode(s) == (hrp, values) {
      DecodeRange(s);
      forall i | 0 <= i < |s|
        ensures !IsUpper(LowerCase(s[i]))
      {
        LowerLetter(s[i]);
      }
      LowerAccepted(LowerAll(s));
    }
  }

  // ---- the character set ----

  const CHARSET := "qpzry9x8gf2tvdw0s3jn54khce6mua7l"

  lemma CharsetText(v: nat)
    requires v < 32
    ensures Charset(v) == CHARSET[v]
  {
  }
}
