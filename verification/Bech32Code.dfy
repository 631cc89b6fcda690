/** The loops of src/bech32.cpp, proved against the functions of Bech32. */
module Bech32Code {
  import opened Common
  import opened Bech32Checksum
  import opened Bech32

  method ExpandHrp(hrp: string) returns (ret: data)
    ensures ret == ExpandHRP(hrp)
  {
    hide HighBits, LowBits;
    var n := |hrp|;
    var bytes := new bv8[2 * n + 1](_ => 0);
    for i := 0 to n
      invariant forall j :: 0 <= j < i ==> bytes[j] == HighBits(hrp[j])
      invariant forall j :: 0 <= j < i ==> bytes[n + 1 + j] == LowBits(hrp[j])
    {
      bytes[i] := HighBits(hrp[i]);
      bytes[i + n + 1] := LowBits(hrp[i]);
    }
    bytes[n] := 0;
    ret := bytes[..];
    assert ret == ExpandHRP(hrp);
  }

  method Verify(hrp: string, values: data) returns (ok: bool)
    ensures ok == VerifyChecksum(hrp, values)
  {
    var enc := ExpandHrp(hrp);
    var mod := PolyMod(enc + values);
    ok := mod == 1;
  }

  method Create(hrp: string, values: data) returns (ret: data)
    ensures ret == CreateChecksum(hrp, values)
  {
    hide ExpandHRP, Feed, Xor, Top, Low;
    var enc := ExpandHrp(hrp);
    var poly := PolyMod(enc + values + SIX_ZEROES);
    var mod := Xor(poly, 1);
    ret := [];
    for i := 0 to 6
      invariant |ret| == i && forall j :: 0 <= j < i ==> ret[j] == Low(Top(mod, j + 1))
    {
      ret := ret + [Low(Top(mod, i + 1))];
    }
    assert ret == Groups(mod);
  }

  method EncodeText(hrp: string, values: data) returns (ret: string)
    ensures ret == Encode(hrp, values)
  {
    hide CreateChecksum, Charset;
    var checksum := Create(hrp, values);
    var combined := values + checksum;
    ret := hrp + "1";
    var i := 0;
    while i < |combined| && combined[i] < 32
      invariant i <= |combined| && Symbols(combined[..i]) && ret == hrp + "1" + Letters(combined[..i])
    {
      SymbolCode(combined[i]);
      MoreLetters(combined, i);
      ret := ret + [Charset(combined[i] as nat)];
      i := i + 1;
    }
    if i < |combined| {
      ret := "";
      assert !Symbols(combined);
    } else {
      assert combined[..i] == combined;
    }
  }

  lemma MoreLetters(v: data, i: nat)
    requires i < |v| && Symbols(v[..i]) && v[i] < 32 && v[i] as nat < 32
    ensures Symbols(v[..i + 1]) && Letters(v[..i + 1]) == Letters(v[..i]) + [Charset(v[i] as nat)]
  {
    hide Charset;
    assert v[..i + 1] == v[..i] + [v[i]];
  }

  /** The first loop of Decode. */
  method CheckCharacters(s: string) returns (ok: bool)
    ensures ok == Acceptable(s)
  {
    var lower, upper, i := false, false, 0;
    while i < |s| && 33 <= s[i] as nat <= 126
      invariant i <= |s| && forall j :: 0 <= j < i ==> 33 <= s[j] as nat <= 126
      invariant lower <==> exists j :: 0 <= j < i && IsLower(s[j])
      invariant upper <==> exists j :: 0 <= j < i && IsUpper(s[j])
    {
      lower := lower || IsLower(s[i]);
      upper := upper || IsUpper(s[i]);
      i := i + 1;
    }
    ok := i == |s| && !(lower && upper);
  }

  /** str.rfind('1') + 1 */
  method FindSeparator(s: string) returns (n: nat)
    ensures n == AfterLastOne(s)
  {
    n := |s|;
    assert s[..n] == s;
    while n > 0 && s[n - 1] != '1'
      invariant n <= |s| && AfterLastOne(s) == AfterLastOne(s[..n])
    {
      assert s[..n][..n - 1] == s[..n - 1];
      n := n - 1;
    }
  }

  method ReadValues(s: string) returns (ok: bool, values: data)
    ensures ReadLetters(s) == if ok then Some(values) else None
  {
    hide CharsetRev;
    ok, values := true, [];
    var i := 0;
    assert s[0..] == s;
    OntoNothing(ReadLetters(s));
    while ok && i < |s|
      invariant i <= |s| && ReadLetters(s) == if ok then Onto(values, ReadLetters(s[i..])) else None
      decreases ok, |s| - i
    {
      var rev := CharsetRev(s[i]);
      RevRange(s[i]);
      ok := rev.Some?;
      assert s[i..][0] == s[i] && s[i..][1..] == s[i + 1..];
      if ok {
        OntoMore(values, rev.value as bv8, ReadLetters(s[i + 1..]));
        values := values + [rev.value as bv8];
        i := i + 1;
      }
    }
    assert ok ==> values + [] == values;
  }

  function Onto(a: data, r: Option<data>): Option<data> {
    match r
    case None => None
    case Some(b) => Some(a + b)
  }

  lemma OntoNothing(r: Option<data>)
    ensures Onto([], r) == r
  {
    if r.Some? {
      assert [] + r.value == r.value;
    }
  }

  lemma OntoMore(a: data, x: bv8, r: Option<data>)
    ensures Onto(a, Onto([x], r)) == Onto(a + [x], r)
  {
    if r.Some? {
      assert a + ([x] + r.value) == (a + [x]) + r.value;
    }
  }

  method Lower(s: string) returns (r: string)
    ensures r == LowerAll(s)
  {
    r := "";
    for i := 0 to |s|
      invariant |r| == i && forall j :: 0 <= j < i ==> r[j] == LowerCase(s[j])
    {
      r := r + [LowerCase(s[i])];
    }
  }

  method DecodeText(s: string) returns (hrp: string, values: data)
    ensures (hrp, values) == Decode(s)
  {
    hide Acceptable, AfterLastOne, ReadLetters, VerifyChecksum;
    hrp, values := "", [];
    var acceptable := CheckCharacters(s);
    var n := FindSeparator(s);
    if acceptable && |s| <= 1023 && n > 1 && n + 6 <= |s| {
      var ok, all := ReadValues(s[n..]);
      LettersRange(s[n..]);
      if ok {
        var lower := Lower(s[..n - 1]);
        var verified := Verify(lower, all);
        if verified {
          hrp, values := lower, all[..|all| - 6];
        }
      }
    }
  }
}
