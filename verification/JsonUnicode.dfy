/** What string literals mean: the parser of src/cJSON.c against section 7 of RFC 8259 and an independent UTF-8 reader. */
module JsonUnicode {
  import opened Common
  import opened Json
  import opened JsonParser
  import opened JsonRoundTrip

  // ---- UTF-8, by section 3 of RFC 3629 ----

  predicate Continues(c: char) {
    0x80 <= c as int <= 0xBF
  }

  /** The six bits of a continuation byte. */
  function Six(c: char): int {
    c as int - 0x80
  }

  /** The code point at the beginning of a text and the number of its bytes. */
  function ReadUtf8(s: string): Option<(nat, nat)> {
    if s == "" then None else
      var b := s[0] as int;
      if b <= 0x7F then Some((b, 1))
      else if 0xC2 <= b <= 0xDF && |s| >= 2 && Continues(s[1]) then Some(((b - 0xC0) * 0x40 + Six(s[1]), 2))
      else if 0xE0 <= b <= 0xEF && |s| >= 3 && Continues(s[1]) && Continues(s[2]) then
        var cp := (b - 0xE0) * 0x1000 + Six(s[1]) * 0x40 + Six(s[2]);
        if cp >= 0x800 && !Surrogate(cp) then Some((cp, 3)) else None
      else if 0xF0 <= b <= 0xF4 && |s| >= 4 && Continues(s[1]) && Continues(s[2]) && Continues(s[3]) then
        var cp := (b - 0xF0) * 0x4_0000 + Six(s[1]) * 0x1000 + Six(s[2]) * 0x40 + Six(s[3]);
        if 0x1_0000 <= cp <= 0x10_FFFF then Some((cp, 4)) else None
      else None
  }

  predicate Surrogate(cp: int) {
    0xD800 <= cp <= 0xDFFF
  }

  /** The code points of a whole text. */
  function CodePoints(s: string): Option<seq<nat>>
    decreases |s|
  {
    if s == "" then Some([]) else
      match ReadUtf8(s)
      case None => None
      case Some((cp, n)) =>
        if n > |s| then None else
          match CodePoints(s[n..])
          case None => None
          case Some(rest) => Some([cp] + rest)
  }

  lemma ByteCode(n: nat)
    requires n < 256
    ensures Byte(n) as int == n
  {
  }

  /** Six bits at a time. */
  lemma Groups(cp: nat)
    requires cp <= 0x10_FFFF
    ensures cp == cp / 64 * 64 + cp % 64 && cp / 64 == cp / 4096 * 64 + cp / 64 % 64 && cp / 4096 == cp / 262144 * 64 + cp / 4096 % 64
    ensures cp < 0x800 ==> cp / 64 < 32
    ensures cp < 0x1_0000 ==> cp / 4096 < 16
    ensures cp / 262144 <= 4
    ensures cp >= 0x80 ==> cp / 64 >= 2
  {
  }

  /** The bytes that the parser writes are the UTF-8 form of the code point. */
  lemma Utf8Reads(cp: nat, rest: string)
    requires cp <= 0x10_FFFF && !Surrogate(cp)
    ensures ReadUtf8(Utf8(cp) + rest) == Some((cp, |Utf8(cp)|))
  {
    hide Byte;
    Groups(cp);
    ByteCode(0x80 + cp % 64);
    if cp < 0x80 {
      ByteCode(cp);
      assert (Utf8(cp) + rest)[0] == Byte(cp);
    } else if cp < 0x800 {
      ByteCode(0xC0 + cp / 64);
      TwoRead(Utf8(cp) + rest, cp, cp / 64, cp % 64);
    } else if cp < 0x1_0000 {
      ByteCode(0xE0 + cp / 4096);
      ByteCode(0x80 + cp / 64 % 64);
      ThreeRead(Utf8(cp) + rest, cp, cp / 4096, cp / 64 % 64, cp % 64);
    } else {
      ByteCode(0xF0 + cp / 262144);
      ByteCode(0x80 + cp / 4096 % 64);
      ByteCode(0x80 + cp / 64 % 64);
      FourRead(Utf8(cp) + rest, cp, cp / 262144, cp / 4096 % 64, cp / 64 % 64, cp % 64);
    }
  }

  lemma TwoRead(s: string, cp: nat, a: nat, b: nat)
    requires |s| >= 2 && s[0] as int == 0xC0 + a && s[1] as int == 0x80 + b && 2 <= a < 32 && b < 64 && cp == a * 64 + b
    ensures ReadUtf8(s) == Some((cp, 2))
  {
  }

  lemma ThreeRead(s: string, cp: nat, a: nat, b: nat, c: nat)
    requires |s| >= 3 && s[0] as int == 0xE0 + a && s[1] as int == 0x80 + b && s[2] as int == 0x80 + c && a < 16 && b < 64 && c < 64
    requires cp == (a * 64 + b) * 64 + c && cp >= 0x800 && !Surrogate(cp)
    ensures ReadUtf8(s) == Some((cp, 3))
  {
  }

  lemma FourRead(s: string, cp: nat, a: nat, b: nat, c: nat, d: nat)
    requires |s| >= 4 && s[0] as int == 0xF0 + a && s[1] as int == 0x80 + b && s[2] as int == 0x80 + c && s[3] as int == 0x80 + d
    requires a <= 4 && b < 64 && c < 64 && d < 64 && cp == ((a * 64 + b) * 64 + c) * 64 + d && 0x1_0000 <= cp <= 0x10_FFFF
    ensures ReadUtf8(s) == Some((cp, 4))
  {
  }

  // ---- the parts of a literal, by section 7 of RFC 8259 ----

  /** The value of a hexadecimal digit in either case, or -1. */
  function Nibble(c: char): int {
    match c
    case '0' => 0 case '1' => 1 case '2' => 2 case '3' => 3 case '4' => 4
    case '5' => 5 case '6' => 6 case '7' => 7 case '8' => 8 case '9' => 9
    case 'a' => 10 case 'b' => 11 case 'c' => 12 case 'd' => 13 case 'e' => 14 case 'f' => 15
    case 'A' => 10 case 'B' => 11 case 'C' => 12 case 'D' => 13 case 'E' => 14 case 'F' => 15
    case _ => -1
  }

  /** The number that \\uXXXX at an index of a text spells. */
  function Spelled(t: string, i: nat): Option<int> {
    if i + 6 <= |t| && t[i] == '\\' && t[i + 1] == 'u' && Nibble(t[i + 2]) >= 0 && Nibble(t[i + 3]) >= 0 && Nibble(t[i + 4]) >= 0 && Nibble(t[i + 5]) >= 0
    then Some(((Nibble(t[i + 2]) * 16 + Nibble(t[i + 3])) * 16 + Nibble(t[i + 4])) * 16 + Nibble(t[i + 5]))
    else None
  }

  /** The code point that a hexadecimal escape or a pair of them spells. */
  ghost predicate SpellsPoint(t: string, i: nat, cp: nat) {
    Spelled(t, i) == Some(cp) && !Surrogate(cp)
  }

  ghost predicate SpellsPair(t: string, i: nat, cp: nat) {
    && HighAt(t, i) && LowAt(t, i + 6)
    && cp == 0x1_0000 + (Spelled(t, i).value - 0xD800) * 0x400 + (Spelled(t, i + 6).value - 0xDC00)
  }

  predicate HighAt(t: string, i: nat) {
    Spelled(t, i).Some? && 0xD800 <= Spelled(t, i).value <= 0xDBFF
  }

  predicate LowAt(t: string, i: nat) {
    Spelled(t, i).Some? && 0xDC00 <= Spelled(t, i).value <= 0xDFFF
  }

  /** The code points of the escapes of two characters, or -1. */
  function EscapeOf(c: char): int {
    match c
    case '\"' => 0x22
    case '\\' => 0x5C
    case '/' => 0x2F
    case 'b' => 0x08
    case 'f' => 0x0C
    case 'n' => 0x0A
    case 'r' => 0x0D
    case 't' => 0x09
    case _ => -1
  }

  /** A character as such, an escape of two characters, a hexadecimal escape, or a surrogate pair. */
  ghost predicate Denotes(t: string, cp: nat) {
    || (ReadUtf8(t) == Some((cp, |t|)) && cp != 0x22 && cp != 0x5C)
    || (|t| == 2 && t[0] == '\\' && EscapeOf(t[1]) == cp)
    || (|t| == 6 && SpellsPoint(t, 0, cp))
    || (|t| == 12 && SpellsPair(t, 0, cp))
  }

  lemma NibbleRead(c: char)
    ensures Nibble(c) >= 0 ==> HexValue(c) == Some(Nibble(c)) && Nibble(c) < 16 && c != '\"' && c != '\\'
    ensures HexValue(c).Some? ==> Nibble(c) == HexValue(c).value
  {
  }

  lemma SpelledRead(t: string, i: nat)
    requires i + 6 <= |t| && t[i] == '\\' && t[i + 1] == 'u'
    ensures Spelled(t, i).Some? ==> Hex4(t[i + 2], t[i + 3], t[i + 4], t[i + 5]) == Spelled(t, i).value
    ensures Spelled(t, i).None? ==> Hex4(t[i + 2], t[i + 3], t[i + 4], t[i + 5]) == 0
  {
    hide HexValue, Nibble;
    NibbleRead(t[i + 2]);
    NibbleRead(t[i + 3]);
    NibbleRead(t[i + 4]);
    NibbleRead(t[i + 5]);
  }

  /** Hexadecimal escapes are read as the code point they spell, surrogate pairs included. */
  lemma Utf16Reads(c: string, i: nat, end: nat, cp: nat)
    requires end <= |c|
    ensures i + 6 <= end && SpellsPoint(c, i, cp) ==> Utf16(c, i, end) == Some((Utf8(cp), 6))
    ensures i + 12 <= end && SpellsPair(c, i, cp) ==> Utf16(c, i, end) == Some((Utf8(cp), 12))
  {
    hide Utf8, Hex4, Spelled;
    if i + 6 <= end && Spelled(c, i).Some? {
      SpelledAt(c, i);
      SpelledRead(c, i);
      if i + 12 <= end && Spelled(c, i + 6).Some? {
        SpelledAt(c, i + 6);
        SpelledRead(c, i + 6);
      }
    }
  }

  lemma SpelledAt(t: string, i: nat)
    requires Spelled(t, i).Some?
    ensures i + 6 <= |t| && t[i] == '\\' && t[i + 1] == 'u'
  {
  }

  /** A surrogate by itself is refused. */
  lemma UnpairedFails(c: string, i: nat, end: nat)
    requires i + 6 <= end < |c| && (LowAt(c, i) || (HighAt(c, i) && !(i + 12 <= end && LowAt(c, i + 6))))
    ensures Decode(c, i, end) == None
  {
    hide Hex4, Spelled, Utf8;
    SpelledAt(c, i);
    SpelledRead(c, i);
    if i + 12 <= end && c[i + 6] == '\\' && c[i + 7] == 'u' {
      SpelledRead(c, i + 6);
    }
  }

  /** So is a backslash before any other character than those of the two tables. */
  lemma OtherEscapeFails(c: string, i: nat, end: nat)
    requires i < end < |c| && c[i] == '\\' && c[i + 1] != 'u' && EscapeOf(c[i + 1]) < 0
    ensures Decode(c, i, end) == None
  {
  }

  /** But \\u before anything else than four hexadecimal digits is read as a zero byte. */
  lemma BadHexIsZero(c: string, i: nat, end: nat)
    requires i + 6 <= end < |c| && c[i] == '\\' && c[i + 1] == 'u' && Spelled(c, i).None?
    ensures Utf16(c, i, end) == Some(([0 as char], 6))
  {
    hide Hex4, Spelled;
    SpelledRead(c, i);
  }

  // ---- whole literals ----

  /** The bytes of a part. */
  function Bytes(t: string, cp: nat): string {
    if t != "" && t[0] == '\\' then Utf8(cp) else t
  }

  function Joined(parts: seq<string>): string {
    if parts == [] then "" else parts[0] + Joined(parts[1..])
  }

  function JoinedBytes(parts: seq<string>, cps: seq<nat>): string
    requires |parts| == |cps|
  {
    if parts == [] then "" else Bytes(parts[0], cps[0]) + JoinedBytes(parts[1..], cps[1..])
  }

  ghost predicate AllDenote(parts: seq<string>, cps: seq<nat>) {
    |parts| == |cps| && forall i :: 0 <= i < |parts| ==> Denotes(parts[i], cps[i])
  }

  /** Reading looks no further than the bytes of the code point. */
  lemma ReadPrefix(t: string, rest: string)
    requires ReadUtf8(t).Some? && ReadUtf8(t).value.1 == |t|
    ensures ReadUtf8(t + rest) == ReadUtf8(t) && t != ""
  {
    var s := t + rest;
    assert forall i :: 0 <= i < |t| ==> s[i] == t[i];
  }

  /** Whatever a part denotes, its bytes are the UTF-8 form of that. */
  lemma BytesRead(t: string, cp: nat, rest: string)
    requires Denotes(t, cp)
    ensures Bytes(t, cp) != "" && ReadUtf8(Bytes(t, cp) + rest) == Some((cp, |Bytes(t, cp)|))
  {
    hide Utf8, Spelled;
    if t != "" && t[0] == '\\' {
      if |t| == 12 {
        SpelledBound(t, 0);
        SpelledBound(t, 6);
      } else if |t| == 6 {
        SpelledBound(t, 0);
      }
      assert cp <= 0x10_FFFF && !Surrogate(cp);
      Utf8Reads(cp, rest);
      assert Utf8(cp) != "" by { Utf8Some(cp); }
    } else {
      RawOnly(t, cp);
      ReadPrefix(t, rest);
    }
  }

  lemma Utf8Some(cp: nat)
    ensures Utf8(cp) != ""
  {
  }

  lemma RawOnly(t: string, cp: nat)
    requires Denotes(t, cp) && !(t != "" && t[0] == '\\')
    ensures ReadUtf8(t) == Some((cp, |t|)) && cp != 0x22
  {
    if |t| == 6 || |t| == 12 {
      assert Spelled(t, 0).None?;
    }
  }

  lemma SpelledBound(t: string, i: nat)
    ensures Spelled(t, i).Some? ==> 0 <= Spelled(t, i).value < 0x1_0000
  {
    hide Nibble;
    if Spelled(t, i).Some? {
      NibbleRead(t[i + 2]);
      NibbleRead(t[i + 3]);
      NibbleRead(t[i + 4]);
      NibbleRead(t[i + 5]);
    }
  }

  /** The bytes of a character as such are neither quotes nor backslashes. */
  lemma RawBytes(t: string, cp: nat)
    requires ReadUtf8(t) == Some((cp, |t|)) && cp != 0x22 && cp != 0x5C
    ensures 1 <= |t| <= 4 && forall i :: 0 <= i < |t| ==> t[i] != '\"' && t[i] != '\\'
  {
  }

  lemma {:induction false} PlainDecodes(c: string, i: nat, t: string, end: nat)
    requires StartsWith(c, i, t) && i + |t| <= end < |c| && forall k :: 0 <= k < |t| ==> t[k] != '\"' && t[k] != '\\'
    ensures StringEnd(c, i) == StringEnd(c, i + |t|)
    ensures Decode(c, i, end) == Behind(t, Decode(c, i + |t|, end))
    decreases |t|
  {
    if t == "" {
      BehindNothing("", Decode(c, i, end));
    } else {
      At(c, i, t, 0);
      assert t == [t[0]] + t[1..];
      Parts(c, i, [t[0]], t[1..]);
      PlainDecodes(c, i + 1, t[1..], end);
      BehindTwice([t[0]], t[1..], Decode(c, i + |t|, end));
    }
  }

  lemma SpelledThere(c: string, o: nat, t: string, i: nat)
    requires StartsWith(c, o, t) && i + 6 <= |t|
    ensures o + i + 6 <= |c| && Spelled(c, o + i) == Spelled(t, i)
  {
    hide Nibble;
    At(c, o, t, i);
    At(c, o, t, i + 1);
    At(c, o, t, i + 2);
    At(c, o, t, i + 3);
    At(c, o, t, i + 4);
    At(c, o, t, i + 5);
  }

  /** The first loop passes over a hexadecimal escape. */
  lemma SpelledEnds(c: string, i: nat)
    requires Spelled(c, i).Some?
    ensures i + 6 <= |c| && StringEnd(c, i) == StringEnd(c, i + 6)
  {
    NibbleRead(c[i + 2]);
    NibbleRead(c[i + 3]);
    NibbleRead(c[i + 4]);
    NibbleRead(c[i + 5]);
    hide Nibble;
    assert StringEnd(c, i + 2) == StringEnd(c, i + 3) == StringEnd(c, i + 4) == StringEnd(c, i + 5) == StringEnd(c, i + 6);
  }

  /** One part: both loops go past it, and its bytes are written. */
  lemma PartDecodes(c: string, i: nat, t: string, cp: nat, end: nat)
    requires StartsWith(c, i, t) && Denotes(t, cp) && i + |t| <= end < |c|
    ensures StringEnd(c, i) == StringEnd(c, i + |t|)
    ensures Decode(c, i, end) == Behind(Bytes(t, cp), Decode(c, i + |t|, end))
  {
    hide Utf8, Spelled, Hex4, Utf16, StartsWith;
    if t != "" && t[0] == '\\' {
      At(c, i, t, 0);
      if |t| == 2 && EscapeOf(t[1]) == cp {
        At(c, i, t, 1);
        ShortDecodes(c, i, cp, end);
      } else {
        HexDecodes(c, i, t, cp, end);
      }
    } else {
      RawOnly(t, cp);
      RawBytes(t, cp);
      PlainDecodes(c, i, t, end);
    }
  }

  lemma ShortDecodes(c: string, i: nat, cp: nat, end: nat)
    requires i + 2 <= end < |c| && c[i] == '\\' && EscapeOf(c[i + 1]) == cp
    ensures StringEnd(c, i) == StringEnd(c, i + 2)
    ensures Decode(c, i, end) == Behind(Utf8(cp), Decode(c, i + 2, end))
  {
    assert Utf8(cp) == [cp as char];
    assert Unescaped(c[i + 1]) == Some(cp as char);
  }

  lemma HexDecodes(c: string, i: nat, t: string, cp: nat, end: nat)
    requires StartsWith(c, i, t) && i + |t| <= end < |c| && ((|t| == 6 && SpellsPoint(t, 0, cp)) || (|t| == 12 && SpellsPair(t, 0, cp)))
    ensures StringEnd(c, i) == StringEnd(c, i + |t|)
    ensures Decode(c, i, end) == Behind(Utf8(cp), Decode(c, i + |t|, end))
  {
    hide Utf8, Spelled, Hex4, StartsWith, Utf16, StringEnd;
    SpelledThere(c, i, t, 0);
    SpelledEnds(c, i);
    SpelledAt(c, i);
    if |t| == 12 {
      SpelledThere(c, i, t, 6);
      SpelledEnds(c, i + 6);
    }
    Utf16Reads(c, i, end, cp);
  }

  /** All parts of a literal, whatever follows them. */
  lemma {:induction false} PartsDecode(c: string, i: nat, parts: seq<string>, cps: seq<nat>, end: nat)
    requires AllDenote(parts, cps) && StartsWith(c, i, Joined(parts)) && i + |Joined(parts)| <= end < |c|
    ensures StringEnd(c, i) == StringEnd(c, i + |Joined(parts)|)
    ensures Decode(c, i, end) == Behind(JoinedBytes(parts, cps), Decode(c, i + |Joined(parts)|, end))
    decreases |parts|
  {
    hide StartsWith, Denotes, Decode, StringEnd;
    if parts == [] {
      BehindNothing("", Decode(c, i, end));
    } else {
      var t := parts[0];
      Parts(c, i, t, Joined(parts[1..]));
      PartsDecode(c, i + |t|, parts[1..], cps[1..], end);
      PartDecodes(c, i, t, cps[0], end);
      BehindTwice(Bytes(t, cps[0]), JoinedBytes(parts[1..], cps[1..]), Decode(c, i + |Joined(parts)|, end));
    }
  }

  lemma {:induction false} JoinedRead(parts: seq<string>, cps: seq<nat>)
    requires AllDenote(parts, cps)
    ensures CodePoints(JoinedBytes(parts, cps)) == Some(cps)
    ensures (forall i :: 0 <= i < |cps| ==> cps[i] > 0) ==> ZeroFree(JoinedBytes(parts, cps))
    decreases |parts|
  {
    hide Denotes, ReadUtf8, Bytes;
    if parts != [] {
      var b, rest := Bytes(parts[0], cps[0]), JoinedBytes(parts[1..], cps[1..]);
      JoinedRead(parts[1..], cps[1..]);
      BytesRead(parts[0], cps[0], rest);
      assert (b + rest)[|b|..] == rest && [cps[0]] + cps[1..] == cps;
      if cps[0] > 0 {
        BytesRead(parts[0], cps[0], "");
        assert b + "" == b;
        NoZero(b, cps[0]);
      }
    }
  }

  lemma NoZero(b: string, cp: nat)
    requires ReadUtf8(b) == Some((cp, |b|)) && cp > 0
    ensures ZeroFree(b)
  {
  }

  /**
   * A literal of any parts, each denoting a code point other than zero, is parsed to the UTF-8 form of exactly those code
   * points.
   */
  lemma LiteralMeans(c: string, o: nat, parts: seq<string>, cps: seq<nat>) returns (s: string)
    requires AllDenote(parts, cps) && (forall i :: 0 <= i < |cps| ==> cps[i] > 0)
    requires StartsWith(c, o, "\"" + Joined(parts) + "\"")
    ensures o < |c| && ParseString(c, o) == Some((s, o + |Joined(parts)| + 2)) && CodePoints(s) == Some(cps)
  {
    hide StartsWith, Denotes, Decode, StringEnd, CString, Joined, JoinedBytes;
    var t := Joined(parts);
    Associate("\"", t, "\"");
    Parts(c, o, "\"", t + "\"");
    Parts(c, o + 1, t, "\"");
    At(c, o, "\"", 0);
    At(c, o + 1 + |t|, "\"", 0);
    var end := o + 1 + |t|;
    PartsDecode(c, o + 1, parts, cps, end);
    EmptyLiteral(c, end);
    s := JoinedBytes(parts, cps);
    assert s + "" == s;
    JoinedRead(parts, cps);
    ZeroFreeKept(s);
  }

  /** Parts followed by an unpaired surrogate, or by a backslash and a character that is no escape, are refused. */
  lemma LiteralRefused(c: string, o: nat, parts: seq<string>, cps: seq<nat>, end: nat)
    requires AllDenote(parts, cps) && StartsWith(c, o, "\"" + Joined(parts)) && o < |c| && StringEnd(c, o + 1) == Some(end)
    requires var i := o + 1 + |Joined(parts)|;
             && i < end
             && (|| (i + 6 <= end && (LowAt(c, i) || (HighAt(c, i) && !(i + 12 <= end && LowAt(c, i + 6)))))
                 || (c[i] == '\\' && c[i + 1] != 'u' && EscapeOf(c[i + 1]) < 0))
    ensures ParseString(c, o) == None
  {
    hide StartsWith, Denotes, Decode, StringEnd, CString, Joined, Spelled, EscapeOf;
    var i := o + 1 + |Joined(parts)|;
    Parts(c, o, "\"", Joined(parts));
    PartsDecode(c, o + 1, parts, cps, end);
    if i + 6 <= end && (LowAt(c, i) || (HighAt(c, i) && !(i + 12 <= end && LowAt(c, i + 6)))) {
      UnpairedFails(c, i, end);
    } else {
      OtherEscapeFails(c, i, end);
    }
  }
}
