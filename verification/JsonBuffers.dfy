/** The buffers that strings are printed and read into (src/cJSON.c): their sizes are computed beforehand. */
module JsonBuffers {
  import opened Common
  import opened Json
  import opened JsonParser

  // ---- printing: the length is exact ----

  /** The additional characters that a character needs. */
  function EscapeCharacters(c: char): nat {
    if Plain(c) then 0
    else if c == '\"' || c == '\\' || c == 8 as char || c == 12 as char || c == '\n' || c == '\r' || c == '\t' then 1
    else 5
  }

  function EscapeCount(s: string): nat {
    if s == "" then 0 else EscapeCount(s[..|s| - 1]) + EscapeCharacters(s[|s| - 1])
  }

  lemma {:induction false} EscapedSnoc(s: string, c: char)
    ensures EscapedAll(s + [c]) == EscapedAll(s) + Escaped(c)
  {
    hide Escaped;
    if s == "" {
      assert (s + [c])[1..] == "";
      assert EscapedAll("") == "";
      assert EscapedAll([c]) == Escaped(c) + EscapedAll("") == Escaped(c);
      assert "" + Escaped(c) == Escaped(c);
    } else {
      EscapedSnoc(s[1..], c);
      assert (s + [c])[1..] == s[1..] + [c];
      assert Escaped(s[0]) + (EscapedAll(s[1..]) + Escaped(c)) == Escaped(s[0]) + EscapedAll(s[1..]) + Escaped(c);
    }
  }

  /** Every prefix of a string fills a known part of the buffer. */
  lemma {:induction false} LengthExact(s: string)
    ensures |EscapedAll(s)| == |s| + EscapeCount(s)
  {
    hide Escaped;
    if s != "" {
      var t, c := s[..|s| - 1], s[|s| - 1];
      LengthExact(t);
      assert s == t + [c];
      EscapedSnoc(t, c);
      EscapedLength(c);
    }
  }

  lemma EscapedLength(c: char)
    ensures |Escaped(c)| == 1 + EscapeCharacters(c)
  {
  }

  lemma {:induction false} CountGrows(s: string, i: nat)
    requires i <= |s|
    ensures i + EscapeCount(s[..i]) <= |s| + EscapeCount(s)
    ensures i < |s| ==> EscapeCount(s[..i + 1]) == EscapeCount(s[..i]) + EscapeCharacters(s[i])
    decreases |s| - i
  {
    if i < |s| {
      assert s[..i + 1][..i] == s[..i];
      CountGrows(s, i + 1);
    } else {
      assert s[..i] == s;
    }
  }

  /** No character needs escaping. */
  lemma {:induction false} NoEscapes(s: string)
    requires EscapeCount(s) == 0
    ensures EscapedAll(s) == s
  {
    if s != "" {
      var t, c := s[..|s| - 1], s[|s| - 1];
      NoEscapes(t);
      assert s == t + [c];
      EscapedSnoc(t, c);
    }
  }

  /** The first loop of print_string_ptr. */
  method CountEscapes(input: string) returns (escape_characters: nat)
    ensures escape_characters == EscapeCount(input)
  {
    hide EscapeCharacters;
    escape_characters := 0;
    for i := 0 to |input|
      invariant escape_characters == EscapeCount(input[..i])
    {
      CountGrows(input, i);
      escape_characters := escape_characters + EscapeCharacters(input[i]);
    }
    assert input[..|input|] == input;
  }

  /** The second one writes each character or its escape; sprintf adds a zero byte, for which there is always room. */
  method WriteEscape(output: array<char>, p: nat, c: char)
    requires p + |Escaped(c)| < output.Length
    modifies output
    ensures output[..p] == old(output[..p]) && output[p..p + |Escaped(c)|] == Escaped(c)
  {
    if Plain(c) {
      output[p] := c;
    } else {
      output[p] := '\\';
      if c == '\\' || c == '\"' {
        output[p + 1] := c;
      } else if c == 8 as char {
        output[p + 1] := 'b';
      } else if c == 12 as char {
        output[p + 1] := 'f';
      } else if c == '\n' {
        output[p + 1] := 'n';
      } else if c == '\r' {
        output[p + 1] := 'r';
      } else if c == '\t' {
        output[p + 1] := 't';
      } else {
        output[p + 1], output[p + 2], output[p + 3] := 'u', '0', '0';
        output[p + 4], output[p + 5] := HexDigit(c as int / 16), HexDigit(c as int % 16);
        output[p + 6] := 0 as char;
      }
    }
  }

  /** print_string_ptr: the buffer is filled exactly, with the quote and the zero byte where output_length puts them */
  method Render(input: string) returns (output: array<char>)
    ensures fresh(output) && output[..] == Quoted(input) + [0 as char]
  {
    hide Escaped, EscapedAll, EscapeCount;
    var escape_characters := CountEscapes(input);
    var output_length := |input| + escape_characters;
    LengthExact(input);
    output := new char[output_length + 3];
    output[0] := '\"';
    if escape_characters == 0 {
      NoEscapes(input);
      for i := 0 to |input|
        invariant output[0] == '\"' && output[1..1 + i] == input[..i]
      {
        output[1 + i] := input[i];
      }
      assert output[1..output_length + 1] == EscapedAll(input);
    } else {
      Fill(output, input);
    }
    output[output_length + 1] := '\"';
    output[output_length + 2] := 0 as char;
    assert output[..] == [output[0]] + output[1..output_length + 1] + [output[output_length + 1]] + [output[output_length + 2]];
  }

  /** The loop that copies and escapes. */
  method Fill(output: array<char>, input: string)
    requires output.Length == |EscapedAll(input)| + 3 && output[0] == '\"'
    modifies output
    ensures output[0] == '\"' && output[1..|EscapedAll(input)| + 1] == EscapedAll(input)
  {
    hide Escaped, EscapedAll, EscapeCount;
    var p := 1;
    NothingEscaped();
    for i := 0 to |input|
      invariant p == 1 + |EscapedAll(input[..i])| <= output.Length && output[0] == '\"' && output[1..p] == EscapedAll(input[..i])
    {
      var c := input[i];
      assert input[..i + 1] == input[..i] + [c];
      EscapedSnoc(input[..i], c);
      PrefixFits(input, i + 1);
      ghost var done := output[..p];
      WriteEscape(output, p, c);
      Appended(output[..], done, p, p + |Escaped(c)|);
      p := p + |Escaped(c)|;
    }
    assert input[..|input|] == input;
  }

  lemma NothingEscaped()
    ensures EscapedAll("") == ""
  {
  }

  lemma PrefixFits(s: string, i: nat)
    requires i <= |s|
    ensures |EscapedAll(s[..i])| <= |EscapedAll(s)|
  {
    LengthExact(s);
    LengthExact(s[..i]);
    CountGrows(s, i);
  }

  lemma Appended(now: string, done: string, p: nat, q: nat)
    requires 1 <= p <= q <= |now| && now[..p] == done
    ensures now[0] == done[0] && now[1..q] == done[1..] + now[p..q]
  {
    assert now[1..p] == now[..p][1..];
  }

  // ---- reading: the length is enough ----

  /** The backslashes that the first loop of parse_string skips on the way to the closing quote. */
  function Skips(c: string, i: nat, end: nat): nat
    requires end <= |c|
    decreases end + 1 - i
  {
    if i >= end then 0 else if c[i] == '\\' then 1 + Skips(c, i + 2, end) else Skips(c, i + 1, end)
  }

  lemma {:induction false} SkipsFew(c: string, i: nat, end: nat)
    requires i <= end < |c| && StringEnd(c, i) == Some(end)
    ensures 2 * Skips(c, i, end) <= end - i
    decreases end - i
  {
    if i < end {
      SkipsFew(c, if c[i] == '\\' then i + 2 else i + 1, end);
    }
  }

  /** Where the first loop was when the second one is at i: there, or one further inside a skipped pair. */
  predicate Aligned(c: string, i: nat, o: nat, end: nat) {
    (o == i || o == i + 1) && o <= end < |c| && StringEnd(c, o) == Some(end)
  }

  lemma {:induction false} Reach(c: string, o: nat, j: nat, end: nat) returns (o': nat)
    requires o <= j <= end < |c| && StringEnd(c, o) == Some(end)
    ensures Aligned(c, j, o', end) && 2 * Skips(c, o, end) <= o' - o + 2 * Skips(c, o', end)
    decreases j - o
  {
    if o == j {
      o' := o;
    } else if c[o] != '\\' {
      o' := Reach(c, o + 1, j, end);
    } else if o + 1 == j {
      o' := o + 2;
    } else {
      o' := Reach(c, o + 2, j, end);
    }
  }

  /** One step of the second loop writes no more than the first loop has counted for it. */
  lemma StepFits(c: string, i: nat, o: nat, end: nat, n: nat, b: nat) returns (o': nat)
    requires Aligned(c, i, o, end) && i < end
    requires if c[i] == '\\' then n >= 2 && n % 2 == 0 && 2 * b <= n && (i + n <= end || n == 2) else n == 1 && b == 1
    ensures i + n <= end ==> Aligned(c, i + n, o', end) && b + Skips(c, o, end) <= n + Skips(c, o', end) && Skips(c, o', end) <= end - (i + n)
    ensures i + n > end ==> b + Skips(c, o, end) <= end - i
  {
    o' := o;
    if c[i] != '\\' {
      o' := i + 1;
      SkipsFew(c, o', end);
    } else if i + n <= end {
      o' := Reach(c, o, i + n, end);
      SkipsFew(c, o', end);
    }
  }

  /** The bytes of a UTF-16 literal are no more than half of its characters. */
  lemma Utf16Fits(c: string, i: nat, end: nat)
    requires i <= end <= |c| && Utf16(c, i, end).Some?
    ensures var (bytes, n) := Utf16(c, i, end).value; (n == 6 || n == 12) && 2 * |bytes| <= n && i + n <= end
  {
    var first := Hex4(c[i + 2], c[i + 3], c[i + 4], c[i + 5]);
    Hex4Bound(c[i + 2], c[i + 3], c[i + 4], c[i + 5]);
  }

  lemma Hex4Bound(a: char, b: char, c: char, d: char)
    ensures Hex4(a, b, c, d) < 0x1_0000
  {
  }
}
