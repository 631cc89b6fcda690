/** Parsing what was printed gives the same value back. */
module JsonRoundTrip {
  import opened Common
  import opened Json
  import opened JsonParser

  // ---- which values ----

  predicate ZeroFree(s: string) {
    forall i :: 0 <= i < |s| ==> s[i] != 0 as char
  }

  /** What can follow a number. */
  predicate Delimiter(c: char) {
    c == ',' || c == ']' || c == '}' || c == '\n' || c == 0 as char
  }

  /** The number is written so that it is read back. */
  ghost predicate Faithful<N(!new)>(numbers: Numbers<N>, n: N) {
    && numbers.write(n) != "" && NumberStart(numbers.write(n)[0])
    && (forall rest: string :: rest != "" && Delimiter(rest[0]) ==> numbers.read(numbers.write(n) + rest) == Some((n, |numbers.write(n)|)))
  }

  /** Strings are C strings, and numbers are faithful. */
  ghost predicate Printable<N(!new)>(numbers: Numbers<N>, v: Value<N>) {
    match v
    case Number(n) => Faithful(numbers, n)
    case String(s) => ZeroFree(s)
    case Array(items) => ItemsPrintable(numbers, items)
    case Object(members) => MembersPrintable(numbers, members)
    case _ => true
  }

  ghost predicate ItemsPrintable<N(!new)>(numbers: Numbers<N>, items: Items<N>) {
    match items
    case NoItem => true
    case Item(v, next) => Printable(numbers, v) && ItemsPrintable(numbers, next)
  }

  ghost predicate MembersPrintable<N(!new)>(numbers: Numbers<N>, members: Members<N>) {
    match members
    case NoMember => true
    case Member(key, v, next) => ZeroFree(key) && Printable(numbers, v) && MembersPrintable(numbers, next)
  }

  // ---- text at an offset ----

  lemma At(c: string, o: nat, t: string, i: nat)
    requires StartsWith(c, o, t) && i < |t|
    ensures o + i < |c| && c[o + i] == t[i]
  {
    assert c[o..o + |t|][i] == c[o + i];
  }

  lemma Parts(c: string, o: nat, a: string, b: string)
    requires StartsWith(c, o, a + b)
    ensures StartsWith(c, o, a) && StartsWith(c, o + |a|, b)
  {
    var t := a + b;
    assert c[o..o + |a|] == c[o..o + |t|][..|a|] == t[..|a|] == a;
    assert c[o + |a|..o + |a| + |b|] == c[o..o + |t|][|a|..] == t[|a|..] == b;
  }

  lemma Associate(a: string, b: string, d: string)
    ensures a + b + d == a + (b + d)
  {
  }

  /** Only blanks from one offset to another. */
  ghost predicate Blanks(c: string, from: nat, to: nat) {
    from <= to <= |c| && forall i :: from <= i < to ==> Blank(c[i])
  }

  lemma BlankText(c: string, o: nat, t: string)
    requires StartsWith(c, o, t) && forall i :: 0 <= i < |t| ==> Blank(t[i])
    ensures Blanks(c, o, o + |t|)
  {
    forall i | o <= i < o + |t|
      ensures Blank(c[i])
    {
      At(c, o, t, i - o);
    }
  }

  /** Skipping stops at the first character that is not blank. */
  lemma SkipTo(c: string, o: nat, p: nat)
    requires p < |c| && !Blank(c[p]) && Blanks(c, o, p)
    ensures Skip(c, o) == p
  {
    assert SkipFrom(c, o) == p;
  }

  // ---- strings ----

  /** What a part of a literal contributes. */
  function Behind(out: string, r: Option<string>): Option<string> {
    match r
    case None => None
    case Some(s) => Some(out + s)
  }

  lemma BehindNothing(out: string, r: Option<string>)
    ensures Behind("", r) == r && Behind(out, Some("")) == Some(out)
  {
    if r.Some? {
      assert "" + r.value == r.value;
    }
    assert out + "" == out;
  }

  lemma BehindTwice(a: string, b: string, r: Option<string>)
    ensures Behind(a, Behind(b, r)) == Behind(a + b, r)
  {
    if r.Some? {
      Associate(a, b, r.value);
    }
  }

  lemma UnicodeBack(c: string, i: nat, end: nat, x: char)
    requires 0 < x as int < 32 && i + 6 <= end < |c| && c[i] == '\\' && c[i + 1] == 'u'
    requires c[i + 2] == '0' && c[i + 3] == '0' && c[i + 4] == HexDigit(x as int / 16) && c[i + 5] == HexDigit(x as int % 16)
    ensures Utf16(c, i, end) == Some(([x], 6))
  {
    var n := x as int;
    assert HexValue(HexDigit(n / 16)) == Some(n / 16) && HexValue(HexDigit(n % 16)) == Some(n % 16);
    assert HexValue('0') == Some(0);
    assert Hex4('0', '0', c[i + 4], c[i + 5]) == n;
    assert Utf8(n) == [x];
  }

  lemma EscapedAt(c: string, i: nat, x: char)
    requires StartsWith(c, i, Escaped(x))
    ensures c[i] == Escaped(x)[0] && i + |Escaped(x)| <= |c| && forall k :: 0 <= k < |Escaped(x)| ==> c[i + k] == Escaped(x)[k]
  {
    hide Escaped;
    NotEmpty(x);
    forall k | 0 <= k < |Escaped(x)|
      ensures c[i + k] == Escaped(x)[k]
    {
      At(c, i, Escaped(x), k);
    }
    At(c, i, Escaped(x), 0);
  }

  lemma NotEmpty(x: char)
    ensures Escaped(x) != ""
  {
  }

  lemma EscapedDecodes(c: string, i: nat, end: nat, x: char)
    requires StartsWith(c, i, Escaped(x)) && i + |Escaped(x)| <= end < |c| && x != 0 as char
    ensures Decode(c, i, end) == match Decode(c, i + |Escaped(x)|, end) case None => None case Some(s) => Some([x] + s)
  {
    hide StartsWith, Utf16;
    EscapedAt(c, i, x);
    if !Plain(x) {
      assert c[i + 1] == Escaped(x)[1];
      if c[i + 1] == 'u' {
        assert c[i + 2] == Escaped(x)[2] && c[i + 3] == Escaped(x)[3] && c[i + 4] == Escaped(x)[4] && c[i + 5] == Escaped(x)[5];
        UnicodeBack(c, i, end, x);
      }
    }
  }

  lemma EscapedEnds(c: string, i: nat, x: char)
    requires StartsWith(c, i, Escaped(x))
    ensures i + |Escaped(x)| <= |c| && StringEnd(c, i) == StringEnd(c, i + |Escaped(x)|)
  {
    EscapedAt(c, i, x);
    if !Plain(x) {
      assert c[i + 1] == Escaped(x)[1];
      if |Escaped(x)| == 6 {
        assert c[i + 2] == Escaped(x)[2] && c[i + 3] == Escaped(x)[3] && c[i + 4] == Escaped(x)[4] && c[i + 5] == Escaped(x)[5];
        assert StringEnd(c, i + 2) == StringEnd(c, i + 3) == StringEnd(c, i + 4) == StringEnd(c, i + 5) == StringEnd(c, i + 6);
      }
    }
  }

  /** The closing quote is found, and the characters come back. */
  lemma {:induction false} LiteralBack(c: string, i: nat, s: string, end: nat)
    requires StartsWith(c, i, EscapedAll(s)) && end == i + |EscapedAll(s)| < |c| && c[end] == '\"' && ZeroFree(s)
    ensures StringEnd(c, i) == Some(end) && Decode(c, i, end) == Some(s)
    decreases |s|
  {
    hide Escaped, EscapedAll, StartsWith, StringEnd, Decode;
    EscapedCons(s);
    if s == "" {
      EmptyLiteral(c, end);
    } else {
      var a := Escaped(s[0]);
      Parts(c, i, a, EscapedAll(s[1..]));
      LiteralBack(c, i + |a|, s[1..], end);
      EscapedEnds(c, i, s[0]);
      EscapedDecodes(c, i, end, s[0]);
      assert [s[0]] + s[1..] == s;
    }
  }

  lemma EscapedCons(s: string)
    ensures EscapedAll(s) == if s == "" then "" else Escaped(s[0]) + EscapedAll(s[1..])
  {
  }

  lemma EmptyLiteral(c: string, end: nat)
    requires end < |c| && c[end] == '\"'
    ensures StringEnd(c, end) == Some(end) && Decode(c, end, end) == Some("")
  {
  }

  lemma {:induction false} ZeroFreeKept(s: string)
    requires ZeroFree(s)
    ensures CString(s) == s
  {
    if s != "" {
      ZeroFreeKept(s[1..]);
      assert [s[0]] + s[1..] == s;
    }
  }

  lemma StringBack(c: string, o: nat, s: string)
    requires StartsWith(c, o, Quoted(s)) && ZeroFree(s)
    ensures o < |c| && c[o] == '\"' && ParseString(c, o) == Some((s, o + |Quoted(s)|))
  {
    hide StartsWith, EscapedAll, StringEnd, Decode, CString;
    var e := EscapedAll(s);
    Associate("\"", e, "\"");
    Parts(c, o, "\"", e + "\"");
    Parts(c, o + 1, e, "\"");
    At(c, o, "\"", 0);
    At(c, o + 1 + |e|, "\"", 0);
    LiteralBack(c, o + 1, s, o + 1 + |e|);
    ZeroFreeKept(s);
  }

  // ---- one level of the parser ----

  function Found<N>(v: Value<N>, end: nat): Option<(Value<N>, nat)> {
    Some((v, end))
  }

  function AsArray<N>(r: Option<(Items<N>, nat)>): Option<(Value<N>, nat)> {
    match r
    case None => None
    case Some((items, end)) => Some((Array(items), end))
  }

  function AsObject<N>(r: Option<(Members<N>, nat)>): Option<(Value<N>, nat)> {
    match r
    case None => None
    case Some((members, end)) => Some((Object(members), end))
  }

  function WithItem<N>(v: Value<N>, r: Option<(Items<N>, nat)>): Option<(Items<N>, nat)> {
    match r
    case None => None
    case Some((next, end)) => Some((Item(v, next), end))
  }

  function WithMember<N>(key: string, v: Value<N>, r: Option<(Members<N>, nat)>): Option<(Members<N>, nat)> {
    match r
    case None => None
    case Some((next, end)) => Some((Member(key, v, next), end))
  }

  lemma WordBack<N>(numbers: Numbers<N>, v: Value<N>, format: bool, level: nat, c: string, o: nat, depth: nat)
    requires v.Null? || v.False? || v.True?
    requires StartsWith(c, o, Text(numbers, v, format, level)) && depth <= NESTING_LIMIT
    ensures o < |c| && ParseValue(numbers, c, o, depth) == Some((v, o + |Text(numbers, v, format, level)|))
  {
    var t := Text(numbers, v, format, level);
    At(c, o, t, 0);
    OtherWord(c, o, "null");
    OtherWord(c, o, "false");
  }

  lemma OtherWord(c: string, o: nat, w: string)
    requires w != ""
    ensures StartsWith(c, o, w) ==> o < |c| && c[o] == w[0]
  {
    if StartsWith(c, o, w) {
      At(c, o, w, 0);
    }
  }

  /** A character that starts no word. */
  lemma NoWord(c: string, o: nat)
    requires o < |c| && c[o] != 'n' && c[o] != 'f' && c[o] != 't'
    ensures !StartsWith(c, o, "null") && !StartsWith(c, o, "false") && !StartsWith(c, o, "true")
  {
    OtherWord(c, o, "null");
    OtherWord(c, o, "false");
    OtherWord(c, o, "true");
  }

  lemma ValueString<N>(numbers: Numbers<N>, c: string, o: nat, depth: nat, s: string, end: nat)
    requires o < |c| && depth <= NESTING_LIMIT && c[o] == '\"' && ParseString(c, o) == Some((s, end))
    ensures ParseValue(numbers, c, o, depth) == Some((String(s), end))
  {
    NoWord(c, o);
  }

  lemma ValueArray<N>(numbers: Numbers<N>, c: string, o: nat, depth: nat)
    requires o < |c| && depth <= NESTING_LIMIT && c[o] == '['
    ensures depth == NESTING_LIMIT ==> ParseValue(numbers, c, o, depth) == None
    ensures depth < NESTING_LIMIT && c[Skip(c, o + 1)] == ']' ==>
              ParseValue(numbers, c, o, depth) == Found(Array(NoItem), Skip(c, o + 1) + 1)
    ensures depth < NESTING_LIMIT && c[Skip(c, o + 1)] != ']' ==>
              ParseValue(numbers, c, o, depth) ==
              AsArray(ParseItems(numbers, c, Skip(c, o + 1), depth + 1))
  {
    hide StartsWith, Skip, ParseItems;
    NoWord(c, o);
  }

  lemma ValueObject<N>(numbers: Numbers<N>, c: string, o: nat, depth: nat)
    requires o < |c| && depth <= NESTING_LIMIT && c[o] == '{'
    ensures depth == NESTING_LIMIT ==> ParseValue(numbers, c, o, depth) == None
    ensures depth < NESTING_LIMIT && c[Skip(c, o + 1)] == '}' ==>
              ParseValue(numbers, c, o, depth) == Found(Object(NoMember), Skip(c, o + 1) + 1)
    ensures depth < NESTING_LIMIT && c[Skip(c, o + 1)] != '}' ==>
              ParseValue(numbers, c, o, depth) ==
              AsObject(ParseMembers(numbers, c, Skip(c, o + 1), depth + 1))
  {
    hide StartsWith, Skip, ParseMembers;
    NoWord(c, o);
  }

  lemma ItemsStep<N>(numbers: Numbers<N>, c: string, o: nat, depth: nat, p: nat)
    requires c != "" && o <= |c| && depth <= NESTING_LIMIT && Skip(c, o) == p
    ensures ParseValue(numbers, c, p, depth) == None ==> ParseItems(numbers, c, o, depth) == None
    ensures ParseValue(numbers, c, p, depth).Some? ==>
              var (v, q) := ParseValue(numbers, c, p, depth).value; var r := Skip(c, q);
              && (c[r] == ']' ==> ParseItems(numbers, c, o, depth) == Some((Item(v, NoItem), r + 1)))
              && (c[r] == ',' ==> ParseItems(numbers, c, o, depth) == WithItem(v, ParseItems(numbers, c, r + 1, depth)))
              && (c[r] != ']' && c[r] != ',' ==> ParseItems(numbers, c, o, depth) == None)
  {
    hide ParseValue, Skip;
  }

  lemma MembersStep<N>(numbers: Numbers<N>, c: string, o: nat, depth: nat, k: nat, key: string, colon: nat, p: nat)
    requires c != "" && o <= |c| && depth <= NESTING_LIMIT && Skip(c, o) == k && ParseString(c, k).Some?
    requires ParseString(c, k).value.0 == key && Skip(c, ParseString(c, k).value.1) == colon && c[colon] == ':' && Skip(c, colon + 1) == p
    ensures ParseValue(numbers, c, p, depth) == None ==> ParseMembers(numbers, c, o, depth) == None
    ensures ParseValue(numbers, c, p, depth).Some? ==>
              var (v, q) := ParseValue(numbers, c, p, depth).value; var r := Skip(c, q);
              && (c[r] == '}' ==> ParseMembers(numbers, c, o, depth) == Some((Member(key, v, NoMember), r + 1)))
              && (c[r] == ',' ==> ParseMembers(numbers, c, o, depth) == WithMember(key, v, ParseMembers(numbers, c, r + 1, depth)))
              && (c[r] != '}' && c[r] != ',' ==> ParseMembers(numbers, c, o, depth) == None)
  {
    hide ParseValue, Skip, ParseString;
  }

  lemma MembersFail<N>(numbers: Numbers<N>, c: string, o: nat, depth: nat, k: nat)
    requires c != "" && o <= |c| && depth <= NESTING_LIMIT && Skip(c, o) == k
    ensures ParseString(c, k) == None ==> ParseMembers(numbers, c, o, depth) == None
    ensures ParseString(c, k).Some? && c[Skip(c, ParseString(c, k).value.1)] != ':' ==> ParseMembers(numbers, c, o, depth) == None
  {
    hide ParseValue, Skip, ParseString;
  }

  lemma NumberBack<N(!new)>(numbers: Numbers<N>, n: N, c: string, o: nat, depth: nat)
    requires Faithful(numbers, n) && depth <= NESTING_LIMIT
    requires var t := numbers.write(n); StartsWith(c, o, t) && o + |t| < |c| && Delimiter(c[o + |t|])
    ensures o < |c| && ParseValue(numbers, c, o, depth) == Some((Number(n), o + |numbers.write(n)|))
  {
    var t := numbers.write(n);
    At(c, o, t, 0);
    var rest := c[o + |t|..];
    assert c[o..] == t + rest;
    NoWord(c, o);
  }

  // ---- the text of values ----

  /** A value starts with a character that is neither blank nor a closing bracket. */
  lemma TextStart<N(!new)>(numbers: Numbers<N>, v: Value<N>, format: bool, depth: nat)
    requires Printable(numbers, v)
    ensures var t := Text(numbers, v, format, depth); t != "" && !Blank(t[0]) && t[0] != ']' && t[0] != '}'
  {
  }

  function Separator(last: bool, format: bool): string {
    if last then "" else if format then ", " else ","
  }

  lemma ItemsParts<N>(numbers: Numbers<N>, items: Items<N>, format: bool, level: nat)
    requires items.Item?
    ensures ItemsText(numbers, items, format, level) + "]" ==
            Text(numbers, items.value, format, level) +
            (Separator(items.next.NoItem?, format) + (ItemsText(numbers, items.next, format, level) + "]"))
  {
    hide Text;
    var t, sep, rest := Text(numbers, items.value, format, level), Separator(items.next.NoItem?, format), ItemsText(numbers, items.next, format, level);
    Associate(t + sep, rest, "]");
    Associate(t, sep, rest + "]");
  }

  function Indent(format: bool, level: nat): string {
    if format then Tabs(level) else ""
  }

  function Closing(format: bool, level: nat): string {
    Indent(format, level) + "}"
  }

  function Opening(format: bool): string {
    if format then "{\n" else "{"
  }

  function Colon(format: bool): string {
    if format then ":\t" else ":"
  }

  lemma IndentBlank(format: bool, level: nat)
    ensures forall i :: 0 <= i < |Indent(format, level)| ==> Blank(Indent(format, level)[i])
  {
  }

  lemma ObjectParts<N>(numbers: Numbers<N>, members: Members<N>, format: bool, level: nat)
    ensures Text(numbers, Object(members), format, level) ==
            Opening(format) + (MembersText(numbers, members, format, level + 1) + Closing(format, level))
  {
    hide MembersText;
    Associate(Opening(format), MembersText(numbers, members, format, level + 1), Indent(format, level));
    Associate(Opening(format), MembersText(numbers, members, format, level + 1) + Indent(format, level), "}");
    Associate(MembersText(numbers, members, format, level + 1), Indent(format, level), "}");
  }

  /** The text of a member and what follows it, from the key on. */
  function FromKey<N>(numbers: Numbers<N>, members: Members<N>, format: bool, level: nat): string
    requires members.Member?
  {
    Quoted(members.key) + (Colon(format) + FromValue(numbers, members, format, level))
  }

  function FromValue<N>(numbers: Numbers<N>, members: Members<N>, format: bool, level: nat): string
    requires members.Member?
  {
    Text(numbers, members.value, format, level + 1) + AfterValue(numbers, members.next, format, level)
  }

  function AfterValue<N>(numbers: Numbers<N>, next: Members<N>, format: bool, level: nat): string {
    MemberEnd(next.NoMember?, format) + (MembersText(numbers, next, format, level + 1) + Closing(format, level))
  }

  lemma MembersParts<N>(numbers: Numbers<N>, members: Members<N>, format: bool, level: nat)
    requires members.Member?
    ensures MembersText(numbers, members, format, level + 1) + Closing(format, level) ==
            Indent(format, level + 1) + FromKey(numbers, members, format, level)
  {
    hide Text, Quoted, Closing, MemberEnd, Colon, Indent;
    var i, k, d, t := Indent(format, level + 1), Quoted(members.key), Colon(format), Text(numbers, members.value, format, level + 1);
    var e, r, x := MemberEnd(members.next.NoMember?, format), MembersText(numbers, members.next, format, level + 1), Closing(format, level);
    MembersHead(numbers, members, format, level + 1);
    Associate(i + k + d + t + e, r, x);
    Associate(i + k + d + t, e, r + x);
    Associate(i + k + d, t, e + (r + x));
    Associate(i + k, d, t + (e + (r + x)));
    Associate(i, k, d + (t + (e + (r + x))));
  }

  lemma MembersHead<N>(numbers: Numbers<N>, members: Members<N>, format: bool, level: nat)
    requires members.Member?
    ensures MembersText(numbers, members, format, level) ==
            Indent(format, level) + Quoted(members.key) + Colon(format) + Text(numbers, members.value, format, level) +
            MemberEnd(members.next.NoMember?, format) + MembersText(numbers, members.next, format, level)
  {
  }

  // ---- the parser on the text ----

  predicate Fits(depth: nat, height: nat) {
    height + depth <= NESTING_LIMIT
  }

  lemma {:induction false} ValueBack<N(!new)>(numbers: Numbers<N>, v: Value<N>, format: bool, level: nat, c: string, o: nat, depth: nat)
    requires Printable(numbers, v) && depth <= NESTING_LIMIT
    requires var t := Text(numbers, v, format, level); StartsWith(c, o, t) && o + |t| < |c| && Delimiter(c[o + |t|])
    ensures o < |c| && ParseValue(numbers, c, o, depth) ==
            if Fits(depth, Depth(v)) then Some((v, o + |Text(numbers, v, format, level)|)) else None
    decreases v, 0
  {
    hide StartsWith, ParseValue, ParseString, ItemsText, MembersText, Quoted, Faithful;
    match v {
      case Number(n) => NumberBack(numbers, n, c, o, depth);
      case String(s) =>
        StringBack(c, o, s);
        ValueString(numbers, c, o, depth, s, o + |Quoted(s)|);
      case Array(items) => ArrayBack(numbers, items, format, level, c, o, depth);
      case Object(members) => ObjectBack(numbers, members, format, level, c, o, depth);
      case _ => WordBack(numbers, v, format, level, c, o, depth);
    }
  }

  lemma {:induction false} ArrayBack<N(!new)>(numbers: Numbers<N>, items: Items<N>, format: bool, level: nat, c: string, o: nat, depth: nat)
    requires ItemsPrintable(numbers, items) && depth <= NESTING_LIMIT
    requires StartsWith(c, o, "[" + ItemsText(numbers, items, format, level + 1) + "]")
    ensures o < |c| && ParseValue(numbers, c, o, depth) ==
            if Fits(depth, 1 + ItemsDepth(items)) then Some((Array(items), o + |"[" + ItemsText(numbers, items, format, level + 1) + "]"|)) else None
    decreases items, 1
  {
    hide StartsWith, ParseValue, ParseItems, ItemsText, Skip;
    var t := ItemsText(numbers, items, format, level + 1);
    Associate("[", t, "]");
    Parts(c, o, "[", t + "]");
    At(c, o, "[", 0);
    At(c, o + 1, t + "]", 0);
    ItemsStart(numbers, items, format, level + 1);
    SkipTo(c, o + 1, o + 1);
    ValueArray(numbers, c, o, depth);
    if items.Item? && depth < NESTING_LIMIT {
      ItemsBack(numbers, items, format, level + 1, c, o + 1, o + 1, depth + 1);
    }
  }

  lemma ItemsStart<N(!new)>(numbers: Numbers<N>, items: Items<N>, format: bool, level: nat)
    requires ItemsPrintable(numbers, items)
    ensures var t := ItemsText(numbers, items, format, level) + "]"; t != "" && !Blank(t[0]) && (t[0] == ']' <==> items.NoItem?)
    ensures items.NoItem? ==> ItemsText(numbers, items, format, level) == "" && ItemsDepth(items) == 0
  {
    if items.Item? {
      TextStart(numbers, items.value, format, level);
      ItemsParts(numbers, items, format, level);
    }
  }

  lemma {:induction false} ItemsBack<N(!new)>(numbers: Numbers<N>, items: Items<N>, format: bool, level: nat, c: string, o: nat, s: nat, depth: nat)
    requires items.Item? && ItemsPrintable(numbers, items) && depth <= NESTING_LIMIT && c != "" && o <= |c| && Skip(c, o) == s
    requires StartsWith(c, s, ItemsText(numbers, items, format, level) + "]")
    ensures ParseItems(numbers, c, o, depth) ==
            if Fits(depth, ItemsDepth(items)) then Some((items, s + |ItemsText(numbers, items, format, level) + "]"|)) else None
    decreases items, 0
  {
    hide StartsWith, ParseValue, ParseItems, Text, ItemsText, Skip, Separator, Delimiter;
    var v, next := items.value, items.next;
    var q, p := ItemEnds(numbers, items, format, level, c, s);
    ValueBack(numbers, v, format, level, c, s, depth);
    ItemsStep(numbers, c, o, depth, s);
    if next.Item? {
      ItemsBack(numbers, next, format, level, c, q + 1, p, depth);
    }
  }

  /** Where an item ends and where the next one starts, or the array ends. */
  lemma ItemEnds<N(!new)>(numbers: Numbers<N>, items: Items<N>, format: bool, level: nat, c: string, s: nat) returns (q: nat, p: nat)
    requires items.Item? && ItemsPrintable(numbers, items) && StartsWith(c, s, ItemsText(numbers, items, format, level) + "]")
    ensures StartsWith(c, s, Text(numbers, items.value, format, level)) && q == s + |Text(numbers, items.value, format, level)| < |c|
    ensures Skip(c, q) == q && Delimiter(c[q]) && c[q] == if items.next.NoItem? then ']' else ','
    ensures var rest := ItemsText(numbers, items.next, format, level) + "]";
            && StartsWith(c, p, rest) && p + |rest| == s + |ItemsText(numbers, items, format, level) + "]"|
            && (if items.next.Item? then Skip(c, q + 1) == p else p == q && |rest| == 1)
  {
    hide StartsWith, Text, ItemsText, Skip;
    var v, next := items.value, items.next;
    var t, sep, rest := Text(numbers, v, format, level), Separator(next.NoItem?, format), ItemsText(numbers, next, format, level) + "]";
    ItemsParts(numbers, items, format, level);
    Parts(c, s, t, sep + rest);
    q := s + |t|;
    Parts(c, q, sep, rest);
    At(c, q, sep + rest, 0);
    At(c, q + |sep|, rest, 0);
    ItemsStart(numbers, next, format, level);
    SkipTo(c, q, q);
    p := q + |sep|;
    if next.Item? {
      SeparatorBlank(c, q, format);
      SkipTo(c, q + 1, p);
    }
  }

  lemma SeparatorBlank(c: string, q: nat, format: bool)
    requires StartsWith(c, q, Separator(false, format))
    ensures Blanks(c, q + 1, q + |Separator(false, format)|)
  {
    if format {
      At(c, q, ", ", 1);
    }
  }

  lemma {:induction false} ObjectBack<N(!new)>(numbers: Numbers<N>, members: Members<N>, format: bool, level: nat, c: string, o: nat, depth: nat)
    requires MembersPrintable(numbers, members) && depth <= NESTING_LIMIT
    requires StartsWith(c, o, Text(numbers, Object(members), format, level))
    ensures o < |c| && ParseValue(numbers, c, o, depth) ==
            if Fits(depth, 1 + MembersDepth(members)) then Some((Object(members), o + |Text(numbers, Object(members), format, level)|)) else None
    decreases members, 1
  {
    hide StartsWith, ParseValue, ParseMembers, MembersText, Skip, Text, Closing, Indent, FromKey;
    var t := MembersText(numbers, members, format, level + 1) + Closing(format, level);
    ObjectParts(numbers, members, format, level);
    Parts(c, o, Opening(format), t);
    At(c, o, Opening(format), 0);
    OpeningBlank(c, o, format);
    var s := o + |Opening(format)|;
    ValueObject(numbers, c, o, depth);
    if members.NoMember? {
      EmptyObject(numbers, members, c, s, format, level);
      SkipTo(c, o + 1, s + |t| - 1);
    } else {
      var k := s + |Indent(format, level + 1)|;
      KeyAt(numbers, members, format, level, c, s);
      SkipTo(c, o + 1, k);
      if depth < NESTING_LIMIT {
        SkipTo(c, k, k);
        MembersBack(numbers, members, format, level, c, k, s, depth + 1);
      }
    }
  }

  lemma OpeningBlank(c: string, o: nat, format: bool)
    requires StartsWith(c, o, Opening(format))
    ensures Blanks(c, o + 1, o + |Opening(format)|)
  {
    if format {
      At(c, o, "{\n", 1);
    }
  }

  lemma EmptyObject<N>(numbers: Numbers<N>, members: Members<N>, c: string, s: nat, format: bool, level: nat)
    requires members.NoMember? && StartsWith(c, s, MembersText(numbers, members, format, level + 1) + Closing(format, level))
    ensures var n := |MembersText(numbers, members, format, level + 1) + Closing(format, level)|;
            n > 0 && s + n <= |c| && Blanks(c, s, s + n - 1) && c[s + n - 1] == '}' && MembersDepth(members) == 0
  {
    var t := Closing(format, level);
    assert MembersText(numbers, members, format, level + 1) + t == t;
    ClosingAt(c, s, format, level);
  }

  lemma ClosingAt(c: string, s: nat, format: bool, level: nat)
    requires StartsWith(c, s, Closing(format, level))
    ensures var n := |Closing(format, level)|; n > 0 && s + n <= |c| && Blanks(c, s, s + n - 1) && c[s + n - 1] == '}'
  {
    hide StartsWith;
    var i := Indent(format, level);
    Parts(c, s, i, "}");
    IndentBlank(format, level);
    BlankText(c, s, i);
    At(c, s + |i|, "}", 0);
  }

  /** The key of the first member comes after the indentation. */
  lemma KeyAt<N(!new)>(numbers: Numbers<N>, members: Members<N>, format: bool, level: nat, c: string, s: nat)
    requires members.Member? && StartsWith(c, s, MembersText(numbers, members, format, level + 1) + Closing(format, level))
    ensures var k := s + |Indent(format, level + 1)|;
            && StartsWith(c, k, FromKey(numbers, members, format, level)) && Blanks(c, s, k) && k < |c| && c[k] == '\"'
            && s + |MembersText(numbers, members, format, level + 1) + Closing(format, level)| == k + |FromKey(numbers, members, format, level)|
  {
    hide StartsWith, Text, MembersText, Closing, Indent;
    var i, t := Indent(format, level + 1), FromKey(numbers, members, format, level);
    MembersParts(numbers, members, format, level);
    Parts(c, s, i, t);
    IndentBlank(format, level + 1);
    BlankText(c, s, i);
    At(c, s + |i|, t, 0);
  }

  lemma ColonBlank(c: string, o: nat, format: bool)
    requires StartsWith(c, o, Colon(format))
    ensures o < |c| && c[o] == ':' && Blanks(c, o + 1, o + |Colon(format)|)
  {
    At(c, o, Colon(format), 0);
    if format {
      At(c, o, ":\t", 1);
    }
  }

  lemma {:induction false} MembersBack<N(!new)>(numbers: Numbers<N>, members: Members<N>, format: bool, level: nat, c: string, o: nat, s: nat, depth: nat)
    requires members.Member? && MembersPrintable(numbers, members) && depth <= NESTING_LIMIT && c != "" && o <= |c|
    requires Skip(c, o) == s + |Indent(format, level + 1)|
    requires StartsWith(c, s, MembersText(numbers, members, format, level + 1) + Closing(format, level))
    ensures ParseMembers(numbers, c, o, depth) ==
            if Fits(depth, MembersDepth(members))
            then Some((members, s + |MembersText(numbers, members, format, level + 1) + Closing(format, level)|)) else None
    decreases members, 0
  {
    hide StartsWith, ParseValue, ParseMembers, ParseString, Text, MembersText, Skip, Closing, Indent, AfterValue;
    var v, next := members.value, members.next;
    var k, colon, p := MemberFront(numbers, members, format, level, c, s);
    var t, rest := Text(numbers, v, format, level + 1), AfterValue(numbers, next, format, level);
    Parts(c, p, t, rest);
    var q := p + |t|;
    var r, n := MemberBack(numbers, next, format, level, c, q);
    ValueBack(numbers, v, format, level + 1, c, p, depth);
    MembersStep(numbers, c, o, depth, k, members.key, colon, p);
    if next.Member? {
      MembersBack(numbers, next, format, level, c, q + 1, n, depth);
    }
  }

  /** What comes after a value: the closing brace, or a comma and the next member. */
  lemma MemberBack<N(!new)>(numbers: Numbers<N>, next: Members<N>, format: bool, level: nat, c: string, q: nat) returns (r: nat, n: nat)
    requires StartsWith(c, q, AfterValue(numbers, next, format, level))
    ensures q < |c| && Delimiter(c[q]) && Skip(c, q) == r
    ensures next.NoMember? ==> c[r] == '}' && r + 1 == q + |AfterValue(numbers, next, format, level)| && MembersDepth(next) == 0
    ensures next.Member? ==>
              && r == q && c[q] == ',' && Skip(c, q + 1) == n + |Indent(format, level + 1)|
              && StartsWith(c, n, MembersText(numbers, next, format, level + 1) + Closing(format, level))
              && n + |MembersText(numbers, next, format, level + 1) + Closing(format, level)| == q + |AfterValue(numbers, next, format, level)|
  {
    hide StartsWith, MembersText, Skip, Closing, Indent, MemberEnd;
    var e := MemberEnd(next.NoMember?, format);
    var tail := MembersText(numbers, next, format, level + 1) + Closing(format, level);
    Parts(c, q, e, tail);
    n := q + |e|;
    if next.NoMember? {
      LastMember(numbers, next, c, q, format, level);
      r := q + |e + tail| - 1;
      SkipTo(c, q, r);
    } else {
      MoreMembers(c, q, format);
      r := q;
      SkipTo(c, q, q);
      KeyAt(numbers, next, format, level, c, n);
      SkipTo(c, q + 1, n + |Indent(format, level + 1)|);
    }
  }

  /** The key and the colon, up to the value. */
  lemma MemberFront<N(!new)>(numbers: Numbers<N>, members: Members<N>, format: bool, level: nat, c: string, s: nat) returns (k: nat, colon: nat, p: nat)
    requires members.Member? && ZeroFree(members.key) && Printable(numbers, members.value)
    requires StartsWith(c, s, MembersText(numbers, members, format, level + 1) + Closing(format, level))
    ensures k == s + |Indent(format, level + 1)| && k < |c| && ParseString(c, k) == Some((members.key, colon))
    ensures colon < |c| && Skip(c, colon) == colon && c[colon] == ':' && Skip(c, colon + 1) == p
    ensures StartsWith(c, p, FromValue(numbers, members, format, level))
    ensures p + |FromValue(numbers, members, format, level)| == s + |MembersText(numbers, members, format, level + 1) + Closing(format, level)|
  {
    hide StartsWith, ParseString, MembersText, Skip, Closing, Indent, Quoted, Colon, FromValue;
    k := s + |Indent(format, level + 1)|;
    var d, rest := Colon(format), FromValue(numbers, members, format, level);
    KeyAt(numbers, members, format, level, c, s);
    Parts(c, k, Quoted(members.key), d + rest);
    StringBack(c, k, members.key);
    colon := k + |Quoted(members.key)|;
    Parts(c, colon, d, rest);
    ColonBlank(c, colon, format);
    SkipTo(c, colon, colon);
    p := colon + |d|;
    ValueStart(numbers, members, format, level);
    At(c, p, rest, 0);
    SkipTo(c, colon + 1, p);
  }

  lemma ValueStart<N(!new)>(numbers: Numbers<N>, members: Members<N>, format: bool, level: nat)
    requires members.Member? && Printable(numbers, members.value)
    ensures var t := FromValue(numbers, members, format, level); t != "" && !Blank(t[0])
  {
    hide Text, MembersText, Closing, MemberEnd;
    TextStart(numbers, members.value, format, level + 1);
  }

  /** After the value of the last member there is the closing brace. */
  lemma LastMember<N>(numbers: Numbers<N>, next: Members<N>, c: string, q: nat, format: bool, level: nat)
    requires next.NoMember? && StartsWith(c, q, MemberEnd(true, format))
    requires StartsWith(c, q + |MemberEnd(true, format)|, MembersText(numbers, next, format, level + 1) + Closing(format, level))
    ensures var n := |MemberEnd(true, format) + (MembersText(numbers, next, format, level + 1) + Closing(format, level))|;
            n > 0 && q + n <= |c| && Blanks(c, q, q + n - 1) && c[q + n - 1] == '}' && Delimiter(c[q]) && MembersDepth(next) == 0
  {
    hide StartsWith, Closing;
    var e := MemberEnd(true, format);
    EmptyObject(numbers, next, c, q + |e|, format, level);
    if format {
      At(c, q, e, 0);
    } else {
      NoIndent(level);
    }
  }

  lemma NoIndent(level: nat)
    ensures Closing(false, level) == "}"
  {
  }

  lemma MoreMembers(c: string, q: nat, format: bool)
    requires StartsWith(c, q, MemberEnd(false, format))
    ensures q < |c| && c[q] == ',' && Blanks(c, q + 1, q + |MemberEnd(false, format)|)
  {
    At(c, q, MemberEnd(false, format), 0);
    if format {
      At(c, q, MemberEnd(false, format), 1);
    }
  }

  /**
   * Formatted or not, the text of a value parses back to the same value and is used up exactly when arrays and
   * objects are nested at most 1000 deep; otherwise parsing fails.
   */
  lemma RoundTrip<N(!new)>(numbers: Numbers<N>, v: Value<N>, format: bool)
    requires Printable(numbers, v)
    ensures var t := Text(numbers, v, format, 0);
            Parse(numbers, t) == if Depth(v) <= NESTING_LIMIT then Some((v, |t|)) else None
  {
    hide Text, ParseValue, Printable;
    var t := Text(numbers, v, format, 0);
    var c := t + [0 as char];
    assert c[..|t|] == t;
    TextStart(numbers, v, format, 0);
    SkipTo(c, 0, 0);
    ValueBack(numbers, v, format, 0, c, 0, 0);
    assert Skip(c, |t|) == |t| by {
      assert SkipFrom(c, |t| + 1) == |t| + 1;
    }
  }
}
