/** JSON values and their text (the printer of src/cJSON.c). Bytes are characters below 256. */
module Json {
  import opened Common

  /** The children of arrays and objects are linked lists. */
  datatype Value<N> =
    | Null
    | False
    | True
    | Number(n: N)
    | String(s: string)
    | Array(items: Items<N>)
    | Object(members: Members<N>)

  datatype Items<N> = NoItem | Item(value: Value<N>, next: Items<N>)
  datatype Members<N> = NoMember | Member(key: string, value: Value<N>, next: Members<N>)

  /**
   * How numbers are written and read: strtod and sprintf. Reading starts at the beginning of the given text
   * and says how many characters it used.
   */
  datatype Numbers<!N> = Numbers(write: N -> string, read: string -> Option<(N, nat)>)

  const NESTING_LIMIT: nat := 1000

  // ---- strings ----

  function HexDigit(n: nat): char
    requires n < 16
  {
    if n < 10 then '0' + n as char else 'a' + (n - 10) as char
  }

  predicate Plain(c: char) {
    c > 31 as char && c != '\"' && c != '\\'
  }

  /** One character of a string literal. */
  function Escaped(c: char): string {
    if Plain(c) then [c]
    else if c == '\\' then "\\\\"
    else if c == '\"' then "\\\""
    else if c == 8 as char then "\\b"
    else if c == 12 as char then "\\f"
    else if c == '\n' then "\\n"
    else if c == '\r' then "\\r"
    else if c == '\t' then "\\t"
    else ['\\', 'u', '0', '0', HexDigit(c as int / 16), HexDigit(c as int % 16)]
  }

  function EscapedAll(s: string): string {
    if s == "" then "" else Escaped(s[0]) + EscapedAll(s[1..])
  }

  function Quoted(s: string): string {
    "\"" + EscapedAll(s) + "\""
  }

  // ---- values ----

  function Tabs(n: nat): string {
    seq(n, _ => '\t')
  }

  function Text<N>(numbers: Numbers<N>, v: Value<N>, format: bool, depth: nat): string {
    match v
    case Null => "null"
    case False => "false"
    case True => "true"
    case Number(n) => numbers.write(n)
    case String(s) => Quoted(s)
    case Array(items) => "[" + ItemsText(numbers, items, format, depth + 1) + "]"
    case Object(members) =>
      (if format then "{\n" else "{") + MembersText(numbers, members, format, depth + 1) + (if format then Tabs(depth) else "") + "}"
  }

  function ItemsText<N>(numbers: Numbers<N>, items: Items<N>, format: bool, depth: nat): string {
    match items
    case NoItem => ""
    case Item(v, next) =>
      Text(numbers, v, format, depth) +
      (if next.NoItem? then "" else if format then ", " else ",") +
      ItemsText(numbers, next, format, depth)
  }

  /** What follows the value of a member. */
  function MemberEnd(last: bool, format: bool): string {
    (if last then "" else ",") + (if format then "\n" else "")
  }

  function MembersText<N>(numbers: Numbers<N>, members: Members<N>, format: bool, depth: nat): string {
    match members
    case NoMember => ""
    case Member(key, v, next) =>
      (if format then Tabs(depth) else "") + Quoted(key) + (if format then ":\t" else ":") +
      Text(numbers, v, format, depth) + MemberEnd(next.NoMember?, format) +
      MembersText(numbers, next, format, depth)
  }

  /** How deeply arrays and objects are nested. */
  function Depth<N>(v: Value<N>): nat {
    match v
    case Array(items) => 1 + ItemsDepth(items)
    case Object(members) => 1 + MembersDepth(members)
    case _ => 0
  }

  function ItemsDepth<N>(items: Items<N>): nat {
    match items
    case NoItem => 0
    case Item(v, next) => Max(Depth(v), ItemsDepth(next))
  }

  function MembersDepth<N>(members: Members<N>): nat {
    match members
    case NoMember => 0
    case Member(_, v, next) => Max(Depth(v), MembersDepth(next))
  }

  function Max(a: nat, b: nat): nat {
    if a < b then b else a
  }
}

/** The parser of src/cJSON.c, as a function of the text. */
module JsonParser {
  import opened Common
  import opened Json

  predicate Blank(c: char) {
    c <= ' '
  }

  function SkipFrom(c: string, o: nat): (r: nat)
    requires o <= |c|
    ensures o <= r <= |c|
    ensures forall i :: o <= i < r ==> Blank(c[i])
    ensures r < |c| ==> !Blank(c[r])
    decreases |c| - o
  {
    if o < |c| && Blank(c[o]) then SkipFrom(c, o + 1) else o
  }

  /** buffer_skip_whitespace steps back when it reaches the end of the buffer. */
  function Skip(c: string, o: nat): (r: nat)
    requires c != "" && o <= |c|
    ensures o - 1 <= r < |c|
    ensures r >= o || r == |c| - 1
  {
    var r := SkipFrom(c, o);
    if r == |c| then r - 1 else r
  }

  // ---- strings ----

  /** The closing quote, skipping pairs that start with a backslash. */
  function StringEnd(c: string, i: nat): (r: Option<nat>)
    requires i <= |c|
    ensures r.Some? ==> i <= r.value < |c| && c[r.value] == '\"'
    decreases |c| - i
  {
    if i == |c| then None
    else if c[i] == '\"' then Some(i)
    else if c[i] != '\\' then StringEnd(c, i + 1)
    else if i + 1 == |c| then None
    else StringEnd(c, i + 2)
  }

  /** Hexadecimal digits; anything else makes the whole number zero. */
  function HexValue(c: char): Option<nat> {
    if '0' <= c <= '9' then Some((c - '0') as nat)
    else if 'A' <= c <= 'F' then Some(10 + (c - 'A') as nat)
    else if 'a' <= c <= 'f' then Some(10 + (c - 'a') as nat)
    else None
  }

  function Hex4(a: char, b: char, c: char, d: char): nat {
    if HexValue(a).None? || HexValue(b).None? || HexValue(c).None? || HexValue(d).None? then 0
    else 4096 * HexValue(a).value + 256 * HexValue(b).value + 16 * HexValue(c).value + HexValue(d).value
  }

  function Byte(n: nat): char {
    (n % 256) as char
  }

  /** The UTF-8 form of a code point. */
  function Utf8(cp: nat): string {
    if cp < 0x80 then [Byte(cp)]
    else if cp < 0x800 then [Byte(0xC0 + cp / 64), Byte(0x80 + cp % 64)]
    else if cp < 0x1_0000 then [Byte(0xE0 + cp / 4096), Byte(0x80 + cp / 64 % 64), Byte(0x80 + cp % 64)]
    else [Byte(0xF0 + cp / 262144), Byte(0x80 + cp / 4096 % 64), Byte(0x80 + cp / 64 % 64), Byte(0x80 + cp % 64)]
  }

  /** utf16_literal_to_utf8: the bytes and how many characters of the literal they took */
  function Utf16(c: string, i: nat, end: nat): (r: Option<(string, nat)>)
    requires i <= end <= |c|
    ensures r.Some? ==> r.value.1 >= 6
  {
    if end - i < 6 then None else
      var first := Hex4(c[i + 2], c[i + 3], c[i + 4], c[i + 5]);
      if 0xDC00 <= first <= 0xDFFF then None
      else if 0xD800 <= first <= 0xDBFF then
        if end - (i + 6) < 6 || c[i + 6] != '\\' || c[i + 7] != 'u' then None else
          var second := Hex4(c[i + 8], c[i + 9], c[i + 10], c[i + 11]);
          if second < 0xDC00 || second > 0xDFFF then None
          else Some((Utf8(0x1_0000 + first % 1024 * 1024 + second % 1024), 12))
      else Some((Utf8(first), 6))
  }

  /** The character that a two-character escape stands for. */
  function Unescaped(c: char): Option<char> {
    match c
    case 'b' => Some(8 as char)
    case 'f' => Some(12 as char)
    case 'n' => Some('\n')
    case 'r' => Some('\r')
    case 't' => Some('\t')
    case '\"' => Some('\"')
    case '\\' => Some('\\')
    case '/' => Some('/')
    case _ => None
  }

  /** The contents of a literal that ends at end. */
  function Decode(c: string, i: nat, end: nat): Option<string>
    requires end < |c|
    decreases |c| + 12 - i
  {
    if i >= end then Some("")
    else if c[i] != '\\' then
      match Decode(c, i + 1, end)
      case None => None
      case Some(s) => Some([c[i]] + s)
    else if c[i + 1] == 'u' then
      match Utf16(c, i, end)
      case None => None
      case Some((bytes, n)) =>
        (match Decode(c, i + n, end)
         case None => None
         case Some(s) => Some(bytes + s))
    else
      match Unescaped(c[i + 1])
      case None => None
      case Some(x) =>
        match Decode(c, i + 2, end)
        case None => None
        case Some(s) => Some([x] + s)
  }

  /** A C string ends at its first zero byte. */
  function CString(s: string): string {
    if s == "" || s[0] == 0 as char then "" else [s[0]] + CString(s[1..])
  }

  /** parse_string, at an opening quote */
  function ParseString(c: string, o: nat): (r: Option<(string, nat)>)
    requires o < |c|
    ensures r.Some? ==> o + 1 < r.value.1 <= |c| && c[o] == '\"'
  {
    if c[o] != '\"' then None else
      match StringEnd(c, o + 1)
      case None => None
      case Some(end) =>
        match Decode(c, o + 1, end)
        case None => None
        case Some(s) => Some((CString(s), end + 1))
  }

  // ---- values ----

  predicate StartsWith(c: string, o: nat, word: string) {
    o + |word| <= |c| && c[o..o + |word|] == word
  }

  predicate NumberStart(c: char) {
    c == '-' || '0' <= c <= '9'
  }

  /** parse_value: the value at an offset and the offset after it */
  function ParseValue<N>(numbers: Numbers<N>, c: string, o: nat, depth: nat): (r: Option<(Value<N>, nat)>)
    requires o < |c| && depth <= NESTING_LIMIT
    ensures r.Some? ==> o < r.value.1 <= |c| && c[o] != ','
    decreases NESTING_LIMIT - depth, |c| + 1 - o
  {
    if StartsWith(c, o, "null") then assert c[o..o + 4][0] == c[o]; Some((Null, o + 4))
    else if StartsWith(c, o, "false") then assert c[o..o + 5][0] == c[o]; Some((False, o + 5))
    else if StartsWith(c, o, "true") then assert c[o..o + 4][0] == c[o]; Some((True, o + 4))
    else if c[o] == '\"' then
      match ParseString(c, o)
      case None => None
      case Some((s, end)) => Some((String(s), end))
    else if NumberStart(c[o]) then
      match numbers.read(c[o..])
      case None => None
      case Some((n, used)) => if 1 <= used <= |c| - o then Some((Number(n), o + used)) else None
    else if c[o] == '[' then
      if depth >= NESTING_LIMIT then None else
        var p := Skip(c, o + 1);
        if c[p] == ']' then Some((Array(NoItem), p + 1))
        else
          match ParseItems(numbers, c, p, depth + 1)
          case None => None
          case Some((items, end)) => Some((Array(items), end))
    else if c[o] == '{' then
      if depth >= NESTING_LIMIT then None else
        var p := Skip(c, o + 1);
        if c[p] == '}' then Some((Object(NoMember), p + 1))
        else
          match ParseMembers(numbers, c, p, depth + 1)
          case None => None
          case Some((members, end)) => Some((Object(members), end))
    else None
  }

  /** The loop of parse_array, from before an element to after the closing bracket. */
  function ParseItems<N>(numbers: Numbers<N>, c: string, o: nat, depth: nat): (r: Option<(Items<N>, nat)>)
    requires c != "" && o <= |c| && depth <= NESTING_LIMIT
    ensures r.Some? ==> o < r.value.1 <= |c|
    decreases NESTING_LIMIT - depth, |c| + 3 - o
  {
    var p := Skip(c, o);
    match ParseValue(numbers, c, p, depth)
    case None => None
    case Some((v, q)) =>
      var r := Skip(c, q);
      if c[r] == ',' then
        match ParseItems(numbers, c, r + 1, depth)
        case None => None
        case Some((next, end)) => Some((Item(v, next), end))
      else if c[r] == ']' then Some((Item(v, NoItem), r + 1))
      else None
  }

  function ParseMembers<N>(numbers: Numbers<N>, c: string, o: nat, depth: nat): (r: Option<(Members<N>, nat)>)
    requires c != "" && o <= |c| && depth <= NESTING_LIMIT
    ensures r.Some? ==> o < r.value.1 <= |c|
    decreases NESTING_LIMIT - depth, |c| + 3 - o
  {
    var k := Skip(c, o);
    match ParseString(c, k)
    case None => None
    case Some((key, afterKey)) =>
      var colon := Skip(c, afterKey);
      if c[colon] != ':' then None else
        var p := Skip(c, colon + 1);
        match ParseValue(numbers, c, p, depth)
        case None => None
        case Some((v, q)) =>
          var r := Skip(c, q);
          if c[r] == ',' then
            match ParseMembers(numbers, c, r + 1, depth)
            case None => None
            case Some((next, end)) => Some((Member(key, v, next), end))
          else if c[r] == '}' then Some((Member(key, v, NoMember), r + 1))
          else None
  }

  /**
   * cJSON_ParseWithOpts with require_null_terminated: the value, and the offset at which the text ends.
   * The buffer includes the terminating zero byte.
   */
  function Parse<N>(numbers: Numbers<N>, text: string): Option<(Value<N>, nat)> {
    var c := text + [0 as char];
    match ParseValue(numbers, c, Skip(c, 0), 0)
    case None => None
    case Some((v, q)) => if c[Skip(c, q)] == 0 as char then Some((v, Skip(c, q))) else None
  }
}
