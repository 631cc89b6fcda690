/** The grammar that the parser of src/cJSON.c accepts, with blanks wherever section 2 of RFC 8259 allows them. */
module JsonGrammar {
  import opened Common
  import opened Json
  import opened JsonParser
  import opened JsonRoundTrip

  /** The buffer ends with the zero byte that cJSON_Parse includes. */
  predicate Terminated(c: string) {
    c != "" && c[|c| - 1] <= ' '
  }

  /** A token by itself: a word, a string literal or a number. */
  ghost predicate IsToken<N>(numbers: Numbers<N>, c: string, o: nat, v: Value<N>, end: nat) {
    match v
    case Null => StartsWith(c, o, "null") && end == o + 4
    case False => StartsWith(c, o, "false") && end == o + 5
    case True => StartsWith(c, o, "true") && end == o + 4
    case String(s) => o < |c| && ParseString(c, o) == Some((s, end))
    case Number(n) => o < end <= |c| && c[o] in "-0123456789" && numbers.read(c[o..]) == Some((n, end - o))
    case _ => false
  }

  /** The text from o up to end spells the value v. */
  ghost predicate Spells<N>(numbers: Numbers<N>, c: string, o: nat, v: Value<N>, end: nat)
    decreases v, 1
  {
    match v
    case Array(items) =>
      && o < |c| && c[o] == '['
      && (if items.NoItem? then end > 0 && IsClosing(c, o + 1, end - 1, ']') else SpellsItems(numbers, c, o + 1, items, end))
    case Object(members) =>
      && o < |c| && c[o] == '{'
      && (if members.NoMember? then end > 0 && IsClosing(c, o + 1, end - 1, '}') else SpellsMembers(numbers, c, o + 1, members, end))
    case _ => IsToken(numbers, c, o, v, end)
  }

  /** Only blanks from o to p, and there the character x. */
  ghost predicate IsClosing(c: string, o: nat, p: nat, x: char) {
    Blanks(c, o, p) && p < |c| && c[p] == x
  }

  /** The elements, separated by commas, and the closing bracket. */
  ghost predicate SpellsItems<N>(numbers: Numbers<N>, c: string, o: nat, items: Items<N>, end: nat)
    decreases items, 1
  {
    items.Item? && exists p: nat, q: nat, r: nat :: ItemAt(numbers, c, o, items, p, q, r, end)
  }

  /** The first element from p to q, and at r what follows it. */
  ghost predicate ItemAt<N>(numbers: Numbers<N>, c: string, o: nat, items: Items<N>, p: nat, q: nat, r: nat, end: nat)
    requires items.Item?
    decreases items, 0
  {
    && Blanks(c, o, p) && Spells(numbers, c, p, items.value, q) && Blanks(c, q, r) && r < |c|
    && if items.next.NoItem? then c[r] == ']' && end == r + 1 else c[r] == ',' && SpellsItems(numbers, c, r + 1, items.next, end)
  }

  /** The members, each a string, a colon and a value, separated by commas, and the closing brace. */
  ghost predicate SpellsMembers<N>(numbers: Numbers<N>, c: string, o: nat, members: Members<N>, end: nat)
    decreases members, 1
  {
    members.Member? && exists k: nat, colon: nat, p: nat, q: nat, r: nat :: MemberAt(numbers, c, o, members, k, colon, p, q, r, end)
  }

  /** The first key at k, its colon, its value from p to q, and at r what follows it. */
  ghost predicate MemberAt<N>(numbers: Numbers<N>, c: string, o: nat, members: Members<N>, k: nat, colon: nat, p: nat, q: nat, r: nat, end: nat)
    requires members.Member?
    decreases members, 0
  {
    && IsKey(c, o, k, members.key, colon) && Blanks(c, colon + 1, p) && Spells(numbers, c, p, members.value, q) && Blanks(c, q, r) && r < |c|
    && if members.next.NoMember? then c[r] == '}' && end == r + 1 else c[r] == ',' && SpellsMembers(numbers, c, r + 1, members.next, end)
  }

  /** A string literal at k after blanks, and a colon after blanks. */
  ghost predicate IsKey(c: string, o: nat, k: nat, key: string, colon: nat) {
    && Blanks(c, o, k) && k < |c| && ParseString(c, k).Some? && ParseString(c, k).value.0 == key
    && Blanks(c, ParseString(c, k).value.1, colon) && colon < |c| && c[colon] == ':'
  }

  // ---- what is spelled is parsed ----

  lemma SpellsStart<N>(numbers: Numbers<N>, c: string, o: nat, v: Value<N>, end: nat)
    requires Spells(numbers, c, o, v, end)
    ensures o < |c| && !Blank(c[o]) && c[o] != ']' && c[o] != '}'
  {
    match v {
      case Null => At(c, o, "null", 0);
      case False => At(c, o, "false", 0);
      case True => At(c, o, "true", 0);
      case _ =>
    }
  }

  lemma TokenParsed<N>(numbers: Numbers<N>, c: string, o: nat, v: Value<N>, end: nat, depth: nat)
    requires IsToken(numbers, c, o, v, end) && depth <= NESTING_LIMIT
    ensures o < |c| && ParseValue(numbers, c, o, depth) == Some((v, end))
  {
    hide ParseString;
    match v {
      case Null => At(c, o, "null", 0);
      case False =>
        At(c, o, "false", 0);
        OtherWord(c, o, "null");
      case True =>
        At(c, o, "true", 0);
        OtherWord(c, o, "null");
        OtherWord(c, o, "false");
      case String(s) => NoWord(c, o);
      case Number(n) => NoWord(c, o);
    }
  }

  lemma {:induction false} ValueParsed<N>(numbers: Numbers<N>, c: string, o: nat, v: Value<N>, end: nat, depth: nat)
    requires Terminated(c) && Spells(numbers, c, o, v, end) && depth <= NESTING_LIMIT
    ensures o < |c| && ParseValue(numbers, c, o, depth) == if Fits(depth, Depth(v)) then Some((v, end)) else None
    decreases v, 1
  {
    hide ParseValue, ParseItems, ParseMembers, Skip, IsToken, SpellsItems, SpellsMembers;
    match v {
      case Array(items) =>
        ValueArray(numbers, c, o, depth);
        if items.NoItem? {
          SkipTo(c, o + 1, end - 1);
        } else {
          var p := ItemsStartAt(numbers, c, o + 1, items, end);
          if depth < NESTING_LIMIT {
            ItemsParsed(numbers, c, o + 1, p, items, end, depth + 1);
          }
        }
      case Object(members) =>
        ValueObject(numbers, c, o, depth);
        if members.NoMember? {
          SkipTo(c, o + 1, end - 1);
        } else {
          var p := MembersStartAt(numbers, c, o + 1, members, end);
          if depth < NESTING_LIMIT {
            MembersParsed(numbers, c, o + 1, p, members, end, depth + 1);
          }
        }
      case _ => TokenParsed(numbers, c, o, v, end, depth);
    }
  }

  /** The first element is where skipping leads to. */
  lemma ItemsStartAt<N>(numbers: Numbers<N>, c: string, o: nat, items: Items<N>, end: nat) returns (p: nat)
    requires SpellsItems(numbers, c, o, items, end) && c != "" && o <= |c|
    ensures p < |c| && Skip(c, o) == p && Skip(c, p) == p && c[p] != ']'
  {
    hide Spells, Skip;
    var q: nat, r: nat;
    p, q, r :| ItemAt(numbers, c, o, items, p, q, r, end);
    SpellsStart(numbers, c, p, items.value, q);
    SkipTo(c, o, p);
    SkipTo(c, p, p);
  }

  /** From s, which skipping leaves alone, where the elements were spelled from o. */
  lemma {:induction false} ItemsParsed<N>(numbers: Numbers<N>, c: string, o: nat, s: nat, items: Items<N>, end: nat, depth: nat)
    requires Terminated(c) && o <= |c| && s <= |c| && SpellsItems(numbers, c, o, items, end) && depth <= NESTING_LIMIT && Skip(c, s) == Skip(c, o)
    ensures ParseItems(numbers, c, s, depth) == if Fits(depth, ItemsDepth(items)) then Some((items, end)) else None
    decreases items, 0
  {
    hide ParseValue, ParseItems, Skip, Spells;
    var p: nat, q: nat, r: nat :| ItemAt(numbers, c, o, items, p, q, r, end);
    hide SpellsItems;
    SpellsStart(numbers, c, p, items.value, q);
    SkipTo(c, o, p);
    SkipTo(c, q, r);
    ValueParsed(numbers, c, p, items.value, q, depth);
    ItemsStep(numbers, c, s, depth, p);
    if items.next.Item? {
      ItemsParsed(numbers, c, r + 1, r + 1, items.next, end, depth);
    } else {
      assert ItemsDepth(items.next) == 0;
    }
  }

  lemma MembersStartAt<N>(numbers: Numbers<N>, c: string, o: nat, members: Members<N>, end: nat) returns (k: nat)
    requires SpellsMembers(numbers, c, o, members, end) && c != "" && o <= |c|
    ensures k < |c| && Skip(c, o) == k && Skip(c, k) == k && c[k] != '}'
  {
    hide Spells, Skip;
    var colon: nat, p: nat, q: nat, r: nat;
    k, colon, p, q, r :| MemberAt(numbers, c, o, members, k, colon, p, q, r, end);
    KeySkip(c, o, k, members.key, colon);
    SkipTo(c, k, k);
  }

  lemma {:induction false} MembersParsed<N>(numbers: Numbers<N>, c: string, o: nat, s: nat, members: Members<N>, end: nat, depth: nat)
    requires Terminated(c) && o <= |c| && s <= |c| && SpellsMembers(numbers, c, o, members, end) && depth <= NESTING_LIMIT && Skip(c, s) == Skip(c, o)
    ensures ParseMembers(numbers, c, s, depth) == if Fits(depth, MembersDepth(members)) then Some((members, end)) else None
    decreases members, 0
  {
    hide ParseValue, ParseMembers, Skip, Spells, ParseString;
    var k: nat, colon: nat, p: nat, q: nat, r: nat :| MemberAt(numbers, c, o, members, k, colon, p, q, r, end);
    hide SpellsMembers, IsKey;
    KeySkip(c, o, k, members.key, colon);
    SpellsStart(numbers, c, p, members.value, q);
    SkipTo(c, colon + 1, p);
    SkipTo(c, q, r);
    ValueParsed(numbers, c, p, members.value, q, depth);
    MembersStep(numbers, c, s, depth, k, members.key, colon, p);
    if members.next.Member? {
      MembersParsed(numbers, c, r + 1, r + 1, members.next, end, depth);
    } else {
      assert MembersDepth(members.next) == 0;
    }
  }

  lemma KeySkip(c: string, o: nat, k: nat, key: string, colon: nat)
    requires IsKey(c, o, k, key, colon)
    ensures k < |c| && colon < |c| && Skip(c, o) == k && ParseString(c, k).Some? && ParseString(c, k).value.0 == key && Skip(c, ParseString(c, k).value.1) == colon
    ensures c[colon] == ':' && c[k] == '\"'
  {
    hide Skip, StringEnd, Decode;
    SkipTo(c, o, k);
    SkipTo(c, ParseString(c, k).value.1, colon);
  }

  // ---- what is parsed is spelled ----

  /** Skipping leads over blanks only, if it leads to something else. */
  lemma SkipBlanks(c: string, o: nat)
    requires Terminated(c) && o <= |c| && !Blank(c[Skip(c, o)])
    ensures Blanks(c, o, Skip(c, o))
  {
  }

  lemma TokenSound<N>(numbers: Numbers<N>, c: string, o: nat, depth: nat)
    requires o < |c| && depth <= NESTING_LIMIT && c[o] != '[' && c[o] != '{' && ParseValue(numbers, c, o, depth).Some?
    ensures var (v, end) := ParseValue(numbers, c, o, depth).value; IsToken(numbers, c, o, v, end) && !v.Array? && !v.Object?
  {
    hide ParseString;
    assert NumberStart(c[o]) ==> c[o] in "-0123456789" by { DigitIn(c[o]); }
  }

  lemma DigitIn(x: char)
    ensures NumberStart(x) <==> x in "-0123456789"
  {
    var s := "-0123456789";
    assert s[0] == '-' && s[1] == '0' && s[2] == '1' && s[3] == '2' && s[4] == '3' && s[5] == '4' && s[6] == '5';
    assert s[7] == '6' && s[8] == '7' && s[9] == '8' && s[10] == '9';
    if '0' <= x <= '9' {
      assert s[(x - '0') as int + 1] == x;
    }
  }

  lemma {:induction false} ValueSound<N>(numbers: Numbers<N>, c: string, o: nat, depth: nat)
    requires Terminated(c) && o < |c| && depth <= NESTING_LIMIT && ParseValue(numbers, c, o, depth).Some?
    ensures var (v, end) := ParseValue(numbers, c, o, depth).value; Spells(numbers, c, o, v, end) && Fits(depth, Depth(v))
    decreases NESTING_LIMIT - depth, |c| + 1 - o
  {
    hide ParseValue, ParseItems, ParseMembers, Skip, IsToken, SpellsItems, SpellsMembers;
    if c[o] == '[' {
      ValueArray(numbers, c, o, depth);
      var p := Skip(c, o + 1);
      if c[p] == ']' {
        SkipBlanks(c, o + 1);
      } else {
        ItemsSound(numbers, c, p, depth + 1);
        var (items, end) := ParseItems(numbers, c, p, depth + 1).value;
        ItemsEarlier(numbers, c, o + 1, p, items, end);
      }
    } else if c[o] == '{' {
      ValueObject(numbers, c, o, depth);
      var p := Skip(c, o + 1);
      if c[p] == '}' {
        SkipBlanks(c, o + 1);
      } else {
        MembersSound(numbers, c, p, depth + 1);
        var (members, end) := ParseMembers(numbers, c, p, depth + 1).value;
        MembersEarlier(numbers, c, o + 1, p, members, end);
      }
    } else {
      TokenSound(numbers, c, o, depth);
    }
  }

  /** Blanks before the first element. */
  lemma ItemsEarlier<N>(numbers: Numbers<N>, c: string, o: nat, p: nat, items: Items<N>, end: nat)
    requires Terminated(c) && o < |c| && p == Skip(c, o) && SpellsItems(numbers, c, p, items, end)
    ensures SpellsItems(numbers, c, o, items, end)
  {
    hide Spells, SpellsItems;
    var p', q, r := ItemsWitness(numbers, c, p, items, end);
    SpellsStart(numbers, c, p', items.value, q);
    SkipOver(c, o, p');
    ItemsFrom(numbers, c, o, items, p', q, r, end);
  }

  lemma ItemsWitness<N>(numbers: Numbers<N>, c: string, o: nat, items: Items<N>, end: nat) returns (p: nat, q: nat, r: nat)
    requires SpellsItems(numbers, c, o, items, end)
    ensures items.Item? && ItemAt(numbers, c, o, items, p, q, r, end)
  {
    p, q, r :| ItemAt(numbers, c, o, items, p, q, r, end);
  }

  lemma ItemsFrom<N>(numbers: Numbers<N>, c: string, o: nat, items: Items<N>, p: nat, q: nat, r: nat, end: nat)
    requires items.Item? && Blanks(c, o, p) && Spells(numbers, c, p, items.value, q) && Blanks(c, q, r) && r < |c|
    requires if items.next.NoItem? then c[r] == ']' && end == r + 1 else c[r] == ',' && SpellsItems(numbers, c, r + 1, items.next, end)
    ensures SpellsItems(numbers, c, o, items, end)
  {
    hide Spells;
    assert ItemAt(numbers, c, o, items, p, q, r, end);
  }

  /** Blanks from where skipping ends are blanks from where it began. */
  lemma SkipOver(c: string, o: nat, p: nat)
    requires c != "" && o < |c| && Blanks(c, Skip(c, o), p) && p < |c|
    ensures Blanks(c, o, p)
  {
    var s := Skip(c, o);
    assert forall i :: o <= i < s ==> Blank(c[i]);
  }

  lemma {:induction false} ItemsSound<N>(numbers: Numbers<N>, c: string, o: nat, depth: nat)
    requires Terminated(c) && o <= |c| && depth <= NESTING_LIMIT && ParseItems(numbers, c, o, depth).Some?
    ensures var (items, end) := ParseItems(numbers, c, o, depth).value; SpellsItems(numbers, c, o, items, end) && Fits(depth, ItemsDepth(items)) && items.Item?
    decreases NESTING_LIMIT - depth, |c| + 3 - o
  {
    hide ParseValue, ParseItems, Skip, Spells, SpellsItems;
    var p := Skip(c, o);
    ItemsStep(numbers, c, o, depth, p);
    ValueSound(numbers, c, p, depth);
    var (v, q) := ParseValue(numbers, c, p, depth).value;
    SpellsStart(numbers, c, p, v, q);
    SkipBlanks(c, o);
    var r := Skip(c, q);
    SkipBlanks(c, q);
    if c[r] == ',' {
      ItemsSound(numbers, c, r + 1, depth);
    }
    var (items, end) := ParseItems(numbers, c, o, depth).value;
    ItemsFrom(numbers, c, o, items, p, q, r, end);
  }

  lemma MembersEarlier<N>(numbers: Numbers<N>, c: string, o: nat, p: nat, members: Members<N>, end: nat)
    requires Terminated(c) && o < |c| && p == Skip(c, o) && SpellsMembers(numbers, c, p, members, end)
    ensures SpellsMembers(numbers, c, o, members, end)
  {
    hide Spells, ParseString;
    var k: nat, colon: nat, p': nat, q: nat, r: nat :| MemberAt(numbers, c, p, members, k, colon, p', q, r, end);
    SkipOver(c, o, k);
    assert MemberAt(numbers, c, o, members, k, colon, p', q, r, end);
  }

  lemma MembersFrom<N>(numbers: Numbers<N>, c: string, o: nat, members: Members<N>, k: nat, colon: nat, p: nat, q: nat, r: nat, end: nat)
    requires members.Member? && IsKey(c, o, k, members.key, colon) && Blanks(c, colon + 1, p) && Spells(numbers, c, p, members.value, q) && Blanks(c, q, r) && r < |c|
    requires if members.next.NoMember? then c[r] == '}' && end == r + 1 else c[r] == ',' && SpellsMembers(numbers, c, r + 1, members.next, end)
    ensures SpellsMembers(numbers, c, o, members, end)
  {
    hide Spells, IsKey;
    assert MemberAt(numbers, c, o, members, k, colon, p, q, r, end);
  }

  lemma {:induction false} MembersSound<N>(numbers: Numbers<N>, c: string, o: nat, depth: nat)
    requires Terminated(c) && o <= |c| && depth <= NESTING_LIMIT && ParseMembers(numbers, c, o, depth).Some?
    ensures var (members, end) := ParseMembers(numbers, c, o, depth).value;
            SpellsMembers(numbers, c, o, members, end) && Fits(depth, MembersDepth(members)) && members.Member?
    decreases NESTING_LIMIT - depth, |c| + 3 - o
  {
    hide ParseValue, ParseMembers, ParseString, Skip, Spells, SpellsMembers;
    var k := Skip(c, o);
    MembersFail(numbers, c, o, depth, k);
    var (key, after) := ParseString(c, k).value;
    var colon := Skip(c, after);
    var p := Skip(c, colon + 1);
    MembersStep(numbers, c, o, depth, k, key, colon, p);
    ValueSound(numbers, c, p, depth);
    var (v, q) := ParseValue(numbers, c, p, depth).value;
    SpellsStart(numbers, c, p, v, q);
    QuoteAt(c, k);
    SkipBlanks(c, o);
    SkipBlanks(c, after);
    SkipBlanks(c, colon + 1);
    var r := Skip(c, q);
    SkipBlanks(c, q);
    if c[r] == ',' {
      MembersSound(numbers, c, r + 1, depth);
    }
    var (members, end) := ParseMembers(numbers, c, o, depth).value;
    MembersFrom(numbers, c, o, members, k, colon, p, q, r, end);
  }

  lemma QuoteAt(c: string, k: nat)
    requires k < |c| && ParseString(c, k).Some?
    ensures c[k] == '\"' && ParseString(c, k).value.1 <= |c|
  {
    hide StringEnd, Decode;
  }

  /** The parser accepts a value exactly where the grammar has one, up to the nesting limit, and there is no other. */
  lemma ParsesExactly<N>(numbers: Numbers<N>, c: string, o: nat, v: Value<N>, end: nat, depth: nat)
    requires Terminated(c) && o < |c| && depth <= NESTING_LIMIT
    ensures ParseValue(numbers, c, o, depth) == Some((v, end)) <==> Spells(numbers, c, o, v, end) && depth + Depth(v) <= 1000
  {
    hide ParseValue, Spells;
    if ParseValue(numbers, c, o, depth) == Some((v, end)) {
      ValueSound(numbers, c, o, depth);
    }
    if Spells(numbers, c, o, v, end) {
      ValueParsed(numbers, c, o, v, end, depth);
    }
  }

  // ---- whole texts ----

  /** Blanks are the characters up to the space; the four of RFC 8259 are among them. */
  lemma BlankExactly(x: char)
    ensures Blank(x) <==> x as int <= 0x20
    ensures x == ' ' || x == '\t' || x == '\n' || x == '\r' ==> Blank(x)
  {
  }

  /** Reading a number does not go beyond a zero byte. */
  ghost predicate StopsAtZero<N(!new)>(numbers: Numbers<N>) {
    forall s: string :: numbers.read(s).Some? ==> numbers.read(s).value.1 <= |s| && ZeroFree(s[..numbers.read(s).value.1])
  }

  /** A value ends before the terminating zero byte. */
  lemma EndsBefore<N(!new)>(numbers: Numbers<N>, c: string, o: nat, v: Value<N>, end: nat)
    requires c != "" && c[|c| - 1] == 0 as char && StopsAtZero(numbers) && Spells(numbers, c, o, v, end)
    ensures end < |c|
  {
    hide ParseValue, ParseString, StopsAtZero, SpellsItems, SpellsMembers;
    match v {
      case Null => At(c, o, "null", 3);
      case False => At(c, o, "false", 4);
      case True => At(c, o, "true", 3);
      case Number(n) => NumberEnds(numbers, c, o, n, end);
      case String(s) => QuoteEnds(c, o);
      case Array(items) => if items.Item? { ItemsEnd(numbers, c, o + 1, items, end); }
      case Object(members) => if members.Member? { MembersEnd(numbers, c, o + 1, members, end); }
    }
  }

  lemma NumberEnds<N(!new)>(numbers: Numbers<N>, c: string, o: nat, n: N, end: nat)
    requires c != "" && c[|c| - 1] == 0 as char && StopsAtZero(numbers) && o < end <= |c| && numbers.read(c[o..]) == Some((n, end - o))
    ensures end < |c|
  {
    var t := c[o..];
    assert ZeroFree(t[..end - o]);
    assert t[..end - o][end - o - 1] == c[end - 1];
  }

  lemma QuoteEnds(c: string, o: nat)
    requires o < |c| && ParseString(c, o).Some?
    ensures var end := ParseString(c, o).value.1; 0 < end <= |c| && c[end - 1] == '\"'
  {
    hide Decode;
  }

  lemma {:induction false} ItemsEnd<N>(numbers: Numbers<N>, c: string, o: nat, items: Items<N>, end: nat)
    requires SpellsItems(numbers, c, o, items, end)
    ensures 0 < end <= |c| && c[end - 1] == ']'
    decreases items
  {
    hide Spells;
    var p: nat, q: nat, r: nat :| ItemAt(numbers, c, o, items, p, q, r, end);
    if items.next.Item? {
      ItemsEnd(numbers, c, r + 1, items.next, end);
    }
  }

  lemma {:induction false} MembersEnd<N>(numbers: Numbers<N>, c: string, o: nat, members: Members<N>, end: nat)
    requires SpellsMembers(numbers, c, o, members, end)
    ensures 0 < end <= |c| && c[end - 1] == '}'
    decreases members
  {
    hide Spells, IsKey;
    var k: nat, colon: nat, p: nat, q: nat, r: nat :| MemberAt(numbers, c, o, members, k, colon, p, q, r, end);
    if members.next.Member? {
      MembersEnd(numbers, c, r + 1, members.next, end);
    }
  }

  /** The text is a value with blanks around it. */
  ghost predicate IsText<N>(numbers: Numbers<N>, c: string, v: Value<N>, p: nat, q: nat) {
    Blanks(c, 0, p) && Spells(numbers, c, p, v, q) && q < |c| && Blanks(c, q, |c| - 1)
  }

  ghost predicate IsWholeText<N>(numbers: Numbers<N>, c: string, v: Value<N>) {
    exists p: nat, q: nat :: IsText(numbers, c, v, p, q)
  }

  /** cJSON_Parse accepts a text exactly if it is one value of the grammar with blanks around it, nested at most 1000 deep. */
  lemma TextExactly<N(!new)>(numbers: Numbers<N>, text: string, v: Value<N>)
    requires StopsAtZero(numbers)
    ensures Parse(numbers, text) == Some((v, |text|)) <==> Depth(v) <= 1000 && IsWholeText(numbers, text + [0 as char], v)
    ensures Parse(numbers, text).Some? ==> Parse(numbers, text).value.1 == |text|
  {
    hide ParseValue, Spells, StopsAtZero, Skip;
    var c := text + [0 as char];
    var p := Skip(c, 0);
    if Parse(numbers, text).Some? {
      var (w, q) := ParseValue(numbers, c, p, 0).value;
      ValueSound(numbers, c, p, 0);
      EndsBefore(numbers, c, p, w, q);
      SpellsStart(numbers, c, p, w, q);
      SkipBlanks(c, 0);
      SkipRest(c, q);
      assert IsText(numbers, c, w, p, q);
    }
    if Depth(v) <= 1000 && IsWholeText(numbers, c, v) {
      var p', q :| IsText(numbers, c, v, p', q);
      SpellsStart(numbers, c, p', v, q);
      SkipTo(c, 0, p');
      ValueParsed(numbers, c, p', v, q, 0);
      SkipRest(c, q);
    }
  }

  lemma SkipRest(c: string, q: nat)
    requires q < |c| && c[|c| - 1] == 0 as char
    ensures c[Skip(c, q)] == 0 as char <==> Blanks(c, q, |c| - 1)
    ensures Blanks(c, q, |c| - 1) ==> Skip(c, q) == |c| - 1
  {
  }

  // ---- the printed layout ----

  lemma LayoutItems<N>(numbers: Numbers<N>, format: bool, depth: nat)
    ensures ItemsText(numbers, Item(True, Item(Null, NoItem)), format, depth) == if format then "true, null" else "true,null"
  {
    var none: Items<N> := NoItem;
    var last: Items<N> := Item(Null, none);
    assert ItemsText(numbers, none, format, depth) == "";
    assert Text(numbers, last.value, format, depth) == "null";
    assert ItemsText(numbers, last, format, depth) == "null" + "" + "" == "null";
    var items: Items<N> := Item(True, last);
    assert Text(numbers, items.value, format, depth) == "true";
    assert ItemsText(numbers, items, format, depth) == "true" + (if format then ", " else ",") + "null";
  }

  lemma LayoutEmpty<N>(numbers: Numbers<N>, format: bool)
    ensures Text(numbers, Object(NoMember), format, 1) == if format then "{\n\t}" else "{}"
  {
    var none: Members<N> := NoMember;
    assert MembersText(numbers, none, format, 2) == "";
    assert Tabs(1) == "\t";
    assert "{\n" + "" + "\t" + "}" == "{\n\t}" && "{" + "" + "" + "}" == "{}";
  }

  lemma LayoutKey(k: char)
    requires Plain(k)
    ensures Quoted([k]) == ['\"', k, '\"']
  {
    assert [k][1..] == "";
    assert EscapedAll([k]) == Escaped(k) + EscapedAll("") == [k];
  }

  lemma LayoutMember<N>(numbers: Numbers<N>, format: bool, k: char, v: Value<N>, next: Members<N>)
    requires Plain(k)
    ensures MembersText(numbers, Member([k], v, next), format, 1) ==
            (if format then "\t" else "") + ['\"', k, '\"'] + (if format then ":\t" else ":") + Text(numbers, v, format, 1) +
            MemberEnd(next.NoMember?, format) + MembersText(numbers, next, format, 1)
  {
    LayoutKey(k);
    assert Tabs(1) == "\t";
  }

  function SampleEnd<N>(): Members<N> {
    Member("b", Object(NoMember), NoMember)
  }

  /** {"a": [true, null], "b": {}} */
  function Sample<N>(): Members<N> {
    Member("a", Array(Item(True, Item(Null, NoItem))), SampleEnd())
  }

  lemma LayoutEnd<N>(numbers: Numbers<N>, format: bool)
    ensures MembersText(numbers, SampleEnd(), format, 1) == if format then "\t\"b\":\t{\n\t}\n" else "\"b\":{}"
  {
    var none: Members<N> := NoMember;
    LayoutEmpty(numbers, format);
    LayoutMember(numbers, format, 'b', Object(none), none);
    assert MembersText(numbers, none, format, 1) == "";
    hide MembersText, Text;
  }

  lemma LayoutList<N>(numbers: Numbers<N>, format: bool)
    ensures Text(numbers, Array(Item(True, Item(Null, NoItem))), format, 1) == if format then "[true, null]" else "[true,null]"
  {
    LayoutItems(numbers, format, 2);
    hide ItemsText;
  }

  /** A sample in both formats: each member is a line of its own, indented and ended by a comma, or there are no blanks at all. */
  lemma Layout<N>(numbers: Numbers<N>, format: bool)
    ensures Text(numbers, Object(Sample()), format, 0) ==
            if format then "{\n" + ("\t" + "\"a\"" + ":\t" + "[true, null]" + ",\n" + "\t\"b\":\t{\n\t}\n") + "}"
            else "{" + ("" + "\"a\"" + ":" + "[true,null]" + "," + "\"b\":{}") + "}"
  {
    var list: Value<N> := Array(Item(True, Item(Null, NoItem)));
    LayoutMember(numbers, format, 'a', list, SampleEnd());
    LayoutList(numbers, format);
    LayoutEnd(numbers, format);
    LayoutCommas();
    assert Tabs(0) == "";
    var m := MembersText(numbers, Sample(), format, 1);
    assert Text(numbers, Object(Sample()), format, 0) == (if format then "{\n" else "{") + m + "" + "}";
    hide MembersText, Text, MemberEnd;
    Associate(if format then "{\n" else "{", m, "");
    assert m + "" == m;
  }

  lemma LayoutCommas()
    ensures MemberEnd(false, true) == ",\n" && MemberEnd(false, false) == ","
  {
  }
}
