/** The printer and the parser of src/cJSON.c with their buffers. Failing allocations are left out. */
module JsonCode {
  import opened Common
  import opened Json
  import opened JsonParser
  import opened JsonRoundTrip
  import opened JsonBuffers

  class PrintBuffer<N> {
    const numbers: Numbers<N>
    const format: bool
    var text: string
    var depth: nat

    constructor (numbers: Numbers<N>, format: bool)
      ensures this.numbers == numbers && this.format == format && text == "" && depth == 0
    {
      this.numbers, this.format, text, depth := numbers, format, "", 0;
    }

    /** print_string_ptr */
    method PrintString(s: string)
      modifies this`text
      ensures text == old(text) + Quoted(s)
    {
      hide Quoted;
      var output := Render(s);
      assert output[..output.Length - 1] == output[..][..output.Length - 1] == Quoted(s);
      text := text + output[..output.Length - 1];
    }

    method PrintValue(v: Value<N>)
      modifies this`text, this`depth
      ensures text == old(text) + Text(numbers, v, format, old(depth)) && depth == old(depth)
      decreases v, 1
    {
      hide Quoted, ItemsText, MembersText;
      match v {
        case Null => text := text + "null";
        case False => text := text + "false";
        case True => text := text + "true";
        case Number(n) => text := text + numbers.write(n);
        case String(s) => PrintString(s);
        case Array(items) => PrintArray(items);
        case Object(members) => PrintObject(members);
      }
    }

    method PrintArray(items: Items<N>)
      modifies this`text, this`depth
      ensures text == old(text) + ("[" + ItemsText(numbers, items, format, old(depth) + 1) + "]") && depth == old(depth)
      decreases items, 1
    {
      hide Text;
      text := text + "[";
      depth := depth + 1;
      var current := items;
      while current.Item?
        invariant depth == old(depth) + 1 && (current == items || current < items)
        invariant text + ItemsText(numbers, current, format, depth) == old(text) + "[" + ItemsText(numbers, items, format, depth)
        decreases current
      {
        ghost var before, sep, rest := text, Separator(current.next.NoItem?, format), ItemsText(numbers, current.next, format, depth);
        PrintValue(current.value);
        if !current.next.NoItem? {
          text := text + "," + (if format then " " else "");
        }
        assert text == before + Text(numbers, current.value, format, depth) + sep;
        Associate(before + Text(numbers, current.value, format, depth), sep, rest);
        Associate(before, Text(numbers, current.value, format, depth), sep + rest);
        Associate(Text(numbers, current.value, format, depth), sep, rest);
        current := current.next;
      }
      assert text + "" == text;
      text := text + "]";
      depth := depth - 1;
      Associate(old(text), "[", ItemsText(numbers, items, format, old(depth) + 1));
      Associate(old(text), "[" + ItemsText(numbers, items, format, old(depth) + 1), "]");
    }

    method PrintTabs(n: nat)
      modifies this`text
      ensures text == old(text) + Tabs(n)
    {
      for i := 0 to n
        invariant text == old(text) + Tabs(i)
      {
        text := text + "\t";
      }
    }

    method PrintObject(members: Members<N>)
      modifies this`text, this`depth
      ensures text == old(text) + Text(numbers, Object(members), format, old(depth)) && depth == old(depth)
      decreases members, 1
    {
      hide Text, MembersText, Closing;
      text := text + (if format then "{\n" else "{");
      depth := depth + 1;
      var current := members;
      while current.Member?
        invariant depth == old(depth) + 1 && (current == members || current < members)
        invariant text + MembersText(numbers, current, format, depth) == old(text) + Opening(format) + MembersText(numbers, members, format, depth)
        decreases current
      {
        ghost var before := text;
        PrintMember(current);
        MemberText(numbers, current, format, depth, before);
        current := current.next;
      }
      NoMembers(numbers, current, format, depth);
      assert text + "" == text;
      ghost var body := text;
      if format {
        PrintTabs(depth - 1);
      }
      text := text + "}";
      depth := depth - 1;
      ClosingIs(format, depth, body, text);
      ObjectParts(numbers, members, format, depth);
      Associate(old(text) + Opening(format), MembersText(numbers, members, format, old(depth) + 1), Closing(format, depth));
      Associate(old(text), Opening(format), MembersText(numbers, members, format, old(depth) + 1) + Closing(format, depth));
    }

    /** The key, the value and what follows them. */
    method PrintMember(m: Members<N>)
      requires m.Member?
      modifies this`text, this`depth
      ensures depth == old(depth)
      ensures text == old(text) + Indent(format, depth) + Quoted(m.key) + Colon(format) + Text(numbers, m.value, format, depth) +
                      MemberEnd(m.next.NoMember?, format)
      decreases m, 0
    {
      hide Text, Quoted;
      if format {
        PrintTabs(depth);
      }
      assert text == old(text) + Indent(format, depth);
      PrintString(m.key);
      text := text + (if format then ":\t" else ":");
      PrintValue(m.value);
      text := text + MemberEnd(m.next.NoMember?, format);
    }
  }

  lemma NoMembers<N>(numbers: Numbers<N>, members: Members<N>, format: bool, depth: nat)
    requires members.NoMember?
    ensures MembersText(numbers, members, format, depth) == ""
  {
  }

  lemma ClosingIs(format: bool, level: nat, before: string, after: string)
    requires after == before + (if format then Tabs(level) else "") + "}"
    ensures after == before + Closing(format, level)
  {
    Associate(before, Indent(format, level), "}");
  }

  lemma MemberText<N>(numbers: Numbers<N>, m: Members<N>, format: bool, level: nat, before: string)
    requires m.Member?
    ensures before + Indent(format, level) + Quoted(m.key) + Colon(format) + Text(numbers, m.value, format, level) +
            MemberEnd(m.next.NoMember?, format) + MembersText(numbers, m.next, format, level) == before + MembersText(numbers, m, format, level)
  {
    MembersHead(numbers, m, format, level);
    hide Text, Quoted, MembersText, Indent, Colon, MemberEnd;
    var i, k, d, t := Indent(format, level), Quoted(m.key), Colon(format), Text(numbers, m.value, format, level);
    var e, r := MemberEnd(m.next.NoMember?, format), MembersText(numbers, m.next, format, level);
    Associate(before, i, k);
    Associate(before, i + k, d);
    Associate(before, i + k + d, t);
    Associate(before, i + k + d + t, e);
    Associate(before, i + k + d + t + e, r);
  }

  /** cJSON_Print and cJSON_PrintUnformatted */
  method Print<N>(numbers: Numbers<N>, v: Value<N>, format: bool) returns (text: string)
    ensures text == Text(numbers, v, format, 0)
  {
    var p := new PrintBuffer<N>(numbers, format);
    p.PrintValue(v);
    text := p.text;
  }

  // ---- the parser ----

  /** Results of recursive calls put behind what has been read already. */
  function AfterItems<N>(read: seq<Value<N>>, r: Option<(Items<N>, nat)>): Option<(Items<N>, nat)> {
    if read == [] then r else WithItem(read[0], AfterItems(read[1..], r))
  }

  lemma {:induction false} AfterItemsSnoc<N>(read: seq<Value<N>>, v: Value<N>, r: Option<(Items<N>, nat)>)
    ensures AfterItems(read + [v], r) == AfterItems(read, WithItem(v, r))
  {
    if read == [] {
      assert ([v])[1..] == [];
    } else {
      AfterItemsSnoc(read[1..], v, r);
      assert (read + [v])[1..] == read[1..] + [v];
    }
  }

  function ListItems<N>(read: seq<Value<N>>): Items<N> {
    if read == [] then NoItem else Item(read[0], ListItems(read[1..]))
  }

  lemma {:induction false} AfterItemsList<N>(read: seq<Value<N>>, end: nat)
    ensures AfterItems(read, Some((NoItem, end))) == Some((ListItems(read), end)) && AfterItems(read, None) == None
  {
    if read != [] {
      AfterItemsList(read[1..], end);
    }
  }

  function AfterMembers<N>(read: seq<(string, Value<N>)>, r: Option<(Members<N>, nat)>): Option<(Members<N>, nat)> {
    if read == [] then r else WithMember(read[0].0, read[0].1, AfterMembers(read[1..], r))
  }

  lemma {:induction false} AfterMembersSnoc<N>(read: seq<(string, Value<N>)>, key: string, v: Value<N>, r: Option<(Members<N>, nat)>)
    ensures AfterMembers(read + [(key, v)], r) == AfterMembers(read, WithMember(key, v, r))
  {
    if read == [] {
      assert ([(key, v)])[1..] == [];
    } else {
      AfterMembersSnoc(read[1..], key, v, r);
      assert (read + [(key, v)])[1..] == read[1..] + [(key, v)];
    }
  }

  function ListMembers<N>(read: seq<(string, Value<N>)>): Members<N> {
    if read == [] then NoMember else Member(read[0].0, read[0].1, ListMembers(read[1..]))
  }

  lemma {:induction false} AfterMembersList<N>(read: seq<(string, Value<N>)>, end: nat)
    ensures AfterMembers(read, Some((NoMember, end))) == Some((ListMembers(read), end)) && AfterMembers(read, None) == None
  {
    if read != [] {
      AfterMembersList(read[1..], end);
    }
  }

  /** Whether a result that ok, v and the offset report is the expected one. */
  ghost predicate Reports<T(!new)>(expected: Option<(T, nat)>, ok: bool, v: T, offset: nat) {
    (ok <==> expected.Some?) && (ok ==> expected == Some((v, offset)))
  }

  class ParseBuffer<N(0, !new)> {
    const numbers: Numbers<N>
    const content: string
    var offset: nat
    var depth: nat

    constructor (numbers: Numbers<N>, text: string)
      ensures this.numbers == numbers && content == text + [0 as char] && offset == 0 && depth == 0
    {
      this.numbers, content, offset, depth := numbers, text + [0 as char], 0, 0;
    }

    ghost predicate Ready()
      reads this
    {
      offset < |content| && depth <= NESTING_LIMIT
    }

    /** buffer_skip_whitespace */
    method SkipWhitespace()
      requires content != "" && offset <= |content|
      modifies this`offset
      ensures offset == Skip(content, old(offset))
    {
      while offset < |content| && content[offset] <= ' '
        invariant offset <= |content| && SkipFrom(content, offset) == SkipFrom(content, old(offset))
      {
        offset := offset + 1;
      }
      if offset == |content| {
        offset := offset - 1;
      }
    }

    /** The first loop of parse_string. */
    method FindEnd(start: nat) returns (ok: bool, end: nat, skipped_bytes: nat)
      requires start <= |content|
      ensures StringEnd(content, start) == if ok then Some(end) else None
      ensures ok ==> skipped_bytes == Skips(content, start, end)
    {
      end, skipped_bytes := start, 0;
      ok := true;
      while ok && end < |content| && content[end] != '\"'
        invariant end <= |content|
        invariant StringEnd(content, start) == if ok then StringEnd(content, end) else None
        invariant ok ==> forall e :: end <= e < |content| && StringEnd(content, end) == Some(e) ==>
                    Skips(content, start, e) == skipped_bytes + Skips(content, end, e)
        decreases ok, |content| - end
      {
        if content[end] == '\\' {
          if end + 1 >= |content| {
            ok := false;
          } else {
            skipped_bytes := skipped_bytes + 1;
            end := end + 2;
          }
        } else {
          end := end + 1;
        }
      }
      ok := ok && end < |content|;
    }

    /** The second loop of parse_string, which writes to a buffer that is large enough. */
    method Unescape(start: nat, end: nat, output: array<char>) returns (ok: bool, len: nat)
      requires start <= end < |content| && StringEnd(content, start) == Some(end)
      requires output.Length + Skips(content, start, end) >= end - start
      modifies output
      ensures len <= output.Length && len + Skips(content, start, end) <= end - start
      ensures Decode(content, start, end) == if ok then Some(output[..len]) else None
    {
      hide Utf16, Unescaped, Decode, StringEnd, Skips;
      var i: nat := start;
      ok, len := true, 0;
      ghost var o := start;
      SkipsFew(content, start, end);
      BehindNothing(output[..len], Decode(content, start, end));
      while ok && i < end
        invariant len + Skips(content, start, end) <= end - start
        invariant i <= end ==> Aligned(content, i, o, end) && len + Skips(content, start, end) <= i - start + Skips(content, o, end)
        invariant Decode(content, start, end) == if ok then Behind(output[..len], Decode(content, i, end)) else None
        decreases ok, |content| - i
      {
        var bytes, n := [content[i]], 1;
        if content[i] == '\\' {
          ok, bytes, n := ReadEscape(i, end);
        }
        if ok {
          o := StepFits(content, i, o, end, n, |bytes|);
          DecodeStep(content, i, end, bytes, n);
          BehindTwice(output[..len], bytes, Decode(content, i + n, end));
          ghost var before := output[..len];
          CopyTo(output, len, bytes);
          assert output[..len + |bytes|] == before + bytes;
          len, i := len + |bytes|, i + n;
        }
      }
      BehindNothing(output[..len], None);
      if ok {
        DecodeEnd(content, i, end);
      }
    }

    method CopyTo(output: array<char>, p: nat, bytes: string)
      requires p + |bytes| <= output.Length
      modifies output
      ensures output[..p + |bytes|] == old(output[..p]) + bytes
    {
      for k := 0 to |bytes|
        invariant output[..p + k] == old(output[..p]) + bytes[..k]
      {
        output[p + k] := bytes[k];
      }
    }

    method ReadEscape(i: nat, end: nat) returns (ok: bool, bytes: string, n: nat)
      requires i < end < |content| && content[i] == '\\'
      ensures ok ==> Step(content, i, end, bytes, n)
      ensures ok ==> n >= 2 && n % 2 == 0 && 2 * |bytes| <= n && (i + n <= end || n == 2)
      ensures !ok ==> Decode(content, i, end) == None
    {
      hide Utf16, Unescaped;
      ok, bytes, n := true, "", 2;
      if content[i + 1] == 'u' {
        match Utf16(content, i, end)
        case None => ok := false;
        case Some((b, k)) =>
          Utf16Fits(content, i, end);
          bytes, n := b, k;
      } else {
        match Unescaped(content[i + 1])
        case None => ok := false;
        case Some(x) => bytes := [x];
      }
    }

    /** parse_string; allocation_length is enough for whatever is written */
    method ReadString() returns (ok: bool, s: string)
      requires offset < |content|
      modifies this`offset
      ensures Reports(ParseString(content, old(offset)), ok, s, offset) && offset <= |content|
    {
      hide StringEnd, Decode, Skips;
      ok, s := content[offset] == '\"', "";
      if ok {
        var end, skipped_bytes;
        ok, end, skipped_bytes := FindEnd(offset + 1);
        if ok {
          SkipsFew(content, offset + 1, end);
          var allocation_length := end - offset - skipped_bytes;
          var output := new char[allocation_length + 1];
          var len;
          ok, len := Unescape(offset + 1, end, output);
          if ok {
            output[len] := 0 as char;
            s := CString(output[..len]);
            offset := end + 1;
          }
        }
      }
    }

    /** parse_value */
    method ReadValue() returns (ok: bool, v: Value<N>)
      requires Ready()
      modifies this`offset, this`depth
      ensures Reports(ParseValue(numbers, content, old(offset), old(depth)), ok, v, offset)
      ensures ok ==> depth == old(depth)
      decreases NESTING_LIMIT - depth, |content| + 1 - offset, 1
    {
      hide ParseItems, ParseMembers, ParseString, Skip;
      ok, v := true, Null;
      if StartsWith(content, offset, "null") {
        offset := offset + 4;
      } else if StartsWith(content, offset, "false") {
        v := False;
        offset := offset + 5;
      } else if StartsWith(content, offset, "true") {
        v := True;
        offset := offset + 4;
      } else if content[offset] == '\"' {
        var s;
        ok, s := ReadString();
        v := String(s);
      } else if NumberStart(content[offset]) {
        ok, v := ReadNumber();
      } else if content[offset] == '[' {
        ok, v := ReadArray();
      } else if content[offset] == '{' {
        ok, v := ReadObject();
      } else {
        ok := false;
      }
    }

    /** parse_number, left to the number format */
    method ReadNumber() returns (ok: bool, v: Value<N>)
      requires Ready() && NumberStart(content[offset])
      modifies this`offset
      ensures Reports(ParseValue(numbers, content, old(offset), depth), ok, v, offset)
    {
      hide ParseItems, ParseMembers, ParseString, Skip;
      NoWord(content, offset);
      ok, v := false, Null;
      match numbers.read(content[offset..])
      case None =>
      case Some((n, used)) =>
        if 1 <= used <= |content| - offset {
          ok, v := true, Number(n);
          offset := offset + used;
        }
    }

    /** parse_array */
    method ReadArray() returns (ok: bool, v: Value<N>)
      requires Ready() && content[offset] == '['
      modifies this`offset, this`depth
      ensures Reports(ParseValue(numbers, content, old(offset), old(depth)), ok, v, offset)
      ensures ok ==> depth == old(depth)
      decreases NESTING_LIMIT - depth, |content| + 1 - offset, 0
    {
      hide ParseValue, ParseItems, Skip;
      ValueArray(numbers, content, offset, depth);
      ok, v := depth < NESTING_LIMIT, Null;
      if ok {
        depth := depth + 1;
        offset := offset + 1;
        SkipWhitespace();
        var items := NoItem;
        if content[offset] != ']' {
          ok, items := ReadItems();
        } else {
          offset := offset + 1;
        }
        v := Array(items);
        if ok {
          depth := depth - 1;
        }
      }
    }

    /** The loop over the elements, up to and including the closing bracket. */
    method ReadItems() returns (ok: bool, items: Items<N>)
      requires Ready()
      modifies this`offset, this`depth
      ensures Reports(ParseItems(numbers, content, old(offset), old(depth)), ok, items, offset)
      ensures ok ==> depth == old(depth)
      decreases NESTING_LIMIT - depth, |content| + 1 - offset, 2
    {
      hide ParseValue, ParseItems, Skip;
      ghost var d, whole := depth, ParseItems(numbers, content, offset, depth);
      var read: seq<Value<N>>, more := [], true;
      ok := true;
      while ok && more
        invariant content != "" && (ok ==> depth == d && offset <= |content|)
        invariant ok && more ==> whole == AfterItems(read, ParseItems(numbers, content, offset, d)) && old(offset) <= offset
        invariant ok && !more ==> whole == Some((ListItems(read), offset))
        invariant !ok ==> whole == None
        decreases ok, more, |content| + 1 - offset
      {
        ghost var start := offset;
        SkipWhitespace();
        ghost var p := offset;
        var v;
        AfterItemsList(read, offset);
        ItemsStep(numbers, content, start, d, p);
        ok, v := ReadValue();
        if ok {
          SkipWhitespace();
          AfterItemsSnoc(read, v, ParseItems(numbers, content, offset + 1, d));
          AfterItemsSnoc(read, v, Some((NoItem, offset + 1)));
          read := read + [v];
          more := content[offset] == ',';
          ok := more || content[offset] == ']';
          offset := offset + 1;
          AfterItemsList(read, offset);
        }
      }
      items := ListItems(read);
    }

    /** parse_object */
    method ReadObject() returns (ok: bool, v: Value<N>)
      requires Ready() && content[offset] == '{'
      modifies this`offset, this`depth
      ensures Reports(ParseValue(numbers, content, old(offset), old(depth)), ok, v, offset)
      ensures ok ==> depth == old(depth)
      decreases NESTING_LIMIT - depth, |content| + 1 - offset, 0
    {
      hide ParseValue, ParseMembers, Skip;
      ValueObject(numbers, content, offset, depth);
      ok, v := depth < NESTING_LIMIT, Null;
      if ok {
        depth := depth + 1;
        offset := offset + 1;
        SkipWhitespace();
        var members := NoMember;
        if content[offset] != '}' {
          ok, members := ReadMembers();
        } else {
          offset := offset + 1;
        }
        v := Object(members);
        if ok {
          depth := depth - 1;
        }
      }
    }

    /** A key with its colon, up to the value. */
    method ReadKey() returns (ok: bool, key: string, ghost k: nat, ghost colon: nat)
      requires content != "" && offset <= |content|
      modifies this`offset
      ensures k == Skip(content, old(offset))
      ensures ok <==> ParseString(content, k).Some? && content[Skip(content, ParseString(content, k).value.1)] == ':'
      ensures ok ==> ParseString(content, k).value.0 == key && Skip(content, ParseString(content, k).value.1) == colon && offset == Skip(content, colon + 1)
      ensures ok ==> old(offset) <= colon
      ensures offset <= |content|
    {
      hide ParseString, Skip;
      SkipWhitespace();
      k, colon := offset, 0;
      ok, key := ReadString();
      if ok {
        SkipWhitespace();
        colon := offset;
        ok := content[offset] == ':';
        if ok {
          offset := offset + 1;
          SkipWhitespace();
        }
      }
    }

    /** The loop over the members, up to and including the closing brace. */
    method ReadMembers() returns (ok: bool, members: Members<N>)
      requires Ready()
      modifies this`offset, this`depth
      ensures Reports(ParseMembers(numbers, content, old(offset), old(depth)), ok, members, offset)
      ensures ok ==> depth == old(depth)
      decreases NESTING_LIMIT - depth, |content| + 1 - offset, 2
    {
      hide ParseValue, ParseMembers, ParseString, Skip;
      ghost var d, whole := depth, ParseMembers(numbers, content, offset, depth);
      var read: seq<(string, Value<N>)>, more := [], true;
      ok := true;
      while ok && more
        invariant content != "" && (ok ==> depth == d && offset <= |content|)
        invariant ok && more ==> whole == AfterMembers(read, ParseMembers(numbers, content, offset, d)) && old(offset) <= offset
        invariant ok && !more ==> whole == Some((ListMembers(read), offset))
        invariant !ok ==> whole == None
        decreases ok, more, |content| + 1 - offset
      {
        ghost var start := offset;
        AfterMembersList(read, offset);
        var key, v;
        ghost var k, colon;
        ok, key, k, colon := ReadKey();
        MembersFail(numbers, content, start, d, k);
        if ok {
          MembersStep(numbers, content, start, d, k, key, colon, offset);
          ok, v := ReadValue();
        }
        if ok {
          SkipWhitespace();
          AfterMembersSnoc(read, key, v, ParseMembers(numbers, content, offset + 1, d));
          AfterMembersSnoc(read, key, v, Some((NoMember, offset + 1)));
          read := read + [(key, v)];
          more := content[offset] == ',';
          ok := more || content[offset] == '}';
          offset := offset + 1;
          AfterMembersList(read, offset);
        }
      }
      members := ListMembers(read);
    }
  }

  /** cJSON_ParseWithOpts, requiring that nothing but blanks follow the value */
  method ParseText<N(0, !new)>(numbers: Numbers<N>, text: string) returns (ok: bool, v: Value<N>, end: nat)
    ensures Reports(Parse(numbers, text), ok, v, end)
  {
    hide ParseValue, Skip;
    var buffer := new ParseBuffer<N>(numbers, text);
    buffer.SkipWhitespace();
    ok, v := buffer.ReadValue();
    if ok {
      buffer.SkipWhitespace();
      ok := buffer.content[buffer.offset] == 0 as char;
    }
    end := buffer.offset;
  }

  /** Printing and parsing again gives the value back, exactly up to the nesting limit. */
  method PrintAndParse<N(0, !new)>(numbers: Numbers<N>, v: Value<N>, format: bool) returns (ok: bool, w: Value<N>)
    requires Printable(numbers, v)
    ensures ok <==> Depth(v) <= NESTING_LIMIT
    ensures ok ==> w == v
  {
    hide Parse, Text, Printable;
    RoundTrip(numbers, v, format);
    var text := Print(numbers, v, format);
    var end;
    ok, w, end := ParseText(numbers, text);
  }

  /** One step of the decoding loop: bytes come out and n characters are used. */
  ghost predicate Step(c: string, i: nat, end: nat, bytes: string, n: nat)
    requires i < end < |c|
  {
    n > 0 && Decode(c, i, end) == Behind(bytes, Decode(c, i + n, end))
  }

  lemma DecodeStep(c: string, i: nat, end: nat, bytes: string, n: nat)
    requires i < end < |c|
    requires if c[i] == '\\' then Step(c, i, end, bytes, n) else bytes == [c[i]] && n == 1
    ensures Step(c, i, end, bytes, n)
  {
  }

  lemma DecodeEnd(c: string, i: nat, end: nat)
    requires end < |c| && i >= end
    ensures Decode(c, i, end) == Some("")
  {
  }
}
