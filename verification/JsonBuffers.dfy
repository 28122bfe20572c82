/** cJSON's parse and print buffers: the recursive descent moves an offset and a depth, the printer appends text. */
module JsonBuffers {
  import opened Wire
  import opened Seqs
  import opened Json
  import opened JsonValues

  class ParseBuffer {
    const content: seq<byte>
    var offset: nat
    var depth: nat

    constructor (content: seq<byte>)
      ensures this.content == content && offset == 0 && depth == 0
    {
      this.content := content;
      offset, depth := 0, 0;
    }

    method SkipWhitespace()
      requires offset <= |content|
      modifies this`offset
      ensures offset == Skip(content, old(offset))
    {
      if offset == |content| {
        return;
      }
      while offset < |content| && content[offset] <= 32
        invariant old(offset) <= offset <= |content| && SkipFrom(content, old(offset)) == SkipFrom(content, offset)
      {
        offset := offset + 1;
      }
      if offset == |content| {
        offset := offset - 1;
      }
    }

    /** Finds the closing quote. */
    method ScanString(start: nat) returns (end: Option<nat>)
      requires start <= |content|
      ensures end == FindEnd(content, start)
    {
      var e := start;
      while e < |content| && content[e] != QUOTE
        invariant start <= e <= |content| && FindEnd(content, start) == FindEnd(content, e)
      {
        if content[e] == BACKSLASH {
          if e + 1 >= |content| {
            return None;
          }
          e := e + 1;
        }
        e := e + 1;
      }
      end := if e < |content| then Some(e) else None;
    }

    /** Copies the string and replaces its escape sequences. */
    method CopyString(start: nat, end: nat) returns (bytes: Option<seq<byte>>)
      requires end < |content|
      ensures bytes == Unescape(content, start, end)
    {
      var i, out := start, [];
      BehindNothing(Unescape(content, start, end));
      while i < end
        invariant Unescape(content, start, end) == Behind(out, Unescape(content, i, end))
        decreases end - i
      {
        hide Unescaped;
        if content[i] != BACKSLASH {
          ghost var rest := Unescape(content, i + 1, end);
          BehindBehind(out, [content[i]], rest);
          out, i := out + [content[i]], i + 1;
        } else {
          var u := Unescaped(content, i, end);
          if u.None? {
            return None;
          }
          ghost var rest := Unescape(content, i + u.value.1, end);
          BehindBehind(out, u.value.0, rest);
          out, i := out + u.value.0, i + u.value.1;
        }
      }
      assert out + [] == out;
      bytes := Some(out);
    }

    method ReadString() returns (str: Option<seq<byte>>)
      requires offset <= |content|
      modifies this`offset
      ensures var r := ParseString(content, old(offset));
              if r.None? then str.None? else str == Some(r.value.0) && offset == r.value.1
    {
      hide Unescape;
      str := None;
      if offset == |content| || content[offset] != QUOTE {
        return;
      }
      var end := ScanString(offset + 1);
      if end.None? {
        return;
      }
      var bytes := CopyString(offset + 1, end.value);
      if bytes.None? {
        return;
      }
      str, offset := Some(CString(bytes.value)), end.value + 1;
    }

    /** Whether the value read is what `ParseValue` gives, and where the buffer then stands. */
    ghost predicate Agrees<T>(r: Option<(T, nat)>, got: Option<T>, depth0: nat)
      reads this
    {
      if r.None? then got.None? else got == Some(r.value.0) && offset == r.value.1 && depth == depth0
    }

    method ReadValue() returns (v: Option<Value>)
      requires offset <= |content|
      modifies this`offset, this`depth
      ensures Agrees(ParseValue(content, old(offset), old(depth)), v, old(depth))
      decreases |content| - offset, 3
    {
      hide ParseString, ParseArray, ParseObject;
      if StartsWith(content, offset, NullText()) {
        v, offset := Some(Null), offset + 4;
      } else if StartsWith(content, offset, FalseText()) {
        v, offset := Some(False), offset + 5;
      } else if StartsWith(content, offset, TrueText()) {
        v, offset := Some(True), offset + 4;
      } else if At(content, offset, QUOTE) {
        var str := ReadString();
        v := if str.Some? then Some(Str(str.value)) else None;
      } else if At(content, offset, OPEN_ARRAY) {
        v := ReadArray();
      } else if At(content, offset, OPEN_OBJECT) {
        v := ReadObject();
      } else {
        v := None;
      }
    }

    method ReadArray() returns (v: Option<Value>)
      requires offset < |content|
      modifies this`offset, this`depth
      ensures Agrees(ParseArray(content, old(offset), old(depth)), v, old(depth))
      decreases |content| - offset, 2
    {
      hide Skip, ParseItems;
      v := None;
      if depth >= NESTING_LIMIT {
        return;
      }
      depth, offset := depth + 1, offset + 1;
      SkipWhitespace();
      if At(content, offset, CLOSE_ARRAY) {
        v, depth, offset := Some(Arr([])), depth - 1, offset + 1;
        return;
      }
      if offset >= |content| {
        return;
      }
      offset := offset - 1;
      var items := ReadItems();
      if items.Some? {
        v, depth := Some(Arr(items.value)), depth - 1;
      }
    }

    /** The items of an array, one after the other. */
    method ReadItems() returns (items: Option<seq<Value>>)
      requires offset < |content|
      modifies this`offset, this`depth
      ensures Agrees(ParseItems(content, old(offset), old(depth)), items, old(depth))
      decreases |content| - offset, 1
    {
      hide Skip, ParseValue;
      var list := [];
      ghost var all := ParseItems(content, offset, depth);
      ContinuedNothing(all);
      while true
        invariant old(offset) <= offset < |content| && depth == old(depth)
        invariant all == Continued(list, ParseItems(content, offset, depth))
        decreases |content| - offset
      {
        ghost var start := offset;
        offset := offset + 1;
        SkipWhitespace();
        var v := ReadValue();
        if v.None? {
          return None;
        }
        SkipWhitespace();
        if At(content, offset, COMMA) {
          ContinuedLonger(list, v.value, ParseItems(content, offset, depth));
          list := list + [v.value];
        } else {
          items := if At(content, offset, CLOSE_ARRAY) then Some(list + [v.value]) else None;
          offset := offset + 1;
          return;
        }
      }
    }

    method ReadObject() returns (v: Option<Value>)
      requires offset < |content|
      modifies this`offset, this`depth
      ensures Agrees(ParseObject(content, old(offset), old(depth)), v, old(depth))
      decreases |content| - offset, 2
    {
      hide Skip, ParseMembers;
      v := None;
      if depth >= NESTING_LIMIT {
        return;
      }
      depth, offset := depth + 1, offset + 1;
      SkipWhitespace();
      if At(content, offset, CLOSE_OBJECT) {
        v, depth, offset := Some(Obj([])), depth - 1, offset + 1;
        return;
      }
      if offset >= |content| {
        return;
      }
      offset := offset - 1;
      var members := ReadMembers();
      if members.Some? {
        v, depth := Some(Obj(members.value)), depth - 1;
      }
    }

    /** A key, a colon and a value. */
    method ReadMember() returns (m: Option<Member>)
      requires offset < |content|
      modifies this`offset, this`depth
      ensures Agrees(ParseMember(content, old(offset), old(depth)), m, old(depth))
      decreases |content| - offset, 0
    {
      hide Skip, ParseValue, ParseString;
      offset := offset + 1;
      SkipWhitespace();
      var key := ReadString();
      if key.None? {
        return None;
      }
      SkipWhitespace();
      if !At(content, offset, COLON) {
        return None;
      }
      offset := offset + 1;
      SkipWhitespace();
      var v := ReadValue();
      m := if v.Some? then Some(Member(key.value, v.value)) else None;
    }

    /** The members of an object, one after the other. */
    method ReadMembers() returns (members: Option<seq<Member>>)
      requires offset < |content|
      modifies this`offset, this`depth
      ensures Agrees(ParseMembers(content, old(offset), old(depth)), members, old(depth))
      decreases |content| - offset, 1
    {
      hide Skip, ParseMember;
      var list := [];
      ghost var all := ParseMembers(content, offset, depth);
      ContinuedNothing(all);
      while true
        invariant old(offset) <= offset < |content| && depth == old(depth)
        invariant all == Continued(list, ParseMembers(content, offset, depth))
        decreases |content| - offset
      {
        var m := ReadMember();
        if m.None? {
          return None;
        }
        SkipWhitespace();
        if At(content, offset, COMMA) {
          ContinuedLonger(list, m.value, ParseMembers(content, offset, depth));
          list := list + [m.value];
        } else {
          members := if At(content, offset, CLOSE_OBJECT) then Some(list + [m.value]) else None;
          offset := offset + 1;
          return;
        }
      }
    }
  }

  function Behind(out: seq<byte>, rest: Option<seq<byte>>): Option<seq<byte>>
  {
    if rest.Some? then Some(out + rest.value) else None
  }

  lemma BehindBehind(out: seq<byte>, more: seq<byte>, rest: Option<seq<byte>>)
    ensures Behind(out, Behind(more, rest)) == Behind(out + more, rest)
  {
    if rest.Some? {
      Associates(out, more, rest.value);
    }
  }

  /** Items read so far and those still to come. */
  function Continued<T>(list: seq<T>, rest: Option<(seq<T>, nat)>): Option<(seq<T>, nat)>
  {
    if rest.Some? then Some((list + rest.value.0, rest.value.1)) else None
  }

  lemma ContinuedLonger<T>(list: seq<T>, v: T, rest: Option<(seq<T>, nat)>)
    ensures Continued(list, Continued([v], rest)) == Continued(list + [v], rest)
  {
    if rest.Some? {
      Associates(list, [v], rest.value.0);
    }
  }

  lemma BehindNothing(rest: Option<seq<byte>>)
    ensures Behind([], rest) == rest
  {
    if rest.Some? {
      assert [] + rest.value == rest.value;
    }
  }

  lemma ContinuedNothing<T>(rest: Option<(seq<T>, nat)>)
    ensures Continued([], rest) == rest
  {
    if rest.Some? {
      assert [] + rest.value.0 == rest.value.0;
    }
  }

  /** Parses the C string `text`. */
  method ParseWithOpts(text: seq<byte>, whole: bool) returns (v: Option<Value>)
    ensures v == Parse(text, whole)
  {
    hide Skip, ParseValue;
    var buffer := new ParseBuffer(CString(text) + [0]);
    buffer.offset := SkipBom(buffer.content);
    buffer.SkipWhitespace();
    v := buffer.ReadValue();
    if v.Some? && whole {
      buffer.SkipWhitespace();
      if !At(buffer.content, buffer.offset, 0) {
        v := None;
      }
    }
  }

  // ---------- the printer ----------

  class PrintBuffer {
    var text: seq<byte>
    var depth: nat
    const format: bool

    constructor (format: bool)
      ensures this.format == format && text == [] && depth == 0
    {
      this.format := format;
      text, depth := [], 0;
    }

    /** Counts the characters that need escaping, then copies the string with or without escaping. */
    method WriteString(s: seq<byte>)
      modifies this`text
      ensures text == old(text) + PrintString(s)
    {
      hide Escape;
      var escapes := 0;
      for i := 0 to |s|
        invariant text == old(text) && escapes >= 0 && (escapes == 0 ==> EscapeAll(s[..i]) == s[..i])
      {
        if |Escape(s[i])| > 1 {
          escapes := escapes + |Escape(s[i])| - 1;
        } else {
          PlainCharacter(s[i]);
          EscapeAllStep(s, i);
        }
      }
      assert s[..|s|] == s;
      if escapes == 0 {
        assert EscapeAll(s) == s;
        text := text + ([QUOTE] + s + [QUOTE]);
        return;
      }
      ghost var start := text;
      text := text + [QUOTE];
      for i := 0 to |s|
        invariant text == start + ([QUOTE] + EscapeAll(s[..i]))
      {
        EscapeAllStep(s, i);
        text := text + Escape(s[i]);
      }
      text := text + [QUOTE];
    }

    method WriteTabs(n: nat)
      modifies this`text
      ensures text == old(text) + Tabs(n)
    {
      for i := 0 to n
        invariant text == old(text) + Tabs(i)
      {
        text := text + [TAB];
      }
    }

    method WriteValue(v: Value)
      modifies this`text, this`depth
      ensures text == old(text) + Print(v, depth, format) && depth == old(depth)
      decreases v, 1
    {
      match v {
        case Null => text := text + NullText();
        case False => text := text + FalseText();
        case True => text := text + TrueText();
        case Str(s) => WriteString(s);
        case Arr(items) => WriteArray(items);
        case Obj(members) => WriteObject(members);
      }
    }

    method WriteArray(items: seq<Value>)
      modifies this`text, this`depth
      ensures text == old(text) + Print(Arr(items), depth, format) && depth == old(depth)
      decreases items, 1
    {
      hide PrintItems;
      text := text + [OPEN_ARRAY];
      depth := depth + 1;
      WriteItems(items);
      text := text + [CLOSE_ARRAY];
      depth := depth - 1;
      ArrayText(old(text), items, depth, format);
    }

    method WriteItems(items: seq<Value>)
      modifies this`text, this`depth
      ensures text == old(text) + PrintItems(items, depth, format) && depth == old(depth)
      decreases items, 0
    {
      hide Print, PrintItems;
      ghost var all := text + PrintItems(items, depth, format);
      assert items[0..] == items;
      for i := 0 to |items|
        invariant depth == old(depth) && text + PrintItems(items[i..], depth, format) == all
      {
        ItemsStep(text, items, i, depth, format);
        WriteValue(items[i]);
        if i + 1 < |items| {
          text := text + ([COMMA] + If(format, [SPACE]));
        }
      }
      NothingLeft(text, items, depth, format);
    }

    method WriteObject(members: seq<Member>)
      modifies this`text, this`depth
      ensures text == old(text) + Print(Obj(members), depth, format) && depth == old(depth)
      decreases members, 1
    {
      hide PrintMembers, Print;
      text := text + [OPEN_OBJECT];
      depth := depth + 1;
      text := text + If(format, [NEWLINE]);
      WriteMembers(members);
      if format {
        WriteTabs(depth - 1);
      }
      text := text + [CLOSE_OBJECT];
      depth := depth - 1;
      ObjectText(old(text), members, depth, format);
    }

    method WriteMembers(members: seq<Member>)
      modifies this`text, this`depth
      ensures text == old(text) + PrintMembers(members, depth, format) && depth == old(depth)
      decreases members, 0
    {
      hide Print, PrintMembers, PrintString;
      ghost var all := text + PrintMembers(members, depth, format);
      assert members[0..] == members;
      for i := 0 to |members|
        invariant depth == old(depth) && text + PrintMembers(members[i..], depth, format) == all
      {
        ghost var before := text;
        MembersStep(before, members, i, depth, format);
        if format {
          WriteTabs(depth);
        }
        WriteString(members[i].key);
        text := text + ([COLON] + If(format, [TAB]));
        WriteValue(members[i].value);
        text := text + (If(i + 1 < |members|, [COMMA]) + If(format, [NEWLINE]));
        assert (if format then before + Tabs(depth) else before) == before + If(format, Tabs(depth));
      }
      NothingElse(text, members, depth, format);
    }
  }

  lemma ArrayText(text: seq<byte>, items: seq<Value>, depth: nat, format: bool)
    ensures text + [OPEN_ARRAY] + PrintItems(items, depth + 1, format) + [CLOSE_ARRAY] == text + Print(Arr(items), depth, format)
  {
  }

  lemma ItemsStep(text: seq<byte>, items: seq<Value>, i: nat, depth: nat, format: bool)
    requires i < |items|
    ensures text + PrintItems(items[i..], depth, format)
         == text + Print(items[i], depth, format) + If(i + 1 < |items|, [COMMA] + If(format, [SPACE])) + PrintItems(items[i + 1..], depth, format)
  {
    hide Print;
    assert items[i..][1..] == items[i + 1..];
    if i + 1 == |items| {
      assert items[i + 1..] == [];
    }
  }

  lemma NothingLeft(text: seq<byte>, items: seq<Value>, depth: nat, format: bool)
    ensures text + PrintItems(items[|items|..], depth, format) == text
  {
  }

  lemma ObjectText(text: seq<byte>, members: seq<Member>, depth: nat, format: bool)
    ensures text + [OPEN_OBJECT] + If(format, [NEWLINE]) + PrintMembers(members, depth + 1, format) + If(format, Tabs(depth)) + [CLOSE_OBJECT]
         == text + Print(Obj(members), depth, format)
  {
    hide PrintMembers;
    FlattenFive([OPEN_OBJECT], If(format, [NEWLINE]), PrintMembers(members, depth + 1, format), If(format, Tabs(depth)), [CLOSE_OBJECT]);
    FiveBehind(text, [OPEN_OBJECT], If(format, [NEWLINE]), PrintMembers(members, depth + 1, format), If(format, Tabs(depth)), [CLOSE_OBJECT]);
  }

  lemma FiveBehind(x: seq<byte>, a: seq<byte>, b: seq<byte>, c: seq<byte>, d: seq<byte>, e: seq<byte>)
    ensures x + a + b + c + d + e == x + (a + b + c + d + e)
  {
  }

  lemma MembersStep(text: seq<byte>, members: seq<Member>, i: nat, depth: nat, format: bool)
    requires i < |members|
    ensures text + PrintMembers(members[i..], depth, format)
         == text + If(format, Tabs(depth)) + PrintString(members[i].key) + ([COLON] + If(format, [TAB])) + Print(members[i].value, depth, format)
            + (If(i + 1 < |members|, [COMMA]) + If(format, [NEWLINE])) + PrintMembers(members[i + 1..], depth, format)
  {
    hide Print, PrintString, If;
    var rest := members[i..];
    assert rest[1..] == members[i + 1..];
    var tabs, key, colon, value := If(format, Tabs(depth)), PrintString(members[i].key), [COLON] + If(format, [TAB]), Print(members[i].value, depth, format);
    var gap, others := If(i + 1 < |members|, [COMMA]) + If(format, [NEWLINE]), PrintMembers(members[i + 1..], depth, format);
    FlattenFive(tabs, key, colon, value, gap + others);
    FiveBehind(text, tabs, key, colon, value, gap + others);
    Associates(text + tabs + key + colon + value, gap, others);
  }

  lemma NothingElse(text: seq<byte>, members: seq<Member>, depth: nat, format: bool)
    ensures text + PrintMembers(members[|members|..], depth, format) == text
  {
  }

  lemma PlainCharacter(b: byte)
    requires |Escape(b)| <= 1
    ensures Escape(b) == [b]
  {
  }

  lemma {:induction false} EscapeAllConcat(a: seq<byte>, b: seq<byte>)
    ensures EscapeAll(a + b) == EscapeAll(a) + EscapeAll(b)
  {
    if a == [] {
      assert a + b == b;
    } else {
      assert (a + b)[1..] == a[1..] + b;
      EscapeAllConcat(a[1..], b);
    }
  }

  lemma EscapeAllStep(s: seq<byte>, i: nat)
    requires i < |s|
    ensures EscapeAll(s[..i + 1]) == EscapeAll(s[..i]) + Escape(s[i]) && s[..i + 1] == s[..i] + [s[i]]
  {
    assert s[..i + 1] == s[..i] + [s[i]];
    EscapeAllConcat(s[..i], [s[i]]);
    assert [s[i]][1..] == [];
  }

  /** Prints a value in one of the two layouts; parsing gives it back if it is not nested too deep. */
  method PrintText(v: Value, format: bool) returns (text: seq<byte>)
    ensures text == Print(v, 0, format)
    ensures Clean(v) ==> forall whole :: Parse(text, whole) == if Nesting(v) <= NESTING_LIMIT then Some(v) else None
  {
    hide Clean, Nesting, Parse, Print;
    if Clean(v) {
      JsonRoundTrip(v, format, true);
      JsonRoundTrip(v, format, false);
    }
    var buffer := new PrintBuffer(format);
    buffer.WriteValue(v);
    text := buffer.text;
    assert [] + Print(v, 0, format) == Print(v, 0, format);
  }
}
