/** Values: cJSON's recursive parser and its printer with two layouts. */
module JsonValues {
  import opened Wire
  import opened Seqs
  import opened Json

  // ---------- the parser ----------

  function SkipFrom(s: seq<byte>, p: nat): (q: nat)
    requires p <= |s|
    ensures p <= q <= |s| && forall i :: p <= i < q ==> s[i] <= 32
    ensures q < |s| ==> s[q] > 32
    decreases |s| - p
  {
    if p < |s| && s[p] <= 32 then SkipFrom(s, p + 1) else p
  }

  /** Skips white space, but never past the last byte of the buffer. */
  function Skip(s: seq<byte>, p: nat): (q: nat)
    requires p <= |s|
    ensures p <= q <= |s|
  {
    if p == |s| then p
    else
      var q := SkipFrom(s, p);
      if q == |s| then q - 1 else q
  }

  predicate StartsWith(s: seq<byte>, p: nat, text: seq<byte>)
  {
    p + |text| <= |s| && s[p..p + |text|] == text
  }

  predicate At(s: seq<byte>, p: nat, b: byte)
  {
    p < |s| && s[p] == b
  }

  /** A value and the position behind it; `d` arrays and objects are open. Numbers are not part of the model. */
  function ParseValue(s: seq<byte>, p: nat, d: nat): (r: Option<(Value, nat)>)
    requires p <= |s|
    ensures r.Some? ==> p < r.value.1 <= |s|
    decreases |s| - p, 3
  {
    if StartsWith(s, p, NullText()) then Some((Null, p + 4))
    else if StartsWith(s, p, FalseText()) then Some((False, p + 5))
    else if StartsWith(s, p, TrueText()) then Some((True, p + 4))
    else if At(s, p, QUOTE) then
      match ParseString(s, p)
      case None => None
      case Some((str, q)) => Some((Str(str), q))
    else if At(s, p, OPEN_ARRAY) then ParseArray(s, p, d)
    else if At(s, p, OPEN_OBJECT) then ParseObject(s, p, d)
    else None
  }

  function ParseArray(s: seq<byte>, p: nat, d: nat): (r: Option<(Value, nat)>)
    requires p < |s|
    ensures r.Some? ==> p < r.value.1 <= |s|
    decreases |s| - p, 2
  {
    if d >= NESTING_LIMIT then None
    else
      var q := Skip(s, p + 1);
      if At(s, q, CLOSE_ARRAY) then Some((Arr([]), q + 1))
      else if q >= |s| then None
      else
        match ParseItems(s, q - 1, d + 1)
        case None => None
        case Some((items, e)) => Some((Arr(items), e))
  }

  /** The items of an array behind the bracket or comma at `p`. */
  function ParseItems(s: seq<byte>, p: nat, d: nat): (r: Option<(seq<Value>, nat)>)
    requires p < |s|
    ensures r.Some? ==> p < r.value.1 <= |s|
    decreases |s| - p, 1
  {
    match ParseValue(s, Skip(s, p + 1), d)
    case None => None
    case Some((v, e)) =>
      var q := Skip(s, e);
      if At(s, q, COMMA) then
        match ParseItems(s, q, d)
        case None => None
        case Some((rest, f)) => Some(([v] + rest, f))
      else if At(s, q, CLOSE_ARRAY) then Some(([v], q + 1))
      else None
  }

  function ParseObject(s: seq<byte>, p: nat, d: nat): (r: Option<(Value, nat)>)
    requires p < |s|
    ensures r.Some? ==> p < r.value.1 <= |s|
    decreases |s| - p, 2
  {
    if d >= NESTING_LIMIT then None
    else
      var q := Skip(s, p + 1);
      if At(s, q, CLOSE_OBJECT) then Some((Obj([]), q + 1))
      else if q >= |s| then None
      else
        match ParseMembers(s, q - 1, d + 1)
        case None => None
        case Some((members, e)) => Some((Obj(members), e))
  }

  /** A key, a colon and a value behind the brace or comma at `p`. */
  function ParseMember(s: seq<byte>, p: nat, d: nat): (r: Option<(Member, nat)>)
    requires p < |s|
    ensures r.Some? ==> p < r.value.1 <= |s|
    decreases |s| - p, 0
  {
    match ParseString(s, Skip(s, p + 1))
    case None => None
    case Some((key, k)) =>
      var c := Skip(s, k);
      if !At(s, c, COLON) then None
      else
        match ParseValue(s, Skip(s, c + 1), d)
        case None => None
        case Some((v, e)) => Some((Member(key, v), e))
  }

  /** The members of an object behind the brace or comma at `p`. */
  function ParseMembers(s: seq<byte>, p: nat, d: nat): (r: Option<(seq<Member>, nat)>)
    requires p < |s|
    ensures r.Some? ==> p < r.value.1 <= |s|
    decreases |s| - p, 1
  {
    match ParseMember(s, p, d)
    case None => None
    case Some((m, e)) =>
      var q := Skip(s, e);
      if At(s, q, COMMA) then
        match ParseMembers(s, q, d)
        case None => None
        case Some((rest, f)) => Some(([m] + rest, f))
      else if At(s, q, CLOSE_OBJECT) then Some(([m], q + 1))
      else None
  }

  /** The position behind a byte order mark. */
  function SkipBom(s: seq<byte>): nat
  {
    if 4 < |s| && s[..3] == [0xEF, 0xBB, 0xBF] then 3 else 0
  }

  /** Parses the C string `text`; with `whole`, nothing but white space may follow the value. */
  function Parse(text: seq<byte>, whole: bool): Option<Value>
  {
    var s := CString(text) + [0];
    match ParseValue(s, Skip(s, SkipBom(s)), 0)
    case None => None
    case Some((v, e)) => if whole && !At(s, Skip(s, e), 0) then None else Some(v)
  }

  // ---------- the printer ----------

  function Tabs(n: nat): (r: seq<byte>)
    ensures |r| == n && forall i :: 0 <= i < n ==> r[i] == TAB
  {
    seq(n, i => TAB)
  }

  function If(b: bool, s: seq<byte>): seq<byte>
  {
    if b then s else []
  }

  function Print(v: Value, depth: nat, format: bool): seq<byte>
    decreases v
  {
    match v
    case Null => NullText()
    case False => FalseText()
    case True => TrueText()
    case Str(s) => PrintString(s)
    case Arr(items) => [OPEN_ARRAY] + PrintItems(items, depth + 1, format) + [CLOSE_ARRAY]
    case Obj(members) =>
      Flatten([[OPEN_OBJECT], If(format, [NEWLINE]), PrintMembers(members, depth + 1, format), If(format, Tabs(depth)), [CLOSE_OBJECT]])
  }

  function PrintItems(items: seq<Value>, depth: nat, format: bool): seq<byte>
    decreases items
  {
    if items == [] then []
    else if |items| == 1 then Print(items[0], depth, format)
    else Print(items[0], depth, format) + ([COMMA] + If(format, [SPACE]) + PrintItems(items[1..], depth, format))
  }

  function PrintMembers(members: seq<Member>, depth: nat, format: bool): seq<byte>
    decreases members
  {
    if members == [] then []
    else
      Flatten([If(format, Tabs(depth)), PrintString(members[0].key), [COLON] + If(format, [TAB]), Print(members[0].value, depth, format),
               If(|members| > 1, [COMMA]) + If(format, [NEWLINE]) + PrintMembers(members[1..], depth, format)])
  }

  // ---------- nesting ----------

  function Max(a: nat, b: nat): nat
  {
    if a > b then a else b
  }

  function Nesting(v: Value): nat
    decreases v
  {
    match v
    case Arr(items) => 1 + ItemsNesting(items)
    case Obj(members) => 1 + MembersNesting(members)
    case _ => 0
  }

  function ItemsNesting(items: seq<Value>): nat
    decreases items
  {
    if items == [] then 0 else Max(Nesting(items[0]), ItemsNesting(items[1..]))
  }

  function MembersNesting(members: seq<Member>): nat
    decreases members
  {
    if members == [] then 0 else Max(Nesting(members[0].value), MembersNesting(members[1..]))
  }

  /** All strings and keys are C strings. */
  predicate Clean(v: Value)
    decreases v
  {
    match v
    case Str(s) => NulFree(s)
    case Arr(items) => CleanItems(items)
    case Obj(members) => CleanMembers(members)
    case _ => true
  }

  predicate CleanItems(items: seq<Value>)
    decreases items
  {
    items == [] || (Clean(items[0]) && CleanItems(items[1..]))
  }

  predicate CleanMembers(members: seq<Member>)
    decreases members
  {
    members == [] || (NulFree(members[0].key) && Clean(members[0].value) && CleanMembers(members[1..]))
  }

  // ---------- the round trip ----------

  /** From `p` to `q` there is white space only. */
  ghost predicate Blank(s: seq<byte>, p: nat, q: nat)
  {
    p <= q <= |s| && forall i :: p <= i < q ==> s[i] <= 32
  }

  lemma SkipsTo(s: seq<byte>, p: nat, q: nat)
    requires Blank(s, p, q) && q < |s| && s[q] > 32
    ensures Skip(s, p) == q
  {
  }

  lemma BlankCarried(s: seq<byte>, p: nat, w: seq<byte>)
    requires Carries(s, p, w) && forall i :: 0 <= i < |w| ==> w[i] <= 32
    ensures Blank(s, p, p + |w|)
  {
    forall i | p <= i < p + |w|
      ensures s[i] <= 32
    {
      assert s[p + (i - p)] == w[i - p];
    }
  }

  lemma BlanksJoin(s: seq<byte>, p: nat, q: nat, r: nat)
    requires Blank(s, p, q) && Blank(s, q, r)
    ensures Blank(s, p, r)
  {
  }

  lemma FirstCarried(s: seq<byte>, p: nat, w: seq<byte>)
    requires Carries(s, p, w) && |w| > 0
    ensures p < |s| && s[p] == w[0]
  {
    assert s[p + 0] == w[0];
  }

  /** Each kind of value is told by its first byte. */
  function FirstByte(v: Value): byte
  {
    match v
    case Null => 110
    case False => 102
    case True => 116
    case Str(_) => QUOTE
    case Arr(_) => OPEN_ARRAY
    case Obj(_) => OPEN_OBJECT
  }

  lemma PrintStarts(v: Value, depth: nat, format: bool)
    ensures |Print(v, depth, format)| > 0 && Print(v, depth, format)[0] == FirstByte(v)
  {
    match v
    case Obj(members) =>
      FlattenFive([OPEN_OBJECT], If(format, [NEWLINE]), PrintMembers(members, depth + 1, format), If(format, Tabs(depth)), [CLOSE_OBJECT]);
    case _ =>
  }

  lemma TextAt(s: seq<byte>, p: nat, text: seq<byte>)
    requires Carries(s, p, text)
    ensures StartsWith(s, p, text)
  {
    CarriesSlice(s, p, text);
  }

  lemma NotText(s: seq<byte>, p: nat, text: seq<byte>)
    requires |text| > 0 && p < |s| && s[p] != text[0]
    ensures !StartsWith(s, p, text)
  {
    if p + |text| <= |s| {
      assert s[p..p + |text|][0] == s[p];
    }
  }

  /** Words are told by their first byte, and so are the other values. */
  lemma Dispatch(s: seq<byte>, p: nat, v: Value)
    requires p < |s| && s[p] == FirstByte(v)
    ensures !v.Null? ==> !StartsWith(s, p, NullText())
    ensures !v.False? ==> !StartsWith(s, p, FalseText())
    ensures !v.True? ==> !StartsWith(s, p, TrueText())
  {
    if !v.Null? {
      NotText(s, p, NullText());
    }
    if !v.False? {
      NotText(s, p, FalseText());
    }
    if !v.True? {
      NotText(s, p, TrueText());
    }
  }

  /** What parsing a printed value gives: the value unless it is nested too deeply. */
  function Outcome<T>(fits: bool, v: T, end: nat): Option<(T, nat)>
  {
    if fits then Some((v, end)) else None
  }

  lemma {:induction false} ParsesValue(s: seq<byte>, p: nat, d: nat, v: Value, depth: nat, format: bool)
    requires Clean(v) && Carries(s, p, Print(v, depth, format))
    ensures p <= |s|
    ensures ParseValue(s, p, d) == Outcome(d + Nesting(v) <= NESTING_LIMIT || Nesting(v) == 0, v, p + |Print(v, depth, format)|)
    decreases v, 1
  {
    var text := Print(v, depth, format);
    PrintStarts(v, depth, format);
    FirstCarried(s, p, text);
    Dispatch(s, p, v);
    match v
    case Null => TextAt(s, p, NullText());
    case False => TextAt(s, p, FalseText());
    case True => TextAt(s, p, TrueText());
    case Str(str) => ParsesString(s, p, str);
    case Arr(items) => ParsesArray(s, p, d, items, depth, format);
    case Obj(members) => ParsesObject(s, p, d, members, depth, format);
  }

  lemma ArrayResult(s: seq<byte>, p: nat, d: nat, items: seq<Value>, end: nat)
    requires p + 1 < |s| && Skip(s, p + 1) == p + 1 && !At(s, p + 1, CLOSE_ARRAY)
    requires d < NESTING_LIMIT ==> ParseItems(s, p, d + 1) == Outcome(d + 1 + ItemsNesting(items) <= NESTING_LIMIT, items, end)
    ensures ParseArray(s, p, d) == Outcome(d + Nesting(Arr(items)) <= NESTING_LIMIT, Arr(items), end)
  {
    hide Skip, ParseItems, ItemsNesting;
  }

  lemma ObjectResult(s: seq<byte>, p: nat, k: nat, d: nat, members: seq<Member>, end: nat)
    requires p + 1 <= k < |s| && Skip(s, p + 1) == k && !At(s, k, CLOSE_OBJECT)
    requires d < NESTING_LIMIT ==> ParseMembers(s, k - 1, d + 1) == Outcome(d + 1 + MembersNesting(members) <= NESTING_LIMIT, members, end)
    ensures ParseObject(s, p, d) == Outcome(d + Nesting(Obj(members)) <= NESTING_LIMIT, Obj(members), end)
  {
    hide Skip, ParseMembers, MembersNesting;
  }

  lemma EmptyArray(s: seq<byte>, p: nat, d: nat, items: seq<Value>)
    requires items == [] && p < |s| && At(s, p + 1, CLOSE_ARRAY)
    ensures ParseArray(s, p, d) == Outcome(d + Nesting(Arr(items)) <= NESTING_LIMIT, Arr(items), p + 2)
  {
    NoBlank(s, p + 1);
    SkipsTo(s, p + 1, p + 1);
    hide Skip, ParseItems;
  }

  lemma EmptyObject(s: seq<byte>, p: nat, k: nat, d: nat, members: seq<Member>)
    requires members == [] && p + 1 <= k && Blank(s, p + 1, k) && At(s, k, CLOSE_OBJECT)
    ensures ParseObject(s, p, d) == Outcome(d + Nesting(Obj(members)) <= NESTING_LIMIT, Obj(members), k + 1)
  {
    SkipsTo(s, p + 1, k);
    hide Skip, ParseMembers;
  }

  lemma {:induction false} ParsesArray(s: seq<byte>, p: nat, d: nat, items: seq<Value>, depth: nat, format: bool)
    requires CleanItems(items) && Carries(s, p, Print(Arr(items), depth, format)) && p < |s|
    ensures ParseArray(s, p, d) == Outcome(d + Nesting(Arr(items)) <= NESTING_LIMIT, Arr(items), p + |Print(Arr(items), depth, format)|)
    decreases items, 2
  {
    ArrayParts(s, p, items, depth, format);
    hide Carries, Blank, ParseArray, ParseItems, PrintItems, Skip, SkipFrom, Print, CleanItems, Nesting, ItemsNesting, Outcome, FirstByte;
    if items == [] {
      NoItems(depth + 1, format);
      EmptyArray(s, p, d, items);
    } else {
      ParsesFilled(s, p, d, items, depth, format);
    }
  }

  lemma {:induction false} ParsesFilled(s: seq<byte>, p: nat, d: nat, items: seq<Value>, depth: nat, format: bool)
    requires items != [] && CleanItems(items) && p < |s|
    requires var inner := PrintItems(items, depth + 1, format); Carries(s, p + 1, inner) && At(s, p + 1 + |inner|, CLOSE_ARRAY)
    ensures ParseArray(s, p, d)
         == Outcome(d + Nesting(Arr(items)) <= NESTING_LIMIT, Arr(items), p + 2 + |PrintItems(items, depth + 1, format)|)
    decreases items, 1
  {
    hide Carries, Blank, ParseArray, ParseItems, PrintItems, Skip, SkipFrom, Print, CleanItems, Nesting, ItemsNesting, Outcome, FirstByte;
    var inner := PrintItems(items, depth + 1, format);
    ItemsStart(items, depth + 1, format);
    FirstCarried(s, p + 1, inner);
    NoBlank(s, p + 1);
    SkipsTo(s, p + 1, p + 1);
    if d < NESTING_LIMIT {
      ParsesItems(s, p, p + 1, d + 1, items, depth + 1, format);
    }
    ArrayResult(s, p, d, items, p + 2 + |inner|);
  }

  lemma NoItems(depth: nat, format: bool)
    ensures PrintItems([], depth, format) == []
  {
  }

  /** Where the parts of an array lie. */
  lemma ArrayParts(s: seq<byte>, p: nat, items: seq<Value>, depth: nat, format: bool)
    requires Carries(s, p, Print(Arr(items), depth, format))
    ensures var inner := PrintItems(items, depth + 1, format);
            && p + 1 <= |s| && Carries(s, p + 1, inner) && At(s, p + 1 + |inner|, CLOSE_ARRAY)
            && p + |Print(Arr(items), depth, format)| == p + 2 + |inner|
  {
    var inner := PrintItems(items, depth + 1, format);
    hide Carries, PrintItems;
    CarriesSplit(s, p, [OPEN_ARRAY] + inner, [CLOSE_ARRAY]);
    CarriesSplit(s, p, [OPEN_ARRAY], inner);
    FirstCarried(s, p + 1 + |inner|, [CLOSE_ARRAY]);
  }

  lemma NoBlank(s: seq<byte>, p: nat)
    requires p <= |s|
    ensures Blank(s, p, p)
  {
  }

  lemma ItemsStart(items: seq<Value>, depth: nat, format: bool)
    requires items != []
    ensures var text := PrintItems(items, depth, format); |text| > 0 && text[0] > 32 && text[0] != CLOSE_ARRAY
  {
    PrintStarts(items[0], depth, format);
  }

  /** The items begin at `a`, behind the bracket or comma at `p` and white space. */
  lemma {:induction false} ParsesItems(s: seq<byte>, p: nat, a: nat, d: nat, items: seq<Value>, depth: nat, format: bool)
    requires items != [] && CleanItems(items) && d <= NESTING_LIMIT && p < |s| && p + 1 <= a && Blank(s, p + 1, a)
    requires Carries(s, a, PrintItems(items, depth, format)) && At(s, a + |PrintItems(items, depth, format)|, CLOSE_ARRAY)
    ensures ParseItems(s, p, d) == Outcome(d + ItemsNesting(items) <= NESTING_LIMIT, items, a + |PrintItems(items, depth, format)| + 1)
    decreases items, 0
  {
    hide Carries, Blank, ParseValue, Skip, SkipFrom, Print, Clean, Nesting, FirstByte;
    var first := Print(items[0], depth, format);
    var e := a + |first|;
    ItemsStart(items, depth, format);
    FirstCarried(s, a, PrintItems(items, depth, format));
    SkipsTo(s, p + 1, a);
    if |items| == 1 {
      ParsesValue(s, a, d, items[0], depth, format);
      NoBlank(s, e);
      SkipsTo(s, e, e);
      assert items == [items[0]];
    } else {
      var gap, rest := If(format, [SPACE]), PrintItems(items[1..], depth, format);
      CarriesSplit(s, a, first, [COMMA] + gap + rest);
      CarriesSplit(s, e, [COMMA] + gap, rest);
      CarriesSplit(s, e, [COMMA], gap);
      FirstCarried(s, e, [COMMA]);
      ParsesValue(s, a, d, items[0], depth, format);
      NoBlank(s, e);
      SkipsTo(s, e, e);
      BlankCarried(s, e + 1, gap);
      ParsesItems(s, e, e + 1 + |gap|, d, items[1..], depth, format);
      assert items == [items[0]] + items[1..];
    }
  }

  function Indent(depth: nat, format: bool): seq<byte>
  {
    If(format, Tabs(depth))
  }

  /** What comes behind a member: a comma if there are more, a new line, and the others. */
  function Others(members: seq<Member>, depth: nat, format: bool): seq<byte>
    requires members != []
  {
    If(|members| > 1, [COMMA]) + If(format, [NEWLINE]) + PrintMembers(members[1..], depth, format)
  }

  /** Where the parts of the first member lie. */
  lemma MemberParts(s: seq<byte>, b: nat, members: seq<Member>, depth: nat, format: bool)
    requires members != [] && Carries(s, b, PrintMembers(members, depth, format))
    ensures var k := b + |Indent(depth, format)|; var c := k + |PrintString(members[0].key)|; var v := c + 1 + |If(format, [TAB])|;
            var e := v + |Print(members[0].value, depth, format)|;
            && Blank(s, b, k) && Carries(s, k, PrintString(members[0].key)) && Carries(s, c, [COLON] + If(format, [TAB]))
            && Carries(s, v, Print(members[0].value, depth, format)) && Carries(s, e, Others(members, depth, format))
            && e + |Others(members, depth, format)| == b + |PrintMembers(members, depth, format)|
  {
    hide Carries, Blank, PrintString, Print;
    FiveParts(s, b, Indent(depth, format), PrintString(members[0].key), [COLON] + If(format, [TAB]),
              Print(members[0].value, depth, format), Others(members, depth, format));
    BlankCarried(s, b, Indent(depth, format));
  }

  lemma QuoteFirst(s: seq<byte>, k: nat, key: seq<byte>)
    requires Carries(s, k, PrintString(key))
    ensures k < |s| && s[k] == QUOTE
  {
    FirstCarried(s, k, PrintString(key));
  }

  /** The colon and the white space behind it. */
  lemma ColonParts(s: seq<byte>, c: nat, format: bool)
    requires Carries(s, c, [COLON] + If(format, [TAB]))
    ensures At(s, c, COLON) && Blank(s, c + 1, c + 1 + |If(format, [TAB])|)
  {
    CarriesSplit(s, c, [COLON], If(format, [TAB]));
    FirstCarried(s, c, [COLON]);
    BlankCarried(s, c + 1, If(format, [TAB]));
  }

  /** What comes behind the last member. */
  lemma LastParts(s: seq<byte>, e: nat, members: seq<Member>, depth: nat, format: bool)
    requires |members| == 1 && Carries(s, e, Others(members, depth, format))
    ensures Blank(s, e, e + |Others(members, depth, format)|)
  {
    assert Others(members, depth, format) == If(format, [NEWLINE]);
    BlankCarried(s, e, If(format, [NEWLINE]));
  }

  /** What comes behind another member: the comma, white space and the next key. */
  lemma NextParts(s: seq<byte>, e: nat, members: seq<Member>, depth: nat, format: bool)
    requires |members| > 1 && Carries(s, e, Others(members, depth, format))
    ensures var b := e + 1 + |If(format, [NEWLINE])|;
            && At(s, e, COMMA) && Carries(s, b, PrintMembers(members[1..], depth, format)) && Blank(s, e + 1, b + |Indent(depth, format)|)
            && b + |PrintMembers(members[1..], depth, format)| == e + |Others(members, depth, format)|
  {
    hide Carries, Blank, PrintMembers;
    var line, rest := If(format, [NEWLINE]), PrintMembers(members[1..], depth, format);
    var b := e + 1 + |line|;
    CarriesSplit(s, e, [COMMA] + line, rest);
    CarriesSplit(s, e, [COMMA], line);
    FirstCarried(s, e, [COMMA]);
    BlankCarried(s, e + 1, line);
    MemberParts(s, b, members[1..], depth, format);
    BlanksJoin(s, e + 1, b, b + |Indent(depth, format)|);
  }

  /** Where the parts of an object lie. */
  lemma ObjectParts(s: seq<byte>, p: nat, members: seq<Member>, depth: nat, format: bool)
    requires Carries(s, p, Print(Obj(members), depth, format))
    ensures var b := p + 1 + |If(format, [NEWLINE])|; var f := b + |PrintMembers(members, depth + 1, format)|; var g := f + |Indent(depth, format)|;
            && Blank(s, p + 1, b) && Carries(s, b, PrintMembers(members, depth + 1, format)) && Blank(s, f, g) && At(s, g, CLOSE_OBJECT)
            && g + 1 == p + |Print(Obj(members), depth, format)|
  {
    hide Carries, Blank, PrintMembers;
    var line, inner, tabs := If(format, [NEWLINE]), PrintMembers(members, depth + 1, format), Indent(depth, format);
    FiveParts(s, p, [OPEN_OBJECT], line, inner, tabs, [CLOSE_OBJECT]);
    FirstCarried(s, p + 1 + |line| + |inner| + |tabs|, [CLOSE_OBJECT]);
    BlankCarried(s, p + 1, line);
    BlankCarried(s, p + 1 + |line| + |inner|, tabs);
  }

  lemma {:induction false} ParsesObject(s: seq<byte>, p: nat, d: nat, members: seq<Member>, depth: nat, format: bool)
    requires CleanMembers(members) && Carries(s, p, Print(Obj(members), depth, format)) && p < |s|
    ensures ParseObject(s, p, d) == Outcome(d + Nesting(Obj(members)) <= NESTING_LIMIT, Obj(members), p + |Print(Obj(members), depth, format)|)
    decreases members, 2
  {
    ObjectParts(s, p, members, depth, format);
    hide Carries, Blank, PrintMembers, CleanMembers, Print, If, Indent, Nesting, ParseObject, Outcome;
    var b := p + 1 + |If(format, [NEWLINE])|;
    var f := b + |PrintMembers(members, depth + 1, format)|;
    var g := f + |Indent(depth, format)|;
    if members == [] {
      NoMembers(depth + 1, format);
      BlanksJoin(s, p + 1, f, g);
      EmptyObject(s, p, g, d, members);
    } else {
      ParsesMany(s, p, b, d, members, depth + 1, format, g);
    }
  }

  /** An object with members. */
  lemma {:induction false} ParsesMany(s: seq<byte>, p: nat, b: nat, d: nat, members: seq<Member>, depth: nat, format: bool, g: nat)
    requires members != [] && CleanMembers(members) && p < b && Blank(s, p + 1, b) && At(s, g, CLOSE_OBJECT)
    requires Carries(s, b, PrintMembers(members, depth, format)) && Blank(s, b + |PrintMembers(members, depth, format)|, g)
    ensures ParseObject(s, p, d) == Outcome(d + Nesting(Obj(members)) <= NESTING_LIMIT, Obj(members), g + 1)
    decreases members, 1
  {
    hide Carries, Blank, Skip, PrintMembers, ParseMembers, CleanMembers, Print, If, Indent, Nesting, MembersNesting, ParseObject, Outcome;
    MemberParts(s, b, members, depth, format);
    var k := b + |Indent(depth, format)|;
    QuoteFirst(s, k, members[0].key);
    BlanksJoin(s, p + 1, b, k);
    SkipsTo(s, p + 1, k);
    NoBlank(s, k);
    if d < NESTING_LIMIT {
      ParsesMembers(s, k - 1, b, d + 1, members, depth, format, g);
    }
    ObjectResult(s, p, k, d, members, g + 1);
  }

  lemma NoMembers(depth: nat, format: bool)
    ensures PrintMembers([], depth, format) == []
  {
  }

  /** A key, a colon and a value: all that a member needs. */
  lemma MemberResult(s: seq<byte>, p: nat, k: nat, c: nat, v: nat, d: nat, m: Member, e: nat, fits: bool)
    requires p < |s| && k < |s| && c < v <= |s| && Skip(s, p + 1) == k && ParseString(s, k) == Some((m.key, c))
    requires Skip(s, c) == c && At(s, c, COLON) && Skip(s, c + 1) == v && ParseValue(s, v, d) == Outcome(fits, m.value, e)
    ensures ParseMember(s, p, d) == Outcome(fits, m, e)
  {
    hide Skip, ParseString, ParseValue;
  }

  /** The first member is printed at `b`; its key comes behind the brace or comma at `p` and white space. */
  lemma {:induction false} ParsesMember(s: seq<byte>, p: nat, b: nat, d: nat, members: seq<Member>, depth: nat, format: bool) returns (e: nat)
    requires members != [] && CleanMembers(members) && d <= NESTING_LIMIT && p < |s| && p + 1 <= b + |Indent(depth, format)|
    requires Carries(s, b, PrintMembers(members, depth, format)) && Blank(s, p + 1, b + |Indent(depth, format)|)
    ensures ParseMember(s, p, d) == Outcome(d + Nesting(members[0].value) <= NESTING_LIMIT, members[0], e)
    ensures Carries(s, e, Others(members, depth, format))
    ensures e + |Others(members, depth, format)| == b + |PrintMembers(members, depth, format)|
    decreases members, 0, 0
  {
    hide Carries, Blank, Skip, ParseString, ParseValue, ParseMember, PrintMembers, Print, PrintString, Others, Indent, If, Nesting, Outcome, At;
    var m := members[0];
    MemberParts(s, b, members, depth, format);
    var k := b + |Indent(depth, format)|;
    QuoteFirst(s, k, m.key);
    SkipsTo(s, p + 1, k);
    ParsesString(s, k, m.key);
    var c := k + |PrintString(m.key)|;
    ColonParts(s, c, format);
    ColonStays(s, c);
    var v := c + 1 + |If(format, [TAB])|;
    PrintStarts(m.value, depth, format);
    FirstCarried(s, v, Print(m.value, depth, format));
    SkipsTo(s, c + 1, v);
    ParsesValue(s, v, d, m.value, depth, format);
    e := v + |Print(m.value, depth, format)|;
    MemberResult(s, p, k, c, v, d, m, e, d + Nesting(m.value) <= NESTING_LIMIT || Nesting(m.value) == 0);
  }

  lemma ColonStays(s: seq<byte>, c: nat)
    requires At(s, c, COLON)
    ensures c < |s| && Skip(s, c) == c
  {
    NoBlank(s, c);
    SkipsTo(s, c, c);
  }

  /** The members are printed at `b`; their first key comes behind the brace or comma at `p` and white space. */
  lemma {:induction false} ParsesMembers(s: seq<byte>, p: nat, b: nat, d: nat, members: seq<Member>, depth: nat, format: bool, g: nat)
    requires members != [] && CleanMembers(members) && d <= NESTING_LIMIT && p < |s| && p + 1 <= b + |Indent(depth, format)|
    requires Carries(s, b, PrintMembers(members, depth, format)) && Blank(s, p + 1, b + |Indent(depth, format)|)
    requires Blank(s, b + |PrintMembers(members, depth, format)|, g) && At(s, g, CLOSE_OBJECT)
    ensures ParseMembers(s, p, d) == Outcome(d + MembersNesting(members) <= NESTING_LIMIT, members, g + 1)
    decreases members, 0, 1
  {
    hide Carries, Blank, Skip, ParseMember, PrintMembers, Others, Indent, If, Nesting, Clean;
    var e := ParsesMember(s, p, b, d, members, depth, format);
    if |members| == 1 {
      LastParts(s, e, members, depth, format);
      BlanksJoin(s, e, e + |Others(members, depth, format)|, g);
      SkipsTo(s, e, g);
      assert members == [members[0]];
    } else {
      NextParts(s, e, members, depth, format);
      NoBlank(s, e);
      SkipsTo(s, e, e);
      ParsesMembers(s, e, e + 1 + |If(format, [NEWLINE])|, d, members[1..], depth, format, g);
      assert members == [members[0]] + members[1..];
    }
  }

  // ---------- whole texts ----------

  lemma NulFreeFive(a: seq<byte>, b: seq<byte>, c: seq<byte>, d: seq<byte>, e: seq<byte>)
    requires NulFree(a) && NulFree(b) && NulFree(c) && NulFree(d) && NulFree(e)
    ensures NulFree(Flatten([a, b, c, d, e]))
  {
    FlattenFive(a, b, c, d, e);
  }

  lemma {:induction false} EscapeAllNulFree(s: seq<byte>)
    requires NulFree(s)
    ensures NulFree(EscapeAll(s))
  {
    if s != [] {
      EscapeAllNulFree(s[1..]);
    }
  }

  lemma PrintStringNulFree(s: seq<byte>)
    requires NulFree(s)
    ensures NulFree(PrintString(s))
  {
    EscapeAllNulFree(s);
  }

  lemma NulFreeJoin(a: seq<byte>, b: seq<byte>)
    requires NulFree(a) && NulFree(b)
    ensures NulFree(a + b)
  {
  }

  /** A printed value is a C string. */
  lemma {:induction false} PrintNulFree(v: Value, depth: nat, format: bool)
    requires Clean(v)
    ensures NulFree(Print(v, depth, format))
    decreases v, 1
  {
    match v
    case Null =>
    case False =>
    case True =>
    case Str(s) => PrintStringNulFree(s);
    case Arr(items) => PrintItemsNulFree(items, depth + 1, format);
    case Obj(members) =>
      PrintMembersNulFree(members, depth + 1, format);
      NulFreeFive([OPEN_OBJECT], If(format, [NEWLINE]), PrintMembers(members, depth + 1, format), If(format, Tabs(depth)), [CLOSE_OBJECT]);
  }

  lemma {:induction false} PrintItemsNulFree(items: seq<Value>, depth: nat, format: bool)
    requires CleanItems(items)
    ensures NulFree(PrintItems(items, depth, format))
    decreases items, 0
  {
    if items != [] {
      PrintNulFree(items[0], depth, format);
      PrintItemsNulFree(items[1..], depth, format);
    }
  }

  lemma {:induction false} PrintMembersNulFree(members: seq<Member>, depth: nat, format: bool)
    requires CleanMembers(members)
    ensures NulFree(PrintMembers(members, depth, format))
    decreases members, 0
  {
    if members != [] {
      PrintStringNulFree(members[0].key);
      PrintNulFree(members[0].value, depth, format);
      PrintMembersNulFree(members[1..], depth, format);
      NulFreeJoin(If(|members| > 1, [COMMA]) + If(format, [NEWLINE]), PrintMembers(members[1..], depth, format));
      hide Print, PrintString;
      NulFreeFive(If(format, Tabs(depth)), PrintString(members[0].key), [COLON] + If(format, [TAB]), Print(members[0].value, depth, format),
                  Others(members, depth, format));
    }
  }

  lemma Terminated(s: seq<byte>, text: seq<byte>)
    requires s == text + [0]
    ensures Carries(s, 0, text) && Skip(s, |text|) == |text| && At(s, |text|, 0)
  {
  }

  /** The JSON round trip: parsing what was printed, in either layout, gives the value back, exactly if it is nested at
      most 1000 deep; deeper values are refused. */
  lemma JsonRoundTrip(v: Value, format: bool, whole: bool)
    requires Clean(v)
    ensures Parse(Print(v, 0, format), whole) == if Nesting(v) <= NESTING_LIMIT then Some(v) else None
  {
    hide Carries, Clean, Nesting, ParseValue, Skip, SkipFrom, StartsWith;
    var text := Print(v, 0, format);
    var s := text + [0];
    PrintNulFree(v, 0, format);
    CStringOfNulFree(text);
    Terminated(s, text);
    PrintStarts(v, 0, format);
    NoBlank(s, 0);
    assert 4 < |s| ==> s[..3][0] == s[0];
    SkipsTo(s, 0, 0);
    ParsesValue(s, 0, 0, v, 0, format);
  }

  /** Different values are printed differently, even in different layouts. */
  lemma PrintInjective(v: Value, w: Value, format: bool, format': bool)
    requires Clean(v) && Clean(w) && Nesting(v) <= NESTING_LIMIT && Nesting(w) <= NESTING_LIMIT
    requires Print(v, 0, format) == Print(w, 0, format')
    ensures v == w
  {
    JsonRoundTrip(v, format, true);
    JsonRoundTrip(w, format', true);
  }
}
