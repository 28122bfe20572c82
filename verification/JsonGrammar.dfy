/** What the parser of cJSON accepts, said as a grammar: white space, escapes and nesting as they may be written, not only as
    they are printed. */
module JsonGrammar {
  import opened Wire
  import opened Seqs
  import opened Json
  import opened JsonValues

  // ---------- strings ----------

  /** The characters of one-letter escapes and what they stand for. */
  const SHORT: map<byte, byte> := map[34 := 34, 92 := 92, 47 := 47, 98 := 8, 102 := 12, 110 := 10, 114 := 13, 116 := 9]

  const DIGITS: seq<byte> := [48, 49, 50, 51, 52, 53, 54, 55, 56, 57, 97, 98, 99, 100, 101, 102]
  const UPPER_DIGITS: seq<byte> := [48, 49, 50, 51, 52, 53, 54, 55, 56, 57, 65, 66, 67, 68, 69, 70]

  /** A hexadecimal digit in lower or upper case. */
  predicate Stands(b: byte, n: nat)
  {
    n < 16 && (b == DIGITS[n] || b == UPPER_DIGITS[n])
  }

  /** Four digits at `p` that stand for a number. */
  ghost predicate Hex4(s: seq<byte>, p: nat, n: nat)
  {
    && p + 4 <= |s| && n < 65536
    && Stands(s[p], n / 4096) && Stands(s[p + 1], n / 256 % 16) && Stands(s[p + 2], n / 16 % 16) && Stands(s[p + 3], n % 16)
  }

  predicate IsHex(b: byte)
  {
    b in DIGITS || b in UPPER_DIGITS
  }

  /** Four bytes at `p` that are not all digits; they read as 0. */
  ghost predicate NoHex4(s: seq<byte>, p: nat)
  {
    p + 4 <= |s| && !(IsHex(s[p]) && IsHex(s[p + 1]) && IsHex(s[p + 2]) && IsHex(s[p + 3]))
  }

  /** At `p` there is a number of four digits; only if not `proper` they may be others. */
  ghost predicate Number(s: seq<byte>, p: nat, n: nat, proper: bool)
  {
    Hex4(s, p, n) || (!proper && n == 0 && NoHex4(s, p))
  }

  /** From `i` to `j` a code point is written as one or two numbers. */
  ghost predicate Unicode(s: seq<byte>, i: nat, j: nat, code: nat, proper: bool)
  {
    && i + 6 <= j <= |s| && s[i] == 92 && s[i + 1] == 117
    && if code < 0x10000 then j == i + 6 && !(0xD800 <= code < 0xE000) && Number(s, i + 2, code, proper)
       else j == i + 12 && code <= 0x10FFFF && s[i + 6] == 92 && s[i + 7] == 117
            && Number(s, i + 2, 0xD800 + (code - 0x10000) / 1024, proper) && Number(s, i + 8, 0xDC00 + (code - 0x10000) % 1024, proper)
  }

  /** From `i` to `j` one character is written that stands for `bytes`. */
  ghost predicate Character(s: seq<byte>, i: nat, j: nat, bytes: seq<byte>, proper: bool)
  {
    || (i < |s| && j == i + 1 && s[i] != 92 && (proper ==> s[i] != 34) && bytes == [s[i]])
    || (i + 1 < |s| && j == i + 2 && s[i] == 92 && s[i + 1] in SHORT && bytes == [SHORT[s[i + 1]]])
    || exists code :: Unicode(s, i, j, code, proper) && Utf8(code) == Some(bytes)
  }

  /** From `i` to `end` the characters that stand for `bytes` are written. Behind numbers that are none a character may take
      the closing quote too. */
  ghost predicate Characters(s: seq<byte>, i: nat, end: nat, bytes: seq<byte>, proper: bool)
    decreases end - i
  {
    if i >= end then i <= Limit(end, proper) && bytes == []
    else exists j: nat, first: seq<byte>, rest: seq<byte> ::
      i < j <= Limit(end, proper) && Character(s, i, j, first, proper) && Characters(s, j, end, rest, proper) && bytes == first + rest
  }

  function Limit(end: nat, proper: bool): nat
  {
    if proper then end else end + 1
  }

  /** From `p` to `q` a string is written between quotes; a character 0 ends it. */
  ghost predicate ReadsString(s: seq<byte>, p: nat, q: nat, str: seq<byte>, proper: bool)
  {
    && p + 1 < q <= |s| && s[p] == 34 && s[q - 1] == 34
    && exists bytes :: Characters(s, p + 1, q - 1, bytes, proper) && str == CString(bytes)
  }

  lemma {:induction false} DigitStands(b: byte)
    ensures HexDigit(b).Some? <==> IsHex(b)
    ensures HexDigit(b).Some? ==> HexDigit(b).value < 16
    ensures forall n: nat :: Stands(b, n) <==> HexDigit(b) == Some(n)
  {
    if HexDigit(b).Some? {
      var n := HexDigit(b).value;
      assert b == if b < 97 && b > 57 then UPPER_DIGITS[n] else DIGITS[n];
    }
    forall n: nat | Stands(b, n)
      ensures HexDigit(b) == Some(n)
    {
      DigitIs(n);
    }
  }

  lemma {:induction false} DigitIs(n: nat)
    requires n < 16
    ensures HexDigit(DIGITS[n]) == Some(n) && HexDigit(UPPER_DIGITS[n]) == Some(n)
  {
  }

  lemma {:induction false} HexDigits(a: nat, b: nat, c: nat, d: nat)
    requires a < 16 && b < 16 && c < 16 && d < 16
    ensures var n := 4096 * a + 256 * b + 16 * c + d; n < 65536 && a == n / 4096 && b == n / 256 % 16 && c == n / 16 % 16 && d == n % 16
  {
    var n := 4096 * a + 256 * b + 16 * c + d;
    assert n / 16 == 256 * a + 16 * b + c;
    assert n / 256 == 16 * a + b;
  }

  lemma {:induction false} DigitsOf(n: nat)
    requires n < 65536
    ensures n == 4096 * (n / 4096) + 256 * (n / 256 % 16) + 16 * (n / 16 % 16) + n % 16
  {
    assert n / 256 == n / 4096 * 16 + n / 256 % 16;
    assert n / 16 == n / 256 * 16 + n / 16 % 16;
  }

  /** The number read at `p`. */
  lemma {:induction false} ReadsNumber(s: seq<byte>, p: nat)
    requires p + 4 <= |s|
    ensures Number(s, p, ParseHex4(s, p), false)
    ensures forall n :: Hex4(s, p, n) ==> ParseHex4(s, p) == n
  {
    hide HexDigit, IsHex, Stands;
    DigitStands(s[p]);
    DigitStands(s[p + 1]);
    DigitStands(s[p + 2]);
    DigitStands(s[p + 3]);
    if HexDigit(s[p]).Some? && HexDigit(s[p + 1]).Some? && HexDigit(s[p + 2]).Some? && HexDigit(s[p + 3]).Some? {
      HexDigits(HexDigit(s[p]).value, HexDigit(s[p + 1]).value, HexDigit(s[p + 2]).value, HexDigit(s[p + 3]).value);
    }
    forall n | Hex4(s, p, n)
      ensures ParseHex4(s, p) == n
    {
      DigitsOf(n);
    }
  }

  /** The two numbers of a code point behind the first 65536. */
  lemma {:induction false} Surrogates(high: nat, low: nat)
    requires 0xD800 <= high <= 0xDBFF && 0xDC00 <= low <= 0xDFFF
    ensures var code := 0x10000 + high % 1024 * 1024 + low % 1024;
            0x10000 <= code <= 0x10FFFF && (code - 0x10000) / 1024 == high - 0xD800 && (code - 0x10000) % 1024 == low - 0xDC00
  {
    assert high % 1024 == high - 0xD800 && low % 1024 == low - 0xDC00;
  }

  lemma {:induction false} SurrogatesOf(code: nat)
    requires 0x10000 <= code <= 0x10FFFF
    ensures var high, low := 0xD800 + (code - 0x10000) / 1024, 0xDC00 + (code - 0x10000) % 1024;
            0xD800 <= high <= 0xDBFF && 0xDC00 <= low <= 0xDFFF && code == 0x10000 + high % 1024 * 1024 + low % 1024
  {
    var q, r := (code - 0x10000) / 1024, (code - 0x10000) % 1024;
    assert code - 0x10000 == q * 1024 + r;
    Surrogates(0xD800 + q, 0xDC00 + r);
  }

  /** What the literal at `i` reads as, up to `end`, is a code point that is written there. */
  lemma {:induction false} CodepointIsWritten(s: seq<byte>, i: nat, end: nat)
    requires i + 1 < end <= |s| && s[i] == 92 && s[i + 1] == 117 && Codepoint(s, i, end).Some?
    ensures var (code, len) := Codepoint(s, i, end).value; i + len <= end && Unicode(s, i, i + len, code, false)
  {
    hide ParseHex4, Hex4, NoHex4;
    ReadsNumber(s, i + 2);
    var first := ParseHex4(s, i + 2);
    if 0xD800 <= first <= 0xDBFF {
      ReadsNumber(s, i + 8);
      Surrogates(first, ParseHex4(s, i + 8));
    } else {
      assert first < 65536 by {
        NumberIsShort(s, i + 2, first);
      }
    }
  }

  lemma {:induction false} NumberIsShort(s: seq<byte>, p: nat, n: nat)
    requires Number(s, p, n, false)
    ensures n < 65536
  {
  }

  /** A code point that is written is read. */
  lemma {:induction false} WrittenCodepoint(s: seq<byte>, i: nat, j: nat, end: nat, code: nat)
    requires j <= end <= |s| && Unicode(s, i, j, code, true)
    ensures var c := Codepoint(s, i, end); c.Some? && c.value.0 == code && c.value.1 == j - i
  {
    hide ParseHex4, Hex4, NoHex4;
    ReadsNumber(s, i + 2);
    if code >= 0x10000 {
      ReadsNumber(s, i + 8);
      SurrogatesOf(code);
    }
  }

  lemma {:induction false} ShortIsLetter(b: byte)
    ensures Letter(b).Some? <==> b in SHORT
    ensures b in SHORT ==> Letter(b).value == SHORT[b]
  {
  }

  /** An escape sequence that is read is a character that is written. */
  lemma {:induction false} UnescapedIsWritten(s: seq<byte>, i: nat, end: nat)
    requires i + 1 <= end < |s| && s[i] == 92 && Unescaped(s, i, end).Some?
    ensures var (bytes, len) := Unescaped(s, i, end).value; Character(s, i, i + len, bytes, false) && (s[i + 1] == 117 ==> i + len <= end)
  {
    hide Codepoint, Unicode;
    ShortIsLetter(s[i + 1]);
    if s[i + 1] == LETTER_U {
      assert Codepoint(s, i, end).Some?;
      if i + 1 == end {
        assert end - i < 6;
        TooShort(s, i, end);
      } else {
        CodepointIsWritten(s, i, end);
      }
    }
  }

  lemma {:induction false} TooShort(s: seq<byte>, i: nat, end: nat)
    requires i <= end <= |s| && end - i < 6
    ensures Codepoint(s, i, end).None?
  {
  }

  /** What is unescaped are characters that are written. */
  lemma {:induction false} UnescapeIsWritten(s: seq<byte>, i: nat, end: nat)
    requires i <= end + 1 && end < |s| && Unescape(s, i, end).Some?
    ensures Characters(s, i, end, Unescape(s, i, end).value, false)
    decreases end - i
  {
    hide Unescaped, Character;
    if i < end {
      var j, first := i + 1, [s[i]];
      if s[i] == BACKSLASH {
        UnescapedIsWritten(s, i, end);
        j, first := i + Unescaped(s, i, end).value.1, Unescaped(s, i, end).value.0;
        UnescapedLength(s, i, end);
      } else {
        PlainIsWritten(s, i);
      }
      UnescapeIsWritten(s, j, end);
      assert Characters(s, j, end, Unescape(s, j, end).value, false);
    }
  }

  lemma {:induction false} PlainIsWritten(s: seq<byte>, i: nat)
    requires i < |s| && s[i] != 92
    ensures Character(s, i, i + 1, [s[i]], false)
  {
  }

  lemma {:induction false} UnescapedLength(s: seq<byte>, i: nat, end: nat)
    requires i < end < |s| && Unescaped(s, i, end).Some?
    ensures s[i + 1] != 117 ==> Unescaped(s, i, end).value.1 == 2
  {
  }

  /** Properly written characters do not end a string, and are unescaped. */
  lemma {:induction false} WrittenCharacter(s: seq<byte>, i: nat, j: nat, end: nat, first: seq<byte>)
    requires i < j <= end < |s| && Character(s, i, j, first, true)
    ensures FindEnd(s, i) == FindEnd(s, j)
    ensures if s[i] == 92 then var u := Unescaped(s, i, end); u.Some? && u.value.0 == first && u.value.1 == j - i else j == i + 1 && first == [s[i]]
  {
    if s[i] == 92 {
      ShortIsLetter(s[i + 1]);
      if s[i + 1] in SHORT {
        NoUnicode(s, i, j);
      } else {
        var code :| Unicode(s, i, j, code, true) && Utf8(code) == Some(first);
        WrittenCodepoint(s, i, j, end, code);
        UnicodeStays(s, i, j, code);
      }
    }
  }

  lemma {:induction false} NoUnicode(s: seq<byte>, i: nat, j: nat)
    requires i + 1 < |s| && s[i + 1] in SHORT
    ensures forall code :: !Unicode(s, i, j, code, true)
  {
  }

  /** Digits do not end a string. */
  lemma {:induction false} DigitsStay(s: seq<byte>, p: nat, n: nat)
    requires Hex4(s, p, n)
    ensures FindEnd(s, p) == FindEnd(s, p + 4)
  {
    DigitIsPlain(s[p], n / 4096);
    DigitIsPlain(s[p + 1], n / 256 % 16);
    DigitIsPlain(s[p + 2], n / 16 % 16);
    DigitIsPlain(s[p + 3], n % 16);
    hide Stands;
    assert FindEnd(s, p) == FindEnd(s, p + 1) == FindEnd(s, p + 2) == FindEnd(s, p + 3) == FindEnd(s, p + 4);
  }

  lemma {:induction false} DigitIsPlain(b: byte, n: nat)
    requires Stands(b, n)
    ensures b != 34 && b != 92
  {
  }

  lemma {:induction false} UnicodeStays(s: seq<byte>, i: nat, j: nat, code: nat)
    requires Unicode(s, i, j, code, true)
    ensures FindEnd(s, i) == FindEnd(s, j)
  {
    hide Hex4, FindEnd;
    EscapeStays(s, i);
    if code < 0x10000 {
      DigitsStay(s, i + 2, code);
    } else {
      DigitsStay(s, i + 2, 0xD800 + (code - 0x10000) / 1024);
      EscapeStays(s, i + 6);
      DigitsStay(s, i + 8, 0xDC00 + (code - 0x10000) % 1024);
    }
  }

  lemma {:induction false} EscapeStays(s: seq<byte>, i: nat)
    requires i + 1 < |s| && s[i] == 92
    ensures FindEnd(s, i) == FindEnd(s, i + 2)
  {
  }

  lemma {:induction false} WrittenCharacters(s: seq<byte>, i: nat, end: nat, bytes: seq<byte>)
    requires i <= end < |s| && Characters(s, i, end, bytes, true)
    ensures FindEnd(s, i) == FindEnd(s, end) && Unescape(s, i, end) == Some(bytes)
    decreases end - i
  {
    hide Unescaped, Character, FindEnd;
    if i < end {
      var j: nat, first: seq<byte>, rest: seq<byte> :|
        i < j <= end && Character(s, i, j, first, true) && Characters(s, j, end, rest, true) && bytes == first + rest;
      WrittenCharacter(s, i, j, end, first);
      WrittenCharacters(s, j, end, rest);
    }
  }

  /** What is parsed as a string is written there, if perhaps with numbers that are none; what is properly written is
      parsed. */
  lemma {:induction false} ParsedString(s: seq<byte>, p: nat)
    requires p <= |s| && ParseString(s, p).Some?
    ensures ReadsString(s, p, ParseString(s, p).value.1, ParseString(s, p).value.0, false)
  {
    hide FindEnd, Unescape, Characters;
    UnescapeIsWritten(s, p + 1, FindEnd(s, p + 1).value);
  }

  lemma {:induction false} WrittenString(s: seq<byte>, p: nat, q: nat, str: seq<byte>)
    requires ReadsString(s, p, q, str, true)
    ensures var r := ParseString(s, p); r.Some? && r.value.0 == str && r.value.1 == q
  {
    hide Unescape, Characters, FindEnd, CString, ParseString;
    var bytes :| Characters(s, p + 1, q - 1, bytes, true) && str == CString(bytes);
    WrittenCharacters(s, p + 1, q - 1, bytes);
    QuoteEnds(s, q - 1);
    Composed(s, p, q - 1, bytes);
  }

  lemma {:induction false} Composed(s: seq<byte>, p: nat, end: nat, bytes: seq<byte>)
    requires p < |s| && s[p] == 34 && end < |s| && FindEnd(s, p + 1) == Some(end) && Unescape(s, p + 1, end) == Some(bytes)
    ensures var r := ParseString(s, p); r.Some? && r.value.0 == CString(bytes) && r.value.1 == end + 1
  {
    hide Unescape, FindEnd, CString;
  }

  lemma {:induction false} QuoteEnds(s: seq<byte>, e: nat)
    requires e < |s| && s[e] == 34
    ensures FindEnd(s, e) == Some(e)
  {
  }

  /** Every code point but the surrogates, written between quotes as one or two numbers in digits of either case, is read as
      its UTF-8 bytes. */
  lemma {:induction false} UnicodeString(s: seq<byte>, p: nat, j: nat, code: nat)
    requires j < |s| && p < |s| && s[p] == 34 && s[j] == 34 && Unicode(s, p + 1, j, code, true)
    ensures Utf8(code).Some?
    ensures var r := ParseString(s, p); r.Some? && r.value.0 == CString(Utf8(code).value) && r.value.1 == j + 1
  {
    hide Unicode, Utf8, ParseString;
    CodeInRange(s, p + 1, j, code);
    var bytes := Utf8(code).value;
    assert Character(s, p + 1, j, bytes, true);
    assert Characters(s, j, j, [], true) && bytes == bytes + [];
    assert Characters(s, p + 1, j, bytes, true);
    WrittenString(s, p, j + 1, CString(bytes));
  }

  lemma {:induction false} CodeInRange(s: seq<byte>, i: nat, j: nat, code: nat)
    requires Unicode(s, i, j, code, true)
    ensures Utf8(code).Some? && i + 6 <= j
  {
    Utf8RoundTrip(code);
  }

  // ---------- values ----------

  /** From `p` to `q` the value is written, inside `d` arrays and objects. */
  ghost predicate Reads(s: seq<byte>, p: nat, q: nat, v: Value, d: nat, proper: bool)
    decreases v, 0
  {
    p < q <= |s| &&
    match v
    case Null => s[p..q] == [110, 117, 108, 108]
    case False => s[p..q] == [102, 97, 108, 115, 101]
    case True => s[p..q] == [116, 114, 117, 101]
    case Str(str) => ReadsString(s, p, q, str, proper)
    case Arr(items) => d < 1000 && s[p] == 91 && if items == [] then p + 1 < q && Blank(s, p + 1, q - 1) && s[q - 1] == 93
                                                else ReadsItems(s, p + 1, q, items, d + 1, proper)
    case Obj(members) => d < 1000 && s[p] == 123 && if members == [] then p + 1 < q && Blank(s, p + 1, q - 1) && s[q - 1] == 125
                                                    else ReadsMembers(s, p + 1, q, members, d + 1, proper)
  }

  /** From `p` to `q` the items are written with commas between them and a bracket at the end. */
  ghost predicate ReadsItems(s: seq<byte>, p: nat, q: nat, items: seq<Value>, d: nat, proper: bool)
    requires items != []
    decreases items
  {
    exists a: nat, e: nat, b: nat ::
      && Blank(s, p, a) && Reads(s, a, e, items[0], d, proper) && Blank(s, e, b) && b < q <= |s|
      && if |items| == 1 then s[b] == 93 && q == b + 1 else s[b] == 44 && ReadsItems(s, b + 1, q, items[1..], d, proper)
  }

  /** From `p` to `e` a key, a colon and a value are written. */
  ghost predicate ReadsMember(s: seq<byte>, p: nat, e: nat, m: Member, d: nat, proper: bool)
    decreases m
  {
    exists k: nat, c: nat, n: nat, a: nat ::
      && Blank(s, p, k) && ReadsString(s, k, c, m.key, proper) && Blank(s, c, n) && n < |s| && s[n] == 58
      && Blank(s, n + 1, a) && Reads(s, a, e, m.value, d, proper)
  }

  ghost predicate ReadsMembers(s: seq<byte>, p: nat, q: nat, members: seq<Member>, d: nat, proper: bool)
    requires members != []
    decreases members
  {
    exists e: nat, b: nat ::
      && ReadsMember(s, p, e, members[0], d, proper) && Blank(s, e, b) && b < q <= |s|
      && if |members| == 1 then s[b] == 125 && q == b + 1 else s[b] == 44 && ReadsMembers(s, b + 1, q, members[1..], d, proper)
  }

  /** Where something that is not white space is found behind white space. */
  lemma {:induction false} SkippedIsBlank(s: seq<byte>, p: nat)
    requires p <= |s|
    ensures var q := Skip(s, p); q < |s| && s[q] > 32 ==> Blank(s, p, q)
    ensures Skip(s, p) < |s| ==> Skip(s, Skip(s, p)) == Skip(s, p)
  {
  }

  /** Each kind of value starts with a character of its own, that is not white space. */
  lemma {:induction false} ReadsFirst(s: seq<byte>, p: nat, q: nat, v: Value, d: nat, proper: bool)
    requires Reads(s, p, q, v, d, proper)
    ensures p < |s| && s[p] == FirstByte(v) && s[p] > 32
  {
    hide ReadsItems, ReadsMembers, Characters;
    match v
    case Null => assert s[p] == s[p..q][0];
    case False => assert s[p] == s[p..q][0];
    case True => assert s[p] == s[p..q][0];
    case _ =>
  }

  /** What is parsed is written there. */
  lemma {:induction false} ParsedValue(s: seq<byte>, p: nat, d: nat)
    requires p <= |s| && ParseValue(s, p, d).Some?
    ensures Reads(s, p, ParseValue(s, p, d).value.1, ParseValue(s, p, d).value.0, d, false)
    decreases |s| - p, 3
  {
    hide ParseArray, ParseObject, ParseString, ReadsString, ReadsItems, ReadsMembers;
    if !StartsWith(s, p, NullText()) && !StartsWith(s, p, FalseText()) && !StartsWith(s, p, TrueText()) {
      if At(s, p, QUOTE) {
        ParsedString(s, p);
      } else if At(s, p, OPEN_ARRAY) {
        ParsedArray(s, p, d);
      } else {
        ParsedObject(s, p, d);
      }
    }
  }

  lemma {:induction false} ParsedArray(s: seq<byte>, p: nat, d: nat)
    requires p < |s| && s[p] == 91 && ParseArray(s, p, d).Some?
    ensures Reads(s, p, ParseArray(s, p, d).value.1, ParseArray(s, p, d).value.0, d, false)
    decreases |s| - p, 2
  {
    hide Skip, ParseItems, ReadsItems;
    var q := Skip(s, p + 1);
    SkippedIsBlank(s, p + 1);
    if !At(s, q, CLOSE_ARRAY) {
      ParsedItems(s, q - 1, d + 1);
      var (items, e) := ParseItems(s, q - 1, d + 1).value;
      ItemsEarlier(s, p + 1, q, e, items, d + 1);
    }
  }

  /** White space before the items belongs to them. */
  lemma {:induction false} ItemsEarlier(s: seq<byte>, p: nat, q: nat, e: nat, items: seq<Value>, d: nat)
    requires items != [] && p <= q && ReadsItems(s, q, e, items, d, false) && q < |s| && Skip(s, p) == q
    ensures ReadsItems(s, p, e, items, d, false)
  {
    hide Reads;
    var a: nat, f: nat, b: nat :|
      && Blank(s, q, a) && Reads(s, a, f, items[0], d, false) && Blank(s, f, b) && b < e <= |s|
      && if |items| == 1 then s[b] == 93 && e == b + 1 else s[b] == 44 && ReadsItems(s, b + 1, e, items[1..], d, false);
    ReadsFirst(s, a, f, items[0], d, false);
    StartsBehindBlank(s, p, a);
  }

  /** What follows white space starts where it is skipped to. */
  lemma {:induction false} StartsBehindBlank(s: seq<byte>, p: nat, a: nat)
    requires p <= |s| && Skip(s, p) <= a < |s| && s[a] > 32 && Blank(s, Skip(s, p), a)
    ensures Blank(s, p, a)
  {
  }

  lemma {:induction false} ParsedItems(s: seq<byte>, p: nat, d: nat)
    requires p < |s| && ParseItems(s, p, d).Some?
    ensures var (items, e) := ParseItems(s, p, d).value; items != [] && ReadsItems(s, p + 1, e, items, d, false)
    decreases |s| - p, 1
  {
    hide Skip, ParseValue, Reads, Blank;
    var a := Skip(s, p + 1);
    ParsedValue(s, a, d);
    var (v, f) := ParseValue(s, a, d).value;
    ReadsFirst(s, a, f, v, d, false);
    SkippedIsBlank(s, p + 1);
    var b := Skip(s, f);
    SkippedIsBlank(s, f);
    if At(s, b, COMMA) {
      ParsedItems(s, b, d);
    }
    var (items, e) := ParseItems(s, p, d).value;
    assert Blank(s, p + 1, a) && Reads(s, a, f, items[0], d, false) && Blank(s, f, b);
  }

  lemma {:induction false} ParsedObject(s: seq<byte>, p: nat, d: nat)
    requires p < |s| && s[p] == 123 && ParseObject(s, p, d).Some?
    ensures Reads(s, p, ParseObject(s, p, d).value.1, ParseObject(s, p, d).value.0, d, false)
    decreases |s| - p, 2
  {
    hide Skip, ParseMembers, ReadsMembers;
    var q := Skip(s, p + 1);
    SkippedIsBlank(s, p + 1);
    if !At(s, q, CLOSE_OBJECT) {
      ParsedMembers(s, q - 1, d + 1);
      var (members, e) := ParseMembers(s, q - 1, d + 1).value;
      MembersEarlier(s, p + 1, q, e, members, d + 1);
    }
  }

  lemma {:induction false} MembersEarlier(s: seq<byte>, p: nat, q: nat, e: nat, members: seq<Member>, d: nat)
    requires members != [] && p <= q && ReadsMembers(s, q, e, members, d, false) && q < |s| && Skip(s, p) == q
    ensures ReadsMembers(s, p, e, members, d, false)
  {
    hide ReadsMember, Blank;
    var f: nat, b: nat :|
      && ReadsMember(s, q, f, members[0], d, false) && Blank(s, f, b) && b < e <= |s|
      && if |members| == 1 then s[b] == 125 && e == b + 1 else s[b] == 44 && ReadsMembers(s, b + 1, e, members[1..], d, false);
    MemberEarlier(s, p, q, f, members[0], d);
  }

  lemma {:induction false} MemberEarlier(s: seq<byte>, p: nat, q: nat, e: nat, m: Member, d: nat)
    requires p <= q && ReadsMember(s, q, e, m, d, false) && q < |s| && Skip(s, p) == q
    ensures ReadsMember(s, p, e, m, d, false)
  {
    hide Reads, Characters;
    var k: nat, c: nat, n: nat, a: nat :|
      && Blank(s, q, k) && ReadsString(s, k, c, m.key, false) && Blank(s, c, n) && n < |s| && s[n] == 58
      && Blank(s, n + 1, a) && Reads(s, a, e, m.value, d, false);
    StartsBehindBlank(s, p, k);
  }

  lemma {:induction false} ParsedMember(s: seq<byte>, p: nat, d: nat)
    requires p < |s| && ParseMember(s, p, d).Some?
    ensures var (m, e) := ParseMember(s, p, d).value; ReadsMember(s, p + 1, e, m, d, false)
    decreases |s| - p, 0
  {
    hide Skip, ParseValue, Reads, Blank, ParseString, Characters;
    var k := Skip(s, p + 1);
    ParsedString(s, k);
    var (key, c) := ParseString(s, k).value;
    SkippedIsBlank(s, p + 1);
    var n := Skip(s, c);
    SkippedIsBlank(s, c);
    var a := Skip(s, n + 1);
    ParsedValue(s, a, d);
    var (v, e) := ParseValue(s, a, d).value;
    ReadsFirst(s, a, e, v, d, false);
    SkippedIsBlank(s, n + 1);
    assert Blank(s, p + 1, k) && ReadsString(s, k, c, key, false) && Blank(s, c, n) && Blank(s, n + 1, a) && Reads(s, a, e, v, d, false);
  }

  lemma {:induction false} ParsedMembers(s: seq<byte>, p: nat, d: nat)
    requires p < |s| && ParseMembers(s, p, d).Some?
    ensures var (members, e) := ParseMembers(s, p, d).value; members != [] && ReadsMembers(s, p + 1, e, members, d, false)
    decreases |s| - p, 1
  {
    hide Skip, ParseMember, ReadsMember, Blank;
    ParsedMember(s, p, d);
    var (m, f) := ParseMember(s, p, d).value;
    var b := Skip(s, f);
    SkippedIsBlank(s, f);
    if At(s, b, COMMA) {
      ParsedMembers(s, b, d);
    }
    var (members, e) := ParseMembers(s, p, d).value;
    assert ReadsMember(s, p + 1, f, members[0], d, false) && Blank(s, f, b);
  }

  /** What is properly written is parsed. */
  lemma {:induction false} WrittenValue(s: seq<byte>, p: nat, q: nat, v: Value, d: nat)
    requires Reads(s, p, q, v, d, true)
    ensures var r := ParseValue(s, p, d); r.Some? && r.value.0 == v && r.value.1 == q
    decreases v, 1
  {
    hide ParseArray, ParseObject, ParseString, ReadsString, ReadsItems, ReadsMembers;
    ReadsFirst(s, p, q, v, d, true);
    Dispatch(s, p, v);
    match v
    case Null => WordLength(s, p, q, NullText());
    case False => WordLength(s, p, q, FalseText());
    case True => WordLength(s, p, q, TrueText());
    case Str(str) => WrittenString(s, p, q, str);
    case Arr(items) => WrittenArray(s, p, q, items, d);
    case Obj(members) => WrittenObject(s, p, q, members, d);
  }

  lemma {:induction false} WordLength(s: seq<byte>, p: nat, q: nat, word: seq<byte>)
    requires p <= q <= |s| && s[p..q] == word
    ensures q == p + |word| && StartsWith(s, p, word)
  {
  }

  lemma {:induction false} WrittenArray(s: seq<byte>, p: nat, q: nat, items: seq<Value>, d: nat)
    requires Reads(s, p, q, Arr(items), d, true)
    ensures var r := ParseArray(s, p, d); r.Some? && r.value.0 == Arr(items) && r.value.1 == q
    decreases items, 1
  {
    hide ParseItems, ReadsItems;
    if items == [] {
      SkipsTo(s, p + 1, q - 1);
    } else {
      var a := ItemsBegin(s, p + 1, q, items, d + 1);
      hide Skip;
      WrittenItems(s, a - 1, a, q, items, d + 1);
    }
  }

  /** Where the first item is written. */
  lemma {:induction false} ItemsBegin(s: seq<byte>, p: nat, q: nat, items: seq<Value>, d: nat) returns (a: nat)
    requires items != [] && ReadsItems(s, p, q, items, d, true)
    ensures p <= a < |s| && Skip(s, p) == a && s[a] != 93 && ReadsItems(s, a, q, items, d, true)
  {
    hide Reads, Skip;
    var e: nat, b: nat;
    a, e, b :|
      && Blank(s, p, a) && Reads(s, a, e, items[0], d, true) && Blank(s, e, b) && b < q <= |s|
      && if |items| == 1 then s[b] == 93 && q == b + 1 else s[b] == 44 && ReadsItems(s, b + 1, q, items[1..], d, true);
    ReadsFirst(s, a, e, items[0], d, true);
    SkipsTo(s, p, a);
    NoBlank(s, a);
  }

  lemma {:induction false} FirstItem(s: seq<byte>, p: nat, q: nat, items: seq<Value>, d: nat) returns (a: nat, e: nat, b: nat)
    requires items != [] && ReadsItems(s, p, q, items, d, true)
    ensures Blank(s, p, a) && Reads(s, a, e, items[0], d, true) && Blank(s, e, b) && b < q <= |s|
    ensures if |items| == 1 then s[b] == 93 && q == b + 1 else s[b] == 44 && ReadsItems(s, b + 1, q, items[1..], d, true)
  {
    hide Reads, Blank;
    a, e, b :|
      && Blank(s, p, a) && Reads(s, a, e, items[0], d, true) && Blank(s, e, b) && b < q <= |s|
      && if |items| == 1 then s[b] == 93 && q == b + 1 else s[b] == 44 && ReadsItems(s, b + 1, q, items[1..], d, true);
  }

  lemma {:induction false} WrittenItems(s: seq<byte>, p: nat, from: nat, q: nat, items: seq<Value>, d: nat)
    requires p < |s| && from == p + 1 && items != [] && ReadsItems(s, from, q, items, d, true)
    ensures var r := ParseItems(s, p, d); r.Some? && r.value.0 == items && r.value.1 == q
    decreases items, 0
  {
    hide ParseValue, Skip, Reads, ReadsItems, Blank;
    var a, e, b := FirstItem(s, from, q, items, d);
    ReadsFirst(s, a, e, items[0], d, true);
    SkipsTo(s, from, a);
    WrittenValue(s, a, e, items[0], d);
    SkipsTo(s, e, b);
    if |items| == 1 {
      assert items == [items[0]];
    } else {
      WrittenItems(s, b, b + 1, q, items[1..], d);
      assert items == [items[0]] + items[1..];
    }
  }

  lemma {:induction false} WrittenObject(s: seq<byte>, p: nat, q: nat, members: seq<Member>, d: nat)
    requires Reads(s, p, q, Obj(members), d, true)
    ensures var r := ParseObject(s, p, d); r.Some? && r.value.0 == Obj(members) && r.value.1 == q
    decreases members, 1
  {
    hide ParseMembers, ReadsMembers;
    if members == [] {
      SkipsTo(s, p + 1, q - 1);
    } else {
      var k := MembersBegin(s, p + 1, q, members, d + 1);
      hide Skip;
      WrittenMembers(s, k - 1, k, q, members, d + 1);
    }
  }

  /** Where the first key is written. */
  lemma {:induction false} MembersBegin(s: seq<byte>, p: nat, q: nat, members: seq<Member>, d: nat) returns (k: nat)
    requires members != [] && ReadsMembers(s, p, q, members, d, true)
    ensures p <= k < |s| && Skip(s, p) == k && s[k] != 125 && ReadsMembers(s, k, q, members, d, true)
  {
    hide ReadsMember, Skip, Blank;
    var e: nat, b: nat :|
      && ReadsMember(s, p, e, members[0], d, true) && Blank(s, e, b) && b < q <= |s|
      && if |members| == 1 then s[b] == 125 && q == b + 1 else s[b] == 44 && ReadsMembers(s, b + 1, q, members[1..], d, true);
    k := MemberBegins(s, p, e, members[0], d);
  }

  lemma {:induction false} MemberBegins(s: seq<byte>, p: nat, e: nat, m: Member, d: nat) returns (k: nat)
    requires ReadsMember(s, p, e, m, d, true)
    ensures p <= k < |s| && Skip(s, p) == k && s[k] == 34 && ReadsMember(s, k, e, m, d, true)
  {
    hide Reads, Skip, Characters;
    var c: nat, n: nat, a: nat;
    k, c, n, a :|
      && Blank(s, p, k) && ReadsString(s, k, c, m.key, true) && Blank(s, c, n) && n < |s| && s[n] == 58
      && Blank(s, n + 1, a) && Reads(s, a, e, m.value, d, true);
    SkipsTo(s, p, k);
    NoBlank(s, k);
  }

  lemma {:induction false} KeyAndValue(s: seq<byte>, p: nat, e: nat, m: Member, d: nat) returns (k: nat, c: nat, n: nat, a: nat)
    requires ReadsMember(s, p, e, m, d, true)
    ensures Blank(s, p, k) && ReadsString(s, k, c, m.key, true) && Blank(s, c, n) && n < |s| && s[n] == 58
    ensures Blank(s, n + 1, a) && Reads(s, a, e, m.value, d, true)
  {
    hide Reads, Characters, Blank;
    k, c, n, a :|
      && Blank(s, p, k) && ReadsString(s, k, c, m.key, true) && Blank(s, c, n) && n < |s| && s[n] == 58
      && Blank(s, n + 1, a) && Reads(s, a, e, m.value, d, true);
  }

  lemma {:induction false} WrittenMember(s: seq<byte>, p: nat, from: nat, e: nat, m: Member, d: nat)
    requires p < |s| && from == p + 1 && ReadsMember(s, from, e, m, d, true)
    ensures var r := ParseMember(s, p, d); r.Some? && r.value.0 == m && r.value.1 == e
    decreases m, 0
  {
    hide ParseValue, Skip, Reads, ParseString, Characters, ReadsMember, Blank;
    var k, c, n, a := KeyAndValue(s, from, e, m, d);
    SkipsTo(s, from, k);
    WrittenString(s, k, c, m.key);
    SkipsTo(s, c, n);
    ReadsFirst(s, a, e, m.value, d, true);
    SkipsTo(s, n + 1, a);
    WrittenValue(s, a, e, m.value, d);
  }

  lemma {:induction false} WrittenMembers(s: seq<byte>, p: nat, from: nat, q: nat, members: seq<Member>, d: nat)
    requires p < |s| && from == p + 1 && members != [] && ReadsMembers(s, from, q, members, d, true)
    ensures var r := ParseMembers(s, p, d); r.Some? && r.value.0 == members && r.value.1 == q
    decreases members, 0
  {
    hide ParseMember, Skip, ReadsMember;
    var e: nat, b: nat :|
      && ReadsMember(s, from, e, members[0], d, true) && Blank(s, e, b) && b < q <= |s|
      && if |members| == 1 then s[b] == 125 && q == b + 1 else s[b] == 44 && ReadsMembers(s, b + 1, q, members[1..], d, true);
    WrittenMember(s, p, from, e, members[0], d);
    SkipsTo(s, e, b);
    if |members| == 1 {
      assert members == [members[0]];
    } else {
      WrittenMembers(s, b, b + 1, q, members[1..], d);
      assert members == [members[0]] + members[1..];
    }
  }

  // ---------- texts ----------

  /** A text, as a buffer with a 0 at its end: perhaps a byte order mark, white space, the value from `p` to `e`, and if it is
      to be the whole text only white space. */
  ghost predicate TextOf(s: seq<byte>, p: nat, e: nat, v: Value, whole: bool, proper: bool)
  {
    && Reads(s, p, e, v, 0, proper) && Blank(s, if |s| > 4 && s[0] == 0xEF && s[1] == 0xBB && s[2] == 0xBF then 3 else 0, p)
    && (whole ==> Blank(s, e, |s|))
  }

  lemma {:induction false} BomIs(s: seq<byte>)
    ensures SkipBom(s) == if |s| > 4 && s[0] == 0xEF && s[1] == 0xBB && s[2] == 0xBF then 3 else 0
  {
    if |s| > 4 {
      assert s[..3] == [s[0], s[1], s[2]];
    }
  }

  /** Up to the 0 at the end there is only white space. */
  lemma {:induction false} EndIsBlank(text: seq<byte>, e: nat)
    requires NulFree(text) && e <= |text| + 1
    ensures var s := text + [0]; At(s, Skip(s, e), 0) <==> e <= |text| && Blank(s, e, |s|)
  {
  }

  lemma {:induction false} CStringIsNulFree(s: seq<byte>)
    ensures NulFree(CString(s))
  {
  }

  /** What is parsed is the text. */
  lemma {:induction false} ParsedText(text: seq<byte>, whole: bool)
    requires Parse(text, whole).Some?
    ensures exists p, e :: TextOf(CString(text) + [0], p, e, Parse(text, whole).value, whole, false)
  {
    hide Skip, ParseValue, Reads;
    var s := CString(text) + [0];
    CStringIsNulFree(text);
    var p := Skip(s, SkipBom(s));
    var (v, e) := ParseValue(s, p, 0).value;
    ParsedValue(s, p, 0);
    ReadsFirst(s, p, e, v, 0, false);
    SkippedIsBlank(s, SkipBom(s));
    BomIs(s);
    EndIsBlank(CString(text), e);
    assert TextOf(s, p, e, v, whole, false);
  }

  /** A proper text is parsed. */
  lemma {:induction false} WrittenText(text: seq<byte>, p: nat, e: nat, v: Value, whole: bool)
    requires TextOf(CString(text) + [0], p, e, v, whole, true)
    ensures Parse(text, whole) == Some(v)
  {
    hide Skip, ParseValue, Reads;
    var s := CString(text) + [0];
    CStringIsNulFree(text);
    ReadsFirst(s, p, e, v, 0, true);
    EndInText(s, p, e, v);
    BomIs(s);
    SkipsTo(s, SkipBom(s), p);
    WrittenValue(s, p, e, v, 0);
    if whole {
      EndIsBlank(CString(text), e);
    }
  }

  lemma {:induction false} EndInText(s: seq<byte>, p: nat, e: nat, v: Value)
    requires Reads(s, p, e, v, 0, true)
    ensures e <= |s| && s[e - 1] > 32
  {
    hide ReadsItems, ReadsMembers, Characters;
    match v
    case Null => assert s[e - 1] == s[p..e][|s[p..e]| - 1];
    case False => assert s[e - 1] == s[p..e][|s[p..e]| - 1];
    case True => assert s[e - 1] == s[p..e][|s[p..e]| - 1];
    case Str(_) =>
    case Arr(items) =>
      if items != [] {
        ItemsEnd(s, p + 1, e, items, 1);
      }
    case Obj(members) =>
      if members != [] {
        MembersEnd(s, p + 1, e, members, 1);
      }
  }

  lemma {:induction false} ItemsEnd(s: seq<byte>, p: nat, q: nat, items: seq<Value>, d: nat)
    requires items != [] && ReadsItems(s, p, q, items, d, true)
    ensures 0 < q <= |s| && s[q - 1] == 93
    decreases items
  {
    hide ReadsItems, Blank, Reads;
    var a, e, b := FirstItem(s, p, q, items, d);
    if |items| > 1 {
      ItemsEnd(s, b + 1, q, items[1..], d);
    }
  }

  lemma {:induction false} MembersEnd(s: seq<byte>, p: nat, q: nat, members: seq<Member>, d: nat)
    requires members != [] && ReadsMembers(s, p, q, members, d, true)
    ensures 0 < q <= |s| && s[q - 1] == 125
    decreases members
  {
    hide ReadsMember, Blank;
    var e: nat, b: nat :|
      && ReadsMember(s, p, e, members[0], d, true) && Blank(s, e, b) && b < q <= |s|
      && if |members| == 1 then s[b] == 125 && q == b + 1 else s[b] == 44 && ReadsMembers(s, b + 1, q, members[1..], d, true);
    if |members| > 1 {
      MembersEnd(s, b + 1, q, members[1..], d);
    }
  }

  // ---------- what is printed ----------

  /** Nothing that is printed in a string is a control character. */
  lemma {:induction false} EscapeIsClean(b: byte)
    ensures forall k :: 0 <= k < |Escape(b)| ==> Escape(b)[k] >= 32
  {
  }

  /** Of all ways to write a byte without control characters the printer takes a shortest one. */
  lemma {:induction false} EscapeIsShortest(b: byte, s: seq<byte>, i: nat, j: nat)
    requires Character(s, i, j, [b], true) && forall k :: i <= k < j && k < |s| ==> s[k] >= 32
    ensures |Escape(b)| <= j - i
  {
  }
}
