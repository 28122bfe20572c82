/** The parser and the printer of cJSON, without numbers; strings follow section 7 of RFC 8259. */
module Json {
  import opened Wire
  import opened Seqs

  /** Strings are C strings: no byte of them is 0. */
  datatype Value = Null | False | True | Str(s: seq<byte>) | Arr(items: seq<Value>) | Obj(members: seq<Member>)
  datatype Member = Member(key: seq<byte>, value: Value)

  /** How deeply arrays and objects may be nested. */
  const NESTING_LIMIT := 1000

  const QUOTE: byte := 34
  const BACKSLASH: byte := 92
  const COMMA: byte := 44
  const COLON: byte := 58
  const OPEN_ARRAY: byte := 91
  const CLOSE_ARRAY: byte := 93
  const OPEN_OBJECT: byte := 123
  const CLOSE_OBJECT: byte := 125
  const TAB: byte := 9
  const NEWLINE: byte := 10
  const SPACE: byte := 32
  const ZERO: byte := 48
  const LETTER_U: byte := 117

  function NullText(): seq<byte> { [110, 117, 108, 108] }
  function FalseText(): seq<byte> { [102, 97, 108, 115, 101] }
  function TrueText(): seq<byte> { [116, 114, 117, 101] }

  // ---------- strings: the parser ----------

  function HexDigit(b: byte): Option<nat>
  {
    if 48 <= b <= 57 then Some(b as int - 48)
    else if 65 <= b <= 70 then Some(10 + b as int - 65)
    else if 97 <= b <= 102 then Some(10 + b as int - 97)
    else None
  }

  /** The number in four hexadecimal digits, 0 if one of them is none. */
  function ParseHex4(s: seq<byte>, p: nat): nat
    requires p + 4 <= |s|
  {
    var a, b, c, d := HexDigit(s[p]), HexDigit(s[p + 1]), HexDigit(s[p + 2]), HexDigit(s[p + 3]);
    if a.None? || b.None? || c.None? || d.None? then 0
    else 4096 * a.value + 256 * b.value + 16 * c.value + d.value
  }

  /** The code point of the UTF-16 literal at `p` and the length of the literal; one or two `\uXXXX`. */
  function Codepoint(s: seq<byte>, p: nat, end: nat): Option<(nat, nat)>
    requires p <= end <= |s|
  {
    if end - p < 6 then None
    else
      var first := ParseHex4(s, p + 2);
      if 0xDC00 <= first <= 0xDFFF then None
      else if 0xD800 <= first <= 0xDBFF then
        if end - (p + 6) < 6 || s[p + 6] != BACKSLASH || s[p + 7] != LETTER_U then None
        else
          var second := ParseHex4(s, p + 8);
          if second < 0xDC00 || second > 0xDFFF then None
          else Some((0x10000 + first % 1024 * 1024 + second % 1024, 12))
      else Some((first, 6))
  }

  /** UTF-8. */
  function Utf8(code: nat): Option<seq<byte>>
  {
    if code < 0x80 then Some([B(code)])
    else if code < 0x800 then Some([B(0xC0 + code / 64), B(0x80 + code % 64)])
    else if code < 0x10000 then Some([B(0xE0 + code / 4096), B(0x80 + code / 64 % 64), B(0x80 + code % 64)])
    else if code <= 0x10FFFF then
      Some([B(0xF0 + code / 262144), B(0x80 + code / 4096 % 64), B(0x80 + code / 64 % 64), B(0x80 + code % 64)])
    else None
  }

  /** The character a one-letter escape sequence stands for. */
  function Letter(b: byte): Option<byte>
  {
    if b == 98 then Some(8)
    else if b == 102 then Some(12)
    else if b == 110 then Some(10)
    else if b == 114 then Some(13)
    else if b == 116 then Some(9)
    else if b == QUOTE || b == BACKSLASH || b == 47 then Some(b)
    else None
  }

  /** The closing quote of a string. */
  function FindEnd(s: seq<byte>, e: nat): (r: Option<nat>)
    requires e <= |s|
    ensures r.Some? ==> e <= r.value < |s| && s[r.value] == QUOTE
    decreases |s| - e
  {
    if e == |s| then None
    else if s[e] == QUOTE then Some(e)
    else if s[e] == BACKSLASH then if e + 1 >= |s| then None else FindEnd(s, e + 2)
    else FindEnd(s, e + 1)
  }

  /** The bytes and the length of the escape sequence at `i`. */
  function Unescaped(s: seq<byte>, i: nat, end: nat): (r: Option<(seq<byte>, nat)>)
    requires i < end < |s|
    ensures r.Some? ==> r.value.1 >= 2
  {
    if s[i + 1] == LETTER_U then
      match Codepoint(s, i, end)
      case None => None
      case Some((code, len)) => if Utf8(code).Some? then Some((Utf8(code).value, len)) else None
    else if Letter(s[i + 1]).Some? then Some(([Letter(s[i + 1]).value], 2))
    else None
  }

  /** The string between `i` and its closing quote at `end`. */
  function Unescape(s: seq<byte>, i: nat, end: nat): Option<seq<byte>>
    requires end < |s|
    decreases end - i
  {
    if i >= end then Some([])
    else if s[i] != BACKSLASH then
      var rest := Unescape(s, i + 1, end);
      if rest.Some? then Some([s[i]] + rest.value) else None
    else
      match Unescaped(s, i, end)
      case None => None
      case Some((bytes, len)) =>
        var rest := Unescape(s, i + len, end);
        if rest.Some? then Some(bytes + rest.value) else None
  }

  /** A buffer read as a C string: up to the first 0. */
  function CString(s: seq<byte>): (r: seq<byte>)
    ensures forall i :: 0 <= i < |r| ==> r[i] != 0
  {
    if s == [] || s[0] == 0 then [] else [s[0]] + CString(s[1..])
  }

  function ParseString(s: seq<byte>, p: nat): (r: Option<(seq<byte>, nat)>)
    requires p <= |s|
    ensures r.Some? ==> p < r.value.1 <= |s|
  {
    if p == |s| || s[p] != QUOTE then None
    else
      match FindEnd(s, p + 1)
      case None => None
      case Some(end) =>
        match Unescape(s, p + 1, end)
        case None => None
        case Some(bytes) => Some((CString(bytes), end + 1))
  }

  // ---------- strings: the printer ----------

  function HexChar(n: nat): byte
    requires n < 16
  {
    if n < 10 then B(48 + n) else B(97 + n - 10)
  }

  /** A character as it is printed inside a string. */
  function Escape(b: byte): seq<byte>
  {
    if b > 31 && b != QUOTE && b != BACKSLASH then [b]
    else if b == QUOTE || b == BACKSLASH then [BACKSLASH, b]
    else if b == 8 then [BACKSLASH, 98]
    else if b == 12 then [BACKSLASH, 102]
    else if b == 10 then [BACKSLASH, 110]
    else if b == 13 then [BACKSLASH, 114]
    else if b == 9 then [BACKSLASH, 116]
    else [BACKSLASH, LETTER_U, ZERO, ZERO, HexChar(b as int / 16), HexChar(b as int % 16)]
  }

  function EscapeAll(s: seq<byte>): seq<byte>
  {
    if s == [] then [] else Escape(s[0]) + EscapeAll(s[1..])
  }

  function PrintString(s: seq<byte>): seq<byte>
  {
    [QUOTE] + EscapeAll(s) + [QUOTE]
  }

  predicate NulFree(s: seq<byte>)
  {
    forall i :: 0 <= i < |s| ==> s[i] != 0
  }

  // ---------- strings: the round trip ----------

  lemma HexRoundTrip(b: byte)
    requires b < 32
    ensures HexDigit(HexChar(b as int / 16)) == Some(b as int / 16) && HexDigit(HexChar(b as int % 16)) == Some(b as int % 16)
    ensures HexChar(b as int / 16) != QUOTE && HexChar(b as int % 16) != QUOTE
    ensures HexChar(b as int / 16) != BACKSLASH && HexChar(b as int % 16) != BACKSLASH
  {
  }

  /** An escaped character does not end the string. */
  lemma EndBehindEscape(s: seq<byte>, p: nat, b: byte)
    requires Carries(s, p, Escape(b))
    ensures FindEnd(s, p) == FindEnd(s, p + |Escape(b)|)
  {
    var e := Escape(b);
    assert s[p + 0] == e[0];
    if |e| > 1 {
      assert s[p + 1] == e[1];
    }
    if |e| > 2 {
      HexRoundTrip(b);
      assert s[p + 2] == e[2] && s[p + 3] == e[3] && s[p + 4] == e[4] && s[p + 5] == e[5];
      assert FindEnd(s, p + 2) == FindEnd(s, p + 3) == FindEnd(s, p + 4) == FindEnd(s, p + 5) == FindEnd(s, p + 6);
    }
  }

  /** An escaped character is read back. */
  lemma UnescapesOne(s: seq<byte>, p: nat, end: nat, b: byte)
    requires b != 0 && Carries(s, p, Escape(b)) && p + |Escape(b)| <= end < |s|
    ensures if |Escape(b)| == 1 then s[p] == b != BACKSLASH
            else s[p] == BACKSLASH && Unescaped(s, p, end) == Some(([b], |Escape(b)|))
  {
    var e := Escape(b);
    assert s[p + 0] == e[0];
    if |e| > 1 {
      assert s[p + 1] == e[1];
    }
    if |e| > 2 {
      HexRoundTrip(b);
      assert s[p + 2] == e[2] && s[p + 3] == e[3] && s[p + 4] == e[4] && s[p + 5] == e[5];
      assert ParseHex4(s, p + 2) == b as int;
    }
  }

  lemma {:induction false} UnescapesAll(s: seq<byte>, p: nat, end: nat, str: seq<byte>)
    requires NulFree(str) && Carries(s, p, EscapeAll(str)) && end == p + |EscapeAll(str)| < |s| && s[end] == QUOTE
    ensures FindEnd(s, p) == Some(end) && Unescape(s, p, end) == Some(str)
    decreases str
  {
    hide Escape, Unescaped, Carries;
    if str != [] {
      var e := Escape(str[0]);
      CarriesSplit(s, p, e, EscapeAll(str[1..]));
      EndBehindEscape(s, p, str[0]);
      UnescapesOne(s, p, end, str[0]);
      UnescapesAll(s, p + |e|, end, str[1..]);
      assert str == [str[0]] + str[1..];
    }
  }

  lemma {:induction false} CStringOfNulFree(s: seq<byte>)
    requires NulFree(s)
    ensures CString(s) == s
  {
    if s != [] {
      CStringOfNulFree(s[1..]);
      assert s == [s[0]] + s[1..];
    }
  }

  /** A printed string is read back. */
  lemma ParsesString(s: seq<byte>, p: nat, str: seq<byte>)
    requires NulFree(str) && Carries(s, p, PrintString(str))
    ensures p <= |s| && ParseString(s, p) == Some((str, p + |PrintString(str)|))
  {
    var body := EscapeAll(str);
    CarriesSplit(s, p, [QUOTE] + body, [QUOTE]);
    CarriesSplit(s, p, [QUOTE], body);
    var quote := [QUOTE];
    assert s[p + 0] == quote[0] && s[p + 1 + |body| + 0] == quote[0];
    UnescapesAll(s, p + 1, p + 1 + |body|, str);
    CStringOfNulFree(str);
  }

  // ---------- Unicode ----------

  /** The code point UTF-8 stands for. */
  function Utf8Value(u: seq<byte>): nat
    requires 1 <= |u| <= 4
  {
    if |u| == 1 then u[0] as int
    else if |u| == 2 then u[0] as int % 32 * 64 + u[1] as int % 64
    else if |u| == 3 then u[0] as int % 16 * 4096 + u[1] as int % 64 * 64 + u[2] as int % 64
    else u[0] as int % 8 * 262144 + u[1] as int % 64 * 4096 + u[2] as int % 64 * 64 + u[3] as int % 64
  }

  lemma Low6(base: nat, n: nat)
    requires n < 64 && base == 0x80
    ensures B(base + n) as int % 64 == n
  {
  }

  /** The digits of a number to the base 64. */
  lemma Base64(code: nat)
    ensures code == code / 64 * 64 + code % 64
    ensures code / 64 == code / 4096 * 64 + code / 64 % 64
    ensures code / 4096 == code / 262144 * 64 + code / 4096 % 64
  {
  }

  lemma Utf8Short(code: nat)
    requires code < 0x800
    ensures Utf8(code).Some? && 1 <= |Utf8(code).value| <= 2 && Utf8Value(Utf8(code).value) == code
  {
    if code >= 0x80 {
      Low6(0x80, code % 64);
      assert B(0xC0 + code / 64) as int % 32 == code / 64;
    }
  }

  lemma Utf8Three(code: nat)
    requires 0x800 <= code < 0x10000
    ensures Utf8(code).Some? && |Utf8(code).value| == 3 && Utf8Value(Utf8(code).value) == code
  {
    Low6(0x80, code % 64);
    Low6(0x80, code / 64 % 64);
    Base64(code);
    assert B(0xE0 + code / 4096) as int % 16 == code / 4096;
  }

  lemma Utf8Four(code: nat)
    requires 0x10000 <= code <= 0x10FFFF
    ensures Utf8(code).Some? && |Utf8(code).value| == 4 && Utf8Value(Utf8(code).value) == code
  {
    Low6(0x80, code % 64);
    Low6(0x80, code / 64 % 64);
    Low6(0x80, code / 4096 % 64);
    Base64(code);
    assert B(0xF0 + code / 262144) as int % 8 == code / 262144;
  }

  /** Every Unicode code point is encoded, and its bytes tell it. */
  lemma Utf8RoundTrip(code: nat)
    ensures Utf8(code).Some? <==> code <= 0x10FFFF
    ensures code <= 0x10FFFF ==> 1 <= |Utf8(code).value| <= 4 && Utf8Value(Utf8(code).value) == code
  {
    if code > 0x10FFFF {
      assert Utf8(code).None?;
    } else {
      hide Utf8, Utf8Value;
      if code < 0x800 {
        Utf8Short(code);
      } else if code < 0x10000 {
        Utf8Three(code);
      } else {
        Utf8Four(code);
      }
    }
  }

  lemma SurrogateBits(q: nat, r: nat)
    requires q < 1024 && r < 1024
    ensures (0xD800 + q) % 1024 == q && (0xDC00 + r) % 1024 == r
  {
  }

  /** A code point behind the first 65536 is written as two literals and read as one. */
  lemma SurrogatesRoundTrip(s: seq<byte>, p: nat, end: nat, q: nat, r: nat)
    requires q < 1024 && r < 1024 && p + 12 <= end <= |s| && s[p + 6] == BACKSLASH && s[p + 7] == LETTER_U
    requires ParseHex4(s, p + 2) == 0xD800 + q && ParseHex4(s, p + 8) == 0xDC00 + r
    ensures var c := Codepoint(s, p, end); c.Some? && c.value.0 == 0x10000 + 1024 * q + r && c.value.1 == 12
  {
    hide ParseHex4;
    SurrogateBits(q, r);
  }
}
