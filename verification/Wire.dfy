/** Bytes on the wire and the cursor the RFC 5444 reader moves over them. */
module Wire {
  import opened Seqs

  /** What a buffer is made of. */
  newtype byte = b: int | 0 <= b < 256

  /** The value of a `uint8_t`. */
  type u8 = n: int | 0 <= n < 256

  /** The byte a `uint8_t` takes from `n`. */
  function B(n: int): byte
  {
    (n % 256) as byte
  }

  datatype Error =
    | EndOfBuffer | BadTlvIdxFlags | BadTlvIndex | BadTlvValueFlags | BadTlvLength | DividesByZero
    | UnsupportedVersion | TooLarge
    | EmptyAddrBlock | BadAddrHeadLength | BadAddrTailLength | BadTailFlags | BadPrefixFlags

  datatype Option<T> = None | Some(value: T)

  datatype Result<T> = Ok(value: T) | Err(error: Error)

  /** The position in the buffer and whether a read went past the end: once set, `failed` stays set. */
  datatype Cursor = Cursor(pos: nat, failed: bool)

  function GetU8(buf: seq<byte>, end: int, c: Cursor): (u8, Cursor)
    requires end <= |buf|
  {
    if c.failed then (0, c)
    else if c.pos >= end then (0, c.(failed := true))
    else (buf[c.pos] as int, c.(pos := c.pos + 1))
  }

  function GetU16(buf: seq<byte>, end: int, c: Cursor): (nat, Cursor)
    requires end <= |buf|
  {
    var (high, c1) := GetU8(buf, end, c);
    var (low, c2) := GetU8(buf, end, c1);
    (256 * high + low, c2)
  }

  /** The two bytes of the low 16 bits of `n`, most significant first. */
  function U16(n: nat): (r: seq<byte>)
    ensures |r| == 2
  {
    [B(n / 256), B(n)]
  }

  /** Whether the bits of `mask`, a power of two, are set. */
  predicate Has(flags: u8, mask: int)
    requires mask in {128, 64, 32, 16, 8, 4}
  {
    flags / mask % 2 == 1
  }

  function Bit(b: bool, mask: int): int
  {
    if b then mask else 0
  }

  /** `buf` holds `s` from position `p` on. */
  ghost predicate Carries(buf: seq<byte>, p: int, s: seq<byte>)
  {
    0 <= p && p + |s| <= |buf| && forall i {:trigger s[i]} :: 0 <= i < |s| ==> buf[p + i] == s[i]
  }

  lemma CarriesSplit(buf: seq<byte>, p: int, s: seq<byte>, t: seq<byte>)
    requires Carries(buf, p, s + t)
    ensures Carries(buf, p, s) && Carries(buf, p + |s|, t)
  {
    var u := s + t;
    forall i | 0 <= i < |s|
      ensures buf[p + i] == s[i]
    {
      assert u[i] == s[i];
    }
    forall i | 0 <= i < |t|
      ensures buf[p + |s| + i] == t[i]
    {
      assert u[|s| + i] == t[i];
    }
  }

  /** The first of several parts, and what comes behind it. */
  lemma FirstPart(buf: seq<byte>, p: int, first: seq<byte>, rest: seq<seq<byte>>)
    requires Carries(buf, p, Flatten([first] + rest))
    ensures Carries(buf, p, first) && Carries(buf, p + |first|, Flatten(rest))
    ensures |Flatten([first] + rest)| == |first| + |Flatten(rest)|
  {
    assert ([first] + rest)[1..] == rest;
    CarriesSplit(buf, p, first, Flatten(rest));
  }

  lemma FiveParts(buf: seq<byte>, p: nat, a: seq<byte>, b: seq<byte>, c: seq<byte>, d: seq<byte>, e: seq<byte>)
    requires Carries(buf, p, Flatten([a, b, c, d, e]))
    ensures Carries(buf, p, a) && Carries(buf, p + |a|, b) && Carries(buf, p + |a| + |b|, c)
    ensures Carries(buf, p + |a| + |b| + |c|, d) && Carries(buf, p + |a| + |b| + |c| + |d|, e)
    ensures |Flatten([a, b, c, d, e])| == |a| + |b| + |c| + |d| + |e|
  {
    assert [a, b, c, d, e] == [a] + [b, c, d, e];
    FirstPart(buf, p, a, [b, c, d, e]);
    assert [b, c, d, e] == [b] + [c, d, e];
    FirstPart(buf, p + |a|, b, [c, d, e]);
    assert [c, d, e] == [c] + [d, e];
    FirstPart(buf, p + |a| + |b|, c, [d, e]);
    assert [d, e] == [d] + [e];
    FirstPart(buf, p + |a| + |b| + |c|, d, [e]);
    assert [e] == [e] + [];
    FirstPart(buf, p + |a| + |b| + |c| + |d|, e, []);
  }

  lemma FlattenFive(a: seq<byte>, b: seq<byte>, c: seq<byte>, d: seq<byte>, e: seq<byte>)
    ensures Flatten([a, b, c, d, e]) == a + b + c + d + e
  {
    assert [a, b, c, d, e][1..] == [b, c, d, e];
    assert [b, c, d, e][1..] == [c, d, e];
    assert [c, d, e][1..] == [d, e];
    assert [d, e][1..] == [e];
    assert [e][1..] == [];
    assert Flatten([d, e]) == d + Flatten([e]) == d + e;
    assert Flatten([b, c, d, e]) == b + Flatten([c, d, e]) == b + (c + Flatten([d, e]));
    assert Flatten([a, b, c, d, e]) == a + Flatten([b, c, d, e]);
  }

  lemma CarriesSlice(buf: seq<byte>, p: int, s: seq<byte>)
    requires Carries(buf, p, s)
    ensures buf[p..p + |s|] == s
  {
  }

  lemma ReadsU8(buf: seq<byte>, end: int, p: nat, n: u8)
    requires Carries(buf, p, [B(n)]) && p < end <= |buf|
    ensures GetU8(buf, end, Cursor(p, false)) == (n, Cursor(p + 1, false))
  {
    assert buf[p + 0] == [B(n)][0];
  }

  lemma ReadsU16(buf: seq<byte>, end: int, p: nat, n: nat)
    requires Carries(buf, p, U16(n)) && n < 65536 && p + 2 <= end <= |buf|
    ensures GetU16(buf, end, Cursor(p, false)) == (n, Cursor(p + 2, false))
  {
    assert buf[p + 0] == U16(n)[0] && buf[p + 1] == U16(n)[1];
  }
}
