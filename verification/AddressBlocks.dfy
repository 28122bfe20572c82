/** Address blocks of RFC 5444, section 5.3: addresses that share a head and maybe a tail
    (`_write_addresses` and `_parse_addrblock`). */
module AddressBlocks {
  import opened Wire
  import opened Seqs

  // The flags of an address block.
  const HEAD := 128
  const FULL_TAIL := 64
  const ZERO_TAIL := 32
  const SINGLE_PLEN := 16
  const MULTI_PLEN := 8

  /** The longest address the reader accepts. */
  const MAX_ADDRLEN := 16

  datatype Address = Address(bytes: seq<byte>, plen: u8)

  datatype Flags = Flags(head: bool, fullTail: bool, zeroTail: bool, singlePlen: bool, multiPlen: bool)

  function DecodeFlags(b: u8): Flags
  {
    Flags(Has(b, HEAD), Has(b, FULL_TAIL), Has(b, ZERO_TAIL), Has(b, SINGLE_PLEN), Has(b, MULTI_PLEN))
  }

  function EncodeFlags(f: Flags): u8
  {
    Bit(f.head, HEAD) + Bit(f.fullTail, FULL_TAIL) + Bit(f.zeroTail, ZERO_TAIL)
    + Bit(f.singlePlen, SINGLE_PLEN) + Bit(f.multiPlen, MULTI_PLEN)
  }

  lemma FlagsRoundTrip(f: Flags)
    ensures DecodeFlags(EncodeFlags(f)) == f
  {
  }

  // ---------- the reader ----------

  /** An address block as the reader stores it: the addresses lie between head and tail of `template`. */
  datatype AddrBlock = AddrBlock(num: nat, template: seq<byte>, midStart: nat, midLen: nat, midSrc: nat, plens: Plens)

  datatype Plens = One(plen: u8) | Each(src: nat)

  function Zeros(n: nat): (z: seq<byte>)
    ensures |z| == n && forall i :: 0 <= i < n ==> z[i] == 0
  {
    seq(n, i => 0)
  }

  function ReadHead(buf: seq<byte>, eob: int, flags: Flags, len: nat, c: Cursor): Result<(seq<byte>, Cursor)>
    requires eob <= |buf|
  {
    if !flags.head then Ok(([], c))
    else
      var (n, d) := GetU8(buf, eob, c);
      if n < 1 || n >= MAX_ADDRLEN || n >= len then Err(BadAddrHeadLength)
      else if d.pos + n > eob then Err(EndOfBuffer)
      else Ok((buf[d.pos..d.pos + n], d.(pos := d.pos + n)))
  }

  /** The length of the tail and the bytes to copy; those of a zero tail are there already. */
  function ReadTail(buf: seq<byte>, eob: int, flags: Flags, len: nat, c: Cursor): Result<(nat, seq<byte>, Cursor)>
    requires eob <= |buf|
  {
    if flags.zeroTail && !flags.fullTail then
      var (n, d) := GetU8(buf, eob, c);
      Ok((n, [], d))
    else if flags.fullTail && !flags.zeroTail then
      var (n, d) := GetU8(buf, eob, c);
      if n < 1 || n >= MAX_ADDRLEN || n >= len then Err(BadAddrTailLength)
      else if d.pos + n > eob then Err(EndOfBuffer)
      else Ok((n, buf[d.pos..d.pos + n], d.(pos := d.pos + n)))
    else if flags.fullTail then Err(BadTailFlags)
    else Ok((0, [], c))
  }

  function ReadPlens(buf: seq<byte>, eob: int, flags: Flags, len: nat, num: nat, pos: nat): Result<(Plens, nat)>
    requires eob <= |buf|
  {
    if flags.singlePlen && flags.multiPlen then Err(BadPrefixFlags)
    else if flags.singlePlen then if pos + 1 > eob then Err(EndOfBuffer) else Ok((One(buf[pos] as int), pos + 1))
    else if flags.multiPlen then if pos + num > eob then Err(EndOfBuffer) else Ok((Each(pos), pos + num))
    else if pos > eob then Err(EndOfBuffer)
    else Ok((One(len * 8 % 256), pos))
  }

  /** Head and tail put into a zeroed address. */
  function Template(head: seq<byte>, tail: seq<byte>, len: nat): (t: seq<byte>)
    requires |head| <= len && |tail| <= len
    ensures |t| == len
  {
    (head + Zeros(len - |head|))[..len - |tail|] + tail
  }

  function ParseAddrBlock(buf: seq<byte>, p: nat, eob: int, len: nat): Result<(AddrBlock, nat)>
    requires eob <= |buf|
  {
    var (num, c1) := GetU8(buf, eob, Cursor(p, false));
    if num == 0 then Err(EmptyAddrBlock)
    else
      var (bits, c2) := GetU8(buf, eob, c1);
      ParseForm(buf, eob, len, num, DecodeFlags(bits), c2)
  }

  /** What comes behind the number of addresses and the flags. */
  function ParseForm(buf: seq<byte>, eob: int, len: nat, num: nat, flags: Flags, c2: Cursor): Result<(AddrBlock, nat)>
    requires eob <= |buf|
  {
    match ReadHead(buf, eob, flags, len, c2)
    case Err(e) => Err(e)
    case Ok((head, c3)) =>
      match ReadTail(buf, eob, flags, len, c3)
      case Err(e) => Err(e)
      case Ok((tailLen, tail, c4)) => ParseMids(buf, eob, len, num, flags, head, tailLen, tail, c4)
  }

  function ParseMids(buf: seq<byte>, eob: int, len: nat, num: nat, flags: Flags, head: seq<byte>, tailLen: nat, tail: seq<byte>, c4: Cursor):
      Result<(AddrBlock, nat)>
    requires eob <= |buf| && |head| <= len && |tail| <= len
  {
    var midLen := (len - |head| - tailLen) % 256;
    if c4.pos + midLen * num > eob then Err(EndOfBuffer)
    else
      match ReadPlens(buf, eob, flags, len, num, c4.pos + midLen * num)
      case Err(e) => Err(e)
      case Ok((plens, q)) =>
        if c4.failed then Err(EndOfBuffer)
        else Ok((AddrBlock(num, Template(head, tail, len), |head|, midLen, c4.pos, plens), q))
  }

  lemma InBounds(a: nat, b: nat)
    ensures a * b >= 0
  {
  }

  /** Whether the addresses of a block can be put together: its middle parts lie in the buffer and fit the address. */
  predicate Sane(buf: seq<byte>, b: AddrBlock)
  {
    && b.midStart + b.midLen <= |b.template| && b.midSrc + b.midLen * b.num <= |buf|
    && (b.plens.Each? ==> b.plens.src + b.num <= |buf|)
  }

  /** The prefix length an address gets: 255 stands for the whole address. */
  function Plen(n: u8, len: nat): int
  {
    if n == 255 then len * 8 % 256 else n
  }

  lemma InsideMids(b: AddrBlock, i: nat)
    requires i < b.num
    ensures 0 <= b.midLen * i && b.midLen * i + b.midLen <= b.midLen * b.num
  {
    assert b.midLen * i + b.midLen == b.midLen * (i + 1);
    Monotone(b.midLen, i + 1, b.num);
  }

  lemma Monotone(k: nat, a: nat, b: nat)
    requires a <= b
    ensures k * a <= k * b
  {
    assert k * b == k * a + k * (b - a);
  }

  /** The `i`-th address of a block. */
  function AddressAt(buf: seq<byte>, b: AddrBlock, i: nat): Address
    requires Sane(buf, b) && i < b.num
  {
    InsideMids(b, i);
    var src := b.midSrc + b.midLen * i;
    Address(b.template[..b.midStart] + buf[src..src + b.midLen] + b.template[b.midStart + b.midLen..],
            Plen(match b.plens case One(n) => n case Each(s) => buf[s + i] as int, |b.template|))
  }

  // ---------- the writer ----------

  /** How many of the last bytes, `cap` at most, `a` and `b` share, if they share `tail - 1`. */
  function TailFrom(a: seq<byte>, b: seq<byte>, tail: nat, cap: nat): nat
    requires 1 <= tail && cap <= |a| == |b|
    decreases cap - tail
  {
    if tail > cap then cap
    else if a[|a| - tail] != b[|b| - tail] then tail - 1
    else TailFrom(a, b, tail + 1, cap)
  }

  lemma {:induction false} TailFromShared(a: seq<byte>, b: seq<byte>, tail: nat, cap: nat)
    requires 1 <= tail <= cap + 1 && cap <= |a| == |b|
    requires a[|a| - (tail - 1)..] == b[|b| - (tail - 1)..]
    ensures var r := TailFrom(a, b, tail, cap);
            r <= cap && a[|a| - r..] == b[|b| - r..] && (r < cap ==> a[|a| - r - 1] != b[|b| - r - 1])
    decreases cap - tail
  {
    if tail <= cap && a[|a| - tail] == b[|b| - tail] {
      assert a[|a| - tail..] == [a[|a| - tail]] + a[|a| - (tail - 1)..];
      assert b[|b| - tail..] == [b[|b| - tail]] + b[|b| - (tail - 1)..];
      TailFromShared(a, b, tail + 1, cap);
    }
  }

  ghost predicate SameLength(addrs: seq<Address>, len: nat)
  {
    forall i :: 0 <= i < |addrs| ==> |addrs[i].bytes| == len
  }

  /** The tail of the first `k` addresses, at most `cap` bytes. */
  function TailLen(addrs: seq<Address>, k: nat, len: nat, cap: nat): (t: nat)
    requires k <= |addrs| && SameLength(addrs, len) && cap <= len
    ensures t <= cap
  {
    if k == 0 then cap
    else
      var t := TailLen(addrs, k - 1, len, cap);
      TailBound(addrs[0].bytes, addrs[k - 1].bytes, 1, t);
      TailFrom(addrs[0].bytes, addrs[k - 1].bytes, 1, t)
  }

  lemma {:induction false} TailBound(a: seq<byte>, b: seq<byte>, tail: nat, cap: nat)
    requires 1 <= tail && cap <= |a| == |b|
    ensures tail <= cap + 1 ==> TailFrom(a, b, tail, cap) <= cap
    decreases cap - tail
  {
    if tail <= cap && a[|a| - tail] == b[|b| - tail] {
      TailBound(a, b, tail + 1, cap);
    }
  }

  /** The last `t` bytes of all addresses agree. */
  ghost predicate SharedTail(addrs: seq<Address>, k: nat, len: nat, t: nat)
    requires k <= |addrs| && SameLength(addrs, len) && t <= len
  {
    forall i :: 0 <= i < k ==> addrs[i].bytes[len - t..] == addrs[0].bytes[len - t..]
  }

  lemma ShorterTail(a: seq<byte>, b: seq<byte>, len: nat, t: nat, r: nat)
    requires |a| == |b| == len && r <= t <= len && a[len - t..] == b[len - t..]
    ensures a[len - r..] == b[len - r..]
  {
    assert a[len - r..] == a[len - t..][t - r..];
    assert b[len - r..] == b[len - t..][t - r..];
  }

  lemma TailStep(addrs: seq<Address>, k: nat, len: nat, t: nat, r: nat)
    requires k < |addrs| && SameLength(addrs, len) && r <= t <= len && SharedTail(addrs, k, len, t)
    requires addrs[k].bytes[len - r..] == addrs[0].bytes[len - r..]
    ensures SharedTail(addrs, k + 1, len, r)
  {
    forall i | 0 <= i < k
      ensures addrs[i].bytes[len - r..] == addrs[0].bytes[len - r..]
    {
      ShorterTail(addrs[i].bytes, addrs[0].bytes, len, t, r);
    }
  }

  lemma TailStops(addrs: seq<Address>, k: nat, len: nat, r: nat)
    requires k < |addrs| && SameLength(addrs, len) && r < len
    requires addrs[k].bytes[len - r - 1] != addrs[0].bytes[len - r - 1]
    ensures !SharedTail(addrs, k + 1, len, r + 1)
  {
    assert addrs[k].bytes[len - (r + 1)..][0] != addrs[0].bytes[len - (r + 1)..][0];
  }

  /** The tail is shared by all addresses, and no longer one is unless the head leaves no room. */
  lemma {:induction false} TailIsLongest(addrs: seq<Address>, k: nat, len: nat, cap: nat)
    requires k <= |addrs| && SameLength(addrs, len) && cap <= len
    ensures SharedTail(addrs, k, len, TailLen(addrs, k, len, cap))
    ensures TailLen(addrs, k, len, cap) < cap ==> !SharedTail(addrs, k, len, TailLen(addrs, k, len, cap) + 1)
  {
    hide SharedTail, TailFrom;
    if k == 0 {
      NoneShare(addrs, len, cap);
    } else {
      var t := TailLen(addrs, k - 1, len, cap);
      var r := TailLen(addrs, k, len, cap);
      TailIsLongest(addrs, k - 1, len, cap);
      TailFromShared(addrs[0].bytes, addrs[k - 1].bytes, 1, t);
      TailStep(addrs, k - 1, len, t, r);
      if r < t {
        TailStops(addrs, k - 1, len, r);
      } else if t < cap {
        FewerShare(addrs, k, len, t + 1);
      }
    }
  }

  lemma NoneShare(addrs: seq<Address>, len: nat, t: nat)
    requires SameLength(addrs, len) && t <= len
    ensures SharedTail(addrs, 0, len, t)
  {
  }

  lemma FewerShare(addrs: seq<Address>, k: nat, len: nat, t: nat)
    requires 0 < k <= |addrs| && SameLength(addrs, len) && t <= len && !SharedTail(addrs, k - 1, len, t)
    ensures !SharedTail(addrs, k, len, t)
  {
  }

  /** The tail as `_write_addresses` measures it. */
  method MeasureTail(addrs: seq<Address>, len: nat, head: nat) returns (tailLen: nat)
    requires |addrs| > 0 && SameLength(addrs, len) && head < len
    ensures tailLen == TailLen(addrs, |addrs|, len, len - head - 1)
  {
    tailLen := len - head - 1;
    var start, k := addrs[0].bytes, 0;
    while k < |addrs|
      invariant 0 <= k <= |addrs| && tailLen == TailLen(addrs, k, len, len - head - 1)
    {
      if tailLen == 0 {
        NoTail(addrs, k, |addrs|, len, len - head - 1);
        return;
      }
      var tail := 1;
      while tail <= tailLen
        invariant 1 <= tail <= tailLen + 1 && TailFrom(start, addrs[k].bytes, 1, tailLen) == TailFrom(start, addrs[k].bytes, tail, tailLen)
        invariant tailLen == TailLen(addrs, k, len, len - head - 1)
      {
        if start[len - tail] != addrs[k].bytes[len - tail] {
          break;
        }
        tail := tail + 1;
      }
      tailLen := tail - 1;
      k := k + 1;
    }
  }

  lemma {:induction false} NoTail(addrs: seq<Address>, k: nat, n: nat, len: nat, cap: nat)
    requires k <= n <= |addrs| && SameLength(addrs, len) && cap <= len && TailLen(addrs, k, len, cap) == 0
    ensures TailLen(addrs, n, len, cap) == 0
    decreases n - k
  {
    if k < n {
      NoTail(addrs, k + 1, n, len, cap);
    }
  }

  predicate AllZero(s: seq<byte>)
  {
    forall i :: 0 <= i < |s| ==> s[i] == 0
  }

  /** Addresses that can go into one block: one length, one head of `head` bytes, one prefix length unless `multi`. */
  ghost predicate Joined(addrs: seq<Address>, len: nat, head: nat, multi: bool)
  {
    && 0 < |addrs| && head < len <= MAX_ADDRLEN && SameLength(addrs, len)
    && (forall i :: 0 <= i < |addrs| ==> addrs[i].bytes[..head] == addrs[0].bytes[..head])
    && (!multi ==> forall i :: 0 <= i < |addrs| ==> addrs[i].plen == addrs[0].plen)
  }

  /** The shape of a block: its head and tail length, whether the tail is left out, and the form of the prefix lengths. */
  datatype Form = Form(head: nat, tail: nat, zero: bool, multi: bool, single: bool)

  /** Head and tail are used only for blocks of several addresses. */
  function FormOf(addrs: seq<Address>, len: nat, head: nat, multi: bool): Form
    requires |addrs| > 0 && SameLength(addrs, len) && head < len
  {
    var h := if |addrs| > 1 then head else 0;
    var t := if |addrs| > 1 then TailLen(addrs, |addrs|, len, len - head - 1) else 0;
    Form(h, t, t > 0 && AllZero(addrs[0].bytes[len - t..]), multi, !multi && addrs[0].plen != len * 8)
  }

  function FormFlags(f: Form): Flags
  {
    Flags(f.head > 0, f.tail > 0 && !f.zero, f.tail > 0 && f.zero, f.single, f.multi)
  }

  function HeadPart(start: seq<byte>, head: nat): seq<byte>
    requires head <= |start|
  {
    if head > 0 then [B(head)] + start[..head] else []
  }

  function TailPart(start: seq<byte>, tail: nat, zero: bool): seq<byte>
    requires tail <= |start|
  {
    if tail == 0 then [] else if zero then [B(tail)] else [B(tail)] + start[|start| - tail..]
  }

  function Mids(addrs: seq<Address>, len: nat, head: nat, tail: nat): seq<seq<byte>>
    requires SameLength(addrs, len) && head + tail <= len
  {
    seq(|addrs|, i requires 0 <= i < |addrs| => addrs[i].bytes[head..len - tail])
  }

  function PlenPart(addrs: seq<Address>, f: Form): seq<byte>
    requires |addrs| > 0
  {
    if f.multi then seq(|addrs|, i requires 0 <= i < |addrs| => B(addrs[i].plen))
    else if f.single then [B(addrs[0].plen)]
    else []
  }

  /** The bytes of an address block; the number of addresses is cut to one byte. */
  function EncodeAddrBlock(addrs: seq<Address>, len: nat, head: nat, multi: bool): seq<byte>
    requires |addrs| > 0 && SameLength(addrs, len) && head < len
  {
    var f := FormOf(addrs, len, head, multi);
    Flatten([[B(|addrs|), B(EncodeFlags(FormFlags(f)))], HeadPart(addrs[0].bytes, f.head),
             TailPart(addrs[0].bytes, f.tail, f.zero), Flatten(Mids(addrs, len, f.head, f.tail)), PlenPart(addrs, f)])
  }

  method WriteMids(addrs: seq<Address>, len: nat, head: nat, tail: nat) returns (out: seq<byte>)
    requires SameLength(addrs, len) && head + tail <= len
    ensures out == Flatten(Mids(addrs, len, head, tail))
  {
    ghost var mids := Mids(addrs, len, head, tail);
    var i := 0;
    out := [];
    while i < |addrs|
      invariant 0 <= i <= |addrs| && out == Flatten(mids[..i])
    {
      FlattenHead(mids, i);
      out := out + addrs[i].bytes[head..len - tail];
      i := i + 1;
    }
    assert mids[..i] == mids;
  }

  method WritePlens(addrs: seq<Address>, f: Form) returns (out: seq<byte>)
    requires |addrs| > 0
    ensures out == PlenPart(addrs, f)
  {
    out := [];
    if f.multi {
      var i := 0;
      while i < |addrs|
        invariant 0 <= i <= |addrs| == |PlenPart(addrs, f)| && out == PlenPart(addrs, f)[..i]
      {
        out := out + [B(addrs[i].plen)];
        i := i + 1;
      }
    } else if f.single {
      out := [B(addrs[0].plen)];
    }
  }

  method IsZeroTail(start: seq<byte>, tailLen: nat) returns (zeroTail: bool)
    requires tailLen <= |start|
    ensures zeroTail == (tailLen > 0 && AllZero(start[|start| - tailLen..]))
  {
    zeroTail := tailLen > 0;
    var tail := 0;
    while zeroTail && tail < tailLen
      invariant 0 <= tail <= tailLen
      invariant zeroTail ==> tailLen > 0 && forall i :: |start| - tail <= i < |start| ==> start[i] == 0
      invariant !zeroTail ==> tailLen == 0 || !AllZero(start[|start| - tailLen..])
    {
      if start[|start| - tail - 1] != 0 {
        zeroTail := false;
        assert start[|start| - tailLen..][tailLen - tail - 1] != 0;
      }
      tail := tail + 1;
    }
  }

  /** Writes an address block: header, head, tail, middle parts and prefix lengths. */
  method WriteAddrBlock(addrs: seq<Address>, len: nat, head: nat, multi: bool) returns (out: seq<byte>)
    requires |addrs| > 0 && SameLength(addrs, len) && head < len
    ensures out == EncodeAddrBlock(addrs, len, head, multi)
  {
    var start := addrs[0].bytes;
    var headLen, tailLen, zeroTail := 0, 0, false;
    if |addrs| > 1 {
      headLen := head;
      tailLen := MeasureTail(addrs, len, head);
      zeroTail := IsZeroTail(start, tailLen);
    }
    var single := !multi && addrs[0].plen != len * 8;
    var f := Form(headLen, tailLen, zeroTail, multi, single);
    assert f == FormOf(addrs, len, head, multi);
    out := WriteForm(addrs, len, f);
  }

  /** Writes a block in a given form. */
  method WriteForm(addrs: seq<Address>, len: nat, f: Form) returns (out: seq<byte>)
    requires |addrs| > 0 && SameLength(addrs, len) && f.head + f.tail <= len && (f.zero ==> f.tail > 0)
    ensures out == Flatten([[B(|addrs|), B(EncodeFlags(FormFlags(f)))], HeadPart(addrs[0].bytes, f.head),
                            TailPart(addrs[0].bytes, f.tail, f.zero), Flatten(Mids(addrs, len, f.head, f.tail)), PlenPart(addrs, f)])
  {
    hide EncodeFlags, FormFlags, PlenPart, Mids, Flatten;
    var start := addrs[0].bytes;
    out := [B(|addrs|), B(EncodeFlags(FormFlags(f)))];
    ghost var head, tail := HeadPart(start, f.head), TailPart(start, f.tail, f.zero);
    if f.head > 0 {
      out := out + ([B(f.head)] + start[..f.head]);
    }
    assert out == [B(|addrs|), B(EncodeFlags(FormFlags(f)))] + head;
    if f.tail > 0 {
      out := out + if f.zero then [B(f.tail)] else [B(f.tail)] + start[len - f.tail..];
    }
    assert out == [B(|addrs|), B(EncodeFlags(FormFlags(f)))] + head + tail;
    hide HeadPart, TailPart;
    var mids := WriteMids(addrs, len, f.head, f.tail);
    var plens := WritePlens(addrs, f);
    FlattenFive([B(|addrs|), B(EncodeFlags(FormFlags(f)))], head, tail, mids, plens);
    out := out + mids + plens;
  }

  // ---------- the round trip ----------

  /** What is read for an address: the address itself, except that the prefix length 255 stands for the whole address. */
  function Read(a: Address, len: nat): Address
  {
    a.(plen := Plen(a.plen, len))
  }

  lemma ReadsHead(buf: seq<byte>, p: nat, eob: int, flags: Flags, start: seq<byte>, head: nat)
    requires head < |start| <= MAX_ADDRLEN && (flags.head <==> head > 0)
    requires Carries(buf, p, HeadPart(start, head)) && p + |HeadPart(start, head)| <= eob <= |buf|
    ensures ReadHead(buf, eob, flags, |start|, Cursor(p, false)) == Ok((start[..head], Cursor(p + |HeadPart(start, head)|, false)))
  {
    if head > 0 {
      CarriesSplit(buf, p, [B(head)], start[..head]);
      ReadsU8(buf, eob, p, head);
      CarriesSlice(buf, p + 1, start[..head]);
    } else {
      assert start[..head] == [];
    }
  }

  /** The bytes of the tail the block carries. */
  function TailBytes(start: seq<byte>, tail: nat, zero: bool): (r: seq<byte>)
    requires tail <= |start|
    ensures |r| <= tail
  {
    if zero then [] else start[|start| - tail..]
  }

  lemma ReadsTail(buf: seq<byte>, p: nat, eob: int, flags: Flags, start: seq<byte>, tail: nat, zero: bool)
    requires tail < |start| <= MAX_ADDRLEN && (zero ==> tail > 0)
    requires (flags.fullTail <==> tail > 0 && !zero) && (flags.zeroTail <==> tail > 0 && zero)
    requires Carries(buf, p, TailPart(start, tail, zero)) && p + |TailPart(start, tail, zero)| <= eob <= |buf|
    ensures ReadTail(buf, eob, flags, |start|, Cursor(p, false))
         == Ok((tail, TailBytes(start, tail, zero), Cursor(p + |TailPart(start, tail, zero)|, false)))
  {
    if tail > 0 && !zero {
      CarriesSplit(buf, p, [B(tail)], start[|start| - tail..]);
      ReadsU8(buf, eob, p, tail);
      CarriesSlice(buf, p + 1, start[|start| - tail..]);
    } else if tail > 0 {
      ReadsU8(buf, eob, p, tail);
    } else {
      assert start[|start| - tail..] == [];
    }
  }

  /** Head and tail of the template are those of the addresses. */
  lemma TemplateParts(start: seq<byte>, head: nat, tail: nat, zero: bool)
    requires head + tail <= |start| && (zero ==> AllZero(start[|start| - tail..]))
    ensures var t := Template(start[..head], TailBytes(start, tail, zero), |start|);
            t[..head] == start[..head] && t[|start| - tail..] == start[|start| - tail..]
  {
    var t := Template(start[..head], TailBytes(start, tail, zero), |start|);
    if zero {
      assert forall i :: |start| - tail <= i < |start| ==> t[i] == 0;
      var zeros := start[|start| - tail..];
      assert forall i :: 0 <= i < tail ==> zeros[i] == start[|start| - tail + i];
    }
  }

  function PlensOf(addrs: seq<Address>, len: nat, f: Form, pos: nat): Plens
    requires |addrs| > 0
  {
    if f.multi then Each(pos) else if f.single then One(addrs[0].plen) else One(len * 8 % 256)
  }

  /** A block as it is read: the form decides how its bytes are found. */
  function Expected(addrs: seq<Address>, len: nat, f: Form, p: nat): AddrBlock
    requires |addrs| > 0 && SameLength(addrs, len) && f.head + f.tail <= len
  {
    var start := addrs[0].bytes;
    var src := p + |HeadPart(start, f.head)| + |TailPart(start, f.tail, f.zero)|;
    var midLen := len - f.head - f.tail;
    InBounds(midLen, |addrs|);
    var end := src + midLen * |addrs|;
    AddrBlock(|addrs|, Template(start[..f.head], TailBytes(start, f.tail, f.zero), len), f.head, midLen, src,
              PlensOf(addrs, len, f, end))
  }

  lemma ReadsPlens(buf: seq<byte>, pos: nat, eob: int, flags: Flags, len: nat, addrs: seq<Address>, f: Form)
    requires |addrs| > 0 && !(f.multi && f.single) && flags.singlePlen == f.single && flags.multiPlen == f.multi
    requires Carries(buf, pos, PlenPart(addrs, f)) && pos + |PlenPart(addrs, f)| <= eob <= |buf|
    ensures ReadPlens(buf, eob, flags, len, |addrs|, pos)
         == Ok((PlensOf(addrs, len, f, pos), pos + |PlenPart(addrs, f)|))
  {
    if f.single {
      assert buf[pos + 0] == PlenPart(addrs, f)[0];
    }
  }

  lemma MidsLength(addrs: seq<Address>, len: nat, head: nat, tail: nat)
    requires SameLength(addrs, len) && head + tail <= len
    ensures |Flatten(Mids(addrs, len, head, tail))| == (len - head - tail) * |addrs|
  {
    FlattenLength(Mids(addrs, len, head, tail), len - head - tail);
  }

  lemma ReadsMids(buf: seq<byte>, p: nat, eob: int, flags: Flags, len: nat, addrs: seq<Address>, f: Form, head: seq<byte>, tail: seq<byte>)
    requires |addrs| > 0 && SameLength(addrs, len) && f.head + f.tail <= len <= MAX_ADDRLEN && !(f.multi && f.single)
    requires |head| == f.head && |tail| <= len && flags.singlePlen == f.single && flags.multiPlen == f.multi
    requires var end := p + (len - f.head - f.tail) * |addrs|;
             Carries(buf, end, PlenPart(addrs, f)) && end + |PlenPart(addrs, f)| <= eob <= |buf|
    ensures var end := p + (len - f.head - f.tail) * |addrs|;
            var block := AddrBlock(|addrs|, Template(head, tail, len), f.head, len - f.head - f.tail, p, PlensOf(addrs, len, f, end));
            ParseMids(buf, eob, len, |addrs|, flags, head, f.tail, tail, Cursor(p, false)) == Ok((block, end + |PlenPart(addrs, f)|))
  {
    hide Carries, Template, ReadPlens, PlenPart;
    var end := p + (len - f.head - f.tail) * |addrs|;
    ReadsPlens(buf, end, eob, flags, len, addrs, f);
  }

  lemma FormFits(addrs: seq<Address>, len: nat, head: nat, multi: bool)
    requires Joined(addrs, len, head, multi)
    ensures var f := FormOf(addrs, len, head, multi);
            f.head + f.tail < len && (f.zero ==> f.tail > 0 && AllZero(addrs[0].bytes[len - f.tail..])) && !(f.multi && f.single)
  {
  }

  /** The form is read back whatever it is. */
  lemma ReadsForm(buf: seq<byte>, p: nat, eob: int, len: nat, addrs: seq<Address>, f: Form, p3: nat, p4: nat, p5: nat)
    requires |addrs| > 0 && SameLength(addrs, len) && f.head + f.tail < len <= MAX_ADDRLEN
    requires (f.zero ==> f.tail > 0) && !(f.multi && f.single) && eob <= |buf|
    requires p3 == p + |HeadPart(addrs[0].bytes, f.head)| && p4 == p3 + |TailPart(addrs[0].bytes, f.tail, f.zero)|
    requires p5 == p4 + (len - f.head - f.tail) * |addrs| && p5 + |PlenPart(addrs, f)| <= eob
    requires Carries(buf, p, HeadPart(addrs[0].bytes, f.head)) && Carries(buf, p3, TailPart(addrs[0].bytes, f.tail, f.zero))
    requires Carries(buf, p5, PlenPart(addrs, f))
    ensures ParseForm(buf, eob, len, |addrs|, FormFlags(f), Cursor(p, false)) == Ok((Expected(addrs, len, f, p), p5 + |PlenPart(addrs, f)|))
  {
    hide Carries, ReadHead, ReadTail, ParseMids, HeadPart, TailPart, PlenPart, Template, TailBytes;
    var start, flags := addrs[0].bytes, FormFlags(f);
    InBounds(len - f.head - f.tail, |addrs|);
    ReadsHead(buf, p, eob, flags, start, f.head);
    ReadsTail(buf, p3, eob, flags, start, f.tail, f.zero);
    ReadsMids(buf, p4, eob, flags, len, addrs, f, start[..f.head], TailBytes(start, f.tail, f.zero));
  }


  lemma EncodingForm(addrs: seq<Address>, len: nat, head: nat, multi: bool, f: Form)
    requires Joined(addrs, len, head, multi) && f == FormOf(addrs, len, head, multi)
    ensures f.head + f.tail < len && (f.zero ==> f.tail > 0) && !(f.multi && f.single)
    ensures EncodeAddrBlock(addrs, len, head, multi)
         == Flatten([[B(|addrs|), B(EncodeFlags(FormFlags(f)))], HeadPart(addrs[0].bytes, f.head),
                     TailPart(addrs[0].bytes, f.tail, f.zero), Flatten(Mids(addrs, len, f.head, f.tail)), PlenPart(addrs, f)])
  {
    FormFits(addrs, len, head, multi);
  }

  /** The first two bytes of a block. */
  lemma ReadsBlockStart(buf: seq<byte>, p: nat, eob: int, len: nat, num: int, flags: Flags, bits: u8)
    requires 0 < num <= 255 && DecodeFlags(bits) == flags
    requires Carries(buf, p, [B(num), B(bits)]) && p + 2 <= eob <= |buf|
    ensures ParseAddrBlock(buf, p, eob, len) == ParseForm(buf, eob, len, num, flags, Cursor(p + 2, false))
  {
    hide DecodeFlags, ParseForm;
    var start := [B(num), B(bits)];
    assert buf[p + 0] == start[0];
    assert buf[p + 1] == start[1];
  }

  /** A block of at most 255 addresses is read back in the form it was written. */
  lemma ParsesBlock(buf: seq<byte>, p: nat, eob: int, len: nat, addrs: seq<Address>, head: nat, multi: bool)
    requires Joined(addrs, len, head, multi) && |addrs| <= 255
    requires var out := EncodeAddrBlock(addrs, len, head, multi); Carries(buf, p, out) && p + |out| <= eob <= |buf|
    ensures var f := FormOf(addrs, len, head, multi);
            && f.head + f.tail <= len
            && ParseAddrBlock(buf, p, eob, len)
               == Ok((Expected(addrs, len, f, p + 2), p + |EncodeAddrBlock(addrs, len, head, multi)|))
    ensures var f := FormOf(addrs, len, head, multi); var b := Expected(addrs, len, f, p + 2);
            && Carries(buf, b.midSrc, Flatten(Mids(addrs, len, f.head, f.tail)))
            && Carries(buf, b.midSrc + b.midLen * b.num, PlenPart(addrs, f))
  {
    hide Carries, FormOf, EncodeAddrBlock, ParseForm, ParseAddrBlock, HeadPart, TailPart, PlenPart, Template;
    hide TailBytes, FormFlags, EncodeFlags, DecodeFlags, Mids, Flatten;
    var f := FormOf(addrs, len, head, multi);
    EncodingForm(addrs, len, head, multi, f);
    var start := addrs[0].bytes;
    FiveParts(buf, p, [B(|addrs|), B(EncodeFlags(FormFlags(f)))], HeadPart(start, f.head), TailPart(start, f.tail, f.zero),
              Flatten(Mids(addrs, len, f.head, f.tail)), PlenPart(addrs, f));
    MidsLength(addrs, len, f.head, f.tail);
    FlagsRoundTrip(FormFlags(f));
    ReadsBlockStart(buf, p, eob, len, |addrs|, FormFlags(f), EncodeFlags(FormFlags(f)));
    var p3 := p + 2 + |HeadPart(start, f.head)|;
    var p4 := p3 + |TailPart(start, f.tail, f.zero)|;
    ReadsForm(buf, p + 2, eob, len, addrs, f, p3, p4, p4 + (len - f.head - f.tail) * |addrs|);
  }

  lemma BlockIsSane(buf: seq<byte>, len: nat, addrs: seq<Address>, f: Form, p: nat)
    requires |addrs| > 0 && SameLength(addrs, len) && f.head + f.tail <= len
    requires var b := Expected(addrs, len, f, p);
             Carries(buf, b.midSrc, Flatten(Mids(addrs, len, f.head, f.tail))) && Carries(buf, b.midSrc + b.midLen * b.num, PlenPart(addrs, f))
    ensures Sane(buf, Expected(addrs, len, f, p))
  {
    hide Template, TailBytes, HeadPart, TailPart, Mids, Flatten;
    MidsLength(addrs, len, f.head, f.tail);
  }

  /** The middle part of the `i`-th address. */
  lemma ReadsMid(buf: seq<byte>, src: nat, addrs: seq<Address>, len: nat, head: nat, tail: nat, i: nat)
    requires SameLength(addrs, len) && head + tail <= len && i < |addrs|
    requires Carries(buf, src, Flatten(Mids(addrs, len, head, tail)))
    ensures var k := len - head - tail;
            0 <= k * i && src + k * i + k <= |buf| && buf[src + k * i..src + k * i + k] == addrs[i].bytes[head..len - tail]
  {
    var k := len - head - tail;
    var mids := Mids(addrs, len, head, tail);
    SliceOfFlattened(mids, i, k);
    assert k * i == i * k;
    CarriesSlice(buf, src, Flatten(mids));
    SliceOfSlice(buf, src, src + |Flatten(mids)|, k * i, k);
  }

  lemma ReadsPlen(buf: seq<byte>, pos: nat, addrs: seq<Address>, f: Form, len: nat, i: nat)
    requires i < |addrs| && len <= MAX_ADDRLEN && Carries(buf, pos, PlenPart(addrs, f))
    requires f.single == (!f.multi && addrs[0].plen != len * 8) && (!f.multi ==> addrs[i].plen == addrs[0].plen)
    ensures match PlensOf(addrs, len, f, pos)
            case One(n) => n == addrs[i].plen
            case Each(s) => s + i < |buf| && buf[s + i] as int == addrs[i].plen
  {
    if f.multi {
      assert buf[pos + i] == PlenPart(addrs, f)[i];
    }
  }

  lemma ThreeParts(s: seq<byte>, head: nat, tail: nat)
    requires head + tail <= |s|
    ensures s[..head] + s[head..|s| - tail] + s[|s| - tail..] == s
  {
  }

  lemma ReadsAddressOf(buf: seq<byte>, b: AddrBlock, len: nat, addrs: seq<Address>, f: Form, i: nat)
    requires |addrs| > 0 && i < |addrs| == b.num && SameLength(addrs, len) && f.head + f.tail <= len <= MAX_ADDRLEN && Sane(buf, b)
    requires b.template == Template(addrs[0].bytes[..f.head], TailBytes(addrs[0].bytes, f.tail, f.zero), len)
    requires b.midStart == f.head && b.midLen == len - f.head - f.tail
    requires b.plens == PlensOf(addrs, len, f, b.midSrc + b.midLen * b.num) && (f.zero ==> AllZero(addrs[0].bytes[len - f.tail..]))
    requires addrs[i].bytes[..f.head] == addrs[0].bytes[..f.head] && addrs[i].bytes[len - f.tail..] == addrs[0].bytes[len - f.tail..]
    requires f.single == (!f.multi && addrs[0].plen != len * 8) && (!f.multi ==> addrs[i].plen == addrs[0].plen)
    requires Carries(buf, b.midSrc, Flatten(Mids(addrs, len, f.head, f.tail))) && Carries(buf, b.midSrc + b.midLen * b.num, PlenPart(addrs, f))
    ensures AddressAt(buf, b, i) == Read(addrs[i], len)
  {
    assert |addrs[0].bytes| == len && |addrs[i].bytes| == len;
    hide Template, TailBytes, Carries, PlenPart, PlensOf, Flatten, Mids, AddressAt, Read, Sane, SameLength, AllZero;
    TemplateParts(addrs[0].bytes, f.head, f.tail, f.zero);
    ReadsMid(buf, b.midSrc, addrs, len, f.head, f.tail, i);
    ReadsPlen(buf, b.midSrc + b.midLen * b.num, addrs, f, len, i);
    Assembles(buf, b, i, addrs[i], f.tail);
  }

  /** Put together, every address of the block is the one that was written. */
  lemma ReadsAddress(buf: seq<byte>, p: nat, len: nat, addrs: seq<Address>, head: nat, multi: bool, i: nat)
    requires Joined(addrs, len, head, multi) && i < |addrs|
    requires var f := FormOf(addrs, len, head, multi); f.head + f.tail <= len
    requires var f := FormOf(addrs, len, head, multi); var b := Expected(addrs, len, f, p);
             Carries(buf, b.midSrc, Flatten(Mids(addrs, len, f.head, f.tail))) && Carries(buf, b.midSrc + b.midLen * b.num, PlenPart(addrs, f))
    ensures var b := Expected(addrs, len, FormOf(addrs, len, head, multi), p);
            Sane(buf, b) && AddressAt(buf, b, i) == Read(addrs[i], len)
  {
    hide FormOf, Template, TailBytes, Carries, PlenPart, PlensOf, HeadPart, TailPart, Flatten, Mids, AddressAt, Read, Sane;
    var f := FormOf(addrs, len, head, multi);
    var b := Expected(addrs, len, f, p);
    BlockIsSane(buf, len, addrs, f, p);
    FormFits(addrs, len, head, multi);
    SharedEnds(addrs, len, head, multi, i);
    ReadsAddressOf(buf, b, len, addrs, f, i);
  }

  lemma Assembles(buf: seq<byte>, b: AddrBlock, i: nat, a: Address, tail: nat)
    requires Sane(buf, b) && i < b.num && |a.bytes| == |b.template| == b.midStart + b.midLen + tail
    requires b.template[..b.midStart] == a.bytes[..b.midStart] && b.template[|a.bytes| - tail..] == a.bytes[|a.bytes| - tail..]
    requires 0 <= b.midLen * i && b.midSrc + b.midLen * i + b.midLen <= |buf|
    requires buf[b.midSrc + b.midLen * i..b.midSrc + b.midLen * i + b.midLen] == a.bytes[b.midStart..|a.bytes| - tail]
    requires match b.plens case One(n) => n == a.plen case Each(s) => buf[s + i] as int == a.plen
    ensures AddressAt(buf, b, i) == Read(a, |a.bytes|)
  {
    ThreeParts(a.bytes, b.midStart, tail);
  }

  lemma SharedEnds(addrs: seq<Address>, len: nat, head: nat, multi: bool, i: nat)
    requires Joined(addrs, len, head, multi) && i < |addrs|
    ensures var f := FormOf(addrs, len, head, multi);
            && f.head + f.tail <= len && addrs[i].bytes[..f.head] == addrs[0].bytes[..f.head]
            && addrs[i].bytes[len - f.tail..] == addrs[0].bytes[len - f.tail..]
            && f.single == (!f.multi && addrs[0].plen != len * 8) && (!f.multi ==> addrs[i].plen == addrs[0].plen)
  {
    TailIsLongest(addrs, |addrs|, len, len - head - 1);
  }

  /** The addresses of a parsed block. */
  function AddressesOf(buf: seq<byte>, b: AddrBlock): (r: seq<Address>)
    requires Sane(buf, b)
    ensures |r| == b.num
  {
    seq(b.num, i requires 0 <= i < b.num => AddressAt(buf, b, i))
  }

  /** The address-block round trip: whatever form was picked, reading gives the addresses back in their order.
      A prefix length of 255 is the one that changes. */
  lemma AddressBlockRoundTrip(buf: seq<byte>, p: nat, eob: int, len: nat, addrs: seq<Address>, head: nat, multi: bool)
    requires Joined(addrs, len, head, multi) && |addrs| <= 255
    requires var out := EncodeAddrBlock(addrs, len, head, multi); Carries(buf, p, out) && p + |out| <= eob <= |buf|
    ensures var r := ParseAddrBlock(buf, p, eob, len);
            && r.Ok? && r.value.1 == p + |EncodeAddrBlock(addrs, len, head, multi)| && r.value.0.num == |addrs| && Sane(buf, r.value.0)
            && (forall i :: 0 <= i < |addrs| ==> AddressesOf(buf, r.value.0)[i] == Read(addrs[i], len))
  {
    hide Carries, EncodeAddrBlock, ParseAddrBlock, AddressAt, Mids, PlenPart, Flatten, Read;
    ParsesBlock(buf, p, eob, len, addrs, head, multi);
    forall i | 0 <= i < |addrs|
      ensures var b := ParseAddrBlock(buf, p, eob, len).value.0; Sane(buf, b) && AddressAt(buf, b, i) == Read(addrs[i], len)
    {
      ReadsAddress(buf, p + 2, len, addrs, head, multi, i);
    }
    ReadsAddress(buf, p + 2, len, addrs, head, multi, 0);
  }

  /** A block of more addresses never comes back: what is read has 1 to 255 of them. */
  lemma AtMost255(buf: seq<byte>, p: nat, eob: int, len: nat)
    requires eob <= |buf|
    ensures var r := ParseAddrBlock(buf, p, eob, len); r.Ok? ==> 1 <= r.value.0.num <= 255 && p + 2 <= r.value.1 <= eob
  {
    hide ReadHead, ReadTail, ReadPlens, Template;
    var (num, c1) := GetU8(buf, eob, Cursor(p, false));
    var (bits, c2) := GetU8(buf, eob, c1);
    FormProgress(buf, eob, len, num, DecodeFlags(bits), c2);
  }

  lemma FormProgress(buf: seq<byte>, eob: int, len: nat, num: nat, flags: Flags, c: Cursor)
    requires eob <= |buf|
    ensures var r := ParseForm(buf, eob, len, num, flags, c);
            r.Ok? ==> !c.failed && r.value.0.num == num && c.pos <= r.value.1 <= eob
  {
    hide ParseMids, Template;
    var h := ReadHead(buf, eob, flags, len, c);
    if h.Ok? {
      var t := ReadTail(buf, eob, flags, len, h.value.1);
      if t.Ok? {
        MidsProgress(buf, eob, len, num, flags, h.value.0, t.value.0, t.value.1, t.value.2);
      }
    }
  }

  lemma MidsProgress(buf: seq<byte>, eob: int, len: nat, num: nat, flags: Flags, head: seq<byte>, tailLen: nat, tail: seq<byte>, c: Cursor)
    requires eob <= |buf| && |head| <= len && |tail| <= len
    ensures var r := ParseMids(buf, eob, len, num, flags, head, tailLen, tail, c);
            r.Ok? ==> !c.failed && r.value.0.num == num && c.pos <= r.value.1 <= eob
  {
    var midLen := (len - |head| - tailLen) % 256;
    InBounds(midLen, num);
  }

  /** The prefix lengths that survive are those other than 255. */
  lemma PlenSurvives(n: u8, len: nat)
    requires len <= MAX_ADDRLEN
    ensures Plen(n, len) == n <==> n != 255
  {
  }
}
