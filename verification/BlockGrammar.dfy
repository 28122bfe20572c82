/** The layout of address blocks in RFC 5444, section 5.3, and what the reader makes of any bytes. */
module BlockGrammar {
  import opened Wire
  import opened Seqs
  import opened AddressBlocks
  import WireGrammar

  /** The parts of an address block behind the number of addresses and the flags; a zero tail has a length only. */
  datatype BlockParts = BlockParts(head: seq<byte>, tailLen: nat, tail: seq<byte>, mids: seq<byte>, plens: seq<byte>)

  function HeadField(present: bool, head: seq<byte>): seq<byte>
  {
    if present then [B(|head|)] + head else []
  }

  predicate GoodHead(present: bool, head: seq<byte>, len: nat)
  {
    if present then 1 <= |head| < 16 && |head| < len else head == []
  }

  function TailField(full: bool, zero: bool, tailLen: nat, tail: seq<byte>): seq<byte>
  {
    if full || zero then [B(tailLen)] + tail else []
  }

  /** The length of a zero tail may be anything a byte holds. */
  predicate GoodTail(full: bool, zero: bool, tailLen: nat, tail: seq<byte>, len: nat)
  {
    && !(full && zero)
    && if full then tailLen == |tail| && 1 <= tailLen < 16 && tailLen < len
       else tail == [] && tailLen < 256 && (!zero ==> tailLen == 0)
  }

  /** The length of the middle part of each address, as a byte counts it. */
  function MidLen(len: nat, f: BlockParts): nat
  {
    (len - |f.head| - f.tailLen) % 256
  }

  /** The bytes are a block of addresses of `len` bytes, made of these parts. The bits of the flags, from the highest: a head, a
      tail, a zero tail, one prefix length, a prefix length for each address. */
  ghost predicate WellFormed(s: seq<byte>, len: nat, f: BlockParts)
  {
    && |s| >= 2 && s[0] != 0
    && var num, bits := s[0] as int, s[1] as int;
    && s == [s[0], s[1]] + HeadField(bits / 128 % 2 == 1, f.head) + TailField(bits / 64 % 2 == 1, bits / 32 % 2 == 1, f.tailLen, f.tail)
            + f.mids + f.plens
    && GoodHead(bits / 128 % 2 == 1, f.head, len) && GoodTail(bits / 64 % 2 == 1, bits / 32 % 2 == 1, f.tailLen, f.tail, len)
    && |f.mids| == MidLen(len, f) * num
    && bits / 16 % 2 + bits / 8 % 2 < 2 && |f.plens| == if bits / 8 % 2 == 1 then num else bits / 16 % 2
  }

  /** The tail of every address. */
  function FullTail(f: BlockParts): seq<byte>
  {
    if f.tail == [] then Zeros(f.tailLen) else f.tail
  }

  /** The prefix length of the address at `i`; 255 and none at all stand for the whole address. */
  function PlenOf(f: BlockParts, len: nat, i: nat): u8
  {
    var n := if f.plens == [] then 255 else if i < |f.plens| then f.plens[i] as int else f.plens[0] as int;
    if n == 255 then len * 8 % 256 else n
  }

  // ---------- reading the parts ----------

  lemma {:induction false} FlagBits(bits: u8)
    ensures var flags := DecodeFlags(bits);
            && (flags.head <==> bits / 128 % 2 == 1) && (flags.fullTail <==> bits / 64 % 2 == 1) && (flags.zeroTail <==> bits / 32 % 2 == 1)
            && (flags.singlePlen <==> bits / 16 % 2 == 1) && (flags.multiPlen <==> bits / 8 % 2 == 1)
  {
  }

  lemma {:induction false} FieldAt(buf: seq<byte>, pos: nat, end: nat, n: nat, rest: seq<byte>)
    requires pos <= end <= |buf| && n < 256
    ensures buf[pos..end] == [B(n)] + rest <==> pos < end && buf[pos] as int == n && buf[pos + 1..end] == rest
  {
    if buf[pos..end] == [B(n)] + rest {
      assert buf[pos..end][0] == B(n) && buf[pos..end][1..] == rest;
      assert buf[pos..end][1..] == buf[pos + 1..end];
    }
  }

  lemma {:induction false} HeadIs(buf: seq<byte>, pos: nat, eob: int, flags: Flags, len: nat, head: seq<byte>, end: nat)
    requires pos <= eob <= |buf|
    ensures ReadHead(buf, eob, flags, len, Cursor(pos, false)) == Ok((head, Cursor(end, false)))
       <==> pos <= end <= eob && buf[pos..end] == HeadField(flags.head, head) && GoodHead(flags.head, head, len)
  {
    if pos <= end <= eob && |head| < 256 {
      FieldAt(buf, pos, end, |head|, head);
    }
  }

  lemma {:induction false} TailIs(buf: seq<byte>, pos: nat, eob: int, flags: Flags, len: nat, tailLen: nat, tail: seq<byte>, end: nat)
    requires pos <= eob <= |buf|
    ensures ReadTail(buf, eob, flags, len, Cursor(pos, false)) == Ok((tailLen, tail, Cursor(end, false)))
       <==> && pos <= end <= eob && buf[pos..end] == TailField(flags.fullTail, flags.zeroTail, tailLen, tail)
            && GoodTail(flags.fullTail, flags.zeroTail, tailLen, tail, len)
  {
    if pos <= end <= eob && tailLen < 256 {
      FieldAt(buf, pos, end, tailLen, tail);
    }
  }

  /** How many bytes the prefix lengths take. */
  function PlenBytes(flags: Flags, num: nat): nat
  {
    if flags.multiPlen then num else if flags.singlePlen then 1 else 0
  }

  /** A block as it is stored: the places of its middle parts and prefix lengths. */
  function Stored(buf: seq<byte>, len: nat, num: nat, flags: Flags, head: seq<byte>, tail: seq<byte>, midLen: nat, mids: nat, plens: nat): AddrBlock
    requires |head| <= len && |tail| <= len && (flags.singlePlen ==> plens < |buf|)
  {
    AddrBlock(num, Template(head, tail, len), |head|, midLen, mids,
              if flags.singlePlen then One(buf[plens] as int) else if flags.multiPlen then Each(plens) else One(len * 8 % 256))
  }

  lemma {:induction false} MidsAre(buf: seq<byte>, pos: nat, eob: int, len: nat, num: nat, flags: Flags, head: seq<byte>, tailLen: nat, tail: seq<byte>,
                                   b: AddrBlock, end: nat)
    requires pos <= eob <= |buf| && |head| <= len && |tail| <= len
    ensures var midLen := (len - |head| - tailLen) % 256;
            var plens := pos + midLen * num;
            ParseMids(buf, eob, len, num, flags, head, tailLen, tail, Cursor(pos, false)) == Ok((b, end))
            <==> && pos <= plens <= end == plens + PlenBytes(flags, num) && end <= eob && !(flags.singlePlen && flags.multiPlen)
                 && b == Stored(buf, len, num, flags, head, tail, midLen, pos, plens)
  {
    hide Template;
    InBounds((len - |head| - tailLen) % 256, num);
  }

  lemma {:induction false} FailedMids(buf: seq<byte>, eob: int, len: nat, num: nat, flags: Flags, head: seq<byte>, tailLen: nat, tail: seq<byte>, c: Cursor)
    requires eob <= |buf| && |head| <= len && |tail| <= len && c.failed
    ensures ParseMids(buf, eob, len, num, flags, head, tailLen, tail, c).Err?
  {
    hide Template;
    InBounds((len - |head| - tailLen) % 256, num);
  }

  // ---------- reading a block ----------

  /** The parts of a block, at their places. */
  ghost predicate Laid(buf: seq<byte>, p: nat, len: nat, flags: Flags, f: BlockParts, a: nat, b: nat, c: nat, q: nat)
  {
    && p + 2 <= a <= b <= c <= q <= |buf|
    && buf[p + 2..a] == HeadField(flags.head, f.head) && GoodHead(flags.head, f.head, len)
    && buf[a..b] == TailField(flags.fullTail, flags.zeroTail, f.tailLen, f.tail) && GoodTail(flags.fullTail, flags.zeroTail, f.tailLen, f.tail, len)
    && buf[b..c] == f.mids && buf[c..q] == f.plens
  }

  /** Parts that lie in the buffer are those of the bytes cut out. */
  lemma {:induction false} LaidIsFormed(buf: seq<byte>, p: nat, len: nat, flags: Flags, f: BlockParts, a: nat, b: nat, c: nat, q: nat)
    requires Laid(buf, p, len, flags, f, a, b, c, q) && flags == DecodeFlags(buf[p + 1] as int) && buf[p] != 0
    requires !(flags.singlePlen && flags.multiPlen) && |f.mids| == MidLen(len, f) * buf[p] as int && |f.plens| == PlenBytes(flags, buf[p] as int)
    ensures WellFormed(buf[p..q], len, f)
  {
    FlagBits(buf[p + 1] as int);
    hide DecodeFlags, HeadField, TailField, GoodHead, GoodTail, MidLen;
    WireGrammar.Slices(buf, p, a, b, c, q);
  }

  lemma {:induction false} FormedParts(s: seq<byte>, len: nat, f: BlockParts)
    requires WellFormed(s, len, f)
    ensures |s| >= 2 && s[0] != 0
    ensures var flags := DecodeFlags(s[1] as int);
            var head, tail := HeadField(flags.head, f.head), TailField(flags.fullTail, flags.zeroTail, f.tailLen, f.tail);
            var a, b, c := 2 + |head|, 2 + |head| + |tail|, 2 + |head| + |tail| + |f.mids|;
            && !(flags.singlePlen && flags.multiPlen) && |f.mids| == MidLen(len, f) * s[0] as int && |f.plens| == PlenBytes(flags, s[0] as int)
            && |s| == c + |f.plens| && s[2..a] == head && s[a..b] == tail && s[b..c] == f.mids && s[c..|s|] == f.plens
            && GoodHead(flags.head, f.head, len) && GoodTail(flags.fullTail, flags.zeroTail, f.tailLen, f.tail, len)
  {
    FlagBits(s[1] as int);
    hide DecodeFlags, HeadField, TailField, GoodHead, GoodTail, MidLen;
    var flags := DecodeFlags(s[1] as int);
    WireGrammar.Unsliced(s, WireGrammar.TlvParts(HeadField(flags.head, f.head), TailField(flags.fullTail, flags.zeroTail, f.tailLen, f.tail), f.mids, f.plens));
  }

  /** The parts of the bytes cut out lie in the buffer. */
  lemma {:induction false} FormedIsLaid(buf: seq<byte>, p: nat, len: nat, f: BlockParts, q: nat) returns (a: nat, b: nat, c: nat)
    requires p <= q <= |buf| && WellFormed(buf[p..q], len, f)
    ensures p + 2 <= q && Laid(buf, p, len, DecodeFlags(buf[p + 1] as int), f, a, b, c, q) && buf[p] != 0
    ensures var flags := DecodeFlags(buf[p + 1] as int);
            !(flags.singlePlen && flags.multiPlen) && |f.mids| == MidLen(len, f) * buf[p] as int && |f.plens| == PlenBytes(flags, buf[p] as int)
  {
    hide WellFormed, DecodeFlags, HeadField, TailField, GoodHead, GoodTail, MidLen;
    var s := buf[p..q];
    FormedParts(s, len, f);
    assert s[0] == buf[p] && s[1] == buf[p + 1];
    var flags := DecodeFlags(buf[p + 1] as int);
    a := p + 2 + |HeadField(flags.head, f.head)|;
    b := a + |TailField(flags.fullTail, flags.zeroTail, f.tailLen, f.tail)|;
    c := b + |f.mids|;
    WireGrammar.Shifted(buf, p, q, 2, a - p);
    WireGrammar.Shifted(buf, p, q, a - p, b - p);
    WireGrammar.Shifted(buf, p, q, b - p, c - p);
    WireGrammar.Shifted(buf, p, q, c - p, q - p);
  }

  lemma {:induction false} FormRead(buf: seq<byte>, p: nat, eob: int, len: nat, num: nat, flags: Flags, f: BlockParts, a: nat, b: nat, c: nat, q: nat)
    requires Laid(buf, p, len, flags, f, a, b, c, q) && q <= eob <= |buf| && !(flags.singlePlen && flags.multiPlen)
    requires |f.mids| == MidLen(len, f) * num && |f.plens| == PlenBytes(flags, num)
    ensures |f.head| <= len && |f.tail| <= len && (flags.singlePlen ==> c < |buf|)
    ensures ParseForm(buf, eob, len, num, flags, Cursor(p + 2, false)) == Ok((Stored(buf, len, num, flags, f.head, f.tail, MidLen(len, f), b, c), q))
  {
    hide ReadHead, ReadTail, ParseMids, HeadField, TailField, Stored;
    HeadIs(buf, p + 2, eob, flags, len, f.head, a);
    TailIs(buf, a, eob, flags, len, f.tailLen, f.tail, b);
    MidsAre(buf, b, eob, len, num, flags, f.head, f.tailLen, f.tail, Stored(buf, len, num, flags, f.head, f.tail, MidLen(len, f), b, c), q);
  }

  lemma {:induction false} FormParts(buf: seq<byte>, p: nat, eob: int, len: nat, num: nat, flags: Flags, block: AddrBlock, q: nat)
      returns (f: BlockParts, a: nat, b: nat, c: nat)
    requires p + 2 <= eob <= |buf| && ParseForm(buf, eob, len, num, flags, Cursor(p + 2, false)) == Ok((block, q))
    ensures q <= eob && Laid(buf, p, len, flags, f, a, b, c, q) && !(flags.singlePlen && flags.multiPlen)
    ensures |f.mids| == MidLen(len, f) * num && |f.plens| == PlenBytes(flags, num)
  {
    hide ReadHead, ReadTail, ParseMids, HeadField, TailField, Stored;
    var (head, c3) := ReadHead(buf, eob, flags, len, Cursor(p + 2, false)).value;
    HeadReads(buf, p + 2, eob, flags, len);
    a := c3.pos;
    HeadIs(buf, p + 2, eob, flags, len, head, a);
    var (tailLen, tail, c4) := ReadTail(buf, eob, flags, len, c3).value;
    TailReads(buf, a, eob, flags, len);
    if c4.failed {
      FailedMids(buf, eob, len, num, flags, head, tailLen, tail, c4);
    }
    b := c4.pos;
    TailIs(buf, a, eob, flags, len, tailLen, tail, b);
    MidsAre(buf, b, eob, len, num, flags, head, tailLen, tail, block, q);
    c := b + (len - |head| - tailLen) % 256 * num;
    f := BlockParts(head, tailLen, tail, buf[b..c], buf[c..q]);
  }

  lemma {:induction false} HeadReads(buf: seq<byte>, pos: nat, eob: int, flags: Flags, len: nat)
    requires pos <= eob <= |buf|
    ensures var r := ReadHead(buf, eob, flags, len, Cursor(pos, false)); r.Ok? ==> !r.value.1.failed
  {
  }

  lemma {:induction false} TailReads(buf: seq<byte>, pos: nat, eob: int, flags: Flags, len: nat)
    requires pos <= eob <= |buf|
    ensures var r := ReadTail(buf, eob, flags, len, Cursor(pos, false)); r.Ok? ==> |r.value.1| <= len
  {
  }

  lemma {:induction false} BlockStart(buf: seq<byte>, p: nat, eob: int, len: nat)
    requires eob <= |buf|
    ensures var r := ParseAddrBlock(buf, p, eob, len);
            if p + 2 <= eob && buf[p] != 0 then r == ParseForm(buf, eob, len, buf[p] as int, DecodeFlags(buf[p + 1] as int), Cursor(p + 2, false))
            else r.Err?
  {
    hide DecodeFlags, ParseForm;
    if p + 1 == eob && buf[p] != 0 {
      AtMost255(buf, p, eob, len);
    }
  }

  /** A block of addresses is read from any bytes exactly if one is there. */
  lemma {:induction false} ParsesIffFormed(buf: seq<byte>, p: nat, eob: int, len: nat, q: nat)
    requires eob <= |buf|
    ensures var r := ParseAddrBlock(buf, p, eob, len);
            r.Ok? && r.value.1 == q <==> p <= q <= eob && exists f :: WellFormed(buf[p..q], len, f)
  {
    hide ParseAddrBlock, ParseForm, DecodeFlags, WellFormed, Laid;
    var r := ParseAddrBlock(buf, p, eob, len);
    BlockStart(buf, p, eob, len);
    if r.Ok? && r.value.1 == q {
      var f, a, b, c := FormParts(buf, p, eob, len, buf[p] as int, DecodeFlags(buf[p + 1] as int), r.value.0, q);
      LaidOrder(buf, p, len, DecodeFlags(buf[p + 1] as int), f, a, b, c, q);
      LaidIsFormed(buf, p, len, DecodeFlags(buf[p + 1] as int), f, a, b, c, q);
    } else if p <= q <= eob && exists f :: WellFormed(buf[p..q], len, f) {
      var f :| WellFormed(buf[p..q], len, f);
      var a, b, c := FormedIsLaid(buf, p, len, f, q);
      FormRead(buf, p, eob, len, buf[p] as int, DecodeFlags(buf[p + 1] as int), f, a, b, c, q);
    }
  }

  lemma {:induction false} LaidOrder(buf: seq<byte>, p: nat, len: nat, flags: Flags, f: BlockParts, a: nat, b: nat, c: nat, q: nat)
    requires Laid(buf, p, len, flags, f, a, b, c, q)
    ensures p + 2 <= q
  {
  }

  // ---------- the addresses ----------

  /** The addresses of a block: they can be put together exactly if head and tail leave them room, and then each is the head, its own
      middle part and the tail. */
  ghost predicate Gives(buf: seq<byte>, b: AddrBlock, num: nat, len: nat, f: BlockParts)
  {
    && b.num == num
    && (Sane(buf, b) <==> |f.head| + f.tailLen <= len)
    && (Sane(buf, b) ==> forall i :: 0 <= i < num ==> AddressIs(AddressAt(buf, b, i), len, f, i))
  }

  ghost predicate AddressIs(a: Address, len: nat, f: BlockParts, i: nat)
  {
    var from, to := MidLen(len, f) * i, MidLen(len, f) * (i + 1);
    && 0 <= from <= to <= |f.mids|
    && a.bytes == f.head + f.mids[from..to] + FullTail(f) && a.plen == PlenOf(f, len, i)
  }

  lemma {:induction false} TemplateIs(f: BlockParts, len: nat)
    requires |f.head| + f.tailLen <= len && (f.tail == [] || |f.tail| == f.tailLen)
    ensures var t := Template(f.head, f.tail, len); t[..|f.head|] == f.head && t[len - f.tailLen..] == FullTail(f)
  {
  }

  /** The middle part of an address lies where the block says. */
  lemma {:induction false} MidIs(buf: seq<byte>, mids: nat, end: nat, k: nat, num: nat, i: nat)
    requires i < num && mids <= end <= |buf| && end - mids == k * num
    ensures 0 <= k * i <= k * (i + 1) == k * i + k <= end - mids
    ensures buf[mids..end][k * i..k * (i + 1)] == buf[mids + k * i..mids + k * i + k]
  {
    assert k * (i + 1) == k * i + k;
    Monotone(k, i + 1, num);
    InBounds(k, i);
    WireGrammar.Shifted(buf, mids, end, k * i, k * i + k);
  }

  lemma {:induction false} PlenGiven(buf: seq<byte>, len: nat, num: nat, flags: Flags, f: BlockParts, c: nat, q: nat, i: nat)
    requires c <= q <= |buf| && buf[c..q] == f.plens && |f.plens| == PlenBytes(flags, num) && i < num
    requires !(flags.singlePlen && flags.multiPlen)
    ensures c + |f.plens| == q
    ensures PlenOf(f, len, i)
         == Plen(if flags.singlePlen then buf[c] as int else if flags.multiPlen then buf[c + i] as int else len * 8 % 256, len)
  {
    if flags.multiPlen {
      assert buf[c..q][i] == buf[c + i];
    } else if flags.singlePlen {
      assert buf[c..q][0] == buf[c];
    }
  }

  lemma {:induction false} AddressGiven(buf: seq<byte>, p: nat, len: nat, num: nat, flags: Flags, f: BlockParts, a: nat, b: nat, c: nat, q: nat, i: nat)
    requires Laid(buf, p, len, flags, f, a, b, c, q) && !(flags.singlePlen && flags.multiPlen) && i < num < 256 && len <= MAX_ADDRLEN
    requires |f.mids| == MidLen(len, f) * num && |f.plens| == PlenBytes(flags, num) && (flags.singlePlen ==> c < |buf|)
    requires |f.head| <= len && |f.tail| <= len && |f.head| + f.tailLen <= len
    requires Sane(buf, Stored(buf, len, num, flags, f.head, f.tail, MidLen(len, f), b, c))
    ensures AddressIs(AddressAt(buf, Stored(buf, len, num, flags, f.head, f.tail, MidLen(len, f), b, c), i), len, f, i)
  {
    hide Template, HeadField, TailField, PlenOf, Plen, FullTail, GoodHead;
    var k := MidLen(len, f);
    PlenGiven(buf, len, num, flags, f, c, q, i);
    assert f.tail == [] || |f.tail| == f.tailLen;
    assert k == len - |f.head| - f.tailLen;
    hide MidLen, GoodTail;
    TemplateIs(f, len);
    MidIs(buf, b, c, k, num, i);
  }

  lemma {:induction false} RoomIff(len: nat, f: BlockParts, full: bool, zero: bool, head: bool)
    requires GoodHead(head, f.head, len) && GoodTail(full, zero, f.tailLen, f.tail, len) && len <= MAX_ADDRLEN
    ensures |f.head| + MidLen(len, f) <= len <==> |f.head| + f.tailLen <= len
    ensures |f.head| <= len && |f.tail| <= len && (f.tail == [] || |f.tail| == f.tailLen)
  {
  }

  lemma {:induction false} SaneIff(buf: seq<byte>, p: nat, len: nat, num: nat, flags: Flags, f: BlockParts, a: nat, b: nat, c: nat, q: nat)
    requires Laid(buf, p, len, flags, f, a, b, c, q) && !(flags.singlePlen && flags.multiPlen) && num < 256 && len <= MAX_ADDRLEN
    requires |f.mids| == MidLen(len, f) * num && |f.plens| == PlenBytes(flags, num) && (flags.singlePlen ==> c < |buf|)
    requires |f.head| <= len && |f.tail| <= len
    ensures Sane(buf, Stored(buf, len, num, flags, f.head, f.tail, MidLen(len, f), b, c)) <==> |f.head| + f.tailLen <= len
  {
    hide Template, HeadField, TailField;
    RoomIff(len, f, flags.fullTail, flags.zeroTail, flags.head);
    hide GoodHead, GoodTail, MidLen;
  }

  /** What a block that is there gives, in its parts' terms. */
  lemma {:induction false} BlockGives(buf: seq<byte>, p: nat, eob: int, len: nat, q: nat, f: BlockParts)
    requires p <= q <= eob <= |buf| && WellFormed(buf[p..q], len, f) && len <= MAX_ADDRLEN
    ensures var r := ParseAddrBlock(buf, p, eob, len); r.Ok? && r.value.1 == q && Gives(buf, r.value.0, buf[p..q][0] as int, len, f)
  {
    hide ParseAddrBlock, ParseForm, DecodeFlags, WellFormed, Laid, Stored, Sane, AddressIs, MidLen, HeadField, TailField, GoodTail;
    BlockStart(buf, p, eob, len);
    var a, b, c := FormedIsLaid(buf, p, len, f, q);
    assert buf[p..q][0] == buf[p];
    var num, flags := buf[p] as int, DecodeFlags(buf[p + 1] as int);
    FormRead(buf, p, eob, len, num, flags, f, a, b, c, q);
    var block := Stored(buf, len, num, flags, f.head, f.tail, MidLen(len, f), b, c);
    StoredCount(buf, len, num, flags, f.head, f.tail, MidLen(len, f), b, c);
    SaneIff(buf, p, len, num, flags, f, a, b, c, q);
    forall i | 0 <= i < num && Sane(buf, block)
      ensures AddressIs(AddressAt(buf, block, i), len, f, i)
    {
      AddressGiven(buf, p, len, num, flags, f, a, b, c, q, i);
    }
  }

  lemma {:induction false} StoredCount(buf: seq<byte>, len: nat, num: nat, flags: Flags, head: seq<byte>, tail: seq<byte>, midLen: nat, mids: nat, plens: nat)
    requires |head| <= len && |tail| <= len && (flags.singlePlen ==> plens < |buf|)
    ensures Stored(buf, len, num, flags, head, tail, midLen, mids, plens).num == num
  {
  }

  /** Why bytes are refused: no address, a head or a tail of no or too many bytes, both kinds of tail, both kinds of prefix
      lengths, or too few bytes; the first of these counts, but for the prefix lengths. */
  lemma {:induction false} BlockErrors(buf: seq<byte>, p: nat, eob: int, len: nat)
    requires eob <= |buf|
    ensures ParseAddrBlock(buf, p, eob, len) == Err(EmptyAddrBlock) <==> p >= eob || buf[p] == 0
    ensures p + 2 <= eob && buf[p] != 0 ==>
              var bits, r := buf[p + 1] as int, ParseAddrBlock(buf, p, eob, len);
              var h := WireGrammar.At(buf, eob, p + 2);
              var at := p + 2 + if bits / 128 % 2 == 1 then 1 + h else 0;
              var t := WireGrammar.At(buf, eob, at);
              var badHead, short := bits / 128 % 2 == 1 && !(1 <= h < 16 && h < len), bits / 128 % 2 == 1 && at > eob;
              && (r == Err(BadAddrHeadLength) <==> badHead)
              && (r == Err(BadTailFlags) <==> !badHead && !short && bits / 64 % 2 == 1 && bits / 32 % 2 == 1)
              && (r == Err(BadAddrTailLength)
                  <==> !badHead && !short && bits / 64 % 2 == 1 && bits / 32 % 2 == 0 && !(1 <= t < 16 && t < len))
              && (r == Err(BadPrefixFlags) ==> bits / 16 % 2 == 1 && bits / 8 % 2 == 1)
    ensures var r := ParseAddrBlock(buf, p, eob, len);
            r.Err? ==> r.error in {EmptyAddrBlock, BadAddrHeadLength, BadTailFlags, BadAddrTailLength, BadPrefixFlags, EndOfBuffer}
  {
    var r := ParseAddrBlock(buf, p, eob, len);
    if p + 2 <= eob && buf[p] != 0 {
      BlockStart(buf, p, eob, len);
      FlagBits(buf[p + 1] as int);
      hide DecodeFlags, Template;
      FormErrors(buf, p, eob, len, buf[p] as int, DecodeFlags(buf[p + 1] as int));
    } else if p + 1 == eob && buf[p] != 0 {
      StartErrors(buf, p, eob, len);
    }
  }

  lemma {:induction false} StartErrors(buf: seq<byte>, p: nat, eob: int, len: nat)
    requires p + 1 == eob <= |buf| && buf[p] != 0
    ensures ParseAddrBlock(buf, p, eob, len) == Err(EndOfBuffer)
  {
    FlagBits(0);
    hide DecodeFlags, Template;
    InBounds(len % 256, buf[p] as int);
  }

  lemma {:induction false} FormErrors(buf: seq<byte>, p: nat, eob: int, len: nat, num: nat, flags: Flags)
    requires p + 2 <= eob <= |buf|
    ensures var r, h := ParseForm(buf, eob, len, num, flags, Cursor(p + 2, false)), WireGrammar.At(buf, eob, p + 2);
            var at := p + 2 + if flags.head then 1 + h else 0;
            var t := WireGrammar.At(buf, eob, at);
            var badHead, short := flags.head && !(1 <= h < 16 && h < len), flags.head && at > eob;
            && (r == Err(BadAddrHeadLength) <==> badHead)
            && (r == Err(BadTailFlags) <==> !badHead && !short && flags.fullTail && flags.zeroTail)
            && (r == Err(BadAddrTailLength) <==> !badHead && !short && flags.fullTail && !flags.zeroTail && !(1 <= t < 16 && t < len))
            && (r == Err(BadPrefixFlags) ==> flags.singlePlen && flags.multiPlen)
            && (r.Err? ==> r.error in {BadAddrHeadLength, BadTailFlags, BadAddrTailLength, BadPrefixFlags, EndOfBuffer})
  {
    hide Template, ParseMids;
    var head := ReadHead(buf, eob, flags, len, Cursor(p + 2, false));
    if head.Ok? {
      var tail := ReadTail(buf, eob, flags, len, head.value.1);
      if tail.Ok? {
        MidsErrors(buf, eob, len, num, flags, head.value.0, tail.value.0, tail.value.1, tail.value.2);
      }
    }
  }

  lemma {:induction false} MidsErrors(buf: seq<byte>, eob: int, len: nat, num: nat, flags: Flags, head: seq<byte>, tailLen: nat, tail: seq<byte>, c: Cursor)
    requires eob <= |buf| && |head| <= len && |tail| <= len
    ensures var r := ParseMids(buf, eob, len, num, flags, head, tailLen, tail, c);
            r.Err? ==> r.error == EndOfBuffer || (r.error == BadPrefixFlags && flags.singlePlen && flags.multiPlen)
  {
    hide Template;
    InBounds((len - |head| - tailLen) % 256, num);
  }
}
