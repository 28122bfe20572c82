/** The layout of TLV blocks and address sections in RFC 5444, sections 5.4 and 5.3, and what the reader makes of any bytes. */
module SectionGrammar {
  import opened Wire
  import opened Tlv
  import opened AddressTlvs
  import opened AddressSection
  import WireGrammar
  import BlockGrammar
  import AddressBlocks

  // ---------- TLV blocks ----------

  /** A TLV from `p` to `mid`. */
  ghost predicate TlvThere(buf: seq<byte>, p: nat, mid: nat, eob: int, n: u8, e: Entry)
    requires eob <= |buf|
  {
    p <= mid <= eob && WireGrammar.Means(buf[p..mid], n, e)
  }

  /** The TLVs one behind the other, up to the first one that reaches `end`; it may reach further, but not behind `eob`. */
  ghost predicate TlvsThere(buf: seq<byte>, p: nat, end: int, eob: int, n: u8, es: seq<Entry>, q: nat)
    requires eob <= |buf|
    decreases es
  {
    if es == [] then p >= end && q == p
    else p < end && exists mid: nat :: TlvThere(buf, p, mid, eob, n, es[0]) && TlvsThere(buf, mid, end, eob, n, es[1..], q)
  }

  function StoreAll(entries: seq<Entry>, es: seq<Entry>): seq<Entry>
    decreases es
  {
    if es == [] then entries else StoreAll(Store(entries, es[0]), es[1..])
  }

  lemma {:induction false} TlvIffThere(buf: seq<byte>, p: nat, eob: int, n: u8, e: Entry, mid: nat)
    requires eob <= |buf|
    ensures ParseTlv(buf, p, eob, n) == Ok((e, mid)) <==> TlvThere(buf, p, mid, eob, n, e)
  {
    WireGrammar.ParsesIffMeans(buf, p, eob, n, e, mid);
  }

  lemma {:induction false} TlvsFound(buf: seq<byte>, p: nat, end: int, eob: int, n: u8, entries: seq<Entry>) returns (es: seq<Entry>)
    requires eob <= |buf| && ParseTlvs(buf, p, end, eob, n, entries).Ok?
    ensures var (r, q) := ParseTlvs(buf, p, end, eob, n, entries).value; TlvsThere(buf, p, end, eob, n, es, q) && r == StoreAll(entries, es)
    decreases end - p
  {
    hide TlvThere, ParseTlv, Store;
    if p >= end {
      es := [];
    } else {
      ParseProgress(buf, p, eob, n);
      var (e, mid) := ParseTlv(buf, p, eob, n).value;
      TlvIffThere(buf, p, eob, n, e, mid);
      var rest := TlvsFound(buf, mid, end, eob, n, Store(entries, e));
      es := [e] + rest;
      assert es[1..] == rest;
    }
  }

  lemma {:induction false} TlvsRead(buf: seq<byte>, p: nat, end: int, eob: int, n: u8, entries: seq<Entry>, es: seq<Entry>, q: nat)
    requires eob <= |buf| && TlvsThere(buf, p, end, eob, n, es, q)
    ensures ParseTlvs(buf, p, end, eob, n, entries) == Ok((StoreAll(entries, es), q))
    decreases es
  {
    hide TlvThere, ParseTlv, Store;
    if es != [] {
      var mid: nat :| TlvThere(buf, p, mid, eob, n, es[0]) && TlvsThere(buf, mid, end, eob, n, es[1..], q);
      TlvIffThere(buf, p, eob, n, es[0], mid);
      ParseProgress(buf, p, eob, n);
      TlvsRead(buf, mid, end, eob, n, Store(entries, es[0]), es[1..], q);
    }
  }

  /** A TLV block from `p` to `q`: its size, and TLVs until that size is reached. */
  ghost predicate TlvBlockThere(buf: seq<byte>, p: nat, eob: int, n: u8, es: seq<Entry>, q: nat)
    requires eob <= |buf|
  {
    && p + 2 <= eob
    && var end := p + 2 + 256 * buf[p] as int + buf[p + 1] as int;
       end <= eob && TlvsThere(buf, p + 2, end, eob, n, es, q)
  }

  lemma {:induction false} SizeRead(buf: seq<byte>, p: nat, eob: int, n: u8)
    requires eob <= |buf|
    ensures var r := ParseTlvBlock(buf, p, eob, n);
            if p + 2 > eob then r == Err(EndOfBuffer)
            else
              var end := p + 2 + 256 * buf[p] as int + buf[p + 1] as int;
              r == if end > eob then Err(EndOfBuffer) else ParseTlvs(buf, p + 2, end, eob, n, [])
  {
    hide ParseTlvs;
  }

  /** A TLV block is read from any bytes exactly if one is there. */
  lemma {:induction false} TlvBlockIffThere(buf: seq<byte>, p: nat, eob: int, n: u8, r: seq<Entry>, q: nat)
    requires eob <= |buf|
    ensures ParseTlvBlock(buf, p, eob, n) == Ok((r, q)) <==> exists es :: TlvBlockThere(buf, p, eob, n, es, q) && r == StoreAll([], es)
  {
    hide ParseTlvBlock, ParseTlvs, TlvsThere, StoreAll;
    SizeRead(buf, p, eob, n);
    var size := if p + 2 <= eob then 256 * buf[p] as int + buf[p + 1] as int else 0;
    if ParseTlvBlock(buf, p, eob, n) == Ok((r, q)) {
      var es := TlvsFound(buf, p + 2, p + 2 + size, eob, n, []);
      assert TlvBlockThere(buf, p, eob, n, es, q) && r == StoreAll([], es);
    } else if exists es :: TlvBlockThere(buf, p, eob, n, es, q) && r == StoreAll([], es) {
      var es :| TlvBlockThere(buf, p, eob, n, es, q) && r == StoreAll([], es);
      TlvsRead(buf, p + 2, p + 2 + size, eob, n, [], es, q);
      assert false;
    }
  }

  // ---------- address sections ----------

  /** An address block up to `mid`, and the TLVs of its addresses up to `next`. */
  datatype Pair = Pair(block: BlockGrammar.BlockParts, mid: nat, tlvs: seq<Entry>, next: nat)

  ghost predicate PairThere(buf: seq<byte>, p: nat, end: int, len: nat, x: Pair)
    requires end <= |buf|
  {
    && p <= x.mid <= end && BlockGrammar.WellFormed(buf[p..x.mid], len, x.block)
    && TlvBlockThere(buf, x.mid, end, buf[p..x.mid][0] as int, x.tlvs, x.next)
  }

  /** What is read for a pair. */
  ghost predicate PairGives(buf: seq<byte>, p: nat, end: int, len: nat, x: Pair, b: ParsedBlock)
    requires end <= |buf| && PairThere(buf, p, end, len, x)
  {
    b.tlvs == StoreAll([], x.tlvs) && BlockGrammar.Gives(buf, b.addrs, buf[p..x.mid][0] as int, len, x.block)
  }

  lemma {:induction false} PairRead(buf: seq<byte>, p: nat, end: int, len: nat, x: Pair)
    requires end <= |buf| && PairThere(buf, p, end, len, x) && len <= AddressBlocks.MAX_ADDRLEN
    ensures var r := ParsePair(buf, p, end, len); r.Ok? && r.value.1 == x.next && PairGives(buf, p, end, len, x, r.value.0)
  {
    hide BlockGrammar.WellFormed, BlockGrammar.Gives, TlvBlockThere, StoreAll, ParseTlvBlock, AddressBlocks.ParseAddrBlock;
    BlockGrammar.BlockGives(buf, p, end, len, x.mid, x.block);
    AddressBlocks.AtMost255(buf, p, end, len);
    var block := AddressBlocks.ParseAddrBlock(buf, p, end, len).value.0;
    GivesCount(buf, block, buf[p..x.mid][0] as int, len, x.block);
    TlvBlockIffThere(buf, x.mid, end, block.num, StoreAll([], x.tlvs), x.next);
  }

  lemma {:induction false} GivesCount(buf: seq<byte>, b: AddressBlocks.AddrBlock, num: nat, len: nat, f: BlockGrammar.BlockParts)
    requires BlockGrammar.Gives(buf, b, num, len, f)
    ensures b.num == num
  {
  }

  lemma {:induction false} PairFound(buf: seq<byte>, p: nat, end: int, len: nat) returns (x: Pair)
    requires end <= |buf| && len <= AddressBlocks.MAX_ADDRLEN && ParsePair(buf, p, end, len).Ok?
    ensures PairThere(buf, p, end, len, x) && x.next == ParsePair(buf, p, end, len).value.1
  {
    hide BlockGrammar.WellFormed, BlockGrammar.Gives, TlvBlockThere, StoreAll, ParseTlvBlock, AddressBlocks.ParseAddrBlock;
    var (block, mid) := AddressBlocks.ParseAddrBlock(buf, p, end, len).value;
    AddressBlocks.AtMost255(buf, p, end, len);
    BlockGrammar.ParsesIffFormed(buf, p, end, len, mid);
    var f :| BlockGrammar.WellFormed(buf[p..mid], len, f);
    BlockGrammar.BlockGives(buf, p, end, len, mid, f);
    GivesCount(buf, block, buf[p..mid][0] as int, len, f);
    var (tlvs, next) := ParseTlvBlock(buf, mid, end, block.num).value;
    TlvBlockIffThere(buf, mid, end, block.num, tlvs, next);
    var es :| TlvBlockThere(buf, mid, end, block.num, es, next) && tlvs == StoreAll([], es);
    x := Pair(f, mid, es, next);
  }

  /** Pairs one behind the other up to `end`. */
  ghost predicate SectionThere(buf: seq<byte>, p: nat, end: int, len: nat, xs: seq<Pair>)
    requires end <= |buf|
    decreases xs
  {
    if xs == [] then p >= end else p < end && PairThere(buf, p, end, len, xs[0]) && SectionThere(buf, xs[0].next, end, len, xs[1..])
  }

  ghost predicate SectionGives(buf: seq<byte>, p: nat, end: int, len: nat, xs: seq<Pair>, blocks: seq<ParsedBlock>)
    requires end <= |buf| && SectionThere(buf, p, end, len, xs)
    decreases xs
  {
    if xs == [] then blocks == []
    else blocks != [] && PairGives(buf, p, end, len, xs[0], blocks[0]) && SectionGives(buf, xs[0].next, end, len, xs[1..], blocks[1..])
  }

  /** What is there is read. */
  lemma {:induction false} SectionRead(buf: seq<byte>, p: nat, end: int, len: nat, before: seq<ParsedBlock>, xs: seq<Pair>) returns (blocks: seq<ParsedBlock>)
    requires end <= |buf| && len <= AddressBlocks.MAX_ADDRLEN && SectionThere(buf, p, end, len, xs)
    ensures ParseSection(buf, p, end, len, before) == Ok(before + blocks) && SectionGives(buf, p, end, len, xs, blocks)
    decreases xs
  {
    hide PairThere, PairGives, ParsePair;
    if xs == [] {
      blocks := [];
      assert before + [] == before;
    } else {
      PairRead(buf, p, end, len, xs[0]);
      PairProgress(buf, p, end, len);
      var b := ParsePair(buf, p, end, len).value.0;
      var rest := SectionRead(buf, xs[0].next, end, len, before + [b], xs[1..]);
      blocks := [b] + rest;
      assert blocks[1..] == rest && before + [b] + rest == before + blocks;
    }
  }

  /** What is read is there. */
  lemma {:induction false} SectionFound(buf: seq<byte>, p: nat, end: int, len: nat, before: seq<ParsedBlock>) returns (xs: seq<Pair>)
    requires end <= |buf| && len <= AddressBlocks.MAX_ADDRLEN && ParseSection(buf, p, end, len, before).Ok?
    ensures SectionThere(buf, p, end, len, xs)
    decreases end - p
  {
    hide PairThere, ParsePair;
    if p >= end {
      xs := [];
    } else {
      var x := PairFound(buf, p, end, len);
      PairProgress(buf, p, end, len);
      var rest := SectionFound(buf, x.next, end, len, before + [ParsePair(buf, p, end, len).value.0]);
      xs := [x] + rest;
      assert xs[1..] == rest;
    }
  }

  /** An address section is read from any bytes exactly if one is there, and gives what is there. */
  lemma {:induction false} SectionIffThere(buf: seq<byte>, p: nat, end: int, len: nat)
    requires end <= |buf| && len <= AddressBlocks.MAX_ADDRLEN
    ensures ParseSection(buf, p, end, len, []).Ok? <==> exists xs :: SectionThere(buf, p, end, len, xs)
    ensures forall xs :: SectionThere(buf, p, end, len, xs) ==>
              var r := ParseSection(buf, p, end, len, []); r.Ok? && SectionGives(buf, p, end, len, xs, r.value)
  {
    hide SectionThere, SectionGives, ParseSection;
    if ParseSection(buf, p, end, len, []).Ok? {
      var xs := SectionFound(buf, p, end, len, []);
    }
    forall xs | SectionThere(buf, p, end, len, xs)
      ensures var r := ParseSection(buf, p, end, len, []); r.Ok? && SectionGives(buf, p, end, len, xs, r.value)
    {
      var blocks := SectionRead(buf, p, end, len, [], xs);
      assert [] + blocks == blocks;
    }
  }
}
