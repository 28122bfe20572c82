/** The address section of a message: address blocks, each with the TLVs of its addresses. */
module AddressSection {
  import opened Wire
  import opened Seqs
  import Tlv
  import opened AddressBlocks
  import opened AddressTlvs
  import opened Duplicates

  /** An address to be sent, with its TLVs. */
  datatype Item = Item(addr: Address, tlvs: seq<AddrTlv>)

  /** A block: its first and last address, and its form. */
  datatype Chunk = Chunk(first: nat, last: nat, head: nat, multi: bool)

  /** The addresses `from` to `to - 1` share a head, and a prefix length unless `multi`. */
  ghost predicate Together(items: seq<Item>, from: int, to: int, len: nat, head: int, multi: bool)
  {
    && 0 <= from < to <= |items| && 0 <= head < len <= MAX_ADDRLEN
    && (forall j :: from <= j < to ==> |items[j].addr.bytes| == len)
    && (forall j :: from <= j < to ==> items[j].addr.bytes[..head] == items[from].addr.bytes[..head])
    && (!multi ==> forall j :: from <= j < to ==> items[j].addr.plen == items[from].addr.plen)
  }

  ghost predicate AllTogether(items: seq<Item>, chunks: seq<Chunk>, len: nat)
  {
    forall c :: c in chunks ==> Together(items, c.first, c.last + 1, len, c.head, c.multi)
  }

  /** The blocks cover the addresses `from` to `to - 1`, one behind the other. */
  ghost predicate Partition(chunks: seq<Chunk>, from: int, to: int)
  {
    if chunks == [] then from == to
    else chunks[0].first == from && from <= chunks[0].last < to && Partition(chunks[1..], chunks[0].last + 1, to)
  }

  function AddrsOf(items: seq<Item>): (r: seq<Address>)
    ensures |r| == |items|
  {
    seq(|items|, i requires 0 <= i < |items| => items[i].addr)
  }

  function TlvsOf(items: seq<Item>): (r: Block)
    ensures |r| == |items|
  {
    seq(|items|, i requires 0 <= i < |items| => items[i].tlvs)
  }

  lemma ChunkIsJoined(items: seq<Item>, c: Chunk, len: nat)
    requires Together(items, c.first, c.last + 1, len, c.head, c.multi)
    ensures Joined(AddrsOf(items[c.first..c.last + 1]), len, c.head, c.multi)
  {
    var addrs := AddrsOf(items[c.first..c.last + 1]);
    assert forall i :: 0 <= i < |addrs| ==> addrs[i] == items[c.first + i].addr;
  }

  // ---------- the writer ----------

  /** An address block and the TLVs of its addresses. */
  function EncodeChunk(items: seq<Item>, len: nat, c: Chunk): seq<byte>
    requires Together(items, c.first, c.last + 1, len, c.head, c.multi)
  {
    ChunkIsJoined(items, c, len);
    EncodeAddrBlock(AddrsOf(items[c.first..c.last + 1]), len, c.head, c.multi) + EncodeTlvBlock(TlvsOf(items[c.first..c.last + 1]))
  }

  function EncodeSection(items: seq<Item>, len: nat, chunks: seq<Chunk>): seq<byte>
    requires AllTogether(items, chunks, len)
  {
    if chunks == [] then [] else EncodeChunk(items, len, chunks[0]) + EncodeSection(items, len, chunks[1..])
  }

  // ---------- the reader ----------

  datatype ParsedBlock = ParsedBlock(addrs: AddrBlock, tlvs: seq<Tlv.Entry>)

  /** One address block and its TLV block. */
  function ParsePair(buf: seq<byte>, p: nat, end: int, len: nat): Result<(ParsedBlock, nat)>
    requires end <= |buf|
  {
    match ParseAddrBlock(buf, p, end, len)
    case Err(e) => Err(e)
    case Ok((block, q)) =>
      AtMost255(buf, p, end, len);
      match ParseTlvBlock(buf, q, end, block.num)
      case Err(e) => Err(e)
      case Ok((tlvs, r)) => Ok((ParsedBlock(block, tlvs), r))
  }

  lemma {:induction false} TlvsProgress(buf: seq<byte>, p: nat, end: int, eob: int, n: u8, entries: seq<Tlv.Entry>)
    requires eob <= |buf|
    ensures var r := ParseTlvs(buf, p, end, eob, n, entries); r.Ok? ==> r.value.1 >= p
    decreases end - p
  {
    if p < end {
      ParseProgress(buf, p, eob, n);
      var r := Tlv.ParseTlv(buf, p, eob, n);
      if r.Ok? {
        TlvsProgress(buf, r.value.1, end, eob, n, Store(entries, r.value.0));
      }
    }
  }

  lemma PairProgress(buf: seq<byte>, p: nat, end: int, len: nat)
    requires end <= |buf|
    ensures var r := ParsePair(buf, p, end, len); r.Ok? ==> r.value.1 > p
  {
    hide ParseAddrBlock, ParseTlvs;
    AtMost255(buf, p, end, len);
    var r := ParseAddrBlock(buf, p, end, len);
    if r.Ok? {
      var (length, c) := GetU16(buf, end, Cursor(r.value.1, false));
      if r.value.1 + 2 + length <= end {
        TlvsProgress(buf, c.pos, r.value.1 + 2 + length, end, r.value.0.num, []);
      }
    }
  }

  /** The address section of a message that ends at `end`. */
  function ParseSection(buf: seq<byte>, p: nat, end: int, len: nat, blocks: seq<ParsedBlock>): Result<seq<ParsedBlock>>
    requires end <= |buf|
    decreases end - p
  {
    if p >= end then Ok(blocks)
    else
      PairProgress(buf, p, end, len);
      match ParsePair(buf, p, end, len)
      case Err(e) => Err(e)
      case Ok((b, q)) => ParseSection(buf, q, end, len, blocks + [b])
  }

  method ParseSectionLoop(buf: seq<byte>, p: nat, end: int, len: nat) returns (r: Result<seq<ParsedBlock>>)
    requires end <= |buf|
    ensures r == ParseSection(buf, p, end, len, [])
  {
    hide ParsePair;
    var ptr, blocks := p, [];
    while ptr < end
      invariant ParseSection(buf, p, end, len, []) == ParseSection(buf, ptr, end, len, blocks)
    {
      PairProgress(buf, ptr, end, len);
      var b := ParsePair(buf, ptr, end, len);
      if b.Err? {
        return Err(b.error);
      }
      blocks, ptr := blocks + [b.value.0], b.value.1;
    }
    return Ok(blocks);
  }

  // ---------- the round trip ----------

  /** What comes back of a block: one of at most 255 addresses, none of which misleads the writer of the TLVs. */
  ghost predicate Readable(items: seq<Item>, c: Chunk)
    requires 0 <= c.first <= c.last < |items|
  {
    Short(c) && Harmless(TlvsOf(items[c.first..c.last + 1]))
  }

  predicate Short(c: Chunk)
  {
    c.last - c.first <= 254
  }

  /** The parsed block gives the addresses of the chunk and what their TLVs say. */
  ghost predicate Gives(buf: seq<byte>, b: ParsedBlock, items: seq<Item>, c: Chunk, len: nat)
    requires 0 <= c.first <= c.last < |items|
  {
    && Sane(buf, b.addrs) && b.addrs.num == c.last + 1 - c.first
    && (forall i :: 0 <= i < b.addrs.num ==> AddressesOf(buf, b.addrs)[i] == Read(items[c.first + i].addr, len))
    && EntriesFacts(b.tlvs) == BlockFacts(TlvsOf(items[c.first..c.last + 1]), c.last + 1 - c.first)
  }

  lemma {:induction false} ParsesPair(buf: seq<byte>, p: nat, end: int, len: nat, items: seq<Item>, c: Chunk)
    requires Together(items, c.first, c.last + 1, len, c.head, c.multi) && Short(c) && |EncodeChunk(items, len, c)| < 65536
    requires Carries(buf, p, EncodeChunk(items, len, c)) && p + |EncodeChunk(items, len, c)| <= end <= |buf|
    ensures var r := ParsePair(buf, p, end, len);
            r.Ok? && r.value.1 == p + |EncodeChunk(items, len, c)| && (Gives(buf, r.value.0, items, c, len) <==> Readable(items, c))
  {
    hide Carries, EncodeAddrBlock, EncodeTlvBlock, ParseAddrBlock, ParseTlvBlock, AddressesOf, BlockFacts, EntriesFacts, Harmless, Fits, Sane;
    var addrs, tlvs := AddrsOf(items[c.first..c.last + 1]), TlvsOf(items[c.first..c.last + 1]);
    ChunkIsJoined(items, c, len);
    var block := EncodeAddrBlock(addrs, len, c.head, c.multi);
    CarriesSplit(buf, p, block, EncodeTlvBlock(tlvs));
    AddressBlockRoundTrip(buf, p, end, len, addrs, c.head, c.multi);
    SmallFits(tlvs);
    AddressTlvRoundTrip(buf, p + |block|, end, tlvs);
    assert forall i :: 0 <= i < |addrs| ==> addrs[i] == items[c.first + i].addr;
  }

  lemma SmallFits(tlvs: Block)
    requires |EncodeTlvBlock(tlvs)| < 65536
    ensures Fits(tlvs)
  {
  }

  ghost predicate AllReadable(items: seq<Item>, chunks: seq<Chunk>)
  {
    forall c :: c in chunks ==> 0 <= c.first <= c.last < |items| && Readable(items, c)
  }

  ghost predicate Inside(items: seq<Item>, chunks: seq<Chunk>)
  {
    forall c :: c in chunks ==> 0 <= c.first <= c.last < |items|
  }

  lemma TogetherIsInside(items: seq<Item>, chunks: seq<Chunk>, len: nat)
    requires AllTogether(items, chunks, len)
    ensures Inside(items, chunks)
  {
  }

  /** The parsed blocks give the chunks one after the other. */
  ghost predicate GivesAll(buf: seq<byte>, blocks: seq<ParsedBlock>, items: seq<Item>, chunks: seq<Chunk>, len: nat)
    requires Inside(items, chunks)
  {
    |blocks| == |chunks| && forall i :: 0 <= i < |chunks| ==> chunks[i] in chunks && Gives(buf, blocks[i], items, chunks[i], len)
  }

  lemma {:induction false} GivesNext(buf: seq<byte>, b: ParsedBlock, rest: seq<ParsedBlock>, items: seq<Item>, chunks: seq<Chunk>, len: nat)
    requires Inside(items, chunks) && chunks != [] && Inside(items, chunks[1..]) && chunks[0] in chunks
    ensures GivesAll(buf, [b] + rest, items, chunks, len)
       <==> Gives(buf, b, items, chunks[0], len) && GivesAll(buf, rest, items, chunks[1..], len)
  {
    hide Gives;
    var blocks := [b] + rest;
    if Gives(buf, b, items, chunks[0], len) && GivesAll(buf, rest, items, chunks[1..], len) {
      forall i | 0 <= i < |chunks|
        ensures chunks[i] in chunks && Gives(buf, blocks[i], items, chunks[i], len)
      {
        if i > 0 {
          assert chunks[1..][i - 1] == chunks[i];
        }
      }
    } else if GivesAll(buf, blocks, items, chunks, len) {
      assert Gives(buf, blocks[0], items, chunks[0], len);
      forall i | 0 <= i < |chunks| - 1
        ensures chunks[1..][i] in chunks[1..] && Gives(buf, rest[i], items, chunks[1..][i], len)
      {
        assert Gives(buf, blocks[i + 1], items, chunks[i + 1], len);
      }
    }
  }

  ghost predicate AllShort(chunks: seq<Chunk>)
  {
    forall c :: c in chunks ==> Short(c)
  }

  lemma {:induction false} TailToo(items: seq<Item>, chunks: seq<Chunk>, len: nat)
    requires AllTogether(items, chunks, len) && AllShort(chunks) && chunks != []
    ensures var c := chunks[0]; c in chunks && Together(items, c.first, c.last + 1, len, c.head, c.multi) && Short(c) && c.last < |items|
    ensures AllTogether(items, chunks[1..], len) && AllShort(chunks[1..]) && Inside(items, chunks) && Inside(items, chunks[1..])
  {
    TogetherIsInside(items, chunks, len);
  }

  lemma {:induction false} ParsesChunks(buf: seq<byte>, p: nat, end: int, len: nat, items: seq<Item>, chunks: seq<Chunk>, blocks: seq<ParsedBlock>)
    returns (more: seq<ParsedBlock>)
    requires AllTogether(items, chunks, len) && AllShort(chunks) && |EncodeSection(items, len, chunks)| < 65536
    requires Carries(buf, p, EncodeSection(items, len, chunks)) && p + |EncodeSection(items, len, chunks)| == end <= |buf|
    ensures ParseSection(buf, p, end, len, blocks) == Ok(blocks + more)
    ensures Inside(items, chunks) && (GivesAll(buf, more, items, chunks, len) <==> AllReadable(items, chunks))
    decreases chunks
  {
    hide Carries, EncodeChunk, ParsePair, Gives, Readable, Together, Short;
    if chunks == [] {
      more := [];
      assert blocks + more == blocks;
    } else {
      TailToo(items, chunks, len);
      hide AllTogether, AllShort, Inside, AllReadable, GivesAll;
      var c, rest := chunks[0], EncodeSection(items, len, chunks[1..]);
      CarriesSplit(buf, p, EncodeChunk(items, len, c), rest);
      ParsesPair(buf, p, end, len, items, c);
      PairProgress(buf, p, end, len);
      var b := ParsePair(buf, p, end, len).value.0;
      var others := ParsesChunks(buf, p + |EncodeChunk(items, len, c)|, end, len, items, chunks[1..], blocks + [b]);
      more := [b] + others;
      assert blocks + [b] + others == blocks + more;
      GivesNext(buf, b, others, items, chunks, len);
      ReadableNext(items, chunks);
    }
  }

  lemma {:induction false} ReadableNext(items: seq<Item>, chunks: seq<Chunk>)
    requires Inside(items, chunks) && chunks != [] && chunks[0] in chunks
    ensures AllReadable(items, chunks) <==> Readable(items, chunks[0]) && AllReadable(items, chunks[1..])
  {
    hide Readable;
  }

  /** Whatever is parsed, no block has more than 255 addresses. */
  lemma {:induction false} ParsedAreShort(buf: seq<byte>, p: nat, end: int, len: nat, blocks: seq<ParsedBlock>)
    requires end <= |buf| && forall b :: b in blocks ==> b.addrs.num <= 255
    ensures var r := ParseSection(buf, p, end, len, blocks); r.Ok? ==> forall b :: b in r.value ==> b.addrs.num <= 255
    decreases end - p
  {
    if p < end {
      AtMost255(buf, p, end, len);
      PairProgress(buf, p, end, len);
      var r := ParsePair(buf, p, end, len);
      hide ParseAddrBlock, ParseTlvBlock;
      if r.Ok? {
        ParsedAreShort(buf, r.value.1, end, len, blocks + [r.value.0]);
      }
    }
  }

  /** The addresses of all parsed blocks, in order. */
  ghost function AllAddresses(buf: seq<byte>, blocks: seq<ParsedBlock>): seq<Address>
    requires forall b :: b in blocks ==> Sane(buf, b.addrs)
  {
    if blocks == [] then [] else AddressesOf(buf, blocks[0].addrs) + AllAddresses(buf, blocks[1..])
  }

  /** What is read for the addresses from `from` on. */
  ghost function ReadAll(items: seq<Item>, from: nat, len: nat): seq<Address>
    requires from <= |items|
  {
    seq(|items| - from, i requires 0 <= i < |items| - from => Read(items[from + i].addr, len))
  }

  lemma ReadAllSplit(items: seq<Item>, from: nat, mid: nat, len: nat, first: seq<Address>)
    requires from <= mid <= |items| && |first| == mid - from
    requires forall i :: 0 <= i < |first| ==> first[i] == Read(items[from + i].addr, len)
    ensures first + ReadAll(items, mid, len) == ReadAll(items, from, len)
  {
  }

  lemma {:induction false} GivesInOrder(buf: seq<byte>, blocks: seq<ParsedBlock>, items: seq<Item>, chunks: seq<Chunk>, from: nat, len: nat)
    requires Inside(items, chunks) && GivesAll(buf, blocks, items, chunks, len) && from <= |items|
    requires Partition(chunks, from, |items|)
    ensures forall b :: b in blocks ==> Sane(buf, b.addrs)
    ensures AllAddresses(buf, blocks) == ReadAll(items, from, len)
    decreases chunks
  {
    hide Read, EntriesFacts, BlockFacts, AddressesOf, Sane;
    if chunks != [] {
      assert Gives(buf, blocks[0], items, chunks[0], len);
      forall i | 0 <= i < |chunks| - 1
        ensures Gives(buf, blocks[1..][i], items, chunks[1..][i], len)
      {
        assert Gives(buf, blocks[i + 1], items, chunks[i + 1], len);
      }
      GivesInOrder(buf, blocks[1..], items, chunks[1..], chunks[0].last + 1, len);
      ReadAllSplit(items, from, chunks[0].last + 1, len, AddressesOf(buf, blocks[0].addrs));
    }
  }

  /** A block of more than 255 addresses does not come back. */
  lemma {:induction false} LongIsLost(buf: seq<byte>, p: nat, end: int, len: nat, items: seq<Item>, chunks: seq<Chunk>, c: Chunk)
    requires Inside(items, chunks) && c in chunks && !Short(c) && end <= |buf|
    ensures var r := ParseSection(buf, p, end, len, []); !(r.Ok? && GivesAll(buf, r.value, items, chunks, len)) && !AllReadable(items, chunks)
  {
    hide ParseSection, AddressesOf, EntriesFacts, BlockFacts;
    ParsedAreShort(buf, p, end, len, []);
    var i :| 0 <= i < |chunks| && chunks[i] == c;
    var r := ParseSection(buf, p, end, len, []);
    assert r.Ok? && |r.value| == |chunks| ==> r.value[i] in r.value && r.value[i].addrs.num != c.last + 1 - c.first;
  }

  /** The round trip of the address section: the reader finds the blocks that were written, and in them all addresses in
      their order and exactly what their TLVs say, if and only if no block has more than 255 addresses and none misleads
      the writer of the TLVs. */
  lemma {:induction false} AddressSectionRoundTrip(buf: seq<byte>, p: nat, end: int, len: nat, items: seq<Item>, chunks: seq<Chunk>)
    requires Partition(chunks, 0, |items|) && AllTogether(items, chunks, len) && |EncodeSection(items, len, chunks)| < 65536
    requires Carries(buf, p, EncodeSection(items, len, chunks)) && p + |EncodeSection(items, len, chunks)| == end <= |buf|
    ensures var r := ParseSection(buf, p, end, len, []);
            && Inside(items, chunks) && (r.Ok? && GivesAll(buf, r.value, items, chunks, len) <==> AllReadable(items, chunks))
            && (AllReadable(items, chunks) ==> (forall b :: b in r.value ==> Sane(buf, b.addrs))
                                               && AllAddresses(buf, r.value) == ReadAll(items, 0, len))
  {
    TogetherIsInside(items, chunks, len);
    hide GivesAll, AllReadable, AllTogether, Partition, ParseSection, EncodeSection, Carries, Short;
    if AllShort(chunks) {
      var more := ParsesChunks(buf, p, end, len, items, chunks, []);
      assert [] + more == more;
      if AllReadable(items, chunks) {
        GivesInOrder(buf, more, items, chunks, 0, len);
      }
    } else {
      var c :| c in chunks && !Short(c);
      LongIsLost(buf, p, end, len, items, chunks, c);
    }
  }
}
