/** The creation of a message in one fragment (`rfc5444_writer_create_message`): compression of the addresses, the walk
    over the blocks, the address section and the header, put together. */
module Generator {
  import opened Wire
  import opened Seqs
  import opened TlvWriter
  import opened AddressBlocks
  import opened AddressSection
  import opened Compression
  import opened Duplicates
  import opened LongLists
  import opened Estimates
  import opened SectionSizes
  import opened Message

  /** What a reader of `out` gets: the header, the TLVs and the addresses that were given to the writer. */
  ghost predicate ReadsBack(out: seq<byte>, h: Header, tlvs: seq<MsgTlv>, items: seq<Item>, chunks: seq<Chunk>)
    requires Inside(items, chunks)
  {
    var r := ParseMessage(out, 0, |out|);
    && r.Ok? && r.value.header == h && r.value.end == |out| && multiset(r.value.tlvs) == EntriesOf(tlvs)
    && GivesAll(out, r.value.blocks, items, chunks, h.len) && (forall b :: b in r.value.blocks ==> Sane(out, b.addrs))
    && AllAddresses(out, r.value.blocks) == ReadAll(items, 0, h.len)
  }

  /** Creates a message from the addresses in `items` and the TLVs in `msg`. It fails if the addresses would have to be
      fragmented or the address section does not fit the buffer behind the TLVs. Where the size field holds, the message
      reads back if and only if no block has more than 255 addresses and no address misleads the writer of the TLVs: so
      always for at most 255 addresses of which none has a type twice. */
  method CreateMessage(msg: TlvData, h: Header, items: seq<Item>, max: int, ghost tlvs: seq<MsgTlv>) returns (fits: bool, out: seq<byte>)
    requires msg.Valid() && GoodHeader(h) && msg.header == HeaderSize(h) && msg.Added() + msg.SetTlvs() == EncodeTlvs(tlvs)
    requires Sendable(items, h.len)
    modifies msg.buffer
    ensures fits <==> (forall k :: 0 <= k < |items| ==> FitsAt(items, k, h.len, max))
                      && msg.Behind() + |EncodeSection(items, h.len, Blocks(items, h.len))| <= msg.buffer.Length
    ensures fits ==> out == MessageBytes(h, EncodeTlvs(tlvs), EncodeSection(items, h.len, Blocks(items, h.len)))
    ensures Inside(items, Blocks(items, h.len))
    ensures fits && |out| < 65536 ==> (ReadsBack(out, h, tlvs, items, Blocks(items, h.len)) <==> AllReadable(items, Blocks(items, h.len)))
    ensures fits && |out| < 65536 && |items| <= 255 && (forall k :: 0 <= k < |items| ==> UniqueTypes(items[k].tlvs))
            ==> ReadsBack(out, h, tlvs, items, Blocks(items, h.len))
    ensures fits && items != [] && AllUnique(items) && OnePlen(items) && Unstretched(items)
            ==> |EncodeSection(items, h.len, Blocks(items, h.len))| <= max
  {
    hide EncodeTlvs, EncodeSection, MessageBytes, ReadsBack, AllReadable, AllTogether, Together, FitsAt, Final, Initial, UniqueTypes, Inside, AllUnique, OnePlen, Unstretched;
    assert h.len > 0;
    TogetherIsInside(items, Blocks(items, h.len), h.len);
    FewAreReadable(items, Blocks(items, h.len), h.len);
    out := [];
    var session := new Session(items, h.len);
    fits := session.Compress(max);
    if !fits {
      return;
    }
    KeptFits(items, h.len, max);
    var section := [];
    if |items| > 0 {
      var ends := session.Link();
      hide Blocks, Sendable;
      section := session.WriteAddresses(ends, Blocks(items, h.len));
    } else {
      NoBlocks(items, h.len);
    }
    if msg.Behind() + |section| > msg.buffer.Length {
      fits := false;
      return;
    }
    out := FinishMessage(msg, h, section);
    if |out| < 65536 {
      WrittenReadsBack(out, h, tlvs, items, Blocks(items, h.len));
    }
  }

  lemma {:induction false} KeptFits(items: seq<Item>, len: nat, max: int)
    requires Sendable(items, len) && forall k :: 0 <= k < |items| ==> FitsAt(items, k, len, max)
    ensures items != [] && AllUnique(items) && OnePlen(items) && Unstretched(items) ==> |EncodeSection(items, len, Blocks(items, len))| <= max
  {
    hide Sendable, AllUnique, OnePlen, Unstretched, FitsAt, Blocks, EncodeSection;
    if AllUnique(items) && OnePlen(items) && Unstretched(items) {
      PlainListFits(items, len, max);
    }
  }

  lemma NoBlocks(items: seq<Item>, len: nat)
    ensures AllTogether(items, [], len) && EncodeSection(items, len, []) == []
  {
  }

  lemma WrittenReadsBack(out: seq<byte>, h: Header, tlvs: seq<MsgTlv>, items: seq<Item>, chunks: seq<Chunk>)
    requires GoodHeader(h) && Partition(chunks, 0, |items|) && AllTogether(items, chunks, h.len)
    requires out == MessageBytes(h, EncodeTlvs(tlvs), EncodeSection(items, h.len, chunks)) && |out| < 65536
    ensures Inside(items, chunks) && (ReadsBack(out, h, tlvs, items, chunks) <==> AllReadable(items, chunks))
  {
    hide EncodeTlvs, EncodeSection, MessageBytes, AllReadable, AllTogether, Partition, GivesAll, GoodHeader, ParseMessage, Carries;
    Carried(out);
    MessageRoundTrip(out, 0, |out|, h, tlvs, items, chunks);
  }

  /** At most 255 addresses, none of which has a type twice. */
  lemma {:induction false} FewAreReadable(items: seq<Item>, chunks: seq<Chunk>, len: nat)
    requires AllTogether(items, chunks, len)
    ensures |items| <= 255 && (forall k :: 0 <= k < |items| ==> UniqueTypes(items[k].tlvs)) ==> AllReadable(items, chunks)
  {
    hide Harmless, UniqueTypes;
    if |items| <= 255 && forall k :: 0 <= k < |items| ==> UniqueTypes(items[k].tlvs) {
      forall c | c in chunks
        ensures 0 <= c.first <= c.last < |items| && Readable(items, c)
      {
        assert Together(items, c.first, c.last + 1, len, c.head, c.multi);
        var block := TlvsOf(items[c.first..c.last + 1]);
        assert forall k :: 0 <= k < |block| ==> block[k] == items[c.first + k].tlvs;
        UniqueIsHarmless(block);
      }
    }
  }

  /** A uniform list of more than 255 addresses of two bytes or more is not fragmented where the message has room for it, and
      does not come back. */
  lemma {:induction false} LongListIsLost(items: seq<Item>, len: nat, h: nat, max: int)
    requires Uniform(items, len, h) && len > 1 && |items| > 255 && 2 * (len + 6) + |items| * (len - h) <= max
    ensures forall k :: 0 <= k < |items| ==> FitsAt(items, k, len, max)
    ensures !AllReadable(items, Blocks(items, len))
  {
    hide FitsAt, Harmless, Blocks;
    UniformFitsIff(items, len, h, max);
    UniformIsOneBlock(items, len, h);
    assert Chunk(0, |items| - 1, h, false) in Blocks(items, len);
  }

  /** As 256 addresses from 10.0.0.0 to 10.0.0.255, or to 10.0.255.0, in a message with 1400 bytes left for addresses. */
  lemma {:induction false} HostsAreLost(items: seq<Item>)
    requires items == Hosts(256) || items == TenDot(256)
    ensures Sendable(items, 4) && (forall k :: 0 <= k < 256 ==> FitsAt(items, k, 4, 1400)) && !AllReadable(items, Blocks(items, 4))
  {
    HostsAreUniform(256);
    TenDotIsUniform(256);
    assert |items| == 256;
    hide Uniform, Hosts, TenDot, FitsAt;
    LongListIsLost(items, 4, if items == Hosts(256) then 3 else 2, 1400);
  }

  lemma Carried(s: seq<byte>)
    ensures Carries(s, 0, s)
  {
  }
}
