/** Messages of RFC 5444, section 5.2: header, message TLVs and address section (`_write_msgheader`,
    `_finalize_message_fragment` and `_handle_message`). */
module Message {
  import opened Wire
  import opened Seqs
  import opened Tlv
  import opened TlvWriter
  import AddressBlocks
  import opened AddressTlvs
  import opened AddressSection

  // The flags of a message header; the low four bits hold the address length.
  const ORIGINATOR := 128
  const HOPLIMIT := 64
  const HOPCOUNT := 32
  const SEQNO := 16

  datatype Header = Header(typ: u8, len: nat, orig: Option<seq<byte>>, hopLimit: Option<u8>, hopCount: Option<u8>, seqno: Option<nat>)

  /** What the fields of a header can hold. */
  predicate GoodHeader(h: Header)
  {
    0 < h.len <= 16 && (h.orig.Some? ==> |h.orig.value| == h.len) && (h.seqno.Some? ==> h.seqno.value < 65536)
  }

  datatype Message = Message(header: Header, tlvs: seq<Entry>, blocks: seq<ParsedBlock>, end: nat)

  // ---------- the reader ----------

  function ReadOriginator(buf: seq<byte>, eob: int, flags: u8, len: nat, c: Cursor): Result<(Option<seq<byte>>, Cursor)>
    requires eob <= |buf|
  {
    if !Has(flags, ORIGINATOR) then Ok((None, c))
    else if c.pos + len > eob then Err(EndOfBuffer)
    else Ok((Some(buf[c.pos..c.pos + len]), c.(pos := c.pos + len)))
  }

  function ReadOption8(buf: seq<byte>, eob: int, present: bool, c: Cursor): (Option<u8>, Cursor)
    requires eob <= |buf|
  {
    if present then var (n, d) := GetU8(buf, eob, c); (Some(n), d) else (None, c)
  }

  function ReadOption16(buf: seq<byte>, eob: int, present: bool, c: Cursor): (Option<nat>, Cursor)
    requires eob <= |buf|
  {
    if present then var (n, d) := GetU16(buf, eob, c); (Some(n), d) else (None, c)
  }

  /** The optional fields of the header. */
  function ReadFields(buf: seq<byte>, eob: int, typ: u8, flags: u8, c: Cursor): Result<(Header, Cursor)>
    requires eob <= |buf|
  {
    var len := flags % 16 + 1;
    match ReadOriginator(buf, eob, flags, len, c)
    case Err(e) => Err(e)
    case Ok((orig, c1)) =>
      var (limit, c2) := ReadOption8(buf, eob, Has(flags, HOPLIMIT), c1);
      var (count, c3) := ReadOption8(buf, eob, Has(flags, HOPCOUNT), c2);
      var (seqno, c4) := ReadOption16(buf, eob, Has(flags, SEQNO), c3);
      Ok((Header(typ, len, orig, limit, count, seqno), c4))
  }

  function ParseMessage(buf: seq<byte>, p: nat, eob: int): Result<Message>
    requires eob <= |buf|
  {
    var (typ, c1) := GetU8(buf, eob, Cursor(p, false));
    var (flags, c2) := GetU8(buf, eob, c1);
    var (size, c3) := GetU16(buf, eob, c2);
    match ReadFields(buf, eob, typ, flags, c3)
    case Err(e) => Err(e)
    case Ok((header, c4)) =>
      if p + size > eob || c4.failed then Err(EndOfBuffer)
      else ParseBody(buf, c4.pos, p + size, header)
  }

  /** The message TLVs and the address blocks. */
  function ParseBody(buf: seq<byte>, p: nat, end: int, header: Header): Result<Message>
    requires 0 <= end <= |buf|
  {
    match ParseTlvBlock(buf, p, end, 0)
    case Err(e) => Err(e)
    case Ok((tlvs, q)) =>
      match ParseSection(buf, q, end, header.len, [])
      case Err(e) => Err(e)
      case Ok(blocks) => Ok(Message(header, tlvs, blocks, end))
  }

  // ---------- the writer ----------

  function HeaderFlags(h: Header): int
  {
    Bit(h.orig.Some?, ORIGINATOR) + Bit(h.hopLimit.Some?, HOPLIMIT) + Bit(h.hopCount.Some?, HOPCOUNT) + Bit(h.seqno.Some?, SEQNO) + (h.len - 1)
  }

  function Part8(o: Option<u8>): seq<byte>
  {
    if o.Some? then [B(o.value)] else []
  }

  function Part16(o: Option<nat>): seq<byte>
  {
    if o.Some? then U16(o.value) else []
  }

  function OrigPart(h: Header): seq<byte>
  {
    if h.orig.Some? then h.orig.value else []
  }

  /** The header up to the size of the TLV block; `total` is the size of the message, `tlvs` that of its TLVs. */
  function HeaderBytes(h: Header, total: nat, tlvs: nat): seq<byte>
  {
    Flatten([[B(h.typ), B(HeaderFlags(h))] + U16(total), OrigPart(h), Part8(h.hopLimit), Part8(h.hopCount), Part16(h.seqno) + U16(tlvs)])
  }

  /** The size that is set aside for the header. */
  function HeaderSize(h: Header): (n: nat)
    ensures n >= 6
  {
    6 + (if h.orig.Some? then h.len else 0) + (if h.hopLimit.Some? then 1 else 0) + (if h.hopCount.Some? then 1 else 0)
    + if h.seqno.Some? then 2 else 0
  }

  function MessageBytes(h: Header, tlvs: seq<byte>, section: seq<byte>): seq<byte>
  {
    HeaderBytes(h, HeaderSize(h) + |tlvs| + |section|, |tlvs|) + tlvs + section
  }

  lemma HeaderLength(h: Header, total: nat, tlvs: nat)
    requires GoodHeader(h)
    ensures |HeaderBytes(h, total, tlvs)| == HeaderSize(h)
  {
    FlattenFive([B(h.typ), B(HeaderFlags(h))] + U16(total), OrigPart(h), Part8(h.hopLimit), Part8(h.hopCount), Part16(h.seqno) + U16(tlvs));
  }

  /** Writes the header over the start of the buffer and copies the message out: header, TLVs added, TLVs set and the
      address section, which lies behind the allocated space. */
  method FinishMessage(msg: TlvData, h: Header, section: seq<byte>) returns (out: seq<byte>)
    requires msg.Valid() && GoodHeader(h) && msg.header == HeaderSize(h) && msg.Behind() + |section| <= msg.buffer.Length
    modifies msg.buffer
    ensures out == MessageBytes(h, old(msg.Added()) + old(msg.SetTlvs()), section)
  {
    hide Window, Patched, HeaderBytes, HeaderSize, GoodHeader;
    ghost var b := msg.buffer[..];
    var _ := Put(msg.buffer, msg.Behind(), section);
    ghost var b1 := msg.buffer[..];
    Written(b, msg.Behind(), section);
    Spared(b, msg.Behind(), section, msg.header, msg.added);
    Spared(b, msg.Behind(), section, msg.header + msg.added, msg.used);
    var tlvs := msg.added + msg.used;
    var head := HeaderBytes(h, msg.header + tlvs + |section|, tlvs);
    HeaderLength(h, msg.header + tlvs + |section|, tlvs);
    var _ := Put(msg.buffer, 0, head);
    ghost var b2 := msg.buffer[..];
    Written(b1, 0, head);
    Spared(b1, 0, head, msg.header, msg.added);
    Spared(b1, 0, head, msg.header + msg.added, msg.used);
    Spared(b1, 0, head, msg.Behind(), |section|);
    Adjacent(b2, 0, msg.header, msg.added);
    Adjacent(b2, 0, msg.header + msg.added, msg.used);
    WindowOf(msg.buffer, 0, msg.header + tlvs);
    WindowOf(msg.buffer, msg.Behind(), |section|);
    out := msg.buffer[0..msg.header + tlvs] + msg.buffer[msg.Behind()..msg.Behind() + |section|];
    Associates(head, Window(b2, msg.header, msg.added), Window(b2, msg.header + msg.added, msg.used));
  }

  lemma WindowOf(buffer: array<byte>, from: nat, n: nat)
    requires from + n <= buffer.Length
    ensures Window(buffer[..], from, n) == buffer[from..from + n]
  {
  }

  // ---------- the round trip ----------

  lemma FlagsRoundTrip(h: Header)
    requires GoodHeader(h)
    ensures var n := HeaderFlags(h);
            && 0 <= n < 256 && n % 16 + 1 == h.len && Has(n, ORIGINATOR) == h.orig.Some? && Has(n, HOPLIMIT) == h.hopLimit.Some?
            && Has(n, HOPCOUNT) == h.hopCount.Some? && Has(n, SEQNO) == h.seqno.Some?
  {
  }

  lemma ReadsOriginator(buf: seq<byte>, p: nat, eob: int, h: Header, flags: u8)
    requires GoodHeader(h) && Has(flags, ORIGINATOR) == h.orig.Some?
    requires Carries(buf, p, OrigPart(h)) && p + |OrigPart(h)| <= eob <= |buf|
    ensures ReadOriginator(buf, eob, flags, h.len, Cursor(p, false)) == Ok((h.orig, Cursor(p + |OrigPart(h)|, false)))
  {
    if h.orig.Some? {
      CarriesSlice(buf, p, h.orig.value);
    }
  }

  lemma ReadsOption8(buf: seq<byte>, p: nat, eob: int, o: Option<u8>)
    requires Carries(buf, p, Part8(o)) && p + |Part8(o)| <= eob <= |buf|
    ensures ReadOption8(buf, eob, o.Some?, Cursor(p, false)) == (o, Cursor(p + |Part8(o)|, false))
  {
    if o.Some? {
      ReadsU8(buf, eob, p, o.value);
    }
  }

  lemma ReadsOption16(buf: seq<byte>, p: nat, eob: int, o: Option<nat>)
    requires (o.Some? ==> o.value < 65536) && Carries(buf, p, Part16(o)) && p + |Part16(o)| <= eob <= |buf|
    ensures ReadOption16(buf, eob, o.Some?, Cursor(p, false)) == (o, Cursor(p + |Part16(o)|, false))
  {
    if o.Some? {
      ReadsU16(buf, eob, p, o.value);
    }
  }

  lemma ReadsFields(buf: seq<byte>, p: nat, eob: int, h: Header, flags: u8, p2: nat, p3: nat, p4: nat, p5: nat)
    requires GoodHeader(h) && flags == HeaderFlags(h) && eob <= |buf|
    requires p2 == p + |OrigPart(h)| && p3 == p2 + |Part8(h.hopLimit)| && p4 == p3 + |Part8(h.hopCount)| && p5 == p4 + |Part16(h.seqno)| <= eob
    requires Carries(buf, p, OrigPart(h)) && Carries(buf, p2, Part8(h.hopLimit)) && Carries(buf, p3, Part8(h.hopCount))
    requires Carries(buf, p4, Part16(h.seqno))
    ensures ReadFields(buf, eob, h.typ, flags, Cursor(p, false)) == Ok((h, Cursor(p5, false)))
  {
    hide Carries, Has, ReadOriginator, ReadOption8, ReadOption16, HeaderFlags, Part8, Part16, OrigPart;
    FlagsRoundTrip(h);
    ReadsOriginator(buf, p, eob, h, flags);
    ReadsOption8(buf, p2, eob, h.hopLimit);
    ReadsOption8(buf, p3, eob, h.hopCount);
    ReadsOption16(buf, p4, eob, h.seqno);
  }

  /** Type, flags and size. */
  lemma ReadsStart(buf: seq<byte>, p: nat, eob: int, typ: u8, flags: u8, total: nat)
    requires total < 65536 && Carries(buf, p, [B(typ), B(flags)] + U16(total)) && p + 4 <= eob <= |buf|
    ensures GetU8(buf, eob, Cursor(p, false)) == (typ, Cursor(p + 1, false))
    ensures GetU8(buf, eob, Cursor(p + 1, false)) == (flags, Cursor(p + 2, false))
    ensures GetU16(buf, eob, Cursor(p + 2, false)) == (total, Cursor(p + 4, false))
  {
    var start := [B(typ), B(flags)];
    CarriesSplit(buf, p, start, U16(total));
    assert buf[p + 0] == start[0] && buf[p + 1] == start[1];
    ReadsU16(buf, eob, p + 2, total);
  }

  /** The header is read back; its last two bytes, the size of the TLV block, come next. */
  lemma ReadsHeader(buf: seq<byte>, p: nat, eob: int, h: Header, total: nat, tlvs: nat)
    requires GoodHeader(h) && total < 65536 && total >= HeaderSize(h)
    requires Carries(buf, p, HeaderBytes(h, total, tlvs)) && p + total <= eob <= |buf|
    ensures ParseMessage(buf, p, eob) == ParseBody(buf, p + HeaderSize(h) - 2, p + total, h)
    ensures Carries(buf, p + HeaderSize(h) - 2, U16(tlvs))
  {
    hide Carries, HeaderFlags, Part8, Part16, OrigPart, ReadFields, Flatten, ParseBody, GetU8, GetU16, U16;
    var start, last := [B(h.typ), B(HeaderFlags(h))] + U16(total), Part16(h.seqno) + U16(tlvs);
    FlagsRoundTrip(h);
    HeaderLength(h, total, tlvs);
    FiveParts(buf, p, start, OrigPart(h), Part8(h.hopLimit), Part8(h.hopCount), last);
    var p2 := p + 4 + |OrigPart(h)|;
    var p3 := p2 + |Part8(h.hopLimit)|;
    var p4 := p3 + |Part8(h.hopCount)|;
    CarriesSplit(buf, p4, Part16(h.seqno), U16(tlvs));
    ReadsStart(buf, p, eob, h.typ, HeaderFlags(h), total);
    ReadsFields(buf, p + 4, eob, h, HeaderFlags(h), p2, p3, p4, p4 + |Part16(h.seqno)|);
  }

  /** The bytes of message TLVs. */
  function EncodeTlvs(tlvs: seq<MsgTlv>): seq<byte>
  {
    if tlvs == [] then [] else EncodeTlv(tlvs[0], 0, 255) + EncodeTlvs(tlvs[1..])
  }

  function StoreTlvs(entries: seq<Entry>, tlvs: seq<MsgTlv>): seq<Entry>
    decreases tlvs
  {
    if tlvs == [] then entries else StoreTlvs(Store(entries, EntryOf(tlvs[0], 0, 255)), tlvs[1..])
  }

  ghost function EntriesOf(tlvs: seq<MsgTlv>): multiset<Entry>
  {
    if tlvs == [] then multiset{} else multiset{EntryOf(tlvs[0], 0, 255)} + EntriesOf(tlvs[1..])
  }

  lemma {:induction false} ParsesTlvs(buf: seq<byte>, p: nat, eob: int, tlvs: seq<MsgTlv>, entries: seq<Entry>)
    requires |EncodeTlvs(tlvs)| < 65536 && Carries(buf, p, EncodeTlvs(tlvs)) && p + |EncodeTlvs(tlvs)| <= eob <= |buf|
    ensures var end := p + |EncodeTlvs(tlvs)|; ParseTlvs(buf, p, end, eob, 0, entries) == Ok((StoreTlvs(entries, tlvs), end))
    decreases tlvs
  {
    hide Carries, EncodeTlv, ParseTlv, Store;
    if tlvs != [] {
      var first, rest := EncodeTlv(tlvs[0], 0, 255), EncodeTlvs(tlvs[1..]);
      CarriesSplit(buf, p, first, rest);
      SizeIsRight(tlvs[0]);
      ParsesTlv(buf, p, eob, tlvs[0], 0, 255);
      ParseProgress(buf, p, eob, 0);
      ParsesTlvs(buf, p + |first|, eob, tlvs[1..], Store(entries, EntryOf(tlvs[0], 0, 255)));
    }
  }

  lemma {:induction false} StoreAdds(entries: seq<Entry>, e: Entry)
    ensures multiset(Store(entries, e)) == multiset(entries) + multiset{e}
  {
    hide Order;
    if entries != [] {
      var head, tail := [entries[0]], entries[1..];
      assert entries == head + tail;
      assert multiset(entries) == multiset(head) + multiset(tail);
      StoreAdds(tail, e);
      assert multiset(head + Store(tail, e)) == multiset(head) + multiset(Store(tail, e));
      assert multiset([entries[0], e] + tail) == multiset([entries[0], e]) + multiset(tail);
    }
  }

  lemma {:induction false} StoredTlvs(entries: seq<Entry>, tlvs: seq<MsgTlv>)
    ensures multiset(StoreTlvs(entries, tlvs)) == multiset(entries) + EntriesOf(tlvs)
    decreases tlvs
  {
    hide Store;
    if tlvs != [] {
      StoreAdds(entries, EntryOf(tlvs[0], 0, 255));
      StoredTlvs(Store(entries, EntryOf(tlvs[0], 0, 255)), tlvs[1..]);
    }
  }

  /** The message TLVs are read back, and the address section begins right behind them. */
  lemma ParsesTlvBlock(buf: seq<byte>, p: nat, eob: int, tlvs: seq<MsgTlv>)
    requires |EncodeTlvs(tlvs)| < 65536 && Carries(buf, p, U16(|EncodeTlvs(tlvs)|)) && Carries(buf, p + 2, EncodeTlvs(tlvs))
    requires p + 2 + |EncodeTlvs(tlvs)| <= eob <= |buf|
    ensures ParseTlvBlock(buf, p, eob, 0) == Ok((StoreTlvs([], tlvs), p + 2 + |EncodeTlvs(tlvs)|))
  {
    hide Carries, EncodeTlvs, ParseTlvs, StoreTlvs, GetU16;
    ReadsU16(buf, eob, p, |EncodeTlvs(tlvs)|);
    ParsesTlvs(buf, p + 2, eob, tlvs, []);
  }

  /** The message round trip: for all combinations of header fields, all message TLVs and every address section, the
      reader recovers the header, the TLVs and the addresses, and ends where the message ends. */
  lemma MessageRoundTrip(buf: seq<byte>, p: nat, eob: int, h: Header, tlvs: seq<MsgTlv>, items: seq<Item>, chunks: seq<Chunk>)
    requires GoodHeader(h) && Partition(chunks, 0, |items|) && AllTogether(items, chunks, h.len)
    requires var bytes := MessageBytes(h, EncodeTlvs(tlvs), EncodeSection(items, h.len, chunks));
             |bytes| < 65536 && Carries(buf, p, bytes) && p + |bytes| <= eob <= |buf|
    ensures var r := ParseMessage(buf, p, eob);
            && (r.Ok? ==> r.value.header == h && multiset(r.value.tlvs) == EntriesOf(tlvs)
                          && r.value.end == p + |MessageBytes(h, EncodeTlvs(tlvs), EncodeSection(items, h.len, chunks))|)
            && Inside(items, chunks) && (r.Ok? && GivesAll(buf, r.value.blocks, items, chunks, h.len) <==> AllReadable(items, chunks))
            && (AllReadable(items, chunks) ==> (forall b :: b in r.value.blocks ==> AddressBlocks.Sane(buf, b.addrs))
                                               && AllAddresses(buf, r.value.blocks) == ReadAll(items, 0, h.len))
  {
    hide Carries, EncodeTlvs, EncodeSection, ParseMessage, ParseTlvBlock, ParseSection, StoreTlvs, HeaderBytes, GivesAll;
    hide AllTogether, AllReadable, Partition, HeaderSize, U16, EntriesOf, AllAddresses, ReadAll, AddressBlocks.Sane;
    var body, section := EncodeTlvs(tlvs), EncodeSection(items, h.len, chunks);
    var total := HeaderSize(h) + |body| + |section|;
    HeaderLength(h, total, |body|);
    var head := HeaderBytes(h, total, |body|);
    CarriesSplit(buf, p, head + body, section);
    CarriesSplit(buf, p, head, body);
    ReadsHeader(buf, p, eob, h, total, |body|);
    ParsesTlvBlock(buf, p + HeaderSize(h) - 2, p + total, tlvs);
    StoredTlvs([], tlvs);
    AddressSectionRoundTrip(buf, p + HeaderSize(h) + |body|, p + total, h.len, items, chunks);
  }
}
