/** Packets of RFC 5444, section 5.1: the buffer of a target (rfc5444_pkt_generator.c) and the packet header. */
module Packet {
  import opened Wire
  import opened Seqs
  import opened TlvWriter

  // The flags of a packet.
  const SEQNO := 8
  const TLV := 4

  function PacketHeader(hasSeqno: bool, seqno: nat, tlvs: nat): seq<byte>
  {
    [B(Bit(hasSeqno, SEQNO) + Bit(tlvs > 0, TLV))] + (if hasSeqno then U16(seqno) else []) + if tlvs > 0 then U16(tlvs) else []
  }

  /** A packet: header, TLVs and messages with no gap. */
  function PacketBytes(hasSeqno: bool, seqno: nat, added: seq<byte>, set_: seq<byte>, msgs: seq<byte>): seq<byte>
  {
    PacketHeader(hasSeqno, seqno, |added| + |set_|) + added + set_ + msgs
  }

  /** What the packet handlers do when a packet begins. */
  datatype Op = AddTlv(t: MsgTlv) | AllocateTlv(hasExt: bool, length: nat)

  /** The TLVs added and the space allocated so far. */
  datatype Filled = Filled(added: seq<byte>, reserved: nat)

  ghost function Fill(f: Filled, op: Op, header: nat, max: nat): Filled
  {
    match op
    case AddTlv(t) =>
      var bytes := EncodeTlv(t, 0, 255);
      if header + |f.added| + f.reserved + |bytes| <= max then f.(added := f.added + bytes) else f
    case AllocateTlv(hasExt, length) =>
      var size := CalcTlvSize(hasExt, length);
      if header + |f.added| + f.reserved + size <= max then f.(reserved := f.reserved + size) else f
  }

  ghost function FillAll(f: Filled, ops: seq<Op>, header: nat, max: nat): Filled
    decreases ops
  {
    if ops == [] then f else FillAll(Fill(f, ops[0], header, max), ops[1..], header, max)
  }

  /** What the callbacks of a target contribute to a packet. `extra` bytes are kept free for post-processors. */
  datatype Handlers = Handlers(hasSeqno: bool, seqno: nat, extra: nat, ops: seq<Op>, finish: seq<MsgTlv>)

  function HeaderSize(hasSeqno: bool): nat
  {
    3 + if hasSeqno then 2 else 0
  }

  class Target {
    const pkt: TlvData
    const size: nat
    var hasSeqno: bool
    var seqno: nat
    var msgs: nat
    var flushed: bool
    ghost var sent: seq<seq<byte>>

    ghost predicate Valid()
      reads this, pkt
    {
      && pkt.Valid() && pkt.used == 0 && size <= pkt.buffer.Length
      && (if flushed then msgs == 0 else pkt.max == size && pkt.header == HeaderSize(hasSeqno) && pkt.Behind() + msgs <= size)
    }

    /** The messages put into the current packet. */
    ghost function Messages(): seq<byte>
      requires Valid()
      reads this, pkt, pkt.buffer
    {
      if flushed then [] else Window(pkt.buffer[..], pkt.Behind(), msgs)
    }

    constructor (size: nat)
      ensures Valid() && fresh(pkt) && fresh(pkt.buffer) && this.size == size && flushed && sent == []
    {
      pkt := new TlvData(size);
      this.size := size;
      hasSeqno, seqno, msgs, flushed, sent := false, 0, 0, true, [];
    }

    method RunOp(op: Op)
      requires pkt.Valid() && pkt.used == 0
      modifies pkt`added, pkt`reserved, pkt.buffer
      ensures pkt.Valid()
      ensures Filled(pkt.Added(), pkt.reserved) == Fill(Filled(old(pkt.Added()), old(pkt.reserved)), op, pkt.header, pkt.max)
    {
      hide EncodeTlv, Window;
      match op {
        case AddTlv(t) =>
          var _ := pkt.Add(t);
        case AllocateTlv(hasExt, length) =>
          var _ := pkt.Allocate(hasExt, length);
      }
    }

    /** Begins a packet: header, TLVs added, space allocated. */
    method BeginPacket(h: Handlers)
      requires Valid() && flushed && HeaderSize(h.hasSeqno) + h.extra <= size
      modifies this`hasSeqno, this`seqno, this`flushed, pkt, pkt.buffer
      ensures Valid() && !flushed && hasSeqno == h.hasSeqno && seqno == h.seqno && msgs == 0 && pkt.buffer == old(pkt.buffer)
      ensures Filled(pkt.Added(), pkt.reserved) == FillAll(Filled([], h.extra), h.ops, HeaderSize(h.hasSeqno), size)
    {
      pkt.Init(size);
      pkt.reserved := pkt.reserved + h.extra;
      pkt.header := HeaderSize(h.hasSeqno);
      hasSeqno, seqno := h.hasSeqno, h.seqno;
      ghost var start := Filled([], h.extra);
      NoWindow(pkt.buffer[..], pkt.header);
      for i := 0 to |h.ops|
        modifies pkt, pkt.buffer
        invariant pkt.Valid() && pkt.used == 0 && pkt.max == size && pkt.header == HeaderSize(h.hasSeqno) && pkt.buffer == old(pkt.buffer)
        invariant start == Filled([], h.extra)
        invariant FillAll(start, h.ops, pkt.header, size) == FillAll(Filled(pkt.Added(), pkt.reserved), h.ops[i..], pkt.header, size)
      {
        hide Window, Fill;
        assert h.ops[i..][1..] == h.ops[i + 1..];
        RunOp(h.ops[i]);
      }
      flushed := false;
    }

    /** Puts a message behind those that are there. */
    method AppendMessage(m: seq<byte>)
      requires Valid() && !flushed && pkt.Behind() + msgs + |m| <= size
      modifies this`msgs, pkt.buffer
      ensures Valid() && Messages() == old(Messages()) + m && pkt.Added() == old(pkt.Added())
    {
      hide Patched, Window;
      ghost var b := pkt.buffer[..];
      var p := pkt.Behind() + msgs;
      var _ := Put(pkt.buffer, p, m);
      Written(b, p, m);
      Spared(b, p, m, pkt.Behind(), msgs);
      Spared(b, p, m, pkt.header, pkt.added);
      Adjacent(pkt.buffer[..], pkt.Behind(), msgs, |m|);
      msgs := msgs + |m|;
    }

    method WritePktHeader()
      requires Valid0() && |PacketHeader(hasSeqno, seqno, pkt.added + pkt.used)| <= pkt.buffer.Length
      modifies pkt.buffer
      ensures pkt.buffer[..] == Patched(old(pkt.buffer[..]), 0, PacketHeader(hasSeqno, seqno, pkt.added + pkt.used))
    {
      var len := pkt.added + pkt.used;
      ghost var b := pkt.buffer[..];
      var first := [B(Bit(hasSeqno, SEQNO) + Bit(len > 0, TLV))];
      var number := if hasSeqno then U16(seqno) else [];
      var tlvs := if len > 0 then U16(len) else [];
      hide Patched, PacketHeader, U16;
      assert PacketHeader(hasSeqno, seqno, len) == first + number + tlvs by {
        HeaderParts(hasSeqno, seqno, len);
      }
      var ptr := Put(pkt.buffer, 0, first);
      ptr := Put(pkt.buffer, ptr, number);
      PatchedTwice(b, 0, first, number);
      ptr := Put(pkt.buffer, ptr, tlvs);
      PatchedTwice(b, 0, first + number, tlvs);
    }

    ghost predicate Valid0()
      reads this, pkt
    {
      pkt.Valid() && pkt.max == size <= pkt.buffer.Length && pkt.header == HeaderSize(hasSeqno) && pkt.Behind() + msgs <= size
    }

    /** Completes the packet and sends it. */
    method SendPacket(finish: seq<MsgTlv>)
      requires Valid() && !flushed
      modifies this, pkt, pkt.buffer
      ensures Valid() && flushed
      ensures sent == old(sent) + [PacketBytes(hasSeqno, seqno, old(pkt.Added()), SetBytes(finish, old(pkt.reserved)), old(Messages()))]
      ensures hasSeqno == old(hasSeqno) && seqno == old(seqno) && pkt.buffer == old(pkt.buffer)
    {
      hide SetBytes, PacketBytes;
      ghost var b := SetTlvsOf(finish);
      var total := BuildPacket(b, old(pkt.Added()), SetBytes(finish, pkt.reserved), old(Messages()));
      sent := sent + [pkt.buffer[..total]];
      pkt.used := 0;
      msgs := 0;
      flushed := true;
    }

    /** Writes the header and closes the gaps before and behind the TLVs. */
    method BuildPacket(ghost b: seq<byte>, ghost added: seq<byte>, ghost set_: seq<byte>, ghost messages: seq<byte>) returns (total: nat)
      requires Valid0() && b == pkt.buffer[..] && Window(b, pkt.header, pkt.added) == added
      requires Window(b, pkt.header + pkt.added, pkt.used) == set_ && Window(b, pkt.Behind(), msgs) == messages
      modifies pkt.buffer
      ensures total <= pkt.buffer.Length && pkt.buffer[..total] == PacketBytes(hasSeqno, seqno, added, set_, messages)
    {
      hide Patched, PacketHeader, PacketBytes, Window;
      ghost var head := PacketHeader(hasSeqno, seqno, pkt.added + pkt.used);
      HeaderParts(hasSeqno, seqno, pkt.added + pkt.used);
      WritePktHeader();
      var len := 1 + (if hasSeqno then 2 else 0) + if pkt.added + pkt.used > 0 then 2 else 0;
      total := CompressBuffer(len);
      Compacts(b, Patched(b, 0, head), pkt.buffer[..], head, pkt.header, pkt.added, pkt.used, pkt.Behind(), msgs);
      BytesOf(hasSeqno, seqno, added, set_, messages);
      FirstOfBuffer(pkt.buffer, total);
    }

    method SetTlvsOf(finish: seq<MsgTlv>) returns (ghost b: seq<byte>)
      requires Valid() && !flushed
      modifies pkt`used, pkt.buffer
      ensures Valid0() && b == pkt.buffer[..]
      ensures Window(b, pkt.header, pkt.added) == old(pkt.Added())
      ensures Window(b, pkt.header + pkt.added, pkt.used) == SetBytes(finish, pkt.reserved)
      ensures Window(b, pkt.Behind(), msgs) == old(Messages())
    {
      hide SetBytes, Window;
      ghost var n, before := pkt.Behind(), pkt.buffer[..];
      NoWindow(before, pkt.header + pkt.added);
      pkt.SetAll(finish);
      b := pkt.buffer[..];
      Inner(before, b, n, pkt.buffer.Length - n, 0, msgs);
      assert [] + SetBytes(finish, pkt.reserved) == SetBytes(finish, pkt.reserved);
    }

    /** Moves the messages behind the TLVs. */
    method CompressBuffer(len: nat) returns (total: nat)
      requires Valid0() && len <= pkt.header
      modifies pkt.buffer
      ensures total == len + pkt.added + pkt.used + msgs <= pkt.buffer.Length
      ensures pkt.buffer[..] == if msgs > 0 then Patched(old(pkt.buffer[..]), len + pkt.added + pkt.used, Window(old(pkt.buffer[..]), pkt.Behind(), msgs))
                                else old(pkt.buffer[..])
    {
      hide Patched;
      if msgs > 0 {
        MoveDown(pkt.buffer, len + pkt.added + pkt.used, pkt.Behind(), msgs);
      }
      total := len + pkt.added + pkt.used + msgs;
    }

    /** Sends the packet under construction; if there is none, sends one without messages when forced to. */
    method Flush(force: bool, h: Handlers)
      requires Valid() && HeaderSize(h.hasSeqno) + h.extra <= size
      modifies this, pkt, pkt.buffer
      ensures Valid() && flushed
      ensures old(flushed) && !force ==> sent == old(sent)
      ensures old(flushed) && force ==>
        var f := FillAll(Filled([], h.extra), h.ops, HeaderSize(h.hasSeqno), size);
        sent == old(sent) + [PacketBytes(h.hasSeqno, h.seqno, f.added, SetBytes(h.finish, f.reserved), [])]
      ensures !old(flushed) ==>
        sent == old(sent) + [PacketBytes(old(hasSeqno), old(seqno), old(pkt.Added()), SetBytes(h.finish, old(pkt.reserved)), old(Messages()))]
    {
      hide SetBytes, FillAll, PacketBytes;
      if flushed {
        if !force {
          return;
        }
        BeginPacket(h);
        assert Messages() == [];
      }
      SendPacket(h.finish);
    }
  }

  lemma HeaderParts(hasSeqno: bool, seqno: nat, tlvs: nat)
    ensures PacketHeader(hasSeqno, seqno, tlvs)
         == [B(Bit(hasSeqno, SEQNO) + Bit(tlvs > 0, TLV))] + (if hasSeqno then U16(seqno) else []) + if tlvs > 0 then U16(tlvs) else []
    ensures |PacketHeader(hasSeqno, seqno, tlvs)| == 1 + (if hasSeqno then 2 else 0) + if tlvs > 0 then 2 else 0
  {
  }

  lemma BytesOf(hasSeqno: bool, seqno: nat, added: seq<byte>, set_: seq<byte>, msgs: seq<byte>)
    ensures PacketBytes(hasSeqno, seqno, added, set_, msgs) == PacketHeader(hasSeqno, seqno, |added| + |set_|) + added + set_ + msgs
  {
  }

  lemma NoWindow(b: seq<byte>, from: nat)
    requires from <= |b|
    ensures Window(b, from, 0) == []
  {
  }

  lemma FirstOfBuffer(buffer: array<byte>, n: nat)
    requires n <= buffer.Length
    ensures Window(buffer[..], 0, n) == buffer[..n]
  {
  }

  /** Writing the header over the start and moving the messages down leaves no gap. */
  lemma Compacts(b1: seq<byte>, b2: seq<byte>, b3: seq<byte>, head: seq<byte>, header: nat, added: nat, used: nat, behind: nat, msgs: nat)
    requires header + added + used <= behind && behind + msgs <= |b1| && |head| <= header && (added + used > 0 ==> |head| == header)
    requires b2 == Patched(b1, 0, head)
    requires b3 == if msgs > 0 then Patched(b2, |head| + added + used, Window(b2, behind, msgs)) else b2
    ensures |head| + added + used + msgs <= |b3|
    ensures Window(b3, 0, |head| + added + used + msgs)
         == head + Window(b1, header, added) + Window(b1, header + added, used) + Window(b1, behind, msgs)
  {
    hide Patched, Window;
    var n := |head| + added + used;
    Written(b1, 0, head);
    Spared(b1, 0, head, behind, msgs);
    Spared(b1, 0, head, header, added);
    Spared(b1, 0, head, header + added, used);
    if added + used > 0 {
      Adjacent(b2, 0, |head|, added);
      Adjacent(b2, 0, |head| + added, used);
    } else {
      NoWindow(b1, header);
    }
    assert Window(b2, 0, n) == head + Window(b1, header, added) + Window(b1, header + added, used);
    if msgs > 0 {
      Written(b2, n, Window(b2, behind, msgs));
      Spared(b2, n, Window(b2, behind, msgs), 0, n);
      Adjacent(b3, 0, n, msgs);
    } else {
      NoWindow(b1, behind);
    }
  }

  // ---------- the reader ----------

  /** What the first bytes of a packet announce; its TLV block, or if there is none its messages, begin at `pos`. */
  datatype Header = Header(hasSeqno: bool, seqno: int, hasTlv: bool, pos: nat)

  function ReadHeader(buf: seq<byte>): Result<Header>
  {
    if |buf| > 65535 then Err(TooLarge)
    else
      var (first, c1) := GetU8(buf, |buf|, Cursor(0, false));
      if first / 16 != 0 then Err(UnsupportedVersion)
      else
        var hasSeqno := Has(first, SEQNO);
        var (seqno, c2) := if hasSeqno then GetU16(buf, |buf|, c1) else (0, c1);
        if c2.failed then Err(EndOfBuffer) else Ok(Header(hasSeqno, seqno, Has(first, TLV), c2.pos))
  }

  lemma FirstByte(hasSeqno: bool, hasTlv: bool)
    ensures var n := Bit(hasSeqno, SEQNO) + Bit(hasTlv, TLV); n / 16 == 0 && Has(n, SEQNO) == hasSeqno && Has(n, TLV) == hasTlv
  {
  }

  lemma ReadsHeader(buf: seq<byte>, hasSeqno: bool, seqno: nat, hasTlv: bool, bits: u8)
    requires 0 < |buf| <= 65535 && buf[0] as int == bits && bits / 16 == 0 && Has(bits, SEQNO) == hasSeqno && Has(bits, TLV) == hasTlv
    requires seqno < 65536 && (hasSeqno ==> 3 <= |buf| && Carries(buf, 1, U16(seqno)))
    ensures ReadHeader(buf) == Ok(Header(hasSeqno, if hasSeqno then seqno else 0, hasTlv, if hasSeqno then 3 else 1))
  {
    hide Has, Carries, U16;
    if hasSeqno {
      ReadsU16(buf, |buf|, 1, seqno);
    }
  }

  /** Where the parts of a packet lie. */
  lemma PacketPieces(buf: seq<byte>, hasSeqno: bool, seqno: nat, added: seq<byte>, set_: seq<byte>, msgs: seq<byte>)
    requires buf == PacketBytes(hasSeqno, seqno, added, set_, msgs)
    ensures var n := |added| + |set_|; var pos := if hasSeqno then 3 else 1; var behind := pos + if n > 0 then 2 else 0;
            && Carries(buf, 0, [B(Bit(hasSeqno, SEQNO) + Bit(n > 0, TLV))]) && (hasSeqno ==> 3 <= |buf| && Carries(buf, 1, U16(seqno)))
            && behind <= |buf| && (n > 0 ==> Carries(buf, pos, U16(n))) && buf[behind..] == added + set_ + msgs
  {
    var n := |added| + |set_|;
    var head, rest := PacketHeader(hasSeqno, seqno, n), added + set_ + msgs;
    HeaderParts(hasSeqno, seqno, n);
    hide U16, Carries, PacketHeader;
    assert buf == head + rest;
    Starts(buf, head, rest);
    var first := [B(Bit(hasSeqno, SEQNO) + Bit(n > 0, TLV))];
    var number := if hasSeqno then U16(seqno) else [];
    var size := if n > 0 then U16(n) else [];
    CarriesSplit(buf, 0, first + number, size);
    CarriesSplit(buf, 0, first, number);
  }

  lemma Starts(buf: seq<byte>, head: seq<byte>, rest: seq<byte>)
    requires buf == head + rest
    ensures Carries(buf, 0, head) && buf[|head|..] == rest
  {
  }

  /** The header that was sent is read back, and what follows it is the size of the TLV block and the TLVs or, if there
      are no TLVs, the first message. */
  lemma HeaderRoundTrip(buf: seq<byte>, hasSeqno: bool, seqno: nat, added: seq<byte>, set_: seq<byte>, msgs: seq<byte>)
    requires buf == PacketBytes(hasSeqno, seqno, added, set_, msgs) && |buf| <= 65535 && seqno < 65536
    ensures var n := |added| + |set_|; var pos := if hasSeqno then 3 else 1;
            && ReadHeader(buf) == Ok(Header(hasSeqno, if hasSeqno then seqno else 0, n > 0, pos))
            && (n > 0 ==> GetU16(buf, |buf|, Cursor(pos, false)) == (n, Cursor(pos + 2, false)) && buf[pos + 2..] == added + set_ + msgs)
            && (n == 0 ==> buf[pos..] == msgs)
  {
    var n := |added| + |set_|;
    var pos := if hasSeqno then 3 else 1;
    hide Has, PacketBytes, ReadHeader, U16;
    PacketPieces(buf, hasSeqno, seqno, added, set_, msgs);
    FirstByte(hasSeqno, n > 0);
    var first := [B(Bit(hasSeqno, SEQNO) + Bit(n > 0, TLV))];
    assert buf[0 + 0] == first[0];
    hide Carries;
    ReadsHeader(buf, hasSeqno, seqno, n > 0, Bit(hasSeqno, SEQNO) + Bit(n > 0, TLV));
    if n > 0 {
      ReadsU16(buf, |buf|, pos, n);
    } else {
      assert added + set_ + msgs == msgs;
    }
  }
}
