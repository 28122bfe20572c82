/** The layout of packet and message headers in RFC 5444, sections 5.1 and 5.2, and what the reader makes of any bytes. */
module HeaderGrammar {
  import opened Wire
  import opened Seqs
  import opened WireGrammar
  import Message
  import Packet

  // ---------- messages ----------

  /** The parts of a message header between its size and the size of its TLVs. */
  datatype HeaderParts = HeaderParts(orig: seq<byte>, hopLimit: seq<byte>, hopCount: seq<byte>, seqno: seq<byte>)

  /** The bytes are a message header for a message of `size` bytes. The bits of the flags, from the highest: an originator, a hop
      limit, a hop count, a sequence number; the others hold the length of addresses less one. */
  ghost predicate WellFormed(s: seq<byte>, size: nat, f: HeaderParts)
  {
    && |s| >= 4 && s == [s[0], s[1], s[2], s[3]] + f.orig + f.hopLimit + f.hopCount + f.seqno
    && var bits := s[1] as int;
    && size == 256 * s[2] as int + s[3] as int
    && |f.orig| == (if bits / 128 == 1 then bits % 16 + 1 else 0) && |f.hopLimit| == bits / 64 % 2
    && |f.hopCount| == bits / 32 % 2 && |f.seqno| == 2 * (bits / 16 % 2)
  }

  /** What the parts of a header say. */
  ghost predicate Says(s: seq<byte>, f: HeaderParts, h: Message.Header)
    requires |s| >= 2
  {
    && h.typ == s[0] as int && h.len == s[1] as int % 16 + 1
    && h.orig == (if f.orig == [] then None else Some(f.orig))
    && h.hopLimit == (if f.hopLimit == [] then None else Some(f.hopLimit[0] as int))
    && h.hopCount == (if f.hopCount == [] then None else Some(f.hopCount[0] as int))
    && h.seqno == (if |f.seqno| < 2 then None else Some(256 * f.seqno[0] as int + f.seqno[1] as int))
  }

  lemma {:induction false} HeaderBits(bits: u8)
    ensures (Has(bits, Message.ORIGINATOR) <==> bits / 128 == 1) && (Has(bits, Message.HOPLIMIT) <==> bits / 64 % 2 == 1)
    ensures (Has(bits, Message.HOPCOUNT) <==> bits / 32 % 2 == 1) && (Has(bits, Message.SEQNO) <==> bits / 16 % 2 == 1)
  {
  }

  lemma {:induction false} HeaderSplit(h: Message.Header, total: nat, tlvs: nat)
    ensures var s, first := Message.HeaderBytes(h, total, tlvs), [B(h.typ), B(Message.HeaderFlags(h))] + U16(total);
            && |s| >= 6 && s[|s| - 2..] == U16(tlvs)
            && s[..|s| - 2] == first + Message.OrigPart(h) + Message.Part8(h.hopLimit) + Message.Part8(h.hopCount) + Message.Part16(h.seqno)
  {
    hide Message.HeaderFlags, Message.OrigPart, Message.Part8, Message.Part16, U16, Flatten;
    var first := [B(h.typ), B(Message.HeaderFlags(h))] + U16(total);
    var orig, limit, count, seqno := Message.OrigPart(h), Message.Part8(h.hopLimit), Message.Part8(h.hopCount), Message.Part16(h.seqno);
    FlattenFive(first, orig, limit, count, seqno + U16(tlvs));
    var s, most := Message.HeaderBytes(h, total, tlvs), first + orig + limit + count + seqno;
    assert s == most + U16(tlvs);
  }

  /** A header that is written is one, and says what it is given. */
  lemma {:induction false} WrittenHeader(h: Message.Header, total: nat, tlvs: nat)
    requires Message.GoodHeader(h) && total < 65536 && tlvs < 65536
    ensures var s := Message.HeaderBytes(h, total, tlvs);
            && |s| >= 6 && Number(s[|s| - 2..]) == tlvs
            && exists f :: WellFormed(s[..|s| - 2], total, f) && Says(s, f, h)
  {
    HeaderSplit(h, total, tlvs);
    NumberTwo(B(tlvs / 256), B(tlvs));
    var s := Message.HeaderBytes(h, total, tlvs);
    var most, f := s[..|s| - 2], PartsFor(h);
    assert U16(tlvs) == [B(tlvs / 256), B(tlvs)];
    hide Message.HeaderBytes, Number, U16, WellFormed, Says;
    StartOf(h, total, most);
    assert s[0] == most[0] && s[1] == most[1];
    FormedFor(h, total, most);
    SaysFor(h, s);
  }

  function PartsFor(h: Message.Header): HeaderParts
  {
    HeaderParts(Message.OrigPart(h), Message.Part8(h.hopLimit), Message.Part8(h.hopCount), Message.Part16(h.seqno))
  }

  lemma {:induction false} StartOf(h: Message.Header, total: nat, s: seq<byte>)
    requires s == [B(h.typ), B(Message.HeaderFlags(h))] + U16(total) + Message.OrigPart(h) + Message.Part8(h.hopLimit) + Message.Part8(h.hopCount)
                  + Message.Part16(h.seqno)
    ensures |s| >= 4 && s[0] == B(h.typ) && s[1] == B(Message.HeaderFlags(h)) && s[2] == B(total / 256) && s[3] == B(total)
  {
    hide Message.HeaderFlags, Message.OrigPart, Message.Part8, Message.Part16;
  }

  lemma {:induction false} FormedFor(h: Message.Header, total: nat, s: seq<byte>)
    requires Message.GoodHeader(h) && total < 65536
    requires s == [B(h.typ), B(Message.HeaderFlags(h))] + U16(total) + Message.OrigPart(h) + Message.Part8(h.hopLimit) + Message.Part8(h.hopCount)
                  + Message.Part16(h.seqno)
    ensures WellFormed(s, total, PartsFor(h))
  {
    PartLengths(h);
    StartOf(h, total, s);
    assert U16(total) == [B(total / 256), B(total)];
    hide Message.HeaderFlags, U16, Message.OrigPart, Message.Part8, Message.Part16;
    assert [s[0], s[1], s[2], s[3]] == [B(h.typ), B(Message.HeaderFlags(h))] + U16(total);
  }

  /** The flags say how long the parts are. */
  lemma {:induction false} PartLengths(h: Message.Header)
    requires Message.GoodHeader(h)
    ensures var bits, f := Message.HeaderFlags(h), PartsFor(h);
            && 0 <= bits < 256 && |f.orig| == (if bits / 128 == 1 then bits % 16 + 1 else 0) && |f.hopLimit| == bits / 64 % 2
            && |f.hopCount| == bits / 32 % 2 && |f.seqno| == 2 * (bits / 16 % 2)
  {
    Message.FlagsRoundTrip(h);
    HeaderBits(Message.HeaderFlags(h));
    hide Has, Message.HeaderFlags;
  }

  lemma {:induction false} SaysFor(h: Message.Header, s: seq<byte>)
    requires Message.GoodHeader(h) && |s| >= 2 && s[0] == B(h.typ) && s[1] == B(Message.HeaderFlags(h))
    ensures Says(s, PartsFor(h), h)
  {
    Message.FlagsRoundTrip(h);
    hide Has, Message.HeaderFlags;
  }

  function OrigEnd(p: nat, bits: u8): nat
  {
    p + 4 + if bits / 128 == 1 then bits % 16 + 1 else 0
  }

  /** Where a header ends, by its flags. */
  function HeaderEnd(p: nat, bits: u8): nat
  {
    OrigEnd(p, bits) + bits / 64 % 2 + bits / 32 % 2 + 2 * (bits / 16 % 2)
  }

  function PartsOf(buf: seq<byte>, p: nat, bits: u8): HeaderParts
    requires HeaderEnd(p, bits) <= |buf|
  {
    var a := OrigEnd(p, bits);
    var b := a + bits / 64 % 2;
    var c := b + bits / 32 % 2;
    HeaderParts(buf[p + 4..a], buf[a..b], buf[b..c], buf[c..HeaderEnd(p, bits)])
  }

  lemma {:induction false} HeaderCut(buf: seq<byte>, p: nat, bits: u8)
    requires HeaderEnd(p, bits) <= |buf| && bits == buf[p + 1] as int
    ensures WellFormed(buf[p..HeaderEnd(p, bits)], 256 * buf[p + 2] as int + buf[p + 3] as int, PartsOf(buf, p, bits))
  {
    var a, q := OrigEnd(p, bits), HeaderEnd(p, bits);
    var b := a + bits / 64 % 2;
    var c := b + bits / 32 % 2;
    FourSlices(buf, p, a, b, c, q);
  }

  lemma {:induction false} FourSlices(buf: seq<byte>, p: nat, a: nat, b: nat, c: nat, q: nat)
    requires p + 4 <= a <= b <= c <= q <= |buf|
    ensures buf[p..q] == [buf[p], buf[p + 1], buf[p + 2], buf[p + 3]] + buf[p + 4..a] + buf[a..b] + buf[b..c] + buf[c..q]
  {
  }

  lemma {:induction false} PartsSay(buf: seq<byte>, p: nat, bits: u8, h: Message.Header)
    requires HeaderEnd(p, bits) <= |buf| && buf[p + 1] as int == bits && h.typ == buf[p] as int && h.len == bits % 16 + 1
    requires var a := OrigEnd(p, bits);
             var b := a + bits / 64 % 2;
             var c := b + bits / 32 % 2;
             && h.orig == (if bits / 128 == 1 then Some(buf[p + 4..a]) else None)
             && h.hopLimit == (if bits / 64 % 2 == 1 then Some(buf[a] as int) else None)
             && h.hopCount == (if bits / 32 % 2 == 1 then Some(buf[b] as int) else None)
             && h.seqno == (if bits / 16 % 2 == 1 then Some(256 * buf[c] as int + buf[c + 1] as int) else None)
    ensures Says(buf[p..HeaderEnd(p, bits)], PartsOf(buf, p, bits), h)
  {
  }

  /** The header fields as they are read; if they reach behind the end, there is none. */
  lemma {:induction false} FieldsRead(buf: seq<byte>, p: nat, eob: int, typ: u8, bits: u8)
    requires p + 4 <= eob <= |buf| && buf[p + 1] as int == bits && buf[p] as int == typ
    ensures var r, q := Message.ReadFields(buf, eob, typ, bits, Cursor(p + 4, false)), HeaderEnd(p, bits);
            if q > eob then r == Err(EndOfBuffer) || (r.Ok? && r.value.1.failed)
            else r.Ok? && r.value.1 == Cursor(q, false) && Says(buf[p..q], PartsOf(buf, p, bits), r.value.0)
  {
    HeaderBits(bits);
    hide Has;
    OrigRead(buf, p, eob, bits);
    hide Message.ReadOriginator, Message.ReadOption8, Message.ReadOption16, Says, PartsOf;
    var r := Message.ReadOriginator(buf, eob, bits, bits % 16 + 1, Cursor(p + 4, false));
    if r.Ok? {
      var a := OrigEnd(p, bits);
      var b := a + bits / 64 % 2;
      var c := b + bits / 32 % 2;
      ByteOption(buf, eob, bits / 64 % 2 == 1, a);
      ByteOption(buf, eob, bits / 32 % 2 == 1, b);
      WordOption(buf, eob, bits / 16 % 2 == 1, c);
      if HeaderEnd(p, bits) <= eob {
        PartsSay(buf, p, bits, Message.ReadFields(buf, eob, typ, bits, Cursor(p + 4, false)).value.0);
      } else {
        Failing(buf, eob, bits / 32 % 2 == 1, bits / 16 % 2 == 1);
      }
    }
  }

  /** Once a read has failed, so do those behind it. */
  lemma {:induction false} Failing(buf: seq<byte>, eob: int, count: bool, seqno: bool)
    requires eob <= |buf|
    ensures forall c: Cursor :: c.failed ==> Message.ReadOption8(buf, eob, count, c).1.failed && Message.ReadOption16(buf, eob, seqno, c).1.failed
  {
  }

  lemma {:induction false} OrigRead(buf: seq<byte>, p: nat, eob: int, bits: u8)
    requires p + 4 <= eob <= |buf|
    ensures var r, a := Message.ReadOriginator(buf, eob, bits, bits % 16 + 1, Cursor(p + 4, false)), OrigEnd(p, bits);
            if a > eob then r == Err(EndOfBuffer)
            else r == Ok((if bits / 128 == 1 then Some(buf[p + 4..a]) else None, Cursor(a, false)))
  {
    HeaderBits(bits);
  }

  lemma {:induction false} ByteOption(buf: seq<byte>, eob: int, present: bool, a: nat)
    requires eob <= |buf|
    ensures var (o, c), b := Message.ReadOption8(buf, eob, present, Cursor(a, false)), a + if present then 1 else 0;
            if a <= eob < b then c.failed else (a <= eob ==> c == Cursor(b, false) && o == if present then Some(buf[a] as int) else None)
  {
  }

  lemma {:induction false} WordOption(buf: seq<byte>, eob: int, present: bool, a: nat)
    requires eob <= |buf|
    ensures var (o, c), b := Message.ReadOption16(buf, eob, present, Cursor(a, false)), a + if present then 2 else 0;
            if a <= eob < b then c.failed
            else (a <= eob ==> c == Cursor(b, false) && o == if present then Some(256 * buf[a] as int + buf[a + 1] as int) else None)
  {
  }

  /** A message is read from any bytes exactly if a header is there that fits with what comes behind it, and the message is what
      the header says. */
  lemma {:induction false} MessageRead(buf: seq<byte>, p: nat, eob: int) returns (h: Message.Header)
    requires eob <= |buf|
    ensures p + 4 <= eob && HeaderEnd(p, buf[p + 1] as int) <= eob ==>
              var bits, size := buf[p + 1] as int, 256 * buf[p + 2] as int + buf[p + 3] as int;
              var q := HeaderEnd(p, bits);
              && WellFormed(buf[p..q], size, PartsOf(buf, p, bits)) && Says(buf[p..q], PartsOf(buf, p, bits), h)
              && Message.ParseMessage(buf, p, eob) == if p + size > eob then Err(EndOfBuffer) else Message.ParseBody(buf, q, p + size, h)
    ensures p + 4 > eob || HeaderEnd(p, buf[p + 1] as int) > eob ==> Message.ParseMessage(buf, p, eob) == Err(EndOfBuffer)
  {
    hide Message.ReadFields, Message.ParseBody, HeaderEnd, PartsOf, WellFormed, Says;
    if p + 4 <= eob {
      var bits := buf[p + 1] as int;
      FieldsRead(buf, p, eob, buf[p] as int, bits);
      h := Message.Header(0, 0, None, None, None, None);
      if HeaderEnd(p, bits) <= eob {
        HeaderCut(buf, p, bits);
        h := Message.ReadFields(buf, eob, buf[p] as int, bits, Cursor(p + 4, false)).value.0;
      }
    } else {
      h := Message.Header(0, 0, None, None, None, None);
      ShortMessage(buf, p, eob);
    }
  }

  lemma {:induction false} ShortMessage(buf: seq<byte>, p: nat, eob: int)
    requires eob <= |buf| && p + 4 > eob
    ensures Message.ParseMessage(buf, p, eob) == Err(EndOfBuffer)
  {
    hide Message.ParseBody;
  }

  // ---------- packets ----------

  /** The header of a packet that is written: version 0, and bits that tell whether a sequence number and TLVs follow. */
  lemma {:induction false} WrittenPacket(hasSeqno: bool, seqno: nat, tlvs: nat)
    requires seqno < 65536 && tlvs < 65536
    ensures var s := Packet.PacketHeader(hasSeqno, seqno, tlvs);
            && |s| == 1 + (if hasSeqno then 2 else 0) + (if tlvs > 0 then 2 else 0)
            && s[0] as int == (if hasSeqno then 8 else 0) + (if tlvs > 0 then 4 else 0)
            && (hasSeqno ==> Number(s[1..3]) == seqno) && (tlvs > 0 ==> Number(s[|s| - 2..]) == tlvs)
  {
    var s := Packet.PacketHeader(hasSeqno, seqno, tlvs);
    if hasSeqno {
      assert s[1..3] == [B(seqno / 256), B(seqno)];
      NumberTwo(B(seqno / 256), B(seqno));
    }
    if tlvs > 0 {
      assert s[|s| - 2..] == [B(tlvs / 256), B(tlvs)];
      NumberTwo(B(tlvs / 256), B(tlvs));
    }
  }

  /** What any bytes say as the start of a packet. */
  lemma {:induction false} PacketRead(buf: seq<byte>)
    ensures var r := Packet.ReadHeader(buf);
            && (r == Err(TooLarge) <==> |buf| > 65535)
            && (r == Err(UnsupportedVersion) <==> 0 < |buf| <= 65535 && buf[0] as int >= 16)
            && (r == Err(EndOfBuffer) <==> |buf| == 0 || (|buf| < 3 && buf[0] as int < 16 && buf[0] as int / 8 == 1))
            && (0 < |buf| <= 65535 && buf[0] as int < 8 ==> r == Ok(Packet.Header(false, 0, buf[0] as int / 4 == 1, 1)))
            && (3 <= |buf| <= 65535 && 8 <= buf[0] as int < 16
                ==> r == Ok(Packet.Header(true, 256 * buf[1] as int + buf[2] as int, buf[0] as int / 4 == 3, 3)))
  {
  }
}
