/** The TLV part of a message or packet under construction (rfc5444_tlv_writer.c): TLVs are added, space is reserved
    for TLVs that are set at the end. */
module TlvWriter {
  import opened Wire
  import opened Seqs
  import opened Tlv

  /** A TLV of a message or packet. */
  datatype MsgTlv = MsgTlv(typ: u8, ext: u8, value: seq<byte>)

  function CalcTlvSize(hasExt: bool, length: nat): nat
  {
    2 + (if hasExt then 1 else 0) + length + if length > 255 then 2 else if length > 0 then 1 else 0
  }

  function PlainFlags(ext: u8, idx1: u8, idx2: u8, length: nat): Flags
  {
    Flags(ext > 0, idx1 == idx2, idx1 != idx2 && (idx1 > 0 || idx2 < 255), length > 0, length > 255, false)
  }

  function PlainIndices(idx1: u8, idx2: u8): seq<byte>
  {
    if idx1 > 0 || idx2 < 255 then (if idx1 != idx2 then [B(idx1), B(idx2)] else [B(idx1)]) else []
  }

  /** A TLV as `_write_tlv` writes it. */
  function EncodeTlv(t: MsgTlv, idx1: u8, idx2: u8): seq<byte>
  {
    Flatten([[B(t.typ), B(EncodeFlags(PlainFlags(t.ext, idx1, idx2, |t.value|)))], ExtPart(t.ext), PlainIndices(idx1, idx2),
             LengthPart(|t.value|), t.value])
  }

  /** The size a TLV is given is the number of its bytes. */
  lemma SizeIsRight(t: MsgTlv)
    ensures |EncodeTlv(t, 0, 255)| == CalcTlvSize(t.ext != 0, |t.value|)
  {
    FlattenFive([B(t.typ), B(EncodeFlags(PlainFlags(t.ext, 0, 255, |t.value|)))], ExtPart(t.ext), PlainIndices(0, 255),
                LengthPart(|t.value|), t.value);
  }

  function EntryOf(t: MsgTlv, idx1: u8, idx2: u8): Entry
  {
    Entry(t.typ, t.ext, idx1, idx2, |t.value|, t.value, false)
  }

  lemma ReadsPlainIndices(buf: seq<byte>, eob: int, p: nat, t: MsgTlv, idx1: u8, idx2: u8)
    requires Carries(buf, p, PlainIndices(idx1, idx2)) && p + |PlainIndices(idx1, idx2)| <= eob <= |buf|
    ensures ReadIndices(buf, eob, PlainFlags(t.ext, idx1, idx2, |t.value|), 0, Cursor(p, false))
         == (idx1, idx2, Cursor(p + |PlainIndices(idx1, idx2)|, false))
  {
    if idx1 > 0 || idx2 < 255 {
      assert buf[p + 0] == PlainIndices(idx1, idx2)[0];
      if idx1 != idx2 {
        assert buf[p + 1] == PlainIndices(idx1, idx2)[1];
      }
    }
  }

  lemma ReadsPlainValue(buf: seq<byte>, eob: int, p: nat, t: MsgTlv, idx1: u8, idx2: u8)
    requires Carries(buf, p, t.value) && p + |t.value| <= eob <= |buf|
    ensures ReadValue(buf, eob, Entry(t.typ, t.ext, idx1, idx2, 0, [], false), |t.value|, false, Cursor(p, false))
         == Ok((EntryOf(t, idx1, idx2), p + |t.value|))
  {
    CarriesSlice(buf, p, t.value);
  }

  /** A written TLV is read back, with any indices; 0 and 255 are not written. */
  lemma ParsesTlv(buf: seq<byte>, p: nat, eob: int, t: MsgTlv, idx1: u8, idx2: u8)
    requires |t.value| < 65536 && Carries(buf, p, EncodeTlv(t, idx1, idx2)) && p + |EncodeTlv(t, idx1, idx2)| <= eob <= |buf|
    ensures ParseTlv(buf, p, eob, 0) == Ok((EntryOf(t, idx1, idx2), p + |EncodeTlv(t, idx1, idx2)|))
  {
    hide Carries, ParseTlv, ParseRest, ReadValue, EncodeFlags, DecodeFlags, ReadIndices, LengthPart, PlainIndices, ExtPart, Flatten;
    var flags := PlainFlags(t.ext, idx1, idx2, |t.value|);
    var bits := EncodeFlags(flags);
    FlagsRoundTrip(flags);
    FiveParts(buf, p, [B(t.typ), B(bits)], ExtPart(t.ext), PlainIndices(idx1, idx2), LengthPart(|t.value|), t.value);
    ReadsStart(buf, p, eob, 0, t.typ, bits);
    var p3 := p + 2 + |ExtPart(t.ext)|;
    var p4 := p3 + |PlainIndices(idx1, idx2)|;
    ReadsPlainIndices(buf, eob, p3, t, idx1, idx2);
    ParsesFields(buf, p + 2, eob, 0, t.typ, flags, t.ext, idx1, idx2, |t.value|, p4);
    ReadsPlainValue(buf, eob, p4 + |LengthPart(|t.value|)|, t, idx1, idx2);
  }

  // ---------- the buffer ----------

  /** `b` with `s` written at `p`. */
  ghost function Patched(b: seq<byte>, p: int, s: seq<byte>): (r: seq<byte>)
    requires 0 <= p && p + |s| <= |b|
    ensures |r| == |b|
  {
    b[..p] + s + b[p + |s|..]
  }

  lemma PatchedTwice(b: seq<byte>, p: int, s: seq<byte>, t: seq<byte>)
    requires 0 <= p && p + |s| + |t| <= |b|
    ensures Patched(Patched(b, p, s), p + |s|, t) == Patched(b, p, s + t)
  {
  }

  /** `n` bytes of `b` from `from` on. */
  ghost function Window(b: seq<byte>, from: int, n: int): (r: seq<byte>)
    requires 0 <= from && 0 <= n && from + n <= |b|
    ensures |r| == n
  {
    b[from..from + n]
  }

  /** A write shows where it was made. */
  lemma Written(b: seq<byte>, p: int, s: seq<byte>)
    requires 0 <= p && p + |s| <= |b|
    ensures Window(Patched(b, p, s), p, |s|) == s
  {
  }

  /** A write elsewhere does not show. */
  lemma Spared(b: seq<byte>, p: int, s: seq<byte>, from: int, n: int)
    requires 0 <= p && p + |s| <= |b| && 0 <= from && 0 <= n && from + n <= |b|
    requires from + n <= p || p + |s| <= from
    ensures Window(Patched(b, p, s), from, n) == Window(b, from, n)
  {
  }

  lemma Adjacent(b: seq<byte>, from: int, n: int, m: int)
    requires 0 <= from && 0 <= n && 0 <= m && from + n + m <= |b|
    ensures Window(b, from, n) + Window(b, from + n, m) == Window(b, from, n + m)
  {
  }

  /** A part of a window. */
  lemma Inner(b: seq<byte>, c: seq<byte>, from: int, n: int, k: int, m: int)
    requires 0 <= from && 0 <= n && from + n <= |b| && from + n <= |c| && 0 <= k && 0 <= m && k + m <= n
    requires Window(b, from, n) == Window(c, from, n)
    ensures Window(b, from + k, m) == Window(c, from + k, m)
  {
    SliceOfSlice(b, from, from + n, k, m);
    SliceOfSlice(c, from, from + n, k, m);
  }

  /** Writes `s` at `p` and moves the pointer behind it. */
  method Put(buffer: array<byte>, p: nat, s: seq<byte>) returns (q: nat)
    requires p + |s| <= buffer.Length
    modifies buffer
    ensures q == p + |s| && buffer[..] == Patched(old(buffer[..]), p, s)
  {
    ghost var b := buffer[..];
    for i := 0 to |s|
      invariant forall j :: 0 <= j < buffer.Length ==> buffer[j] == if p <= j < p + i then s[j - p] else b[j]
    {
      buffer[p + i] := s[i];
    }
    q := p + |s|;
  }

  /** Moves `n` bytes towards the start of the buffer; the two areas may overlap. */
  method MoveDown(buffer: array<byte>, to: nat, from: nat, n: nat)
    requires to <= from && from + n <= buffer.Length
    modifies buffer
    ensures buffer[..] == Patched(old(buffer[..]), to, Window(old(buffer[..]), from, n))
  {
    ghost var b := buffer[..];
    for i := 0 to n
      invariant forall j :: 0 <= j < buffer.Length ==> buffer[j] == if to <= j < to + i then old(buffer[from + j - to]) else old(buffer[j])
    {
      buffer[to + i] := buffer[from + i];
    }
    assert forall j :: to <= j < to + n ==> buffer[j] == b[from..from + n][j - to];
  }

  /** Writes a TLV at `p`. */
  method WriteTlv(buffer: array<byte>, p: nat, t: MsgTlv, idx1: u8, idx2: u8)
    requires p + |EncodeTlv(t, idx1, idx2)| <= buffer.Length
    modifies buffer
    ensures buffer[..] == Patched(old(buffer[..]), p, EncodeTlv(t, idx1, idx2))
  {
    hide EncodeFlags, Patched, PlainIndices, LengthPart, ExtPart, Flatten;
    ghost var b := buffer[..];
    var start := [B(t.typ), B(EncodeFlags(PlainFlags(t.ext, idx1, idx2, |t.value|)))];
    var e, i, l := ExtPart(t.ext), PlainIndices(idx1, idx2), LengthPart(|t.value|);
    FlattenFive(start, e, i, l, t.value);
    var ptr := Put(buffer, p, start);
    ptr := Put(buffer, ptr, e);
    PatchedTwice(b, p, start, e);
    ptr := Put(buffer, ptr, i);
    PatchedTwice(b, p, start + e, i);
    ptr := Put(buffer, ptr, l);
    PatchedTwice(b, p, start + e + i, l);
    ptr := Put(buffer, ptr, t.value);
    PatchedTwice(b, p, start + e + i + l, t.value);
  }

  /** A buffer with a header, TLVs added, space allocated behind them, and TLVs set in the allocated space. */
  class TlvData {
    var buffer: array<byte>
    var header: nat
    var added: nat
    var reserved: nat
    var used: nat
    var max: nat

    /** The bytes used and reserved fit; the TLVs set fit what was allocated. */
    ghost predicate Valid()
      reads this
    {
      header + added + reserved <= max <= buffer.Length && used <= reserved
    }

    ghost function Added(): seq<byte>
      requires Valid()
      reads this, buffer
    {
      Window(buffer[..], header, added)
    }

    ghost function SetTlvs(): seq<byte>
      requires Valid()
      reads this, buffer
    {
      Window(buffer[..], header + added, used)
    }

    /** What lies behind the allocated space. */
    ghost function Rest(): seq<byte>
      requires Valid()
      reads this, buffer
    {
      Window(buffer[..], Behind(), buffer.Length - Behind())
    }

    /** Where the next part of the packet or message goes. */
    function Behind(): nat
      reads this
    {
      header + added + reserved
    }

    constructor (size: nat)
      ensures Valid() && fresh(buffer) && buffer.Length == size && max == 0 && header == 0 && added == 0 && reserved == 0 && used == 0
    {
      buffer := new byte[size](i => 0);
      header, added, reserved, used, max := 0, 0, 0, 0, 0;
    }

    method Init(max: nat)
      requires max <= buffer.Length
      modifies this
      ensures Valid() && buffer == old(buffer) && this.max == max && header == 0 && added == 0 && reserved == 0 && used == 0
    {
      header, added, reserved, used, this.max := 0, 0, 0, 0, max;
    }

    /** Adds a TLV if there is room for it. It takes the place of what was set before: TLVs are to be added before any is
        set. */
    method Add(t: MsgTlv) returns (ok: bool)
      requires Valid()
      modifies this`added, buffer
      ensures Valid() && ok == (old(Behind()) + |EncodeTlv(t, 0, 255)| <= max)
      ensures Added() == if ok then old(Added()) + EncodeTlv(t, 0, 255) else old(Added())
      ensures added == old(added) + if ok then |EncodeTlv(t, 0, 255)| else 0
      ensures Window(buffer[..], 0, header) == old(Window(buffer[..], 0, header))
      ensures SetTlvs() == if ok then old(Window(buffer[..], header + added + |EncodeTlv(t, 0, 255)|, used)) else old(SetTlvs())
    {
      hide EncodeTlv, Patched, Window;
      ghost var b := buffer[..];
      var s := CalcTlvSize(t.ext != 0, |t.value|);
      SizeIsRight(t);
      ok := header + added + reserved + s <= max;
      if ok {
        WriteTlv(buffer, header + added, t, 0, 255);
        Written(b, header + added, EncodeTlv(t, 0, 255));
        Spared(b, header + added, EncodeTlv(t, 0, 255), 0, header);
        Spared(b, header + added, EncodeTlv(t, 0, 255), header, added);
        Spared(b, header + added, EncodeTlv(t, 0, 255), header + added + s, used);
        Adjacent(buffer[..], header, added, s);
        added := added + s;
      }
    }

    /** Reserves the space of a TLV that is set later. */
    method Allocate(hasExt: bool, length: nat) returns (ok: bool)
      requires Valid()
      modifies this`reserved
      ensures Valid() && ok == (old(Behind()) + CalcTlvSize(hasExt, length) <= max)
      ensures reserved == old(reserved) + if ok then CalcTlvSize(hasExt, length) else 0
    {
      var s := CalcTlvSize(hasExt, length);
      ok := header + added + reserved + s <= max;
      if ok {
        reserved := reserved + s;
      }
    }

    /** Sets a TLV in the allocated space; what lies behind that space stays. */
    method Set(t: MsgTlv) returns (ok: bool)
      requires Valid()
      modifies this`used, buffer
      ensures Valid() && ok == (old(used) + |EncodeTlv(t, 0, 255)| <= reserved)
      ensures SetTlvs() == if ok then old(SetTlvs()) + EncodeTlv(t, 0, 255) else old(SetTlvs())
      ensures used == old(used) + if ok then |EncodeTlv(t, 0, 255)| else 0
      ensures Added() == old(Added()) && Rest() == old(Rest())
    {
      hide EncodeTlv, Patched, Window;
      ghost var b := buffer[..];
      var s := CalcTlvSize(t.ext != 0, |t.value|);
      SizeIsRight(t);
      ok := reserved - used >= s;
      if ok {
        WriteTlv(buffer, header + added + used, t, 0, 255);
        Written(b, header + added + used, EncodeTlv(t, 0, 255));
        Spared(b, header + added + used, EncodeTlv(t, 0, 255), header, added);
        Spared(b, header + added + used, EncodeTlv(t, 0, 255), header + added, used);
        Spared(b, header + added + used, EncodeTlv(t, 0, 255), Behind(), buffer.Length - Behind());
        Adjacent(buffer[..], header + added, used, s);
        used := used + s;
      }
    }

    /** Sets TLVs one after the other; those without room are left out. */
    method SetAll(tlvs: seq<MsgTlv>)
      requires Valid()
      modifies this`used, buffer
      ensures Valid() && SetTlvs() == old(SetTlvs()) + SetBytes(tlvs, reserved - old(used))
      ensures Added() == old(Added()) && Rest() == old(Rest())
    {
      hide EncodeTlv, Window;
      ghost var room := reserved - used;
      ghost var start := SetTlvs();
      assert start + [] == start;
      for i := 0 to |tlvs|
        invariant Valid() && start + SetBytes(tlvs, room) == SetTlvs() + SetBytes(tlvs[i..], reserved - used)
        invariant Added() == old(Added()) && Rest() == old(Rest())
      {
        ghost var before := SetTlvs();
        var ok := Set(tlvs[i]);
        assert tlvs[i..][1..] == tlvs[i + 1..];
        if ok {
          Associates(before, EncodeTlv(tlvs[i], 0, 255), SetBytes(tlvs[i + 1..], reserved - used));
        }
      }
    }
  }

  /** The bytes of the TLVs that fit the room that is left when their turn comes. */
  ghost function SetBytes(tlvs: seq<MsgTlv>, room: nat): seq<byte>
  {
    if tlvs == [] then []
    else
      var first := EncodeTlv(tlvs[0], 0, 255);
      if |first| <= room then first + SetBytes(tlvs[1..], room - |first|) else SetBytes(tlvs[1..], room)
  }
}
