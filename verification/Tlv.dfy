/** TLVs of RFC 5444, section 5.4: what the writer puts on the wire and what the reader makes of it. */
module Tlv {
  import opened Wire
  import opened Seqs

  // The flags of a TLV.
  const TYPE_EXT := 128
  const SINGLE_IDX := 64
  const MULTI_IDX := 32
  const VALUE := 16
  const EXT_VALUE := 8
  const MULTI_VALUE := 4

  datatype Flags = Flags(typeExt: bool, singleIdx: bool, multiIdx: bool, value: bool, extValue: bool, multiValue: bool)

  function DecodeFlags(b: u8): Flags
  {
    Flags(Has(b, TYPE_EXT), Has(b, SINGLE_IDX), Has(b, MULTI_IDX), Has(b, VALUE), Has(b, EXT_VALUE), Has(b, MULTI_VALUE))
  }

  function EncodeFlags(f: Flags): u8
  {
    Bit(f.typeExt, TYPE_EXT) + Bit(f.singleIdx, SINGLE_IDX) + Bit(f.multiIdx, MULTI_IDX)
    + Bit(f.value, VALUE) + Bit(f.extValue, EXT_VALUE) + Bit(f.multiValue, MULTI_VALUE)
  }

  lemma FlagsRoundTrip(f: Flags)
    ensures DecodeFlags(EncodeFlags(f)) == f
  {
  }

  /** A TLV as the reader stores it; `length` is the length of one value. */
  datatype Entry = Entry(typ: u8, ext: u8, index1: u8, index2: u8, length: nat, value: seq<byte>, multi: bool)

  function Order(typ: u8, ext: u8): nat
  {
    256 * typ + ext
  }

  // ---------- the reader ----------

  function ReadExt(buf: seq<byte>, eob: int, flags: Flags, c: Cursor): (u8, Cursor)
    requires eob <= |buf|
  {
    if flags.typeExt then GetU8(buf, eob, c) else (0, c)
  }

  function ReadIndices(buf: seq<byte>, eob: int, flags: Flags, addrCount: u8, c: Cursor): (u8, u8, Cursor)
    requires eob <= |buf|
  {
    if flags.singleIdx then
      var (i, d) := GetU8(buf, eob, c);
      (i, i, d)
    else if flags.multiIdx then
      var (i, d) := GetU8(buf, eob, c);
      var (j, e) := GetU8(buf, eob, d);
      (i, j, e)
    else
      (0, (addrCount + 255) % 256, c)
  }

  function ReadLength(buf: seq<byte>, eob: int, flags: Flags, c: Cursor): (int, Cursor)
    requires eob <= |buf|
  {
    if !flags.value then (0, c)
    else if flags.extValue then GetU16(buf, eob, c)
    else GetU8(buf, eob, c)
  }

  /** The length of each of `count` values in `length` bytes. */
  function Share(length: nat, count: nat): Result<nat>
  {
    if count == 0 then Err(DividesByZero)
    else if length % count != 0 then Err(BadTlvLength)
    else Ok(length / count)
  }

  /** The value part: `count` addresses share `length` bytes at `p`. */
  function ReadValue(buf: seq<byte>, eob: int, head: Entry, length: int, multi: bool, c: Cursor): Result<(Entry, nat)>
    requires eob <= |buf|
  {
    if c.pos + length > eob then Err(EndOfBuffer)
    else if c.failed then Err(EndOfBuffer)
    else if length <= 0 then Ok((head.(length := 0, value := [], multi := multi), c.pos))
    else
      var entry := head.(length := length, value := buf[c.pos..c.pos + length], multi := false);
      var count := (head.index2 - head.index1 + 1) % 256;
      if !multi || count == 1 then Ok((entry, c.pos + length))
      else
        match Share(length, count)
        case Ok(each) => Ok((entry.(length := each, multi := true), c.pos + length))
        case Err(e) => Err(e)
  }

  /** What comes behind the type and the flags. */
  function ParseRest(buf: seq<byte>, eob: int, addrCount: u8, typ: u8, flags: Flags, c2: Cursor): Result<(Entry, nat)>
    requires eob <= |buf|
  {
    var (ext, c3) := ReadExt(buf, eob, flags, c2);
    if flags.singleIdx && flags.multiIdx then Err(BadTlvIdxFlags)
    else
      var (i1, i2, c4) := ReadIndices(buf, eob, flags, addrCount, c3);
      if addrCount > 0 && (i1 >= addrCount || i2 >= addrCount) then Err(BadTlvIndex)
      else if !flags.value && flags.extValue then Err(BadTlvValueFlags)
      else
        var (length, c5) := ReadLength(buf, eob, flags, c4);
        ReadValue(buf, eob, Entry(typ, ext, i1, i2, 0, [], false), length, flags.multiValue, c5)
  }

  /** Parses the TLV at `p`; `addrCount` is 0 for a TLV of a message or packet. */
  function ParseTlv(buf: seq<byte>, p: nat, eob: int, addrCount: u8): Result<(Entry, nat)>
    requires eob <= |buf|
  {
    var (typ, c1) := GetU8(buf, eob, Cursor(p, false));
    var (bits, c2) := GetU8(buf, eob, c1);
    ParseRest(buf, eob, addrCount, typ, DecodeFlags(bits), c2)
  }

  // ---------- the writer ----------

  /** Consecutive addresses, from index `first` on, with a TLV of one type; `same` if all values agree. */
  datatype Run = Run(typ: u8, ext: u8, first: nat, values: seq<seq<byte>>, same: bool)
  {
    function Last(): int { first + |values| - 1 }
    function Length(): nat requires |values| > 0 { |values[0]| }

    /** The value bytes that go out. */
    function Payload(): seq<byte>
      requires |values| > 0
    {
      if same then values[0] else Flatten(values)
    }
  }

  ghost predicate AllEqual(values: seq<seq<byte>>)
  {
    forall i :: 0 <= i < |values| ==> values[i] == values[0]
  }

  /** A run the writer can form in a block of `n` addresses whose size field does not wrap. */
  ghost predicate GoodRun(r: Run, n: nat)
  {
    && 0 < |r.values| && r.first + |r.values| <= n <= 255
    && (forall i :: 0 <= i < |r.values| ==> |r.values[i]| == r.Length())
    && (|r.values| == 1 ==> r.same)
    && |r.Payload()| < 65536
  }

  function IndexPart(first: nat, last: int, n: nat): seq<byte>
  {
    if first == 0 && last == n - 1 then []
    else if first == last then [B(first)]
    else [B(first), B(last)]
  }

  function LengthPart(total: nat): seq<byte>
  {
    if total > 255 then U16(total) else if total > 0 then [B(total)] else []
  }

  function FlagsFor(ext: u8, first: nat, last: int, n: nat, total: nat, multi: bool): Flags
  {
    var whole := first == 0 && last == n - 1;
    Flags(ext != 0, !whole && first == last, !whole && first != last, total > 0, total > 255, multi)
  }

  /** A TLV for the addresses of `r` in a block of `n`; the size field is 16 bits wide. */
  function EncodeRun(r: Run, n: nat): seq<byte>
    requires |r.values| > 0
  {
    var total := (if r.same then r.Length() else r.Length() * |r.values|) % 65536;
    Flatten([[B(r.typ), B(EncodeFlags(FlagsFor(r.ext, r.first, r.Last(), n, total, !r.same)))], ExtPart(r.ext),
             IndexPart(r.first, r.Last(), n), LengthPart(total), if r.Length() > 0 then r.Payload() else []])
  }

  function ToEntry(r: Run): Entry
    requires |r.values| > 0 && r.Last() < 256
  {
    Entry(r.typ, r.ext, r.first, r.Last(), r.Length(), r.Payload(), !r.same)
  }

  // ---------- reading back one TLV ----------

  lemma ReadsIndices(buf: seq<byte>, eob: int, flags: Flags, n: u8, p: nat, first: u8, last: u8)
    requires first <= last < n && Carries(buf, p, IndexPart(first, last, n)) && p + |IndexPart(first, last, n)| <= eob <= |buf|
    requires flags.singleIdx <==> first == last && !(first == 0 && last == n - 1)
    requires flags.multiIdx <==> first != last && !(first == 0 && last == n - 1)
    ensures ReadIndices(buf, eob, flags, n, Cursor(p, false)) == (first, last, Cursor(p + |IndexPart(first, last, n)|, false))
  {
    if !(first == 0 && last == n - 1) {
      assert buf[p + 0] == (IndexPart(first, last, n))[0];
      if first != last {
        assert buf[p + 1] == (IndexPart(first, last, n))[1];
      }
    }
  }

  lemma ReadsLength(buf: seq<byte>, eob: int, flags: Flags, p: nat, total: nat)
    requires total < 65536 && Carries(buf, p, LengthPart(total)) && p + |LengthPart(total)| <= eob <= |buf|
    requires (flags.value <==> total > 0) && (flags.extValue <==> total > 255)
    ensures ReadLength(buf, eob, flags, Cursor(p, false)) == (total, Cursor(p + |LengthPart(total)|, false))
  {
    if total > 255 {
      ReadsU16(buf, eob, p, total);
    } else if total > 0 {
      assert buf[p + 0] == (LengthPart(total))[0];
    }
  }

  function ExtPart(ext: u8): seq<byte>
  {
    if ext != 0 then [B(ext)] else []
  }

  /** The size field of a good run holds the number of payload bytes. */
  lemma PayloadSize(r: Run, n: nat)
    requires GoodRun(r, n)
    ensures (if r.same then r.Length() else r.Length() * |r.values|) == |r.Payload()|
    ensures r.Length() == 0 ==> r.Payload() == []
    ensures !r.same ==> |r.values| > 1
  {
    FlattenLength(r.values, r.Length());
  }

  lemma EncodingParts(r: Run, n: nat)
    requires GoodRun(r, n)
    ensures EncodeRun(r, n) == Flatten([[B(r.typ), B(EncodeFlags(FlagsFor(r.ext, r.first, r.Last(), n, |r.Payload()|, !r.same)))],
                                        ExtPart(r.ext), IndexPart(r.first, r.Last(), n), LengthPart(|r.Payload()|), r.Payload()])
  {
    PayloadSize(r, n);
    EncodingOf(r, n, |r.Payload()|, r.Payload());
  }

  lemma EncodingOf(r: Run, n: nat, total: nat, payload: seq<byte>)
    requires |r.values| > 0 && total < 65536 && total == if r.same then r.Length() else r.Length() * |r.values|
    requires payload == r.Payload() && (r.Length() == 0 ==> payload == [])
    ensures EncodeRun(r, n) == Flatten([[B(r.typ), B(EncodeFlags(FlagsFor(r.ext, r.first, r.Last(), n, total, !r.same)))],
                                        ExtPart(r.ext), IndexPart(r.first, r.Last(), n), LengthPart(total), payload])
  {
    hide Flatten, EncodeFlags, FlagsFor, IndexPart, LengthPart, ExtPart, Run.Payload;
    assert total % 65536 == total;
  }

  lemma ReadsValue(buf: seq<byte>, eob: int, r: Run, n: nat, p: nat)
    requires GoodRun(r, n) && Carries(buf, p, r.Payload()) && p + |r.Payload()| <= eob <= |buf|
    ensures ReadValue(buf, eob, Entry(r.typ, r.ext, r.first, r.Last(), 0, [], false), |r.Payload()|, !r.same, Cursor(p, false))
         == Ok((ToEntry(r), p + |r.Payload()|))
  {
    PayloadSize(r, n);
    CarriesSlice(buf, p, r.Payload());
    if !r.same {
      var k, count := r.Length(), |r.values|;
      assert k * count % count == 0 && k * count / count == k by { Multiple(k, count); }
    }
  }

  lemma AtLeast(a: int, c: int)
    requires a >= 1 && c > 0
    ensures a * c >= c
  {
  }

  lemma Multiple(k: nat, c: int)
    requires c > 0
    ensures k * c % c == 0 && k * c / c == k
  {
    var q, m := k * c / c, k * c % c;
    var d := q - k;
    assert d * c == -m;
    if d > 0 {
      AtLeast(d, c);
    } else if d < 0 {
      AtLeast(-d, c);
    }
  }

  /** Parsing is reading the parts one after the other. */
  lemma ParsesParts(buf: seq<byte>, p: nat, eob: int, n: u8, typ: u8, flags: Flags, ext: u8, i1: u8, i2: u8, total: int,
                    c3: Cursor, c4: Cursor, c5: Cursor)
    requires eob <= |buf| && ReadExt(buf, eob, flags, Cursor(p, false)) == (ext, c3)
    requires !(flags.singleIdx && flags.multiIdx) && ReadIndices(buf, eob, flags, n, c3) == (i1, i2, c4)
    requires (n > 0 ==> i1 < n && i2 < n) && (flags.extValue ==> flags.value)
    requires ReadLength(buf, eob, flags, c4) == (total, c5)
    ensures ParseRest(buf, eob, n, typ, flags, Cursor(p, false))
         == ReadValue(buf, eob, Entry(typ, ext, i1, i2, 0, [], false), total, flags.multiValue, c5)
  {
  }

  lemma ReadsExt(buf: seq<byte>, p: nat, eob: int, flags: Flags, ext: u8)
    requires Carries(buf, p, ExtPart(ext)) && p + |ExtPart(ext)| <= eob <= |buf| && (flags.typeExt <==> ext != 0)
    ensures ReadExt(buf, eob, flags, Cursor(p, false)) == (ext, Cursor(p + |ExtPart(ext)|, false))
  {
    if ext != 0 {
      assert buf[p + 0] == ExtPart(ext)[0];
    }
  }

  lemma ReadsStart(buf: seq<byte>, p: nat, eob: int, n: u8, typ: u8, bits: u8)
    requires Carries(buf, p, [B(typ), B(bits)]) && p + 2 <= eob <= |buf|
    ensures ParseTlv(buf, p, eob, n) == ParseRest(buf, eob, n, typ, DecodeFlags(bits), Cursor(p + 2, false))
  {
    hide DecodeFlags, ParseRest;
    var start := [B(typ), B(bits)];
    assert buf[p + 0] == start[0];
    assert buf[p + 1] == start[1];
  }

  /** Extension, indices and length are read back; what remains is the value. */
  lemma ParsesFields(buf: seq<byte>, p: nat, eob: int, n: u8, typ: u8, flags: Flags, ext: u8, i1: u8, i2: u8, total: nat,
                     p4: nat)
    requires Carries(buf, p, ExtPart(ext)) && p + |ExtPart(ext)| <= p4 && total < 65536 && eob <= |buf|
    requires flags.typeExt <==> ext != 0
    requires !(flags.singleIdx && flags.multiIdx) && (n > 0 ==> i1 < n && i2 < n)
    requires (flags.value <==> total > 0) && (flags.extValue <==> total > 255)
    requires ReadIndices(buf, eob, flags, n, Cursor(p + |ExtPart(ext)|, false)) == (i1, i2, Cursor(p4, false))
    requires Carries(buf, p4, LengthPart(total)) && p4 + |LengthPart(total)| <= eob
    ensures ParseRest(buf, eob, n, typ, flags, Cursor(p, false))
         == ReadValue(buf, eob, Entry(typ, ext, i1, i2, 0, [], false), total, flags.multiValue, Cursor(p4 + |LengthPart(total)|, false))
  {
    ReadsExt(buf, p, eob, flags, ext);
    ReadsLength(buf, eob, flags, p4, total);
    ParsesParts(buf, p, eob, n, typ, flags, ext, i1, i2, total,
                Cursor(p + |ExtPart(ext)|, false), Cursor(p4, false), Cursor(p4 + |LengthPart(total)|, false));
  }

  /** Extension, indices and length of an address TLV are read back. */
  lemma ParsesAddressTlv(buf: seq<byte>, p: nat, eob: int, typ: u8, flags: Flags, ext: u8, first: u8, last: u8, n: u8, total: nat, multi: bool)
    requires first <= last < n && total < 65536 && flags == FlagsFor(ext, first, last, n, total, multi)
    requires var p3 := p + |ExtPart(ext)|; var p4 := p3 + |IndexPart(first, last, n)|;
             && Carries(buf, p, ExtPart(ext)) && Carries(buf, p3, IndexPart(first, last, n)) && Carries(buf, p4, LengthPart(total))
             && p4 + |LengthPart(total)| <= eob <= |buf|
    ensures ParseRest(buf, eob, n, typ, flags, Cursor(p, false))
         == ReadValue(buf, eob, Entry(typ, ext, first, last, 0, [], false), total, multi,
                      Cursor(p + |ExtPart(ext)| + |IndexPart(first, last, n)| + |LengthPart(total)|, false))
  {
    ReadsIndices(buf, eob, flags, n, p + |ExtPart(ext)|, first, last);
    ParsesFields(buf, p, eob, n, typ, flags, ext, first, last, total, p + |ExtPart(ext)| + |IndexPart(first, last, n)|);
  }

  /** Where the parts of an encoded run lie. */
  lemma RunPieces(buf: seq<byte>, p: nat, r: Run, n: nat) returns (bits: u8)
    requires GoodRun(r, n) && Carries(buf, p, EncodeRun(r, n))
    ensures DecodeFlags(bits) == FlagsFor(r.ext, r.first, r.Last(), n, |r.Payload()|, !r.same)
    ensures Carries(buf, p, [B(r.typ), B(bits)]) && Carries(buf, p + 2, ExtPart(r.ext))
    ensures var p3 := p + 2 + |ExtPart(r.ext)|; var p4 := p3 + |IndexPart(r.first, r.Last(), n)|; var p5 := p4 + |LengthPart(|r.Payload()|)|;
            && Carries(buf, p3, IndexPart(r.first, r.Last(), n)) && Carries(buf, p4, LengthPart(|r.Payload()|))
            && Carries(buf, p5, r.Payload()) && p5 + |r.Payload()| == p + |EncodeRun(r, n)|
  {
    EncodingParts(r, n);
    var flags := FlagsFor(r.ext, r.first, r.Last(), n, |r.Payload()|, !r.same);
    bits := EncodeFlags(flags);
    FlagsRoundTrip(flags);
    FiveParts(buf, p, [B(r.typ), B(bits)], ExtPart(r.ext), IndexPart(r.first, r.Last(), n), LengthPart(|r.Payload()|), r.Payload());
  }

  lemma StartsRun(buf: seq<byte>, p: nat, eob: int, r: Run, n: nat)
    requires GoodRun(r, n) && Carries(buf, p, EncodeRun(r, n)) && p + |EncodeRun(r, n)| <= eob <= |buf|
    ensures ParseTlv(buf, p, eob, n)
         == ParseRest(buf, eob, n, r.typ, FlagsFor(r.ext, r.first, r.Last(), n, |r.Payload()|, !r.same), Cursor(p + 2, false))
    ensures var p3 := p + 2 + |ExtPart(r.ext)|; var p4 := p3 + |IndexPart(r.first, r.Last(), n)|; var p5 := p4 + |LengthPart(|r.Payload()|)|;
            && Carries(buf, p + 2, ExtPart(r.ext)) && Carries(buf, p3, IndexPart(r.first, r.Last(), n))
            && Carries(buf, p4, LengthPart(|r.Payload()|))
            && Carries(buf, p5, r.Payload()) && p5 + |r.Payload()| == p + |EncodeRun(r, n)|
  {
    var bits := RunPieces(buf, p, r, n);
    ReadsStart(buf, p, eob, n, r.typ, bits);
  }

  /** The parts behind the flags are read back. */
  lemma ParsesAfterFlags(buf: seq<byte>, p: nat, eob: int, r: Run, n: nat, flags: Flags)
    requires GoodRun(r, n) && flags == FlagsFor(r.ext, r.first, r.Last(), n, |r.Payload()|, !r.same)
    requires var p3 := p + |ExtPart(r.ext)|; var p4 := p3 + |IndexPart(r.first, r.Last(), n)|; var p5 := p4 + |LengthPart(|r.Payload()|)|;
             && Carries(buf, p, ExtPart(r.ext)) && Carries(buf, p3, IndexPart(r.first, r.Last(), n))
             && Carries(buf, p4, LengthPart(|r.Payload()|)) && Carries(buf, p5, r.Payload()) && p5 + |r.Payload()| <= eob <= |buf|
    ensures var p5 := p + |ExtPart(r.ext)| + |IndexPart(r.first, r.Last(), n)| + |LengthPart(|r.Payload()|)|;
            ParseRest(buf, eob, n, r.typ, flags, Cursor(p, false)) == Ok((ToEntry(r), p5 + |r.Payload()|))
  {
    hide Carries, ParseRest, ReadValue, Run.Payload;
    var p5 := p + |ExtPart(r.ext)| + |IndexPart(r.first, r.Last(), n)| + |LengthPart(|r.Payload()|)|;
    var value := ReadValue(buf, eob, Entry(r.typ, r.ext, r.first, r.Last(), 0, [], false), |r.Payload()|, !r.same, Cursor(p5, false));
    assert ParseRest(buf, eob, n, r.typ, flags, Cursor(p, false)) == value by {
      ParsesAddressTlv(buf, p, eob, r.typ, flags, r.ext, r.first, r.Last(), n, |r.Payload()|, !r.same);
    }
    assert value == Ok((ToEntry(r), p5 + |r.Payload()|)) by {
      ReadsValue(buf, eob, r, n, p5);
    }
  }

  /** The reader gets back the run that was written, whatever index and length form was picked. */
  lemma ParsesRun(buf: seq<byte>, p: nat, eob: int, r: Run, n: nat)
    requires GoodRun(r, n) && Carries(buf, p, EncodeRun(r, n)) && p + |EncodeRun(r, n)| <= eob <= |buf|
    ensures ParseTlv(buf, p, eob, n) == Ok((ToEntry(r), p + |EncodeRun(r, n)|))
  {
    hide Carries, ParseTlv, ParseRest, EncodeRun, FlagsFor, Run.Payload;
    StartsRun(buf, p, eob, r, n);
    ParsesAfterFlags(buf, p + 2, eob, r, n, FlagsFor(r.ext, r.first, r.Last(), n, |r.Payload()|, !r.same));
  }
}
