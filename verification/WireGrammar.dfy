/** The layout of TLVs and address blocks in RFC 5444, sections 5.4 and 5.3, and what the reader makes of any bytes. */
module WireGrammar {
  import opened Wire
  import opened Seqs
  import Tlv
  import AddressBlocks

  // ---------- TLVs ----------

  /** The parts of a TLV behind its type and its flags. */
  datatype TlvParts = TlvParts(ext: seq<byte>, indices: seq<byte>, length: seq<byte>, value: seq<byte>)

  /** The number written by bytes, most significant first. */
  function Number(s: seq<byte>): nat
  {
    if s == [] then 0 else 256 * Number(s[..|s| - 1]) + s[|s| - 1] as int
  }

  /** The bytes are a TLV for a block of `n` addresses, made of these parts. The bits of the flags, from the highest: an extension,
      one index, two indices, a value, a long length, several values. */
  ghost predicate WellFormed(s: seq<byte>, n: u8, f: TlvParts)
  {
    && |s| >= 2 && s == [s[0], s[1]] + f.ext + f.indices + f.length + f.value
    && var bits := s[1] as int;
    && bits / 64 % 2 + bits / 32 % 2 < 2 && bits / 8 % 2 <= bits / 16 % 2
    && |f.ext| == bits / 128 % 2 && |f.indices| == bits / 64 % 2 + 2 * (bits / 32 % 2) && |f.length| == bits / 16 % 2 + bits / 8 % 2
    && |f.value| == Number(f.length)
    && (n > 0 ==> forall i :: i in f.indices ==> i as int < n)
  }

  function ExtOf(f: TlvParts): u8
  {
    if f.ext == [] then 0 else f.ext[0] as int
  }

  function FirstIndex(f: TlvParts): u8
  {
    if f.indices == [] then 0 else f.indices[0] as int
  }

  /** Without indices a TLV is for all addresses; that of a message ends at 255. */
  function LastIndex(f: TlvParts, n: u8): u8
  {
    if f.indices == [] then (if n == 0 then 255 else n - 1) else f.indices[|f.indices| - 1] as int
  }

  /** How many addresses share the value, as a byte counts them. */
  function Sharers(f: TlvParts, n: u8): nat
  {
    (LastIndex(f, n) - FirstIndex(f) + 1) % 256
  }

  /** What is stored of a value that `count` addresses share: several values must have one length. */
  ghost predicate StoresValue(value: seq<byte>, several: bool, count: nat, e: Tlv.Entry)
  {
    && e.value == value
    && if value == [] then e.length == 0 && e.multi == several
       else if several && count != 1 then e.multi && count > 0 && e.length * count == |value|
       else !e.multi && e.length == |value|
  }

  ghost predicate Stores(s: seq<byte>, n: u8, f: TlvParts, e: Tlv.Entry)
    requires WellFormed(s, n, f)
  {
    && e.typ == s[0] as int && e.ext == ExtOf(f) && e.index1 == FirstIndex(f) && e.index2 == LastIndex(f, n)
    && StoresValue(f.value, s[1] as int / 4 % 2 == 1, Sharers(f, n), e)
  }

  ghost predicate Means(s: seq<byte>, n: u8, e: Tlv.Entry)
  {
    exists f :: WellFormed(s, n, f) && Stores(s, n, f, e)
  }

  // ---------- reading TLVs ----------

  /** Reading one byte. */
  lemma {:induction false} ByteRead(buf: seq<byte>, eob: int, c: Cursor)
    requires eob <= |buf|
    ensures var (b, d) := GetU8(buf, eob, c);
            if !c.failed && c.pos < eob then b == buf[c.pos] as int && d == Cursor(c.pos + 1, false) else d.failed && d.pos == c.pos && b == 0
  {
  }

  lemma {:induction false} NumberOne(a: byte)
    ensures Number([a]) == a as int
  {
    assert [a][..0] == [];
  }

  lemma {:induction false} NumberTwo(a: byte, b: byte)
    ensures Number([a, b]) == 256 * a as int + b as int
  {
    assert [a, b][..1] == [a];
    NumberOne(a);
  }

  /** Positions of the parts. */
  datatype Places = Places(indices: nat, length: nat, value: nat)

  function PlacesOf(p: nat, flags: Tlv.Flags): Places
  {
    var indices := p + 2 + if flags.typeExt then 1 else 0;
    var length := indices + if flags.singleIdx then 1 else if flags.multiIdx then 2 else 0;
    Places(indices, length, length + if !flags.value then 0 else if flags.extValue then 2 else 1)
  }

  function PartsOf(buf: seq<byte>, p: nat, flags: Tlv.Flags, q: nat): TlvParts
    requires PlacesOf(p, flags).value <= q <= |buf|
  {
    var at := PlacesOf(p, flags);
    TlvParts(buf[p + 2..at.indices], buf[at.indices..at.length], buf[at.length..at.value], buf[at.value..q])
  }

  /** The byte at a position, 0 behind the end. */
  function At(buf: seq<byte>, eob: int, i: nat): u8
    requires eob <= |buf|
  {
    if i < eob then buf[i] as int else 0
  }

  /** The cursor behind the fields: it has failed exactly if they reach behind the end. */
  ghost predicate Behind(c: Cursor, eob: int, pos: nat)
  {
    (c.failed <==> pos > eob) && (!c.failed ==> c.pos == pos)
  }

  lemma {:induction false} ExtRead(buf: seq<byte>, p: nat, eob: int, flags: Tlv.Flags)
    requires p + 2 <= eob <= |buf|
    ensures var (ext, c) := Tlv.ReadExt(buf, eob, flags, Cursor(p + 2, false));
            Behind(c, eob, PlacesOf(p, flags).indices) && ext == if flags.typeExt then At(buf, eob, p + 2) else 0
  {
  }

  /** The indices as they are read. */
  function IndicesAt(buf: seq<byte>, p: nat, eob: int, flags: Tlv.Flags, n: u8): (u8, u8)
    requires eob <= |buf|
  {
    var at := PlacesOf(p, flags).indices;
    if flags.singleIdx then (At(buf, eob, at), At(buf, eob, at))
    else if flags.multiIdx then (At(buf, eob, at), At(buf, eob, at + 1))
    else (0, if n == 0 then 255 else n - 1)
  }

  lemma {:induction false} IndicesRead(buf: seq<byte>, p: nat, eob: int, flags: Tlv.Flags, n: u8, c: Cursor)
    requires eob <= |buf| && Behind(c, eob, PlacesOf(p, flags).indices)
    ensures var (i, j, d) := Tlv.ReadIndices(buf, eob, flags, n, c);
            Behind(d, eob, PlacesOf(p, flags).length) && (i, j) == IndicesAt(buf, p, eob, flags, n)
  {
  }

  function LengthAt(buf: seq<byte>, p: nat, eob: int, flags: Tlv.Flags): nat
    requires eob <= |buf|
  {
    var at := PlacesOf(p, flags).length;
    if !flags.value then 0
    else if flags.extValue then 256 * At(buf, eob, at) + At(buf, eob, at + 1)
    else At(buf, eob, at)
  }

  lemma {:induction false} LengthRead(buf: seq<byte>, p: nat, eob: int, flags: Tlv.Flags, c: Cursor)
    requires eob <= |buf| && Behind(c, eob, PlacesOf(p, flags).length)
    ensures var (length, d) := Tlv.ReadLength(buf, eob, flags, c);
            Behind(d, eob, PlacesOf(p, flags).value) && length == LengthAt(buf, p, eob, flags)
  {
  }

  /** What the fields of a TLV say, and where its value starts. */
  lemma {:induction false} RestRead(buf: seq<byte>, p: nat, eob: int, n: u8, typ: u8, flags: Tlv.Flags) returns (c: Cursor)
    requires p + 2 <= eob <= |buf|
    ensures var (i, j), r := IndicesAt(buf, p, eob, flags, n), Tlv.ParseRest(buf, eob, n, typ, flags, Cursor(p + 2, false));
            && Behind(c, eob, PlacesOf(p, flags).value)
            && r == if flags.singleIdx && flags.multiIdx then Err(BadTlvIdxFlags)
                    else if n > 0 && (i >= n || j >= n) then Err(BadTlvIndex)
                    else if !flags.value && flags.extValue then Err(BadTlvValueFlags)
                    else Tlv.ReadValue(buf, eob, Tlv.Entry(typ, if flags.typeExt then At(buf, eob, p + 2) else 0, i, j, 0, [], false),
                                       LengthAt(buf, p, eob, flags), flags.multiValue, c)
  {
    hide Tlv.ReadExt, Tlv.ReadIndices, Tlv.ReadLength, Tlv.ReadValue, IndicesAt, LengthAt, PlacesOf, At;
    var (ext, c3) := Tlv.ReadExt(buf, eob, flags, Cursor(p + 2, false));
    ExtRead(buf, p, eob, flags);
    var (i, j, c4) := Tlv.ReadIndices(buf, eob, flags, n, c3);
    IndicesRead(buf, p, eob, flags, n, c3);
    var (length, c5) := Tlv.ReadLength(buf, eob, flags, c4);
    LengthRead(buf, p, eob, flags, c4);
    c := c5;
  }

  /** The value as it is stored, if all fields are there. */
  lemma {:induction false} ValueRead(buf: seq<byte>, eob: int, head: Tlv.Entry, length: nat, multi: bool, c: Cursor)
    requires eob <= |buf| && head.value == [] && head.length == 0 && !head.multi
    ensures var r, count := Tlv.ReadValue(buf, eob, head, length, multi, c), (head.index2 - head.index1 + 1) % 256;
            if c.failed || c.pos + length > eob then r == Err(EndOfBuffer)
            else if length == 0 then r == Ok((head.(multi := multi), c.pos))
            else if !multi || count == 1 then r == Ok((head.(length := length, value := buf[c.pos..c.pos + length]), c.pos + length))
            else if count == 0 then r == Err(DividesByZero)
            else if length % count != 0 then r == Err(BadTlvLength)
            else r == Ok((head.(length := length / count, value := buf[c.pos..c.pos + length], multi := true), c.pos + length))
  {
  }

  lemma {:induction false} Slices(buf: seq<byte>, p: nat, a: nat, b: nat, c: nat, q: nat)
    requires p + 2 <= a <= b <= c <= q <= |buf|
    ensures buf[p..q] == [buf[p], buf[p + 1]] + buf[p + 2..a] + buf[a..b] + buf[b..c] + buf[c..q]
  {
  }

  /** Where the parts of a TLV may lie, and their flags. */
  ghost predicate Cut(buf: seq<byte>, p: nat, eob: int, flags: Tlv.Flags, q: nat)
  {
    p + 2 <= eob <= |buf| && flags == Tlv.DecodeFlags(buf[p + 1] as int) && PlacesOf(p, flags).value <= q <= eob
  }

  lemma {:induction false} PartsIndices(buf: seq<byte>, p: nat, eob: int, n: u8, flags: Tlv.Flags, q: nat)
    requires Cut(buf, p, eob, flags, q) && !(flags.singleIdx && flags.multiIdx)
    ensures var f := PartsOf(buf, p, flags, q);
            var (i, j) := IndicesAt(buf, p, eob, flags, n);
            && FirstIndex(f) == i && LastIndex(f, n) == j
            && ((n > 0 ==> i < n && j < n) <==> (n > 0 ==> forall x :: x in f.indices ==> x as int < n))
  {
    hide Tlv.DecodeFlags;
    var f, at := PartsOf(buf, p, flags, q), PlacesOf(p, flags);
    if flags.singleIdx {
      assert f.indices == [buf[at.indices]] && f.indices[0] in f.indices;
    } else if flags.multiIdx {
      assert f.indices == [buf[at.indices], buf[at.indices + 1]] && f.indices[0] in f.indices && f.indices[1] in f.indices;
    }
  }

  lemma {:induction false} PartsNumbers(buf: seq<byte>, p: nat, eob: int, flags: Tlv.Flags, q: nat)
    requires Cut(buf, p, eob, flags, q)
    ensures var f := PartsOf(buf, p, flags, q);
            ExtOf(f) == (if flags.typeExt then At(buf, eob, p + 2) else 0) && Number(f.length) == LengthAt(buf, p, eob, flags)
  {
    hide Tlv.DecodeFlags;
    var f, at := PartsOf(buf, p, flags, q), PlacesOf(p, flags);
    if flags.typeExt {
      assert f.ext == [buf[p + 2]];
    }
    if flags.extValue && flags.value {
      assert f.length == [buf[at.length], buf[at.length + 1]];
      NumberTwo(buf[at.length], buf[at.length + 1]);
    } else if flags.value {
      assert f.length == [buf[at.length]];
      NumberOne(buf[at.length]);
    }
  }

  /** How long the parts are, by the bits of the flags. */
  ghost predicate Sized(bits: u8, f: TlvParts)
  {
    && bits / 64 % 2 + bits / 32 % 2 < 2 && bits / 8 % 2 <= bits / 16 % 2
    && |f.ext| == bits / 128 % 2 && |f.indices| == bits / 64 % 2 + 2 * (bits / 32 % 2) && |f.length| == bits / 16 % 2 + bits / 8 % 2
  }

  lemma {:induction false} PartsSizes(buf: seq<byte>, p: nat, eob: int, flags: Tlv.Flags, q: nat)
    requires Cut(buf, p, eob, flags, q) && !(flags.singleIdx && flags.multiIdx) && (flags.extValue ==> flags.value)
    ensures Sized(buf[p + 1] as int, PartsOf(buf, p, flags, q))
  {
  }

  /** The parts cut out are those of a TLV exactly if the indices are right and the value has the length that is read. */
  lemma {:induction false} PartsFormed(buf: seq<byte>, p: nat, eob: int, n: u8, flags: Tlv.Flags, q: nat)
    requires Cut(buf, p, eob, flags, q) && !(flags.singleIdx && flags.multiIdx) && (flags.extValue ==> flags.value)
    ensures var (i, j) := IndicesAt(buf, p, eob, flags, n);
            WellFormed(buf[p..q], n, PartsOf(buf, p, flags, q))
            <==> (n > 0 ==> i < n && j < n) && PlacesOf(p, flags).value + LengthAt(buf, p, eob, flags) == q
  {
    PartsIndices(buf, p, eob, n, flags, q);
    PartsNumbers(buf, p, eob, flags, q);
    PartsSizes(buf, p, eob, flags, q);
    var at := PlacesOf(p, flags);
    Slices(buf, p, at.indices, at.length, at.value, q);
    hide Tlv.DecodeFlags, IndicesAt, LengthAt, At, Number, FirstIndex, LastIndex;
  }

  /** The parts of a TLV are those cut out by its flags. */
  lemma {:induction false} PartsAreCut(buf: seq<byte>, p: nat, eob: int, n: u8, q: nat, f: TlvParts)
    requires p <= q <= eob <= |buf| && WellFormed(buf[p..q], n, f)
    ensures p + 2 <= q
    ensures var flags := Tlv.DecodeFlags(buf[p + 1] as int);
            !(flags.singleIdx && flags.multiIdx) && (flags.extValue ==> flags.value) && Cut(buf, p, eob, flags, q) && f == PartsOf(buf, p, flags, q)
  {
    hide WellFormed, Sized, Tlv.DecodeFlags, PlacesOf;
    var s := buf[p..q];
    WellFormedParts(s, n, f);
    assert s[1] == buf[p + 1];
    FlagsSize(p, buf[p + 1] as int, f);
    var a := 2 + |f.ext|;
    var b := a + |f.indices|;
    var c := b + |f.length|;
    Shifted(buf, p, q, 2, a);
    Shifted(buf, p, q, a, b);
    Shifted(buf, p, q, b, c);
    Shifted(buf, p, q, c, q - p);
  }

  lemma {:induction false} WellFormedParts(s: seq<byte>, n: u8, f: TlvParts)
    requires WellFormed(s, n, f)
    ensures |s| >= 2 && Sized(s[1] as int, f) && |s| == 2 + |f.ext| + |f.indices| + |f.length| + |f.value|
    ensures var a, b, c := 2 + |f.ext|, 2 + |f.ext| + |f.indices|, 2 + |f.ext| + |f.indices| + |f.length|;
            s[2..a] == f.ext && s[a..b] == f.indices && s[b..c] == f.length && s[c..|s|] == f.value
  {
    Unsliced(s, f);
  }

  /** The flags say how long the parts are. */
  lemma {:induction false} FlagsSize(p: nat, bits: u8, f: TlvParts)
    requires Sized(bits, f)
    ensures var flags, at := Tlv.DecodeFlags(bits), PlacesOf(p, Tlv.DecodeFlags(bits));
            && !(flags.singleIdx && flags.multiIdx) && (flags.extValue ==> flags.value)
            && at.indices == p + 2 + |f.ext| && at.length == at.indices + |f.indices| && at.value == at.length + |f.length|
  {
    BitsAreFlags(bits);
    hide Tlv.DecodeFlags;
  }

  lemma {:induction false} Shifted(buf: seq<byte>, p: nat, q: nat, a: nat, b: nat)
    requires p <= q <= |buf| && a <= b <= q - p
    ensures buf[p..q][a..b] == buf[p + a..p + b]
  {
    SliceOfSlice(buf, p, q, a, b - a);
  }

  lemma {:induction false} BitsAreFlags(bits: u8)
    ensures var flags := Tlv.DecodeFlags(bits);
            && (flags.typeExt <==> bits / 128 % 2 == 1) && (flags.singleIdx <==> bits / 64 % 2 == 1) && (flags.multiIdx <==> bits / 32 % 2 == 1)
            && (flags.value <==> bits / 16 % 2 == 1) && (flags.extValue <==> bits / 8 % 2 == 1) && (flags.multiValue <==> bits / 4 % 2 == 1)
  {
  }

  lemma {:induction false} Unsliced(s: seq<byte>, f: TlvParts)
    requires |s| >= 2 && s == [s[0], s[1]] + f.ext + f.indices + f.length + f.value
    ensures var a, b, c := 2 + |f.ext|, 2 + |f.ext| + |f.indices|, 2 + |f.ext| + |f.indices| + |f.length|;
            s[2..a] == f.ext && s[a..b] == f.indices && s[b..c] == f.length && s[c..] == f.value
  {
  }

  /** The fields and the value put together. */
  lemma {:induction false} TlvRead(buf: seq<byte>, p: nat, eob: int, n: u8)
    requires eob <= |buf|
    ensures p + 2 > eob ==> Tlv.ParseTlv(buf, p, eob, n) == Err(EndOfBuffer)
    ensures p + 2 <= eob ==> Tlv.ParseTlv(buf, p, eob, n)
                             == Tlv.ParseRest(buf, eob, n, buf[p] as int, Tlv.DecodeFlags(buf[p + 1] as int), Cursor(p + 2, false))
  {
    if p + 2 <= eob {
      hide Tlv.DecodeFlags, Tlv.ParseRest;
    } else {
      hide Tlv.DecodeFlags;
      BitsAreFlags(0);
    }
  }

  /** Reading a TLV whose fields are right is reading its value. */
  lemma {:induction false} TlvValue(buf: seq<byte>, p: nat, eob: int, n: u8, flags: Tlv.Flags, q: nat)
    requires Cut(buf, p, eob, flags, q) && !(flags.singleIdx && flags.multiIdx) && (flags.extValue ==> flags.value)
    requires WellFormed(buf[p..q], n, PartsOf(buf, p, flags, q))
    ensures var f, at := PartsOf(buf, p, flags, q), PlacesOf(p, flags).value;
            && at + |f.value| == q
            && Tlv.ParseTlv(buf, p, eob, n)
               == Tlv.ReadValue(buf, eob, Tlv.Entry(buf[p] as int, ExtOf(f), FirstIndex(f), LastIndex(f, n), 0, [], false), |f.value|,
                                flags.multiValue, Cursor(at, false))
  {
    TlvRead(buf, p, eob, n);
    PartsFormed(buf, p, eob, n, flags, q);
    PartsIndices(buf, p, eob, n, flags, q);
    PartsNumbers(buf, p, eob, flags, q);
    hide Tlv.DecodeFlags, Tlv.ParseTlv, Tlv.ParseRest, Tlv.ReadValue, IndicesAt, LengthAt, At, Number, FirstIndex, LastIndex, WellFormed;
    var c := RestRead(buf, p, eob, n, buf[p] as int, flags);
  }

  lemma {:induction false} ValueStored(buf: seq<byte>, eob: int, head: Tlv.Entry, q: nat, multi: bool, at: nat, e: Tlv.Entry)
    requires at <= q <= eob <= |buf| && head.value == [] && head.length == 0 && !head.multi
    ensures Tlv.ReadValue(buf, eob, head, q - at, multi, Cursor(at, false)) == Ok((e, q))
       <==> && (e.typ, e.ext, e.index1, e.index2) == (head.typ, head.ext, head.index1, head.index2)
            && StoresValue(buf[at..q], multi, (head.index2 - head.index1 + 1) % 256, e)
  {
    ValueRead(buf, eob, head, q - at, multi, Cursor(at, false));
    SharesOnce(q - at, (head.index2 - head.index1 + 1) % 256, e.length);
    hide Tlv.ReadValue;
  }

  /** A TLV whose fields are right is stored as its parts say. */
  lemma {:induction false} TlvStored(buf: seq<byte>, p: nat, eob: int, n: u8, flags: Tlv.Flags, q: nat, e: Tlv.Entry)
    requires Cut(buf, p, eob, flags, q) && !(flags.singleIdx && flags.multiIdx) && (flags.extValue ==> flags.value)
    requires WellFormed(buf[p..q], n, PartsOf(buf, p, flags, q))
    ensures Tlv.ParseTlv(buf, p, eob, n) == Ok((e, q)) <==> Stores(buf[p..q], n, PartsOf(buf, p, flags, q), e)
  {
    var f, at := PartsOf(buf, p, flags, q), PlacesOf(p, flags).value;
    TlvValue(buf, p, eob, n, flags, q);
    BitsAreFlags(buf[p + 1] as int);
    assert f.value == buf[at..q] && buf[p..q][1] == buf[p + 1] && buf[p..q][0] == buf[p];
    hide Tlv.DecodeFlags, Tlv.ParseTlv, Tlv.ReadValue, PlacesOf, PartsOf, ExtOf, Number, FirstIndex, LastIndex, WellFormed, StoresValue;
    ValueStored(buf, eob, Tlv.Entry(buf[p] as int, ExtOf(f), FirstIndex(f), LastIndex(f, n), 0, [], false), q, flags.multiValue, at, e);
  }

  /** A number of bytes that can be shared is shared in one way. */
  lemma {:induction false} SharesOnce(total: nat, count: nat, each: nat)
    ensures count > 0 ==> (each * count == total <==> total % count == 0 && total / count == each)
  {
    if count > 0 {
      Tlv.Multiple(each, count);
    }
  }

  /** A TLV is read from any bytes exactly if a TLV is there, and what is stored is what it means. */
  lemma {:induction false} ParsesIffMeans(buf: seq<byte>, p: nat, eob: int, n: u8, e: Tlv.Entry, q: nat)
    requires eob <= |buf|
    ensures Tlv.ParseTlv(buf, p, eob, n) == Ok((e, q)) <==> p <= q <= eob && Means(buf[p..q], n, e)
  {
    if p + 2 <= eob {
      var flags := Tlv.DecodeFlags(buf[p + 1] as int);
      if Tlv.ParseTlv(buf, p, eob, n) == Ok((e, q)) {
        ParsedIsCut(buf, p, eob, n, e, q);
        TlvStored(buf, p, eob, n, flags, q, e);
        assert Stores(buf[p..q], n, PartsOf(buf, p, flags, q), e);
      } else if p <= q <= eob && Means(buf[p..q], n, e) {
        var f :| WellFormed(buf[p..q], n, f) && Stores(buf[p..q], n, f, e);
        PartsAreCut(buf, p, eob, n, q, f);
        TlvStored(buf, p, eob, n, flags, q, e);
        assert false;
      }
    } else {
      TlvRead(buf, p, eob, n);
    }
  }

  lemma {:induction false} ParsedIsCut(buf: seq<byte>, p: nat, eob: int, n: u8, e: Tlv.Entry, q: nat)
    requires p + 2 <= eob <= |buf| && Tlv.ParseTlv(buf, p, eob, n) == Ok((e, q))
    ensures var flags := Tlv.DecodeFlags(buf[p + 1] as int);
            && !(flags.singleIdx && flags.multiIdx) && (flags.extValue ==> flags.value) && Cut(buf, p, eob, flags, q)
            && WellFormed(buf[p..q], n, PartsOf(buf, p, flags, q))
  {
    var flags := Tlv.DecodeFlags(buf[p + 1] as int);
    TlvRead(buf, p, eob, n);
    var c := RestRead(buf, p, eob, n, buf[p] as int, flags);
    var (i, j) := IndicesAt(buf, p, eob, flags, n);
    var head := Tlv.Entry(buf[p] as int, if flags.typeExt then At(buf, eob, p + 2) else 0, i, j, 0, [], false);
    hide Tlv.DecodeFlags, Tlv.ParseTlv, Tlv.ParseRest, Tlv.ReadValue, IndicesAt, LengthAt, At, Number, FirstIndex, LastIndex, WellFormed, PartsOf;
    ValueRead(buf, eob, head, LengthAt(buf, p, eob, flags), flags.multiValue, c);
    PartsFormed(buf, p, eob, n, flags, q);
  }

  /** Why bytes are refused: both kinds of index, an index outside the block, a long length without a value, too few bytes, or a
      value that its addresses cannot share; the first of these counts. */
  lemma {:induction false} TlvErrors(buf: seq<byte>, p: nat, eob: int, n: u8)
    requires p + 2 <= eob <= |buf|
    ensures var bits, r := buf[p + 1] as int, Tlv.ParseTlv(buf, p, eob, n);
            var flags := Tlv.DecodeFlags(bits);
            var (i, j) := IndicesAt(buf, p, eob, flags, n);
            var length, count := LengthAt(buf, p, eob, flags), (j - i + 1) % 256;
            && (r == Err(BadTlvIdxFlags) <==> bits / 64 % 2 == 1 && bits / 32 % 2 == 1)
            && (r == Err(BadTlvIndex) <==> bits / 64 % 2 + bits / 32 % 2 < 2 && n > 0 && (i >= n || j >= n))
            && (r == Err(BadTlvValueFlags)
                <==> bits / 64 % 2 + bits / 32 % 2 < 2 && (n > 0 ==> i < n && j < n) && bits / 16 % 2 == 0 && bits / 8 % 2 == 1)
            && (r == Err(EndOfBuffer) <==> bits / 64 % 2 + bits / 32 % 2 < 2 && (n > 0 ==> i < n && j < n) && bits / 8 % 2 <= bits / 16 % 2
                                           && PlacesOf(p, flags).value + length > eob)
            && (r == Err(DividesByZero) ==> length > 0 && bits / 4 % 2 == 1 && count == 0)
            && (r == Err(BadTlvLength) ==> length > 0 && bits / 4 % 2 == 1 && count > 0 && length % count != 0)
            && (r.Err? ==> r.error in {BadTlvIdxFlags, BadTlvIndex, BadTlvValueFlags, EndOfBuffer, DividesByZero, BadTlvLength})
  {
    var flags := Tlv.DecodeFlags(buf[p + 1] as int);
    TlvRead(buf, p, eob, n);
    BitsAreFlags(buf[p + 1] as int);
    var c := RestRead(buf, p, eob, n, buf[p] as int, flags);
    var (i, j) := IndicesAt(buf, p, eob, flags, n);
    var head := Tlv.Entry(buf[p] as int, if flags.typeExt then At(buf, eob, p + 2) else 0, i, j, 0, [], false);
    hide Tlv.DecodeFlags, Tlv.ParseTlv, Tlv.ParseRest, Tlv.ReadValue, IndicesAt, LengthAt, At, PlacesOf;
    ValueRead(buf, eob, head, LengthAt(buf, p, eob, flags), flags.multiValue, c);
  }
}
