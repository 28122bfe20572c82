/** What the compression session thinks an address section takes, and what it takes when it is written. */
module SectionSizes {
  import opened Wire
  import opened Seqs
  import opened Tlv
  import opened AddressTlvs
  import opened Duplicates
  import opened AddressBlocks
  import opened AddressSection
  import opened Compression
  import opened Estimates

  // ---------- what a block takes ----------

  /** The bytes of an address block. */
  lemma {:induction false} AddrBlockTakes(addrs: seq<Address>, len: nat, head: nat, multi: bool)
    requires |addrs| > 0 && SameLength(addrs, len) && head < len
    ensures var f, n := FormOf(addrs, len, head, multi), |addrs|;
            |EncodeAddrBlock(addrs, len, head, multi)|
            == 2 + (if f.head > 0 then 1 + f.head else 0) + (if f.tail > 0 then 1 + if f.zero then 0 else f.tail else 0)
               + (len - f.head - f.tail) * n + (if multi then n else if addrs[0].plen != len * 8 then 1 else 0)
  {
    hide AddressBlocks.EncodeFlags, FormFlags, TailLen, AllZero;
    var f := FormOf(addrs, len, head, multi);
    FlattenLength(Mids(addrs, len, f.head, f.tail), len - f.head - f.tail);
    FlattenFive([B(|addrs|), B(AddressBlocks.EncodeFlags(FormFlags(f)))], HeadPart(addrs[0].bytes, f.head),
                TailPart(addrs[0].bytes, f.tail, f.zero), Flatten(Mids(addrs, len, f.head, f.tail)), PlenPart(addrs, f));
  }

  /** A tail saves what it takes. */
  lemma {:induction false} TailPays(len: nat, h: nat, t: nat, n: nat)
    requires h + t < len && n > 1
    ensures (len - h - t) * n == (n - 1) * (len - h) + (len - h) - t * n && t * n >= 2 * t
  {
    assert (len - h - t) * n == (len - h) * n - t * n;
    assert (len - h) * n == (n - 1) * (len - h) + (len - h);
    assert t * n == t * 2 + t * (n - 2);
    NoLess(t, n - 2);
  }

  /** What the prefix lengths of a block take beyond what the session thinks. */
  function PlenError(items: seq<Item>, p: nat, n: nat, len: nat): int
    requires p < n <= |items|
  {
    (if Mixed(items, p, n) then n - p else PlenFirst(items, p, len)) - PlenFirst(items, p, len) - PlenMore(items, p, n)
  }

  /** It is nothing for one prefix length, and otherwise twice the addresses before the first change but the byte there was. */
  lemma {:induction false} PlenErrorIs(items: seq<Item>, p: nat, n: nat, len: nat)
    requires p < n <= |items|
    ensures !Mixed(items, p, n) ==> PlenError(items, p, n, len) == 0
    ensures forall q :: p < q < n && PlenAt(items, q) != PlenAt(items, q - 1) && !Mixed(items, p, q)
                        ==> PlenError(items, p, n, len) == 2 * (q - p) - PlenFirst(items, p, len)
    decreases n
  {
    if n > p + 1 {
      MixedGrows(items, p, n - 1);
      PlenErrorIs(items, p, n - 1, len);
      forall q | p < q < n && PlenAt(items, q) != PlenAt(items, q - 1) && !Mixed(items, p, q)
        ensures PlenError(items, p, n, len) == 2 * (q - p) - PlenFirst(items, p, len)
      {
        if q < n - 1 {
          assert Mixed(items, p, n - 1);
        }
      }
    }
  }

  // ---------- blocks and sections ----------

  function IndicesSaved(runs: seq<Run>, n: nat): nat
    requires Valued(runs)
  {
    if runs == [] then 0 else IndexSaved(runs[0], n) + IndicesSaved(runs[1..], n)
  }

  lemma {:induction false} RunsTakeAll(runs: seq<Run>, n: nat)
    requires Valued(runs) && forall r :: r in runs ==> OneLength(r) && |r.Payload()| < 65536
    ensures |EncodeRuns(runs, n)| == RunsCost(runs) + Stretches(runs) - IndicesSaved(runs, n)
  {
    hide EncodeRun, RunCost, Stretch, OneLength, IndexSaved, Run.Payload;
    if runs != [] {
      RunTakes(runs[0], n);
      RunsTakeAll(runs[1..], n);
    }
  }

  lemma {:induction false} RunsCostJoin(a: seq<Run>, b: seq<Run>)
    requires Valued(a) && Valued(b)
    ensures Valued(a + b) && RunsCost(a + b) == RunsCost(a) + RunsCost(b)
  {
    hide RunCost;
    if a == [] {
      assert a + b == b;
    } else {
      assert (a + b)[1..] == a[1..] + b;
      RunsCostJoin(a[1..], b);
    }
  }

  /** The TLVs of the addresses `p` to `n - 1` as a block of their own. */
  function TlvsIn(items: seq<Item>, p: nat, n: nat): (r: Block)
    requires p <= n <= |items|
    ensures |r| == n - p
  {
    TlvsOf(items[p..n])
  }

  /** The runs of a block cost what is estimated, and their values are of one length each. */
  lemma {:induction false} BlockRuns(items: seq<Item>, p: nat, n: nat)
    requires p <= n <= |items|
    ensures var runs := RunsOf(TlvsIn(items, p, n)); RunsCost(runs) == TlvEstimate(items, p, n) && forall r :: r in runs ==> OneLength(r)
  {
    FormedValued(items, p, n);
    var block, st := TlvsIn(items, p, n), Formed(items, p, n);
    AbsorbAllIsSound(block, n - p);
    RunsCostJoin(st.emitted, st.active);
    hide AbsorbAll, RunsCost, Run.Length;
    forall r | r in RunsOf(block)
      ensures OneLength(r)
    {
      assert AddressTlvs.Sound(r, block);
    }
  }

  lemma {:induction false} OneLengthFits(runs: seq<Run>, n: nat, r: Run)
    requires Valued(runs) && r in runs && OneLength(r)
    ensures |r.Payload()| <= |EncodeRuns(runs, n)|
  {
    hide EncodeRuns, Run.Payload;
    RunFitsEncoding(runs, n, r);
  }

  /** The TLVs of a block take no more than estimated, but for stretched size fields; they take exactly that when indices left
      out are counted too. */
  lemma {:induction false} TlvBlockTakes(items: seq<Item>, p: nat, n: nat)
    requires p <= n <= |items|
    ensures var block := TlvsIn(items, p, n);
            && |EncodeTlvBlock(block)| <= 2 + TlvEstimate(items, p, n) + Stretches(RunsOf(block))
            && (Fits(block) ==> |EncodeTlvBlock(block)| == 2 + TlvEstimate(items, p, n) + Stretches(RunsOf(block)) - IndicesSaved(RunsOf(block), n - p))
  {
    BlockRuns(items, p, n);
    hide RunsOf, TlvEstimate, RunsCost, Stretches, OneLength, EncodeRuns, Run.Payload, IndicesSaved, TlvsIn;
    var block := TlvsIn(items, p, n);
    RunsTake(RunsOf(block), n - p);
    if Fits(block) {
      forall r | r in RunsOf(block)
        ensures |r.Payload()| < 65536
      {
        OneLengthFits(RunsOf(block), n - p, r);
      }
      RunsTakeAll(RunsOf(block), n - p);
    }
  }

  /** What the common tail saves, of which a zero tail has only its length written, and a head that a single address does not have. */
  function AddrSaved(addrs: seq<Address>, len: nat, head: nat): int
    requires |addrs| > 0 && SameLength(addrs, len) && head < len
  {
    if |addrs| == 1 then if head > 0 then 1 else 0
    else
      var t := TailLen(addrs, |addrs|, len, len - head - 1);
      t * |addrs| - if t == 0 then 0 else if AllZero(addrs[0].bytes[len - t..]) then 1 else 1 + t
  }

  lemma {:induction false} FormIs(addrs: seq<Address>, len: nat, head: nat, multi: bool)
    requires |addrs| > 0 && SameLength(addrs, len) && head < len
    ensures var f := FormOf(addrs, len, head, multi);
            if |addrs| == 1 then f.head == 0 && f.tail == 0
            else f.head == head && f.tail == TailLen(addrs, |addrs|, len, len - head - 1) && head + f.tail < len
                 && (f.zero <==> f.tail > 0 && AllZero(addrs[0].bytes[len - f.tail..]))
  {
    hide AllZero, SameLength;
  }

  /** Nothing is lost by it. */
  lemma {:induction false} AddrBlockTakesAll(addrs: seq<Address>, len: nat, head: nat, multi: bool)
    requires |addrs| > 0 && SameLength(addrs, len) && head < len
    ensures AddrSaved(addrs, len, head) >= 0
    ensures |EncodeAddrBlock(addrs, len, head, multi)|
         == 2 + (if head > 0 then 1 else 0) + len + (|addrs| - 1) * (len - head)
            + (if multi then |addrs| else if addrs[0].plen != len * 8 then 1 else 0) - AddrSaved(addrs, len, head)
  {
    AddrBlockTakes(addrs, len, head, multi);
    FormIs(addrs, len, head, multi);
    hide EncodeAddrBlock, FormOf, SameLength, TailLen, AllZero;
    if |addrs| > 1 {
      TailPays(len, head, FormOf(addrs, len, head, multi).tail, |addrs|);
    }
  }

  /** What a block takes beyond what the session thinks. */
  function Excess(items: seq<Item>, len: nat, c: Chunk): int
    requires c.first <= c.last < |items|
  {
    PlenError(items, c.first, c.last + 1, len) + Stretches(RunsOf(TlvsIn(items, c.first, c.last + 1)))
  }

  function ChunkAddrs(items: seq<Item>, len: nat, c: Chunk): (r: seq<Address>)
    requires Together(items, c.first, c.last + 1, len, c.head, c.multi)
    ensures |r| > 0 && SameLength(r, len) && c.head < len
  {
    ChunkIsJoined(items, c, len);
    AddrsOf(items[c.first..c.last + 1])
  }

  /** What a block does without of what the session thinks. */
  function Saved(items: seq<Item>, len: nat, c: Chunk): int
    requires Together(items, c.first, c.last + 1, len, c.head, c.multi)
  {
    AddrSaved(ChunkAddrs(items, len, c), len, c.head) + IndicesSaved(RunsOf(TlvsIn(items, c.first, c.last + 1)), c.last + 1 - c.first)
  }

  function Estimate(items: seq<Item>, len: nat, c: Chunk): int
    requires c.first <= c.last < |items|
  {
    BlockEstimate(items, c.first, c.last + 1, len, c.head)
  }

  /** The addresses of a block take what the session thinks and the error of the prefix lengths, less what is saved. */
  lemma {:induction false} ChunkAddrsTake(items: seq<Item>, len: nat, c: Chunk)
    requires Together(items, c.first, c.last + 1, len, c.head, c.multi) && (c.multi <==> Mixed(items, c.first, c.last + 1))
    ensures var addrs := ChunkAddrs(items, len, c);
            && AddrSaved(addrs, len, c.head) >= 0
            && |EncodeAddrBlock(addrs, len, c.head, c.multi)| + 2 + TlvEstimate(items, c.first, c.last + 1)
               == Estimate(items, len, c) + PlenError(items, c.first, c.last + 1, len) - AddrSaved(addrs, len, c.head)
  {
    hide EncodeAddrBlock, AddrSaved, TlvEstimate, PlenMore, Mixed;
    var addrs := ChunkAddrs(items, len, c);
    assert |addrs| == c.last + 1 - c.first && addrs[0] == items[c.first].addr;
    hide ChunkAddrs;
    AddrBlockTakesAll(addrs, len, c.head, c.multi);
  }

  /** A block is its addresses and its TLVs. */
  lemma {:induction false} ChunkParts(items: seq<Item>, len: nat, c: Chunk)
    requires Together(items, c.first, c.last + 1, len, c.head, c.multi)
    ensures |EncodeChunk(items, len, c)|
         == |EncodeAddrBlock(ChunkAddrs(items, len, c), len, c.head, c.multi)| + |EncodeTlvBlock(TlvsIn(items, c.first, c.last + 1))|
  {
    hide EncodeAddrBlock, EncodeTlvBlock, AddrsOf, TlvsOf, Together, Joined, SameLength;
    ChunkIsJoined(items, c, len);
  }

  /** A block takes what the session thinks and the excess, less what is saved. */
  lemma {:induction false} ChunkTakes(items: seq<Item>, len: nat, c: Chunk)
    requires Together(items, c.first, c.last + 1, len, c.head, c.multi) && (c.multi <==> Mixed(items, c.first, c.last + 1))
    ensures |EncodeChunk(items, len, c)| <= Estimate(items, len, c) + Excess(items, len, c)
    ensures Fits(TlvsIn(items, c.first, c.last + 1)) ==> |EncodeChunk(items, len, c)| == Estimate(items, len, c) + Excess(items, len, c) - Saved(items, len, c)
  {
    hide EncodeAddrBlock, EncodeTlvBlock, EncodeChunk, AddrSaved, ChunkAddrs, TlvEstimate, PlenError, Stretches, IndicesSaved, RunsOf, Fits, Estimate;
    assert c.first <= c.last < |items|;
    hide Together, SameLength, TlvsIn, Mixed;
    ChunkParts(items, len, c);
    ChunkAddrsTake(items, len, c);
    TlvBlockTakes(items, c.first, c.last + 1);
  }

  // ---------- sections ----------

  function EstimateSum(items: seq<Item>, len: nat, chunks: seq<Chunk>): int
    requires Inside(items, chunks)
  {
    if chunks == [] then 0 else Estimate(items, len, chunks[0]) + EstimateSum(items, len, chunks[1..])
  }

  function ExcessSum(items: seq<Item>, len: nat, chunks: seq<Chunk>): int
    requires Inside(items, chunks)
  {
    if chunks == [] then 0 else Excess(items, len, chunks[0]) + ExcessSum(items, len, chunks[1..])
  }

  function SavedSum(items: seq<Item>, len: nat, chunks: seq<Chunk>): int
    requires AllTogether(items, chunks, len)
  {
    if chunks == [] then 0 else Saved(items, len, chunks[0]) + SavedSum(items, len, chunks[1..])
  }

  /** The form of each block says whether its prefix lengths differ. */
  ghost predicate AllMarked(items: seq<Item>, chunks: seq<Chunk>)
  {
    forall c :: c in chunks ==> c.first <= c.last < |items| && (c.multi <==> Mixed(items, c.first, c.last + 1))
  }

  ghost predicate AllFit(items: seq<Item>, chunks: seq<Chunk>)
    requires Inside(items, chunks)
  {
    forall c :: c in chunks ==> Fits(TlvsIn(items, c.first, c.last + 1))
  }

  lemma {:induction false} SectionTakes(items: seq<Item>, len: nat, chunks: seq<Chunk>)
    requires AllTogether(items, chunks, len) && AllMarked(items, chunks) && Inside(items, chunks)
    ensures |EncodeSection(items, len, chunks)| <= EstimateSum(items, len, chunks) + ExcessSum(items, len, chunks)
    ensures AllFit(items, chunks) ==> |EncodeSection(items, len, chunks)|
                                      == EstimateSum(items, len, chunks) + ExcessSum(items, len, chunks) - SavedSum(items, len, chunks)
  {
    hide EncodeChunk, Estimate, Excess, Saved, Together, Mixed, Fits, TlvsIn;
    if chunks != [] {
      assert chunks[0] in chunks;
      ChunkTakes(items, len, chunks[0]);
      SectionTakes(items, len, chunks[1..]);
    }
  }

  lemma {:induction false} EstimateAppend(items: seq<Item>, len: nat, chunks: seq<Chunk>, c: Chunk)
    requires Inside(items, chunks) && c.first <= c.last < |items|
    ensures Inside(items, chunks + [c]) && EstimateSum(items, len, chunks + [c]) == EstimateSum(items, len, chunks) + Estimate(items, len, c)
  {
    hide Estimate;
    if chunks == [] {
      assert [c][1..] == [] && chunks + [c] == [c];
    } else {
      assert (chunks + [c])[1..] == chunks[1..] + [c];
      EstimateAppend(items, len, chunks[1..], c);
    }
  }

  /** The walk back finds the blocks that were thought of. */
  lemma {:induction false} WalkEstimates(items: seq<Item>, len: nat, marks: map<nat, Mark>, k: nat)
    requires Linked(marks, k) && k < |items| && forall j :: j in marks ==> MarkFits(items, marks[j], j)
    ensures var chunks := Walk(marks, k);
            Inside(items, chunks) && EstimateSum(items, len, chunks) == WalkCost(items, len, marks, k) && AllMarked(items, chunks)
    decreases k
  {
    hide BlockEstimate, Mixed;
    var m := marks[k];
    var c := Chunk(m.start, k, m.head, m.multi);
    assert MarkFits(items, m, k);
    if m.start == 0 {
      EstimateAppend(items, len, [], c);
    } else {
      WalkEstimates(items, len, marks, m.start - 1);
      EstimateAppend(items, len, Walk(marks, m.start - 1), c);
    }
  }

  /** What the session thinks the blocks of the list take. */
  function ListEstimate(items: seq<Item>, len: nat): int
    requires Sendable(items, len)
  {
    TogetherIsInside(items, Blocks(items, len), len);
    EstimateSum(items, len, Blocks(items, len))
  }

  /** What they take beyond it: errors of the prefix lengths and stretched size fields. */
  function ListExcess(items: seq<Item>, len: nat): int
    requires Sendable(items, len)
  {
    TogetherIsInside(items, Blocks(items, len), len);
    ExcessSum(items, len, Blocks(items, len))
  }

  /** What they do without of it: common tails and indices. */
  function ListSaved(items: seq<Item>, len: nat): int
    requires Sendable(items, len)
  {
    SavedSum(items, len, Blocks(items, len))
  }

  /** The blocks that are remembered in the end are thought to take the least total of a candidate. */
  lemma {:induction false} FinalInAccount(items: seq<Item>, len: nat)
    requires Sendable(items, len) && items != [] && AllUnique(items)
    ensures var marks, slots, last: nat := Final(items, len).marks, AfterList(items, |items|, len).slots, |items| - 1;
            && Linked(marks, last) && (forall k :: k in marks ==> MarkFits(items, marks[k], k))
            && (forall j :: 0 <= j < len ==> WalkCost(items, len, marks, last) <= slots[j].total)
            && exists j :: 0 <= j < len && slots[j].total == WalkCost(items, len, marks, last)
  {
    hide Sendable, AfterList, AfterAddress, AllUnique, Final, Costed, Tracks, Tracking, Linked, MarkFits, WalkCost, Compression.Closed, CostBefore;
    var n, st := |items|, AfterList(items, |items|, len);
    ListInAccount(items, n, len);
    ListEnd(items, len);
    ClosedInAccount(items, len, n, st, 0);
    ClosedShape(st, n - 1, 0);
  }

  lemma {:induction false} ListEstimateIs(items: seq<Item>, len: nat)
    requires Sendable(items, len) && items != [] && AllUnique(items)
    ensures var marks, last: nat := Final(items, len).marks, |items| - 1;
            && Linked(marks, last) && ListEstimate(items, len) == WalkCost(items, len, marks, last)
            && Inside(items, Blocks(items, len)) && AllMarked(items, Blocks(items, len))
  {
    hide Sendable, AllUnique, Final, Linked, MarkFits, WalkCost, AllMarked, Inside, AllTogether, Blocks, Walk, EstimateSum, AfterList;
    FinalInAccount(items, len);
    TogetherIsInside(items, Blocks(items, len), len);
    BlocksWalk(items, len);
    WalkEstimates(items, len, Final(items, len).marks, |items| - 1);
  }

  /** The blocks are thought to take no more than there is if the last address is kept in the fragment; for at most 255
      addresses, exactly then. */
  lemma {:induction false} FitsIfEstimated(items: seq<Item>, len: nat, max: int)
    requires Sendable(items, len) && items != [] && AllUnique(items)
    ensures FitsAt(items, |items| - 1, len, max) ==> ListEstimate(items, len) <= max
    ensures |items| <= 255 ==> (FitsAt(items, |items| - 1, len, max) <==> ListEstimate(items, len) <= max)
  {
    FinalInAccount(items, len);
    hide Sendable, AfterList, AfterAddress, AllUnique, Final, Linked, MarkFits, WalkCost, Inside, Blocks, AllMarked, ListEstimate;
    ListEstimateIs(items, len);
    ListStep(items, |items| - 1, len);
    var n, slots := |items|, AfterAddress(items, |items| - 1, len, AfterList(items, |items| - 1, len)).slots;
    var counted := AfterList(items, n, len).slots;
    assert forall j :: 0 <= j < len ==> counted[j].total == slots[j].total + slots[j].current;
  }

  /** Every list that is kept in one fragment takes no more than there is and its excess. */
  lemma {:induction false} SectionWithin(items: seq<Item>, len: nat, max: int)
    requires Sendable(items, len) && items != [] && AllUnique(items) && FitsAt(items, |items| - 1, len, max)
    ensures |EncodeSection(items, len, Blocks(items, len))| <= max + ListExcess(items, len)
  {
    hide Sendable, AllUnique, FitsAt, Blocks, Inside, AllMarked, AllTogether, Linked, Final, WalkCost, EncodeSection, EstimateSum, ExcessSum, SavedSum, AllFit;
    FitsIfEstimated(items, len, max);
    ListEstimateIs(items, len);
    SectionTakes(items, len, Blocks(items, len));
  }

  /** A list of at most 255 addresses takes no more than there is, wherever it is kept in one fragment, if and only if its
      blocks save what they exceed. */
  lemma {:induction false} WithinIff(items: seq<Item>, len: nat)
    requires Sendable(items, len) && 0 < |items| <= 255 && AllUnique(items)
    requires Inside(items, Blocks(items, len)) && AllFit(items, Blocks(items, len))
    ensures var last: nat := |items| - 1;
            (forall max: int :: FitsAt(items, last, len, max) ==> |EncodeSection(items, len, Blocks(items, len))| <= max)
            <==> ListExcess(items, len) <= ListSaved(items, len)
  {
    hide Sendable, AllUnique, FitsAt, Blocks, Inside, AllMarked, AllTogether, Linked, Final, WalkCost, EncodeSection, EstimateSum, ExcessSum, SavedSum, AllFit;
    ListEstimateIs(items, len);
    SectionTakes(items, len, Blocks(items, len));
    var last: nat := |items| - 1;
    FitsIfEstimated(items, len, ListEstimate(items, len));
    assert FitsAt(items, last, len, ListEstimate(items, len));
    forall max: int | FitsAt(items, last, len, max)
      ensures ListEstimate(items, len) <= max
    {
      FitsIfEstimated(items, len, max);
    }
  }

  /** All addresses have one prefix length. */
  ghost predicate OnePlen(items: seq<Item>)
  {
    forall k :: 0 < k < |items| ==> PlenAt(items, k) == PlenAt(items, k - 1)
  }

  /** No values are so short and so many that together they need a long size field. */
  ghost predicate Unstretched(items: seq<Item>)
  {
    forall k, tlv :: 0 <= k < |items| && tlv in items[k].tlvs ==> |tlv.value| == 0 || |tlv.value| > 255 || |tlv.value| * |items| <= 255
  }

  lemma {:induction false} MoreOf(l: nat, a: nat, b: nat)
    requires a <= b
    ensures l * a <= l * b
  {
    assert l * b == l * a + l * (b - a);
    NoLess(l, b - a);
  }

  lemma {:induction false} NoStretches(runs: seq<Run>)
    requires Valued(runs) && forall r :: r in runs ==> Stretch(r) == 0
    ensures Stretches(runs) == 0
  {
    hide Stretch;
    if runs != [] {
      NoStretches(runs[1..]);
    }
  }

  lemma {:induction false} UnstretchedBlock(items: seq<Item>, p: nat, n: nat)
    requires p < n <= |items| && (Unstretched(items) || n == p + 1)
    ensures Stretches(RunsOf(TlvsIn(items, p, n))) == 0
  {
    var block := TlvsIn(items, p, n);
    AbsorbAllIsSound(block, n - p);
    assert AllSound(RunsOf(block), block);
    hide RunsOf;
    forall r | r in RunsOf(block)
      ensures Stretch(r) == 0
    {
      assert AddressTlvs.Sound(r, block);
      UnstretchedRun(items, p, n, r);
    }
    NoStretches(RunsOf(block));
  }

  lemma {:induction false} UnstretchedRun(items: seq<Item>, p: nat, n: nat, r: Run)
    requires p < n <= |items| && (Unstretched(items) || n == p + 1) && AddressTlvs.Sound(r, TlvsIn(items, p, n))
    ensures Stretch(r) == 0
  {
    var tlv := AddrTlv(r.typ, r.ext, r.values[0]);
    assert TlvsIn(items, p, n)[r.first + 0] == items[p + r.first].tlvs;
    MoreOf(r.Length(), |r.values|, n - p);
    MoreOf(r.Length(), n - p, |items|);
  }

  lemma {:induction false} OnePlenBlock(items: seq<Item>, p: nat, n: nat)
    requires p < n <= |items| && OnePlen(items)
    ensures !Mixed(items, p, n)
  {
  }

  lemma {:induction false} NoExcess(items: seq<Item>, len: nat, chunks: seq<Chunk>)
    requires Inside(items, chunks) && OnePlen(items) && Unstretched(items)
    ensures ExcessSum(items, len, chunks) == 0
  {
    hide Mixed, OnePlen, Unstretched, PlenError, Stretches, RunsOf, TlvsIn;
    if chunks != [] {
      var c := chunks[0];
      OnePlenBlock(items, c.first, c.last + 1);
      PlenErrorIs(items, c.first, c.last + 1, len);
      UnstretchedBlock(items, c.first, c.last + 1);
      NoExcess(items, len, chunks[1..]);
    }
  }

  /** A list of one prefix length without stretched values takes no more than there is wherever it is kept in one fragment. */
  lemma {:induction false} PlainListFits(items: seq<Item>, len: nat, max: int)
    requires Sendable(items, len) && AllUnique(items) && OnePlen(items) && Unstretched(items)
    requires forall k :: 0 <= k < |items| ==> FitsAt(items, k, len, max)
    ensures items != [] ==> |EncodeSection(items, len, Blocks(items, len))| <= max
  {
    hide Sendable, AllUnique, OnePlen, Unstretched, FitsAt, Blocks, EncodeSection, ExcessSum, Inside, AllTogether;
    if items != [] {
      SectionWithin(items, len, max);
      TogetherIsInside(items, Blocks(items, len), len);
      NoExcess(items, len, Blocks(items, len));
    }
  }

  /** A block of one address takes no more than the session thinks. */
  lemma {:induction false} OneAddressTakes(items: seq<Item>, k: nat, len: nat, head: nat)
    requires k < |items| && AllUnique(items) && Together(items, k, k + 1, len, head, false)
    ensures |EncodeChunk(items, len, Chunk(k, k, head, false))| <= NewCost(items[k], len, head)
  {
    hide AllUnique, Together, Mixed, BlockEstimate, PlenError, EncodeChunk, NewCost;
    var c := Chunk(k, k, head, false);
    NewBlock(items, k, len, head, map[]);
    ChunkTakes(items, len, c);
    PlenErrorIs(items, k, k + 1, len);
    UnstretchedBlock(items, k, k + 1);
  }

  // ---------- where more is taken than there is ----------

  lemma {:induction false} OneByteDiffers(a: seq<byte>, b: seq<byte>)
    requires |a| == |b| == 1
    ensures a == b <==> a[0] == b[0]
  {
    assert a == [a[0]] && b == [b[0]];
  }

  lemma {:induction false} TakeInOne(items: seq<Item>, k: nat, st: State)
    requires k < |items| && |st.slots| == 1
    ensures var slot, r := st.slots[0], TakeIn(items, k, 1, 0, st, 1);
            && r.slots == [NextSlot(items, k, 1, 0, 0, st.same, slot, slot.total, st.runs)] && r.same == st.same
            && r.runs == RunsAfter(items, k, 0, StartsBlock(items, k, 1, 0, 0, st.same, slot, slot.total, st.runs), st.runs, |items[k].tlvs|)
  {
    hide NextSlot, StartsBlock, RunsAfter;
    assert TakeIn(items, k, 1, 0, st, 0) == st;
  }

  /** The session of one-byte addresses has one candidate. */
  lemma {:induction false} OneByteStep(items: seq<Item>, k: nat, st: State)
    requires Sendable(items, 1) && k < |items| && |st.slots| == 1 && (k == 0 ==> st == Initial(1))
    ensures var same := if k == 0 || items[k - 1].addr.plen == items[k].addr.plen then st.same + (if k == 0 then 0 else 1) else 1;
            var slot, r := st.slots[0], AfterAddress(items, k, 1, st);
            && r.slots == [NextSlot(items, k, 1, 0, 0, same, slot, slot.total, st.runs)] && r.same == same
            && r.runs == RunsAfter(items, k, 0, StartsBlock(items, k, 1, 0, 0, same, slot, slot.total, st.runs), st.runs, |items[k].tlvs|)
  {
    hide NextSlot, StartsBlock, RunsAfter;
    if k > 0 {
      OneByteDiffers(items[k - 1].addr.bytes, items[k].addr.bytes);
      assert HeadFrom(items[k - 1].addr.bytes, items[k].addr.bytes, 0) == 0;
      var renewed := st.(same := if items[k - 1].addr.plen == items[k].addr.plen then st.same + 1 else 1);
      var closed := Compression.Closed(renewed, k - 1, 0);
      assert closed.slots == st.slots && closed.same == renewed.same && closed.runs == st.runs;
      assert AfterAddress(items, k, 1, st) == TakeIn(items, k, 1, 0, closed, 1);
      TakeInOne(items, k, closed);
    } else {
      TakeInOne(items, 0, st);
    }
  }

  lemma {:induction false} OneByteFits(items: seq<Item>, k: nat, slot: Slot, max: int)
    requires Sendable(items, 1) && k < |items| && AfterAddress(items, k, 1, AfterList(items, k, 1)).slots == [slot] && Fitting(slot, max, k)
    ensures FitsAt(items, k, 1, max)
  {
    hide AfterAddress, AfterList, Fitting;
    assert Fitting(AfterAddress(items, k, 1, AfterList(items, k, 1)).slots[0], max, k);
  }

  /** The bytes of one block. */
  lemma {:induction false} OneChunkTakes(items: seq<Item>, len: nat, c: Chunk)
    requires Together(items, c.first, c.last + 1, len, c.head, c.multi)
    ensures AllTogether(items, [c], len)
    ensures |EncodeSection(items, len, [c])|
         == |EncodeAddrBlock(ChunkAddrs(items, len, c), len, c.head, c.multi)| + |EncodeTlvBlock(TlvsIn(items, c.first, c.last + 1))|
  {
    assert AllTogether(items, [c], len);
    hide Together, EncodeChunk;
    assert EncodeSection(items, len, [c]) == EncodeChunk(items, len, c) + [];
    ChunkParts(items, len, c);
  }

  /** Two addresses of different prefix lengths. */
  function TwoPrefixes(): seq<Item>
  {
    [Item(Address([10], 8), []), Item(Address([20], 4), [])]
  }

  lemma {:induction false} TwoPrefixesSession()
    ensures var items := TwoPrefixes();
            && Sendable(items, 1)
            && AfterAddress(items, 0, 1, AfterList(items, 0, 1)).slots == [Slot(0, 0, 5, false, false)]
            && AfterAddress(items, 1, 1, AfterList(items, 1, 1)).slots == [Slot(0, 5, 1, true, false)]
  {
    var items := TwoPrefixes();
    OneByteStep(items, 0, Initial(1));
    ListStart(items, 1);
    ListStep(items, 0, 1);
    hide AfterAddress, AfterList;
    OneByteStep(items, 1, AfterList(items, 1, 1));
  }

  /** What is in the end one block of all addresses. */
  lemma {:induction false} OneBlockAll(items: seq<Item>, head: nat, len: nat, multi: bool)
    requires Sendable(items, len) && items != [] && Final(items, len).marks == Final(items, len).marks[|items| - 1 := Mark(0, head, multi)]
    ensures Blocks(items, len) == [Chunk(0, |items| - 1, head, multi)]
  {
    hide Final, Sendable, AllEnd;
    BlocksWalk(items, len);
    assert Final(items, len).marks[|items| - 1 := Mark(0, head, multi)][|items| - 1] == Mark(0, head, multi);
    BlocksLinked(items, len);
  }

  lemma {:induction false} BlocksLinked(items: seq<Item>, len: nat)
    requires Sendable(items, len) && items != []
    ensures Linked(Final(items, len).marks, |items| - 1) && Blocks(items, len) == Walk(Final(items, len).marks, |items| - 1)
  {
    hide Final, Sendable, Walk, Compression.Ends;
    BlocksWalk(items, len);
  }

  /** The last address remembers the one candidate there is. */
  lemma {:induction false} OneByteEnd(items: seq<Item>, slot: Slot)
    requires Sendable(items, 1) && items != [] && AllUnique(items) && AfterList(items, |items|, 1).slots == [slot] && slot.ptr == 0
    ensures Blocks(items, 1) == [Chunk(0, |items| - 1, 0, slot.multiplen)]
  {
    hide AfterList, Sendable, AllUnique, Costed, Linked, Tracks, MarkFits;
    ListInAccount(items, |items|, 1);
    ListEnd(items, 1);
    ClosedShape(AfterList(items, |items|, 1), |items| - 1, 0);
    hide Compression.Closed, InAccount, Final, Blocks;
    OneBlockAll(items, 0, 1, slot.multiplen);
  }

  /** Two addresses of different prefix lengths are kept in one fragment with 6 bytes, and take 8. */
  lemma {:induction false} PrefixesOverrun()
    ensures var items := TwoPrefixes();
            && Sendable(items, 1) && (forall k :: 0 <= k < 2 ==> FitsAt(items, k, 1, 6))
            && |EncodeSection(items, 1, Blocks(items, 1))| == 8
  {
    var items := TwoPrefixes();
    TwoPrefixesSession();
    ListStep(items, 1, 1);
    hide AfterAddress, AfterList, FitsAt, Sendable;
    OneByteFits(items, 0, Slot(0, 0, 5, false, false), 6);
    OneByteFits(items, 1, Slot(0, 5, 1, true, false), 6);
    OneByteEnd(items, Slot(0, 6, 1, true, false));
    PrefixesTake();
  }

  lemma {:induction false} PrefixesTake()
    ensures var items, chunks := TwoPrefixes(), [Chunk(0, 1, 0, true)]; AllTogether(items, chunks, 1) && |EncodeSection(items, 1, chunks)| == 8
  {
    var items, c := TwoPrefixes(), Chunk(0, 1, 0, true);
    assert Together(items, 0, 2, 1, 0, true);
    hide EncodeAddrBlock, EncodeTlvBlock, EncodeSection, AllTogether, Together;
    OneChunkTakes(items, 1, c);
    AddrBlockTakes(ChunkAddrs(items, 1, c), 1, 0, true);
    assert items[0..2] == items;
    assert TlvsIn(items, 0, 2) == [[], []];
    EmptyTlvBlock();
  }

  lemma {:induction false} EmptyTlvBlock()
    ensures |EncodeTlvBlock([[], []])| == 2
  {
    assert AbsorbAll([[], []], 2) == Progress([], []);
  }

  function Filled(b: byte): (r: seq<byte>)
    ensures |r| == 200 && r[0] == b
  {
    seq(200, i => b)
  }

  /** Three addresses of one prefix length, the last two with different values of 200 bytes. */
  function LongValues(): seq<Item>
  {
    [Item(Address([10], 8), []), Item(Address([20], 8), [AddrTlv(1, 0, Filled(0))]), Item(Address([30], 8), [AddrTlv(1, 0, Filled(1))])]
  }

  lemma {:induction false} LongValuesStart()
    ensures var items := LongValues();
            && |items| == 3 && Sendable(items, 1) && AllUnique(items) && OnePlen(items)
            && AfterAddress(items, 0, 1, AfterList(items, 0, 1)) == State([Slot(0, 0, 5, false, false)], map[], map[], 1)
  {
    var items := LongValues();
    OneByteStep(items, 0, Initial(1));
    ListStart(items, 1);
    assert AfterAddress(items, 0, 1, Initial(1)).marks == map[];
  }

  lemma {:induction false} LongValuesNext()
    ensures var items, r := LongValues(), AfterAddress(LongValues(), 1, 1, AfterList(LongValues(), 1, 1));
            && Sendable(items, 1) && r.slots == [Slot(0, 5, 206, false, false)] && r.same == 2
            && r.runs == map[(Tlv.Order(1, 0), 0) := TlvRun(1, false)]
  {
    var items := LongValues();
    LongValuesStart();
    ListStep(items, 0, 1);
    hide AfterAddress, AfterList, Filled, Tlv.Order;
    OneByteStep(items, 1, AfterList(items, 1, 1));
    assert ContinueCosts(items, 1, 0, false, map[], 0) == 0 && TlvCosts(items[1].tlvs, 0) == 0;
    assert !SameLengthBefore(items, 1, items[1].tlvs[0]);
    assert RunsAfter(items, 1, 0, false, map[], 0) == map[];
  }

  lemma {:induction false} LongValuesEnd()
    ensures var items := LongValues();
            && Sendable(items, 1) && AfterAddress(items, 2, 1, AfterList(items, 2, 1)).slots == [Slot(0, 211, 201, false, false)]
  {
    var items := LongValues();
    LongValuesNext();
    ListStep(items, 1, 1);
    hide AfterAddress, AfterList, Filled, Tlv.Order, RunsAfter;
    var st := AfterList(items, 2, 1);
    OneByteStep(items, 2, st);
    assert ContinueCosts(items, 2, 0, false, st.runs, 0) == 0 && TlvCosts(items[2].tlvs, 0) == 0;
    assert SameLengthBefore(items, 2, items[2].tlvs[0]) && !SameValueBefore(items, 2, items[2].tlvs[0]);
    assert RunAt(st.runs, items[2].tlvs[0], 0) == TlvRun(1, false);
  }

  lemma {:induction false} LongAddrsTake()
    ensures var items, c := LongValues(), Chunk(0, 2, 0, false);
            Together(items, 0, 3, 1, 0, false) && |EncodeAddrBlock(ChunkAddrs(items, 1, c), 1, 0, false)| == 5
  {
    var items, c := LongValues(), Chunk(0, 2, 0, false);
    assert Together(items, 0, 3, 1, 0, false);
    hide EncodeAddrBlock, TailLen, AllZero, Together;
    var addrs := ChunkAddrs(items, 1, c);
    assert items[0..3] == items && |addrs| == 3 && addrs[0] == items[0].addr;
    hide ChunkAddrs;
    AddrBlockTakes(addrs, 1, 0, false);
  }

  lemma {:induction false} LongValuesTake()
    ensures var items, chunks := LongValues(), [Chunk(0, 2, 0, false)]; AllTogether(items, chunks, 1) && |EncodeSection(items, 1, chunks)| == 413
  {
    var items, c := LongValues(), Chunk(0, 2, 0, false);
    LongAddrsTake();
    hide EncodeAddrBlock, EncodeTlvBlock, EncodeSection, AllTogether, Together, Filled, ChunkAddrs;
    assert items[0..3] == items;
    assert TlvsIn(items, 0, 3) == [[], [AddrTlv(1, 0, Filled(0))], [AddrTlv(1, 0, Filled(1))]];
    hide LongValues, TlvsIn;
    OneChunkTakes(items, 1, c);
    LongTlvBlock();
  }

  /** An address with one TLV. */
  lemma {:induction false} AbsorbOne(st: Progress, block: Block, k: nat)
    requires k < |block| && |block[k]| == 1 && AbsorbAll(block, k) == st
    ensures AbsorbAll(block, k + 1) == Absorb(st, k, block[k][0], SameAsBefore(block, k, block[k][0]))
  {
    hide Absorb, SameAsBefore;
    assert AbsorbSome(st, block, k, 0) == st;
  }

  lemma {:induction false} LongTlvBlock()
    ensures |EncodeTlvBlock([[], [AddrTlv(1, 0, Filled(0))], [AddrTlv(1, 0, Filled(1))]])| == 408
  {
    hide Filled;
    var t, u := AddrTlv(1, 0, Filled(0)), AddrTlv(1, 0, Filled(1));
    var block, run := [[], [t], [u]], Run(1, 0, 1, [Filled(0), Filled(1)], false);
    var none, one := Progress([], []), Progress([], [Run(1, 0, 1, [Filled(0)], true)]);
    assert AbsorbAll(block, 1) == none;
    AbsorbOne(none, block, 1);
    assert FindRun(none.active, 1, 0) == 0 && Absorb(none, 1, t, false) == one;
    AbsorbOne(one, block, 2);
    assert [Filled(0)] + [Filled(1)] == run.values && Longer(one.active[0], u, false) == run;
    assert FindRun(one.active, 1, 0) == 0 && one.active[0 := Longer(one.active[0], u, false)] == [run];
    assert Absorb(one, 2, u, false) == Progress([], [run]);
    hide AbsorbAll, Absorb;
    assert RunsOf(block) == [run];
    hide RunsOf;
    PayloadIsSize(run);
    RunParts(run, 3);
    assert EncodeRuns([run], 3) == EncodeRun(run, 3) + [];
  }

  /** Three addresses of one prefix length are kept in one fragment with 412 bytes, and take 413: the size of two values of 200
      bytes needs two bytes. */
  lemma {:induction false} ValuesOverrun()
    ensures var items := LongValues();
            && Sendable(items, 1) && OnePlen(items) && (forall k :: 0 <= k < 3 ==> FitsAt(items, k, 1, 412))
            && |EncodeSection(items, 1, Blocks(items, 1))| == 413
  {
    var items := LongValues();
    hide LongValues, AfterAddress, AfterList, AllUnique, FitsAt, Sendable, Blocks, EncodeSection, AllTogether, OnePlen;
    LongValuesStart();
    LongValuesNext();
    LongValuesEnd();
    ListStep(items, 2, 1);
    OneByteFits(items, 0, Slot(0, 0, 5, false, false), 412);
    OneByteFits(items, 1, Slot(0, 5, 206, false, false), 412);
    OneByteFits(items, 2, Slot(0, 211, 201, false, false), 412);
    OneByteEnd(items, Slot(0, 412, 201, false, false));
    LongValuesTake();
  }
}
