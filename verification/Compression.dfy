/** The address compression session of rfc5444_msg_generator.c: one candidate block per head length, the backward
    walk over the block starts, and the writing of the address section. */
module Compression {
  import opened Wire
  import opened Seqs
  import Tlv
  import opened AddressBlocks
  import opened AddressTlvs
  import opened AddressSection

  /** The candidate block of one head length. */
  datatype Slot = Slot(ptr: nat, total: int, current: int, multiplen: bool, closed: bool)

  /** What an address remembers when it might end a block: the start of the block, its head length and whether it
      has several prefix lengths. */
  datatype Mark = Mark(start: nat, head: nat, multi: bool)

  // ---------- costs ----------

  function TlvCost(tlv: AddrTlv): int
  {
    2 + (if tlv.ext > 0 then 1 else 0) + 2 + (if |tlv.value| > 255 then 1 else 0) + (if |tlv.value| > 0 then 1 else 0) + |tlv.value|
  }

  function TlvCosts(tlvs: seq<AddrTlv>, k: nat): int
    requires k <= |tlvs|
  {
    if k == 0 then 0 else TlvCosts(tlvs, k - 1) + TlvCost(tlvs[k - 1])
  }

  function NewCost(item: Item, len: nat, head: nat): int
  {
    2 + (if head > 0 then 1 else 0) + len + (if item.addr.plen != len * 8 then 1 else 0) + 2 + TlvCosts(item.tlvs, |item.tlvs|)
  }

  /** Whether the address before has a TLV of this type with a value of this length. */
  predicate SameLengthBefore(items: seq<Item>, k: nat, tlv: AddrTlv)
    requires k < |items|
  {
    k > 0 &&
    var before := items[k - 1].tlvs;
    var i := FirstOfType(before, tlv.typ, tlv.ext);
    i < |before| && |before[i].value| == |tlv.value|
  }

  predicate SameValueBefore(items: seq<Item>, k: nat, tlv: AddrTlv)
    requires k < |items|
  {
    k > 0 &&
    var before := items[k - 1].tlvs;
    var i := FirstOfType(before, tlv.typ, tlv.ext);
    i < |before| && before[i].value == tlv.value
  }

  /** How long TLVs of one type have gone on, and whether with several values, for one head length. */
  datatype TlvRun = TlvRun(count: int, multi: bool)

  type TlvRuns = map<(nat, nat), TlvRun>

  function RunAt(runs: TlvRuns, tlv: AddrTlv, head: nat): TlvRun
  {
    var key := (Tlv.Order(tlv.typ, tlv.ext), head);
    if key in runs then runs[key] else TlvRun(0, false)
  }

  /** What the first `j` TLVs of address `k` add to the block it continues. */
  function ContinueCosts(items: seq<Item>, k: nat, head: nat, closed: bool, runs: TlvRuns, j: nat): int
    requires k < |items| && j <= |items[k].tlvs|
  {
    if j == 0 then 0
    else
      var tlv := items[k].tlvs[j - 1];
      ContinueCosts(items, k, head, closed, runs, j - 1)
      + if closed || !SameLengthBefore(items, k, tlv) then TlvCost(tlv)
        else if RunAt(runs, tlv, head).multi then |tlv.value|
        else if !SameValueBefore(items, k, tlv) then |tlv.value| * RunAt(runs, tlv, head).count
        else 0
  }

  /** The runs after the first `j` TLVs of address `k`. */
  function RunsAfter(items: seq<Item>, k: nat, head: nat, closed: bool, runs: TlvRuns, j: nat): TlvRuns
    requires k < |items| && j <= |items[k].tlvs|
  {
    if j == 0 then runs
    else
      var tlv := items[k].tlvs[j - 1];
      var before := RunsAfter(items, k, head, closed, runs, j - 1);
      var run := RunAt(before, tlv, head);
      before[(Tlv.Order(tlv.typ, tlv.ext), head) :=
        if closed || !SameLengthBefore(items, k, tlv) then TlvRun(1, false)
        else TlvRun(run.count + 1, run.multi || !SameValueBefore(items, k, tlv))]
  }

  /** Whether address `k` starts a new block for head length `head` whatever the costs. */
  predicate MustClose(k: nat, head: nat, common: nat)
  {
    k == 0 || common < head
  }

  /** The costs of going on with the block of `slot`; `same == 1` says that address `k` has another prefix length than
      the one before. The cost of turning to several prefix lengths is subtracted. */
  function GoOnCost(items: seq<Item>, k: nat, len: nat, head: nat, common: nat, same: nat, slot: Slot, runs: TlvRuns): int
    requires k < |items|
  {
    var closed := MustClose(k, head, common);
    (if closed then 0
     else len - head + if slot.multiplen then 1 else if same == 1 then slot.ptr - k + 1 else 0)
    + ContinueCosts(items, k, head, closed, runs, |items[k].tlvs|)
  }

  /** Whether address `k` starts a new block for head length `head`; `base` is the total of the longest head. */
  predicate StartsBlock(items: seq<Item>, k: nat, len: nat, head: nat, common: nat, same: nat, slot: Slot, base: int, runs: TlvRuns)
    requires k < |items|
  {
    MustClose(k, head, common) || slot.total + GoOnCost(items, k, len, head, common, same, slot, runs) > base + NewCost(items[k], len, head)
  }

  /** The candidate of head length `head` after address `k`. */
  function NextSlot(items: seq<Item>, k: nat, len: nat, head: nat, common: nat, same: nat, slot: Slot, base: int, runs: TlvRuns): Slot
    requires k < |items|
  {
    if StartsBlock(items, k, len, head, common, same, slot, base, runs) then
      Slot(k, base, NewCost(items[k], len, head), false, if k > 0 then true else slot.closed)
    else
      Slot(slot.ptr, slot.total, GoOnCost(items, k, len, head, common, same, slot, runs), slot.multiplen || same == 1, false)
  }

  // ---------- the session as a function ----------

  /** The candidates, what the addresses remember, the runs of TLVs, and how many addresses in a row have had the same
      prefix length. */
  datatype State = State(slots: seq<Slot>, marks: map<nat, Mark>, runs: TlvRuns, same: nat)

  /** Addresses that can be compressed: they have the length of the session, and neighbours differ. */
  ghost predicate Sendable(items: seq<Item>, len: nat)
  {
    && 0 < len <= MAX_ADDRLEN
    && (forall k :: 0 <= k < |items| ==> |items[k].addr.bytes| == len)
    && (forall k :: 0 < k < |items| ==> items[k - 1].addr.bytes != items[k].addr.bytes)
  }

  /** How many bytes from `h` on agree, and `h`. */
  function HeadFrom(a: seq<byte>, b: seq<byte>, h: nat): (r: nat)
    requires |a| == |b| && h <= |a|
    ensures h <= r <= |a|
    decreases |a| - h
  {
    if h < |a| && a[h] == b[h] then HeadFrom(a, b, h + 1) else h
  }

  /** The common head is the longest. It is the whole address exactly for equal addresses: then the session would look
      for a slot behind its last one. */
  lemma {:induction false} HeadIsLongest(a: seq<byte>, b: seq<byte>, h: nat)
    requires |a| == |b| && h <= |a| && a[..h] == b[..h]
    ensures var r := HeadFrom(a, b, h); a[..r] == b[..r] && (r < |a| ==> a[r] != b[r]) && (r == |a| <==> a == b)
    decreases |a| - h
  {
    if h < |a| && a[h] == b[h] {
      assert a[..h + 1] == a[..h] + [a[h]] && b[..h + 1] == b[..h] + [b[h]];
      HeadIsLongest(a, b, h + 1);
    } else if h == |a| {
      assert a[..h] == a && b[..h] == b;
    }
  }

  /** The candidate of least total from `common` on, the shortest head length among equals. */
  function Best(slots: seq<Slot>, common: nat, n: nat): (best: nat)
    requires common < n <= |slots|
    ensures common <= best < n
    ensures forall i :: common <= i < n ==> slots[best].total <= slots[i].total
    ensures forall i :: common <= i < best ==> slots[best].total < slots[i].total
    decreases n
  {
    if n == common + 1 then common
    else
      var before := Best(slots, common, n - 1);
      if slots[n - 1].total < slots[before].total then n - 1 else before
  }

  /** Address `last` remembers the best candidate; candidates with longer heads go on from its total. */
  function Closed(st: State, last: nat, common: nat): (r: State)
    requires common < |st.slots|
    ensures |r.slots| == |st.slots|
  {
    var best := Best(st.slots, common, |st.slots|);
    var slot := st.slots[best];
    var slots := seq(|st.slots|, i requires 0 <= i < |st.slots| => if i <= common then st.slots[i] else st.slots[i].(total := slot.total));
    st.(slots := slots,
        marks := if !slot.closed || last !in st.marks then st.marks[last := Mark(slot.ptr, best, slot.multiplen)] else st.marks)
  }

  /** Address `k` is taken into the candidates of the first `i` head lengths. */
  function TakeIn(items: seq<Item>, k: nat, len: nat, common: nat, st: State, i: nat): (r: State)
    requires k < |items| && i <= len == |st.slots|
    ensures |r.slots| == len
  {
    if i == 0 then st
    else
      var before := TakeIn(items, k, len, common, st, i - 1);
      var slot, base := before.slots[i - 1], before.slots[len - 1].total;
      before.(slots := before.slots[i - 1 := NextSlot(items, k, len, i - 1, common, st.same, slot, base, before.runs)],
              runs := RunsAfter(items, k, i - 1, StartsBlock(items, k, len, i - 1, common, st.same, slot, base, before.runs), before.runs,
                                |items[k].tlvs|))
  }

  /** The session after address `k`, before its costs are added. */
  function AfterAddress(items: seq<Item>, k: nat, len: nat, st: State): (r: State)
    requires k < |items| && Sendable(items, len) && |st.slots| == len
    ensures |r.slots| == len
  {
    if k == 0 then TakeIn(items, 0, len, 0, st, len)
    else
      var a, b := items[k - 1].addr, items[k].addr;
      var common := HeadFrom(a.bytes, b.bytes, 0);
      HeadIsLongest(a.bytes, b.bytes, 0);
      var same := if a.plen == b.plen then st.same + 1 else 1;
      TakeIn(items, k, len, common, Closed(st.(same := same), k - 1, common), len)
  }

  function Counted(st: State): (r: State)
    ensures |r.slots| == |st.slots|
  {
    st.(slots := seq(|st.slots|, i requires 0 <= i < |st.slots| => st.slots[i].(total := st.slots[i].total + st.slots[i].current)))
  }

  function Initial(len: nat): (r: State)
    ensures |r.slots| == len
  {
    State(seq(len, i => Slot(0, 0, 0, false, false)), map[], map[], 1)
  }

  /** The session after the first `n` addresses. */
  function AfterList(items: seq<Item>, n: nat, len: nat): (r: State)
    requires Sendable(items, len) && n <= |items|
    ensures |r.slots| == len
  {
    if n == 0 then Initial(len) else Counted(AfterAddress(items, n - 1, len, AfterList(items, n - 1, len)))
  }

  predicate Fitting(slot: Slot, max: int, last: int)
  {
    slot.total + slot.current <= max && last - slot.ptr <= 254
  }

  /** Whether with address `k` some candidate of at most 255 addresses is within `max`. */
  ghost predicate FitsAt(items: seq<Item>, k: nat, len: nat, max: int)
    requires Sendable(items, len) && k < |items|
  {
    var slots := AfterAddress(items, k, len, AfterList(items, k, len)).slots;
    exists i :: 0 <= i < len && Fitting(slots[i], max, k)
  }

  /** The session when all addresses were taken in. */
  function Final(items: seq<Item>, len: nat): State
    requires Sendable(items, len) && items != []
  {
    Closed(AfterList(items, |items|, len), |items| - 1, 0)
  }

  /** All addresses up to `k` remember a block that does not start behind them. */
  ghost predicate Linked(marks: map<nat, Mark>, k: nat)
  {
    forall j: nat :: j <= k ==> j in marks && marks[j].start <= j
  }

  /** The blocks up to address `k`, found by going back over the block starts. */
  function Walk(marks: map<nat, Mark>, k: nat): seq<Chunk>
    requires Linked(marks, k)
  {
    var m := marks[k];
    (if m.start == 0 then [] else Walk(marks, m.start - 1)) + [Chunk(m.start, k, m.head, m.multi)]
  }

  // ---------- what the session keeps ----------

  /** The slot holds a block of head length `head` that ends with address `n - 1`. */
  ghost predicate Candidate(items: seq<Item>, slot: Slot, head: int, n: nat, len: nat)
  {
    n > 0 ==> Together(items, slot.ptr, n, len, head, slot.multiplen)
  }

  /** What address `k` remembers is a block that ends with it. */
  ghost predicate Ends(items: seq<Item>, mark: Mark, k: nat, len: nat)
  {
    Together(items, mark.start, k + 1, len, mark.head, mark.multi)
  }

  /** After `n` addresses every candidate is a block that ends with the last one, and the addresses before remember
      blocks that end with them. */
  ghost predicate Sound(items: seq<Item>, len: nat, n: nat, st: State)
  {
    && |st.slots| == len && n <= |items| && st.same >= 1 && (n == 0 ==> st.same == 1)
    && (forall i :: 0 <= i < len ==> Candidate(items, st.slots[i], i, n, len))
    && (forall k: nat :: k < n - 1 ==> k in st.marks)
    && (forall k :: k in st.marks ==> k < n && Ends(items, st.marks[k], k, len))
  }

  lemma ClosedIsSound(items: seq<Item>, len: nat, n: nat, st: State, common: nat)
    requires Sound(items, len, n, st) && n > 0 && common < len
    ensures Sound(items, len, n, Closed(st, n - 1, common)) && n - 1 in Closed(st, n - 1, common).marks
  {
    hide Together;
    var best := Best(st.slots, common, len);
    assert Candidate(items, st.slots[best], best, n, len);
  }

  /** With address `k` the candidate is a block that ends with it. */
  lemma NextIsCandidate(items: seq<Item>, k: nat, len: nat, head: nat, common: nat, same: nat, slot: Slot, base: int, runs: TlvRuns)
    requires k < |items| && head < len <= MAX_ADDRLEN && |items[k].addr.bytes| == len && Candidate(items, slot, head, k, len)
    requires k > 0 ==> |items[k - 1].addr.bytes| == len && common <= len
                       && items[k - 1].addr.bytes[..common] == items[k].addr.bytes[..common]
                       && (same == 1 <==> items[k - 1].addr.plen != items[k].addr.plen)
    ensures Candidate(items, NextSlot(items, k, len, head, common, same, slot, base, runs), head, k + 1, len)
  {
    hide NewCost, GoOnCost;
    if !StartsBlock(items, k, len, head, common, same, slot, base, runs) {
      var before, now := items[k - 1].addr.bytes, items[k].addr.bytes;
      assert before[..head] == before[..common][..head] && now[..head] == now[..common][..head];
    }
  }

  lemma {:induction false} TakenInIsSound(items: seq<Item>, k: nat, len: nat, common: nat, st: State, i: nat)
    requires k < |items| && i <= len <= MAX_ADDRLEN && |items[k].addr.bytes| == len && |st.slots| == len
    requires forall j :: 0 <= j < len ==> Candidate(items, st.slots[j], j, k, len)
    requires k > 0 ==> |items[k - 1].addr.bytes| == len && common <= len
                       && items[k - 1].addr.bytes[..common] == items[k].addr.bytes[..common]
                       && (st.same == 1 <==> items[k - 1].addr.plen != items[k].addr.plen)
    ensures var r := TakeIn(items, k, len, common, st, i);
            r.same == st.same && r.marks == st.marks && forall j :: 0 <= j < len ==> Candidate(items, r.slots[j], j, if j < i then k + 1 else k, len)
  {
    hide Candidate, NextSlot, StartsBlock, RunsAfter;
    if i > 0 {
      TakenInIsSound(items, k, len, common, st, i - 1);
      var before := TakeIn(items, k, len, common, st, i - 1);
      NextIsCandidate(items, k, len, i - 1, common, st.same, before.slots[i - 1], before.slots[len - 1].total, before.runs);
    }
  }

  /** Every address keeps the session sound. */
  lemma AddressIsSound(items: seq<Item>, k: nat, len: nat, st: State)
    requires Sendable(items, len) && k < |items| && Sound(items, len, k, st)
    ensures Sound(items, len, k + 1, AfterAddress(items, k, len, st))
  {
    hide TakeIn, Closed, Candidate, Ends;
    if k == 0 {
      TakenInIsSound(items, k, len, 0, st, len);
    } else {
      var a, b := items[k - 1].addr, items[k].addr;
      var common := HeadFrom(a.bytes, b.bytes, 0);
      HeadIsLongest(a.bytes, b.bytes, 0);
      var renewed := st.(same := if a.plen == b.plen then st.same + 1 else 1);
      ClosedIsSound(items, len, k, renewed, common);
      ClosedKeepsCount(renewed, k - 1, common);
      TakenInIsSound(items, k, len, common, Closed(renewed, k - 1, common), len);
    }
  }

  lemma ClosedKeepsCount(st: State, last: nat, common: nat)
    requires common < |st.slots|
    ensures Closed(st, last, common).same == st.same
  {
  }

  lemma CountedIsSound(items: seq<Item>, len: nat, n: nat, st: State)
    requires Sound(items, len, n, st)
    ensures Sound(items, len, n, Counted(st))
  {
    hide Together, Ends;
  }

  /** The session is sound after any number of addresses. */
  lemma {:induction false} SessionIsSound(items: seq<Item>, n: nat, len: nat)
    requires Sendable(items, len) && n <= |items|
    ensures Sound(items, len, n, AfterList(items, n, len))
  {
    hide Sound, AfterAddress, Counted, Sendable;
    if n == 0 {
      InitialIsSound(items, len);
    } else {
      SessionIsSound(items, n - 1, len);
      AddressIsSound(items, n - 1, len, AfterList(items, n - 1, len));
      CountedIsSound(items, len, n, AfterAddress(items, n - 1, len, AfterList(items, n - 1, len)));
    }
  }

  lemma InitialIsSound(items: seq<Item>, len: nat)
    ensures Sound(items, len, 0, Initial(len))
  {
  }

  lemma {:induction false} PartitionLonger(chunks: seq<Chunk>, from: int, mid: int, c: Chunk)
    requires Partition(chunks, from, mid) && c.first == mid <= c.last
    ensures Partition(chunks + [c], from, c.last + 1)
    decreases chunks
  {
    if chunks == [] {
      assert [c][1..] == [];
    } else {
      assert (chunks + [c])[1..] == chunks[1..] + [c];
      PartitionLonger(chunks[1..], chunks[0].last + 1, mid, c);
      PartitionReaches(chunks[1..], chunks[0].last + 1, mid);
    }
  }

  lemma {:induction false} PartitionReaches(chunks: seq<Chunk>, from: int, to: int)
    requires Partition(chunks, from, to)
    ensures from <= to
    decreases chunks
  {
    if chunks != [] {
      PartitionReaches(chunks[1..], chunks[0].last + 1, to);
    }
  }

  ghost predicate AllEnd(items: seq<Item>, marks: map<nat, Mark>, k: nat, len: nat)
  {
    Linked(marks, k) && forall j: nat :: j <= k ==> Ends(items, marks[j], j, len)
  }

  /** The walk back splits the addresses into contiguous well-formed blocks. */
  lemma {:induction false} WalkPartitions(items: seq<Item>, marks: map<nat, Mark>, k: nat, len: nat)
    requires AllEnd(items, marks, k, len)
    ensures Partition(Walk(marks, k), 0, k + 1) && AllTogether(items, Walk(marks, k), len)
  {
    hide Together;
    var m := marks[k];
    var c := Chunk(m.start, k, m.head, m.multi);
    assert Ends(items, m, k, len);
    if m.start == 0 {
      PartitionLonger([], 0, 0, c);
    } else {
      WalkPartitions(items, marks, m.start - 1, len);
      PartitionLonger(Walk(marks, m.start - 1), 0, m.start, c);
    }
  }

  lemma SoundMarks(items: seq<Item>, len: nat, k: nat, st: State)
    requires Sound(items, len, k + 1, st) && k in st.marks
    ensures AllEnd(items, st.marks, k, len)
  {
    hide Candidate;
  }

  lemma {:induction false} ClosedMarks(items: seq<Item>, len: nat, n: nat, st: State)
    requires Sound(items, len, n, st) && n > 0 && 0 < len == |st.slots|
    ensures AllEnd(items, Closed(st, n - 1, 0).marks, n - 1, len)
  {
    ClosedIsSound(items, len, n, st, 0);
    hide Closed, AllEnd, Sound;
    SoundMarks(items, len, n - 1, Closed(st, n - 1, 0));
  }

  lemma ListStart(items: seq<Item>, len: nat)
    requires Sendable(items, len)
    ensures AfterList(items, 0, len) == Initial(len)
  {
  }

  lemma ListStep(items: seq<Item>, n: nat, len: nat)
    requires Sendable(items, len) && n < |items|
    ensures AfterList(items, n + 1, len) == Counted(AfterAddress(items, n, len, AfterList(items, n, len)))
  {
  }

  lemma ListEnd(items: seq<Item>, len: nat)
    requires Sendable(items, len) && items != []
    ensures 0 < len && Final(items, len) == Closed(AfterList(items, |items|, len), |items| - 1, 0)
  {
  }

  /** All addresses remember blocks in the end. */
  lemma {:induction false} FinalMarks(items: seq<Item>, len: nat)
    requires Sendable(items, len) && items != []
    ensures AllEnd(items, Final(items, len).marks, |items| - 1, len)
  {
    hide AfterList, Sendable, Closed, Sound, AllEnd, Final;
    SessionIsSound(items, |items|, len);
    ListEnd(items, len);
    ClosedMarks(items, len, |items|, AfterList(items, |items|, len));
  }

  lemma {:induction false} FinalWalk(items: seq<Item>, len: nat)
    requires Sendable(items, len) && items != []
    ensures var marks := Final(items, len).marks;
            AllEnd(items, marks, |items| - 1, len)
            && Partition(Walk(marks, |items| - 1), 0, |items|) && AllTogether(items, Walk(marks, |items| - 1), len)
  {
    hide Final, Sendable, Partition, AllTogether, Ends, Walk, Linked;
    FinalMarks(items, len);
    WalkPartitions(items, Final(items, len).marks, |items| - 1, len);
  }

  /** The blocks a list of addresses is sent in: contiguous and well formed. */
  function Blocks(items: seq<Item>, len: nat): (chunks: seq<Chunk>)
    requires Sendable(items, len)
    ensures Partition(chunks, 0, |items|) && AllTogether(items, chunks, len)
  {
    if items == [] then NoChunks(items, len)
    else
      FinalWalk(items, len);
      Walk(Final(items, len).marks, |items| - 1)
  }

  lemma {:induction false} BlocksWalk(items: seq<Item>, len: nat)
    requires Sendable(items, len) && items != []
    ensures var marks := Final(items, len).marks;
            AllEnd(items, marks, |items| - 1, len) && Blocks(items, len) == Walk(marks, |items| - 1)
  {
    hide Final, Sendable, Partition, AllTogether, AllEnd;
    FinalWalk(items, len);
  }

  /** One step of the walk back. */
  lemma {:induction false} WalkStep(marks: map<nat, Mark>, k: nat, later: seq<Chunk>)
    requires Linked(marks, k)
    ensures var m := marks[k];
            var chunks := [Chunk(m.start, k, m.head, m.multi)] + later;
            m.start <= k && (m.start > 0 ==> Linked(marks, m.start - 1))
            && Walk(marks, k) + later == if m.start == 0 then chunks else Walk(marks, m.start - 1) + chunks
  {
    var m := marks[k];
    if m.start > 0 {
      Associates(Walk(marks, m.start - 1), [Chunk(m.start, k, m.head, m.multi)], later);
    }
  }

  function NoChunks(items: seq<Item>, len: nat): (chunks: seq<Chunk>)
    ensures Partition(chunks, 0, 0) && AllTogether(items, chunks, len)
  {
    []
  }

  // ---------- the session as it runs ----------

  lemma JoinedShape(addrs: seq<Address>, len: nat, head: nat, multi: bool)
    requires Joined(addrs, len, head, multi)
    ensures |addrs| > 0 && SameLength(addrs, len) && head < len
  {
  }

  lemma NothingBehind(chunks: seq<Chunk>, n: nat)
    requires Partition(chunks, n, n)
    ensures chunks == []
  {
  }

  class Session {
    const len: nat
    const items: seq<Item>
    const acs: array<Slot>
    var marks: map<nat, Mark>
    var runs: TlvRuns
    var same: nat

    constructor (items: seq<Item>, len: nat)
      requires 0 < len
      ensures this.items == items && this.len == len && fresh(acs) && acs.Length == len && St() == Initial(len)
    {
      this.items, this.len := items, len;
      acs := new Slot[len](i => Slot(0, 0, 0, false, false));
      marks, runs, same := map[], map[], 1;
      new;
      assert acs[..] == Initial(len).slots;
    }

    ghost function St(): State
      reads this, acs
    {
      State(acs[..], marks, runs, same)
    }

    method CommonHead(a: seq<byte>, b: seq<byte>) returns (h: nat)
      requires |a| == |b|
      ensures h == HeadFrom(a, b, 0)
    {
      h := 0;
      while h < |a|
        invariant 0 <= h <= |a| && HeadFrom(a, b, 0) == HeadFrom(a, b, h)
      {
        if a[h] != b[h] {
          break;
        }
        h := h + 1;
      }
    }

    /** Remembers the best candidate at the address that ends it. */
    method CloseAddrBlock(last: nat, common: nat)
      requires common < len == acs.Length
      modifies this`marks, acs
      ensures St() == Closed(old(St()), last, common)
    {
      ghost var slots := acs[..];
      var best, size := common, acs[common].total;
      for i := common + 1 to len
        invariant common <= best < i <= len && size == slots[best].total && best == Best(slots, common, i)
      {
        if acs[i].total < size {
          size := acs[i].total;
          best := i;
        }
      }
      if !acs[best].closed || last !in marks {
        marks := marks[last := Mark(acs[best].ptr, best, acs[best].multiplen)];
      }
      for i := common + 1 to len
        modifies acs
        invariant forall j :: 0 <= j < len ==> acs[j] == if common < j < i then slots[j].(total := size) else slots[j]
      {
        acs[i] := acs[i].(total := size);
      }
      assert acs[..] == Closed(old(St()), last, common).slots;
    }

    /** The TLV costs of address `k`: of a new block, and of the block it continues. */
    method TlvCostsOf(k: nat, head: nat, closed: bool) returns (newCost: int, continueCost: int)
      requires k < |items|
      ensures newCost == TlvCosts(items[k].tlvs, |items[k].tlvs|)
      ensures continueCost == ContinueCosts(items, k, head, closed, runs, |items[k].tlvs|)
    {
      newCost, continueCost := 0, 0;
      for j := 0 to |items[k].tlvs|
        invariant newCost == TlvCosts(items[k].tlvs, j) && continueCost == ContinueCosts(items, k, head, closed, runs, j)
      {
        var tlv := items[k].tlvs[j];
        newCost := newCost + TlvCost(tlv);
        if closed || !SameLengthBefore(items, k, tlv) {
          continueCost := continueCost + TlvCost(tlv);
        } else if RunAt(runs, tlv, head).multi {
          continueCost := continueCost + |tlv.value|;
        } else if !SameValueBefore(items, k, tlv) {
          continueCost := continueCost + |tlv.value| * RunAt(runs, tlv, head).count;
        }
      }
    }

    method UpdateRuns(k: nat, head: nat, closed: bool)
      requires k < |items|
      modifies this`runs
      ensures runs == RunsAfter(items, k, head, closed, old(runs), |items[k].tlvs|)
    {
      for j := 0 to |items[k].tlvs|
        invariant runs == RunsAfter(items, k, head, closed, old(runs), j)
      {
        var tlv := items[k].tlvs[j];
        var run := RunAt(runs, tlv, head);
        if closed || !SameLengthBefore(items, k, tlv) {
          run := TlvRun(1, false);
        } else {
          run := run.(count := run.count + 1);
          if !SameValueBefore(items, k, tlv) {
            run := run.(multi := true);
          }
        }
        runs := runs[(Tlv.Order(tlv.typ, tlv.ext), head) := run];
      }
    }

    /** Takes address `k` into the candidate of head length `i`, or starts a new block with it. */
    method CompressSlot(i: nat, k: nat, common: nat)
      requires i < len == acs.Length && k < |items|
      modifies this`runs, acs
      ensures acs[..] == old(acs[..])[i := NextSlot(items, k, len, i, common, same, old(acs[i]), old(acs[len - 1].total), old(runs))]
      ensures runs == RunsAfter(items, k, i, StartsBlock(items, k, len, i, common, same, old(acs[i]), old(acs[len - 1].total), old(runs)),
                                old(runs), |items[k].tlvs|)
    {
      hide ContinueCosts, TlvCosts, RunsAfter;
      var closed := k == 0 || common < i;
      var newCost := 2 + (if i > 0 then 1 else 0) + len + if items[k].addr.plen != len * 8 then 1 else 0;
      var continueCost := 0;
      if !closed {
        continueCost := len - i;
        if acs[i].multiplen {
          continueCost := continueCost + 1;
        } else if same == 1 {
          continueCost := continueCost + (acs[i].ptr - k + 1);
          acs[i] := acs[i].(multiplen := true);
        }
      }
      newCost := newCost + 2;
      var tlvsNew, tlvsContinue := TlvCostsOf(k, i, closed);
      newCost, continueCost := newCost + tlvsNew, continueCost + tlvsContinue;
      if closed || acs[i].total + continueCost > acs[len - 1].total + newCost {
        acs[i] := acs[i].(ptr := k, multiplen := false, total := acs[len - 1].total, current := newCost);
        closed := true;
      } else {
        acs[i] := acs[i].(current := continueCost);
      }
      if k > 0 {
        acs[i] := acs[i].(closed := closed);
      }
      UpdateRuns(k, i, closed);
    }

    /** Takes address `k` into the session. */
    method CompressAddress(k: nat)
      requires Sendable(items, len) && acs.Length == len && k < |items|
      modifies this`marks, this`runs, this`same, acs
      ensures St() == AfterAddress(items, k, len, old(St()))
    {
      hide Closed, NextSlot, StartsBlock, RunsAfter;
      ghost var before := St();
      var common := 0;
      if k > 0 {
        same := if items[k - 1].addr.plen == items[k].addr.plen then same + 1 else 1;
        HeadIsLongest(items[k - 1].addr.bytes, items[k].addr.bytes, 0);
        common := CommonHead(items[k - 1].addr.bytes, items[k].addr.bytes);
        assert St() == before.(same := same);
        CloseAddrBlock(k - 1, common);
      }
      ghost var st := St();
      for i := 0 to len
        invariant same == st.same && St() == TakeIn(items, k, len, common, st, i)
      {
        CompressSlot(i, k, common);
      }
    }

    /** Whether a candidate of at most 255 addresses is within `max`. */
    method BestSize(k: nat, max: int) returns (fits: bool)
      requires acs.Length == len
      ensures fits <==> exists i :: 0 <= i < len && Fitting(acs[i], max, k)
    {
      var bestHead, bestSize := -1, max + 1;
      for i := 0 to len
        invariant -1 <= bestHead < i && bestSize <= max + 1 && (bestHead < 0 ==> bestSize == max + 1)
        invariant bestHead >= 0 ==> Fitting(acs[bestHead], max, k)
        invariant bestHead < 0 ==> forall j :: 0 <= j < i ==> !Fitting(acs[j], max, k)
      {
        var size := acs[i].total + acs[i].current;
        if size < bestSize && k - acs[i].ptr <= 254 {
          bestHead := i;
          bestSize := size;
        }
      }
      fits := bestHead != -1;
    }

    /** The costs of the last address go into the totals. */
    method AddCosts()
      requires acs.Length == len
      modifies acs
      ensures St() == Counted(old(St()))
    {
      ghost var slots := acs[..];
      for i := 0 to len
        invariant forall j :: 0 <= j < len ==> acs[j] == if j < i then slots[j].(total := slots[j].total + slots[j].current) else slots[j]
      {
        acs[i] := acs[i].(total := acs[i].total + acs[i].current);
      }
      assert acs[..] == Counted(old(St())).slots;
    }

    /** The next address of the list; `fits` says whether the message still goes without fragments. */
    method AddAddress(k: nat, max: int) returns (fits: bool)
      requires Sendable(items, len) && acs.Length == len && k < |items| && St() == AfterList(items, k, len)
      modifies this`marks, this`runs, this`same, acs
      ensures fits <==> FitsAt(items, k, len, max)
      ensures fits ==> St() == AfterList(items, k + 1, len)
    {
      hide AfterAddress, AfterList, Counted, Sendable, Fitting, FitsAt;
      ListStep(items, k, len);
      CompressAddress(k);
      fits := BestSize(k, max);
      SlotsOf(k, max);
      if fits {
        AddCosts();
      }
    }

    /** Compresses the addresses of a message; gives up exactly if the message would be fragmented. */
    method Compress(max: int) returns (fits: bool)
      requires Sendable(items, len) && acs.Length == len && St() == Initial(len)
      modifies this`marks, this`runs, this`same, acs
      ensures fits <==> forall k :: 0 <= k < |items| ==> FitsAt(items, k, len, max)
      ensures fits && items != [] ==> St() == Final(items, len)
    {
      hide AfterAddress, AfterList, Closed, Initial, Sendable, FitsAt, Final;
      var n := 0;
      ListStart(items, len);
      while n < |items|
        invariant 0 <= n <= |items| && St() == AfterList(items, n, len)
        invariant forall k :: 0 <= k < n ==> FitsAt(items, k, len, max)
      {
        fits := AddAddress(n, max);
        if !fits {
          return;
        }
        n := n + 1;
      }
      fits := true;
      if |items| > 0 {
        ListEnd(items, len);
        CloseAddrBlock(|items| - 1, 0);
      }
    }

    lemma SlotsOf(k: nat, max: int)
      requires Sendable(items, len) && acs.Length == len && k < |items| && St() == AfterAddress(items, k, len, AfterList(items, k, len))
      ensures FitsAt(items, k, len, max) <==> exists i :: 0 <= i < len && Fitting(acs[i], max, k)
    {
      hide AfterAddress, AfterList, Fitting;
      var slots := AfterAddress(items, k, len, AfterList(items, k, len)).slots;
      assert slots == acs[..];
      assert forall i :: 0 <= i < len ==> slots[i] == acs[i];
    }

    /** Walks back from the last address over the block starts; `ends` gets the block that starts at an address. */
    method Link() returns (ends: map<nat, Chunk>)
      requires Sendable(items, len) && items != [] && marks == Final(items, len).marks
      ensures forall c :: c in Blocks(items, len) ==> c.first in ends && ends[c.first] == c
    {
      hide Final, Sendable, Blocks, Walk;
      BlocksWalk(items, len);
      var addr := |items| - 1;
      ends := map[];
      ghost var later: seq<Chunk> := [];
      assert Walk(marks, addr) + later == Walk(marks, addr);
      while true
        invariant 0 <= addr < |items| && Linked(marks, addr) && Blocks(items, len) == Walk(marks, addr) + later
        invariant forall c :: c in later ==> addr < c.first && c.first in ends && ends[c.first] == c
        decreases addr
      {
        WalkStep(marks, addr, later);
        var mark := marks[addr];
        var chunk := Chunk(mark.start, addr, mark.head, mark.multi);
        ends := ends[mark.start := chunk];
        later := [chunk] + later;
        if mark.start == 0 {
          break;
        }
        addr := mark.start - 1;
      }
    }

    method WriteChunk(c: Chunk) returns (out: seq<byte>)
      requires Together(items, c.first, c.last + 1, len, c.head, c.multi)
      ensures out == EncodeChunk(items, len, c)
    {
      hide EncodeAddrBlock, RunsOf, EncodeRuns, Joined, AddrsOf, TlvsOf;
      ChunkIsJoined(items, c, len);
      JoinedShape(AddrsOf(items[c.first..c.last + 1]), len, c.head, c.multi);
      out := WriteAddrBlock(AddrsOf(items[c.first..c.last + 1]), len, c.head, c.multi);
      var tlvs := WriteAddressTlvs(TlvsOf(items[c.first..c.last + 1]));
      out := out + (U16(|tlvs|) + tlvs);
    }

    /** Writes the address section: block after block, each with its TLVs. */
    method WriteAddresses(ends: map<nat, Chunk>, ghost chunks: seq<Chunk>) returns (out: seq<byte>)
      requires 0 < |items| && Partition(chunks, 0, |items|) && AllTogether(items, chunks, len)
      requires forall c :: c in chunks ==> c.first in ends && ends[c.first] == c
      ensures out == EncodeSection(items, len, chunks)
    {
      hide Together, EncodeChunk;
      var start := 0;
      ghost var rest := chunks;
      out := [];
      while true
        invariant rest != [] && 0 <= start < |items| && Partition(rest, start, |items|)
        invariant AllTogether(items, rest, len) && forall c :: c in rest ==> c in chunks
        invariant EncodeSection(items, len, chunks) == out + EncodeSection(items, len, rest)
        decreases |items| - start
      {
        var c := ends[start];
        assert rest[0] in chunks && rest[0] == c;
        var chunk := WriteChunk(c);
        Associates(out, chunk, EncodeSection(items, len, rest[1..]));
        out, rest := out + chunk, rest[1..];
        if c.last == |items| - 1 {
          NothingBehind(rest, |items|);
          break;
        }
        start := c.last + 1;
      }
    }
  }
}
