/** Long lists of addresses that share a head: the compression puts them into one block, however many they are, while the
    number of addresses in a block is written in one byte. */
module LongLists {
  import opened Wire
  import opened AddressBlocks
  import opened AddressSection
  import opened Compression

  /** Addresses without TLVs and of one prefix length; each shares exactly `h` bytes with the next. */
  ghost predicate Uniform(items: seq<Item>, len: nat, h: nat)
  {
    && Sendable(items, len) && h < len
    && (forall k :: 0 <= k < |items| ==> items[k].tlvs == [] && items[k].addr.plen == items[0].addr.plen)
    && (forall k :: 0 < k < |items| ==> HeadFrom(items[k - 1].addr.bytes, items[k].addr.bytes, 0) == h)
  }

  /** The costs of a block of one address. */
  function Base(plen: nat, len: nat, head: nat): nat
  {
    4 + len + (if plen != len * 8 then 1 else 0) + if head > 0 then 1 else 0
  }

  /** The costs of a block of `n` addresses. */
  function BlockCost(plen: nat, len: nat, head: nat, n: nat): int
    requires n > 0 && head <= len
  {
    Base(plen, len, head) + (n - 1) * (len - head)
  }

  ghost predicate Whole(slot: Slot, plen: nat, len: nat, head: nat, n: nat)
    requires n > 0 && head <= len
  {
    slot.ptr == 0 && slot.total == BlockCost(plen, len, head, n)
  }

  /** The candidate has started again with the last of `n` addresses, from the total of head length `h`. */
  ghost predicate Renewed(slot: Slot, plen: nat, len: nat, h: nat, head: nat, n: nat)
    requires h <= len
  {
    n > 1 && slot.ptr == n - 1 && slot.total == BlockCost(plen, len, h, n - 1) + Base(plen, len, head)
  }

  /** After `n` addresses the candidate of head length `h` holds all of them, and none of a longer head costs less; one of
      a shorter head holds all of them too, or has just started again. */
  ghost predicate OneBlock(st: State, plen: nat, len: nat, h: nat, n: nat)
  {
    && |st.slots| == len && h < len && n > 0 && st.same == n
    && (forall i :: 0 <= i < len ==> !st.slots[i].multiplen)
    && Whole(st.slots[h], plen, len, h, n)
    && (forall i :: h < i < len ==> st.slots[h].total <= st.slots[i].total)
    && (forall i :: 0 <= i < h ==> Whole(st.slots[i], plen, len, i, n) || Renewed(st.slots[i], plen, len, h, i, n))
    && (forall k :: k in st.marks ==> k < n - 1)
  }

  /** What becomes of a candidate with address `k`. */
  function Taken(slot: Slot, plen: nat, len: nat, h: nat, i: nat, k: nat, base: int): Slot
  {
    if h < i || slot.total + len - i > base + Base(plen, len, i) then Slot(k, base, Base(plen, len, i), false, true)
    else Slot(slot.ptr, slot.total, len - i, false, false)
  }

  lemma {:induction false} NextIsTaken(items: seq<Item>, len: nat, h: nat, i: nat, k: nat, same: nat, slot: Slot, base: int, runs: TlvRuns)
    requires 0 < k < |items| && items[k].tlvs == [] && same > 1 && i < len && !slot.multiplen
    ensures NextSlot(items, k, len, i, h, same, slot, base, runs) == Taken(slot, items[k].addr.plen, len, h, i, k, base)
  {
    assert ContinueCosts(items, k, i, MustClose(k, i, h), runs, 0) == 0 && TlvCosts(items[k].tlvs, 0) == 0;
  }

  lemma {:induction false} AllTaken(items: seq<Item>, k: nat, len: nat, h: nat, st: State, i: nat)
    requires 0 < k < |items| && items[k].tlvs == [] && st.same > 1 && h < len == |st.slots| && i <= len
    requires forall j :: 0 <= j < len ==> !st.slots[j].multiplen
    ensures var r, base := TakeIn(items, k, len, h, st, i), st.slots[len - 1].total;
            && r.same == st.same && r.marks == st.marks
            && forall j :: 0 <= j < len ==> r.slots[j] == if j < i then Taken(st.slots[j], items[k].addr.plen, len, h, j, k, base) else st.slots[j]
  {
    hide NextSlot, StartsBlock, RunsAfter, Taken;
    if i > 0 {
      AllTaken(items, k, len, h, st, i - 1);
      var before := TakeIn(items, k, len, h, st, i - 1);
      NextIsTaken(items, len, h, i - 1, k, st.same, before.slots[i - 1], before.slots[len - 1].total, before.runs);
    }
  }

  /** The first address. */
  lemma {:induction false} FirstTaken(items: seq<Item>, len: nat, i: nat)
    requires items != [] && items[0].tlvs == [] && i <= len
    ensures var r := TakeIn(items, 0, len, 0, Initial(len), i);
            && r.same == 1 && r.marks == map[]
            && forall j :: 0 <= j < len ==> r.slots[j] == if j < i then Slot(0, 0, Base(items[0].addr.plen, len, j), false, false)
                                                        else Slot(0, 0, 0, false, false)
  {
    hide RunsAfter, StartsBlock;
    if i > 0 {
      FirstTaken(items, len, i - 1);
      var before := TakeIn(items, 0, len, 0, Initial(len), i - 1);
      FirstIsNew(items, len, i - 1, before.slots[i - 1], before.runs);
    }
  }

  lemma {:induction false} FirstIsNew(items: seq<Item>, len: nat, i: nat, slot: Slot, runs: TlvRuns)
    requires items != [] && items[0].tlvs == [] && !slot.closed
    ensures forall base :: NextSlot(items, 0, len, i, 0, 1, slot, base, runs) == Slot(0, base, Base(items[0].addr.plen, len, i), false, false)
  {
    assert TlvCosts(items[0].tlvs, 0) == 0;
  }

  lemma {:induction false} FirstBlock(items: seq<Item>, len: nat, h: nat)
    requires Uniform(items, len, h) && items != []
    ensures OneBlock(AfterList(items, 1, len), items[0].addr.plen, len, h, 1)
  {
    FirstTaken(items, len, len);
    assert AfterList(items, 0, len) == Initial(len);
    assert AfterList(items, 1, len) == Counted(TakeIn(items, 0, len, 0, Initial(len), len));
  }

  /** The head length `h` is the best of those from `h` on. */
  lemma {:induction false} CloseKeepsBlock(st: State, plen: nat, len: nat, h: nat, n: nat)
    requires OneBlock(st, plen, len, h, n)
    ensures var r := Closed(st, n - 1, h);
            && r.same == st.same && r.slots[len - 1].total == st.slots[h].total && (forall k :: k in r.marks ==> k < n)
            && forall i :: 0 <= i < len ==> !r.slots[i].multiplen && (i <= h ==> r.slots[i] == st.slots[i])
  {
    var best := Best(st.slots, h, len);
    assert best == h;
  }

  lemma {:induction false} CostsOfOneMore(plen: nat, len: nat, i: nat, h: nat, n: nat)
    requires n > 0 && i <= h <= len
    ensures BlockCost(plen, len, i, n + 1) == BlockCost(plen, len, i, n) + len - i
    ensures len - h < Base(plen, len, i)
  {
    assert n * (len - i) == (n - 1) * (len - i) + (len - i);
  }

  /** The candidates after one more address. */
  lemma {:induction false} TakenKeepsBlock(before: seq<Slot>, after: seq<Slot>, plen: nat, len: nat, h: nat, n: nat, base: int)
    requires |before| == |after| == len && h < len && n > 0 && base == before[h].total && Whole(before[h], plen, len, h, n)
    requires forall i :: 0 <= i < h ==> Whole(before[i], plen, len, i, n) || Renewed(before[i], plen, len, h, i, n)
    requires forall i :: 0 <= i < len ==>
               var slot := Taken(before[i], plen, len, h, i, n, base); after[i] == slot.(total := slot.total + slot.current)
    ensures Whole(after[h], plen, len, h, n + 1) && forall i :: 0 <= i < len ==> !after[i].multiplen
    ensures forall i :: h < i < len ==> after[h].total <= after[i].total
    ensures forall i :: 0 <= i < h ==> Whole(after[i], plen, len, i, n + 1) || Renewed(after[i], plen, len, h, i, n + 1)
  {
    hide BlockCost, Base;
    forall i | 0 <= i < len
      ensures h < i ==> after[h].total <= after[i].total
      ensures i < h ==> Whole(after[i], plen, len, i, n + 1) || Renewed(after[i], plen, len, h, i, n + 1)
      ensures i == h ==> Whole(after[h], plen, len, h, n + 1)
    {
      CostsOfOneMore(plen, len, h, h, n);
      if i <= h {
        CostsOfOneMore(plen, len, i, h, n);
        if n > 1 {
          CostsOfOneMore(plen, len, h, h, n - 1);
        }
      } else {
        LongerCosts(plen, len, i, h);
      }
    }
  }

  lemma {:induction false} LongerCosts(plen: nat, len: nat, i: nat, h: nat)
    requires h < i <= len
    ensures len - h < Base(plen, len, i)
  {
  }

  /** From the eighth address on the candidate without a head starts again with every address, unless it is the one that
      holds them all. */
  lemma {:induction false} ShortestStartsAgain(slot: Slot, plen: nat, len: nat, h: nat, n: nat, base: int)
    requires 0 < h < len && n > 7 && base == BlockCost(plen, len, h, n)
    requires Whole(slot, plen, len, 0, n) || Renewed(slot, plen, len, h, 0, n)
    ensures Taken(slot, plen, len, h, 0, n, base) == Slot(n, base, Base(plen, len, 0), false, true)
  {
    CostsOfOneMore(plen, len, h, h, n - 1);
    assert (n - 1) * len == (n - 1) * (len - h) + (n - 1) * h;
    assert (n - 1) * h == 7 * h + (n - 8) * h;
    Nonnegative(n - 8, h);
  }

  lemma {:induction false} NextBlock(items: seq<Item>, len: nat, h: nat, n: nat)
    requires Uniform(items, len, h) && 0 < n < |items| && OneBlock(AfterList(items, n, len), items[0].addr.plen, len, h, n)
    ensures OneBlock(AfterList(items, n + 1, len), items[0].addr.plen, len, h, n + 1)
    ensures var slots := AfterAddress(items, n, len, AfterList(items, n, len)).slots;
            var plen := items[0].addr.plen;
            && slots[h] == Slot(0, BlockCost(plen, len, h, n), len - h, false, false)
            && (h + 1 < len ==> slots[len - 1] == Slot(n, BlockCost(plen, len, h, n), Base(plen, len, len - 1), false, true))
            && (h > 0 && n > 7 ==> slots[0] == Slot(n, BlockCost(plen, len, h, n), Base(plen, len, 0), false, true))
  {
    hide TakeIn, Best, BlockCost, Base, AfterList;
    var plen, st := items[0].addr.plen, AfterList(items, n, len);
    var common := HeadFrom(items[n - 1].addr.bytes, items[n].addr.bytes, 0);
    var renewed := st.(same := st.same + 1);
    CloseSame(st, n - 1, h);
    CloseKeepsBlock(st, plen, len, h, n);
    var closed := Closed(renewed, n - 1, h);
    AllTaken(items, n, len, h, closed, len);
    ListStep(items, n, len);
    var taken := TakeIn(items, n, len, h, closed, len);
    assert AfterAddress(items, n, len, st) == taken;
    CostsOfOneMore(plen, len, h, h, n);
    if h > 0 && n > 7 {
      ShortestStartsAgain(closed.slots[0], plen, len, h, n, st.slots[h].total);
    }
    hide Closed, AfterAddress, Taken;
    TakenKeepsBlock(closed.slots, Counted(taken).slots, plen, len, h, n, st.slots[h].total);
  }

  lemma {:induction false} CloseSame(st: State, last: nat, common: nat)
    requires common < |st.slots|
    ensures Closed(st.(same := st.same + 1), last, common) == Closed(st, last, common).(same := st.same + 1)
  {
  }

  lemma {:induction false} StaysOneBlock(items: seq<Item>, len: nat, h: nat, n: nat)
    requires Uniform(items, len, h) && 0 < n <= |items|
    ensures OneBlock(AfterList(items, n, len), items[0].addr.plen, len, h, n)
  {
    hide Uniform, OneBlock, AfterList;
    if n == 1 {
      FirstBlock(items, len, h);
    } else {
      StaysOneBlock(items, len, h, n - 1);
      NextBlock(items, len, h, n - 1);
    }
  }

  /** From three addresses on the shared head is the cheapest. */
  lemma {:induction false} SharedHeadIsCheapest(plen: nat, len: nat, i: nat, h: nat, n: nat)
    requires i < h <= len && n > 2
    ensures BlockCost(plen, len, h, n) < BlockCost(plen, len, i, n)
  {
    assert (n - 1) * (len - i) == (n - 1) * (len - h) + (n - 1) * (h - i);
    assert (n - 1) * (h - i) >= 2 * (h - i) by {
      assert (n - 1) * (h - i) == 2 * (h - i) + (n - 3) * (h - i);
      Nonnegative(n - 3, h - i);
    }
  }

  lemma {:induction false} Nonnegative(a: nat, b: nat)
    ensures a * b >= 0
  {
  }

  lemma {:induction false} FinalMark(st: State, plen: nat, len: nat, h: nat, n: nat)
    requires OneBlock(st, plen, len, h, n) && n > 2
    ensures var marks := Closed(st, n - 1, 0).marks; n - 1 in marks && marks[n - 1] == Mark(0, h, false)
  {
    hide BlockCost;
    var best := Best(st.slots, 0, len);
    if best < h {
      SharedHeadIsCheapest(plen, len, best, h, n);
      CostsOfOneMore(plen, len, best, h, n - 1);
      CostsOfOneMore(plen, len, h, h, n - 1);
    }
    assert best == h;
  }

  /** A uniform list of three addresses or more is sent in one block, however long it is. */
  lemma {:induction false} UniformIsOneBlock(items: seq<Item>, len: nat, h: nat)
    requires Uniform(items, len, h) && |items| > 2
    ensures Blocks(items, len) == [Chunk(0, |items| - 1, h, false)]
  {
    hide AfterList, OneBlock, Closed, Final;
    var n := |items|;
    StaysOneBlock(items, len, h, n);
    ListEnd(items, len);
    FinalMark(AfterList(items, n, len), items[0].addr.plen, len, h, n);
    BlocksWalk(items, len);
    hide Blocks;
    WalkStep(Final(items, len).marks, n - 1, []);
    var walk := Walk(Final(items, len).marks, n - 1);
    assert walk + [] == walk;
  }

  /** With room for two more blocks it is not fragmented either, unless it has more than 255 addresses of one byte: what
      counts for an address is some candidate of at most 255 addresses, not the one that will be sent. */
  lemma {:induction false} UniformFitsIff(items: seq<Item>, len: nat, h: nat, max: int)
    requires Uniform(items, len, h) && 2 * (len + 6) + |items| * (len - h) <= max
    ensures (forall k :: 0 <= k < |items| ==> FitsAt(items, k, len, max)) <==> len > 1 || |items| <= 255
  {
    hide FitsAt;
    if len > 1 || |items| <= 255 {
      forall k | 0 <= k < |items|
        ensures FitsAt(items, k, len, max)
      {
        UniformFitsAt(items, len, h, max, k);
      }
    } else {
      OneByteFits(items, max);
    }
  }

  lemma {:induction false} UniformFitsAt(items: seq<Item>, len: nat, h: nat, max: int, k: nat)
    requires Uniform(items, len, h) && (len > 1 || k < 255) && 2 * (len + 6) + |items| * (len - h) <= max && k < |items|
    ensures FitsAt(items, k, len, max)
  {
    hide AfterAddress, AfterList;
    var plen := items[0].addr.plen;
    if k == 0 {
      FirstFits(items, len);
      Nonnegative(|items|, len - h);
      assert Fitting(AfterAddress(items, 0, len, AfterList(items, 0, len)).slots[0], max, 0);
    } else {
      StaysOneBlock(items, len, h, k);
      NextBlock(items, len, h, k);
      assert |items| * (len - h) == (k - 1) * (len - h) + (|items| - k + 1) * (len - h);
      assert (|items| - k + 1) * (len - h) == (|items| - k) * (len - h) + (len - h);
      Nonnegative(|items| - k, len - h);
      var slot := if k < 255 then h else if h > 0 then 0 else len - 1;
      assert Fitting(AfterAddress(items, k, len, AfterList(items, k, len)).slots[slot], max, k);
    }
  }

  /** Addresses of one byte have one candidate. */
  lemma {:induction false} OneByteFits(items: seq<Item>, max: int)
    requires Uniform(items, 1, 0) && |items| > 255
    ensures !FitsAt(items, 255, 1, max)
  {
    hide AfterAddress, AfterList;
    StaysOneBlock(items, 1, 0, 255);
    NextBlock(items, 1, 0, 255);
  }

  lemma {:induction false} FirstFits(items: seq<Item>, len: nat)
    requires Sendable(items, len) && items != [] && items[0].tlvs == []
    ensures var slots := AfterAddress(items, 0, len, AfterList(items, 0, len)).slots;
            slots[0] == Slot(0, 0, Base(items[0].addr.plen, len, 0), false, false)
  {
    FirstTaken(items, len, len);
    ListStart(items, len);
  }

  /** The addresses 10.0.0.0, 10.0.1.0, 10.0.2.0 and so on. */
  function TenDot(n: nat): seq<Item>
    requires n <= 256
  {
    seq(n, k requires 0 <= k < n => Item(Address([10, 0, k as byte, 0], 32), []))
  }

  lemma {:induction false} TenDotIsUniform(n: nat)
    requires n <= 256
    ensures Uniform(TenDot(n), 4, 2)
  {
    var items := TenDot(n);
    forall k | 0 < k < n
      ensures HeadFrom(items[k - 1].addr.bytes, items[k].addr.bytes, 0) == 2
    {
      var a, b: seq<byte> := [10, 0, (k - 1) as byte, 0], [10, 0, k as byte, 0];
      assert HeadFrom(a, b, 2) == 2 && HeadFrom(a, b, 1) == 2;
    }
  }

  /** The addresses 10.0.0.0, 10.0.0.1, 10.0.0.2 and so on. */
  function Hosts(n: nat): seq<Item>
    requires n <= 256
  {
    seq(n, k requires 0 <= k < n => Item(Address([10, 0, 0, k as byte], 32), []))
  }

  lemma {:induction false} HostsAreUniform(n: nat)
    requires n <= 256
    ensures Uniform(Hosts(n), 4, 3)
  {
    var items := Hosts(n);
    forall k | 0 < k < n
      ensures HeadFrom(items[k - 1].addr.bytes, items[k].addr.bytes, 0) == 3
    {
      var a, b: seq<byte> := [10, 0, 0, (k - 1) as byte], [10, 0, 0, k as byte];
      assert HeadFrom(a, b, 3) == 3 && HeadFrom(a, b, 2) == 3 && HeadFrom(a, b, 1) == 3;
    }
  }
}
