/** From the TLVs attached to an address to the entries of a consumer: the writer's runs, the reader's tree and the walk
    over the two lists put together. */
module Delivery {
  import opened Wire
  import opened Seqs
  import opened Tlv
  import opened AddressTlvs
  import opened Duplicates
  import opened Schedule

  /** A TLV keeps its place in the order of the tree. */
  lemma {:induction false} StoreKeepsOrder(entries: seq<Entry>, e: Entry)
    requires SortedEntries(entries)
    ensures SortedEntries(Store(entries, e))
    ensures forall x :: x in Store(entries, e) ==> x == e || x in entries
  {
    if entries != [] && Order(entries[0].typ, entries[0].ext) < Order(e.typ, e.ext) {
      assert forall i :: 0 <= i < |entries| - 1 ==> entries[1..][i] == entries[i + 1];
      StoreKeepsOrder(entries[1..], e);
      FirstIsLeast(entries[0], Store(entries[1..], e));
    }
  }

  /** How many TLVs come before the types of order `o`. */
  function Lower(entries: seq<Entry>, o: nat): (k: nat)
    ensures k <= |entries| && forall i :: 0 <= i < k ==> Order(entries[i].typ, entries[i].ext) < o
    ensures k < |entries| ==> Order(entries[k].typ, entries[k].ext) >= o
  {
    if entries == [] || Order(entries[0].typ, entries[0].ext) >= o then 0 else 1 + Lower(entries[1..], o)
  }

  /** The place right behind the first TLV of the type; without one, before those of higher types. */
  function PlaceOf(entries: seq<Entry>, o: nat): (k: nat)
    ensures k <= |entries|
  {
    var k := Lower(entries, o);
    if k < |entries| && Order(entries[k].typ, entries[k].ext) == o then k + 1 else k
  }

  lemma {:induction false} StorePlace(entries: seq<Entry>, e: Entry)
    ensures Store(entries, e) == Inserted(entries, PlaceOf(entries, Order(e.typ, e.ext)), e)
  {
    hide Order, Inserted;
    InsertedEarly(entries, e);
    if entries != [] && Order(entries[0].typ, entries[0].ext) < Order(e.typ, e.ext) {
      var o := Order(e.typ, e.ext);
      PlaceLater(entries, o);
      hide PlaceOf;
      StorePlace(entries[1..], e);
      InsertedLater(entries, PlaceOf(entries[1..], o), e);
    }
  }

  lemma {:induction false} PlaceLater(entries: seq<Entry>, o: nat)
    requires entries != [] && Order(entries[0].typ, entries[0].ext) < o
    ensures PlaceOf(entries, o) == 1 + PlaceOf(entries[1..], o)
  {
    hide Order;
    var k := Lower(entries[1..], o);
    assert k < |entries[1..]| ==> entries[1..][k] == entries[k + 1];
  }

  lemma {:induction false} InsertedEarly(entries: seq<Entry>, e: Entry)
    ensures Inserted(entries, 0, e) == [e] + entries
    ensures entries != [] ==> Inserted(entries, 1, e) == [entries[0], e] + entries[1..]
  {
  }

  lemma {:induction false} InsertedLater(entries: seq<Entry>, j: nat, e: Entry)
    requires entries != [] && j <= |entries[1..]|
    ensures Inserted(entries, j + 1, e) == [entries[0]] + Inserted(entries[1..], j, e)
  {
  }

  lemma {:induction false} FirstIsLeast(first: Entry, rest: seq<Entry>)
    requires SortedEntries(rest) && forall x :: x in rest ==> Order(first.typ, first.ext) <= Order(x.typ, x.ext)
    ensures SortedEntries([first] + rest)
  {
  }

  /** Whatever is parsed, the TLVs of a block are sorted. */
  lemma {:induction false} ParsedAreSorted(buf: seq<byte>, p: nat, end: int, eob: int, n: u8, entries: seq<Entry>)
    requires eob <= |buf| && SortedEntries(entries)
    ensures var r := ParseTlvs(buf, p, end, eob, n, entries); r.Ok? ==> SortedEntries(r.value.0)
    decreases end - p
  {
    hide ParseTlv, Store, SortedEntries;
    if p < end {
      ParseProgress(buf, p, eob, n);
      var r := ParseTlv(buf, p, eob, n);
      if r.Ok? {
        StoreKeepsOrder(entries, r.value.0);
        ParsedAreSorted(buf, r.value.1, end, eob, n, Store(entries, r.value.0));
      }
    }
  }

  lemma {:induction false} BlockIsSorted(buf: seq<byte>, p: nat, eob: int, n: u8)
    requires eob <= |buf|
    ensures var r := ParseTlvBlock(buf, p, eob, n); r.Ok? ==> SortedEntries(r.value.0)
  {
    hide ParseTlvs;
    var (length, c) := GetU16(buf, eob, Cursor(p, false));
    ParsedAreSorted(buf, c.pos, p + 2 + length, eob, n, []);
  }

  /** Whether an entry asks for TLVs of this type. */
  predicate Wants(c: Consumer, typ: u8, ext: u8)
  {
    c.typ == typ && (c.matchExt ==> c.ext == ext)
  }

  ghost predicate AllWithin(entries: seq<Entry>, chain: seq<nat>)
  {
    forall i :: i in chain ==> i < |entries|
  }

  lemma {:induction false} WithinToo(entries: seq<Entry>, chain: seq<nat>)
    requires AllWithin(entries, chain) && chain != []
    ensures AllWithin(entries, chain[..|chain| - 1]) && chain[|chain| - 1] < |entries|
  {
    var before := chain[..|chain| - 1];
    forall i | i in before
      ensures i < |entries|
    {
      var k :| 0 <= k < |before| && before[k] == i;
      assert chain[k] in chain;
    }
    assert chain[|chain| - 1] in chain;
  }

  function FactShown(e: Entry, idx: u8): Fact
  {
    Fact(idx, e.typ, e.ext, ValueFor(e, idx))
  }

  /** What the TLVs in a chain show for address `idx`. */
  ghost function Shown(entries: seq<Entry>, chain: seq<nat>, idx: u8): multiset<Fact>
    requires AllWithin(entries, chain)
  {
    if chain == [] then multiset{}
    else
      WithinToo(entries, chain);
      Shown(entries, chain[..|chain| - 1], idx) + multiset{FactShown(entries[chain[|chain| - 1]], idx)}
  }

  /** The first `j` TLVs attached to address `idx`, as far as an entry asks for them. */
  ghost function Attached(tlvs: seq<AddrTlv>, idx: u8, c: Consumer, j: nat): multiset<Fact>
    requires j <= |tlvs|
  {
    if j == 0 then multiset{}
    else
      Attached(tlvs, idx, c, j - 1)
      + if Wants(c, tlvs[j - 1].typ, tlvs[j - 1].ext) then multiset{FactOf(idx, tlvs[j - 1])} else multiset{}
  }

  lemma {:induction false} FilterInside(entries: seq<Entry>, c: Consumer, idx: u8, n: nat)
    requires n <= |entries|
    ensures AllWithin(entries, Filter(entries, c, {}, idx, n))
  {
    if n > 0 {
      FilterInside(entries, c, idx, n - 1);
    }
  }

  lemma {:induction false} EntriesFactsMore(a: seq<Entry>, e: Entry)
    ensures EntriesFacts(a + [e]) == EntriesFacts(a) + EntryFacts(e)
  {
    hide EntryFacts;
    if a == [] {
      assert [e][1..] == [] && a + [e] == [e];
    } else {
      assert (a + [e])[1..] == a[1..] + [e];
      EntriesFactsMore(a[1..], e);
    }
  }

  lemma {:induction false} ShownMore(entries: seq<Entry>, chain: seq<nat>, x: nat, idx: u8)
    requires AllWithin(entries, chain) && AllWithin(entries, chain + [x]) && x < |entries|
    ensures Shown(entries, chain + [x], idx) == Shown(entries, chain, idx) + multiset{FactShown(entries[x], idx)}
  {
    assert (chain + [x])[..|chain|] == chain;
  }

  /** A TLV says a thing about the address exactly if it applies to the address and shows it. */
  lemma {:induction false} ShownIsSaid(e: Entry, idx: u8, f: Fact)
    requires f.index == idx
    ensures EntryFacts(e)[f] == if e.index1 <= idx <= e.index2 && f == FactShown(e, idx) then 1 else 0
  {
    hide ValueFor, EntryFactsFrom;
    EntryCount(e, e.index1, f);
  }

  /** The filter shows what the TLVs say about the address and the entry asks for. */
  lemma {:induction false} FilterShows(entries: seq<Entry>, c: Consumer, idx: u8, n: nat, f: Fact)
    requires n <= |entries| && AllWithin(entries, Filter(entries, c, {}, idx, n)) && f.index == idx
    ensures Shown(entries, Filter(entries, c, {}, idx, n), idx)[f] == if Wants(c, f.typ, f.ext) then EntriesFacts(entries[..n])[f] else 0
  {
    hide AllWithin, Shown, EntriesFacts, EntryFacts, ValueFor;
    FilterInside(entries, c, idx, n);
    if n == 0 {
      NothingShown(entries, idx);
    } else {
      var e, before := entries[n - 1], Filter(entries, c, {}, idx, n - 1);
      FilterInside(entries, c, idx, n - 1);
      FilterShows(entries, c, idx, n - 1, f);
      assert entries[..n] == entries[..n - 1] + [e];
      EntriesFactsMore(entries[..n - 1], e);
      ShownIsSaid(e, idx, f);
      if CompareTypes(e, c) == 0 && Applies(entries, {}, idx, n - 1) {
        ShownMore(entries, before, n - 1, idx);
      }
    }
  }

  lemma {:induction false} NothingShown(entries: seq<Entry>, idx: u8)
    ensures AllWithin(entries, []) && Shown(entries, [], idx) == multiset{} && EntriesFacts(entries[..0]) == multiset{}
  {
  }

  /** A chain shows things about its address only. */
  lemma {:induction false} ShownIndex(entries: seq<Entry>, chain: seq<nat>, idx: u8, f: Fact)
    requires AllWithin(entries, chain) && f.index != idx
    ensures Shown(entries, chain, idx)[f] == 0
    decreases chain
  {
    hide ValueFor;
    if chain != [] {
      WithinToo(entries, chain);
      ShownIndex(entries, chain[..|chain| - 1], idx, f);
    }
  }

  lemma {:induction false} AttachedCount(tlvs: seq<AddrTlv>, idx: u8, c: Consumer, j: nat, f: Fact)
    requires j <= |tlvs|
    ensures Attached(tlvs, idx, c, j)[f] == if f.index == idx && Wants(c, f.typ, f.ext) then SomeFacts(idx, tlvs, j)[f] else 0
  {
    if j > 0 {
      AttachedCount(tlvs, idx, c, j - 1, f);
    }
  }

  lemma {:induction false} SomeFactsIndex(k: int, tlvs: seq<AddrTlv>, j: nat, f: Fact)
    requires j <= |tlvs| && f.index != k
    ensures SomeFacts(k, tlvs, j)[f] == 0
  {
    if j > 0 {
      SomeFactsIndex(k, tlvs, j - 1, f);
    }
  }

  /** What a block says about an address is what is attached to that address. */
  lemma {:induction false} BlockFactsAt(block: Block, k: nat, idx: nat, f: Fact)
    requires k <= |block| && idx < |block| && f.index == idx
    ensures BlockFacts(block, k)[f] == if idx < k then SomeFacts(idx, block[idx], |block[idx]|)[f] else 0
  {
    hide SomeFacts;
    if k > 0 {
      BlockFactsAt(block, k - 1, idx, f);
      if idx != k - 1 {
        SomeFactsIndex(k - 1, block[k - 1], |block[k - 1]|, f);
      }
    }
  }

  /** What an entry gets for address `idx` of a block that was written and read back: exactly what was attached to the
      address of the type the entry asks for, with its values. No entry may ask for what another one asks for, and no
      address may mislead the writer. */
  lemma {:induction false} ConsumerGetsAttached(buf: seq<byte>, p: nat, eob: int, block: Block, consumers: seq<Consumer>, idx: nat, c: nat)
    requires |block| <= 255 && Fits(block) && Harmless(block) && idx < |block|
    requires Carries(buf, p, EncodeTlvBlock(block)) && p + |EncodeTlvBlock(block)| <= eob <= |buf|
    requires SortedConsumers(consumers) && Separated(consumers) && c < |consumers|
    ensures var r := ParseTlvBlock(buf, p, eob, |block|);
            && r.Ok?
            && var chain := Merge(r.value.0, consumers, {}, idx, Start(consumers))[c];
            && AllWithin(r.value.0, chain)
            && Shown(r.value.0, chain, idx) == Attached(block[idx], idx, consumers[c], |block[idx]|)
  {
    hide Carries, ParseTlvBlock, EncodeTlvBlock, Harmless, Fits, Merge, Filter, Shown, Attached, Separated, SortedConsumers, SortedEntries;
    hide EntriesFacts, BlockFacts, AllWithin, SomeFacts;
    AddressTlvRoundTrip(buf, p, eob, block);
    BlockIsSorted(buf, p, eob, |block|);
    var entries := ParseTlvBlock(buf, p, eob, |block|).value.0;
    MergeIsFilterIff(consumers);
    assert SameAsFilter(entries, consumers, {}, idx);
    var chain := Filter(entries, consumers[c], {}, idx, |entries|);
    FilterInside(entries, consumers[c], idx, |entries|);
    assert entries[..|entries|] == entries;
    forall f: Fact
      ensures Shown(entries, chain, idx)[f] == Attached(block[idx], idx, consumers[c], |block[idx]|)[f]
    {
      AttachedCount(block[idx], idx, consumers[c], |block[idx]|, f);
      if f.index == idx {
        FilterShows(entries, consumers[c], idx, |entries|, f);
        BlockFactsAt(block, |block|, idx, f);
      } else {
        ShownIndex(entries, chain, idx, f);
      }
    }
  }
}
