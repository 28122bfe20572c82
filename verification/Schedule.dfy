/** How the reader hands the TLVs of a block to the entries of a consumer: a walk over two sorted lists
    (`_schedule_tlvblock`), and how the list of consumer entries is sorted (`_add_consumer`). */
module Schedule {
  import opened Wire
  import opened Seqs
  import opened Tlv
  import opened AddressTlvs

  /** An entry of a consumer: it asks for the TLVs of a type, with any extension or with a certain one. */
  datatype Consumer = Consumer(typ: u8, ext: u8, matchExt: bool, matchLength: bool, minLength: nat, maxLength: nat)

  function ConsumerOrder(c: Consumer): nat
  {
    256 * c.typ + c.ext
  }

  /** Negative, zero or positive as the TLV comes before, belongs to or comes behind the consumer entry. */
  function CompareTypes(e: Entry, c: Consumer): int
  {
    if c.matchExt then Order(e.typ, e.ext) - ConsumerOrder(c) else e.typ - c.typ
  }

  /** `CompareTypes` at positions of the lists; a list that is used up counts as infinite. */
  function Compare(entries: seq<Entry>, consumers: seq<Consumer>, ti: nat, ci: nat): int
    requires ti <= |entries| && ci <= |consumers|
  {
    if ci == |consumers| then (if ti == |entries| then 0 else -1)
    else if ti == |entries| then 1
    else CompareTypes(entries[ti], consumers[ci])
  }

  /** Whether a TLV applies to address `idx` and was not dropped for it. */
  predicate Applies(entries: seq<Entry>, dropped: set<nat>, idx: u8, i: nat)
    requires i < |entries|
  {
    i !in dropped && entries[i].index1 <= idx <= entries[i].index2
  }

  // ---------- the merge ----------

  /** The two positions and, for each consumer entry, the positions of the TLVs it got so far. */
  datatype State = State(ti: nat, ci: nat, chains: seq<seq<nat>>)

  ghost predicate Within(entries: seq<Entry>, consumers: seq<Consumer>, st: State)
  {
    st.ti <= |entries| && st.ci <= |consumers| == |st.chains|
  }

  /** One round of the merge. */
  function Step(entries: seq<Entry>, consumers: seq<Consumer>, dropped: set<nat>, idx: u8, st: State): (r: State)
    requires Within(entries, consumers, st) && !(st.ti == |entries| && st.ci == |consumers|)
    ensures Within(entries, consumers, r) && r.ti >= st.ti && r.ci >= st.ci && r.ti + r.ci > st.ti + st.ci
  {
    var order := Compare(entries, consumers, st.ti, st.ci);
    var hits := st.ti < |entries| && st.ci < |consumers| && order == 0 && Applies(entries, dropped, idx, st.ti);
    var chains := if hits then st.chains[st.ci := st.chains[st.ci] + [st.ti]] else st.chains;
    var ti := if st.ti < |entries| && order <= 0 then st.ti + 1 else st.ti;
    var ci := if Compare(entries, consumers, ti, st.ci) > 0 then st.ci + 1 else st.ci;
    State(ti, ci, chains)
  }

  function Merge(entries: seq<Entry>, consumers: seq<Consumer>, dropped: set<nat>, idx: u8, st: State): (r: seq<seq<nat>>)
    requires Within(entries, consumers, st)
    ensures |r| == |consumers|
    decreases |entries| + |consumers| - st.ti - st.ci
  {
    if st.ti == |entries| && st.ci == |consumers| then st.chains
    else Merge(entries, consumers, dropped, idx, Step(entries, consumers, dropped, idx, st))
  }

  function Start(consumers: seq<Consumer>): State
  {
    State(0, 0, seq(|consumers|, i => []))
  }

  // ---------- the filter ----------

  /** The TLVs among the first `n` that belong to a consumer entry and apply to the address, in list order. */
  function Filter(entries: seq<Entry>, c: Consumer, dropped: set<nat>, idx: u8, n: nat): seq<nat>
    requires n <= |entries|
  {
    if n == 0 then []
    else
      var before := Filter(entries, c, dropped, idx, n - 1);
      if CompareTypes(entries[n - 1], c) == 0 && Applies(entries, dropped, idx, n - 1) then before + [n - 1] else before
  }

  ghost predicate Ascending(chain: seq<nat>)
  {
    forall i, j :: 0 <= i < j < |chain| ==> chain[i] < chain[j]
  }

  lemma {:induction false} AscendingLonger(chain: seq<nat>, x: nat)
    requires Ascending(chain) && forall y :: y in chain ==> y < x
    ensures Ascending(chain + [x])
  {
    forall i, j | 0 <= i < j < |chain + [x]|
      ensures (chain + [x])[i] < (chain + [x])[j]
    {
      assert chain[i] in chain;
    }
  }

  /** The filter holds, in their order, the TLVs of the type asked for that say something about the address and were not dropped. */
  lemma {:induction false} FilterIs(entries: seq<Entry>, c: Consumer, dropped: set<nat>, idx: u8, n: nat)
    requires n <= |entries|
    ensures Ascending(Filter(entries, c, dropped, idx, n))
    ensures forall i: nat :: i in Filter(entries, c, dropped, idx, n)
                             <==> i < n && entries[i].typ == c.typ && (c.matchExt ==> entries[i].ext == c.ext)
                                  && entries[i].index1 <= idx <= entries[i].index2 && i !in dropped
  {
    if n > 0 {
      FilterIs(entries, c, dropped, idx, n - 1);
      AscendingLonger(Filter(entries, c, dropped, idx, n - 1), n - 1);
    }
  }

  ghost predicate SortedEntries(entries: seq<Entry>)
  {
    forall i, j :: 0 <= i < j < |entries| ==> Order(entries[i].typ, entries[i].ext) <= Order(entries[j].typ, entries[j].ext)
  }

  ghost predicate SortedConsumers(consumers: seq<Consumer>)
  {
    forall i, j :: 0 <= i < j < |consumers| ==> ConsumerOrder(consumers[i]) <= ConsumerOrder(consumers[j])
  }

  /** Whether some type and extension belong to both entries. */
  predicate Overlap(c: Consumer, d: Consumer)
  {
    c.typ == d.typ && (c.matchExt && d.matchExt ==> c.ext == d.ext)
  }

  /** No type and extension belongs to two entries. */
  ghost predicate Separated(consumers: seq<Consumer>)
  {
    forall i, j :: 0 <= i < j < |consumers| ==> !Overlap(consumers[i], consumers[j])
  }

  /** `Overlap` is what it says. */
  lemma OverlapMeansShared(c: Consumer, d: Consumer)
    ensures Overlap(c, d) <==> exists e: Entry :: CompareTypes(e, c) == 0 && CompareTypes(e, d) == 0
  {
    if Overlap(c, d) {
      var e := Entry(c.typ, if c.matchExt then c.ext else d.ext, 0, 0, 0, [], false);
      assert CompareTypes(e, c) == 0 && CompareTypes(e, d) == 0;
    }
  }

  /** What the walk keeps: every entry has what a filter of the TLVs passed so far gives it, and the entries passed will
      not get any more. */
  ghost predicate Invariant(entries: seq<Entry>, consumers: seq<Consumer>, dropped: set<nat>, idx: u8, st: State)
  {
    && Within(entries, consumers, st)
    && (forall c :: 0 <= c < |consumers| ==> st.chains[c] == Filter(entries, consumers[c], dropped, idx, st.ti))
    && (forall c, i :: 0 <= c < st.ci && st.ti <= i < |entries| ==> CompareTypes(entries[i], consumers[c]) > 0)
  }

  lemma BehindIsBehind(e: Entry, f: Entry, c: Consumer)
    requires CompareTypes(e, c) > 0 && Order(e.typ, e.ext) <= Order(f.typ, f.ext)
    ensures CompareTypes(f, c) > 0
  {
  }

  lemma BeforeIsBefore(e: Entry, c: Consumer, d: Consumer)
    requires CompareTypes(e, c) <= 0 && ConsumerOrder(c) <= ConsumerOrder(d) && !Overlap(c, d)
    ensures CompareTypes(e, d) < 0
  {
  }

  lemma StepKeepsChains(entries: seq<Entry>, consumers: seq<Consumer>, dropped: set<nat>, idx: u8, st: State, c: nat)
    requires SortedEntries(entries) && SortedConsumers(consumers) && Separated(consumers) && Invariant(entries, consumers, dropped, idx, st)
    requires !(st.ti == |entries| && st.ci == |consumers|) && c < |consumers|
    ensures var r := Step(entries, consumers, dropped, idx, st); r.chains[c] == Filter(entries, consumers[c], dropped, idx, r.ti)
  {
    if st.ti < |entries| && st.ci < c {
      if Compare(entries, consumers, st.ti, st.ci) <= 0 {
        BeforeIsBefore(entries[st.ti], consumers[st.ci], consumers[c]);
      }
    }
  }

  lemma StepKeepsInvariant(entries: seq<Entry>, consumers: seq<Consumer>, dropped: set<nat>, idx: u8, st: State)
    requires SortedEntries(entries) && SortedConsumers(consumers) && Separated(consumers) && Invariant(entries, consumers, dropped, idx, st)
    requires !(st.ti == |entries| && st.ci == |consumers|)
    ensures Invariant(entries, consumers, dropped, idx, Step(entries, consumers, dropped, idx, st))
  {
    var r := Step(entries, consumers, dropped, idx, st);
    forall c | 0 <= c < |consumers|
      ensures r.chains[c] == Filter(entries, consumers[c], dropped, idx, r.ti)
    {
      StepKeepsChains(entries, consumers, dropped, idx, st, c);
    }
    hide Filter, Separated, SortedConsumers;
    forall c, i | 0 <= c < r.ci && r.ti <= i < |entries|
      ensures CompareTypes(entries[i], consumers[c]) > 0
    {
      if c == st.ci && i > r.ti {
        BehindIsBehind(entries[r.ti], entries[i], consumers[c]);
      }
    }
  }

  lemma {:induction false} MergeFilters(entries: seq<Entry>, consumers: seq<Consumer>, dropped: set<nat>, idx: u8, st: State)
    requires SortedEntries(entries) && SortedConsumers(consumers) && Separated(consumers) && Invariant(entries, consumers, dropped, idx, st)
    ensures forall c :: 0 <= c < |consumers| ==>
              Merge(entries, consumers, dropped, idx, st)[c] == Filter(entries, consumers[c], dropped, idx, |entries|)
    decreases |entries| + |consumers| - st.ti - st.ci
  {
    hide Filter, Separated, SortedConsumers, SortedEntries;
    if !(st.ti == |entries| && st.ci == |consumers|) {
      StepKeepsInvariant(entries, consumers, dropped, idx, st);
      hide Step;
      MergeFilters(entries, consumers, dropped, idx, Step(entries, consumers, dropped, idx, st));
    }
  }

  /** Whatever the entries ask for, no entry is given a TLV it does not ask for, nor one twice. */
  lemma {:induction false} MergeGivesWanted(entries: seq<Entry>, consumers: seq<Consumer>, dropped: set<nat>, idx: u8, st: State, c: nat)
    requires Within(entries, consumers, st) && c < |consumers|
    requires Ascending(st.chains[c]) && forall i :: i in st.chains[c] ==> i < st.ti && i in Filter(entries, consumers[c], dropped, idx, |entries|)
    ensures var chain := Merge(entries, consumers, dropped, idx, st)[c];
            Ascending(chain) && forall i :: i in chain ==> i in Filter(entries, consumers[c], dropped, idx, |entries|)
    decreases |entries| + |consumers| - st.ti - st.ci
  {
    if !(st.ti == |entries| && st.ci == |consumers|) {
      FilterIs(entries, consumers[c], dropped, idx, |entries|);
      var r := Step(entries, consumers, dropped, idx, st);
      AscendingLonger(st.chains[c], st.ti);
      MergeGivesWanted(entries, consumers, dropped, idx, r, c);
    }
  }

  /** Whether the merge gives every entry what a plain filter gives it. */
  ghost predicate SameAsFilter(entries: seq<Entry>, consumers: seq<Consumer>, dropped: set<nat>, idx: u8)
  {
    var chains := Merge(entries, consumers, dropped, idx, Start(consumers));
    forall c :: 0 <= c < |consumers| ==> chains[c] == Filter(entries, consumers[c], dropped, idx, |entries|)
  }

  lemma {:induction false} OneTlvGoesToOne(entries: seq<Entry>, consumers: seq<Consumer>, idx: u8, st: State, i: nat, j: nat)
    requires |entries| == 1 && Within(entries, consumers, st) && i < j < |consumers|
    requires st.ti == 1 ==> st.chains[i] == [] || st.chains[j] == []
    requires st.ti == 0 ==> forall c :: 0 <= c < |consumers| ==> st.chains[c] == []
    ensures var r := Merge(entries, consumers, {}, idx, st); r[i] == [] || r[j] == []
    decreases 1 + |consumers| - st.ti - st.ci
  {
    if !(st.ti == 1 && st.ci == |consumers|) {
      OneTlvGoesToOne(entries, consumers, idx, Step(entries, consumers, {}, idx, st), i, j);
    }
  }

  /** A TLV that belongs to both of two overlapping entries, as each of them alone would find. */
  lemma SharedTlv(c: Consumer, d: Consumer) returns (e: Entry)
    requires Overlap(c, d)
    ensures Filter([e], c, {}, 0, 1) == [0] && Filter([e], d, {}, 0, 1) == [0]
  {
    e := Entry(c.typ, if c.matchExt then c.ext else d.ext, 0, 0, 0, [], false);
    assert Applies([e], {}, 0, 0);
    assert Filter([e], c, {}, 0, 0) == [] && Filter([e], d, {}, 0, 0) == [];
  }

  /** The merge equals the filter on all lists exactly if no type and extension belongs to two entries. */
  lemma MergeIsFilterIff(consumers: seq<Consumer>)
    requires SortedConsumers(consumers)
    ensures Separated(consumers)
       <==> forall entries, dropped, idx :: SortedEntries(entries) ==> SameAsFilter(entries, consumers, dropped, idx)
  {
    if Separated(consumers) {
      forall entries, dropped, idx | SortedEntries(entries)
        ensures SameAsFilter(entries, consumers, dropped, idx)
      {
        MergeFilters(entries, consumers, dropped, idx, Start(consumers));
      }
    } else {
      var i, j :| 0 <= i < j < |consumers| && Overlap(consumers[i], consumers[j]);
      var e := SharedTlv(consumers[i], consumers[j]);
      hide Merge, Filter;
      OneTlvGoesToOne([e], consumers, 0, Start(consumers), i, j);
      assert SortedEntries([e]) && !SameAsFilter([e], consumers, {}, 0);
    }
  }

  // ---------- the walk with pointers ----------

  /** From `first` on, the links spell the positions in `chain`; -1 is the null pointer. */
  ghost predicate Spells(next: seq<int>, first: int, chain: seq<nat>)
    decreases chain
  {
    if chain == [] then first == -1
    else 0 <= chain[0] < |next| && first == chain[0] && Spells(next, next[first], chain[1..])
  }

  lemma {:induction false} SpellsElsewhere(next: seq<int>, next': seq<int>, first: int, chain: seq<nat>)
    requires Spells(next, first, chain) && |next| == |next'|
    requires forall i :: i in chain ==> 0 <= i < |next| ==> next'[i] == next[i]
    ensures Spells(next', first, chain)
    decreases chain
  {
    if chain != [] {
      assert forall i :: i in chain[1..] ==> i in chain;
      SpellsElsewhere(next, next', next[first], chain[1..]);
    }
  }

  /** Linking a new last element. */
  lemma {:induction false} SpellsLonger(next: seq<int>, first: int, chain: seq<nat>, x: nat)
    requires chain != [] && Spells(next, first, chain) && Ascending(chain) && chain[|chain| - 1] < x < |next| && next[x] == -1
    ensures 0 <= chain[|chain| - 1] < |next| && Spells(next[chain[|chain| - 1] := x], first, chain + [x])
    decreases chain
  {
    var last := chain[|chain| - 1];
    if |chain| == 1 {
      assert (chain + [x])[1..] == [x] && [x][1..] == [];
    } else {
      assert Ascending(chain[1..]);
      SpellsLonger(next, next[first], chain[1..], x);
      assert (chain + [x])[1..] == chain[1..] + [x];
    }
  }

  /** Puts TLV `x` at the end of a list of TLVs. */
  method LinkLast(next: array<int>, first: int, x: nat, ghost chain: seq<nat>)
    requires chain != [] && Spells(next[..], first, chain) && Ascending(chain) && chain[|chain| - 1] < x < next.Length && next[x] == -1
    modifies next
    ensures 0 <= chain[|chain| - 1] < next.Length && next[..] == old(next[..])[chain[|chain| - 1] := x]
    ensures Spells(next[..], first, chain + [x])
  {
    var tlv := first;
    ghost var k := 0;
    while next[tlv] != -1
      invariant 0 <= k < |chain| && tlv == chain[k] && 0 <= tlv < next.Length && Spells(next[..], tlv, chain[k..])
      decreases |chain| - k
    {
      assert chain[k..][1..] == chain[k + 1..];
      tlv := next[tlv];
      k := k + 1;
    }
    assert chain[k..][1..] == chain[k + 1..];
    assert k == |chain| - 1;
    SpellsLonger(next[..], first, chain, x);
    next[tlv] := x;
  }

  /** Every TLV is in at most one of the lists, and the lists hold TLVs that were passed. */
  ghost predicate Tidy(st: State)
  {
    && (forall c :: 0 <= c < |st.chains| ==> Ascending(st.chains[c]))
    && (forall c, x :: 0 <= c < |st.chains| && x in st.chains[c] ==> x < st.ti)
    && (forall c, d, x :: 0 <= c < d < |st.chains| && x in st.chains[c] ==> x !in st.chains[d])
  }

  lemma StepIsTidy(entries: seq<Entry>, consumers: seq<Consumer>, dropped: set<nat>, idx: u8, st: State)
    requires Within(entries, consumers, st) && !(st.ti == |entries| && st.ci == |consumers|) && Tidy(st)
    ensures Tidy(Step(entries, consumers, dropped, idx, st))
  {
    if st.ci < |consumers| {
      AscendingLonger(st.chains[st.ci], st.ti);
    }
    var r := Step(entries, consumers, dropped, idx, st);
    assert forall c :: 0 <= c < |r.chains| ==> r.chains[c] == st.chains[c] || (c == st.ci && r.chains[c] == st.chains[c] + [st.ti]);
  }

  /** The lists of the entries reached so far are spelled by the links; the others are empty. */
  ghost predicate AllSpelled(next: seq<int>, first: seq<int>, st: State)
    requires |first| == |st.chains|
  {
    && (forall c :: 0 <= c < |first| && c <= st.ci ==> Spells(next, first[c], st.chains[c]))
    && (forall c :: 0 <= c < |first| && c > st.ci ==> st.chains[c] == [])
  }

  /** Gives TLV `st.ti` to entry `st.ci`. */
  method GiveTo(next: array<int>, first: array<int>, ghost st: State, x: nat, c: nat)
    requires next != first && first.Length == |st.chains| && AllSpelled(next[..], first[..], st) && Tidy(st)
    requires x == st.ti < next.Length && c == st.ci < first.Length
    modifies next, first
    ensures AllSpelled(next[..], first[..], st.(chains := st.chains[c := st.chains[c] + [x]]))
  {
    ghost var next0, chain := next[..], st.chains[c];
    next[x] := -1;
    ghost var next1 := next[..];
    forall d | 0 <= d < first.Length && d <= c
      ensures Spells(next1, first[..][d], st.chains[d])
    {
      SpellsElsewhere(next0, next1, first[d], st.chains[d]);
    }
    if first[c] == -1 {
      assert chain == [];
      first[c] := x;
      assert [x][1..] == [] && chain + [x] == [x];
      assert Spells(next1, x, [x]);
    } else {
      assert Spells(next1, first[..][c], chain);
      assert chain != [] && chain[|chain| - 1] in chain;
      LinkLast(next, first[c], x, chain);
      ghost var next2 := next[..];
      forall d | 0 <= d < first.Length && d < c
        ensures Spells(next2, first[..][d], st.chains[d])
      {
        assert chain[|chain| - 1] in chain;
        SpellsElsewhere(next1, next2, first[d], st.chains[d]);
      }
    }
  }

  predicate BadLength(e: Entry, c: Consumer)
  {
    c.matchLength && (e.length < c.minLength || e.length > c.maxLength)
  }

  /** Whether a TLV given to an entry has a length the entry does not take. */
  ghost predicate LengthFails(entries: seq<Entry>, consumers: seq<Consumer>, chains: seq<seq<nat>>)
  {
    exists c, i :: 0 <= c < |chains| && c < |consumers| && i in chains[c] && i < |entries| && BadLength(entries[i], consumers[c])
  }

  lemma LengthFailsLonger(entries: seq<Entry>, consumers: seq<Consumer>, chains: seq<seq<nat>>, c: nat, x: nat)
    requires c < |chains| == |consumers| && x < |entries|
    ensures LengthFails(entries, consumers, chains[c := chains[c] + [x]])
       <==> LengthFails(entries, consumers, chains) || BadLength(entries[x], consumers[c])
  {
    var longer := chains[c := chains[c] + [x]];
    if LengthFails(entries, consumers, chains) {
      var d, i :| 0 <= d < |chains| && d < |consumers| && i in chains[d] && i < |entries| && BadLength(entries[i], consumers[d]);
      assert i in longer[d];
    }
    if BadLength(entries[x], consumers[c]) {
      assert x in longer[c];
    }
  }

  /** The value each TLV given to an entry shows: its share for this address. */
  ghost predicate ShowsValues(entries: seq<Entry>, single: seq<seq<byte>>, idx: u8, st: State)
    requires |single| == |entries|
  {
    && (forall i :: 0 <= i < |entries| && !entries[i].multi ==> single[i] == entries[i].value)
    && (forall c, i :: 0 <= c < |st.chains| && i in st.chains[c] && i < |entries| ==> single[i] == ValueFor(entries[i], idx))
  }

  /** One round of the walk. */
  method Round(entries: seq<Entry>, consumers: seq<Consumer>, dropped: set<nat>, idx: u8,
               next: array<int>, first: array<int>, single: array<seq<byte>>, tlv: nat, entry: nat, ghost st: State)
    returns (tlv': nat, entry': nat, bad: bool)
    requires next != first && next.Length == single.Length == |entries| && first.Length == |consumers|
    requires Within(entries, consumers, st) && st.ti == tlv && st.ci == entry && !(tlv == |entries| && entry == |consumers|)
    requires AllSpelled(next[..], first[..], st) && Tidy(st) && ShowsValues(entries, single[..], idx, st)
    modifies next, first, single
    ensures var r := Step(entries, consumers, dropped, idx, st);
            && tlv' == r.ti && entry' == r.ci && AllSpelled(next[..], first[..], r) && Tidy(r) && ShowsValues(entries, single[..], idx, r)
            && (LengthFails(entries, consumers, r.chains) <==> LengthFails(entries, consumers, st.chains) || bad)
  {
    tlv', entry', bad := tlv, entry, false;
    ghost var r := Step(entries, consumers, dropped, idx, st);
    StepIsTidy(entries, consumers, dropped, idx, st);
    var applies := tlv < |entries| && Applies(entries, dropped, idx, tlv);
    var hits := applies && entry < |consumers| && CompareTypes(entries[tlv], consumers[entry]) == 0;
    if applies && entries[tlv].multi {
      single[tlv] := ValueFor(entries[tlv], idx);
    }
    ghost var mid := st;
    if Compare(entries, consumers, tlv, entry) >= 0 && hits {
      bad := BadLength(entries[tlv], consumers[entry]);
      LengthFailsLonger(entries, consumers, st.chains, entry, tlv);
      GiveTo(next, first, st, tlv, entry);
      mid := st.(chains := st.chains[entry := st.chains[entry] + [tlv]]);
    }
    assert mid.chains == r.chains && AllSpelled(next[..], first[..], mid);
    if tlv < |entries| && Compare(entries, consumers, tlv, entry) <= 0 {
      tlv' := tlv + 1;
    }
    if Compare(entries, consumers, tlv', entry) > 0 {
      entry' := entry + 1;
      if entry' < |consumers| {
        first[entry'] := -1;
      }
    }
  }

  /** Gives the TLVs of a block to the entries of a consumer for address `idx`: `first` of an entry is its first TLV,
      `next` of a TLV the one behind it, and `single` the value of a TLV for this address. */
  method ScheduleTlvBlock(entries: seq<Entry>, consumers: seq<Consumer>, dropped: set<nat>, idx: u8,
                          next: array<int>, first: array<int>, single: array<seq<byte>>)
    returns (failed: bool)
    requires next != first && next.Length == single.Length == |entries| && first.Length == |consumers|
    requires forall i :: 0 <= i < |entries| && !entries[i].multi ==> single[i] == entries[i].value
    modifies next, first, single
    ensures var chains := Merge(entries, consumers, dropped, idx, Start(consumers));
            && (forall c :: 0 <= c < |consumers| ==> Spells(next[..], first[c], chains[c]))
            && (forall c, i :: 0 <= c < |consumers| && i in chains[c] && i < |entries| ==> single[i] == ValueFor(entries[i], idx))
            && (failed <==> exists c, i :: 0 <= c < |consumers| && i in chains[c] && i < |entries| && consumers[c].matchLength
                                           && !(consumers[c].minLength <= entries[i].length <= consumers[c].maxLength))
  {
    hide Step, Tidy, Spells, LengthFails;
    ghost var st := Start(consumers);
    var tlv, entry := 0, 0;
    failed := false;
    if entry < |consumers| {
      first[entry] := -1;
    }
    StartIsTidy(entries, consumers, next[..], first[..]);
    while entry < |consumers| || tlv < |entries|
      invariant Within(entries, consumers, st) && st.ti == tlv && st.ci == entry
      invariant Merge(entries, consumers, dropped, idx, Start(consumers)) == Merge(entries, consumers, dropped, idx, st)
      invariant AllSpelled(next[..], first[..], st) && Tidy(st) && ShowsValues(entries, single[..], idx, st)
      invariant failed <==> LengthFails(entries, consumers, st.chains)
      decreases |entries| + |consumers| - tlv - entry
    {
      var bad;
      tlv, entry, bad := Round(entries, consumers, dropped, idx, next, first, single, tlv, entry, st);
      failed := failed || bad;
      st := Step(entries, consumers, dropped, idx, st);
    }
    LengthFailsIff(entries, consumers, st.chains);
  }

  lemma {:induction false} LengthFailsIff(entries: seq<Entry>, consumers: seq<Consumer>, chains: seq<seq<nat>>)
    requires |chains| == |consumers|
    ensures LengthFails(entries, consumers, chains)
       <==> exists c, i :: 0 <= c < |consumers| && i in chains[c] && i < |entries| && consumers[c].matchLength
                           && !(consumers[c].minLength <= entries[i].length <= consumers[c].maxLength)
  {
  }

  lemma StartIsTidy(entries: seq<Entry>, consumers: seq<Consumer>, next: seq<int>, first: seq<int>)
    requires |first| == |consumers| && (|first| > 0 ==> first[0] == -1)
    ensures Tidy(Start(consumers)) && AllSpelled(next, first, Start(consumers)) && !LengthFails(entries, consumers, Start(consumers).chains)
  {
  }

  // ---------- sorting the consumer entries ----------

  /** Where a new entry goes: behind the last one that does not come after it. */
  function PlaceFor(list: seq<Consumer>, c: Consumer, k: nat): (r: nat)
    requires k <= |list|
    ensures r <= k
  {
    if k == 0 || ConsumerOrder(list[k - 1]) <= ConsumerOrder(c) then k else PlaceFor(list, c, k - 1)
  }

  function Fixed(c: Consumer): Consumer
  {
    c.(maxLength := if c.minLength > c.maxLength then c.minLength else c.maxLength)
  }

  /** The first `k` entries in their order. */
  function Listed(entries: seq<Consumer>, k: nat): seq<Consumer>
    requires k <= |entries|
  {
    if k == 0 then []
    else
      var before := Listed(entries, k - 1);
      Inserted(before, PlaceFor(before, entries[k - 1], |before|), Fixed(entries[k - 1]))
  }

  lemma {:induction false} PlaceIsRight(list: seq<Consumer>, c: Consumer, k: nat)
    requires SortedConsumers(list) && k <= |list|
    ensures var r := PlaceFor(list, c, k);
            && (forall i :: 0 <= i < r ==> ConsumerOrder(list[i]) <= ConsumerOrder(c))
            && (forall i :: r <= i < k ==> ConsumerOrder(list[i]) > ConsumerOrder(c))
  {
    if k > 0 && ConsumerOrder(list[k - 1]) > ConsumerOrder(c) {
      PlaceIsRight(list, c, k - 1);
    }
  }

  lemma InsertedHolds(list: seq<Consumer>, k: nat, c: Consumer)
    requires k <= |list|
    ensures multiset(Inserted(list, k, c)) == multiset(list) + multiset{c}
  {
    assert list == list[..k] + list[k..];
  }

  lemma {:induction false} InsertedIsSorted(list: seq<Consumer>, c: Consumer)
    requires SortedConsumers(list)
    ensures SortedConsumers(Inserted(list, PlaceFor(list, c, |list|), Fixed(c)))
  {
    PlaceIsRight(list, c, |list|);
  }

  /** The list is sorted and holds the entries, each once. */
  lemma {:induction false} ListedIsSorted(entries: seq<Consumer>, k: nat)
    requires k <= |entries|
    ensures SortedConsumers(Listed(entries, k))
    ensures multiset(Listed(entries, k)) == multiset(seq(k, i requires 0 <= i < k => Fixed(entries[i])))
  {
    hide SortedConsumers, PlaceFor;
    if k == 0 {
      NoneSorted();
    } else {
      var before := Listed(entries, k - 1);
      ListedIsSorted(entries, k - 1);
      InsertedIsSorted(before, entries[k - 1]);
      InsertedHolds(before, PlaceFor(before, entries[k - 1], |before|), Fixed(entries[k - 1]));
      hide Inserted;
      var now := seq(k, i requires 0 <= i < k => Fixed(entries[i]));
      assert now == seq(k - 1, i requires 0 <= i < k - 1 => Fixed(entries[i])) + [Fixed(entries[k - 1])];
    }
  }

  function AllFixed(entries: seq<Consumer>): (r: seq<Consumer>)
    ensures |r| == |entries|
  {
    seq(|entries|, i requires 0 <= i < |entries| => Fixed(entries[i]))
  }

  /** The entries of one type and extension, in their order. */
  function OfOrder(list: seq<Consumer>, order: nat): seq<Consumer>
  {
    if list == [] then [] else (if ConsumerOrder(list[0]) == order then [list[0]] else []) + OfOrder(list[1..], order)
  }

  lemma {:induction false} OfOrderJoin(a: seq<Consumer>, b: seq<Consumer>, order: nat)
    ensures OfOrder(a + b, order) == OfOrder(a, order) + OfOrder(b, order)
  {
    if a == [] {
      assert a + b == b;
    } else {
      hide ConsumerOrder;
      assert (a + b)[1..] == a[1..] + b && (a + b)[0] == a[0];
      OfOrderJoin(a[1..], b, order);
      Associates(if ConsumerOrder(a[0]) == order then [a[0]] else [], OfOrder(a[1..], order), OfOrder(b, order));
    }
  }

  lemma {:induction false} NoneOfOrder(list: seq<Consumer>, order: nat)
    requires forall i :: 0 <= i < |list| ==> ConsumerOrder(list[i]) > order
    ensures OfOrder(list, order) == []
  {
    if list != [] {
      NoneOfOrder(list[1..], order);
    }
  }

  /** Entries of one type and extension keep the order they were given in. */
  lemma {:induction false} ListedIsStable(entries: seq<Consumer>, k: nat, order: nat)
    requires k <= |entries|
    ensures OfOrder(Listed(entries, k), order) == OfOrder(AllFixed(entries[..k]), order)
  {
    hide SortedConsumers, PlaceFor, ConsumerOrder, Fixed, OfOrder, Inserted;
    if k > 0 {
      var before, c := Listed(entries, k - 1), entries[k - 1];
      ListedIsSorted(entries, k - 1);
      ListedIsStable(entries, k - 1, order);
      PlaceIsRight(before, c, |before|);
      assert AllFixed(entries[..k]) == AllFixed(entries[..k - 1]) + [Fixed(c)];
      OfOrderJoin(AllFixed(entries[..k - 1]), [Fixed(c)], order);
      StableInsert(before, PlaceFor(before, c, |before|), c, order);
    } else {
      assert AllFixed(entries[..0]) == [];
    }
  }

  lemma {:induction false} StableInsert(list: seq<Consumer>, at: nat, c: Consumer, order: nat)
    requires at <= |list| && forall i :: at <= i < |list| ==> ConsumerOrder(list[i]) > ConsumerOrder(c)
    ensures OfOrder(Inserted(list, at, Fixed(c)), order) == OfOrder(list, order) + OfOrder([Fixed(c)], order)
  {
    hide ConsumerOrder, Fixed;
    var x, y, z := OfOrder(list[..at], order), OfOrder([Fixed(c)], order), OfOrder(list[at..], order);
    assert list == list[..at] + list[at..];
    OfOrderJoin(list[..at], list[at..], order);
    OfOrderJoin(list[..at] + [Fixed(c)], list[at..], order);
    OfOrderJoin(list[..at], [Fixed(c)], order);
    FixedOrder(c);
    if ConsumerOrder(c) == order {
      NoneOfOrder(list[at..], order);
    } else {
      assert [Fixed(c)][1..] == [];
    }
  }

  lemma {:induction false} FixedOrder(c: Consumer)
    ensures ConsumerOrder(Fixed(c)) == ConsumerOrder(c)
  {
  }

  /** A length range is taken as it is given, but for one that ends before it starts: that holds its start only. */
  lemma {:induction false} FixedTakes(c: Consumer, e: Entry)
    requires c.matchLength
    ensures !BadLength(e, Fixed(c)) <==> c.minLength <= e.length && (e.length <= c.maxLength || e.length == c.minLength)
    ensures (Fixed(c).typ, Fixed(c).ext, Fixed(c).matchExt, Fixed(c).matchLength) == (c.typ, c.ext, c.matchExt, c.matchLength)
  {
  }

  lemma NoneSorted()
    ensures SortedConsumers([])
  {
  }

  /** Sorts the entries of a consumer by type and extension; entries of one type keep their order. */
  method AddConsumer(entries: seq<Consumer>) returns (list: seq<Consumer>)
    ensures list == Listed(entries, |entries|)
  {
    list := [];
    for i := 0 to |entries|
      invariant list == Listed(entries, i)
    {
      var k := |list|;
      while k > 0 && ConsumerOrder(list[k - 1]) > ConsumerOrder(entries[i])
        invariant 0 <= k <= |list| && PlaceFor(list, entries[i], |list|) == PlaceFor(list, entries[i], k)
      {
        k := k - 1;
      }
      list := Inserted(list, k, Fixed(entries[i]));
    }
  }
}
