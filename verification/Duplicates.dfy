/** Addresses with several TLVs of one type: exactly which blocks the writer gets wrong. It compares a TLV with the
    first of its type on the address before, but goes on with the run of the last one there. */
module Duplicates {
  import opened Wire
  import opened Seqs
  import opened Tlv
  import opened AddressTlvs

  /** The values of the TLVs of one type on an address, in their order. */
  function ValuesOf(tlvs: seq<AddrTlv>, typ: u8, ext: u8): seq<seq<byte>>
  {
    if tlvs == [] then []
    else
      var last := tlvs[|tlvs| - 1];
      ValuesOf(tlvs[..|tlvs| - 1], typ, ext) + if last.typ == typ && last.ext == ext then [last.value] else []
  }

  /** A run that reaches address `k` has `value` to its end: it ends before `k`, where the type is missing or the length
      is another one, at `k`, where the type occurs again, or later. */
  predicate StaysSame(block: Block, k: nat, typ: u8, ext: u8, value: seq<byte>)
    decreases |block| - k
  {
    k < |block| ==>
      var here := ValuesOf(block[k], typ, ext);
      here == [] || |here[0]| != |value| || (here[0] == value && (|here| > 1 || StaysSame(block, k + 1, typ, ext, value)))
  }

  /** The type occurs more than once on address `k`, the last value there is another one than the first but as long, and
      the addresses that follow show the first value until the run ends. */
  predicate Misleads(block: Block, k: nat, typ: u8, ext: u8)
    requires k < |block|
  {
    var here := ValuesOf(block[k], typ, ext);
    && |here| > 1 && here[|here| - 1] != here[0] && |here[|here| - 1]| == |here[0]|
    && k + 1 < |block| && ValuesOf(block[k + 1], typ, ext) != [] && ValuesOf(block[k + 1], typ, ext)[0] == here[0]
    && StaysSame(block, k + 1, typ, ext, here[0])
  }

  ghost predicate Harmless(block: Block)
  {
    forall k, tlv :: 0 <= k < |block| && tlv in block[k] ==> !Misleads(block, k, tlv.typ, tlv.ext)
  }

  /** No address has two TLVs of the same full type. */
  ghost predicate Unique(block: Block)
  {
    forall k :: 0 <= k < |block| ==> UniqueTypes(block[k])
  }

  ghost predicate UniqueTypes(tlvs: seq<AddrTlv>)
  {
    forall i, j :: 0 <= i < j < |tlvs| ==> !(tlvs[i].typ == tlvs[j].typ && tlvs[i].ext == tlvs[j].ext)
  }

  // ---------- values of one type ----------

  lemma {:induction false} ValuesOfMore(tlvs: seq<AddrTlv>, tlv: AddrTlv, typ: u8, ext: u8)
    ensures ValuesOf(tlvs + [tlv], typ, ext) == ValuesOf(tlvs, typ, ext) + if tlv.typ == typ && tlv.ext == ext then [tlv.value] else []
  {
    assert (tlvs + [tlv])[..|tlvs|] == tlvs;
  }

  lemma {:induction false} ValuesOfNone(tlvs: seq<AddrTlv>, typ: u8, ext: u8)
    ensures ValuesOf(tlvs, typ, ext) == [] <==> forall tlv :: tlv in tlvs ==> !(tlv.typ == typ && tlv.ext == ext)
  {
    if tlvs != [] {
      var before, last := tlvs[..|tlvs| - 1], tlvs[|tlvs| - 1];
      ValuesOfNone(before, typ, ext);
      assert tlvs == before + [last];
    }
  }

  /** The first value is that of the first TLV of the type. */
  lemma {:induction false} FirstValue(tlvs: seq<AddrTlv>, typ: u8, ext: u8)
    ensures var i, values := FirstOfType(tlvs, typ, ext), ValuesOf(tlvs, typ, ext);
            (i < |tlvs| <==> values != []) && (i < |tlvs| ==> values[0] == tlvs[i].value)
  {
    if tlvs != [] {
      var before := tlvs[..|tlvs| - 1];
      FirstValue(before, typ, ext);
      var i, j := FirstOfType(tlvs, typ, ext), FirstOfType(before, typ, ext);
      if j < |before| {
        assert tlvs[j] == before[j] && i == j;
      } else {
        assert forall k :: 0 <= k < |before| ==> tlvs[k] == before[k];
      }
    }
  }

  lemma {:induction false} RepeatsFirst(block: Block, k: nat, tlv: AddrTlv)
    requires k < |block|
    ensures SameAsBefore(block, k, tlv) <==> k > 0 && var before := ValuesOf(block[k - 1], tlv.typ, tlv.ext); before != [] && before[0] == tlv.value
  {
    if k > 0 {
      FirstValue(block[k - 1], tlv.typ, tlv.ext);
    }
  }

  lemma {:induction false} UniqueIsAtMostOne(tlvs: seq<AddrTlv>, typ: u8, ext: u8)
    requires UniqueTypes(tlvs)
    ensures |ValuesOf(tlvs, typ, ext)| <= 1
  {
    if tlvs != [] {
      var before, last := tlvs[..|tlvs| - 1], tlvs[|tlvs| - 1];
      UniqueIsAtMostOne(before, typ, ext);
      ValuesOfNone(before, typ, ext);
    }
  }

  lemma {:induction false} UniqueIsHarmless(block: Block)
    requires Unique(block)
    ensures Harmless(block)
  {
    forall k, tlv | 0 <= k < |block| && tlv in block[k]
      ensures !Misleads(block, k, tlv.typ, tlv.ext)
    {
      UniqueIsAtMostOne(block[k], tlv.typ, tlv.ext);
    }
  }

  // ---------- where the runs of one type lie ----------

  /** A run of several addresses starts with the last value of the first of them, goes on with the first values of the
      others, and passes only addresses with one value. */
  ghost predicate Placed(r: Run, block: Block)
  {
    && r.values != [] && r.first + |r.values| <= |block|
    && (|r.values| > 1 ==> StartsWell(r, block) && forall i :: 0 < i < |r.values| ==> GoesOn(r, block, i))
  }

  ghost predicate StartsWell(r: Run, block: Block)
    requires r.values != [] && r.first < |block|
  {
    var start := ValuesOf(block[r.first], r.typ, r.ext);
    start != [] && r.values[0] == start[|start| - 1]
  }

  ghost predicate GoesOn(r: Run, block: Block, i: int)
    requires 0 < i < |r.values| && r.first + i < |block|
  {
    var here := ValuesOf(block[r.first + i], r.typ, r.ext);
    here != [] && r.values[i] == here[0] && (i < |r.values| - 1 ==> |here| == 1)
  }

  /** The run of its type with the last TLV of that type. */
  ghost predicate Open(r: Run, block: Block)
  {
    && Placed(r, block) && StartsWell(r, block)
    && (|r.values| > 1 ==> |ValuesOf(block[r.Last()], r.typ, r.ext)| == 1)
    && forall i :: r.Last() < i < |block| ==> ValuesOf(block[i], r.typ, r.ext) == []
  }

  /** A written run of several addresses has ended for good: its last address shows the type again, or the next one
      shows another length or, being complete, does not have the type. */
  ghost predicate Closed(r: Run, block: Block)
    requires Placed(r, block)
  {
    |r.values| > 1 ==>
      || |ValuesOf(block[r.Last()], r.typ, r.ext)| > 1
      || (r.Last() + 1 < |block| &&
          var next := ValuesOf(block[r.Last() + 1], r.typ, r.ext);
          if next == [] then r.Last() + 2 < |block| else |next[0]| != r.Length())
  }

  ghost predicate OfType(r: Run, typ: u8, ext: u8)
  {
    r.typ == typ && r.ext == ext
  }

  /** A run of several addresses that starts at address `a`. */
  ghost predicate StartsAt(runs: seq<Run>, a: nat, typ: u8, ext: u8)
  {
    exists r :: r in runs && OfType(r, typ, ext) && r.first == a && |r.values| > 1
  }

  /** The type occurs more than once on address `a`, and the run of the last of these TLVs goes on. */
  ghost predicate Leaves(block: Block, a: nat, typ: u8, ext: u8)
  {
    a + 1 < |block| &&
    var here, next := ValuesOf(block[a], typ, ext), ValuesOf(block[a + 1], typ, ext);
    |here| > 1 && next != [] && |next[0]| == |here[|here| - 1]|
  }

  /** What the writer keeps for one type; `block` is what it has taken up so far. */
  ghost predicate Follows(st: Progress, block: Block, typ: u8, ext: u8)
  {
    && OpenOrNone(st.active, block, typ, ext) && AllClosed(st.emitted, block, typ, ext)
    && forall a: nat :: Leaves(block, a, typ, ext) ==> StartsAt(st.emitted + st.active, a, typ, ext)
  }

  ghost predicate OpenOrNone(active: seq<Run>, block: Block, typ: u8, ext: u8)
  {
    var i := FindRun(active, typ, ext);
    && (if i < |active| then Open(active[i], block) else forall a :: 0 <= a < |block| ==> ValuesOf(block[a], typ, ext) == [])
    && forall x :: 0 <= x < |active| && OfType(active[x], typ, ext) ==> x == i
  }

  ghost predicate AllClosed(emitted: seq<Run>, block: Block, typ: u8, ext: u8)
  {
    forall r :: r in emitted && OfType(r, typ, ext) ==> Placed(r, block) && Closed(r, block)
  }

  /** One TLV more on the last address. */
  function Grown(block: Block, tlv: AddrTlv): Block
    requires block != []
  {
    var k := |block| - 1;
    block[..k] + [block[k] + [tlv]]
  }

  lemma {:induction false} GrownValues(block: Block, tlv: AddrTlv, typ: u8, ext: u8, a: nat)
    requires a < |block|
    ensures ValuesOf(Grown(block, tlv)[a], typ, ext)
         == ValuesOf(block[a], typ, ext) + if a == |block| - 1 && tlv.typ == typ && tlv.ext == ext then [tlv.value] else []
  {
    ValuesOfMore(block[|block| - 1], tlv, typ, ext);
  }

  /** Both blocks show the same of one type. */
  ghost predicate Alike(block: Block, block': Block, typ: u8, ext: u8)
  {
    |block| == |block'| && forall a :: 0 <= a < |block| ==> ValuesOf(block[a], typ, ext) == ValuesOf(block'[a], typ, ext)
  }

  lemma {:induction false} AlikeRuns(r: Run, block: Block, block': Block)
    requires Alike(block, block', r.typ, r.ext)
    ensures Placed(r, block) == Placed(r, block') && Open(r, block) == Open(r, block')
    ensures Placed(r, block) ==> Closed(r, block) == Closed(r, block')
  {
    if r.values != [] && r.first + |r.values| <= |block| {
      forall i | 0 < i < |r.values|
        ensures GoesOn(r, block, i) == GoesOn(r, block', i)
      {
        assert 0 <= r.first + i < |block|;
      }
    }
  }

  /** A run that has ended stays as it is. */
  lemma {:induction false} ClosedStays(r: Run, block: Block, tlv: AddrTlv)
    requires block != [] && Placed(r, block) && Closed(r, block)
    ensures Placed(r, Grown(block, tlv)) && Closed(r, Grown(block, tlv))
  {
    var grown := Grown(block, tlv);
    if |r.values| > 1 {
      PlacedStays(r, block, tlv);
      GrownValues(block, tlv, r.typ, r.ext, r.Last());
      if r.Last() + 1 < |block| {
        GrownValues(block, tlv, r.typ, r.ext, r.Last() + 1);
      }
    }
  }

  lemma {:induction false} PlacedStays(r: Run, block: Block, tlv: AddrTlv)
    requires block != [] && Placed(r, block)
    ensures Placed(r, Grown(block, tlv))
  {
    var grown := Grown(block, tlv);
    if |r.values| > 1 {
      GrownValues(block, tlv, r.typ, r.ext, r.first);
      forall i | 0 < i < |r.values|
        ensures GoesOn(r, grown, i)
      {
        assert GoesOn(r, block, i);
        GrownValues(block, tlv, r.typ, r.ext, r.first + i);
      }
    }
  }

  lemma {:induction false} AllClosedStay(emitted: seq<Run>, block: Block, tlv: AddrTlv, typ: u8, ext: u8)
    requires block != [] && AllClosed(emitted, block, typ, ext)
    ensures AllClosed(emitted, Grown(block, tlv), typ, ext)
  {
    forall r | r in emitted && OfType(r, typ, ext)
      ensures Placed(r, Grown(block, tlv)) && Closed(r, Grown(block, tlv))
    {
      ClosedStays(r, block, tlv);
    }
  }

  /** Runs of several addresses go on from where they started, or are written. */
  lemma {:induction false} StartsKept(st: Progress, k: nat, tlv: AddrTlv, same: bool, a: nat, typ: u8, ext: u8)
    requires StartsAt(st.emitted + st.active, a, typ, ext)
    ensures var after := Absorb(st, k, tlv, same); StartsAt(after.emitted + after.active, a, typ, ext)
  {
    var r :| r in st.emitted + st.active && OfType(r, typ, ext) && r.first == a && |r.values| > 1;
    var after, i := Absorb(st, k, tlv, same), FindRun(st.active, tlv.typ, tlv.ext);
    if r in st.emitted {
      assert r in after.emitted;
    } else {
      var x :| 0 <= x < |st.active| && st.active[x] == r;
      if x != i {
        assert after.active[x] == r;
      } else if Breaks(r, k, tlv) {
        assert r in after.emitted;
      } else {
        assert after.active[x] == Longer(r, tlv, same);
      }
    }
  }

  /** A TLV of another type changes nothing. */
  lemma {:induction false} OtherTypeFollows(st: Progress, block: Block, tlv: AddrTlv, same: bool, typ: u8, ext: u8)
    requires block != [] && Follows(st, block, typ, ext) && !(tlv.typ == typ && tlv.ext == ext)
    ensures Follows(Absorb(st, |block| - 1, tlv, same), Grown(block, tlv), typ, ext)
  {
    hide ValuesOf, Open, Placed, Closed, StartsAt;
    var grown, after := Grown(block, tlv), Absorb(st, |block| - 1, tlv, same);
    forall a | 0 <= a < |block|
      ensures ValuesOf(grown[a], typ, ext) == ValuesOf(block[a], typ, ext)
    {
      GrownValues(block, tlv, typ, ext, a);
    }
    OtherTypeOpen(st, block, grown, |block| - 1, tlv, same, typ, ext);
    AllClosedStay(st.emitted, block, tlv, typ, ext);
    forall a: nat | Leaves(grown, a, typ, ext)
      ensures StartsAt(after.emitted + after.active, a, typ, ext)
    {
      assert Leaves(block, a, typ, ext);
      StartsKept(st, |block| - 1, tlv, same, a, typ, ext);
    }
  }

  lemma {:induction false} OtherTypeOpen(st: Progress, block: Block, grown: Block, k: nat, tlv: AddrTlv, same: bool, typ: u8, ext: u8)
    requires OpenOrNone(st.active, block, typ, ext) && Alike(block, grown, typ, ext) && !(tlv.typ == typ && tlv.ext == ext)
    ensures OpenOrNone(Absorb(st, k, tlv, same).active, grown, typ, ext)
  {
    var i, j, after := FindRun(st.active, typ, ext), FindRun(st.active, tlv.typ, tlv.ext), Absorb(st, k, tlv, same).active;
    var i' := FindRun(after, typ, ext);
    assert forall x :: 0 <= x < |st.active| && x != j ==> after[x] == st.active[x];
    if i < |st.active| {
      assert OfType(after[i], typ, ext);
      assert i' == i;
      AlikeRuns(st.active[i], block, grown);
    } else {
      assert forall x :: 0 <= x < |after| ==> !OfType(after[x], typ, ext);
    }
  }

  /** The first TLV of a type. */
  lemma {:induction false} FirstOpens(active: seq<Run>, block: Block, tlv: AddrTlv)
    requires block != [] && OpenOrNone(active, block, tlv.typ, tlv.ext) && FindRun(active, tlv.typ, tlv.ext) == |active|
    ensures OpenOrNone(active + [Fresh(|block| - 1, tlv)], Grown(block, tlv), tlv.typ, tlv.ext)
  {
    var k, after := |block| - 1, active + [Fresh(|block| - 1, tlv)];
    FreshOpens(block, tlv);
    assert forall x :: 0 <= x < |active| ==> after[x] == active[x];
    assert OfType(after[|active|], tlv.typ, tlv.ext);
    assert FindRun(after, tlv.typ, tlv.ext) == |active|;
  }

  lemma {:induction false} FreshOpens(block: Block, tlv: AddrTlv)
    requires block != []
    ensures Open(Fresh(|block| - 1, tlv), Grown(block, tlv))
  {
    GrownValues(block, tlv, tlv.typ, tlv.ext, |block| - 1);
  }

  /** A run that breaks has ended. */
  lemma {:induction false} BreaksCloses(r: Run, block: Block, tlv: AddrTlv)
    requires block != [] && Open(r, block) && OfType(r, tlv.typ, tlv.ext) && Breaks(r, |block| - 1, tlv)
    ensures Placed(r, Grown(block, tlv)) && Closed(r, Grown(block, tlv))
  {
    PlacedStays(r, block, tlv);
    GrownValues(block, tlv, r.typ, r.ext, r.Last());
    if r.Last() + 1 < |block| {
      GrownValues(block, tlv, r.typ, r.ext, r.Last() + 1);
    }
  }

  /** The addresses of a run that goes on show what they showed, those passed one value. */
  lemma {:induction false} PassesOn(r: Run, block: Block, tlv: AddrTlv, same: bool, i: nat)
    requires block != [] && Open(r, block) && OfType(r, tlv.typ, tlv.ext) && !Breaks(r, |block| - 1, tlv) && 0 < i < |r.values|
    ensures GoesOn(Longer(r, tlv, same), Grown(block, tlv), i)
  {
    assert GoesOn(r, block, i);
    GrownValues(block, tlv, r.typ, r.ext, r.first + i);
  }

  /** A run that goes on stays the open one. */
  lemma {:induction false} LongerOpens(r: Run, block: Block, tlv: AddrTlv, same: bool)
    requires block != [] && Open(r, block) && OfType(r, tlv.typ, tlv.ext) && !Breaks(r, |block| - 1, tlv)
    ensures Open(Longer(r, tlv, same), Grown(block, tlv))
  {
    var k, n, longer, grown := |block| - 1, |r.values|, Longer(r, tlv, same), Grown(block, tlv);
    GrownValues(block, tlv, r.typ, r.ext, k);
    GrownValues(block, tlv, r.typ, r.ext, r.first);
    assert ValuesOf(grown[k], r.typ, r.ext) == [tlv.value] && longer.values[n] == tlv.value && longer.Last() == k;
    forall i | 0 < i < n + 1
      ensures GoesOn(longer, grown, i)
    {
      if i < n {
        PassesOn(r, block, tlv, same, i);
      }
    }
  }

  lemma {:induction false} ReplacedOpens(active: seq<Run>, block: Block, grown: Block, typ: u8, ext: u8, r: Run)
    requires OpenOrNone(active, block, typ, ext) && FindRun(active, typ, ext) < |active| && OfType(r, typ, ext) && Open(r, grown)
    ensures OpenOrNone(active[FindRun(active, typ, ext) := r], grown, typ, ext)
  {
    hide Open;
    var i := FindRun(active, typ, ext);
    var after := active[i := r];
    assert forall x :: 0 <= x < |active| && x != i ==> after[x] == active[x];
    assert OfType(after[i], typ, ext);
    assert FindRun(after, typ, ext) == i;
  }

  /** The run of the last of several TLVs on the address before starts there. */
  lemma {:induction false} StartsThere(r: Run, block: Block, tlv: AddrTlv)
    requires |block| > 1 && Open(r, block) && OfType(r, tlv.typ, tlv.ext)
    requires Leaves(Grown(block, tlv), |block| - 2, tlv.typ, tlv.ext) && !Leaves(block, |block| - 2, tlv.typ, tlv.ext)
    ensures r.first == |block| - 2 && |r.values| == 1 && !Breaks(r, |block| - 1, tlv)
  {
    GrownValues(block, tlv, r.typ, r.ext, |block| - 1);
    GrownValues(block, tlv, r.typ, r.ext, |block| - 2);
  }

  lemma {:induction false} SameTypeStarts(st: Progress, block: Block, tlv: AddrTlv, same: bool, a: nat)
    requires block != [] && Follows(st, block, tlv.typ, tlv.ext) && Leaves(Grown(block, tlv), a, tlv.typ, tlv.ext)
    ensures var after := Absorb(st, |block| - 1, tlv, same); StartsAt(after.emitted + after.active, a, tlv.typ, tlv.ext)
  {
    hide Open, AllClosed, ValuesOf;
    var typ, ext, after := tlv.typ, tlv.ext, Absorb(st, |block| - 1, tlv, same);
    GrownValues(block, tlv, typ, ext, a);
    GrownValues(block, tlv, typ, ext, a + 1);
    if Leaves(block, a, typ, ext) {
      StartsKept(st, |block| - 1, tlv, same, a, typ, ext);
    } else {
      assert a == |block| - 2;
      var i := FindRun(st.active, typ, ext);
      assert i < |st.active|;
      StartsThere(st.active[i], block, tlv);
      assert after.active[i] == Longer(st.active[i], tlv, same);
      assert after.active[i] in after.emitted + after.active;
    }
  }

  lemma {:induction false} SameTypeFollows(st: Progress, block: Block, tlv: AddrTlv, same: bool)
    requires block != [] && Follows(st, block, tlv.typ, tlv.ext)
    ensures Follows(Absorb(st, |block| - 1, tlv, same), Grown(block, tlv), tlv.typ, tlv.ext)
  {
    hide ValuesOf, Open, Placed, Closed, Leaves, StartsAt, Breaks;
    var k, typ, ext, after := |block| - 1, tlv.typ, tlv.ext, Absorb(st, |block| - 1, tlv, same);
    forall a: nat | Leaves(Grown(block, tlv), a, typ, ext)
      ensures StartsAt(after.emitted + after.active, a, typ, ext)
    {
      SameTypeStarts(st, block, tlv, same, a);
    }
    var i := FindRun(st.active, typ, ext);
    AllClosedStay(st.emitted, block, tlv, typ, ext);
    if i == |st.active| {
      FirstOpens(st.active, block, tlv);
    } else if Breaks(st.active[i], k, tlv) {
      BreaksCloses(st.active[i], block, tlv);
      FreshOpens(block, tlv);
      ReplacedOpens(st.active, block, Grown(block, tlv), typ, ext, Fresh(k, tlv));
    } else {
      LongerOpens(st.active[i], block, tlv, same);
      ReplacedOpens(st.active, block, Grown(block, tlv), typ, ext, Longer(st.active[i], tlv, same));
    }
  }

  lemma {:induction false} NextRun(r: Run, block: Block)
    ensures Open(r, block) ==> Open(r, block + [[]])
    ensures Placed(r, block) && Closed(r, block) ==> Placed(r, block + [[]]) && Closed(r, block + [[]])
  {
    var next := block + [[]];
    if r.values != [] && r.first + |r.values| <= |block| {
      assert forall i :: 0 < i < |r.values| ==> (GoesOn(r, block, i) <==> GoesOn(r, next, i));
    }
  }

  /** The next address comes, with nothing taken up from it. */
  lemma {:induction false} NextAddressFollows(st: Progress, block: Block, typ: u8, ext: u8)
    requires Follows(st, block, typ, ext)
    ensures Follows(st, block + [[]], typ, ext)
  {
    hide Open, Placed, Closed, StartsAt;
    var i, next := FindRun(st.active, typ, ext), block + [[]];
    if i < |st.active| {
      NextRun(st.active[i], block);
    }
    forall r | r in st.emitted && OfType(r, typ, ext)
      ensures Placed(r, next) && Closed(r, next)
    {
      NextRun(r, block);
    }
    forall a: nat | Leaves(next, a, typ, ext)
      ensures StartsAt(st.emitted + st.active, a, typ, ext)
    {
      assert Leaves(block, a, typ, ext);
    }
  }

  /** The first `k` addresses and the first `j` TLVs of the next one. */
  function Upto(block: Block, k: nat, j: nat): Block
    requires k < |block| && j <= |block[k]|
  {
    block[..k] + [block[k][..j]]
  }

  lemma {:induction false} SomeFollows(block: Block, k: nat, j: nat, typ: u8, ext: u8)
    requires k < |block| && j <= |block[k]| && Follows(AbsorbAll(block, k), block[..k], typ, ext)
    ensures Follows(AbsorbSome(AbsorbAll(block, k), block, k, j), Upto(block, k, j), typ, ext)
  {
    hide Follows, SameAsBefore, Absorb;
    if j == 0 {
      NextAddressFollows(AbsorbAll(block, k), block[..k], typ, ext);
    } else {
      SomeFollows(block, k, j - 1, typ, ext);
      var before, so, tlv := AbsorbSome(AbsorbAll(block, k), block, k, j - 1), Upto(block, k, j - 1), block[k][j - 1];
      assert block[k][..j] == block[k][..j - 1] + [tlv] && so[..k] == block[..k];
      assert Grown(so, tlv) == Upto(block, k, j);
      if tlv.typ == typ && tlv.ext == ext {
        SameTypeFollows(before, so, tlv, SameAsBefore(block, k, tlv));
      } else {
        OtherTypeFollows(before, so, tlv, SameAsBefore(block, k, tlv), typ, ext);
      }
    }
  }

  /** For every type the runs lie as the addresses say. */
  lemma {:induction false} AllFollows(block: Block, k: nat, typ: u8, ext: u8)
    requires k <= |block|
    ensures Follows(AbsorbAll(block, k), block[..k], typ, ext)
  {
    hide Open, Placed, Closed, StartsAt, AbsorbSome;
    if k == 0 {
      assert AbsorbAll(block, 0) == Progress([], []);
    } else {
      AllFollows(block, k - 1, typ, ext);
      SomeFollows(block, k - 1, |block[k - 1]|, typ, ext);
      assert block[k - 1][..|block[k - 1]|] == block[k - 1];
      assert Upto(block, k - 1, |block[k - 1]|) == block[..k];
    }
  }

  // ---------- misleading addresses and dishonest runs ----------

  /** Why a run of several addresses ends in a block: it is the end of the block, or the run was written, or the type does
      not come any more. */
  ghost predicate Ends(r: Run, block: Block)
    requires Placed(r, block)
  {
    |r.values| > 1 ==>
      || |ValuesOf(block[r.Last()], r.typ, r.ext)| > 1 || r.Last() + 1 == |block|
      || var next := ValuesOf(block[r.Last() + 1], r.typ, r.ext); next == [] || |next[0]| != r.Length()
  }

  lemma {:induction false} RunsArePlaced(block: Block, r: Run)
    requires r in RunsOf(block)
    ensures Placed(r, block) && Ends(r, block)
  {
    AllFollows(block, |block|, r.typ, r.ext);
    assert block[..|block|] == block;
    var st := AbsorbAll(block, |block|);
    if r in st.active {
      var x :| 0 <= x < |st.active| && st.active[x] == r;
      assert OfType(st.active[x], r.typ, r.ext);
    } else {
      assert OfType(r, r.typ, r.ext);
    }
  }

  /** From its `i`-th address on, a run with one value stays the same. */
  lemma {:induction false} RunStaysSame(r: Run, block: Block, i: nat)
    requires Placed(r, block) && Ends(r, block) && 0 < i < |r.values| && |r.values[0]| == r.Length()
    requires forall j :: i <= j < |r.values| ==> r.values[j] == r.values[i]
    requires |r.values[i]| == r.Length()
    ensures StaysSame(block, r.first + i, r.typ, r.ext, r.values[i])
    decreases |r.values| - i
  {
    assert GoesOn(r, block, i);
    if i + 1 < |r.values| {
      assert r.values[i + 1] == r.values[i];
      RunStaysSame(r, block, i + 1);
    }
  }

  /** In a run written with one value all values but the first agree, and with the first value of its first address. */
  lemma {:induction false} SameBehindFirst(r: Run, block: Block, i: nat)
    requires Sound(r, block) && Placed(r, block) && r.same && 0 < i < |r.values|
    ensures var start := ValuesOf(block[r.first], r.typ, r.ext); start != [] && r.values[i] == start[0]
  {
    assert Repeats(block, r, i);
    RepeatsFirst(block, r.first + i, AddrTlv(r.typ, r.ext, r.values[i]));
    if i > 1 {
      SameBehindFirst(r, block, i - 1);
      assert GoesOn(r, block, i - 1);
    }
  }

  /** A run that is not honest starts at an address that misleads. */
  lemma {:induction false} DishonestStart(r: Run, block: Block)
    requires Sound(r, block) && Placed(r, block) && Ends(r, block) && !Honest(r)
    ensures Misleads(block, r.first, r.typ, r.ext) && AddrTlv(r.typ, r.ext, r.values[0]) in block[r.first]
  {
    hide StaysSame, ValuesOf, Ends, SameAsBefore;
    forall i | 0 < i < |r.values|
      ensures r.values[i] == ValuesOf(block[r.first], r.typ, r.ext)[0]
    {
      SameBehindFirst(r, block, i);
    }
    var start := ValuesOf(block[r.first], r.typ, r.ext);
    assert r.values[1] == start[0] && r.values[0] == start[|start| - 1];
    assert GoesOn(r, block, 1);
    RunStaysSame(r, block, 1);
  }

  /** A run that starts at an address that misleads has one value behind that address. */
  lemma {:induction false} MisledValues(r: Run, block: Block, i: nat)
    requires Sound(r, block) && Placed(r, block) && 0 < i < |r.values| && Misleads(block, r.first, r.typ, r.ext)
    ensures var value := ValuesOf(block[r.first], r.typ, r.ext)[0];
            r.values[i] == value && StaysSame(block, r.first + i, r.typ, r.ext, value)
  {
    assert GoesOn(r, block, i);
    if i > 1 {
      MisledValues(r, block, i - 1);
      assert GoesOn(r, block, i - 1);
      assert |r.values[i]| == |r.values[i - 1]|;
    }
  }

  /** So it is not honest. */
  lemma {:induction false} MisledRun(r: Run, block: Block)
    requires Sound(r, block) && Placed(r, block) && |r.values| > 1 && Misleads(block, r.first, r.typ, r.ext)
    ensures !Honest(r)
  {
    hide StaysSame, ValuesOf, SameAsBefore;
    forall i | 0 < i < |r.values|
      ensures Repeats(block, r, i)
    {
      MisledValues(r, block, i);
      RepeatsFirst(block, r.first + i, AddrTlv(r.typ, r.ext, r.values[i]));
      if i > 1 {
        MisledValues(r, block, i - 1);
        assert GoesOn(r, block, i - 1);
      }
    }
    MisledValues(r, block, 1);
    assert r.values[1] != r.values[0];
  }

  /** An address that misleads starts a run of several addresses. */
  lemma {:induction false} MisleadingStarts(block: Block, k: nat, typ: u8, ext: u8)
    requires k < |block| && Misleads(block, k, typ, ext)
    ensures StartsAt(RunsOf(block), k, typ, ext)
  {
    hide Placed, Closed, Open, StaysSame, AbsorbAll;
    AllFollows(block, |block|, typ, ext);
    assert block[..|block|] == block;
    assert Leaves(block, k, typ, ext);
  }

  /** All runs are honest exactly if no address misleads. */
  lemma {:induction false} HonestIffHarmless(block: Block)
    requires AllSound(RunsOf(block), block)
    ensures Harmless(block) <==> forall r :: r in RunsOf(block) ==> Honest(r)
  {
    hide Misleads, Placed, Ends, RunsOf, Honest, Sound;
    if Harmless(block) {
      forall r | r in RunsOf(block)
        ensures Honest(r)
      {
        assert Sound(r, block);
        RunsArePlaced(block, r);
        if !Honest(r) {
          DishonestStart(r, block);
        }
      }
    } else {
      var k, tlv :| 0 <= k < |block| && tlv in block[k] && Misleads(block, k, tlv.typ, tlv.ext);
      MisleadingStarts(block, k, tlv.typ, tlv.ext);
      var r :| r in RunsOf(block) && OfType(r, tlv.typ, tlv.ext) && r.first == k && |r.values| > 1;
      assert Sound(r, block);
      RunsArePlaced(block, r);
      MisledRun(r, block);
    }
  }

  /** The address-TLV round trip: what is read back, expanded over the index ranges and the shares of multivalue TLVs, is
      what was attached to the addresses exactly if no address misleads the writer. */
  lemma {:induction false} AddressTlvRoundTrip(buf: seq<byte>, p: nat, eob: int, block: Block)
    requires |block| <= 255 && Fits(block)
    requires Carries(buf, p, EncodeTlvBlock(block)) && p + |EncodeTlvBlock(block)| <= eob <= |buf|
    ensures var r := ParseTlvBlock(buf, p, eob, |block|);
            && r.Ok? && r.value.1 == p + |EncodeTlvBlock(block)|
            && (EntriesFacts(r.value.0) == BlockFacts(block, |block|) <==> Harmless(block))
  {
    hide Carries, ParseTlvBlock, EncodeTlvBlock, Harmless, AllSound, RunsOf, Honest, Fits, EntriesFacts, BlockFacts;
    ReadsBackIffHonest(buf, p, eob, block);
    RunsAreGood(block);
    HonestIffHarmless(block);
  }

  // ---------- two blocks ----------

  /** Two TLVs of one type on the first address and one on the second. */
  function TwiceThenOnce(): Block
  {
    [[AddrTlv(1, 0, [1]), AddrTlv(1, 0, [2])], [AddrTlv(1, 0, [1])]]
  }

  /** Two TLVs of one type on the only address. */
  function TwiceOnly(): Block
  {
    [[AddrTlv(1, 0, [1]), AddrTlv(1, 0, [2])]]
  }

  /** Type, flags, extension, indices and length take at most eight bytes. */
  lemma {:induction false} RunLength(r: Run, n: nat)
    requires r.values != []
    ensures |EncodeRun(r, n)| <= 8 + |r.Payload()|
  {
    var total := (if r.same then r.Length() else r.Length() * |r.values|) % 65536;
    FlattenFive([B(r.typ), B(EncodeFlags(FlagsFor(r.ext, r.first, r.Last(), n, total, !r.same)))], ExtPart(r.ext),
                IndexPart(r.first, r.Last(), n), LengthPart(total), if r.Length() > 0 then r.Payload() else []);
  }

  lemma {:induction false} TwiceThenOnceRuns()
    ensures RunsOf(TwiceThenOnce()) == [Run(1, 0, 0, [[1]], true), Run(1, 0, 0, [[2], [1]], true)]
  {
    var block := TwiceThenOnce();
    var st0 := AbsorbAll(block, 0);
    var st2 := AbsorbSome(st0, block, 0, 2);
    assert AbsorbSome(st0, block, 0, 0) == st0 && AbsorbSome(st0, block, 0, 1) == Progress([], [Run(1, 0, 0, [[1]], true)]);
    assert AbsorbAll(block, 1) == st2 == Progress([Run(1, 0, 0, [[1]], true)], [Run(1, 0, 0, [[2]], true)]);
    assert AbsorbSome(st2, block, 1, 0) == st2 && SameAsBefore(block, 1, block[1][0]) && FindRun(st2.active, 1, 0) == 0;
    var longer := Longer(Run(1, 0, 0, [[2]], true), block[1][0], true);
    assert AbsorbSome(st2, block, 1, 1) == Progress([Run(1, 0, 0, [[1]], true)], [longer]);
    assert longer.values == [[2], [1]];
  }

  /** A type twice on an address is not wrong as such; it is where the next address shows the first of the two values,
      which then is not written for it. */
  lemma {:induction false} DuplicatesGetLost()
    ensures Harmless(TwiceOnly()) && !Unique(TwiceOnly())
    ensures Fits(TwiceThenOnce()) && !Harmless(TwiceThenOnce())
  {
    var once, twice := [AddrTlv(1, 0, [1])], [AddrTlv(1, 0, [1]), AddrTlv(1, 0, [2])];
    ValuesOfMore([], AddrTlv(1, 0, [1]), 1, 0);
    ValuesOfMore(once, AddrTlv(1, 0, [2]), 1, 0);
    assert [] + once == once && once + [AddrTlv(1, 0, [2])] == twice;
    assert !UniqueTypes(twice);
    assert StaysSame(TwiceThenOnce(), 1, 1, 0, [1]);
    assert Misleads(TwiceThenOnce(), 0, 1, 0) && AddrTlv(1, 0, [1]) in twice;
    TwiceThenOnceFits();
  }

  lemma {:induction false} TwiceThenOnceFits()
    ensures Fits(TwiceThenOnce())
  {
    var one, two := Run(1, 0, 0, [[1]], true), Run(1, 0, 0, [[2], [1]], true);
    TwiceThenOnceRuns();
    RunLength(one, 2);
    RunLength(two, 2);
    hide EncodeRun;
    assert [one, two][1..] == [two] && [two][1..] == [];
    assert EncodeRuns([two], 2) == EncodeRun(two, 2) + EncodeRuns([], 2);
    assert EncodeRuns([one, two], 2) == EncodeRun(one, 2) + EncodeRuns([two], 2);
  }
}
