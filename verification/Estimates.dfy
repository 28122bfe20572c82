/** What the compression session thinks blocks cost: the costs of its candidates are sums over their blocks, whatever the
    order it adds them in, and the costs of TLVs are those of the runs that are written. */
module Estimates {
  import opened Wire
  import opened Seqs
  import opened Tlv
  import opened AddressTlvs
  import opened Duplicates
  import opened AddressBlocks
  import opened AddressSection
  import opened Compression

  // ---------- TLVs ----------

  /** What the session thinks a run takes: its TLV with two indices, and for several values the others too. */
  function RunCost(r: Run): int
    requires r.values != []
  {
    TlvCost(AddrTlv(r.typ, r.ext, r.values[0])) + if r.same then 0 else (|r.values| - 1) * r.Length()
  }

  /** Whether several short values need a long size field together, which the session does not see. */
  predicate Stretched(r: Run)
    requires r.values != []
  {
    !r.same && 0 < r.Length() <= 255 < r.Length() * |r.values|
  }

  function Stretch(r: Run): nat
    requires r.values != []
  {
    if Stretched(r) then 1 else 0
  }

  ghost predicate OneLength(r: Run)
  {
    r.values != [] && forall i :: 0 <= i < |r.values| ==> |r.values[i]| == r.Length()
  }

  /** How many bytes of values a run has. */
  function Size(r: Run): nat
    requires r.values != []
  {
    if r.same then r.Length() else r.Length() * |r.values|
  }

  lemma {:induction false} PayloadIsSize(r: Run)
    requires OneLength(r)
    ensures |r.Payload()| == Size(r)
  {
    FlattenLength(r.values, r.Length());
  }

  lemma {:induction false} RunParts(r: Run, n: nat)
    requires r.values != []
    ensures |EncodeRun(r, n)| == 2 + |ExtPart(r.ext)| + |IndexPart(r.first, r.Last(), n)| + |LengthPart(Size(r) % 65536)|
                                 + if r.Length() > 0 then |r.Payload()| else 0
  {
    hide Tlv.EncodeFlags, FlagsFor, IndexPart, ExtPart, LengthPart, Run.Payload, Flatten;
    var total := Size(r) % 65536;
    FlattenFive([B(r.typ), B(Tlv.EncodeFlags(FlagsFor(r.ext, r.first, r.Last(), n, total, !r.same)))], ExtPart(r.ext),
                IndexPart(r.first, r.Last(), n), LengthPart(total), if r.Length() > 0 then r.Payload() else []);
  }

  lemma {:induction false} NoLess(a: nat, b: nat)
    ensures a * b >= 0
  {
  }

  /** What the size field and the values take. */
  lemma {:induction false} SizeTakes(r: Run)
    requires r.values != []
    ensures var cost := (if r.Length() > 255 then 1 else 0) + (if r.Length() > 0 then 1 else 0) + Size(r) + Stretch(r);
            |LengthPart(Size(r) % 65536)| + Size(r) <= cost && (Size(r) < 65536 ==> |LengthPart(Size(r) % 65536)| + Size(r) == cost)
  {
    var l, n := r.Length(), |r.values|;
    if l == 0 {
      assert l * n == 0;
    } else {
      assert l * n == l + l * (n - 1);
      NoLess(l, n - 1);
    }
  }

  lemma {:induction false} CostIsSize(r: Run)
    requires r.values != []
    ensures RunCost(r) == 4 + |ExtPart(r.ext)| + (if r.Length() > 255 then 1 else 0) + (if r.Length() > 0 then 1 else 0) + Size(r)
  {
    var l, n := r.Length(), |r.values|;
    assert (n - 1) * l == l * n - l;
  }

  /** The bytes of indices a run does without: both for the whole block, one for one address. */
  function IndexSaved(r: Run, n: nat): nat
  {
    if r.first == 0 && |r.values| == n then 2 else if |r.values| == 1 then 1 else 0
  }

  lemma {:induction false} IndicesTake(r: Run, n: nat)
    requires r.values != []
    ensures |IndexPart(r.first, r.Last(), n)| == 2 - IndexSaved(r, n)
  {
  }

  /** A run takes what the session thinks, but for indices that are left out and a size field that is stretched. */
  lemma {:induction false} RunTakes(r: Run, n: nat)
    requires OneLength(r)
    ensures |EncodeRun(r, n)| <= RunCost(r) - IndexSaved(r, n) + Stretch(r)
    ensures |r.Payload()| < 65536 ==> |EncodeRun(r, n)| == RunCost(r) - IndexSaved(r, n) + Stretch(r)
  {
    PayloadIsSize(r);
    IndicesTake(r, n);
    if r.Length() == 0 {
      EmptySize(r);
    }
    hide EncodeRun, RunCost, IndexPart, IndexSaved, Stretch, Size, LengthPart, ExtPart, Run.Payload;
    RunParts(r, n);
    SizeTakes(r);
    CostIsSize(r);
  }

  lemma {:induction false} EmptySize(r: Run)
    requires r.values != [] && r.Length() == 0
    ensures Size(r) == 0
  {
  }

  /** A run of one value for several addresses, but not for the whole block, takes exactly the cost of its TLV; no run of one
      value takes more. */
  lemma {:induction false} TlvCostIs(r: Run, n: nat)
    requires OneLength(r) && r.same && r.Length() < 65536
    ensures var cost, whole := TlvCost(AddrTlv(r.typ, r.ext, r.values[0])), r.first == 0 && r.Last() == n - 1;
            |EncodeRun(r, n)| <= cost && (|r.values| > 1 && !whole ==> |EncodeRun(r, n)| == cost)
  {
    PayloadIsSize(r);
    RunTakes(r, n);
    hide EncodeRun, TlvCost, Run.Payload;
  }

  function RunsCost(runs: seq<Run>): int
    requires Valued(runs)
  {
    if runs == [] then 0 else RunCost(runs[0]) + RunsCost(runs[1..])
  }

  function Stretches(runs: seq<Run>): nat
    requires Valued(runs)
  {
    if runs == [] then 0 else Stretch(runs[0]) + Stretches(runs[1..])
  }

  /** Runs take no more than the session thinks and their stretches. */
  lemma {:induction false} RunsTake(runs: seq<Run>, n: nat)
    requires Valued(runs) && forall r :: r in runs ==> OneLength(r)
    ensures |EncodeRuns(runs, n)| <= RunsCost(runs) + Stretches(runs)
  {
    hide EncodeRun, RunCost, Stretch, OneLength;
    if runs != [] {
      RunTakes(runs[0], n);
      RunsTake(runs[1..], n);
    }
  }

  lemma {:induction false} RunsCostAppend(runs: seq<Run>, r: Run)
    requires Valued(runs) && r.values != []
    ensures RunsCost(runs + [r]) == RunsCost(runs) + RunCost(r)
  {
    hide RunCost;
    if runs == [] {
      assert runs + [r] == [r] && [r][1..] == [];
    } else {
      assert (runs + [r])[1..] == runs[1..] + [r];
      RunsCostAppend(runs[1..], r);
    }
  }

  lemma {:induction false} RunsCostUpdate(runs: seq<Run>, i: nat, r: Run)
    requires Valued(runs) && r.values != [] && i < |runs|
    ensures Valued(runs[i := r]) && RunsCost(runs[i := r]) == RunsCost(runs) - RunCost(runs[i]) + RunCost(r)
  {
    hide RunCost;
    var after := runs[i := r];
    if i == 0 {
      assert after[1..] == runs[1..];
    } else {
      assert after[1..] == runs[1..][i - 1 := r];
      RunsCostUpdate(runs[1..], i - 1, r);
    }
    AllValued(runs, i, r);
  }

  lemma {:induction false} AllValued(runs: seq<Run>, i: nat, r: Run)
    requires Valued(runs) && r.values != [] && i < |runs|
    ensures Valued(runs[i := r])
  {
  }

  ghost predicate AllValuedOf(st: Progress)
  {
    Valued(st.emitted) && Valued(st.active)
  }

  function CostOf(st: Progress): int
    requires AllValuedOf(st)
  {
    RunsCost(st.emitted) + RunsCost(st.active)
  }

  /** The active run of a type. */
  function ActiveOf(st: Progress, typ: u8, ext: u8): Option<Run>
  {
    var i := FindRun(st.active, typ, ext);
    if i < |st.active| then Some(st.active[i]) else None
  }

  /** Whether a TLV of address `k` goes on with the active run of its type. */
  predicate Continues(st: Progress, k: nat, tlv: AddrTlv)
  {
    var run := ActiveOf(st, tlv.typ, tlv.ext);
    run.Some? && !Breaks(run.value, k, tlv)
  }

  /** What one TLV more costs. */
  function StepCost(st: Progress, k: nat, tlv: AddrTlv, same: bool): int
  {
    if !Continues(st, k, tlv) then TlvCost(tlv)
    else
      var run := ActiveOf(st, tlv.typ, tlv.ext).value;
      if !run.same then |tlv.value| else if !same then |tlv.value| * |run.values| else 0
  }

  lemma {:induction false} LongerCost(run: Run, k: nat, tlv: AddrTlv, same: bool)
    requires run.values != [] && run.typ == tlv.typ && run.ext == tlv.ext && !Breaks(run, k, tlv)
    ensures RunCost(Longer(run, tlv, same)) - RunCost(run) == if !run.same then |tlv.value| else if !same then |tlv.value| * |run.values| else 0
  {
    var longer, n := Longer(run, tlv, same), |run.values|;
    assert longer.values[0] == run.values[0] && |longer.values| == n + 1;
    assert (n + 1 - 1) * |tlv.value| == n * |tlv.value| == (n - 1) * |tlv.value| + |tlv.value|;
  }

  lemma {:induction false} AbsorbCosts(st: Progress, k: nat, tlv: AddrTlv, same: bool)
    requires AllValuedOf(st)
    ensures var after := Absorb(st, k, tlv, same); AllValuedOf(after) && CostOf(after) == CostOf(st) + StepCost(st, k, tlv, same)
  {
    hide RunCost, TlvCost, Breaks, RunsCost;
    AbsorbHasValues(st, k, tlv, same);
    var i := FindRun(st.active, tlv.typ, tlv.ext);
    FreshCost(k, tlv);
    if i == |st.active| {
      RunsCostAppend(st.active, Fresh(k, tlv));
    } else {
      assert st.active[i] in st.active;
      if Breaks(st.active[i], k, tlv) {
        RunsCostAppend(st.emitted, st.active[i]);
        RunsCostUpdate(st.active, i, Fresh(k, tlv));
      } else {
        LongerCost(st.active[i], k, tlv, same);
        RunsCostUpdate(st.active, i, Longer(st.active[i], tlv, same));
      }
    }
  }

  lemma {:induction false} FreshCost(k: nat, tlv: AddrTlv)
    ensures RunCost(Fresh(k, tlv)) == TlvCost(tlv)
  {
  }

  /** Taking up a TLV changes the active run of its type only. */
  lemma {:induction false} AbsorbActive(st: Progress, k: nat, tlv: AddrTlv, same: bool, typ: u8, ext: u8)
    ensures ActiveOf(Absorb(st, k, tlv, same), typ, ext)
         == if !(typ == tlv.typ && ext == tlv.ext) then ActiveOf(st, typ, ext)
            else if Continues(st, k, tlv) then Some(Longer(ActiveOf(st, typ, ext).value, tlv, same)) else Some(Fresh(k, tlv))
  {
    hide Breaks;
    var i, j, after := FindRun(st.active, typ, ext), FindRun(st.active, tlv.typ, tlv.ext), Absorb(st, k, tlv, same).active;
    var x := FindRun(after, typ, ext);
    assert forall y :: 0 <= y < |st.active| && y != j ==> after[y] == st.active[y];
    if typ == tlv.typ && ext == tlv.ext {
      assert after[j].typ == typ && after[j].ext == ext;
      assert x == j;
    } else if i < |st.active| {
      assert x == i;
    } else {
      assert forall y :: 0 <= y < |after| ==> !(after[y].typ == typ && after[y].ext == ext);
    }
  }

  // ---------- the TLVs of a block, address by address ----------

  /** The runs of the addresses `p` to `n - 1`. */
  function Formed(items: seq<Item>, p: nat, n: nat): Progress
    requires p <= n <= |items|
  {
    var block := TlvsOf(items[p..n]);
    AbsorbAll(block, n - p)
  }

  lemma {:induction false} FormedValued(items: seq<Item>, p: nat, n: nat)
    requires p <= n <= |items|
    ensures AllValuedOf(Formed(items, p, n))
  {
    RunsHaveValues(TlvsOf(items[p..n]), n - p, 0);
  }

  /** What the session thinks the TLVs of a block take. */
  function TlvEstimate(items: seq<Item>, p: nat, n: nat): int
    requires p <= n <= |items|
  {
    FormedValued(items, p, n);
    CostOf(Formed(items, p, n))
  }

  /** The session's counts for head length `head` are those of the runs that end with address `n - 1`. */
  ghost predicate Tracks(items: seq<Item>, p: nat, n: nat, runs: TlvRuns, head: nat)
    requires p < n <= |items|
  {
    forall tlv :: tlv in items[n - 1].tlvs ==> Counts(Formed(items, p, n), tlv, runs, head)
  }

  ghost predicate Counts(st: Progress, tlv: AddrTlv, runs: TlvRuns, head: nat)
  {
    var run := ActiveOf(st, tlv.typ, tlv.ext);
    run.Some? && RunAt(runs, tlv, head) == TlvRun(|run.value.values|, !run.value.same)
  }

  ghost predicate AllUnique(items: seq<Item>)
  {
    forall k :: 0 <= k < |items| ==> UniqueTypes(items[k].tlvs)
  }

  /** The active run of a type on the last address of a block ends there with the value that is there; others end before. */
  lemma {:induction false} ActiveAtEnd(block: Block, typ: u8, ext: u8)
    requires block != [] && UniqueTypes(block[|block| - 1])
    ensures var here, run := ValuesOf(block[|block| - 1], typ, ext), ActiveOf(AbsorbAll(block, |block|), typ, ext);
            if here == [] then run.None? || (run.value.values != [] && run.value.Last() < |block| - 1)
            else run.Some? && run.value.values != [] && run.value.Last() == |block| - 1 && run.value.Length() == |here[0]|
  {
    hide ValuesOf;
    AllFollows(block, |block|, typ, ext);
    AbsorbAllIsSound(block, |block|);
    assert block[..|block|] == block;
    UniqueIsAtMostOne(block[|block| - 1], typ, ext);
    hide AllClosed, Leaves, StartsAt, AbsorbAll;
    var st := AbsorbAll(block, |block|);
    var i := FindRun(st.active, typ, ext);
    if i < |st.active| {
      assert st.active[i] in st.active;
      EndsWith(st.active[i], block);
    }
  }

  /** Where an open run ends, and what is there. */
  lemma {:induction false} EndsWith(r: Run, block: Block)
    requires block != [] && Open(r, block) && AddressTlvs.Sound(r, block) && |ValuesOf(block[|block| - 1], r.typ, r.ext)| <= 1
    ensures var here := ValuesOf(block[|block| - 1], r.typ, r.ext);
            if here == [] then r.Last() < |block| - 1 else r.Last() == |block| - 1 && r.Length() == |here[0]|
  {
    hide ValuesOf, Repeats;
    var n := |r.values|;
    if n > 1 {
      assert GoesOn(r, block, n - 1);
    }
    assert |r.values[n - 1]| == r.Length();
  }

  /** Only the addresses before count. */
  lemma {:induction false} PrefixFormed(block: Block, n: nat)
    requires n <= |block|
    ensures AbsorbAll(block, n) == AbsorbAll(block[..n], n)
    decreases n
  {
    if n > 0 {
      PrefixFormed(block, n - 1);
      PrefixFormed(block[..n], n - 1);
      assert block[..n][..n - 1] == block[..n - 1];
      PrefixSome(AbsorbAll(block, n - 1), block, n, |block[n - 1]|);
    }
  }

  lemma {:induction false} PrefixSome(st: Progress, block: Block, n: nat, j: nat)
    requires 0 < n <= |block| && j <= |block[n - 1]|
    ensures AbsorbSome(st, block, n - 1, j) == AbsorbSome(st, block[..n], n - 1, j)
  {
    hide Absorb;
    if j > 0 {
      PrefixSome(st, block, n, j - 1);
    }
  }

  /** One address more. */
  lemma {:induction false} FormedNext(items: seq<Item>, p: nat, k: nat)
    requires p <= k < |items|
    ensures var block := TlvsOf(items[p..k + 1]);
            && block[k - p] == items[k].tlvs && (p < k ==> block[k - p - 1] == items[k - 1].tlvs)
            && AbsorbAll(block, k - p) == Formed(items, p, k)
            && Formed(items, p, k + 1) == AbsorbSome(Formed(items, p, k), block, k - p, |items[k].tlvs|)
  {
    hide AbsorbSome;
    var block := TlvsOf(items[p..k + 1]);
    PrefixFormed(block, k - p);
    assert block[..k - p] == TlvsOf(items[p..k]);
  }

  /** A TLV goes on with a run exactly if the address before has one of its type and length. */
  lemma {:induction false} ContinuesIff(items: seq<Item>, p: nat, k: nat, tlv: AddrTlv)
    requires p < k < |items| && AllUnique(items)
    ensures Continues(Formed(items, p, k), k - p, tlv) <==> SameLengthBefore(items, k, tlv)
  {
    hide ValuesOf, AbsorbAll, UniqueTypes;
    var block := TlvsOf(items[p..k]);
    assert block[k - p - 1] == items[k - 1].tlvs;
    ActiveAtEnd(block, tlv.typ, tlv.ext);
    FirstValue(items[k - 1].tlvs, tlv.typ, tlv.ext);
  }

  /** What is counted for the type of a TLV on the address before. */
  lemma {:induction false} CountedBefore(items: seq<Item>, p: nat, k: nat, runs: TlvRuns, head: nat, tlv: AddrTlv)
    requires p < k < |items| && Tracks(items, p, k, runs, head) && SameLengthBefore(items, k, tlv)
    ensures Counts(Formed(items, p, k), tlv, runs, head)
  {
    hide Formed;
    var before := items[k - 1].tlvs;
    var i := FirstOfType(before, tlv.typ, tlv.ext);
    assert before[i] in before && Counts(Formed(items, p, k), before[i], runs, head);
  }

  /** The runs of a block when the first `j` TLVs of address `k` are taken up. */
  function Midway(items: seq<Item>, p: nat, k: nat, j: nat): Progress
    requires p <= k < |items| && j <= |items[k].tlvs|
  {
    FormedNext(items, p, k);
    AbsorbSome(Formed(items, p, k), TlvsOf(items[p..k + 1]), k - p, j)
  }

  lemma {:induction false} MidwayEnds(items: seq<Item>, p: nat, k: nat)
    requires p <= k < |items|
    ensures Midway(items, p, k, 0) == Formed(items, p, k) && Midway(items, p, k, |items[k].tlvs|) == Formed(items, p, k + 1)
  {
    FormedNext(items, p, k);
    hide Formed;
  }

  /** Whether the address before is in the block too and has the value of the TLV. */
  predicate Agrees(items: seq<Item>, p: nat, k: nat, tlv: AddrTlv)
    requires k < |items|
  {
    p < k && SameValueBefore(items, k, tlv)
  }

  lemma {:induction false} MidwayNext(items: seq<Item>, p: nat, k: nat, j: nat)
    requires p <= k < |items| && 0 < j <= |items[k].tlvs|
    ensures var tlv := items[k].tlvs[j - 1]; Midway(items, p, k, j) == Absorb(Midway(items, p, k, j - 1), k - p, tlv, Agrees(items, p, k, tlv))
  {
    FormedNext(items, p, k);
    hide Formed, Absorb;
  }

  /** What the session counts for a type when it is with the TLVs of address `k`. */
  ghost predicate InStep(items: seq<Item>, p: nat, k: nat, head: nat, closed: bool, runs: TlvRuns, j: nat)
    requires p <= k < |items| && j <= |items[k].tlvs|
  {
    var tlvs, st, after := items[k].tlvs, Midway(items, p, k, j), RunsAfter(items, k, head, closed, runs, j);
    && AllValuedOf(st) && CostOf(st) == TlvEstimate(items, p, k) + ContinueCosts(items, k, head, closed, runs, j)
    && (forall i :: 0 <= i < j ==> Counts(st, tlvs[i], after, head))
    && (forall i :: j <= i < |tlvs| ==> Untouched(items, p, k, st, tlvs[i], runs, after, head))
  }

  ghost predicate Untouched(items: seq<Item>, p: nat, k: nat, st: Progress, tlv: AddrTlv, runs: TlvRuns, after: TlvRuns, head: nat)
    requires p <= k < |items|
  {
    ActiveOf(st, tlv.typ, tlv.ext) == ActiveOf(Formed(items, p, k), tlv.typ, tlv.ext) && RunAt(after, tlv, head) == RunAt(runs, tlv, head)
  }

  /** Whether the block of address `k` is a new one, or goes on with the session in step. */
  ghost predicate Ready(items: seq<Item>, p: nat, k: nat, head: nat, closed: bool, runs: TlvRuns)
    requires p <= k < |items|
  {
    (closed <==> p == k) && (!closed ==> Tracks(items, p, k, runs, head))
  }

  predicate OneType(t: AddrTlv, u: AddrTlv)
  {
    t.typ == u.typ && t.ext == u.ext
  }

  lemma {:induction false} OrderTellsType(t: AddrTlv, u: AddrTlv)
    ensures Tlv.Order(t.typ, t.ext) == Tlv.Order(u.typ, u.ext) <==> OneType(t, u)
  {
  }

  lemma {:induction false} Apart(items: seq<Item>, k: nat, i: nat, j: nat)
    requires k < |items| && AllUnique(items) && i < |items[k].tlvs| && j < |items[k].tlvs|
    ensures OneType(items[k].tlvs[i], items[k].tlvs[j]) <==> i == j
  {
    assert UniqueTypes(items[k].tlvs);
  }

  /** What is counted when a TLV is taken up. */
  function CountNext(items: seq<Item>, k: nat, closed: bool, run: TlvRun, tlv: AddrTlv): TlvRun
    requires k < |items|
  {
    if closed || !SameLengthBefore(items, k, tlv) then TlvRun(1, false) else TlvRun(run.count + 1, run.multi || !SameValueBefore(items, k, tlv))
  }

  lemma {:induction false} RunsAfterOne(items: seq<Item>, k: nat, head: nat, closed: bool, runs: TlvRuns, j: nat, u: AddrTlv, h: nat)
    requires k < |items| && 0 < j <= |items[k].tlvs|
    ensures var tlv, before, after := items[k].tlvs[j - 1], RunsAfter(items, k, head, closed, runs, j - 1), RunsAfter(items, k, head, closed, runs, j);
            RunAt(after, u, h) == if h == head && OneType(u, tlv) then CountNext(items, k, closed, RunAt(before, tlv, head), tlv) else RunAt(before, u, h)
  {
    hide SameLengthBefore, SameValueBefore;
    OrderTellsType(u, items[k].tlvs[j - 1]);
  }

  /** The costs the session adds for a TLV are those of the step. */
  lemma {:induction false} StepIsCounted(items: seq<Item>, p: nat, k: nat, head: nat, closed: bool, runs: TlvRuns, st: Progress, tlv: AddrTlv)
    requires p <= k < |items| && AllUnique(items) && Ready(items, p, k, head, closed, runs)
    requires ActiveOf(st, tlv.typ, tlv.ext) == ActiveOf(Formed(items, p, k), tlv.typ, tlv.ext)
    ensures Continues(st, k - p, tlv) <==> !closed && SameLengthBefore(items, k, tlv)
    ensures Continues(st, k - p, tlv) ==> Counts(Formed(items, p, k), tlv, runs, head)
  {
    hide SameLengthBefore, Breaks;
    if closed {
      assert Formed(items, k, k) == Progress([], []);
    } else {
      hide Formed;
      ContinuesIff(items, p, k, tlv);
      if SameLengthBefore(items, k, tlv) {
        CountedBefore(items, p, k, runs, head, tlv);
      }
    }
  }

  /** What the session adds for one TLV. */
  function Added(items: seq<Item>, k: nat, head: nat, closed: bool, runs: TlvRuns, tlv: AddrTlv): int
    requires k < |items|
  {
    if closed || !SameLengthBefore(items, k, tlv) then TlvCost(tlv)
    else if RunAt(runs, tlv, head).multi then |tlv.value|
    else if !SameValueBefore(items, k, tlv) then |tlv.value| * RunAt(runs, tlv, head).count
    else 0
  }

  lemma {:induction false} AddedIsStep(items: seq<Item>, p: nat, k: nat, head: nat, closed: bool, runs: TlvRuns, st: Progress, before: TlvRuns, tlv: AddrTlv)
    requires p <= k < |items| && AllUnique(items) && Ready(items, p, k, head, closed, runs)
    requires Untouched(items, p, k, st, tlv, runs, before, head)
    ensures StepCost(st, k - p, tlv, Agrees(items, p, k, tlv)) == Added(items, k, head, closed, runs, tlv)
  {
    StepIsCounted(items, p, k, head, closed, runs, st, tlv);
    hide TlvCost, SameLengthBefore, SameValueBefore, Breaks, Formed, Continues, ActiveOf, RunAt, UniqueTypes;
  }

  /** What is counted for the TLV taken up follows its run. */
  lemma {:induction false} CountsNext(items: seq<Item>, p: nat, k: nat, head: nat, closed: bool, runs: TlvRuns, st: Progress, before: TlvRuns, tlv: AddrTlv)
    requires p <= k < |items| && AllUnique(items) && Ready(items, p, k, head, closed, runs)
    requires Untouched(items, p, k, st, tlv, runs, before, head)
    ensures var run := ActiveOf(Absorb(st, k - p, tlv, Agrees(items, p, k, tlv)), tlv.typ, tlv.ext);
            run.Some? && CountNext(items, k, closed, RunAt(before, tlv, head), tlv) == TlvRun(|run.value.values|, !run.value.same)
  {
    AbsorbActive(st, k - p, tlv, Agrees(items, p, k, tlv), tlv.typ, tlv.ext);
    StepIsCounted(items, p, k, head, closed, runs, st, tlv);
    hide Formed, SameLengthBefore, SameValueBefore, Absorb, Breaks, ActiveOf, RunAt;
  }

  lemma {:induction false} InStepTells(items: seq<Item>, p: nat, k: nat, head: nat, closed: bool, runs: TlvRuns, j: nat, i: nat)
    requires p <= k < |items| && j <= |items[k].tlvs| && i < |items[k].tlvs| && InStep(items, p, k, head, closed, runs, j)
    ensures var st, after := Midway(items, p, k, j), RunsAfter(items, k, head, closed, runs, j);
            && AllValuedOf(st) && CostOf(st) == TlvEstimate(items, p, k) + ContinueCosts(items, k, head, closed, runs, j)
            && (if i < j then Counts(st, items[k].tlvs[i], after, head) else Untouched(items, p, k, st, items[k].tlvs[i], runs, after, head))
  {
    hide Midway, RunsAfter, Counts, Untouched, AllValuedOf, CostOf, TlvEstimate, ContinueCosts;
  }

  /** The TLV taken up is not of the type `u`. */
  lemma {:induction false} OthersStay(items: seq<Item>, p: nat, k: nat, head: nat, closed: bool, runs: TlvRuns, j: nat, u: AddrTlv)
    requires p <= k < |items| && 0 < j <= |items[k].tlvs| && !OneType(u, items[k].tlvs[j - 1])
    ensures ActiveOf(Midway(items, p, k, j), u.typ, u.ext) == ActiveOf(Midway(items, p, k, j - 1), u.typ, u.ext)
    ensures RunAt(RunsAfter(items, k, head, closed, runs, j), u, head) == RunAt(RunsAfter(items, k, head, closed, runs, j - 1), u, head)
  {
    hide Midway, RunsAfter, Absorb, ActiveOf, RunAt, Agrees, CountNext, Continues, Longer, Fresh;
    var tlv := items[k].tlvs[j - 1];
    MidwayNext(items, p, k, j);
    RunsAfterOne(items, k, head, closed, runs, j, u, head);
    AbsorbActive(Midway(items, p, k, j - 1), k - p, tlv, Agrees(items, p, k, tlv), u.typ, u.ext);
  }

  /** What is counted for a type stays with TLVs of other types, and follows those of its own. */
  lemma {:induction false} StepCounts(items: seq<Item>, p: nat, k: nat, head: nat, closed: bool, runs: TlvRuns, j: nat, i: nat)
    requires p <= k < |items| && AllUnique(items) && Ready(items, p, k, head, closed, runs)
    requires 0 < j <= |items[k].tlvs| && i < j && InStep(items, p, k, head, closed, runs, j - 1)
    ensures Counts(Midway(items, p, k, j), items[k].tlvs[i], RunsAfter(items, k, head, closed, runs, j), head)
  {
    hide InStep, Midway, RunsAfter, Ready, AllUnique, ActiveOf, RunAt, CountNext, Agrees, Absorb;
    var tlv := items[k].tlvs[j - 1];
    Apart(items, k, i, j - 1);
    if i < j - 1 {
      InStepTells(items, p, k, head, closed, runs, j - 1, i);
      OthersStay(items, p, k, head, closed, runs, j, items[k].tlvs[i]);
    } else {
      InStepTells(items, p, k, head, closed, runs, j - 1, j - 1);
      MidwayNext(items, p, k, j);
      RunsAfterOne(items, k, head, closed, runs, j, tlv, head);
      CountsNext(items, p, k, head, closed, runs, Midway(items, p, k, j - 1), RunsAfter(items, k, head, closed, runs, j - 1), tlv);
    }
  }

  lemma {:induction false} StepUntouched(items: seq<Item>, p: nat, k: nat, head: nat, closed: bool, runs: TlvRuns, j: nat, i: nat)
    requires p <= k < |items| && AllUnique(items)
    requires 0 < j <= i < |items[k].tlvs| && InStep(items, p, k, head, closed, runs, j - 1)
    ensures Untouched(items, p, k, Midway(items, p, k, j), items[k].tlvs[i], runs, RunsAfter(items, k, head, closed, runs, j), head)
  {
    hide InStep, Midway, RunsAfter, AllUnique, ActiveOf, RunAt, Formed;
    Apart(items, k, i, j - 1);
    InStepTells(items, p, k, head, closed, runs, j - 1, i);
    OthersStay(items, p, k, head, closed, runs, j, items[k].tlvs[i]);
  }

  /** The costs after one TLV more. */
  lemma {:induction false} StepCosts(items: seq<Item>, p: nat, k: nat, head: nat, closed: bool, runs: TlvRuns, j: nat)
    requires p <= k < |items| && AllUnique(items) && Ready(items, p, k, head, closed, runs)
    requires 0 < j <= |items[k].tlvs| && InStep(items, p, k, head, closed, runs, j - 1)
    ensures var st := Midway(items, p, k, j);
            AllValuedOf(st) && CostOf(st) == TlvEstimate(items, p, k) + ContinueCosts(items, k, head, closed, runs, j)
  {
    hide *;
    var st, tlv := Midway(items, p, k, j - 1), items[k].tlvs[j - 1];
    InStepTells(items, p, k, head, closed, runs, j - 1, j - 1);
    MidwayNext(items, p, k, j);
    AddedIsStep(items, p, k, head, closed, runs, st, RunsAfter(items, k, head, closed, runs, j - 1), tlv);
    AbsorbCosts(st, k - p, tlv, Agrees(items, p, k, tlv));
    AddsUp(items, k, head, closed, runs, j);
  }

  lemma {:induction false} StepInStep(items: seq<Item>, p: nat, k: nat, head: nat, closed: bool, runs: TlvRuns, j: nat)
    requires p <= k < |items| && AllUnique(items) && Ready(items, p, k, head, closed, runs)
    requires 0 < j <= |items[k].tlvs| && InStep(items, p, k, head, closed, runs, j - 1)
    ensures InStep(items, p, k, head, closed, runs, j)
  {
    hide Counts, Untouched, Midway, ContinueCosts, RunsAfter, CostOf, AllUnique, Ready, AllValuedOf, TlvEstimate;
    StepCosts(items, p, k, head, closed, runs, j);
    forall i | 0 <= i < j
      ensures Counts(Midway(items, p, k, j), items[k].tlvs[i], RunsAfter(items, k, head, closed, runs, j), head)
    {
      StepCounts(items, p, k, head, closed, runs, j, i);
    }
    forall i | j <= i < |items[k].tlvs|
      ensures Untouched(items, p, k, Midway(items, p, k, j), items[k].tlvs[i], runs, RunsAfter(items, k, head, closed, runs, j), head)
    {
      StepUntouched(items, p, k, head, closed, runs, j, i);
    }
  }

  lemma {:induction false} AddsUp(items: seq<Item>, k: nat, head: nat, closed: bool, runs: TlvRuns, j: nat)
    requires k < |items| && 0 < j <= |items[k].tlvs|
    ensures ContinueCosts(items, k, head, closed, runs, j)
         == ContinueCosts(items, k, head, closed, runs, j - 1) + Added(items, k, head, closed, runs, items[k].tlvs[j - 1])
  {
    hide SameLengthBefore, SameValueBefore, TlvCost, RunAt;
  }

  lemma {:induction false} AddressInStep(items: seq<Item>, p: nat, k: nat, head: nat, closed: bool, runs: TlvRuns, j: nat)
    requires p <= k < |items| && AllUnique(items) && Ready(items, p, k, head, closed, runs) && j <= |items[k].tlvs|
    ensures InStep(items, p, k, head, closed, runs, j)
  {
    if j == 0 {
      MidwayEnds(items, p, k);
      FormedValued(items, p, k);
      hide Midway, Formed, RunAt, ActiveOf, CostOf;
    } else {
      hide InStep, Ready, AllUnique;
      AddressInStep(items, p, k, head, closed, runs, j - 1);
      StepInStep(items, p, k, head, closed, runs, j);
    }
  }

  /** One address more adds to a block what the session adds, and the session stays in step. */
  lemma {:induction false} AddressAdds(items: seq<Item>, p: nat, k: nat, head: nat, closed: bool, runs: TlvRuns)
    requires p <= k < |items| && AllUnique(items) && Ready(items, p, k, head, closed, runs)
    ensures TlvEstimate(items, p, k + 1) == TlvEstimate(items, p, k) + ContinueCosts(items, k, head, closed, runs, |items[k].tlvs|)
    ensures Tracks(items, p, k + 1, RunsAfter(items, k, head, closed, runs, |items[k].tlvs|), head)
  {
    AddressInStep(items, p, k, head, closed, runs, |items[k].tlvs|);
    MidwayEnds(items, p, k);
    hide Formed, Midway, ContinueCosts, RunsAfter, CostOf, Counts, Untouched;
  }

  /** The first address of a block costs its TLVs. */
  lemma {:induction false} ClosedCosts(items: seq<Item>, k: nat, head: nat, runs: TlvRuns, j: nat)
    requires k < |items| && j <= |items[k].tlvs|
    ensures ContinueCosts(items, k, head, true, runs, j) == TlvCosts(items[k].tlvs, j)
  {
    hide TlvCost;
    if j > 0 {
      ClosedCosts(items, k, head, runs, j - 1);
    }
  }

  lemma {:induction false} NothingFormed(items: seq<Item>, p: nat)
    requires p <= |items|
    ensures TlvEstimate(items, p, p) == 0
  {
  }

  /** Counts for other head lengths stay. */
  lemma {:induction false} OtherHeadStays(items: seq<Item>, k: nat, head: nat, closed: bool, runs: TlvRuns, j: nat, u: AddrTlv, h: nat)
    requires k < |items| && j <= |items[k].tlvs| && h != head
    ensures RunAt(RunsAfter(items, k, head, closed, runs, j), u, h) == RunAt(runs, u, h)
  {
    if j > 0 {
      OtherHeadStays(items, k, head, closed, runs, j - 1, u, h);
      RunsAfterOne(items, k, head, closed, runs, j, u, h);
    }
  }

  lemma {:induction false} OtherHeadTracks(items: seq<Item>, p: nat, n: nat, k: nat, head: nat, closed: bool, runs: TlvRuns, h: nat)
    requires k < |items| && p < n <= |items| && h != head && Tracks(items, p, n, runs, h)
    ensures Tracks(items, p, n, RunsAfter(items, k, head, closed, runs, |items[k].tlvs|), h)
  {
    hide Formed, RunAt, RunsAfter, ActiveOf;
    forall tlv | tlv in items[n - 1].tlvs
      ensures Counts(Formed(items, p, n), tlv, RunsAfter(items, k, head, closed, runs, |items[k].tlvs|), h)
    {
      assert Counts(Formed(items, p, n), tlv, runs, h);
      OtherHeadStays(items, k, head, closed, runs, |items[k].tlvs|, tlv, h);
    }
  }

  // ---------- what a block is thought to take ----------

  function PlenAt(items: seq<Item>, k: nat): nat
    requires k < |items|
  {
    items[k].addr.plen
  }

  /** Whether neighbours among the addresses `p` to `n - 1` have different prefix lengths. */
  predicate Mixed(items: seq<Item>, p: nat, n: nat)
    requires n <= |items|
  {
    exists j :: p < j < n && PlenAt(items, j) != PlenAt(items, j - 1)
  }

  /** What the session adds for the prefix lengths behind the first: one byte for each address once they differ; where they
      begin to, it subtracts what it should add. */
  function PlenMore(items: seq<Item>, p: nat, n: nat): int
    requires p < n <= |items|
    decreases n
  {
    if n == p + 1 then 0
    else PlenMore(items, p, n - 1) + if Mixed(items, p, n - 1) then 1 else if PlenAt(items, n - 1) != PlenAt(items, n - 2) then p - n + 2 else 0
  }

  function PlenFirst(items: seq<Item>, p: nat, len: nat): nat
    requires p < |items|
  {
    if PlenAt(items, p) != 8 * len then 1 else 0
  }

  /** What the session thinks a block of the addresses `p` to `n - 1` takes: head and address, middle parts, prefix lengths,
      the size of the TLVs and the TLVs. */
  function BlockEstimate(items: seq<Item>, p: nat, n: nat, len: nat, head: nat): int
    requires p < n <= |items|
  {
    2 + (if head > 0 then 1 else 0) + len + (n - 1 - p) * (len - head) + PlenFirst(items, p, len) + PlenMore(items, p, n) + 2
    + TlvEstimate(items, p, n)
  }

  /** What the session thinks the blocks up to address `k` take. */
  ghost function WalkCost(items: seq<Item>, len: nat, marks: map<nat, Mark>, k: nat): int
    requires Linked(marks, k) && k < |items|
  {
    var m := marks[k];
    (if m.start == 0 then 0 else WalkCost(items, len, marks, m.start - 1)) + BlockEstimate(items, m.start, k + 1, len, m.head)
  }

  /** What comes before a block that starts at `p`. */
  ghost function CostBefore(items: seq<Item>, len: nat, marks: map<nat, Mark>, p: nat): int
    requires p <= |items| && (p > 0 ==> Linked(marks, p - 1))
  {
    if p == 0 then 0 else WalkCost(items, len, marks, p - 1)
  }

  lemma {:induction false} MixedGrows(items: seq<Item>, p: nat, n: nat)
    requires p < n < |items|
    ensures Mixed(items, p, n + 1) <==> Mixed(items, p, n) || PlenAt(items, n) != PlenAt(items, n - 1)
  {
    if PlenAt(items, n) != PlenAt(items, n - 1) {
      assert p < n < n + 1;
    }
  }

  /** Marks behind an address do not change what comes before. */
  lemma {:induction false} MarkBehind(items: seq<Item>, len: nat, marks: map<nat, Mark>, k: nat, last: nat, m: Mark)
    requires Linked(marks, k) && k < last && k < |items|
    ensures Linked(marks[last := m], k) && WalkCost(items, len, marks[last := m], k) == WalkCost(items, len, marks, k)
    decreases k
  {
    hide BlockEstimate;
    if marks[k].start > 0 {
      MarkBehind(items, len, marks, marks[k].start - 1, last, m);
    }
  }

  /** What a candidate says it costs is what the blocks before it and its own are thought to take. */
  ghost predicate Costed(items: seq<Item>, len: nat, marks: map<nat, Mark>, slot: Slot, head: nat, n: nat, total: int)
    requires 0 < n <= |items| && (n > 1 ==> Linked(marks, n - 2))
  {
    && slot.ptr < n && total == CostBefore(items, len, marks, slot.ptr) + BlockEstimate(items, slot.ptr, n, len, head)
    && (slot.multiplen <==> Mixed(items, slot.ptr, n))
  }

  /** The session after `n` addresses. */
  ghost predicate InAccount(items: seq<Item>, len: nat, n: nat, st: State)
    requires 0 < n <= |items|
  {
    && |st.slots| == len && st.same > 0 && (n > 1 ==> Linked(st.marks, n - 2))
    && (forall k :: k in st.marks ==> k < n - 1 && MarkFits(items, st.marks[k], k))
    && (forall i :: 0 <= i < len ==> Costed(items, len, st.marks, st.slots[i], i, n, st.slots[i].total)
                                     && Tracks(items, st.slots[i].ptr, n, st.runs, i))
  }

  /** What an address remembers is a block that ends there, and says whether its prefix lengths differ. */
  ghost predicate MarkFits(items: seq<Item>, m: Mark, k: nat)
  {
    m.start <= k < |items| && (m.multi <==> Mixed(items, m.start, k + 1))
  }

  // ---------- the session keeps account ----------

  /** A block of one address. */
  lemma {:induction false} NewBlock(items: seq<Item>, k: nat, len: nat, head: nat, runs: TlvRuns)
    requires k < |items| && AllUnique(items)
    ensures BlockEstimate(items, k, k + 1, len, head) == NewCost(items[k], len, head) && !Mixed(items, k, k + 1)
    ensures Tracks(items, k, k + 1, RunsAfter(items, k, head, true, runs, |items[k].tlvs|), head)
  {
    AddressAdds(items, k, k, head, true, runs);
    ClosedCosts(items, k, head, runs, |items[k].tlvs|);
    NothingFormed(items, k);
    hide TlvEstimate, ContinueCosts, TlvCosts, Tracks, RunsAfter;
  }

  /** A block of one address more. */
  lemma {:induction false} LongerBlock(items: seq<Item>, p: nat, k: nat, len: nat, head: nat, common: nat, same: nat, slot: Slot, runs: TlvRuns)
    requires p < k < |items| && AllUnique(items) && Tracks(items, p, k, runs, head) && slot.ptr == p && (slot.multiplen <==> Mixed(items, p, k))
    requires !MustClose(k, head, common) && (same == 1 <==> PlenAt(items, k) != PlenAt(items, k - 1))
    ensures BlockEstimate(items, p, k + 1, len, head) == BlockEstimate(items, p, k, len, head) + GoOnCost(items, k, len, head, common, same, slot, runs)
    ensures Tracks(items, p, k + 1, RunsAfter(items, k, head, false, runs, |items[k].tlvs|), head)
    ensures Mixed(items, p, k + 1) <==> slot.multiplen || same == 1
  {
    AddressAdds(items, p, k, head, false, runs);
    MixedGrows(items, p, k);
    hide TlvEstimate, ContinueCosts, Tracks, RunsAfter, Mixed;
    assert (k - p) * (len - head) == (k - 1 - p) * (len - head) + (len - head);
  }

  /** The candidate of one head length after address `k`. */
  lemma {:induction false} NextCosted(items: seq<Item>, k: nat, len: nat, head: nat, common: nat, same: nat, slot: Slot, base: int, runs: TlvRuns, marks: map<nat, Mark>)
    requires k < |items| && AllUnique(items) && head < len && (k > 0 ==> Linked(marks, k - 1)) && base == CostBefore(items, len, marks, k)
    requires k > 0 ==> (same == 1 <==> PlenAt(items, k) != PlenAt(items, k - 1))
    requires k > 0 && head <= common ==> Costed(items, len, marks, slot, head, k, slot.total) && Tracks(items, slot.ptr, k, runs, head)
    ensures var next, closed := NextSlot(items, k, len, head, common, same, slot, base, runs), StartsBlock(items, k, len, head, common, same, slot, base, runs);
            && Costed(items, len, marks, next, head, k + 1, next.total + next.current)
            && Tracks(items, next.ptr, k + 1, RunsAfter(items, k, head, closed, runs, |items[k].tlvs|), head)
  {
    hide BlockEstimate, NewCost, GoOnCost, Tracks, RunsAfter, WalkCost, Mixed;
    if StartsBlock(items, k, len, head, common, same, slot, base, runs) {
      NewBlock(items, k, len, head, runs);
    } else {
      LongerBlock(items, slot.ptr, k, len, head, common, same, slot, runs);
    }
  }

  /** The candidates of the first `i` head lengths have taken in address `k`, those of the others up to `common` not yet. */
  ghost predicate Taking(items: seq<Item>, k: nat, len: nat, common: nat, st: State, r: State, i: nat)
    requires k < |items| && (k > 0 ==> Linked(st.marks, k - 1))
  {
    && |r.slots| == len == |st.slots| && r.marks == st.marks && r.same == st.same
    && (forall j :: 0 <= j < i && j < len ==> Taken(items, k, len, r, j))
    && (forall j :: i <= j < len ==> r.slots[j] == st.slots[j] && (k > 0 && j <= common ==> Tracking(items, k, r, j)))
  }

  ghost predicate Taken(items: seq<Item>, k: nat, len: nat, r: State, j: nat)
    requires k < |items| && (k > 0 ==> Linked(r.marks, k - 1)) && j < |r.slots|
  {
    var slot := r.slots[j];
    Costed(items, len, r.marks, slot, j, k + 1, slot.total + slot.current) && Tracks(items, slot.ptr, k + 1, r.runs, j)
  }

  ghost predicate Tracking(items: seq<Item>, k: nat, r: State, j: nat)
    requires 0 < k <= |items| && j < |r.slots|
  {
    r.slots[j].ptr < k && Tracks(items, r.slots[j].ptr, k, r.runs, j)
  }

  lemma {:induction false} TakingNext(items: seq<Item>, k: nat, len: nat, common: nat, st: State, i: nat)
    requires k < |items| && AllUnique(items) && 0 < i <= len == |st.slots| && (k > 0 ==> Linked(st.marks, k - 1))
    requires st.slots[len - 1].total == CostBefore(items, len, st.marks, k)
    requires k > 0 ==> (st.same == 1 <==> PlenAt(items, k) != PlenAt(items, k - 1))
    requires k > 0 ==> forall j :: 0 <= j <= common && j < len ==> Costed(items, len, st.marks, st.slots[j], j, k, st.slots[j].total)
    requires Taking(items, k, len, common, st, TakeIn(items, k, len, common, st, i - 1), i - 1)
    ensures Taking(items, k, len, common, st, TakeIn(items, k, len, common, st, i), i)
  {
    hide NextSlot, StartsBlock, RunsAfter, Tracks, CostBefore, BlockEstimate, Costed;
    var before, r := TakeIn(items, k, len, common, st, i - 1), TakeIn(items, k, len, common, st, i);
    var slot, base := before.slots[i - 1], before.slots[len - 1].total;
    var closed := StartsBlock(items, k, len, i - 1, common, st.same, slot, base, before.runs);
    NextCosted(items, k, len, i - 1, common, st.same, slot, base, before.runs, st.marks);
    forall j | 0 <= j < i
      ensures Taken(items, k, len, r, j)
    {
      if j < i - 1 {
        assert Taken(items, k, len, before, j);
        CostedBounds(items, len, before.marks, before.slots[j], j, k + 1, before.slots[j].total + before.slots[j].current);
        OtherHeadTracks(items, before.slots[j].ptr, k + 1, k, i - 1, closed, before.runs, j);
      }
    }
    forall j | i <= j < len && k > 0 && j <= common
      ensures Tracking(items, k, r, j)
    {
      assert Tracking(items, k, before, j);
      OtherHeadTracks(items, before.slots[j].ptr, k, k, i - 1, closed, before.runs, j);
    }
  }

  lemma {:induction false} CostedBounds(items: seq<Item>, len: nat, marks: map<nat, Mark>, slot: Slot, head: nat, n: nat, total: int)
    requires 0 < n <= |items| && (n > 1 ==> Linked(marks, n - 2)) && Costed(items, len, marks, slot, head, n, total)
    ensures slot.ptr < n
  {
  }

  lemma {:induction false} TakingAll(items: seq<Item>, k: nat, len: nat, common: nat, st: State, i: nat)
    requires k < |items| && AllUnique(items) && i <= len == |st.slots| && (k > 0 ==> Linked(st.marks, k - 1))
    requires len > 0 && st.slots[len - 1].total == CostBefore(items, len, st.marks, k)
    requires k > 0 ==> (st.same == 1 <==> PlenAt(items, k) != PlenAt(items, k - 1))
    requires k > 0 ==> forall j :: 0 <= j <= common && j < len ==>
               Costed(items, len, st.marks, st.slots[j], j, k, st.slots[j].total) && Tracking(items, k, st, j)
    ensures Taking(items, k, len, common, st, TakeIn(items, k, len, common, st, i), i)
  {
    hide Costed, Tracking, Taken, CostBefore;
    if i > 0 {
      TakingAll(items, k, len, common, st, i - 1);
      TakingNext(items, k, len, common, st, i);
    }
  }

  /** What comes before stays when a later address remembers a block. */
  lemma {:induction false} BeforeStays(items: seq<Item>, len: nat, marks: map<nat, Mark>, p: nat, last: nat, m: Mark)
    requires p <= last <= |items| && (p > 0 ==> Linked(marks, p - 1))
    ensures (p > 0 ==> Linked(marks[last := m], p - 1)) && CostBefore(items, len, marks[last := m], p) == CostBefore(items, len, marks, p)
  {
    hide WalkCost;
    if p > 0 {
      MarkBehind(items, len, marks, p - 1, last, m);
    }
  }

  lemma {:induction false} CostedStays(items: seq<Item>, len: nat, marks: map<nat, Mark>, slot: Slot, head: nat, n: nat, total: int, m: Mark)
    requires 0 < n <= |items| && (n > 1 ==> Linked(marks, n - 2)) && Costed(items, len, marks, slot, head, n, total) && Linked(marks[n - 1 := m], n - 1)
    ensures n > 1 ==> Linked(marks[n - 1 := m], n - 2)
    ensures Costed(items, len, marks[n - 1 := m], slot, head, n, total)
  {
    hide BlockEstimate, CostBefore;
    LinkedEarlier(marks, n, slot.ptr);
    BeforeStays(items, len, marks, slot.ptr, n - 1, m);
  }

  lemma {:induction false} LinkedEarlier(marks: map<nat, Mark>, n: nat, p: nat)
    requires p < n && (n > 1 ==> Linked(marks, n - 2))
    ensures p > 0 ==> Linked(marks, p - 1)
  {
  }

  /** An address remembers a candidate, and what it costs is what the blocks up to it cost. */
  lemma {:induction false} MarkCosts(items: seq<Item>, len: nat, marks: map<nat, Mark>, slot: Slot, head: nat, n: nat, total: int)
    requires 0 < n <= |items| && (n > 1 ==> Linked(marks, n - 2)) && Costed(items, len, marks, slot, head, n, total)
    ensures var now := marks[n - 1 := Mark(slot.ptr, head, slot.multiplen)];
            Linked(now, n - 1) && WalkCost(items, len, now, n - 1) == total && MarkFits(items, now[n - 1], n - 1)
  {
    hide BlockEstimate, CostBefore;
    var m := Mark(slot.ptr, head, slot.multiplen);
    assert slot.ptr <= n - 1;
    LinkedEarlier(marks, n, slot.ptr);
    BeforeStays(items, len, marks, slot.ptr, n - 1, m);
    WalkOnce(items, len, marks[n - 1 := m], n - 1);
  }

  lemma {:induction false} WalkOnce(items: seq<Item>, len: nat, marks: map<nat, Mark>, k: nat)
    requires Linked(marks, k) && k < |items|
    ensures var m := marks[k];
            (m.start > 0 ==> Linked(marks, m.start - 1))
            && WalkCost(items, len, marks, k) == CostBefore(items, len, marks, m.start) + BlockEstimate(items, m.start, k + 1, len, m.head)
  {
    hide BlockEstimate;
  }

  /** The address closed remembers the best candidate, and those of longer heads go on from its total. */
  lemma {:induction false} ClosedShape(st: State, last: nat, common: nat)
    requires common < |st.slots| && last !in st.marks
    ensures var r, best := Compression.Closed(st, last, common), Best(st.slots, common, |st.slots|);
            && |r.slots| == |st.slots| && r.same == st.same && r.runs == st.runs
            && r.marks == st.marks[last := Mark(st.slots[best].ptr, best, st.slots[best].multiplen)]
            && r.slots[|st.slots| - 1].total == st.slots[best].total
            && forall j :: 0 <= j <= common ==> r.slots[j] == st.slots[j]
  {
    var best := Best(st.slots, common, |st.slots|);
    if common == |st.slots| - 1 {
      assert best == common;
    }
  }

  /** Closing keeps account: candidates of longer heads go on from what the best one costs. */
  lemma {:induction false} ClosedInAccount(items: seq<Item>, len: nat, k: nat, st: State, common: nat)
    requires 0 < k <= |items| && InAccount(items, len, k, st) && common < len
    ensures var r := Compression.Closed(st, k - 1, common);
            && |r.slots| == len && r.same == st.same && r.runs == st.runs && Linked(r.marks, k - 1)
            && r.slots[len - 1].total == CostBefore(items, len, r.marks, k) == WalkCost(items, len, r.marks, k - 1)
            && (forall j :: common <= j < len ==> r.slots[len - 1].total <= st.slots[j].total)
            && (forall x :: x in r.marks ==> x < k && MarkFits(items, r.marks[x], x))
            && forall j :: 0 <= j <= common ==> Costed(items, len, r.marks, r.slots[j], j, k, r.slots[j].total) && Tracking(items, k, r, j)
  {
    ClosedShape(st, k - 1, common);
    hide Tracks, MarkFits, Compression.Closed, Best, Linked, WalkCost, Costed;
    var best := Best(st.slots, common, len);
    var slot := st.slots[best];
    assert Costed(items, len, st.marks, slot, best, k, slot.total);
    MarkCosts(items, len, st.marks, slot, best, k, slot.total);
    var m := Mark(slot.ptr, best, slot.multiplen);
    forall j | 0 <= j <= common
      ensures Costed(items, len, st.marks[k - 1 := m], st.slots[j], j, k, st.slots[j].total) && st.slots[j].ptr < k
    {
      CostedStays(items, len, st.marks, st.slots[j], j, k, st.slots[j].total, m);
      CostedBounds(items, len, st.marks, st.slots[j], j, k, st.slots[j].total);
    }
  }

  /** When the costs of the last address are added, the session is in account. */
  lemma {:induction false} CountedInAccount(items: seq<Item>, k: nat, len: nat, common: nat, st: State, r: State)
    requires k < |items| && (k > 0 ==> Linked(st.marks, k - 1)) && Taking(items, k, len, common, st, r, len) && st.same > 0
    requires forall x :: x in st.marks ==> x < k && MarkFits(items, st.marks[x], x)
    ensures InAccount(items, len, k + 1, Counted(r))
  {
    hide BlockEstimate, CostBefore, Tracks, MarkFits, Linked;
    var c := Counted(r);
    forall i | 0 <= i < len
      ensures Costed(items, len, c.marks, c.slots[i], i, k + 1, c.slots[i].total) && Tracks(items, c.slots[i].ptr, k + 1, c.runs, i)
    {
      assert Taken(items, k, len, r, i);
    }
  }

  lemma {:induction false} FirstInAccount(items: seq<Item>, len: nat)
    requires Sendable(items, len) && items != [] && AllUnique(items)
    ensures InAccount(items, len, 1, AfterList(items, 1, len))
  {
    TakingAll(items, 0, len, 0, Initial(len), len);
    ListStart(items, len);
    ListStep(items, 0, len);
    hide InAccount, Taking, TakeIn, AfterList, Counted;
    CountedInAccount(items, 0, len, 0, Initial(len), TakeIn(items, 0, len, 0, Initial(len), len));
  }

  /** What `same` says of address `k`, and the closed session it is taken into. */
  lemma {:induction false} AddressTaking(items: seq<Item>, len: nat, k: nat, st: State) returns (common: nat, closed: State)
    requires Sendable(items, len) && 0 < k < |items| && AllUnique(items) && InAccount(items, len, k, st)
    ensures Linked(closed.marks, k - 1) && closed.same > 0
    ensures forall x :: x in closed.marks ==> x < k && MarkFits(items, closed.marks[x], x)
    ensures Taking(items, k, len, common, closed, AfterAddress(items, k, len, st), len)
  {
    var a, b := items[k - 1].addr, items[k].addr;
    common := HeadFrom(a.bytes, b.bytes, 0);
    HeadIsLongest(a.bytes, b.bytes, 0);
    var renewed := st.(same := if a.plen == b.plen then st.same + 1 else 1);
    RenewedInAccount(items, len, k, st, renewed.same);
    ClosedInAccount(items, len, k, renewed, common);
    closed := Compression.Closed(renewed, k - 1, common);
    hide InAccount, Taking, TakeIn, Costed, Tracking, Linked, MarkFits, Compression.Closed, CostBefore, WalkCost, AllUnique, HeadFrom;
    TakingAll(items, k, len, common, closed, len);
  }

  lemma {:induction false} RenewedInAccount(items: seq<Item>, len: nat, k: nat, st: State, same: nat)
    requires 0 < k <= |items| && InAccount(items, len, k, st) && same > 0
    ensures InAccount(items, len, k, st.(same := same))
  {
    hide Costed, Tracks, MarkFits, Linked;
  }

  /** After any number of addresses the session is in account. */
  lemma {:induction false} ListInAccount(items: seq<Item>, n: nat, len: nat)
    requires Sendable(items, len) && 0 < n <= |items| && AllUnique(items)
    ensures InAccount(items, len, n, AfterList(items, n, len))
  {
    if n == 1 {
      FirstInAccount(items, len);
    } else {
      hide InAccount, AfterAddress, AfterList, Sendable, AllUnique, Taking, Counted, Linked, MarkFits;
      ListInAccount(items, n - 1, len);
      var st := AfterList(items, n - 1, len);
      var common, closed := AddressTaking(items, len, n - 1, st);
      CountedInAccount(items, n - 1, len, common, closed, AfterAddress(items, n - 1, len, st));
      ListStep(items, n - 1, len);
    }
  }

  /** The block of the candidate has at most 255 addresses, and is thought to fit with the blocks before it. */
  ghost predicate Within(items: seq<Item>, k: nat, len: nat, st: State, i: nat, max: int)
    requires k < |items| && i < |st.slots| && (k > 0 ==> Linked(st.marks, k - 1)) && st.slots[i].ptr <= k
  {
    var p := st.slots[i].ptr;
    k - p <= 254 && CostBefore(items, len, st.marks, p) + BlockEstimate(items, p, k + 1, len, i) <= max
  }

  lemma {:induction false} TakenWithin(items: seq<Item>, k: nat, len: nat, st: State, i: nat, max: int)
    requires k < |items| && i < |st.slots| && (k > 0 ==> Linked(st.marks, k - 1)) && Taken(items, k, len, st, i)
    ensures st.slots[i].ptr <= k && (Fitting(st.slots[i], max, k) <==> Within(items, k, len, st, i, max))
  {
    hide Tracks, CostBefore, BlockEstimate, Linked, Mixed;
  }

  /** Every candidate has taken in address `k`. */
  lemma {:induction false} AllTaken(items: seq<Item>, k: nat, len: nat)
    requires Sendable(items, len) && k < |items| && AllUnique(items)
    ensures var st := AfterAddress(items, k, len, AfterList(items, k, len));
            (k > 0 ==> Linked(st.marks, k - 1)) && forall i :: 0 <= i < len ==> Taken(items, k, len, st, i)
  {
    if k == 0 {
      TakingAll(items, 0, len, 0, Initial(len), len);
      ListStart(items, len);
      hide AfterList, TakeIn, Initial, Taken;
    } else {
      ListInAccount(items, k, len);
      var common, closed := AddressTaking(items, len, k, AfterList(items, k, len));
      hide InAccount, AfterAddress, AfterList, Sendable, AllUnique, Taken, Tracking, MarkFits, Linked;
    }
  }

  lemma {:induction false} LinkedWhileTaking(items: seq<Item>, k: nat, len: nat)
    requires Sendable(items, len) && k < |items| && AllUnique(items)
    ensures k > 0 ==> Linked(AfterAddress(items, k, len, AfterList(items, k, len)).marks, k - 1)
  {
    AllTaken(items, k, len);
  }

  lemma {:induction false} TakenAt(items: seq<Item>, k: nat, len: nat, i: nat)
    requires Sendable(items, len) && k < |items| && AllUnique(items) && i < len
    ensures var st := AfterAddress(items, k, len, AfterList(items, k, len)); (k > 0 ==> Linked(st.marks, k - 1)) && Taken(items, k, len, st, i)
  {
    AllTaken(items, k, len);
    hide Sendable, AllUnique, Taken, AfterAddress, AfterList, Linked;
  }

  ghost predicate SomeWithin(items: seq<Item>, k: nat, len: nat, st: State, max: int)
    requires k < |items| && (k > 0 ==> Linked(st.marks, k - 1)) && forall i :: 0 <= i < |st.slots| ==> st.slots[i].ptr <= k
  {
    exists i :: 0 <= i < |st.slots| && Within(items, k, len, st, i, max)
  }

  ghost predicate SomeFits(slots: seq<Slot>, k: nat, max: int)
  {
    exists i :: 0 <= i < |slots| && Fitting(slots[i], max, k)
  }

  lemma {:induction false} FitsAtIs(items: seq<Item>, k: nat, len: nat, max: int)
    requires Sendable(items, len) && k < |items|
    ensures FitsAt(items, k, len, max) <==> SomeFits(AfterAddress(items, k, len, AfterList(items, k, len)).slots, k, max)
  {
    hide AfterAddress, AfterList, Fitting;
  }

  /** An address is kept in the fragment exactly if some candidate of at most 255 addresses, together with the blocks before
      it, is thought to take no more than there is. */
  lemma {:induction false} FitsAtIff(items: seq<Item>, k: nat, len: nat, max: int)
    requires Sendable(items, len) && k < |items| && AllUnique(items)
    ensures var st := AfterAddress(items, k, len, AfterList(items, k, len));
            && (k > 0 ==> Linked(st.marks, k - 1)) && (forall i :: 0 <= i < len ==> st.slots[i].ptr <= k)
            && (FitsAt(items, k, len, max) <==> SomeWithin(items, k, len, st, max))
  {
    FitsAtIs(items, k, len, max);
    hide Sendable, AllUnique, Taken, Within, Fitting, AfterAddress, AfterList, Linked, FitsAt;
    var st := AfterAddress(items, k, len, AfterList(items, k, len));
    LinkedWhileTaking(items, k, len);
    forall i | 0 <= i < len
      ensures st.slots[i].ptr <= k && (Fitting(st.slots[i], max, k) <==> Within(items, k, len, st, i, max))
    {
      TakenAt(items, k, len, i);
      TakenWithin(items, k, len, st, i, max);
    }
  }
}
