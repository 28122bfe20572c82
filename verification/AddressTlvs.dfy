/** The TLVs of the addresses of one block: runs of equal types are written as one TLV
    (rfc5444_msg_generator.c) and expanded again by the reader (rfc5444_reader.c). */
module AddressTlvs {
  import opened Wire
  import opened Seqs
  import opened Tlv

  /** A TLV attached to an address. */
  datatype AddrTlv = AddrTlv(typ: u8, ext: u8, value: seq<byte>)

  /** The TLVs of the addresses of a block, by index in the block. */
  type Block = seq<seq<AddrTlv>>

  /** That address `index` has a TLV. */
  datatype Fact = Fact(index: int, typ: u8, ext: u8, value: seq<byte>)

  // ---------- the writer ----------

  /** Runs already written and the run of each active type, in order of activation. */
  datatype Progress = Progress(emitted: seq<Run>, active: seq<Run>)

  /** The index of the run of a type, `|active|` if there is none. */
  function FindRun(active: seq<Run>, typ: u8, ext: u8): (i: nat)
    ensures i <= |active|
    ensures i < |active| ==> active[i].typ == typ && active[i].ext == ext
    ensures forall j :: 0 <= j < i ==> !(active[j].typ == typ && active[j].ext == ext)
  {
    if active == [] || (active[0].typ == typ && active[0].ext == ext) then 0
    else 1 + FindRun(active[1..], typ, ext)
  }

  function FirstOfType(tlvs: seq<AddrTlv>, typ: u8, ext: u8): (i: nat)
    ensures i <= |tlvs|
    ensures i < |tlvs| ==> tlvs[i].typ == typ && tlvs[i].ext == ext
    ensures forall j :: 0 <= j < i ==> !(tlvs[j].typ == typ && tlvs[j].ext == ext)
  {
    if tlvs == [] || (tlvs[0].typ == typ && tlvs[0].ext == ext) then 0
    else 1 + FirstOfType(tlvs[1..], typ, ext)
  }

  /** Whether the address before has a TLV of this type with this value; set when the address is compressed. */
  function SameAsBefore(block: Block, k: nat, tlv: AddrTlv): bool
    requires k < |block|
  {
    k > 0 &&
    var i := FirstOfType(block[k - 1], tlv.typ, tlv.ext);
    i < |block[k - 1]| && block[k - 1][i].value == tlv.value
  }

  function Fresh(k: nat, tlv: AddrTlv): Run
  {
    Run(tlv.typ, tlv.ext, k, [tlv.value], true)
  }

  /** Whether the TLV of address `k` cannot continue `run`: a gap or another value length. */
  predicate Breaks(run: Run, k: nat, tlv: AddrTlv)
  {
    run.values == [] || run.Last() != k - 1 || run.Length() != |tlv.value|
  }

  function Longer(run: Run, tlv: AddrTlv, same: bool): Run
  {
    run.(values := run.values + [tlv.value], same := run.same && same)
  }

  /** Takes up one TLV of address `k`: it continues the run of its type or starts a new one. */
  function Absorb(st: Progress, k: nat, tlv: AddrTlv, same: bool): Progress
  {
    var i := FindRun(st.active, tlv.typ, tlv.ext);
    if i == |st.active| then st.(active := st.active + [Fresh(k, tlv)])
    else
      var run := st.active[i];
      if Breaks(run, k, tlv) then Progress(st.emitted + [run], st.active[i := Fresh(k, tlv)])
      else st.(active := st.active[i := Longer(run, tlv, same)])
  }

  /** The first `j` TLVs of address `k`. */
  function AbsorbSome(st: Progress, block: Block, k: nat, j: nat): Progress
    requires k < |block| && j <= |block[k]|
  {
    if j == 0 then st
    else Absorb(AbsorbSome(st, block, k, j - 1), k, block[k][j - 1], SameAsBefore(block, k, block[k][j - 1]))
  }

  /** All TLVs of the first `k` addresses. */
  function AbsorbAll(block: Block, k: nat): Progress
    requires k <= |block|
  {
    if k == 0 then Progress([], [])
    else AbsorbSome(AbsorbAll(block, k - 1), block, k - 1, |block[k - 1]|)
  }

  /** The runs of a block in the order they are written. */
  function RunsOf(block: Block): (runs: seq<Run>)
    ensures Valued(runs)
  {
    RunsHaveValues(block, |block|, 0);
    var st := AbsorbAll(block, |block|);
    st.emitted + st.active
  }

  ghost predicate Valued(runs: seq<Run>)
  {
    forall r :: r in runs ==> r.values != []
  }

  function EncodeRuns(runs: seq<Run>, n: nat): seq<byte>
    requires Valued(runs)
  {
    if runs == [] then [] else EncodeRun(runs[0], n) + EncodeRuns(runs[1..], n)
  }

  lemma {:induction false} EncodeRunsAppend(runs: seq<Run>, r: Run, n: nat)
    requires Valued(runs) && r.values != []
    ensures EncodeRuns(runs + [r], n) == EncodeRuns(runs, n) + EncodeRun(r, n)
  {
    hide EncodeRun;
    if runs == [] {
      assert ([r])[1..] == [];
    } else {
      assert (runs + [r])[1..] == runs[1..] + [r];
      EncodeRunsAppend(runs[1..], r, n);
      Associates(EncodeRun(runs[0], n), EncodeRuns(runs[1..], n), EncodeRun(r, n));
    }
  }

  /** Takes up one TLV: writes the run of its type if it breaks. */
  method TakeUp(out: seq<byte>, active: seq<Run>, k: nat, tlv: AddrTlv, same: bool, n: nat, ghost emitted: seq<Run>)
    returns (out': seq<byte>, active': seq<Run>, ghost emitted': seq<Run>)
    requires Valued(emitted) && Valued(active) && out == EncodeRuns(emitted, n)
    ensures Progress(emitted', active') == Absorb(Progress(emitted, active), k, tlv, same)
    ensures Valued(emitted') && Valued(active') && out' == EncodeRuns(emitted', n)
  {
    hide EncodeRun, EncodeRuns;
    out', active', emitted' := out, active, emitted;
    var i := FindRun(active, tlv.typ, tlv.ext);
    if i == |active| {
      active' := active + [Fresh(k, tlv)];
    } else if Breaks(active[i], k, tlv) {
      assert active[i] in active;
      EncodeRunsAppend(emitted, active[i], n);
      out', emitted' := out + EncodeRun(active[i], n), emitted + [active[i]];
      active' := active[i := Fresh(k, tlv)];
    } else {
      active' := active[i := Longer(active[i], tlv, same)];
    }
  }

  /** Writes the runs still active at the end of the block. */
  method WriteActive(out: seq<byte>, active: seq<Run>, n: nat, ghost emitted: seq<Run>) returns (out': seq<byte>)
    requires Valued(emitted) && Valued(active) && out == EncodeRuns(emitted, n)
    ensures Valued(emitted + active) && out' == EncodeRuns(emitted + active, n)
  {
    hide EncodeRun, EncodeRuns;
    var i := 0;
    out' := out;
    assert emitted + active[..0] == emitted;
    while i < |active|
      invariant 0 <= i <= |active| && Valued(emitted + active[..i]) && out' == EncodeRuns(emitted + active[..i], n)
    {
      assert emitted + active[..i + 1] == emitted + active[..i] + [active[i]] && active[i] in active;
      EncodeRunsAppend(emitted + active[..i], active[i], n);
      out' := out' + EncodeRun(active[i], n);
      i := i + 1;
    }
    assert active[..i] == active;
  }

  /** Writes the address TLVs of a block: a run goes out when it breaks, the others at the end. */
  method WriteAddressTlvs(block: Block) returns (out: seq<byte>)
    ensures out == EncodeRuns(RunsOf(block), |block|)
  {
    hide EncodeRuns, Absorb;
    var active: seq<Run> := [];
    ghost var emitted: seq<Run> := [];
    var n, k := |block|, 0;
    out := [];
    NoRuns(n);
    while k < n
      invariant 0 <= k <= n && AbsorbAll(block, k) == Progress(emitted, active)
      invariant Valued(emitted) && Valued(active) && out == EncodeRuns(emitted, n)
    {
      var j := 0;
      while j < |block[k]|
        invariant 0 <= j <= |block[k]| && AbsorbSome(AbsorbAll(block, k), block, k, j) == Progress(emitted, active)
        invariant Valued(emitted) && Valued(active) && out == EncodeRuns(emitted, n)
      {
        out, active, emitted := TakeUp(out, active, k, block[k][j], SameAsBefore(block, k, block[k][j]), n, emitted);
        j := j + 1;
      }
      k := k + 1;
    }
    out := WriteActive(out, active, n, emitted);
  }

  lemma NoRuns(n: nat)
    ensures EncodeRuns([], n) == []
  {
  }

  // ---------- what the runs say ----------

  ghost function ValueFacts(typ: u8, ext: u8, first: int, values: seq<seq<byte>>): multiset<Fact>
    decreases values
  {
    if values == [] then multiset{}
    else multiset{Fact(first, typ, ext, values[0])} + ValueFacts(typ, ext, first + 1, values[1..])
  }

  ghost function RunFacts(r: Run): multiset<Fact>
  {
    ValueFacts(r.typ, r.ext, r.first, r.values)
  }

  ghost function AllFacts(runs: seq<Run>): multiset<Fact>
  {
    if runs == [] then multiset{} else RunFacts(runs[0]) + AllFacts(runs[1..])
  }

  ghost function SomeFacts(k: int, tlvs: seq<AddrTlv>, j: nat): multiset<Fact>
    requires j <= |tlvs|
  {
    if j == 0 then multiset{} else SomeFacts(k, tlvs, j - 1) + multiset{FactOf(k, tlvs[j - 1])}
  }

  /** The TLVs of the first `k` addresses. */
  ghost function BlockFacts(block: Block, k: nat): multiset<Fact>
    requires k <= |block|
  {
    if k == 0 then multiset{} else BlockFacts(block, k - 1) + SomeFacts(k - 1, block[k - 1], |block[k - 1]|)
  }

  lemma {:induction false} ValueFactsAppend(typ: u8, ext: u8, first: int, values: seq<seq<byte>>, v: seq<byte>)
    decreases values
    ensures ValueFacts(typ, ext, first, values + [v]) == ValueFacts(typ, ext, first, values) + multiset{Fact(first + |values|, typ, ext, v)}
  {
    if values == [] {
      assert [v][1..] == [];
    } else {
      assert (values + [v])[1..] == values[1..] + [v];
      ValueFactsAppend(typ, ext, first + 1, values[1..], v);
      SumsAssociate(multiset{Fact(first, typ, ext, values[0])}, ValueFacts(typ, ext, first + 1, values[1..]),
                    multiset{Fact(first + |values|, typ, ext, v)});
    }
  }

  lemma {:induction false} AllFactsConcat(a: seq<Run>, b: seq<Run>)
    ensures AllFacts(a + b) == AllFacts(a) + AllFacts(b)
  {
    if a == [] {
      assert a + b == b;
    } else {
      assert (a + b)[1..] == a[1..] + b;
      AllFactsConcat(a[1..], b);
    }
  }

  lemma AllFactsAppend(a: seq<Run>, r: Run)
    ensures AllFacts(a + [r]) == AllFacts(a) + RunFacts(r)
  {
    AllFactsConcat(a, [r]);
    assert AllFacts([r]) == RunFacts(r) + AllFacts([r][1..]);
  }

  lemma AllFactsSplit(a: seq<Run>, i: nat)
    requires i < |a|
    ensures AllFacts(a) == AllFacts(a[..i]) + RunFacts(a[i]) + AllFacts(a[i + 1..])
  {
    hide RunFacts;
    var rest := a[i..];
    assert rest[1..] == a[i + 1..];
    AllFactsConcat(a[..i], rest);
    assert a == a[..i] + rest;
    SumsAssociate(AllFacts(a[..i]), RunFacts(a[i]), AllFacts(a[i + 1..]));
  }

  /** Replacing a run exchanges its facts. */
  lemma AllFactsUpdate(a: seq<Run>, i: nat, r: Run)
    requires i < |a|
    ensures AllFacts(a[i := r]) + RunFacts(a[i]) == AllFacts(a) + RunFacts(r)
  {
    AllFactsSplit(a, i);
    var b := a[i := r];
    AllFactsSplit(b, i);
    assert b[..i] == a[..i] && b[i + 1..] == a[i + 1..];
  }

  /** Everything a progress says. */
  ghost function Said(st: Progress): multiset<Fact>
  {
    AllFacts(st.emitted) + AllFacts(st.active)
  }

  lemma SingleFact(k: nat, tlv: AddrTlv)
    ensures RunFacts(Fresh(k, tlv)) == multiset{FactOf(k, tlv)}
  {
    var rest := [tlv.value][1..];
    assert ValueFacts(tlv.typ, tlv.ext, k + 1, rest) == multiset{};
  }

  function FactOf(k: int, tlv: AddrTlv): Fact
  {
    Fact(k, tlv.typ, tlv.ext, tlv.value)
  }

  lemma Cancels(x: multiset<Fact>, r: multiset<Fact>, a: multiset<Fact>, f: multiset<Fact>)
    requires x + r == a + (r + f)
    ensures x == a + f
  {
    forall e
      ensures x[e] == (a + f)[e]
    {
      assert (x + r)[e] == (a + (r + f))[e];
    }
  }

  lemma Emits(e: multiset<Fact>, r: multiset<Fact>, x: multiset<Fact>, a: multiset<Fact>, f: multiset<Fact>)
    requires x + r == a + f
    ensures (e + r) + x == (e + a) + f
  {
    forall y
      ensures ((e + r) + x)[y] == ((e + a) + f)[y]
    {
      assert (x + r)[y] == (a + f)[y];
    }
  }

  /** A run that cannot go on is written; a new one takes its place. */
  lemma EmitAddsFact(st: Progress, i: nat, k: nat, tlv: AddrTlv)
    requires i < |st.active|
    ensures Said(Progress(st.emitted + [st.active[i]], st.active[i := Fresh(k, tlv)])) == Said(st) + multiset{FactOf(k, tlv)}
  {
    SingleFact(k, tlv);
    AllFactsAppend(st.emitted, st.active[i]);
    AllFactsUpdate(st.active, i, Fresh(k, tlv));
    Emits(AllFacts(st.emitted), RunFacts(st.active[i]), AllFacts(st.active[i := Fresh(k, tlv)]), AllFacts(st.active), multiset{FactOf(k, tlv)});
  }

  /** A run that goes on says one thing more. */
  lemma ExtendAddsFact(st: Progress, i: nat, k: nat, tlv: AddrTlv, same: bool)
    requires i < |st.active| && st.active[i].typ == tlv.typ && st.active[i].ext == tlv.ext && st.active[i].Last() == k - 1
    ensures Said(st.(active := st.active[i := Longer(st.active[i], tlv, same)])) == Said(st) + multiset{FactOf(k, tlv)}
  {
    hide ValueFacts, AllFacts;
    var run := st.active[i];
    var longer := Longer(run, tlv, same);
    ValueFactsAppend(run.typ, run.ext, run.first, run.values, tlv.value);
    AllFactsUpdate(st.active, i, longer);
    Cancels(AllFacts(st.active[i := longer]), RunFacts(run), AllFacts(st.active), multiset{FactOf(k, tlv)});
    SumsAssociate(AllFacts(st.emitted), AllFacts(st.active), multiset{FactOf(k, tlv)});
  }

  /** Taking up a TLV adds exactly that TLV. */
  lemma AbsorbAddsFact(st: Progress, k: nat, tlv: AddrTlv, same: bool)
    ensures Said(Absorb(st, k, tlv, same)) == Said(st) + multiset{FactOf(k, tlv)}
  {
    var i := FindRun(st.active, tlv.typ, tlv.ext);
    if i == |st.active| {
      SingleFact(k, tlv);
      AllFactsAppend(st.active, Fresh(k, tlv));
      SumsAssociate(AllFacts(st.emitted), AllFacts(st.active), multiset{FactOf(k, tlv)});
    } else if Breaks(st.active[i], k, tlv) {
      EmitAddsFact(st, i, k, tlv);
    } else {
      ExtendAddsFact(st, i, k, tlv, same);
    }
  }

  lemma SumsAssociate(a: multiset<Fact>, b: multiset<Fact>, c: multiset<Fact>)
    ensures a + b + c == a + (b + c)
  {
  }

  lemma AbsorbNextFact(st: Progress, before: Progress, block: Block, k: nat, j: nat, some: multiset<Fact>)
    requires k < |block| && 0 < j <= |block[k]| && Said(before) == Said(st) + some
    ensures var tlv := block[k][j - 1];
            Said(Absorb(before, k, tlv, SameAsBefore(block, k, tlv))) == Said(st) + (some + multiset{FactOf(k, tlv)})
  {
    var tlv := block[k][j - 1];
    AbsorbAddsFact(before, k, tlv, SameAsBefore(block, k, tlv));
    SumsAssociate(Said(st), some, multiset{FactOf(k, tlv)});
  }

  lemma {:induction false} AbsorbSomeFacts(st: Progress, block: Block, k: nat, j: nat)
    requires k < |block| && j <= |block[k]|
    ensures Said(AbsorbSome(st, block, k, j)) == Said(st) + SomeFacts(k, block[k], j)
  {
    if j > 0 {
      AbsorbSomeFacts(st, block, k, j - 1);
      AbsorbNextFact(st, AbsorbSome(st, block, k, j - 1), block, k, j, SomeFacts(k, block[k], j - 1));
    }
  }

  /** The runs say what the addresses of the block say, duplicates counted. */
  lemma {:induction false} RunsSayTheBlock(block: Block, k: nat)
    requires k <= |block|
    ensures Said(AbsorbAll(block, k)) == BlockFacts(block, k)
  {
    if k > 0 {
      RunsSayTheBlock(block, k - 1);
      AbsorbSomeFacts(AbsorbAll(block, k - 1), block, k - 1, |block[k - 1]|);
    }
  }

  // ---------- the runs are well formed ----------

  /** The run lies inside the block, its values are of one length and are those of consecutive addresses; `same` says
      that each was found equal to what the address before it shows first. */
  ghost predicate Sound(r: Run, block: Block)
  {
    && r.values != [] && r.first + |r.values| <= |block|
    && (forall i :: 0 <= i < |r.values| ==> |r.values[i]| == r.Length() && AddrTlv(r.typ, r.ext, r.values[i]) in block[r.first + i])
    && (r.same <==> forall i :: 0 < i < |r.values| ==> Repeats(block, r, i))
  }

  ghost predicate Repeats(block: Block, r: Run, i: int)
    requires 0 < i < |r.values| && r.first + i < |block|
  {
    SameAsBefore(block, r.first + i, AddrTlv(r.typ, r.ext, r.values[i]))
  }

  ghost predicate AllSound(runs: seq<Run>, block: Block)
  {
    forall r :: r in runs ==> Sound(r, block)
  }

  lemma LongerIsSound(run: Run, block: Block, k: nat, tlv: AddrTlv)
    requires Sound(run, block) && k < |block| && tlv in block[k]
    requires run.typ == tlv.typ && run.ext == tlv.ext && !Breaks(run, k, tlv)
    ensures Sound(Longer(run, tlv, SameAsBefore(block, k, tlv)), block)
  {
    hide SameAsBefore;
    var n, longer := |run.values|, Longer(run, tlv, SameAsBefore(block, k, tlv));
    assert longer.values[n] == tlv.value && longer.first + n == k;
    assert Repeats(block, longer, n) <==> SameAsBefore(block, k, tlv);
    assert forall i :: 0 < i < n ==> (Repeats(block, longer, i) <==> Repeats(block, run, i));
  }

  lemma AbsorbIsSound(st: Progress, block: Block, k: nat, tlv: AddrTlv)
    requires k < |block| && tlv in block[k] && AllSound(st.emitted, block) && AllSound(st.active, block)
    ensures var after := Absorb(st, k, tlv, SameAsBefore(block, k, tlv)); AllSound(after.emitted, block) && AllSound(after.active, block)
  {
    var i := FindRun(st.active, tlv.typ, tlv.ext);
    assert Sound(Fresh(k, tlv), block);
    if i < |st.active| {
      assert st.active[i] in st.active;
      if !Breaks(st.active[i], k, tlv) {
        LongerIsSound(st.active[i], block, k, tlv);
      }
    }
  }

  lemma {:induction false} AbsorbSomeIsSound(st: Progress, block: Block, k: nat, j: nat)
    requires k < |block| && j <= |block[k]| && AllSound(st.emitted, block) && AllSound(st.active, block)
    ensures var after := AbsorbSome(st, block, k, j); AllSound(after.emitted, block) && AllSound(after.active, block)
  {
    if j > 0 {
      AbsorbSomeIsSound(st, block, k, j - 1);
      AbsorbIsSound(AbsorbSome(st, block, k, j - 1), block, k, block[k][j - 1]);
    }
  }

  lemma {:induction false} AbsorbAllIsSound(block: Block, k: nat)
    requires k <= |block|
    ensures var after := AbsorbAll(block, k); AllSound(after.emitted, block) && AllSound(after.active, block)
  {
    if k > 0 {
      AbsorbAllIsSound(block, k - 1);
      AbsorbSomeIsSound(AbsorbAll(block, k - 1), block, k - 1, |block[k - 1]|);
    }
  }

  lemma AbsorbHasValues(st: Progress, k: nat, tlv: AddrTlv, same: bool)
    requires Valued(st.emitted) && Valued(st.active)
    ensures var after := Absorb(st, k, tlv, same); Valued(after.emitted) && Valued(after.active)
  {
  }

  /** Runs of any block have values, so they can be written. */
  lemma {:induction false} RunsHaveValues(block: Block, k: nat, j: nat)
    requires k <= |block| && (if k < |block| then j <= |block[k]| else j == 0)
    ensures var st := if k < |block| then AbsorbSome(AbsorbAll(block, k), block, k, j) else AbsorbAll(block, k);
            Valued(st.emitted) && Valued(st.active)
    decreases k, j
  {
    hide Absorb;
    if j > 0 {
      RunsHaveValues(block, k, j - 1);
      AbsorbHasValues(AbsorbSome(AbsorbAll(block, k), block, k, j - 1), k, block[k][j - 1], SameAsBefore(block, k, block[k][j - 1]));
    } else if k > 0 {
      RunsHaveValues(block, k - 1, |block[k - 1]|);
    }
  }

  // ---------- the reader's TLV block ----------

  /** The sorted tree of TLVs: a TLV of a type already there goes right behind the first of that type. */
  function Store(entries: seq<Entry>, e: Entry): seq<Entry>
  {
    if entries == [] then [e]
    else
      var first := Order(entries[0].typ, entries[0].ext);
      if first < Order(e.typ, e.ext) then [entries[0]] + Store(entries[1..], e)
      else if first == Order(e.typ, e.ext) then [entries[0], e] + entries[1..]
      else [e] + entries
  }

  /** A TLV takes at least two bytes and lies inside the buffer. */
  lemma ParseProgress(buf: seq<byte>, p: nat, eob: int, n: u8)
    requires eob <= |buf|
    ensures var r := ParseTlv(buf, p, eob, n); r.Ok? ==> p + 2 <= r.value.1 <= eob
  {
    var (typ, c1) := GetU8(buf, eob, Cursor(p, false));
    var (bits, c2) := GetU8(buf, eob, c1);
    RestProgress(buf, eob, n, typ, DecodeFlags(bits), c2);
  }

  lemma RestProgress(buf: seq<byte>, eob: int, n: u8, typ: u8, flags: Flags, c: Cursor)
    requires eob <= |buf|
    ensures var r := ParseRest(buf, eob, n, typ, flags, c); r.Ok? ==> !c.failed && c.pos <= r.value.1 <= eob
  {
  }

  /** The TLVs from `p` to `end`, each of which may use the buffer up to `eob`. */
  function ParseTlvs(buf: seq<byte>, p: nat, end: int, eob: int, n: u8, entries: seq<Entry>): Result<(seq<Entry>, nat)>
    requires eob <= |buf|
    decreases end - p
  {
    if p >= end then Ok((entries, p))
    else
      ParseProgress(buf, p, eob, n);
      match ParseTlv(buf, p, eob, n)
      case Ok((e, q)) => ParseTlvs(buf, q, end, eob, n, Store(entries, e))
      case Err(error) => Err(error)
  }

  function ParseTlvBlock(buf: seq<byte>, p: nat, eob: int, n: u8): Result<(seq<Entry>, nat)>
    requires eob <= |buf|
  {
    var (length, c) := GetU16(buf, eob, Cursor(p, false));
    if p + 2 + length > eob then Err(EndOfBuffer)
    else ParseTlvs(buf, c.pos, p + 2 + length, eob, n, [])
  }

  method ParseTlvBlockLoop(buf: seq<byte>, p: nat, eob: int, n: u8) returns (r: Result<(seq<Entry>, nat)>)
    requires eob <= |buf|
    ensures r == ParseTlvBlock(buf, p, eob, n)
  {
    var (length, c) := GetU16(buf, eob, Cursor(p, false));
    var end := p + 2 + length;
    if end > eob {
      return Err(EndOfBuffer);
    }
    var ptr, entries := c.pos, [];
    while ptr < end
      invariant ParseTlvBlock(buf, p, eob, n) == ParseTlvs(buf, ptr, end, eob, n, entries)
    {
      ParseProgress(buf, ptr, eob, n);
      var tlv := ParseTlv(buf, ptr, eob, n);
      if tlv.Err? {
        return Err(tlv.error);
      }
      entries := Store(entries, tlv.value.0);
      ptr := tlv.value.1;
    }
    return Ok((entries, ptr));
  }

  // ---------- what the parsed TLVs say ----------

  /** The value of a TLV for address `idx`: its share of a multivalue TLV, the whole value otherwise. */
  function ValueFor(e: Entry, idx: int): seq<byte>
  {
    var offset := (idx - e.index1) * e.length;
    if e.multi && 0 <= offset && offset + e.length <= |e.value| then e.value[offset..offset + e.length] else e.value
  }

  /** For any input at all: the value a parsed TLV shows for an address of its range lies inside the value bytes. */
  lemma ParsedValuesInside(buf: seq<byte>, p: nat, eob: int, n: u8, idx: int)
    requires eob <= |buf|
    ensures var r := ParseTlv(buf, p, eob, n);
            r.Ok? && r.value.0.index1 <= idx <= r.value.0.index2 && r.value.0.multi ==>
              var e := r.value.0;
              var offset := (idx - e.index1) * e.length;
              0 <= offset && offset + e.length <= |e.value| && ValueFor(e, idx) == e.value[offset..offset + e.length]
  {
    hide GetU8, ReadExt, ReadIndices, ReadLength, ReadValue, DecodeFlags, ValueFor;
    var (typ, c1) := GetU8(buf, eob, Cursor(p, false));
    var (bits, c2) := GetU8(buf, eob, c1);
    var flags := DecodeFlags(bits);
    var (ext, c3) := ReadExt(buf, eob, flags, c2);
    var (i1, i2, c4) := ReadIndices(buf, eob, flags, n, c3);
    var (length, c5) := ReadLength(buf, eob, flags, c4);
    ValueInside(buf, eob, Entry(typ, ext, i1, i2, 0, [], false), length, flags.multiValue, c5, idx);
  }

  lemma ValueInside(buf: seq<byte>, eob: int, head: Entry, length: int, multi: bool, c: Cursor, idx: int)
    requires eob <= |buf|
    ensures var r := ReadValue(buf, eob, head, length, multi, c);
            r.Ok? && r.value.0.index1 <= idx <= r.value.0.index2 && r.value.0.multi ==>
              var e := r.value.0;
              var offset := (idx - e.index1) * e.length;
              0 <= offset && offset + e.length <= |e.value| && ValueFor(e, idx) == e.value[offset..offset + e.length]
  {
    var r := ReadValue(buf, eob, head, length, multi, c);
    if r.Ok? && head.index1 <= idx <= head.index2 && r.value.0.multi {
      ShareInside(length, head.index2 - head.index1 + 1, idx - head.index1, r.value.0.length);
    }
  }

  /** The `i`-th of `count` equal shares. */
  lemma ShareInside(length: int, count: int, i: int, each: nat)
    requires 0 <= i < count && (length <= 0 ==> each == 0) && (length > 0 ==> length == each * count)
    ensures 0 <= i * each && i * each + each <= if length > 0 then length else 0
  {
    assert each * count == i * each + each + (count - 1 - i) * each;
    Nonnegative(count - 1 - i, each);
    Nonnegative(i, each);
  }

  lemma Nonnegative(a: nat, b: nat)
    ensures a * b >= 0
  {
  }

  ghost function EntryFactsFrom(e: Entry, idx: int): multiset<Fact>
    decreases e.index2 - idx
  {
    if idx > e.index2 then multiset{}
    else multiset{Fact(idx, e.typ, e.ext, ValueFor(e, idx))} + EntryFactsFrom(e, idx + 1)
  }

  /** What a TLV says about the addresses of its index range. */
  ghost function EntryFacts(e: Entry): multiset<Fact>
  {
    EntryFactsFrom(e, e.index1)
  }

  ghost function EntriesFacts(entries: seq<Entry>): multiset<Fact>
  {
    if entries == [] then multiset{} else EntryFacts(entries[0]) + EntriesFacts(entries[1..])
  }

  // ---------- the round trip ----------

  /** A run written with one value has that value throughout. */
  ghost predicate Honest(r: Run)
  {
    r.same ==> AllEqual(r.values)
  }

  lemma RunValue(r: Run, n: nat, i: nat)
    requires GoodRun(r, n) && Honest(r) && i < |r.values|
    ensures ValueFor(ToEntry(r), r.first + i) == r.values[i]
  {
    hide ValueFor, Run.Payload;
    if r.same {
      SameForAll(r, i);
    } else {
      RunShare(r, i);
    }
  }

  lemma RunShare(r: Run, i: nat)
    requires !r.same && i < |r.values| && r.Last() < 256 && forall j :: 0 <= j < |r.values| ==> |r.values[j]| == r.Length()
    ensures ValueFor(ToEntry(r), r.first + i) == r.values[i]
  {
    hide ValueFor;
    SliceOfFlattened(r.values, i, r.Length());
    ShareAt(ToEntry(r), i);
  }

  lemma SameForAll(r: Run, i: nat)
    requires r.same && AllEqual(r.values) && i < |r.values| && r.Last() < 256
    ensures ValueFor(ToEntry(r), r.first + i) == r.values[i]
  {
  }

  lemma ShareAt(e: Entry, i: nat)
    requires e.multi && i * e.length + e.length <= |e.value|
    ensures 0 <= i * e.length && ValueFor(e, e.index1 + i) == e.value[i * e.length..i * e.length + e.length]
  {
    assert (e.index1 + i - e.index1) * e.length == i * e.length;
  }

  lemma {:induction false} RunFactsFrom(r: Run, n: nat, i: nat)
    requires GoodRun(r, n) && Honest(r) && i <= |r.values|
    ensures EntryFactsFrom(ToEntry(r), r.first + i) == ValueFacts(r.typ, r.ext, r.first + i, r.values[i..])
    decreases |r.values| - i
  {
    hide ValueFor, Run.Payload;
    if i < |r.values| {
      RunValue(r, n, i);
      RunFactsFrom(r, n, i + 1);
      assert r.values[i..][1..] == r.values[i + 1..];
    }
  }

  /** Expanding the TLV of a run gives the facts of the run. */
  lemma RunExpands(r: Run, n: nat)
    requires GoodRun(r, n) && Honest(r)
    ensures EntryFacts(ToEntry(r)) == RunFacts(r)
  {
    RunFactsFrom(r, n, 0);
    assert r.values[0..] == r.values;
  }

  lemma Swaps(a: multiset<Fact>, b: multiset<Fact>, c: multiset<Fact>)
    ensures a + (b + c) == (a + b) + c == (b + a) + c
  {
  }

  lemma {:induction false} StoreAddsFacts(entries: seq<Entry>, e: Entry)
    ensures EntriesFacts(Store(entries, e)) == EntriesFacts(entries) + EntryFacts(e)
  {
    var after := Store(entries, e);
    if entries == [] {
      assert after[1..] == [];
    } else if Order(entries[0].typ, entries[0].ext) < Order(e.typ, e.ext) {
      StoreAddsFacts(entries[1..], e);
      assert after[1..] == Store(entries[1..], e);
      Swaps(EntryFacts(entries[0]), EntriesFacts(entries[1..]), EntryFacts(e));
    } else if Order(entries[0].typ, entries[0].ext) == Order(e.typ, e.ext) {
      assert after[1..] == [e] + entries[1..];
      assert after[1..][1..] == entries[1..];
      Swaps(EntryFacts(entries[0]), EntryFacts(e), EntriesFacts(entries[1..]));
      Swaps(EntryFacts(entries[0]), EntriesFacts(entries[1..]), EntryFacts(e));
      Swaps(EntryFacts(e), EntryFacts(entries[0]), EntriesFacts(entries[1..]));
    } else {
      assert after[1..] == entries;
    }
  }

  /** The tree after the TLVs of some runs. */
  function StoreRuns(entries: seq<Entry>, runs: seq<Run>): seq<Entry>
    requires forall r :: r in runs ==> r.values != [] && r.Last() < 256
    decreases runs
  {
    if runs == [] then entries else StoreRuns(Store(entries, ToEntry(runs[0])), runs[1..])
  }

  ghost predicate AllGood(runs: seq<Run>, n: nat)
  {
    forall r :: r in runs ==> GoodRun(r, n)
  }

  /** What the runs say once they are written. */
  ghost function WrittenFacts(runs: seq<Run>): multiset<Fact>
    requires forall r :: r in runs ==> r.values != [] && r.Last() < 256
  {
    if runs == [] then multiset{} else EntryFacts(ToEntry(runs[0])) + WrittenFacts(runs[1..])
  }

  lemma {:induction false} StoredRunsFacts(entries: seq<Entry>, runs: seq<Run>)
    requires forall r :: r in runs ==> r.values != [] && r.Last() < 256
    ensures EntriesFacts(StoreRuns(entries, runs)) == EntriesFacts(entries) + WrittenFacts(runs)
    decreases runs
  {
    if runs != [] {
      hide EntryFacts, Store;
      var next := Store(entries, ToEntry(runs[0]));
      StoreAddsFacts(entries, ToEntry(runs[0]));
      StoredRunsFacts(next, runs[1..]);
      Swaps(EntriesFacts(entries), EntryFacts(ToEntry(runs[0])), WrittenFacts(runs[1..]));
    }
  }

  /** Where all runs are honest, what is written is what was meant. */
  lemma {:induction false} HonestRunsSayAll(runs: seq<Run>, n: nat)
    requires AllGood(runs, n) && forall r :: r in runs ==> Honest(r)
    ensures WrittenFacts(runs) == AllFacts(runs)
  {
    if runs != [] {
      assert GoodRun(runs[0], n);
      RunExpands(runs[0], n);
      HonestRunsSayAll(runs[1..], n);
    }
  }

  lemma {:induction false} ValueCount(typ: u8, ext: u8, first: int, values: seq<seq<byte>>, f: Fact)
    ensures ValueFacts(typ, ext, first, values)[f]
         == if f.typ == typ && f.ext == ext && first <= f.index < first + |values| && values[f.index - first] == f.value then 1 else 0
    decreases values
  {
    if values != [] {
      ValueCount(typ, ext, first + 1, values[1..], f);
    }
  }

  lemma {:induction false} EntryCount(e: Entry, idx: int, f: Fact)
    ensures EntryFactsFrom(e, idx)[f]
         == if f.typ == e.typ && f.ext == e.ext && idx <= f.index <= e.index2 && ValueFor(e, f.index) == f.value then 1 else 0
    decreases e.index2 - idx
  {
    hide ValueFor;
    if idx <= e.index2 {
      EntryCount(e, idx + 1, f);
    }
  }

  /** The fact is what the address before shows first, so a run that is written with one value means it. */
  ghost predicate Repeated(block: Block, f: Fact)
  {
    0 < f.index < |block| && SameAsBefore(block, f.index, AddrTlv(f.typ, f.ext, f.value))
  }

  /** At most one value repeats what the address before shows first. */
  lemma RepeatedIsOne(block: Block, f: Fact, value: seq<byte>)
    requires Repeated(block, f) && SameAsBefore(block, f.index, AddrTlv(f.typ, f.ext, value))
    ensures value == f.value
  {
  }

  /** Of what repeats the address before, a run never writes more than it means; less where it is not honest. */
  lemma WritesNoMore(r: Run, n: nat, block: Block, f: Fact)
    requires GoodRun(r, n) && Sound(r, block) && Repeated(block, f)
    ensures EntryFacts(ToEntry(r))[f] <= RunFacts(r)[f]
    ensures r.same && (exists i :: 0 < i < |r.values| && r.values[i] != r.values[0] && f == Fact(r.first + i, r.typ, r.ext, r.values[i]))
            ==> EntryFacts(ToEntry(r))[f] < RunFacts(r)[f]
  {
    EntryCount(ToEntry(r), r.first, f);
    ValueCount(r.typ, r.ext, r.first, r.values, f);
    if r.first <= f.index <= r.Last() && f.typ == r.typ && f.ext == r.ext {
      ShowsNoMore(r, n, block, f);
    }
    hide ValueFor, EntryFactsFrom, ValueFacts, Run.Payload, SameAsBefore, Repeated, GoodRun, Sound;
  }

  lemma ShowsNoMore(r: Run, n: nat, block: Block, f: Fact)
    requires GoodRun(r, n) && Sound(r, block) && Repeated(block, f)
    requires r.first <= f.index <= r.Last() && f.typ == r.typ && f.ext == r.ext
    ensures ValueFor(ToEntry(r), f.index) == if r.same then r.values[0] else r.values[f.index - r.first]
    ensures r.same && f.index > r.first ==> r.values[f.index - r.first] == f.value
  {
    hide ValueFor, Run.Payload, SameAsBefore;
    var i := f.index - r.first;
    if r.same {
      SameShown(r, i);
      if i > 0 {
        assert Repeats(block, r, i);
        RepeatedIsOne(block, f, r.values[i]);
      }
    } else {
      RunShare(r, i);
    }
  }

  lemma SameShown(r: Run, i: int)
    requires r.same && r.values != [] && r.Last() < 256
    ensures ValueFor(ToEntry(r), r.first + i) == r.values[0]
  {
  }

  lemma {:induction false} RunsWriteNoMore(runs: seq<Run>, n: nat, block: Block, f: Fact)
    requires AllGood(runs, n) && AllSound(runs, block) && Repeated(block, f)
    ensures WrittenFacts(runs)[f] <= AllFacts(runs)[f]
    ensures (exists r :: r in runs && EntryFacts(ToEntry(r))[f] < RunFacts(r)[f]) ==> WrittenFacts(runs)[f] < AllFacts(runs)[f]
  {
    hide EntryFacts, RunFacts, GoodRun, Sound, Repeated;
    if runs != [] {
      assert GoodRun(runs[0], n);
      WritesNoMore(runs[0], n, block, f);
      RunsWriteNoMore(runs[1..], n, block, f);
    }
  }

  /** What is written is what was meant exactly if all runs are honest: errors of several runs do not cancel. */
  lemma WrittenIffHonest(runs: seq<Run>, n: nat, block: Block)
    requires AllGood(runs, n) && AllSound(runs, block)
    ensures WrittenFacts(runs) == AllFacts(runs) <==> forall r :: r in runs ==> Honest(r)
  {
    if forall r :: r in runs ==> Honest(r) {
      HonestRunsSayAll(runs, n);
    } else {
      var r :| r in runs && !Honest(r);
      assert Sound(r, block) && GoodRun(r, n);
      var i :| 0 <= i < |r.values| && r.values[i] != r.values[0];
      var f := Fact(r.first + i, r.typ, r.ext, r.values[i]);
      assert Repeats(block, r, i);
      WritesNoMore(r, n, block, f);
      RunsWriteNoMore(runs, n, block, f);
    }
  }

  lemma {:induction false} ParsesRuns(buf: seq<byte>, p: nat, eob: int, runs: seq<Run>, n: u8, entries: seq<Entry>)
    requires AllGood(runs, n) && Valued(runs) && Carries(buf, p, EncodeRuns(runs, n)) && p + |EncodeRuns(runs, n)| <= eob <= |buf|
    ensures var end := p + |EncodeRuns(runs, n)|; ParseTlvs(buf, p, end, eob, n, entries) == Ok((StoreRuns(entries, runs), end))
    decreases runs
  {
    hide Carries, ParseTlv, EncodeRun, Store, Run.Payload;
    if runs != [] {
      assert GoodRun(runs[0], n);
      var first, rest := EncodeRun(runs[0], n), EncodeRuns(runs[1..], n);
      CarriesSplit(buf, p, first, rest);
      assert ParseTlv(buf, p, eob, n) == Ok((ToEntry(runs[0]), p + |first|)) by {
        ParsesRun(buf, p, eob, runs[0], n);
      }
      ParseProgress(buf, p, eob, n);
      ParsesRuns(buf, p + |first|, eob, runs[1..], n, Store(entries, ToEntry(runs[0])));
    }
  }

  lemma {:induction false} RunFitsEncoding(runs: seq<Run>, n: nat, r: Run)
    requires r in runs && Valued(runs)
    requires forall i :: 0 <= i < |r.values| ==> |r.values[i]| == r.Length()
    ensures |r.Payload()| <= |EncodeRuns(runs, n)|
  {
    if r == runs[0] {
      PayloadFitsRun(r, n);
    } else {
      RunFitsEncoding(runs[1..], n, r);
    }
  }

  lemma PayloadFitsRun(r: Run, n: nat)
    requires r.values != [] && forall i :: 0 <= i < |r.values| ==> |r.values[i]| == r.Length()
    ensures |r.Payload()| <= |EncodeRun(r, n)|
  {
    FlattenLength(r.values, r.Length());
    var total := (if r.same then r.Length() else r.Length() * |r.values|) % 65536;
    var a, b, c, d, e := [B(r.typ), B(EncodeFlags(FlagsFor(r.ext, r.first, r.Last(), n, total, !r.same)))], ExtPart(r.ext),
      IndexPart(r.first, r.Last(), n), LengthPart(total), if r.Length() > 0 then r.Payload() else [];
    LastPart(a, b, c, d, e);
  }

  lemma LastPart(a: seq<byte>, b: seq<byte>, c: seq<byte>, d: seq<byte>, e: seq<byte>)
    ensures |e| <= |Flatten([a, b, c, d, e])|
  {
    FlattenTail([a, b, c, d, e], 4);
  }

  /** Whether the TLVs of the block fit the 16-bit size field of the TLV block. */
  ghost predicate Fits(block: Block)
  {
    |EncodeRuns(RunsOf(block), |block|)| < 65536
  }

  /** The runs of any block whose size field holds are read back one by one. */
  lemma RunsAreGood(block: Block)
    requires |block| <= 255 && Fits(block)
    ensures AllGood(RunsOf(block), |block|) && AllSound(RunsOf(block), block)
  {
    AbsorbAllIsSound(block, |block|);
    forall r | r in RunsOf(block)
      ensures GoodRun(r, |block|)
    {
      assert Sound(r, block);
      RunFitsEncoding(RunsOf(block), |block|, r);
    }
  }

  /** What `_write_addresses` puts behind an address block: the size of the TLVs and the TLVs. */
  function EncodeTlvBlock(block: Block): seq<byte>
  {
    var tlvs := EncodeRuns(RunsOf(block), |block|);
    U16(|tlvs|) + tlvs
  }

  lemma ParsesSized(buf: seq<byte>, p: nat, eob: int, runs: seq<Run>, n: u8)
    requires AllGood(runs, n) && Valued(runs) && |EncodeRuns(runs, n)| < 65536
    requires var tlvs := EncodeRuns(runs, n); Carries(buf, p, U16(|tlvs|) + tlvs) && p + 2 + |tlvs| <= eob <= |buf|
    ensures ParseTlvBlock(buf, p, eob, n) == Ok((StoreRuns([], runs), p + 2 + |EncodeRuns(runs, n)|))
  {
    hide Carries, EncodeRuns, AllGood, ParseTlvs, StoreRuns, GetU16;
    var tlvs := EncodeRuns(runs, n);
    CarriesSplit(buf, p, U16(|tlvs|), tlvs);
    assert GetU16(buf, eob, Cursor(p, false)) == (|tlvs|, Cursor(p + 2, false)) by {
      ReadsU16(buf, eob, p, |tlvs|);
    }
    ParsesRuns(buf, p + 2, eob, runs, n, []);
  }

  /** What is read back, expanded over the index ranges and the shares of multivalue TLVs, is what was attached to the
      addresses exactly if all runs are honest. */
  lemma ReadsBackIffHonest(buf: seq<byte>, p: nat, eob: int, block: Block)
    requires |block| <= 255 && Fits(block)
    requires Carries(buf, p, EncodeTlvBlock(block)) && p + |EncodeTlvBlock(block)| <= eob <= |buf|
    ensures var r := ParseTlvBlock(buf, p, eob, |block|);
            && r.Ok? && r.value.1 == p + |EncodeTlvBlock(block)|
            && (EntriesFacts(r.value.0) == BlockFacts(block, |block|) <==> forall run :: run in RunsOf(block) ==> Honest(run))
  {
    hide Carries, ParseTlvBlock, EncodeRuns, StoreRuns, RunsOf, AllGood, AllSound, WrittenFacts, AbsorbAll, Honest;
    RunsAreGood(block);
    ParsesSized(buf, p, eob, RunsOf(block), |block|);
    RunsEnd(block);
    StoredRunsFacts([], RunsOf(block));
    WrittenIffHonest(RunsOf(block), |block|, block);
    RunsMeanTheBlock(block);
  }

  lemma RunsEnd(block: Block)
    requires AllGood(RunsOf(block), |block|) && |block| <= 255
    ensures forall r :: r in RunsOf(block) ==> r.values != [] && r.Last() < 256
  {
    hide RunsOf;
    forall r | r in RunsOf(block)
      ensures r.values != [] && r.Last() < 256
    {
      assert GoodRun(r, |block|);
    }
  }

  lemma RunsMeanTheBlock(block: Block)
    ensures AllFacts(RunsOf(block)) == BlockFacts(block, |block|)
  {
    hide AbsorbAll, BlockFacts, AllFacts;
    var st := AbsorbAll(block, |block|);
    AllFactsConcat(st.emitted, st.active);
    RunsSayTheBlock(block, |block|);
  }
}
