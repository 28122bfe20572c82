/** The two layouts of cJSON's printer: the formatted text is the compact one with white space put in by what stands around it. */
module JsonLayout {
  import opened Wire
  import opened Seqs
  import opened Json
  import opened JsonValues

  datatype Mode = Outside | Quoted | Escaped

  /** Where a scan of a text is: the containers that are open, an object or not, whether it is in a string, and whether it is right
      behind the opening of an object. */
  datatype Scan = Scan(open: seq<bool>, mode: Mode, bare: bool)

  function Indent(n: nat): seq<byte>
  {
    seq(n, i => 9)
  }

  /** What goes out for the byte `c` of a compact text. */
  function Emitted(c: byte, at: Scan): seq<byte>
  {
    var depth := |at.open|;
    if at.mode != Outside then [c]
    else if c == 125 then (if at.bare then [] else [10]) + Indent(if depth > 0 then depth - 1 else 0) + [125]
    else
      (if at.bare then Indent(depth) else [])
      + if c == 123 then [123, 10]
        else if c == 58 then [58, 9]
        else if c == 44 then (if depth > 0 && at.open[depth - 1] then [44, 10] + Indent(depth) else [44, 32])
        else [c]
  }

  function Next(c: byte, at: Scan): Scan
  {
    match at.mode
    case Escaped => at.(mode := Quoted)
    case Quoted => at.(mode := if c == 92 then Escaped else if c == 34 then Outside else Quoted)
    case Outside =>
      if c == 34 then at.(mode := Quoted, bare := false)
      else if c == 123 then Scan(at.open + [true], Outside, true)
      else if c == 91 then Scan(at.open + [false], Outside, false)
      else if (c == 125 || c == 93) && at.open != [] then Scan(at.open[..|at.open| - 1], Outside, false)
      else at.(bare := false)
  }

  /** The scan behind a text, and what went out. */
  function After(t: seq<byte>, at: Scan): Scan
  {
    if t == [] then at else After(t[1..], Next(t[0], at))
  }

  function Pretty(t: seq<byte>, at: Scan): seq<byte>
  {
    if t == [] then [] else Emitted(t[0], at) + Pretty(t[1..], Next(t[0], at))
  }

  /** Over `t` the scan goes from one place to another and puts out a text. */
  ghost predicate Scans(t: seq<byte>, at: Scan, out: seq<byte>, to: Scan)
  {
    After(t, at) == to && Pretty(t, at) == out
  }

  lemma {:induction false} ScansOne(c: byte, at: Scan)
    ensures Scans([c], at, Emitted(c, at), Next(c, at))
  {
    hide Emitted, Next;
    var t, none: seq<byte> := [c], [];
    assert t[1..] == none && t[0] == c;
    assert After(t, at) == After(none, Next(c, at)) == Next(c, at);
    assert Pretty(t, at) == Emitted(c, at) + Pretty(none, Next(c, at)) == Emitted(c, at) + none;
  }

  lemma {:induction false} ScansBoth(t: seq<byte>, u: seq<byte>, at: Scan, out: seq<byte>, mid: Scan, more: seq<byte>, to: Scan)
    requires Scans(t, at, out, mid) && Scans(u, mid, more, to)
    ensures Scans(t + u, at, out + more, to)
  {
    hide Emitted, Next;
    if t == [] {
      assert t + u == u && [] + more == more;
    } else {
      assert (t + u)[1..] == t[1..] + u && (t + u)[0] == t[0];
      ScansBoth(t[1..], u, Next(t[0], at), Pretty(t[1..], Next(t[0], at)), mid, more, to);
      Associates(Emitted(t[0], at), Pretty(t[1..], Next(t[0], at)), more);
    }
  }

  // ---------- strings and words ----------

  lemma {:induction false} ScansEscape(b: byte, at: Scan)
    requires at.mode == Quoted
    ensures Scans(Escape(b), at, Escape(b), at)
  {
    var e := Escape(b);
    if |e| == 1 {
      ScansOne(b, at);
    } else if |e| == 2 {
      assert e == [92] + [e[1]];
      ScansOne(92, at);
      ScansOne(e[1], at.(mode := Escaped));
      ScansBoth([92], [e[1]], at, [92], at.(mode := Escaped), [e[1]], at);
    } else {
      HexRoundTrip(b);
      assert e == [92] + ([117] + ([48] + ([48] + ([e[4]] + [e[5]]))));
      ScansOne(e[5], at);
      ScansPlain(e[4], [e[5]], at);
      ScansPlain(48, [e[4]] + [e[5]], at);
      ScansPlain(48, [48] + ([e[4]] + [e[5]]), at);
      ScansOne(117, at.(mode := Escaped));
      ScansBoth([117], [48] + ([48] + ([e[4]] + [e[5]])), at.(mode := Escaped), [117], at, [48] + ([48] + ([e[4]] + [e[5]])), at);
      ScansOne(92, at);
      ScansBoth([92], [117] + ([48] + ([48] + ([e[4]] + [e[5]]))), at, [92], at.(mode := Escaped), [117] + ([48] + ([48] + ([e[4]] + [e[5]]))), at);
    }
  }

  /** A plain character in a string. */
  lemma {:induction false} ScansPlain(c: byte, rest: seq<byte>, at: Scan)
    requires at.mode == Quoted && c != 92 && c != 34 && Scans(rest, at, rest, at)
    ensures Scans([c] + rest, at, [c] + rest, at)
  {
    ScansOne(c, at);
    ScansBoth([c], rest, at, [c], at, rest, at);
  }

  lemma {:induction false} ScansEscapes(s: seq<byte>, at: Scan)
    requires at.mode == Quoted
    ensures Scans(EscapeAll(s), at, EscapeAll(s), at)
  {
    hide Escape, Emitted, Next;
    if s != [] {
      ScansEscape(s[0], at);
      ScansEscapes(s[1..], at);
      ScansBoth(Escape(s[0]), EscapeAll(s[1..]), at, Escape(s[0]), at, EscapeAll(s[1..]), at);
    }
  }

  /** What goes out before the first byte behind the opening of an object. */
  function Lead(at: Scan): seq<byte>
  {
    if at.bare then Indent(|at.open|) else []
  }

  lemma {:induction false} ScansString(s: seq<byte>, at: Scan)
    requires at.mode == Outside
    ensures Scans(PrintString(s), at, Lead(at) + PrintString(s), at.(bare := false))
  {
    hide EscapeAll, Indent;
    var q := at.(mode := Quoted, bare := false);
    ScansOne(34, at);
    ScansEscapes(s, q);
    ScansOne(34, q);
    ScansBoth([34], EscapeAll(s), at, Lead(at) + [34], q, EscapeAll(s), q);
    ScansBoth([34] + EscapeAll(s), [34], at, Lead(at) + [34] + EscapeAll(s), q, [34], at.(bare := false));
    assert Lead(at) + [34] + EscapeAll(s) + [34] == Lead(at) + ([34] + EscapeAll(s) + [34]);
  }

  /** Letters outside of strings stay. */
  lemma {:induction false} ScansWord(t: seq<byte>, at: Scan)
    requires at.mode == Outside && !at.bare && forall i :: 0 <= i < |t| ==> 97 <= t[i] <= 122
    ensures Scans(t, at, t, at)
  {
    if t != [] {
      ScansOne(t[0], at);
      ScansWord(t[1..], at);
      ScansBoth([t[0]], t[1..], at, [t[0]], at, t[1..], at);
      assert t == [t[0]] + t[1..];
    }
  }

  // ---------- values ----------

  /** Both layouts of a value at the depth there is. */
  lemma {:induction false} ScansValue(v: Value, at: Scan)
    requires at.mode == Outside && !at.bare
    ensures Scans(Print(v, |at.open|, false), at, Print(v, |at.open|, true), at)
    decreases v, 1
  {
    hide Emitted, Next, PrintString, Scans, After, Pretty;
    match v
    case Null => ScansWord(NullText(), at);
    case False => ScansWord(FalseText(), at);
    case True => ScansWord(TrueText(), at);
    case Str(s) =>
      ScansString(s, at);
      assert Lead(at) + PrintString(s) == PrintString(s) && at.(bare := false) == at;
    case Arr(items) => ScansArray(items, at);
    case Obj(members) => ScansObject(members, at);
  }

  lemma {:induction false} ScansArray(items: seq<Value>, at: Scan)
    requires at.mode == Outside && !at.bare
    ensures Scans(Print(Arr(items), |at.open|, false), at, Print(Arr(items), |at.open|, true), at)
    decreases items, 1
  {
    var d, inner := |at.open| + 1, Scan(at.open + [false], Outside, false);
    ScansOne(91, at);
    ScansOne(93, inner);
    assert inner.open[..d - 1] == at.open;
    assert Scans([91], at, [91], inner) && Scans([93], inner, [93], at);
    hide Emitted, Next, Scans, PrintItems;
    ScansItems(items, inner);
    ScansBoth([91], PrintItems(items, d, false), at, [91], inner, PrintItems(items, d, true), inner);
    ScansBoth([91] + PrintItems(items, d, false), [93], at, [91] + PrintItems(items, d, true), inner, [93], at);
  }

  lemma {:induction false} ScansItems(items: seq<Value>, at: Scan)
    requires at.mode == Outside && !at.bare && at.open != [] && !at.open[|at.open| - 1]
    ensures Scans(PrintItems(items, |at.open|, false), at, PrintItems(items, |at.open|, true), at)
    decreases items, 0
  {
    var d := |at.open|;
    ScansOne(44, at);
    assert Scans([44], at, [44, 32], at);
    if items != [] {
      hide Emitted, Next, Print;
      ScansValue(items[0], at);
      if |items| > 1 {
        hide Scans;
        ScansItems(items[1..], at);
        ScansBoth([44], PrintItems(items[1..], d, false), at, [44, 32], at, PrintItems(items[1..], d, true), at);
        ScansBoth(Print(items[0], d, false), [44] + PrintItems(items[1..], d, false), at,
                  Print(items[0], d, true), at, [44, 32] + PrintItems(items[1..], d, true), at);
        assert [44] + [] == [44] && [44] + [32] == [44, 32];
      }
    }
  }

  lemma {:induction false} TabsIndent(n: nat)
    ensures Tabs(n) == Indent(n)
  {
  }

  /** A member in both layouts; `rest` is what comes behind it. */
  lemma {:induction false} MemberText(m: Member, d: nat, rest: seq<Member>)
    ensures PrintMembers([m] + rest, d, false)
         == PrintString(m.key) + [58] + Print(m.value, d, false) + if rest == [] then [] else [44] + PrintMembers(rest, d, false)
    ensures PrintMembers([m] + rest, d, true)
         == Indent(d) + PrintString(m.key) + [58, 9] + Print(m.value, d, true)
            + if rest == [] then [10] else [44, 10] + PrintMembers(rest, d, true)
  {
    hide PrintString, Print, Tabs, Indent, Flatten;
    TabsIndent(d);
    var members := [m] + rest;
    assert members[1..] == rest && members[0] == m;
    assert [58] + [] == [58] && [58] + [9] == [58, 9];
    hide PrintMembers;
    MemberParts(members, d);
    var none: seq<byte> := [];
    FlattenFive(none, PrintString(m.key), [58], Print(m.value, d, false), If(|members| > 1, [44]) + none + PrintMembers(rest, d, false));
    FlattenFive(Indent(d), PrintString(m.key), [58, 9], Print(m.value, d, true), If(|members| > 1, [44]) + [10] + PrintMembers(rest, d, true));
    if rest == [] {
      NoMembers(d);
    } else {
      assert [44] + [10] == [44, 10];
    }
  }

  lemma {:induction false} NoMembers(d: nat)
    ensures PrintMembers([], d, false) == [] && PrintMembers([], d, true) == []
  {
  }

  lemma {:induction false} MemberParts(members: seq<Member>, d: nat)
    requires members != []
    ensures var m, rest := members[0], members[1..];
            && PrintMembers(members, d, false)
               == Flatten([[], PrintString(m.key), [58], Print(m.value, d, false), If(|members| > 1, [44]) + [] + PrintMembers(rest, d, false)])
            && PrintMembers(members, d, true)
               == Flatten([Indent(d), PrintString(m.key), [58, 9], Print(m.value, d, true), If(|members| > 1, [44]) + [10] + PrintMembers(rest, d, true)])
  {
    hide PrintString, Print, Flatten, Tabs, Indent;
    TabsIndent(d);
    assert [58] + [] == [58] && [58] + [9] == [58, 9];
  }

  /** Key, colon and value. */
  lemma {:induction false} ScansMember(m: Member, at: Scan)
    requires at.mode == Outside && at.open != []
    ensures var d, to := |at.open|, at.(bare := false);
            Scans(PrintString(m.key) + [58] + Print(m.value, d, false), at, Lead(at) + PrintString(m.key) + [58, 9] + Print(m.value, d, true), to)
    decreases m, 0
  {
    var d, to := |at.open|, at.(bare := false);
    ScansOne(58, to);
    assert Scans([58], to, [58, 9], to) by { assert [] + [58, 9] == [58, 9]; }
    hide Emitted, Next, Scans, Print, PrintString, Lead;
    ScansString(m.key, at);
    ScansValue(m.value, to);
    ScansBoth(PrintString(m.key), [58], at, Lead(at) + PrintString(m.key), to, [58, 9], to);
    ScansBoth(PrintString(m.key) + [58], Print(m.value, d, false), at, Lead(at) + PrintString(m.key) + [58, 9], to, Print(m.value, d, true), to);
  }

  /** Members in both layouts: what goes out lacks the last new line, and the tabs before if they were put out already. */
  lemma {:induction false} ScansMembers(members: seq<Member>, at: Scan) returns (out: seq<byte>)
    requires members != [] && at.mode == Outside && at.open != [] && at.open[|at.open| - 1]
    ensures Scans(PrintMembers(members, |at.open|, false), at, Lead(at) + out, at.(bare := false))
    ensures PrintMembers(members, |at.open|, true) == Indent(|at.open|) + out + [10]
    decreases members, 0
  {
    var d, to, m, rest := |at.open|, at.(bare := false), members[0], members[1..];
    ScansComma(to);
    hide Emitted, Next, Scans, Print, PrintString, PrintMembers, Lead, Indent;
    assert members == [m] + rest;
    MemberText(m, d, rest);
    ScansMember(m, at);
    var compact, first := PrintString(m.key) + [58] + Print(m.value, d, false), PrintString(m.key) + [58, 9] + Print(m.value, d, true);
    Fourth(Lead(at), PrintString(m.key), [58, 9], Print(m.value, d, true));
    Fourth(Indent(d), PrintString(m.key), [58, 9], Print(m.value, d, true));
    if rest == [] {
      out := first;
      assert compact + [] == compact;
    } else {
      var more := ScansMembers(rest, to);
      LeadIsOver(to);
      assert Lead(to) + more == more;
      var behind := [44, 10] + Indent(d) + more;
      ScansBoth([44], PrintMembers(rest, d, false), to, [44, 10] + Indent(d), to, more, to);
      ScansBoth(compact, [44] + PrintMembers(rest, d, false), at, Lead(at) + first, to, behind, to);
      out := first + behind;
      Associates(Lead(at), first, behind);
      Regrouped(Indent(d), first, more);
    }
  }

  lemma {:induction false} ScansComma(at: Scan)
    requires at.mode == Outside && !at.bare && at.open != [] && at.open[|at.open| - 1]
    ensures Scans([44], at, [44, 10] + Indent(|at.open|), at)
  {
    ScansOne(44, at);
    assert [] + ([44, 10] + Indent(|at.open|)) == [44, 10] + Indent(|at.open|);
  }

  lemma {:induction false} Fourth(a: seq<byte>, b: seq<byte>, c: seq<byte>, d: seq<byte>)
    ensures a + b + c + d == a + (b + c + d)
  {
  }

  lemma {:induction false} Regrouped(tabs: seq<byte>, first: seq<byte>, more: seq<byte>)
    ensures tabs + first + ([44, 10] + (tabs + more + [10])) == tabs + (first + ([44, 10] + tabs + more)) + [10]
  {
  }

  lemma {:induction false} LeadIsOver(at: Scan)
    requires !at.bare
    ensures Lead(at) == []
  {
  }

  /** An object in both layouts. */
  lemma {:induction false} ObjectText(members: seq<Member>, d: nat)
    ensures Print(Obj(members), d, false) == [123] + PrintMembers(members, d + 1, false) + [125]
    ensures Print(Obj(members), d, true) == [123, 10] + PrintMembers(members, d + 1, true) + Indent(d) + [125]
  {
    hide PrintMembers, Flatten, Tabs, Indent;
    TabsIndent(d);
    var compact, pretty, none: seq<byte> := PrintMembers(members, d + 1, false), PrintMembers(members, d + 1, true), [];
    FlattenFive([123], none, compact, none, [125]);
    FlattenFive([123], [10], pretty, Indent(d), [125]);
    assert [123] + [10] == [123, 10];
  }

  lemma {:induction false} ScansObject(members: seq<Member>, at: Scan)
    requires at.mode == Outside && !at.bare
    ensures Scans(Print(Obj(members), |at.open|, false), at, Print(Obj(members), |at.open|, true), at)
    decreases members, 1
  {
    var d, start := |at.open|, Scan(at.open + [true], Outside, true);
    var inner := start.(bare := false);
    assert start.open[..d] == at.open;
    ScansOne(123, at);
    assert Scans([123], at, [123, 10], start) by { assert [] + [123, 10] == [123, 10]; }
    ScansOne(125, start);
    ScansOne(125, inner);
    assert Scans([125], start, Indent(d) + [125], at) by { assert [] + Indent(d) + [125] == Indent(d) + [125]; }
    assert Scans([125], inner, [10] + Indent(d) + [125], at);
    hide Emitted, Next, Scans, Print, PrintMembers, Indent;
    ObjectText(members, d);
    if members == [] {
      NoMembers(d + 1);
      ScansBoth([123], [125], at, [123, 10], start, Indent(d) + [125], at);
      assert [123] + [] + [125] == [123] + [125] && [123, 10] + [] + Indent(d) + [125] == [123, 10] + (Indent(d) + [125]);
    } else {
      var compact := PrintMembers(members, d + 1, false);
      var out := ScansMembers(members, start);
      ScansBoth([123], compact, at, [123, 10], start, Lead(start) + out, inner);
      ScansBoth([123] + compact, [125], at, [123, 10] + (Lead(start) + out), inner, [10] + Indent(d) + [125], at);
      assert Lead(start) == Indent(d + 1);
      assert [123, 10] + (Indent(d + 1) + out) + ([10] + Indent(d) + [125]) == [123, 10] + (Indent(d + 1) + out + [10]) + Indent(d) + [125];
    }
  }

  /** The formatted text of a value is its compact text with white space put in. */
  lemma {:induction false} FormattedIsPretty(v: Value)
    ensures Print(v, 0, true) == Pretty(Print(v, 0, false), Scan([], Outside, false))
  {
    ScansValue(v, Scan([], Outside, false));
  }
}
