/** AODVv2 route requests and replies as a protocol: what a router does with a message (aodvv2_reader.c) and what that
    means for all messages on their way through a network. */
module Flood {
  import opened Wire
  import opened Seqs

  datatype Kind = Rreq | Rrep

  const HOP_COUNT := 3
  const MAX_HOP_COUNT := 255

  datatype Metric = Metric(value: u8, metricType: u8)

  /** An address of a message with its TLVs; of a sequence number the reader looks at one byte. The unspecified address is
      0. */
  datatype Heard = Heard(addr: nat, origSeq: Option<u8>, targSeq: Option<u8>, metric: Option<Metric>)

  /** A message as it comes; without a hop limit it is not valid. */
  datatype Packet = Packet(kind: Kind, hopLimit: Option<u8>, addrs: seq<Heard>)

  datatype Node = Node(addr: nat, seqnum: nat, metric: u8)

  /** What the callbacks of the reader share. It is never cleared: what a message does not say is left from those before. */
  datatype Data = Data(hopLimit: u8, metricType: u8, orig: Node, targ: Node)

  /** What a router hands to its writer. */
  datatype Sent = Sent(kind: Kind, data: Data)

  /** What else a router knows when a message comes: whether the set of multicast messages finds it redundant, whether there
      is a route for it and whether it improves that, and who its clients are. */
  datatype World = World(redundant: bool, known: bool, improves: bool, origIsClient: bool, targIsClient: bool)

  function LinkCost(metricType: nat): nat
  {
    if metricType == HOP_COUNT then 1 else 0
  }

  function MetricMax(metricType: nat): nat
  {
    if metricType == HOP_COUNT then MAX_HOP_COUNT else 0
  }

  function Updated(metricType: nat, metric: u8): u8
  {
    if metricType == HOP_COUNT then (metric + 1) % 256 else metric
  }

  predicate Limited(metricType: nat, metric: nat)
  {
    MetricMax(metricType) - LinkCost(metricType) <= metric
  }

  // ---------- one router ----------

  /** The message callback: counts the hop. */
  function CountHop(d: Data, limit: Option<u8>): (Data, bool)
  {
    if limit.None? then (d, false)
    else if limit.value == 0 then (d.(hopLimit := 0), false)
    else (d.(hopLimit := limit.value - 1), true)
  }

  /** The address callback of a request; an address without sequence numbers is the one that is looked for. */
  function HearRreq(d: Data, a: Heard): (Data, bool)
  {
    var d1 := if a.origSeq.Some? then d.(orig := d.orig.(addr := a.addr, seqnum := a.origSeq.value)) else d;
    var d2 := if a.targSeq.Some? then d1.(targ := d1.targ.(addr := a.addr, seqnum := a.targSeq.value))
              else if a.origSeq.None? then d1.(targ := d1.targ.(addr := a.addr)) else d1;
    if a.metric.None? then (d2, a.origSeq.None?)
    else if a.origSeq.None? then (d2, false)
    else (d2.(metricType := a.metric.value.metricType, orig := d2.orig.(metric := a.metric.value.value)), true)
  }

  /** The address callback of a reply. The metric belongs to the address that was looked for, but is stored for the one that
      asked. */
  function HearRrep(d: Data, a: Heard): (Data, bool)
  {
    var d1 := if a.targSeq.Some? then d.(targ := d.targ.(addr := a.addr, seqnum := a.targSeq.value)) else d;
    var d2 := if a.origSeq.Some? then d1.(orig := d1.orig.(addr := a.addr, seqnum := a.origSeq.value)) else d1;
    var isTarg := a.targSeq.Some? && a.origSeq.None?;
    if a.origSeq.None? && !isTarg then (d2, false)
    else if a.metric.None? then (d2, !isTarg)
    else if !isTarg then (d2, false)
    else (d2.(metricType := a.metric.value.metricType, orig := d2.orig.(metric := a.metric.value.value)), true)
  }

  function Hear(kind: Kind, d: Data, a: Heard): (Data, bool)
  {
    if kind == Rreq then HearRreq(d, a) else HearRrep(d, a)
  }

  /** All addresses up to the first that is refused. */
  function HearAll(kind: Kind, d: Data, addrs: seq<Heard>): (Data, bool)
    decreases addrs
  {
    if addrs == [] then (d, true)
    else
      var (next, ok) := Hear(kind, d, addrs[0]);
      if ok then HearAll(kind, next, addrs[1..]) else (next, false)
  }

  /** What a router does at the end of a route request. */
  function OnRreq(d: Data, w: World): (Data, Option<Sent>)
  {
    if d.orig.addr == 0 || d.orig.seqnum == 0 || d.targ.addr == 0 || d.hopLimit == 0 then (d, None)
    else if Limited(d.metricType, d.orig.metric) || w.redundant then (d, None)
    else
      var e := d.(orig := d.orig.(metric := Updated(d.metricType, d.orig.metric)));
      if w.known && !w.improves then (e, None)
      else if w.targIsClient then
        var f := e.(targ := e.targ.(metric := 0));
        (f, Some(Sent(Rrep, f)))
      else (e, Some(Sent(Rreq, e)))
  }

  /** What a router does at the end of a route reply. */
  function OnRrep(d: Data, w: World): (Data, Option<Sent>)
  {
    if d.orig.addr == 0 || d.orig.seqnum == 0 || d.targ.addr == 0 || d.targ.seqnum == 0 then (d, None)
    else if Limited(d.metricType, d.targ.metric) then (d, None)
    else
      var e := d.(targ := d.targ.(metric := Updated(d.metricType, d.targ.metric)));
      if (w.known && !w.improves) || w.origIsClient then (e, None) else (e, Some(Sent(Rrep, e)))
  }

  /** What a router does with a message. */
  function React(d: Data, p: Packet, w: World): (Data, Option<Sent>)
  {
    var (counted, ok) := CountHop(d, p.hopLimit);
    if !ok then (counted, None)
    else
      var (heard, ok) := HearAll(p.kind, counted, p.addrs);
      if !ok then (heard, None) else if p.kind == Rreq then OnRreq(heard, w) else OnRrep(heard, w)
  }

  function Blank(): Data
  {
    Data(0, 0, Node(0, 0, 0), Node(0, 0, 0))
  }

  /** The state the callbacks of the reader share. */
  class Reader {
    var hopLimit: u8
    var metricType: u8
    var orig: Node
    var targ: Node

    constructor ()
      ensures State() == Blank()
    {
      hopLimit, metricType, orig, targ := 0, 0, Node(0, 0, 0), Node(0, 0, 0);
    }

    ghost function State(): Data
      reads this
    {
      Data(hopLimit, metricType, orig, targ)
    }

    /** The message callback. */
    method MessageTlvs(limit: Option<u8>) returns (ok: bool)
      modifies this`hopLimit
      ensures (State(), ok) == CountHop(old(State()), limit)
      ensures ok <==> limit.Some? && limit.value > 0
    {
      if limit.None? {
        return false;
      }
      hopLimit := limit.value;
      if hopLimit == 0 {
        return false;
      }
      hopLimit := hopLimit - 1;
      ok := true;
    }

    method RreqAddress(a: Heard) returns (ok: bool)
      modifies this`metricType, this`orig, this`targ
      ensures (State(), ok) == HearRreq(old(State()), a)
      ensures ok <==> (a.metric.Some? <==> a.origSeq.Some?)
      ensures orig == if a.origSeq.None? then old(orig)
                      else Node(a.addr, a.origSeq.value, if a.metric.Some? then a.metric.value.value else old(orig).metric)
      ensures targ == if a.targSeq.Some? then Node(a.addr, a.targSeq.value, old(targ).metric)
                      else if a.origSeq.None? then old(targ).(addr := a.addr) else old(targ)
      ensures metricType == if a.metric.Some? && a.origSeq.Some? then a.metric.value.metricType else old(metricType)
    {
      var isOrig, isTarg := false, false;
      if a.origSeq.Some? {
        isOrig := true;
        orig := orig.(addr := a.addr, seqnum := a.origSeq.value);
      }
      if a.targSeq.Some? {
        isTarg := true;
        targ := targ.(addr := a.addr, seqnum := a.targSeq.value);
      }
      if a.targSeq.None? && !isOrig {
        isTarg := true;
        targ := targ.(addr := a.addr);
      }
      if !isOrig && !isTarg {
        return false;
      }
      if a.metric.None? && isOrig {
        return false;
      }
      if a.metric.Some? {
        if !isOrig {
          return false;
        }
        metricType := a.metric.value.metricType;
        orig := orig.(metric := a.metric.value.value);
      }
      ok := true;
    }

    method RrepAddress(a: Heard) returns (ok: bool)
      modifies this`metricType, this`orig, this`targ
      ensures (State(), ok) == HearRrep(old(State()), a)
      ensures ok <==> if a.origSeq.Some? then a.metric.None? else a.targSeq.Some? && a.metric.Some?
      ensures targ == if a.targSeq.None? then old(targ) else Node(a.addr, a.targSeq.value, old(targ).metric)
      ensures a.origSeq.Some? ==> orig == Node(a.addr, a.origSeq.value, old(orig).metric)
      ensures a.origSeq.None? ==> orig == if ok then old(orig).(metric := a.metric.value.value) else old(orig)
      ensures metricType == if ok && a.metric.Some? then a.metric.value.metricType else old(metricType)
    {
      var isTarg := false;
      if a.targSeq.Some? {
        isTarg := true;
        targ := targ.(addr := a.addr, seqnum := a.targSeq.value);
      }
      if a.origSeq.Some? {
        isTarg := false;
        orig := orig.(addr := a.addr, seqnum := a.origSeq.value);
      }
      if a.origSeq.None? && !isTarg {
        return false;
      }
      if a.metric.None? && isTarg {
        return false;
      }
      if a.metric.Some? {
        if !isTarg {
          return false;
        }
        metricType := a.metric.value.metricType;
        orig := orig.(metric := a.metric.value.value);
      }
      ok := true;
    }

    method Addresses(kind: Kind, addrs: seq<Heard>) returns (ok: bool)
      modifies this`metricType, this`orig, this`targ
      ensures (State(), ok) == HearAll(kind, old(State()), addrs)
    {
      var i := 0;
      while i < |addrs|
        invariant 0 <= i <= |addrs| && HearAll(kind, old(State()), addrs) == HearAll(kind, State(), addrs[i..])
      {
        assert addrs[i..][1..] == addrs[i + 1..];
        if kind == Rreq {
          ok := RreqAddress(addrs[i]);
        } else {
          ok := RrepAddress(addrs[i]);
        }
        if !ok {
          return;
        }
        i := i + 1;
      }
      ok := true;
    }

    /** The callback at the end of a request: it is passed on, or answered with a reply, while hops are left; the metric
        of its way grows by the hop and never wraps. Of the metric types only the hop count is ever passed on. */
    method EndRreq(dropped: bool, w: World) returns (sent: Option<Sent>)
      modifies this`orig, this`targ
      ensures (State(), sent) == if dropped then (old(State()), None) else OnRreq(old(State()), w)
      ensures var taken := !dropped && old(orig).addr != 0 && old(orig).seqnum != 0 && old(targ).addr != 0 && hopLimit > 0
                           && metricType == 3 && old(orig).metric < 254 && !w.redundant;
              && orig == (if taken then old(orig).(metric := old(orig).metric + 1) else old(orig))
              && (sent.Some? <==> taken && (w.known ==> w.improves))
      ensures sent.Some? ==> sent.value.data == State() && (sent.value.kind == Rrep <==> w.targIsClient)
      ensures targ == if sent.Some? && w.targIsClient then old(targ).(metric := 0) else old(targ)
    {
      sent := None;
      if dropped || orig.addr == 0 || orig.seqnum == 0 || targ.addr == 0 || hopLimit == 0 {
        return;
      }
      if MetricMax(metricType) - LinkCost(metricType) <= orig.metric {
        return;
      }
      if w.redundant {
        return;
      }
      orig := orig.(metric := Updated(metricType, orig.metric));
      if w.known && !w.improves {
        return;
      }
      if w.targIsClient {
        targ := targ.(metric := 0);
        sent := Some(Sent(Rrep, Data(hopLimit, metricType, orig, targ)));
      } else {
        sent := Some(Sent(Rreq, Data(hopLimit, metricType, orig, targ)));
      }
    }

    /** The callback at the end of a reply: it is passed on until the router that asked gets it, with as many hops left as
        there are; one without any dies at the next router. The metric it looks at and sends is that of the target, which
        no reply sets. */
    method EndRrep(dropped: bool, w: World) returns (sent: Option<Sent>)
      modifies this`targ
      ensures (State(), sent) == if dropped then (old(State()), None) else OnRrep(old(State()), w)
      ensures var taken := !dropped && orig.addr != 0 && orig.seqnum != 0 && old(targ).addr != 0 && old(targ).seqnum != 0
                           && metricType == 3 && old(targ).metric < 254;
              && targ == (if taken then old(targ).(metric := old(targ).metric + 1) else old(targ))
              && (sent.Some? <==> taken && (w.known ==> w.improves) && !w.origIsClient)
      ensures sent.Some? ==> sent.value == Sent(Rrep, State())
    {
      sent := None;
      if dropped || orig.addr == 0 || orig.seqnum == 0 || targ.addr == 0 || targ.seqnum == 0 {
        return;
      }
      if MetricMax(metricType) - LinkCost(metricType) <= targ.metric {
        return;
      }
      targ := targ.(metric := Updated(metricType, targ.metric));
      if w.known && !w.improves {
        return;
      }
      if !w.origIsClient {
        sent := Some(Sent(Rrep, Data(hopLimit, metricType, orig, targ)));
      }
    }

    /** Receives a message: the message callback, the addresses, the callback at the end. */
    method Receive(p: Packet, w: World) returns (sent: Option<Sent>)
      modifies this
      ensures (State(), sent) == React(old(State()), p, w)
    {
      var ok := MessageTlvs(p.hopLimit);
      if ok {
        ok := Addresses(p.kind, p.addrs);
      }
      if p.kind == Rreq {
        sent := EndRreq(!ok, w);
      } else {
        sent := EndRrep(!ok, w);
      }
    }
  }

  // ---------- hops and metrics ----------

  /** The metric a message says, if it does. */
  function MetricOf(addrs: seq<Heard>): Option<u8>
  {
    if addrs == [] then None
    else
      var rest := MetricOf(addrs[1..]);
      if rest.Some? then rest else if addrs[0].metric.Some? then Some(addrs[0].metric.value.value) else None
  }

  /** Whatever the kind of the message, its metric ends up with the one that asked; that of the target is left over. */
  lemma {:induction false} MetricGoesToOrig(kind: Kind, d: Data, addrs: seq<Heard>)
    ensures var (heard, ok) := HearAll(kind, d, addrs);
            && heard.targ.metric == d.targ.metric && heard.hopLimit == d.hopLimit
            && (ok ==> heard.orig.metric == if MetricOf(addrs).Some? then MetricOf(addrs).value else d.orig.metric)
    decreases addrs
  {
    if addrs != [] {
      MetricGoesToOrig(kind, Hear(kind, d, addrs[0]).0, addrs[1..]);
    }
  }

  /** A message causes at most one message, with one hop less to go; a reply never causes a request. */
  lemma {:induction false} OneHopLess(d: Data, p: Packet, w: World)
    ensures var sent := React(d, p, w).1;
            sent.Some? ==> p.hopLimit.Some? && p.hopLimit.value > 0 && sent.value.data.hopLimit == p.hopLimit.value - 1
                           && (p.kind == Rrep ==> sent.value.kind == Rrep)
  {
    hide HearAll;
    MetricGoesToOrig(p.kind, CountHop(d, p.hopLimit).0, p.addrs);
  }

  /** Of a request that goes on or is answered, the hops behind, as its metric tells, and the hops to go keep their sum. */
  lemma {:induction false} RequestKeepsSum(d: Data, p: Packet, w: World)
    requires p.kind == Rreq && MetricOf(p.addrs).Some?
    ensures var sent := React(d, p, w).1;
            sent.Some? ==> p.hopLimit.Some?
                           && sent.value.data.orig.metric + sent.value.data.hopLimit == MetricOf(p.addrs).value + p.hopLimit.value
  {
    hide HearAll, MetricOf;
    MetricGoesToOrig(p.kind, CountHop(d, p.hopLimit).0, p.addrs);
  }

  /** Of a reply that goes on they do exactly if the metric left over for the target happens to be the one received. */
  lemma {:induction false} ReplyKeepsSumIff(d: Data, p: Packet, w: World)
    requires p.kind == Rrep && MetricOf(p.addrs).Some? && React(d, p, w).1.Some?
    ensures var sent := React(d, p, w).1.value;
            && p.hopLimit.Some? && sent.data.targ.metric == d.targ.metric + 1
            && (sent.data.targ.metric + sent.data.hopLimit == MetricOf(p.addrs).value + p.hopLimit.value <==> d.targ.metric == MetricOf(p.addrs).value)
  {
    hide HearAll, MetricOf;
    MetricGoesToOrig(p.kind, CountHop(d, p.hopLimit).0, p.addrs);
  }

  /** A reply with the given metric from node 2 for node 1. */
  function Reply(metric: u8, hopLimit: u8): Packet
  {
    Packet(Rrep, Some(hopLimit), [Heard(1, Some(1), None, None), Heard(2, None, Some(1), Some(Metric(metric, HOP_COUNT)))])
  }

  /** The first reply a router hears goes on with metric 1, whatever it said; even at the limit. */
  lemma {:induction false} FirstReplyLosesMetric(metric: u8, hopLimit: u8)
    requires hopLimit > 0
    ensures var sent := React(Blank(), Reply(metric, hopLimit), World(false, false, false, false, false)).1;
            sent.Some? && sent.value.data.targ.metric == 1 && sent.value.data.orig.metric == metric
  {
    var p, d := Reply(metric, hopLimit), Blank().(hopLimit := hopLimit - 1);
    var one := HearRrep(d, p.addrs[0]);
    var two := HearRrep(one.0, p.addrs[1]);
    assert one.1 && two.1 && p.addrs[1..] == [p.addrs[1]] && [p.addrs[1]][1..] == [];
    assert HearAll(Rrep, two.0, []) == (two.0, true);
    assert HearAll(Rrep, one.0, [p.addrs[1]]) == (two.0, true);
    assert HearAll(Rrep, d, p.addrs) == (two.0, true);
  }

  /** What the writer puts into a message; `origByte` and `targByte` are the bytes of the sequence numbers a reader looks
      at. */
  function Written(s: Sent, origByte: u8, targByte: u8): seq<Heard>
  {
    if s.kind == Rreq then
      [Heard(s.data.orig.addr, Some(origByte), None, Some(Metric(s.data.orig.metric, HOP_COUNT))), Heard(s.data.targ.addr, None, None, None)]
    else
      [Heard(s.data.orig.addr, Some(origByte), None, None), Heard(s.data.targ.addr, None, Some(targByte), Some(Metric(s.data.targ.metric, HOP_COUNT)))]
  }

  /** The next router hears the hop count metric and both addresses with their numbers, of a request only that of the one
      that asks. The metric of a request is where it belongs, that of a reply with the one that asked; that of the target is
      the router's own. */
  lemma {:induction false} WrittenIsHeard(s: Sent, origByte: u8, targByte: u8, d: Data)
    ensures HearAll(s.kind, d, Written(s, origByte, targByte))
         == (Data(d.hopLimit, 3, Node(s.data.orig.addr, origByte, if s.kind == Rreq then s.data.orig.metric else s.data.targ.metric),
                  Node(s.data.targ.addr, if s.kind == Rreq then d.targ.seqnum else targByte, d.targ.metric)), true)
  {
    var addrs := Written(s, origByte, targByte);
    var one := Hear(s.kind, d, addrs[0]);
    var two := Hear(s.kind, one.0, addrs[1]);
    assert addrs[1..] == [addrs[1]] && [addrs[1]][1..] == [];
    assert HearAll(s.kind, two.0, []) == (two.0, true);
    assert HearAll(s.kind, one.0, [addrs[1]]) == (two.0, true);
  }

  // ---------- along a line of routers ----------

  /** A message as the next router hears it. */
  function OnAir(s: Sent, origByte: u8, targByte: u8): Packet
  {
    Packet(s.kind, Some(s.data.hopLimit), Written(s, origByte, targByte))
  }

  /** A request goes on, or is answered, exactly if its addresses and number are there, hops are left for the next router,
      the metric can grow, and the router neither finds it redundant nor has a route that is no worse. */
  lemma {:induction false} RequestGoesOnIff(s: Sent, origByte: u8, targByte: u8, d: Data, w: World)
    requires s.kind == Rreq
    ensures var sent := React(d, OnAir(s, origByte, targByte), w).1;
            && (sent.Some? <==> && s.data.orig.addr != 0 && s.data.targ.addr != 0 && origByte != 0
                                && s.data.hopLimit > 1 && s.data.orig.metric < 254 && !w.redundant && (w.known ==> w.improves))
            && (sent.Some? ==> && sent.value.kind == (if w.targIsClient then Rrep else Rreq) && sent.value.data.hopLimit == s.data.hopLimit - 1
                               && sent.value.data.orig == Node(s.data.orig.addr, origByte, s.data.orig.metric + 1)
                               && sent.value.data.targ.addr == s.data.targ.addr
                               && sent.value.data.targ.metric == if w.targIsClient then 0 else d.targ.metric)
  {
    hide HearAll, Written;
    var p, counted := OnAir(s, origByte, targByte), CountHop(d, Some(s.data.hopLimit)).0;
    WrittenIsHeard(s, origByte, targByte, counted);
    MetricGoesToOrig(Rreq, counted, p.addrs);
  }

  /** A reply goes on exactly if its addresses and numbers are there, a hop is left, the metric left over at the router can
      grow, and the router is not the one that asked and has no route that is no worse. */
  lemma {:induction false} ReplyGoesOnIff(s: Sent, origByte: u8, targByte: u8, d: Data, w: World)
    requires s.kind == Rrep
    ensures var sent := React(d, OnAir(s, origByte, targByte), w).1;
            && (sent.Some? <==> && s.data.orig.addr != 0 && s.data.targ.addr != 0 && origByte != 0 && targByte != 0
                                && s.data.hopLimit > 0 && d.targ.metric < 254 && (w.known ==> w.improves) && !w.origIsClient)
            && (sent.Some? ==> && sent.value.kind == Rrep && sent.value.data.hopLimit == s.data.hopLimit - 1
                               && sent.value.data.orig == Node(s.data.orig.addr, origByte, s.data.targ.metric)
                               && sent.value.data.targ == Node(s.data.targ.addr, targByte, d.targ.metric + 1))
  {
    hide HearAll, Written;
    var p, counted := OnAir(s, origByte, targByte), CountHop(d, Some(s.data.hopLimit)).0;
    WrittenIsHeard(s, origByte, targByte, counted);
    MetricGoesToOrig(Rrep, counted, p.addrs);
  }

  /** A router of a line: what it remembers and knows, and the bytes of the numbers that it looks at. */
  datatype Router = Router(memory: Data, world: World, origByte: u8, targByte: u8)

  /** What the last router of a line sends when the first hears `s` and each hears the one before. */
  function Relay(s: Sent, line: seq<Router>): Option<Sent>
    decreases line
  {
    if line == [] then Some(s)
    else
      var sent := React(line[0].memory, OnAir(s, line[0].origByte, line[0].targByte), line[0].world).1;
      if sent.None? then None else Relay(sent.value, line[1..])
  }

  /** The router has not seen the request, and no route that is no worse. */
  predicate Willing(w: World)
  {
    !w.redundant && (w.known ==> w.improves)
  }

  /** A request is passed on along a line of willing routers, and answered by the last, whose client is looked for, exactly
      if addresses and numbers are there and hop limit and metric leave room for all of them. */
  lemma {:induction false} RequestTravels(s: Sent, line: seq<Router>)
    requires s.kind == Rreq && line != []
    requires forall i :: 0 <= i < |line| ==> Willing(line[i].world) && (line[i].world.targIsClient <==> i == |line| - 1)
    ensures var answer := Relay(s, line);
            && (answer.Some? <==> && s.data.orig.addr != 0 && s.data.targ.addr != 0 && (forall i :: 0 <= i < |line| ==> line[i].origByte != 0)
                                  && s.data.hopLimit > |line| && s.data.orig.metric + |line| <= 254)
            && (answer.Some? ==> && answer.value.kind == Rrep && answer.value.data.hopLimit == s.data.hopLimit - |line|
                                 && answer.value.data.orig.metric == s.data.orig.metric + |line| && answer.value.data.targ.metric == 0
                                 && answer.value.data.orig.addr == s.data.orig.addr && answer.value.data.targ.addr == s.data.targ.addr)
    decreases line
  {
    hide React, OnAir;
    var r, rest := line[0], line[1..];
    RequestGoesOnIff(s, r.origByte, r.targByte, r.memory, r.world);
    var sent := React(r.memory, OnAir(s, r.origByte, r.targByte), r.world).1;
    assert forall i :: 0 <= i < |rest| ==> rest[i] == line[i + 1];
    if sent.Some? {
      if rest == [] {
        assert Relay(sent.value, rest) == sent;
      } else {
        RequestTravels(sent.value, rest);
        assert (forall i :: 0 <= i < |line| ==> line[i].origByte != 0) <==> (forall i :: 0 <= i < |rest| ==> rest[i].origByte != 0);
      }
    }
  }

  /** A reply is passed on along a line of willing routers, none of which asked, exactly if addresses and numbers are there,
      the hops suffice and every router has a metric left over that can grow; the metric that goes out last is that of the
      last router. */
  lemma {:induction false} ReplyTravels(s: Sent, line: seq<Router>)
    requires s.kind == Rrep && line != []
    requires forall i :: 0 <= i < |line| ==> Willing(line[i].world) && !line[i].world.origIsClient
    ensures var last := Relay(s, line);
            && (last.Some? <==> && s.data.orig.addr != 0 && s.data.targ.addr != 0 && s.data.hopLimit >= |line|
                                && forall i :: 0 <= i < |line| ==> line[i].origByte != 0 && line[i].targByte != 0 && line[i].memory.targ.metric < 254)
            && (last.Some? ==> && last.value.kind == Rrep && last.value.data.hopLimit == s.data.hopLimit - |line|
                               && last.value.data.targ.metric == line[|line| - 1].memory.targ.metric + 1
                               && last.value.data.orig.addr == s.data.orig.addr && last.value.data.targ.addr == s.data.targ.addr)
    decreases line
  {
    hide React, OnAir;
    var r, rest := line[0], line[1..];
    ReplyGoesOnIff(s, r.origByte, r.targByte, r.memory, r.world);
    var sent := React(r.memory, OnAir(s, r.origByte, r.targByte), r.world).1;
    assert forall i :: 0 <= i < |rest| ==> rest[i] == line[i + 1];
    if sent.Some? {
      if rest == [] {
        assert Relay(sent.value, rest) == sent;
      } else {
        ReplyTravels(sent.value, rest);
      }
    }
  }

  // ---------- the replies of a router run out ----------

  /** Replies passed on in a run of messages. */
  function Passed(d: Data, msgs: seq<(Packet, World)>): nat
    decreases msgs
  {
    if msgs == [] then 0
    else
      var (next, sent) := React(d, msgs[0].0, msgs[0].1);
      (if msgs[0].0.kind == Rrep && sent.Some? then 1 else 0) + Passed(next, msgs[1..])
  }

  /** Requests answered with a reply. */
  function Answered(d: Data, msgs: seq<(Packet, World)>): nat
    decreases msgs
  {
    if msgs == [] then 0
    else
      var (next, sent) := React(d, msgs[0].0, msgs[0].1);
      (if msgs[0].0.kind == Rreq && sent.Some? && sent.value.kind == Rrep then 1 else 0) + Answered(next, msgs[1..])
  }

  /** What a message does to the metric left over: an answer starts it again, other requests leave it; a reply adds one or
      nothing, and one if it is passed on. */
  lemma {:induction false} Leftover(d: Data, p: Packet, w: World)
    requires d.targ.metric <= 254
    ensures var (next, sent) := React(d, p, w);
            && next.targ.metric <= 254
            && (if p.kind == Rreq then next.targ.metric == if sent.Some? && sent.value.kind == Rrep then 0 else d.targ.metric
                else d.targ.metric + (if sent.Some? then 1 else 0) <= next.targ.metric <= d.targ.metric + 1)
  {
    hide HearAll;
    MetricGoesToOrig(p.kind, CountHop(d, p.hopLimit).0, p.addrs);
  }

  /** Over every run a router passes on at most 254 replies, and 254 more for every request it answers: the metric left over
      for the target only grows in between, and at the limit no reply goes on, whatever it says. */
  lemma {:induction false} RepliesRunOut(d: Data, msgs: seq<(Packet, World)>)
    requires d.targ.metric <= 254
    ensures Passed(d, msgs) + d.targ.metric <= 254 * (Answered(d, msgs) + 1)
    decreases msgs
  {
    hide React;
    if msgs != [] {
      Leftover(d, msgs[0].0, msgs[0].1);
      RepliesRunOut(React(d, msgs[0].0, msgs[0].1).0, msgs[1..]);
    }
  }

  // ---------- the network ----------

  /** A copy of a message on its way, as far as floods are concerned. */
  datatype Copy = Copy(kind: Kind, hopLimit: Option<u8>)

  /** What can happen: the copy at `index` is received, saying whatever it says, by a router that remembers whatever it
      remembers, and the answer reaches `copies` others; a copy is lost; a router asks for a route. */
  datatype Event =
    | Receive(index: nat, addrs: seq<Heard>, memory: Data, w: World, copies: nat)
    | Lose(index: nat)
    | Originate(p: Copy, copies: nat)

  /** What a router sends on receiving a copy. */
  function Answer(c: Copy, addrs: seq<Heard>, memory: Data, w: World): Option<Copy>
  {
    var sent := React(memory, Packet(c.kind, c.hopLimit, addrs), w).1;
    if sent.Some? then Some(Copy(sent.value.kind, Some(sent.value.data.hopLimit))) else None
  }

  function Copies(p: Copy, k: nat): seq<Copy>
  {
    seq(k, i => p)
  }

  /** In a network of `n` routers a message sent reaches at most `n` of them. */
  ghost predicate Possible(n: nat, flight: seq<Copy>, e: Event)
  {
    match e
    case Receive(i, _, _, _, copies) => i < |flight| && copies <= n
    case Lose(i) => i < |flight|
    case Originate(p, copies) => copies <= n && p.kind == Rreq && p.hopLimit == Some(MAX_HOP_COUNT)
  }

  function Next(flight: seq<Copy>, e: Event): seq<Copy>
    requires e.Originate? || e.index < |flight|
  {
    match e
    case Receive(i, addrs, memory, w, copies) =>
      var r := Answer(flight[i], addrs, memory, w);
      Without(flight, i) + if r.Some? then Copies(r.value, copies) else []
    case Lose(i) => Without(flight, i)
    case Originate(p, copies) => flight + Copies(p, copies)
  }

  ghost predicate Run(n: nat, flight: seq<Copy>, events: seq<Event>)
    decreases events
  {
    events == [] || (Possible(n, flight, events[0]) && Run(n, Next(flight, events[0]), events[1..]))
  }

  /** Copies received or lost in a run. */
  function Received(events: seq<Event>): nat
  {
    if events == [] then 0 else (if events[0].Originate? then 0 else 1) + Received(events[1..])
  }

  function Originated(events: seq<Event>): nat
  {
    if events == [] then 0 else (if events[0].Originate? then 1 else 0) + Originated(events[1..])
  }

  // ---------- floods die out ----------

  function Power(b: nat, n: nat): (p: nat)
    requires b > 0
    ensures p > 0
  {
    if n == 0 then 1 else b * Power(b, n - 1)
  }

  function Hops(p: Copy): nat
  {
    if p.hopLimit.Some? then p.hopLimit.value else 0
  }

  /** How many receptions a copy can cause at most. */
  function Weight(n: nat, p: Copy): nat
  {
    Power(n + 1, Hops(p))
  }

  function Weights(n: nat, flight: seq<Copy>): nat
  {
    if flight == [] then 0 else Weight(n, flight[0]) + Weights(n, flight[1..])
  }

  lemma {:induction false} WeightsConcat(n: nat, a: seq<Copy>, b: seq<Copy>)
    ensures Weights(n, a + b) == Weights(n, a) + Weights(n, b)
  {
    if a == [] {
      assert a + b == b;
    } else {
      assert (a + b)[1..] == a[1..] + b;
      WeightsConcat(n, a[1..], b);
    }
  }

  lemma WeightsWithout(n: nat, flight: seq<Copy>, i: nat)
    requires i < |flight|
    ensures Weights(n, flight) == Weights(n, Without(flight, i)) + Weight(n, flight[i])
  {
    assert flight == flight[..i] + flight[i..] && flight[i..][1..] == flight[i + 1..];
    WeightsConcat(n, flight[..i], flight[i..]);
    WeightsConcat(n, flight[..i], flight[i + 1..]);
  }

  lemma {:induction false} WeightsOfCopies(n: nat, p: Copy, k: nat)
    ensures Weights(n, Copies(p, k)) == k * Weight(n, p)
  {
    if k > 0 {
      assert Copies(p, k)[1..] == Copies(p, k - 1);
      WeightsOfCopies(n, p, k - 1);
      assert k * Weight(n, p) == (k - 1) * Weight(n, p) + Weight(n, p);
    }
  }

  lemma FewerCopies(k: nat, n: nat, w: nat)
    requires k <= n
    ensures k * w <= n * w
  {
    assert n * w == k * w + (n - k) * w;
  }

  /** Receiving a copy takes away more than the answer adds. */
  lemma AnswerWeighsLess(n: nat, p: Copy, addrs: seq<Heard>, memory: Data, w: World, copies: nat)
    requires copies <= n
    ensures var r := Answer(p, addrs, memory, w); r.Some? ==> Weights(n, Copies(r.value, copies)) < Weight(n, p)
  {
    hide React;
    var r := Answer(p, addrs, memory, w);
    OneHopLess(memory, Packet(p.kind, p.hopLimit, addrs), w);
    if r.Some? {
      var less := Weight(n, r.value);
      WeightsOfCopies(n, r.value, copies);
      FewerCopies(copies, n, less);
      assert Weight(n, p) == (n + 1) * less == n * less + less;
    }
  }

  /** Every reception or loss lowers the weight of what is on its way; only a new request raises it. */
  lemma EventLowersWeight(n: nat, flight: seq<Copy>, e: Event)
    requires Possible(n, flight, e)
    ensures e.Originate? ==> Weights(n, Next(flight, e)) <= Weights(n, flight) + n * Power(n + 1, MAX_HOP_COUNT)
    ensures !e.Originate? ==> Weights(n, Next(flight, e)) < Weights(n, flight)
  {
    hide Answer;
    match e
    case Receive(i, addrs, memory, w, copies) =>
      WeightsWithout(n, flight, i);
      AnswerWeighsLess(n, flight[i], addrs, memory, w, copies);
      var r := Answer(flight[i], addrs, memory, w);
      var answer := if r.Some? then Copies(r.value, copies) else [];
      WeightsConcat(n, Without(flight, i), answer);
    case Lose(i) => WeightsWithout(n, flight, i);
    case Originate(p, copies) =>
      WeightsConcat(n, flight, Copies(p, copies));
      WeightsOfCopies(n, p, copies);
      FewerCopies(copies, n, Weight(n, p));
  }

  /** Every flood dies out: however routers are connected, whatever they know and messages say and in whatever order things happen, the
      receptions of a run are bounded by what was on its way and the requests that were started, replies included. */
  lemma {:induction false} FloodsDieOut(n: nat, flight: seq<Copy>, events: seq<Event>)
    requires Run(n, flight, events)
    ensures Received(events) <= Weights(n, flight) + Originated(events) * (n * Power(n + 1, MAX_HOP_COUNT))
    decreases events
  {
    hide Next, Weights, Power;
    var most := n * Power(n + 1, MAX_HOP_COUNT);
    if events != [] {
      var next := Next(flight, events[0]);
      hide Possible;
      FloodsDieOut(n, next, events[1..]);
      EventLowersWeight(n, flight, events[0]);
      OneMore(Originated(events[1..]), most);
    }
  }

  lemma OneMore(k: nat, most: nat)
    ensures (k + 1) * most == k * most + most && k * most >= 0
  {
  }
}
