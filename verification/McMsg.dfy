/** The set of multicast messages an AODVv2 router remembers to recognise redundant ones (aodvv2_mcmsg.c). */
module McMsg {
  import opened Wire
  import opened SeqNums

  const MAX_ENTRIES := 16

  /** An address; 0 is the unspecified one. */
  type Addr = nat

  /** Messages with equal keys are compatible. */
  datatype Key = Key(origPrefix: Addr, origLen: nat, target: Addr, metricType: nat)

  datatype Msg = Msg(key: Key, seqnum: u16, metric: nat, seqNoRtr: Addr)

  /** What is stored for a message. */
  datatype Data = Data(key: Key, seqnum: u16, metric: nat, timestamp: int, removal: int, seqNoRtr: Addr)

  datatype Entry = Unused | Used(data: Data)

  predicate Stale(e: Entry, now: int)
  {
    e.Used? && now > e.data.removal
  }

  predicate Comparable(d: Data, msg: Msg)
  {
    if d.seqNoRtr == 0 && msg.seqNoRtr == 0 then d.key == msg.key else d.key == msg.key && d.seqNoRtr == msg.seqNoRtr
  }

  /** What is stored came without a SeqNoRtr address; a message with one is comparable with nothing. */
  lemma {:induction false} ComparableIff(d: Data, msg: Msg)
    requires d.seqNoRtr == 0
    ensures Comparable(d, msg) <==> d.key == msg.key && msg.seqNoRtr == 0
  {
  }

  /** The stored message is newer, or as new with the same metric. */
  predicate Redundant(d: Data, msg: Msg)
  {
    Compare(d.seqnum, msg.seqnum) < 0 || (Compare(d.seqnum, msg.seqnum) == 0 && d.metric == msg.metric)
  }

  // ---------- the abstract set ----------

  /** What is stored and not stale for a key. */
  ghost function Lookup(s: seq<Entry>, key: Key, now: int): Option<Data>
  {
    if s == [] then None
    else if s[0].Used? && s[0].data.key == key && !Stale(s[0], now) then Some(s[0].data)
    else Lookup(s[1..], key, now)
  }

  /** At most one entry in use has a given key, and none came with a SeqNoRtr address. */
  ghost predicate Unique(s: seq<Entry>)
  {
    && (forall i :: 0 <= i < |s| && s[i].Used? ==> s[i].data.seqNoRtr == 0)
    && (forall i, j :: 0 <= i < j < |s| && s[i].Used? && s[j].Used? ==> s[i].data.key != s[j].data.key)
  }

  /** Whether there is room for a new message. */
  ghost predicate Room(s: seq<Entry>, now: int)
  {
    exists i :: 0 <= i < |s| && (s[i].Unused? || Stale(s[i], now))
  }

  /** What is stored for the key of a message once it was processed. */
  function Stored(before: Option<Data>, msg: Msg, now: int, lifetime: nat, room: bool): Option<Data>
  {
    if before.None? then (if room then Some(Data(msg.key, msg.seqnum, msg.metric, now, now + lifetime, 0)) else None)
    else if Redundant(before.value, msg) then Some(before.value.(timestamp := now, removal := now + lifetime))
    else Some(before.value.(seqnum := msg.seqnum, metric := msg.metric, timestamp := now, removal := now + lifetime))
  }

  /** A message and the time it comes. */
  datatype Event = Event(msg: Msg, now: int)

  /** What a message does to the set: it changes what is stored for its own key. */
  ghost predicate Steps(s: seq<Entry>, t: seq<Entry>, e: Event, lifetime: nat)
  {
    && Unique(t) && (forall key :: key != e.msg.key ==> Lookup(t, key, e.now) == Lookup(s, key, e.now))
    && Lookup(t, e.msg.key, e.now) == Stored(Lookup(s, e.msg.key, e.now), e.msg, e.now, lifetime, Room(s, e.now))
  }

  lemma {:induction false} LookupNone(s: seq<Entry>, key: Key, now: int)
    requires forall i :: 0 <= i < |s| && s[i].Used? && s[i].data.key == key ==> Stale(s[i], now)
    ensures Lookup(s, key, now) == None
  {
    if s != [] {
      assert forall i :: 0 <= i < |s| - 1 ==> s[1..][i] == s[i + 1];
      LookupNone(s[1..], key, now);
    }
  }

  lemma {:induction false} LookupAt(s: seq<Entry>, key: Key, now: int, k: nat)
    requires Unique(s) && k < |s| && s[k].Used? && s[k].data.key == key && !Stale(s[k], now)
    ensures Lookup(s, key, now) == Some(s[k].data)
  {
    if k > 0 {
      assert s[0].Used? ==> s[0].data.key != key;
      assert s[1..][k - 1] == s[k];
      assert Unique(s[1..]) by {
        assert forall i :: 0 <= i < |s| - 1 ==> s[1..][i] == s[i + 1];
      }
      LookupAt(s[1..], key, now, k - 1);
    }
  }

  lemma {:induction false} LookupSame(s: seq<Entry>, t: seq<Entry>, key: Key, now: int)
    requires |s| == |t|
    requires forall i :: 0 <= i < |s| ==>
      s[i] == t[i] || !((s[i].Used? && s[i].data.key == key && !Stale(s[i], now)) || (t[i].Used? && t[i].data.key == key && !Stale(t[i], now)))
    ensures Lookup(s, key, now) == Lookup(t, key, now)
  {
    if s != [] {
      assert forall i :: 0 <= i < |s| - 1 ==> s[1..][i] == s[i + 1] && t[1..][i] == t[i + 1];
      LookupSame(s[1..], t[1..], key, now);
    }
  }

  /** The entries with some of the stale ones cleared. */
  ghost predicate Cleared(s: seq<Entry>, t: seq<Entry>, now: int)
  {
    |s| == |t| && forall i :: 0 <= i < |s| ==> t[i] == s[i] || (t[i] == Unused && Stale(s[i], now))
  }

  lemma ClearedKeeps(s: seq<Entry>, t: seq<Entry>, now: int)
    requires Cleared(s, t, now) && Unique(s)
    ensures Unique(t) && forall key :: Lookup(s, key, now) == Lookup(t, key, now)
  {
    forall key
      ensures Lookup(s, key, now) == Lookup(t, key, now)
    {
      LookupSame(s, t, key, now);
    }
  }

  class MessageSet {
    const entries: array<Entry>
    const lifetime: nat

    ghost predicate Valid()
      reads this, entries
    {
      entries.Length == MAX_ENTRIES && Unique(entries[..])
    }

    constructor (lifetime: nat)
      ensures Valid() && fresh(entries) && entries.Length == 16 && this.lifetime == lifetime && forall i :: 0 <= i < entries.Length ==> entries[i] == Unused
    {
      entries := new Entry[MAX_ENTRIES](i => Unused);
      this.lifetime := lifetime;
    }

    method ResetIfStale(i: nat, now: int)
      requires i < entries.Length
      modifies entries
      ensures entries[..] == old(entries[..])[i := if Stale(old(entries[i]), now) then Unused else old(entries[i])]
    {
      if Stale(entries[i], now) {
        entries[i] := Unused;
      }
    }

    /** The first comparable entry; stale entries met on the way are cleared. */
    method FindComparable(msg: Msg, now: int) returns (k: nat)
      modifies entries
      ensures Cleared(old(entries[..]), entries[..], now) && k <= entries.Length
      ensures k < entries.Length ==> entries[k].Used? && Comparable(entries[k].data, msg) && !Stale(entries[k], now)
      ensures forall i :: 0 <= i < k ==> !Stale(entries[i], now) && (entries[i].Used? ==> !Comparable(entries[i].data, msg))
    {
      k := 0;
      while k < entries.Length
        invariant 0 <= k <= entries.Length && Cleared(old(entries[..]), entries[..], now)
        invariant forall i :: k <= i < entries.Length ==> entries[i] == old(entries[i])
        invariant forall i :: 0 <= i < k ==> !Stale(entries[i], now) && (entries[i].Used? ==> !Comparable(entries[i].data, msg))
      {
        ResetIfStale(k, now);
        if entries[k].Used? && Comparable(entries[k].data, msg) {
          return;
        }
        k := k + 1;
      }
    }

    /** Stores a message in the first unused entry. */
    method Add(msg: Msg, now: int) returns (k: nat)
      modifies entries
      ensures k <= entries.Length && forall i :: 0 <= i < k ==> old(entries[i]).Used?
      ensures k < entries.Length ==> old(entries[k]).Unused?
      ensures entries[..] == if k < entries.Length
                             then old(entries[..])[k := Used(Data(msg.key, msg.seqnum, msg.metric, now, now + lifetime, 0))] else old(entries[..])
    {
      k := 0;
      while k < entries.Length
        invariant 0 <= k <= entries.Length && entries[..] == old(entries[..]) && forall i :: 0 <= i < k ==> entries[i].Used?
      {
        if entries[k].Unused? {
          entries[k] := Used(Data(msg.key, msg.seqnum, msg.metric, now, now + lifetime, 0));
          return;
        }
        k := k + 1;
      }
    }

    /** Whether another entry that is compatible with entry `k` has a metric that is no worse; clears stale entries. */
    method CompatibleIsBetter(k: nat, now: int) returns (better: bool)
      requires k < entries.Length && entries[k].Used?
      modifies entries
      ensures Cleared(old(entries[..]), entries[..], now) && entries[k] == old(entries[k])
      ensures better ==> exists i :: 0 <= i < entries.Length && i != k && old(entries[i]).Used? && old(entries[i]).data.key == old(entries[k]).data.key
    {
      for i := 0 to entries.Length
        invariant Cleared(old(entries[..]), entries[..], now) && entries[k] == old(entries[k])
        invariant forall j :: i <= j < entries.Length ==> entries[j] == old(entries[j])
      {
        if i != k {
          ResetIfStale(i, now);
          if entries[i].Used? && entries[i].data.key == entries[k].data.key && entries[i].data.metric <= entries[k].data.metric {
            return true;
          }
        }
      }
      better := false;
    }

    /** A message for which nothing comparable is stored. */
    method Remember(msg: Msg, now: int)
      requires Valid() && forall i :: 0 <= i < entries.Length ==> !Stale(entries[i], now) && (entries[i].Used? ==> entries[i].data.key != msg.key)
      modifies entries
      ensures Valid() && forall key :: key != msg.key ==> Lookup(entries[..], key, now) == Lookup(old(entries[..]), key, now)
      ensures Lookup(entries[..], msg.key, now) == Stored(None, msg, now, lifetime, Room(old(entries[..]), now))
    {
      ghost var s := entries[..];
      LookupNone(s, msg.key, now);
      var k := Add(msg, now);
      ghost var t := entries[..];
      if k < entries.Length {
        assert s[k].Unused?;
        LookupAt(t, msg.key, now, k);
      } else {
        assert !Room(s, now);
      }
      forall key | key != msg.key
        ensures Lookup(t, key, now) == Lookup(s, key, now)
      {
        LookupSame(t, s, key, now);
      }
    }

    /** A message comparable with entry `k`: the timing of the entry is renewed, and unless the message is redundant its
        sequence number and metric are stored. */
    method Refresh(k: nat, msg: Msg, now: int) returns (ok: bool)
      requires Valid() && k < entries.Length && entries[k].Used? && entries[k].data.key == msg.key && !Stale(entries[k], now)
      modifies entries
      ensures Valid() && ok == !Redundant(old(entries[k]).data, msg)
      ensures forall key :: key != msg.key ==> Lookup(entries[..], key, now) == Lookup(old(entries[..]), key, now)
      ensures Lookup(entries[..], msg.key, now) == Stored(Some(old(entries[k]).data), msg, now, lifetime, true)
    {
      ghost var s := entries[..];
      entries[k] := Used(entries[k].data.(timestamp := now, removal := now + lifetime));
      var order := Compare(entries[k].data.seqnum, msg.seqnum);
      if order < 0 || (order == 0 && entries[k].data.metric == msg.metric) {
        Updated(s, entries[..], k, msg.key, now);
        return false;
      }
      entries[k] := Used(entries[k].data.(seqnum := msg.seqnum, metric := msg.metric));
      ghost var u := entries[..];
      Updated(s, u, k, msg.key, now);
      var better := CompatibleIsBetter(k, now);
      ClearedKeeps(u, entries[..], now);
      ok := !better;
    }

    /** Processes a message; `ok` tells that it is not redundant. Messages without SeqNoRtr address keep one entry for
        each key; what is stored for other keys does not change. */
    method Process(msg: Msg, now: int) returns (ok: bool)
      requires Valid() && msg.seqNoRtr == 0
      modifies entries
      ensures Valid() && Steps(old(entries[..]), entries[..], Event(msg, now), lifetime)
      ensures var before := Lookup(old(entries[..]), msg.key, now);
              ok <==> before.None? || IsLarger(msg.seqnum, before.value.seqnum)
                      || (msg.seqnum == before.value.seqnum && msg.metric != before.value.metric)
    {
      ghost var s := entries[..];
      var k := FindComparable(msg, now);
      ghost var t := entries[..];
      ClearedKeeps(s, t, now);
      assert forall i :: 0 <= i < |t| && t[i].Used? ==> (Comparable(t[i].data, msg) <==> t[i].data.key == msg.key);
      if k < entries.Length {
        LookupAt(t, msg.key, now, k);
        NotRedundantIff(t[k].data, msg);
        ok := Refresh(k, msg, now);
      } else {
        LookupNone(t, msg.key, now);
        RoomCleared(s, t, now);
        Remember(msg, now);
        ok := true;
      }
    }
  }

  /** A message is not redundant exactly if it is newer, or as new with another metric. */
  lemma {:induction false} NotRedundantIff(d: Data, msg: Msg)
    ensures !Redundant(d, msg) <==> IsLarger(msg.seqnum, d.seqnum) || (msg.seqnum == d.seqnum && msg.metric != d.metric)
  {
    NewerIsOne(msg.seqnum, d.seqnum);
  }

  lemma RoomCleared(s: seq<Entry>, t: seq<Entry>, now: int)
    requires Cleared(s, t, now)
    ensures Room(s, now) == Room(t, now)
  {
    if Room(s, now) {
      var i :| 0 <= i < |s| && (s[i].Unused? || Stale(s[i], now));
      assert t[i].Unused? || Stale(t[i], now);
    }
    if Room(t, now) {
      var i :| 0 <= i < |t| && (t[i].Unused? || Stale(t[i], now));
      assert s[i].Unused? || Stale(s[i], now);
    }
  }

  /** One entry is replaced by a live one with the same key. */
  lemma Updated(s: seq<Entry>, t: seq<Entry>, k: nat, key: Key, now: int)
    requires Unique(s) && k < |s| && s[k].Used? && s[k].data.key == key
    requires |t| == |s| && t == s[k := t[k]] && t[k].Used? && t[k].data.key == key && t[k].data.seqNoRtr == 0 && !Stale(t[k], now)
    ensures Unique(t) && Lookup(t, key, now) == Some(t[k].data)
    ensures forall other :: other != key ==> Lookup(t, other, now) == Lookup(s, other, now)
  {
    assert Unique(t) by {
      forall i, j | 0 <= i < j < |t| && t[i].Used? && t[j].Used?
        ensures t[i].data.key != t[j].data.key
      {
        assert s[i].Used? && s[j].Used? && s[i].data.key != s[j].data.key;
      }
    }
    LookupAt(t, key, now, k);
    forall other | other != key
      ensures Lookup(t, other, now) == Lookup(s, other, now)
    {
      LookupSame(t, s, other, now);
    }
  }

  // ---------- over runs ----------

  /** A stored sequence number is only ever replaced by one that is as new or newer, and only by a message's own; unless it
      was to be removed before: then exactly an older message takes it back. */
  lemma {:induction false} StepsForward(d: Data, msg: Msg, now: int, lifetime: nat, room: bool)
    ensures var after := Stored(Some(d), msg, now, lifetime, room);
            && after.Some? && Compare(d.seqnum, after.value.seqnum) >= 0
            && (Redundant(d, msg) <==> after.value.seqnum == d.seqnum && after.value.metric == d.metric)
            && (Compare(d.seqnum, msg.seqnum) < 0 ==> after.value == d.(timestamp := now, removal := now + lifetime))
    ensures var after := Stored(Some(d), msg, now, lifetime, room);
            && after.value.key == d.key && after.value.timestamp == now && after.value.removal == now + lifetime
            && (Compare(d.seqnum, msg.seqnum) >= 0 ==> after.value.seqnum == msg.seqnum && after.value.metric == msg.metric)
    ensures var after := Stored(Live(Some(d), now), msg, now, lifetime, true);
            Compare(d.seqnum, after.value.seqnum) >= 0 <==> now <= d.removal || Compare(d.seqnum, msg.seqnum) >= 0
  {
    assert Compare(d.seqnum, d.seqnum) == 0;
    if Compare(d.seqnum, msg.seqnum) == 0 {
      assert d.seqnum == msg.seqnum;
    }
  }

  /** How far `n` is ahead of `base`, counted around. */
  function Ahead(base: u16, n: u16): nat
  {
    (n - base) % 65536
  }

  /** Within half the range, newer is further ahead. */
  lemma NewerIsAhead(base: u16, a: u16, b: u16)
    requires Ahead(base, a) < 32768 && Ahead(base, b) < 32768
    ensures Compare(a, b) >= 0 <==> Ahead(base, a) <= Ahead(base, b)
    ensures Compare(a, b) == 0 <==> a == b
  {
  }

  /** What is left of a stored message at a time. */
  function Live(d: Option<Data>, now: int): Option<Data>
  {
    if d.Some? && now <= d.value.removal then d else None
  }

  /** Nothing but time passes: what is stored stays until it is to be removed. */
  lemma {:induction false} LookupLater(s: seq<Entry>, key: Key, now: int, later: int)
    requires Unique(s) && now <= later
    ensures Lookup(s, key, later) == Live(Lookup(s, key, now), later)
  {
    if s != [] {
      assert forall i :: 0 <= i < |s| - 1 ==> s[1..][i] == s[i + 1];
      if s[0].Used? && s[0].data.key == key {
        assert forall i :: 0 <= i < |s| - 1 && s[1..][i].Used? ==> s[1..][i].data.key != key;
        LookupNone(s[1..], key, now);
        LookupNone(s[1..], key, later);
      } else {
        LookupLater(s[1..], key, now, later);
      }
    }
  }

  /** The set before and after every message of a run; time does not go back. */
  ghost predicate Run(sets: seq<seq<Entry>>, events: seq<Event>, lifetime: nat)
  {
    && |sets| == |events| + 1 && Unique(sets[0])
    && (forall i :: 0 <= i < |events| ==> Steps(sets[i], sets[i + 1], events[i], lifetime))
    && (forall i, j :: 0 <= i < j < |events| ==> events[i].now <= events[j].now)
  }

  /** A register for one key that forgets: what it holds after the events `i` to `n - 1`. */
  ghost function Register(start: Option<Data>, sets: seq<seq<Entry>>, events: seq<Event>, key: Key, lifetime: nat, i: nat, n: nat): Option<Data>
    requires i <= n <= |events| < |sets|
    decreases n
  {
    if n == i then start
    else
      var before, e := Register(start, sets, events, key, lifetime, i, n - 1), events[n - 1];
      if e.msg.key == key then Stored(Live(before, e.now), e.msg, e.now, lifetime, Room(sets[n - 1], e.now)) else before
  }

  /** Over every run the set is such a register for every key, whatever messages of other keys come between and whichever
      stale entries were cleared when. */
  lemma {:induction false} RunIsRegister(sets: seq<seq<Entry>>, events: seq<Event>, key: Key, lifetime: nat, i: nat, n: nat, start: int, now: int)
    requires Run(sets, events, lifetime) && i <= n <= |events| && start <= now
    requires i < n ==> start <= events[i].now && events[n - 1].now <= now
    ensures Lookup(sets[n], key, now) == Live(Register(Lookup(sets[i], key, start), sets, events, key, lifetime, i, n), now)
    decreases n
  {
    hide Lookup, Unique, Stored, Room;
    UniqueThroughout(sets, events, lifetime, n);
    if n == i {
      LookupLater(sets[i], key, start, now);
    } else {
      var e := events[n - 1];
      assert Steps(sets[n - 1], sets[n], e, lifetime) && events[i].now <= e.now && (i < n - 1 ==> events[n - 2].now <= e.now);
      RunIsRegister(sets, events, key, lifetime, i, n - 1, start, e.now);
      LookupLater(sets[n], key, e.now, now);
      StoredIsLive(Live(Register(Lookup(sets[i], key, start), sets, events, key, lifetime, i, n - 1), e.now), e.msg, e.now, lifetime, Room(sets[n - 1], e.now));
    }
  }

  lemma {:induction false} UniqueThroughout(sets: seq<seq<Entry>>, events: seq<Event>, lifetime: nat, n: nat)
    requires Run(sets, events, lifetime) && n <= |events|
    ensures Unique(sets[n])
  {
    if n > 0 {
      assert Steps(sets[n - 1], sets[n], events[n - 1], lifetime);
    }
  }

  lemma {:induction false} StoredIsLive(before: Option<Data>, msg: Msg, now: int, lifetime: nat, room: bool)
    ensures var after := Stored(before, msg, now, lifetime, room); Live(after, now) == after
  {
  }

  /** When the last message of a key came among the events `i` to `n - 1`; the first of them is one. */
  function LastTime(events: seq<Event>, key: Key, i: nat, n: nat): int
    requires i < n <= |events|
  {
    if n == i + 1 || events[n - 1].msg.key == key then events[n - 1].now else LastTime(events, key, i, n - 1)
  }

  /** No message of the key comes when what the one before left has been removed. */
  ghost predicate NoGap(events: seq<Event>, key: Key, lifetime: nat, i: nat, n: nat)
    requires i < n <= |events|
  {
    forall l :: i < l < n && events[l].msg.key == key ==> events[l].now <= LastTime(events, key, i, l) + lifetime
  }

  /** The register is empty or forgets when the lifetime has passed since the last message. */
  lemma {:induction false} RegisterForgets(start: Option<Data>, sets: seq<seq<Entry>>, events: seq<Event>, key: Key, lifetime: nat, i: nat, n: nat)
    requires i < n <= |events| < |sets| && events[i].msg.key == key
    ensures var d := Register(start, sets, events, key, lifetime, i, n); d.Some? ==> d.value.removal == LastTime(events, key, i, n) + lifetime
    decreases n
  {
    if n > i + 1 {
      RegisterForgets(start, sets, events, key, lifetime, i, n - 1);
    }
  }

  /** A message that comes too late finds nothing: it is taken in whatever its number. */
  lemma {:induction false} GapForgets(sets: seq<seq<Entry>>, events: seq<Event>, key: Key, lifetime: nat, i: nat, j: nat)
    requires Run(sets, events, lifetime) && i < j < |events| && events[i].msg.key == events[j].msg.key == key
    requires events[j].now > LastTime(events, key, i, j) + lifetime
    ensures Lookup(sets[j], key, events[j].now) == None
    ensures Lookup(sets[j + 1], key, events[j].now) == Stored(None, events[j].msg, events[j].now, lifetime, Room(sets[j], events[j].now))
  {
    hide Lookup, Stored, Room;
    RunIsRegister(sets, events, key, lifetime, i, j, events[i].now, events[j].now);
    RegisterForgets(Lookup(sets[i], key, events[i].now), sets, events, key, lifetime, i, j);
    assert Steps(sets[j], sets[j + 1], events[j], lifetime);
  }

  /** Whether a message is taken in: there is room for it, or what is stored does not make it redundant. */
  ghost predicate TakenIn(s: seq<Entry>, e: Event)
  {
    var before := Lookup(s, e.msg.key, e.now);
    if before.None? then Room(s, e.now) else !Redundant(before.value, e.msg)
  }

  /** What is stored is this message. */
  predicate Holds(d: Option<Data>, msg: Msg)
  {
    d.Some? && d.value.seqnum == msg.seqnum && d.value.metric == msg.metric
  }

  /** A message that is redundant while the other one is stored. */
  predicate Superseded(msg: Msg, other: Msg)
  {
    Compare(other.seqnum, msg.seqnum) < 0 || (Compare(other.seqnum, msg.seqnum) == 0 && other.metric == msg.metric)
  }

  /** Once taken in, a message stays stored while only redundant ones of its key come, and none too late. */
  lemma {:induction false} StaysStored(sets: seq<seq<Entry>>, events: seq<Event>, lifetime: nat, i: nat, n: nat)
    requires Run(sets, events, lifetime) && i < n <= |events| && TakenIn(sets[i], events[i])
    requires NoGap(events, events[i].msg.key, lifetime, i, n)
    requires forall l :: i < l < n && events[l].msg.key == events[i].msg.key ==> Superseded(events[l].msg, events[i].msg)
    ensures var e := events[i]; Holds(Register(Lookup(sets[i], e.msg.key, e.now), sets, events, e.msg.key, lifetime, i, n), e.msg)
    decreases n
  {
    hide Lookup, Room, Compare;
    var e := events[i];
    var start := Lookup(sets[i], e.msg.key, e.now);
    if n == i + 1 {
      assert Register(start, sets, events, e.msg.key, lifetime, i, i) == start;
      LookupIsLive(sets[i], e.msg.key, e.now);
    } else {
      StaysStored(sets, events, lifetime, i, n - 1);
      RegisterForgets(start, sets, events, e.msg.key, lifetime, i, n - 1);
    }
  }

  lemma {:induction false} LookupIsLive(s: seq<Entry>, key: Key, now: int)
    ensures Live(Lookup(s, key, now), now) == Lookup(s, key, now)
  {
    if s != [] {
      LookupIsLive(s[1..], key, now);
    }
  }

  /** Repeating a message that was taken in is redundant until it would have been removed, whatever messages of other keys
      and redundant ones of its own come between; only the timing changes. */
  lemma {:induction false} RepetitionIsRedundant(sets: seq<seq<Entry>>, events: seq<Event>, lifetime: nat, i: nat, j: nat)
    requires Run(sets, events, lifetime) && i < j < |events| && TakenIn(sets[i], events[i]) && events[j].msg == events[i].msg
    requires NoGap(events, events[i].msg.key, lifetime, i, j + 1)
    requires forall l :: i < l < j && events[l].msg.key == events[i].msg.key ==> Superseded(events[l].msg, events[i].msg)
    ensures var msg, now := events[j].msg, events[j].now;
            var d := Lookup(sets[j], msg.key, now);
            && Holds(d, msg) && Redundant(d.value, msg)
            && Lookup(sets[j + 1], msg.key, now) == Some(d.value.(timestamp := now, removal := now + lifetime))
  {
    hide Lookup, Room, Superseded, TakenIn, Register;
    var e := events[i];
    var start := Lookup(sets[i], e.msg.key, e.now);
    assert Compare(e.msg.seqnum, e.msg.seqnum) == 0;
    assert Steps(sets[j], sets[j + 1], events[j], lifetime) && events[i].now <= events[j].now && events[j - 1].now <= events[j].now;
    hide Compare, Steps;
    StaysStored(sets, events, lifetime, i, j);
    RegisterForgets(start, sets, events, e.msg.key, lifetime, i, j);
    assert events[j].now <= LastTime(events, e.msg.key, i, j) + lifetime;
    hide NoGap, LastTime;
    RunIsRegister(sets, events, e.msg.key, lifetime, i, j, e.now, events[j].now);
  }

  /** The messages of a key among the events `i` to `n - 1` have numbers within half the range from `base` on. */
  ghost predicate Near(events: seq<Event>, key: Key, base: u16, i: nat, n: nat)
    requires n <= |events|
  {
    forall l :: i <= l < n && events[l].msg.key == key ==> Ahead(base, events[l].msg.seqnum) < 32768
  }

  /** The number is as far ahead as any that came. */
  ghost predicate Newest(d: Option<Data>, events: seq<Event>, key: Key, base: u16, i: nat, n: nat)
    requires n <= |events|
  {
    && d.Some? && Ahead(base, d.value.seqnum) < 32768
    && forall l :: i <= l < n && events[l].msg.key == key ==> Ahead(base, events[l].msg.seqnum) <= Ahead(base, d.value.seqnum)
  }

  /** Number and metric are those of the last message with that number, or if none came with it those stored at the start. */
  ghost predicate Seen(d: Option<Data>, start: Option<Data>, events: seq<Event>, key: Key, i: nat, n: nat)
    requires n <= |events|
  {
    d.Some? && if exists l :: Carries(events, key, d.value.seqnum, l, i, n)
               then exists l :: LastWith(events, key, d.value.seqnum, l, i, n) && events[l].msg.metric == d.value.metric
               else start.Some? && start.value.seqnum == d.value.seqnum && start.value.metric == d.value.metric
  }

  /** Event `l` has a message of the key with this number. */
  ghost predicate Carries(events: seq<Event>, key: Key, seqnum: u16, l: int, i: nat, n: nat)
    requires n <= |events|
  {
    i <= l < n && events[l].msg.key == key && events[l].msg.seqnum == seqnum
  }

  ghost predicate LastWith(events: seq<Event>, key: Key, seqnum: u16, l: int, i: nat, n: nat)
    requires n <= |events|
  {
    Carries(events, key, seqnum, l, i, n) && forall m :: l < m < n ==> !Carries(events, key, seqnum, m, i, n)
  }

  /** One event of another key, or one that is superseded. */
  lemma {:induction false} SeenStays(before: Option<Data>, after: Option<Data>, start: Option<Data>, events: seq<Event>, key: Key, i: nat, n: nat)
    requires i < n <= |events| && before.Some? && after.Some? && after.value.seqnum == before.value.seqnum && after.value.metric == before.value.metric
    requires events[n - 1].msg.key == key ==> events[n - 1].msg.seqnum != after.value.seqnum
    requires Seen(before, start, events, key, i, n - 1)
    ensures Seen(after, start, events, key, i, n)
  {
    var number := after.value.seqnum;
    var k: nat := n - 1;
    if l :| Carries(events, key, number, l, i, n) {
      assert events[l].msg.key == key && events[l].msg.seqnum == number;
      assert l != k;
      assert Carries(events, key, number, l, i, k);
      var m :| LastWith(events, key, number, m, i, k) && events[m].msg.metric == before.value.metric;
      forall x | m < x < n
        ensures !Carries(events, key, number, x, i, n)
      {
        assert x < k ==> !Carries(events, key, number, x, i, k);
      }
      assert LastWith(events, key, number, m, i, n);
    } else if l :| Carries(events, key, number, l, i, k) {
      assert Carries(events, key, number, l, i, n);
    }
  }

  /** The last event is the one that is stored. */
  lemma {:induction false} SeenNow(after: Option<Data>, start: Option<Data>, events: seq<Event>, key: Key, i: nat, n: nat)
    requires i < n <= |events| && after.Some? && events[n - 1].msg.key == key
    requires events[n - 1].msg.seqnum == after.value.seqnum && events[n - 1].msg.metric == after.value.metric
    ensures Seen(after, start, events, key, i, n)
  {
    assert LastWith(events, key, after.value.seqnum, n - 1, i, n);
  }

  lemma {:induction false} SeenStart(start: Option<Data>, events: seq<Event>, key: Key, i: nat)
    requires i <= |events| && start.Some?
    ensures Seen(start, start, events, key, i, i)
  {
  }

  /** What is newest stays so with what is stored of one message more. */
  lemma {:induction false} NewestMore(before: Option<Data>, after: Option<Data>, events: seq<Event>, key: Key, base: u16, i: nat, n: nat)
    requires i < n <= |events| && after.Some? && Ahead(base, after.value.seqnum) < 32768
    requires n == i + 1 || (Newest(before, events, key, base, i, n - 1) && Ahead(base, before.value.seqnum) <= Ahead(base, after.value.seqnum))
    requires events[n - 1].msg.key == key ==> Ahead(base, events[n - 1].msg.seqnum) <= Ahead(base, after.value.seqnum)
    ensures Newest(after, events, key, base, i, n)
  {
    hide Ahead;
  }

  lemma {:induction false} RegisterIsNewest(start: Option<Data>, sets: seq<seq<Entry>>, events: seq<Event>, key: Key, lifetime: nat, base: u16, i: nat, n: nat)
    requires i < n <= |events| < |sets| && events[i].msg.key == key && Near(events, key, base, i, n) && NoGap(events, key, lifetime, i, n)
    requires Live(start, events[i].now) == start && if start.Some? then Ahead(base, start.value.seqnum) < 32768 else Room(sets[i], events[i].now)
    ensures var d := Register(start, sets, events, key, lifetime, i, n); Newest(d, events, key, base, i, n) && Seen(d, start, events, key, i, n)
    decreases n
  {
    var e, before := events[n - 1], Register(start, sets, events, key, lifetime, i, n - 1);
    if n > i + 1 {
      RegisterIsNewest(start, sets, events, key, lifetime, base, i, n - 1);
      RegisterForgets(start, sets, events, key, lifetime, i, n - 1);
      NewestIsSome(before, events, key, base, i, n - 1);
    }
    assert e.msg.key == key ==> Live(before, e.now) == before;
    var after := Register(start, sets, events, key, lifetime, i, n);
    hide Ahead, Compare, Room, Redundant, LastTime, Newest, Seen, Register, Carries;
    if e.msg.key == key && before.Some? {
      StoresNewer(before.value, e, lifetime, Room(sets[n - 1], e.now), base);
    }
    NewestMore(before, after, events, key, base, i, n);
    if n == i + 1 && start.Some? {
      SeenStart(start, events, key, i);
    }
    if e.msg.key == key && after.value.seqnum == e.msg.seqnum && after.value.metric == e.msg.metric {
      SeenNow(after, start, events, key, i, n);
    } else {
      SeenStays(before, after, start, events, key, i, n);
    }
  }

  lemma {:induction false} NewestIsSome(d: Option<Data>, events: seq<Event>, key: Key, base: u16, i: nat, n: nat)
    requires n <= |events| && Newest(d, events, key, base, i, n)
    ensures d.Some? && Ahead(base, d.value.seqnum) < 32768
  {
  }

  /** Of the number stored and that of a message, the one further ahead is stored. */
  lemma {:induction false} StoresNewer(d: Data, e: Event, lifetime: nat, room: bool, base: u16)
    requires Ahead(base, d.seqnum) < 32768 && Ahead(base, e.msg.seqnum) < 32768
    ensures var after := Stored(Some(d), e.msg, e.now, lifetime, room);
            && after.Some?
            && ((after.value.seqnum == e.msg.seqnum && after.value.metric == e.msg.metric)
                || (after.value.seqnum == d.seqnum != e.msg.seqnum && after.value.metric == d.metric))
            && Ahead(base, d.seqnum) <= Ahead(base, after.value.seqnum) && Ahead(base, e.msg.seqnum) <= Ahead(base, after.value.seqnum)
  {
    NewerIsAhead(base, d.seqnum, e.msg.seqnum);
  }

  /** Over every run in which no message of a key comes too late, the newest number seen is the one stored, whatever the
      order in which they came: until it is removed. */
  lemma {:induction false} NewestIsStored(sets: seq<seq<Entry>>, events: seq<Event>, key: Key, lifetime: nat, base: u16, i: nat, n: nat, now: int)
    requires Run(sets, events, lifetime) && i < n <= |events| && events[i].msg.key == key
    requires Near(events, key, base, i, n) && NoGap(events, key, lifetime, i, n)
    requires var start := Lookup(sets[i], key, events[i].now);
             if start.Some? then Ahead(base, start.value.seqnum) < 32768 else Room(sets[i], events[i].now)
    requires events[n - 1].now <= now
    ensures var d := Lookup(sets[n], key, now);
            if now <= LastTime(events, key, i, n) + lifetime
            then Newest(d, events, key, base, i, n) && Seen(d, Lookup(sets[i], key, events[i].now), events, key, i, n)
            else d == None
  {
    hide Room, Lookup, Newest, Seen, Near, NoGap, Ahead;
    var start := Lookup(sets[i], key, events[i].now);
    LookupIsLive(sets[i], key, events[i].now);
    RegisterIsNewest(start, sets, events, key, lifetime, base, i, n);
    RegisterForgets(start, sets, events, key, lifetime, i, n);
    RunIsRegister(sets, events, key, lifetime, i, n, events[i].now, now);
    var d := Register(start, sets, events, key, lifetime, i, n);
    NewestIsSome(d, events, key, base, i, n);
  }
}
