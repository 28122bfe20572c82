/** Sequence numbers of 16 bits: the comparisons of RFC 5444 and of AODVv2, and AODVv2's own counter. */
module SeqNums {

  type u16 = n: int | 0 <= n < 65536

  /** The value a 16-bit signed integer takes from `n`. */
  function Int16(n: int): (r: int)
    ensures -32768 <= r < 32768 && (r - n) % 65536 == 0
  {
    (n + 32768) % 65536 - 32768
  }

  /** Positive if `received` is newer than `existing`. */
  function Compare(existing: u16, received: u16): int
  {
    Int16(received - existing)
  }

  predicate IsLarger(s1: u16, s2: u16)
  {
    (s1 > s2 && s1 - s2 < 32768) || (s2 > s1 && s2 - s1 > 32768)
  }

  predicate IsSmaller(s1: u16, s2: u16)
  {
    s1 != s2 && !IsLarger(s1, s2)
  }

  function Difference(s1: u16, s2: u16): int
  {
    var diff := s1 - s2;
    if diff > 32768 then diff - 65536
    else if diff < -32768 then diff + 65536
    else diff
  }

  /** The three notions of "newer" are one: less than half the range ahead. */
  lemma NewerIsOne(s1: u16, s2: u16)
    ensures Compare(s2, s1) > 0 <==> IsLarger(s1, s2)
    ensures IsLarger(s1, s2) <==> 0 < Difference(s1, s2) < 32768
    ensures IsLarger(s1, s2) <==> 0 < (s1 - s2) % 65536 < 32768
  {
  }

  /** Of two different numbers exactly one is newer, unless they are half the range apart: then neither is, and each
      counts as smaller. */
  lemma HalfTheRange(s1: u16, s2: u16)
    requires s1 != s2
    ensures !IsLarger(s1, s2) && !IsLarger(s2, s1) <==> (s1 - s2) % 65536 == 32768
    ensures IsSmaller(s1, s2) && IsSmaller(s2, s1) <==> (s1 - s2) % 65536 == 32768
    ensures !(IsLarger(s1, s2) && IsLarger(s2, s1))
  {
  }

  // ---------- the counter ----------

  /** The counter after `k` increments. */
  function After(v: u16, k: nat): u16
    requires v != 0
    ensures After(v, k) != 0
  {
    if k == 0 then v
    else
      var before := After(v, k - 1);
      if before >= 65535 then 1 else before + 1
  }

  class Counter {
    var seqnum: int

    ghost predicate Valid()
      reads this
    {
      1 <= seqnum <= 65535
    }

    constructor ()
      ensures Valid() && seqnum == 1
    {
      seqnum := 1;
    }

    /** Adds one and starts again at 1 behind 65535. */
    method Increment()
      requires Valid()
      modifies this
      ensures Valid() && seqnum == After(old(seqnum), 1)
    {
      var before := seqnum;
      seqnum := seqnum + 1;
      if before >= 65535 {
        seqnum := 1;
      }
      assert After(before, 0) == before;
    }
  }

  lemma {:induction false} AfterIs(v: u16, k: nat)
    requires v != 0
    ensures After(v, k) == (v - 1 + k) % 65535 + 1
  {
    if k > 0 {
      AfterIs(v, k - 1);
    }
  }

  /** How far the counter is ahead, counted around: a wrap skips 0. */
  lemma AheadBy(v: u16, k: nat)
    requires v != 0 && k < 65535
    ensures (After(v, k) - v) % 65536 == if v + k <= 65535 then k else k + 1
  {
    AfterIs(v, k);
  }

  /** After 1 to 32766 increments the counter is newer wherever it started, across the wrap too; for no other number of
      increments in a round is that so. */
  lemma NewerAfter(k: nat)
    requires k < 65535
    ensures (1 <= k <= 32766) <==> forall v: u16 :: v != 0 ==> Compare(v, After(v, k)) > 0
  {
    if 1 <= k <= 32766 {
      forall v: u16 | v != 0
        ensures Compare(v, After(v, k)) > 0
      {
        AheadBy(v, k);
        NewerIsOne(After(v, k), v);
      }
    } else if k == 0 {
      assert Compare(1, After(1, 0)) == 0;
    } else {
      AheadBy(65535, k);
      NewerIsOne(After(65535, k), 65535);
      assert !(Compare(65535, After(65535, k)) > 0);
    }
  }
}
