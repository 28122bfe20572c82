/** Sequences with one element more or less, and the concatenation of a sequence of sequences. */
module Seqs {

  function Inserted<T>(s: seq<T>, k: int, x: T): seq<T>
    requires 0 <= k <= |s|
  {
    s[..k] + [x] + s[k..]
  }

  function Without<T>(s: seq<T>, k: int): seq<T>
    requires 0 <= k < |s|
  {
    s[..k] + s[k + 1..]
  }

  function Flatten<T>(g: seq<seq<T>>): seq<T>
  {
    if g == [] then [] else g[0] + Flatten(g[1..])
  }

  lemma {:induction false} FlattenConcat<T>(a: seq<seq<T>>, b: seq<seq<T>>)
    ensures Flatten(a + b) == Flatten(a) + Flatten(b)
  {
    if a == [] {
      assert a + b == b;
    } else {
      assert (a + b)[1..] == a[1..] + b;
      FlattenConcat(a[1..], b);
    }
  }

  /** The index in `Flatten(g)` of the first element of group `i`. */
  function Offset<T>(g: seq<seq<T>>, i: int): int
    requires 0 <= i <= |g|
  {
    |Flatten(g[..i])|
  }

  lemma FlattenSplit<T>(g: seq<seq<T>>, i: int)
    requires 0 <= i < |g|
    ensures Flatten(g) == Flatten(g[..i]) + g[i] + Flatten(g[i + 1..])
    ensures Offset(g, i + 1) == Offset(g, i) + |g[i]| <= |Flatten(g)|
  {
    FlattenTail(g, i);
    FlattenHead(g, i);
  }

  lemma FlattenTail<T>(g: seq<seq<T>>, i: int)
    requires 0 <= i < |g|
    ensures Flatten(g) == Flatten(g[..i]) + g[i] + Flatten(g[i + 1..])
  {
    var head, rest := g[..i], g[i..];
    FlattenConcat(head, rest);
    assert Flatten(g) == Flatten(head) + Flatten(rest) by {
      assert g == head + rest;
    }
    FlattenFirst(g, i);
    Associates(Flatten(head), g[i], Flatten(g[i + 1..]));
  }

  lemma FlattenFirst<T>(g: seq<seq<T>>, i: int)
    requires 0 <= i < |g|
    ensures Flatten(g[i..]) == g[i] + Flatten(g[i + 1..])
  {
    assert g[i..][1..] == g[i + 1..];
  }

  lemma Associates<T>(a: seq<T>, b: seq<T>, c: seq<T>)
    ensures a + (b + c) == a + b + c
  {
  }

  lemma FlattenHead<T>(g: seq<seq<T>>, i: int)
    requires 0 <= i < |g|
    ensures Flatten(g[..i + 1]) == Flatten(g[..i]) + g[i]
  {
    var one := [g[i]];
    FlattenConcat(g[..i], one);
    assert g[..i + 1] == g[..i] + one;
    assert one[1..] == [];
    assert Flatten(one) == g[i];
  }

  lemma FlattenAt<T>(g: seq<seq<T>>, i: int, j: int)
    requires 0 <= i < |g| && 0 <= j < |g[i]|
    ensures 0 <= Offset(g, i) + j < |Flatten(g)| && Flatten(g)[Offset(g, i) + j] == g[i][j]
  {
    FlattenSplit(g, i);
  }

  /** Every element of the concatenation comes from a group. */
  lemma {:induction false} Locate<T>(g: seq<seq<T>>, k: int) returns (i: int, j: int)
    requires 0 <= k < |Flatten(g)|
    ensures 0 <= i < |g| && 0 <= j < |g[i]| && k == Offset(g, i) + j && Flatten(g)[k] == g[i][j]
  {
    if k < |g[0]| {
      i, j := 0, k;
    } else {
      i, j := Locate(g[1..], k - |g[0]|);
      assert g[..i + 1] == [g[0]] + g[1..][..i];
      FlattenConcat([g[0]], g[1..][..i]);
      assert Flatten([g[0]]) == g[0];
      i := i + 1;
    }
  }

  lemma FlattenReplaced<T>(g: seq<seq<T>>, i: int, h: seq<T>)
    requires 0 <= i < |g|
    ensures Flatten(g[i := h]) == Flatten(g[..i]) + h + Flatten(g[i + 1..])
  {
    var u := g[i := h];
    FlattenSplit(u, i);
    assert u[..i] == g[..i] && u[i + 1..] == g[i + 1..];
  }

  lemma FlattenNewGroup<T>(g: seq<seq<T>>, i: int, x: T)
    requires 0 <= i <= |g|
    ensures Offset(g, i) <= |Flatten(g)|
    ensures Flatten(Inserted(g, i, [x])) == Inserted(Flatten(g), Offset(g, i), x)
  {
    FlattenConcat(g[..i], g[i..]);
    assert g == g[..i] + g[i..];
    FlattenConcat(g[..i] + [[x]], g[i..]);
    FlattenConcat(g[..i], [[x]]);
    assert Flatten([[x]]) == [x] + Flatten([[x]][1..]);
  }

  lemma FlattenGrownGroup<T>(g: seq<seq<T>>, i: int, j: int, x: T)
    requires 0 <= i < |g| && 0 <= j <= |g[i]|
    ensures Offset(g, i) + j <= |Flatten(g)|
    ensures Flatten(g[i := Inserted(g[i], j, x)]) == Inserted(Flatten(g), Offset(g, i) + j, x)
  {
    FlattenSplit(g, i);
    FlattenReplaced(g, i, Inserted(g[i], j, x));
    var a, c := Flatten(g[..i]), Flatten(g[i + 1..]);
    InsertedBetween(a, g[i], c, j, x);
  }

  lemma InsertedBetween<T>(a: seq<T>, b: seq<T>, c: seq<T>, j: int, x: T)
    requires 0 <= j <= |b|
    ensures Inserted(a + b + c, |a| + j, x) == a + Inserted(b, j, x) + c
  {
  }

  lemma FlattenShrunkGroup<T>(g: seq<seq<T>>, i: int, j: int)
    requires 0 <= i < |g| && 0 <= j < |g[i]|
    ensures Offset(g, i) + j < |Flatten(g)|
    ensures Flatten(g[i := Without(g[i], j)]) == Without(Flatten(g), Offset(g, i) + j)
  {
    FlattenSplit(g, i);
    FlattenReplaced(g, i, Without(g[i], j));
  }

  lemma FlattenLostGroup<T>(g: seq<seq<T>>, i: int)
    requires 0 <= i < |g| && |g[i]| == 1
    ensures Offset(g, i) < |Flatten(g)|
    ensures Flatten(Without(g, i)) == Without(Flatten(g), Offset(g, i))
  {
    FlattenSplit(g, i);
    FlattenConcat(g[..i], g[i + 1..]);
  }

  lemma {:induction false} OffsetGrows<T>(g: seq<seq<T>>, i: int, j: int)
    requires 0 <= i <= j <= |g|
    ensures Offset(g, i) <= Offset(g, j)
    decreases j - i
  {
    if i < j {
      FlattenSplit(g, i);
      OffsetGrows(g, i + 1, j);
    }
  }

  lemma {:induction false} FlattenLength<T>(values: seq<seq<T>>, k: nat)
    requires forall i :: 0 <= i < |values| ==> |values[i]| == k
    ensures |Flatten(values)| == k * |values|
  {
    if values != [] {
      FlattenLength(values[1..], k);
    }
  }

  lemma SliceOfFlattened<T>(values: seq<seq<T>>, i: nat, length: nat)
    requires i < |values| && forall j :: 0 <= j < |values| ==> |values[j]| == length
    ensures 0 <= i * length && i * length + length <= |Flatten(values)| && Flatten(values)[i * length..i * length + length] == values[i]
  {
    FlattenSplit(values, i);
    FlattenLength(values[..i], length);
  }

  lemma SliceOfSlice<T>(buf: seq<T>, lo: nat, hi: nat, from: nat, n: nat)
    requires lo <= hi <= |buf| && from + n <= hi - lo
    ensures buf[lo..hi][from..from + n] == buf[lo + from..lo + from + n]
  {
    var s := buf[lo..hi];
    assert forall i :: from <= i < from + n ==> s[i] == buf[lo + i];
  }

  /** `s` without the first occurrence of `x`. */
  ghost function Minus<T>(s: seq<T>, x: T): seq<T>
  {
    if s == [] then [] else if s[0] == x then s[1..] else [s[0]] + Minus(s[1..], x)
  }

  lemma {:induction false} MinusAt<T>(s: seq<T>, k: int)
    requires 0 <= k < |s| && forall i :: 0 <= i < k ==> s[i] != s[k]
    ensures Minus(s, s[k]) == Without(s, k)
  {
    if k > 0 {
      assert s[1..][k - 1] == s[k];
      MinusAt(s[1..], k - 1);
      assert Without(s, k) == [s[0]] + Without(s[1..], k - 1);
    }
  }

  /** `g` without `x`; a group that becomes empty disappears. */
  ghost function Removed<T>(g: seq<seq<T>>, x: T): seq<seq<T>>
  {
    if g == [] then []
    else if x !in g[0] then [g[0]] + Removed(g[1..], x)
    else if |g[0]| == 1 then g[1..]
    else [Minus(g[0], x)] + g[1..]
  }

  lemma {:induction false} RemovedAt<T>(g: seq<seq<T>>, i: int, j: int)
    requires 0 <= i < |g| && 0 <= j < |g[i]|
    requires forall m :: 0 <= m < i ==> g[i][j] !in g[m]
    requires forall m :: 0 <= m < j ==> g[i][m] != g[i][j]
    ensures Removed(g, g[i][j]) == if |g[i]| == 1 then Without(g, i) else g[i := Without(g[i], j)]
  {
    if i == 0 {
      MinusAt(g[0], j);
    } else {
      assert g[1..][i - 1] == g[i];
      assert forall m :: 0 <= m < i - 1 ==> g[1..][m] == g[m + 1];
      RemovedAt(g[1..], i - 1, j);
      hide Minus;
      assert g[i := Without(g[i], j)] == [g[0]] + g[1..][i - 1 := Without(g[i], j)];
      assert Without(g, i) == [g[0]] + Without(g[1..], i - 1);
    }
  }
}
