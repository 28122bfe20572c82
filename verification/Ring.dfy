/** Nodes of the AVL tree as members of the doubly linked ring of the OONF list library. */
module Ring {
  import opened Seqs

  class AvlNode {
    const key: int
    var next: AvlNode?
    var prev: AvlNode?
    var parent: AvlNode?
    var left: AvlNode?
    var right: AvlNode?
    var balance: int
    var follower: bool

    // Index of the node in key order, the index range of its subtree and the height of its subtree.
    ghost var pos: int
    ghost var lo: int
    ghost var hi: int
    ghost var ht: int

    constructor (key: int)
      ensures this.key == key && next == null && prev == null
    {
      this.key := key;
      next, prev, parent, left, right := null, null, null, null, null;
      balance, follower := 0, false;
    }
  }

  /** The element at index `i` of the ring `r`; the head is in front of the first and behind the last. */
  function At(head: AvlNode, r: seq<AvlNode>, i: int): AvlNode
  {
    if 0 <= i < |r| then r[i] else head
  }

  ghost predicate Distinct(head: AvlNode, r: seq<AvlNode>) {
    head !in r && forall i, j :: 0 <= i < j < |r| ==> r[i] != r[j]
  }

  ghost predicate Joined(a: AvlNode, b: AvlNode)
    reads a, b
  {
    a.next == b && b.prev == a
  }

  /** Element `i - 1` and element `i` point at each other. */
  ghost predicate Edge(head: AvlNode, r: seq<AvlNode>, i: int)
    reads head, r
    requires 0 <= i <= |r|
  {
    Joined(At(head, r, i - 1), At(head, r, i))
  }

  /** Starting from `head`, the forward links spell `r` and the backward links spell it reversed. */
  ghost predicate Rings(head: AvlNode, r: seq<AvlNode>)
    reads head, r
  {
    Distinct(head, r) && forall i {:trigger Edge(head, r, i)} :: 0 <= i <= |r| ==> Edge(head, r, i)
  }

  lemma InsertedAt(head: AvlNode, r: seq<AvlNode>, k: int, x: AvlNode, i: int)
    requires 0 <= k <= |r| && -1 <= i <= |r| + 1
    ensures At(head, Inserted(r, k, x), i) == if i < k then At(head, r, i) else if i == k then x else At(head, r, i - 1)
  {
  }

  lemma InsertedDistinct(head: AvlNode, r: seq<AvlNode>, k: int, x: AvlNode)
    requires Distinct(head, r) && 0 <= k <= |r| && x !in r && x != head
    ensures Distinct(head, Inserted(r, k, x))
  {
    var s := Inserted(r, k, x);
    forall i, j | 0 <= i < j < |s|
      ensures s[i] != s[j]
    {
      InsertedAt(head, r, k, x, i);
      InsertedAt(head, r, k, x, j);
    }
  }

  /** Two places of a ring hold the same element only if they are the two places of the head. */
  lemma Places(head: AvlNode, r: seq<AvlNode>, i: int, j: int)
    requires Distinct(head, r) && -1 <= i < j <= |r|
    ensures At(head, r, i) == At(head, r, j) <==> i == -1 && j == |r|
  {
  }

  lemma Neighbours(head: AvlNode, r: seq<AvlNode>, k: int)
    requires Rings(head, r) && 0 <= k < |r|
    ensures head.next == r[k] <==> k == 0
    ensures head.prev == r[k] <==> k == |r| - 1
    ensures k > 0 ==> r[k].prev == r[k - 1]
    ensures k < |r| - 1 ==> r[k].next == r[k + 1]
  {
    assert Edge(head, r, 0) && Edge(head, r, |r|) && Edge(head, r, k) && Edge(head, r, k + 1);
  }

  method ListAdd(prev: AvlNode, next: AvlNode, node: AvlNode, ghost head: AvlNode, ghost r: seq<AvlNode>, ghost k: int)
    requires Rings(head, r) && 0 <= k <= |r| && prev == At(head, r, k - 1) && next == At(head, r, k)
    requires node !in r && node != head
    modifies prev`next, next`prev, node`next, node`prev
    ensures Rings(head, Inserted(r, k, node))
  {
    node.next := next;
    node.prev := prev;
    next.prev := node;
    prev.next := node;
    InsertedDistinct(head, r, k, node);
    forall i | 0 <= i <= |r| + 1
      ensures Edge(head, Inserted(r, k, node), i)
    {
      InsertedAt(head, r, k, node, i - 1);
      InsertedAt(head, r, k, node, i);
      if i < k {
        assert old(Edge(head, r, i));
        Places(head, r, i - 1, k - 1);
        Places(head, r, i, k);
      } else if i > k + 1 {
        assert old(Edge(head, r, i - 1));
        Places(head, r, k - 1, i - 2);
        Places(head, r, k, i - 1);
      }
    }
  }

  method AddBefore(before: AvlNode, node: AvlNode, ghost head: AvlNode, ghost r: seq<AvlNode>, ghost k: int)
    requires Rings(head, r) && 0 <= k <= |r| && before == At(head, r, k)
    requires node !in r && node != head
    modifies head`next, r`next, before`prev, node`next, node`prev
    ensures Rings(head, Inserted(r, k, node))
  {
    assert Edge(head, r, k);
    ListAdd(before.prev, before, node, head, r, k);
  }

  method AddAfter(after: AvlNode, node: AvlNode, ghost head: AvlNode, ghost r: seq<AvlNode>, ghost k: int)
    requires Rings(head, r) && 0 <= k <= |r| && after == At(head, r, k - 1)
    requires node !in r && node != head
    modifies head`prev, r`prev, after`next, node`next, node`prev
    ensures Rings(head, Inserted(r, k, node))
  {
    assert Edge(head, r, k);
    ListAdd(after, after.next, node, head, r, k);
  }

  lemma WithoutAt(head: AvlNode, r: seq<AvlNode>, k: int, i: int)
    requires 0 <= k < |r| && -1 <= i < |r|
    ensures At(head, Without(r, k), i) == if i < k then At(head, r, i) else At(head, r, i + 1)
  {
  }

  lemma WithoutDistinct(head: AvlNode, r: seq<AvlNode>, k: int)
    requires Distinct(head, r) && 0 <= k < |r|
    ensures Distinct(head, Without(r, k)) && r[k] !in Without(r, k)
  {
    var s := Without(r, k);
    forall i, j | 0 <= i < j < |s|
      ensures s[i] != s[j]
    {
      WithoutAt(head, r, k, i);
      WithoutAt(head, r, k, j);
    }
  }

  method ListRemove(entity: AvlNode, ghost head: AvlNode, ghost r: seq<AvlNode>, ghost k: int)
    requires Rings(head, r) && 0 <= k < |r| && entity == r[k]
    modifies head`next, head`prev, r`next, r`prev
    ensures Rings(head, Without(r, k)) && entity.next == null && entity.prev == null
  {
    assert Edge(head, r, k) && Edge(head, r, k + 1);
    entity.prev.next := entity.next;
    entity.next.prev := entity.prev;
    entity.next, entity.prev := null, null;
    WithoutDistinct(head, r, k);
    forall i | 0 <= i < |r|
      ensures Edge(head, Without(r, k), i)
    {
      WithoutAt(head, r, k, i - 1);
      WithoutAt(head, r, k, i);
      if i < k {
        assert old(Edge(head, r, i));
        Places(head, r, i - 1, k - 1);
        Places(head, r, i, k + 1);
      } else if i > k {
        assert old(Edge(head, r, i + 1));
        Places(head, r, k - 1, i);
        Places(head, r, k + 1, i + 1);
      }
    }
  }

  /** Appends the ring of `from` to the ring of `to` and leaves `from` empty. */
  method ListMerge(to: AvlNode, from: AvlNode, ghost r: seq<AvlNode>, ghost s: seq<AvlNode>)
    requires Rings(to, r) && Rings(from, s) && to != from && to !in s && from !in r
    requires forall x :: x in r ==> x !in s
    modifies to`prev, to`next, r`next, s`prev, s`next, from`next, from`prev
    ensures Rings(to, r + s) && Rings(from, [])
  {
    assert Edge(from, s, 0) && Edge(from, s, |s|) && Edge(to, r, |r|);
    if from.next == from && from.prev == from {
      assert s == [];
      assert r + s == r;
      return;
    }
    to.prev.next := from.next;
    from.next.prev := to.prev;
    to.prev := from.prev;
    from.prev.next := to;
    from.next, from.prev := from, from;
    forall i, j | 0 <= i < j < |r + s|
      ensures (r + s)[i] != (r + s)[j]
    {
      if i < |r| <= j {
        assert r[i] in r && s[j - |r|] in s;
      }
    }
    forall i | 0 <= i <= |r + s|
      ensures Edge(to, r + s, i)
    {
      if i < |r| {
        assert old(Edge(to, r, i));
        Places(to, r, i - 1, |r| - 1);
        Places(to, r, i, |r|);
      } else if i > |r| {
        assert old(Edge(from, s, i - |r|));
        Places(from, s, -1, i - |r| - 1);
        Places(from, s, 0, i - |r|);
      }
    }
    assert Edge(from, [], 0);
  }
}
