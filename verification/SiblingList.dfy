/** The children of a cJSON array or object: a list with links forward and back whose head knows the tail. */
module SiblingList {
  import opened Seqs

  /** The item at an index, the null pointer if there is none. */
  function Nth(items: seq<Item>, i: int): Item?
  {
    if 0 <= i < |items| then items[i] else null
  }

  class Item {
    var next: Item?
    var prev: Item?
    var child: Item?
    /** The children, in order. */
    ghost var items: seq<Item>

    constructor ()
      ensures next == null && prev == null && child == null && items == [] && Valid()
    {
      next, prev, child, items := null, null, null, [];
    }

    ghost predicate Distinct()
      reads this
    {
      forall i, j :: 0 <= i < j < |items| ==> items[i] != items[j]
    }

    /** The links of the `i`-th child. */
    ghost predicate Linked(i: int)
      reads this, items
    {
      0 <= i < |items| ==> items[i].next == Nth(items, i + 1) && (i > 0 ==> items[i].prev == items[i - 1])
    }

    /** The links spell the children; the link back of the first one is null or leads to the last. */
    ghost predicate Valid()
      reads this, items
    {
      && Distinct() && this !in items && child == Nth(items, 0)
      && (forall i {:trigger Linked(i)} :: Linked(i))
      && (items != [] ==> items[0].prev == null || items[0].prev == items[|items| - 1])
    }

    /** The first child knows the last one. */
    ghost predicate Cached()
      requires Valid()
      reads this, items
    {
      items != [] ==> items[0].prev == items[|items| - 1]
    }

    method GetArraySize() returns (size: nat)
      requires Valid()
      ensures size == |items|
    {
      size := 0;
      var c := child;
      while c != null
        invariant size <= |items| && c == Nth(items, size)
        decreases |items| - size
      {
        assert Linked(size);
        size := size + 1;
        c := c.next;
      }
    }

    method GetArrayItem(index: nat) returns (item: Item?)
      requires Valid()
      ensures item == Nth(items, index)
    {
      item := child;
      var left := index;
      while item != null && left > 0
        invariant 0 <= left <= index && item == Nth(items, index - left)
      {
        assert Linked(index - left);
        left := left - 1;
        item := item.next;
      }
    }

    /** Appends an item that is in no list. */
    method AddItemToArray(item: Item) returns (ok: bool)
      requires Valid() && item !in items && (items != [] ==> item.next == null)
      modifies this`child, this`items, items, item
      ensures ok == (item != this)
      ensures ok ==> Valid() && Cached() && items == old(items) + [item]
      ensures !ok ==> Valid() && items == old(items)
    {
      if item == this {
        return false;
      }
      if child == null {
        child := item;
        item.prev, item.next := item, null;
        items := [item];
      } else {
        var last := child;
        if child.prev != null {
          last := child.prev;
        } else {
          last := WalkToLast();
        }
        SuffixObject(last, item);
      }
      ok := true;
    }

    method WalkToLast() returns (last: Item)
      requires Valid() && items != []
      ensures last == items[|items| - 1]
    {
      last := child;
      ghost var i := 0;
      assert Linked(0);
      while last.next != null
        invariant 0 <= i < |items| && last == items[i] && Linked(i)
        decreases |items| - i
      {
        last := last.next;
        i := i + 1;
        assert Linked(i);
      }
    }

    /** Links `item` behind the last child. */
    method SuffixObject(last: Item, item: Item)
      requires Valid() && items != [] && last == items[|items| - 1] && item !in items && item != this && item.next == null
      modifies this`items, items, item
      ensures Valid() && Cached() && items == old(items) + [item]
    {
      label before:
      last.next := item;
      item.prev := last;
      child.prev := item;
      items := items + [item];
      forall i
        ensures Linked(i)
      {
        assert old@before(Linked(i));
      }
    }

    /** Puts an item before the one at `which`, or at the end. */
    method InsertItemInArray(which: int, item: Item) returns (ok: bool)
      requires Valid() && item !in items && item != this && (which >= |items| > 0 ==> item.next == null)
      modifies this`child, this`items, items, item
      ensures ok == (which >= 0) && Valid()
      ensures items == if which < 0 then old(items) else if which < |old(items)| then Inserted(old(items), which, item) else old(items) + [item]
      ensures old(Cached()) ==> Cached()
    {
      if which < 0 {
        return false;
      }
      var after := GetArrayItem(which);
      if after == null {
        ok := AddItemToArray(item);
      } else {
        InsertBefore(after, item, which);
        ok := true;
      }
    }

    method InsertBefore(after: Item, item: Item, ghost k: nat)
      requires Valid() && item !in items && item != this && k < |items| && items[k] == after
      modifies this`child, this`items, items, item
      ensures Valid() && items == Inserted(old(items), k, item)
      ensures old(Cached()) ==> Cached()
    {
      ghost var was := items;
      assert Linked(k) && Linked(0);
      label before:
      item.next := after;
      item.prev := after.prev;
      after.prev := item;
      if after == child {
        child := item;
      } else {
        item.prev.next := item;
      }
      items := Inserted(items, k, item);
      InsertedDistinct(was, k, item);
      forall i
        ensures Linked(i)
      {
        assert old@before(Linked(i)) && old@before(Linked(i - 1));
      }
    }

    /** Takes a child out of the list; its links are cleared. */
    method DetachItem(item: Item, ghost k: nat)
      requires Valid() && k < |items| && items[k] == item
      modifies this`child, this`items, items
      ensures Valid() && items == Without(old(items), k) && item.next == null && item.prev == null
      ensures old(Cached()) ==> Cached()
    {
      ghost var was := items;
      assert Linked(k) && Linked(0) && Linked(k + 1) && Linked(k - 1);
      label before:
      if item != child {
        item.prev.next := item.next;
      }
      if item.next != null {
        item.next.prev := item.prev;
      }
      if item == child {
        child := item.next;
      } else if item.next == null {
        child.prev := item.prev;
      }
      item.prev := null;
      item.next := null;
      items := Without(items, k);
      WithoutDistinct(was, k);
      forall i
        ensures Linked(i)
      {
        assert old@before(Linked(i)) && old@before(Linked(i + 1));
      }
    }

    method DetachItemFromArray(which: int) returns (item: Item?)
      requires Valid()
      modifies this`child, this`items, items
      ensures Valid() && (old(Cached()) ==> Cached())
      ensures if 0 <= which < |old(items)| then item == old(items)[which] && items == Without(old(items), which) && item.next == null == item.prev
              else item == null && items == old(items)
    {
      if which < 0 {
        return null;
      }
      item := GetArrayItem(which);
      if item != null {
        DetachItem(item, which);
      }
    }

    /** Puts `replacement` where `item` was. */
    method ReplaceItem(item: Item, replacement: Item, ghost k: nat)
      requires Valid() && k < |items| && items[k] == item && replacement != this && (replacement in items ==> replacement == item)
      modifies this`child, this`items, items, replacement
      ensures Valid() && items == old(items)[k := replacement]
      ensures old(Cached()) ==> Cached()
    {
      if replacement == item {
        assert items[k := item] == items;
        return;
      }
      ghost var was := items;
      assert Linked(k) && Linked(0) && Linked(k + 1) && Linked(k - 1);
      label before:
      replacement.next := item.next;
      replacement.prev := item.prev;
      if replacement.next != null {
        replacement.next.prev := replacement;
      }
      if child == item {
        if child.prev == child {
          replacement.prev := replacement;
        }
        child := replacement;
      } else {
        if replacement.prev != null {
          replacement.prev.next := replacement;
        }
        if replacement.next == null {
          child.prev := replacement;
        }
      }
      item.next := null;
      item.prev := null;
      items := items[k := replacement];
      forall i
        ensures Linked(i)
      {
        assert old@before(Linked(i));
      }
    }
  }

  lemma InsertedDistinct(s: seq<Item>, k: nat, x: Item)
    requires k <= |s| && x !in s && forall i, j :: 0 <= i < j < |s| ==> s[i] != s[j]
    ensures var t := Inserted(s, k, x); forall i, j :: 0 <= i < j < |t| ==> t[i] != t[j]
  {
  }

  lemma WithoutDistinct(s: seq<Item>, k: nat)
    requires k < |s| && forall i, j :: 0 <= i < j < |s| ==> s[i] != s[j]
    ensures var t := Without(s, k); s[k] !in t && forall i, j :: 0 <= i < j < |t| ==> t[i] != t[j]
  {
  }
}
