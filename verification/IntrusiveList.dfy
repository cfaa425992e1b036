/** adt/list.c: a doubly linked list whose links are in the items, as a sequence of items. */
module IntrusiveList {

  class Item<T> {
    const data: T
    var list: List?<T>
    var prev: Item?<T>
    var next: Item?<T>

    /** item_init. */
    constructor (data: T)
      ensures this.data == data && list == null
    {
      this.data := data;
      list, prev, next := null, null, null;
    }
  }

  /** The item at a position, or none beyond either end. */
  ghost function At<T>(items: seq<Item<T>>, i: int): Item?<T> {
    if 0 <= i < |items| then items[i] else null
  }

  ghost predicate NoRepeats<T>(items: seq<Item<T>>) {
    forall i, j :: 0 <= i < j < |items| ==> items[i] != items[j]
  }

  class List<T> {
    var head: Item?<T>
    var tail: Item?<T>
    ghost var items: seq<Item<T>>

    /** The item at position i names this list and its neighbours. */
    ghost predicate Linked(i: int)
      requires 0 <= i < |items|
      reads this, items
    {
      items[i].list == this && items[i].prev == At(items, i - 1) && items[i].next == At(items, i + 1)
    }

    /** head, tail and every item's links and owner agree with the sequence; no item is on it twice. */
    ghost predicate Valid()
      reads this, items
    {
      && head == At(items, 0) && tail == At(items, |items| - 1)
      && (forall i :: 0 <= i < |items| ==> Linked(i))
      && NoRepeats(items)
    }

    /** Putting in one item that is not on the list repeats none. */
    lemma NoRepeatsWith(k: nat, item: Item<T>)
      requires k <= |items| && NoRepeats(items) && item !in items
      ensures NoRepeats(items[..k] + [item] + items[k..])
    {
    }

    /** What names another list, or none, is not on this one. */
    lemma Foreign(item: Item<T>)
      requires Valid() && item.list != this
      ensures item !in items
    {
      forall i | 0 <= i < |items| ensures items[i] != item {
        assert Linked(i);
      }
    }

    /** list_init. */
    constructor ()
      ensures Valid() && items == []
    {
      head, tail, items := null, null, [];
    }

    /** list_append. */
    method Append(item: Item<T>)
      requires Valid() && item.list == null
      modifies this, items, item
      ensures Valid() && items == old(items) + [item]
    {
      Foreign(item);
      item.list := this;
      if tail == null {
        head := item;
      } else {
        tail.next := item;
      }
      item.prev := tail;
      item.next := null;
      tail := item;
      items := items + [item];
      forall i | 0 <= i < |items| ensures Linked(i) {
        assert i < |old(items)| ==> old(Linked(i));
      }
    }

    /** list_insert_before, for a target on this list. */
    method InsertBefore(target: Item<T>, insert: Item<T>, ghost k: nat)
      requires Valid() && k < |items| && items[k] == target && insert.list == null
      modifies this, items, insert
      ensures Valid() && items == old(items)[..k] + [insert] + old(items)[k..]
    {
      Foreign(insert);
      NoRepeatsWith(k, insert);
      assert Linked(k);
      assert k > 0 ==> Linked(k - 1);
      assert k + 1 < |items| ==> Linked(k + 1);
      insert.list := target.list;
      insert.prev := target.prev;
      if target.prev != null {
        target.prev.next := insert;
      } else {
        head := insert;
      }
      insert.next := target;
      target.prev := insert;
      items := items[..k] + [insert] + items[k..];
      forall i | 0 <= i < |items| ensures Linked(i) {
        assert i < k ==> old(Linked(i));
        assert i > k ==> old(Linked(i - 1));
      }
    }

    /** list_insert_after, for a target on this list. */
    method InsertAfter(target: Item<T>, insert: Item<T>, ghost k: nat)
      requires Valid() && k < |items| && items[k] == target && insert.list == null
      modifies this, items, insert
      ensures Valid() && items == old(items)[..k + 1] + [insert] + old(items)[k + 1..]
    {
      Foreign(insert);
      NoRepeatsWith(k + 1, insert);
      assert Linked(k);
      assert k > 0 ==> Linked(k - 1);
      assert k + 1 < |items| ==> Linked(k + 1);
      insert.list := target.list;
      insert.next := target.next;
      if target.next != null {
        target.next.prev := insert;
      } else {
        tail := insert;
      }
      insert.prev := target;
      target.next := insert;
      items := items[..k + 1] + [insert] + items[k + 1..];
      forall i | 0 <= i < |items| ensures Linked(i) {
        assert i <= k ==> old(Linked(i));
        assert i > k + 1 ==> old(Linked(i - 1));
      }
    }

    /** list_remove. */
    method Remove(item: Item<T>, ghost k: nat)
      requires Valid() && k < |items| && items[k] == item
      modifies this, items
      ensures Valid() && items == old(items)[..k] + old(items)[k + 1..]
      ensures item.list == null
    {
      assert Linked(k);
      assert k > 0 ==> Linked(k - 1);
      assert k + 1 < |items| ==> Linked(k + 1);
      item.list := null;
      if item.prev == null {
        head := item.next;
      } else {
        item.prev.next := item.next;
      }
      if item.next == null {
        tail := item.prev;
      } else {
        item.next.prev := item.prev;
      }
      items := items[..k] + items[k + 1..];
      forall i | 0 <= i < |items| ensures Linked(i) {
        assert i < k ==> old(Linked(i));
        assert i >= k ==> old(Linked(i + 1));
      }
    }

    /** list_length. */
    method Length() returns (length: nat)
      requires Valid()
      ensures length == |items|
    {
      length := 0;
      var i := head;
      while i != null
        invariant length <= |items| && i == At(items, length)
        decreases |items| - length
      {
        assert Linked(length);
        length := length + 1;
        i := i.next;
      }
    }

    /** list_rotate: the head becomes the tail. */
    method Rotate() returns (item: Item<T>)
      requires Valid() && items != []
      modifies this, items
      ensures Valid() && item == old(items)[0] && items == old(items)[1..] + [item]
    {
      item := head;
      Remove(item, 0);
      Append(item);
    }
  }
}
