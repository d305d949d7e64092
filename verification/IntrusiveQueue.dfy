/** The doubly linked queues threaded through their items (src/modules/coreinit/coreinit_queue.h). */
module IntrusiveQueue {

  predicate Distinct<T(==)>(s: seq<T>) {
    forall i, j :: 0 <= i < j < |s| ==> s[i] != s[j]
  }

  function IndexOf<T(==)>(s: seq<T>, x: T): (i: nat)
    requires x in s
    ensures i < |s| && s[i] == x
  {
    if s[0] == x then 0 else 1 + IndexOf(s[1..], x)
  }

  /** `s` without its first `x`. */
  function Without<T(==)>(s: seq<T>, x: T): seq<T>
    requires x in s
  {
    s[..IndexOf(s, x)] + s[IndexOf(s, x) + 1..]
  }

  /** Taking an item out of distinct items takes out that item only. */
  lemma WithoutKeeps<T>(s: seq<T>, x: T)
    requires x in s && Distinct(s)
    ensures Distinct(Without(s, x)) && forall y :: y in Without(s, x) <==> y in s && y != x
  {
    var k := IndexOf(s, x);
    forall y | y in s && y != x
      ensures y in Without(s, x)
    {
      var i :| 0 <= i < |s| && s[i] == y;
      assert Without(s, x)[if i < k then i else i - 1] == y;
    }
  }

  /** The link of an item, and the queue it names as its own; only clearing a queue touches that name. */
  class Item {
    var prev: Item?
    var next: Item?
    var queue: Queue?

    constructor ()
      ensures prev == null && next == null && queue == null
    {
      prev, next, queue := null, null, null;
    }
  }

  class Queue {
    var head: Item?
    var tail: Item?
    ghost var items: seq<Item>

    ghost predicate Valid()
      reads this, items
    {
      && Distinct(items)
      && (items == [] ==> head == null && tail == null)
      && (items != [] ==> head == items[0] && tail == items[|items| - 1])
      && forall i :: 0 <= i < |items| ==> Linked(i)
    }

    ghost predicate Linked(i: int)
      requires 0 <= i < |items|
      reads this, items
    {
      && items[i].prev == (if i == 0 then null else items[i - 1])
      && items[i].next == (if i == |items| - 1 then null else items[i + 1])
    }

    /** OSInitQueue */
    constructor ()
      ensures Valid() && items == []
    {
      head, tail, items := null, null, [];
    }

    predicate IsEmpty()
      requires Valid()
      reads this, items
      ensures IsEmpty() <==> items == []
    {
      head == null
    }

    /** OSAppendQueue */
    method Append(item: Item)
      requires Valid() && item !in items
      modifies this, items, item
      ensures Valid() && items == old(items) + [item]
    {
      assert items != [] ==> Linked(|items| - 1);
      if tail == null {
        head := item;
        tail := item;
        item.next := null;
        item.prev := null;
      } else {
        item.prev := tail;
        item.next := null;
        tail.next := item;
        tail := item;
      }
      items := items + [item];
      forall i | 0 <= i < |items|
        ensures Linked(i)
      {
        assert i < |old(items)| ==> old(Linked(i));
      }
    }

    /** OSEraseFromQueue; the erased item's own link is left as it was. */
    method Erase(item: Item)
      requires Valid() && item in items
      modifies this, items
      ensures Valid() && items == Without(old(items), item)
      ensures item.next == old(item.next) && item.prev == old(item.prev)
    {
      ghost var k := IndexOf(items, item);
      assert Linked(k);
      if head == item {
        assert k == 0;
        head := item.next;
        if head != null {
          head.prev := null;
        } else {
          tail := null;
        }
      } else if tail == item {
        assert k == |items| - 1;
        tail := item.prev;
        if tail != null {
          tail.next := null;
        }
      } else {
        var prev := item.prev;
        var next := item.next;
        prev.next := next;
        next.prev := prev;
      }
      items := items[..k] + items[k + 1..];
      forall i | 0 <= i < |items|
        ensures Linked(i)
      {
        assert old(Linked(if i < k then i else i + 1));
      }
    }

    /** OSPopFrontFromQueue */
    method PopFront() returns (result: Item?)
      requires Valid()
      modifies this, items
      ensures Valid()
      ensures old(items) == [] ==> result == null && items == []
      ensures old(items) != [] ==> result == old(items)[0] && items == old(items)[1..]
    {
      assert items != [] ==> Linked(0);
      result := head;
      if result != null {
        head := result.next;
        if head != null {
          head.prev := null;
        }
      }
      if result == tail {
        tail := null;
      }
      if items != [] {
        items := items[1..];
        forall i | 0 <= i < |items|
          ensures Linked(i)
        {
          assert old(Linked(i + 1));
        }
      }
    }

    /** OSClearQueue: every item is unlinked and names no queue. */
    method Clear()
      requires Valid()
      modifies this, items
      ensures Valid() && items == []
      ensures forall i :: 0 <= i < |old(items)| ==>
        old(items)[i].next == null && old(items)[i].prev == null && old(items)[i].queue == null
    {
      var item := head;
      ghost var k := 0;
      while item != null
        invariant 0 <= k <= |items| && items == old(items)
        invariant item == if k < |items| then items[k] else null
        invariant forall i :: k <= i < |items| ==> items[i].next == old(items[i].next)
        invariant forall i :: 0 <= i < k ==> items[i].next == null && items[i].prev == null && items[i].queue == null
        decreases |items| - k
      {
        assert old(Linked(k));
        var next := item.next;
        item.queue := null;
        item.next := null;
        item.prev := null;
        item := next;
        k := k + 1;
      }
      head, tail := null, null;
      items := [];
    }
  }
}
