/** The intrusive circular queue and the pooled free list of src/common/queue.h.

    A queue is a head node whose `next` leads through the items in order and back, and whose `prev` leads
    through them backwards.  Free items are threaded through their first word, taken here to be `next`, the
    same field the ring uses. */
module Queue {
  import opened Sequences

  /** Nodes allocated by one call to malloc. */
  const NITEMS: nat := 30

  class Item {
    var next: Item?
    var prev: Item?
    var field: int

    constructor ()
      ensures next == null && prev == null
    {
      next, prev := null, null;
    }
  }

  function Reverse<T>(s: seq<T>): (r: seq<T>)
    ensures |r| == |s|
    ensures forall i :: 0 <= i < |s| ==> r[i] == s[|s| - 1 - i]
  {
    if s == [] then [] else Reverse(s[1..]) + [s[0]]
  }

  lemma ReverseGrows<T>(s: seq<T>, i: nat)
    requires i < |s|
    ensures Reverse(s[i..]) == Reverse(s[i + 1..]) + [s[i]]
  {
    assert s[i..][1..] == s[i + 1..];
  }

  /** The position after (before) `i` in a ring of `n` nodes. */
  function After(i: nat, n: nat): nat { if i + 1 < n then i + 1 else 0 }
  function Before(i: nat, n: nat): int { if i == 0 then n - 1 else i - 1 }

  /** `ring` is the head followed by the items: every `next` leads to the successor, every `prev` to the
      predecessor, and the two ends meet. */
  ghost predicate Linked(ring: seq<Item>)
    reads ring
  {
    && ring != []
    && Distinct(ring)
    && (forall i {:trigger ring[i].next} :: 0 <= i < |ring| ==> ring[i].next == ring[After(i, |ring|)])
    && (forall i {:trigger ring[i].prev} :: 0 <= i < |ring| ==> ring[i].prev == ring[Before(i, |ring|)])
  }

  lemma LinkFacts(ring: seq<Item>)
    requires Linked(ring)
    ensures Distinct(ring)
    ensures forall i {:trigger ring[i].next} :: 0 <= i < |ring| ==> ring[i].next == ring[After(i, |ring|)]
    ensures forall i {:trigger ring[i].prev} :: 0 <= i < |ring| ==> ring[i].prev == ring[Before(i, |ring|)]
  {}

  function Grown<T>(ring: seq<T>, i: nat, item: T): (grown: seq<T>)
    requires i < |ring|
    ensures |grown| == |ring| + 1
    ensures forall k :: 0 <= k < |grown| ==>
              grown[k] == if k <= i then ring[k] else if k == i + 1 then item else ring[k - 1]
  {
    ring[..i + 1] + [item] + ring[i + 1..]
  }

  lemma GrownDistinct<T>(ring: seq<T>, i: nat, item: T)
    requires i < |ring| && Distinct(ring) && item !in ring
    ensures Distinct(Grown(ring, i, item))
  {}

  /** Where node `k` of the grown ring and its two neighbours stood before. */
  lemma GrownIndices<T>(ring: seq<T>, i: nat, item: T, k: nat)
    requires i < |ring| && k <= |ring|
    ensures var grown, n := Grown(ring, i, item), |ring|;
            if k == i + 1 then
              && grown[k] == item
              && grown[After(k, n + 1)] == ring[After(i, n)] && grown[Before(k, n + 1)] == ring[i]
            else
              var q := if k <= i then k else k - 1;
              && grown[k] == ring[q]
              && grown[After(k, n + 1)] == (if q == i then item else ring[After(q, n)])
              && grown[Before(k, n + 1)] == (if q == After(i, n) then item else ring[Before(q, n)])
  {}

  /** The four assignments of the insertion macros turn a ring into the ring grown after position `i`. */
  lemma InsertionLinks(ring: seq<Item>, i: nat, item: Item)
    requires i < |ring| && Distinct(ring) && item !in ring
    requires item.prev == ring[i] && item.next == ring[After(i, |ring|)]
    requires forall k {:trigger ring[k].next} :: 0 <= k < |ring| ==>
               ring[k].next == if k == i then item else ring[After(k, |ring|)]
    requires forall k {:trigger ring[k].prev} :: 0 <= k < |ring| ==>
               ring[k].prev == if k == After(i, |ring|) then item else ring[Before(k, |ring|)]
    ensures Linked(Grown(ring, i, item))
  {
    var grown, n := Grown(ring, i, item), |ring|;
    GrownDistinct(ring, i, item);
    hide Distinct;
    forall k | 0 <= k <= n ensures grown[k].next == grown[After(k, n + 1)] { GrownIndices(ring, i, item, k); }
    forall k | 0 <= k <= n ensures grown[k].prev == grown[Before(k, n + 1)] { GrownIndices(ring, i, item, k); }
  }

  function Shrunk<T>(ring: seq<T>, i: nat): (shrunk: seq<T>)
    requires i < |ring|
    ensures |shrunk| == |ring| - 1
    ensures forall k :: 0 <= k < |shrunk| ==> shrunk[k] == if k < i then ring[k] else ring[k + 1]
  {
    ring[..i] + ring[i + 1..]
  }

  lemma ShrunkDistinct<T>(ring: seq<T>, i: nat)
    requires i < |ring| && Distinct(ring)
    ensures Distinct(Shrunk(ring, i))
  {}

  /** Bridging over position `i` leaves the ring without that node. */
  lemma RemovalLinks(ring: seq<Item>, i: nat)
    requires 0 < i < |ring| && Distinct(ring)
    requires forall k {:trigger ring[k].next} :: 0 <= k < |ring| && k != i ==>
               ring[k].next == if k == i - 1 then ring[After(i, |ring|)] else ring[After(k, |ring|)]
    requires forall k {:trigger ring[k].prev} :: 0 <= k < |ring| && k != i ==>
               ring[k].prev == if k == After(i, |ring|) then ring[i - 1] else ring[Before(k, |ring|)]
    ensures Linked(Shrunk(ring, i))
  {
    ShrunkDistinct(ring, i);
    hide Distinct;
    var shrunk, n := Shrunk(ring, i), |ring|;
    forall k | 0 <= k < n - 1 ensures shrunk[k].next == shrunk[After(k, n - 1)] { BridgedIndices(ring, i, k); }
    forall k | 0 <= k < n - 1 ensures shrunk[k].prev == shrunk[Before(k, n - 1)] { BridgedIndices(ring, i, k); }
  }

  /** Where node `k` of the shrunk ring and its two neighbours stood before. */
  lemma BridgedIndices<T>(ring: seq<T>, i: nat, k: nat)
    requires 0 < i < |ring| && k < |ring| - 1
    ensures var shrunk, n, q := Shrunk(ring, i), |ring|, if k < i then k else k + 1;
            && shrunk[k] == ring[q]
            && shrunk[After(k, n - 1)] == ring[if q == i - 1 then After(i, n) else After(q, n)]
            && shrunk[Before(k, n - 1)] == ring[if q == After(i, n) then i - 1 else Before(q, n)]
  {}

  /** INSERT_ITEM_AFTER(anchor, item) on the bare links. */
  method LinkAfter(anchor: Item, item: Item, ghost ring: seq<Item>, ghost i: nat)
    requires Linked(ring) && i < |ring| && anchor == ring[i] && item !in ring
    modifies ring, item
    ensures Linked(Grown(ring, i, item))
    ensures forall x :: x in ring || x == item ==> x.field == old(x.field)
  {
    hide Linked;
    LinkFacts(ring);
    ghost var n := |ring|;
    ghost var j := After(i, n);
    assert anchor.next == ring[j];
    item.next := anchor.next;
    item.prev := anchor;
    anchor.next.prev := item;
    anchor.next := item;
    forall k | 0 <= k < n ensures ring[k].next == if k == i then item else ring[After(k, n)] {
      if k != i { assert ring[k] != ring[i]; assert ring[k].next == old(ring[k].next); }
    }
    forall k | 0 <= k < n ensures ring[k].prev == if k == j then item else ring[Before(k, n)] {
      if k != j { assert ring[k] != ring[j]; assert ring[k].prev == old(ring[k].prev); }
    }
    InsertionLinks(ring, i, item);
  }

  /** INSERT_ITEM_BEFORE(anchor, item) on the bare links. */
  method LinkBefore(anchor: Item, item: Item, ghost ring: seq<Item>, ghost i: nat)
    requires Linked(ring) && i < |ring| && anchor == ring[i] && item !in ring
    modifies ring, item
    ensures Linked(Grown(ring, Before(i, |ring|), item))
    ensures forall x :: x in ring || x == item ==> x.field == old(x.field)
  {
    hide Linked;
    LinkFacts(ring);
    ghost var n := |ring|;
    ghost var b := Before(i, n);
    assert anchor.prev == ring[b];
    item.next := anchor;
    item.prev := anchor.prev;
    anchor.prev.next := item;
    anchor.prev := item;
    forall k | 0 <= k < n ensures ring[k].next == if k == b then item else ring[After(k, n)] {
      if k != b { assert ring[k] != ring[b]; assert ring[k].next == old(ring[k].next); }
    }
    forall k | 0 <= k < n ensures ring[k].prev == if k == i then item else ring[Before(k, n)] {
      if k != i { assert ring[k] != ring[i]; assert ring[k].prev == old(ring[k].prev); }
    }
    InsertionLinks(ring, b, item);
  }

  /** REMOVE_ITEM(item) on the bare links; the removed node keeps its own two links. */
  method LinkOut(item: Item, ghost ring: seq<Item>, ghost i: nat)
    requires Linked(ring) && 0 < i < |ring| && item == ring[i]
    modifies ring
    ensures Linked(Shrunk(ring, i))
    ensures item.next == old(item.next) && item.prev == old(item.prev)
    ensures forall x :: x in ring ==> x.field == old(x.field)
  {
    hide Linked;
    LinkFacts(ring);
    ghost var n := |ring|;
    ghost var j := After(i, n);
    assert item.next == ring[j] && item.prev == ring[i - 1];
    item.next.prev := item.prev;
    item.prev.next := item.next;
    forall k | 0 <= k < n && k != i ensures ring[k].next == if k == i - 1 then ring[j] else ring[After(k, n)] {
      if k != i - 1 { assert ring[k] != ring[i - 1]; assert ring[k].next == old(ring[k].next); }
    }
    forall k | 0 <= k < n && k != i ensures ring[k].prev == if k == j then ring[i - 1] else ring[Before(k, n)] {
      if k != j { assert ring[k] != ring[j]; assert ring[k].prev == old(ring[k].prev); }
    }
    RemovalLinks(ring, i);
  }

  class Ring {
    const head: Item
    /** The items in dequeue order. */
    ghost var items: seq<Item>

    ghost predicate Valid()
      reads this, head, items
    {
      Linked([head] + items)
    }

    /** INIT_QUEUE */
    constructor (queue: Item)
      modifies queue
      ensures Valid() && head == queue && items == []
    {
      head := queue;
      items := [];
      new;
      queue.next := queue;
      queue.prev := queue;
    }

    /** IS_NULL */
    method IsNull() returns (empty: bool)
      requires Valid()
      ensures empty <==> items == []
    {
      ghost var ring := [head] + items;
      assert ring[0].next == ring[After(0, |ring|)];
      empty := head.next == head;
    }

    /** GET_HEAD_ITEM */
    method GetHead() returns (item: Item?)
      requires Valid()
      ensures item == if items == [] then null else items[0]
    {
      ghost var ring := [head] + items;
      assert ring[0].next == ring[After(0, |ring|)];
      item := if head.next == head then null else head.next;
    }

    /** GET_NEXT_ITEM, for the item at position `i`. */
    method GetNext(item: Item, ghost i: nat) returns (next: Item?)
      requires Valid() && i < |items| && item == items[i]
      ensures next == if i + 1 < |items| then items[i + 1] else null
    {
      ghost var ring := [head] + items;
      assert ring[i + 1] == item && ring[i + 1].next == ring[After(i + 1, |ring|)];
      assert i + 1 < |items| ==> ring[i + 2] == items[i + 1] && ring[0] != ring[i + 2];
      next := if item.next == head then null else item.next;
    }

    /** Following `next` from the head visits the items in order. */
    method WalkForward() returns (walk: seq<Item>)
      requires Valid()
      ensures walk == items
    {
      walk := [];
      var item := GetHead();
      while item != null
        invariant |walk| <= |items| && walk == items[..|walk|]
        invariant item == if |walk| < |items| then items[|walk|] else null
        decreases |items| - |walk|
      {
        var next := GetNext(item, |walk|);
        walk := walk + [item];
        item := next;
      }
    }

    /** Following `prev` from the head visits exactly the reverse. */
    method WalkBackward() returns (walk: seq<Item>)
      requires Valid()
      ensures walk == Reverse(items)
    {
      hide Linked;
      walk := [];
      ghost var ring := [head] + items;
      LinkFacts(ring);
      assert ring[0].prev == ring[Before(0, |ring|)];
      var item := head.prev;
      ghost var left := |items|;
      while item != head
        invariant 0 <= left <= |items|
        invariant item == ring[left]
        invariant walk == Reverse(items[left..])
        decreases left
      {
        assert left > 0;
        assert ring[left].prev == ring[Before(left, |ring|)];
        ReverseGrows(items, left - 1);
        walk := walk + [item];
        item := item.prev;
        left := left - 1;
      }
      assert left == 0;
      assert items[0..] == items;
    }

    /** ENQUEUE_ITEM: the assignments of INSERT_ITEM_BEFORE with the head as anchor. */
    method Enqueue(item: Item)
      requires Valid() && item != head && item !in items
      modifies this, head, items, item
      ensures Valid() && items == old(items) + [item]
      ensures forall x :: x in items || x == head ==> x.field == old(x.field)
    {
      hide Linked;
      ghost var ring := [head] + items;
      LinkBefore(head, item, ring, 0);
      items := items + [item];
      assert [head] + items == Grown(ring, |ring| - 1, item);
    }

    /** ENQUEUE_HEAD_ITEM: the assignments of INSERT_ITEM_AFTER with the head as anchor. */
    method EnqueueHead(item: Item)
      requires Valid() && item != head && item !in items
      modifies this, head, items, item
      ensures Valid() && items == [item] + old(items)
      ensures forall x :: x in items || x == head ==> x.field == old(x.field)
    {
      hide Linked;
      ghost var ring := [head] + items;
      LinkAfter(head, item, ring, 0);
      items := [item] + items;
      assert [head] + items == Grown(ring, 0, item);
    }

    /** INSERT_ITEM_AFTER(anchor, item): `i` is the anchor's position in the ring, 0 for the head. */
    method InsertAfter(anchor: Item, item: Item, ghost i: nat)
      requires Valid() && item != head && item !in items
      requires i <= |items| && anchor == ([head] + items)[i]
      modifies this, head, items, item
      ensures Valid() && items == old(items[..i] + [item] + items[i..])
      ensures forall x :: x in items || x == head ==> x.field == old(x.field)
    {
      hide Linked;
      ghost var ring := [head] + items;
      LinkAfter(anchor, item, ring, i);
      items := items[..i] + [item] + items[i..];
      assert [head] + items == Grown(ring, i, item);
      assert forall x :: x in items ==> x in old(items) || x == item;
    }

    /** INSERT_ITEM_BEFORE(anchor, item), where the anchor is the item at position `i`. */
    method InsertBefore(anchor: Item, item: Item, ghost i: nat)
      requires Valid() && item != head && item !in items
      requires i < |items| && anchor == items[i]
      modifies this, head, items, item
      ensures Valid() && items == old(items[..i] + [item] + items[i..])
      ensures forall x :: x in items || x == head ==> x.field == old(x.field)
    {
      hide Linked;
      ghost var ring := [head] + items;
      LinkBefore(anchor, item, ring, i + 1);
      items := items[..i] + [item] + items[i..];
      assert [head] + items == Grown(ring, i, item);
      assert forall x :: x in items ==> x in old(items) || x == item;
    }

    /** REMOVE_ITEM, for the item at position `i`. */
    method Remove(item: Item, ghost i: nat)
      requires Valid() && i < |items| && item == items[i]
      modifies this, head, items
      ensures Valid() && items == old(items[..i] + items[i + 1..])
      ensures forall x :: x in old(items) || x == head ==> x.field == old(x.field)
    {
      hide Linked;
      ghost var ring := [head] + items;
      LinkOut(item, ring, i + 1);
      items := items[..i] + items[i + 1..];
      assert [head] + items == Shrunk(ring, i + 1);
    }

    /** DEQUEUE_ITEM */
    method Dequeue() returns (item: Item?)
      requires Valid()
      modifies this, head, items
      ensures Valid()
      ensures old(items) == [] ==> item == null && items == []
      ensures old(items) != [] ==> item == old(items)[0] && items == old(items)[1..]
      ensures forall x :: x in old(items) || x == head ==> x.field == old(x.field)
    {
      hide Linked;
      ghost var ring := [head] + items;
      LinkFacts(ring);
      assert ring[0].next == ring[After(0, |ring|)] && (items != [] ==> ring[0] != ring[1]);
      item := head.next;
      if item == head {
        item := null;
      } else {
        UnlinkFirst(item, ring);
        items := items[1..];
        assert [head] + items == Shrunk(ring, 1);
      }
    }

    /** DEQUEUE_ITEM_NOCHECK: an empty queue hands out its own head and stays empty. */
    method DequeueNoCheck() returns (item: Item)
      requires Valid()
      modifies this, head, items
      ensures Valid()
      ensures old(items) == [] ==> item == head && items == []
      ensures old(items) != [] ==> item == old(items)[0] && items == old(items)[1..]
      ensures forall x :: x in old(items) || x == head ==> x.field == old(x.field)
    {
      hide Linked;
      ghost var ring := [head] + items;
      LinkFacts(ring);
      assert ring[0].next == ring[After(0, |ring|)] && (items != [] ==> ring[0] != ring[1]);
      item := head.next;
      UnlinkFirst(item, ring);
      if items != [] {
        items := items[1..];
        assert [head] + items == Shrunk(ring, 1);
      }
    }

    /** The items with their sort fields. */
    ghost function Entries(): (es: seq<Entry<Item>>)
      reads this, items
    {
      seq(|items|, i requires 0 <= i < |items| reads this, items => Entry(items[i].field, items[i]))
    }

    /** INSERT_ITEM_INCREASING and INSERT_ITEM_DECREASING: scan from the tail, insert after the stopper. */
    method InsertSorted(order: Order, item: Item) returns (ghost slot: nat)
      requires Valid() && item != head && item !in items
      modifies this, head, items, item
      ensures Valid()
      ensures Entries() == InsertEntry(order, old(Entries()), Entry(old(item.field), item))
      ensures slot <= old(|items|) && items == old(items[..slot] + [item] + items[slot..])
      ensures item.field == old(item.field) && forall x :: x in old(items) ==> x.field == old(x.field)
      ensures order == Increasing ==>
                && (slot > 0 ==> items[slot - 1].field <= item.field)
                && (forall i :: slot < i < |items| ==> items[i].field > item.field)
                && (old(forall i, j :: 0 <= i < j < |items| ==> items[i].field <= items[j].field) ==>
                      forall i, j :: 0 <= i < j < |items| ==> items[i].field <= items[j].field)
      ensures order == Decreasing ==>
                && (slot > 0 ==> items[slot - 1].field >= item.field)
                && (forall i :: slot < i < |items| ==> items[i].field < item.field)
                && (old(forall i, j :: 0 <= i < j < |items| ==> items[i].field >= items[j].field) ==>
                      forall i, j :: 0 <= i < j < |items| ==> items[i].field >= items[j].field)
    {
      hide InsertionSlot, InsertEntry, Linked, Keys, Entries;
      ghost var es, e := Entries(), Entry(item.field, item);
      FieldsAreKeys(Keys(es));
      slot := InsertAtSlot(order, item);
      SlotOnKeys(order, es, e);
      if order == Increasing { InsertedUp(Keys(es), slot, e.key); } else { InsertedDown(Keys(es), slot, e.key); }
      FieldsAreKeys(Keys(Entries()));
    }

    lemma FieldsAreKeys(keys: seq<int>)
      requires keys == Keys(Entries())
      ensures |keys| == |items| && forall i :: 0 <= i < |items| ==> items[i].field == keys[i]
    {}

    /** The macro itself, with the slot as the scan finds it. */
    method InsertAtSlot(order: Order, item: Item) returns (ghost slot: nat)
      requires Valid() && item != head && item !in items
      modifies this, head, items, item
      ensures Valid()
      ensures slot == InsertionSlot(order, old(Entries()), old(item.field))
      ensures Entries() == InsertEntry(order, old(Entries()), Entry(old(item.field), item))
      ensures items == old(items[..slot] + [item] + items[slot..])
      ensures item.field == old(item.field) && forall x :: x in old(items) ==> x.field == old(x.field)
    {
      hide Linked, InsertionSlot, Precedes;
      ghost var es := Entries();
      var key := item.field;
      var ptmp, i := FindStopper(order, key);
      slot := i;
      InsertAfter(ptmp, item, i);
      assert forall k :: 0 <= k < i ==> items[k] == old(items)[k];
      assert items[i] == item;
      assert forall k :: i < k < |items| ==> items[k] == old(items)[k - 1];
      assert Entries() == es[..i] + [Entry(key, item)] + es[i..];
    }

    /** The scan from the tail towards the head, stopped by the first item the new one may follow; without one it
        ends at the head. */
    method FindStopper(order: Order, key: int) returns (ptmp: Item, ghost i: nat)
      requires Valid()
      ensures i == InsertionSlot(order, Entries(), key) && ptmp == ([head] + items)[i]
    {
      ghost var ring, es := [head] + items, Entries();
      assert ring[0].prev == ring[Before(0, |ring|)];
      ptmp := head.prev;
      i := |items|;
      assert es[..i] == es;
      while ptmp != head
        invariant i <= |items| && ptmp == ring[i]
        invariant InsertionSlot(order, es, key) == InsertionSlot(order, es[..i], key)
        decreases i
      {
        assert i > 0 && es[i - 1].key == ptmp.field;
        assert es[..i][..i - 1] == es[..i - 1];
        if Precedes(order, ptmp.field, key) { break; }
        assert ring[i].prev == ring[Before(i, |ring|)];
        ptmp := ptmp.prev;
        i := i - 1;
      }
      assert i > 0 ==> ptmp != head;
    }

    /** Makes the head and the second item neighbours; the first item keeps its own links. */
    method UnlinkFirst(item: Item, ghost ring: seq<Item>)
      requires Linked(ring) && ring[0] == head && item == ring[After(0, |ring|)]
      modifies ring
      ensures Linked(if |ring| == 1 then ring else Shrunk(ring, 1))
      ensures forall x :: x in ring ==> x.field == old(x.field)
    {
      LinkFacts(ring);
      ghost var n := |ring|;
      ghost var j := if n == 1 then 0 else After(1, n);
      assert item.next == ring[j];
      head.next := item.next;
      item.next.prev := head;
      if n > 1 {
        forall k | 0 <= k < n && k != 1 ensures ring[k].next == if k == 0 then ring[j] else ring[After(k, n)] {
          if k != 0 { assert ring[k] != ring[0]; assert ring[k].next == old(ring[k].next); }
        }
        forall k | 0 <= k < n && k != 1 ensures ring[k].prev == if k == j then ring[0] else ring[Before(k, n)] {
          if k != j { assert ring[k] != ring[j]; assert ring[k].prev == old(ring[k].prev); }
        }
        RemovalLinks(ring, 1);
      }
    }
  }

  // ---------- sorted insertion ----------

  datatype Entry<T> = Entry(key: int, value: T)

  datatype Order = Increasing | Decreasing

  predicate Precedes(order: Order, a: int, b: int) {
    match order
    case Increasing => a <= b
    case Decreasing => a >= b
  }

  predicate Sorted<T>(order: Order, es: seq<Entry<T>>) {
    forall i, j :: 0 <= i < j < |es| ==> Precedes(order, es[i].key, es[j].key)
  }

  /** How many entries stay in front of a new one with key `k`, scanning from the tail. */
  function InsertionSlot<T>(order: Order, es: seq<Entry<T>>, k: int): (i: nat)
    ensures i <= |es|
    ensures i > 0 ==> Precedes(order, es[i - 1].key, k)
    ensures forall j :: i <= j < |es| ==> !Precedes(order, es[j].key, k)
  {
    if es == [] || Precedes(order, es[|es| - 1].key, k) then |es|
    else InsertionSlot(order, es[..|es| - 1], k)
  }

  function InsertEntry<T>(order: Order, es: seq<Entry<T>>, e: Entry<T>): seq<Entry<T>> {
    var i := InsertionSlot(order, es, e.key);
    es[..i] + [e] + es[i..]
  }

  function InsertAll<T>(order: Order, es: seq<Entry<T>>): seq<Entry<T>> {
    if es == [] then [] else InsertEntry(order, InsertAll(order, es[..|es| - 1]), es[|es| - 1])
  }

  /** The entries with one key, in order. */
  function WithKey<T>(es: seq<Entry<T>>, k: int): seq<Entry<T>> {
    if es == [] then []
    else WithKey(es[..|es| - 1], k) + if es[|es| - 1].key == k then [es[|es| - 1]] else []
  }

  lemma {:induction false} WithKeyAppends<T>(a: seq<Entry<T>>, b: seq<Entry<T>>, k: int)
    ensures WithKey(a + b, k) == WithKey(a, k) + WithKey(b, k)
  {
    if b == [] {
      assert a + b == a;
    } else {
      WithKeyAppends(a, b[..|b| - 1], k);
      assert (a + b)[..|a + b| - 1] == a + b[..|b| - 1];
    }
  }

  lemma {:induction false} WithKeyAbsent<T>(es: seq<Entry<T>>, k: int)
    requires forall i :: 0 <= i < |es| ==> es[i].key != k
    ensures WithKey(es, k) == []
  {
    if es != [] { WithKeyAbsent(es[..|es| - 1], k); }
  }

  lemma RefusesItself(order: Order, a: int, b: int)
    requires !Precedes(order, a, b)
    ensures a != b
  {}

  lemma InsertEntrySorted<T>(order: Order, es: seq<Entry<T>>, e: Entry<T>)
    requires Sorted(order, es)
    ensures Sorted(order, InsertEntry(order, es, e))
    ensures var r := InsertEntry(order, es, e);
            && (order == Increasing ==> forall i, j :: 0 <= i < j < |r| ==> r[i].key <= r[j].key)
            && (order == Decreasing ==> forall i, j :: 0 <= i < j < |r| ==> r[i].key >= r[j].key)
  {
    var i, r := InsertionSlot(order, es, e.key), InsertEntry(order, es, e);
    forall a, b | 0 <= a < b < |r| ensures Precedes(order, r[a].key, r[b].key) {
      if b == i && i > 0 { assert Precedes(order, es[i - 1].key, e.key); }
      if a == i { assert !Precedes(order, es[b - 1].key, e.key); }
    }
  }

  function Keys<T>(es: seq<Entry<T>>): (keys: seq<int>)
    ensures |keys| == |es| && forall i :: 0 <= i < |es| ==> keys[i] == es[i].key
  {
    seq(|es|, i requires 0 <= i < |es| => es[i].key)
  }

  lemma SlotOnKeys<T>(order: Order, es: seq<Entry<T>>, e: Entry<T>)
    ensures var keys, i := Keys(es), InsertionSlot(order, es, e.key);
            && Keys(InsertEntry(order, es, e)) == keys[..i] + [e.key] + keys[i..]
            && (i > 0 ==> Precedes(order, keys[i - 1], e.key))
            && forall j :: i <= j < |keys| ==> !Precedes(order, keys[j], e.key)
  {}

  /** What the slot means on bare keys: keys in order stay in order. */
  lemma InsertedUp(keys: seq<int>, i: nat, key: int)
    requires i <= |keys| && (i > 0 ==> keys[i - 1] <= key) && forall j :: i <= j < |keys| ==> keys[j] > key
    ensures var r := keys[..i] + [key] + keys[i..];
            && (i > 0 ==> r[i - 1] <= key) && (forall k :: i < k < |r| ==> r[k] > key)
            && ((forall a, b :: 0 <= a < b < |keys| ==> keys[a] <= keys[b]) ==>
                  forall a, b :: 0 <= a < b < |r| ==> r[a] <= r[b])
  {}

  lemma InsertedDown(keys: seq<int>, i: nat, key: int)
    requires i <= |keys| && (i > 0 ==> keys[i - 1] >= key) && forall j :: i <= j < |keys| ==> keys[j] < key
    ensures var r := keys[..i] + [key] + keys[i..];
            && (i > 0 ==> r[i - 1] >= key) && (forall k :: i < k < |r| ==> r[k] < key)
            && ((forall a, b :: 0 <= a < b < |keys| ==> keys[a] >= keys[b]) ==>
                  forall a, b :: 0 <= a < b < |r| ==> r[a] >= r[b])
  {}

  /** The new entry goes behind all entries with its key, and entries with other keys do not move. */
  lemma InsertEntryKeepsKeyOrder<T>(order: Order, es: seq<Entry<T>>, e: Entry<T>, k: int)
    requires Sorted(order, es)
    ensures WithKey(InsertEntry(order, es, e), k) == WithKey(es + [e], k)
  {
    var i := InsertionSlot(order, es, e.key);
    assert e.key == k ==> WithKey(es[i..], k) == [] by {
      if e.key == k {
        forall j | i <= j < |es| ensures es[j].key != k { RefusesItself(order, es[j].key, k); }
        WithKeyAbsent(es[i..], k);
      }
    }
    InsertedAmong(es[..i], es[i..], e, k);
    assert es == es[..i] + es[i..];
  }

  lemma InsertedAmong<T>(front: seq<Entry<T>>, rear: seq<Entry<T>>, e: Entry<T>, k: int)
    requires e.key == k ==> WithKey(rear, k) == []
    ensures WithKey(front + [e] + rear, k) == WithKey(front + rear + [e], k)
  {
    hide WithKey;
    WithKeyAppends(front, rear, k);
    WithKeyAppends(front + [e], rear, k);
    WithKeyAppends(front, [e], k);
    WithKeyAppends(front + rear, [e], k);
    if e.key != k { WithKeyAbsent([e], k); }
  }

  lemma SameEntries<T>(order: Order, es: seq<Entry<T>>, e: Entry<T>)
    ensures multiset(InsertEntry(order, es, e)) == multiset(es + [e])
  {
    var i := InsertionSlot(order, es, e.key);
    assert es == es[..i] + es[i..];
  }

  lemma {:induction false} WithKeySelects<T>(es: seq<Entry<T>>, k: int, x: Entry<T>)
    ensures x in WithKey(es, k) <==> x in es && x.key == k
  {
    if es != [] {
      var front := es[..|es| - 1];
      WithKeySelects(front, k, x);
      assert es == front + [es[|es| - 1]];
    }
  }

  lemma {:induction false} InsertAllKeepsEntries<T>(order: Order, es: seq<Entry<T>>)
    ensures multiset(InsertAll(order, es)) == multiset(es)
  {
    hide InsertEntry;
    if es != [] {
      var front, e := es[..|es| - 1], es[|es| - 1];
      InsertAllKeepsEntries(order, front);
      SameEntries(order, InsertAll(order, front), e);
      assert es == front + [e];
    }
  }

  /** Repeated insertion from the empty queue is a stable sort: the result is sorted, and for every key it
      holds the same entries in the same order as the input. */
  lemma {:induction false} InsertAllIsStableSort<T>(order: Order, es: seq<Entry<T>>, k: int)
    ensures Sorted(order, InsertAll(order, es))
    ensures var r := InsertAll(order, es);
            && (order == Increasing ==> forall i, j :: 0 <= i < j < |r| ==> r[i].key <= r[j].key)
            && (order == Decreasing ==> forall i, j :: 0 <= i < j < |r| ==> r[i].key >= r[j].key)
    ensures WithKey(InsertAll(order, es), k) == WithKey(es, k)
  {
    hide InsertEntry, WithKey;
    if es != [] {
      var front, e := es[..|es| - 1], es[|es| - 1];
      InsertAllIsStableSort(order, front, k);
      InsertEntrySorted(order, InsertAll(order, front), e);
      InsertEntryKeepsKeyOrder(order, InsertAll(order, front), e, k);
      WithKeyAppends(InsertAll(order, front), [e], k);
      WithKeyAppends(front, [e], k);
      assert es == front + [e];
    }
  }
}
