/** The pooled allocator of src/common/queue.h and its interplay with the queues.

    The first part is the pool as a value (free list, live items, blocks bought) with its whole-history
    laws; the second is the linked free list that the macros rewire, refined against it. */
module FreePool {
  import opened Queue
  import opened Sequences

  datatype PoolState<!T(==)> = PoolState(free: seq<T>, live: set<T>, blocks: nat) {

    /** Nothing is free twice or free and live at once, and no node of any block is lost. */
    predicate Sound() {
      && Distinct(free)
      && (forall i :: 0 <= i < |free| ==> free[i] !in live)
      && |free| + |live| == NITEMS * blocks
    }

    /** The list after the refill that an allocation performs when nothing is free. */
    function Stock(block: seq<T>): seq<T> {
      if free == [] then block else free
    }

    function Allocated(block: seq<T>): PoolState<T>
      requires |Stock(block)| > 0
    {
      PoolState(Stock(block)[1..], live + {Stock(block)[0]}, if free == [] then blocks + 1 else blocks)
    }

    function Freed(item: T): PoolState<T> {
      PoolState([item] + free, live - {item}, blocks)
    }

    function Drained(items: seq<T>): PoolState<T> {
      PoolState(Reverse(items) + free, live - Elements(items), blocks)
    }
  }

  function Elements<T(==)>(s: seq<T>): set<T> {
    set i | 0 <= i < |s| :: s[i]
  }

  datatype PoolOp<!T(==)> =
    | Alloc(block: seq<T>)  // the block malloc hands out if the free list is empty
    | Free(item: T)
    | Drain(items: seq<T>)  // RESET_QUEUE

  /** What the callers and malloc owe: malloc returns nodes nobody holds, only live items are freed, and a
      queue holds live items. */
  predicate Allowed<T(==)>(p: PoolState<T>, op: PoolOp<T>) {
    match op
    case Alloc(block) =>
      p.free == [] ==> |block| == NITEMS && Distinct(block) && forall i :: 0 <= i < |block| ==> block[i] !in p.live
    case Free(item) => item in p.live
    case Drain(items) => Distinct(items) && forall i :: 0 <= i < |items| ==> items[i] in p.live
  }

  function Apply<T(==)>(p: PoolState<T>, op: PoolOp<T>): PoolState<T>
    requires Allowed(p, op)
  {
    match op
    case Alloc(block) => p.Allocated(block)
    case Free(item) => p.Freed(item)
    case Drain(items) => p.Drained(items)
  }

  predicate AllowedRun<T(==)>(p: PoolState<T>, ops: seq<PoolOp<T>>)
    decreases |ops|
  {
    ops == [] || (Allowed(p, ops[0]) && AllowedRun(Apply(p, ops[0]), ops[1..]))
  }

  function Run<T(==)>(p: PoolState<T>, ops: seq<PoolOp<T>>): PoolState<T>
    requires AllowedRun(p, ops)
    decreases |ops|
  {
    if ops == [] then p else Run(Apply(p, ops[0]), ops[1..])
  }

  /** An allocation never hands out a live item. */
  lemma AllocReturnsNoLiveItem<T>(p: PoolState<T>, block: seq<T>)
    requires p.Sound() && Allowed(p, Alloc(block))
    ensures p.Stock(block)[0] !in p.live
    ensures p.Allocated(block).Sound()
  {
    var s := p.Stock(block);
    assert s[0] !in p.live;
    assert |p.live + {s[0]}| == |p.live| + 1;
    forall i | 0 <= i < |s| - 1 ensures s[1..][i] !in p.live + {s[0]} {}
  }

  lemma FreeKeepsSound<T>(p: PoolState<T>, item: T)
    requires p.Sound() && item in p.live
    ensures p.Freed(item).Sound()
  {
    var p' := p.Freed(item);
    assert |p.live - {item}| == |p.live| - 1;
    forall i | 0 <= i < |p'.free| ensures p'.free[i] !in p'.live {
      if i > 0 { assert p'.free[i] == p.free[i - 1]; }
    }
    forall i, j | 0 <= i < j < |p'.free| ensures p'.free[i] != p'.free[j] {
      assert p'.free[j] == p.free[j - 1];
    }
  }

  /** Draining a queue is the same as freeing its items one by one from the head. */
  lemma {:induction false} DrainIsRepeatedFree<T>(p: PoolState<T>, items: seq<T>)
    requires items != []
    ensures p.Drained(items) == p.Freed(items[0]).Drained(items[1..])
  {
    assert Elements(items) == {items[0]} + Elements(items[1..]) by {
      forall x | x in Elements(items) ensures x in {items[0]} + Elements(items[1..]) {
        var i :| 0 <= i < |items| && items[i] == x;
        if i > 0 { assert items[1..][i - 1] == x; }
      }
      forall x | x in Elements(items[1..]) ensures x in Elements(items) {
        var i :| 0 <= i < |items| - 1 && items[1..][i] == x;
        assert items[i + 1] == x;
      }
    }
    assert p.live - Elements(items) == p.live - {items[0]} - Elements(items[1..]);
    assert Reverse(items) + p.free == Reverse(items[1..]) + ([items[0]] + p.free);
  }

  lemma DrainContinues<T>(p: PoolState<T>, items: seq<T>)
    requires items != [] && Allowed(p, Drain(items))
    ensures Allowed(p.Freed(items[0]), Drain(items[1..]))
  {
    var rest := items[1..];
    forall i | 0 <= i < |rest| ensures rest[i] in p.Freed(items[0]).live {
      assert rest[i] == items[i + 1] && items[i + 1] != items[0];
    }
    assert Distinct(rest);
  }

  lemma DrainOfNothing<T>(p: PoolState<T>)
    ensures p.Drained([]) == p
  {
    assert Elements<T>([]) == {};
    assert Reverse<T>([]) + p.free == p.free;
    assert p.live - {} == p.live;
  }

  lemma {:induction false} DrainKeepsSound<T>(p: PoolState<T>, items: seq<T>)
    requires p.Sound() && Allowed(p, Drain(items))
    ensures p.Drained(items).Sound()
    decreases |items|
  {
    if items == [] {
      DrainOfNothing(p);
    } else {
      var p' := p.Freed(items[0]);
      assert p'.Sound() by { FreeKeepsSound(p, items[0]); }
      assert Allowed(p', Drain(items[1..])) by { DrainContinues(p, items); }
      DrainKeepsSound(p', items[1..]);
      DrainIsRepeatedFree(p, items);
    }
  }

  /** Across any interleaving of allocations, frees and queue resets the pool loses and duplicates nothing. */
  lemma {:induction false} AnyHistoryIsSound<T>(p: PoolState<T>, ops: seq<PoolOp<T>>)
    requires p.Sound() && AllowedRun(p, ops)
    ensures Run(p, ops).Sound()
    ensures |Run(p, ops).free| + |Run(p, ops).live| == 30 * Run(p, ops).blocks
    decreases |ops|
  {
    if ops != [] {
      match ops[0] {
        case Alloc(block) => AllocReturnsNoLiveItem(p, block);
        case Free(item) => FreeKeepsSound(p, item);
        case Drain(items) => DrainKeepsSound(p, items);
      }
      AnyHistoryIsSound(Apply(p, ops[0]), ops[1..]);
    }
  }

  // ---------- the linked free list ----------

  /** `list` is the chain hanging off `first`: threaded through `next`, ended by null, without repetition. */
  ghost predicate Chain(first: Item?, list: seq<Item>)
    reads list
  {
    && first == (if list == [] then null else list[0])
    && Distinct(list)
    && forall i {:trigger list[i].next} :: 0 <= i < |list| ==>
         list[i].next == if i + 1 < |list| then list[i + 1] else null
  }

  class Pool {
    var free: Item?
    ghost var list: seq<Item>
    ghost var live: set<Item>
    ghost var blocks: nat

    ghost function State(): PoolState<Item>
      reads this
    {
      PoolState(list, live, blocks)
    }

    ghost predicate Valid()
      reads this, list
    {
      Chain(free, list) && State().Sound()
    }

    constructor ()
      ensures Valid() && State() == PoolState([], {}, 0)
    {
      free := null;
      list, live, blocks := [], {}, 0;
    }

    /** ALLOC_NEW_ITEM.  Nodes come from the free list, or from a fresh block when it is empty. */
    method AllocNewItem() returns (item: Item, ghost block: seq<Item>)
      requires Valid()
      modifies this
      ensures Valid()
      ensures Allowed(old(State()), Alloc(block)) && State() == old(State()).Allocated(block)
      ensures item == old(State()).Stock(block)[0] && item !in old(live)
      ensures fresh(block) && (old(list) != [] ==> block == [])
      ensures forall x :: x in old(list) && x != item ==> x in list
    {
      block := [];
      if free == null {
        block := Refill();
      }
      AllocReturnsNoLiveItem(old(State()), block);
      item := TakeFirst();
    }

    /** The refill: buy a block and thread it through `next`. */
    method Refill() returns (ghost block: seq<Item>)
      requires Valid() && free == null
      modifies this
      ensures Chain(free, list) && list == block && live == old(live) && blocks == old(blocks) + 1
      ensures fresh(block) && |block| == NITEMS && Distinct(block)
      ensures forall x :: x in block ==> x !in live
    {
      var newPtr := Xmalloc();
      block := newPtr;
      LinkBlock(newPtr);
      free := newPtr[0];
      list, blocks := block, blocks + 1;
    }

    /** Unhooks the first node of the free list, whose link becomes the new start of the list. */
    method TakeFirst() returns (item: Item)
      requires Chain(free, list) && list != []
      modifies this
      ensures item == old(list[0]) && list == old(list[1..]) && Chain(free, list)
      ensures live == old(live) + {item} && blocks == old(blocks)
    {
      item := free;
      ghost var before := list;
      assert before[0].next == if 1 < |before| then before[1] else null;
      free := free.next;
      list, live := list[1..], live + {item};
      forall i | 0 <= i < |list| ensures list[i].next == if i + 1 < |list| then list[i + 1] else null {
        assert before[i + 1].next == if i + 2 < |before| then before[i + 2] else null;
      }
    }

    /** ALLOC_NEW_ZITEM: the same allocation, with the node cleared before it is handed out. */
    method AllocNewZeroedItem() returns (item: Item, ghost block: seq<Item>)
      requires Valid()
      modifies this, list
      ensures Valid()
      ensures Allowed(old(State()), Alloc(block)) && State() == old(State()).Allocated(block)
      ensures item == old(State()).Stock(block)[0] && item !in old(live)
      ensures item.next == null && item.prev == null && item.field == 0
    {
      item, block := AllocNewItem();
      item.next, item.prev, item.field := null, null, 0;
    }

    /** FREE_ITEM */
    method FreeItem(item: Item)
      requires Valid() && item in live
      modifies this, item
      ensures Valid() && State() == old(State()).Freed(item)
    {
      FreeKeepsSound(State(), item);
      ghost var before := list;
      item.next := free;
      free := item;
      list, live := [item] + list, live - {item};
      forall i | 0 <= i < |list| ensures list[i].next == if i + 1 < |list| then list[i + 1] else null {
        if i > 0 { assert before[i - 1].next == if i < |before| then before[i] else null; }
      }
    }

    /** NUM_ITEMS_FREE */
    method NumItemsFree() returns (numItems: nat)
      requires Valid()
      ensures numItems == |list|
    {
      numItems := 0;
      var ptr := free;
      while ptr != null
        invariant numItems <= |list|
        invariant ptr == if numItems < |list| then list[numItems] else null
        decreases |list| - numItems
      {
        assert list[numItems].next == if numItems + 1 < |list| then list[numItems + 1] else null;
        numItems := numItems + 1;
        ptr := ptr.next;
      }
    }

    /** One turn of the RESET_QUEUE loop: the first item leaves the ring and joins the free list. */
    method ResetOne(queue: Ring)
      requires Valid() && queue.Valid() && queue.items != []
      requires queue.head !in list && queue.head !in live
      requires forall i :: 0 <= i < |queue.items| ==> queue.items[i] in live
      modifies this, queue, queue.head, queue.items
      ensures Valid() && queue.Valid()
      ensures queue.items == old(queue.items[1..]) && State() == old(State()).Freed(old(queue.items[0]))
    {
      OutsideRing(queue.head, queue.items);
      assert forall x :: x in queue.items ==> x in live;
      assert forall x :: x in list ==> x !in live;
      hide Linked, Chain;
      var ptmp := queue.GetHead();
      queue.Remove(ptmp, 0);
      assert Valid();
      FreeItem(ptmp);
    }

    /** RESET_QUEUE: every item leaves the ring and goes to the front of the free list. */
    method ResetQueue(queue: Ring)
      requires Valid() && queue.Valid()
      requires queue.head !in list && queue.head !in live
      requires forall i :: 0 <= i < |queue.items| ==> queue.items[i] in live
      modifies this, queue, queue.head, queue.items
      ensures Valid() && queue.Valid()
      ensures queue.items == [] && State() == old(State()).Drained(old(queue.items))
    {
      hide Linked, Chain, PoolState.Drained, PoolState.Sound, Reverse;
      ghost var p0, done := State(), 0;
      var empty := queue.IsNull();
      while !empty
        invariant Valid() && queue.Valid()
        invariant queue.head !in list && queue.head !in live
        invariant done <= |old(queue.items)| && queue.items == old(queue.items)[done..]
        invariant forall i :: 0 <= i < |queue.items| ==> queue.items[i] in live
        invariant State().Drained(queue.items) == p0.Drained(old(queue.items))
        invariant empty <==> queue.items == []
        decreases |queue.items|
      {
        DrainIsRepeatedFree(State(), queue.items);
        LinkFacts([queue.head] + queue.items);
        DrainedFromLive(State(), queue.items, [queue.head] + queue.items);
        ResetOne(queue);
        done := done + 1;
        empty := queue.IsNull();
      }
      DrainOfNothing(State());
    }
  }

  lemma OutsideRing(head: Item, items: seq<Item>)
    requires items != [] && Linked([head] + items)
    ensures items[0] != head && items[0] !in items[1..]
  {
    var ring := [head] + items;
    assert ring[1] == items[0] && ring[0] == head;
    forall i | 0 <= i < |items| - 1 ensures items[1..][i] != items[0] {
      assert items[1..][i] == ring[i + 2];
    }
  }

  lemma DrainedFromLive<T>(p: PoolState<T>, items: seq<T>, ring: seq<T>)
    requires items != [] && ring != [] && Distinct(ring) && items == ring[1..]
    requires forall i :: 0 <= i < |items| ==> items[i] in p.live
    ensures forall i :: 0 <= i < |items| - 1 ==> items[1..][i] in p.Freed(items[0]).live
  {
    forall i | 0 <= i < |items| - 1 ensures items[1..][i] in p.Freed(items[0]).live {
      assert items[1..][i] == items[i + 1] == ring[i + 2] && items[0] == ring[1];
    }
  }

  /** The loop that threads a new block: `free_item_ptr` runs through the nodes and ends at the last. */
  method LinkBlock(nodes: seq<Item>)
    requires |nodes| == NITEMS && Distinct(nodes)
    modifies nodes
    ensures Chain(nodes[0], nodes)
  {
    var ptr := nodes[0];
    for ii := 0 to NITEMS - 1
      invariant ptr == nodes[ii]
      invariant forall k {:trigger nodes[k].next} :: 0 <= k < ii ==> nodes[k].next == nodes[k + 1]
    {
      ptr.next := nodes[ii + 1];
      ptr := ptr.next;
    }
    ptr.next := null;
  }

  /** The block malloc returns: NITEMS nodes nobody else holds. */
  method Xmalloc() returns (nodes: seq<Item>)
    ensures |nodes| == NITEMS && Distinct(nodes) && fresh(nodes)
  {
    nodes := [];
    while |nodes| < NITEMS
      invariant |nodes| <= NITEMS && Distinct(nodes) && fresh(nodes)
    {
      var node := new Item();
      nodes := nodes + [node];
    }
  }
}
