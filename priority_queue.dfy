/**
 * The scheduler's sorted-list queue of util/priority_queue.c.
 *
 * The queue is an intrusive doubly linked list of (priority, data) items kept
 * in non-decreasing priority order, so the most urgent item (the lowest
 * number) is at the front. It is modelled as a class whose `list` field is
 * the sequence of items from front to back. Every operation accepts a null
 * queue, as the source does.
 */
module PriorityQueueList {
  import opened Wrappers
  import opened Priorities

  /** errno values returned by priority_queue_add (Linux numbering). */
  const EINVAL: int := 22
  const ENOMEM: int := 12

  /** A list node: its stored priority and the caller's data pointer. */
  datatype Item<D> = Item(priority: int, data: D)

  class PriorityQueue<D> {
    var list: seq<Item<D>>

    /** priority_queue_new / priority_queue_initialize: an empty list. */
    constructor ()
      ensures list == []
    {
      list := [];
    }
  }

  /** priority_queue_new: a fresh empty queue, or null when calloc fails (allocOk false). */
  method New<D>(allocOk: bool) returns (q: PriorityQueue?<D>)
    ensures q != null <==> allocOk
    ensures q != null ==> fresh(q) && q.list == []
  {
    if !allocOk {
      return null;
    }
    q := new PriorityQueue();
  }

  /** A holder of a queue pointer, standing in for the `priority_queue_t **` that priority_queue_free takes. */
  class QueueRef<D> {
    var q: PriorityQueue?<D>

    constructor (q: PriorityQueue?<D>)
      ensures this.q == q
    {
      this.q := q;
    }
  }

  // ---------------------------------------------------------------------
  // The list order
  // ---------------------------------------------------------------------

  /** Priorities never decrease from front to back. */
  ghost predicate Sorted<D>(l: seq<Item<D>>) {
    forall i, j :: 0 <= i < j < |l| ==> l[i].priority <= l[j].priority
  }

  /** Sorted, with every stored priority in [highest, lowest]: the shape the scheduler keeps. */
  ghost predicate Ordered<D>(pc: PriorityConstants, l: seq<Item<D>>) {
    Sorted(l) && forall i :: 0 <= i < |l| ==> pc.InRange(l[i].priority)
  }

  /**
   * The ordinary insertion: before the first item whose priority is at
   * least the new one's, or at the back when there is none.
   */
  function InsertBefore<D>(l: seq<Item<D>>, it: Item<D>): (r: seq<Item<D>>)
    ensures |r| == |l| + 1
  {
    if l == [] then [it]
    else if l[0].priority >= it.priority then [it] + l
    else [l[0]] + InsertBefore(l[1..], it)
  }

  /** The priority priority_queue_add stores: HEAD becomes highest, TAIL and DEFAULT become lowest. */
  function StoredPriority(pc: PriorityConstants, p: int): (s: int)
    ensures p == pc.head ==> s == pc.highest
    ensures p != pc.head && (p == pc.tail || p == pc.defaultPriority) ==> s == pc.lowest
    ensures p != pc.head && p != pc.tail && p != pc.defaultPriority ==> s == p
  {
    if p == pc.head then pc.highest
    else if p == pc.tail || p == pc.defaultPriority then pc.lowest
    else p
  }

  /** The list after a successful priority_queue_add of data with priority p. */
  function Added<D>(pc: PriorityConstants, l: seq<Item<D>>, p: int, data: D): seq<Item<D>> {
    if p == pc.head then [Item(pc.highest, data)] + l
    else if p == pc.tail then l + [Item(pc.lowest, data)]
    else InsertBefore(l, Item(StoredPriority(pc, p), data))
  }

  /**
   * Where the ordinary insertion puts an item of priority p: the index of
   * the first item whose priority is at least p, or the length of the list.
   */
  function InsertIndex<D>(l: seq<Item<D>>, p: int): (k: int)
    ensures 0 <= k <= |l|
    ensures forall j :: 0 <= j < k ==> l[j].priority < p
    ensures k < |l| ==> l[k].priority >= p
  {
    if l == [] || l[0].priority >= p then 0 else 1 + InsertIndex(l[1..], p)
  }

  /** The ordinary insertion at a known position: the loop of priority_queue_add stops there. */
  lemma {:induction false} InsertBeforeAt<D>(l: seq<Item<D>>, it: Item<D>, k: int)
    requires 0 <= k <= |l|
    requires forall j :: 0 <= j < k ==> l[j].priority < it.priority
    requires k < |l| ==> l[k].priority >= it.priority
    ensures InsertBefore(l, it) == l[..k] + [it] + l[k..]
    decreases k
  {
    if k == 0 {
      assert l[..0] + [it] + l[0..] == [it] + l;
    } else {
      InsertBeforeAt(l[1..], it, k - 1);
      assert l[..k] == [l[0]] + l[1..][..k - 1];
      assert l[k..] == l[1..][k - 1..];
    }
  }

  /** The ordinary insertion adds exactly the new item and keeps every other one. */
  lemma {:induction false} InsertBeforeMultiset<D>(l: seq<Item<D>>, it: Item<D>)
    ensures multiset(InsertBefore(l, it)) == multiset(l) + multiset{it}
  {
    if l != [] && l[0].priority < it.priority {
      InsertBeforeMultiset(l[1..], it);
      assert l == [l[0]] + l[1..];
    }
  }

  /** The element at position i of a list with it inserted at position k. */
  lemma InsertedAt<D>(l: seq<Item<D>>, it: Item<D>, k: int, i: int)
    requires 0 <= k <= |l| && 0 <= i <= |l|
    ensures (l[..k] + [it] + l[k..])[i] == if i < k then l[i] else if i == k then it else l[i - 1]
  {
  }

  /** The ordinary insertion keeps a sorted list sorted. */
  lemma {:induction false} InsertBeforeSorted<D>(l: seq<Item<D>>, it: Item<D>)
    requires Sorted(l)
    ensures Sorted(InsertBefore(l, it))
  {
    var k := InsertIndex(l, it.priority);
    InsertBeforeAt(l, it, k);
    var r := l[..k] + [it] + l[k..];
    forall i, j | 0 <= i < j < |r| ensures r[i].priority <= r[j].priority {
      InsertedAt(l, it, k, i);
      InsertedAt(l, it, k, j);
      if i == k && j > k {
        assert l[k].priority <= l[j - 1].priority;
      }
    }
  }

  /** The ordinary insertion of an item in range keeps every priority in range. */
  lemma InsertBeforeInRange<D>(pc: PriorityConstants, l: seq<Item<D>>, it: Item<D>)
    requires forall i :: 0 <= i < |l| ==> pc.InRange(l[i].priority)
    requires pc.InRange(it.priority)
    ensures var r := InsertBefore(l, it); forall i :: 0 <= i < |r| ==> pc.InRange(r[i].priority)
  {
    var k := InsertIndex(l, it.priority);
    InsertBeforeAt(l, it, k);
    forall i | 0 <= i <= |l| ensures pc.InRange((l[..k] + [it] + l[k..])[i].priority) {
      InsertedAt(l, it, k, i);
    }
  }

  /**
   * In a sorted list the new item lands after every item of smaller priority
   * and before every item of equal or larger priority: FIFO among equal
   * priorities does not hold, the newest item goes first.
   */
  lemma NewItemBeforeEqual<D>(l: seq<Item<D>>, it: Item<D>)
    requires Sorted(l)
    ensures var r := InsertBefore(l, it);
      exists k :: (0 <= k < |r| && r[k] == it
        && (forall j :: 0 <= j < k ==> r[j].priority < it.priority)
        && (forall j :: k < j < |r| ==> r[j].priority >= it.priority))
  {
    var k := InsertIndex(l, it.priority);
    InsertBeforeAt(l, it, k);
    var r := InsertBefore(l, it);
    assert r[k] == it;
    forall j | 0 <= j < k ensures r[j].priority < it.priority {
      assert r[j] == l[j];
    }
    forall j | k < j < |r| ensures r[j].priority >= it.priority {
      assert r[j] == l[j - 1];
      assert l[k].priority <= l[j - 1].priority;
    }
  }

  /**
   * A successful add keeps the scheduler's shape: a sorted list within
   * [highest, lowest] stays so when the stored priority is in that range
   * (always for HEAD, TAIL and DEFAULT).
   */
  lemma AddKeepsOrdered<D>(pc: PriorityConstants, l: seq<Item<D>>, p: int, data: D)
    requires pc.Valid() && Ordered(pc, l) && pc.InRange(StoredPriority(pc, p))
    ensures Ordered(pc, Added(pc, l, p, data))
  {
    var r := Added(pc, l, p, data);
    if p == pc.head {
      assert forall i :: 0 < i < |r| ==> r[i] == l[i - 1];
    } else if p == pc.tail {
      assert forall i :: 0 <= i < |l| ==> r[i] == l[i];
    } else {
      var it := Item(StoredPriority(pc, p), data);
      InsertBeforeSorted(l, it);
      InsertBeforeInRange(pc, l, it);
      assert r == InsertBefore(l, it);
    }
  }

  /** A successful add stores exactly one new item, with its data, and keeps all the others. */
  lemma AddedContents<D>(pc: PriorityConstants, l: seq<Item<D>>, p: int, data: D)
    ensures multiset(Added(pc, l, p, data)) == multiset(l) + multiset{Item(StoredPriority(pc, p), data)}
  {
    if p != pc.head && p != pc.tail {
      InsertBeforeMultiset(l, Item(StoredPriority(pc, p), data));
    }
  }

  // ---------------------------------------------------------------------
  // Operations
  // ---------------------------------------------------------------------

  /**
   * priority_queue_add. A null queue or null data gives EINVAL and a failed
   * allocation (allocOk false) ENOMEM, both with the list unchanged.
   * Otherwise HEAD pushes the item on the front with priority highest, TAIL
   * appends it with priority lowest, and any other priority (DEFAULT read as
   * lowest) is inserted before the first item of equal or larger priority.
   * The asserts of the source on p are its precondition.
   */
  method Add<D>(q: PriorityQueue?<D>, pc: PriorityConstants, p: int, o: Option<D>, allocOk: bool) returns (rc: int)
    requires p >= pc.highest && p != pc.invalid
    modifies q
    ensures rc == 0 || rc == EINVAL || rc == ENOMEM
    ensures rc == EINVAL <==> q == null || o.None?
    ensures rc == ENOMEM <==> q != null && o.Some? && !allocOk
    ensures q != null && rc != 0 ==> q.list == old(q.list)
    ensures rc == 0 ==> q != null && o.Some? && q.list == Added(pc, old(q.list), p, o.value)
  {
    if q == null || o.None? {
      return EINVAL;
    }
    if !allocOk {
      return ENOMEM;
    }
    var data := o.value;
    if p == pc.head {
      q.list := [Item(pc.highest, data)] + q.list;
      return 0;
    }
    if p == pc.tail {
      q.list := q.list + [Item(pc.lowest, data)];
      return 0;
    }
    var pr := p;
    if pr == pc.defaultPriority {
      pr := pc.lowest;
    }
    var it := Item(pr, data);
    var i := 0;
    while i < |q.list|
      invariant 0 <= i <= |q.list| && q.list == old(q.list)
      invariant forall j :: 0 <= j < i ==> q.list[j].priority < pr
    {
      if q.list[i].priority >= pr {
        InsertBeforeAt(q.list, it, i);
        q.list := q.list[..i] + [it] + q.list[i..];
        return 0;
      }
      i := i + 1;
    }
    InsertBeforeAt(q.list, it, i);
    q.list := q.list + [it];
    return 0;
  }

  /** priority_queue_next: pop the front item and return its data; None for a null or empty queue. */
  method Next<D>(q: PriorityQueue?<D>) returns (o: Option<D>)
    modifies q
    ensures q == null ==> o.None?
    ensures q != null && old(q.list) == [] ==> o.None? && q.list == []
    ensures q != null && old(q.list) != [] ==> o == Some(old(q.list)[0].data) && q.list == old(q.list)[1..]
  {
    if q == null {
      return None;
    }
    if q.list == [] {
      return None;
    }
    var i := q.list[0];
    q.list := q.list[1..];
    return Some(i.data);
  }

  /** priority_queue_highest: the front item's priority; INVALID for a null or empty queue. */
  method Highest<D>(q: PriorityQueue?<D>, pc: PriorityConstants) returns (p: int)
    ensures q == null || q.list == [] ==> p == pc.invalid
    ensures q != null && q.list != [] ==> p == q.list[0].priority
    ensures q != null && Sorted(q.list) ==> forall i :: 0 <= i < |q.list| ==> p <= q.list[i].priority
  {
    if q == null {
      return pc.invalid;
    }
    if q.list == [] {
      return pc.invalid;
    }
    p := q.list[0].priority;
    assert forall i :: 0 < i < |q.list| && Sorted(q.list) ==> q.list[0].priority <= q.list[i].priority;
  }

  /** priority_queue_count: the number of items; -1 for a null queue. */
  method Count<D>(q: PriorityQueue?<D>) returns (n: int)
    ensures q == null ==> n == -1
    ensures q != null ==> n == |q.list| && n >= 0
  {
    if q == null {
      return -1;
    }
    n := |q.list|;
  }

  /** priority_queue_clear: unlink and free the items one by one from the front; nothing for a null queue. */
  method Clear<D>(q: PriorityQueue?<D>)
    modifies q
    ensures q != null ==> q.list == []
  {
    if q != null {
      while q.list != []
        decreases |q.list|
      {
        q.list := q.list[1..];
      }
    }
  }

  /**
   * priority_queue_free: clear the queue the holder points to and set the
   * holder to null; nothing when the holder itself is null.
   */
  method Free<D>(pq: QueueRef?<D>)
    modifies pq, if pq != null && pq.q != null then {pq.q} else {}
    ensures pq != null ==> pq.q == null
    ensures pq != null && old(pq.q) != null ==> old(pq.q).list == []
  {
    if pq != null {
      var q := pq.q;
      if q != null {
        Clear(q);
      }
      pq.q := null;
    }
  }

  /**
   * priority_queue_foreach: call the callback on every item's data from
   * front to back; nothing for a null queue. The callback is opaque, so the
   * model returns the data it is handed, in call order.
   */
  method ForEach<D>(q: PriorityQueue?<D>) returns (calls: seq<D>)
    ensures q == null ==> calls == []
    ensures q != null ==> |calls| == |q.list| && forall i :: 0 <= i < |calls| ==> calls[i] == q.list[i].data
  {
    calls := [];
    if q == null {
      return;
    }
    var i := 0;
    while i < |q.list|
      invariant 0 <= i <= |q.list| && |calls| == i
      invariant forall k :: 0 <= k < i ==> calls[k] == q.list[k].data
    {
      calls := calls + [q.list[i].data];
      i := i + 1;
    }
  }
}
