/**
 * The indexed binary min-heap of util/pqueue.c.
 *
 * The queue keeps an array of item references ordered as a binary heap on
 * their priorities. Every item embeds a record {ix, priority} that the queue
 * writes: ix is the item's current slot, which is what lets an arbitrary item
 * be deleted or re-prioritised without a search. Those caller-owned records
 * are modelled as the map `ents` from item to record, held by the queue.
 */
module Pqueue {
  import opened Wrappers

  /** The record embedded in every queued item (struct pqueue_ent). */
  datatype PqEnt = PqEnt(ix: int, priority: int)

  /** The slot arithmetic of the left, right and parent macros. */
  function Left(n: int): int { (n + 1) * 2 - 1 }
  function Right(n: int): int { (n + 1) * 2 }
  function Parent(n: int): int { (n + 1) / 2 - 1 }

  /** Children know their parent, and every slot but the root has one. */
  lemma SlotArithmetic(n: int)
    requires n >= 0
    ensures Parent(Left(n)) == n && Parent(Right(n)) == n
    ensures Left(n) > n && Right(n) == Left(n) + 1
    ensures n > 0 ==> 0 <= Parent(n) < n && (n == Left(Parent(n)) || n == Right(Parent(n)))
  {
  }

  // ---------------------------------------------------------------------
  // Heap order on the priorities by slot
  // ---------------------------------------------------------------------

  /** Every parent's priority is at most its child's (what `check` verifies). */
  ghost predicate HeapOrder(s: seq<int>) {
    forall i :: 0 < i < |s| ==> s[Parent(i)] <= s[i]
  }

  /**
   * Heap order except on the edge into slot k, whose parent still bounds k's
   * children: the state fixup works on while an entry moves up.
   */
  ghost predicate HeapExceptUp(s: seq<int>, k: int) {
    && (forall i :: 0 < i < |s| && i != k ==> s[Parent(i)] <= s[i])
    && (0 < k < |s| ==> forall c :: 0 < c < |s| && Parent(c) == k ==> s[Parent(k)] <= s[c])
  }

  /**
   * Heap order except on the edges out of slot k, whose parent still bounds
   * k's children: the state fixdown works on while an entry moves down.
   */
  ghost predicate HeapExceptDown(s: seq<int>, k: int) {
    && (forall i :: 0 < i < |s| && Parent(i) != k ==> s[Parent(i)] <= s[i])
    && (0 < k < |s| ==> forall c :: 0 < c < |s| && Parent(c) == k ==> s[Parent(k)] <= s[c])
  }

  /** The children of slot k are exactly Left(k) and Right(k). */
  lemma ChildrenOf(k: int, c: int)
    requires k >= 0 && c > 0
    ensures Parent(c) == k <==> c == Left(k) || c == Right(k)
  {
  }

  /** A full heap is in particular ordered around any slot. */
  lemma HeapOrderExcept(s: seq<int>, k: int)
    requires HeapOrder(s) && 0 <= k < |s|
    ensures HeapExceptUp(s, k) && HeapExceptDown(s, k)
  {
    if 0 < k {
      forall c | 0 < c < |s| && Parent(c) == k ensures s[Parent(k)] <= s[c] {
        assert s[Parent(k)] <= s[k] <= s[c];
      }
    }
  }

  /** One step of fixup: swapping an entry smaller than its parent moves the defect up to the parent. */
  lemma UpStep(s: seq<int>, k: int)
    requires 0 < k < |s| && HeapExceptUp(s, k) && s[k] < s[Parent(k)]
    ensures HeapExceptUp(Swapped(s, k, Parent(k)), Parent(k))
  {
    UpStepEdges(s, k);
    UpStepGrandparent(s, k);
  }

  /** After the fixup swap, every edge but the one into the parent's slot is in order. */
  lemma UpStepEdges(s: seq<int>, k: int)
    requires 0 < k < |s| && HeapExceptUp(s, k) && s[k] < s[Parent(k)]
    ensures var p, t := Parent(k), Swapped(s, k, Parent(k));
            forall i :: 0 < i < |t| && i != p ==> t[Parent(i)] <= t[i]
  {
    var p := Parent(k);
    var t := Swapped(s, k, p);
    SlotArithmetic(k);
    forall i | 0 < i < |t| && i != p ensures t[Parent(i)] <= t[i] {
      SlotArithmetic(i);
      if i == k {
      } else if Parent(i) == p {
        assert s[p] <= s[i];
      } else if Parent(i) == k {
        assert s[p] <= s[i];
      } else {
        assert t[Parent(i)] == s[Parent(i)] && t[i] == s[i];
      }
    }
  }

  /** After the fixup swap, the grandparent still bounds the children of the parent's slot. */
  lemma UpStepGrandparent(s: seq<int>, k: int)
    requires 0 < k < |s| && HeapExceptUp(s, k) && s[k] < s[Parent(k)]
    ensures var p, t := Parent(k), Swapped(s, k, Parent(k));
            0 < p ==> forall c :: 0 < c < |t| && Parent(c) == p ==> t[Parent(p)] <= t[c]
  {
    var p := Parent(k);
    var t := Swapped(s, k, p);
    SlotArithmetic(k);
    if 0 < p {
      SlotArithmetic(p);
      forall c | 0 < c < |t| && Parent(c) == p ensures t[Parent(p)] <= t[c] {
        assert s[Parent(p)] <= s[p];
        if c != k { assert s[p] <= s[c]; }
      }
    }
  }

  /** fixup ends well: with the edge into k in order, the whole sequence is a heap. */
  lemma UpDone(s: seq<int>, k: int)
    requires 0 <= k < |s| && HeapExceptUp(s, k) && (k == 0 || s[Parent(k)] <= s[k])
    ensures HeapOrder(s)
  {
  }

  /**
   * One step of fixdown: swapping an entry with its smallest child, when that
   * child is smaller, moves the defect down to the child.
   */
  lemma DownStep(s: seq<int>, k: int, n: int)
    requires 0 <= k < n < |s| && Parent(n) == k && HeapExceptDown(s, k)
    requires forall c :: 0 < c < |s| && Parent(c) == k ==> s[n] <= s[c]
    requires s[n] < s[k]
    ensures HeapExceptDown(Swapped(s, k, n), n)
  {
    var t := Swapped(s, k, n);
    forall i | 0 < i < |t| && Parent(i) != n ensures t[Parent(i)] <= t[i] {
      SlotArithmetic(i);
      if i == n {
      } else if i == k {
        assert s[Parent(k)] <= s[n];
      } else if Parent(i) == k {
        assert s[n] <= s[i];
      } else {
        assert t[Parent(i)] == s[Parent(i)] && t[i] == s[i];
      }
    }
    forall c | 0 < c < |t| && Parent(c) == n ensures t[Parent(n)] <= t[c] {
      SlotArithmetic(c);
      assert s[n] <= s[c];
    }
  }

  /** The child fixdown follows from slot k: the only child, else the right one when strictly smaller, else the left. */
  function NextDown(s: seq<int>, k: int): int
    requires 0 <= k && Left(k) < |s|
  {
    if Right(k) >= |s| then Left(k)
    else if s[Right(k)] < s[Left(k)] then Right(k) else Left(k)
  }

  /**
   * The choice fixdown makes at slot k (the only child, else the right child
   * when strictly smaller than the left, else the left): swapping with it
   * when it is smaller moves the defect down to it, and otherwise nothing
   * is out of order.
   */
  lemma DownChoice(s: seq<int>, k: int)
    requires 0 <= k < |s| && Left(k) < |s| && HeapExceptDown(s, k)
    ensures var next := NextDown(s, k);
            && k < next < |s|
            && (s[next] < s[k] ==> HeapExceptDown(Swapped(s, k, next), next))
            && (!(s[next] < s[k]) ==> HeapExceptDown(s, next))
  {
    var next := NextDown(s, k);
    SlotArithmetic(k);
    forall c | 0 < c < |s| ensures Parent(c) == k <==> c == Left(k) || c == Right(k) {
      ChildrenOf(k, c);
    }
    if s[next] < s[k] {
      DownStep(s, k, next);
    } else {
      DownDone(s, k);
      HeapOrderExcept(s, next);
    }
  }

  /** fixdown ends at a leaf, and a defect at a leaf is none. */
  lemma DownLeaf(s: seq<int>, k: int)
    requires 0 <= k && Left(k) >= |s| && HeapExceptDown(s, k)
    ensures HeapOrder(s)
  {
    forall c | 0 < c < |s| ensures Parent(c) != k {
      ChildrenOf(k, c);
    }
    if k < |s| {
      DownDone(s, k);
    }
  }

  /** fixdown ends well: when k is no larger than its children, the whole sequence is a heap. */
  lemma DownDone(s: seq<int>, k: int)
    requires 0 <= k < |s| && HeapExceptDown(s, k)
    requires forall c :: 0 < c < |s| && Parent(c) == k ==> s[k] <= s[c]
    ensures HeapOrder(s)
  {
  }

  /** The root of a heap-ordered sequence holds its least priority. */
  lemma {:induction false} RootIsMin(s: seq<int>, i: int)
    requires HeapOrder(s) && 0 <= i < |s|
    ensures s[0] <= s[i]
    decreases i
  {
    if i > 0 {
      SlotArithmetic(i);
      RootIsMin(s, Parent(i));
    }
  }

  /** The priorities of a sequence of items, read from their records. */
  function PrioritiesOf<T>(xs: seq<T>, m: map<T, PqEnt>): (ps: seq<int>)
    requires forall i :: 0 <= i < |xs| ==> xs[i] in m
    ensures |ps| == |xs|
    ensures forall i :: 0 <= i < |xs| ==> ps[i] == m[xs[i]].priority
  {
    seq(|xs|, i requires 0 <= i < |xs| => m[xs[i]].priority)
  }

  /** Every item of the sequence has a record naming its own position. */
  ghost predicate IndexedBy<T>(xs: seq<T>, m: map<T, PqEnt>) {
    forall i :: 0 <= i < |xs| ==> xs[i] in m && m[xs[i]].ix == i
  }

  /**
   * The queued items with their priorities: each item whose record names a
   * slot of the sequence that holds it (as the sequence is indexed, these are
   * exactly its elements).
   */
  ghost function ContentsOf<T>(xs: seq<T>, m: map<T, PqEnt>): map<T, int>
    requires IndexedBy(xs, m)
  {
    map x | x in m && 0 <= m[x].ix < |xs| && xs[m[x].ix] == x :: m[x].priority
  }

  /** Two record maps that agree on every priority. */
  ghost predicate SamePriorities<T>(m: map<T, PqEnt>, m': map<T, PqEnt>) {
    m.Keys == m'.Keys && forall x :: x in m ==> m'[x].priority == m[x].priority
  }

  /** The records of items outside a set are the same in both maps. */
  ghost predicate RecordsKeptOutside<T>(m: map<T, PqEnt>, m': map<T, PqEnt>, held: map<T, int>) {
    forall x :: x in m && x !in held ==> x in m' && m'[x] == m[x]
  }

  /** No item occupies two positions of an indexed sequence. */
  lemma IndexedDistinct<T>(xs: seq<T>, m: map<T, PqEnt>, i: int, j: int)
    requires IndexedBy(xs, m) && 0 <= i < |xs| && 0 <= j < |xs| && i != j
    ensures xs[i] != xs[j]
  {
  }

  /** The sequence with positions e1 and e2 exchanged. */
  function Swapped<T>(xs: seq<T>, e1: int, e2: int): seq<T>
    requires 0 <= e1 < |xs| && 0 <= e2 < |xs|
  {
    xs[e1 := xs[e2]][e2 := xs[e1]]
  }

  /** The records after swap has rewritten the ix of the two items exchanged. */
  function SwappedRecords<T>(xs: seq<T>, m: map<T, PqEnt>, e1: int, e2: int): map<T, PqEnt>
    requires 0 <= e1 < |xs| && 0 <= e2 < |xs| && xs[e1] in m && xs[e2] in m
  {
    m[xs[e2] := m[xs[e2]].(ix := e1)][xs[e1] := m[xs[e1]].(ix := e2)]
  }

  /** After a swap the sequence is still indexed by its records. */
  lemma SwapIndexed<T>(xs: seq<T>, m: map<T, PqEnt>, e1: int, e2: int)
    requires IndexedBy(xs, m) && 0 <= e1 < |xs| && 0 <= e2 < |xs| && e1 != e2
    ensures IndexedBy(Swapped(xs, e1, e2), SwappedRecords(xs, m, e1, e2))
    ensures SamePriorities(m, SwappedRecords(xs, m, e1, e2))
  {
    var xs', m' := Swapped(xs, e1, e2), SwappedRecords(xs, m, e1, e2);
    IndexedDistinct(xs, m, e1, e2);
    forall i | 0 <= i < |xs'| ensures xs'[i] in m' && m'[xs'[i]].ix == i {
      if i != e1 && i != e2 {
        IndexedDistinct(xs, m, i, e1);
        IndexedDistinct(xs, m, i, e2);
      }
    }
  }

  /** A swap exchanges the two priorities and keeps the others. */
  lemma SwapPriorities<T>(xs: seq<T>, m: map<T, PqEnt>, e1: int, e2: int)
    requires IndexedBy(xs, m) && 0 <= e1 < |xs| && 0 <= e2 < |xs| && e1 != e2
    ensures PrioritiesOf(Swapped(xs, e1, e2), SwappedRecords(xs, m, e1, e2)) == Swapped(PrioritiesOf(xs, m), e1, e2)
  {
    SwapIndexed(xs, m, e1, e2);
  }

  /** A swap keeps the contents, and the records of items outside the sequence. */
  lemma SwapContents<T>(xs: seq<T>, m: map<T, PqEnt>, e1: int, e2: int)
    requires IndexedBy(xs, m) && 0 <= e1 < |xs| && 0 <= e2 < |xs| && e1 != e2
    ensures IndexedBy(Swapped(xs, e1, e2), SwappedRecords(xs, m, e1, e2))
    ensures ContentsOf(Swapped(xs, e1, e2), SwappedRecords(xs, m, e1, e2)) == ContentsOf(xs, m)
    ensures RecordsKeptOutside(m, SwappedRecords(xs, m, e1, e2), ContentsOf(xs, m))
  {
    var xs', m' := Swapped(xs, e1, e2), SwappedRecords(xs, m, e1, e2);
    SwapIndexed(xs, m, e1, e2);
    assert forall x :: x in xs' <==> x in xs by {
      forall x | x in xs ensures x in xs' {
        var i :| 0 <= i < |xs| && xs[i] == x;
        if i == e1 { assert xs'[e2] == x; } else if i == e2 { assert xs'[e1] == x; } else { assert xs'[i] == x; }
      }
    }
  }

  /** The sequence with its last element moved into position ix and dropped from the end. */
  function LastMovedTo<T>(xs: seq<T>, ix: int): (r: seq<T>)
    requires 0 <= ix < |xs|
    ensures |r| == |xs| - 1
    ensures forall i :: 0 <= i < |r| ==> r[i] == if i == ix then xs[|xs| - 1] else xs[i]
  {
    xs[ix := xs[|xs| - 1]][..|xs| - 1]
  }

  /** The records after the last item of xs has moved into slot ix. */
  function MovedRecords<T>(xs: seq<T>, m: map<T, PqEnt>, ix: int): map<T, PqEnt>
    requires 0 <= ix < |xs| && xs[|xs| - 1] in m
  {
    m[xs[|xs| - 1] := m[xs[|xs| - 1]].(ix := ix)]
  }

  /** x holds the least priority of the contents c. */
  ghost predicate IsMinimum<T>(c: map<T, int>, x: T) {
    x in c && forall y :: y in c ==> c[x] <= c[y]
  }

  /** The item in the first slot of an indexed heap has the least priority of all queued items. */
  lemma FirstIsMinimum<T>(xs: seq<T>, m: map<T, PqEnt>)
    requires IndexedBy(xs, m) && HeapOrder(PrioritiesOf(xs, m)) && |xs| > 0
    ensures IsMinimum(ContentsOf(xs, m), xs[0])
  {
    var c := ContentsOf(xs, m);
    forall y | y in c ensures c[xs[0]] <= c[y] {
      var i :| 0 <= i < |xs| && xs[i] == y;
      RootIsMin(PrioritiesOf(xs, m), i);
    }
  }

  /** Appending an item not yet queued, with a record naming the new last slot. */
  lemma AppendItem<T>(xs: seq<T>, m: map<T, PqEnt>, item: T, p: int)
    requires IndexedBy(xs, m) && item !in xs
    ensures IndexedBy(xs + [item], m[item := PqEnt(|xs|, p)])
    ensures PrioritiesOf(xs + [item], m[item := PqEnt(|xs|, p)]) == PrioritiesOf(xs, m) + [p]
    ensures ContentsOf(xs + [item], m[item := PqEnt(|xs|, p)]) == ContentsOf(xs, m)[item := p]
    ensures RecordsKeptOutside(m, m[item := PqEnt(|xs|, p)], ContentsOf(xs, m)[item := p])
  {
    var xs', m' := xs + [item], m[item := PqEnt(|xs|, p)];
    assert IndexedBy(xs', m');
    assert forall x :: x in xs' <==> x in xs || x == item;
  }

  /** A heap with one priority appended is out of order at most on the edge into the new slot. */
  lemma AppendExceptUp(s: seq<int>, p: int)
    requires HeapOrder(s)
    ensures HeapExceptUp(s + [p], |s|)
  {
    var t := s + [p];
    forall i | 0 < i < |t| && i != |s| ensures t[Parent(i)] <= t[i] {
      SlotArithmetic(i);
    }
  }

  /**
   * Moving the last item into slot ix (and rewriting its record's ix) keeps
   * the sequence indexed, drops exactly the item that was at ix, and leaves
   * the record of that item as it was.
   */
  lemma MoveLastIndexed<T>(xs: seq<T>, m: map<T, PqEnt>, ix: int)
    requires IndexedBy(xs, m) && 0 <= ix < |xs|
    ensures IndexedBy(LastMovedTo(xs, ix), MovedRecords(xs, m, ix))
    ensures SamePriorities(m, MovedRecords(xs, m, ix))
    ensures MovedRecords(xs, m, ix)[xs[ix]] == m[xs[ix]]
  {
    var n := |xs| - 1;
    var xs', m' := LastMovedTo(xs, ix), MovedRecords(xs, m, ix);
    forall i | 0 <= i < |xs'| ensures xs'[i] in m' && m'[xs'[i]].ix == i {
      if i != ix {
        IndexedDistinct(xs, m, i, n);
      }
    }
  }

  /** Moving the last item into slot ix removes exactly the item at ix from the sequence. */
  lemma MoveLastMembers<T>(xs: seq<T>, m: map<T, PqEnt>, ix: int)
    requires IndexedBy(xs, m) && 0 <= ix < |xs|
    ensures forall x :: x in LastMovedTo(xs, ix) <==> x in xs && x != xs[ix]
  {
    var n := |xs| - 1;
    var xs' := LastMovedTo(xs, ix);
    forall x | x in xs' ensures x in xs && x != xs[ix] {
      var i :| 0 <= i < |xs'| && xs'[i] == x;
      if i == ix {
        IndexedDistinct(xs, m, ix, n);
      } else {
        IndexedDistinct(xs, m, i, ix);
      }
    }
    forall x | x in xs && x != xs[ix] ensures x in xs' {
      var j :| 0 <= j < |xs| && xs[j] == x;
      if j == n {
        assert xs'[ix] == x;
      } else {
        assert xs'[j] == x;
      }
    }
  }

  /** Moving the last item into slot ix removes the item at ix from the contents and keeps the other records. */
  lemma MoveLastContents<T>(xs: seq<T>, m: map<T, PqEnt>, ix: int)
    requires IndexedBy(xs, m) && 0 <= ix < |xs|
    ensures IndexedBy(LastMovedTo(xs, ix), MovedRecords(xs, m, ix))
    ensures ContentsOf(LastMovedTo(xs, ix), MovedRecords(xs, m, ix)) == ContentsOf(xs, m) - {xs[ix]}
    ensures RecordsKeptOutside(m, MovedRecords(xs, m, ix), ContentsOf(LastMovedTo(xs, ix), MovedRecords(xs, m, ix)))
  {
    var n := |xs| - 1;
    var xs', m' := LastMovedTo(xs, ix), MovedRecords(xs, m, ix);
    MoveLastIndexed(xs, m, ix);
    MoveLastMembers(xs, m, ix);
    var c, c' := ContentsOf(xs, m), ContentsOf(xs', m');
    assert c'.Keys == (c - {xs[ix]}).Keys;
    assert c' == c - {xs[ix]};
    if ix == n {
      assert m' == m;
    }
  }

  /** Moving the last item into slot ix moves its priority the same way. */
  lemma MoveLastPriorities<T>(xs: seq<T>, m: map<T, PqEnt>, ix: int)
    requires IndexedBy(xs, m) && 0 <= ix < |xs|
    ensures IndexedBy(LastMovedTo(xs, ix), MovedRecords(xs, m, ix))
    ensures PrioritiesOf(LastMovedTo(xs, ix), MovedRecords(xs, m, ix)) == LastMovedTo(PrioritiesOf(xs, m), ix)
  {
    MoveLastIndexed(xs, m, ix);
  }

  /**
   * What pqueue_remove_next does to a heap of two or more items: moving the
   * last item to the root drops the first item, keeps the other records, and
   * leaves only the edges out of the root to be put in order.
   */
  lemma RemoveFirst<T>(xs: seq<T>, m: map<T, PqEnt>)
    requires IndexedBy(xs, m) && HeapOrder(PrioritiesOf(xs, m)) && |xs| > 1
    ensures IndexedBy(LastMovedTo(xs, 0), MovedRecords(xs, m, 0))
    ensures SamePriorities(m, MovedRecords(xs, m, 0))
    ensures ContentsOf(LastMovedTo(xs, 0), MovedRecords(xs, m, 0)) == ContentsOf(xs, m) - {xs[0]}
    ensures RecordsKeptOutside(m, MovedRecords(xs, m, 0), ContentsOf(xs, m) - {xs[0]})
    ensures HeapExceptDown(PrioritiesOf(LastMovedTo(xs, 0), MovedRecords(xs, m, 0)), 0)
  {
    MoveLastIndexed(xs, m, 0);
    MoveLastContents(xs, m, 0);
    MoveLastPriorities(xs, m, 0);
    MoveLastDown(PrioritiesOf(xs, m), 0);
  }

  /**
   * After the last priority moves into slot ix > 0, when it is smaller than
   * its new parent the slot was not the last one, and only the edge into ix
   * can be out of order.
   */
  lemma MoveLastUp(s: seq<int>, ix: int)
    requires HeapOrder(s) && 0 < ix < |s| && s[|s| - 1] < s[Parent(ix)]
    ensures ix < |s| - 1 && HeapExceptUp(LastMovedTo(s, ix), ix)
  {
    var t := LastMovedTo(s, ix);
    SlotArithmetic(ix);
    forall i | 0 < i < |t| && i != ix ensures t[Parent(i)] <= t[i] {
      SlotArithmetic(i);
      if Parent(i) == ix {
        assert s[Parent(ix)] <= s[ix] <= s[i];
      }
    }
    forall c | 0 < c < |t| && Parent(c) == ix ensures t[Parent(ix)] <= t[c] {
      SlotArithmetic(c);
      assert s[Parent(ix)] <= s[ix] <= s[c];
    }
  }

  /**
   * After the last priority moves into slot ix, when ix is the root or the
   * moved priority is no smaller than its new parent, only the edges out of
   * ix can be out of order.
   */
  lemma MoveLastDown(s: seq<int>, ix: int)
    requires HeapOrder(s) && 0 <= ix < |s| && (ix == 0 || s[Parent(ix)] <= s[|s| - 1])
    ensures HeapExceptDown(LastMovedTo(s, ix), ix)
  {
    var t := LastMovedTo(s, ix);
    forall i | 0 < i < |t| && Parent(i) != ix ensures t[Parent(i)] <= t[i] {
      SlotArithmetic(i);
    }
    if 0 < ix < |t| {
      SlotArithmetic(ix);
      forall c | 0 < c < |t| && Parent(c) == ix ensures t[Parent(ix)] <= t[c] {
        SlotArithmetic(c);
        assert s[Parent(ix)] <= s[ix] <= s[c];
      }
    }
  }

  /** The record of a queued item names the slot that holds it. */
  lemma SlotOf<T>(xs: seq<T>, m: map<T, PqEnt>, x: T)
    requires IndexedBy(xs, m) && x in xs
    ensures x in m && 0 <= m[x].ix < |xs| && xs[m[x].ix] == x
  {
  }

  /**
   * What pqueue_delete_locked does to a heap when it moves the last item into
   * slot ix: the item at ix is dropped and the other records kept; the moved
   * item is compared with its new parent, and when it is smaller the slot
   * was not the last one and only the edge into ix is out of order, while
   * otherwise only the edges out of ix are.
   */
  lemma DeleteSlot<T>(xs: seq<T>, m: map<T, PqEnt>, ix: int)
    requires IndexedBy(xs, m) && HeapOrder(PrioritiesOf(xs, m)) && 0 <= ix < |xs|
    ensures IndexedBy(LastMovedTo(xs, ix), MovedRecords(xs, m, ix))
    ensures SamePriorities(m, MovedRecords(xs, m, ix))
    ensures ContentsOf(LastMovedTo(xs, ix), MovedRecords(xs, m, ix)) == ContentsOf(xs, m) - {xs[ix]}
    ensures RecordsKeptOutside(m, MovedRecords(xs, m, ix), ContentsOf(xs, m) - {xs[ix]})
    ensures ix > 0 ==> 0 <= Parent(ix) < ix && xs[Parent(ix)] in MovedRecords(xs, m, ix)
    ensures var m', t := MovedRecords(xs, m, ix), PrioritiesOf(LastMovedTo(xs, ix), MovedRecords(xs, m, ix));
            if ix > 0 && m'[xs[|xs| - 1]].priority < m'[xs[Parent(ix)]].priority
            then ix < |xs| - 1 && HeapExceptUp(t, ix)
            else HeapExceptDown(t, ix)
  {
    var n := |xs| - 1;
    var s := PrioritiesOf(xs, m);
    if ix > 0 && s[n] < s[Parent(ix)] {
      MoveLastUp(s, ix);
    } else {
      MoveLastDown(s, ix);
    }
    if ix > 0 {
      SlotArithmetic(ix);
      IndexedDistinct(xs, m, Parent(ix), n);
    }
    MoveLastIndexed(xs, m, ix);
    MoveLastContents(xs, m, ix);
    MoveLastPriorities(xs, m, ix);
  }

  /** Keeping the records outside a set, twice, keeps them. */
  lemma RecordsTransitive<T>(m0: map<T, PqEnt>, m1: map<T, PqEnt>, m2: map<T, PqEnt>, held: map<T, int>)
    requires SamePriorities(m0, m1) && RecordsKeptOutside(m0, m1, held)
    requires SamePriorities(m1, m2) && RecordsKeptOutside(m1, m2, held)
    ensures SamePriorities(m0, m2) && RecordsKeptOutside(m0, m2, held)
  {
  }

  /**
   * The progress of a drain that started from the contents c0: out holds
   * distinct items of c0 in non-decreasing priority order, rest holds the
   * others with their priorities, and nothing in rest is smaller than what
   * came out already.
   */
  ghost predicate Drained<T>(c0: map<T, int>, out: seq<T>, rest: map<T, int>) {
    && (forall x :: x in rest ==> x in c0 && rest[x] == c0[x])
    && (forall x :: x in c0 ==> (x in out <==> x !in rest))
    && (forall k :: 0 <= k < |out| ==> out[k] in c0)
    && (forall i, j :: 0 <= i < j < |out| ==> out[i] != out[j])
    && (forall i, j :: 0 <= i < j < |out| ==> c0[out[i]] <= c0[out[j]])
    && (forall k, x :: 0 <= k < |out| && x in rest ==> c0[out[k]] <= rest[x])
  }

  /** Taking a least item of what is left keeps the drain ordered and exact. */
  lemma DrainStep<T>(c0: map<T, int>, out: seq<T>, rest: map<T, int>, x: T)
    requires Drained(c0, out, rest) && IsMinimum(rest, x)
    ensures Drained(c0, out + [x], rest - {x})
  {
    var out' := out + [x];
    forall i, j | 0 <= i < j < |out'| ensures out'[i] != out'[j] {
      if j == |out| {
        assert out[i] in out;
      }
    }
  }

  /** Removing a key and setting it again is setting it. */
  lemma RemoveThenSet<T>(c: map<T, int>, x: T, v: int)
    ensures (c - {x})[x := v] == c[x := v]
  {
    assert (c - {x})[x := v].Keys == c[x := v].Keys;
  }

  class Queue<T(0, ==)> {
    /** The offset of the record in the caller's structure; kept, never used by the model. */
    var off: int
    var count: int
    /** pq->allocated: the number of slots the array provides. */
    var capacity: int
    var entries: array<T>
    /** The records embedded in the items, by item. */
    var ents: map<T, PqEnt>

    /** Slots in range, and every queued item's record names its own slot. */
    ghost predicate Indexed()
      reads this, entries
    {
      0 <= count <= capacity == entries.Length && IndexedBy(entries[..count], ents)
    }

    /** The class invariant: indexed and heap-ordered (util/pqueue.c `check`). */
    ghost predicate Valid()
      reads this, entries
    {
      Indexed() && HeapOrder(Prios())
    }

    /** The queued items, by slot. */
    ghost function Slots(): seq<T>
      reads this, entries
      requires 0 <= count <= entries.Length
    {
      entries[..count]
    }

    /** The queued items' priorities, by slot. */
    ghost function Prios(): seq<int>
      reads this, entries
      requires Indexed()
    {
      PrioritiesOf(Slots(), ents)
    }

    /** The abstract value: each queued item with its priority. */
    ghost function Contents(): map<T, int>
      reads this, entries
      requires Indexed()
    {
      ContentsOf(Slots(), ents)
    }

    /** The ent macro: the record of the item in slot n, which names slot n and holds the slot's priority. */
    function Ent(n: int): (e: PqEnt)
      reads this, entries
      requires Indexed() && 0 <= n < count
      ensures e.ix == n && e.priority == Prios()[n]
    {
      ents[entries[n]]
    }

    /** fixup: move the entry at slot id up while it is smaller than its parent. */
    method FixUp(id0: int)
      requires Indexed() && 0 <= id0 < count && HeapExceptUp(Prios(), id0)
      modifies this, entries
      ensures Valid()
      ensures entries == old(entries) && count == old(count) && capacity == old(capacity) && off == old(off)
      ensures Contents() == old(Contents())
      ensures SamePriorities(old(ents), ents) && RecordsKeptOutside(old(ents), ents, old(Contents()))
    {
      var id := id0;
      while id > 0
        invariant Indexed() && 0 <= id < count
        invariant entries == old(entries) && count == old(count) && capacity == old(capacity) && off == old(off)
        invariant HeapExceptUp(Prios(), id)
        invariant Contents() == old(Contents())
        invariant SamePriorities(old(ents), ents) && RecordsKeptOutside(old(ents), ents, old(Contents()))
        decreases id
      {
        SlotArithmetic(id);
        if Ent(id).priority < Ent(Parent(id)).priority {
          UpStep(Prios(), id);
          ghost var m := ents;
          Swap(id, Parent(id));
          RecordsTransitive(old(ents), m, ents, old(Contents()));
        } else {
          break;
        }
        id := Parent(id);
      }
      UpDone(Prios(), id);
    }

    /** The child fixdown moves to from slot id. */
    method SmallerChild(id: int) returns (next: int)
      requires Indexed() && 0 <= id && Left(id) < count
      ensures next == NextDown(Prios(), id)
    {
      if Right(id) >= count {
        next := Left(id);
      } else if Ent(Right(id)).priority < Ent(Left(id)).priority {
        next := Right(id);
      } else {
        next := Left(id);
      }
    }

    /**
     * fixdown: move the entry at slot id down, swapping it with its smaller
     * child while that child is smaller. Like the source, the walk goes on
     * down to a leaf even once no swap is needed. Slot id may be one past the
     * last (pqueue_delete_locked calls it so after deleting the last item),
     * and then nothing moves.
     */
    method FixDown(id0: int)
      requires Indexed() && 0 < count && 0 <= id0 <= count && HeapExceptDown(Prios(), id0)
      modifies this, entries
      ensures Valid()
      ensures entries == old(entries) && count == old(count) && capacity == old(capacity) && off == old(off)
      ensures Contents() == old(Contents())
      ensures SamePriorities(old(ents), ents) && RecordsKeptOutside(old(ents), ents, old(Contents()))
    {
      var id := id0;
      while Left(id) < count
        invariant Indexed() && 0 <= id <= count
        invariant entries == old(entries) && count == old(count) && capacity == old(capacity) && off == old(off)
        invariant HeapExceptDown(Prios(), id)
        invariant Contents() == old(Contents())
        invariant SamePriorities(old(ents), ents) && RecordsKeptOutside(old(ents), ents, old(Contents()))
        decreases count - id
      {
        var next := SmallerChild(id);
        ghost var before := Prios();
        DownChoice(before, id);
        if Ent(next).priority < Ent(id).priority {
          ghost var m := ents;
          Swap(id, next);
          RecordsTransitive(old(ents), m, ents, old(Contents()));
          assert HeapExceptDown(Swapped(before, id, next), next);
        } else {
          assert HeapExceptDown(before, next);
        }
        id := next;
      }
      DownLeaf(Prios(), id);
    }

    /** pqueue_new. */
    constructor (off: int)
      ensures Valid() && Contents() == map[]
      ensures this.off == off && count == 0 && capacity == 0
    {
      this.off := off;
      count, capacity := 0, 0;
      entries := new T[0];
      ents := map[];
    }

    /** swap: exchange two slots and rewrite both records' ix to match. */
    method Swap(e1: int, e2: int)
      requires Indexed() && 0 <= e1 < count && 0 <= e2 < count && e1 != e2
      modifies this, entries
      ensures Indexed()
      ensures entries == old(entries) && count == old(count) && capacity == old(capacity) && off == old(off)
      ensures Slots() == Swapped(old(Slots()), e1, e2)
      ensures Prios() == Swapped(old(Prios()), e1, e2)
      ensures Contents() == old(Contents())
      ensures SamePriorities(old(ents), ents) && RecordsKeptOutside(old(ents), ents, old(Contents()))
    {
      ghost var xs, m := Slots(), ents;
      var tmp := entries[e1];
      entries[e1] := entries[e2];
      entries[e2] := tmp;
      ents := ents[entries[e1] := ents[entries[e1]].(ix := e1)];
      ents := ents[entries[e2] := ents[entries[e2]].(ix := e2)];
      assert Slots() == Swapped(xs, e1, e2);
      assert ents == SwappedRecords(xs, m, e1, e2);
      SwapIndexed(xs, m, e1, e2);
      SwapPriorities(xs, m, e1, e2);
      SwapContents(xs, m, e1, e2);
    }

    /**
     * pqueue_add (pqueue_add_locked): append the item in a new last slot with
     * the given priority and move it up. A full array first grows to
     * capacity * 2 + 16 slots; growOk says whether that reallocation
     * succeeds, and when it does not the call returns -1 and changes nothing.
     */
    method Add(item: T, priority: int, growOk: bool) returns (rc: int)
      requires Valid() && item !in Contents()
      modifies this, entries
      ensures Valid() && off == old(off)
      ensures rc == 0 || rc == -1
      ensures rc == -1 <==> old(count) >= old(capacity) && !growOk
      ensures capacity == if old(count) >= old(capacity) && growOk then old(capacity) * 2 + 16 else old(capacity)
      ensures rc == -1 ==> count == old(count) && entries == old(entries) && ents == old(ents) && Contents() == old(Contents())
      ensures rc == 0 ==> count == old(count) + 1 && Contents() == old(Contents())[item := priority]
      ensures RecordsKeptOutside(old(ents), ents, Contents())
    {
      var ok := Reserve(growOk);
      if !ok {
        return -1;
      }
      Place(item, priority);
      FixUp(count - 1);
      rc := 0;
    }

    /** The growth step of pqueue_add_locked: a full array is reallocated with capacity * 2 + 16 slots when growOk. */
    method Reserve(growOk: bool) returns (ok: bool)
      requires Valid()
      modifies this
      ensures Valid() && count == old(count) && ents == old(ents) && off == old(off)
      ensures Slots() == old(Slots()) && Contents() == old(Contents())
      ensures ok <==> old(count) < old(capacity) || growOk
      ensures ok ==> count < capacity
      ensures capacity == if old(count) >= old(capacity) && growOk then old(capacity) * 2 + 16 else old(capacity)
      ensures entries == old(entries) || fresh(entries)
      ensures !ok ==> entries == old(entries)
    {
      if count >= capacity {
        var grown := capacity * 2 + 16;
        if !growOk {
          return false;
        }
        var a := new T[grown];
        forall i | 0 <= i < entries.Length {
          a[i] := entries[i];
        }
        assert a[..count] == entries[..count];
        entries, capacity := a, grown;
      }
      ok := true;
    }

    /** The store step of pqueue_add_locked: the item goes into the first free slot with a record naming it. */
    method Place(item: T, priority: int)
      requires Valid() && item !in Contents() && count < capacity
      modifies this, entries
      ensures Indexed() && entries == old(entries) && capacity == old(capacity) && off == old(off)
      ensures count == old(count) + 1 && 0 < count
      ensures Contents() == old(Contents())[item := priority]
      ensures HeapExceptUp(Prios(), count - 1)
      ensures RecordsKeptOutside(old(ents), ents, Contents())
    {
      ghost var xs, m := Slots(), ents;
      assert item !in xs;
      AppendItem(xs, m, item, priority);
      AppendExceptUp(PrioritiesOf(xs, m), priority);
      entries[count] := item;
      ents := ents[item := PqEnt(count, priority)];
      count := count + 1;
      assert Slots() == xs + [item];
    }

    /** pqueue_peek_next: the item in the first slot, which has the least priority; None when empty. */
    method Peek() returns (r: Option<T>)
      requires Valid()
      ensures r.None? <==> Contents() == map[]
      ensures r.Some? ==> IsMinimum(Contents(), r.value)
    {
      if count == 0 {
        r := None;
      } else {
        r := Some(entries[0]);
        FirstIsMinimum(Slots(), ents);
      }
    }

    /**
     * pqueue_remove_next: take the item in the first slot, move the last
     * item there and move it down; None when empty. When other items remain,
     * the source's decrement, move and ix rewrite are what MoveLastInto(0)
     * does; a single item is just dropped.
     */
    method RemoveNext() returns (r: Option<T>)
      requires Valid()
      modifies this, entries
      ensures Valid()
      ensures entries == old(entries) && capacity == old(capacity) && off == old(off)
      ensures r.None? <==> old(Contents()) == map[]
      ensures r.None? ==> count == old(count) && Slots() == old(Slots()) && ents == old(ents)
      ensures r.Some? ==> IsMinimum(old(Contents()), r.value) && count == old(count) - 1
      ensures r.Some? ==> Contents() == old(Contents()) - {r.value}
      ensures SamePriorities(old(ents), ents) && RecordsKeptOutside(old(ents), ents, Contents())
    {
      if count == 0 {
        return None;
      }
      ghost var xs, m := Slots(), ents;
      FirstIsMinimum(xs, m);
      var p := entries[0];
      if count > 1 {
        var _ := MoveLastInto(0);
        RemoveFirst(xs, m);
        ghost var m1 := ents;
        FixDown(0);
        RecordsTransitive(m, m1, ents, ContentsOf(xs, m) - {xs[0]});
      } else {
        count := count - 1;
        assert xs == [p];
      }
      r := Some(p);
    }

    /**
     * The drain loop of the self-test: remove items until the queue reports
     * empty. The items come out in non-decreasing priority order, each
     * exactly once, and all of them.
     */
    method Drain() returns (out: seq<T>)
      requires Valid()
      modifies this, entries
      ensures Valid() && Contents() == map[]
      ensures forall x :: x in old(Contents()) <==> x in out
      ensures forall i, j :: 0 <= i < j < |out| ==> out[i] != out[j]
      ensures forall i, j :: 0 <= i < j < |out| ==> old(Contents())[out[i]] <= old(Contents())[out[j]]
    {
      ghost var c0 := Contents();
      ghost var rest := c0;
      out := [];
      var r := RemoveNext();
      while r.Some?
        invariant Valid() && entries == old(entries)
        invariant Drained(c0, out, rest)
        invariant r.None? ==> rest == map[] && Contents() == map[]
        invariant r.Some? ==> IsMinimum(rest, r.value) && Contents() == rest - {r.value}
        decreases |rest.Keys|
      {
        DrainStep(c0, out, rest, r.value);
        out := out + [r.value];
        rest := rest - {r.value};
        r := RemoveNext();
      }
    }

    /**
     * pqueue_delete (pqueue_delete_locked): move the last item into the
     * deleted item's slot, then move it up when it is smaller than its new
     * parent and down otherwise. When the deleted item sat in the last slot
     * the heap order rules the upward branch out, so fixup is never handed a
     * slot past the end.
     */
    method Delete(item: T)
      requires Valid() && item in Contents()
      modifies this, entries
      ensures Valid()
      ensures entries == old(entries) && capacity == old(capacity) && off == old(off)
      ensures count == old(count) - 1
      ensures Contents() == old(Contents()) - {item}
      ensures SamePriorities(old(ents), ents) && RecordsKeptOutside(old(ents), ents, Contents())
    {
      ghost var xs, m := Slots(), ents;
      SlotOf(xs, m, item);
      var ix := ents[item].ix;
      var moved := MoveLastInto(ix);
      DeleteSlot(xs, m, ix);
      ghost var m1 := ents;
      if ix == 0 {
        if count > 0 {
          FixDown(ix);
        }
      } else {
        if ents[moved].priority < Ent(Parent(ix)).priority {
          FixUp(ix);
        } else {
          FixDown(ix);
        }
      }
      RecordsTransitive(m, m1, ents, ContentsOf(xs, m) - {item});
    }

    /** The first step of pqueue_delete_locked: the last item moves into slot ix and its record's ix is rewritten. */
    method MoveLastInto(ix: int) returns (moved: T)
      requires Indexed() && 0 <= ix < count
      modifies this, entries
      ensures entries == old(entries) && capacity == old(capacity) && off == old(off)
      ensures count == old(count) - 1
      ensures moved == old(Slots())[old(count) - 1] && entries[ix] == moved
      ensures Slots() == LastMovedTo(old(Slots()), ix)
      ensures ents == MovedRecords(old(Slots()), old(ents), ix)
    {
      entries[ix] := entries[count - 1];
      count := count - 1;
      moved := entries[ix];
      ents := ents[moved := ents[moved].(ix := ix)];
    }

    /**
     * pqueue_adjust_priority: delete the item and add it back with the new
     * priority. The add cannot fail: the delete has just freed a slot.
     */
    method AdjustPriority(item: T, newPriority: int)
      requires Valid() && item in Contents()
      modifies this, entries
      ensures Valid()
      ensures count == old(count) && capacity == old(capacity) && off == old(off)
      ensures Contents() == old(Contents())[item := newPriority]
      ensures RecordsKeptOutside(old(ents), ents, Contents())
    {
      ghost var c := Contents();
      Delete(item);
      var rc := Add(item, newPriority, false);
      assert rc == 0;
      RemoveThenSet(c, item, newPriority);
    }
  }
}
