/**
 * The list's methods on the node store, statement by statement as in Java:
 * the same reads of `head`, `tail` and the links, the same loops, the same
 * link updates. Every public method keeps the class invariant and produces
 * exactly what the list value of module SortedLinkedList produces.
 *
 * Each loop is a walk of its own whose precondition is only what the walk
 * reads: the nodes are allocated, `head` is the first one and every `next`
 * link leads to the following one.
 */
module LinkedOps {
  import opened Outcomes
  import opened Elements
  import opened SortedSeq
  import opened Nodes
  import opened LinkedStore
  import SortedLinkedList

  /** What a walk along the `next` links from `head` relies on. */
  predicate Walkable(s: Store, order: seq<Ref>)
  {
    && InHeap(s, order)
    && s.head == At(order, 0)
    && (forall i :: 0 <= i < |order| ==> s.heap[order[i]].next == At(order, i + 1))
  }

  // ---------------------------------------------------------------------
  // removeNode
  // ---------------------------------------------------------------------

  /**
   * The private `removeNode`: bump the counter, bridge the node's
   * predecessor (or the head) to its successor and the successor (or the
   * tail) back to its predecessor, shrink the size. The node's own links
   * are left as they were.
   */
  function RemoveNode(s: Store, node: Ref): Store
    requires node in s.heap && s.size > 0
    requires s.heap[node].prev.Some? ==> s.heap[node].prev.value in s.heap
    requires s.heap[node].next.Some? ==> s.heap[node].next.value in s.heap
  {
    var n := s.heap[node];
    var heap := if n.prev.Some? then s.heap[n.prev.value := SetNext(s.heap[n.prev.value], n.next)] else s.heap;
    var head := if n.prev.Some? then s.head else n.next;
    var heap' := if n.next.Some? then heap[n.next.value := SetPrev(heap[n.next.value], n.prev)] else heap;
    var tail := if n.next.Some? then s.tail else n.prev;
    Store(heap', head, tail, s.size - 1, s.modCount + 1, s.nextFree)
  }

  /** Unlinking the node at position `k` rewires exactly its two neighbours. */
  lemma RemoveNodeLinksOut(s: Store, order: seq<Ref>, k: nat)
    requires InHeap(s, order) && Distinct(order) && k < |order| && s.size == |order|
    requires s.heap[order[k]].next == At(order, k + 1) && s.heap[order[k]].prev == PrevIn(order, k)
    ensures LinksOut(s, order, k, RemoveNode(s, order[k]))
  {
    if k > 0 {
      assert RefAt(order, k - 1) != RefAt(order, k);
    }
    if k + 1 < |order| {
      assert RefAt(order, k + 1) != RefAt(order, k);
      if k > 0 {
        assert RefAt(order, k - 1) != RefAt(order, k + 1);
      }
    }
    var t := RemoveNode(s, order[k]);
    forall j | 0 <= j < |order| && j + 1 != k && j != k + 1
      ensures t.heap[order[j]] == s.heap[order[j]]
    {
      if k > 0 {
        assert RefAt(order, j) != RefAt(order, k - 1);
      }
      if k + 1 < |order| {
        assert RefAt(order, j) != RefAt(order, k + 1);
      }
    }
  }

  /**
   * `removeNode` on the node at position `k` leaves the other nodes linked in
   * order, drops exactly the `k`-th value, counts one change and leaves the
   * unlinked node's own links alone.
   */
  lemma RemoveNodeUnlinks(s: Store, order: seq<Ref>, k: nat)
    requires Linked(s, order) && k < |order|
    ensures Linked(RemoveNode(s, order[k]), RemoveAt(order, k))
    ensures Values(RemoveNode(s, order[k]), RemoveAt(order, k)) == RemoveAt(Values(s, order), k)
    ensures RemoveNode(s, order[k]).modCount == s.modCount + 1
    ensures RemoveNode(s, order[k]).heap[order[k]] == s.heap[order[k]]
  {
    var t := RemoveNode(s, order[k]);
    var o := RemoveAt(order, k);
    RemoveNodeLinksOut(s, order, k);
    RemovalIsRemoveAt(o, order, k);
    SpliceOut(s, order, k, t, o);
    RemovalIsRemoveAt(Values(t, o), Values(s, order), k);
  }

  /** On a valid store `removeNode` is the list value's `RemoveNode` and keeps the invariant. */
  lemma RemoveNodeRefines(s: Store, order: seq<Ref>, k: nat)
    requires Valid(s, order) && k < |order|
    ensures Valid(RemoveNode(s, order[k]), RemoveAt(order, k))
    ensures Abs(RemoveNode(s, order[k]), RemoveAt(order, k)) == SortedLinkedList.RemoveNode(Abs(s, order), k)
  {
    RemoveNodeUnlinks(s, order, k);
    RemoveAtSorted(Values(s, order), k);
  }

  // ---------------------------------------------------------------------
  // add
  // ---------------------------------------------------------------------

  /** A store that links a fresh node in at position `i` is linked along the extended order. */
  lemma LinkedInto(s: Store, order: seq<Ref>, i: nat, n: Ref, x: Elem, t: Store)
    requires Linked(s, order) && i <= |order| && LinksIn(s, order, i, n, x, t)
    ensures Linked(t, InsertAt(order, i, n))
    ensures Values(t, InsertAt(order, i, n)) == InsertAt(Values(s, order), i, x)
  {
    var o := InsertAt(order, i, n);
    InsertionIsInsertAt(o, order, i, n);
    SpliceIn(s, order, i, n, x, t, o);
    InsertionIsInsertAt(Values(t, o), Values(s, order), i, x);
  }

  /** The empty-list branch of `add`: the new node becomes both head and tail. */
  function LinkAsOnly(s: Store, x: Elem, modCount: nat): Store
  {
    var n := s.nextFree;
    Store(s.heap[n := NewNode(x)], Some(n), Some(n), s.size + 1, modCount, s.nextFree + 1)
  }

  /** In an empty list the new node is a one-node list holding the value. */
  lemma LinkAsOnlyInserts(s: Store, order: seq<Ref>, x: Elem, modCount: nat)
    requires Linked(s, order) && s.head.None?
    ensures Linked(LinkAsOnly(s, x, modCount), [s.nextFree])
    ensures Values(LinkAsOnly(s, x, modCount), [s.nextFree]) == [x] && Values(s, order) == []
    ensures LinkAsOnly(s, x, modCount).modCount == modCount
  {
  }

  /** The new-head branch of `add`: the new node points at the old head, which points back. */
  function LinkAsHead(s: Store, x: Elem, modCount: nat): Store
    requires s.head.Some? && s.head.value in s.heap
  {
    var n := s.nextFree;
    var heap := s.heap[n := NewNode(x)];
    var head := s.head.value;
    var heap := heap[n := SetNext(heap[n], s.head)];
    var heap := heap[head := SetPrev(heap[head], Some(n))];
    Store(heap, Some(n), s.tail, s.size + 1, modCount, s.nextFree + 1)
  }

  /** Linking before the head rewires exactly the old head. */
  lemma LinkAsHeadLinksIn(s: Store, order: seq<Ref>, x: Elem, modCount: nat)
    requires InHeap(s, order) && Distinct(order) && 0 < |order| && s.nextFree !in s.heap
    requires s.head == Some(order[0]) && s.size == |order|
    requires s.tail == Some(order[|order| - 1])
    ensures LinksIn(s, order, 0, s.nextFree, x, LinkAsHead(s, x, modCount))
  {
    var t := LinkAsHead(s, x, modCount);
    forall j | 0 <= j < |order| && j + 1 != 0 && j != 0
      ensures t.heap[order[j]] == s.heap[order[j]]
    {
      assert RefAt(order, j) != RefAt(order, 0);
    }
  }

  /** The new-head branch puts the value in front. */
  lemma LinkAsHeadInserts(s: Store, order: seq<Ref>, x: Elem, modCount: nat)
    requires Linked(s, order) && |order| > 0
    ensures Linked(LinkAsHead(s, x, modCount), InsertAt(order, 0, s.nextFree))
    ensures Values(LinkAsHead(s, x, modCount), InsertAt(order, 0, s.nextFree)) == [x] + Values(s, order)
    ensures LinkAsHead(s, x, modCount).modCount == modCount
  {
    var t := LinkAsHead(s, x, modCount);
    assert s.nextFree !in s.heap;
    LinkAsHeadLinksIn(s, order, x, modCount);
    LinkedInto(s, order, 0, s.nextFree, x, t);
    InsertAtEnds(Values(s, order), x);
  }

  /** The new-tail branch of `add`: the old tail points at the new node, which points back. */
  function LinkAsTail(s: Store, x: Elem, modCount: nat): Store
    requires s.tail.Some? && s.tail.value in s.heap
  {
    var n := s.nextFree;
    var heap := s.heap[n := NewNode(x)];
    var tail := s.tail.value;
    var heap := heap[tail := SetNext(heap[tail], Some(n))];
    var heap := heap[n := SetPrev(heap[n], s.tail)];
    Store(heap, s.head, Some(n), s.size + 1, modCount, s.nextFree + 1)
  }

  /** Linking after the tail rewires exactly the old tail. */
  lemma LinkAsTailLinksIn(s: Store, order: seq<Ref>, x: Elem, modCount: nat)
    requires InHeap(s, order) && Distinct(order) && 0 < |order| && s.nextFree !in s.heap
    requires s.head == Some(order[0]) && s.size == |order|
    requires s.tail == Some(order[|order| - 1])
    ensures LinksIn(s, order, |order|, s.nextFree, x, LinkAsTail(s, x, modCount))
  {
    var t := LinkAsTail(s, x, modCount);
    forall j | 0 <= j < |order| && j + 1 != |order| && j != |order|
      ensures t.heap[order[j]] == s.heap[order[j]]
    {
      assert RefAt(order, j) != RefAt(order, |order| - 1);
    }
  }

  /** The new-tail branch puts the value at the end. */
  lemma LinkAsTailInserts(s: Store, order: seq<Ref>, x: Elem, modCount: nat)
    requires Linked(s, order) && |order| > 0
    ensures Linked(LinkAsTail(s, x, modCount), InsertAt(order, |order|, s.nextFree))
    ensures Values(LinkAsTail(s, x, modCount), InsertAt(order, |order|, s.nextFree)) == Values(s, order) + [x]
    ensures LinkAsTail(s, x, modCount).modCount == modCount
  {
    var t := LinkAsTail(s, x, modCount);
    assert s.nextFree !in s.heap;
    LinkAsTailLinksIn(s, order, x, modCount);
    LinkedInto(s, order, |order|, s.nextFree, x, t);
    InsertAtEnds(Values(s, order), x);
  }

  /**
   * The scan of the middle branch of `add`: from head, step past every node
   * whose value is `<= x`. It stops at the end or on the first greater node.
   */
  method ScanPast(s: Store, ghost order: seq<Ref>, x: Elem) returns (current: Option<Ref>, ghost i: nat)
    requires Walkable(s, order)
    ensures i == ScanPastLe(Values(s, order), x, 0)
    ensures current == At(order, ScanPastLe(Values(s, order), x, 0))
  {
    ghost var vals := Values(s, order);
    current := s.head;
    i := 0;
    while current.Some? && Compare(s.heap[current.value].value, x) <= 0
      invariant i <= |order| && current == At(order, i)
      invariant ScanPastLe(vals, x, i) == ScanPastLe(vals, x, 0)
      decreases |order| - i
    {
      current := s.heap[current.value].next;
      i := i + 1;
    }
  }

  /**
   * The linking of the middle branch of `add`: the new node goes in before
   * `current`, between it and its predecessor, by the four setter calls.
   */
  function LinkBefore(s: Store, current: Ref, x: Elem, modCount: nat): Store
    requires current in s.heap && s.heap[current].prev.Some? && s.heap[current].prev.value in s.heap
  {
    var n := s.nextFree;
    var heap := s.heap[n := NewNode(x)];
    var prev := s.heap[current].prev.value;
    var heap := heap[prev := SetNext(heap[prev], Some(n))];
    var heap := heap[n := SetPrev(heap[n], Some(prev))];
    var heap := heap[n := SetNext(heap[n], Some(current))];
    var heap := heap[current := SetPrev(heap[current], Some(n))];
    Store(heap, s.head, s.tail, s.size + 1, modCount, s.nextFree + 1)
  }

  /** Linking before the node at position `i` rewires exactly its predecessor and itself. */
  lemma LinkBeforeLinksIn(s: Store, order: seq<Ref>, i: nat, x: Elem, modCount: nat)
    requires InHeap(s, order) && Distinct(order) && 0 < i < |order| && s.nextFree !in s.heap
    requires s.heap[order[i]].prev == Some(order[i - 1])
    ensures LinksIn(s, order, i, s.nextFree, x, LinkBefore(s, order[i], x, modCount))
  {
    var t := LinkBefore(s, order[i], x, modCount);
    assert RefAt(order, i - 1) != RefAt(order, i);
    forall j | 0 <= j < |order| && j + 1 != i && j != i
      ensures t.heap[order[j]] == s.heap[order[j]]
    {
      assert RefAt(order, j) != RefAt(order, i - 1) && RefAt(order, j) != RefAt(order, i);
    }
  }

  /** The middle branch inserts the value at position `i`, keeping the links consistent. */
  lemma LinkBeforeInserts(s: Store, order: seq<Ref>, i: nat, x: Elem, modCount: nat)
    requires Linked(s, order) && 0 < i < |order|
    ensures Linked(LinkBefore(s, order[i], x, modCount), InsertAt(order, i, s.nextFree))
    ensures Values(LinkBefore(s, order[i], x, modCount), InsertAt(order, i, s.nextFree)) == InsertAt(Values(s, order), i, x)
    ensures LinkBefore(s, order[i], x, modCount).modCount == modCount
  {
    assert s.heap[order[i]].prev == PrevIn(order, i);
    LinkBeforeLinksIn(s, order, i, x, modCount);
    LinkedInto(s, order, i, s.nextFree, x, LinkBefore(s, order[i], x, modCount));
  }

  /**
   * `add(value)`: the null check, a fresh node, the counter bump, then the
   * empty-list, new-head, new-tail or middle branch, and the size bump. In
   * the middle branch the scan stops on a node that exists and has a
   * predecessor, because the head is `<= value` and the tail is `> value`.
   */
  method Add(s: Store, ghost order: seq<Ref>, v: Option<Elem>)
    returns (r: Result<Store>, ghost newOrder: seq<Ref>)
    requires Valid(s, order)
    ensures v.None? ==> r == Throw(NullPointer)
    ensures v.Some? ==> r.Ok? && Valid(r.value, newOrder)
    ensures v.Some? ==> Abs(r.value, newOrder) == SortedLinkedList.Add(Abs(s, order), v).value
  {
    if v.None? {
      return Throw(NullPointer), order;
    }
    var x := v.value;
    var modCount := s.modCount + 1;
    ghost var vals := Values(s, order);
    var t: Store;
    if s.head.None? {
      LinkAsOnlyInserts(s, order, x, modCount);
      t := LinkAsOnly(s, x, modCount);
      newOrder := [s.nextFree];
    } else if Compare(x, s.heap[s.head.value].value) < 0 {
      LinkAsHeadInserts(s, order, x, modCount);
      t := LinkAsHead(s, x, modCount);
      newOrder := InsertAt(order, 0, s.nextFree);
      assert vals[0] == s.heap[s.head.value].value;
    } else if Compare(x, s.heap[s.tail.value].value) >= 0 {
      LinkAsTailInserts(s, order, x, modCount);
      t := LinkAsTail(s, x, modCount);
      newOrder := InsertAt(order, |order|, s.nextFree);
      assert vals[0] == s.heap[s.head.value].value;
      assert vals[|vals| - 1] == s.heap[s.tail.value].value;
    } else {
      var current;
      ghost var i;
      current, i := ScanPast(s, order, x);
      assert vals[0] == s.heap[s.head.value].value;
      assert vals[|vals| - 1] == s.heap[s.tail.value].value;
      SortedLinkedList.MiddleScanStopsInside(vals, x);
      LinkBeforeInserts(s, order, i, x, modCount);
      t := LinkBefore(s, current.value, x, modCount);
      newOrder := InsertAt(order, i, s.nextFree);
    }
    AddRefines(s, order, x, t, newOrder);
    r := Ok(t);
  }

  /** A store holding the contents `add` computes, linked, is the list value's `add` result. */
  lemma AddRefines(s: Store, order: seq<Ref>, x: Elem, t: Store, newOrder: seq<Ref>)
    requires Valid(s, order) && Linked(t, newOrder)
    requires Values(t, newOrder) == SortedLinkedList.Inserted(Values(s, order), x)
    requires t.modCount == s.modCount + 1
    ensures Valid(t, newOrder)
    ensures Abs(t, newOrder) == SortedLinkedList.Add(Abs(s, order), Some(x)).value
  {
    SortedLinkedList.InsertedIsStableInsertion(Values(s, order), x);
  }

  // ---------------------------------------------------------------------
  // remove, contains, indexOf
  // ---------------------------------------------------------------------

  /**
   * The walk `remove`, `contains` and `indexOf` share: from head, count
   * positions until a node equal to `x` (found), a greater node or the end
   * (not found).
   */
  method Find(s: Store, ghost order: seq<Ref>, x: Elem) returns (found: Option<Ref>, index: nat)
    requires Walkable(s, order)
    ensures FindFrom(Values(s, order), x, 0) == -1 ==> found.None?
    ensures FindFrom(Values(s, order), x, 0) >= 0 ==>
      index == FindFrom(Values(s, order), x, 0) && found == Some(order[index])
  {
    ghost var vals := Values(s, order);
    var current := s.head;
    index := 0;
    while current.Some?
      invariant index <= |order| && current == At(order, index)
      invariant FindFrom(vals, x, index) == FindFrom(vals, x, 0)
      decreases |order| - index
    {
      var cmp := Compare(s.heap[current.value].value, x);
      if cmp == 0 {
        return current, index;
      } else if cmp > 0 {
        return None, index;
      }
      current := s.heap[current.value].next;
      index := index + 1;
    }
    return None, index;
  }

  /**
   * `remove(value)`: unlink the first node equal to the value and answer
   * true, or answer false and change nothing.
   */
  method Remove(s: Store, ghost order: seq<Ref>, v: Option<Elem>)
    returns (r: Result<(bool, Store)>, ghost newOrder: seq<Ref>)
    requires Valid(s, order)
    ensures v.None? ==> r == Throw(NullPointer)
    ensures v.Some? ==> r.Ok? && Valid(r.value.1, newOrder)
    ensures v.Some? ==>
      var expected := SortedLinkedList.Remove(Abs(s, order), v).value;
      r.value.0 == expected.0 && Abs(r.value.1, newOrder) == expected.1
  {
    if v.None? {
      return Throw(NullPointer), order;
    }
    var found, index := Find(s, order, v.value);
    if found.Some? {
      RemoveNodeRefines(s, order, index);
      return Ok((true, RemoveNode(s, found.value))), RemoveAt(order, index);
    }
    return Ok((false, s)), order;
  }

  /** `contains(value)`: whether the shared walk finds an equal node. */
  method Contains(s: Store, ghost order: seq<Ref>, v: Option<Elem>) returns (r: Result<bool>)
    requires Valid(s, order)
    ensures r == SortedLinkedList.Contains(Abs(s, order), v)
  {
    if v.None? {
      return Throw(NullPointer);
    }
    var found, _ := Find(s, order, v.value);
    return Ok(found.Some?);
  }

  /** `indexOf(value)`: the position the shared walk stops at, or -1. */
  method IndexOf(s: Store, ghost order: seq<Ref>, v: Option<Elem>) returns (r: Result<int>)
    requires Valid(s, order)
    ensures r == SortedLinkedList.IndexOf(Abs(s, order), v)
  {
    if v.None? {
      return Throw(NullPointer);
    }
    var found, index := Find(s, order, v.value);
    var result: int := if found.Some? then index else -1;
    return Ok(result);
  }

  // ---------------------------------------------------------------------
  // removeAll, count
  // ---------------------------------------------------------------------

  /**
   * The loop of `removeAll` from the node `current` at position `i`, one
   * iteration per call: an equal node is unlinked, its successor having been
   * taken first, and the walk goes on from that successor at the same
   * position; a smaller node is stepped past; a greater node or the end stops
   * the walk. Answers the number of nodes unlinked. `vals` are the values
   * along `order`; `(rest, n)` is what the value-level scan `RemoveAllFrom`
   * leaves and counts from position `i`, and the walk reaches exactly that.
   */
  method RemoveAllWalk(t: Store, ghost order: seq<Ref>, ghost vals: seq<Elem>, current: Option<Ref>, ghost i: nat, x: Elem,
                       ghost rest: seq<Elem>, ghost n: nat)
    returns (removedCount: nat, t': Store, ghost order': seq<Ref>)
    requires Holds(t, order, vals) && i <= |order| && current == At(order, i)
    requires RemoveAllFrom(vals, x, i) == (rest, n)
    ensures Holds(t', order', rest)
    ensures removedCount == n
    ensures t'.modCount == t.modCount + removedCount
    decreases |order| - i, 1
  {
    if current.None? {
      RemoveAllAtEnd(vals, x, i);
      return 0, t, order;
    }
    assert t.heap[current.value].value == vals[i];
    var cmp := Compare(t.heap[current.value].value, x);
    if cmp == 0 {
      removedCount, t', order' := RemoveAllUnlink(t, order, vals, current.value, i, x, rest, n);
    } else if cmp > 0 {
      RemoveAllGreaterStep(vals, x, i);
      return 0, t, order;
    } else {
      var next := t.heap[current.value].next;
      assert next == At(order, i + 1);
      RemoveAllLessStep(vals, x, i);
      removedCount, t', order' := RemoveAllWalk(t, order, vals, next, i + 1, x, rest, n);
    }
  }

  /**
   * The equal branch of the `removeAll` loop: take the successor, unlink the
   * node through `removeNode`, count it and carry on from the successor.
   */
  method RemoveAllUnlink(t: Store, ghost order: seq<Ref>, ghost vals: seq<Elem>, current: Ref, ghost i: nat, x: Elem,
                         ghost rest: seq<Elem>, ghost n: nat)
    returns (removedCount: nat, t': Store, ghost order': seq<Ref>)
    requires Holds(t, order, vals) && i < |order| && order[i] == current
    requires vals[i] == x && RemoveAllFrom(vals, x, i) == (rest, n)
    ensures Holds(t', order', rest)
    ensures removedCount == n
    ensures t'.modCount == t.modCount + removedCount
    decreases |order| - i, 0
  {
    RemoveAllEqualStep(vals, x, i, rest, n);
    var next := t.heap[current].next;
    var t1, order1, vals1 := Unlink(t, current, order, vals, i);
    var r;
    r, t', order' := RemoveAllWalk(t1, order1, vals1, next, i, x, rest, n - 1);
    removedCount := r + 1;
  }

  /**
   * A call of `removeNode` from a loop on the node at position `k`: the caller
   * sees the effect on the linkage and the values, and that the node's
   * successor now sits at position `k`, not the link updates themselves.
   */
  method Unlink(s: Store, node: Ref, ghost order: seq<Ref>, ghost vals: seq<Elem>, ghost k: nat)
    returns (t: Store, ghost order': seq<Ref>, ghost vals': seq<Elem>)
    requires Holds(s, order, vals) && k < |order| && order[k] == node
    ensures Holds(t, order', vals')
    ensures order' == RemoveAt(order, k) && vals' == RemoveAt(vals, k)
    ensures At(order', k) == s.heap[node].next
    ensures t.modCount == s.modCount + 1
  {
    RemoveNodeUnlinks(s, order, k);
    t := RemoveNode(s, node);
    order' := RemoveAt(order, k);
    vals' := Values(t, order');
    assert s.heap[node].next == At(order, k + 1);
  }

  /** The store is linked along `order` and holds the values `vals`. */
  predicate Holds(s: Store, order: seq<Ref>, vals: seq<Elem>)
  {
    Linked(s, order) && vals == Values(s, order)
  }

  /** At the end of the values the scan removes nothing more. */
  lemma RemoveAllAtEnd(vals: seq<Elem>, x: Elem, i: nat)
    requires i == |vals|
    ensures RemoveAllFrom(vals, x, i) == (vals, 0)
  {
  }

  /** An equal value: the scan drops it and goes on at the same position. */
  lemma RemoveAllEqualStep(vals: seq<Elem>, x: Elem, i: nat, rest: seq<Elem>, n: nat)
    requires i < |vals| && vals[i] == x
    requires RemoveAllFrom(vals, x, i) == (rest, n)
    ensures n > 0 && RemoveAllFrom(RemoveAt(vals, i), x, i) == (rest, n - 1)
  {
  }

  /** A greater value: the scan stops, removing nothing more. */
  lemma RemoveAllGreaterStep(vals: seq<Elem>, x: Elem, i: nat)
    requires i < |vals| && vals[i] > x
    ensures RemoveAllFrom(vals, x, i) == (vals, 0)
  {
  }

  /** A smaller value: the scan moves on to the next position. */
  lemma RemoveAllLessStep(vals: seq<Elem>, x: Elem, i: nat)
    requires i < |vals| && vals[i] < x
    ensures RemoveAllFrom(vals, x, i) == RemoveAllFrom(vals, x, i + 1)
  {
  }

  /**
   * `removeAll(value)`: unlink every node equal to the value and answer how
   * many there were.
   */
  method RemoveAll(s: Store, ghost order: seq<Ref>, v: Option<Elem>)
    returns (r: Result<(nat, Store)>, ghost newOrder: seq<Ref>)
    requires Valid(s, order)
    ensures v.None? ==> r == Throw(NullPointer)
    ensures v.Some? ==> r.Ok? && Valid(r.value.1, newOrder)
    ensures v.Some? ==>
      var expected := SortedLinkedList.RemoveAll(Abs(s, order), v).value;
      r.value.0 == expected.0 && Abs(r.value.1, newOrder) == expected.1
  {
    if v.None? {
      return Throw(NullPointer), order;
    }
    var x := v.value;
    var removedCount, t;
    ghost var expected := RemoveAllFrom(Values(s, order), x, 0);
    removedCount, t, newOrder := RemoveAllWalk(s, order, Values(s, order), s.head, 0, x, expected.0, expected.1);
    RemoveAllFromExact(Values(s, order), x, 0);
    WithoutSorted(Values(s, order), x);
    return Ok((removedCount, t)), newOrder;
  }

  /** The loop of `count`: count equal nodes from head, stopping at the first greater one. */
  method CountWalk(s: Store, ghost order: seq<Ref>, x: Elem) returns (occurrences: nat)
    requires Walkable(s, order)
    ensures occurrences == CountFrom(Values(s, order), x, 0)
  {
    ghost var vals := Values(s, order);
    occurrences := 0;
    var current := s.head;
    ghost var i := 0;
    while current.Some?
      invariant i <= |order| && current == At(order, i)
      invariant occurrences + CountFrom(vals, x, i) == CountFrom(vals, x, 0)
      decreases |order| - i
    {
      var cmp := Compare(s.heap[current.value].value, x);
      if cmp == 0 {
        occurrences := occurrences + 1;
      } else if cmp > 0 {
        break;
      }
      current := s.heap[current.value].next;
      i := i + 1;
    }
  }

  /** `count(value)`: the number of nodes equal to the value. */
  method Count(s: Store, ghost order: seq<Ref>, v: Option<Elem>) returns (r: Result<nat>)
    requires Valid(s, order)
    ensures r == SortedLinkedList.Count(Abs(s, order), v)
  {
    if v.None? {
      return Throw(NullPointer);
    }
    var occurrences := CountWalk(s, order, v.value);
    return Ok(occurrences);
  }

  // ---------------------------------------------------------------------
  // get and the constant-time queries
  // ---------------------------------------------------------------------

  /** The loop of `get`: `index` steps along the `next` links from head. */
  method Walk(s: Store, ghost order: seq<Ref>, index: nat) returns (current: Ref)
    requires Walkable(s, order) && index < |order|
    ensures current == order[index]
  {
    var node := s.head;
    var i := 0;
    while i < index
      invariant i <= index && node == At(order, i)
    {
      node := s.heap[node.value].next;
      i := i + 1;
    }
    return node.value;
  }

  /** `get(index)`: `checkIndex` against the size field, then the walk. */
  method Get(s: Store, ghost order: seq<Ref>, index: int) returns (r: Result<Elem>)
    requires Valid(s, order)
    ensures r == SortedLinkedList.Get(Abs(s, order), index)
  {
    if index < 0 || index >= s.size {
      return Throw(IndexOutOfBounds);
    }
    var current := Walk(s, order, index);
    return Ok(s.heap[current].value);
  }

  /** `first()`: the head's value, absent when there is no head. */
  function First(s: Store, ghost order: seq<Ref>): (r: Option<Elem>)
    requires Valid(s, order)
    ensures r == SortedLinkedList.First(Abs(s, order))
  {
    if s.head.None? then None else Some(s.heap[s.head.value].value)
  }

  /** `last()`: the tail's value, absent when there is no tail. */
  function Last(s: Store, ghost order: seq<Ref>): (r: Option<Elem>)
    requires Valid(s, order)
    ensures r == SortedLinkedList.Last(Abs(s, order))
  {
    if s.tail.None? then None else Some(s.heap[s.tail.value].value)
  }

  /** `size()`: the size field, which is the number of elements. */
  function Size(s: Store, ghost order: seq<Ref>): (r: nat)
    requires Valid(s, order)
    ensures r == |Abs(s, order).elems|
  {
    s.size
  }

  /** `isEmpty()`: the size field is zero, exactly when there are no elements. */
  function IsEmpty(s: Store, ghost order: seq<Ref>): (r: bool)
    requires Valid(s, order)
    ensures r <==> Abs(s, order).elems == []
  {
    s.size == 0
  }

  /** `clear()`: drop head and tail, zero the size, bump the counter. */
  function Clear(s: Store, ghost order: seq<Ref>): (t: Store)
    requires Valid(s, order)
    ensures Valid(t, [])
    ensures Abs(t, []) == SortedLinkedList.Clear(Abs(s, order))
  {
    Store(s.heap, None, None, 0, s.modCount + 1, s.nextFree)
  }
}
