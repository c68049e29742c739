/**
 * The fail-fast iterator on the node store: a reference to the node the next
 * call to `next` returns, a reference to the node it last returned (cleared
 * by `remove`) and the modification count it expects. Each operation is the
 * Java code; the lemmas show it behaves as the iterator of module
 * ListIterator over the list value the store represents.
 */
module LinkedIterator {
  import opened Outcomes
  import opened Elements
  import opened SortedSeq
  import opened Nodes
  import opened LinkedStore
  import LinkedOps
  import SortedLinkedList
  import ListIterator

  datatype Cursor = Cursor(current: Option<Ref>, lastReturned: Option<Ref>, expectedModCount: nat)

  /** `iterator()`: start at head, nothing returned yet, expect the current count. */
  function Iterate(s: Store): Cursor
  {
    Cursor(s.head, None, s.modCount)
  }

  /** `hasNext()`: there is a current node. */
  function HasNext(c: Cursor): bool
  {
    c.current.Some?
  }

  /**
   * `next()`: `checkForComodification` first, then exhaustion; otherwise
   * remember the current node, step to its successor and return its value.
   */
  function Next(s: Store, c: Cursor): Result<(Elem, Cursor)>
    requires s.modCount == c.expectedModCount && c.current.Some? ==> c.current.value in s.heap
  {
    if s.modCount != c.expectedModCount then Throw(ConcurrentModification)
    else if !HasNext(c) then Throw(NoSuchElement)
    else
      var node := s.heap[c.current.value];
      Ok((node.value, Cursor(node.next, c.current, c.expectedModCount)))
  }

  /** What `removeNode` needs of the node `next` last returned. */
  predicate CanUnlink(s: Store, node: Ref)
  {
    && node in s.heap && s.size > 0
    && (s.heap[node].prev.Some? ==> s.heap[node].prev.value in s.heap)
    && (s.heap[node].next.Some? ==> s.heap[node].next.value in s.heap)
  }

  /**
   * `remove()`: `checkForComodification`, then the `lastReturned` check;
   * otherwise unlink the last returned node, forget it, and adopt the
   * list's new count.
   */
  function Remove(s: Store, c: Cursor): Result<(Store, Cursor)>
    requires s.modCount == c.expectedModCount && c.lastReturned.Some? ==> CanUnlink(s, c.lastReturned.value)
  {
    if s.modCount != c.expectedModCount then Throw(ConcurrentModification)
    else if c.lastReturned.None? then Throw(IllegalState)
    else
      var t := LinkedOps.RemoveNode(s, c.lastReturned.value);
      Ok((t, Cursor(c.current, None, t.modCount)))
  }

  /**
   * The cursor `c` on the store plays the iterator `it` on the list value:
   * the same expected count and, while that count is current, the node at
   * `it`'s position and the node at the last returned position.
   */
  predicate Tracks(s: Store, order: seq<Ref>, c: Cursor, it: ListIterator.Iterator)
  {
    && c.expectedModCount == it.expectedModCount
    && (it.expectedModCount == s.modCount ==>
          && it.cursor <= |order|
          && c.current == At(order, it.cursor)
          && (c.lastReturned.None? <==> it.lastReturned.None?)
          && (it.lastReturned.Some? ==>
                it.lastReturned.value < |order| && c.lastReturned == Some(order[it.lastReturned.value])))
  }

  /** A fresh cursor plays a fresh iterator. */
  lemma IterateRefines(s: Store, order: seq<Ref>)
    requires Valid(s, order)
    ensures Tracks(s, order, Iterate(s), ListIterator.Iterate(Abs(s, order)))
  {
  }

  /** `hasNext` on a cursor whose count is current answers as on the list value. */
  lemma HasNextRefines(s: Store, order: seq<Ref>, c: Cursor, it: ListIterator.Iterator)
    requires Valid(s, order) && Tracks(s, order, c, it)
    requires !ListIterator.Stale(Abs(s, order), it)
    ensures HasNext(c) == ListIterator.HasNext(Abs(s, order), it)
  {
  }

  /**
   * `next` throws what the list value's iterator throws, in the same order of
   * checks, and otherwise returns the same element and keeps tracking.
   */
  lemma NextRefines(s: Store, order: seq<Ref>, c: Cursor, it: ListIterator.Iterator)
    requires Valid(s, order) && ListIterator.Coherent(Abs(s, order), it) && Tracks(s, order, c, it)
    ensures s.modCount == c.expectedModCount && c.current.Some? ==> c.current.value in s.heap
    ensures
      var r := Next(s, c);
      var q := ListIterator.Next(Abs(s, order), it);
      && (r.Throw? <==> q.Throw?)
      && (r.Throw? ==> r.error == q.error)
      && (r.Ok? ==> r.value.0 == q.value.0 && Tracks(s, order, r.value.1, q.value.1))
  {
  }

  /**
   * `remove` throws what the list value's iterator throws; otherwise it
   * unlinks the node at the last returned position, the store stays valid
   * and represents the list value's result, and the cursor keeps tracking.
   */
  lemma RemoveRefines(s: Store, order: seq<Ref>, c: Cursor, it: ListIterator.Iterator)
    requires Valid(s, order) && ListIterator.Coherent(Abs(s, order), it) && Tracks(s, order, c, it)
    ensures s.modCount == c.expectedModCount && c.lastReturned.Some? ==> CanUnlink(s, c.lastReturned.value)
    ensures
      var r := Remove(s, c);
      var q := ListIterator.Remove(Abs(s, order), it);
      && (r.Throw? <==> q.Throw?)
      && (r.Throw? ==> r.error == q.error)
      && (r.Ok? ==>
            var o := RemoveAt(order, it.lastReturned.value);
            && Valid(r.value.0, o)
            && Abs(r.value.0, o) == q.value.0
            && Tracks(r.value.0, o, r.value.1, q.value.1))
  {
    if s.modCount == c.expectedModCount && c.lastReturned.Some? {
      var k := it.lastReturned.value;
      LinkedOps.RemoveNodeRefines(s, order, k);
    }
  }
}
