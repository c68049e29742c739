/**
 * The fail-fast iterator over the list value: a cursor position, the position
 * of the element the last `next` returned (cleared by `remove`), and the
 * modification count the iterator expects to see.
 */
module ListIterator {
  import opened Outcomes
  import opened Elements
  import opened SortedSeq
  import opened SortedLinkedList

  datatype Iterator = Iterator(cursor: nat, lastReturned: Option<nat>, expectedModCount: nat)

  /**
   * The iterator never expects a count the list has not reached, and while it
   * is not stale its cursor lies within the list, just after the element it
   * last returned, if any.
   */
  predicate Coherent(l: State, it: Iterator)
  {
    && it.expectedModCount <= l.modCount
    && (it.expectedModCount == l.modCount ==>
          && it.cursor <= |l.elems|
          && (it.lastReturned.Some? ==> it.lastReturned.value + 1 == it.cursor))
  }

  /** True when the list changed behind the iterator's back. */
  predicate Stale(l: State, it: Iterator)
  {
    it.expectedModCount != l.modCount
  }

  /** `iterator()`: a cursor on the head that expects the current count. */
  function Iterate(l: State): (it: Iterator)
    ensures Coherent(l, it) && !Stale(l, it)
    ensures it.cursor == 0 && it.lastReturned.None?
  {
    Iterator(0, None, l.modCount)
  }

  /** `hasNext()`: the cursor has not run off the end. */
  function HasNext(l: State, it: Iterator): bool
  {
    it.cursor < |l.elems|
  }

  /**
   * `next()`: the staleness check comes first, then exhaustion; otherwise the
   * element under the cursor is returned and remembered.
   */
  function Next(l: State, it: Iterator): (r: Result<(Elem, Iterator)>)
    requires Coherent(l, it)
    ensures Stale(l, it) ==> r == Throw(ConcurrentModification)
    ensures !Stale(l, it) && it.cursor == |l.elems| ==> r == Throw(NoSuchElement)
    ensures !Stale(l, it) && it.cursor < |l.elems| ==>
      && r.Ok? && r.value.0 == l.elems[it.cursor]
      && r.value.1.cursor == it.cursor + 1
      && r.value.1.lastReturned.Some?
      && Coherent(l, r.value.1) && !Stale(l, r.value.1)
  {
    if Stale(l, it) then Throw(ConcurrentModification)
    else if !HasNext(l, it) then Throw(NoSuchElement)
    else Ok((l.elems[it.cursor], Iterator(it.cursor + 1, Some(it.cursor), it.expectedModCount)))
  }

  /**
   * `remove()` through the iterator: the staleness check, then the
   * one-remove-per-next check; otherwise the last returned element is
   * unlinked, the cursor keeps pointing at its successor, and the iterator
   * adopts the list's new count.
   */
  function Remove(l: State, it: Iterator): (r: Result<(State, Iterator)>)
    requires Coherent(l, it)
    ensures Stale(l, it) ==> r == Throw(ConcurrentModification)
    ensures !Stale(l, it) && it.lastReturned.None? ==> r == Throw(IllegalState)
    ensures !Stale(l, it) && it.lastReturned.Some? ==>
      && r.Ok?
      && r.value.0 == RemoveNode(l, it.cursor - 1)
      && r.value.1.lastReturned.None?
      && r.value.1.cursor + 1 == it.cursor
      && Coherent(r.value.0, r.value.1) && !Stale(r.value.0, r.value.1)
  {
    if Stale(l, it) then Throw(ConcurrentModification)
    else if it.lastReturned.None? then Throw(IllegalState)
    else
      var l' := RemoveNode(l, it.lastReturned.value);
      Ok((l', Iterator(it.lastReturned.value, None, l'.modCount)))
  }

  /**
   * The for-each loop: call `next` while `hasNext` holds, collecting the
   * elements. From a non-stale iterator it yields the rest of the contents.
   */
  function Drain(l: State, it: Iterator): (r: seq<Elem>)
    requires Coherent(l, it) && !Stale(l, it)
    ensures r == l.elems[it.cursor..]
    decreases |l.elems| - it.cursor
  {
    if !HasNext(l, it) then []
    else
      var step := Next(l, it).value;
      [step.0] + Drain(l, step.1)
  }

  // ---------------------------------------------------------------------
  // Properties
  // ---------------------------------------------------------------------

  /** A fresh iterator yields the contents, in order. */
  lemma FreshIteratorYieldsContents(l: State)
    ensures Drain(l, Iterate(l)) == l.elems
  {
  }

  /** The structural changes the list offers outside the iterator. */
  datatype Change = AddOf(x: Elem) | RemoveOf(x: Elem) | RemoveAllOf(x: Elem) | ClearAll

  /** The list after a change made outside the iterator. */
  function Apply(l: State, c: Change): (r: State)
    requires Valid(l)
    ensures Valid(r)
  {
    match c
    case AddOf(x) => Add(l, Some(x)).value
    case RemoveOf(x) => SortedLinkedList.Remove(l, Some(x)).value.1
    case RemoveAllOf(x) => RemoveAll(l, Some(x)).value.1
    case ClearAll => Clear(l)
  }

  /**
   * A change made outside the iterator invalidates it exactly when it bumped
   * the count: every add and clear does, a remove or removeAll does exactly
   * when the value occurred. An invalidated iterator's `next` and `remove`
   * then throw ConcurrentModificationException; otherwise it keeps working.
   */
  lemma {:induction false} ForeignChangeInvalidates(l: State, it: Iterator, c: Change)
    requires Valid(l) && Coherent(l, it) && !Stale(l, it)
    ensures Coherent(Apply(l, c), it)
    ensures Stale(Apply(l, c), it) <==> (c.AddOf? || c.ClearAll? || c.x in l.elems)
    ensures Stale(Apply(l, c), it) ==>
      Next(Apply(l, c), it) == Throw(ConcurrentModification) &&
      Remove(Apply(l, c), it) == Throw(ConcurrentModification)
    ensures !Stale(Apply(l, c), it) ==> Apply(l, c) == l
  {
    match c
    case AddOf(x) =>
    case RemoveOf(x) =>
    case RemoveAllOf(x) =>
      if x in l.elems {
        assert multiset(l.elems)[x] > 0;
      } else {
        WithoutAbsent(l.elems, x);
      }
    case ClearAll =>
  }

  /**
   * `next`, `remove`, `next`: the removal through the iterator does not
   * invalidate it; the second `next` returns the element that followed the
   * removed one, or reports exhaustion when there is none.
   */
  lemma NextAfterOwnRemove(l: State, it: Iterator)
    requires Valid(l) && Coherent(l, it) && !Stale(l, it) && it.cursor < |l.elems|
    ensures
      var (e, it1) := Next(l, it).value;
      var (l2, it2) := Remove(l, it1).value;
      && e == l.elems[it.cursor]
      && l2.elems == RemoveAt(l.elems, it.cursor)
      && (it.cursor + 1 < |l.elems| ==> Next(l2, it2) == Ok((l.elems[it.cursor + 1], it1.(expectedModCount := l2.modCount))))
      && (it.cursor + 1 == |l.elems| ==> Next(l2, it2) == Throw(NoSuchElement))
  {
  }

  /** A second `remove` without an intervening `next` throws IllegalStateException. */
  lemma SecondRemoveFails(l: State, it: Iterator)
    requires Coherent(l, it) && !Stale(l, it) && it.lastReturned.Some?
    ensures
      var (l2, it2) := Remove(l, it).value;
      Remove(l2, it2) == Throw(IllegalState)
  {
  }
}
