# Sorted linked list — a Dafny model

This project models `SortedLinkedList`, a generic collection that keeps its
elements in ascending natural order in a doubly-linked list of `Node`s. It
also models the list's fail-fast iterator. Duplicates are kept, and a new
element goes after every element equal to it. Every structural change bumps
a modification counter. An iterator remembers that counter when it is
created, and its `next` and `remove` throw `ConcurrentModificationException`
once the counter has moved on without it.

The model has two levels.

- **The list value** (modules `SortedSeq`, `SortedLinkedList`,
  `ListIterator`, `Equality`).
  - A list is its contents in traversal order plus its modification counter.
  - Every operation is a function that follows the Java method branch for
    branch. Its loops are recursive scans with the same early exits: for
    example, `remove` stops at the first greater element.
  - Each scan is proved equal to an independent reference definition:
    - the number of elements `<= x` (`CountLe`) is the insertion point;
    - the least index holding a value (`FirstIndex`) is found by a full scan;
    - the multiset of the contents gives the counts;
    - a filter (`Without`) gives the result of `removeAll`.
- **The node store** (modules `Nodes`, `LinkedStore`, `LinkedOps`,
  `LinkedIterator`).
  - Nodes live in a map from references to `Node(value, next, prev)`.
  - The list object is `Store(heap, head, tail, size, modCount, nextFree)`,
    and `nextFree` plays the allocator.
  - The linkage invariant `Linked(s, order)` is stated against a ghost
    sequence of references, passed as a ghost parameter:
    - the nodes along it are distinct and allocated;
    - `head` and `tail` are its ends;
    - every `next` and `prev` link is the neighbour along it;
    - `size` is its length.
  - `Valid` adds that the values along it are sorted.
  - The operations are the Java statements on links and fields.
  - Each one is proved to keep `Valid` and to produce, through
    `Abs(s, order)`, exactly the value-level result.

Elements are modelled as `int` with its natural order (`Elements.Compare`
returns -1, 0 or 1). A `null` argument is `None` in an `Option`. A thrown
exception is `Throw(e)` in a `Result`.

## Model

| member | source | states |
|---|---|---|
| SortedLinkedList.New | src/main/java/com/shipmonk/collection/SortedLinkedList.java:81-86 | a new list is empty, sorted, with counter 0 |
| SortedLinkedList.MiddleScanStopsInside | src/main/java/com/shipmonk/collection/SortedLinkedList.java:136-146 | when head <= value < tail, the middle scan of `add` stops on an element that exists and has a predecessor, so `current.getPrev()` is never called on null |
| SortedLinkedList.InsertedIsStableInsertion | src/main/java/com/shipmonk/collection/SortedLinkedList.java:122-147 | each of the four branches of `add` (empty, new head, new tail, middle scan) puts the value at position CountLe(elems, value), after every equal element; the result is sorted and its multiset gains exactly the value |
| SortedLinkedList.Add | src/main/java/com/shipmonk/collection/SortedLinkedList.java:116-150 | null throws NullPointerException; otherwise the contents are the old ones with the value inserted after all elements `<=` it, still sorted, one more of the value, counter + 1 |
| SortedLinkedList.RemoveNode | src/main/java/com/shipmonk/collection/SortedLinkedList.java:213-229 | unlinking position k keeps sortedness, removes exactly that element from the multiset, shrinks the size by one and bumps the counter |
| SortedLinkedList.Remove | src/main/java/com/shipmonk/collection/SortedLinkedList.java:159-175 | null throws; the answer is true iff the value occurs; if so exactly the first occurrence is removed and the counter rises by one, otherwise the list, counter included, is unchanged |
| SortedSeq.FindFromIsFirstIndex | src/main/java/com/shipmonk/collection/SortedLinkedList.java:162-174 | on sorted contents the scan that gives up at the first greater element returns the same index as a scan of the whole list |
| SortedLinkedList.RemoveAll | src/main/java/com/shipmonk/collection/SortedLinkedList.java:184-206 | null throws; the answer is the multiplicity of the value, the contents are the old ones with every occurrence filtered out (still sorted), and the counter rises by that count |
| SortedSeq.RemoveAllFromExact | src/main/java/com/shipmonk/collection/SortedLinkedList.java:190-203 | the loop that unlinks equal elements and stops at the first greater one leaves the filtered contents and counts the multiplicity |
| SortedLinkedList.Contains | src/main/java/com/shipmonk/collection/SortedLinkedList.java:238-253 | null throws; otherwise the answer is membership of the value |
| SortedLinkedList.IndexOf | src/main/java/com/shipmonk/collection/SortedLinkedList.java:397-415 | null throws; -1 iff the value is absent; otherwise an index holding the value with no earlier occurrence |
| SortedLinkedList.Count | src/main/java/com/shipmonk/collection/SortedLinkedList.java:325-342 | null throws; otherwise the answer is the value's multiplicity in the contents |
| SortedSeq.CountFromExact | src/main/java/com/shipmonk/collection/SortedLinkedList.java:331-339 | on sorted contents the counting loop that breaks at the first greater element counts every occurrence |
| SortedLinkedList.Get | src/main/java/com/shipmonk/collection/SortedLinkedList.java:262-270 | throws IndexOutOfBoundsException iff index < 0 or index >= size (the `checkIndex` guard); otherwise returns the element at that index |
| SortedLinkedList.First | src/main/java/com/shipmonk/collection/SortedLinkedList.java:277-279 | empty iff the list is empty; otherwise the head element, which is <= every element |
| SortedLinkedList.Last | src/main/java/com/shipmonk/collection/SortedLinkedList.java:286-288 | empty iff the list is empty; otherwise the tail element, which is >= every element |
| SortedLinkedList.Clear | src/main/java/com/shipmonk/collection/SortedLinkedList.java:311-316 | the list becomes empty and the counter rises by one, even when it was already empty |
| SortedSeq.SortedUnique | src/main/java/com/shipmonk/collection/SortedLinkedList.java:116-150 | two sorted sequences with the same multiset are equal: the contents are determined by what was added |
| ListIterator.Iterate | src/main/java/com/shipmonk/collection/SortedLinkedList.java:492-496 | a new iterator is at the start, has returned nothing and expects the current counter |
| ListIterator.Next | src/main/java/com/shipmonk/collection/SortedLinkedList.java:504-512 | a stale iterator throws ConcurrentModificationException before anything else; an exhausted one throws NoSuchElementException; otherwise the element at the cursor is returned and the cursor advances past it |
| ListIterator.Remove | src/main/java/com/shipmonk/collection/SortedLinkedList.java:515-524 | stale: ConcurrentModificationException first; nothing returned since the last remove: IllegalStateException; otherwise the last returned element is unlinked and the iterator adopts the new counter, so it stays usable |
| ListIterator.Drain | src/main/java/com/shipmonk/collection/SortedLinkedList.java:499-512 | calling `next` while `hasNext` holds yields exactly the contents from the cursor on, in order |
| ListIterator.ForeignChangeInvalidates | src/main/java/com/shipmonk/collection/SortedLinkedList.java:526-532 | an add or clear outside the iterator always makes it stale, a remove or removeAll does so exactly when the value occurred, and then `next` and `remove` throw ConcurrentModificationException; a change that made nothing stale changed nothing |
| ListIterator.NextAfterOwnRemove | src/main/java/com/shipmonk/collection/SortedLinkedList.java:520-523 | after `next` then `remove`, the next `next` does not throw ConcurrentModificationException: it returns the element after the removed one, or reports exhaustion |
| ListIterator.SecondRemoveFails | src/main/java/com/shipmonk/collection/SortedLinkedList.java:517-521 | a second `remove` with no `next` in between throws IllegalStateException |
| Equality.PairwiseEqual | src/main/java/com/shipmonk/collection/SortedLinkedList.java:462-469 | the element-by-element loop over lists of equal size answers true iff the remaining contents are equal |
| Equality.Equals | src/main/java/com/shipmonk/collection/SortedLinkedList.java:451-472 | true iff the argument is a sorted list with the same contents; the counters play no part |
| Equality.HashCodeIsWrappedPolynomial | src/main/java/com/shipmonk/collection/SortedLinkedList.java:475-481 | the loop with `result = 31 * result + h` in `int` arithmetic, seeded at 1, equals the polynomial 31^n + sum of h(e_i) * 31^(n-1-i) wrapped to a 32-bit int |
| Equality.EqualsImpliesEqualHash | src/main/java/com/shipmonk/collection/SortedLinkedList.java:450-481 | lists that are `equals` have the same hash code |
| Equality.Build | src/main/java/com/shipmonk/collection/SortedLinkedList.java:116-150 | adding a sequence of values to a new list gives sorted contents with exactly those values, and the counter counts the calls |
| Equality.InsertionOrderIrrelevant | src/test/java/com/shipmonk/collection/SortedLinkedListIntegerTest.java:637-691 | adding the same values in any order gives lists that are `equals` and have equal hash codes |
| Equality.AddSortsExample | src/test/java/com/shipmonk/collection/SortedLinkedListIntegerTest.java:55-63 | adding 5, 1, 9, 3, 7 gives 1, 3, 5, 7, 9 |
| Nodes.NewNode | src/main/java/com/shipmonk/collection/Node.java:20-22 | a new node holds the value and both links are null |
| Nodes.SetNext | src/main/java/com/shipmonk/collection/Node.java:47-49 | `setNext` replaces the forward link and leaves the value and the backward link alone |
| Nodes.SetPrev | src/main/java/com/shipmonk/collection/Node.java:65-67 | `setPrev` replaces the backward link and leaves the value and the forward link alone |
| Nodes.ValueIsFinal | src/main/java/com/shipmonk/collection/Node.java:11-13 | no sequence of link updates changes a node's value |
| LinkedStore.NewStore | src/main/java/com/shipmonk/collection/SortedLinkedList.java:81-86 | the constructor's store is valid for the empty order and represents the new list |
| LinkedStore.Values | src/main/java/com/shipmonk/collection/SortedLinkedList.java:353-361 | the values along the order, one per node in order, as `toList` collects them |
| LinkedStore.LinkageConsistent | src/main/java/com/shipmonk/collection/SortedLinkedList.java:72-75 | in a linked store head, tail and size 0 are absent together, `next` is null exactly on the tail and `prev` exactly on the head, and every successor points back |
| LinkedStore.FollowAlongOrder | src/main/java/com/shipmonk/collection/Node.java:38-40 | following `next` k times from the node at position i reaches position i + k, or null just past the tail |
| LinkedStore.SizeIsReachableCount | src/main/java/com/shipmonk/collection/SortedLinkedList.java:72-75 | the size field is the number of nodes reachable from head: the size-th step from head is null and every earlier one is a node |
| LinkedStore.SpliceIn | src/main/java/com/shipmonk/collection/SortedLinkedList.java:141-146 | linking a fresh node between positions i - 1 and i keeps the linkage invariant along the extended order and inserts its value at i |
| LinkedStore.SpliceOut | src/main/java/com/shipmonk/collection/SortedLinkedList.java:216-226 | bridging a node's neighbours keeps the linkage invariant along the order without it and removes its value |
| LinkedOps.RemoveNodeUnlinks | src/main/java/com/shipmonk/collection/SortedLinkedList.java:213-229 | `removeNode` on the node at position k keeps the rest linked in order, drops exactly the k-th value, bumps the counter and leaves the node's own links alone |
| LinkedOps.RemoveNodeRefines | src/main/java/com/shipmonk/collection/SortedLinkedList.java:213-229 | on a valid store `removeNode` keeps validity and represents the value-level RemoveNode |
| LinkedOps.LinkAsOnlyInserts | src/main/java/com/shipmonk/collection/SortedLinkedList.java:122-124 | in an empty list the new node becomes head and tail: the store is linked along that one node and holds just the value |
| LinkedOps.LinkAsHeadInserts | src/main/java/com/shipmonk/collection/SortedLinkedList.java:125-129 | the new-head branch links the fresh node before the old head: the store is linked along the order with the node in front, and the contents become [value] + old |
| LinkedOps.LinkAsTailInserts | src/main/java/com/shipmonk/collection/SortedLinkedList.java:130-134 | the new-tail branch links the fresh node after the old tail: the store is linked along the order with the node at the end, and the contents become old + [value] |
| LinkedOps.ScanPast | src/main/java/com/shipmonk/collection/SortedLinkedList.java:137-140 | the pointer walk stops at the position of the first element greater than the value, or at null past the tail |
| LinkedOps.LinkBeforeInserts | src/main/java/com/shipmonk/collection/SortedLinkedList.java:141-146 | linking the fresh node before `current` and after its predecessor keeps the store linked along the order with the node at current's position, and inserts the value there |
| LinkedOps.AddRefines | src/main/java/com/shipmonk/collection/SortedLinkedList.java:116-150 | a linked store holding the contents the branches compute, with the counter bumped, is valid and is the value-level `add` result |
| LinkedOps.Add | src/main/java/com/shipmonk/collection/SortedLinkedList.java:116-150 | null throws NullPointerException; otherwise the store stays valid and represents the value-level `add` |
| LinkedOps.Find | src/main/java/com/shipmonk/collection/SortedLinkedList.java:238-253 | the pointer walk shared by `remove`, `contains` and `indexOf` stops on the node of the first occurrence, with its position, or finds nothing exactly when the value-level scan does |
| LinkedOps.Remove | src/main/java/com/shipmonk/collection/SortedLinkedList.java:159-175 | null throws; otherwise same answer as the value-level `remove`, the store stays valid and represents its resulting list |
| LinkedOps.Contains | src/main/java/com/shipmonk/collection/SortedLinkedList.java:238-253 | equal to the value-level `contains`, exception included |
| LinkedOps.IndexOf | src/main/java/com/shipmonk/collection/SortedLinkedList.java:397-415 | equal to the value-level `indexOf`, exception included |
| LinkedOps.RemoveAllWalk | src/main/java/com/shipmonk/collection/SortedLinkedList.java:187-203 | one pass of the pointer loop from position i reaches what the value-level scan leaves and counts from i: equal nodes unlinked, a smaller node stepped past, a greater node or the end stops it; the counter rises by the count |
| LinkedOps.RemoveAllUnlink | src/main/java/com/shipmonk/collection/SortedLinkedList.java:192-196 | the equal branch, which takes `next` before unlinking, removes the node, counts it and continues from its successor at the same position, still reaching the value-level outcome |
| LinkedOps.Unlink | src/main/java/com/shipmonk/collection/SortedLinkedList.java:213-229 | `removeNode` called from a loop keeps the store linked, drops exactly the k-th node and value, bumps the counter, and leaves the node's former successor at position k |
| LinkedOps.RemoveAll | src/main/java/com/shipmonk/collection/SortedLinkedList.java:184-206 | null throws; otherwise same count as the value-level `removeAll`, the store stays valid and represents its resulting list |
| LinkedOps.CountWalk | src/main/java/com/shipmonk/collection/SortedLinkedList.java:328-339 | the pointer loop counts what the value-level counting scan counts |
| LinkedOps.Count | src/main/java/com/shipmonk/collection/SortedLinkedList.java:325-342 | equal to the value-level `count`, exception included |
| LinkedOps.Walk | src/main/java/com/shipmonk/collection/SortedLinkedList.java:265-268 | `index` steps along `next` from head, never at null, reach the node at that position |
| LinkedOps.Get | src/main/java/com/shipmonk/collection/SortedLinkedList.java:262-270 | `checkIndex` against the size field and the walk give the value-level `get`, exception included |
| LinkedOps.First | src/main/java/com/shipmonk/collection/SortedLinkedList.java:277-279 | the head's value is the value-level `first` |
| LinkedOps.Last | src/main/java/com/shipmonk/collection/SortedLinkedList.java:286-288 | the tail's value is the value-level `last` |
| LinkedOps.Size | src/main/java/com/shipmonk/collection/SortedLinkedList.java:295-297 | the size field is the number of elements |
| LinkedOps.IsEmpty | src/main/java/com/shipmonk/collection/SortedLinkedList.java:304-306 | size 0 exactly when there are no elements |
| LinkedOps.Clear | src/main/java/com/shipmonk/collection/SortedLinkedList.java:311-316 | dropping head and tail and zeroing size gives a valid empty store, the value-level `clear` |
| LinkedIterator.IterateRefines | src/main/java/com/shipmonk/collection/SortedLinkedList.java:492-496 | a fresh cursor on head tracks a fresh value-level iterator |
| LinkedIterator.HasNextRefines | src/main/java/com/shipmonk/collection/SortedLinkedList.java:499-501 | for a cursor that is not stale, `current != null` is the value-level `hasNext` |
| LinkedIterator.NextRefines | src/main/java/com/shipmonk/collection/SortedLinkedList.java:504-512 | the pointer `next` throws the same exception as the value-level one, in the same order of checks, or returns the same element and keeps tracking |
| LinkedIterator.RemoveRefines | src/main/java/com/shipmonk/collection/SortedLinkedList.java:515-524 | the pointer `remove` throws the same exception as the value-level one, or unlinks the last returned node, keeps the store valid, represents the value-level result and keeps tracking |

## Left out

- `removeAt`, and `get` walking backwards from the tail: the class declares neither. The
  tests call `removeAt` and describe a backward `get`, but the code has no such method, and
  its `get` always walks forward from head.
- `toString`: it depends on Java's string formatting of the elements.
- `toList` as an operation of its own: `LinkedStore.Values` is exactly what it collects.
- `stream`: it wraps the iterator in the Java stream library.
- The `ofStrings` and `ofIntegers` factories: they differ only in the element type. Elements
  are `int` with their natural order, so `compareTo` of `String` and of other `Comparable`
  types is not modelled.
- Concrete element hash codes: `Integer.hashCode` and `String.hashCode` are not modelled.
  `hashCode` takes the elements' hash as a function parameter. The `int` wrap-around of
  `31 * result + h` is modelled with `Equality.ToInt32`.
- `size`, `modCount` and `removeAll`'s count are unbounded: the model does not wrap them at
  2^31. That needs more than 2^31 elements or changes.
- `equals` compares lists of any element type in Java. In the model both lists hold `int`.
  The `this == obj` shortcut is not modelled separately: a list has its own contents, so
  the model also answers true for it.
- ListIterator.HasNext: on a stale iterator it answers from the list's current contents. The
  Java `hasNext` answers from the node the iterator points at, which may already be
  unlinked. The pointer-level `LinkedIterator.HasNext` is the Java one. The two are proved
  to agree only while the iterator is not stale (`LinkedIterator.HasNextRefines`).
- Nodes are never freed. An unlinked node stays in the store's map, unreachable, as garbage
  does in Java. References are never reused, because `nextFree` only grows.
- Concurrency: the class is not thread-safe, and the model is sequential.
