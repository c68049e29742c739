/**
 * The list as Java holds it: a store of nodes addressed by `Ref`, the head
 * and tail references, the size field and the modification counter. The
 * linkage invariant is stated against a ghost sequence `order` of the
 * references from head to tail; the contents are the values along it.
 */
module LinkedStore {
  import opened Outcomes
  import opened Elements
  import opened SortedSeq
  import opened Nodes
  import SortedLinkedList

  /**
   * The fields of `SortedLinkedList`, with the nodes in `heap`. `nextFree`
   * plays the allocator: every node allocated so far has a smaller address.
   * Unlinked nodes stay in `heap`, as a Java object outlives its unlinking.
   */
  datatype Store = Store(
    heap: map<Ref, Node>,
    head: Option<Ref>,
    tail: Option<Ref>,
    size: nat,
    modCount: nat,
    nextFree: Ref)

  /** The reference at position `i` of `order`, or `None` past the end. */
  function At(order: seq<Ref>, i: nat): Option<Ref>
  {
    if i < |order| then Some(order[i]) else None
  }

  /** The link a node at position `i` must hold backwards. */
  function PrevIn(order: seq<Ref>, i: nat): Option<Ref>
  {
    if 0 < i <= |order| then Some(order[i - 1]) else None
  }

  /** Every node along `order` is allocated. */
  predicate InHeap(s: Store, order: seq<Ref>)
  {
    forall i :: 0 <= i < |order| ==> order[i] in s.heap
  }

  /**
   * The reference at position `i` of `order`. Distinctness is stated on it,
   * so that a proof brings in the distinctness of two positions only by
   * naming them.
   */
  function RefAt(order: seq<Ref>, i: nat): Ref
    requires i < |order|
  {
    order[i]
  }

  /** No node occurs twice along `order`. */
  predicate Distinct(order: seq<Ref>)
  {
    forall i, j {:trigger RefAt(order, i), RefAt(order, j)} :: 0 <= i < j < |order| ==> RefAt(order, i) != RefAt(order, j)
  }

  /**
   * The linkage invariant: `order` lists distinct allocated nodes; head and
   * tail are its ends; every node's `next` is its successor and `prev` its
   * predecessor (so `next.prev == self`, head has no `prev`, tail no `next`);
   * and `size` is the number of nodes.
   */
  predicate Linked(s: Store, order: seq<Ref>)
  {
    && InHeap(s, order)
    && Distinct(order)
    && (forall r :: r in s.heap ==> r < s.nextFree)
    && s.head == At(order, 0)
    && s.tail == (if |order| == 0 then None else Some(order[|order| - 1]))
    && (forall i {:trigger s.heap[order[i]]} :: 0 <= i < |order| ==> s.heap[order[i]].next == At(order, i + 1))
    && (forall i {:trigger s.heap[order[i]]} :: 0 <= i < |order| ==> s.heap[order[i]].prev == PrevIn(order, i))
    && s.size == |order|
  }

  /** The values along `order`: what `toList` returns. */
  function Values(s: Store, order: seq<Ref>): (vs: seq<Elem>)
    requires InHeap(s, order)
    ensures |vs| == |order|
    ensures forall i {:trigger vs[i]} :: 0 <= i < |order| ==> vs[i] == s.heap[order[i]].value
  {
    seq(|order|, i requires 0 <= i < |order| => s.heap[order[i]].value)
  }

  /** The full class invariant: linkage plus sorted contents. */
  predicate Valid(s: Store, order: seq<Ref>)
  {
    Linked(s, order) && Sorted(Values(s, order))
  }

  /** The list value a store represents. */
  function Abs(s: Store, order: seq<Ref>): SortedLinkedList.State
    requires InHeap(s, order)
  {
    SortedLinkedList.State(Values(s, order), s.modCount)
  }

  /** The store of a freshly constructed list. */
  function NewStore(): (s: Store)
    ensures Valid(s, []) && Abs(s, []) == SortedLinkedList.New()
  {
    Store(map[], None, None, 0, 0, 0)
  }

  // ---------------------------------------------------------------------
  // What the linkage invariant gives
  // ---------------------------------------------------------------------

  /**
   * The end-of-list links: `next` is null exactly on the tail and `prev`
   * exactly on the head, every successor points back (`next.prev == self`),
   * and head, tail and a zero size are absent together.
   */
  lemma LinkageConsistent(s: Store, order: seq<Ref>)
    requires Linked(s, order)
    ensures s.head.None? <==> s.size == 0
    ensures s.tail.None? <==> s.size == 0
    ensures s.head.Some? ==> s.head.value in s.heap && s.heap[s.head.value].prev.None?
    ensures s.tail.Some? ==> s.tail.value in s.heap && s.heap[s.tail.value].next.None?
    ensures forall i :: 0 <= i < |order| ==> (s.heap[order[i]].next.None? <==> s.tail == Some(order[i]))
    ensures forall i :: 0 <= i < |order| ==> (s.heap[order[i]].prev.None? <==> s.head == Some(order[i]))
    ensures forall i :: 0 <= i < |order| && s.heap[order[i]].next.Some? ==>
      var n := s.heap[order[i]].next.value;
      n in s.heap && s.heap[n].prev == Some(order[i])
  {
    forall i | 0 <= i < |order|
      ensures s.heap[order[i]].next.None? <==> s.tail == Some(order[i])
      ensures s.heap[order[i]].prev.None? <==> s.head == Some(order[i])
    {
    }
    forall i | 0 <= i < |order| && s.heap[order[i]].next.Some?
      ensures s.heap[s.heap[order[i]].next.value].prev == Some(order[i])
    {
      assert s.heap[order[i + 1]].prev == PrevIn(order, i + 1);
    }
  }

  /** The node reached from `start` after following `next` `k` times, if any. */
  function Follow(s: Store, start: Option<Ref>, k: nat): Option<Ref>
    decreases k
  {
    if k == 0 || start.None? || start.value !in s.heap then start
    else Follow(s, s.heap[start.value].next, k - 1)
  }

  /** Following `next` from position `i` for `k` steps lands on position `i + k`. */
  lemma {:induction false} FollowAlongOrder(s: Store, order: seq<Ref>, i: nat, k: nat)
    requires InHeap(s, order) && i + k <= |order|
    requires forall j :: 0 <= j < |order| ==> s.heap[order[j]].next == At(order, j + 1)
    ensures Follow(s, At(order, i), k) == At(order, i + k)
    decreases k
  {
    if k > 0 {
      assert s.heap[order[i]].next == At(order, i + 1);
      FollowAlongOrder(s, order, i + 1, k - 1);
    }
  }

  /**
   * `size` counts the reachable nodes: walking `next` from head visits the
   * nodes of `order` one by one and reaches null after exactly `size` steps.
   */
  lemma {:induction false} SizeIsReachableCount(s: Store, order: seq<Ref>)
    requires Linked(s, order)
    ensures forall k :: 0 <= k < s.size ==> Follow(s, s.head, k) == Some(order[k])
    ensures Follow(s, s.head, s.size) == None
  {
    forall k | 0 <= k <= s.size
      ensures Follow(s, s.head, k) == At(order, k)
    {
      FollowAlongOrder(s, order, 0, k);
    }
  }

  // ---------------------------------------------------------------------
  // Splicing a node in and out
  // ---------------------------------------------------------------------

  /** `o` is `s` with `x` placed at position `i`, stated index by index. */
  ghost predicate IsInsertion<T>(o: seq<T>, s: seq<T>, i: nat, x: T)
  {
    && |o| == |s| + 1 && i <= |s|
    && (forall j :: 0 <= j < i ==> o[j] == s[j])
    && o[i] == x
    && (forall j :: i < j < |o| ==> o[j] == s[j - 1])
  }

  /** `o` is `s` without its element at position `k`, stated index by index. */
  ghost predicate IsRemoval<T>(o: seq<T>, s: seq<T>, k: nat)
  {
    && |o| + 1 == |s| && k < |s|
    && (forall j :: 0 <= j < k ==> o[j] == s[j])
    && (forall j :: k <= j < |o| ==> o[j] == s[j + 1])
  }

  /** The index-wise description of an insertion is exactly `InsertAt`. */
  lemma InsertionIsInsertAt<T>(o: seq<T>, s: seq<T>, i: nat, x: T)
    requires i <= |s|
    ensures IsInsertion(o, s, i, x) <==> o == InsertAt(s, i, x)
  {
    if IsInsertion(o, s, i, x) {
      var w := InsertAt(s, i, x);
      assert |o| == |w|;
      forall j | 0 <= j < |o| ensures o[j] == w[j] {
        if j < i {
          assert w[j] == s[j];
        } else if j > i {
          assert w[j] == s[j - 1];
        }
      }
    }
  }

  /** The index-wise description of a removal is exactly `RemoveAt`. */
  lemma RemovalIsRemoveAt<T>(o: seq<T>, s: seq<T>, k: nat)
    requires k < |s|
    ensures IsRemoval(o, s, k) <==> o == RemoveAt(s, k)
  {
    if IsRemoval(o, s, k) {
      var w := RemoveAt(s, k);
      assert |o| == |w|;
      forall j | 0 <= j < |o| ensures o[j] == w[j] {
        if j < k {
          assert w[j] == s[j];
        } else {
          assert w[j] == s[j + 1];
        }
      }
    }
  }

  /**
   * Linking a fresh node `n` holding `x` in at position `i` of `order` turns
   * `s` into `t`: the new node points at its neighbours, the left neighbour's
   * `next` and the right neighbour's `prev` point at it, every other node is
   * untouched, and head, tail and size follow.
   */
  predicate LinksIn(s: Store, order: seq<Ref>, i: nat, n: Ref, x: Elem, t: Store)
    requires InHeap(s, order) && i <= |order|
  {
    && n !in s.heap && n < t.nextFree && s.nextFree <= t.nextFree
    && t.heap.Keys == s.heap.Keys + {n}
    && t.heap[n] == Node(x, At(order, i), PrevIn(order, i))
    && (i > 0 ==> t.heap[order[i - 1]] == SetNext(s.heap[order[i - 1]], Some(n)))
    && (i < |order| ==> t.heap[order[i]] == SetPrev(s.heap[order[i]], Some(n)))
    && (forall j :: 0 <= j < |order| && j + 1 != i && j != i ==> t.heap[order[j]] == s.heap[order[j]])
    && t.head == (if i == 0 then Some(n) else s.head)
    && t.tail == (if i == |order| then Some(n) else s.tail)
    && t.size == s.size + 1
  }

  /** Linking in keeps the order allocated and free of repetitions. */
  lemma SpliceInDistinct(s: Store, order: seq<Ref>, i: nat, n: Ref, x: Elem, t: Store, o: seq<Ref>)
    requires InHeap(s, order) && Distinct(order) && i <= |order|
    requires LinksIn(s, order, i, n, x, t) && IsInsertion(o, order, i, n)
    ensures InHeap(t, o) && Distinct(o)
  {
    forall j, k | 0 <= j < k < |o| ensures o[j] != o[k] {
      if j != i && k != i {
        var j' := if j < i then j else j - 1;
        var k' := if k < i then k else k - 1;
        assert o[j] == order[j'] && o[k] == order[k'];
        assert RefAt(order, j') != RefAt(order, k');
      }
    }
  }

  /** After linking in, every `next` along the extended order is the successor. */
  lemma SpliceInNext(s: Store, order: seq<Ref>, i: nat, n: Ref, x: Elem, t: Store, o: seq<Ref>)
    requires InHeap(s, order) && i <= |order|
    requires forall j :: 0 <= j < |order| ==> s.heap[order[j]].next == At(order, j + 1)
    requires LinksIn(s, order, i, n, x, t) && IsInsertion(o, order, i, n)
    ensures forall j :: 0 <= j < |o| ==> o[j] in t.heap && t.heap[o[j]].next == At(o, j + 1)
  {
    forall j | 0 <= j < |o| ensures o[j] in t.heap && t.heap[o[j]].next == At(o, j + 1) {
      if j < i {
        assert o[j] == order[j];
        if j + 1 == i {
          assert o[j + 1] == n;
        } else {
          assert o[j + 1] == order[j + 1];
          assert s.heap[order[j]].next == At(order, j + 1);
        }
      } else if j > i {
        assert o[j] == order[j - 1];
        assert s.heap[order[j - 1]].next == At(order, j);
        if j + 1 < |o| {
          assert o[j + 1] == order[j];
        }
      } else if i < |order| {
        assert o[j + 1] == order[i];
      }
    }
  }

  /** After linking in, every `prev` along the extended order is the predecessor. */
  lemma SpliceInPrev(s: Store, order: seq<Ref>, i: nat, n: Ref, x: Elem, t: Store, o: seq<Ref>)
    requires InHeap(s, order) && i <= |order|
    requires forall j :: 0 <= j < |order| ==> s.heap[order[j]].prev == PrevIn(order, j)
    requires LinksIn(s, order, i, n, x, t) && IsInsertion(o, order, i, n)
    ensures forall j :: 0 <= j < |o| ==> o[j] in t.heap && t.heap[o[j]].prev == PrevIn(o, j)
  {
    forall j | 0 <= j < |o| ensures o[j] in t.heap && t.heap[o[j]].prev == PrevIn(o, j) {
      if j < i {
        assert o[j] == order[j];
        assert s.heap[order[j]].prev == PrevIn(order, j);
        if j > 0 {
          assert o[j - 1] == order[j - 1];
        }
      } else if j > i {
        assert o[j] == order[j - 1];
        if j == i + 1 {
          assert o[j - 1] == n;
        } else {
          assert o[j - 1] == order[j - 2];
          assert s.heap[order[j - 1]].prev == PrevIn(order, j - 1);
        }
      } else if i > 0 {
        assert o[j - 1] == order[i - 1];
      }
    }
  }

  /** After linking in, the values along the extended order have `x` inserted at `i`. */
  lemma SpliceInValues(s: Store, order: seq<Ref>, i: nat, n: Ref, x: Elem, t: Store, o: seq<Ref>)
    requires InHeap(s, order) && i <= |order|
    requires LinksIn(s, order, i, n, x, t) && IsInsertion(o, order, i, n) && InHeap(t, o)
    ensures IsInsertion(Values(t, o), Values(s, order), i, x)
  {
    var vs := Values(s, order);
    var ws := Values(t, o);
    forall j | 0 <= j < i ensures ws[j] == vs[j] {
      assert o[j] == order[j];
    }
    forall j | i < j < |ws| ensures ws[j] == vs[j - 1] {
      assert o[j] == order[j - 1];
    }
  }

  /** After linking in, allocation, the ends and the size agree with the extended order. */
  lemma SpliceInFrame(s: Store, order: seq<Ref>, i: nat, n: Ref, x: Elem, t: Store, o: seq<Ref>)
    requires InHeap(s, order) && i <= |order|
    requires forall r :: r in s.heap ==> r < s.nextFree
    requires s.head == At(order, 0)
    requires s.tail == (if |order| == 0 then None else Some(order[|order| - 1]))
    requires s.size == |order|
    requires LinksIn(s, order, i, n, x, t) && IsInsertion(o, order, i, n)
    ensures forall r :: r in t.heap ==> r < t.nextFree
    ensures t.head == At(o, 0)
    ensures t.tail == (if |o| == 0 then None else Some(o[|o| - 1]))
    ensures t.size == |o|
  {
    forall r | r in t.heap ensures r < t.nextFree {
      assert r in s.heap || r == n;
    }
    assert o[0] == if i == 0 then n else order[0];
    assert o[|o| - 1] == if i == |order| then n else order[|order| - 1];
  }

  /** Linking a fresh node in at position `i` yields a linked store holding `x` at `i`. */
  lemma SpliceIn(s: Store, order: seq<Ref>, i: nat, n: Ref, x: Elem, t: Store, o: seq<Ref>)
    requires Linked(s, order) && i <= |order|
    requires LinksIn(s, order, i, n, x, t) && IsInsertion(o, order, i, n)
    ensures Linked(t, o)
    ensures IsInsertion(Values(t, o), Values(s, order), i, x)
  {
    SpliceInDistinct(s, order, i, n, x, t, o);
    SpliceInNext(s, order, i, n, x, t, o);
    SpliceInPrev(s, order, i, n, x, t, o);
    SpliceInValues(s, order, i, n, x, t, o);
    SpliceInFrame(s, order, i, n, x, t, o);
  }

  /**
   * Unlinking the node at position `k` of `order` turns `s` into `t`: its
   * left neighbour's `next` takes over its own `next`, its right neighbour's
   * `prev` takes over its own `prev`, every other node is untouched, and
   * head, tail and size follow.
   */
  predicate LinksOut(s: Store, order: seq<Ref>, k: nat, t: Store)
    requires InHeap(s, order) && k < |order|
  {
    && t.heap.Keys == s.heap.Keys && t.nextFree == s.nextFree
    && (k > 0 ==> t.heap[order[k - 1]] == SetNext(s.heap[order[k - 1]], At(order, k + 1)))
    && (k + 1 < |order| ==> t.heap[order[k + 1]] == SetPrev(s.heap[order[k + 1]], PrevIn(order, k)))
    && (forall j :: 0 <= j < |order| && j + 1 != k && j != k + 1 ==> t.heap[order[j]] == s.heap[order[j]])
    && t.head == (if k == 0 then At(order, 1) else s.head)
    && t.tail == (if k + 1 == |order| then PrevIn(order, k) else s.tail)
    && t.size + 1 == s.size
  }

  /** Unlinking keeps the order allocated and free of repetitions. */
  lemma SpliceOutDistinct(s: Store, order: seq<Ref>, k: nat, t: Store, o: seq<Ref>)
    requires InHeap(s, order) && Distinct(order) && k < |order|
    requires LinksOut(s, order, k, t) && IsRemoval(o, order, k)
    ensures InHeap(t, o) && Distinct(o)
  {
    forall j, m | 0 <= j < m < |o| ensures o[j] != o[m] {
      var j' := if j < k then j else j + 1;
      var m' := if m < k then m else m + 1;
      assert o[j] == order[j'] && o[m] == order[m'];
      assert RefAt(order, j') != RefAt(order, m');
    }
  }

  /** After unlinking, every `next` along the shortened order is the successor. */
  lemma SpliceOutNext(s: Store, order: seq<Ref>, k: nat, t: Store, o: seq<Ref>)
    requires InHeap(s, order) && k < |order|
    requires forall j :: 0 <= j < |order| ==> s.heap[order[j]].next == At(order, j + 1)
    requires LinksOut(s, order, k, t) && IsRemoval(o, order, k)
    ensures forall j :: 0 <= j < |o| ==> o[j] in t.heap && t.heap[o[j]].next == At(o, j + 1)
  {
    forall j | 0 <= j < |o| ensures o[j] in t.heap && t.heap[o[j]].next == At(o, j + 1) {
      if j < k {
        assert o[j] == order[j];
        if j + 1 == k {
          if k + 1 < |order| {
            assert o[j + 1] == order[k + 1];
          }
        } else {
          assert o[j + 1] == order[j + 1];
          assert s.heap[order[j]].next == At(order, j + 1);
        }
      } else {
        assert o[j] == order[j + 1];
        assert s.heap[order[j + 1]].next == At(order, j + 2);
        if j + 1 < |o| {
          assert o[j + 1] == order[j + 2];
        }
      }
    }
  }

  /** After unlinking, every `prev` along the shortened order is the predecessor. */
  lemma SpliceOutPrev(s: Store, order: seq<Ref>, k: nat, t: Store, o: seq<Ref>)
    requires InHeap(s, order) && k < |order|
    requires forall j :: 0 <= j < |order| ==> s.heap[order[j]].prev == PrevIn(order, j)
    requires LinksOut(s, order, k, t) && IsRemoval(o, order, k)
    ensures forall j :: 0 <= j < |o| ==> o[j] in t.heap && t.heap[o[j]].prev == PrevIn(o, j)
  {
    forall j | 0 <= j < |o| ensures o[j] in t.heap && t.heap[o[j]].prev == PrevIn(o, j) {
      if j < k {
        assert o[j] == order[j];
        assert s.heap[order[j]].prev == PrevIn(order, j);
        if j > 0 {
          assert o[j - 1] == order[j - 1];
        }
      } else if j == k {
        assert o[j] == order[k + 1];
        if k > 0 {
          assert o[j - 1] == order[k - 1];
        }
      } else {
        assert o[j] == order[j + 1] && o[j - 1] == order[j];
        assert s.heap[order[j + 1]].prev == PrevIn(order, j + 1);
      }
    }
  }

  /** After unlinking, the values along the shortened order have lost the value at `k`. */
  lemma SpliceOutValues(s: Store, order: seq<Ref>, k: nat, t: Store, o: seq<Ref>)
    requires InHeap(s, order) && k < |order|
    requires LinksOut(s, order, k, t) && IsRemoval(o, order, k) && InHeap(t, o)
    ensures IsRemoval(Values(t, o), Values(s, order), k)
  {
    var vs := Values(s, order);
    var ws := Values(t, o);
    forall j | 0 <= j < k ensures ws[j] == vs[j] {
      assert o[j] == order[j];
    }
    forall j | k <= j < |ws| ensures ws[j] == vs[j + 1] {
      assert o[j] == order[j + 1];
    }
  }

  /** After unlinking, allocation, the ends and the size agree with the shortened order. */
  lemma SpliceOutFrame(s: Store, order: seq<Ref>, k: nat, t: Store, o: seq<Ref>)
    requires Linked(s, order) && k < |order|
    requires LinksOut(s, order, k, t) && IsRemoval(o, order, k)
    ensures forall r :: r in t.heap ==> r < t.nextFree
    ensures t.head == At(o, 0)
    ensures t.tail == (if |o| == 0 then None else Some(o[|o| - 1]))
    ensures t.size == |o|
  {
    if |o| > 0 {
      assert o[0] == if k == 0 then order[1] else order[0];
      assert o[|o| - 1] == if k + 1 == |order| then order[k - 1] else order[|order| - 1];
    }
  }

  /** Unlinking position `k` yields a linked store that has lost exactly the value at `k`. */
  lemma SpliceOut(s: Store, order: seq<Ref>, k: nat, t: Store, o: seq<Ref>)
    requires Linked(s, order) && k < |order|
    requires LinksOut(s, order, k, t) && IsRemoval(o, order, k)
    ensures Linked(t, o)
    ensures IsRemoval(Values(t, o), Values(s, order), k)
  {
    SpliceOutDistinct(s, order, k, t, o);
    SpliceOutNext(s, order, k, t, o);
    SpliceOutPrev(s, order, k, t, o);
    SpliceOutValues(s, order, k, t, o);
    SpliceOutFrame(s, order, k, t, o);
  }
}
