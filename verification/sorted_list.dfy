/**
 * The sorted list as a value: its contents in traversal order (what `toList`
 * returns) and its modification counter. Every public operation is a function
 * whose body follows the corresponding Java method branch for branch, its
 * loops written as the scans of module SortedSeq. Every contract states the
 * result against a reference definition.
 */
module SortedLinkedList {
  import opened Outcomes
  import opened Elements
  import opened SortedSeq

  /** The observable state of a list. */
  datatype State = State(elems: seq<Elem>, modCount: nat)

  /** The class invariant: the contents are in non-decreasing order. */
  predicate Valid(l: State)
  {
    Sorted(l.elems)
  }

  /** The private constructor behind the `ofStrings` and `ofIntegers` factories. */
  function New(): (l: State)
    ensures Valid(l) && |l.elems| == 0 && l.modCount == 0
  {
    State([], 0)
  }

  // ---------------------------------------------------------------------
  // add
  // ---------------------------------------------------------------------

  /**
   * The contents after `add` places `x`: the empty-list, new-head and new-tail
   * shortcuts, and otherwise the middle scan that stops at the first element
   * greater than `x`.
   */
  function Inserted(s: seq<Elem>, x: Elem): seq<Elem>
  {
    if |s| == 0 then [x]
    else if Compare(x, s[0]) < 0 then [x] + s
    else if Compare(x, s[|s| - 1]) >= 0 then s + [x]
    else InsertAt(s, ScanPastLe(s, x, 0), x)
  }

  /**
   * When neither shortcut applies (head <= x < tail), the middle scan stops on
   * an element that exists and has a predecessor.
   */
  lemma MiddleScanStopsInside(s: seq<Elem>, x: Elem)
    requires |s| > 0 && s[0] <= x < s[|s| - 1]
    ensures 0 < ScanPastLe(s, x, 0) < |s|
  {
  }

  /**
   * Every branch of `add` inserts `x` right after the last element `<= x`,
   * i.e. after all existing equal elements, and keeps the contents sorted.
   */
  lemma {:induction false} InsertedIsStableInsertion(s: seq<Elem>, x: Elem)
    requires Sorted(s)
    ensures Inserted(s, x) == InsertAt(s, CountLe(s, x), x)
    ensures Sorted(Inserted(s, x))
    ensures multiset(Inserted(s, x)) == multiset(s) + multiset{x}
  {
    var k: nat;
    if |s| == 0 {
      k := 0;
      assert Inserted(s, x) == InsertAt(s, k, x);
    } else if Compare(x, s[0]) < 0 {
      k := 0;
      forall j | 0 <= j < |s| ensures x < s[j] {
        assert s[0] <= s[j];
      }
      assert Inserted(s, x) == InsertAt(s, k, x);
    } else if Compare(x, s[|s| - 1]) >= 0 {
      k := |s|;
      forall j | 0 <= j < |s| ensures s[j] <= x {
        assert s[j] <= s[|s| - 1];
      }
      assert Inserted(s, x) == InsertAt(s, k, x);
    } else {
      k := ScanPastLe(s, x, 0);
      MiddleScanStopsInside(s, x);
      forall j | k <= j < |s| ensures x < s[j] {
        assert s[k] <= s[j];
      }
    }
    assert SplitsAt(s, x, k);
    CountLeOfSplit(s, x, k);
    InsertAtSplit(s, x, k);
  }

  /**
   * `add(value)`: a null value throws before anything changes; otherwise the
   * value goes right after every element `<= value`, and the counter rises by one.
   */
  function Add(l: State, v: Option<Elem>): (r: Result<State>)
    requires Valid(l)
    ensures v.None? ==> r == Throw(NullPointer)
    ensures v.Some? ==> r.Ok? && Valid(r.value)
    ensures v.Some? ==> r.value.elems == InsertAt(l.elems, CountLe(l.elems, v.value), v.value)
    ensures v.Some? ==> multiset(r.value.elems) == multiset(l.elems) + multiset{v.value}
    ensures v.Some? ==> r.value.modCount == l.modCount + 1
  {
    match v
    case None => Throw(NullPointer)
    case Some(x) =>
      InsertedIsStableInsertion(l.elems, x);
      Ok(State(Inserted(l.elems, x), l.modCount + 1))
  }

  // ---------------------------------------------------------------------
  // removal
  // ---------------------------------------------------------------------

  /** The private `removeNode`: unlink the element at `k` and count the change. */
  function RemoveNode(l: State, k: nat): (r: State)
    requires k < |l.elems|
    ensures Valid(l) ==> Valid(r)
    ensures multiset(r.elems) == multiset(l.elems) - multiset{l.elems[k]}
    ensures |r.elems| + 1 == |l.elems|
    ensures r.modCount == l.modCount + 1
  {
    RemoveAtSorted(l.elems, k);
    State(RemoveAt(l.elems, k), l.modCount + 1)
  }

  /**
   * `remove(value)`: unlinks the first occurrence and answers true, or answers
   * false and changes nothing (not even the counter).
   */
  function Remove(l: State, v: Option<Elem>): (r: Result<(bool, State)>)
    requires Valid(l)
    ensures v.None? ==> r == Throw(NullPointer)
    ensures v.Some? ==> r.Ok? && (r.value.0 <==> v.value in l.elems) && Valid(r.value.1)
    ensures v.Some? && v.value in l.elems ==>
      r.value.1 == State(RemoveAt(l.elems, FirstIndex(l.elems, v.value)), l.modCount + 1)
    ensures v.Some? && v.value !in l.elems ==> r.value.1 == l
  {
    match v
    case None => Throw(NullPointer)
    case Some(x) =>
      FindFromIsFirstIndex(l.elems, x);
      var k := FindFrom(l.elems, x, 0);
      if k >= 0 then Ok((true, RemoveNode(l, k))) else Ok((false, l))
  }

  /**
   * `removeAll(value)`: unlinks every occurrence, answering how many there
   * were; the counter rises once per unlinked element.
   */
  function RemoveAll(l: State, v: Option<Elem>): (r: Result<(nat, State)>)
    requires Valid(l)
    ensures v.None? ==> r == Throw(NullPointer)
    ensures v.Some? ==> r.Ok? && Valid(r.value.1)
    ensures v.Some? ==> r.value.0 == multiset(l.elems)[v.value]
    ensures v.Some? ==> r.value.1.elems == Without(l.elems, v.value)
    ensures v.Some? ==> r.value.1.modCount == l.modCount + r.value.0
  {
    match v
    case None => Throw(NullPointer)
    case Some(x) =>
      RemoveAllFromExact(l.elems, x, 0);
      WithoutSorted(l.elems, x);
      var (t, n) := RemoveAllFrom(l.elems, x, 0);
      Ok((n, State(t, l.modCount + n)))
  }

  /** `clear()`: empties the list; it counts as a change even on an empty list. */
  function Clear(l: State): (r: State)
    ensures Valid(r) && |r.elems| == 0
    ensures r.modCount == l.modCount + 1
  {
    State([], l.modCount + 1)
  }

  // ---------------------------------------------------------------------
  // queries
  // ---------------------------------------------------------------------

  /** `contains(value)`: membership, found by a scan that stops at the first greater element. */
  function Contains(l: State, v: Option<Elem>): (r: Result<bool>)
    requires Valid(l)
    ensures v.None? ==> r == Throw(NullPointer)
    ensures v.Some? ==> r == Ok(v.value in l.elems)
  {
    match v
    case None => Throw(NullPointer)
    case Some(x) =>
      FindFromIsFirstIndex(l.elems, x);
      Ok(FindFrom(l.elems, x, 0) >= 0)
  }

  /** `indexOf(value)`: the least position holding the value, or -1. */
  function IndexOf(l: State, v: Option<Elem>): (r: Result<int>)
    requires Valid(l)
    ensures v.None? ==> r == Throw(NullPointer)
    ensures v.Some? ==> r.Ok? && -1 <= r.value < |l.elems|
    ensures v.Some? ==> (r.value == -1 <==> v.value !in l.elems)
    ensures v.Some? && r.value >= 0 ==>
      l.elems[r.value] == v.value && forall j :: 0 <= j < r.value ==> l.elems[j] != v.value
  {
    match v
    case None => Throw(NullPointer)
    case Some(x) =>
      FindFromIsFirstIndex(l.elems, x);
      Ok(FindFrom(l.elems, x, 0))
  }

  /** `count(value)`: the multiplicity of the value. */
  function Count(l: State, v: Option<Elem>): (r: Result<nat>)
    requires Valid(l)
    ensures v.None? ==> r == Throw(NullPointer)
    ensures v.Some? ==> r == Ok(multiset(l.elems)[v.value])
  {
    match v
    case None => Throw(NullPointer)
    case Some(x) =>
      CountFromExact(l.elems, x, 0);
      assert l.elems[0..] == l.elems;
      Ok(CountFrom(l.elems, x, 0))
  }

  /** `get(index)`, guarded by `checkIndex`. */
  function Get(l: State, index: int): (r: Result<Elem>)
    ensures r.Throw? <==> index < 0 || index >= |l.elems|
    ensures r.Throw? ==> r.error == IndexOutOfBounds
    ensures r.Ok? ==> r.value == l.elems[index]
  {
    if index < 0 || index >= |l.elems| then Throw(IndexOutOfBounds) else Ok(l.elems[index])
  }

  /** `first()`: the smallest element, absent exactly on an empty list. */
  function First(l: State): (r: Option<Elem>)
    requires Valid(l)
    ensures r.None? <==> |l.elems| == 0
    ensures r.Some? ==> r.value == l.elems[0] && forall e :: e in l.elems ==> r.value <= e
  {
    if |l.elems| == 0 then None else Some(l.elems[0])
  }

  /** `last()`: the largest element, absent exactly on an empty list. */
  function Last(l: State): (r: Option<Elem>)
    requires Valid(l)
    ensures r.None? <==> |l.elems| == 0
    ensures r.Some? ==> r.value == l.elems[|l.elems| - 1] && forall e :: e in l.elems ==> e <= r.value
  {
    if |l.elems| == 0 then None else Some(l.elems[|l.elems| - 1])
  }
}
