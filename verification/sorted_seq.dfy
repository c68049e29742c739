/**
 * Sequence-level facts behind the sorted list: sortedness, the reference
 * definitions every operation is judged against (the insertion point, the
 * first occurrence, the filter that drops a value), and the forward scans the
 * list's loops perform, each stopping early at the first element greater than
 * the target.
 */
module SortedSeq {
  import opened Elements

  /** Non-decreasing order: the class invariant of the list's contents. */
  predicate Sorted(s: seq<Elem>)
  {
    forall i, j :: 0 <= i < j < |s| ==> s[i] <= s[j]
  }

  /** `s` with `v` placed at position `k`. */
  function InsertAt<T>(s: seq<T>, k: nat, v: T): seq<T>
    requires k <= |s|
  {
    s[..k] + [v] + s[k..]
  }

  /** Placing a value at the front or at the end is prepending or appending it. */
  lemma InsertAtEnds<T>(s: seq<T>, v: T)
    ensures InsertAt(s, 0, v) == [v] + s
    ensures InsertAt(s, |s|, v) == s + [v]
  {
    assert s[..0] == [] && s[0..] == s;
    assert s[..|s|] == s && s[|s|..] == [];
  }

  /** `s` with the element at position `k` unlinked. */
  function RemoveAt<T>(s: seq<T>, k: nat): seq<T>
    requires k < |s|
  {
    s[..k] + s[k + 1..]
  }

  /** The number of elements not greater than `v`: on a sorted list, the
      position right after the last element `<= v`. */
  function CountLe(s: seq<Elem>, v: Elem): (n: nat)
    ensures n <= |s|
  {
    if |s| == 0 then 0 else (if s[0] <= v then 1 else 0) + CountLe(s[1..], v)
  }

  /** Every element before `k` is at most `v`, every element from `k` on exceeds it. */
  predicate SplitsAt(s: seq<Elem>, v: Elem, k: nat)
  {
    && k <= |s|
    && (forall j :: 0 <= j < k ==> s[j] <= v)
    && (forall j :: k <= j < |s| ==> v < s[j])
  }

  /** Reference for the first occurrence: a full scan with no early exit. */
  function FirstIndex(s: seq<Elem>, v: Elem): (k: int)
    ensures -1 <= k < |s|
    ensures k == -1 <==> v !in s
    ensures k >= 0 ==> s[k] == v && forall j :: 0 <= j < k ==> s[j] != v
  {
    if |s| == 0 then -1
    else if s[0] == v then 0
    else
      var k := FirstIndex(s[1..], v);
      assert forall j :: 1 <= j < |s| ==> s[j] == s[1..][j - 1];
      assert v in s <==> v in s[1..];
      if k == -1 then -1 else k + 1
  }

  /** Reference for removing every occurrence: `s` filtered. */
  function Without(s: seq<Elem>, v: Elem): seq<Elem>
  {
    if |s| == 0 then [] else (if s[0] == v then [] else [s[0]]) + Without(s[1..], v)
  }

  // ---------------------------------------------------------------------
  // The scans of the list's loops
  // ---------------------------------------------------------------------

  /**
   * The middle branch of `add`: starting at `i`, step past every element that
   * compares `<= v`; the result is where the new element goes.
   */
  function ScanPastLe(s: seq<Elem>, v: Elem, i: nat): (k: nat)
    requires i <= |s|
    ensures i <= k <= |s|
    ensures forall j :: i <= j < k ==> s[j] <= v
    ensures k < |s| ==> v < s[k]
    decreases |s| - i
  {
    if i < |s| && Compare(s[i], v) <= 0 then ScanPastLe(s, v, i + 1) else i
  }

  /**
   * The loop shared by `remove`, `contains` and `indexOf`: the index of the
   * first element equal to `v` from `i` on, or -1 once the end or an element
   * greater than `v` is reached.
   */
  function FindFrom(s: seq<Elem>, v: Elem, i: nat): (k: int)
    requires i <= |s|
    ensures k == -1 || (i <= k < |s| && s[k] == v)
    ensures k >= 0 ==> forall j :: i <= j < k ==> s[j] < v
    decreases |s| - i
  {
    if i == |s| then -1
    else
      var c := Compare(s[i], v);
      if c == 0 then i
      else if c > 0 then -1
      else FindFrom(s, v, i + 1)
  }

  /**
   * The loop of `count`: one for every equal element from `i` on, stopping at
   * the first element greater than `v`.
   */
  function CountFrom(s: seq<Elem>, v: Elem, i: nat): (n: nat)
    requires i <= |s|
    ensures n <= |s| - i
    decreases |s| - i
  {
    if i == |s| then 0
    else
      var c := Compare(s[i], v);
      if c == 0 then 1 + CountFrom(s, v, i + 1)
      else if c > 0 then 0
      else CountFrom(s, v, i + 1)
  }

  /**
   * The loop of `removeAll`: `s` is the current contents and `i` the position
   * of the cursor. An equal element is unlinked, and the cursor stays on its
   * successor, which now sits at `i`. Returns the final contents and the
   * number of removals.
   */
  function RemoveAllFrom(s: seq<Elem>, v: Elem, i: nat): (r: (seq<Elem>, nat))
    requires i <= |s|
    ensures |r.0| + r.1 == |s|
    decreases |s| - i
  {
    if i == |s| then (s, 0)
    else
      var c := Compare(s[i], v);
      if c == 0 then
        var r := RemoveAllFrom(RemoveAt(s, i), v, i);
        (r.0, r.1 + 1)
      else if c > 0 then (s, 0)
      else RemoveAllFrom(s, v, i + 1)
  }

  // ---------------------------------------------------------------------
  // Lemmas
  // ---------------------------------------------------------------------

  /** A split point is exactly the number of elements `<= v`. */
  lemma {:induction false} CountLeOfSplit(s: seq<Elem>, v: Elem, k: nat)
    requires SplitsAt(s, v, k)
    ensures CountLe(s, v) == k
  {
    if |s| > 0 {
      if k > 0 {
        assert SplitsAt(s[1..], v, k - 1);
        CountLeOfSplit(s[1..], v, k - 1);
      } else {
        assert SplitsAt(s[1..], v, 0);
        CountLeOfSplit(s[1..], v, 0);
      }
    }
  }

  /** Inserting at a split point keeps a sorted sequence sorted and adds exactly `v`. */
  lemma InsertAtSplit(s: seq<Elem>, v: Elem, k: nat)
    requires Sorted(s) && SplitsAt(s, v, k)
    ensures Sorted(InsertAt(s, k, v))
    ensures multiset(InsertAt(s, k, v)) == multiset(s) + multiset{v}
  {
    var t := InsertAt(s, k, v);
    forall i, j | 0 <= i < j < |t| ensures t[i] <= t[j] {
      if j < k {
        assert t[i] == s[i] && t[j] == s[j];
      } else if j == k {
        assert t[i] == s[i] && t[j] == v;
      } else if i < k {
        assert t[i] == s[i] && t[j] == s[j - 1];
      } else if i == k {
        assert t[i] == v && t[j] == s[j - 1];
      } else {
        assert t[i] == s[i - 1] && t[j] == s[j - 1];
      }
    }
    assert s == s[..k] + s[k..];
  }

  /** Unlinking one element keeps a sorted sequence sorted and removes exactly that element. */
  lemma RemoveAtSorted(s: seq<Elem>, k: nat)
    requires k < |s|
    ensures Sorted(s) ==> Sorted(RemoveAt(s, k))
    ensures multiset(RemoveAt(s, k)) == multiset(s) - multiset{s[k]}
  {
    var t := RemoveAt(s, k);
    if Sorted(s) {
      forall i, j | 0 <= i < j < |t| ensures t[i] <= t[j] {
        var i' := if i < k then i else i + 1;
        var j' := if j < k then j else j + 1;
        assert t[i] == s[i'] && t[j] == s[j'];
      }
    }
    assert s == s[..k] + [s[k]] + s[k + 1..];
  }

  /**
   * Early exit is sound on sorted input: stopping at the first element greater
   * than `v` finds exactly the first occurrence a full scan finds.
   */
  lemma {:induction false} FindFromIsFirstIndex(s: seq<Elem>, v: Elem)
    requires Sorted(s)
    ensures FindFrom(s, v, 0) == FirstIndex(s, v)
  {
    FindFromExact(s, v, 0);
  }

  /** On sorted input the early-exit scan from `i` finds `v` iff it occurs at or after `i`. */
  lemma {:induction false} FindFromExact(s: seq<Elem>, v: Elem, i: nat)
    requires Sorted(s) && i <= |s|
    requires forall j :: 0 <= j < i ==> s[j] < v
    ensures FindFrom(s, v, i) == FirstIndex(s, v)
    decreases |s| - i
  {
    if i < |s| {
      var c := Compare(s[i], v);
      if c < 0 {
        FindFromExact(s, v, i + 1);
      } else if c > 0 {
        assert forall j :: i <= j < |s| ==> s[j] != v by {
          forall j | i <= j < |s| ensures s[j] != v {
            assert s[i] <= s[j];
          }
        }
      }
    }
  }

  /** On sorted input the early-exit count from `i` is the multiplicity of `v` in `s[i..]`. */
  lemma {:induction false} CountFromExact(s: seq<Elem>, v: Elem, i: nat)
    requires Sorted(s) && i <= |s|
    ensures CountFrom(s, v, i) == multiset(s[i..])[v]
    decreases |s| - i
  {
    if i < |s| {
      assert s[i..] == [s[i]] + s[i + 1..];
      var c := Compare(s[i], v);
      if c > 0 {
        assert v !in s[i..] by {
          forall j | i <= j < |s| ensures s[j] != v {
            assert s[i] <= s[j];
          }
        }
      } else {
        CountFromExact(s, v, i + 1);
      }
    }
  }

  /** Filtering distributes over concatenation. */
  lemma {:induction false} WithoutConcat(a: seq<Elem>, b: seq<Elem>, v: Elem)
    ensures Without(a + b, v) == Without(a, v) + Without(b, v)
  {
    if |a| > 0 {
      var ab := a + b;
      assert ab[0] == a[0];
      assert ab[1..] == a[1..] + b;
      WithoutConcat(a[1..], b, v);
      var h := if a[0] == v then [] else [a[0]];
      calc {
        Without(ab, v);
        h + Without(a[1..] + b, v);
        h + (Without(a[1..], v) + Without(b, v));
        (h + Without(a[1..], v)) + Without(b, v);
      }
    } else {
      assert a + b == b;
    }
  }

  /** Filtering out a value that does not occur changes nothing. */
  lemma {:induction false} WithoutAbsent(s: seq<Elem>, v: Elem)
    requires v !in s
    ensures Without(s, v) == s
  {
    if |s| > 0 {
      assert v !in s[1..];
      WithoutAbsent(s[1..], v);
    }
  }

  /** The filter drops every `v` and keeps every other element with its multiplicity. */
  lemma {:induction false} WithoutContents(s: seq<Elem>, v: Elem)
    ensures v !in Without(s, v)
    ensures forall x :: x != v ==> multiset(Without(s, v))[x] == multiset(s)[x]
    ensures multiset(Without(s, v))[v] == 0
  {
    if |s| > 0 {
      WithoutContents(s[1..], v);
      assert s == [s[0]] + s[1..];
    }
  }

  /** Filtering keeps a sorted sequence sorted (it keeps a subsequence). */
  lemma {:induction false} WithoutSorted(s: seq<Elem>, v: Elem)
    requires Sorted(s)
    ensures Sorted(Without(s, v))
    ensures forall x :: x in Without(s, v) ==> x in s
  {
    if |s| > 0 {
      WithoutSorted(s[1..], v);
      var w := Without(s[1..], v);
      if s[0] != v {
        var t := [s[0]] + w;
        forall i, j | 0 <= i < j < |t| ensures t[i] <= t[j] {
          assert t[j] == w[j - 1] && t[j] in s[1..];
          if i > 0 {
            assert t[i] == w[i - 1];
          } else {
            var m :| 0 <= m < |s[1..]| && s[1..][m] == t[j];
            assert s[m + 1] == t[j];
          }
        }
      }
    }
  }

  /** Unlinking one occurrence of `v` changes neither the filtered sequence nor
      the other multiplicities, and lowers the multiplicity of `v` by one. */
  lemma WithoutRemoveAt(s: seq<Elem>, v: Elem, i: nat)
    requires i < |s| && s[i] == v
    ensures Without(RemoveAt(s, i), v) == Without(s, v)
    ensures multiset(RemoveAt(s, i))[v] + 1 == multiset(s)[v]
  {
    var pre, post := s[..i], s[i + 1..];
    assert s == pre + [v] + post;
    assert RemoveAt(s, i) == pre + post;
    WithoutDropsOne(pre, post, v);
    RemoveAtSorted(s, i);
  }

  /** Filtering out `v` forgets one occurrence of `v` between two parts. */
  lemma WithoutDropsOne(pre: seq<Elem>, post: seq<Elem>, v: Elem)
    ensures Without(pre + [v] + post, v) == Without(pre + post, v)
  {
    WithoutConcat(pre + [v], post, v);
    WithoutConcat(pre, [v], v);
    WithoutConcat(pre, post, v);
    assert Without([v], v) == [] by {
      assert [v][1..] == [];
    }
  }

  /**
   * The `removeAll` loop on sorted input, with everything before the cursor
   * smaller than `v`, yields the filtered sequence and the multiplicity of `v`.
   */
  lemma {:induction false} RemoveAllFromExact(s: seq<Elem>, v: Elem, i: nat)
    requires Sorted(s) && i <= |s|
    requires forall j :: 0 <= j < i ==> s[j] < v
    ensures RemoveAllFrom(s, v, i) == (Without(s, v), multiset(s)[v])
    decreases |s| - i
  {
    if i == |s| {
      AbsentPastCursor(s, v, i);
      WithoutAbsent(s, v);
    } else {
      var c := Compare(s[i], v);
      if c == 0 {
        var t := RemoveAt(s, i);
        RemoveAtKeepsPrefix(s, v, i);
        RemoveAllFromExact(t, v, i);
        WithoutRemoveAt(s, v, i);
      } else if c > 0 {
        AbsentPastCursor(s, v, i);
        WithoutAbsent(s, v);
      } else {
        RemoveAllFromExact(s, v, i + 1);
      }
    }
  }

  /**
   * In a sorted sequence whose elements before `i` are smaller than `v`, `v`
   * does not occur if the cursor is past the end or on a greater element.
   */
  lemma AbsentPastCursor(s: seq<Elem>, v: Elem, i: nat)
    requires Sorted(s) && i <= |s|
    requires forall j :: 0 <= j < i ==> s[j] < v
    requires i < |s| ==> s[i] > v
    ensures v !in s
  {
    forall j | 0 <= j < |s| ensures s[j] != v {
      if j >= i {
        assert s[i] <= s[j];
      }
    }
  }

  /** Unlinking the element at the cursor keeps the sequence sorted and the part before the cursor. */
  lemma RemoveAtKeepsPrefix(s: seq<Elem>, v: Elem, i: nat)
    requires Sorted(s) && i < |s|
    requires forall j :: 0 <= j < i ==> s[j] < v
    ensures Sorted(RemoveAt(s, i)) && |RemoveAt(s, i)| == |s| - 1
    ensures forall j :: 0 <= j < i ==> RemoveAt(s, i)[j] < v
  {
    RemoveAtSorted(s, i);
    var t := RemoveAt(s, i);
    forall j | 0 <= j < i ensures t[j] < v {
      assert t[j] == s[j];
    }
  }

  /** In a sorted sequence the head is not greater than any element. */
  lemma HeadIsLeast(s: seq<Elem>, x: Elem)
    requires Sorted(s) && x in s
    ensures s[0] <= x
  {
    var i :| 0 <= i < |s| && s[i] == x;
    assert s[0] <= s[i];
  }

  /** Dropping the head removes one copy of it from the multiset. */
  lemma MultisetTail(s: seq<Elem>)
    requires |s| > 0
    ensures multiset(s[1..]) == multiset(s) - multiset{s[0]}
  {
    assert s == [s[0]] + s[1..];
  }

  /** Every suffix of a sorted sequence is sorted. */
  lemma SortedTail(s: seq<Elem>)
    requires Sorted(s) && |s| > 0
    ensures Sorted(s[1..])
  {
    forall i, j | 0 <= i < j < |s[1..]| ensures s[1..][i] <= s[1..][j] {
      assert s[1..][i] == s[i + 1] && s[1..][j] == s[j + 1];
    }
  }

  /** Two sorted sequences with the same non-empty multiset start with the same element. */
  lemma SortedSameHead(a: seq<Elem>, b: seq<Elem>)
    requires Sorted(a) && Sorted(b) && |a| > 0
    requires multiset(a) == multiset(b)
    ensures |b| > 0 && a[0] == b[0]
  {
    assert a[0] in multiset(a);
    assert a[0] in b;
    assert b[0] in multiset(b);
    assert b[0] in a;
    HeadIsLeast(b, a[0]);
    HeadIsLeast(a, b[0]);
  }

  /** Two sorted sequences with the same elements (with multiplicity) are equal. */
  lemma {:induction false} SortedUnique(a: seq<Elem>, b: seq<Elem>)
    requires Sorted(a) && Sorted(b)
    requires multiset(a) == multiset(b)
    ensures a == b
    decreases |a|
  {
    if |a| == 0 {
      assert |multiset(b)| == 0;
    } else {
      SortedSameHead(a, b);
      MultisetTail(a);
      MultisetTail(b);
      SortedTail(a);
      SortedTail(b);
      SortedUnique(a[1..], b[1..]);
      assert a == [a[0]] + a[1..];
      assert b == [b[0]] + b[1..];
    }
  }
}
