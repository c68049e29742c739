/**
 * `equals` and `hashCode` of the list, and the fact that the contents depend
 * only on which values were added, not on the order of the calls.
 */
module Equality {
  import opened Outcomes
  import opened Elements
  import opened SortedSeq
  import opened SortedLinkedList

  /** The argument of `equals`: another sorted list, or an object of some other class. */
  datatype Other = ListObject(list: State) | ForeignObject

  /** The element-by-element loop of `equals`, over lists of equal size. */
  function PairwiseEqual(a: seq<Elem>, b: seq<Elem>, i: nat): (r: bool)
    requires |a| == |b| && i <= |a|
    ensures r <==> a[i..] == b[i..]
    decreases |a| - i
  {
    if i == |a| then true
    else if a[i] != b[i] then false
    else PairwiseEqual(a, b, i + 1)
  }

  /**
   * `equals(obj)`: false for anything but a sorted list, false on a size
   * mismatch, and otherwise the pairwise comparison in traversal order. The
   * modification counters play no part.
   */
  function Equals(l: State, obj: Other): (r: bool)
    ensures r <==> obj.ListObject? && obj.list.elems == l.elems
  {
    match obj
    case ForeignObject => false
    case ListObject(other) =>
      if |l.elems| != |other.elems| then false
      else
        assert l.elems[0..] == l.elems && other.elems[0..] == other.elems;
        PairwiseEqual(l.elems, other.elems, 0)
  }

  // ---------------------------------------------------------------------
  // hashCode
  // ---------------------------------------------------------------------

  const TwoTo32: int := 0x1_0000_0000
  const TwoTo31: int := 0x8000_0000

  /** The Java `int` an integer computation wraps to. */
  function ToInt32(x: int): (r: int)
    ensures -TwoTo31 <= r < TwoTo31
  {
    (x + TwoTo31) % TwoTo32 - TwoTo31
  }

  /** Adding a multiple of 2^32 does not change the wrapped value. */
  lemma {:induction false} ToInt32Periodic(x: int, q: int)
    ensures ToInt32(x + q * TwoTo32) == ToInt32(x)
    decreases if q < 0 then -q else q
  {
    if q > 0 {
      ToInt32Periodic(x, q - 1);
      assert x + q * TwoTo32 == (x + (q - 1) * TwoTo32) + TwoTo32;
    } else if q < 0 {
      ToInt32Periodic(x, q + 1);
      assert x + q * TwoTo32 == (x + (q + 1) * TwoTo32) - TwoTo32;
    }
  }

  /** Wrapping an intermediate result of `31 * r + h` does not change the final wrap. */
  lemma WrapStep(x: int, h: int)
    ensures ToInt32(31 * ToInt32(x) + h) == ToInt32(31 * x + h)
  {
    var q := (x + TwoTo31) / TwoTo32;
    assert ToInt32(x) == x - q * TwoTo32;
    assert 31 * ToInt32(x) + h == (31 * x + h) + (-31 * q) * TwoTo32;
    ToInt32Periodic(31 * x + h, -31 * q);
  }

  /** The `hashCode` loop: `result = 31 * result + hash(e)` in `int` arithmetic. */
  function HashFold(s: seq<Elem>, hash: Elem -> int, acc: int, i: nat): int
    requires i <= |s|
    decreases |s| - i
  {
    if i == |s| then acc else HashFold(s, hash, ToInt32(31 * acc + hash(s[i])), i + 1)
  }

  /** `hashCode()`: the fold seeded at 1; `hash` is the elements' own hash code. */
  function HashCode(l: State, hash: Elem -> int): int
  {
    HashFold(l.elems, hash, 1, 0)
  }

  /**
   * The documented list hash without overflow:
   * 31^n + sum of hash(s[i]) * 31^(n-1-i), built from the last element.
   */
  function PolyHash(s: seq<Elem>, hash: Elem -> int): int
  {
    if |s| == 0 then 1 else 31 * PolyHash(s[..|s| - 1], hash) + hash(s[|s| - 1])
  }

  /** The loop from `i` with accumulator `acc` wraps the polynomial continued from `acc`. */
  lemma {:induction false} HashFoldIsPolyHash(s: seq<Elem>, hash: Elem -> int, acc: int, i: nat, exact: int)
    requires i <= |s|
    requires acc == ToInt32(exact) && exact == PolyHash(s[..i], hash)
    ensures HashFold(s, hash, acc, i) == ToInt32(PolyHash(s, hash))
    decreases |s| - i
  {
    if i == |s| {
      assert s[..i] == s;
    } else {
      assert s[..i + 1][..i] == s[..i];
      WrapStep(exact, hash(s[i]));
      HashFoldIsPolyHash(s, hash, ToInt32(31 * acc + hash(s[i])), i + 1, 31 * exact + hash(s[i]));
    }
  }

  /**
   * `hashCode` is the documented polynomial hash of the contents wrapped to
   * a Java `int`, so it lies in the `int` range and depends on the contents only.
   */
  lemma HashCodeIsWrappedPolynomial(l: State, hash: Elem -> int)
    ensures HashCode(l, hash) == ToInt32(PolyHash(l.elems, hash))
    ensures -TwoTo31 <= HashCode(l, hash) < TwoTo31
  {
    assert l.elems[..0] == [];
    HashFoldIsPolyHash(l.elems, hash, 1, 0, 1);
  }

  /** Equal lists have equal hash codes. */
  lemma EqualsImpliesEqualHash(a: State, b: State, hash: Elem -> int)
    requires Equals(a, ListObject(b))
    ensures HashCode(a, hash) == HashCode(b, hash)
  {
  }

  // ---------------------------------------------------------------------
  // Insertion-order independence
  // ---------------------------------------------------------------------

  /** A fresh list after `add` of each value of `vs`, in order. */
  function Build(vs: seq<Elem>): (l: State)
    ensures Valid(l)
    ensures multiset(l.elems) == multiset(vs)
    ensures l.modCount == |vs|
  {
    if |vs| == 0 then New()
    else
      assert vs == vs[..|vs| - 1] + [vs[|vs| - 1]];
      Add(Build(vs[..|vs| - 1]), Some(vs[|vs| - 1])).value
  }

  /**
   * Adding the same values in any order yields equal lists with equal hash
   * codes: sorted contents are determined by their multiset.
   */
  lemma InsertionOrderIrrelevant(vs: seq<Elem>, ws: seq<Elem>, hash: Elem -> int)
    requires multiset(vs) == multiset(ws)
    ensures Build(vs).elems == Build(ws).elems
    ensures Equals(Build(vs), ListObject(Build(ws)))
    ensures HashCode(Build(vs), hash) == HashCode(Build(ws), hash)
  {
    SortedUnique(Build(vs).elems, Build(ws).elems);
  }

  /** Adding 5, 1, 9, 3, 7 yields 1, 3, 5, 7, 9. */
  lemma AddSortsExample()
    ensures Build([5, 1, 9, 3, 7]).elems == [1, 3, 5, 7, 9]
  {
    var t: seq<Elem> := [1, 3, 5, 7, 9];
    var l := Build([5, 1, 9, 3, 7]);
    ExampleSorted(t);
    ExamplePermutation(l.elems, t);
    SortedUnique(l.elems, t);
  }

  /** The expected contents are in order. */
  lemma ExampleSorted(t: seq<Elem>)
    requires t == [1, 3, 5, 7, 9]
    ensures Sorted(t)
  {
  }

  /** The expected contents hold the added values. */
  lemma ExamplePermutation(a: seq<Elem>, t: seq<Elem>)
    requires multiset(a) == multiset([5, 1, 9, 3, 7]) && t == [1, 3, 5, 7, 9]
    ensures multiset(a) == multiset(t)
  {
    calc {
      multiset([5, 1, 9, 3, 7]);
      multiset{5, 1, 9, 3, 7};
      multiset{1, 3, 5, 7, 9};
      multiset(t);
    }
  }
}
