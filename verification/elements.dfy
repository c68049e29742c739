/** The element type of the list and its natural order. */
module Elements {

  /**
   * Element values. The list accepts Integer or String elements, both totally
   * ordered by `compareTo`, with `compareTo == 0` exactly when the values are
   * equal; integers stand for either kind here.
   */
  type Elem = int

  /** The sign `a.compareTo(b)` reports. */
  function Compare(a: Elem, b: Elem): int
  {
    if a < b then -1 else if a == b then 0 else 1
  }
}
