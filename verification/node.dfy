/** The link cell of the doubly-linked list. */
module Nodes {
  import opened Outcomes
  import opened Elements

  /** The address of a node in the list's node store. */
  type Ref = nat

  /**
   * A node: its value, fixed at construction, and its links to the next and
   * the previous node, `None` where Java holds `null`. The getters are the
   * field selectors `value`, `next` and `prev`.
   */
  datatype Node = Node(value: Elem, next: Option<Ref>, prev: Option<Ref>)

  /** `new Node(value)`: the value is stored and both links start null. */
  function NewNode(v: Elem): (n: Node)
    ensures n.value == v
    ensures n.next.None? && n.prev.None?
  {
    Node(v, None, None)
  }

  /** `setNext(next)`: replaces the forward link and nothing else. */
  function SetNext(n: Node, next: Option<Ref>): (r: Node)
    ensures r.next == next
    ensures r.value == n.value && r.prev == n.prev
  {
    n.(next := next)
  }

  /** `setPrev(prev)`: replaces the backward link and nothing else. */
  function SetPrev(n: Node, prev: Option<Ref>): (r: Node)
    ensures r.prev == prev
    ensures r.value == n.value && r.next == n.next
  {
    n.(prev := prev)
  }

  /** A call of one of the two setters. */
  datatype LinkUpdate = SetNextTo(next: Option<Ref>) | SetPrevTo(prev: Option<Ref>)

  /** A node after a series of setter calls, applied in order. */
  function ApplyUpdates(n: Node, us: seq<LinkUpdate>): Node
    decreases |us|
  {
    if |us| == 0 then n
    else
      var n1 := match us[0]
        case SetNextTo(x) => SetNext(n, x)
        case SetPrevTo(x) => SetPrev(n, x);
      ApplyUpdates(n1, us[1..])
  }

  /** The value of a node is final: no series of link updates changes it. */
  lemma {:induction false} ValueIsFinal(n: Node, us: seq<LinkUpdate>)
    ensures ApplyUpdates(n, us).value == n.value
    decreases |us|
  {
    if |us| > 0 {
      var n1 := match us[0]
        case SetNextTo(x) => SetNext(n, x)
        case SetPrevTo(x) => SetPrev(n, x);
      ValueIsFinal(n1, us[1..]);
    }
  }
}
