/**
  `dequeueBubble` of src/MaxPQ.java exactly as its branches are written,
  on the backing array as the source sees it: a slot holds a node or is
  null.  The queue itself (module PQ) uses the sift-down the method's
  comment describes; the lemmas here exhibit inputs on which the written
  branches do something else.
*/
module AsWritten {
  import opened Wrappers
  import opened Order
  import PQ

  /** The backing array: `None` is a null slot. */
  type Slots = seq<Option<Node>>

  /**
    `dequeueBubble(center)` as written.  `None` when it throws: the slots
    `center`, `left` and `right` are all read once `left <= index`, so a
    null one (its field read throws) or a `right` past the array
    (ArrayIndexOutOfBoundsException) ends the call.
  */
  function Bubble(q: Slots, index: int, center: int): (r: Option<Slots>)
    requires 1 <= center && index < |q|
    ensures r.Some? ==> |r.value| == |q| && multiset(r.value) == multiset(q)
    decreases |q| - center
  {
    var left, right := 2 * center, 2 * center + 1;
    if left > index then Some(q)
    else if right >= |q| || q[center].None? || q[left].None? || q[right].None? then None
    else
      var c, l, r := q[center].value, q[left].value, q[right].value;
      if !(l.priority > c.priority || r.priority > c.priority || !PQ.Compares(r, c) || !PQ.Compares(l, c)) then
        Some(q)
      else if l.priority >= r.priority then
        SwapSlots(q, center, left);
        Bubble(q[center := Some(l)][left := Some(c)], index, left)
      else if right >= index then
        SwapSlots(q, center, right);
        if r.priority > l.priority then Bubble(q[center := Some(r)][right := Some(c)], index, right)
        else Some(q)
      else Some(q)
  }

  /** Exchanging two slots keeps the slots' multiset. */
  lemma SwapSlots(q: Slots, i: int, j: int)
    requires 0 <= i < j < |q|
    ensures multiset(q[i := q[j]][j := q[i]]) == multiset(q)
  {
    var r := q[i := q[j]];
    assert r[j] == q[j];
    assert multiset(r) == multiset(q) - multiset{q[i]} + multiset{q[j]};
  }

  /** What `dequeue` leaves behind: the name it returns, the slots and the size. */
  datatype Removed = Removed(name: string, slots: Slots, index: int)

  /** `dequeue` as written: the last node moves to the root and is bubbled down. */
  function Dequeue(q: Slots, index: int): (r: Option<Removed>)
    requires 1 <= index < |q|
    ensures r.Some? ==> q[1].Some? && r.value.name == q[1].value.name && r.value.index == index - 1
    ensures r.Some? ==> |r.value.slots| == |q| && multiset(r.value.slots) == multiset(q[1 := q[index]])
  {
    if q[1].None? then None
    else
      match Bubble(q[1 := q[index]], index - 1, 1)
      case None => None
      case Some(s) => Some(Removed(q[1].value.name, s, index - 1))
  }

  /** `n` null slots. */
  function Nulls(n: nat): Slots
    ensures |Nulls(n)| == n && forall i :: 0 <= i < n ==> Nulls(n)[i].None?
  {
    if n == 0 then [] else [None] + Nulls(n - 1)
  }

  /** A fresh queue's array of ten slots after enqueueing `nodes` in heap order. */
  function Filled(nodes: seq<Node>): Slots
    requires |nodes| < 10
    ensures |Filled(nodes)| == 10
  {
    [None] + seq(|nodes|, i requires 0 <= i < |nodes| => Some(nodes[i])) + Nulls(9 - |nodes|)
  }

  /**
    The inverted `right >= index` test: after removing a9 from the heap
    a9, b3, c5, d1, e2, the right child c5 outranks the left child b3 but
    is not at the last slot, so nothing is swapped and e2 stays at the
    root above c5.
  */
  lemma RightChildSkipped()
    ensures var q := Filled([Node("a", 9), Node("b", 3), Node("c", 5), Node("d", 1), Node("e", 2)]);
      && Dequeue(q, 5) == Some(Removed("a", q[1 := q[5]], 4))
      && Outranks(Node("c", 5), Node("e", 2))
  {
    var q := Filled([Node("a", 9), Node("b", 3), Node("c", 5), Node("d", 1), Node("e", 2)]);
    assert q[1] == Some(Node("a", 9)) && q[2] == Some(Node("b", 3)) && q[3] == Some(Node("c", 5));
    assert q[5] == Some(Node("e", 2));
  }

  /**
    The priority-only comparison of the children: after removing a9 from
    the heap a9, c5, b5, z1, the moved z1 has the live children c5 and b5
    and is swapped with the left one, so c5 becomes the root although b5,
    still in slot 3, outranks it.
  */
  lemma TieIgnoresNames()
    ensures var q := Filled([Node("a", 9), Node("c", 5), Node("b", 5), Node("z", 1)]);
      && Dequeue(q, 4) == Some(Removed("a", q[1 := Some(Node("c", 5))][2 := Some(Node("z", 1))], 3))
      && q[3] == Some(Node("b", 5))
      && Outranks(Node("b", 5), Node("c", 5))
  {
    var q := Filled([Node("a", 9), Node("c", 5), Node("b", 5), Node("z", 1)]);
    assert q[1] == Some(Node("a", 9)) && q[2] == Some(Node("c", 5));
    assert q[3] == Some(Node("b", 5)) && q[4] == Some(Node("z", 1));
    var moved := q[1 := q[4]];
    TieFirstSwap(moved);
    assert moved[1 := Some(Node("c", 5))][2 := Some(Node("z", 1))] == q[1 := Some(Node("c", 5))][2 := Some(Node("z", 1))];
    assert LexLess("b", "c");
  }

  /** The first step of that dequeue: z1 at the root swaps with its left child c5, and stops there. */
  lemma TieFirstSwap(moved: Slots)
    requires |moved| == 10 && moved[1] == Some(Node("z", 1))
    requires moved[2] == Some(Node("c", 5)) && moved[3] == Some(Node("b", 5))
    ensures Bubble(moved, 3, 1) == Some(moved[1 := Some(Node("c", 5))][2 := Some(Node("z", 1))])
  {
    var swapped := moved[1 := Some(Node("c", 5))][2 := Some(Node("z", 1))];
    TieStops(swapped);
  }

  /** Slot 2 has no child within the size 3, so the bubbling stops. */
  lemma TieStops(q: Slots)
    requires |q| == 10
    ensures Bubble(q, 3, 2) == Some(q)
  {
  }

  /**
    The guard made true by `!compares(...)`: `changePriority("a", 5)` on
    the heap a9, b3, c2 lowers the root to a5, which still outranks both
    children, yet `dequeueBubble(1)` swaps it below b3.
  */
  lemma GuardSwapsWinner()
    ensures var q := Filled([Node("a", 5), Node("b", 3), Node("c", 2)]);
      && Bubble(q, 3, 1) == Some(q[1 := Some(Node("b", 3))][2 := Some(Node("a", 5))])
      && Outranks(Node("a", 5), Node("b", 3))
  {
    var q := Filled([Node("a", 5), Node("b", 3), Node("c", 2)]);
    assert q[1] == Some(Node("a", 5)) && q[2] == Some(Node("b", 3)) && q[3] == Some(Node("c", 2));
    assert !LexLess("c", "a") && !LexLess("b", "a");
  }

  /**
    The unchecked read of `queue[right]`: `changePriority("a", 3)` on the
    heap a5, b3 of a fresh queue lowers the root to a3 and calls
    `dequeueBubble(1)`.  The guard's first test (3 > 3) fails, so the
    second one reads the null slot 3 and throws.
  */
  lemma NullRightChild()
    ensures var q := Filled([Node("a", 3), Node("b", 3)]);
      && q[3] == None && !(q[2].value.priority > q[1].value.priority)
      && Bubble(q, 2, 1) == None
  {
    var q := Filled([Node("a", 3), Node("b", 3)]);
    assert q[1] == Some(Node("a", 3)) && q[2] == Some(Node("b", 3)) && q[3] == None;
  }
}
