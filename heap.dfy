/**
  The heap shape of src/MaxPQ.java on the backing array's contents `q`:
  slot 0 is unused, the entries are in slots 1..n and the parent of slot
  j is slot j / 2.  The predicates here describe a heap and the two ways
  a heap is broken while a node is being moved up or down; the lemmas
  are the steps the queue's methods take.  Every fact about one slot is
  named (ParentAtLeast, GrandparentAtLeast), so a heap fact is only used
  where a proof names the slot it needs.
*/
module Heap {
  import opened Order

  /** Slot j's parent is at least slot j. */
  ghost predicate ParentAtLeast(q: seq<Node>, j: int)
  {
    2 <= j < |q| && AtLeast(q[j / 2], q[j])
  }

  /** Slot c's parent is at least slot j (used for the children j of c). */
  ghost predicate GrandparentAtLeast(q: seq<Node>, c: int, j: int)
  {
    2 <= c < |q| && 0 <= j < |q| && AtLeast(q[c / 2], q[j])
  }

  /** Every parent is at least each of its children. */
  ghost predicate IsHeap(q: seq<Node>, n: int)
  {
    0 <= n < |q| && forall j :: 2 <= j <= n ==> ParentAtLeast(q, j)
  }

  /**
    A heap except that slot c may outrank its parent; c's parent is at
    least c's children.  This is the state while c moves up.
  */
  ghost predicate HeapExceptUp(q: seq<Node>, n: int, c: int)
  {
    && 1 <= c <= n < |q|
    && (forall j :: 2 <= j <= n && j != c ==> ParentAtLeast(q, j))
    && (forall j :: 2 <= j <= n && j / 2 == c && c >= 2 ==> GrandparentAtLeast(q, c, j))
  }

  /**
    A heap except that c's children may outrank c; c's parent is at least
    c's children.  This is the state while c moves down.
  */
  ghost predicate HeapExceptDown(q: seq<Node>, n: int, c: int)
  {
    && 1 <= c && 0 <= n < |q|
    && (forall j :: 2 <= j <= n && j / 2 != c ==> ParentAtLeast(q, j))
    && (forall j :: 2 <= j <= n && j / 2 == c && c >= 2 ==> GrandparentAtLeast(q, c, j))
  }

  /** The entries of slots 1..n as a multiset. */
  ghost function Bag(q: seq<Node>, n: int): multiset<Node>
    requires 0 <= n < |q|
  {
    multiset(q[1..n + 1])
  }

  /** One parent-child pair of a heap. */
  lemma HeapEdge(q: seq<Node>, n: int, j: int)
    requires IsHeap(q, n) && 2 <= j <= n
    ensures AtLeast(q[j / 2], q[j])
  {
    assert ParentAtLeast(q, j);
  }

  /** The root of a heap is at least every entry below it. */
  lemma {:induction false} RootAtLeast(q: seq<Node>, n: int, j: int)
    requires IsHeap(q, n) && 1 <= j <= n
    ensures AtLeast(q[1], q[j])
    decreases j
  {
    if j > 1 {
      RootAtLeast(q, n, j / 2);
      HeapEdge(q, n, j);
      AtLeastTransitive(q[1], q[j / 2], q[j]);
    }
  }

  /** The root of a non-empty heap is a maximum of its entries. */
  lemma RootIsMax(q: seq<Node>, n: int)
    requires IsHeap(q, n) && n >= 1
    ensures IsMax(q[1], Bag(q, n))
  {
    var s := q[1..n + 1];
    assert q[1] == s[0];
    forall x | x in multiset(s)
      ensures AtLeast(q[1], x)
    {
      var k :| 0 <= k < |s| && s[k] == x;
      RootAtLeast(q, n, k + 1);
    }
  }

  /** Moving the last entry to the root leaves a heap broken only below the root. */
  lemma RemoveRoot(q: seq<Node>, n: int)
    requires IsHeap(q, n) && n >= 1
    ensures HeapExceptDown(q[1 := q[n]], n - 1, 1)
    ensures Bag(q[1 := q[n]], n - 1) == Bag(q, n) - multiset{q[1]}
  {
    var r := q[1 := q[n]];
    forall j | 2 <= j <= n - 1 && j / 2 != 1
      ensures ParentAtLeast(r, j)
    {
      assert ParentAtLeast(q, j);
    }
    RemoveRootPerm(q, n);
  }

  /** Moving the last entry to the root drops the old root from the multiset. */
  lemma RemoveRootPerm(q: seq<Node>, n: int)
    requires 1 <= n < |q|
    ensures Bag(q[1 := q[n]], n - 1) == Bag(q, n) - multiset{q[1]}
  {
    var r := q[1 := q[n]];
    if n == 1 {
      assert r[1..n] == [];
      assert q[1..n + 1] == [q[1]];
    } else {
      assert r[1..n] == [q[n]] + q[2..n];
      assert q[1..n + 1] == [q[1]] + q[2..n] + [q[n]];
    }
  }

  /** Changing one entry changes the multiset of a slice by exactly that entry. */
  lemma UpdatePerm(q: seq<Node>, n: int, i: int, x: Node)
    requires 1 <= i <= n < |q|
    ensures Bag(q[i := x], n) == Bag(q, n) - multiset{q[i]} + multiset{x}
  {
    var s := q[1..n + 1];
    assert q[i := x][1..n + 1] == s[i - 1 := x];
    SeqUpdatePerm(s, i - 1, x);
  }

  lemma SeqUpdatePerm<T>(s: seq<T>, k: int, x: T)
    requires 0 <= k < |s|
    ensures multiset(s[k := x]) == multiset(s) - multiset{s[k]} + multiset{x}
  {
    assert s == s[..k] + [s[k]] + s[k + 1..];
    assert s[k := x] == s[..k] + [x] + s[k + 1..];
  }

  /** The entries of slots 1..n are those of slots 1..n-1 and slot n. */
  lemma BagExtend(q: seq<Node>, n: int)
    requires 1 <= n < |q|
    ensures Bag(q, n) == Bag(q, n - 1) + multiset{q[n]}
  {
    assert q[1..n + 1] == q[1..n] + [q[n]];
  }

  /** Swapping two entries of a slice keeps its multiset. */
  lemma SwapPerm(q: seq<Node>, n: int, i: int, j: int)
    requires 1 <= i <= n && 1 <= j <= n && n < |q|
    ensures Bag(q[i := q[j]][j := q[i]], n) == Bag(q, n)
  {
    var r := q[i := q[j]];
    UpdatePerm(q, n, i, q[j]);
    UpdatePerm(r, n, j, q[i]);
    assert r[j] == q[j];
    assert q[1..n + 1][i - 1] == q[i];
    SwapBack(Bag(q, n), q[i], q[j]);
  }

  /** Taking `a` out for `b` and back again restores a multiset holding `a`. */
  lemma SwapBack<T>(m: multiset<T>, a: T, b: T)
    requires a in m
    ensures m - multiset{a} + multiset{b} - multiset{b} + multiset{a} == m
  {
  }

  /** A new entry in the slot after a heap: broken only at that slot. */
  lemma Append(q: seq<Node>, n: int)
    requires 1 <= n < |q| && IsHeap(q, n - 1)
    ensures HeapExceptUp(q, n, n)
  {
    forall j | 2 <= j <= n && j != n
      ensures ParentAtLeast(q, j)
    {
      assert ParentAtLeast(q, j);
    }
  }

  /** Only slots 0..n matter to a heap of size n. */
  lemma SameSlots(q: seq<Node>, r: seq<Node>, n: int)
    requires IsHeap(q, n) && n < |r| && q[..n + 1] == r[..n + 1]
    ensures IsHeap(r, n) && Bag(r, n) == Bag(q, n)
  {
    assert q[1..n + 1] == q[..n + 1][1..] && r[1..n + 1] == r[..n + 1][1..];
    forall j | 2 <= j <= n
      ensures ParentAtLeast(r, j)
    {
      assert ParentAtLeast(q, j);
      assert q[j] == q[..n + 1][j] && q[j / 2] == q[..n + 1][j / 2];
    }
  }

  /** One swap of a node with the parent it outranks, in the sift-up. */
  lemma SiftUpStep(q: seq<Node>, n: int, c: int)
    requires HeapExceptUp(q, n, c) && c >= 2 && Outranks(q[c], q[c / 2])
    ensures HeapExceptUp(q[c / 2 := q[c]][c := q[c / 2]], n, c / 2)
  {
    var i, node, p := c / 2, q[c], q[c / 2];
    var r := q[i := node][c := p];
    forall j | 2 <= j <= n && j != i
      ensures ParentAtLeast(r, j)
    {
      if j == c {
      } else if j / 2 == c {
        assert GrandparentAtLeast(q, c, j);
      } else if j / 2 == i {
        assert ParentAtLeast(q, j);
        AtLeastTransitive(node, p, q[j]);
      } else {
        assert ParentAtLeast(q, j);
      }
    }
    forall j | 2 <= j <= n && j / 2 == i && i >= 2
      ensures GrandparentAtLeast(r, i, j)
    {
      assert ParentAtLeast(q, i);
      if j != c {
        assert ParentAtLeast(q, j);
        AtLeastTransitive(q[i / 2], p, q[j]);
      }
    }
  }

  /** The sift-up ends in a heap once the node no longer outranks its parent. */
  lemma SiftUpStop(q: seq<Node>, n: int, c: int)
    requires HeapExceptUp(q, n, c) && (c == 1 || AtLeast(q[c / 2], q[c]))
    ensures IsHeap(q, n)
  {
    assert c >= 2 ==> ParentAtLeast(q, c);
  }

  /** One swap of a node with its greater child, in the sift-down. */
  lemma SiftDownStep(q: seq<Node>, n: int, c: int, b: int)
    requires HeapExceptDown(q, n, c) && b / 2 == c && b <= n
    requires Outranks(q[b], q[c])
    requires 2 * c <= n ==> AtLeast(q[b], q[2 * c])
    requires 2 * c + 1 <= n ==> AtLeast(q[b], q[2 * c + 1])
    ensures HeapExceptDown(q[c := q[b]][b := q[c]], n, b)
  {
    var r := q[c := q[b]][b := q[c]];
    forall j | 2 <= j <= n && j / 2 != b
      ensures ParentAtLeast(r, j)
    {
      if j == b {
      } else if j / 2 == c {
        assert j == 2 * c || j == 2 * c + 1;
      } else if j == c {
        assert GrandparentAtLeast(q, c, b);
      } else {
        assert ParentAtLeast(q, j);
      }
    }
    forall j | 2 <= j <= n && j / 2 == b && b >= 2
      ensures GrandparentAtLeast(r, b, j)
    {
      assert ParentAtLeast(q, j);
    }
  }

  /** The sift-down ends in a heap when no child outranks the node. */
  lemma SiftDownStop(q: seq<Node>, n: int, c: int)
    requires HeapExceptDown(q, n, c)
    requires 2 * c <= n ==> AtLeast(q[c], q[2 * c])
    requires 2 * c + 1 <= n ==> AtLeast(q[c], q[2 * c + 1])
    ensures IsHeap(q, n)
  {
    forall j | 2 <= j <= n
      ensures ParentAtLeast(q, j)
    {
      if j / 2 == c {
        assert j == 2 * c || j == 2 * c + 1;
      }
    }
  }

  /** Lowering one entry of a heap breaks it only below that entry. */
  lemma LowerKey(q: seq<Node>, n: int, i: int, x: Node)
    requires IsHeap(q, n) && 1 <= i <= n && AtLeast(q[i], x)
    ensures HeapExceptDown(q[i := x], n, i)
  {
    var r := q[i := x];
    forall j | 2 <= j <= n && j / 2 != i
      ensures ParentAtLeast(r, j)
    {
      assert ParentAtLeast(q, j);
      if j == i {
        AtLeastTransitive(q[i / 2], q[i], x);
      }
    }
    forall j | 2 <= j <= n && j / 2 == i && i >= 2
      ensures GrandparentAtLeast(r, i, j)
    {
      assert ParentAtLeast(q, i) && ParentAtLeast(q, j);
      AtLeastTransitive(q[i / 2], q[i], q[j]);
    }
  }

  /** Raising one entry of a heap breaks it only above that entry. */
  lemma RaiseKey(q: seq<Node>, n: int, i: int, x: Node)
    requires IsHeap(q, n) && 1 <= i <= n && AtLeast(x, q[i])
    ensures HeapExceptUp(q[i := x], n, i)
  {
    var r := q[i := x];
    forall j | 2 <= j <= n && j != i
      ensures ParentAtLeast(r, j)
    {
      assert ParentAtLeast(q, j);
      if j / 2 == i {
        AtLeastTransitive(x, q[i], q[j]);
      }
    }
    forall j | 2 <= j <= n && j / 2 == i && i >= 2
      ensures GrandparentAtLeast(r, i, j)
    {
      assert ParentAtLeast(q, i) && ParentAtLeast(q, j);
      AtLeastTransitive(q[i / 2], q[i], q[j]);
    }
  }
}
