/**
  The growable, 1-indexed binary max-heap of src/MaxPQ.java.  The entries
  live in slots 1..index of `queue`; slot 0 and the slots after `index`
  hold nothing of interest.  A node nearer the root outranks (or equals)
  the nodes below it: higher priority first, then the name that sorts
  first.
*/
module PQ {
  import opened Order
  import opened Heap

  const DefaultCapacity := 10

  /** The source's `compares(o, n)`: equal priorities and o's name sorts after n's. */
  function Compares(o: Node, n: Node): (r: bool)
    ensures r <==> o.priority == n.priority && LexLess(n.name, o.name)
  {
    CompareToSign(o.name, n.name);
    o.priority == n.priority && CompareTo(o.name, n.name) > 0
  }

  /** The text `toString` writes for one node: `name (priority)`. */
  function Entry(n: Node): string
  {
    n.name + " (" + IntToString(n.priority) + ")"
  }

  /** The entries separated by ", ": the body of the `toString` result. */
  function Join(s: seq<Node>): string
  {
    if |s| == 0 then ""
    else if |s| == 1 then Entry(s[0])
    else Join(s[..|s| - 1]) + ", " + Entry(s[|s| - 1])
  }

  /** One round of the `toString` loop appends `name (priority), `. */
  function Piece(n: Node): string
  {
    n.name + " (" + IntToString(n.priority) + "), "
  }

  /** What the `toString` loop holds after the given entries: `{` and a piece per entry. */
  function Accum(s: seq<Node>): string
  {
    if |s| == 0 then "{" else Accum(s[..|s| - 1]) + Piece(s[|s| - 1])
  }

  /** The accumulated text is `{`, the joined entries and a trailing ", ". */
  lemma {:induction false} AccumJoin(s: seq<Node>)
    requires |s| > 0
    ensures Accum(s) == "{" + Join(s) + ", "
    decreases |s|
  {
    var init, last := s[..|s| - 1], s[|s| - 1];
    assert Piece(last) == Entry(last) + ", ";
    if |s| > 1 {
      AccumJoin(init);
      JoinAssoc(Join(init), Entry(last));
    }
  }

  lemma JoinAssoc(j: string, e: string)
    ensures "{" + j + ", " + (e + ", ") == "{" + (j + ", " + e) + ", "
  {
  }

  /** One more round of the `toString` loop appends the next entry's piece. */
  lemma AccumStep(e: seq<Node>, i: int)
    requires 1 <= i < |e|
    ensures Accum(e[1..i]) + Piece(e[i]) == Accum(e[1..i + 1])
  {
    assert e[1..i + 1][..i - 1] == e[1..i];
  }

  /**
    After the loop, trimming leaves `{` alone when there are no entries,
    and otherwise the joined entries with just the final "," left over.
  */
  lemma TrimmedText(e: seq<Node>)
    ensures var t := Trim(Accum(e));
      && |t| > 0 && (t[|t| - 1] == ',' <==> |e| > 0)
      && (|e| == 0 ==> t == "{" + Join(e))
      && (|e| > 0 ==> t[..|t| - 1] == "{" + Join(e))
  {
    if |e| > 0 {
      TrimmedEntries(e);
    } else {
      TrimmedEmpty(e);
    }
  }

  lemma TrimmedEntries(e: seq<Node>)
    requires |e| > 0
    ensures var t := Trim(Accum(e)); |t| > 0 && t[|t| - 1] == ',' && t[..|t| - 1] == "{" + Join(e)
  {
    AccumJoin(e);
    var j := Join(e);
    TrimAccum(j);
    EndsWithComma(j);
  }

  lemma TrimmedEmpty(e: seq<Node>)
    requires |e| == 0
    ensures Trim(Accum(e)) == "{" == "{" + Join(e)
  {
    var s := Accum(e);
    assert s == "{" && s[0] == '{';
    assert Join(e) == "";
    assert "{" + "" == "{";
  }

  lemma EndsWithComma(body: string)
    ensures var t := "{" + body + ","; t[|t| - 1] == ',' && t[..|t| - 1] == "{" + body
  {
  }

  /** Trimming the accumulated text removes just the final space. */
  lemma TrimAccum(body: string)
    ensures Trim("{" + body + ", ") == "{" + body + ","
  {
    var s := "{" + body + ", ";
    assert s[0] == '{';
    assert TrimStart(s) == s;
    var t := s[..|s| - 1];
    assert t == "{" + body + ",";
    assert s[|s| - 1] == ' ' && t[|t| - 1] == ',';
    assert TrimEnd(t) == t;
    assert TrimEnd(s) == TrimEnd(t);
  }

  /** Java's String.trim: drop leading and trailing characters up to ' '. */
  function Trim(s: string): (r: string)
    ensures |r| <= |s|
    ensures |r| > 0 ==> r[0] > ' ' && r[|r| - 1] > ' '
    ensures |s| > 0 && s[0] > ' ' && s[|s| - 1] > ' ' ==> r == s
  {
    TrimEnd(TrimStart(s))
  }

  /**
    What `trim` keeps is one slice of the text, starting at the returned
    index; every character cut off before or after it is at most ' '.
  */
  lemma TrimIsSlice(s: string) returns (i: int)
    ensures 0 <= i <= |s| - |Trim(s)| && Trim(s) == s[i..i + |Trim(s)|]
    ensures forall k :: 0 <= k < i ==> s[k] <= ' '
    ensures forall k :: i + |Trim(s)| <= k < |s| ==> s[k] <= ' '
  {
    var t := TrimStart(s);
    i := |s| - |t|;
    var r := TrimEnd(t);
    assert t == s[i..];
    forall k | i + |r| <= k < |s|
      ensures s[k] <= ' '
    {
      assert s[k] == t[k - i];
    }
  }

  /** Drops the leading characters up to ' '. */
  function TrimStart(s: string): (r: string)
    ensures |r| <= |s| && r == s[|s| - |r|..]
    ensures |r| > 0 ==> r[0] > ' '
    ensures forall k :: 0 <= k < |s| - |r| ==> s[k] <= ' '
  {
    if |s| > 0 && s[0] <= ' ' then TrimStart(s[1..]) else s
  }

  /** Drops the trailing characters up to ' '. */
  function TrimEnd(s: string): (r: string)
    ensures |r| <= |s| && r == s[..|r|]
    ensures |r| > 0 ==> r[|r| - 1] > ' '
    ensures forall k :: |r| <= k < |s| ==> s[k] <= ' '
  {
    if |s| > 0 && s[|s| - 1] <= ' ' then TrimEnd(s[..|s| - 1]) else s
  }

  /** Decimal text of an integer, as string concatenation writes an int. */
  function IntToString(i: int): string
  {
    if i < 0 then "-" + NatToString(-i) else NatToString(i)
  }

  function NatToString(n: nat): string
  {
    if n < 10 then ["0123456789"[n]] else NatToString(n / 10) + ["0123456789"[n % 10]]
  }

  class MaxPQ {
    var queue: array<Node>
    var capacity: int
    var index: int  // the number of entries

    /** The class invariant: the array has `capacity` slots and slots 1..index are a heap. */
    ghost predicate Valid()
      reads this, queue
    {
      queue.Length == capacity && IsHeap(queue[..], index)
    }

    /** The entries in slot order. */
    ghost function Elements(): seq<Node>
      reads this, queue
      requires 0 <= index < queue.Length
    {
      queue[..][1..index + 1]
    }

    ghost function Contents(): multiset<Node>
      reads this, queue
      requires 0 <= index < queue.Length
    {
      Bag(queue[..], index)
    }

    /** The root slot, which `peek` and `dequeue` read. */
    ghost function Top(): Node
      reads this, queue
      requires 1 <= index < queue.Length
    {
      queue[1]
    }

    constructor ()
      ensures Valid() && fresh(queue)
      ensures capacity == DefaultCapacity && index == 0 && Elements() == []
    {
      queue := new Node[DefaultCapacity];
      capacity := DefaultCapacity;
      index := 0;
    }

    /** `enqueue(String, int)`: wraps the pair in a node and adds it. */
    method Enqueue(name: string, priority: int)
      requires Valid()
      modifies this, queue
      ensures Valid() && (queue == old(queue) || fresh(queue))
      ensures index == old(index) + 1
      ensures capacity == if old(index) + 1 == old(capacity) then 2 * old(capacity) else old(capacity)
      ensures Contents() == old(Contents()) + multiset{Node(name, priority)}
    {
      var node := Node(name, priority);
      EnqueueNode(node);
    }

    /**
      `enqueue(Node)`: the size grows by one, the array doubles when the
      new size reaches the capacity, and the node is sifted up from the
      last slot.
    */
    method EnqueueNode(node: Node)
      requires Valid()
      modifies this, queue
      ensures Valid() && (queue == old(queue) || fresh(queue))
      ensures index == old(index) + 1
      ensures capacity == if old(index) + 1 == old(capacity) then 2 * old(capacity) else old(capacity)
      ensures Contents() == old(Contents()) + multiset{node}
    {
      ghost var before, bag := queue[..], Contents();
      ghost var size, cap := index + 1, if index + 1 == capacity then 2 * capacity else capacity;
      assert queue.Length == capacity;
      index := index + 1;
      if index == capacity {
        GrowQueue();
      }
      assert index == size && capacity == cap && queue.Length == capacity;
      assert queue[..index] == before[..index];
      queue[index] := node;
      assert queue[..index] == before[..index];
      SameSlots(before, queue[..], index - 1);
      Append(queue[..], index);
      BagExtend(queue[..], index);
      assert Bag(queue[..], index) == bag + multiset{node};
      EnqueueBubble(index, node);
      assert index == size && capacity == cap;
    }

    /**
      `enqueueBubble(c, node)`: the source's loop halves `i` every round
      and swaps only while `node` outranks the slot `i`.  After the first
      round in which it does not, every further ancestor is at least
      `node` as well, so the loop only climbs to the root without
      swapping; the ghost `stopped` and `last` record that phase.
    */
    method EnqueueBubble(c0: int, node: Node)
      requires queue.Length == capacity
      requires HeapExceptUp(queue[..], index, c0) && queue[c0] == node
      modifies queue
      ensures Valid()
      ensures Bag(queue[..], index) == old(Bag(queue[..], index))
    {
      var c := c0;
      var i := c0;
      ghost var stopped := false;
      ghost var last := c0;
      OutranksIrreflexive(node);
      while i > 0
        invariant 0 <= i <= c <= index && 1 <= c
        invariant queue[c] == node
        invariant Bag(queue[..], index) == old(Bag(queue[..], index))
        invariant !stopped ==> HeapExceptUp(queue[..], index, c) && (i == c || i == c / 2)
        invariant stopped ==> IsHeap(queue[..], index) && 1 <= last <= index && last / 2 == i
        invariant stopped ==> AtLeast(queue[last], node)
      {
        if stopped {
          HeapEdge(queue[..], index, last);
          AtLeastTransitive(queue[i], queue[last], node);
          AtLeastNotOutranked(queue[i], node);
        }
        if queue[i].priority < node.priority || Compares(queue[i], node) {
          ghost var q := queue[..];
          SiftUpStep(q, index, c);
          SwapPerm(q, index, i, c);
          var temp := queue[i];
          queue[i] := node;
          queue[c] := temp;
          assert queue[..] == q[i := node][c := temp];
          c := c / 2;
        } else {
          NotOutranks(queue[i], node);
          if !stopped && i != c {
            SiftUpStop(queue[..], index, c);
            stopped := true;
          }
          last := i;
        }
        i := i / 2;
      }
      if !stopped {
        SiftUpStop(queue[..], index, c);
      }
    }

    /**
      `dequeue`: returns the root's name, moves the last entry to the root,
      shrinks the size by one and sifts the moved entry down.
    */
    method Dequeue() returns (name: string)
      requires Valid() && index > 0
      modifies this, queue
      ensures Valid() && queue == old(queue) && capacity == old(capacity)
      ensures index == old(index) - 1
      ensures name == old(Top()).name && IsMax(old(Top()), old(Contents()))
      ensures Contents() == old(Contents()) - multiset{old(Top())}
    {
      RootIsMax(queue[..], index);
      RemoveRoot(queue[..], index);
      name := queue[1].name;
      queue[1] := queue[index];
      index := index - 1;
      DequeueBubble(1);
    }

    /**
      The sift-down that `dequeueBubble(center)` is documented to perform:
      both children are checked against the size, compared by the full
      ranking, and the better one is swapped with `center` only when it
      outranks it.  The source's own branches differ (see the as-written
      model in module AsWritten).
    */
    method DequeueBubble(center: int)
      requires queue.Length == capacity
      requires HeapExceptDown(queue[..], index, center)
      modifies queue
      ensures Valid()
      ensures Bag(queue[..], index) == old(Bag(queue[..], index))
      decreases index - center
    {
      var left := 2 * center;
      var right := 2 * center + 1;
      if left <= index {
        var child := left;
        if right <= index && Outranks(queue[right], queue[left]) {
          child := right;
        } else if right <= index {
          NotOutranks(queue[left], queue[right]);
        }
        if Outranks(queue[child], queue[center]) {
          ghost var q := queue[..];
          SiftDownStep(q, index, center, child);
          SwapPerm(q, index, center, child);
          var temp := queue[center];
          queue[center] := queue[child];
          queue[child] := temp;
          assert queue[..] == q[center := q[child]][child := q[center]];
          DequeueBubble(child);
        } else {
          NotOutranks(queue[center], queue[child]);
          if right <= index {
            AtLeastTransitive(queue[center], queue[child], queue[left]);
            AtLeastTransitive(queue[center], queue[child], queue[right]);
          }
          SiftDownStop(queue[..], index, center);
        }
      } else {
        SiftDownStop(queue[..], index, center);
      }
    }

    /**
      `changePriority(name, newPriority)`: every slot whose node has that
      name and another priority gets the new priority and is sifted down
      (lower) or up (higher).  The heap, the size and every node with
      another name are kept; when the names in the queue are distinct the
      one matching node, if any, is the only thing that changes.
    */
    method ChangePriority(name: string, newPriority: int)
      requires Valid()
      modifies queue
      ensures Valid()
      ensures SameOtherNames(Contents(), old(Contents()), name)
      ensures AlreadySet(old(Contents()), name, newPriority) ==> queue[..] == old(queue[..])
      ensures DistinctNames(old(Elements())) ==>
                Contents() == multiset(Reprioritized(old(Elements()), name, newPriority))
    {
      ghost var q0, n := queue[..], index;
      ghost var m0, e0 := Bag(q0, n), q0[1..n + 1];
      ghost var changed := false;
      for i := 1 to index + 1
        invariant Valid() && index == n
        invariant SameOtherNames(Bag(queue[..], n), m0, name)
        invariant !changed ==> queue[..] == q0 && SetBefore(q0, i, name, newPriority)
        invariant changed ==> !AlreadySet(m0, name, newPriority)
        invariant changed && DistinctNames(e0) ==> Bag(queue[..], n) == multiset(Reprioritized(e0, name, newPriority))
      {
        ghost var q := queue[..];
        ChangeSlot(i, name, newPriority);
        ghost var r := queue[..];
        ghost var now := changed || (q[i].name == name && q[i].priority != newPriority);
        OthersStep(q, r, n, i, name, newPriority, m0);
        FlagStep(q, n, i, name, newPriority, q0, m0, changed, now);
        ContentsStep(q, r, n, i, name, newPriority, q0, e0, changed, now);
        changed := now;
      }
      if !changed {
        NoChange(q0, e0, n, name, newPriority);
        assert Bag(queue[..], n) == multiset(e0);
      }
      assert old(Elements()) == e0 && old(Contents()) == m0;
    }

    /**
      One round of the `changePriority` loop, at slot i: a node called
      `name` with another priority gets the new one and is sifted down
      (lower) or up (higher); otherwise nothing changes.
    */
    method ChangeSlot(i: int, name: string, newPriority: int)
      requires Valid() && 1 <= i <= index
      modifies queue
      ensures Valid()
      ensures old(queue[i]).name != name || old(queue[i]).priority == newPriority ==>
                queue[..] == old(queue[..])
      ensures old(queue[i]).name == name ==>
                Contents() == old(Contents()) - multiset{old(queue[i])} + multiset{Node(name, newPriority)}
    {
      ghost var q := queue[..];
      if queue[i].name == name {
        var updated := Node(name, newPriority);
        UpdatePerm(q, index, i, updated);
        if queue[i].priority > newPriority {
          LowerKey(q, index, i, updated);
          queue[i] := updated;
          assert queue[..] == q[i := updated];
          DequeueBubble(i);
        } else if queue[i].priority < newPriority {
          RaiseKey(q, index, i, updated);
          queue[i] := updated;
          assert queue[..] == q[i := updated];
          EnqueueBubble(i, queue[i]);
        }
      }
    }

    /** `peek`: the name of the root, which ranks first among the entries. */
    method Peek() returns (name: string)
      requires Valid() && index > 0
      ensures IsMax(Top(), Contents()) && name == Top().name
    {
      RootIsMax(queue[..], index);
      name := queue[1].name;
    }

    /** `peekPriority`: the priority of the root, the highest priority present. */
    method PeekPriority() returns (priority: int)
      requires Valid() && index > 0
      ensures IsMax(Top(), Contents()) && priority == Top().priority
      ensures forall n :: n in Contents() ==> n.priority <= priority
    {
      RootIsMax(queue[..], index);
      priority := queue[1].priority;
    }

    method IsEmpty() returns (empty: bool)
      requires Valid()
      ensures empty <==> Contents() == multiset{}
    {
      if index == 0 {
        empty := true;
      } else {
        assert queue[1] in Contents();
        empty := false;
      }
    }

    method Size() returns (size: int)
      requires Valid()
      ensures size == |Contents()|
    {
      size := index;
    }

    /** `clear`: the size drops to 0; the array and its stale slots stay. */
    method Clear()
      requires Valid()
      modifies this
      ensures Valid() && queue == old(queue) && capacity == old(capacity)
      ensures index == 0 && Contents() == multiset{}
    {
      index := 0;
    }

    /** `toString`: `{}` when empty, else `{n1 (p1), ..., nk (pk)}` in slot order. */
    method ToString() returns (s: string)
      requires Valid()
      ensures s == "{" + Join(Elements()) + "}"
    {
      var a, n := queue, index;
      ghost var q := a[..];
      s := "{";
      for i := 1 to n + 1
        invariant s == Accum(q[1..i])
      {
        AccumStep(q, i);
        s := s + (a[i].name + " (" + IntToString(a[i].priority) + "), ");
      }
      ghost var e := q[1..n + 1];
      s := Trim(s);
      assert && |s| > 0 && (s[|s| - 1] == ',' <==> |e| > 0)
             && (|e| == 0 ==> s == "{" + Join(e))
             && (|e| > 0 ==> s[..|s| - 1] == "{" + Join(e)) by {
        TrimmedText(e);
      }
      if s[|s| - 1] == ',' {
        s := s[..|s| - 1];
      }
      s := s + "}";
    }

    /**
      `growQueue`: a new array of twice the capacity holding slots
      0..index-1 of the old one.
    */
    method GrowQueue()
      requires queue.Length == capacity && 1 <= capacity && 0 <= index <= capacity
      modifies this
      ensures fresh(queue) && capacity == 2 * old(capacity) && queue.Length == capacity
      ensures index == old(index) && queue[..index] == old(queue[..index])
    {
      var newQueue := new Node[2 * capacity];
      for i := 0 to index
        invariant newQueue[..i] == queue[..i]
        modifies newQueue
      {
        newQueue[i] := queue[i];
      }
      queue := newQueue;
      capacity := capacity * 2;
    }
  }

  lemma AtLeastNotOutranked(a: Node, b: Node)
    requires AtLeast(a, b)
    ensures !Outranks(b, a)
  {
    if a == b {
      OutranksIrreflexive(a);
    } else {
      OutranksAsymmetric(a, b);
    }
  }

  /** The two multisets agree on every node whose name is not `name`. */
  ghost predicate SameOtherNames(m1: multiset<Node>, m2: multiset<Node>, name: string)
  {
    forall x: Node :: x.name != name ==> m1[x] == m2[x]
  }

  /** Every node in `m` called `name` already has priority p. */
  ghost predicate AlreadySet(m: multiset<Node>, name: string, p: int)
  {
    forall x :: x in m && x.name == name ==> x.priority == p
  }

  /** Slots 1..i-1 of q that hold a node called `name` have priority p. */
  ghost predicate SetBefore(q: seq<Node>, i: int, name: string, p: int)
  {
    forall j :: 1 <= j < i && j < |q| && q[j].name == name ==> q[j].priority == p
  }

  /** Replacing one node called `name` by another keeps the nodes of other names. */
  lemma SwapSameName(m: multiset<Node>, m0: multiset<Node>, a: Node, u: Node, name: string)
    requires SameOtherNames(m, m0, name) && a.name == name && u.name == name
    ensures SameOtherNames(m - multiset{a} + multiset{u}, m0, name)
  {
    forall x: Node | x.name != name
      ensures (m - multiset{a} + multiset{u})[x] == m0[x]
    {
      assert x != a && x != u;
    }
  }

  /** A round of `changePriority` at slot i, from q to r, keeps the nodes of other names. */
  lemma OthersStep(q: seq<Node>, r: seq<Node>, n: int, i: int, name: string, p: int, m0: multiset<Node>)
    requires 1 <= i <= n < |q| && n < |r|
    requires SameOtherNames(Bag(q, n), m0, name)
    requires q[i].name != name || q[i].priority == p ==> r == q
    requires q[i].name == name ==> Bag(r, n) == Bag(q, n) - multiset{q[i]} + multiset{Node(name, p)}
    ensures SameOtherNames(Bag(r, n), m0, name)
  {
    if q[i].name == name {
      SwapSameName(Bag(q, n), m0, q[i], Node(name, p), name);
    }
  }

  /** The first round of `changePriority` that changes something finds a node to change in `q0`. */
  lemma FlagStep(q: seq<Node>, n: int, i: int, name: string, p: int, q0: seq<Node>, m0: multiset<Node>,
                  changed: bool, now: bool)
    requires 1 <= i <= n < |q| && n < |q0| && m0 == Bag(q0, n)
    requires !changed ==> q == q0 && SetBefore(q0, i, name, p)
    requires changed ==> !AlreadySet(m0, name, p)
    requires now == (changed || (q[i].name == name && q[i].priority != p))
    ensures !now ==> SetBefore(q0, i + 1, name, p)
    ensures now ==> !AlreadySet(m0, name, p)
  {
    if !changed {
      assert q0[1..n + 1][i - 1] == q0[i];
      assert q0[i] in Bag(q0, n);
    }
  }

  /**
    For distinct names, a round of `changePriority` that changes slot i
    leaves the entries of `q0` with the node called `name` given priority p.
  */
  lemma ContentsStep(q: seq<Node>, r: seq<Node>, n: int, i: int, name: string, p: int, q0: seq<Node>,
                      e0: seq<Node>, changed: bool, now: bool)
    requires 1 <= i <= n < |q| && n < |r| && n < |q0| && e0 == q0[1..n + 1]
    requires !changed ==> q == q0
    requires changed && DistinctNames(e0) ==> Bag(q, n) == multiset(Reprioritized(e0, name, p))
    requires q[i].name != name || q[i].priority == p ==> r == q
    requires q[i].name == name ==> Bag(r, n) == Bag(q, n) - multiset{q[i]} + multiset{Node(name, p)}
    requires now == (changed || (q[i].name == name && q[i].priority != p))
    ensures now && DistinctNames(e0) ==> Bag(r, n) == multiset(Reprioritized(e0, name, p))
  {
    var u := Node(name, p);
    if q[i].name != name || q[i].priority == p || !DistinctNames(e0) {
    } else if !changed {
      assert e0[i - 1] == q[i];
      ReprioritizedAt(e0, i - 1, name, p);
      SeqUpdatePerm(e0, i - 1, u);
    } else {
      assert q[1..n + 1][i - 1] == q[i];
      assert q[i] in Bag(q, n);
      ReprioritizedNamed(e0, name, p);
    }
  }

  /** With no round changing anything, every node called `name` already had priority p. */
  lemma NoChange(q0: seq<Node>, e0: seq<Node>, n: int, name: string, p: int)
    requires 0 <= n < |q0| && e0 == q0[1..n + 1] && SetBefore(q0, n + 1, name, p)
    ensures Reprioritized(e0, name, p) == e0
  {
    forall k | 0 <= k < |e0| && e0[k].name == name
      ensures e0[k].priority == p
    {
      assert e0[k] == q0[k + 1];
    }
    ReprioritizedNone(e0, name, p);
  }

  /** No two entries share a name (true of every queue the driver builds). */
  ghost predicate DistinctNames(s: seq<Node>)
  {
    forall i, j :: 0 <= i < j < |s| ==> s[i].name != s[j].name
  }

  /** The entries with every node called `name` given priority `p`. */
  ghost function Reprioritized(s: seq<Node>, name: string, p: int): seq<Node>
  {
    seq(|s|, k requires 0 <= k < |s| => if s[k].name == name then Node(name, p) else s[k])
  }

  lemma ReprioritizedNamed(s: seq<Node>, name: string, p: int)
    ensures forall x :: x in multiset(Reprioritized(s, name, p)) && x.name == name ==> x.priority == p
  {
  }

  lemma ReprioritizedAt(s: seq<Node>, k: int, name: string, p: int)
    requires DistinctNames(s) && 0 <= k < |s| && s[k].name == name
    ensures Reprioritized(s, name, p) == s[k := Node(name, p)]
  {
  }

  lemma ReprioritizedNone(s: seq<Node>, name: string, p: int)
    requires forall j :: 0 <= j < |s| && s[j].name == name ==> s[j].priority == p
    ensures Reprioritized(s, name, p) == s
  {
  }
}
