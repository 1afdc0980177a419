/**
  The ranking used by the priority queue: a higher priority wins, and
  between equal priorities the name that sorts first wins.  Names are
  compared character by character (Java compares UTF-16 code units; see
  CompareTo).
*/
module Order {

  /** One queue entry (the inner class Node of src/MaxPQ.java). */
  datatype Node = Node(name: string, priority: int)

  /**
    String.compareTo: the difference of the first pair of differing
    characters, or else the difference of the lengths.  A `char` here is a
    Unicode scalar value, where Java's is a UTF-16 code unit.
  */
  function CompareTo(a: string, b: string): (r: int)
    ensures r == 0 <==> a == b
  {
    if |a| == 0 || |b| == 0 then |a| - |b|
    else if a[0] != b[0] then a[0] as int - b[0] as int
    else
      assert a == [a[0]] + a[1..] && b == [b[0]] + b[1..];
      CompareTo(a[1..], b[1..])
  }

  /** Strict lexicographic order on strings: the reference definition. */
  predicate LexLess(a: string, b: string)
  {
    |b| > 0 && (|a| == 0 || a[0] < b[0] || (a[0] == b[0] && LexLess(a[1..], b[1..])))
  }

  /** The sign of CompareTo is the lexicographic order. */
  lemma {:induction false} CompareToSign(a: string, b: string)
    ensures CompareTo(a, b) < 0 <==> LexLess(a, b)
    ensures CompareTo(a, b) == 0 <==> a == b
    ensures CompareTo(a, b) > 0 <==> LexLess(b, a)
  {
    if |a| == 0 || |b| == 0 {
    } else if a[0] != b[0] {
    } else {
      CompareToSign(a[1..], b[1..]);
      assert a == [a[0]] + a[1..] && b == [b[0]] + b[1..];
    }
  }

  lemma {:induction false} LexIrreflexive(a: string)
    ensures !LexLess(a, a)
  {
    if |a| > 0 {
      LexIrreflexive(a[1..]);
    }
  }

  lemma {:induction false} LexAsymmetric(a: string, b: string)
    requires LexLess(a, b)
    ensures !LexLess(b, a)
  {
    if |a| > 0 && a[0] == b[0] {
      LexAsymmetric(a[1..], b[1..]);
    }
  }

  lemma {:induction false} LexTransitive(a: string, b: string, c: string)
    requires LexLess(a, b) && LexLess(b, c)
    ensures LexLess(a, c)
  {
    if |a| > 0 && a[0] == b[0] && b[0] == c[0] {
      LexTransitive(a[1..], b[1..], c[1..]);
    }
  }

  lemma {:induction false} LexTotal(a: string, b: string)
    ensures a == b || LexLess(a, b) || LexLess(b, a)
  {
    if |a| > 0 && |b| > 0 && a[0] == b[0] {
      LexTotal(a[1..], b[1..]);
      assert a == [a[0]] + a[1..] && b == [b[0]] + b[1..];
    }
  }

  /** `a` is taken out of the queue before `b`. */
  predicate Outranks(a: Node, b: Node)
  {
    a.priority > b.priority || (a.priority == b.priority && LexLess(a.name, b.name))
  }

  /** `a` is `b` or outranks it: the order the heap keeps between parent and child. */
  predicate AtLeast(a: Node, b: Node)
  {
    a == b || Outranks(a, b)
  }

  /** Outranks is a strict total order on nodes. */
  lemma OutranksIrreflexive(a: Node)
    ensures !Outranks(a, a)
  {
    LexIrreflexive(a.name);
  }

  lemma OutranksAsymmetric(a: Node, b: Node)
    requires Outranks(a, b)
    ensures !Outranks(b, a)
  {
    if a.priority == b.priority {
      LexAsymmetric(a.name, b.name);
    }
  }

  lemma OutranksTransitive(a: Node, b: Node, c: Node)
    requires Outranks(a, b) && Outranks(b, c)
    ensures Outranks(a, c)
  {
    if a.priority == b.priority == c.priority {
      LexTransitive(a.name, b.name, c.name);
    }
  }

  lemma OutranksTotal(a: Node, b: Node)
    ensures a == b || Outranks(a, b) || Outranks(b, a)
  {
    LexTotal(a.name, b.name);
  }

  lemma AtLeastTransitive(a: Node, b: Node, c: Node)
    requires AtLeast(a, b) && AtLeast(b, c)
    ensures AtLeast(a, c)
  {
    if a != b && b != c {
      OutranksTransitive(a, b, c);
    }
  }

  /** Whatever is not outranked by `b` is at least `b`. */
  lemma NotOutranks(a: Node, b: Node)
    requires !Outranks(b, a)
    ensures AtLeast(a, b)
  {
    OutranksTotal(a, b);
  }

  /** Only a node itself is both at least and at most that node. */
  lemma AtLeastAntisymmetric(a: Node, b: Node)
    requires AtLeast(a, b) && AtLeast(b, a)
    ensures a == b
  {
    if a != b {
      OutranksAsymmetric(a, b);
    }
  }

  /** `n` is an element of `m` that is at least every element of `m`. */
  ghost predicate IsMax(n: Node, m: multiset<Node>)
  {
    n in m && forall x :: x in m ==> AtLeast(n, x)
  }
}
