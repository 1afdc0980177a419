/**
  The greedy ladder search of src/WikiRacer.java.  Each step scores the
  links of the current page by how many links they share with the end
  page, puts them in a priority queue and moves to the queue's root.
  Fetching a page's links (WikiScraper.findWikiLinks, network I/O) is the
  parameter `links`; the score cache `memo` is a field.
*/
module Racer {
  import opened Order
  import opened Heap
  import opened PQ

  /**
    The priority `createQueue` gives candidate c: the size of the end
    page's link set for the end page itself, the cached value for a
    cached candidate, and otherwise the number of links c shares with
    the end page.
  */
  function Score(c: string, target: string, endLinks: set<string>, memo: map<string, int>,
                 links: string -> set<string>): (r: int)
    ensures MemoSound(memo, links, endLinks) ==> 0 <= r <= |endLinks|
    ensures c != target && c !in memo ==> r == |links(c) * endLinks|
  {
    SharedAtMost(links(c), endLinks);
    if c == target then |endLinks|
    else if c in memo then memo[c]
    else |links(c) * endLinks|
  }

  /**
    `b` is the candidate a max-priority queue of the scored candidates
    has at its root: every other candidate ranks below it (a lower
    score, or the same score and a name that sorts later).
  */
  ghost predicate IsBest(b: string, cands: set<string>, target: string, endLinks: set<string>,
                         memo: map<string, int>, links: string -> set<string>)
  {
    && b in cands
    && forall c :: c in cands && c != b ==>
         Outranks(Node(b, Score(b, target, endLinks, memo, links)), Node(c, Score(c, target, endLinks, memo, links)))
  }

  /** Every cached score is the number of links shared with the end page. */
  ghost predicate MemoSound(memo: map<string, int>, links: string -> set<string>, endLinks: set<string>)
  {
    forall k :: k in memo ==> memo[k] == |links(k) * endLinks|
  }

  /** `m1` keeps every entry of `m0` unchanged. */
  ghost predicate Extends(m1: map<string, int>, m0: map<string, int>)
  {
    forall k :: k in m0 ==> k in m1 && m1[k] == m0[k]
  }

  /** The best candidate is unique, so the order candidates are visited in does not matter. */
  lemma BestIsUnique(a: string, b: string, cands: set<string>, target: string, endLinks: set<string>,
                     memo: map<string, int>, links: string -> set<string>)
    requires IsBest(a, cands, target, endLinks, memo, links)
    requires IsBest(b, cands, target, endLinks, memo, links)
    ensures a == b
  {
    if a != b {
      OutranksAsymmetric(Node(a, Score(a, target, endLinks, memo, links)),
                         Node(b, Score(b, target, endLinks, memo, links)));
    }
  }

  /** With a sound cache, a score is what it would be with no cache at all. */
  lemma SoundMemoScore(c: string, target: string, endLinks: set<string>, memo: map<string, int>,
                       links: string -> set<string>)
    requires MemoSound(memo, links, endLinks)
    ensures Score(c, target, endLinks, memo, links) == Score(c, target, endLinks, map[], links)
  {
  }

  /** With a sound cache, the best candidate is the best with no cache. */
  lemma SoundMemoBest(b: string, cands: set<string>, target: string, endLinks: set<string>,
                      memo: map<string, int>, links: string -> set<string>)
    requires MemoSound(memo, links, endLinks)
    ensures IsBest(b, cands, target, endLinks, memo, links) <==> IsBest(b, cands, target, endLinks, map[], links)
  {
    forall c
      ensures Score(c, target, endLinks, memo, links) == Score(c, target, endLinks, map[], links)
    {
      SoundMemoScore(c, target, endLinks, memo, links);
    }
  }

  /** A computed score never exceeds the end page's score. */
  lemma SharedAtMost(a: set<string>, e: set<string>)
    ensures |a * e| <= |e|
  {
    SubsetCard(a * e, e);
  }

  lemma {:induction false} SubsetCard(a: set<string>, b: set<string>)
    requires a <= b
    ensures |a| <= |b|
    decreases |b|
  {
    if a != {} {
      var x :| x in a;
      SubsetCard(a - {x}, b - {x});
    }
  }

  /** With a sound cache no candidate scores above the end page. */
  lemma TargetScoreIsTop(c: string, target: string, endLinks: set<string>, memo: map<string, int>,
                         links: string -> set<string>)
    requires MemoSound(memo, links, endLinks)
    ensures Score(c, target, endLinks, memo, links) <= Score(target, target, endLinks, memo, links)
  {
    SharedAtMost(links(c), endLinks);
  }

  /**
    When the end page is among the candidates (and the cache is sound),
    it is chosen exactly when no other candidate both shares every one
    of the end page's links and has a name that sorts before it.
  */
  lemma TargetChosenUnlessTied(cands: set<string>, target: string, endLinks: set<string>,
                               memo: map<string, int>, links: string -> set<string>)
    requires target in cands && MemoSound(memo, links, endLinks)
    ensures IsBest(target, cands, target, endLinks, memo, links) <==>
              forall c :: c in cands && c != target && |links(c) * endLinks| == |endLinks| ==> !LexLess(c, target)
  {
    var top := Node(target, |endLinks|);
    if IsBest(target, cands, target, endLinks, memo, links) {
      forall c | c in cands && c != target && |links(c) * endLinks| == |endLinks|
        ensures !LexLess(c, target)
      {
        assert Outranks(top, Node(c, Score(c, target, endLinks, memo, links)));
        LexAsymmetric(target, c);
      }
    } else {
      var c :| c in cands && c != target && !Outranks(top, Node(c, Score(c, target, endLinks, memo, links)));
      SharedAtMost(links(c), endLinks);
      LexTotal(target, c);
    }
  }

  /**
    The end page can be a direct link and still not be chosen: "Apple"
    shares every link of the end page "Zebra" and sorts before it.
  */
  lemma OneHopCanLose()
    ensures var links := (p: string) => if p == "Apple" then {"x"} else {};
      && IsBest("Apple", {"Apple", "Zebra"}, "Zebra", {"x"}, map[], links)
      && !IsBest("Zebra", {"Apple", "Zebra"}, "Zebra", {"x"}, map[], links)
  {
    var links := (p: string) => if p == "Apple" then {"x"} else {};
    assert links("Apple") * {"x"} == {"x"};
    assert LexLess("Apple", "Zebra");
    LexAsymmetric("Apple", "Zebra");
  }

  /**
    The queue `createQueue` is building: exactly one node per candidate
    scored so far, carrying that candidate's score.
  */
  ghost predicate Scored(m: multiset<Node>, done: set<string>, target: string, endLinks: set<string>,
                         memo: map<string, int>, links: string -> set<string>)
  {
    && (forall n :: n in m ==> n.name in done && n.priority == Score(n.name, target, endLinks, memo, links))
    && (forall c :: c in done ==> Node(c, Score(c, target, endLinks, memo, links)) in m)
  }

  /**
    The cache while `createQueue` runs: the old entries are kept, the
    new ones are scored candidates other than the end page, and every
    such candidate has an entry.
  */
  ghost predicate MemoGrown(memo: map<string, int>, m0: map<string, int>, done: set<string>, target: string,
                            endLinks: set<string>, links: string -> set<string>)
  {
    && Extends(memo, m0)
    && (forall k :: k in memo && k !in m0 ==> k in done && k != target && memo[k] == |links(k) * endLinks|)
    && (forall c :: c in done && c != target ==> c in memo)
  }

  /** A cache grown by `createQueue` from a sound cache is sound. */
  lemma MemoGrownSound(memo: map<string, int>, m0: map<string, int>, done: set<string>, target: string,
                       endLinks: set<string>, links: string -> set<string>)
    requires MemoGrown(memo, m0, done, target, endLinks, links) && MemoSound(m0, links, endLinks)
    ensures MemoSound(memo, links, endLinks)
  {
  }

  /** Scoring the next candidate: enqueueing it and caching a newly computed score. */
  lemma ScoreStep(m: multiset<Node>, m': multiset<Node>, current: set<string>, rest: set<string>, c: string,
                  target: string, endLinks: set<string>, m0: map<string, int>, memo: map<string, int>,
                  memo': map<string, int>, links: string -> set<string>)
    requires Scored(m, current - rest, target, endLinks, m0, links)
    requires MemoGrown(memo, m0, current - rest, target, endLinks, links)
    requires c in rest && rest <= current
    requires m' == m + multiset{Node(c, Score(c, target, endLinks, memo, links))}
    requires memo' == if c == target || c in memo then memo else memo[c := |links(c) * endLinks|]
    ensures Scored(m', current - (rest - {c}), target, endLinks, m0, links)
    ensures MemoGrown(memo', m0, current - (rest - {c}), target, endLinks, links)
  {
    assert current - (rest - {c}) == (current - rest) + {c};
    assert c in memo ==> c in m0;
  }

  /** A scored candidate's node is in the queue, so the queue is not empty. */
  lemma ScoredSome(m: multiset<Node>, done: set<string>, c: string, target: string, endLinks: set<string>,
                   memo: map<string, int>, links: string -> set<string>)
    requires Scored(m, done, target, endLinks, memo, links) && c in done
    ensures |m| > 0
  {
    assert Node(c, Score(c, target, endLinks, memo, links)) in m;
  }

  /** The maximum of the finished queue is the best candidate. */
  lemma ScoredBest(m: multiset<Node>, done: set<string>, top: Node, target: string, endLinks: set<string>,
                   memo: map<string, int>, links: string -> set<string>)
    requires Scored(m, done, target, endLinks, memo, links) && IsMax(top, m)
    ensures IsBest(top.name, done, target, endLinks, memo, links)
  {
    forall c | c in done && c != top.name
      ensures Outranks(Node(top.name, Score(top.name, target, endLinks, memo, links)),
                       Node(c, Score(c, target, endLinks, memo, links)))
    {
      assert Node(c, Score(c, target, endLinks, memo, links)) in m;
    }
  }

  /** Each hop of a ladder is a link of the page before it. */
  ghost predicate Hops(ladder: seq<string>, links: string -> set<string>)
  {
    forall i :: 0 <= i < |ladder| - 1 ==> ladder[i + 1] in links(ladder[i])
  }

  /** Each hop of a ladder is the best-scored link of the page before it. */
  ghost predicate Greedy(ladder: seq<string>, target: string, endLinks: set<string>, links: string -> set<string>)
  {
    forall i :: 0 <= i < |ladder| - 1 ==> IsBest(ladder[i + 1], links(ladder[i]), target, endLinks, map[], links)
  }

  /**
    A ladder under construction: it starts at `start`, does not reach
    `end`, each hop is a link of the page before it and, when `greedy`,
    the best-scored one.
  */
  ghost predicate Chain(ladder: seq<string>, start: string, end: string, endLinks: set<string>,
                        links: string -> set<string>, greedy: bool)
  {
    && (|ladder| > 0 ==> ladder[0] == start)
    && (forall i :: 0 <= i < |ladder| ==> ladder[i] != end)
    && Hops(ladder, links)
    && (greedy ==> Greedy(ladder, end, endLinks, links))
  }

  /** The page a ladder under construction moves to next. */
  ghost predicate NextHop(ladder: seq<string>, q: string, start: string, end: string, endLinks: set<string>,
                          links: string -> set<string>, greedy: bool)
  {
    && (ladder == [] ==> q == start)
    && (ladder != [] ==> q in links(ladder[|ladder| - 1]))
    && (ladder != [] && greedy ==> IsBest(q, links(ladder[|ladder| - 1]), end, endLinks, map[], links))
  }

  /** Recording the next page keeps a ladder a chain, unless the page is `end`. */
  lemma ChainExtend(ladder: seq<string>, q: string, start: string, end: string, endLinks: set<string>,
                    links: string -> set<string>, greedy: bool)
    requires Chain(ladder, start, end, endLinks, links, greedy)
    requires NextHop(ladder, q, start, end, endLinks, links, greedy)
    ensures q != end ==> Chain(ladder + [q], start, end, endLinks, links, greedy)
    ensures var l := ladder + [q];
      && l[0] == start && Hops(l, links) && (greedy ==> Greedy(l, end, endLinks, links))
  {
    var l := ladder + [q];
    forall i | 0 <= i < |l| - 1
      ensures l[i + 1] in links(l[i])
      ensures greedy ==> IsBest(l[i + 1], links(l[i]), end, endLinks, map[], links)
    {
      if i < |ladder| - 1 {
        assert l[i + 1] == ladder[i + 1] && l[i] == ladder[i];
      }
    }
  }

  /** How a search ends, with the ladder built so far. */
  datatype Outcome =
    | Found(ladder: seq<string>)      // reached the end page
    | DeadEnd(ladder: seq<string>)    // the last page has no links: dequeue on an empty queue throws
    | OutOfFuel(ladder: seq<string>)  // the step bound ran out

  class WikiRacer {
    /** The score cache, shared by all steps of a search. */
    var memo: map<string, int>
    /** `WikiScraper.findWikiLinks`: the link set of a page. */
    const links: string -> set<string>

    constructor (links: string -> set<string>)
      ensures this.links == links && memo == map[]
    {
      this.links := links;
      memo := map[];
    }

    /**
      `createQueue`: scores every candidate, caching each newly computed
      score, enqueues them all and returns the root of the queue.
    */
    method CreateQueue(current: set<string>, endLinks: set<string>, target: string) returns (best: string)
      requires current != {}
      modifies this
      ensures IsBest(best, current, target, endLinks, old(memo), links)
      ensures MemoGrown(memo, old(memo), current, target, endLinks, links)
    {
      var queue := ScoreAll(current, endLinks, target);
      ghost var some :| some in current;
      ScoredSome(queue.Contents(), current, some, target, endLinks, old(memo), links);
      ghost var m, top := queue.Contents(), queue.Top();
      best := queue.Dequeue();
      ScoredBest(m, current, top, target, endLinks, old(memo), links);
    }

    /**
      The parallel `forEach` of `createQueue`, one link after another:
      a new queue holding one scored node per candidate.
    */
    method ScoreAll(current: set<string>, endLinks: set<string>, target: string) returns (queue: MaxPQ)
      modifies this
      ensures fresh(queue) && fresh(queue.queue) && queue.Valid()
      ensures Scored(queue.Contents(), current, target, endLinks, old(memo), links)
      ensures MemoGrown(memo, old(memo), current, target, endLinks, links)
    {
      ghost var m0 := memo;
      queue := new MaxPQ();
      var rest := current;
      ghost var bag := multiset{};
      while rest != {}
        invariant rest <= current
        invariant fresh(queue)
        invariant fresh(queue.queue)
        invariant queue.Valid() && queue.Contents() == bag
        invariant Scored(bag, current - rest, target, endLinks, m0, links)
        invariant MemoGrown(memo, m0, current - rest, target, endLinks, links)
        decreases |rest|
      {
        var link :| link in rest;
        ghost var m := memo;
        Visit(queue, link, endLinks, target);
        ScoreStep(bag, queue.Contents(), current, rest, link, target, endLinks, m0, m, memo, links);
        bag := queue.Contents();
        rest := rest - {link};
      }
    }

    /**
      The body of `createQueue`'s per-link lambda: enqueues `link` with its
      score and caches a newly computed score.
    */
    method Visit(queue: MaxPQ, link: string, endLinks: set<string>, target: string)
      requires queue.Valid()
      modifies this, queue, queue.queue
      ensures queue.Valid() && (queue.queue == old(queue.queue) || fresh(queue.queue))
      ensures queue.Contents() == old(queue.Contents()) + multiset{Node(link, Score(link, target, endLinks, old(memo), links))}
      ensures memo == if link == target || link in old(memo) then old(memo) else old(memo)[link := |links(link) * endLinks|]
    {
      if link == target {
        queue.Enqueue(link, |endLinks|);
        return;
      }
      if link in memo {
        queue.Enqueue(link, memo[link]);
      } else {
        var shared := links(link) * endLinks;
        queue.Enqueue(link, |shared|);
        memo := memo[link := |shared|];
      }
    }

    /**
      `findWikiLadder`: from `start`, repeatedly records the current page
      and moves to the best of its links until the end page is reached.
      The source's loop has no bound; `fuel` bounds the number of steps.
    */
    method FindWikiLadder(start: string, end: string, fuel: nat) returns (r: Outcome)
      modifies this
      ensures start == end ==> r == Found([end])
      ensures |r.ladder| > 0 ==> r.ladder[0] == start
      ensures r.Found? || r.DeadEnd? ==> |r.ladder| > 0
      ensures r.Found? ==> r.ladder[|r.ladder| - 1] == end
      ensures r.Found? ==> forall i :: 0 <= i < |r.ladder| - 1 ==> r.ladder[i] != end
      ensures !r.Found? ==> forall i :: 0 <= i < |r.ladder| ==> r.ladder[i] != end
      ensures r.DeadEnd? ==> links(r.ladder[|r.ladder| - 1]) == {}
      ensures |r.ladder| <= fuel + 1
      ensures r.OutOfFuel? ==> |r.ladder| == fuel
      ensures r.OutOfFuel? && fuel > 0 ==> links(r.ladder[fuel - 1]) != {}
      ensures r.OutOfFuel? && fuel > 0 && MemoSound(old(memo), links, links(end)) ==>
        !IsBest(end, links(r.ladder[fuel - 1]), end, links(end), map[], links)
      ensures Hops(r.ladder, links)
      ensures MemoSound(old(memo), links, links(end)) ==> Greedy(r.ladder, end, links(end), links)
      ensures Extends(memo, old(memo))
      ensures MemoSound(old(memo), links, links(end)) ==> MemoSound(memo, links, links(end))
    {
      ghost var sound := MemoSound(memo, links, links(end));
      var ladder: seq<string> := [];
      var target := links(end);
      var q := start;
      var f := fuel;
      while q != end
        invariant |ladder| + f == fuel
        invariant Chain(ladder, start, end, target, links, sound)
        invariant NextHop(ladder, q, start, end, target, links, sound)
        invariant Extends(memo, old(memo))
        invariant sound ==> MemoSound(memo, links, target)
        decreases f
      {
        if f == 0 {
          if sound && ladder != [] && IsBest(end, links(ladder[|ladder| - 1]), end, target, map[], links) {
            BestIsUnique(q, end, links(ladder[|ladder| - 1]), end, target, map[], links);
          }
          return OutOfFuel(ladder);
        }
        ChainExtend(ladder, q, start, end, target, links, sound);
        ladder := ladder + [q];
        var pageLinks := links(q);
        if pageLinks == {} {
          return DeadEnd(ladder);
        }
        ghost var m := memo;
        q := CreateQueue(pageLinks, target, end);
        if sound {
          SoundMemoBest(q, pageLinks, end, target, m, links);
          MemoGrownSound(memo, m, pageLinks, end, target, links);
        }
        f := f - 1;
      }
      ChainExtend(ladder, q, start, end, target, links, sound);
      ladder := ladder + [end];
      return Found(ladder);
    }
  }
}
