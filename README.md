# wiki-racer-java in Dafny

wiki-racer-java searches for a "ladder" of Wikipedia pages from a start page
to an end page. Each hop follows a link on the current page.

At every step the program does four things:

1. It takes the links of the current page (`WikiScraper`).
2. It scores each link by how many links that page shares with the end page.
3. It puts the scored links in a binary max-heap priority queue (`MaxPQ`).
4. It moves to the root of the queue (`WikiRacer`).

This project models those three pieces and proves what they promise.

- `order.dfy` (module `Order`):
  - the queue entry `Node`;
  - `String.compareTo` over characters, proved to agree with lexicographic order;
  - the ranking the queue keeps (`Outranks`): a higher priority wins, and on
    equal priorities the name that sorts first wins. It is proved to be a strict
    total order.
- `heap.dfy` (module `Heap`):
  - the 1-indexed heap shape of the backing array;
  - the two ways it is broken while a node moves up or down;
  - the step lemmas the queue's methods use.
- `maxpq.dfy` (module `PQ`):
  - the class `MaxPQ` over an `array<Node>`, with the fields `queue`,
    `capacity` and `index`;
  - the methods of `src/MaxPQ.java`. Each public method that changes the
    queue keeps `Valid()` (the array has `capacity` slots, and slots
    1..index form a heap) and states the new contents as a multiset.
    `growQueue` and the two bubble helpers state their own pre- and
    post-states: `growQueue` runs inside `enqueue` while the array is full,
    and the bubble helpers start from a heap broken at one slot.
- `scraper.dfy` (module `Scraper`):
  - `getURL`;
  - the `scrapeHTML` loop, proved equal to a recursive specification `Scrape`,
    and the properties of that function.
- `racer.dfy` (module `Racer`):
  - the class `WikiRacer`, with the score cache `memo` as a field and a page's
    link set as the function `links`;
  - `createQueue` and `findWikiLadder`.
- `as_written.dfy` (module `AsWritten`):
  - `dequeueBubble` exactly as its branches are written, on an array whose
    slots may be null;
  - the inputs on which it does not restore the heap (see Findings).
- `wrappers.dfy`: `Option` and `Result`.

The queue the rest of the model uses sifts down the way `dequeueBubble`'s
comment describes:

- both children are checked against the size;
- they are compared by the full ranking;
- the one that ranks first is swapped with the centre only when it outranks the
  centre.

`src/WikiRacer.java` only ever dequeues once, from a freshly built queue. So
the ladder depends only on `enqueue` and on the root.

The heap's `compares(o, n)` is true when the priorities are equal and `o`'s name
sorts after `n`'s. A node moving up therefore passes an equal-priority parent
whose name sorts later. Between equal priorities, the name that sorts first is
dequeued first.

## Model

| member | source | states |
|---|---|---|
| Order.CompareTo | src/MaxPQ.java:88 | `compareTo` is zero exactly when the two names are equal |
| Order.CompareToSign | src/MaxPQ.java:87-88 | Java's `compareTo` is negative, zero or positive exactly when the first string sorts before, equals, or sorts after the second |
| Order.LexIrreflexive | src/MaxPQ.java:87-88 | no name sorts before itself |
| Order.LexAsymmetric | src/MaxPQ.java:87-88 | two names never sort before each other |
| Order.LexTransitive | src/MaxPQ.java:87-88 | sorting before is transitive |
| Order.LexTotal | src/MaxPQ.java:87-88 | of two different names one sorts before the other |
| Order.OutranksIrreflexive | src/MaxPQ.java:64-69 | no node outranks itself |
| Order.OutranksAsymmetric | src/MaxPQ.java:64-69 | two nodes never outrank each other |
| Order.OutranksTransitive | src/MaxPQ.java:64-69 | the ranking is transitive |
| Order.OutranksTotal | src/MaxPQ.java:64-69 | of two different nodes one outranks the other |
| Order.AtLeastTransitive | src/MaxPQ.java:64-69 | "is or outranks" is transitive |
| Order.NotOutranks | src/MaxPQ.java:64-69 | a node not outranked by another is at least that node |
| Order.AtLeastAntisymmetric | src/MaxPQ.java:64-69 | two nodes each at least the other are equal |
| PQ.Compares | src/MaxPQ.java:75-93 | `compares(o, n)` holds iff the priorities are equal and `o`'s name sorts strictly after `n`'s |
| PQ.MaxPQ.constructor | src/MaxPQ.java:13-22 | a new queue has an array of 10 slots, capacity 10, size 0, no entries, and is a heap |
| PQ.MaxPQ.Enqueue | src/MaxPQ.java:24-35 | the size grows by one; the capacity doubles exactly when the new size reaches it; the heap holds; the contents gain exactly the new node |
| PQ.MaxPQ.EnqueueNode | src/MaxPQ.java:37-51 | the same, for a given node: the new size, capacity and contents and the heap |
| PQ.MaxPQ.EnqueueBubble | src/MaxPQ.java:53-73 | the loop that halves `i` restores the heap when slot `c` may outrank its parent, and only permutes the entries |
| PQ.MaxPQ.Dequeue | src/MaxPQ.java:95-107 | on a non-empty queue: returns the name of the old root, which is a maximum of the old contents; the size drops by one; exactly one copy of that node leaves the contents; the heap holds |
| PQ.MaxPQ.DequeueBubble | src/MaxPQ.java:109-146 | the sift-down the method documents: the heap broken below `center` is restored, and the entries are only permuted |
| PQ.MaxPQ.ChangePriority | src/MaxPQ.java:148-171 | the heap holds and the size is kept; nodes with other names are kept; when every node with that name already has the priority (or none exists), the array is unchanged; with distinct names, the contents are the old ones with the named node given the new priority |
| PQ.MaxPQ.ChangeSlot | src/MaxPQ.java:159-169 | one round of the loop: slot `i` with another name or the same priority changes nothing; otherwise that node is replaced by one with the new priority, and the heap holds |
| PQ.MaxPQ.Peek | src/MaxPQ.java:173-180 | returns the name of the root, a maximum of the contents |
| PQ.MaxPQ.PeekPriority | src/MaxPQ.java:182-190 | returns the root's priority, which no entry's priority exceeds |
| PQ.MaxPQ.IsEmpty | src/MaxPQ.java:192-203 | true iff the queue has no entries |
| PQ.MaxPQ.Size | src/MaxPQ.java:205-212 | the number of entries |
| PQ.MaxPQ.Clear | src/MaxPQ.java:214-219 | the size becomes 0, the array and capacity stay, the heap holds |
| PQ.MaxPQ.ToString | src/MaxPQ.java:221-238 | `{` + the entries of slots 1..index as `name (priority)`, separated by `, ` + `}`; `{}` when empty |
| PQ.AccumJoin | src/MaxPQ.java:229-231 | after the loop, the text is `{`, the joined entries and a trailing `, ` |
| PQ.Trim | src/MaxPQ.java:232 | `trim` never lengthens the text; a non-empty result starts and ends above `' '`; a text that already does is returned unchanged |
| PQ.TrimIsSlice | src/MaxPQ.java:232 | the result of `trim` is one slice of the text, and every character cut off before or after it is at most `' '` |
| PQ.TrimmedText | src/MaxPQ.java:232-235 | trimming and dropping the final `,` leave `{` and the joined entries |
| PQ.MaxPQ.GrowQueue | src/MaxPQ.java:240-252 | a fresh array of twice the capacity, holding slots 0..index-1 of the old one |
| Heap.RootIsMax | src/MaxPQ.java:173-180 | the root of a non-empty heap is a maximum of its entries |
| Heap.RootAtLeast | src/MaxPQ.java:173-180 | the root is at least every slot of the heap |
| Heap.RemoveRoot | src/MaxPQ.java:102-105 | moving the last entry to the root breaks the heap only below the root and removes the old root from the entries |
| Heap.SiftUpStep | src/MaxPQ.java:65-70 | swapping a node with a parent it outranks moves the break up to the parent |
| Heap.SiftUpStop | src/MaxPQ.java:64-72 | the sift-up ends in a heap once the node does not outrank its parent |
| Heap.SiftDownStep | src/MaxPQ.java:127-141 | swapping a node with its best child, which outranks it, moves the break down to that child |
| Heap.SiftDownStop | src/MaxPQ.java:119-145 | the sift-down ends in a heap when no child outranks the node |
| Heap.LowerKey | src/MaxPQ.java:161-164 | lowering one entry breaks the heap only below it |
| Heap.RaiseKey | src/MaxPQ.java:165-168 | raising one entry breaks the heap only above it |
| Heap.SwapPerm | src/MaxPQ.java:66-69 | a swap keeps the multiset of the entries |
| Scraper.GetURL | src/WikiScraper.java:54-64 | the address is `https://en.wikipedia.org/wiki/` followed by the page name |
| Scraper.PageOfGetURL | src/WikiScraper.java:54-64 | the page name can be read back from its address |
| Scraper.GetURLPageOf | src/WikiScraper.java:54-64 | every English Wikipedia address is the address of the name read from it |
| Scraper.GetURLInjective | src/WikiScraper.java:54-64 | different pages have different addresses |
| Scraper.IndexOf | src/WikiScraper.java:79-80 | the first position where the pattern occurs, or -1 when it occurs nowhere |
| Scraper.Contains | src/WikiScraper.java:78 | true iff the pattern occurs somewhere |
| Scraper.NextCut | src/WikiScraper.java:79-84 | one round: the link holds no `"`, and the rest is at least 7 characters shorter than the line; the round fails only when some `"/wiki/` has no `"` after it |
| Scraper.Scrape | src/WikiScraper.java:75-86 | scraping fails only on HTML that holds `href="/wiki/`; every link of a successful scrape holds no `:` or `#` |
| Scraper.ScrapeHTML | src/WikiScraper.java:66-87 | the loop's result is the one the recursive `Scrape` describes, including its failure |
| Scraper.ScrapeClean | src/WikiScraper.java:80-83 | no link found contains `:`, `#` or `"` |
| Scraper.ScrapeFound | src/WikiScraper.java:79-80 | every link found stands in the input right after a `"/wiki/` and right before a `"` |
| Scraper.ScrapeNoHref | src/WikiScraper.java:78 | HTML without `href="/wiki/` yields the empty set |
| Scraper.ScrapeFailure | src/WikiScraper.java:80 | scraping fails only when some `"/wiki/` in the input has no `"` anywhere after it |
| Racer.WikiRacer.constructor | src/WikiRacer.java:13 | the cache starts empty |
| Racer.WikiRacer.CreateQueue | src/WikiRacer.java:48-77 | on a non-empty candidate set, returns the candidate whose node outranks every other candidate's under the three-case score; keeps old cache entries; caches exactly the newly scored candidates other than the end page, with their shared-link counts |
| Racer.WikiRacer.ScoreAll | src/WikiRacer.java:58-75 | the built queue holds exactly one node per candidate, carrying its score; the cache grows as in `createQueue` |
| Racer.WikiRacer.Visit | src/WikiRacer.java:60-75 | one candidate: its node and score join the queue; a newly computed score is cached; the end page is never cached |
| Racer.WikiRacer.FindWikiLadder | src/WikiRacer.java:27-46 | `start == end` gives `[end]`; the ladder starts at `start`; a found ladder ends at `end` with no earlier `end`; each hop is a link of the page before it; `DeadEnd` only when the last page has no links; `OutOfFuel` only after exactly `fuel` pages, when the last of them has links and, with a sound cache, the end page is not its best link; with a sound cache, each hop is the best-scored link; cache entries are never overwritten, and a sound cache stays sound |
| Racer.Score | src/WikiRacer.java:62-74 | with a sound cache, a score lies between 0 and the size of the end page's link set; a candidate other than the end page that is not cached is scored by its shared-link count |
| Racer.BestIsUnique | src/WikiRacer.java:58-76 | the best candidate is unique, so the order candidates are visited in does not matter |
| Racer.SoundMemoBest | src/WikiRacer.java:66-74 | with a cache of shared-link counts, a candidate is best iff it is best with no cache |
| Racer.SharedAtMost | src/WikiRacer.java:71-72 | a shared-link count never exceeds the size of the end page's link set |
| Racer.TargetScoreIsTop | src/WikiRacer.java:62-72 | with a sound cache, the end page's score is at least every candidate's score |
| Racer.TargetChosenUnlessTied | src/WikiRacer.java:62-76 | with a sound cache, an end page among the candidates is chosen iff no other candidate shares all of its links while sorting before it |
| Racer.OneHopCanLose | src/WikiRacer.java:62-76 | for end page `Zebra` with links `{x}`, asked from a page that links to `Apple` (which links to `x`) and to `Zebra`, the search moves to `Apple` |
| Racer.MemoGrownSound | src/WikiRacer.java:66-74 | a cache grown by `createQueue` from a sound cache is sound |
| Racer.ChainExtend | src/WikiRacer.java:39-45 | appending the next page keeps the ladder's first page, its hops and their greediness |
| AsWritten.Bubble | src/MaxPQ.java:109-146 | `dequeueBubble` as written: when it reads no null slot, it keeps the number of slots and only permutes them |
| AsWritten.Dequeue | src/MaxPQ.java:95-107 | `dequeue` as written: when it reads no null slot, it returns the old root's name, lowers the size by one, and the slots are a permutation of those with the last entry moved to the root |
| AsWritten.RightChildSkipped | src/MaxPQ.java:133-141 | as written, dequeue on a9, b3, c5, d1, e2 leaves e2 at the root above c5 |
| AsWritten.TieIgnoresNames | src/MaxPQ.java:127-132 | as written, dequeue on a9, c5, b5, z1 puts c5 at the root although b5 outranks it |
| AsWritten.GuardSwapsWinner | src/MaxPQ.java:121-132 | as written, the sift-down from a root a5 swaps it below b3, which it outranks |
| AsWritten.NullRightChild | src/MaxPQ.java:121-124 | as written, after `changePriority("a", 3)` on a5, b3 the sift-down's guard reads the null slot 3 and throws |

## Left out

- Network I/O is not modelled. `fetchHTML`, `findWikiLinks` and the
  `URL`/`InputStream` reading become the parameter `links` of `WikiRacer`.
  The crash on the null `buffer` when a fetch fails is therefore not modelled.
  Nor is a scrape failure, where `substring(0, -1)` at
  src/WikiScraper.java:80 throws out of `findWikiLinks` and ends the search:
  `Scraper.Scrape` models it as `Failure`, but the total function `links`
  has no failure.
- The `parallelStream` of `createQueue` is modelled as a sequential loop over
  the set, in an arbitrary order. The source's races on the unsynchronised queue
  and cache are not modelled. The winner is proved not to depend on the order
  (`Racer.BestIsUnique`).
- `main` and its printing are not modelled; they only read the arguments and
  print.
- `Node` is a value in the model, not a shared object. `changePriority` assigns
  the field of a node object in place; the model replaces the slot's value.
  Nothing in the driver holds a node, so the difference cannot be observed
  there. The public `enqueue(Node)` lets other callers keep a node object; the
  aliasing that would then show is not modelled.
- Null and stale slots are modelled only in `AsWritten`. Elsewhere a slot past
  `index` is simply not read.
- The `int` arithmetic of `2 * capacity` is unbounded, so the overflow of a
  huge queue is not modelled.
- Order.CompareTo compares Unicode scalar values, since a Dafny `char` is one.
  Java compares UTF-16 code units, so names holding characters above U+FFFF can
  sort differently: U+FF61 sorts before U+10000 here but after it in Java.
- PQ.IntToString writes an integer in decimal with a leading `-` when
  negative. Java's formatting is not modelled beyond that.
- PQ.MaxPQ.Dequeue, PQ.MaxPQ.Peek and PQ.MaxPQ.PeekPriority require a
  non-empty queue. On an empty queue the source reads a null or stale slot 1
  and throws or returns stale data. `createQueue`, the only caller, dequeues
  from an empty queue when the page has no links; the model stops the search
  there with the outcome `DeadEnd` instead of raising the exception.
- PQ.MaxPQ.ChangePriority states the exact new contents only when the names in
  the queue are distinct, which is true of every queue `createQueue` builds.
  With duplicate names the loop can move a duplicate into a slot it already
  visited. The model then states only that nodes with other names are kept.
- PQ.MaxPQ.DequeueBubble is the intended sift-down, not the literal branches,
  which break the heap (see Findings).
- Racer.WikiRacer.FindWikiLadder takes a `fuel` bound on the number of steps.
  The source's loop has no bound and runs forever when the greedy walk cycles.
  Running out of fuel is the outcome `OutOfFuel`. The loop tests for the end
  page before the bound, so `OutOfFuel` comes only after `fuel` pages whose last
  one has links and, with a sound cache, does not have the end page as its best
  link.
- Racer.WikiRacer.FindWikiLadder proves greediness relative to the end page of
  the current search. The source's static cache survives from one search to the
  next even when the end page differs. A cache left by another end page is not
  sound, and the ladder is then not proved greedy.
- Scraper.ScrapeFound states soundness: every link found is quoted in the input.
  Completeness is not stated, i.e. that every quoted link whose `href="/wiki/`
  the loop reaches is found.

## Findings

| source | as written | input that shows it | evidently intended | confidence | as-written member | corrected member |
|---|---|---|---|---|---|---|
| src/MaxPQ.java:133 | `right >= index` guards the swap with the right child | heap a9, b3, c5, d1, e2, then `dequeue` | swap with the right child when it exists (`right <= index`) and ranks first | high, not executed | AsWritten.RightChildSkipped | PQ.MaxPQ.DequeueBubble |
| src/MaxPQ.java:127 | the children are compared by priority only | heap a9, c5, b5, z1, then `dequeue` | compare the children by the full ranking, so that b5 wins over c5 | high, not executed | AsWritten.TieIgnoresNames | PQ.MaxPQ.DequeueBubble |
| src/MaxPQ.java:121-124 | `!compares(...)` makes the swap guard true whenever priorities differ | heap a9, b3, c2, then `changePriority("a", 5)` | swap only when a child outranks the centre | high, not executed | AsWritten.GuardSwapsWinner | PQ.MaxPQ.DequeueBubble |
| src/MaxPQ.java:122 | `queue[right]` is read without checking `right <= index` | heap a5, b3 in a new queue, then `changePriority("a", 3)` | read the right child only when it exists | high, not executed | AsWritten.NullRightChild | PQ.MaxPQ.DequeueBubble |
