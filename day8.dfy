/**
 * Day 8 (src/day_8.rs): junction boxes joined into circuits in order of
 * distance. Every unordered pair of boxes goes into a min-heap keyed by
 * `(distance, (p1, p2))`. Part 1 links the closest pairs into an adjacency
 * map and lists its circuits by breadth-first search; part 2 merges a vector
 * of point sets pair by pair until one set holds every box.
 */
module Day8 {
  import opened Wrappers
  import Sorting
  import Pairs
  import Sets
  import opened Point3D

  /** One heap entry, `(distance, (p1, p2))`. */
  datatype Entry = Entry(dist: nat, p1: Point, p2: Point)

  /** The derived tuple order: distance, then p1, then p2 (points by x, y, z). */
  predicate EntryLe(a: Entry, b: Entry)
  {
    a.dist < b.dist ||
    (a.dist == b.dist && (
      (LessEq(a.p1, b.p1) && a.p1 != b.p1) ||
      (a.p1 == b.p1 && LessEq(a.p2, b.p2))))
  }

  lemma EntryLeIsTotalOrder()
    ensures Sorting.TotalOrder(EntryLe)
  {
    LessEqIsTotalOrder();
  }

  function EntryFor(boxes: seq<Point>, a: nat, b: nat): Entry
    requires a < |boxes| && b < |boxes|
  {
    Entry(Distance(boxes[a], boxes[b]), boxes[a], boxes[b])
  }

  /** `distance_pairs` before the heap: one entry per index pair a < b. */
  function DistancePairs(boxes: seq<Point>): (r: seq<Entry>)
    ensures |r| == |boxes| * (|boxes| - 1) / 2
    ensures forall a, b :: 0 <= a < b < |boxes| ==> EntryFor(boxes, a, b) in r
    ensures forall k :: 0 <= k < |r| ==>
      Pairs.IndexPairs(|boxes|)[k].0 < Pairs.IndexPairs(|boxes|)[k].1 < |boxes| &&
      r[k] == EntryFor(boxes, Pairs.IndexPairs(|boxes|)[k].0, Pairs.IndexPairs(|boxes|)[k].1)
  {
    var ps := Pairs.IndexPairs(|boxes|);
    var r := seq(|ps|, k requires 0 <= k < |ps| => EntryFor(boxes, ps[k].0, ps[k].1));
    assert forall a, b :: 0 <= a < b < |boxes| ==> EntryFor(boxes, a, b) in r by {
      forall a, b | 0 <= a < b < |boxes| ensures EntryFor(boxes, a, b) in r {
        var k :| 0 <= k < |ps| && ps[k] == (a, b);
        assert r[k] == EntryFor(boxes, a, b);
      }
    }
    r
  }

  /** The order in which the min-heap of `distance_pairs` hands out its entries. */
  function HeapOrder(boxes: seq<Point>): (r: seq<Entry>)
    ensures Sorting.Sorted(r, EntryLe)
    ensures multiset(r) == multiset(DistancePairs(boxes))
  {
    EntryLeIsTotalOrder();
    Sorting.SortBy(DistancePairs(boxes), EntryLe)
  }

  /**
   * Any way of popping the heap empty yields HeapOrder: each pop takes the
   * least entry left, and the entry order is total.
   */
  lemma HeapOrderIsForced(boxes: seq<Point>, popped: seq<Entry>)
    requires Sorting.Sorted(popped, EntryLe)
    requires multiset(popped) == multiset(DistancePairs(boxes))
    ensures popped == HeapOrder(boxes)
  {
    EntryLeIsTotalOrder();
    Sorting.SortedUnique(popped, HeapOrder(boxes), EntryLe);
  }

  /** Entries come out by nondecreasing distance. */
  lemma HeapOrderByDistance(boxes: seq<Point>, i: nat, j: nat)
    requires i <= j < |HeapOrder(boxes)|
    ensures HeapOrder(boxes)[i].dist <= HeapOrder(boxes)[j].dist
  {
    var r := HeapOrder(boxes);
    if i < j {
      assert EntryLe(r[i], r[j]);
    }
  }

  // ---------------------------------------------------------------------
  // Part 1: the adjacency map

  type Adjacency = map<Point, set<Point>>

  /** `entry(p).or_default()` read without inserting. */
  function Get(m: Adjacency, p: Point): set<Point>
  {
    if p in m then m[p] else {}
  }

  ghost predicate Symmetric(m: Adjacency)
  {
    forall a, b :: b in Get(m, a) ==> a in Get(m, b)
  }

  /**
   * The body of part 1's loop for one popped pair: `entry(start).or_default()`
   * is created, and unless `end` is already there both directions are linked.
   * The flag says whether the connection counter goes up.
   */
  function Link(m: Adjacency, start: Point, end: Point): (r: (Adjacency, bool))
    ensures r.1 <==> end !in Get(m, start)
    ensures !r.1 ==> r.0 == m
    ensures r.1 ==> r.0.Keys == m.Keys + {start, end}
    ensures r.1 ==> Get(r.0, start) == Get(m, start) + {end} && Get(r.0, end) == Get(m, end) + {start}
    ensures forall p :: p != start && p != end ==> Get(r.0, p) == Get(m, p)
    ensures Symmetric(m) ==> Symmetric(r.0)
  {
    var m1 := m[start := Get(m, start)];
    if end in m1[start] then
      assert m1 == m;
      (m1, false)
    else
      var m2 := m1[end := Get(m1, end) + {start}];
      var m3 := m2[start := Get(m2, start) + {end}];
      (m3, true)
  }

  /** The endpoints of a run of entries. */
  function Endpoints(es: seq<Entry>): set<Point>
  {
    if es == [] then {} else Endpoints(es[..|es| - 1]) + {es[|es| - 1].p1, es[|es| - 1].p2}
  }

  /** Map and connection counter after running Link over `es` in order. */
  function Linked(es: seq<Entry>): (r: (Adjacency, nat))
    ensures Symmetric(r.0)
    ensures r.0.Keys == Endpoints(es)
    ensures r.1 <= |es|
  {
    if es == [] then (map[], 0)
    else
      var (m, count) := Linked(es[..|es| - 1]);
      var last := es[|es| - 1];
      var (m', linked) := Link(m, last.p1, last.p2);
      assert !linked ==> last.p1 in m && last.p2 in m by {
        if !linked {
          assert last.p2 in Get(m, last.p1);
          assert last.p1 in Get(m, last.p2);
        }
      }
      (m', if linked then count + 1 else count)
  }

  /** Part 1's loop stops after `popped` entries. */
  ghost predicate StopsAt(order: seq<Entry>, limit: nat, popped: nat)
  {
    && popped <= |order|
    && (forall k :: 1 <= k < popped ==> Linked(order[..k]).1 != limit)
    && (popped == |order| || (popped >= 1 && Linked(order[..popped]).1 == limit))
  }

  /**
   * The `while let Some(..) = heap.pop()` loop of part 1: link each pair,
   * count new links, and stop right after the count equals `limit`.
   */
  method Connect(order: seq<Entry>, limit: nat) returns (m: Adjacency, connections: nat, popped: nat)
    ensures StopsAt(order, limit, popped)
    ensures (m, connections) == Linked(order[..popped])
    ensures connections <= popped
  {
    m, connections, popped := map[], 0, 0;
    while popped < |order|
      invariant popped <= |order|
      invariant (m, connections) == Linked(order[..popped])
      invariant NeverReached(order, popped, limit)
    {
      m, connections := LinkStep(order, popped, m, connections);
      popped := popped + 1;
      if connections == limit {
        NeverReachedBefore(order, popped - 1, limit);
        return;
      }
    }
    NeverReachedBefore(order, popped, limit);
  }

  /** The counter equals `limit` after none of the first `i` entries. */
  ghost predicate NeverReached(order: seq<Entry>, i: nat, limit: nat)
    requires i <= |order|
  {
    i == 0 || (NeverReached(order, i - 1, limit) && Linked(order[..i]).1 != limit)
  }

  lemma {:induction false} NeverReachedBefore(order: seq<Entry>, i: nat, limit: nat)
    requires i <= |order| && NeverReached(order, i, limit)
    ensures forall k :: 1 <= k <= i ==> Linked(order[..k]).1 != limit
  {
    if i > 0 {
      NeverReachedBefore(order, i - 1, limit);
    }
  }

  /**
   * One pass of part 1's loop body on the pair `order[popped]`: link both
   * directions unless `end` is already a neighbour of `start`.
   */
  method LinkStep(order: seq<Entry>, popped: nat, m0: Adjacency, count: nat) returns (m: Adjacency, connections: nat)
    requires popped < |order| && (m0, count) == Linked(order[..popped])
    ensures (m, connections) == Linked(order[..popped + 1])
  {
    var e := order[popped];
    assert order[..popped + 1][..popped] == order[..popped];
    m, connections := m0, count;
    m := m[e.p1 := Get(m, e.p1)];
    if e.p2 !in m[e.p1] {
      m := m[e.p2 := Get(m, e.p2) + {e.p1}];
      m := m[e.p1 := Get(m, e.p1) + {e.p2}];
      connections := connections + 1;
    }
  }

  // ---------------------------------------------------------------------
  // Circuits: `generate_connections`

  /** Every point of some set in `cs`. */
  function Union(cs: seq<set<Point>>): set<Point>
  {
    set i, p | 0 <= i < |cs| && p in cs[i] :: p
  }

  ghost predicate Disjoint(cs: seq<set<Point>>)
  {
    forall i, j :: 0 <= i < j < |cs| ==> cs[i] !! cs[j]
  }

  ghost predicate NonEmpty(cs: seq<set<Point>>)
  {
    forall i :: 0 <= i < |cs| ==> cs[i] != {}
  }

  /** No edge of `m` leaves `s`. */
  ghost predicate Closed(m: Adjacency, s: set<Point>)
  {
    forall p, q :: p in s && q in Get(m, p) ==> q in s
  }

  /** No non-empty closed set smaller than `c` lies inside it: `c` is all of one piece. */
  ghost predicate Connected(m: Adjacency, c: set<Point>)
  {
    forall s :: s != {} && s <= c && Closed(m, s) ==> s == c
  }

  /**
   * The circuits split the map's keys into non-empty, disjoint, edge-closed
   * parts, each of one piece: the connected components of the map.
   */
  ghost predicate IsCircuitPartition(m: Adjacency, cs: seq<set<Point>>)
  {
    && NonEmpty(cs)
    && Disjoint(cs)
    && Union(cs) == m.Keys
    && (forall i :: 0 <= i < |cs| ==> Closed(m, cs[i]))
    && (forall i :: 0 <= i < |cs| ==> Connected(m, cs[i]))
  }

  /** Every closed set holding `start` holds all of `xs`: `xs` is reachable from `start`. */
  ghost predicate Reached(m: Adjacency, start: Point, xs: set<Point>)
  {
    forall s :: start in s && Closed(m, s) ==> xs <= s
  }

  /**
   * In a symmetric map, a closed set that is the least one holding one of
   * its points is of one piece: what a closed part leaves behind is closed too.
   */
  lemma LeastIsConnected(m: Adjacency, start: Point, c: set<Point>)
    requires Symmetric(m) && Closed(m, c) && start in c && Reached(m, start, c)
    ensures Connected(m, c)
  {
    forall s | s != {} && s <= c && Closed(m, s) ensures s == c {
      var rest := c - s;
      forall p, q | p in rest && q in Get(m, p) ensures q in rest {
        assert q in c && p in Get(m, q);
      }
      var x :| x in s;
      assert x in c && x !in rest;
      assert Closed(m, rest) && (start in rest ==> c <= rest);
      assert start in s;
    }
  }

  /** The intersection of two closed sets is closed. */
  lemma IntersectionClosed(m: Adjacency, a: set<Point>, b: set<Point>)
    requires Closed(m, a) && Closed(m, b)
    ensures Closed(m, a * b)
  {
  }

  /**
   * The connected components are unique: two circuit partitions of the same
   * map hold the same circuits, whatever their order.
   */
  lemma PartitionUnique(m: Adjacency, cs: seq<set<Point>>, ds: seq<set<Point>>)
    requires IsCircuitPartition(m, cs) && IsCircuitPartition(m, ds)
    ensures forall i :: 0 <= i < |cs| ==> cs[i] in ds
  {
    forall i | 0 <= i < |cs| ensures cs[i] in ds {
      var c := cs[i];
      assert c != {};
      var p :| p in c;
      assert p in Union(ds);
      var j :| 0 <= j < |ds| && p in ds[j];
      var d := ds[j];
      IntersectionClosed(m, c, d);
      assert c * d != {} by { assert p in c * d; }
      assert Connected(m, c) && Connected(m, d);
      assert c * d == c && c * d == d;
    }
  }

  ghost predicate LargestFirst(cs: seq<set<Point>>)
  {
    forall i, j :: 0 <= i < j < |cs| ==> |cs[i]| >= |cs[j]|
  }

  /** Disjoint non-empty sets are distinct values. */
  lemma DisjointNonEmptyNoDuplicates(cs: seq<set<Point>>)
    requires NonEmpty(cs) && Disjoint(cs)
    ensures Sorting.NoDuplicates(cs)
  {
    forall i, j | 0 <= i < j < |cs| ensures cs[i] != cs[j] {
      assert cs[i] != {};
      var p :| p in cs[i];
    }
  }

  /** Reordering a partition leaves a partition of the same keys. */
  lemma PermutedPartition(m: Adjacency, cs: seq<set<Point>>, r: seq<set<Point>>)
    requires IsCircuitPartition(m, cs) && multiset(r) == multiset(cs)
    ensures IsCircuitPartition(m, r)
  {
    DisjointNonEmptyNoDuplicates(cs);
    Sorting.PermutationKeepsNoDuplicates(cs, r);
    assert forall i :: 0 <= i < |r| ==> exists k :: 0 <= k < |cs| && cs[k] == r[i] by {
      forall i | 0 <= i < |r| ensures exists k :: 0 <= k < |cs| && cs[k] == r[i] {
        assert r[i] in multiset(cs);
      }
    }
    forall i, j | 0 <= i < j < |r| ensures r[i] !! r[j] {
      var a :| 0 <= a < |cs| && cs[a] == r[i];
      var b :| 0 <= b < |cs| && cs[b] == r[j];
      assert a != b;
    }
    forall p | p in Union(cs) ensures p in Union(r) {
      var k :| 0 <= k < |cs| && p in cs[k];
      assert cs[k] in multiset(r);
      var i :| 0 <= i < |r| && r[i] == cs[k];
    }
    forall i | 0 <= i < |r| ensures Closed(m, r[i]) && Connected(m, r[i]) {
      var k :| 0 <= k < |cs| && cs[k] == r[i];
    }
  }

  /** A neighbour of a point outside a closed set is outside it too. */
  lemma NeighborOutsideClosed(m: Adjacency, s: set<Point>, x: Point, n: Point)
    requires Symmetric(m) && Closed(m, s)
    requires x !in s && n in Get(m, x)
    ensures n !in s
  {
    assert x in Get(m, n);
  }

  /** A union of closed sets is closed. */
  lemma UnionClosed(m: Adjacency, cs: seq<set<Point>>)
    requires forall j :: 0 <= j < |cs| ==> Closed(m, cs[j])
    ensures Closed(m, Union(cs))
  {
    forall p, q | p in Union(cs) && q in Get(m, p) ensures q in Union(cs) {
      var j :| 0 <= j < |cs| && p in cs[j];
      assert q in cs[j];
    }
  }

  lemma UnionAppend(cs: seq<set<Point>>, c: set<Point>)
    ensures Union(cs + [c]) == Union(cs) + c
  {
    var both := cs + [c];
    forall p | p in Union(both) ensures p in Union(cs) + c {
      var i :| 0 <= i < |both| && p in both[i];
      if i < |cs| { assert p in cs[i]; }
    }
    forall p | p in Union(cs) ensures p in Union(both) {
      var i :| 0 <= i < |cs| && p in cs[i];
      assert both[i] == cs[i];
    }
    assert both[|cs|] == c;
  }

  /** `for neighbor in neighbors { chain_queue.push_back(neighbor) }`, in some order. */
  method PushAll(queue: seq<Point>, items: set<Point>) returns (r: seq<Point>)
    ensures |r| == |queue| + |items| && r[..|queue|] == queue
    ensures forall n :: n in items ==> n in r
    ensures forall q :: q in r ==> q in queue || q in items
  {
    r := queue;
    var rest := items;
    while rest != {}
      invariant rest <= items
      invariant |r| == |queue| + |items| - |rest| && r[..|queue|] == queue
      invariant forall n :: n in items - rest ==> n in r
      invariant forall q :: q in r ==> q in queue || q in items - rest
      decreases |rest|
    {
      var n :| n in rest;
      r := r + [n];
      rest := rest - {n};
    }
  }

  /** Every edge leaving `chain` ends in `chain` or is still queued. */
  ghost predicate Frontier(m: Adjacency, chain: set<Point>, queue: seq<Point>)
  {
    forall v, n :: v in chain && n in Get(m, v) ==> n in chain || n in queue
  }

  /** Popping a box that is already in the chain keeps the frontier. */
  lemma FrontierPopSeen(m: Adjacency, chain: set<Point>, box: Point, rest: seq<Point>)
    requires Frontier(m, chain, [box] + rest) && box in chain
    ensures Frontier(m, chain, rest)
  {
  }

  /** Popping a box that is already seen keeps the chain search's invariant. */
  lemma ChainPopSeen(m: Adjacency, seen: set<Point>, chain: set<Point>, seenAfter: set<Point>, queue: seq<Point>)
    requires queue != [] && ChainInvariant(m, seen, chain, seenAfter, queue) && queue[0] in seenAfter
    ensures ChainInvariant(m, seen, chain, seenAfter, queue[1..])
  {
    assert queue == [queue[0]] + queue[1..];
    FrontierPopSeen(m, chain, queue[0], queue[1..]);
  }

  /** With nothing left in the queue, the chain is closed. */
  lemma ChainDone(m: Adjacency, seen: set<Point>, chain: set<Point>, seenAfter: set<Point>)
    requires ChainInvariant(m, seen, chain, seenAfter, [])
    ensures Closed(m, chain)
  {
  }

  /** Visiting a popped box and queueing its neighbours keeps the frontier. */
  lemma FrontierPopVisit(m: Adjacency, chain: set<Point>, box: Point, rest: seq<Point>, queue: seq<Point>)
    requires Frontier(m, chain, [box] + rest)
    requires |rest| <= |queue| && queue[..|rest|] == rest
    requires forall n :: n in Get(m, box) ==> n in queue
    ensures Frontier(m, chain + {box}, queue)
  {
    forall v, n | v in chain + {box} && n in Get(m, v) ensures n in chain + {box} || n in queue {
      if v != box && n !in chain && n != box {
        assert n in rest;
        var i :| 0 <= i < |rest| && rest[i] == n;
        assert queue[i] == n;
      }
    }
  }

  /** The chain search's loop invariant. */
  ghost predicate ChainInvariant(m: Adjacency, seen: set<Point>, chain: set<Point>, seenAfter: set<Point>, queue: seq<Point>)
  {
    && seenAfter == seen + chain && seenAfter <= m.Keys
    && chain !! seen
    && (forall q :: q in queue ==> q in m.Keys && q !in seen)
    && Frontier(m, chain, queue)
  }

  /** Everything in the chain or the queue is reachable from the start. */
  ghost predicate ChainReached(m: Adjacency, start: Point, chain: set<Point>, queue: seq<Point>)
  {
    Reached(m, start, chain) && Reached(m, start, set q | q in queue)
  }

  /** Popping a box keeps the rest of the queue reachable. */
  lemma ReachedPop(m: Adjacency, start: Point, chain: set<Point>, queue: seq<Point>)
    requires queue != [] && ChainReached(m, start, chain, queue)
    ensures Reached(m, start, {queue[0]}) && ChainReached(m, start, chain, queue[1..])
  {
    forall s | start in s && Closed(m, s) ensures (set q | q in queue[1..]) <= s {
      assert (set q | q in queue) <= s;
      forall q | q in queue[1..] ensures q in s {
        assert q in queue;
      }
    }
    assert queue[0] in (set q | q in queue);
  }

  /** Visiting a reachable box and queueing its neighbours keeps everything reachable. */
  lemma ReachedVisit(m: Adjacency, start: Point, chain: set<Point>, box: Point, rest: seq<Point>, queue: seq<Point>)
    requires Reached(m, start, {box}) && ChainReached(m, start, chain, rest)
    requires forall q :: q in queue ==> q in rest || q in Get(m, box)
    ensures ChainReached(m, start, chain + {box}, queue)
  {
    forall s | start in s && Closed(m, s) ensures chain + {box} <= s && (set q | q in queue) <= s {
      assert box in s;
      forall q | q in queue ensures q in s {
        if q in rest {
          assert q in (set x | x in rest);
        }
      }
    }
  }

  /** Adds a box popped from the chain queue and not yet seen, and queues its neighbours. */
  method Visit(m: Adjacency, seen: set<Point>, chain: set<Point>, seenAfter: set<Point>, popped: seq<Point>)
    returns (chain': set<Point>, seenAfter': set<Point>, queue: seq<Point>)
    requires Symmetric(m) && Closed(m, seen)
    requires popped != [] && ChainInvariant(m, seen, chain, seenAfter, popped)
    requires popped[0] !in seenAfter
    ensures ChainInvariant(m, seen, chain', seenAfter', queue)
    ensures forall q :: q in queue ==> q in popped[1..] || q in Get(m, popped[0])
    ensures chain' == chain + {popped[0]}
    ensures |m.Keys - seenAfter'| < |m.Keys - seenAfter|
  {
    var box, rest := popped[0], popped[1..];
    assert popped == [box] + rest;
    assert box in m.Keys - seenAfter;
    seenAfter' := seenAfter + {box};
    assert m.Keys - seenAfter' < m.Keys - seenAfter by {
      assert box !in m.Keys - seenAfter';
    }
    var neighbors := Get(m, box);
    forall n | n in neighbors ensures n in m.Keys && n !in seen {
      NeighborOutsideClosed(m, seen, box, n);
      assert box in Get(m, n);
    }
    queue := PushAll(rest, neighbors);
    FrontierPopVisit(m, chain, box, rest, queue);
    chain' := chain + {box};
  }

  /**
   * The inner breadth-first search of `generate_connections`, from a key not
   * yet seen: it collects the chain of boxes reachable from it.
   */
  method Chain(m: Adjacency, chainStart: Point, seen: set<Point>) returns (chain: set<Point>, seenAfter: set<Point>)
    requires Symmetric(m) && Closed(m, seen) && seen <= m.Keys
    requires chainStart in m.Keys && chainStart !in seen
    ensures seenAfter == seen + chain && seenAfter <= m.Keys
    ensures chainStart in chain && chain !! seen
    ensures Closed(m, chain)
    ensures Reached(m, chainStart, chain)
    ensures Connected(m, chain)
  {
    var chainQueue := [chainStart];
    chain := {};
    seenAfter := seen;
    while chainQueue != []
      invariant ChainInvariant(m, seen, chain, seenAfter, chainQueue)
      invariant chain == {} ==> chainQueue == [chainStart]
      invariant chain != {} ==> chainStart in chain
      invariant ChainReached(m, chainStart, chain, chainQueue)
      decreases |m.Keys - seenAfter|, |chainQueue|
    {
      var junctionBox := chainQueue[0];
      ReachedPop(m, chainStart, chain, chainQueue);
      if junctionBox in seenAfter {
        ChainPopSeen(m, seen, chain, seenAfter, chainQueue);
        chainQueue := chainQueue[1..];
      } else {
        var popped := chainQueue;
        chain, seenAfter, chainQueue := Visit(m, seen, chain, seenAfter, popped);
        ReachedVisit(m, chainStart, chain - {junctionBox} , junctionBox, popped[1..], chainQueue);
      }
    }
    ChainDone(m, seen, chain, seenAfter);
    LeastIsConnected(m, chainStart, chain);
  }

  /** The circuits found so far: disjoint, closed and connected, covering `seen`. */
  ghost predicate FoundSoFar(m: Adjacency, found: seq<set<Point>>, seen: set<Point>)
  {
    && seen == Union(found)
    && NonEmpty(found) && Disjoint(found)
    && (forall j :: 0 <= j < |found| ==> Closed(m, found[j]))
    && (forall j :: 0 <= j < |found| ==> Connected(m, found[j]))
  }

  /** A new closed, connected chain outside `seen` extends the circuits found. */
  lemma FoundMore(m: Adjacency, found: seq<set<Point>>, seen: set<Point>, chain: set<Point>)
    requires FoundSoFar(m, found, seen)
    requires chain != {} && chain !! seen && Closed(m, chain) && Connected(m, chain)
    ensures FoundSoFar(m, found + [chain], seen + chain)
  {
    UnionAppend(found, chain);
    var more := found + [chain];
    forall i, j | 0 <= i < j < |more| ensures more[i] !! more[j] {
      if j == |found| {
        assert more[i] <= Union(found);
      }
    }
  }

  /**
   * `generate_connections`: breadth-first search from every key not yet seen;
   * each search collects one circuit. The circuits are then sorted by size,
   * largest first (`sort_by_key(len)` followed by `reverse`).
   */
  method GenerateConnections(m: Adjacency) returns (circuits: seq<set<Point>>)
    requires Symmetric(m)
    ensures IsCircuitPartition(m, circuits)
    ensures LargestFirst(circuits)
  {
    var queue := m.Keys;
    var seen: set<Point> := {};
    var found: seq<set<Point>> := [];
    while queue != {}
      invariant queue <= m.Keys && seen <= m.Keys
      invariant m.Keys - queue <= seen
      invariant FoundSoFar(m, found, seen)
      decreases |queue|
    {
      var chainStart :| chainStart in queue;
      queue := queue - {chainStart};
      if chainStart in seen {
        continue;
      }
      UnionClosed(m, found);
      var chain, seenAfter := Chain(m, chainStart, seen);
      FoundMore(m, found, seen, chain);
      found, seen := found + [chain], seenAfter;
    }
    var bySize := (a: set<Point>, b: set<Point>) => |a| >= |b|;
    assert Sorting.TotalPreorder(bySize);
    circuits := Sorting.SortBy(found, bySize);
    PermutedPartition(m, found, circuits);
  }

  // ---------------------------------------------------------------------
  // Part 1 as a whole

  /** `.map(HashSet::len).product()` over a run of circuits. */
  function SizeProduct(cs: seq<set<Point>>): (r: nat)
    ensures cs == [] ==> r == 1
    ensures NonEmpty(cs) ==> r >= 1
  {
    if cs == [] then 1
    else
      var r := |cs[0]| * SizeProduct(cs[1..]);
      assert NonEmpty(cs) ==> NonEmpty(cs[1..]) && |cs[0]| >= 1;
      r
  }

  /** `.take(3)`. */
  function TakeThree(cs: seq<set<Point>>): (r: seq<set<Point>>)
    ensures |r| == if |cs| < 3 then |cs| else 3
    ensures r == cs[..|r|]
  {
    if |cs| < 3 then cs else cs[..3]
  }

  /**
   * Part 1: pop the heap into the adjacency map until `limit` new links have
   * been made, split the map into circuits and multiply the sizes of the
   * three largest (fewer if there are fewer circuits).
   */
  method Part1(boxes: seq<Point>, limit: nat) returns (product: nat, ghost circuits: seq<set<Point>>, ghost popped: nat)
    ensures StopsAt(HeapOrder(boxes), limit, popped)
    ensures IsCircuitPartition(Linked(HeapOrder(boxes)[..popped]).0, circuits)
    ensures LargestFirst(circuits)
    ensures product == SizeProduct(TakeThree(circuits)) && product >= 1
  {
    var order := HeapOrder(boxes);
    var m, connections, stoppedAfter := Connect(order, limit);
    popped := stoppedAfter;
    var found := GenerateConnections(m);
    circuits := found;
    var top := TakeThree(found);
    assert NonEmpty(top);
    product := SizeProduct(top);
  }

  /**
   * With the default `L1 = 0` the check `connections == L1` follows the
   * increment, and the first popped pair always makes a new link, so the
   * loop never breaks: every pair is linked.
   */
  lemma {:induction false} ZeroLimitLinksEverything(order: seq<Entry>, popped: nat)
    requires StopsAt(order, 0, popped)
    ensures popped == |order|
  {
    if popped < |order| {
      FirstLinkCounts(order[..popped]);
    }
  }

  /** After at least one pair the counter is at least one. */
  lemma {:induction false} FirstLinkCounts(es: seq<Entry>)
    requires es != []
    ensures Linked(es).1 >= 1
  {
    if |es| > 1 {
      FirstLinkCounts(es[..|es| - 1]);
    }
  }

  // ---------------------------------------------------------------------
  // Part 2: merging a vector of point sets

  /** `connections.iter().position(|chain| chain.contains(&p))`. */
  function Position(cs: seq<set<Point>>, p: Point): (r: Option<nat>)
    ensures r.Some? ==> r.value < |cs| && p in cs[r.value]
  {
    if cs == [] then None
    else if p in cs[0] then Some(0)
    else match Position(cs[1..], p)
      case None => None
      case Some(i) => Some(i + 1)
  }

  /** `position` finds the first set holding `p`, and None when no set holds it. */
  lemma {:induction false} PositionIsFirst(cs: seq<set<Point>>, p: Point)
    ensures Position(cs, p).None? <==> forall i :: 0 <= i < |cs| ==> p !in cs[i]
    ensures Position(cs, p).Some? ==> forall i :: 0 <= i < Position(cs, p).value ==> p !in cs[i]
  {
    if cs != [] && p !in cs[0] {
      PositionIsFirst(cs[1..], p);
      assert forall i :: 1 <= i < |cs| ==> cs[i] == cs[1..][i - 1];
    }
  }

  /** `Vec::remove(i)`, keeping only the remaining vector. */
  function Remove(cs: seq<set<Point>>, i: nat): (r: seq<set<Point>>)
    requires i < |cs|
    ensures |r| == |cs| - 1
  {
    cs[..i] + cs[i + 1..]
  }

  /** `remove(i)` shifts the sets after `i` down by one. */
  lemma RemoveShifts(cs: seq<set<Point>>, i: nat)
    requires i < |cs|
    ensures forall j :: 0 <= j < i ==> Remove(cs, i)[j] == cs[j]
    ensures forall j :: i <= j < |cs| - 1 ==> Remove(cs, i)[j] == cs[j + 1]
  {
  }

  /**
   * One pass of part 2's loop body for the pair `(start, end)`: the new
   * vector and the index of the circuit that was touched, if any.
   */
  function Merge(cs: seq<set<Point>>, start: Point, end: Point): (r: (seq<set<Point>>, Option<nat>))
    ensures r.1.Some? ==> r.1.value < |r.0| && start in r.0[r.1.value] && end in r.0[r.1.value]
  {
    match (Position(cs, start), Position(cs, end))
    case (None, None) => (cs + [{start, end}], None)
    case (Some(l1), None) => (cs[l1 := cs[l1] + {end}], Some(l1))
    case (None, Some(l2)) => (cs[l2 := cs[l2] + {start}], Some(l2))
    case (Some(l1), Some(l2)) =>
      if l1 == l2 then (cs, None)
      else
        var addTo := if l1 < l2 then l1 else l2;
        var removeFrom := if l1 < l2 then l2 else l1;
        var rest := Remove(cs, removeFrom);
        (rest[addTo := rest[addTo] + cs[removeFrom]], Some(addTo))
  }

  /** In disjoint sets a point lies in one set only. */
  lemma InOneSet(cs: seq<set<Point>>, a: nat, b: nat, p: Point)
    requires Disjoint(cs) && a < |cs| && b < |cs| && p in cs[a] && p in cs[b]
    ensures a == b
  {
  }

  /** What one pass of the loop body does to the vector, case by case. */
  lemma MergeCases(cs: seq<set<Point>>, start: Point, end: Point)
    ensures var r := Merge(cs, start, end);
      // a pair already inside one circuit changes nothing
      && ((exists i :: 0 <= i < |cs| && start in cs[i] && end in cs[i]) && Disjoint(cs) ==> r == (cs, None))
      // neither end known: a new two-point circuit at the back
      && (Position(cs, start).None? && Position(cs, end).None? ==> r == (cs + [{start, end}], None))
      // two different circuits: the lower index absorbs the one removed from the higher
      && var (s, e) := (Position(cs, start), Position(cs, end));
         s.Some? && e.Some? && s != e ==>
           var (lo, hi) := if s.value < e.value then (s.value, e.value) else (e.value, s.value);
           && r.1 == Some(lo) && |r.0| == |cs| - 1
           && r.0[lo] == cs[lo] + cs[hi]
           && (forall j :: 0 <= j < hi && j != lo ==> r.0[j] == cs[j])
           && (forall j :: hi <= j < |r.0| ==> r.0[j] == cs[j + 1])
  {
    var s, e := Position(cs, start), Position(cs, end);
    PositionIsFirst(cs, start);
    PositionIsFirst(cs, end);
    if s.Some? && e.Some? && s != e {
      RemoveShifts(cs, if s.value < e.value then e.value else s.value);
    }
    if exists i :: 0 <= i < |cs| && start in cs[i] && end in cs[i] {
      var i :| 0 <= i < |cs| && start in cs[i] && end in cs[i];
      if Disjoint(cs) {
        InOneSet(cs, s.value, i, start);
        InOneSet(cs, e.value, i, end);
      }
    }
  }

  /** The vector of circuits after the pairs `es`. */
  function Circuits(es: seq<Entry>): seq<set<Point>>
  {
    if es == [] then []
    else Merge(Circuits(es[..|es| - 1]), es[|es| - 1].p1, es[|es| - 1].p2).0
  }

  /** The pair `order[k]` leaves a touched circuit holding `n` boxes. */
  ghost predicate Spans(order: seq<Entry>, k: nat, n: nat)
    requires k < |order|
  {
    var r := Merge(Circuits(order[..k]), order[k].p1, order[k].p2);
    r.1.Some? && |r.0[r.1.value]| == n
  }

  /** `usize::try_from(start.x * end.x).unwrap_or(0)`. */
  function Answer(e: Entry): (r: nat)
    ensures e.p1.x * e.p2.x >= 0 ==> r == e.p1.x * e.p2.x
    ensures e.p1.x * e.p2.x < 0 ==> r == 0
  {
    if e.p1.x * e.p2.x < 0 then 0 else e.p1.x * e.p2.x
  }

  /**
   * Part 2: merge pair by pair, in heap order, and answer for the first
   * pair after which the circuit it touched holds every box; 0 if none does.
   */
  method Part2(boxes: seq<Point>) returns (answer: nat, ghost stop: nat)
    ensures stop <= |HeapOrder(boxes)|
    ensures forall k :: 0 <= k < stop ==> !Spans(HeapOrder(boxes), k, |boxes|)
    ensures stop < |HeapOrder(boxes)| ==>
      Spans(HeapOrder(boxes), stop, |boxes|) && answer == Answer(HeapOrder(boxes)[stop])
    ensures stop == |HeapOrder(boxes)| ==> answer == 0
    ensures (forall k :: 0 <= k < |HeapOrder(boxes)| ==> !Spans(HeapOrder(boxes), k, |boxes|)) ==> answer == 0
    ensures answer != 0 ==> exists k :: 0 <= k < |HeapOrder(boxes)| && Spans(HeapOrder(boxes), k, |boxes|)
  {
    answer, stop := FirstSpanning(HeapOrder(boxes), |boxes|);
  }

  /**
   * The loop of part 2 over the pairs as the heap hands them out: the
   * answer of the first pair after which the circuit it touched holds `n`
   * boxes, or 0 when no pair does.
   */
  method FirstSpanning(order: seq<Entry>, n: nat) returns (answer: nat, ghost stop: nat)
    ensures stop <= |order|
    ensures forall k :: 0 <= k < stop ==> !Spans(order, k, n)
    ensures stop < |order| ==> Spans(order, stop, n) && answer == Answer(order[stop])
    ensures stop == |order| ==> answer == 0
    ensures (forall k :: 0 <= k < |order| ==> !Spans(order, k, n)) ==> answer == 0
    ensures answer != 0 ==> exists k :: 0 <= k < |order| && Spans(order, k, n)
  {
    var connections: seq<set<Point>> := [];
    var i := 0;
    while i < |order|
      invariant i <= |order|
      invariant connections == Circuits(order[..i])
      invariant NoneSpans(order, i, n)
    {
      var spans;
      connections, spans := Step(order, i, connections, n);
      if spans {
        answer, stop := Answer(order[i]), i;
        forall k | 0 <= k < i ensures !Spans(order, k, n) {
          NoneSpansBefore(order, i, n, k);
        }
        return;
      }
      i := i + 1;
    }
    answer, stop := 0, |order|;
    forall k | 0 <= k < i ensures !Spans(order, k, n) {
      NoneSpansBefore(order, i, n, k);
    }
  }

  /**
   * One pass of part 2's loop body on the pair `order[i]`: the vector
   * after it, and whether the circuit it touched now holds `n` boxes.
   */
  method Step(order: seq<Entry>, i: nat, cs: seq<set<Point>>, n: nat) returns (connections: seq<set<Point>>, spans: bool)
    requires i < |order| && cs == Circuits(order[..i])
    ensures connections == Circuits(order[..i + 1])
    ensures spans == Spans(order, i, n)
  {
    var circuit;
    connections, circuit := MergeInPlace(cs, order[i].p1, order[i].p2);
    CircuitsStep(order, i, cs, connections, circuit, n);
    spans := circuit.Some? && |connections[circuit.value]| == n;
  }

  /** None of the first `i` pairs spans. */
  ghost predicate NoneSpans(order: seq<Entry>, i: nat, n: nat)
    requires i <= |order|
  {
    i == 0 || (NoneSpans(order, i - 1, n) && !Spans(order, i - 1, n))
  }

  /** `NoneSpans` rules out each of the first `i` pairs. */
  lemma {:induction false} NoneSpansBefore(order: seq<Entry>, i: nat, n: nat, k: nat)
    requires k < i <= |order| && NoneSpans(order, i, n)
    ensures !Spans(order, k, n)
    decreases i
  {
    if k < i - 1 {
      NoneSpansBefore(order, i - 1, n, k);
    }
  }

  /** One pass of part 2's loop extends `Circuits` by the pair, and tells whether the pair spans. */
  lemma CircuitsStep(order: seq<Entry>, i: nat, before: seq<set<Point>>, after: seq<set<Point>>, circuit: Option<nat>, n: nat)
    requires i < |order| && before == Circuits(order[..i])
    requires (after, circuit) == Merge(before, order[i].p1, order[i].p2)
    ensures after == Circuits(order[..i + 1])
    ensures Spans(order, i, n) <==> circuit.Some? && |after[circuit.value]| == n
  {
    assert order[..i + 1][..i] == order[..i];
  }

  /**
   * The `match` of part 2's loop body: the vector after the pair
   * `(start, end)` and the index of the circuit it touched, if any.
   */
  method MergeInPlace(cs: seq<set<Point>>, start: Point, end: Point) returns (connections: seq<set<Point>>, circuit: Option<nat>)
    ensures (connections, circuit) == Merge(cs, start, end)
  {
    connections := cs;
    var startIndex := Position(connections, start);
    var endIndex := Position(connections, end);
    match (startIndex, endIndex) {
      case (None, None) =>
        connections := connections + [{start, end}];
        circuit := None;
      case (Some(l1), None) =>
        connections := connections[l1 := connections[l1] + {end}];
        circuit := Some(l1);
      case (None, Some(l2)) =>
        connections := connections[l2 := connections[l2] + {start}];
        circuit := Some(l2);
      case (Some(l1), Some(l2)) =>
        if l1 == l2 {
          circuit := None;
        } else {
          var addTo := if l1 < l2 then l1 else l2;
          var removeFrom := if l1 < l2 then l2 else l1;
          var removed := connections[removeFrom];
          connections := Remove(connections, removeFrom);
          connections := connections[addTo := connections[addTo] + removed];
          circuit := Some(addTo);
        }
    }
  }

  /** Part 2's invariant is kept by every pair: disjoint sets covering the endpoints seen. */
  lemma MergeKeepsPartition(cs: seq<set<Point>>, start: Point, end: Point)
    requires Disjoint(cs)
    ensures Disjoint(Merge(cs, start, end).0)
    ensures Union(Merge(cs, start, end).0) == Union(cs) + {start, end}
  {
    var r := Merge(cs, start, end).0;
    var s, e := Position(cs, start), Position(cs, end);
    PositionIsFirst(cs, start);
    PositionIsFirst(cs, end);
    MergeCases(cs, start, end);
    if s.None? && e.None? {
      UnionAppend(cs, {start, end});
    } else if s.Some? && e.None? {
      UnionUpdate(cs, s.value, end);
    } else if s.None? && e.Some? {
      UnionUpdate(cs, e.value, start);
    } else if s != e {
      var lo, hi := if s.value < e.value then s.value else e.value, if s.value < e.value then e.value else s.value;
      UnionAbsorb(cs, lo, hi, r);
    }
  }

  /** Moving the set at `hi` into the one at `lo` and removing it keeps a partition of the same points. */
  lemma UnionAbsorb(cs: seq<set<Point>>, lo: nat, hi: nat, r: seq<set<Point>>)
    requires Disjoint(cs) && lo < hi < |cs|
    requires |r| == |cs| - 1 && r[lo] == cs[lo] + cs[hi]
    requires forall j :: 0 <= j < hi && j != lo ==> r[j] == cs[j]
    requires forall j :: hi <= j < |r| ==> r[j] == cs[j + 1]
    ensures Disjoint(r)
    ensures Union(r) == Union(cs)
  {
    forall i, j | 0 <= i < j < |r| ensures r[i] !! r[j] {
      var i' := if i < hi then i else i + 1;
      var j' := if j < hi then j else j + 1;
      if i == lo {
        assert r[j] == cs[j'] && j' != lo && j' != hi;
      } else if j == lo {
        assert r[i] == cs[i] && i < lo;
      } else {
        assert r[i] == cs[i'] && r[j] == cs[j'] && i' < j';
      }
    }
    forall p | p in Union(cs) ensures p in Union(r) {
      var k :| 0 <= k < |cs| && p in cs[k];
      if k == hi || k == lo {
        assert p in r[lo];
      } else if k < hi {
        assert r[k] == cs[k];
      } else {
        assert r[k - 1] == cs[k];
      }
    }
    forall p | p in Union(r) ensures p in Union(cs) {
      var k :| 0 <= k < |r| && p in r[k];
      if k == lo {
        assert p in cs[lo] || p in cs[hi];
      } else if k < hi {
        assert p in cs[k];
      } else {
        assert p in cs[k + 1];
      }
    }
  }

  /** Adding a point outside every set to one of the sets. */
  lemma UnionUpdate(cs: seq<set<Point>>, i: nat, p: Point)
    requires i < |cs| && Disjoint(cs)
    requires forall j :: 0 <= j < |cs| ==> p !in cs[j]
    ensures Disjoint(cs[i := cs[i] + {p}])
    ensures Union(cs[i := cs[i] + {p}]) == Union(cs) + {p}
  {
    var r := cs[i := cs[i] + {p}];
    forall q | q in Union(r) ensures q in Union(cs) + {p} {
      var k :| 0 <= k < |r| && q in r[k];
      if k != i || q != p { assert q in cs[k]; }
    }
    forall q | q in Union(cs) ensures q in Union(r) {
      var k :| 0 <= k < |cs| && q in cs[k];
      assert q in r[k];
    }
    assert p in r[i];
  }

  /** Every set has at least two boxes as long as no pair joins a box to itself. */
  lemma MergeKeepsPairs(cs: seq<set<Point>>, start: Point, end: Point)
    requires start != end
    requires forall i :: 0 <= i < |cs| ==> |cs[i]| >= 2
    ensures forall i :: 0 <= i < |Merge(cs, start, end).0| ==> |Merge(cs, start, end).0[i]| >= 2
  {
    var r := Merge(cs, start, end).0;
    var s, e := Position(cs, start), Position(cs, end);
    if s.None? && e.None? {
      assert |r[|cs|]| == |{start, end}| == 2;
    } else if s.Some? && e.Some? && s != e {
      var lo := if s.value < e.value then s.value else e.value;
      var hi := if s.value < e.value then e.value else s.value;
      forall i | 0 <= i < |r| ensures |r[i]| >= 2 {
        if i == lo {
          Sets.SubsetCard(cs[lo], r[lo]);
        } else if i < hi {
          assert r[i] == cs[i];
        } else {
          assert r[i] == cs[i + 1];
        }
      }
    } else if s.Some? && e.None? {
      Sets.SubsetCard(cs[s.value], r[s.value]);
    } else if s.None? && e.Some? {
      Sets.SubsetCard(cs[e.value], r[e.value]);
    }
  }

  /** Pairs that never join a box to itself. */
  ghost predicate ProperPairs(es: seq<Entry>)
  {
    forall k :: 0 <= k < |es| ==> es[k].p1 != es[k].p2
  }

  /**
   * After any prefix of pairs the circuits are pairwise disjoint and their
   * union is exactly the endpoints of the pairs processed; with proper pairs
   * every circuit has at least two boxes.
   */
  lemma {:induction false} CircuitsInvariant(es: seq<Entry>)
    ensures Disjoint(Circuits(es))
    ensures Union(Circuits(es)) == Endpoints(es)
    ensures ProperPairs(es) ==> forall i :: 0 <= i < |Circuits(es)| ==> |Circuits(es)[i]| >= 2
  {
    if es != [] {
      var init := es[..|es| - 1];
      var last := es[|es| - 1];
      CircuitsInvariant(init);
      MergeKeepsPartition(Circuits(init), last.p1, last.p2);
      if ProperPairs(es) {
        assert ProperPairs(init) by {
          forall k | 0 <= k < |init| ensures init[k].p1 != init[k].p2 {
            assert init[k] == es[k];
          }
        }
        MergeKeepsPairs(Circuits(init), last.p1, last.p2);
      }
    }
  }

  /** Distinct boxes give proper pairs in heap order. */
  lemma DistinctBoxesProperPairs(boxes: seq<Point>)
    requires Sorting.NoDuplicates(boxes)
    ensures ProperPairs(HeapOrder(boxes))
  {
    var order := HeapOrder(boxes);
    var ps := DistancePairs(boxes);
    forall k | 0 <= k < |order| ensures order[k].p1 != order[k].p2 {
      assert order[k] in multiset(ps);
      var j :| 0 <= j < |ps| && ps[j] == order[k];
      var ab := Pairs.IndexPairs(|boxes|)[j];
      assert boxes[ab.0] != boxes[ab.1];
    }
  }

  /** With at most one box there are no pairs, so part 2 answers 0. */
  lemma FewBoxesGiveZero(boxes: seq<Point>)
    requires |boxes| <= 1
    ensures HeapOrder(boxes) == []
  {
    assert |DistancePairs(boxes)| == 0;
    assert |multiset(HeapOrder(boxes))| == 0;
  }

  /**
   * With two distinct boxes the only pair makes a brand-new circuit, which
   * part 2 does not count as touched: no pair spans, and the answer is 0
   * although one circuit holds both boxes.
   */
  lemma TwoBoxesNeverSpan(boxes: seq<Point>)
    requires |boxes| == 2 && boxes[0] != boxes[1]
    ensures |HeapOrder(boxes)| == 1
    ensures !Spans(HeapOrder(boxes), 0, 2)
    ensures Circuits(HeapOrder(boxes)) == [{boxes[0], boxes[1]}]
  {
    var order := HeapOrder(boxes);
    assert |multiset(order)| == |multiset(DistancePairs(boxes))| == 1;
    assert order[..0] == [];
    assert order[0] in multiset(DistancePairs(boxes));
    assert DistancePairs(boxes)[0] == EntryFor(boxes, 0, 1);
    assert order == order[..0] + [order[0]];
  }
}
