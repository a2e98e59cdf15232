/**
 * Day 11 (src/day_11.rs): a server rack given as a map from each device to
 * the devices its outputs connect to. Part 1 walks the connections breadth
 * first from "you" and counts how many times "out" comes off the queue;
 * part 2 is not solved and returns 0.
 *
 * The walk is described by its log: every entry ever put on the queue, in
 * order. The queue is first in, first out, so the log is also the order in
 * which entries come off it, and at any moment the queue holds the log
 * minus the entries already taken.
 */
module Day11 {
  import opened Wrappers
  import opened Text
  import opened Sets

  type Device = string
  type Server = map<Device, seq<Device>>
  /** A queue entry: a device and the number of links walked to reach it. */
  type Entry = (Device, nat)

  const You: Device := "you"
  const Out: Device := "out"

  /**
   * The `filter`/`map` applied to a device's connections: those not yet
   * visited, in order, each one link further than the device.
   */
  function Unvisited(conns: seq<Device>, visited: set<Device>, cost: nat): (r: seq<Entry>)
    ensures |r| <= |conns|
  {
    if conns == [] then []
    else
      var head := if conns[0] in visited then [] else [(conns[0], cost + 1)];
      head + Unvisited(conns[1..], visited, cost)
  }

  /** The entries appended are exactly the unvisited connections, one link further. */
  lemma {:induction false} UnvisitedMembers(conns: seq<Device>, visited: set<Device>, cost: nat)
    ensures forall e :: e in Unvisited(conns, visited, cost) ==> e.0 in conns && e.0 !in visited && e.1 == cost + 1
    ensures forall c :: c in conns && c !in visited ==> (c, cost + 1) in Unvisited(conns, visited, cost)
  {
    if conns != [] {
      UnvisitedMembers(conns[1..], visited, cost);
      assert forall c :: c in conns ==> c == conns[0] || c in conns[1..];
    }
  }

  /**
   * The devices marked visited once the first `n` entries of `log` have
   * come off the queue: every one of them except "out", which is only
   * counted.
   */
  function Visited(log: seq<Entry>, n: nat): (r: set<Device>)
    requires n <= |log|
    ensures Out !in r
  {
    if n == 0 then {}
    else if log[n - 1].0 == Out then Visited(log, n - 1)
    else Visited(log, n - 1) + {log[n - 1].0}
  }

  /** The visited devices are exactly the devices of those entries other than "out". */
  lemma {:induction false} VisitedMembers(log: seq<Entry>, n: nat)
    requires n <= |log|
    ensures forall k :: 0 <= k < n && log[k].0 != Out ==> log[k].0 in Visited(log, n)
    ensures forall d :: d in Visited(log, n) ==> exists k :: 0 <= k < n && log[k].0 == d
  {
    if n > 0 {
      VisitedMembers(log, n - 1);
    }
  }

  /** Taking more entries off the queue never unmarks a device. */
  lemma {:induction false} VisitedGrows(log: seq<Entry>, m: nat, n: nat)
    requires m <= n <= |log|
    ensures Visited(log, m) <= Visited(log, n)
    decreases n
  {
    if m < n {
      VisitedGrows(log, m, n - 1);
    }
  }

  /** How many of the first `n` entries of `log` are "out". */
  function Outs(log: seq<Entry>, n: nat): (r: nat)
    requires n <= |log|
    ensures r <= n
  {
    if n == 0 then 0
    else if log[n - 1].0 == Out then Outs(log, n - 1) + 1
    else Outs(log, n - 1)
  }

  /** No "out" is counted exactly when none of those entries is "out". */
  lemma {:induction false} OutsNone(log: seq<Entry>, n: nat)
    requires n <= |log|
    ensures Outs(log, n) == 0 <==> forall k :: 0 <= k < n ==> log[k].0 != Out
  {
    if n > 0 {
      OutsNone(log, n - 1);
    }
  }

  /** Both depend on the first `m` entries only. */
  lemma {:induction false} VisitedPrefix(a: seq<Entry>, b: seq<Entry>, m: nat)
    requires m <= |a| && m <= |b| && a[..m] == b[..m]
    ensures Visited(a, m) == Visited(b, m) && Outs(a, m) == Outs(b, m)
  {
    if m > 0 {
      assert a[m - 1] == a[..m][m - 1] && b[m - 1] == b[..m][m - 1];
      assert a[..m - 1] == a[..m][..m - 1] && b[..m - 1] == b[..m][..m - 1];
      VisitedPrefix(a, b, m - 1);
    }
  }

  // ---------------------------------------------------------------------
  // The walk, as a log of queue entries

  /** Each of the first `n` entries is "out" or has an entry in the server (no lookup panics). */
  predicate Known(server: Server, log: seq<Entry>, n: nat)
  {
    n <= |log| && forall j :: 0 <= j < n ==> log[j].0 == Out || log[j].0 in server
  }

  /**
   * What taking entry `j` off the queue appends to it: the connections of
   * a device not visited once it is, one link further; nothing for "out"
   * (nor for a device the server lacks, where the walk panics instead).
   */
  function Children(server: Server, log: seq<Entry>, j: nat): seq<Entry>
  {
    if j < |log| && log[j].0 != Out && log[j].0 in server
    then Unvisited(server[log[j].0], Visited(log, j + 1), log[j].1)
    else []
  }

  /** The appends of the entries of `log`, entry by entry. */
  function Appends(server: Server, log: seq<Entry>): nat -> seq<Entry>
  {
    j => Children(server, log, j)
  }

  /** The batches `kids(0)`, ..., `kids(n - 1)` one after another. */
  function Flatten(kids: nat -> seq<Entry>, n: nat): seq<Entry>
  {
    if n == 0 then [] else Flatten(kids, n - 1) + kids(n - 1)
  }

  /** Everything the first `n` entries of `log` append to the queue, in order. */
  function Expansion(server: Server, log: seq<Entry>, n: nat): seq<Entry>
  {
    Flatten(Appends(server, log), n)
  }

  /**
   * `log` is what the queue has held after `n` entries came off it: the
   * start ("you", 0) and then whatever those `n` entries appended; each of
   * them was already on the queue when its turn came.
   */
  ghost predicate Expanded(server: Server, log: seq<Entry>, n: nat)
  {
    Grown(server, log, n) && InTurn(server, log, n)
  }

  /** `log` is the start followed by what its first `n` entries appended. */
  ghost predicate Grown(server: Server, log: seq<Entry>, n: nat)
  {
    Known(server, log, n) && log == [(You, 0)] + Expansion(server, log, n)
  }

  /** Each of the first `n` entries was on the queue before its turn. */
  ghost predicate InTurn(server: Server, log: seq<Entry>, n: nat)
  {
    forall j :: 0 <= j < n ==> j < 1 + |Expansion(server, log, j)|
  }

  /** A finished walk: every entry has come off the queue. */
  ghost predicate Traversal(server: Server, log: seq<Entry>)
  {
    Expanded(server, log, |log|)
  }

  /** The walk reaches entry `n`, a device with no entry in the server: the lookup panics. */
  ghost predicate Stuck(server: Server, log: seq<Entry>, n: nat)
  {
    Expanded(server, log, n) && n < |log| && log[n].0 != Out && log[n].0 !in server
  }

  /** A longer run of batches extends a shorter one. */
  lemma {:induction false} FlattenGrows(kids: nat -> seq<Entry>, m: nat, m2: nat)
    requires m <= m2
    ensures |Flatten(kids, m)| <= |Flatten(kids, m2)|
    ensures Flatten(kids, m2)[..|Flatten(kids, m)|] == Flatten(kids, m)
    decreases m2
  {
    if m < m2 {
      FlattenGrows(kids, m, m2 - 1);
    }
  }

  /** The batch that position `m` of a run of batches comes from. */
  lemma {:induction false} FlattenOrigin(kids: nat -> seq<Entry>, n: nat, m: nat) returns (j: nat)
    requires m < |Flatten(kids, n)|
    ensures j < n && |Flatten(kids, j)| <= m < |Flatten(kids, j + 1)|
    ensures Flatten(kids, n)[m] == kids(j)[m - |Flatten(kids, j)|]
    decreases n
  {
    if m < |Flatten(kids, n - 1)| {
      j := FlattenOrigin(kids, n - 1, m);
    } else {
      j := n - 1;
    }
  }

  /** Runs of equal batches are equal. */
  lemma {:induction false} FlattenSame(f: nat -> seq<Entry>, g: nat -> seq<Entry>, m: nat)
    requires forall j :: 0 <= j < m ==> f(j) == g(j)
    ensures Flatten(f, m) == Flatten(g, m)
    decreases m
  {
    if m > 0 {
      FlattenSame(f, g, m - 1);
    }
  }

  /** The expansion of the first `m` entries depends on those entries only. */
  lemma ExpansionPrefix(server: Server, a: seq<Entry>, b: seq<Entry>, m: nat)
    requires m <= |a| && m <= |b| && a[..m] == b[..m]
    ensures Expansion(server, a, m) == Expansion(server, b, m)
  {
    forall j | 0 <= j < m ensures Appends(server, a)(j) == Appends(server, b)(j) {
      assert a[j] == a[..m][j] == b[..m][j] == b[j];
      assert a[..j + 1] == a[..m][..j + 1] == b[..m][..j + 1] == b[..j + 1];
      VisitedPrefix(a, b, j + 1);
    }
    FlattenSame(Appends(server, a), Appends(server, b), m);
  }

  /** Taking entry `n` off the queue: the log grows by its children and the walk goes on. */
  lemma ExpandStep(server: Server, log: seq<Entry>, n: nat)
    requires Expanded(server, log, n) && n < |log|
    requires log[n].0 == Out || log[n].0 in server
    ensures Expanded(server, log + Children(server, log, n), n + 1)
  {
    var next := log + Children(server, log, n);
    ExpandLog(server, log, n);
    assert next[..|log|] == log;
    assert |log| == 1 + |Expansion(server, log, n)|;
    ExpandOrder(server, log, next, n);
  }

  /** The grown log is the start followed by the expansion of one more entry. */
  lemma ExpandLog(server: Server, log: seq<Entry>, n: nat)
    requires Grown(server, log, n) && n < |log|
    requires log[n].0 == Out || log[n].0 in server
    ensures Grown(server, log + Children(server, log, n), n + 1)
  {
    var kids := Children(server, log, n);
    var next := log + kids;
    var e := Expansion(server, log, n);
    assert forall j :: 0 <= j < n + 1 ==> next[j] == log[j];
    assert next[..n + 1] == log[..n + 1];
    ExpansionPrefix(server, log, next, n + 1);
    Associative([(You, 0)], e, kids);
    calc {
      next;
      ([(You, 0)] + e) + kids;
      [(You, 0)] + (e + kids);
      [(You, 0)] + Expansion(server, log, n + 1);
      [(You, 0)] + Expansion(server, next, n + 1);
    }
  }

  lemma Associative(x: seq<Entry>, y: seq<Entry>, z: seq<Entry>)
    ensures (x + y) + z == x + (y + z)
  {
  }

  /** Appending to the log keeps every earlier entry queued before its turn. */
  lemma ExpandOrder(server: Server, log: seq<Entry>, next: seq<Entry>, n: nat)
    requires InTurn(server, log, n) && n < 1 + |Expansion(server, log, n)|
    requires n < |log| <= |next| && next[..|log|] == log
    ensures InTurn(server, next, n + 1)
  {
    forall j | 0 <= j < n + 1 ensures j < 1 + |Expansion(server, next, j)| {
      assert next[..j] == log[..j];
      ExpansionPrefix(server, log, next, j);
    }
  }

  /** The entry that appended position `m` of the expansion: a device of the server. */
  lemma Origin(server: Server, log: seq<Entry>, n: nat, m: nat) returns (j: nat)
    requires m < |Expansion(server, log, n)|
    ensures j < n && j < |log| && log[j].0 != Out && log[j].0 in server
    ensures |Expansion(server, log, j)| <= m < |Expansion(server, log, j + 1)|
    ensures Expansion(server, log, n)[m] == Children(server, log, j)[m - |Expansion(server, log, j)|]
  {
    j := FlattenOrigin(Appends(server, log), n, m);
    assert Expansion(server, log, j + 1) == Expansion(server, log, j) + Children(server, log, j);
  }

  /**
   * Every entry after the start was appended by an earlier device (not
   * "out") that it is a connection of, while it was not yet visited, one
   * link further than that device.
   */
  lemma Parent(server: Server, log: seq<Entry>, n: nat, i: nat) returns (j: nat)
    requires Expanded(server, log, n) && 0 < i < |log|
    ensures j < i && j < n
    ensures log[j].0 != Out && log[j].0 in server
    ensures log[i].0 in server[log[j].0] && log[i].0 !in Visited(log, j + 1)
    ensures log[i].1 == log[j].1 + 1
  {
    assert log[i] == Expansion(server, log, n)[i - 1];
    j := Origin(server, log, n, i - 1);
    assert j < 1 + |Expansion(server, log, j)|;
    UnvisitedMembers(server[log[j].0], Visited(log, j + 1), log[j].1);
    assert log[i] in Children(server, log, j);
  }

  /** With no device connected to "out", a finished walk counts nothing. */
  lemma NoPathsWithoutOut(server: Server, log: seq<Entry>)
    requires Traversal(server, log)
    requires forall d :: d in server ==> Out !in server[d]
    ensures Outs(log, |log|) == 0
  {
    forall i | 0 <= i < |log| ensures log[i].0 != Out {
      if i > 0 {
        var j := Parent(server, log, |log|, i);
      }
    }
    OutsNone(log, |log|);
  }

  /** Two walks agree on every position both reach. */
  lemma {:induction false} Agree(server: Server, a: seq<Entry>, na: nat, b: seq<Entry>, nb: nat, k: nat)
    requires Expanded(server, a, na) && Grown(server, b, nb)
    requires k <= |a| && k <= |b|
    ensures a[..k] == b[..k]
    decreases k
  {
    if k > 0 {
      Agree(server, a, na, b, nb, k - 1);
      var i := k - 1;
      if i > 0 {
        assert a[i] == Expansion(server, a, na)[i - 1] && b[i] == Expansion(server, b, nb)[i - 1];
        AgreeStep(server, a, na, b, nb, i);
      }
      assert a[..k] == a[..i] + [a[i]] && b[..k] == b[..i] + [b[i]];
    }
  }

  /** Walks that agree before position `i` agree at it. */
  lemma AgreeStep(server: Server, a: seq<Entry>, na: nat, b: seq<Entry>, nb: nat, i: nat)
    requires InTurn(server, a, na)
    requires 0 < i <= |a| && i <= |b| && a[..i] == b[..i]
    requires i - 1 < |Expansion(server, a, na)| && i - 1 < |Expansion(server, b, nb)|
    ensures Expansion(server, a, na)[i - 1] == Expansion(server, b, nb)[i - 1]
  {
    var j := OriginInTurn(server, a, na, i - 1);
    ShorterPrefix(a, b, i, j + 1);
    SameAt(server, a, na, b, nb, j, i - 1);
  }

  /** In a walk whose entries came off the queue in turn, position `m` was appended by an entry at or before it. */
  lemma OriginInTurn(server: Server, log: seq<Entry>, n: nat, m: nat) returns (j: nat)
    requires InTurn(server, log, n) && m < |Expansion(server, log, n)|
    ensures j < n && j <= m && j < |log| && m < |Expansion(server, log, j + 1)|
  {
    j := Origin(server, log, n, m);
    assert j < 1 + |Expansion(server, log, j)|;
  }

  lemma ShorterPrefix(a: seq<Entry>, b: seq<Entry>, i: nat, m: nat)
    requires m <= i <= |a| && i <= |b| && a[..i] == b[..i]
    ensures a[..m] == b[..m]
  {
    assert a[..m] == a[..i][..m] && b[..m] == b[..i][..m];
  }

  /** Position `m`, appended by entry `j`, is the same in two walks that agree up to `j`. */
  lemma SameAt(server: Server, a: seq<Entry>, na: nat, b: seq<Entry>, nb: nat, j: nat, m: nat)
    requires j < na && j < |a| && j < |b| && a[..j + 1] == b[..j + 1]
    requires m < |Expansion(server, a, j + 1)| && m < |Expansion(server, b, nb)|
    ensures m < |Expansion(server, a, na)| && Expansion(server, a, na)[m] == Expansion(server, b, nb)[m]
  {
    ExpansionKeeps(server, a, j + 1, na, m);
    ExpansionPrefix(server, a, b, j + 1);
    if nb <= j + 1 {
      ExpansionKeeps(server, b, nb, j + 1, m);
    } else {
      ExpansionKeeps(server, b, j + 1, nb, m);
    }
  }

  /** Later entries only append: a position of the expansion never changes. */
  lemma ExpansionKeeps(server: Server, log: seq<Entry>, n1: nat, n2: nat, m: nat)
    requires n1 <= n2 && m < |Expansion(server, log, n1)|
    ensures m < |Expansion(server, log, n2)| && Expansion(server, log, n2)[m] == Expansion(server, log, n1)[m]
  {
    FlattenGrows(Appends(server, log), n1, n2);
    var e, e2 := Expansion(server, log, n1), Expansion(server, log, n2);
    assert e2[m] == e2[..|e|][m];
  }

  /** Nothing extends a finished walk. */
  lemma TraversalMaximal(server: Server, a: seq<Entry>, b: seq<Entry>, nb: nat)
    requires Traversal(server, a) && Expanded(server, b, nb)
    requires |a| <= |b| && a == b[..|a|]
    ensures |a| == |b|
  {
    if |a| < |b| {
      var j := OriginInTurn(server, b, nb, |a| - 1);
      ShorterPrefix(b, a, |a|, j + 1);
      ExpansionPrefix(server, b, a, j + 1);
      ExpansionKeeps(server, a, j + 1, |a|, |a| - 1);
      assert false;
    }
  }

  /** The walk is determined by the server: two finished walks are the same. */
  lemma TraversalUnique(server: Server, a: seq<Entry>, b: seq<Entry>)
    requires Traversal(server, a) && Traversal(server, b)
    ensures a == b
  {
    if |a| <= |b| {
      Agree(server, a, |a|, b, |b|, |a|);
      assert a == a[..|a|];
      TraversalMaximal(server, a, b, |b|);
      assert b == b[..|b|];
    } else {
      Agree(server, b, |b|, a, |a|, |b|);
      assert b == b[..|b|];
      TraversalMaximal(server, b, a, |a|);
    }
  }

  /** A walk that panics never finishes. */
  lemma StuckExcludesTraversal(server: Server, b: seq<Entry>, n: nat)
    requires Stuck(server, b, n)
    ensures forall a :: !Traversal(server, a)
  {
    forall a | Traversal(server, a) ensures false {
      if n < |a| {
        Agree(server, a, |a|, b, n, n + 1);
      } else {
        Agree(server, a, |a|, b, n, |a|);
        assert a == a[..|a|];
        TraversalMaximal(server, a, b, n);
      }
    }
  }

  // ---------------------------------------------------------------------
  // Termination: each queue entry carries a bound that its children undercut

  /** A bound on how many connections any device has. */
  ghost function DegreeBound(server: Server, keys: set<Device>): (r: nat)
    requires keys <= server.Keys
    ensures forall d :: d in keys ==> |server[d]| <= r
    decreases keys
  {
    if keys == {} then 0
    else
      var d :| d in keys;
      var rest := DegreeBound(server, keys - {d});
      if |server[d]| > rest then |server[d]| else rest
  }

  function Pow(base: nat, e: nat): (r: nat)
    requires base >= 1
    ensures r >= 1
  {
    if e == 0 then 1 else base * Pow(base, e - 1)
  }

  lemma {:induction false} PowGrows(base: nat, e: nat, f: nat)
    requires base >= 1 && e <= f
    ensures Pow(base, e) <= Pow(base, f)
    decreases f
  {
    if e < f {
      PowGrows(base, e, f - 1);
      assert Pow(base, f) == base * Pow(base, f - 1) >= Pow(base, f - 1);
    }
  }

  /** Fewer than `base` children, each weighing less than their parent's exponent, weigh less than the parent. */
  lemma ChildrenLighter(base: nat, kids: nat, e: nat, f: nat)
    requires base >= 1 && kids < base && e < f
    ensures kids * Pow(base, e) < Pow(base, f)
  {
    PowGrows(base, e, f - 1);
    var p := Pow(base, f - 1);
    MulGrows(Pow(base, e), p, kids);
    MulGrows(kids, base - 1, p);
    assert Pow(base, f) == base * p == (base - 1) * p + p;
  }

  lemma {:induction false} MulGrows(x: nat, y: nat, z: nat)
    requires x <= y
    ensures x * z <= y * z
    decreases z
  {
    if z > 0 {
      MulGrows(x, y, z - 1);
      assert x * z == x * (z - 1) + x && y * z == y * (z - 1) + y;
    }
  }

  /** The weight of a queue: `base` raised to each entry's bound, summed. */
  function Weight(bounds: seq<nat>, base: nat): nat
    requires base >= 1
  {
    if bounds == [] then 0 else Pow(base, bounds[0]) + Weight(bounds[1..], base)
  }

  lemma {:induction false} WeightAppend(a: seq<nat>, b: seq<nat>, base: nat)
    requires base >= 1
    ensures Weight(a + b, base) == Weight(a, base) + Weight(b, base)
  {
    if a != [] {
      assert (a + b)[0] == a[0] && (a + b)[1..] == a[1..] + b;
      WeightAppend(a[1..], b, base);
    } else {
      assert a + b == b;
    }
  }

  lemma {:induction false} WeightSame(m: nat, e: nat, base: nat)
    requires base >= 1
    ensures Weight(seq<nat>(m, _ => e), base) == m * Pow(base, e)
  {
    if m > 0 {
      assert seq<nat>(m, _ => e)[1..] == seq<nat>(m - 1, _ => e);
      WeightSame(m - 1, e, base);
    }
  }

  /**
   * Each queued device with an entry in the server still has fewer
   * unvisited devices left once it is visited than its bound.
   */
  ghost predicate Bounded(server: Server, visited: set<Device>, queue: seq<Entry>, bounds: seq<nat>)
  {
    && |bounds| == |queue|
    && forall k :: 0 <= k < |queue| && queue[k].0 != Out && queue[k].0 in server ==>
         |server.Keys - (visited + {queue[k].0})| < bounds[k]
  }

  /** Taking "out" off the queue keeps the bounds. */
  lemma BoundedDrop(server: Server, visited: set<Device>, queue: seq<Entry>, bounds: seq<nat>)
    requires Bounded(server, visited, queue, bounds) && queue != []
    ensures Bounded(server, visited, queue[1..], bounds[1..])
  {
    forall k | 0 <= k < |queue| - 1 && queue[1..][k].0 != Out && queue[1..][k].0 in server
      ensures |server.Keys - (visited + {queue[1..][k].0})| < bounds[1..][k]
    {
      assert queue[1..][k] == queue[k + 1];
    }
  }

  /**
   * Expanding the device at the head of the queue keeps the bounds: the
   * others only lose unvisited devices, and its children are all bounded
   * by what is left unvisited after it.
   */
  lemma BoundedExpand(server: Server, visited: set<Device>, queue: seq<Entry>, bounds: seq<nat>, kids: seq<Entry>)
    requires Bounded(server, visited, queue, bounds) && queue != []
    requires forall e :: e in kids ==> e.0 !in visited + {queue[0].0}
    ensures Bounded(server, visited + {queue[0].0}, queue[1..] + kids,
                    bounds[1..] + seq<nat>(|kids|, _ => |server.Keys - (visited + {queue[0].0})|))
  {
    var now := visited + {queue[0].0};
    var left := |server.Keys - now|;
    BoundedDrop(server, visited, queue, bounds);
    BoundedMoreVisited(server, visited, now, queue[1..], bounds[1..]);
    BoundedKids(server, now, kids, left);
    BoundedAppend(server, now, queue[1..], bounds[1..], kids, seq<nat>(|kids|, _ => left));
  }

  /** Visiting more devices keeps every bound. */
  lemma BoundedMoreVisited(server: Server, visited: set<Device>, now: set<Device>, queue: seq<Entry>, bounds: seq<nat>)
    requires Bounded(server, visited, queue, bounds) && visited <= now
    ensures Bounded(server, now, queue, bounds)
  {
    forall k | 0 <= k < |queue| && queue[k].0 != Out && queue[k].0 in server
      ensures |server.Keys - (now + {queue[k].0})| < bounds[k]
    {
      Fewer(server.Keys, visited, now, queue[k].0);
    }
  }

  /** Unvisited children are bounded by the number of unvisited devices. */
  lemma BoundedKids(server: Server, now: set<Device>, kids: seq<Entry>, left: nat)
    requires left == |server.Keys - now|
    requires forall e :: e in kids ==> e.0 !in now
    ensures Bounded(server, now, kids, seq<nat>(|kids|, _ => left))
  {
    forall k | 0 <= k < |kids| && kids[k].0 != Out && kids[k].0 in server
      ensures |server.Keys - (now + {kids[k].0})| < left
    {
      assert kids[k] in kids;
      Fresh(server.Keys, now, kids[k].0);
    }
  }

  /** Two bounded queues, one after the other, are bounded. */
  lemma BoundedAppend(server: Server, visited: set<Device>, q1: seq<Entry>, b1: seq<nat>, q2: seq<Entry>, b2: seq<nat>)
    requires Bounded(server, visited, q1, b1) && Bounded(server, visited, q2, b2)
    ensures Bounded(server, visited, q1 + q2, b1 + b2)
  {
    var q, b := q1 + q2, b1 + b2;
    forall k | 0 <= k < |q| && q[k].0 != Out && q[k].0 in server
      ensures |server.Keys - (visited + {q[k].0})| < b[k]
    {
      if k < |q1| {
        assert q[k] == q1[k] && b[k] == b1[k];
      } else {
        assert q[k] == q2[k - |q1|] && b[k] == b2[k - |q1|];
      }
    }
  }

  lemma Fewer(keys: set<Device>, visited: set<Device>, now: set<Device>, d: Device)
    requires visited <= now
    ensures |keys - (now + {d})| <= |keys - (visited + {d})|
  {
    SubsetCard(keys - (now + {d}), keys - (visited + {d}));
  }

  lemma Fresh(keys: set<Device>, now: set<Device>, d: Device)
    requires d in keys && d !in now
    ensures |keys - (now + {d})| < |keys - now|
  {
    assert keys - now == (keys - (now + {d})) + {d};
  }

  /** Expanding the head of the queue lowers the weight. */
  lemma WeightFalls(bounds: seq<nat>, base: nat, kids: nat, left: nat)
    requires base >= 1 && bounds != [] && kids < base && left < bounds[0]
    ensures Weight(bounds[1..] + seq<nat>(kids, _ => left), base) < Weight(bounds, base)
  {
    WeightAppend(bounds[1..], seq<nat>(kids, _ => left), base);
    WeightSame(kids, left, base);
    ChildrenLighter(base, kids, left, bounds[0]);
  }

  // ---------------------------------------------------------------------
  // traversal_paths

  /** The loop's state after `n` entries came off the queue. */
  ghost predicate Walking(server: Server, base: nat, log: seq<Entry>, n: nat,
                          visited: set<Device>, count: nat, queue: seq<Entry>, bounds: seq<nat>)
  {
    && base >= 1 && (forall d :: d in server ==> |server[d]| < base)
    && Expanded(server, log, n) && queue == log[n..]
    && visited == Visited(log, n) && count == Outs(log, n)
    && Bounded(server, visited, queue, bounds)
  }

  /** Taking "out" off the queue: counted, nothing appended, lighter queue. */
  lemma TakeOut(server: Server, base: nat, log: seq<Entry>, n: nat,
                visited: set<Device>, count: nat, queue: seq<Entry>, bounds: seq<nat>)
    requires Walking(server, base, log, n, visited, count, queue, bounds)
    requires queue != [] && queue[0].0 == Out
    ensures Walking(server, base, log, n + 1, visited, count + 1, queue[1..], bounds[1..])
    ensures Weight(bounds[1..], base) < Weight(bounds, base)
  {
    assert queue[0] == log[n];
    ExpandStep(server, log, n);
    assert log + Children(server, log, n) == log;
    BoundedDrop(server, visited, queue, bounds);
    assert queue[1..] == log[n + 1..];
  }

  /** Taking a device off the queue: visited, its unvisited connections appended, lighter queue. */
  lemma TakeDevice(server: Server, base: nat, log: seq<Entry>, n: nat,
                   visited: set<Device>, count: nat, queue: seq<Entry>, bounds: seq<nat>,
                   kids: seq<Entry>, left: nat)
    requires Walking(server, base, log, n, visited, count, queue, bounds)
    requires queue != [] && queue[0].0 != Out && queue[0].0 in server
    requires kids == Unvisited(server[queue[0].0], visited + {queue[0].0}, queue[0].1)
    requires left == |server.Keys - (visited + {queue[0].0})|
    ensures Walking(server, base, log + kids, n + 1, visited + {queue[0].0}, count,
                    queue[1..] + kids, bounds[1..] + seq<nat>(|kids|, _ => left))
  {
    assert queue[0] == log[n];
    DeviceLog(server, log, n, visited, kids);
    assert (log + kids)[n + 1..] == queue[1..] + kids;
    UnvisitedMembers(server[queue[0].0], visited + {queue[0].0}, queue[0].1);
    BoundedExpand(server, visited, queue, bounds, kids);
  }

  /** The log side of taking a device off the queue. */
  lemma DeviceLog(server: Server, log: seq<Entry>, n: nat, visited: set<Device>, kids: seq<Entry>)
    requires Expanded(server, log, n) && n < |log| && log[n].0 != Out && log[n].0 in server
    requires visited == Visited(log, n)
    requires kids == Unvisited(server[log[n].0], visited + {log[n].0}, log[n].1)
    ensures Expanded(server, log + kids, n + 1)
    ensures Visited(log + kids, n + 1) == visited + {log[n].0}
    ensures Outs(log + kids, n + 1) == Outs(log, n)
  {
    ChildrenOfDevice(server, log, n, visited, kids);
    ExpandStep(server, log, n);
    LogPrefix(log, kids, n);
  }

  /** The children of a device entry are its connections not visited once it is. */
  lemma ChildrenOfDevice(server: Server, log: seq<Entry>, n: nat, visited: set<Device>, kids: seq<Entry>)
    requires n < |log| && log[n].0 != Out && log[n].0 in server
    requires visited == Visited(log, n)
    requires kids == Unvisited(server[log[n].0], visited + {log[n].0}, log[n].1)
    ensures kids == Children(server, log, n)
  {
  }

  /** Appending to the log leaves the marks of its first `n + 1` entries alone. */
  lemma LogPrefix(log: seq<Entry>, kids: seq<Entry>, n: nat)
    requires n < |log|
    ensures Visited(log + kids, n + 1) == Visited(log, n + 1)
    ensures Outs(log + kids, n + 1) == Outs(log, n + 1)
  {
    assert (log + kids)[..n + 1] == log[..n + 1];
    VisitedPrefix(log + kids, log, n + 1);
  }

  /** Taking a device off the queue lowers the queue's weight. */
  lemma TakeDeviceLighter(server: Server, base: nat, visited: set<Device>, queue: seq<Entry>, bounds: seq<nat>,
                          kids: seq<Entry>, left: nat)
    requires base >= 1 && (forall d :: d in server ==> |server[d]| < base)
    requires Bounded(server, visited, queue, bounds)
    requires queue != [] && queue[0].0 != Out && queue[0].0 in server
    requires kids == Unvisited(server[queue[0].0], visited + {queue[0].0}, queue[0].1)
    requires left == |server.Keys - (visited + {queue[0].0})|
    ensures Weight(bounds[1..] + seq<nat>(|kids|, _ => left), base) < Weight(bounds, base)
  {
    assert |kids| <= |server[queue[0].0]| < base;
    WeightFalls(bounds, base, |kids|, left);
  }

  /** One turn of the loop: the head of the queue comes off it. */
  lemma Take(server: Server, base: nat, log: seq<Entry>, n: nat,
             visited: set<Device>, count: nat, queue: seq<Entry>, bounds: seq<nat>,
             kids: seq<Entry>, left: nat)
    requires Walking(server, base, log, n, visited, count, queue, bounds)
    requires queue != [] && (queue[0].0 == Out || queue[0].0 in server)
    requires kids == if queue[0].0 == Out then [] else Unvisited(server[queue[0].0], visited + {queue[0].0}, queue[0].1)
    requires left == |server.Keys - (visited + {queue[0].0})|
    ensures Walking(server, base, log + kids, n + 1,
                    if queue[0].0 == Out then visited else visited + {queue[0].0},
                    if queue[0].0 == Out then count + 1 else count,
                    queue[1..] + kids, bounds[1..] + seq<nat>(|kids|, _ => left))
    ensures Weight(bounds[1..] + seq<nat>(|kids|, _ => left), base) < Weight(bounds, base)
  {
    if queue[0].0 == Out {
      TakeOut(server, base, log, n, visited, count, queue, bounds);
      assert log + kids == log && queue[1..] + kids == queue[1..];
      assert bounds[1..] + seq<nat>(|kids|, _ => left) == bounds[1..];
    } else {
      TakeDevice(server, base, log, n, visited, count, queue, bounds, kids, left);
      TakeDeviceLighter(server, base, visited, queue, bounds, kids, left);
    }
  }

  /** The loop's state before anything comes off the queue. */
  lemma Start(server: Server)
    ensures Walking(server, DegreeBound(server, server.Keys) + 1, [(You, 0)], 0, {}, 0, [(You, 0)], [|server.Keys| + 1])
  {
    SubsetCard(server.Keys - {You}, server.Keys);
    var log: seq<Entry> := [(You, 0)];
    assert log[..0] == [];
    assert Expansion(server, log, 0) == [];
  }

  /**
   * `traversal_paths`: the number of times "out" comes off the queue in
   * the walk from "you". None when the walk takes off the queue a device
   * other than "out" that has no entry in the server, where the source's
   * lookup panics.
   */
  method TraversalPaths(server: Server) returns (r: Option<nat>)
    ensures r.Some? ==> exists log :: Traversal(server, log) && r.value == Outs(log, |log|)
    ensures r.None? ==> exists log, n :: Stuck(server, log, n)
  {
    var queue: seq<Entry> := [(You, 0)];
    var visited: set<Device> := {};
    var count := 0;
    ghost var log: seq<Entry> := [(You, 0)];
    ghost var n: nat := 0;
    ghost var base := DegreeBound(server, server.Keys) + 1;
    ghost var bounds: seq<nat> := [|server.Keys| + 1];
    Start(server);
    while queue != []
      invariant Walking(server, base, log, n, visited, count, queue, bounds)
      decreases Weight(bounds, base)
    {
      var entry := queue[0];
      var kids: seq<Entry> := [];
      if entry.0 != Out {
        if entry.0 !in server {
          assert Stuck(server, log, n);
          return None;
        }
        kids := Unvisited(server[entry.0], visited + {entry.0}, entry.1);
      }
      ghost var left := |server.Keys - (visited + {entry.0})|;
      Take(server, base, log, n, visited, count, queue, bounds, kids, left);
      if entry.0 == Out {
        count := count + 1;
      } else {
        visited := visited + {entry.0};
      }
      queue := queue[1..] + kids;
      bounds := bounds[1..] + seq<nat>(|kids|, _ => left);
      log := log + kids;
      n := n + 1;
    }
    r := Some(count);
  }

  /** `part1`: the walk's count (the listing it prints first is output only). */
  method Part1(server: Server) returns (r: Option<nat>)
    ensures r.Some? ==> exists log :: Traversal(server, log) && r.value == Outs(log, |log|)
    ensures r.None? ==> exists log, n :: Stuck(server, log, n)
  {
    r := TraversalPaths(server);
  }

  /** `part2`: not solved; always 0. */
  function Part2(server: Server): (r: nat)
    ensures r == 0
  {
    0
  }

  // ---------------------------------------------------------------------
  // Parsing

  /**
   * One line of `From<Input>`: split at the first ": " (a line without one
   * panics, None here), the device before it and the connections after it,
   * split at every ' '.
   */
  function ParseLine(line: string): (r: Option<(Device, seq<Device>)>)
    ensures r.None? <==> forall i :: 0 <= i <= |line| ==> !OccursAt(line, ": ", i)
    ensures r.Some? ==> |r.value.1| >= 1 && line == r.value.0 + ": " + Join(r.value.1, ' ')
    ensures r.Some? ==> forall k :: 0 <= k < |r.value.1| ==> ' ' !in r.value.1[k]
    ensures r.Some? ==> forall i :: 0 <= i < |r.value.0| ==> !OccursAt(line, ": ", i)
  {
    match SplitOnceStr(line, ": ")
    case None => None
    case Some((device, raw)) =>
      assert OccursAt(line, ": ", |device|) by {
        assert line[|device|..|device| + 2] == ": ";
      }
      SplitParts(raw, ' ');
      Some((device, Split(raw, ' ')))
  }

  /** A line written as "name: a b c" reads back as the name and its connections. */
  lemma ParseLineRoundTrip(device: Device, conns: seq<Device>)
    requires ':' !in device
    requires |conns| >= 1 && forall k :: 0 <= k < |conns| ==> ' ' !in conns[k]
    ensures ParseLine(device + ": " + Join(conns, ' ')) == Some((device, conns))
  {
    var raw := Join(conns, ' ');
    NameSplit(device, raw);
    SplitJoin(conns, ' ');
  }

  /** A name without ':' followed by ": " splits there. */
  lemma NameSplit(device: Device, raw: string)
    requires ':' !in device
    ensures SplitOnceStr(device + ": " + raw, ": ") == Some((device, raw))
  {
    var line := device + ": " + raw;
    forall k | 0 <= k < |device| ensures !OccursAt(line, ": ", k) {
      assert line[k] == device[k];
    }
    SplitOnceStrAt(device, ": ", raw);
  }

  /** Collecting (device, connections) pairs into a map: every device gets an entry. */
  function Collect(pairs: seq<(Device, seq<Device>)>): (r: Server)
    ensures forall k :: 0 <= k < |pairs| ==> pairs[k].0 in r
  {
    if pairs == [] then map[]
    else
      var before := Collect(pairs[..|pairs| - 1]);
      assert forall k :: 0 <= k < |pairs| - 1 ==> pairs[..|pairs| - 1][k] == pairs[k];
      before[pairs[|pairs| - 1].0 := pairs[|pairs| - 1].1]
  }

  /** A device named twice keeps its last connections: the entry of `d` is the last pair naming it. */
  lemma {:induction false} CollectLast(pairs: seq<(Device, seq<Device>)>, d: Device) returns (k: nat)
    requires d in Collect(pairs)
    ensures k < |pairs| && pairs[k] == (d, Collect(pairs)[d]) && LastNamed(pairs, k)
  {
    var init := pairs[..|pairs| - 1];
    var last := pairs[|pairs| - 1];
    if d == last.0 {
      k := |pairs| - 1;
    } else {
      k := CollectLast(init, d);
      assert pairs[k] == init[k];
      assert forall k2 :: k < k2 < |pairs| - 1 ==> pairs[k2] == init[k2];
    }
  }

  /** No pair after position `k` names the device of pair `k`. */
  predicate LastNamed(pairs: seq<(Device, seq<Device>)>, k: nat)
    requires k < |pairs|
  {
    forall k2 :: k < k2 < |pairs| ==> pairs[k2].0 != pairs[k].0
  }

  /** `From<Input>` on the lines of the input: None if any line lacks ": ". */
  function ParseServer(lines: seq<string>): (r: Option<Server>)
    ensures r.Some? <==> forall k :: 0 <= k < |lines| ==> ParseLine(lines[k]).Some?
    ensures r.Some? ==> forall k :: 0 <= k < |lines| ==> ParseLine(lines[k]).value.0 in r.value
    ensures r.Some? ==> forall d :: d in r.value ==>
      exists k :: 0 <= k < |lines| && ParseLine(lines[k]).value == (d, r.value[d])
                  && forall k2 :: k < k2 < |lines| ==> ParseLine(lines[k2]).value.0 != d
  {
    match ParseEach(ParseLine, lines)
    case None => None
    case Some(pairs) =>
      var server := Collect(pairs);
      forall d | d in server
        ensures exists k :: 0 <= k < |lines| && ParseLine(lines[k]).value == (d, server[d])
                            && forall k2 :: k < k2 < |lines| ==> ParseLine(lines[k2]).value.0 != d
      {
        var k := CollectLast(pairs, d);
        assert ParseLine(lines[k]).value == (d, server[d]);
      }
      Some(server)
  }
}
