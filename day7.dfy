/**
 * Day 7 (src/day_7.rs): a tachyon beam enters a manifold at `start` and
 * travels down its column; every splitter (`^`) it meets sends one beam to
 * the column on each side. Part 1 counts the splitters some beam reaches;
 * part 2 counts the timelines, following how many beams stand in each
 * column row by row.
 */
module Day7 {
  import opened Wrappers
  import opened Point2D
  import opened Sets

  const East := Point(0, 1)
  const West := Point(0, -1)

  /** `Day7`: the start, the splitters, and the grid's size. */
  datatype Manifold = Manifold(start: Point, manifolds: set<Point>, width: nat, height: nat)

  /**
   * The `find` over `(row..height)`: the first splitter in `p`'s column at
   * `p`'s row or below and above `height`.
   */
  function FirstSplitter(d: Manifold, p: Point): (r: Option<Point>)
    ensures r.Some? ==> r.value in d.manifolds && r.value.col == p.col && p.row <= r.value.row < d.height
    ensures r.Some? ==> forall row :: p.row <= row < r.value.row ==> Point(row, p.col) !in d.manifolds
    ensures r.None? <==> forall row :: p.row <= row < d.height ==> Point(row, p.col) !in d.manifolds
    decreases d.height - p.row
  {
    if p.row >= d.height then None
    else if p in d.manifolds then Some(p)
    else FirstSplitter(d, Point(p.row + 1, p.col))
  }

  // ---------------------------------------------------------------------
  // Part 1

  /** A beam starting at `q` reaches no splitter, or one in `visited`. */
  predicate Leads(d: Manifold, visited: set<Point>, q: Point)
  {
    var after := FirstSplitter(d, q);
    after.None? || after.value in visited
  }

  /**
   * A set of splitters that the beams cannot leave: the start's beam ends in
   * it, and so do the beams to the east and west of each of its splitters.
   */
  ghost predicate Closed(d: Manifold, visited: set<Point>)
  {
    && Leads(d, visited, d.start)
    && forall v :: v in visited ==> Leads(d, visited, Add(v, East)) && Leads(d, visited, Add(v, West))
  }

  /** The splitters the beams reach: the least closed set. */
  ghost predicate IsEnergized(d: Manifold, visited: set<Point>)
  {
    && visited <= d.manifolds
    && Closed(d, visited)
    && forall other :: Closed(d, other) ==> visited <= other
  }

  /** There is only one least closed set. */
  lemma EnergizedUnique(d: Manifold, v1: set<Point>, v2: set<Point>)
    requires IsEnergized(d, v1) && IsEnergized(d, v2)
    ensures v1 == v2
  {
  }

  /** `heap.push(next + EAST); heap.push(next + WEST)` as a multiset of pending points. */
  function Pushed(next: Point): multiset<Point>
  {
    multiset{Add(next, East), Add(next, West)}
  }

  /**
   * What the loop of `part1` keeps: every point still to be popped, and the
   * start and the neighbours of every recorded splitter once popped, lead to
   * a recorded splitter or to none; and every closed set holds what is
   * recorded and what the pending points lead to.
   */
  ghost predicate Pending(d: Manifold, heap: multiset<Point>, visited: set<Point>)
  {
    && visited <= d.manifolds
    && (d.start in heap || Leads(d, visited, d.start))
    && (forall v :: v in visited ==>
          (Add(v, East) in heap || Leads(d, visited, Add(v, East))) &&
          (Add(v, West) in heap || Leads(d, visited, Add(v, West))))
    && forall other :: Closed(d, other) ==> visited <= other && forall h :: h in heap ==> Leads(d, other, h)
  }

  /** Popping a point whose splitter is missing or already recorded keeps the loop's facts. */
  lemma PopSeen(d: Manifold, heap: multiset<Point>, visited: set<Point>, point: Point)
    requires point in heap && Pending(d, heap, visited) && Leads(d, visited, point)
    ensures Pending(d, heap - multiset{point}, visited)
  {
    var rest := heap - multiset{point};
    forall q | q in heap ensures q in rest || Leads(d, visited, q) {
      if q != point {
        assert q in rest;
      }
    }
  }

  /** Popping a point that leads to a new splitter, recording it and pushing its neighbours. */
  lemma PopRecord(d: Manifold, heap: multiset<Point>, visited: set<Point>, point: Point)
    requires point in heap && Pending(d, heap, visited)
    requires FirstSplitter(d, point).Some? && FirstSplitter(d, point).value !in visited
    ensures var next := FirstSplitter(d, point).value;
      Pending(d, heap - multiset{point} + Pushed(next), visited + {next})
  {
    var next := FirstSplitter(d, point).value;
    var rest := heap - multiset{point};
    var heap' := rest + Pushed(next);
    var visited' := visited + {next};
    forall q | q in heap ensures q in heap' || Leads(d, visited', q) {
      if q != point {
        assert q in rest;
      }
    }
    forall other | Closed(d, other) ensures visited' <= other && forall h :: h in heap' ==> Leads(d, other, h) {
      assert Leads(d, other, point);
    }
  }

  /**
   * `part1`: pop a point, find the first splitter below it, and when that
   * splitter is new record it and push its east and west neighbours. The
   * heap's pop order is left free: the count is that of the least closed
   * set whatever the order.
   */
  method Part1(d: Manifold) returns (count: nat)
    ensures exists visited :: IsEnergized(d, visited) && count == |visited|
  {
    var heap := multiset{d.start};
    var visited: set<Point> := {};
    while heap != multiset{}
      invariant Pending(d, heap, visited)
      decreases |d.manifolds - visited|, |heap|
    {
      var point :| point in heap;
      var after := FirstSplitter(d, point);
      if after.Some? && after.value !in visited {
        var next := after.value;
        PopRecord(d, heap, visited, point);
        Grows(d.manifolds, visited, next);
        heap := heap - multiset{point} + Pushed(next);
        visited := visited + {next};
      } else {
        PopSeen(d, heap, visited, point);
        heap := heap - multiset{point};
      }
    }
    PendingDone(d, visited);
    count := |visited|;
  }

  /** With nothing left to pop, the recorded splitters are the least closed set. */
  lemma PendingDone(d: Manifold, visited: set<Point>)
    requires Pending(d, multiset{}, visited)
    ensures IsEnergized(d, visited)
  {
  }

  /** Recording a new splitter leaves one fewer unvisited. */
  lemma Grows(manifolds: set<Point>, visited: set<Point>, next: Point)
    requires visited <= manifolds && next in manifolds && next !in visited
    ensures |manifolds - (visited + {next})| < |manifolds - visited|
  {
    assert manifolds - visited == (manifolds - (visited + {next})) + {next};
  }

  /** Part 1 never counts more splitters than the manifold has. */
  lemma Part1Bound(d: Manifold, visited: set<Point>)
    requires IsEnergized(d, visited)
    ensures |visited| <= |d.manifolds|
  {
    SubsetCard(visited, d.manifolds);
  }

  /** With no splitter at all, no beam is split. */
  lemma NoSplitters(d: Manifold)
    requires d.manifolds == {}
    ensures IsEnergized(d, {})
  {
  }

  // ---------------------------------------------------------------------
  // Part 2

  /** The beams standing in column `k`, 0 when the map has no entry. */
  function Get(beams: map<int, nat>, k: int): nat
  {
    if k in beams then beams[k] else 0
  }

  /**
   * A splitter in column `col` takes the beams there (`beams.remove(&col)`)
   * and adds them to the columns on either side.
   */
  function Split(beams: map<int, nat>, col: int): (r: map<int, nat>)
    ensures col !in beams ==> r == beams
    ensures col in beams ==> col !in r && r.Keys == beams.Keys - {col} + {col - 1, col + 1}
    ensures col in beams ==> Get(r, col - 1) == Get(beams, col - 1) + beams[col]
    ensures col in beams ==> Get(r, col + 1) == Get(beams, col + 1) + beams[col]
    ensures forall k :: k != col - 1 && k != col && k != col + 1 ==> Get(r, k) == Get(beams, k)
  {
    if col !in beams then beams
    else
      var count := beams[col];
      var removed := beams - {col};
      var west := removed[col - 1 := Get(removed, col - 1) + count];
      west[col + 1 := Get(west, col + 1) + count]
  }

  /** One cell of the sweep: only a splitter changes the beams. */
  function Cell(d: Manifold, beams: map<int, nat>, row: int, col: int): map<int, nat>
  {
    if Point(row, col) in d.manifolds then Split(beams, col) else beams
  }

  /** The beams after the first `n` cells of `row`, left to right. */
  function SweepRow(d: Manifold, beams: map<int, nat>, row: int, n: nat): map<int, nat>
  {
    if n == 0 then beams else Cell(d, SweepRow(d, beams, row, n - 1), row, n - 1)
  }

  /** The beams after the first `n` rows, top to bottom. */
  function SweepRows(d: Manifold, n: nat): map<int, nat>
  {
    if n == 0 then map[d.start.col := 1] else SweepRow(d, SweepRows(d, n - 1), n - 1, d.width)
  }

  /** The beams standing in the columns `keys`, added up. */
  ghost function SumOver(beams: map<int, nat>, keys: set<int>): nat
    requires keys <= beams.Keys
  {
    if keys == {} then 0
    else
      NonEmpty(keys);
      var k :| k in keys;
      beams[k] + SumOver(beams, keys - {k})
  }

  /** A non-empty set of columns has a column to pick. */
  lemma NonEmpty(keys: set<int>)
    requires keys != {}
    ensures exists k :: k in keys
  {
    if forall k :: k !in keys {
      assert false;
    }
  }

  /** `beams.into_values().sum()`. */
  ghost function Total(beams: map<int, nat>): nat
  {
    SumOver(beams, beams.Keys)
  }

  /** The sum can be taken apart at any of its columns. */
  lemma {:induction false} SumOverRemove(beams: map<int, nat>, keys: set<int>, k: int)
    requires keys <= beams.Keys && k in keys
    ensures SumOver(beams, keys) == beams[k] + SumOver(beams, keys - {k})
    decreases keys
  {
    var j :| j in keys && SumOver(beams, keys) == beams[j] + SumOver(beams, keys - {j});
    if j != k {
      SumOverRemove(beams, keys - {j}, k);
      SumOverRemove(beams, keys - {k}, j);
      assert keys - {j} - {k} == keys - {k} - {j};
    }
  }

  /** Maps that agree on the columns summed have the same sum. */
  lemma {:induction false} SumOverAgree(b1: map<int, nat>, b2: map<int, nat>, keys: set<int>)
    requires keys <= b1.Keys && keys <= b2.Keys
    requires forall k :: k in keys ==> b1[k] == b2[k]
    ensures SumOver(b1, keys) == SumOver(b2, keys)
    decreases keys
  {
    if keys != {} {
      NonEmpty(keys);
      var k :| k in keys;
      SumOverRemove(b1, keys, k);
      SumOverRemove(b2, keys, k);
      SumOverAgree(b1, b2, keys - {k});
    }
  }

  /** Changing one column's count changes the total by the difference. */
  lemma TotalUpdate(beams: map<int, nat>, k: int, v: nat)
    ensures Total(beams[k := v]) + Get(beams, k) == Total(beams) + v
  {
    var updated := beams[k := v];
    var others := beams.Keys - {k};
    SumOverRemove(updated, updated.Keys, k);
    assert updated.Keys - {k} == others;
    SumOverAgree(updated, beams, others);
    if k in beams {
      SumOverRemove(beams, beams.Keys, k);
    } else {
      assert beams.Keys == others;
    }
  }

  /** Removing a column takes its count off the total. */
  lemma TotalRemove(beams: map<int, nat>, k: int)
    requires k in beams
    ensures Total(beams) == beams[k] + Total(beams - {k})
  {
    var removed := beams - {k};
    SumOverRemove(beams, beams.Keys, k);
    assert removed.Keys == beams.Keys - {k};
    SumOverAgree(beams, removed, removed.Keys);
  }

  /** A split moves `c` beams and doubles them: the total grows by exactly `c`. */
  lemma SplitAddsCount(beams: map<int, nat>, col: int)
    ensures Total(Split(beams, col)) == Total(beams) + Get(beams, col)
  {
    if col in beams {
      var count := beams[col];
      var removed := beams - {col};
      TotalRemove(beams, col);
      var west := removed[col - 1 := Get(removed, col - 1) + count];
      TotalUpdate(removed, col - 1, Get(removed, col - 1) + count);
      TotalUpdate(west, col + 1, Get(west, col + 1) + count);
    }
  }

  /** The splits of the first `n` cells of `row`: the beams each splitter took. */
  function RowSplits(d: Manifold, beams: map<int, nat>, row: int, n: nat): nat
  {
    if n == 0 then 0
    else
      var before := SweepRow(d, beams, row, n - 1);
      RowSplits(d, beams, row, n - 1) + if Point(row, n - 1) in d.manifolds then Get(before, n - 1) else 0
  }

  /** The splits of the first `n` rows. */
  function Splits(d: Manifold, n: nat): nat
  {
    if n == 0 then 0 else Splits(d, n - 1) + RowSplits(d, SweepRows(d, n - 1), n - 1, d.width)
  }

  lemma {:induction false} SweepRowTotal(d: Manifold, beams: map<int, nat>, row: int, n: nat)
    ensures Total(SweepRow(d, beams, row, n)) == Total(beams) + RowSplits(d, beams, row, n)
  {
    if n > 0 {
      SweepRowTotal(d, beams, row, n - 1);
      if Point(row, n - 1) in d.manifolds {
        SplitAddsCount(SweepRow(d, beams, row, n - 1), n - 1);
      }
    }
  }

  /**
   * The timelines are the starting beam plus every beam a splitter took:
   * the total never decreases and is at least 1.
   */
  lemma {:induction false} TimelinesAreOnePlusSplits(d: Manifold, n: nat)
    ensures Total(SweepRows(d, n)) == 1 + Splits(d, n)
  {
    if n == 0 {
      var start := map[d.start.col := 1];
      TotalRemove(start, d.start.col);
      assert start - {d.start.col} == map[];
    } else {
      TimelinesAreOnePlusSplits(d, n - 1);
      SweepRowTotal(d, SweepRows(d, n - 1), n - 1, d.width);
    }
  }

  /** `into_values().sum()` over the keys one at a time. */
  method SumValues(beams: map<int, nat>) returns (total: nat)
    ensures total == Total(beams)
  {
    total := 0;
    var rest := beams.Keys;
    while rest != {}
      invariant rest <= beams.Keys
      invariant total + SumOver(beams, rest) == Total(beams)
      decreases rest
    {
      NonEmpty(rest);
      var k :| k in rest;
      SumOverRemove(beams, rest, k);
      total := total + beams[k];
      rest := rest - {k};
    }
  }

  /** `part2`: the sweep over every cell, then the sum of the beams. */
  method Part2(d: Manifold) returns (timelines: nat)
    ensures timelines == Total(SweepRows(d, d.height))
    ensures timelines == 1 + Splits(d, d.height)
  {
    var beams := map[d.start.col := 1];
    for row := 0 to d.height
      invariant beams == SweepRows(d, row)
    {
      ghost var before := beams;
      for col := 0 to d.width
        invariant beams == SweepRow(d, before, row, col)
      {
        var point := Point(row, col);
        if point !in d.manifolds {
          continue;
        }
        if col in beams {
          var count := beams[col];
          beams := beams - {col};
          beams := beams[col - 1 := Get(beams, col - 1) + count];
          beams := beams[col + 1 := Get(beams, col + 1) + count];
        }
      }
    }
    timelines := SumValues(beams);
    TimelinesAreOnePlusSplits(d, d.height);
  }

  // ---------------------------------------------------------------------
  // Parsing

  /** Character `c` at row `r`, column `k` of the lines. */
  ghost predicate CharAt(lines: seq<string>, r: int, k: int, c: char)
  {
    0 <= r < |lines| && 0 <= k < |lines[r]| && lines[r][k] == c
  }

  /** `(r, k)` comes after `(r2, k2)` in reading order. */
  predicate After(r: int, k: int, r2: int, k2: int)
  {
    r > r2 || (r == r2 && k > k2)
  }

  /**
   * `From<Input>`: width is the first line's length and height the number of
   * lines; every `^` is a splitter, and the start is the last `S` in reading
   * order, the origin when there is none. No lines at all panics (None).
   */
  method ParseManifold(lines: seq<string>) returns (r: Option<Manifold>)
    ensures r.None? <==> lines == []
    ensures r.Some? ==> r.value.width == |lines[0]| && r.value.height == |lines|
    ensures r.Some? ==> forall p :: p in r.value.manifolds <==> CharAt(lines, p.row, p.col, '^')
    ensures r.Some? && (forall row, col :: !CharAt(lines, row, col, 'S')) ==> r.value.start == Point(0, 0)
    ensures r.Some? && (exists row, col :: CharAt(lines, row, col, 'S')) ==>
      var s := r.value.start;
      CharAt(lines, s.row, s.col, 'S') && forall row, col :: CharAt(lines, row, col, 'S') ==> !After(row, col, s.row, s.col)
  {
    if lines == [] {
      return None;
    }
    var start := Default();
    var found := false;
    var splitters: set<Point> := {};
    for row := 0 to |lines|
      invariant forall p :: p in splitters <==> CharAt(lines, p.row, p.col, '^') && p.row < row
      invariant found <==> exists rw, c :: CharAt(lines, rw, c, 'S') && rw < row
      invariant !found ==> start == Point(0, 0)
      invariant found ==> CharAt(lines, start.row, start.col, 'S')
      invariant found ==> forall rw, c :: CharAt(lines, rw, c, 'S') && rw < row ==> !After(rw, c, start.row, start.col)
    {
      var line := lines[row];
      for col := 0 to |line|
        invariant forall p :: p in splitters <==>
          CharAt(lines, p.row, p.col, '^') && (p.row < row || (p.row == row && p.col < col))
        invariant found <==> exists rw, c :: CharAt(lines, rw, c, 'S') && (rw < row || (rw == row && c < col))
        invariant !found ==> start == Point(0, 0)
        invariant found ==> CharAt(lines, start.row, start.col, 'S')
        invariant found ==> forall rw, c :: CharAt(lines, rw, c, 'S') && (rw < row || (rw == row && c < col)) ==>
          !After(rw, c, start.row, start.col)
      {
        if line[col] == 'S' {
          assert CharAt(lines, row, col, 'S');
          start := Point(row, col);
          found := true;
        } else if line[col] == '^' {
          splitters := splitters + {Point(row, col)};
        }
      }
    }
    return Some(Manifold(start, splitters, |lines[0]|, |lines|));
  }
}
