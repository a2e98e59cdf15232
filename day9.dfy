/**
 * Day 9 (src/day_9.rs): red tiles on a floor. Part 1 is the largest
 * rectangle, counted in tiles, that has two of the tiles as opposite
 * corners; part 2 is not solved and returns 0.
 */
module Day9 {
  import opened Wrappers
  import opened Text
  import opened IntMath
  import opened Point2D
  import opened Pairs

  /** `LightPair`: two tiles taken as opposite corners. */
  type LightPair = (Point, Point)

  /** `area`: the tiles of the rectangle, both edges included. */
  function Area(pair: LightPair): (r: nat)
    ensures r >= 1
    ensures pair.0 == pair.1 ==> r == 1
  {
    var width := Abs(pair.1.col - pair.0.col) + 1;
    var height := Abs(pair.1.row - pair.0.row) + 1;
    ProductCoversFactors(width, height);
    width * height
  }

  /** The rectangle does not depend on which corner comes first. */
  lemma AreaSymmetric(p: Point, q: Point)
    ensures Area((p, q)) == Area((q, p))
  {
    assert Abs(q.col - p.col) == Abs(p.col - q.col) && Abs(q.row - p.row) == Abs(p.row - q.row);
  }

  /** A rectangle is at least as wide and as tall as each of its sides. */
  lemma AreaCoversSides(p: Point, q: Point)
    ensures Area((p, q)) >= Abs(q.col - p.col) + 1 && Area((p, q)) >= Abs(q.row - p.row) + 1
  {
    ProductCoversFactors(Abs(q.col - p.col) + 1, Abs(q.row - p.row) + 1);
  }

  lemma ProductCoversFactors(a: nat, b: nat)
    requires a >= 1 && b >= 1
    ensures a * b >= a && a * b >= b
  {
    assert a * b == a * (b - 1) + a;
    assert a * b == (a - 1) * b + b;
  }

  /** The heap entry for the tiles at indices `ab`: their distance and the pair. */
  function Entry(lights: seq<Point>, ab: (nat, nat)): (nat, LightPair)
    requires ab.0 < |lights| && ab.1 < |lights|
  {
    (Distance(lights[ab.0], lights[ab.1]), (lights[ab.0], lights[ab.1]))
  }

  /** `pair` is two of the tiles, the first listed before the second. */
  ghost predicate IsPairOf(lights: seq<Point>, pair: LightPair)
  {
    exists a, b :: 0 <= a < b < |lights| && pair == (lights[a], lights[b])
  }

  /** The entries for the index pairs `ps`, in order. */
  function EntriesOf(lights: seq<Point>, ps: seq<(nat, nat)>): (r: seq<(nat, LightPair)>)
    requires forall k :: 0 <= k < |ps| ==> ps[k].0 < |lights| && ps[k].1 < |lights|
    ensures |r| == |ps| && forall k :: 0 <= k < |ps| ==> r[k] == Entry(lights, ps[k])
  {
    if ps == [] then [] else [Entry(lights, ps[0])] + EntriesOf(lights, ps[1..])
  }

  /**
   * `pairs`: the heap's contents, one entry for every index pair a < b (the
   * heap order plays no part in part 1, so they are kept in enumeration
   * order).
   */
  function LightPairs(lights: seq<Point>): (r: seq<(nat, LightPair)>)
    ensures |r| == |lights| * (|lights| - 1) / 2
    ensures forall a, b :: 0 <= a < b < |lights| ==> Entry(lights, (a, b)) in r
    ensures forall k :: 0 <= k < |r| ==> IsPairOf(lights, r[k].1)
  {
    var indices := IndexPairs(|lights|);
    EntriesOfPairs(lights, indices);
    EntriesOf(lights, indices)
  }

  /** Entries for a list of every index pair a < b cover every pair of tiles and nothing else. */
  lemma EntriesOfPairs(lights: seq<Point>, indices: seq<(nat, nat)>)
    requires forall k :: 0 <= k < |indices| ==> indices[k].0 < indices[k].1 < |lights|
    requires forall a, b :: 0 <= a < b < |lights| ==> (a, b) in indices
    ensures forall a, b :: 0 <= a < b < |lights| ==> Entry(lights, (a, b)) in EntriesOf(lights, indices)
    ensures forall k :: 0 <= k < |indices| ==> IsPairOf(lights, EntriesOf(lights, indices)[k].1)
  {
    var r := EntriesOf(lights, indices);
    forall a, b | 0 <= a < b < |lights| ensures Entry(lights, (a, b)) in r {
      var k :| 0 <= k < |indices| && indices[k] == (a, b);
      assert r[k] == Entry(lights, (a, b));
    }
    forall k | 0 <= k < |r| ensures IsPairOf(lights, r[k].1) {
      var a, b := indices[k].0, indices[k].1;
      assert 0 <= a < b < |lights| && r[k].1 == (lights[a], lights[b]);
    }
  }

  /**
   * `part1`: the heap's areas, their maximum, 0 when there is no pair. The
   * result is the largest rectangle over every two tiles, and 0 for fewer
   * than two tiles.
   */
  method Part1(lights: seq<Point>) returns (largest: nat)
    ensures |lights| < 2 ==> largest == 0
    ensures |lights| >= 2 ==> exists a, b :: 0 <= a < b < |lights| && largest == Area((lights[a], lights[b]))
    ensures |lights| >= 2 ==> forall a, b :: 0 <= a < |lights| && 0 <= b < |lights| ==> Area((lights[a], lights[b])) <= largest
  {
    var heap := LightPairs(lights);
    largest := MaxArea(heap);
    LargestOverPairs(lights, heap, largest);
  }

  /** `map(|(_, pair)| pair.area()).max().unwrap_or(0)` over the heap's entries. */
  method MaxArea(heap: seq<(nat, LightPair)>) returns (largest: nat)
    ensures heap == [] ==> largest == 0
    ensures heap != [] ==> exists j :: 0 <= j < |heap| && largest == Area(heap[j].1)
    ensures forall j :: 0 <= j < |heap| ==> Area(heap[j].1) <= largest
  {
    largest := 0;
    for k := 0 to |heap|
      invariant k == 0 ==> largest == 0
      invariant k > 0 ==> exists j :: 0 <= j < k && largest == Area(heap[j].1)
      invariant forall j :: 0 <= j < k ==> Area(heap[j].1) <= largest
    {
      var area := Area(heap[k].1);
      if area > largest {
        largest := area;
      }
    }
  }

  /** The largest area over the heap is the largest over every two tiles. */
  lemma LargestOverPairs(lights: seq<Point>, heap: seq<(nat, LightPair)>, largest: nat)
    requires |heap| == |lights| * (|lights| - 1) / 2
    requires forall a, b :: 0 <= a < b < |lights| ==> Entry(lights, (a, b)) in heap
    requires forall k :: 0 <= k < |heap| ==> IsPairOf(lights, heap[k].1)
    requires heap == [] ==> largest == 0
    requires heap != [] ==> exists j :: 0 <= j < |heap| && largest == Area(heap[j].1)
    requires forall j :: 0 <= j < |heap| ==> Area(heap[j].1) <= largest
    ensures |lights| < 2 ==> largest == 0
    ensures |lights| >= 2 ==> exists a, b :: 0 <= a < b < |lights| && largest == Area((lights[a], lights[b]))
    ensures |lights| >= 2 ==> forall a, b :: 0 <= a < |lights| && 0 <= b < |lights| ==> Area((lights[a], lights[b])) <= largest
  {
    if |lights| >= 2 {
      assert Entry(lights, (0, 1)) in heap;
      var j :| 0 <= j < |heap| && largest == Area(heap[j].1);
      assert IsPairOf(lights, heap[j].1);
      var a, b :| 0 <= a < b < |lights| && heap[j].1 == (lights[a], lights[b]);
    }
    forall a, b | 0 <= a < |lights| && 0 <= b < |lights| && |lights| >= 2 ensures Area((lights[a], lights[b])) <= largest {
      if a < b {
        EntryBounded(lights, heap, largest, a, b);
      } else if b < a {
        EntryBounded(lights, heap, largest, b, a);
        AreaSymmetric(lights[a], lights[b]);
      } else {
        var c := if a == 0 then 1 else 0;
        if a < c {
          EntryBounded(lights, heap, largest, a, c);
        } else {
          EntryBounded(lights, heap, largest, c, a);
        }
      }
    }
  }

  /** The pair of an entry in the heap has an area no larger than the heap's largest. */
  lemma EntryBounded(lights: seq<Point>, heap: seq<(nat, LightPair)>, largest: nat, a: nat, b: nat)
    requires a < b < |lights| && Entry(lights, (a, b)) in heap
    requires forall j :: 0 <= j < |heap| ==> Area(heap[j].1) <= largest
    ensures Area((lights[a], lights[b])) <= largest
  {
    var k :| 0 <= k < |heap| && heap[k] == Entry(lights, (a, b));
    assert heap[k].1 == (lights[a], lights[b]);
  }

  /** `part2`: not solved; always 0. */
  function Part2(lights: seq<Point>): (r: nat)
    ensures r == 0
  {
    0
  }

  // ---------------------------------------------------------------------
  // Parsing

  /**
   * One line of `From<Input>`: split at the first ',', both sides parsed as
   * `usize` and made a point by `new`, which panics above `i32::MAX`. Every
   * panic is None here.
   */
  function ParseLight(line: string): (r: Option<Point>)
    ensures r.Some? ==> exists lhs, rhs ::
      && line == lhs + "," + rhs && ',' !in lhs
      && ParseNat(lhs) == Some(r.value.row) && ParseNat(rhs) == Some(r.value.col)
    ensures r.Some? ==> 0 <= r.value.row <= MaxOf(I32) && 0 <= r.value.col <= MaxOf(I32)
  {
    match SplitOnce(line, ',')
    case None => None
    case Some((lhs, rhs)) =>
      match ParseNat(lhs)
      case None => None
      case Some(row) =>
        match ParseNat(rhs)
        case None => None
        case Some(col) => New(row, col, I32)
  }

  /** A tile written as "row,col" is read back. */
  lemma ParseLightRoundTrip(row: nat, col: nat)
    requires row <= MaxOf(I32) && col <= MaxOf(I32)
    ensures ParseLight(NatToString(row) + "," + NatToString(col)) == Some(Point(row, col))
  {
    var lhs := NatToString(row);
    assert ',' !in lhs by {
      assert forall k :: 0 <= k < |lhs| ==> IsDigit(lhs[k]);
    }
    SplitOnceAt(lhs, ',', NatToString(col));
    assert lhs + "," + NatToString(col) == lhs + [','] + NatToString(col);
    ParseNatRoundTrip(row);
    ParseNatRoundTrip(col);
  }

  /** Every line of the input, in order; any failing line fails the whole. */
  function ParseLights(lines: seq<string>): (r: Option<seq<Point>>)
    ensures r.Some? <==> forall k :: 0 <= k < |lines| ==> ParseLight(lines[k]).Some?
    ensures r.Some? ==> |r.value| == |lines| && forall k :: 0 <= k < |lines| ==> ParseLight(lines[k]) == Some(r.value[k])
  {
    ParseEach(ParseLight, lines)
  }
}
