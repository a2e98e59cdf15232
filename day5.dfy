/**
 * Day 5 (src/day_5.rs): ranges of fresh ingredient ids and a list of
 * ingredient ids. Part 1 counts the distinct listed ids that lie in some
 * range; part 2 merges the ranges and counts every id they cover.
 */
module Day5 {
  import opened Wrappers
  import opened Text
  import Sorting
  import Parsing

  /** `FreshIngredients`: `(start, end)`. */
  type Range = (nat, nat)

  /** `is_within_range`: the start is excluded, the end included. */
  predicate IsWithinRange(value: nat, range: Range)
    ensures IsWithinRange(value, range) <==> Covers(range, value) && value != range.0
  {
    range.0 < value <= range.1
  }

  /** The ids a range stands for when read as a closed interval. */
  ghost function Span(r: Range): set<int>
  {
    set x: int | r.0 <= x <= r.1 && Covers(r, x)
  }

  /** The closed interval of `r` holds `x`. */
  predicate Covers(r: Range, x: int)
  {
    r.0 <= x <= r.1
  }

  /** `has_overlap`: the two closed intervals share an id. */
  predicate HasOverlap(r1: Range, r2: Range)
    ensures r1.0 <= r1.1 && r2.0 <= r2.1 ==>
              (HasOverlap(r1, r2) <==> exists x :: Covers(r1, x) && Covers(r2, x))
  {
    var x := if r1.0 < r2.0 then r2.0 else r1.0;
    assert r1.0 <= r1.1 && r2.0 <= r2.1 && r1.0 <= r2.1 && r2.0 <= r1.1 ==> Covers(r1, x) && Covers(r2, x);
    r1.0 <= r2.1 && r2.0 <= r1.1
  }

  /** `intersection`: despite its name, the smallest range holding both. */
  function Intersection(r1: Range, r2: Range): (r: Range)
    ensures r.0 <= r1.0 && r.0 <= r2.0 && r1.1 <= r.1 && r2.1 <= r.1
    ensures (r.0 == r1.0 || r.0 == r2.0) && (r.1 == r1.1 || r.1 == r2.1)
  {
    (if r1.0 < r2.0 then r1.0 else r2.0, if r1.1 > r2.1 then r1.1 else r2.1)
  }

  /** Overlap is the sharing of an id, whichever range comes first. */
  lemma HasOverlapIffShared(r1: Range, r2: Range)
    requires r1.0 <= r1.1 && r2.0 <= r2.1
    ensures HasOverlap(r1, r2) <==> Span(r1) * Span(r2) != {}
    ensures HasOverlap(r1, r2) == HasOverlap(r2, r1)
  {
    if HasOverlap(r1, r2) {
      var x := if r1.0 < r2.0 then r2.0 else r1.0;
      assert x in Span(r1) * Span(r2);
    }
  }

  /** For overlapping ranges the hull covers exactly the ids of the two. */
  lemma HullOfOverlapping(r1: Range, r2: Range)
    requires r1.0 <= r1.1 && r2.0 <= r2.1 && HasOverlap(r1, r2)
    ensures Span(Intersection(r1, r2)) == Span(r1) + Span(r2)
  {
  }

  // ---------------------------------------------------------------------
  // Part 1

  /** The distinct listed ids that `is_within_range` accepts for some range. */
  ghost function FreshIds(ranges: seq<Range>, ingredients: seq<nat>): set<nat>
  {
    set v | v in ingredients && exists k :: 0 <= k < |ranges| && IsWithinRange(v, ranges[k])
  }

  /** `part1`: every id is tried against every range and collected in a set. */
  method Part1(ranges: seq<Range>, ingredients: seq<nat>) returns (count: nat)
    ensures count == |FreshIds(ranges, ingredients)|
  {
    var freshIngredients: set<nat> := {};
    for i := 0 to |ingredients|
      invariant freshIngredients == FreshIds(ranges, ingredients[..i])
    {
      var ingredient := ingredients[i];
      ghost var before := freshIngredients;
      for k := 0 to |ranges|
        invariant freshIngredients == before +
          (if exists q :: 0 <= q < k && IsWithinRange(ingredient, ranges[q]) then {ingredient} else {})
      {
        if IsWithinRange(ingredient, ranges[k]) {
          freshIngredients := freshIngredients + {ingredient};
        }
      }
      assert ingredients[..i + 1] == ingredients[..i] + [ingredient];
    }
    assert ingredients[..|ingredients|] == ingredients;
    count := |freshIngredients|;
  }

  /**
   * Part 1 misses an id equal to a range's start, which part 2 counts as
   * covered: with the range 3-5, id 3 is not fresh.
   */
  lemma StartIdNotFresh()
    ensures 3 in Span((3, 5))
    ensures FreshIds([(3, 5)], [3]) == {}
  {
    assert Covers((3, 5), 3);
  }

  /** The membership test the two parts agree on: both ends included. */
  predicate IsWithinRangeInclusive(value: nat, range: Range)
  {
    range.0 <= value <= range.1
  }

  /**
   * The inclusive test accepts exactly the ids part 2 counts for a range,
   * and everything the test as written accepts.
   */
  lemma InclusiveAgreesWithPart2(value: nat, range: Range)
    ensures IsWithinRangeInclusive(value, range) <==> value in Span(range)
    ensures IsWithinRange(value, range) ==> IsWithinRangeInclusive(value, range)
    ensures IsWithinRangeInclusive(value, range) && !IsWithinRange(value, range) <==> value == range.0 <= range.1
  {
    if IsWithinRangeInclusive(value, range) {
      assert Covers(range, value);
    }
  }

  // ---------------------------------------------------------------------
  // Part 2

  /** Every range has its start at or below its end. */
  predicate WellFormed(ranges: seq<Range>)
  {
    forall k :: 0 <= k < |ranges| ==> ranges[k].0 <= ranges[k].1
  }

  /** All ids covered by the ranges. */
  ghost function Union(ranges: seq<Range>): set<int>
  {
    if ranges == [] then {} else Union(ranges[..|ranges| - 1]) + Span(ranges[|ranges| - 1])
  }

  /** An id is covered exactly when some range holds it. */
  lemma {:induction false} InUnion(ranges: seq<Range>, x: int)
    ensures x in Union(ranges) <==> exists k :: 0 <= k < |ranges| && ranges[k].0 <= x <= ranges[k].1
  {
    if ranges != [] {
      var init := ranges[..|ranges| - 1];
      InUnion(init, x);
      if exists k :: 0 <= k < |ranges| && ranges[k].0 <= x <= ranges[k].1 {
        var k :| 0 <= k < |ranges| && ranges[k].0 <= x <= ranges[k].1;
        if k < |init| {
          assert init[k] == ranges[k];
        }
      }
    }
  }

  /** The covered ids depend only on which ranges there are, not their order. */
  lemma UnionOfPermutation(s: seq<Range>, t: seq<Range>)
    requires multiset(s) == multiset(t)
    ensures Union(s) == Union(t)
  {
    forall x: int | x in Union(s) ensures x in Union(t) {
      CoveredByPermutation(s, t, x);
    }
    forall x: int | x in Union(t) ensures x in Union(s) {
      CoveredByPermutation(t, s, x);
    }
  }

  lemma CoveredByPermutation(s: seq<Range>, t: seq<Range>, x: int)
    requires multiset(s) == multiset(t) && x in Union(s)
    ensures x in Union(t)
  {
    InUnion(s, x);
    var k :| 0 <= k < |s| && s[k].0 <= x <= s[k].1;
    assert s[k] in multiset(t);
    var j :| 0 <= j < |t| && t[j] == s[k];
    InUnion(t, x);
  }

  /** Sorted by start, and each range ends before the next begins. */
  predicate Separated(ranges: seq<Range>)
  {
    forall j, k :: 0 <= j < k < |ranges| ==> ranges[j].1 < ranges[k].0
  }

  /** `sort_by` on the start. */
  function ByStart(): (Range, Range) -> bool
  {
    (a: Range, b: Range) => a.0 <= b.0
  }

  lemma ByStartIsTotalPreorder()
    ensures Sorting.TotalPreorder(ByStart())
  {
  }

  /** The final fold: `end - start + 1` per range, added up. */
  function CountIds(ranges: seq<Range>): nat
    requires WellFormed(ranges)
  {
    if ranges == [] then 0
    else CountIds(ranges[..|ranges| - 1]) + (ranges[|ranges| - 1].1 - ranges[|ranges| - 1].0) + 1
  }

  lemma {:induction false} SpanSize(lo: nat, hi: nat)
    requires lo <= hi + 1
    ensures |Span((lo, hi))| == hi + 1 - lo
    decreases hi + 1 - lo
  {
    if lo <= hi {
      SpanSize(lo + 1, hi);
      assert Span((lo, hi)) == Span((lo + 1, hi)) + {lo};
    } else {
      assert Span((lo, hi)) == {};
    }
  }

  /** Covered ids of separated ranges lie below the last range's end. */
  lemma {:induction false} UnionBelow(ranges: seq<Range>, bound: int)
    requires forall k :: 0 <= k < |ranges| ==> ranges[k].1 < bound
    ensures forall x :: x in Union(ranges) ==> x < bound
  {
    forall x | x in Union(ranges) ensures x < bound {
      InUnion(ranges, x);
    }
  }

  /** For separated ranges, the fold counts the covered ids exactly. */
  lemma {:induction false} CountIdsIsUnionSize(ranges: seq<Range>)
    requires WellFormed(ranges) && Separated(ranges)
    ensures CountIds(ranges) == |Union(ranges)|
  {
    if ranges != [] {
      var init, last := ranges[..|ranges| - 1], ranges[|ranges| - 1];
      CountIdsIsUnionSize(init);
      UnionBelow(init, last.0);
      SpanSize(last.0, last.1);
      assert Union(init) * Span(last) == {};
      assert |Union(init) + Span(last)| == |Union(init)| + |Span(last)|;
    }
  }

  /**
   * One step of the merge loop: the range hits only the last kept range
   * (every earlier one ends before the last begins), which then grows to the
   * hull; otherwise the range is pushed.
   */
  method MergeOne(validIdRanges: seq<Range>, freshRange: Range) returns (merged: seq<Range>)
    requires WellFormed(validIdRanges) && Separated(validIdRanges)
    requires freshRange.0 <= freshRange.1
    requires forall k :: 0 <= k < |validIdRanges| ==> validIdRanges[k].0 <= freshRange.0
    ensures WellFormed(merged) && Separated(merged)
    ensures Union(merged) == Union(validIdRanges) + Span(freshRange)
    ensures merged != [] && merged[0].0 == if validIdRanges == [] then freshRange.0 else validIdRanges[0].0
    ensures forall k :: 0 <= k < |merged| ==> merged[k].0 <= freshRange.0
  {
    var n := |validIdRanges|;
    var ranges := validIdRanges;
    var added := false;
    for j := 0 to n
      invariant !added ==> ranges == validIdRanges
      invariant added ==> j == n && n > 0 && ranges == validIdRanges[n - 1 := Intersection(freshRange, validIdRanges[n - 1])]
      invariant added <==> j == n && n > 0 && HasOverlap(freshRange, validIdRanges[n - 1])
    {
      if j < n - 1 {
        assert validIdRanges[j].1 < validIdRanges[j + 1].0;
      }
      if HasOverlap(freshRange, ranges[j]) {
        ranges := ranges[j := Intersection(freshRange, ranges[j])];
        added := true;
      }
    }
    if !added {
      ranges := ranges + [freshRange];
      Pushed(validIdRanges, freshRange);
    } else {
      Absorbed(validIdRanges, freshRange);
    }
    merged := ranges;
  }

  /** The merge loop's result for `next` added to `valid`. */
  ghost predicate MergedInto(merged: seq<Range>, valid: seq<Range>, next: Range)
  {
    && WellFormed(merged) && Separated(merged)
    && Union(merged) == Union(valid) + Span(next)
    && merged != [] && merged[0].0 == (if valid == [] then next.0 else valid[0].0)
    && forall k :: 0 <= k < |merged| ==> merged[k].0 <= next.0
  }

  /** A range that misses the last kept range is pushed after it. */
  lemma Pushed(valid: seq<Range>, next: Range)
    requires WellFormed(valid) && Separated(valid) && next.0 <= next.1
    requires forall k :: 0 <= k < |valid| ==> valid[k].0 <= next.0
    requires valid == [] || !HasOverlap(next, valid[|valid| - 1])
    ensures MergedInto(valid + [next], valid, next)
  {
    assert (valid + [next])[..|valid|] == valid;
  }

  /** A range that meets the last kept range widens it to the hull of the two. */
  lemma Absorbed(valid: seq<Range>, next: Range)
    requires WellFormed(valid) && Separated(valid) && next.0 <= next.1
    requires forall k :: 0 <= k < |valid| ==> valid[k].0 <= next.0
    requires valid != [] && HasOverlap(next, valid[|valid| - 1])
    ensures MergedInto(valid[|valid| - 1 := Intersection(next, valid[|valid| - 1])], valid, next)
  {
    var n := |valid|;
    var merged := valid[n - 1 := Intersection(next, valid[n - 1])];
    HullOfOverlapping(next, valid[n - 1]);
    assert merged[..n - 1] == valid[..n - 1];
  }

  /**
   * `part2`: the ranges sorted by start are merged one by one into a list
   * of separated ranges, whose sizes are then added up.
   */
  method Part2(freshIds: seq<Range>) returns (total: nat)
    requires WellFormed(freshIds)
    ensures total == |Union(freshIds)|
  {
    ByStartIsTotalPreorder();
    var sortedFreshIds := Sorting.SortBy(freshIds, ByStart());
    assert WellFormed(sortedFreshIds) by {
      forall k | 0 <= k < |sortedFreshIds| ensures sortedFreshIds[k].0 <= sortedFreshIds[k].1 {
        assert sortedFreshIds[k] in multiset(freshIds);
      }
    }
    assert forall j, k :: 0 <= j < k < |sortedFreshIds| ==> ByStart()(sortedFreshIds[j], sortedFreshIds[k]);
    var validIdRanges := MergeAll(sortedFreshIds);
    UnionOfPermutation(sortedFreshIds, freshIds);
    CountIdsIsUnionSize(validIdRanges);
    total := CountIds(validIdRanges);
  }

  /** The merge loop of part 2 over ranges sorted by start. */
  method MergeAll(sorted: seq<Range>) returns (validIdRanges: seq<Range>)
    requires WellFormed(sorted)
    requires forall j, k :: 0 <= j < k < |sorted| ==> sorted[j].0 <= sorted[k].0
    ensures WellFormed(validIdRanges) && Separated(validIdRanges)
    ensures Union(validIdRanges) == Union(sorted)
  {
    validIdRanges := [];
    for i := 0 to |sorted|
      invariant WellFormed(validIdRanges) && Separated(validIdRanges)
      invariant Union(validIdRanges) == Union(sorted[..i])
      invariant i < |sorted| ==> forall k :: 0 <= k < |validIdRanges| ==> validIdRanges[k].0 <= sorted[i].0
    {
      validIdRanges := MergeOne(validIdRanges, sorted[i]);
      assert sorted[..i + 1][..i] == sorted[..i];
    }
    assert sorted[..|sorted|] == sorted;
  }

  // ---------------------------------------------------------------------
  // Parsing

  /** `take_while(|line| !line.is_empty())`: how many leading lines are not empty. */
  function LeadingNonEmpty(lines: seq<string>): (n: nat)
    ensures n <= |lines|
    ensures forall k :: 0 <= k < n ==> lines[k] != ""
    ensures n < |lines| ==> lines[n] == ""
  {
    if lines == [] || lines[0] == "" then 0 else 1 + LeadingNonEmpty(lines[1..])
  }

  /**
   * `From<Input>`: the ranges up to the first empty line, each split at its
   * first '-'; then, after skipping one line more than there were ranges,
   * one id per line. Any line that would panic gives None.
   */
  function ParseDatabase(lines: seq<string>): (r: Option<(seq<Range>, seq<nat>)>)
    ensures r.Some? ==>
      var n := LeadingNonEmpty(lines);
      var rest := if n + 1 <= |lines| then lines[n + 1..] else [];
      && |r.value.0| == n && |r.value.1| == |rest|
      && (forall k :: 0 <= k < n ==> Parsing.LineToRangeTuple(lines[k]) == Some(r.value.0[k]))
      && (forall k :: 0 <= k < |rest| ==> ParseNat(rest[k]) == Some(r.value.1[k]))
    ensures r.None? ==>
      var n := LeadingNonEmpty(lines);
      var rest := if n + 1 <= |lines| then lines[n + 1..] else [];
      || (exists k :: 0 <= k < n && Parsing.LineToRangeTuple(lines[k]).None?)
      || (exists k :: 0 <= k < |rest| && ParseNat(rest[k]).None?)
  {
    var n := LeadingNonEmpty(lines);
    var rest := if n + 1 <= |lines| then lines[n + 1..] else [];
    match (ParseEach(Parsing.LineToRangeTuple, lines[..n]), ParseEach(ParseNat, rest))
    case (Some(ranges), Some(ids)) => Some((ranges, ids))
    case (None, _) =>
      assert exists k :: 0 <= k < n && Parsing.LineToRangeTuple(lines[..n][k]).None?;
      None
    case (_, None) => None
  }
}
