/**
 * Day 2 (src/day_2.rs): product ids in inclusive ranges. Part 1 adds up the
 * ids whose decimal text is one half written twice; part 2 those whose text
 * is a block written at least twice.
 */
module Day2 {
  import opened Wrappers
  import opened Text
  import Parsing

  /** `RangeInclusive<usize>` as `(start, end)`; empty when start > end. */
  type IdRange = (nat, nat)

  /** `s` is made of copies of its first `w` characters, end to end. */
  predicate RepeatsWith(s: string, w: nat)
  {
    0 < w && |s| % w == 0 && forall i :: w <= i < |s| ==> s[i] == s[i - w]
  }

  /** Every character equals the first (true for the empty string). */
  predicate AllSame(s: string)
  {
    forall i :: 0 <= i < |s| ==> s[i] == s[0]
  }

  /** `has_repetition_twice`: an even length, and the two halves are equal. */
  function HasRepetitionTwice(s: string): (r: bool)
    ensures r <==> |s| % 2 == 0 && (|s| == 0 || RepeatsWith(s, |s| / 2))
  {
    var half := |s| / 2;
    if |s| % 2 == 0 && |s| > 0 then
      HalvesRepeat(s);
      s[..half] == s[half..]
    else
      |s| % 2 == 0 && s[..half] == s[half..]
  }

  /** Equal halves are the first half repeated. */
  lemma HalvesRepeat(s: string)
    requires |s| % 2 == 0 && |s| > 0
    ensures s[..|s| / 2] == s[|s| / 2..] <==> RepeatsWith(s, |s| / 2)
  {
    if s[..|s| / 2] == s[|s| / 2..] {
      EqualHalvesRepeat(s, |s| / 2);
    }
    if RepeatsWith(s, |s| / 2) {
      RepeatGivesEqualHalves(s, |s| / 2);
    }
  }

  lemma EqualHalvesRepeat(s: string, half: nat)
    requires 0 < half && |s| == 2 * half && s[..half] == s[half..]
    ensures RepeatsWith(s, half)
  {
    forall i | half <= i < |s| ensures s[i] == s[i - half] {
      assert s[half..][i - half] == s[..half][i - half];
    }
  }

  lemma RepeatGivesEqualHalves(s: string, half: nat)
    requires |s| == 2 * half && RepeatsWith(s, half)
    ensures s[..half] == s[half..]
  {
    forall j | 0 <= j < half ensures s[half..][j] == s[..half][j] {
      assert s[half..][j] == s[half + j];
    }
  }

  /** What `has_repetition_at_least_twice` decides. */
  predicate RepeatsAtLeastTwice(s: string)
  {
    AllSame(s) || exists w :: 2 <= w <= |s| / 2 && RepeatsWith(s, w)
  }

  lemma ModStep(d: nat, w: nat)
    requires 0 < w <= d
    ensures (d - w) % w == d % w
  {
    var q, r := (d - w) / w, (d - w) % w;
    assert d - w == w * q + r;
    assert d == w * (q + 1) + r;
    ModUnique(d, w, q + 1, r);
  }

  /** Quotient and remainder are unique. */
  lemma ModUnique(x: nat, w: nat, a: int, b: int)
    requires 0 < w && x == w * a + b && 0 <= b < w
    ensures x % w == b
  {
    var q, r := x / w, x % w;
    assert w * (a - q) == r - b;
    if a - q >= 1 {
      assert false;
    } else if a - q <= -1 {
      assert false;
    }
  }

  lemma ModBelow(d: nat, w: nat)
    requires d < w && d % w == 0
    ensures d == 0
  {
  }

  /**
   * `bytes.windows(w).step_by(w).collect::<HashSet<_>>()` for a `w` that
   * divides the length: the set of consecutive blocks of length `w`. It has
   * a single element exactly when the text repeats with period `w`.
   */
  method Blocks(s: string, w: nat) returns (blocks: set<string>)
    requires 0 < w <= |s| && |s| % w == 0
    ensures forall b :: b in blocks ==> |b| == w
    ensures |blocks| == 1 <==> RepeatsWith(s, w)
  {
    blocks := {};
    var start := 0;
    while start + w <= |s|
      invariant start <= |s| && (|s| - start) % w == 0
      invariant forall b :: b in blocks ==> |b| == w
      invariant start == 0 <==> blocks == {}
      invariant start > 0 ==> start >= w && s[..w] in blocks && s[start - w..start] in blocks
      invariant start > 0 ==> (blocks == {s[..w]} <==> forall i :: w <= i < start ==> s[i] == s[i - w])
      decreases |s| - start
    {
      var block := s[start..start + w];
      if start > 0 {
        var previous := s[start - w..start];
        assert block == previous <==> forall i :: start <= i < start + w ==> s[i] == s[i - w] by {
          if block == previous {
            forall i | start <= i < start + w ensures s[i] == s[i - w] {
              assert block[i - start] == previous[i - start];
            }
          }
          if forall i :: start <= i < start + w ==> s[i] == s[i - w] {
            assert forall j :: 0 <= j < w ==> block[j] == previous[j];
          }
        }
        if blocks != {s[..w]} {
          var other :| other in blocks && other != s[..w];
          assert other in blocks + {block};
        }
      }
      ModStep(|s| - start, w);
      blocks := blocks + {block};
      start := start + w;
    }
    ModBelow(|s| - start, w);
    assert |blocks| == 1 <==> blocks == {s[..w]} by {
      if |blocks| == 1 {
        assert |blocks - {s[..w]}| == 0;
      }
    }
  }

  /**
   * `has_repetition_at_least_twice`: all characters equal, or for some block
   * length from 2 to half the length that divides the length, all blocks
   * are equal.
   */
  method HasRepetitionAtLeastTwice(s: string) returns (r: bool)
    ensures r <==> RepeatsAtLeastTwice(s)
  {
    if forall i :: 0 <= i < |s| ==> s[i] == s[0] {
      return true;
    }
    for w := 2 to |s| / 2 + 1
      invariant forall v :: 2 <= v < w ==> !RepeatsWith(s, v)
    {
      if |s| % w == 0 {
        var blocks := Blocks(s, w);
        if |blocks| == 1 {
          return true;
        }
      }
    }
    return false;
  }

  /** An id written as one half twice also counts as a block written at least twice. */
  lemma TwiceImpliesAtLeastTwice(s: string)
    requires HasRepetitionTwice(s)
    ensures RepeatsAtLeastTwice(s)
  {
    if |s| == 2 {
      assert AllSame(s);
    } else if |s| > 2 {
      assert RepeatsWith(s, |s| / 2);
    }
  }

  /** Single-digit ids count in part 2 (all characters equal) but never in part 1. */
  lemma SingleDigits(i: nat)
    requires i < 10
    ensures RepeatsAtLeastTwice(NatToString(i))
    ensures !HasRepetitionTwice(NatToString(i))
  {
    assert |NatToString(i)| == 1;
  }

  // ---------------------------------------------------------------------
  // The two parts

  /** The ids in `lo..=hi` that `keep` accepts, added up. */
  function SumWhere(lo: nat, hi: nat, keep: nat -> bool): nat
    decreases hi + 1 - lo
  {
    if lo > hi then 0 else (if keep(lo) then lo else 0) + SumWhere(lo + 1, hi, keep)
  }

  /** Accepting more ids never makes the sum smaller. */
  lemma {:induction false} SumWhereMonotone(lo: nat, hi: nat, keep: nat -> bool, keepMore: nat -> bool)
    requires forall i :: lo <= i <= hi && keep(i) ==> keepMore(i)
    ensures SumWhere(lo, hi, keep) <= SumWhere(lo, hi, keepMore)
    decreases hi + 1 - lo
  {
    if lo <= hi {
      SumWhereMonotone(lo + 1, hi, keep, keepMore);
    }
  }

  predicate Part1Keeps(i: nat) { HasRepetitionTwice(NatToString(i)) }

  /** Part 2's filter: `has_repetition || has_repetition_twice(string)`. */
  predicate Part2Keeps(i: nat)
  {
    RepeatsAtLeastTwice(NatToString(i)) || HasRepetitionTwice(NatToString(i))
  }

  /** The accepted ids of every range, added up: no range's share exceeds the total. */
  function SumRanges(ranges: seq<IdRange>, keep: nat -> bool): (r: nat)
    ensures forall k :: 0 <= k < |ranges| ==> SumWhere(ranges[k].0, ranges[k].1, keep) <= r
  {
    if ranges == [] then 0
    else
      var rest := SumRanges(ranges[1..], keep);
      assert forall k :: 1 <= k < |ranges| ==> ranges[k] == ranges[1..][k - 1];
      SumWhere(ranges[0].0, ranges[0].1, keep) + rest
  }

  /** `part1`: the ids made of one half twice, over every range, added up. */
  function Part1(ranges: seq<IdRange>): (r: nat)
    ensures forall k :: 0 <= k < |ranges| ==> SumWhere(ranges[k].0, ranges[k].1, Part1Keeps) <= r
  {
    SumRanges(ranges, Part1Keeps)
  }

  /** `part2`: the ids made of one block repeated at least twice, over every range, added up. */
  function Part2(ranges: seq<IdRange>): (r: nat)
    ensures forall k :: 0 <= k < |ranges| ==> SumWhere(ranges[k].0, ranges[k].1, Part2Keeps) <= r
  {
    SumRanges(ranges, Part2Keeps)
  }

  /** Part 2's filter accepts every id part 1's does, so its sum is at least part 1's. */
  lemma {:induction false} Part1AtMostPart2(ranges: seq<IdRange>)
    ensures Part1(ranges) <= Part2(ranges)
  {
    if ranges != [] {
      SumWhereMonotone(ranges[0].0, ranges[0].1, Part1Keeps, Part2Keeps);
      Part1AtMostPart2(ranges[1..]);
    }
  }

  // ---------------------------------------------------------------------
  // Parsing

  /**
   * The whole input: split at ',', each piece split at its first '-' and
   * both sides read as `usize`, as `line_to_range_tuple` does. Any failure
   * panics in the source and gives None here.
   */
  function ParseRanges(contents: string): (r: Option<seq<IdRange>>)
    ensures r.Some? ==> |r.value| == |Split(contents, ',')|
    ensures r.Some? ==> forall k :: 0 <= k < |r.value| ==>
      Parsing.LineToRangeTuple(Split(contents, ',')[k]) == Some(r.value[k])
  {
    ParseEach(Parsing.LineToRangeTuple, Split(contents, ','))
  }

  function FormatRange(range: IdRange): string
  {
    NatToString(range.0) + "-" + NatToString(range.1)
  }

  /** Ranges written as `lo-hi` and joined with ',' read back as the same ranges. */
  lemma ParseRangesRoundTrip(ranges: seq<IdRange>)
    requires ranges != []
    ensures ParseRanges(Join(seq(|ranges|, k requires 0 <= k < |ranges| => FormatRange(ranges[k])), ',')) == Some(ranges)
  {
    var parts := seq(|ranges|, k requires 0 <= k < |ranges| => FormatRange(ranges[k]));
    forall k | 0 <= k < |parts| ensures ',' !in parts[k] && Parsing.LineToRangeTuple(parts[k]) == Some(ranges[k]) {
      Parsing.RangeTupleRoundTrip(ranges[k].0, ranges[k].1);
    }
    SplitJoin(parts, ',');
    ParseEachValues(Parsing.LineToRangeTuple, parts, ranges);
  }
}
