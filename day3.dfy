/**
 * Day 3 (src/day_3.rs): banks of single-digit batteries. From each bank a
 * fixed number of batteries is switched on, keeping their order, and the
 * digits read as a decimal number give the bank's joltage. The greedy
 * choice picks, for every position, the first largest digit that still
 * leaves enough batteries after it.
 */
module Day3 {
  import opened Wrappers

  /** The index of the first largest element of `slice[lo..hi]`, which is not empty. */
  function FirstMax(slice: seq<nat>, lo: nat, hi: nat): (i: nat)
    requires lo < hi <= |slice|
    ensures lo <= i < hi
    decreases hi
  {
    if hi == lo + 1 then lo
    else
      var k := FirstMax(slice, lo, hi - 1);
      if slice[hi - 1] > slice[k] then hi - 1 else k
  }

  /** No element of the run is larger, and every one before it is smaller. */
  lemma {:induction false} FirstMaxIsFirstMax(slice: seq<nat>, lo: nat, hi: nat)
    requires lo < hi <= |slice|
    ensures forall j :: lo <= j < hi ==> slice[j] <= slice[FirstMax(slice, lo, hi)]
    ensures forall j :: lo <= j < FirstMax(slice, lo, hi) ==> slice[j] < slice[FirstMax(slice, lo, hi)]
    decreases hi
  {
    if hi > lo + 1 {
      FirstMaxIsFirstMax(slice, lo, hi - 1);
    }
  }

  function Min(a: nat, b: nat): nat { if a < b then a else b }

  /**
   * `find_next_largest`: in the window `skip(offset).take(limit)`, the
   * index (relative to `offset`) and value of the first largest element.
   * An empty window gives `(0, slice[0])`; the fallback is evaluated in any
   * case, so the source panics on an empty slice.
   */
  function FindNextLargest(slice: seq<nat>, offset: nat, limit: nat): (r: (nat, nat))
    requires slice != []
    ensures Min(offset, |slice|) == Min(offset + limit, |slice|) ==> r == (0, slice[0])
    ensures offset < Min(offset + limit, |slice|) ==>
      offset + r.0 < Min(offset + limit, |slice|) && r.1 == slice[offset + r.0]
  {
    var lo, hi := Min(offset, |slice|), Min(offset + limit, |slice|);
    if lo == hi then (0, slice[0])
    else
      var i := FirstMax(slice, lo, hi);
      (i - lo, slice[i])
  }

  /** The element found is the first largest of the window. */
  lemma FindNextLargestIsFirstMax(slice: seq<nat>, offset: nat, limit: nat)
    requires slice != [] && offset < Min(offset + limit, |slice|)
    ensures var r := FindNextLargest(slice, offset, limit);
      && (forall j :: offset <= j < Min(offset + limit, |slice|) ==> slice[j] <= r.1)
      && (forall j :: offset <= j < offset + r.0 ==> slice[j] < r.1)
  {
    FirstMaxIsFirstMax(slice, offset, Min(offset + limit, |slice|));
  }

  /** Indices strictly increasing: a subsequence. */
  ghost predicate Increasing(idx: seq<nat>)
  {
    forall a, b :: 0 <= a < b < |idx| ==> idx[a] < idx[b]
  }

  /**
   * The offset from `skip` of the greedy pick when `remaining` digits are
   * still to come: the window leaves `remaining - 1` elements after it.
   */
  function Pick(slice: seq<nat>, skip: nat, remaining: nat): (i: nat)
    requires 0 < remaining && skip + remaining <= |slice|
    ensures skip + i + remaining <= |slice|
  {
    FirstMax(slice, skip, |slice| - remaining + 1) - skip
  }

  /** The indices the greedy loop picks for `remaining` more digits, starting at `skip`. */
  function GreedyFrom(slice: seq<nat>, skip: nat, remaining: nat): (r: seq<nat>)
    requires skip + remaining <= |slice|
    ensures |r| == remaining
    decreases remaining
  {
    if remaining == 0 then []
    else
      var i := Pick(slice, skip, remaining);
      [skip + i] + GreedyFrom(slice, skip + i + 1, remaining - 1)
  }

  /** The greedy picks: from `skip` on, increasing, each leaving room for the picks after it. */
  lemma {:induction false} GreedyShape(slice: seq<nat>, skip: nat, remaining: nat)
    requires skip + remaining <= |slice|
    ensures var r := GreedyFrom(slice, skip, remaining);
      && (forall k :: 0 <= k < |r| ==> skip <= r[k] && r[k] + (remaining - k) <= |slice|)
      && Increasing(r)
    decreases remaining
  {
    if remaining > 0 {
      var i := Pick(slice, skip, remaining);
      var rest := GreedyFrom(slice, skip + i + 1, remaining - 1);
      GreedyShape(slice, skip + i + 1, remaining - 1);
      var r := GreedyFrom(slice, skip, remaining);
      assert forall k :: 1 <= k < |r| ==> r[k] == rest[k - 1];
    }
  }

  /** The digit at index `i` (an index past the end reads as 0; none is). */
  function Digit(slice: seq<nat>, i: nat): nat
  {
    if i < |slice| then slice[i] else 0
  }

  /** The digits at the given indices, in their order. */
  function Select(slice: seq<nat>, idx: seq<nat>): (r: seq<nat>)
    ensures |r| == |idx|
  {
    if idx == [] then [] else [Digit(slice, idx[0])] + Select(slice, idx[1..])
  }

  /** Selecting one more index appends its digit. */
  lemma {:induction false} SelectAppend(slice: seq<nat>, idx: seq<nat>, x: nat)
    ensures Select(slice, idx + [x]) == Select(slice, idx) + [Digit(slice, x)]
    decreases |idx|
  {
    if idx == [] {
      assert [x][1..] == [];
    } else {
      assert (idx + [x])[1..] == idx[1..] + [x];
      SelectAppend(slice, idx[1..], x);
    }
  }

  /** Digits selected from digits are digits. */
  lemma {:induction false} SelectDigits(slice: seq<nat>, idx: seq<nat>)
    requires Digits(slice)
    ensures Digits(Select(slice, idx))
    decreases |idx|
  {
    if idx != [] {
      SelectDigits(slice, idx[1..]);
    }
  }

  /** `jolts = jolts * 10 + value` over the digits, first digit most significant. */
  function Number(ds: seq<nat>): nat
  {
    if ds == [] then 0 else Number(ds[..|ds| - 1]) * 10 + ds[|ds| - 1]
  }

  /** What `find_max_joltage(slice, length)` returns. */
  function MaxJoltage(slice: seq<nat>, length: nat): nat
    requires 1 <= length <= |slice|
  {
    Number(Select(slice, GreedyFrom(slice, 0, length)))
  }

  /**
   * `find_max_joltage`: the first pick looks at all but the last
   * `length - 1` elements, and each later pick at the window after the
   * previous pick that still leaves room for the digits to come.
   */
  method FindMaxJoltage(slice: seq<nat>, length: nat) returns (jolts: nat)
    requires 1 <= length <= |slice|
    ensures jolts == MaxJoltage(slice, length)
  {
    ContinueFromStart(slice, length);
    var first := FindNextLargest(slice, 0, |slice| - (length - 1));
    var index, value := first.0, first.1;
    var skipCount: nat := index + 1;
    var cellCount := 1;
    ghost var todo: nat := length - 1;
    jolts := value;
    assert |slice| - (length - 1) == |slice| - 0 - length + 1;
    ContinueStep(slice, 0, length, 0, |slice| - (length - 1), first, skipCount, todo, jolts);
    while cellCount < length
      invariant cellCount <= length && todo == length - cellCount && skipCount + todo <= |slice|
      invariant Continue(slice, skipCount, todo, jolts) == MaxJoltage(slice, length)
    {
      var window := |slice| - skipCount - (length - cellCount) + 1;
      var found := FindNextLargest(slice, skipCount, window);
      ghost var (skip0, todo0, jolts0) := (skipCount, todo, jolts);
      var i, v := found.0, found.1;
      skipCount := skipCount + i + 1;
      cellCount := cellCount + 1;
      todo := todo - 1;
      jolts := jolts * 10 + v;
      ContinueStep(slice, skip0, todo0, jolts0, window, found, skipCount, todo, jolts);
    }
  }

  /**
   * The loop's view of the greedy number: with `acc` read so far, pick the
   * `todo` digits still to come from `skip` on and append them to `acc`.
   */
  function Continue(slice: seq<nat>, skip: nat, todo: nat, acc: nat): nat
    requires skip + todo <= |slice|
    decreases todo
  {
    if todo == 0 then acc
    else
      var i := Pick(slice, skip, todo);
      Continue(slice, skip + i + 1, todo - 1, acc * 10 + slice[skip + i])
  }

  /** `jolts = jolts * 10 + value` for each of `ds` in turn, starting from `acc`. */
  function Fold(acc: nat, ds: seq<nat>): nat
    decreases |ds|
  {
    if ds == [] then acc else Fold(acc * 10 + ds[0], ds[1..])
  }

  /** Folding more digits into a number reads the digits after its own. */
  lemma {:induction false} FoldAppends(prefix: seq<nat>, ds: seq<nat>)
    ensures Fold(Number(prefix), ds) == Number(prefix + ds)
    decreases |ds|
  {
    if ds == [] {
      assert prefix + ds == prefix;
    } else {
      var next := prefix + [ds[0]];
      assert next[..|next| - 1] == prefix;
      FoldAppends(next, ds[1..]);
      assert next + ds[1..] == prefix + ds;
    }
  }

  /** The loop's view reads the digits of the greedy picks still to come. */
  lemma {:induction false} ContinueFolds(slice: seq<nat>, skip: nat, todo: nat, acc: nat)
    requires skip + todo <= |slice|
    ensures Continue(slice, skip, todo, acc) == Fold(acc, Select(slice, GreedyFrom(slice, skip, todo)))
    decreases todo
  {
    if todo > 0 {
      var x: nat := skip + Pick(slice, skip, todo);
      var rest := GreedyFrom(slice, x + 1, todo - 1);
      GreedyStep(slice, skip, todo);
      assert ([x] + rest)[1..] == rest;
      ContinueFolds(slice, x + 1, todo - 1, acc * 10 + slice[x]);
    }
  }

  /** Starting from nothing, the loop's view is `MaxJoltage`. */
  lemma ContinueFromStart(slice: seq<nat>, length: nat)
    requires 1 <= length <= |slice|
    ensures Continue(slice, 0, length, 0) == MaxJoltage(slice, length)
  {
    var ds := Select(slice, GreedyFrom(slice, 0, length));
    ContinueFolds(slice, 0, length, 0);
    FoldAppends([], ds);
    assert [] + ds == ds;
  }

  /** One turn of the loop: the window's first largest element is the next greedy pick. */
  lemma ContinueStep(slice: seq<nat>, skip: nat, todo: nat, acc: nat, window: int, found: (nat, nat),
                     skip': nat, todo': nat, acc': nat)
    requires 0 < todo && skip + todo <= |slice|
    requires window == |slice| - skip - todo + 1 && found == FindNextLargest(slice, skip, window)
    requires skip' == skip + found.0 + 1 && todo' == todo - 1 && acc' == acc * 10 + found.1
    ensures skip' + todo' <= |slice|
    ensures Continue(slice, skip, todo, acc) == Continue(slice, skip', todo', acc')
  {
    PickFound(slice, skip, todo);
  }

  /** One greedy pick: the first largest element of the window, then the rest after it. */
  lemma GreedyStep(slice: seq<nat>, skip: nat, remaining: nat)
    requires 0 < remaining && skip + remaining <= |slice|
    ensures var i := Pick(slice, skip, remaining);
      && FindNextLargest(slice, skip, |slice| - skip - remaining + 1) == (i, slice[skip + i])
      && GreedyFrom(slice, skip, remaining) == [skip + i] + GreedyFrom(slice, skip + i + 1, remaining - 1)
  {
    PickFound(slice, skip, remaining);
  }

  /** The window of a pick is not empty, so `find_next_largest` finds an element in it. */
  lemma PickFound(slice: seq<nat>, skip: nat, remaining: nat)
    requires 0 < remaining && skip + remaining <= |slice|
    ensures var i := Pick(slice, skip, remaining);
      FindNextLargest(slice, skip, |slice| - skip - remaining + 1) == (i, slice[skip + i])
  {
    var limit := |slice| - skip - remaining + 1;
    assert Min(skip, |slice|) == skip;
    assert Min(skip + limit, |slice|) == |slice| - remaining + 1;
  }

  // ---------------------------------------------------------------------
  // The greedy choice is the largest number

  /** `a` is at most `b` in dictionary order (equal lengths). */
  predicate LexLe(a: seq<nat>, b: seq<nat>)
    requires |a| == |b|
  {
    a == [] || a[0] < b[0] || (a[0] == b[0] && LexLe(a[1..], b[1..]))
  }

  function Pow10(n: nat): (r: nat)
    ensures r >= 1
  {
    if n == 0 then 1 else 10 * Pow10(n - 1)
  }

  predicate Digits(ds: seq<nat>) { forall k :: 0 <= k < |ds| ==> ds[k] < 10 }

  /** The number read from the front: the first digit has weight 10^(n-1). */
  lemma {:induction false} NumberFront(ds: seq<nat>)
    requires ds != []
    ensures Number(ds) == ds[0] * Pow10(|ds| - 1) + Number(ds[1..])
    decreases |ds|
  {
    if |ds| > 1 {
      var init := ds[..|ds| - 1];
      NumberFront(init);
      assert init[1..] == ds[1..][..|ds| - 2];
      assert ds[0] * Pow10(|ds| - 1) == ds[0] * Pow10(|ds| - 2) * 10;
    } else {
      assert ds[..0] == [] && ds[1..] == [];
    }
  }

  /** Fewer than n digits stay below 10^n. */
  lemma {:induction false} NumberBound(ds: seq<nat>)
    requires Digits(ds)
    ensures Number(ds) < Pow10(|ds|)
    decreases |ds|
  {
    if ds != [] {
      var init := ds[..|ds| - 1];
      NumberBound(init);
      assert Number(init) + 1 <= Pow10(|init|);
    }
  }

  /** For digit strings of one length, dictionary order is numeric order. */
  lemma {:induction false} LexLeNumber(a: seq<nat>, b: seq<nat>)
    requires |a| == |b| && Digits(a) && Digits(b) && LexLe(a, b)
    ensures Number(a) <= Number(b)
    decreases |a|
  {
    if a != [] {
      NumberFront(a);
      NumberFront(b);
      var p := Pow10(|a| - 1);
      if a[0] < b[0] {
        NumberBound(a[1..]);
        LeadingDigitDominates(a[0], b[0], p, Number(a[1..]), Number(b[1..]));
      } else {
        LexLeNumber(a[1..], b[1..]);
      }
    }
  }

  /** A smaller leading digit loses whatever follows, when what follows is below the weight. */
  lemma LeadingDigitDominates(x: nat, y: nat, p: nat, restX: nat, restY: nat)
    requires x < y && restX < p
    ensures x * p + restX <= y * p + restY
  {
    var d := y - x;
    assert y * p == x * p + d * p;
    assert d * p == p + (d - 1) * p;
  }

  /**
   * The greedy pick is, in dictionary order, at least every other choice of
   * `remaining` increasing indices from `skip` on.
   */
  lemma {:induction false} GreedyIsLexMax(slice: seq<nat>, skip: nat, remaining: nat, idx: seq<nat>)
    requires skip + remaining <= |slice|
    requires |idx| == remaining && Increasing(idx)
    requires forall k :: 0 <= k < |idx| ==> skip <= idx[k] < |slice|
    ensures LexLe(Select(slice, idx), Select(slice, GreedyFrom(slice, skip, remaining)))
    decreases remaining
  {
    if remaining > 0 {
      var greedy := GreedyFrom(slice, skip, remaining);
      GreedyShape(slice, skip, remaining);
      FirstIndexFits(idx, |slice|);
      GreedyFirst(slice, skip, remaining, idx[0]);
      var a, g := Select(slice, idx), Select(slice, greedy);
      if a[0] == g[0] {
        GreedyIsLexMax(slice, greedy[0] + 1, remaining - 1, idx[1..]);
      }
    }
  }

  /**
   * The greedy first pick is the first largest element among the
   * positions that leave room for the other picks.
   */
  lemma GreedyFirst(slice: seq<nat>, skip: nat, remaining: nat, j: nat)
    requires 0 < remaining && skip + remaining <= |slice|
    requires skip <= j && j + remaining <= |slice|
    ensures slice[j] <= slice[GreedyFrom(slice, skip, remaining)[0]]
    ensures slice[j] == slice[GreedyFrom(slice, skip, remaining)[0]] ==> GreedyFrom(slice, skip, remaining)[0] <= j
    ensures GreedyFrom(slice, skip, remaining)[1..] == GreedyFrom(slice, GreedyFrom(slice, skip, remaining)[0] + 1, remaining - 1)
  {
    GreedyStep(slice, skip, remaining);
    FindNextLargestIsFirstMax(slice, skip, |slice| - skip - remaining + 1);
  }

  /** The first of n increasing indices below `bound` leaves room for the other n - 1. */
  lemma FirstIndexFits(idx: seq<nat>, bound: nat)
    requires idx != [] && Increasing(idx)
    requires forall k :: 0 <= k < |idx| ==> idx[k] < bound
    ensures idx[0] + |idx| <= bound
  {
    IncreasingSpread(idx, 0, |idx| - 1);
  }

  /** Increasing naturals grow by at least one per step. */
  lemma {:induction false} IncreasingSpread(idx: seq<nat>, a: nat, b: nat)
    requires Increasing(idx) && a <= b < |idx|
    ensures idx[b] >= idx[a] + (b - a)
    decreases b - a
  {
    if a < b {
      IncreasingSpread(idx, a + 1, b);
    }
  }

  /**
   * `find_max_joltage` returns the largest number that `length` digits of
   * the bank, taken in order, can form.
   */
  lemma MaxJoltageIsMaximal(slice: seq<nat>, length: nat, idx: seq<nat>)
    requires 1 <= length <= |slice| && Digits(slice)
    requires |idx| == length && Increasing(idx)
    requires forall k :: 0 <= k < |idx| ==> idx[k] < |slice|
    ensures Number(Select(slice, idx)) <= MaxJoltage(slice, length)
  {
    var greedy := GreedyFrom(slice, 0, length);
    GreedyIsLexMax(slice, 0, length, idx);
    SelectDigits(slice, idx);
    SelectDigits(slice, greedy);
    LexLeNumber(Select(slice, idx), Select(slice, greedy));
  }

  /** ... and it is itself such a number. */
  lemma MaxJoltageIsAttained(slice: seq<nat>, length: nat)
    requires 1 <= length <= |slice|
    ensures exists idx: seq<nat> ::
      && |idx| == length && Increasing(idx)
      && (forall k :: 0 <= k < |idx| ==> idx[k] < |slice|)
      && Number(Select(slice, idx)) == MaxJoltage(slice, length)
  {
    var greedy := GreedyFrom(slice, 0, length);
    GreedyShape(slice, 0, length);
    assert Number(Select(slice, greedy)) == MaxJoltage(slice, length);
  }

  // ---------------------------------------------------------------------
  // The two parts and parsing

  /** `solve(length)`: the joltages of all banks, added up. */
  function Solve(banks: seq<seq<nat>>, length: nat): (r: nat)
    requires Fits(banks, length)
    ensures forall k :: 0 <= k < |banks| ==> MaxJoltage(banks[k], length) <= r
  {
    if banks == [] then 0
    else
      assert forall k :: 1 <= k < |banks| ==> banks[1..][k - 1] == banks[k];
      MaxJoltage(banks[0], length) + Solve(banks[1..], length)
  }

  /** Every bank holds at least `length` batteries, and `length` is at least 1. */
  predicate Fits(banks: seq<seq<nat>>, length: nat)
  {
    forall k :: 0 <= k < |banks| ==> 1 <= length <= |banks[k]|
  }

  /** The total splits over a concatenation of bank lists. */
  lemma {:induction false} SolveAppend(a: seq<seq<nat>>, b: seq<seq<nat>>, length: nat)
    requires Fits(a, length) && Fits(b, length)
    ensures Fits(a + b, length)
    ensures Solve(a + b, length) == Solve(a, length) + Solve(b, length)
    decreases |a|
  {
    assert forall k :: 0 <= k < |a| ==> (a + b)[k] == a[k];
    assert forall k :: |a| <= k < |a + b| ==> (a + b)[k] == b[k - |a|];
    if a == [] {
      assert a + b == b;
    } else {
      assert (a + b)[1..] == a[1..] + b;
      assert forall k :: 1 <= k < |a| ==> a[1..][k - 1] == a[k];
      SolveAppend(a[1..], b, length);
    }
  }

  /** `part1`: the largest two-digit joltage of every bank, added up. */
  function Part1(banks: seq<seq<nat>>): (r: nat)
    requires forall b :: 0 <= b < |banks| ==> 2 <= |banks[b]|
    ensures forall k :: 0 <= k < |banks| ==> MaxJoltage(banks[k], 2) <= r
  {
    Solve(banks, 2)
  }

  /** `part2`: the largest twelve-digit joltage of every bank, added up. */
  function Part2(banks: seq<seq<nat>>): (r: nat)
    requires forall b :: 0 <= b < |banks| ==> 12 <= |banks[b]|
    ensures forall k :: 0 <= k < |banks| ==> MaxJoltage(banks[k], 12) <= r
  {
    Solve(banks, 12)
  }

  /**
   * One line of the input: every character minus '0'. A character below
   * '0' underflows the byte subtraction and panics (None here).
   */
  function ParseBank(line: string): (r: Option<seq<nat>>)
    ensures r.Some? <==> forall k :: 0 <= k < |line| ==> line[k] >= '0'
    ensures r.Some? ==>
      |r.value| == |line| && forall k :: 0 <= k < |line| ==> r.value[k] == line[k] as int - '0' as int
    ensures r.Some? && (forall k :: 0 <= k < |line| ==> '0' <= line[k] <= '9') ==> Digits(r.value)
  {
    if exists k :: 0 <= k < |line| && line[k] < '0' then None
    else Some(seq(|line|, k requires 0 <= k < |line| => line[k] as int - '0' as int))
  }
}
