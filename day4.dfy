/**
 * Day 4 (src/day_4.rs): rolls of paper on a grid. A roll can be reached when
 * its 3×3 block, itself included, holds at most four rolls. Part 1 counts the
 * reachable rolls; part 2 keeps removing every reachable roll until none is
 * left to remove and counts the removals.
 */
module Day4 {
  import opened Wrappers
  import opened IntMath
  import opened Point2D
  import Sorting
  import Sets

  /** How many cells of `block` hold a roll (`filter(contains).count()`). */
  function CountIn(block: seq<Point>, rolls: set<Point>): (r: nat)
    ensures r <= |block|
  {
    if block == [] then 0
    else CountIn(block[..|block| - 1], rolls) + if block[|block| - 1] in rolls then 1 else 0
  }

  /** The rolls other than `p` that touch it, diagonals included. */
  ghost function Adjacent(p: Point, rolls: set<Point>): set<Point>
  {
    set q | q in rolls && q != p && Abs(q.row - p.row) <= 1 && Abs(q.col - p.col) <= 1
  }

  /** `reachable_paper_rolls`: the rolls whose 3×3 block holds at most 4 rolls. */
  function Reachable(rolls: set<Point>): (r: set<Point>)
    ensures r <= rolls
  {
    set p | p in rolls && CountIn(NeighborBlock(p), rolls) <= 4
  }

  /** Over cells listed once, the count is the size of the set of cells holding a roll. */
  lemma {:induction false} CountInIsCardinality(block: seq<Point>, rolls: set<Point>)
    requires Sorting.NoDuplicates(block)
    ensures CountIn(block, rolls) == |(set q | q in block) * rolls|
    decreases |block|
  {
    if block != [] {
      var init := block[..|block| - 1];
      assert Sorting.NoDuplicates(init);
      CountInIsCardinality(init, rolls);
      LastCell(block, rolls);
    }
  }

  /** The last cell of a block listed once adds itself, if it holds a roll, to the cells before it. */
  lemma LastCell(block: seq<Point>, rolls: set<Point>)
    requires Sorting.NoDuplicates(block) && block != []
    ensures var init, last := block[..|block| - 1], block[|block| - 1];
      && last !in (set q | q in init) * rolls
      && (set q | q in block) * rolls == (set q | q in init) * rolls + (if last in rolls then {last} else {})
  {
    var init, last := block[..|block| - 1], block[|block| - 1];
    assert block == init + [last];
    forall q | q in init ensures q != last {
      var i :| 0 <= i < |init| && init[i] == q;
      assert block[i] == q;
    }
  }

  /**
   * A roll is reachable exactly when at most 3 other rolls touch it: the
   * block counts the roll itself.
   */
  lemma ReachableIffFewNeighbours(rolls: set<Point>, p: Point)
    ensures p in Reachable(rolls) <==> p in rolls && |Adjacent(p, rolls)| <= 3
  {
    if p in rolls {
      CountInIsCardinality(NeighborBlock(p), rolls);
      BlockRolls(rolls, p);
    }
  }

  /** The rolls in the block around a roll are the roll and the rolls touching it. */
  lemma BlockRolls(rolls: set<Point>, p: Point)
    requires p in rolls
    ensures Sorting.NoDuplicates(NeighborBlock(p))
    ensures (set q | q in NeighborBlock(p)) * rolls == Adjacent(p, rolls) + {p}
    ensures p !in Adjacent(p, rolls)
  {
    NeighborBlockSpec(p);
  }

  /** `part1`: the number of reachable rolls. */
  function Part1(rolls: set<Point>): (r: nat)
    ensures r <= |rolls|
    ensures r == 0 <==> forall p :: p in rolls ==> |Adjacent(p, rolls)| > 3
  {
    Sets.SubsetCard(Reachable(rolls), rolls);
    forall p | p in rolls ensures p in Reachable(rolls) <==> |Adjacent(p, rolls)| <= 3 {
      ReachableIffFewNeighbours(rolls, p);
    }
    |Reachable(rolls)|
  }

  /** The rolls removed by part 2: every round takes away the whole reachable set. */
  ghost function Removed(rolls: set<Point>): nat
    decreases |rolls|
  {
    var reachable := Reachable(rolls);
    if reachable == {} then 0
    else
      Shrinks(rolls, reachable);
      |reachable| + Removed(rolls - reachable)
  }

  /** The rolls part 2 leaves behind. */
  ghost function Remaining(rolls: set<Point>): (r: set<Point>)
    ensures r <= rolls
    decreases |rolls|
  {
    var reachable := Reachable(rolls);
    if reachable == {} then rolls
    else
      Shrinks(rolls, reachable);
      Remaining(rolls - reachable)
  }

  /** Removing a non-empty subset makes the set strictly smaller. */
  lemma Shrinks(rolls: set<Point>, gone: set<Point>)
    requires gone != {} && gone <= rolls
    ensures |rolls - gone| == |rolls| - |gone| < |rolls|
  {
    assert rolls == (rolls - gone) + gone;
  }

  /**
   * `part2`: on a copy of the rolls, remove the reachable rolls one by one,
   * count them and recompute, until nothing is reachable.
   */
  method Part2(rolls: set<Point>) returns (removeCount: nat)
    ensures removeCount == Removed(rolls)
  {
    var points := rolls;
    removeCount := 0;
    var reachable := Reachable(points);
    while reachable != {}
      invariant reachable == Reachable(points)
      invariant removeCount + Removed(points) == Removed(rolls)
      decreases |points|
    {
      ghost var before := points;
      points := RemoveEach(points, reachable);
      Shrinks(before, reachable);
      removeCount := removeCount + |reachable|;
      reachable := Reachable(points);
    }
  }

  /** `for point in reachable { points.remove(&point) }`. */
  method RemoveEach(points: set<Point>, gone: set<Point>) returns (r: set<Point>)
    ensures r == points - gone
  {
    r := points;
    var todo := gone;
    while todo != {}
      invariant todo <= gone
      invariant r == points - (gone - todo)
      decreases |todo|
    {
      var point :| point in todo;
      r := r - {point};
      todo := todo - {point};
    }
  }

  /** Every roll is either removed or left: `remove_count + |remaining| == |initial|`. */
  lemma {:induction false} RemovedPlusRemaining(rolls: set<Point>)
    ensures Removed(rolls) + |Remaining(rolls)| == |rolls|
    decreases |rolls|
  {
    var reachable := Reachable(rolls);
    if reachable != {} {
      Shrinks(rolls, reachable);
      RemovedPlusRemaining(rolls - reachable);
    }
  }

  /** Part 2 stops at a fixed point: every roll left is touched by at least 4 others. */
  lemma {:induction false} RemainingIsStuck(rolls: set<Point>)
    ensures Reachable(Remaining(rolls)) == {}
    ensures forall p :: p in Remaining(rolls) ==> |Adjacent(p, Remaining(rolls))| >= 4
    decreases |rolls|
  {
    var reachable := Reachable(rolls);
    if reachable != {} {
      Shrinks(rolls, reachable);
      RemainingIsStuck(rolls - reachable);
    }
    forall p | p in Remaining(rolls) ensures |Adjacent(p, Remaining(rolls))| >= 4 {
      ReachableIffFewNeighbours(Remaining(rolls), p);
    }
  }

  /** The first round of part 2 is part 1's set, so part 1 is at most part 2. */
  lemma Part1AtMostPart2(rolls: set<Point>)
    ensures Part1(rolls) <= Removed(rolls)
  {
  }

  // ---------------------------------------------------------------------
  // Parsing

  /** `'@'` at row `r`, column `c` of the lines. */
  ghost predicate RollAt(lines: seq<string>, r: int, c: int)
  {
    0 <= r < |lines| && 0 <= c < |lines[r]| && lines[r][c] == '@'
  }

  /**
   * The grid scan of `From<Input>`: every '@' becomes a roll at
   * `(row, column)`. `PaperRolls::new` panics on a coordinate beyond
   * `i16::MAX`, which gives None here.
   */
  method ParseRolls(lines: seq<string>) returns (r: Option<set<Point>>)
    ensures r.Some? <==> forall row, col :: RollAt(lines, row, col) ==> row <= MaxOf(I16) && col <= MaxOf(I16)
    ensures r.Some? ==> forall p :: p in r.value <==> RollAt(lines, p.row, p.col)
  {
    var points: set<Point> := {};
    for row := 0 to |lines|
      invariant forall p :: p in points <==> RollAt(lines, p.row, p.col) && p.row < row
      invariant forall rw, col :: RollAt(lines, rw, col) && rw < row ==> rw <= MaxOf(I16) && col <= MaxOf(I16)
    {
      var line := lines[row];
      for col := 0 to |line|
        invariant forall p :: p in points <==> RollAt(lines, p.row, p.col) && (p.row < row || (p.row == row && p.col < col))
        invariant forall rw, c :: RollAt(lines, rw, c) && (rw < row || (rw == row && c < col)) ==> rw <= MaxOf(I16) && c <= MaxOf(I16)
      {
        if line[col] != '@' {
          continue;
        }
        var roll := New(row, col, I16);
        if roll.None? {
          assert RollAt(lines, row, col);
          return None;
        }
        points := points + {roll.value};
      }
    }
    return Some(points);
  }
}
