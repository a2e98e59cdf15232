# Advent of Code 2025 solvers, modelled in Dafny

This project models the twelve daily puzzle solvers of a Rust Advent of Code
repository, together with the shared helpers they use:

- the `Point2D`/`Point3D` geometry;
- the `line_to_range_tuple` range parser;
- the `Display for Input` path formatting.

Each Rust file has its own Dafny module: `Day1` … `Day12`, `Point2D`, `Point3D`,
`Parsing` and `Inputs`. Small shared modules support them:

- `Wrappers`: `Option` and `Result`;
- `Text`: digits, `parse`, decimal formatting, `split`, `split_once`, `trim`;
- `IntMath`: `isqrt`;
- `Sorting`: a sort by a total preorder, standing in for `sort_by` and the binary heaps;
- `Pairs`: index pairs a < b;
- `Sets`.

Each part is modelled on the records it is given:

- Every parser works on the given text or lines.
- A panic in the source becomes a `None`/`Err` result wherever input can trigger it:
  - an `unwrap` on a failed parse;
  - a missing `split_once` separator;
  - a lookup of a missing key;
  - a shift past 16 bits;
  - a `usize` subtraction or division that fails.
- Loops that update state are methods with loop invariants, each proved against a specification function.
- Iterator pipelines are functions.

The headline is day 8, the distance-ordered clustering:

- `distance_pairs` is proved to produce every index pair exactly once.
- The binary heap is modelled as the unique sorted order of those entries under the derived `(distance, p1, p2)` order.
- Part 1's linking loop is proved to keep the adjacency map symmetric.
- `generate_connections` (a breadth-first search) is proved to split the keys into the map's connected components: closed, disjoint circuits, each of one piece, and no other partition has this property (`Day8.PartitionUnique`).
- Part 2's in-place vector of sets is proved to keep its sets disjoint, each with at least two boxes, covering exactly the endpoints seen so far.
- Part 2's answer is proved to belong to the first pair that leaves one circuit holding every box.

The code has no disjoint-set structure, and the model follows the code:

- Part 1 links pairs in an adjacency map and finds the circuits by breadth-first search afterwards.
- Its counter counts new direct links, not merges of circuits. An already linked pair is the only pair it skips.
- With `L1 = 0` the check after the increment never succeeds, so every pair is linked (`Day8.ZeroLimitLinksEverything`).
- Part 2 keeps no singleton circuits. A pair whose two boxes are both new pushes a new set but does not count as touched. With exactly two boxes, part 2 therefore answers 0 (`Day8.TwoBoxesNeverSpan`).

Integers are unbounded: fixed-width overflow is not modelled (see "Left out").

## Model

| member | source | states |
|---|---|---|
| Day1.Wrap | src/day_1.rs:18-22 | `wrapping_rem_euclid(100)`: the result lies in 0..100 and differs from the input by a multiple of 100 |
| Day1.WrapAdd | src/day_1.rs:18-22 | wrapping after each step is wrapping the total once |
| Day1.Part1State | src/day_1.rs:14-27 | part 1's fold keeps the dial in 0..100 and counts at most one stop per instruction |
| Day1.Part1 | src/day_1.rs:14-27 | part 1 counts at most one stop on 0 per instruction |
| Day1.Part1Position | src/day_1.rs:14-27 | after any instructions the dial shows 50 plus their net signed amount, wrapped |
| Day1.Part1Append | src/day_1.rs:17-25 | one more instruction adds one to part 1 exactly when it leaves the dial on 0 |
| Day1.Clicks | src/day_1.rs:33-34 | an instruction of amount n expands into n clicks of +1 (right) or -1 (left), none for n <= 0 |
| Day1.Spin | src/day_1.rs:36-43 | part 2's fold never lowers the count and keeps the dial in 0..100 |
| Day1.SpinBound | src/day_1.rs:36-43 | each click adds at most one to part 2's count |
| Day1.Part2 | src/day_1.rs:29-45 | part 2 counts at most one stop on 0 per click |
| Day1.SpinAppend | src/day_1.rs:32-43 | folding over two runs of clicks is folding over the first, then the second |
| Day1.ClicksPosition | src/day_1.rs:32-43 | n clicks of one sign move the dial by step * n, wrapped |
| Day1.InstructionSpin | src/day_1.rs:32-43 | the clicks of one instruction move the dial by its signed amount, and when it ends on 0 that stop is counted |
| Day1.BothStep | src/day_1.rs:17-42 | one instruction keeps the two parts on the same position with part 1's count at most part 2's |
| Day1.Part1AtMostPart2 | src/day_1.rs:14-45 | for amounts of at least 1 both parts end on the same position and part 1 <= part 2 |
| Day1.ParseInstruction | src/day_1.rs:52-60 | a line parses only when, trimmed, it starts with L or R followed by a number; L gives a left turn |
| Day1.ParseFormatRoundTrip | src/day_1.rs:52-60 | an instruction written as its letter and amount parses back to itself |
| Day1.ParseInstructions | src/day_1.rs:48-63 | the input parses exactly when every line does, line by line |
| Parsing.LineToRangeTuple | src/helper/parsing.rs:1-9 | no '-' gives no result; a result splits the line at its first '-' into two unsigned numbers |
| Parsing.LineToSignedRangeTuple | src/helper/parsing.rs:1-9 | the same for a signed number type |
| Parsing.RangeTupleRoundTrip | src/helper/parsing.rs:7-8 | two naturals written around '-' read back as themselves |
| Parsing.SignedRangeTupleRoundTrip | src/helper/parsing.rs:1-9 | a natural and a signed number written around '-' read back as themselves, so "3--5" gives (3, -5) |
| Parsing.LeadingMinusRefused | src/helper/parsing.rs:7-8 | a leading '-' is taken as the separator, so the line is refused whatever the number type |
| Inputs.Path | src/lib.rs:33-41 | the path starts with "inputs/", then the day's digits, then '/' |
| Inputs.PathKind | src/lib.rs:35-39 | the file name ends in "sample", "part1" or "part2" exactly for the matching kind |
| Inputs.DayDigits | src/lib.rs:36-38 | the day's decimal digits stand between "inputs/" and the next '/' |
| Inputs.PathInjective | src/lib.rs:33-41 | two inputs with the same path are the same input |
| Day2.HasRepetitionTwice | src/day_2.rs:57-61 | true exactly when the length is even and the text is its first half twice |
| Day2.HalvesRepeat | src/day_2.rs:59-60 | equal halves are the same as the text repeating with period half its length |
| Day2.Blocks | src/day_2.rs:76-80 | every block has the window length, and there is exactly one block exactly when the text repeats with that period |
| Day2.HasRepetitionAtLeastTwice | src/day_2.rs:63-85 | true exactly when all characters are equal or some period from 2 to half the length divides the length and repeats |
| Day2.TwiceImpliesAtLeastTwice | src/day_2.rs:32-35 | an id that is one half twice is also a block repeated at least twice |
| Day2.SingleDigits | src/day_2.rs:32-35 | single-digit ids count in part 2 (all characters equal) but never in part 1 |
| Day2.SumWhereMonotone | src/day_2.rs:14-20 | a filter accepting more ids never gives a smaller sum over a range |
| Day2.SumRanges | src/day_2.rs:11-23 | the per-range sums added up: no range's sum exceeds the total |
| Day2.Part1 | src/day_2.rs:11-23 | the sum of the ids that are one half twice over all ranges; no range's share exceeds it |
| Day2.Part2 | src/day_2.rs:25-40 | the sum of the ids that are a block repeated at least twice over all ranges; no range's share exceeds it |
| Day2.Part1AtMostPart2 | src/day_2.rs:11-40 | part 2's total is at least part 1's |
| Day2.ParseRanges | src/day_2.rs:43-54 | one range per comma-separated piece, each read by splitting at the first '-' |
| Day2.ParseRangesRoundTrip | src/day_2.rs:46-52 | ranges written as `lo-hi` and joined by ',' read back as the same ranges |
| Day3.FirstMax | src/day_3.rs:51-57 | the index of the first largest element of a non-empty window lies inside the window |
| Day3.FirstMaxIsFirstMax | src/day_3.rs:56-57 | no element of the window is larger, and every element before the chosen one is smaller |
| Day3.FindNextLargest | src/day_3.rs:50-60 | an empty window gives `(0, slice[0])`; otherwise the offset-relative index and value of an element of the window |
| Day3.FindNextLargestIsFirstMax | src/day_3.rs:50-60 | the element found is the first largest one of the window |
| Day3.Pick | src/day_3.rs:76-77 | each pick leaves room for the digits still to come |
| Day3.GreedyFrom | src/day_3.rs:64-85 | the greedy loop picks exactly as many indices as digits asked for |
| Day3.GreedyShape | src/day_3.rs:64-85 | the picks are increasing, start at the skip count, and each leaves room for the picks after it |
| Day3.Select | src/day_3.rs:72-82 | one digit per chosen index |
| Day3.SelectAppend | src/day_3.rs:79-81 | selecting one more index appends its digit |
| Day3.SelectDigits | src/day_3.rs:33-39 | digits selected from a bank of digits are digits |
| Day3.FindMaxJoltage | src/day_3.rs:64-85 | the loop returns the number read from the greedy picks |
| Day3.FoldAppends | src/day_3.rs:81 | `jolts * 10 + value` over more digits reads the digits after the number's own |
| Day3.ContinueFolds | src/day_3.rs:72-82 | what the loop still has to do reads the digits of the greedy picks still to come |
| Day3.ContinueFromStart | src/day_3.rs:67-70 | starting from nothing, the loop computes the greedy number |
| Day3.ContinueStep | src/day_3.rs:72-82 | one turn of the loop takes the first largest element of its window as the next greedy pick |
| Day3.GreedyStep | src/day_3.rs:76-79 | a greedy pick is `find_next_largest` on the window that leaves room for the rest, followed by the rest |
| Day3.PickFound | src/day_3.rs:76-77 | the window of a pick is never empty, so the fallback is never used |
| Day3.NumberFront | src/day_3.rs:81 | the first digit of a number has weight 10^(n-1) |
| Day3.NumberBound | src/day_3.rs:81 | n digits read as a number below 10^n |
| Day3.LexLeNumber | src/day_3.rs:62-63 | for digit strings of one length, dictionary order is numeric order |
| Day3.GreedyIsLexMax | src/day_3.rs:65-66 | the greedy picks are, in dictionary order, at least every other choice of increasing indices |
| Day3.LeadingDigitDominates | src/day_3.rs:65-66 | a smaller leading digit loses whatever follows it, which is why the largest digit is picked first |
| Day3.GreedyFirst | src/day_3.rs:65-67 | the first pick is the first largest element among the positions that leave room for the others |
| Day3.FirstIndexFits | src/day_3.rs:65-66 | the first of n increasing indices below a bound leaves room for the other n - 1 |
| Day3.IncreasingSpread | src/day_3.rs:65-66 | increasing indices grow by at least one per step |
| Day3.MaxJoltageIsMaximal | src/day_3.rs:62-63 | no choice of `length` digits of the bank, kept in order, forms a larger number than the result |
| Day3.MaxJoltageIsAttained | src/day_3.rs:62-63 | the result is itself formed by `length` digits of the bank, kept in order |
| Day3.SolveAppend | src/day_3.rs:11-17 | the sum over a concatenation of bank lists is the sum of the two sums |
| Day3.Solve | src/day_3.rs:11-16 | `solve(length)` adds up every bank's largest joltage: none exceeds the total |
| Day3.Part1 | src/day_3.rs:20-22 | `solve(2)`: every bank's largest two-digit joltage, added up |
| Day3.Part2 | src/day_3.rs:24-26 | `solve(12)`: every bank's largest twelve-digit joltage, added up |
| Day3.ParseBank | src/day_3.rs:33-39 | a line parses exactly when no character is below '0'; each value is the character minus '0', a digit for '0'..'9' |
| Day4.CountIn | src/day_4.rs:17-21 | the count of neighbouring cells holding a roll is at most the number of cells |
| Day4.CountInIsCardinality | src/day_4.rs:17-21 | over cells listed once, the count is the size of the set of cells holding a roll |
| Day4.LastCell | src/day_4.rs:17-21 | the last cell of a block listed once adds itself, when it holds a roll, to the rolls of the cells before it |
| Day4.Reachable | src/day_4.rs:13-26 | the reachable rolls are among the rolls |
| Day4.Part1 | src/day_4.rs:30-32 | the number of reachable rolls: at most the rolls, and 0 exactly when every roll touches more than 3 others |
| Day4.ReachableIffFewNeighbours | src/day_4.rs:13-26 | a roll is reachable exactly when at most 3 other rolls touch it (the block counts the roll itself) |
| Day4.BlockRolls | src/day_4.rs:17-20 | the block around a roll lists each cell once, and its rolls are the roll and the rolls touching it |
| Day4.Remaining | src/day_4.rs:34-48 | part 2 only ever removes rolls |
| Day4.Shrinks | src/day_4.rs:39-45 | removing a non-empty reachable set makes the set strictly smaller, so the loop ends |
| Day4.Part2 | src/day_4.rs:34-48 | the loop's count is the number of rolls removed round by round until nothing is reachable |
| Day4.RemoveEach | src/day_4.rs:40-42 | removing the reachable points one by one leaves the set difference |
| Day4.RemovedPlusRemaining | src/day_4.rs:34-48 | every roll is either removed or left behind |
| Day4.RemainingIsStuck | src/day_4.rs:39-45 | part 2 stops at a fixed point: nothing left is reachable, every roll left touches at least 4 others |
| Day4.Part1AtMostPart2 | src/day_4.rs:30-48 | part 1's count is at most part 2's |
| Day4.ParseRolls | src/day_4.rs:51-66 | the rolls are exactly the '@' cells at (row, column); a coordinate beyond `i16::MAX` is refused |
| Day5.Intersection | src/day_5.rs:100-104 | the result starts at the smaller start and ends at the larger end: the hull of the two ranges |
| Day5.IsWithinRange | src/day_5.rs:89-92 | accepts exactly the ids of the closed interval other than its start |
| Day5.HasOverlap | src/day_5.rs:94-98 | for well-formed ranges, true exactly when some id lies in both |
| Day5.HasOverlapIffShared | src/day_5.rs:94-98 | two ranges overlap exactly when their closed intervals share an id, in either order |
| Day5.HullOfOverlapping | src/day_5.rs:100-104 | for overlapping ranges the hull covers exactly the ids of the two |
| Day5.Part1 | src/day_5.rs:17-28 | the count is the number of distinct listed ids that `is_within_range` accepts for some range |
| Day5.StartIdNotFresh | src/day_5.rs:89-92 | as written, an id equal to a range's start is not fresh (range 3-5, id 3), although part 2 counts it |
| Day5.InclusiveAgreesWithPart2 | src/day_5.rs:89-92 | the corrected inclusive test accepts exactly the ids part 2 counts, and differs from the written one only at the start |
| Day5.InUnion | src/day_5.rs:59-61 | an id is covered exactly when some range holds it |
| Day5.UnionOfPermutation | src/day_5.rs:33-37 | sorting the ranges does not change the covered ids |
| Day5.CoveredByPermutation | src/day_5.rs:33-37 | an id covered before sorting is covered after |
| Day5.ByStartIsTotalPreorder | src/day_5.rs:35 | comparing starts is a total preorder, as `sort_by` needs |
| Day5.SpanSize | src/day_5.rs:61 | a range covers `end - start + 1` ids |
| Day5.CountIdsIsUnionSize | src/day_5.rs:59-61 | for separated ranges, the fold counts the covered ids exactly |
| Day5.MergeOne | src/day_5.rs:40-57 | one step of the merge keeps the kept ranges separated and adds exactly the new range's ids |
| Day5.Pushed | src/day_5.rs:54-56 | a range that misses the last kept range is pushed after it, keeping them separated |
| Day5.Absorbed | src/day_5.rs:47-52 | a range that meets the last kept range widens it to the hull, keeping them separated |
| Day5.MergeAll | src/day_5.rs:39-57 | merging ranges sorted by start gives separated ranges covering the same ids |
| Day5.Part2 | src/day_5.rs:30-62 | part 2 is the number of distinct ids the ranges cover |
| Day5.LeadingNonEmpty | src/day_5.rs:70 | the count of leading non-empty lines, stopping at the first empty one |
| Day5.ParseDatabase | src/day_5.rs:65-87 | ranges are the lines before the first empty line, ids the lines after it; a line that does not parse gives no database |
| Day6.FromSymbol | src/day_6.rs:28-33 | a character names an operator exactly when it is one of `+ - * /`, and the operator is written with it |
| Day6.OperatorFromByte | src/day_6.rs:25-36 | the four symbols give their operator; any other byte gives the error "Unknown operator: " and its value |
| Day6.OperatorFromStr | src/day_6.rs:38-49 | the trimmed text must be exactly one symbol; otherwise the error shows the text as given |
| Day6.OperatorRoundTrip | src/day_6.rs:25-49 | every operator is read back from its symbol, as a byte and as text |
| Day6.SymbolRoundTrip | src/day_6.rs:28-32 | each symbol names its operator and is not a space |
| Day6.Apply | src/day_6.rs:15-22 | the usize operation fails (panics) exactly on subtraction below zero and on division by zero |
| Day6.ApplyInverses | src/day_6.rs:15-22 | subtraction undoes addition and division undoes multiplication |
| Day6.Reduce | src/day_6.rs:67-69 | `reduce(..).unwrap_or(0)`: no values give 0 and one value gives itself |
| Day6.ReduceRowWise | src/day_6.rs:63-70 | the operator over the rows that read as numbers: 0 for none, their sum for `+`, their product for `*` |
| Day6.ReduceAddIsSum | src/day_6.rs:17 | reducing with `+` gives the sum of the values |
| Day6.ReduceMultiplyIsProduct | src/day_6.rs:19 | reducing with `*` gives the product of at least one value |
| Day6.RowValues | src/day_6.rs:65-67 | the rows that read as numbers, never more than there are rows |
| Day6.PresentEmpty | src/day_6.rs:67 | `flat_map` over parse results keeps nothing exactly when every parse fails |
| Day6.PresentAll | src/day_6.rs:67 | when every parse succeeds, all values are kept, in order |
| Day6.RowValuesEmpty | src/day_6.rs:63-70 | a column has no values exactly when no row reads as a number |
| Day6.RowValuesAllNumbers | src/day_6.rs:63-70 | when every row is a number, the values are the rows' numbers in order |
| Day6.MaxLen | src/day_6.rs:88 | the longest row: no row is longer and some row has that length |
| Day6.ColumnDigits | src/day_6.rs:98-106 | the digits collected at one position are all digits |
| Day6.ColumnarValues | src/day_6.rs:85-112 | one number per character position up to the longest row |
| Day6.ColumnDigitsStep | src/day_6.rs:98-106 | one more row adds its character at a position when that is a digit |
| Day6.DigitsValueSnoc | src/day_6.rs:104-105 | `*= 10` then `+= digit` appends a digit to the number |
| Day6.ExtractColumnarValues | src/day_6.rs:85-112 | a column without rows panics (None); otherwise the buffer loop returns, rightmost position first, the number formed by each position's digits read top to bottom |
| Day6.FillColumns | src/day_6.rs:97-107 | from a zeroed buffer, every row in turn leaves each position holding the number formed by that position's digits, read top to bottom |
| Day6.AddRow | src/day_6.rs:99-106 | one row appends its digit at each position to that position's number and changes nothing else |
| Day6.ExtendStep | src/day_6.rs:98-106 | one row's update of a position agrees with the digits collected through that row |
| Day6.ReduceColumnWise | src/day_6.rs:114-121 | `Reduce` over the columnar values, None for a column without rows |
| Day6.SingleDigitColumn | src/day_6.rs:85-121 | a column of one single-digit row reduces to that digit, whatever the operator |
| Day6.Part1 | src/day_6.rs:129-131 | the sum exists exactly when no column's row-wise reduction panics |
| Day6.Part2 | src/day_6.rs:133-135 | the sum exists exactly when every column has rows and no column-wise reduction panics |
| Day6.SumAll | src/day_6.rs:129-135 | the total exists exactly when no column's reduction panics |
| Day6.SpaceColumn | src/day_6.rs:152 | true exactly when every line after the first has a space at that position |
| Day6.PrependPrepend | src/day_6.rs:168 | pushing columns one group after another is pushing them all at once |
| Day6.Pieces | src/day_6.rs:158-161 | the slice `line[from..to]` of every row |
| Day6.Tails | src/day_6.rs:174-177 | the slice `line[from..]` of every row |
| Day6.ScanSkip | src/day_6.rs:145-155 | a position that is not a shared space leaves the scan unchanged |
| Day6.ScanCut | src/day_6.rs:145-170 | at a space a too-short line panics; a shared space pushes the problem read so far with its operator and starts the next one after it |
| Day6.Advance | src/day_6.rs:145-170 | one pass of the loop: a position that is not a shared space is skipped; otherwise the scan moves past the cut, or panics exactly where the scan does |
| Day6.Cut | src/day_6.rs:152-169 | at a space a too-short line or a bad operator panics; otherwise the problem read so far is pushed and the next starts after the space |
| Day6.CutKeeps | src/day_6.rs:157-169 | a cut that pushes a problem keeps the scan's account of the columns, with the pushed problem appended |
| Day6.ColumnsFrom | src/day_6.rs:138-184 | the loop over the first line's characters computes the scan; no lines panic |
| Day6.ScanRoundTrip | src/day_6.rs:138-184 | the columns lose nothing: each line's pieces, joined with the space at each cut, give the line back |
| Day6.EndRoundTrips | src/day_6.rs:172-180 | the last problem, everything after the last cut, loses nothing |
| Day6.CutRoundTrips | src/day_6.rs:157-169 | a cut at a shared space keeps the round trip of the columns after it |
| Day6.JoinCut | src/day_6.rs:158-169 | a piece, its cut's space and the pieces after it join back to the line's tail |
| Day7.FirstSplitter | src/day_7.rs:24-26 | the first splitter in the point's column at its row or below and above the height, and none when the column is clear |
| Day7.EnergizedUnique | src/day_7.rs:19-37 | the splitters the beams reach are unique: there is one least closed set |
| Day7.PopSeen | src/day_7.rs:23-30 | popping a point whose splitter is missing or already recorded keeps the loop invariant |
| Day7.PopRecord | src/day_7.rs:28-33 | recording a new splitter and pushing its east and west neighbours keeps the loop invariant |
| Day7.Part1 | src/day_7.rs:19-37 | part 1 counts the least set of splitters closed under the beams, whatever order the heap pops in |
| Day7.PendingDone | src/day_7.rs:23-36 | an empty heap leaves exactly the least closed set recorded |
| Day7.Grows | src/day_7.rs:29 | recording a new splitter leaves one fewer unrecorded, so the loop ends |
| Day7.Part1Bound | src/day_7.rs:36 | part 1 never counts more splitters than the manifold has |
| Day7.NoSplitters | src/day_7.rs:19-37 | with no splitter, nothing is split |
| Day7.Split | src/day_7.rs:49-52 | a splitter takes a column's beams and adds them to both neighbour columns; no beams there changes nothing; other columns are untouched |
| Day7.SumOverRemove | src/day_7.rs:56 | the sum of the beams can be taken apart at any column |
| Day7.SumOverAgree | src/day_7.rs:56 | maps that agree on the summed columns have the same sum |
| Day7.TotalUpdate | src/day_7.rs:50-51 | changing one column's count changes the total by the difference |
| Day7.TotalRemove | src/day_7.rs:49 | removing a column takes its count off the total |
| Day7.SplitAddsCount | src/day_7.rs:49-52 | a split grows the total by exactly the beams it took |
| Day7.SweepRowTotal | src/day_7.rs:43-53 | sweeping a row grows the total by the beams its splitters took |
| Day7.TimelinesAreOnePlusSplits | src/day_7.rs:39-57 | the timelines are the starting beam plus every beam a splitter took |
| Day7.SumValues | src/day_7.rs:56 | summing the values key by key gives the total of the map |
| Day7.Part2 | src/day_7.rs:39-57 | part 2 is the total after sweeping every cell, which is 1 plus all splits |
| Day7.ParseManifold | src/day_7.rs:60-87 | width and height from the lines, splitters exactly at '^', start at the last 'S' in reading order or the origin; no lines panics |
| Day8.EntryLeIsTotalOrder | src/day_8.rs:10 | the derived `(distance, p1, p2)` order the min-heap pops in is a total order |
| Day8.DistancePairs | src/day_8.rs:17-26 | one entry per index pair a < b, N·(N−1)/2 in all, with `p1 = boxes[a]`, `p2 = boxes[b]` and their distance |
| Day8.HeapOrder | src/day_8.rs:17-26 | the heap hands out exactly the entries of `distance_pairs`, sorted by the derived order |
| Day8.HeapOrderIsForced | src/day_8.rs:31-35 | any sorted way of popping every entry gives that same sequence |
| Day8.HeapOrderByDistance | src/day_8.rs:35 | entries come out by nondecreasing distance |
| Day8.Link | src/day_8.rs:36-40 | a new pair links both directions and counts; an already linked pair changes nothing; symmetry is kept; other points are untouched |
| Day8.Linked | src/day_8.rs:31-45 | after any pairs the map is symmetric, its keys are their endpoints, and the counter is at most the pairs popped |
| Day8.Connect | src/day_8.rs:34-45 | the loop stops right after the counter equals `L1`, or when the heap is empty, with the map and counter of the pairs popped |
| Day8.LinkStep | src/day_8.rs:36-40 | one pass of the loop body extends the linking by the next pair |
| Day8.NeverReachedBefore | src/day_8.rs:42-44 | while the loop runs, the counter equalled `L1` after none of the pairs so far |
| Day8.DisjointNonEmptyNoDuplicates | src/day_8.rs:116-147 | disjoint non-empty circuits are distinct values |
| Day8.PermutedPartition | src/day_8.rs:148-149 | sorting the circuits keeps a partition of the same keys |
| Day8.NeighborOutsideClosed | src/day_8.rs:137-141 | a neighbour of a box outside a closed set is outside it too |
| Day8.UnionClosed | src/day_8.rs:123-147 | a union of closed sets is closed |
| Day8.UnionAppend | src/day_8.rs:144-146 | pushing a set adds its points to the union |
| Day8.PushAll | src/day_8.rs:138-140 | every neighbour is appended after the queue, nothing else |
| Day8.FrontierPopSeen | src/day_8.rs:131-134 | popping a box already in the chain keeps every leaving edge queued |
| Day8.FrontierPopVisit | src/day_8.rs:135-141 | visiting a box and queueing its neighbours keeps every leaving edge queued |
| Day8.ChainPopSeen | src/day_8.rs:132-134 | popping an already seen box keeps the search's invariant |
| Day8.ChainDone | src/day_8.rs:131-142 | with the queue empty, the chain is closed under adjacency |
| Day8.Visit | src/day_8.rs:132-141 | a new box joins the chain and `seen`, its neighbours are queued, and fewer keys are left unseen |
| Day8.Chain | src/day_8.rs:128-142 | the search from an unseen key collects a closed chain holding it, disjoint from what was seen, and marks it seen; every closed set holding the start holds the chain, so the chain is one connected piece |
| Day8.LeastIsConnected | src/day_8.rs:128-142 | in a symmetric map, the least closed set holding a point has no smaller non-empty closed part |
| Day8.ReachedPop | src/day_8.rs:131 | popping the chain queue keeps every queued box reachable from the start |
| Day8.ReachedVisit | src/day_8.rs:132-141 | visiting a reachable box and queueing its neighbours keeps the chain and the queue reachable from the start |
| Day8.FoundMore | src/day_8.rs:144-146 | pushing a new closed, connected chain keeps the circuits found disjoint, closed and connected, covering what was seen |
| Day8.IntersectionClosed | src/day_8.rs:128-142 | two closed sets meet in a closed set |
| Day8.PartitionUnique | src/day_8.rs:116-147 | two circuit partitions of one map hold the same circuits: the components are determined by the links |
| Day8.GenerateConnections | src/day_8.rs:116-151 | the circuits are the connected components of the map: non-empty, disjoint, adjacency-closed, each of one piece, covering the keys, largest first |
| Day8.SizeProduct | src/day_8.rs:50-51 | the product of no sizes is 1; of non-empty circuits at least 1 |
| Day8.TakeThree | src/day_8.rs:49 | the first three circuits, or all when there are fewer |
| Day8.Part1 | src/day_8.rs:30-52 | the product of the sizes of the (at most) three largest connected components of the map linked from the pairs popped |
| Day8.ZeroLimitLinksEverything | src/day_8.rs:42-44 | with `L1 = 0` the loop never breaks and every pair is linked |
| Day8.FirstLinkCounts | src/day_8.rs:36-40 | after at least one pair the counter is at least 1 |
| Day8.Position | src/day_8.rs:59-60 | a found index lies in the vector and its set holds the point |
| Day8.PositionIsFirst | src/day_8.rs:59-60 | `position` finds the first set holding the point, and none when no set holds it |
| Day8.Remove | src/day_8.rs:81 | `Vec::remove` leaves one set fewer |
| Day8.RemoveShifts | src/day_8.rs:81 | the sets after the removed one shift down by one, the ones before stay |
| Day8.Merge | src/day_8.rs:59-86 | a touched circuit holds both ends of the pair |
| Day8.InOneSet | src/day_8.rs:59-60 | in disjoint sets a point lies in one set only |
| Day8.MergeCases | src/day_8.rs:62-86 | a pair inside one circuit changes nothing; two new ends push a new circuit; two circuits merge into the lower index, the rest shifting down |
| Day8.MergeInPlace | src/day_8.rs:59-86 | the in-place `match` computes the merge |
| Day8.MergeKeepsPartition | src/day_8.rs:57-86 | every pair keeps the sets disjoint and adds its two ends to their union |
| Day8.UnionAbsorb | src/day_8.rs:79-83 | absorbing the set at the higher index into the lower keeps the sets disjoint and their union |
| Day8.UnionUpdate | src/day_8.rs:67-74 | adding a new point to one set keeps the sets disjoint and adds the point to the union |
| Day8.MergeKeepsPairs | src/day_8.rs:62-86 | with pairs of distinct boxes every set holds at least two boxes |
| Day8.CircuitsInvariant | src/day_8.rs:57-93 | after any pairs the sets are disjoint, their union is the endpoints seen, and each holds at least two boxes |
| Day8.DistinctBoxesProperPairs | src/day_8.rs:17-26 | distinct boxes never give a pair of a box with itself |
| Day8.Answer | src/day_8.rs:91 | `start.x * end.x` when not negative, 0 otherwise |
| Day8.FirstSpanning | src/day_8.rs:58-95 | the answer belongs to the first pair after which the touched circuit holds every box, and is 0 when none does |
| Day8.Step | src/day_8.rs:59-89 | one pass of the loop body extends the circuits by the pair and tells whether it spans |
| Day8.NoneSpansBefore | src/day_8.rs:88-92 | when the loop goes on, none of the pairs so far spanned |
| Day8.CircuitsStep | src/day_8.rs:59-89 | the merge of the next pair is the circuits after it, and it spans exactly when the touched circuit holds every box |
| Day8.Part2 | src/day_8.rs:54-96 | over the heap order, the answer of the first pair that leaves a circuit of all boxes, 0 if none |
| Day8.FewBoxesGiveZero | src/day_8.rs:95 | with at most one box there are no pairs, so part 2 answers 0 |
| Day8.TwoBoxesNeverSpan | src/day_8.rs:62-66 | with two boxes the only pair pushes a new circuit, which is not counted as touched, so part 2 answers 0 |
| Day9.Area | src/day_9.rs:14-18 | `(|Δcol|+1)·(|Δrow|+1)` is at least 1, and 1 for two equal tiles |
| Day9.AreaSymmetric | src/day_9.rs:14-18 | the rectangle does not depend on which corner comes first |
| Day9.AreaCoversSides | src/day_9.rs:14-18 | the area is at least the width and at least the height |
| Day9.EntriesOf | src/day_9.rs:27-31 | one entry per index pair, in order, holding the two tiles' distance and pair |
| Day9.LightPairs | src/day_9.rs:24-33 | N·(N−1)/2 entries, one for every index pair a < b, each pair two tiles in index order |
| Day9.EntriesOfPairs | src/day_9.rs:25-31 | entries over every index pair a < b cover every pair of tiles and nothing else |
| Day9.MaxArea | src/day_9.rs:38-42 | the largest area of the entries, attained by one of them, 0 when there are none |
| Day9.LargestOverPairs | src/day_9.rs:37-43 | the largest area over the heap is the largest over every two tiles |
| Day9.EntryBounded | src/day_9.rs:38-42 | the area of any pair in the heap is at most the maximum |
| Day9.Part1 | src/day_9.rs:37-43 | the largest rectangle over every two tiles, attained by some pair, 0 for fewer than two tiles |
| Day9.Part2 | src/day_9.rs:45-47 | always 0 |
| Day9.ParseLight | src/day_9.rs:54-57 | a line splits at its first ',' into two numbers no larger than `i32::MAX` |
| Day9.ParseLightRoundTrip | src/day_9.rs:54-57 | a tile written as "row,col" reads back as itself |
| Day9.ParseLights | src/day_9.rs:50-61 | the input parses exactly when every line does, line by line |
| Day10.Xor | src/day_10.rs:73 | a bit is set in `a ^ b` exactly when it is set in one of the two |
| Day10.XorAllAppend | src/day_10.rs:73 | folding two runs of buttons XORs the two folds |
| Day10.XorAllPermutation | src/day_10.rs:73 | the fold does not depend on the order of the buttons |
| Day10.XorAllMove | src/day_10.rs:73 | moving one mask to the back leaves the fold alone |
| Day10.XorAllCons | src/day_10.rs:73 | pressing a button first, then the rest, XORs it with the rest |
| Day10.XorAllSingle | src/day_10.rs:73 | pressing one button gives its mask |
| Day10.XorSwap | src/day_10.rs:73 | two XORs can be applied in either order |
| Day10.Combo | src/day_10.rs:71 | a subset of the buttons, never more than there are |
| Day10.FewestAchieved | src/day_10.rs:71-79 | the count found is that of a subset of the buttons whose XOR is the expected state |
| Day10.FewestMinimal | src/day_10.rs:71-79 | no subset whose XOR is the expected state has fewer buttons |
| Day10.NothingToDo | src/day_10.rs:72-77 | an expected state of 0 needs no press: the empty subset |
| Day10.OutOfReach | src/day_10.rs:76-78 | a wanted light that no button toggles leaves no matching subset |
| Day10.Part1 | src/day_10.rs:64-82 | the sum of every machine's fewest presses, `usize::MAX` for an unsolvable one; a sum past `usize::MAX` panics |
| Day10.Presses | src/day_10.rs:70-79 | `usize::MAX` when no subset of the buttons gives the expected state; otherwise the size of such a subset |
| Day10.UnsolvableOverflows | src/day_10.rs:78-81 | an unsolvable machine beside any machine needing a press makes the sum overflow |
| Day10.Part2 | src/day_10.rs:84-86 | always 0 |
| Day10.ParseU16 | src/day_10.rs:37 | `u16::from_str` gives a value of at most 0xFFFF |
| Day10.U16Values | src/day_10.rs:48-51 | the values of the pieces that read as `u16`, never more than there are pieces; when every piece reads, one value per piece, in order |
| Day10.IndicatorMask | src/day_10.rs:20-29 | bit i is set exactly when character i is '#'; a '#' at position 16 or beyond overflows and panics |
| Day10.BitsValueBeyond | src/day_10.rs:20-29 | positions past the highest set bit add nothing to the mask |
| Day10.ButtonMask | src/day_10.rs:38-42 | the mask has exactly the listed bits; a bit of 16 or more overflows and panics |
| Day10.IndicatorExample | src/day_10.rs:19 | the diagram `[.##.]` is the mask 6 |
| Day10.ButtonExample | src/day_10.rs:30-32 | the button `(1,3)` is the mask 10 |
| Day10.ParseMachine | src/day_10.rs:16-59 | a line parses exactly when it is well formed; the diagram, the buttons in between and the joltages are read as above |
| Day10.ParseMiddle | src/day_10.rs:34-44 | the buttons are every part between the first and the last, read one by one |
| Day10.ParseButtons | src/day_10.rs:34-44 | every button is read in order; the first one that cannot be read panics |
| Day10.ButtonsReadMore | src/day_10.rs:35-44 | reading one more button extends what has been read |
| Day10.ButtonsReadAt | src/day_10.rs:35-44 | each button read has exactly the bits its part lists |
| Day10.ParseButton | src/day_10.rs:36-43 | one button reads exactly when it can be sliced and every listed bit is below 16; pieces that are not `u16` are skipped; the mask has exactly the listed bits |
| Day11.Unvisited | src/day_11.rs:24-28 | no more entries than connections |
| Day11.UnvisitedMembers | src/day_11.rs:24-28 | exactly the connections not yet visited are queued, each one link further |
| Day11.Visited | src/day_11.rs:17-23 | "out" is never marked visited |
| Day11.VisitedMembers | src/day_11.rs:17-23 | the visited set is exactly the devices other than "out" taken off the queue so far |
| Day11.VisitedGrows | src/day_11.rs:23 | taking more entries off the queue never unmarks a device |
| Day11.Outs | src/day_11.rs:18-20 | the count never exceeds the number of entries taken off the queue |
| Day11.OutsNone | src/day_11.rs:18-20 | nothing is counted exactly when no "out" came off the queue |
| Day11.VisitedPrefix | src/day_11.rs:17-23 | the marks and the count depend only on the entries taken so far |
| Day11.ExpandStep | src/day_11.rs:17-29 | taking an entry off the queue appends its unvisited connections and keeps the walk well formed |
| Day11.ExpandLog | src/day_11.rs:17-29 | the queue's history is the start followed by what each entry appended |
| Day11.ExpandOrder | src/day_11.rs:17-29 | appending keeps every earlier entry queued before its turn (first in, first out) |
| Day11.FlattenOrigin | src/day_11.rs:29 | each queued position comes from exactly one batch appended by `extend` |
| Day11.ExpansionPrefix | src/day_11.rs:17-29 | what the first entries append depends on those entries only |
| Day11.Origin | src/day_11.rs:24-29 | every appended entry comes from exactly one earlier device of the server |
| Day11.Parent | src/day_11.rs:24-29 | each entry after the start is an unvisited connection of an earlier device, one link further than it |
| Day11.NoPathsWithoutOut | src/day_11.rs:17-32 | with no device connected to "out", the walk counts 0 |
| Day11.Agree | src/day_11.rs:12-33 | two walks over the same server agree on every position both reach |
| Day11.AgreeStep | src/day_11.rs:17-29 | walks agreeing before a position agree at it |
| Day11.OriginInTurn | src/day_11.rs:17-29 | a queued entry was appended by one taken off the queue no later than it |
| Day11.SameAt | src/day_11.rs:24-29 | a position appended by an entry both walks share is the same in both |
| Day11.ExpansionKeeps | src/day_11.rs:29 | `extend` only appends: a queued position never changes |
| Day11.TraversalMaximal | src/day_11.rs:17 | nothing extends a finished walk: the loop ends only on an empty queue |
| Day11.TraversalUnique | src/day_11.rs:12-33 | the walk is determined by the server: two finished walks are the same |
| Day11.StuckExcludesTraversal | src/day_11.rs:24 | a walk whose lookup panics never finishes |
| Day11.DegreeBound | src/day_11.rs:24 | no device has more connections than the bound |
| Day11.ChildrenLighter | src/day_11.rs:24-29 | the children a device queues weigh less than the device did |
| Day11.WeightAppend | src/day_11.rs:29 | the weight of a queue is the sum of the weights of its parts |
| Day11.WeightSame | src/day_11.rs:24-29 | `m` entries of the same bound weigh `m` times one of them |
| Day11.BoundedDrop | src/day_11.rs:18-20 | taking "out" off the queue keeps every queued bound |
| Day11.BoundedExpand | src/day_11.rs:23-29 | expanding the head keeps every bound and bounds the children by the devices left unvisited |
| Day11.BoundedMoreVisited | src/day_11.rs:23 | visiting more devices keeps every bound |
| Day11.BoundedKids | src/day_11.rs:24-29 | unvisited children are bounded by the number of unvisited devices |
| Day11.BoundedAppend | src/day_11.rs:29 | two bounded queues, one after the other, are bounded |
| Day11.WeightFalls | src/day_11.rs:17-29 | expanding the head of the queue lowers its weight, so the loop ends |
| Day11.TakeOut | src/day_11.rs:18-20 | taking "out" off the queue counts it, appends nothing and lightens the queue |
| Day11.TakeDevice | src/day_11.rs:23-29 | taking a device off the queue visits it, queues its unvisited connections and keeps the loop's state |
| Day11.DeviceLog | src/day_11.rs:23-29 | taking a device off the queue marks it visited and leaves the count alone |
| Day11.ChildrenOfDevice | src/day_11.rs:24-28 | what a device queues is its connections not visited once it is |
| Day11.LogPrefix | src/day_11.rs:17-29 | appending to the queue leaves the marks of entries already taken alone |
| Day11.TakeDeviceLighter | src/day_11.rs:23-29 | taking a device off the queue lowers the queue's weight |
| Day11.Take | src/day_11.rs:17-29 | one turn of the loop keeps its state and lowers the queue's weight |
| Day11.Start | src/day_11.rs:13-16 | the queue holds ("you", 0), nothing visited, count 0 |
| Day11.TraversalPaths | src/day_11.rs:12-33 | the number of times "out" comes off the queue in the (unique) finished walk from "you"; None exactly when the walk reaches a device the server lacks, where the lookup panics |
| Day11.Part1 | src/day_11.rs:37-42 | the count of `traversal_paths` |
| Day11.Part2 | src/day_11.rs:44-46 | always 0 |
| Day11.ParseLine | src/day_11.rs:53-60 | None exactly when the line has no ": "; otherwise the line is the device, ": " and the space-joined connections, none of which holds a space, split at the first ": " |
| Day11.ParseLineRoundTrip | src/day_11.rs:53-60 | "name: a b c" reads back as the name and its connections |
| Day11.NameSplit | src/day_11.rs:54 | a name without ':' splits at the ": " after it |
| Day11.Collect | src/day_11.rs:61 | every device named gets an entry |
| Day11.CollectLast | src/day_11.rs:61 | a device named twice keeps the connections of its last line |
| Day11.ParseServer | src/day_11.rs:49-64 | Some exactly when every line has ": "; each device maps to the connections of the last line naming it |
| Day12.SumMonotone | src/day_12.rs:12 | the sum of the counts grows with each count |
| Day12.CanFitRequired | src/day_12.rs:10-15 | a region that fits has every count below its area |
| Day12.TermsAtMostSum | src/day_12.rs:12 | no count exceeds the sum of the counts |
| Day12.FitsWithLess | src/day_12.rs:11-13 | a region that fits still fits with more area or fewer presents of each kind |
| Day12.EmptyFits | src/day_12.rs:11-13 | a region with no presents fits exactly when its area is positive (the comparison is strict) |
| Day12.Part1 | src/day_12.rs:19-25 | at most the number of regions; 0 exactly when none fits; all exactly when every one fits |
| Day12.Part1Append | src/day_12.rs:19-25 | the count splits over a concatenation of region lists |
| Day12.Part2 | src/day_12.rs:27-29 | always the closing message |
| Day12.Thirds | src/day_12.rs:41-43 | only the pieces that parse survive `flat_map`, so no more than there are pieces |
| Day12.AreaOfDimensions | src/day_12.rs:40-44 | "WxH" has area (W / 3) * (H / 3), the divisions truncating |
| Day12.AreaSkipsUnparsable | src/day_12.rs:40-44 | a dimension that does not parse is skipped, not counted as zero |
| Day12.SplitPair | src/day_12.rs:41 | two pieces without the separator, joined by it, split back apart |
| Day12.PresentIds | src/day_12.rs:46-49 | Some exactly when every count parses and there are at most six; then the counts fill the slots from 0 and the rest stay 0 |
| Day12.SlotsRoundTrip | src/day_12.rs:46-49 | counts written with single spaces read back into the first slots |
| Day12.SlotsOfNumbers | src/day_12.rs:46-49 | pieces that read as the counts fill the first slots with them |
| Day12.Shown | src/day_12.rs:47-48 | each count as its decimal text |
| Day12.RegionRoundTrip | src/day_12.rs:37-55 | "WxH: c1 c2 ..." reads back as area (W / 3) * (H / 3) and the counts padded with zeros |
| Day12.RegionOf | src/day_12.rs:37-55 | a region exactly when the line has ': ' and at most six counts that all parse; then six slots, the area of the dimensions, the counts in the first slots and zeros after them |
| Day12.ColonFree | src/day_12.rs:38 | ": " cannot start inside a part without ':' |
| Day12.RegionLines | src/day_12.rs:36 | exactly the lines holding an 'x'; when every line holds one, all of them, in order |
| Day12.RegionLinesAppend | src/day_12.rs:34-36 | filtering two runs of lines is filtering the first, then the second: order and repeats are kept |
| Day12.Regions | src/day_12.rs:32-58 | Some exactly when every region line parses; then one region per line with an 'x', in order, the others skipped |
| Point2D.Distance | src/points/point_2d.rs:38-46 | the floor of the Euclidean distance: d² ≤ dr² + dc² < (d + 1)² |
| Point2D.DistanceSymmetric | src/points/point_2d.rs:38-46 | the distance from p to q equals the distance from q to p |
| Point2D.DistanceZeroIff | src/points/point_2d.rs:38-46 | the distance is 0 exactly when the points are equal |
| Point2D.NeighborBlockSpec | src/points/point_2d.rs:16-35 | the 9 cells of the 3×3 block in row-major order, the point itself at index 4, each cell once |
| Point2D.Neighbors | src/points/point_2d.rs:16-35 | the filled array is that block |
| Point2D.AddAssign | src/points/point_2d.rs:67-70 | the receiver becomes the component-wise sum |
| Point2D.Add | src/points/point_2d.rs:49-84 | `add` is component-wise, and the default point is its identity on either side |
| Point2D.AddCommutative | src/points/point_2d.rs:55-60 | `a + b == b + a` |
| Point2D.AddAssociative | src/points/point_2d.rs:55-60 | `(a + b) + c == a + (b + c)` |
| Point2D.New | src/points/point_2d.rs:86-113 | a point exactly when both coordinates fit the signed width; a panic otherwise |
| Point2D.TryFromInternal | src/points/point_2d.rs:115-127 | the "no ','" error exactly when the text has no ','; on success the row is the number before a ',' |
| Point2D.LhsReportedFirst | src/points/point_2d.rs:124-125 | a bad left side is reported even when the right side is bad too |
| Point2D.TryFromRoundTrip | src/points/point_2d.rs:115-175 | "row,col" reads back as the point |
| Point3D.LessEqIsTotalOrder | src/points/point_3d.rs:3 | the derived order (x, then y, then z) is a total order |
| Point3D.Distance | src/points/point_3d.rs:40-49 | the floor of the Euclidean distance: d² ≤ dx² + dy² + dz² < (d + 1)² |
| Point3D.DistanceSymmetric | src/points/point_3d.rs:40-49 | the distance from p to q equals the distance from q to p |
| Point3D.DistanceZeroIff | src/points/point_3d.rs:40-49 | the distance is 0 exactly when the points are equal |
| Point3D.SquareOfNegation | src/points/point_3d.rs:45-47 | a difference and its negation square alike |
| Point3D.SquareIsZeroOnlyAtZero | src/points/point_3d.rs:45-47 | a square is never negative (the comment's claim) and is 0 only at 0 |
| Point3D.CubeDigits | src/points/point_3d.rs:21-35 | the running index visits every slot below 27 once, as three base-3 digits |
| Point3D.CubeEntries | src/points/point_3d.rs:21-35 | slot 9(i+1) + 3(j+1) + (k+1) holds (x+i, y+j, z-k) — z counts down |
| Point3D.NeighborCubeSpec | src/points/point_3d.rs:18-38 | the 27 cells of the 3×3×3 block, the point itself at index 13, each cell once |
| Point3D.Neighbors | src/points/point_3d.rs:18-38 | the filled array is that block |
| Point3D.AddAssign | src/points/point_3d.rs:71-75 | the receiver becomes the component-wise sum |
| Point3D.Add | src/points/point_3d.rs:52-89 | `add` is component-wise, and the default point is its identity on either side |
| Point3D.AddCommutative | src/points/point_3d.rs:58-64 | `a + b == b + a` |
| Point3D.AddAssociative | src/points/point_3d.rs:58-64 | `(a + b) + c == a + (b + c)` |
| Point3D.New | src/points/point_3d.rs:92-122 | a point exactly when all three coordinates fit the signed width; a panic otherwise |
| IntMath.Abs | src/points/point_2d.rs:39-44 | the magnitude of a difference, either it or its negation |
| IntMath.FloorSqrt | src/points/point_2d.rs:45 | `isqrt`: the largest r with r² ≤ n |
| IntMath.FloorSqrtUnique | src/points/point_3d.rs:48 | any d with d² ≤ n < (d + 1)² is the integer square root |
| Text.ParseDigits | src/day_5.rs:79 | a value exactly for a non-empty run of decimal digits |
| Text.ParseNat | src/day_12.rs:48 | an unsigned `parse` succeeds only on text starting with a digit or '+' |
| Text.ParseInt | src/points/point_2d.rs:124-125 | a signed `parse` succeeds only on text starting with a digit, '+' or '-' |
| Text.NatToString | src/day_12.rs:48 | a non-empty run of digits whose value is the number |
| Text.IntToString | src/points/point_2d.rs:124-125 | a '-' leads exactly the negative numbers; the text ends in a digit |
| Text.ParseNatRoundTrip | src/day_2.rs:50 | a number written in decimal parses back to itself |
| Text.ParseIntRoundTrip | src/points/point_2d.rs:124-125 | a signed number written in decimal parses back to itself |
| Text.NatToStringInjective | src/day_12.rs:48 | different numbers have different decimal texts |
| Text.TrimStart | src/day_6.rs:67 | drops exactly the leading whitespace |
| Text.TrimEnd | src/day_6.rs:67 | drops exactly the trailing whitespace |
| Text.Trim | src/day_1.rs:53-54 | a slice of the text with no whitespace at either end, everything cut off before and after it being whitespace |
| Text.TrimUnchanged | src/day_6.rs:41 | text without whitespace at its ends is its own trim |
| Text.IndexOf | src/day_2.rs:49 | the first position of the character, None exactly when it is absent |
| Text.SplitOnce | src/helper/parsing.rs:7 | `split_once` on a character: None exactly when it is absent; otherwise the text is left, separator, right, with no separator on the left |
| Text.SplitOnceAt | src/day_9.rs:55 | text joined at a separator the left part lacks splits back there |
| Text.FindFrom | src/day_11.rs:54 | the first occurrence of a separator from a position, None when there is none |
| Text.SplitOnceStr | src/day_11.rs:54 | `split_once` on a string: None exactly when it never occurs; otherwise the text is left, separator, right, with no earlier occurrence |
| Text.FindFromFirst | src/day_11.rs:54 | the first occurrence found is the first one there is |
| Text.SplitOnceStrAt | src/day_12.rs:38 | a left part in which the separator cannot start splits back there |
| Text.Split | src/day_10.rs:18 | `split` always yields at least one piece |
| Text.SplitParts | src/day_2.rs:47 | no piece holds the separator, and joining the pieces gives the text back |
| Text.SplitJoin | src/day_11.rs:56 | pieces without the separator, joined by it, split back into themselves |
| Text.ParseEach | src/day_9.rs:50-61 | every line parses exactly when the result is Some, and then each value is its line's |
| Text.ParseEachValues | src/day_2.rs:47-51 | lines that read as given values parse to exactly those values |
| Sorting.Insert | src/day_5.rs:35 | inserting keeps every element and adds the new one |
| Sorting.InsertSorted | src/day_5.rs:35 | inserting into a sorted sequence keeps it sorted |
| Sorting.SortBy | src/day_8.rs:148 | `sort_by`: a sorted permutation of its input |
| Sorting.HeadIsLeast | src/day_8.rs:31-35 | the head of a sorted sequence comes before every other element |
| Sorting.SortedUnique | src/day_8.rs:31-35 | under a total order, two sorted permutations of the same elements are equal |
| Sorting.NoDuplicatesCountsOnce | src/day_8.rs:148-149 | without duplicates every element occurs at most once |
| Sorting.PermutationKeepsNoDuplicates | src/day_8.rs:148-149 | a permutation of a sequence without duplicates has none |
| Pairs.PairsFrom | src/day_8.rs:17-26 | the index pairs from a row on, each once, in lexicographic order |
| Pairs.IndexPairs | src/day_8.rs:17-26 | every pair a < b < N exactly once, N·(N−1)/2 of them |
| Sets.SubsetCard | src/day_8.rs:62-86 | a subset has no more elements than its superset |

## Left out

- File and console I/O are not modelled: `read_to_iter`, `std::fs::read_to_string`, `Solution::report`, every `run()`, and the listing that day 11's `part1` prints before walking. Every parser takes the lines or the text as a parameter.
- The Criterion benchmarks are not modelled; they only time the solvers.
- Fixed-width arithmetic is not modelled: every integer is unbounded. This covers:
  - `usize` overflow in sums and products (days 2, 3, 5, 6, 8, 9 and 12);
  - `i16`/`i32`/`i64` overflow in point addition and in `distance`'s `isize` products;
  - the `as usize` casts.
  
  The range checks that are modelled are:
  - `try_from(..).unwrap()` in `new`;
  - the `u16` parse and the 16-bit shifts of day 10;
  - day 10's final sum against `usize::MAX`;
  - the `i16`/`i32` coordinates of days 4 and 9.
- Text is modelled as a sequence of characters read as ASCII. The source indexes bytes (`as_bytes`, `len`, `&s[a..b]`). On non-ASCII input a byte position can differ from a character position, and a slice that does not fall on a character boundary panics. Neither is modelled.
- Point2D.TryFromInternal: the row and column are parsed as unbounded integers. The source's `N::from_str` also fails on values outside the coordinate type.
- The binary heaps, `HashMap`, `HashSet`, `VecDeque` and itertools' `powerset` are modelled by their contents, not their implementation:
  - a heap is the sorted sequence of what it holds;
  - maps and sets are Dafny maps and sets;
  - `powerset` is every choice of a subset of the buttons.
- Day8.GenerateConnections: the order among circuits of equal size is not specified, since it depends on the heap's internal order. The map is required to be symmetric; `part1` builds only symmetric maps (`Day8.Linked`).
- Day10.U16Values: order and repeats are stated only when every piece reads as a `u16`. With unreadable pieces among them, only which values occur is stated.
- Day 8's line parser (`From<Input>`) is not modelled; the boxes are given.
- Day3.FindMaxJoltage: requires 1 ≤ length ≤ the bank's size, which is exactly the set of inputs on which the source does not panic. For length 0 the source's `length - 1` underflows (src/day_3.rs:67). Every bank shorter than `length` panics. With fewer than `length - 1` batteries, the first window `slice.len() - (length - 1)` underflows (src/day_3.rs:67). With exactly `length - 1` batteries, an empty bank (length 1) panics at the eagerly evaluated `&slice[0]` (src/day_3.rs:58). A non-empty one takes the `slice[0]` fallback for the first digit, with `skip_count` 1. The loop's window `slice.len() - skip_count - (length - cell_count)` then computes `(length - 2) - (length - 1)`, which underflows (src/day_3.rs:76). For example, length 2 with a 1-battery bank computes `0 - 1`, and length 12 with 11 batteries computes `10 - 11`. The requires excludes exactly these panics.
- Day3.Solve: carries the same requirement for every bank.
- Day3.Part1: requires every bank to hold at least two batteries, for the same reason.
- Day3.Part2: requires every bank to hold at least twelve batteries, for the same reason.
- Day5.Part2: requires every range to have its start at or below its end. The source also accepts an inverted range that the merge absorbs into an earlier one: for `[(1, 10), (5, 3)]` `has_overlap` holds, the hull `(1, 10)` is kept, and the answer is 10. Only an inverted range that is not absorbed reaches `end - start + 1` and underflows. The model leaves both cases out.
- Day5.CountIds: requires the same, for the same reason.
- Day 6: the `&str` operator parser is related to the byte parser only through `Day6.OperatorRoundTrip`. A lemma that both accept exactly the same texts is not stated.
- Day 11: the walk's termination is proved by ghost bounds on the queued entries. They shrink a weight on every turn, so no fuel and no iteration bound is needed.
- The puzzle inputs and samples are not part of this model, so the expected answers their tests check are not proved. The concrete test vectors are not proved either:
  - day 3's two banks;
  - day 6's `[356, 24, 1]` example;
  - day 8's sample answers 40 and 25272.

  The literal examples in comments are proved: `Day10.IndicatorExample` and `Day10.ButtonExample`.

## Findings

| source | as written | input that shows it | evidently intended | confidence | as-written member | corrected member |
|---|---|---|---|---|---|---|
| src/day_5.rs:89-92 | `is_within_range` tests `range.0 < value`, excluding the range's first id | range `3-5` with id `3`: part 1 does not count it, yet part 2 counts 3 as fresh | `range.0 <= value <= range.1`, the closed interval part 2 counts | medium, not executed | Day5.StartIdNotFresh | Day5.InclusiveAgreesWithPart2 |
