/**
 * Day 1 (src/day_1.rs): a dial with positions 0..=99 starts at 50 and is
 * turned left or right by each instruction. Part 1 counts the instructions
 * that leave the dial at 0; part 2 turns one click at a time and counts
 * every click that lands on 0.
 */
module Day1 {
  import opened Wrappers
  import opened Text

  datatype Dial = Left(amount: int) | Right(amount: int)

  /** The signed amount of one instruction: left subtracts, right adds. */
  function Delta(d: Dial): int
  {
    match d
    case Left(v) => -v
    case Right(v) => v
  }

  /** The sum of the signed amounts. */
  function Net(ds: seq<Dial>): int
  {
    if ds == [] then 0 else Net(ds[..|ds| - 1]) + Delta(ds[|ds| - 1])
  }

  /** `wrapping_rem_euclid(100)`: the dial position for an unwrapped value. */
  function Wrap(v: int): (r: int)
    ensures 0 <= r < 100
  {
    v % 100
  }

  /**
   * The position differs from the unwrapped value by a multiple of 100, and
   * it is the only value in 0..100 that does.
   */
  lemma WrapCongruent(v: int, w: int)
    ensures (v - Wrap(v)) % 100 == 0
    ensures 0 <= w < 100 && (v - w) % 100 == 0 ==> w == Wrap(v)
  {
    if 0 <= w < 100 && (v - w) % 100 == 0 {
      var k := (v - w) / 100;
      assert v - w == 100 * k;
      assert v == 100 * k + w;
    }
  }

  /** Wrapping twice is wrapping the sum once. */
  lemma WrapAdd(a: int, b: int)
    ensures Wrap(Wrap(a) + b) == Wrap(a + b)
  {
    var q := a / 100;
    assert a == 100 * q + Wrap(a);
    assert Wrap(a) + b == (a + b) - 100 * q;
  }

  // ---------------------------------------------------------------------
  // Part 1

  /** The fold state `(count, position)` after the instructions `ds`. */
  function Part1State(ds: seq<Dial>): (r: (nat, int))
    ensures 0 <= r.1 < 100
    ensures r.0 <= |ds|
  {
    if ds == [] then (0, 50) else Turn(Part1State(ds[..|ds| - 1]), ds[|ds| - 1])
  }

  /** One instruction of part 1's fold: move the dial, count one if it shows 0. */
  function Turn(prior: (nat, int), d: Dial): (nat, int)
  {
    var newPosition := Wrap(prior.1 + Delta(d));
    (prior.0 + if newPosition == 0 then 1 else 0, newPosition)
  }

  /** `part1`: the number of instructions that leave the dial on 0, at most one each. */
  function Part1(ds: seq<Dial>): (r: nat)
    ensures r <= |ds|
  {
    Part1State(ds).0
  }

  /** After any run of instructions the dial shows 50 plus their net amount, wrapped. */
  lemma {:induction false} Part1Position(ds: seq<Dial>)
    ensures Part1State(ds).1 == Wrap(50 + Net(ds))
  {
    if ds != [] {
      var init := ds[..|ds| - 1];
      Part1Position(init);
      WrapAdd(50 + Net(init), Delta(ds[|ds| - 1]));
    }
  }

  /** One more instruction adds one to part 1 exactly when it leaves the dial at 0. */
  lemma Part1Append(ds: seq<Dial>, d: Dial)
    ensures Part1(ds + [d]) == Part1(ds) + if Wrap(50 + Net(ds + [d])) == 0 then 1 else 0
  {
    var both := ds + [d];
    assert both[..|both| - 1] == ds;
    Part1Position(both);
  }

  // ---------------------------------------------------------------------
  // Part 2

  /** `n` clicks of `step` (+1 for right, -1 for left). */
  function Clicks(step: int, n: int): (r: seq<int>)
    ensures |r| == if n < 0 then 0 else n
    ensures forall i :: 0 <= i < |r| ==> r[i] == step
  {
    seq(if n < 0 then 0 else n, _ => step)
  }

  /** `(0..v).map(|_| ±1)` for one instruction; nothing for v <= 0. */
  function Expand(d: Dial): seq<int>
  {
    match d
    case Right(v) => Clicks(1, v)
    case Left(v) => Clicks(-1, v)
  }

  /** The `flat_map` of all instructions into clicks. */
  function UnitSteps(ds: seq<Dial>): seq<int>
  {
    if ds == [] then [] else UnitSteps(ds[..|ds| - 1]) + Expand(ds[|ds| - 1])
  }

  /** Part 2's fold over clicks, from a given `(count, position)`. */
  function Spin(state: (nat, int), steps: seq<int>): (r: (nat, int))
    ensures r.0 >= state.0
    ensures 0 <= state.1 < 100 ==> 0 <= r.1 < 100
  {
    if steps == [] then state
    else
      var prior := Spin(state, steps[..|steps| - 1]);
      var newPosition := Wrap(steps[|steps| - 1] + prior.1);
      if newPosition == 0 then (prior.0 + 1, newPosition) else (prior.0, newPosition)
  }

  function Part2State(ds: seq<Dial>): (nat, int)
  {
    Spin((0, 50), UnitSteps(ds))
  }

  /** `part2`: the number of clicks that leave the dial on 0, at most one each. */
  function Part2(ds: seq<Dial>): (r: nat)
    ensures r <= |UnitSteps(ds)|
  {
    SpinBound((0, 50), UnitSteps(ds));
    Part2State(ds).0
  }

  /** Each click adds at most one to the count. */
  lemma {:induction false} SpinBound(state: (nat, int), steps: seq<int>)
    ensures Spin(state, steps).0 <= state.0 + |steps|
  {
    if steps != [] {
      SpinBound(state, steps[..|steps| - 1]);
    }
  }

  /** Folding over two runs of clicks is folding over the first, then the second. */
  lemma {:induction false} SpinAppend(state: (nat, int), a: seq<int>, b: seq<int>)
    ensures Spin(state, a + b) == Spin(Spin(state, a), b)
  {
    if b == [] {
      assert a + b == a;
    } else {
      var ab := a + b;
      assert ab[..|ab| - 1] == a + b[..|b| - 1];
      assert ab[|ab| - 1] == b[|b| - 1];
      SpinAppend(state, a, b[..|b| - 1]);
    }
  }

  /**
   * The clicks of one instruction move the dial by its signed amount, and
   * when the dial ends on 0 the last click is counted.
   */
  lemma InstructionSpin(state: (nat, int), d: Dial)
    requires 0 <= state.1 < 100 && d.amount >= 1
    ensures Spin(state, Expand(d)).1 == Wrap(state.1 + Delta(d))
    ensures Wrap(state.1 + Delta(d)) == 0 ==> Spin(state, Expand(d)).0 >= state.0 + 1
  {
    var step := if d.Right? then 1 else -1;
    assert Expand(d) == Clicks(step, d.amount);
    assert step * d.amount == Delta(d);
    ClicksPosition(state, step, d.amount);
    var cs := Clicks(step, d.amount);
    assert cs[..|cs| - 1] == Clicks(step, d.amount - 1);
  }

  /** `n` clicks of one sign move the dial by `step * n`. */
  lemma {:induction false} ClicksPosition(state: (nat, int), step: int, n: nat)
    requires 0 <= state.1 < 100
    ensures Spin(state, Clicks(step, n)).1 == Wrap(state.1 + step * n)
  {
    if n > 0 {
      var cs := Clicks(step, n);
      assert cs[..|cs| - 1] == Clicks(step, n - 1);
      ClicksPosition(state, step, n - 1);
      var before := state.1 + step * (n - 1);
      assert state.1 + step * n == before + step;
      assert cs[|cs| - 1] == step;
      ClickStep(Spin(state, Clicks(step, n - 1)), step, Spin(state, cs), before);
    } else {
      assert Clicks(step, n) == [];
    }
  }

  /** A click of `step` from the wrapped position of `a` ends on the wrapped position of `a + step`. */
  lemma ClickStep(prior: (nat, int), step: int, next: (nat, int), a: int)
    requires prior.1 == Wrap(a) && next.1 == Wrap(step + prior.1)
    ensures next.1 == Wrap(a + step)
  {
    WrapAdd(a, step);
  }

  /**
   * For amounts of at least 1 both parts end at the same position, and
   * part 2 counts at least every instruction part 1 counts: the last click
   * of an instruction ending on 0 lands on 0.
   */
  lemma {:induction false} Part1AtMostPart2(ds: seq<Dial>)
    requires forall i :: 0 <= i < |ds| ==> ds[i].amount >= 1
    ensures Part2State(ds).1 == Part1State(ds).1
    ensures Part1(ds) <= Part2(ds)
  {
    FoldBoth(ds);
    Part2FoldIsSpin(ds);
  }

  /** Part 2's fold taken one instruction at a time: the clicks of each from the state before it. */
  ghost function Part2Fold(ds: seq<Dial>): (nat, int)
  {
    if ds == [] then (0, 50) else Spin(Part2Fold(ds[..|ds| - 1]), Expand(ds[|ds| - 1]))
  }

  /** Folding one instruction at a time is folding over all the clicks at once. */
  lemma {:induction false} Part2FoldIsSpin(ds: seq<Dial>)
    ensures Part2Fold(ds) == Part2State(ds)
  {
    if ds != [] {
      Part2FoldIsSpin(ds[..|ds| - 1]);
      SpinAppend((0, 50), UnitSteps(ds[..|ds| - 1]), Expand(ds[|ds| - 1]));
    }
  }

  /** Both parts by instruction: the same position, part 1's count at most part 2's. */
  lemma {:induction false} FoldBoth(ds: seq<Dial>)
    requires forall i :: 0 <= i < |ds| ==> ds[i].amount >= 1
    ensures Part2Fold(ds).1 == Part1State(ds).1 && Part1State(ds).0 <= Part2Fold(ds).0
  {
    if ds != [] {
      FoldBoth(ds[..|ds| - 1]);
      BothLast(ds);
    }
  }

  /** The last instruction keeps the two parts on the same position, part 1's count at most part 2's. */
  lemma BothLast(ds: seq<Dial>)
    requires ds != [] && ds[|ds| - 1].amount >= 1
    requires Part2Fold(ds[..|ds| - 1]).1 == Part1State(ds[..|ds| - 1]).1
    requires Part1State(ds[..|ds| - 1]).0 <= Part2Fold(ds[..|ds| - 1]).0
    ensures Part2Fold(ds).1 == Part1State(ds).1 && Part1State(ds).0 <= Part2Fold(ds).0
  {
    var init := ds[..|ds| - 1];
    BothStep(Part1State(init), Part2Fold(init), ds[|ds| - 1]);
  }

  /** One instruction from equal positions: equal positions after, part 1's count still at most part 2's. */
  lemma BothStep(one: (nat, int), two: (nat, int), d: Dial)
    requires 0 <= one.1 < 100 && two.1 == one.1 && one.0 <= two.0 && d.amount >= 1
    ensures Spin(two, Expand(d)).1 == Turn(one, d).1 && Turn(one, d).0 <= Spin(two, Expand(d)).0
  {
    InstructionSpin(two, d);
  }

  // ---------------------------------------------------------------------
  // Parsing

  /**
   * One line: trimmed, the first character chooses the direction and the
   * rest is a signed number. An empty line, an unparsable number or another
   * first character panics in the source and gives None here.
   */
  function ParseInstruction(line: string): (r: Option<Dial>)
    ensures r.Some? ==> Trim(line) != [] && Trim(line)[0] in "LR"
    ensures r.Some? ==> ParseInt(Trim(line)[1..]) == Some(r.value.amount)
    ensures r.Some? ==> (r.value.Left? <==> Trim(line)[0] == 'L')
  {
    var t := Trim(line);
    if t == [] then None
    else
      match ParseInt(t[1..])
      case None => None
      case Some(num) =>
        if t[0] == 'L' then Some(Left(num))
        else if t[0] == 'R' then Some(Right(num))
        else None
  }

  /** The line an instruction is written as. */
  function Format(d: Dial): string
  {
    match d
    case Left(v) => "L" + IntToString(v)
    case Right(v) => "R" + IntToString(v)
  }

  lemma ParseFormatRoundTrip(d: Dial)
    ensures ParseInstruction(Format(d)) == Some(d)
  {
    var s := Format(d);
    var num := IntToString(d.amount);
    assert s == [s[0]] + num && s[1..] == num;
    assert s[|s| - 1] == num[|num| - 1];
    TrimUnchanged(s);
    ParseIntRoundTrip(d.amount);
  }

  /** The whole input; None if any line would panic. */
  function ParseInstructions(lines: seq<string>): (r: Option<seq<Dial>>)
    ensures r.Some? <==> forall i :: 0 <= i < |lines| ==> ParseInstruction(lines[i]).Some?
    ensures r.Some? ==>
      |r.value| == |lines| && forall i :: 0 <= i < |lines| ==> ParseInstruction(lines[i]) == Some(r.value[i])
  {
    ParseEach(ParseInstruction, lines)
  }
}
