/**
 * Day 10 (src/day_10.rs): machines with indicator lights and buttons. Each
 * button toggles a set of lights; part 1 adds up, over the machines, the
 * fewest buttons whose combined toggling turns on exactly the lights the
 * indicator diagram asks for. Part 2 is not solved and returns 0.
 *
 * A `u16` bit mask is modelled as the set of its set bit positions, every
 * position below 16; XOR is then symmetric difference.
 */
module Day10 {
  import opened Wrappers
  import opened Text

  /** `BitMask`: the positions of the set bits. */
  type Mask = set<nat>

  const UsizeMax: nat := 0xFFFF_FFFF_FFFF_FFFF

  /** `Machine`: the wanted lights, one mask per button, and the joltages. */
  datatype Machine = Machine(expectedState: Mask, buttonPresses: seq<Mask>, joltage: seq<nat>)

  /** `a ^ b`. */
  function Xor(a: Mask, b: Mask): (r: Mask)
    ensures forall i :: i in r <==> (i in a) != (i in b)
  {
    (a - b) + (b - a)
  }

  /** `fold(0, |acc, combo| acc ^ combo)`. */
  function XorAll(s: seq<Mask>): Mask
  {
    if s == [] then {} else Xor(XorAll(s[..|s| - 1]), s[|s| - 1])
  }

  /** The value of the mask's bits as a number: bit `i` weighs `2^i`. */
  function MaskValue(m: Mask): nat
  {
    BitsValue(m, 16)
  }

  function BitsValue(m: Mask, n: nat): nat
  {
    if n == 0 then 0 else BitsValue(m, n - 1) + if n - 1 in m then Pow2(n - 1) else 0
  }

  function Pow2(n: nat): nat
  {
    if n == 0 then 1 else 2 * Pow2(n - 1)
  }

  // ---------------------------------------------------------------------
  // XOR folds

  /** Folding a concatenation XORs the two folds. */
  lemma {:induction false} XorAllAppend(a: seq<Mask>, b: seq<Mask>)
    ensures XorAll(a + b) == Xor(XorAll(a), XorAll(b))
    decreases |b|
  {
    if b == [] {
      assert a + b == a;
    } else {
      var init := b[..|b| - 1];
      XorAllAppend(a, init);
      assert (a + b)[..|a + b| - 1] == a + init;
    }
  }

  /** The fold does not depend on the order of the buttons. */
  lemma {:induction false} XorAllPermutation(s: seq<Mask>, t: seq<Mask>)
    requires multiset(s) == multiset(t)
    ensures XorAll(s) == XorAll(t)
    decreases |s|
  {
    if s != [] {
      var init, x := s[..|s| - 1], s[|s| - 1];
      assert s == init + [x];
      var before, after := FindIn(init, x, t);
      XorAllPermutation(init, before + after);
      XorAllMove(before, x, after);
    }
  }

  /** Where the last element of `init + [x]` sits in a permutation `t` of it. */
  lemma FindIn<T>(init: seq<T>, x: T, t: seq<T>) returns (before: seq<T>, after: seq<T>)
    requires multiset(init + [x]) == multiset(t)
    ensures t == before + [x] + after
    ensures multiset(init) == multiset(before + after)
  {
    assert x in multiset(init + [x]);
    var k :| 0 <= k < |t| && t[k] == x;
    before, after := t[..k], t[k + 1..];
    assert t == before + [x] + after;
    DropLast(init, x, before, after);
  }

  /** Taking the same element out of two permutations leaves permutations. */
  lemma DropLast<T>(init: seq<T>, x: T, before: seq<T>, after: seq<T>)
    requires multiset(init + [x]) == multiset(before + [x] + after)
    ensures multiset(init) == multiset(before + after)
  {
    assert multiset(before + [x] + after) == multiset(before) + multiset{x} + multiset(after);
    assert multiset(init + [x]) == multiset(init) + multiset{x};
    assert multiset(before + after) == multiset(before) + multiset(after);
    calc {
      multiset(init);
      multiset(init + [x]) - multiset{x};
      multiset(before + [x] + after) - multiset{x};
      multiset(before + after);
    }
  }

  /** Moving one mask to the back leaves the fold alone. */
  lemma XorAllMove(before: seq<Mask>, x: Mask, after: seq<Mask>)
    ensures XorAll(before + [x] + after) == Xor(XorAll(before + after), x)
  {
    calc {
      XorAll(before + [x] + after);
      { XorAllAppend(before + [x], after); }
      Xor(XorAll(before + [x]), XorAll(after));
      { XorAllAppend(before, [x]); XorAllSingle(x); }
      Xor(Xor(XorAll(before), x), XorAll(after));
      { XorSwap(XorAll(before), x, XorAll(after)); }
      Xor(Xor(XorAll(before), XorAll(after)), x);
      { XorAllAppend(before, after); }
      Xor(XorAll(before + after), x);
    }
  }

  lemma XorSwap(a: Mask, x: Mask, b: Mask)
    ensures Xor(Xor(a, x), b) == Xor(Xor(a, b), x)
  {
  }

  lemma XorAllSingle(x: Mask)
    ensures XorAll([x]) == x
  {
    assert [x][..0] == [];
  }

  // ---------------------------------------------------------------------
  // Part 1

  /** The buttons a choice of booleans picks, in order: one element of `powerset`. */
  function Combo(buttons: seq<Mask>, chosen: seq<bool>): (r: seq<Mask>)
    requires |chosen| == |buttons|
    ensures |r| <= |buttons|
  {
    if buttons == [] then []
    else (if chosen[0] then [buttons[0]] else []) + Combo(buttons[1..], chosen[1..])
  }

  /** The fewer of two counts, either of which may be missing. */
  function MinOpt(a: Option<nat>, b: Option<nat>): Option<nat>
  {
    if a.None? then b else if b.None? then a else if b.value < a.value then b else a
  }

  function Succ(a: Option<nat>): Option<nat>
  {
    if a.None? then None else Some(a.value + 1)
  }

  /**
   * The `powerset`, `filter` and `min_by` of part 1: the fewest buttons whose
   * XOR is `target`, None when no subset gives it. Each button is either
   * left out or pressed, and pressing it leaves its toggles to undo.
   */
  function Fewest(buttons: seq<Mask>, target: Mask): Option<nat>
  {
    if buttons == [] then (if target == {} then Some(0) else None)
    else MinOpt(Fewest(buttons[1..], target), Succ(Fewest(buttons[1..], Xor(target, buttons[0]))))
  }

  /** Pressing a button first, then the rest. */
  lemma XorAllCons(x: Mask, rest: seq<Mask>)
    ensures XorAll([x] + rest) == Xor(x, XorAll(rest))
  {
    XorAllAppend([x], rest);
    XorAllSingle(x);
  }

  /** The count `Fewest` gives is that of a subset of the buttons whose XOR is the target. */
  lemma {:induction false} FewestAchieved(buttons: seq<Mask>, target: Mask)
    requires Fewest(buttons, target).Some?
    ensures exists chosen ::
      && |chosen| == |buttons|
      && XorAll(Combo(buttons, chosen)) == target
      && |Combo(buttons, chosen)| == Fewest(buttons, target).value
  {
    if buttons == [] {
      var none: seq<bool> := [];
      assert |none| == |buttons| && XorAll(Combo(buttons, none)) == target;
    } else {
      var rest := buttons[1..];
      var skip, press := Fewest(rest, target), Fewest(rest, Xor(target, buttons[0]));
      if Fewest(buttons, target) == skip {
        FewestAchieved(rest, target);
        var chosen :| |chosen| == |rest| && XorAll(Combo(rest, chosen)) == target && |Combo(rest, chosen)| == skip.value;
        assert Combo(buttons, [false] + chosen) == Combo(rest, chosen);
      } else {
        FewestAchieved(rest, Xor(target, buttons[0]));
        var chosen :| |chosen| == |rest| && XorAll(Combo(rest, chosen)) == Xor(target, buttons[0]) &&
          |Combo(rest, chosen)| == press.value;
        var combo := Combo(buttons, [true] + chosen);
        assert combo == [buttons[0]] + Combo(rest, chosen);
        XorAllCons(buttons[0], Combo(rest, chosen));
        assert XorAll(combo) == target;
      }
    }
  }

  /** No subset whose XOR is the target has fewer buttons than `Fewest` gives. */
  lemma {:induction false} FewestMinimal(buttons: seq<Mask>, target: Mask, chosen: seq<bool>)
    requires |chosen| == |buttons| && XorAll(Combo(buttons, chosen)) == target
    ensures Fewest(buttons, target).Some? && Fewest(buttons, target).value <= |Combo(buttons, chosen)|
  {
    if buttons != [] {
      var rest := buttons[1..];
      var combo := Combo(rest, chosen[1..]);
      if chosen[0] {
        XorAllCons(buttons[0], combo);
        assert XorAll(combo) == Xor(target, buttons[0]);
        FewestMinimal(rest, Xor(target, buttons[0]), chosen[1..]);
      } else {
        assert Combo(buttons, chosen) == [] + combo == combo;
        FewestMinimal(rest, target, chosen[1..]);
      }
    }
  }

  /** No light to turn on: the empty subset, no press at all. */
  lemma {:induction false} NothingToDo(buttons: seq<Mask>)
    ensures Fewest(buttons, {}) == Some(0)
  {
    if buttons != [] {
      NothingToDo(buttons[1..]);
    }
  }

  /** All the lights any button toggles. */
  function Reach(buttons: seq<Mask>): Mask
  {
    if buttons == [] then {} else buttons[0] + Reach(buttons[1..])
  }

  /** A wanted light that no button toggles cannot be turned on. */
  lemma {:induction false} OutOfReach(buttons: seq<Mask>, target: Mask)
    requires !(target <= Reach(buttons))
    ensures Fewest(buttons, target).None?
  {
    if buttons != [] {
      var rest := buttons[1..];
      var i :| i in target && i !in Reach(buttons);
      assert i in Xor(target, buttons[0]);
      OutOfReach(rest, target);
      OutOfReach(rest, Xor(target, buttons[0]));
    }
  }

  /** `.unwrap_or((0, usize::MAX)).1`: a machine's presses. */
  function Presses(machine: Machine): (r: nat)
    ensures Fewest(machine.buttonPresses, machine.expectedState).None? ==> r == UsizeMax
    ensures Fewest(machine.buttonPresses, machine.expectedState).Some? ==>
              exists chosen ::
                && |chosen| == |machine.buttonPresses|
                && XorAll(Combo(machine.buttonPresses, chosen)) == machine.expectedState
                && |Combo(machine.buttonPresses, chosen)| == r
  {
    if Fewest(machine.buttonPresses, machine.expectedState).Some? then
      FewestAchieved(machine.buttonPresses, machine.expectedState);
      Fewest(machine.buttonPresses, machine.expectedState).value
    else UsizeMax
  }

  function SumPresses(machines: seq<Machine>): nat
  {
    if machines == [] then 0 else SumPresses(machines[..|machines| - 1]) + Presses(machines[|machines| - 1])
  }

  /**
   * `part1`: the presses of every machine added up; a `usize` sum that
   * overflows panics (None).
   */
  function Part1(machines: seq<Machine>): (r: Option<nat>)
    ensures r.Some? <==> SumPresses(machines) <= UsizeMax
    ensures r.Some? ==> r.value == SumPresses(machines)
  {
    var total := SumPresses(machines);
    if total <= UsizeMax then Some(total) else None
  }

  /** A machine that cannot be solved counts `usize::MAX`, so beside any other press the sum overflows. */
  lemma UnsolvableOverflows(solvable: Machine, unsolvable: Machine)
    requires Fewest(unsolvable.buttonPresses, unsolvable.expectedState).None?
    requires Presses(solvable) > 0
    ensures Part1([solvable, unsolvable]).None?
  {
    var machines := [solvable, unsolvable];
    assert machines[..1] == [solvable] && [solvable][..0] == [];
    assert Presses(unsolvable) == UsizeMax;
    assert SumPresses(machines) == SumPresses([solvable]) + UsizeMax;
  }

  /** `part2`: not solved; always 0. */
  function Part2(machines: seq<Machine>): (r: nat)
    ensures r == 0
  {
    0
  }

  // ---------------------------------------------------------------------
  // Parsing

  /** The text between the first and the last character: `s[1..s.len() - 1]`. */
  function Inner(s: string): string
    requires |s| >= 2
  {
    s[1..|s| - 1]
  }

  /** `u16::from_str`. */
  function ParseU16(s: string): (r: Option<nat>)
    ensures r.Some? ==> r.value <= 0xFFFF
  {
    match ParseNat(s)
    case Some(v) => if v <= 0xFFFF then Some(v) else None
    case None => None
  }

  /** `flat_map(u16::from_str)`: the pieces that read as `u16`, in order. */
  function U16Values(pieces: seq<string>): (r: seq<nat>)
    ensures |r| <= |pieces|
    ensures forall v :: v in r <==> exists k :: 0 <= k < |pieces| && ParseU16(pieces[k]) == Some(v)
    ensures (forall k :: 0 <= k < |pieces| ==> ParseU16(pieces[k]).Some?) ==>
              |r| == |pieces| && forall k :: 0 <= k < |pieces| ==> ParseU16(pieces[k]) == Some(r[k])
  {
    if pieces == [] then []
    else
      var rest := U16Values(pieces[1..]);
      var r := match ParseU16(pieces[0]) case Some(v) => [v] + rest case None => rest;
      U16ValuesStep(pieces, rest, r);
      r
  }

  /** What `U16Values` promises of `pieces` and its result `r`. */
  ghost predicate ValuesOf(pieces: seq<string>, r: seq<nat>)
  {
    && |r| <= |pieces|
    && (forall v :: v in r <==> exists k :: 0 <= k < |pieces| && ParseU16(pieces[k]) == Some(v))
    && ((forall k :: 0 <= k < |pieces| ==> ParseU16(pieces[k]).Some?) ==>
          |r| == |pieces| && forall k :: 0 <= k < |pieces| ==> ParseU16(pieces[k]) == Some(r[k]))
  }

  /** Reading the first piece in front of the values of the rest keeps the promise. */
  lemma U16ValuesStep(pieces: seq<string>, rest: seq<nat>, r: seq<nat>)
    requires pieces != [] && ValuesOf(pieces[1..], rest)
    requires r == match ParseU16(pieces[0]) case Some(v) => [v] + rest case None => rest
    ensures ValuesOf(pieces, r)
  {
    assert forall k :: 1 <= k < |pieces| ==> pieces[k] == pieces[1..][k - 1];
    if ParseU16(pieces[0]).Some? {
      assert r[1..] == rest;
    }
  }

  /**
   * The indicator diagram: bit `i` is set when character `i` is '#'.
   * `1 << i` overflows a `u16` from position 16 on and panics (None).
   */
  method IndicatorMask(bytes: string) returns (r: Option<Mask>)
    ensures r.None? <==> exists i :: 16 <= i < |bytes| && bytes[i] == '#'
    ensures r.Some? ==> forall i: nat :: i in r.value <==> i < |bytes| && bytes[i] == '#'
  {
    var value: Mask := {};
    for i := 0 to |bytes|
      invariant forall j :: 16 <= j < i ==> bytes[j] != '#'
      invariant forall j: nat :: j in value <==> j < i && bytes[j] == '#'
    {
      if bytes[i] == '#' {
        if i >= 16 {
          return None;
        }
        value := value + {i};
      }
    }
    return Some(value);
  }

  /** A button: bit `d` set for every listed `d`; `1 << d` panics from 16 on (None). */
  method ButtonMask(digits: seq<nat>) returns (r: Option<Mask>)
    ensures r.None? <==> exists k :: 0 <= k < |digits| && digits[k] >= 16
    ensures r.Some? ==> forall i :: i in r.value <==> i in digits
  {
    var mask: Mask := {};
    for k := 0 to |digits|
      invariant forall j :: 0 <= j < k ==> digits[j] < 16
      invariant forall i :: i in mask <==> i in digits[..k]
    {
      if digits[k] >= 16 {
        return None;
      }
      mask := mask + {digits[k]};
    }
    assert digits[..|digits|] == digits;
    return Some(mask);
  }

  /** The diagram `[.##.]` is the mask 0b0110, 6. */
  lemma IndicatorExample(m: Mask)
    requires forall i: nat :: i in m <==> i < |".##."| && ".##."[i] == '#'
    ensures MaskValue(m) == 6
  {
    assert m == {1, 2};
    BitsValueBeyond(m, 16, 3);
    assert Pow2(1) == 2 && Pow2(2) == 4;
    assert BitsValue(m, 1) == 0;
    assert BitsValue(m, 2) == 2;
  }

  /** The button `(1,3)` is the mask 0b1010, 10. */
  lemma ButtonExample(m: Mask)
    requires forall i :: i in m <==> i in [1, 3]
    ensures MaskValue(m) == 10
  {
    assert m == {1, 3};
    BitsValueBeyond(m, 16, 4);
    assert Pow2(1) == 2 && Pow2(3) == 8;
    assert BitsValue(m, 1) == 0;
    assert BitsValue(m, 2) == 2;
    assert BitsValue(m, 3) == 2;
  }

  /** Bits at or past `k` are not set, so positions past `k` add nothing. */
  lemma {:induction false} BitsValueBeyond(m: Mask, n: nat, k: nat)
    requires k <= n && forall i :: i in m ==> i < k
    ensures BitsValue(m, n) == BitsValue(m, k)
  {
    if n > k {
      BitsValueBeyond(m, n - 1, k);
    }
  }

  /** The numbers listed in a button `(..)`. */
  function ButtonDigits(part: string): seq<nat>
    requires |part| >= 2
  {
    U16Values(Split(Inner(part), ','))
  }

  /** A button part can be read: long enough to slice, and every bit below 16. */
  ghost predicate ButtonOk(part: string)
  {
    |part| >= 2 && forall v :: v in ButtonDigits(part) ==> v < 16
  }

  /** `mask` has exactly the bits the button part lists. */
  ghost predicate IsButton(mask: Mask, part: string)
  {
    |part| >= 2 && forall i :: i in mask <==> i in ButtonDigits(part)
  }

  /** A line's parts split at ' ' can be read as a machine. */
  ghost predicate WellFormed(line: string)
  {
    var parts := Split(line, ' ');
    && |parts| >= 2
    && |parts[0]| >= 2
    && (forall i :: 16 <= i < |Inner(parts[0])| ==> Inner(parts[0])[i] != '#')
    && (forall k :: 1 <= k < |parts| - 1 ==> ButtonOk(parts[k]))
    && |parts[|parts| - 1]| >= 2
  }

  /**
   * `Machine::from`: the first part is the diagram, the last the joltages,
   * the ones between the buttons. Slicing a part shorter than two
   * characters, too few parts, or a bit past 15 panics (None).
   */
  method ParseMachine(line: string) returns (r: Option<Machine>)
    ensures r.Some? <==> WellFormed(line)
    ensures r.Some? ==> var parts := Split(line, ' ');
      && (forall i: nat :: i in r.value.expectedState <==> i < |Inner(parts[0])| && Inner(parts[0])[i] == '#')
      && |r.value.buttonPresses| == |parts| - 2
      && (forall k :: 0 <= k < |parts| - 2 ==> IsButton(r.value.buttonPresses[k], parts[k + 1]))
      && r.value.joltage == U16Values(Split(Inner(parts[|parts| - 1]), ','))
  {
    var parts := Split(line, ' ');
    if |parts[0]| < 2 {
      return None;
    }
    var expectedState := IndicatorMask(Inner(parts[0]));
    if expectedState.None? || |parts| < 2 {
      return None;
    }
    var buttonPresses := ParseMiddle(parts);
    if buttonPresses.None? {
      return None;
    }
    var last := parts[|parts| - 1];
    if |last| < 2 {
      return None;
    }
    var joltage := U16Values(Split(Inner(last), ','));
    return Some(Machine(expectedState.value, buttonPresses.value, joltage));
  }

  /** The buttons: every part between the first and the last. */
  method ParseMiddle(parts: seq<string>) returns (r: Option<seq<Mask>>)
    requires |parts| >= 2
    ensures r.Some? <==> forall k :: 1 <= k < |parts| - 1 ==> ButtonOk(parts[k])
    ensures r.Some? ==> |r.value| == |parts| - 2 && forall k :: 0 <= k < |parts| - 2 ==> IsButton(r.value[k], parts[k + 1])
  {
    var tuples := parts[1..|parts| - 1];
    assert forall k :: 0 <= k < |tuples| ==> tuples[k] == parts[k + 1];
    r := ParseButtons(tuples);
    if r.None? {
      ghost var k :| 0 <= k < |tuples| && !ButtonOk(tuples[k]);
      assert !ButtonOk(parts[k + 1]);
      return;
    }
    forall k | 1 <= k < |parts| - 1 ensures ButtonOk(parts[k]) {
      assert parts[k] == tuples[k - 1];
    }
  }

  /** The buttons' masks, in order; the first button that cannot be read panics (None). */
  method ParseButtons(tuples: seq<string>) returns (r: Option<seq<Mask>>)
    ensures r.Some? <==> forall k :: 0 <= k < |tuples| ==> ButtonOk(tuples[k])
    ensures r.Some? ==> |r.value| == |tuples| && forall k :: 0 <= k < |tuples| ==> IsButton(r.value[k], tuples[k])
  {
    var buttonPresses: seq<Mask> := [];
    for k := 0 to |tuples|
      invariant ButtonsRead(buttonPresses, tuples[..k])
    {
      var mask := ParseButton(tuples[k]);
      if mask.None? {
        return None;
      }
      ButtonsReadMore(buttonPresses, tuples, k, mask.value);
      buttonPresses := buttonPresses + [mask.value];
    }
    assert tuples[..|tuples|] == tuples;
    forall k | 0 <= k < |tuples| ensures ButtonOk(tuples[k]) && IsButton(buttonPresses[k], tuples[k]) {
      ButtonsReadAt(buttonPresses, tuples, k);
    }
    return Some(buttonPresses);
  }

  /** `masks` are the masks of `tuples`, one by one, and every one of them could be read. */
  ghost predicate ButtonsRead(masks: seq<Mask>, tuples: seq<string>)
    decreases |tuples|
  {
    && |masks| == |tuples|
    && (tuples != [] ==>
         && ButtonsRead(masks[..|masks| - 1], tuples[..|tuples| - 1])
         && ButtonOk(tuples[|tuples| - 1])
         && IsButton(masks[|masks| - 1], tuples[|tuples| - 1]))
  }

  /** Reading one more button extends `ButtonsRead`. */
  lemma ButtonsReadMore(masks: seq<Mask>, tuples: seq<string>, k: nat, mask: Mask)
    requires k < |tuples| && ButtonsRead(masks, tuples[..k])
    requires ButtonOk(tuples[k]) && IsButton(mask, tuples[k])
    ensures ButtonsRead(masks + [mask], tuples[..k + 1])
  {
    assert (masks + [mask])[..k] == masks;
    assert tuples[..k + 1][..k] == tuples[..k];
  }

  /** What `ButtonsRead` says of each button. */
  lemma {:induction false} ButtonsReadAt(masks: seq<Mask>, tuples: seq<string>, k: nat)
    requires ButtonsRead(masks, tuples) && k < |tuples|
    ensures ButtonOk(tuples[k]) && IsButton(masks[k], tuples[k])
    decreases |tuples|
  {
    var n := |tuples| - 1;
    if k < n {
      ButtonsReadAt(masks[..n], tuples[..n], k);
      assert masks[..n][k] == masks[k] && tuples[..n][k] == tuples[k];
    }
  }

  /** One button `(..)`: too short to slice or a bit from 16 on panics (None). */
  method ParseButton(tuple: string) returns (r: Option<Mask>)
    ensures r.Some? <==> ButtonOk(tuple)
    ensures r.Some? ==> IsButton(r.value, tuple)
  {
    if |tuple| < 2 {
      return None;
    }
    var digits := ButtonDigits(tuple);
    r := ButtonMask(digits);
    if r.None? {
      ghost var j :| 0 <= j < |digits| && digits[j] >= 16;
      assert digits[j] in ButtonDigits(tuple);
    }
  }
}
