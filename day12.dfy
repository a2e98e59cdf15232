/**
 * Day 12 (src/day_12.rs): regions under the trees. A region fits its
 * presents when the six required counts add up to less than its area;
 * part 1 counts the regions that fit, part 2 is the closing message.
 */
module Day12 {
  import opened Wrappers
  import opened Text

  /** The number of kinds of present a region lists a count for. */
  const Kinds := 6

  /** `Region`: the usable area and how many presents of each kind it must hold. */
  datatype Region = Region(area: nat, requiredPresentIds: seq<nat>)

  function Sum(xs: seq<nat>): nat
  {
    if xs == [] then 0 else Sum(xs[..|xs| - 1]) + xs[|xs| - 1]
  }

  /** `can_fit_required`: the counts together stay below the area. */
  predicate CanFitRequired(region: Region)
    ensures CanFitRequired(region) ==>
              forall k :: 0 <= k < |region.requiredPresentIds| ==> region.requiredPresentIds[k] < region.area
  {
    TermsAtMostSum(region.requiredPresentIds);
    Sum(region.requiredPresentIds) < region.area
  }

  /** No count exceeds the sum of the counts. */
  lemma {:induction false} TermsAtMostSum(xs: seq<nat>)
    ensures forall k :: 0 <= k < |xs| ==> xs[k] <= Sum(xs)
  {
    if xs != [] {
      var init := xs[..|xs| - 1];
      TermsAtMostSum(init);
      assert forall k :: 0 <= k < |init| ==> xs[k] == init[k];
    }
  }

  /** Sums grow with their terms. */
  lemma {:induction false} SumMonotone(xs: seq<nat>, ys: seq<nat>)
    requires |xs| == |ys| && forall i :: 0 <= i < |xs| ==> xs[i] <= ys[i]
    ensures Sum(xs) <= Sum(ys)
    decreases |xs|
  {
    if xs != [] {
      var n := |xs| - 1;
      SumMonotone(xs[..n], ys[..n]);
    }
  }

  /**
   * A region that fits still fits with more area or with fewer presents
   * of each kind.
   */
  lemma FitsWithLess(region: Region, smaller: Region)
    requires CanFitRequired(region)
    requires |smaller.requiredPresentIds| == |region.requiredPresentIds|
    requires forall i :: 0 <= i < |smaller.requiredPresentIds| ==>
               smaller.requiredPresentIds[i] <= region.requiredPresentIds[i]
    requires smaller.area >= region.area
    ensures CanFitRequired(smaller)
  {
    SumMonotone(smaller.requiredPresentIds, region.requiredPresentIds);
  }

  /** A region with no presents to place fits exactly when it has some area. */
  lemma {:induction false} EmptyFits(region: Region)
    requires forall i :: 0 <= i < |region.requiredPresentIds| ==> region.requiredPresentIds[i] == 0
    ensures CanFitRequired(region) <==> region.area > 0
  {
    SumMonotone(region.requiredPresentIds, seq<nat>(|region.requiredPresentIds|, _ => 0));
    SumOfZeros(|region.requiredPresentIds|);
  }

  lemma {:induction false} SumOfZeros(n: nat)
    ensures Sum(seq<nat>(n, _ => 0)) == 0
  {
    if n > 0 {
      assert seq<nat>(n, _ => 0)[..n - 1] == seq<nat>(n - 1, _ => 0);
      SumOfZeros(n - 1);
    }
  }

  /** `part1`: how many regions fit their presents. */
  function Part1(regions: seq<Region>): (r: nat)
    ensures r <= |regions|
    ensures r == 0 <==> forall k :: 0 <= k < |regions| ==> !CanFitRequired(regions[k])
    ensures r == |regions| <==> forall k :: 0 <= k < |regions| ==> CanFitRequired(regions[k])
  {
    if regions == [] then 0
    else
      var n := |regions| - 1;
      assert forall k :: 0 <= k < n ==> regions[..n][k] == regions[k];
      Part1(regions[..n]) + if CanFitRequired(regions[n]) then 1 else 0
  }

  /** Counting splits over a concatenation of region lists. */
  lemma {:induction false} Part1Append(a: seq<Region>, b: seq<Region>)
    ensures Part1(a + b) == Part1(a) + Part1(b)
    decreases |b|
  {
    if b == [] {
      assert a + b == a;
    } else {
      var n := |b| - 1;
      assert (a + b)[..|a + b| - 1] == a + b[..n];
      assert (a + b)[|a + b| - 1] == b[n];
      Part1Append(a, b[..n]);
    }
  }

  /** `part2`: there is no second puzzle on the last day, only the message. */
  function Part2(regions: seq<Region>): (r: string)
    ensures r == "Finish Decorating the North Pole!"
  {
    "Finish Decorating the North Pole!"
  }

  // ---------------------------------------------------------------------
  // Parsing

  /** The pieces that parse as numbers, each divided by 3 (`flat_map` drops the others). */
  function Thirds(pieces: seq<string>): (r: seq<nat>)
    ensures |r| <= |pieces|
  {
    if pieces == [] then []
    else
      match ParseNat(pieces[0])
      case Some(n) => [n / 3] + Thirds(pieces[1..])
      case None => Thirds(pieces[1..])
  }

  function Product(xs: seq<nat>): nat
  {
    if xs == [] then 1 else xs[0] * Product(xs[1..])
  }

  /** The area of a region: the product of its 'x'-separated dimensions, each divided by 3. */
  function Area(range: string): nat
  {
    Product(Thirds(Split(range, 'x')))
  }

  /** "WxH" has area (W / 3) * (H / 3). */
  lemma AreaOfDimensions(w: nat, h: nat)
    ensures Area(NatToString(w) + "x" + NatToString(h)) == (w / 3) * (h / 3)
  {
    var sw, sh := NatToString(w), NatToString(h);
    assert Split(sw + "x" + sh, 'x') == [sw, sh] by {
      NumeralWithout(w, 'x');
      NumeralWithout(h, 'x');
      SplitPair(sw, 'x', sh);
    }
    assert Thirds([sw, sh]) == [w / 3, h / 3] by {
      ParseNatRoundTrip(w);
      ParseNatRoundTrip(h);
      assert [sw, sh][1..] == [sh] && [sh][1..] == [];
    }
    ProductPair(w / 3, h / 3);
  }

  /** A dimension that does not parse is skipped, not counted as zero. */
  lemma AreaSkipsUnparsable(w: nat, junk: string)
    requires 'x' !in junk && ParseNat(junk).None?
    ensures Area(NatToString(w) + "x" + junk) == w / 3
  {
    var sw := NatToString(w);
    assert Split(sw + "x" + junk, 'x') == [sw, junk] by {
      NumeralWithout(w, 'x');
      SplitPair(sw, 'x', junk);
    }
    assert Thirds([sw, junk]) == [w / 3] by {
      ParseNatRoundTrip(w);
      assert [sw, junk][1..] == [junk] && [junk][1..] == [];
    }
    assert Product([w / 3]) == w / 3 by {
      assert [w / 3][1..] == [];
    }
  }

  lemma ProductPair(a: nat, b: nat)
    ensures Product([a, b]) == a * b
  {
    assert [a, b][1..] == [b] && [b][1..] == [];
    assert Product([b]) == b;
  }

  /** A numeral holds digits only. */
  lemma NumeralWithout(n: nat, c: char)
    requires !IsDigit(c)
    ensures c !in NatToString(n)
  {
    var s := NatToString(n);
    assert forall i :: 0 <= i < |s| ==> IsDigit(s[i]);
  }

  /** Two pieces without the separator, joined by it, split back apart. */
  lemma SplitPair(a: string, c: char, b: string)
    requires c !in a && c !in b
    ensures Split(a + [c] + b, c) == [a, b]
  {
    assert Join([a, b], c) == a + [c] + b by {
      assert [a, b][1..] == [b];
    }
    SplitJoin([a, b], c);
  }

  /** The space-separated counts parse: every piece is a number, and there are at most six. */
  predicate CountsParse(pieces: seq<string>)
  {
    |pieces| <= Kinds && forall i :: 0 <= i < |pieces| ==> ParseNat(pieces[i]).Some?
  }

  /** The six slots after the counts fill them from index 0, the rest staying 0. */
  function Slots(pieces: seq<string>): seq<nat>
    requires CountsParse(pieces)
  {
    seq<nat>(Kinds, i requires 0 <= i < Kinds => if i < |pieces| then ParseNat(pieces[i]).value else 0)
  }

  /**
   * The loop that fills `present_ids` from the space-separated counts:
   * piece `i` goes into slot `i` of six zeroed slots; a piece that does not
   * parse or a seventh piece panics (None).
   */
  method PresentIds(pieces: seq<string>) returns (r: Option<seq<nat>>)
    ensures r.Some? <==> CountsParse(pieces)
    ensures r.Some? ==> r.value == Slots(pieces)
  {
    var ids := new nat[Kinds](_ => 0);
    for i := 0 to |pieces|
      invariant forall j :: 0 <= j < i ==> j < Kinds && ParseNat(pieces[j]).Some?
      invariant forall j :: 0 <= j < Kinds ==> ids[j] == if j < i then ParseNat(pieces[j]).value else 0
    {
      var count := ParseNat(pieces[i]);
      if count.None? || i >= Kinds {
        return None;
      }
      ids[i] := count.value;
    }
    assert |pieces| <= Kinds by {
      if |pieces| > 0 {
        assert ParseNat(pieces[|pieces| - 1]).Some?;
      }
    }
    assert forall j :: 0 <= j < Kinds ==> ids[..][j] == Slots(pieces)[j];
    return Some(ids[..]);
  }

  /** Counts written out with single spaces read back into the first slots. */
  lemma SlotsRoundTrip(counts: seq<nat>)
    requires 1 <= |counts| <= Kinds
    ensures CountsParse(Split(Join(Shown(counts), ' '), ' '))
    ensures Slots(Split(Join(Shown(counts), ' '), ' ')) == counts + seq<nat>(Kinds - |counts|, _ => 0)
  {
    var shown := Shown(counts);
    forall k | 0 <= k < |shown| ensures ' ' !in shown[k] {
      NumeralWithout(counts[k], ' ');
    }
    SplitJoin(shown, ' ');
    forall i | 0 <= i < |counts| ensures ParseNat(shown[i]) == Some(counts[i]) {
      ParseNatRoundTrip(counts[i]);
    }
    SlotsOfNumbers(shown, counts);
  }

  /** Pieces that read as the given counts fill the first slots with them. */
  lemma SlotsOfNumbers(pieces: seq<string>, counts: seq<nat>)
    requires |pieces| == |counts| <= Kinds
    requires forall i :: 0 <= i < |counts| ==> ParseNat(pieces[i]) == Some(counts[i])
    ensures CountsParse(pieces)
    ensures Slots(pieces) == counts + seq<nat>(Kinds - |counts|, _ => 0)
  {
    var padded := counts + seq<nat>(Kinds - |counts|, _ => 0);
    forall i | 0 <= i < Kinds ensures Slots(pieces)[i] == padded[i] {
    }
  }

  /** The counts as their decimal texts. */
  function Shown(counts: seq<nat>): (r: seq<string>)
    ensures |r| == |counts| && forall i :: 0 <= i < |counts| ==> r[i] == NatToString(counts[i])
  {
    seq(|counts|, i requires 0 <= i < |counts| => NatToString(counts[i]))
  }

  /** One region line: "dimensions: counts"; a line without ": " panics (None). */
  function RegionOf(line: string): (r: Option<Region>)
    ensures SplitOnceStr(line, ": ").None? ==> r.None?
    ensures r.Some? <==> SplitOnceStr(line, ": ").Some? && CountsParse(Split(SplitOnceStr(line, ": ").value.1, ' '))
    ensures r.Some? ==> |r.value.requiredPresentIds| == Kinds
    ensures r.Some? ==>
              var (range, numbers) := SplitOnceStr(line, ": ").value;
              var pieces := Split(numbers, ' ');
              && r.value.area == Area(range)
              && |pieces| <= Kinds
              && (forall i :: 0 <= i < |pieces| ==> ParseNat(pieces[i]) == Some(r.value.requiredPresentIds[i]))
              && (forall i :: |pieces| <= i < Kinds ==> r.value.requiredPresentIds[i] == 0)
  {
    match SplitOnceStr(line, ": ")
    case None => None
    case Some((range, numbers)) =>
      var pieces := Split(numbers, ' ');
      if CountsParse(pieces) then Some(Region(Area(range), Slots(pieces))) else None
  }

  /** "WxH: c1 c2 ..." reads back as area (W / 3) * (H / 3) and the counts, padded with zeros. */
  lemma RegionRoundTrip(w: nat, h: nat, counts: seq<nat>)
    requires 1 <= |counts| <= Kinds
    ensures RegionOf(NatToString(w) + "x" + NatToString(h) + ": " + Join(Shown(counts), ' '))
         == Some(Region((w / 3) * (h / 3), counts + seq<nat>(Kinds - |counts|, _ => 0)))
  {
    var range := NatToString(w) + "x" + NatToString(h);
    var numbers := Join(Shown(counts), ' ');
    assert SplitOnceStr(range + ": " + numbers, ": ") == Some((range, numbers)) by {
      DimensionsHaveNoColon(w, h);
      ColonFree(range, numbers);
      SplitOnceStrAt(range, ": ", numbers);
    }
    AreaOfDimensions(w, h);
    SlotsRoundTrip(counts);
  }

  lemma DimensionsHaveNoColon(w: nat, h: nat)
    ensures ':' !in NatToString(w) + "x" + NatToString(h)
  {
    NumeralWithout(w, ':');
    NumeralWithout(h, ':');
  }

  /** ": " cannot start inside a part without ':'. */
  lemma ColonFree(l: string, r: string)
    requires ':' !in l
    ensures forall k :: 0 <= k < |l| ==> !OccursAt(l + ": " + r, ": ", k)
  {
    forall k | 0 <= k < |l| ensures !OccursAt(l + ": " + r, ": ", k) {
      assert (l + ": " + r)[k] == l[k];
    }
  }

  /** The lines holding an 'x' (the region lines), in order. */
  function RegionLines(lines: seq<string>): (r: seq<string>)
    ensures |r| <= |lines|
    ensures forall l :: l in r <==> l in lines && 'x' in l
    ensures (forall k :: 0 <= k < |lines| ==> 'x' in lines[k]) ==> r == lines
  {
    if lines == [] then []
    else
      var rest := RegionLines(lines[1..]);
      assert forall l :: l in lines <==> l == lines[0] || l in lines[1..];
      assert forall k :: 1 <= k < |lines| ==> lines[k] == lines[1..][k - 1];
      if 'x' in lines[0] then [lines[0]] + rest else rest
  }

  /** The region lines of two runs of lines are those of the first, then those of the second. */
  lemma {:induction false} RegionLinesAppend(a: seq<string>, b: seq<string>)
    ensures RegionLines(a + b) == RegionLines(a) + RegionLines(b)
  {
    if a == [] {
      assert a + b == b;
    } else {
      var ab := a + b;
      assert ab[0] == a[0];
      assert ab[1..] == a[1..] + b;
      RegionLinesAppend(a[1..], b);
    }
  }

  /**
   * `From<Input>` on the lines of the input: the lines with an 'x' become
   * regions, in order; the other lines (the present shapes) are skipped.
   * None if a region line does not parse.
   */
  function Regions(lines: seq<string>): (r: Option<seq<Region>>)
    ensures r.Some? <==> forall k :: 0 <= k < |lines| && 'x' in lines[k] ==> RegionOf(lines[k]).Some?
    ensures r.Some? ==> |r.value| == |RegionLines(lines)|
    ensures r.Some? ==> forall k :: 0 <= k < |r.value| ==> RegionOf(RegionLines(lines)[k]) == Some(r.value[k])
  {
    var chosen := RegionLines(lines);
    assert (forall k :: 0 <= k < |chosen| ==> RegionOf(chosen[k]).Some?)
       <==> (forall k :: 0 <= k < |lines| && 'x' in lines[k] ==> RegionOf(lines[k]).Some?) by {
      if forall k :: 0 <= k < |chosen| ==> RegionOf(chosen[k]).Some? {
        forall k | 0 <= k < |lines| && 'x' in lines[k] ensures RegionOf(lines[k]).Some? {
          assert lines[k] in chosen;
        }
      }
      if forall k :: 0 <= k < |lines| && 'x' in lines[k] ==> RegionOf(lines[k]).Some? {
        forall k | 0 <= k < |chosen| ensures RegionOf(chosen[k]).Some? {
          assert chosen[k] in lines;
        }
      }
    }
    ParseEach(RegionOf, chosen)
  }
}
