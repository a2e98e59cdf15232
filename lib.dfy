/**
 * The puzzle inputs (src/lib.rs): each day has a sample and the inputs of
 * its two parts, and `Display for Input` turns one into the path of its
 * file, "inputs/<day>/input.<kind>". Opening and reading the file is not
 * part of this model.
 */
module Inputs {
  import opened Text

  /** `Day`: a `u8`. */
  type Day = d: nat | d < 256

  datatype Input = Sample(day: Day) | Part1(day: Day) | Part2(day: Day)

  /** `Display for Input`: the path of the input's file. */
  function Path(input: Input): (r: string)
    ensures |r| > |"inputs/"| + |NatToString(input.day)|
    ensures r[..|"inputs/"|] == "inputs/"
    ensures r[|"inputs/"|..|"inputs/"| + |NatToString(input.day)|] == NatToString(input.day)
    ensures r[|"inputs/"| + |NatToString(input.day)|] == '/'
  {
    match input
    case Sample(day) => "inputs/" + NatToString(day) + "/input.sample"
    case Part1(day) => "inputs/" + NatToString(day) + "/input.part1"
    case Part2(day) => "inputs/" + NatToString(day) + "/input.part2"
  }

  /** The file name after the day's directory tells the three kinds apart. */
  lemma PathKind(input: Input)
    ensures var r := Path(input);
      && (input.Sample? <==> r[|r| - 6..] == "sample")
      && (input.Part1? <==> r[|r| - 5..] == "part1")
      && (input.Part2? <==> r[|r| - 5..] == "part2")
  {
    var r := Path(input);
    var n := |r|;
    assert r[n - 6] == (if input.Sample? then 's' else '.');
    assert r[n - 1] == (if input.Sample? then 'e' else if input.Part1? then '1' else '2');
  }

  /** Between "inputs/" and the next '/' stand the day's digits. */
  lemma DayDigits(input: Input)
    ensures forall k :: 0 <= k < |NatToString(input.day)| ==>
      Path(input)[|"inputs/"| + k] == NatToString(input.day)[k] && IsDigit(Path(input)[|"inputs/"| + k])
  {
    var d := NatToString(input.day);
    forall k | 0 <= k < |d| ensures Path(input)[|"inputs/"| + k] == d[k] && IsDigit(d[k]) {
      assert Path(input)[|"inputs/"|..|"inputs/"| + |d|][k] == d[k];
    }
  }

  /** Different inputs have different paths: no two of them share a file. */
  lemma PathInjective(a: Input, b: Input)
    requires Path(a) == Path(b)
    ensures a == b
  {
    var da, db := NatToString(a.day), NatToString(b.day);
    DayDigits(a);
    DayDigits(b);
    assert |da| == |db|;
    assert da == db;
    NatToStringInjective(a.day, b.day);
    PathKind(a);
    PathKind(b);
  }
}
