/**
 * The parts of Rust's `str` API the parsers use: decimal parsing and
 * formatting, `trim`, `split_once` and `split`. Strings are sequences of
 * characters; every input the parsers see is ASCII, so a character stands
 * for a byte.
 */
module Text {
  import opened Wrappers

  predicate IsDigit(c: char) { '0' <= c <= '9' }

  function DigitValue(c: char): (d: nat)
    requires IsDigit(c)
    ensures d < 10
  {
    c as int - '0' as int
  }

  function DigitChar(d: nat): (c: char)
    requires d < 10
    ensures IsDigit(c) && DigitValue(c) == d
  {
    ('0' as int + d) as char
  }

  predicate AllDigits(s: string) { forall i :: 0 <= i < |s| ==> IsDigit(s[i]) }

  /** Decimal value of a digit string, most significant digit first. */
  function DigitsValue(s: string): nat
    requires AllDigits(s)
  {
    if s == [] then 0 else DigitsValue(s[..|s| - 1]) * 10 + DigitValue(s[|s| - 1])
  }

  /** A non-empty run of decimal digits. */
  function ParseDigits(s: string): (r: Option<nat>)
    ensures r.Some? <==> s != [] && AllDigits(s)
  {
    if s != [] && AllDigits(s) then Some(DigitsValue(s)) else None
  }

  /** `usize::from_str`: an optional '+' and then at least one digit; a '-' is refused. */
  function ParseNat(s: string): (r: Option<nat>)
    ensures r.Some? ==> s != [] && (IsDigit(s[0]) || s[0] == '+')
  {
    if s != [] && s[0] == '+' then ParseDigits(s[1..]) else ParseDigits(s)
  }

  /** `i64::from_str` (and the other signed widths, without their range check). */
  function ParseInt(s: string): (r: Option<int>)
    ensures r.Some? ==> s != [] && (IsDigit(s[0]) || s[0] == '+' || s[0] == '-')
  {
    if s != [] && s[0] == '-' then
      match ParseDigits(s[1..])
      case None => None
      case Some(v) => Some(0 - v as int)
    else ParseNat(s)
  }

  /** The `Display` text of a natural number. */
  function NatToString(n: nat): (r: string)
    ensures r != [] && AllDigits(r) && DigitsValue(r) == n
  {
    if n < 10 then [DigitChar(n)]
    else
      var r := NatToString(n / 10) + [DigitChar(n % 10)];
      assert r[..|r| - 1] == NatToString(n / 10);
      r
  }

  /** The `Display` text of an integer. */
  function IntToString(i: int): (r: string)
    ensures r != [] && (i < 0 <==> r[0] == '-')
    ensures (r[0] == '-' || IsDigit(r[0])) && IsDigit(r[|r| - 1])
  {
    if i < 0 then "-" + NatToString(-i) else NatToString(i)
  }

  lemma ParseNatRoundTrip(n: nat)
    ensures ParseNat(NatToString(n)) == Some(n)
  {
    var s := NatToString(n);
    assert s[0] != '+';
  }

  lemma ParseIntRoundTrip(i: int)
    ensures ParseInt(IntToString(i)) == Some(i)
  {
    var s := IntToString(i);
    if i < 0 {
      assert s[1..] == NatToString(-i);
    } else {
      assert s[0] != '-';
      ParseNatRoundTrip(i);
    }
  }

  /** Distinct numbers print differently. */
  lemma NatToStringInjective(a: nat, b: nat)
    requires NatToString(a) == NatToString(b)
    ensures a == b
  {
  }

  /** The characters `char::is_whitespace` accepts in ASCII. */
  predicate IsSpace(c: char) { c == ' ' || '\t' <= c <= '\r' }

  /** `trim_start`: drops the leading white space and nothing else. */
  function TrimStart(s: string): (r: string)
    ensures |r| <= |s| && r == s[|s| - |r|..]
    ensures SpaceBefore(s, |s| - |r|)
    ensures r == [] || !IsSpace(r[0])
  {
    if s != [] && IsSpace(s[0]) then
      var r := TrimStart(s[1..]);
      SpaceBeforeCons(s, |s| - 1 - |r|);
      r
    else s
  }

  /** White space at the head of `s` followed by white space in its tail. */
  lemma SpaceBeforeCons(s: string, m: nat)
    requires s != [] && IsSpace(s[0]) && m < |s| && SpaceBefore(s[1..], m)
    ensures SpaceBefore(s, m + 1)
  {
    forall k | 1 <= k < m + 1 ensures IsSpace(s[k]) {
      assert s[k] == s[1..][k - 1];
    }
  }

  /** `trim_end`: drops the trailing white space and nothing else. */
  function TrimEnd(s: string): (r: string)
    ensures |r| <= |s| && r == s[..|r|]
    ensures SpaceFrom(s, |r|)
    ensures r == [] || !IsSpace(r[|r| - 1])
  {
    if s != [] && IsSpace(s[|s| - 1]) then TrimEnd(s[..|s| - 1]) else s
  }

  /** Everything before position `i` is white space. */
  ghost predicate SpaceBefore(s: string, i: nat)
  {
    forall k :: 0 <= k < i && k < |s| ==> IsSpace(s[k])
  }

  /** Everything from position `j` on is white space. */
  ghost predicate SpaceFrom(s: string, j: nat)
  {
    forall k :: j <= k < |s| ==> IsSpace(s[k])
  }

  /**
   * `trim`: white space removed at both ends. What is kept is a slice of the
   * text with only white space cut off before and after it.
   */
  function Trim(s: string): (r: string)
    ensures |r| <= |s|
    ensures r == [] || (!IsSpace(r[0]) && !IsSpace(r[|r| - 1]))
    ensures exists i, j :: 0 <= i <= j <= |s| && r == s[i..j] && SpaceBefore(s, i) && SpaceFrom(s, j)
  {
    var t := TrimStart(s);
    SliceBetweenSpaces(s, t, TrimEnd(t));
    TrimEnd(t)
  }

  /** A prefix of a suffix of `s`, with white space before the suffix and after the prefix. */
  lemma SliceBetweenSpaces(s: string, t: string, r: string)
    requires |t| <= |s| && t == s[|s| - |t|..] && SpaceBefore(s, |s| - |t|)
    requires |r| <= |t| && r == t[..|r|] && SpaceFrom(t, |r|)
    ensures exists i, j :: 0 <= i <= j <= |s| && r == s[i..j] && SpaceBefore(s, i) && SpaceFrom(s, j)
  {
    var i := |s| - |t|;
    SpaceFromShift(s, i, |r|);
    SliceOfSuffix(s, t, r, i);
    assert r == s[i..i + |r|];
  }

  /** A prefix of a suffix is a slice. */
  lemma SliceOfSuffix(s: string, t: string, r: string, i: nat)
    requires i <= |s| && t == s[i..] && |r| <= |t| && r == t[..|r|]
    ensures r == s[i..i + |r|]
  {
  }

  /** White space from `m` on in `s[i..]` is white space from `i + m` on in `s`. */
  lemma SpaceFromShift(s: string, i: nat, m: nat)
    requires i <= |s| && m <= |s| - i && SpaceFrom(s[i..], m)
    ensures SpaceFrom(s, i + m)
  {
    forall k | i + m <= k < |s| ensures IsSpace(s[k]) {
      assert s[k] == s[i..][k - i];
    }
  }

  /** A string with no white space at either end is its own trim. */
  lemma TrimUnchanged(s: string)
    requires s == [] || (!IsSpace(s[0]) && !IsSpace(s[|s| - 1]))
    ensures Trim(s) == s
  {
  }

  /** The position of the first `c` in `s`. */
  function IndexOf(s: string, c: char): (r: Option<nat>)
    ensures r.None? <==> c !in s
    ensures r.Some? ==> r.value < |s| && s[r.value] == c && c !in s[..r.value]
  {
    if s == [] then None
    else if s[0] == c then Some(0)
    else
      match IndexOf(s[1..], c)
      case None => None
      case Some(i) =>
        assert s[..i + 1] == [s[0]] + s[1..][..i];
        Some(i + 1)
  }

  /** `split_once(c)`: the text before and after the first `c`. */
  function SplitOnce(s: string, c: char): (r: Option<(string, string)>)
    ensures r.None? <==> c !in s
    ensures r.Some? ==> s == r.value.0 + [c] + r.value.1 && c !in r.value.0
  {
    match IndexOf(s, c)
    case None => None
    case Some(i) =>
      assert s == s[..i] + [c] + s[i + 1..];
      Some((s[..i], s[i + 1..]))
  }

  /** Splitting text built as `l + [c] + r`, with no `c` in `l`, gives back `l` and `r`. */
  lemma SplitOnceAt(l: string, c: char, r: string)
    requires c !in l
    ensures SplitOnce(l + [c] + r, c) == Some((l, r))
  {
    var s := l + [c] + r;
    assert s[|l|] == c;
    assert s[..|l|] == l;
  }

  predicate OccursAt(s: string, sep: string, i: nat) { i + |sep| <= |s| && s[i..i + |sep|] == sep }

  /** The first position at or after `from` where `sep` occurs. */
  function FindFrom(s: string, sep: string, from: nat): (r: Option<nat>)
    requires from <= |s|
    ensures r.Some? ==> from <= r.value && OccursAt(s, sep, r.value)
    ensures r.Some? ==> forall i :: from <= i < r.value ==> !OccursAt(s, sep, i)
    ensures r.None? ==> forall i :: from <= i <= |s| ==> !OccursAt(s, sep, i)
    decreases |s| - from
  {
    if OccursAt(s, sep, from) then Some(from)
    else if from == |s| then None
    else FindFrom(s, sep, from + 1)
  }

  /** `split_once(sep)` for a separator string such as ": ". */
  function SplitOnceStr(s: string, sep: string): (r: Option<(string, string)>)
    ensures r.None? ==> forall i :: 0 <= i <= |s| ==> !OccursAt(s, sep, i)
    ensures r.Some? ==> s == r.value.0 + sep + r.value.1
    ensures r.Some? ==> forall i :: 0 <= i < |r.value.0| ==> !OccursAt(s, sep, i)
  {
    match FindFrom(s, sep, 0)
    case None => None
    case Some(i) =>
      assert s == s[..i] + sep + s[i + |sep|..];
      Some((s[..i], s[i + |sep|..]))
  }

  /** The search stops at the first occurrence at or after `from`. */
  lemma {:induction false} FindFromFirst(s: string, sep: string, from: nat, i: nat)
    requires from <= i <= |s| && OccursAt(s, sep, i)
    requires forall k :: from <= k < i ==> !OccursAt(s, sep, k)
    ensures FindFrom(s, sep, from) == Some(i)
    decreases i - from
  {
    if from < i {
      FindFromFirst(s, sep, from + 1, i);
    }
  }

  /** `split_once(sep)` splits at `sep` placed after a prefix where it does not start. */
  lemma SplitOnceStrAt(l: string, sep: string, r: string)
    requires forall k :: 0 <= k < |l| ==> !OccursAt(l + sep + r, sep, k)
    ensures SplitOnceStr(l + sep + r, sep) == Some((l, r))
  {
    var s := l + sep + r;
    assert s[|l|..|l| + |sep|] == sep;
    FindFromFirst(s, sep, 0, |l|);
    assert s[..|l|] == l;
    assert s[|l| + |sep|..] == r;
  }

  /** Puts the parts back together, `c` between neighbours. */
  function Join(parts: seq<string>, c: char): string
  {
    if parts == [] then []
    else if |parts| == 1 then parts[0]
    else parts[0] + [c] + Join(parts[1..], c)
  }

  /** `split(c)`: every maximal piece without `c`, empty ones included. */
  function Split(s: string, c: char): (r: seq<string>)
    ensures |r| >= 1
    decreases |s|
  {
    match SplitOnce(s, c)
    case None => [s]
    case Some((l, rest)) => [l] + Split(rest, c)
  }

  /** The parts hold no separator, and joining them gives the text back. */
  lemma {:induction false} SplitParts(s: string, c: char)
    ensures forall k :: 0 <= k < |Split(s, c)| ==> c !in Split(s, c)[k]
    ensures Join(Split(s, c), c) == s
    decreases |s|
  {
    match SplitOnce(s, c)
    case None =>
    case Some((l, rest)) =>
      SplitParts(rest, c);
  }

  /** Splitting undoes joining when no part holds the separator. */
  lemma {:induction false} SplitJoin(parts: seq<string>, c: char)
    requires |parts| >= 1
    requires forall k :: 0 <= k < |parts| ==> c !in parts[k]
    ensures Split(Join(parts, c), c) == parts
    decreases |parts|
  {
    if |parts| > 1 {
      SplitJoin(parts[1..], c);
      SplitOnceAt(parts[0], c, Join(parts[1..], c));
      assert parts == [parts[0]] + parts[1..];
    }
  }

  /** Parses every line with `f`; None as soon as one line fails (the source's `unwrap` panics). */
  function ParseEach<T>(f: string -> Option<T>, lines: seq<string>): (r: Option<seq<T>>)
    ensures r.Some? <==> forall i :: 0 <= i < |lines| ==> f(lines[i]).Some?
    ensures r.Some? ==>
      |r.value| == |lines| && forall i :: 0 <= i < |lines| ==> f(lines[i]) == Some(r.value[i])
  {
    if lines == [] then Some([])
    else
      var head := f(lines[0]);
      var tail := ParseEach(f, lines[1..]);
      assert forall i :: 1 <= i < |lines| ==> lines[i] == lines[1..][i - 1];
      if head.None? || tail.None? then None else Some([head.value] + tail.value)
  }

  /** Lines that each read as the matching value read as all the values. */
  lemma ParseEachValues<T>(f: string -> Option<T>, lines: seq<string>, values: seq<T>)
    requires |lines| == |values|
    requires forall i :: 0 <= i < |lines| ==> f(lines[i]) == Some(values[i])
    ensures ParseEach(f, lines) == Some(values)
  {
    assert forall i :: 0 <= i < |lines| ==> f(lines[i]).Some?;
    var r := ParseEach(f, lines);
    assert |r.value| == |values|;
    assert forall i :: 0 <= i < |lines| ==> f(lines[i]) == Some(r.value[i]) == Some(values[i]);
    assert r.value == values;
  }
}
