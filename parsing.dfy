/**
 * src/helper/parsing.rs: `line_to_range_tuple` reads `"lhs-rhs"` as a pair
 * of numbers. The split is at the first '-', and a missing '-' or an
 * unparsable side panics (None here). The function is generic in the
 * number type; the unsigned instance (`usize`) and a signed one are modelled.
 */
module Parsing {
  import opened Wrappers
  import opened Text

  /** `line_to_range_tuple::<_, usize>`. */
  function LineToRangeTuple(line: string): (r: Option<(nat, nat)>)
    ensures '-' !in line ==> r.None?
    ensures r.Some? ==>
      exists lhs, rhs :: line == lhs + "-" + rhs && '-' !in lhs &&
        ParseNat(lhs) == Some(r.value.0) && ParseNat(rhs) == Some(r.value.1)
  {
    match SplitOnce(line, '-')
    case None => None
    case Some((lhs, rhs)) =>
      match (ParseNat(lhs), ParseNat(rhs))
      case (Some(a), Some(b)) => Some((a, b))
      case _ => None
  }

  /** `line_to_range_tuple` for a signed number type such as `i64`. */
  function LineToSignedRangeTuple(line: string): (r: Option<(int, int)>)
    ensures '-' !in line ==> r.None?
    ensures r.Some? ==>
      exists lhs, rhs :: line == lhs + "-" + rhs && '-' !in lhs &&
        ParseInt(lhs) == Some(r.value.0) && ParseInt(rhs) == Some(r.value.1)
  {
    match SplitOnce(line, '-')
    case None => None
    case Some((lhs, rhs)) =>
      match (ParseInt(lhs), ParseInt(rhs))
      case (Some(a), Some(b)) => Some((a, b))
      case _ => None
  }

  /** Writing two naturals around a '-' and reading them back gives them again. */
  lemma RangeTupleRoundTrip(a: nat, b: nat)
    ensures LineToRangeTuple(NatToString(a) + "-" + NatToString(b)) == Some((a, b))
  {
    var lhs := NatToString(a);
    SplitOnceAt(lhs, '-', NatToString(b));
    ParseNatRoundTrip(a);
    ParseNatRoundTrip(b);
  }

  /**
   * Writing a natural and a signed number around a '-' and reading them back
   * with a signed number type gives them again: "3--5" is (3, -5).
   */
  lemma SignedRangeTupleRoundTrip(a: nat, b: int)
    ensures LineToSignedRangeTuple(NatToString(a) + "-" + IntToString(b)) == Some((a, b))
  {
    var lhs := NatToString(a);
    SplitOnceAt(lhs, '-', IntToString(b));
    ParseIntRoundTrip(a);
    ParseIntRoundTrip(b);
  }

  /**
   * A leading minus sign is taken as the separator, so the left side is
   * empty and the line is refused whatever the number type.
   */
  lemma LeadingMinusRefused(line: string)
    requires line != [] && line[0] == '-'
    ensures LineToRangeTuple(line).None?
    ensures LineToSignedRangeTuple(line).None?
  {
    SplitOnceAt([], '-', line[1..]);
    assert line == [] + "-" + line[1..];
  }
}
