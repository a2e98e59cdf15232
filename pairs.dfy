/**
 * The pair enumeration `(0..n).flat_map(|a| (a + 1..n).map(move |b| (a, b)))`
 * that days 8 and 9 share: every index pair a < b, in lexicographic order.
 */
module Pairs {
  predicate LexLess(p: (nat, nat), q: (nat, nat))
  {
    p.0 < q.0 || (p.0 == q.0 && p.1 < q.1)
  }

  /** The pairs whose first index is at least `a`. */
  function PairsFrom(a: nat, n: nat): (r: seq<(nat, nat)>)
    requires a <= n
    ensures forall k :: 0 <= k < |r| ==> a <= r[k].0 < r[k].1 < n
    ensures forall k, l :: 0 <= k < l < |r| ==> LexLess(r[k], r[l])
    ensures forall x, y :: a <= x < y < n ==> (x, y) in r
    ensures 2 * |r| == (n - a) * (n - a - 1)
    decreases n - a
  {
    if a == n then []
    else
      var row := seq(n - a - 1, j requires 0 <= j < n - a - 1 => (a, a + 1 + j));
      var rest := PairsFrom(a + 1, n);
      assert forall x, y :: a <= x < y < n ==> (x, y) in row + rest by {
        forall x, y | a <= x < y < n ensures (x, y) in row + rest {
          if x == a { assert row[y - a - 1] == (x, y); }
        }
      }
      assert 2 * |row| + (n - a - 1) * (n - a - 2) == (n - a) * (n - a - 1);
      row + rest
  }

  /** Every index pair a < b < n exactly once, in lexicographic order. */
  function IndexPairs(n: nat): (r: seq<(nat, nat)>)
    ensures |r| == n * (n - 1) / 2
    ensures forall k :: 0 <= k < |r| ==> r[k].0 < r[k].1 < n
    ensures forall a, b :: 0 <= a < b < n ==> (a, b) in r
    ensures forall k, l :: 0 <= k < l < |r| ==> r[k] != r[l]
  {
    var r := PairsFrom(0, n);
    assert forall k, l :: 0 <= k < l < |r| ==> LexLess(r[k], r[l]);
    r
  }
}
