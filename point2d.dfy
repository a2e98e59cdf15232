/** `Point2D<T>` of src/points/point_2d.rs, with unbounded coordinates. */
module Point2D {
  import opened Wrappers
  import opened IntMath
  import opened Text

  datatype Point = Point(row: int, col: int)

  /** dr² + dc², with the differences taken as `point - self`. */
  function SquaredDistance(p: Point, q: Point): nat
  {
    var dr, dc := q.row - p.row, q.col - p.col;
    dr * dr + dc * dc
  }

  /** `distance`: the floor of the Euclidean distance, in exact integers. */
  function Distance(p: Point, q: Point): (d: nat)
    ensures d * d <= SquaredDistance(p, q) < (d + 1) * (d + 1)
  {
    FloorSqrt(SquaredDistance(p, q))
  }

  lemma DistanceSymmetric(p: Point, q: Point)
    ensures Distance(p, q) == Distance(q, p)
  {
    assert (q.row - p.row) * (q.row - p.row) == (p.row - q.row) * (p.row - q.row);
    assert (q.col - p.col) * (q.col - p.col) == (p.col - q.col) * (p.col - q.col);
    assert SquaredDistance(p, q) == SquaredDistance(q, p);
  }

  lemma DistanceZeroIff(p: Point, q: Point)
    ensures Distance(p, q) == 0 <==> p == q
  {
    var dr, dc := q.row - p.row, q.col - p.col;
    if dr != 0 { assert dr * dr > 0; }
    if dc != 0 { assert dc * dc > 0; }
  }

  /** Entry 3(dr+1) + (dc+1) of the neighbourhood is (row+dr, col+dc): row-major order. */
  function NeighborBlock(p: Point): seq<Point>
  {
    seq(9, n requires 0 <= n < 9 => Point(p.row + n / 3 - 1, p.col + n % 3 - 1))
  }

  function BlockIndex(dr: int, dc: int): int
  {
    3 * (dr + 1) + (dc + 1)
  }

  /** The 9 cells of the 3×3 block around `p`, `p` itself at index 4, each once. */
  lemma NeighborBlockSpec(p: Point)
    ensures |NeighborBlock(p)| == 9
    ensures forall dr, dc :: -1 <= dr <= 1 && -1 <= dc <= 1 ==>
      NeighborBlock(p)[BlockIndex(dr, dc)] == Point(p.row + dr, p.col + dc)
    ensures NeighborBlock(p)[4] == p
    ensures forall q: Point :: q in NeighborBlock(p) <==> Abs(q.row - p.row) <= 1 && Abs(q.col - p.col) <= 1
    ensures forall a, b :: 0 <= a < b < 9 ==> NeighborBlock(p)[a] != NeighborBlock(p)[b]
  {
    var c := NeighborBlock(p);
    forall dr, dc | -1 <= dr <= 1 && -1 <= dc <= 1
      ensures c[BlockIndex(dr, dc)] == Point(p.row + dr, p.col + dc)
    {
      var n := BlockIndex(dr, dc);
      assert n / 3 == dr + 1 && n % 3 == dc + 1;
    }
    assert c[BlockIndex(0, 0)] == p;
    forall q: Point | Abs(q.row - p.row) <= 1 && Abs(q.col - p.col) <= 1
      ensures q in c
    {
      assert c[BlockIndex(q.row - p.row, q.col - p.col)] == q;
    }
    forall a, b | 0 <= a < b < 9 ensures c[a] != c[b] {
      assert a == 3 * (a / 3) + a % 3 && b == 3 * (b / 3) + b % 3;
    }
  }

  /** `neighbors`: fills a 9-slot array, three cells per row step. */
  method Neighbors(p: Point) returns (ns: array<Point>)
    ensures fresh(ns)
    ensures ns[..] == NeighborBlock(p)
  {
    ns := new Point[9](_ => Default());
    var index := 0;
    for rowInc := -1 to 2
      invariant index == 3 * (rowInc + 1)
      invariant forall n :: 0 <= n < index ==> ns[n] == NeighborBlock(p)[n]
    {
      var row := p.row + rowInc;
      ns[index] := Point(row, p.col - 1);
      ns[index + 1] := Point(row, p.col);
      ns[index + 2] := Point(row, p.col + 1);
      index := index + 3;
    }
  }

  /** `add`: component-wise; the default point is its identity on either side. */
  function Add(a: Point, b: Point): (r: Point)
    ensures a == Default() ==> r == b
    ensures b == Default() ==> r == a
  {
    Point(a.row + b.row, a.col + b.col)
  }

  /** `add_assign`: the receiver's new value. */
  method AddAssign(self: Point, rhs: Point) returns (updated: Point)
    ensures updated == Add(self, rhs)
  {
    updated := self;
    updated := updated.(row := updated.row + rhs.row);
    updated := updated.(col := updated.col + rhs.col);
  }

  /** `default`: the origin. */
  function Default(): Point
  {
    Point(0, 0)
  }

  lemma AddCommutative(a: Point, b: Point)
    ensures Add(a, b) == Add(b, a)
  {
  }

  lemma AddAssociative(a: Point, b: Point, c: Point)
    ensures Add(Add(a, b), c) == Add(a, Add(b, c))
  {
  }

  /** The coordinate types `new` exists for. */
  datatype Width = I16 | I32 | I64

  function MaxOf(w: Width): nat
  {
    match w
    case I16 => 0x7FFF
    case I32 => 0x7FFF_FFFF
    case I64 => 0x7FFF_FFFF_FFFF_FFFF
  }

  /** `new(row, col)`: `None` where `try_from(..).unwrap()` panics. */
  function New(row: nat, col: nat, w: Width): (r: Option<Point>)
    ensures r.Some? <==> row <= MaxOf(w) && col <= MaxOf(w)
    ensures r.Some? ==> r.value == Point(row, col)
  {
    if row <= MaxOf(w) && col <= MaxOf(w) then Some(Point(row, col)) else None
  }

  const NoComma := "Input did not contain ','"
  const BadLhs := "Could not parse Lhs as i16"
  const BadRhs := "Could not parse Rhs as i16"

  /** `try_from_internal`: "row,col", split at the first ','; the left side is parsed first. */
  function TryFromInternal(s: string): (r: Result<Point, string>)
    ensures r == Err(NoComma) <==> ',' !in s
    ensures r.Ok? ==> exists i :: 0 <= i < |s| && s[i] == ',' && ParseInt(s[..i]) == Some(r.value.row)
  {
    match SplitOnce(s, ',')
    case None => Err(NoComma)
    case Some((lhs, rhs)) =>
      assert s[|lhs|] == ',' && s[..|lhs|] == lhs;
      match ParseInt(lhs)
      case None => Err(BadLhs)
      case Some(row) =>
        match ParseInt(rhs)
        case None => Err(BadRhs)
        case Some(col) => Ok(Point(row, col))
  }

  /** A bad left side is reported even when the right side is bad as well. */
  lemma LhsReportedFirst(lhs: string, rhs: string)
    requires ',' !in lhs
    requires ParseInt(lhs).None?
    ensures TryFromInternal(lhs + "," + rhs) == Err(BadLhs)
  {
    var s := lhs + "," + rhs;
    SplitOnceAt(lhs, ',', rhs);
  }

  /** Printing a point as "row,col" and parsing it gives the point back. */
  lemma {:induction false} TryFromRoundTrip(row: int, col: int)
    ensures TryFromInternal(IntToString(row) + "," + IntToString(col)) == Ok(Point(row, col))
  {
    var lhs, rhs := IntToString(row), IntToString(col);
    var s := lhs + "," + rhs;
    assert ',' !in lhs by {
      if row < 0 {
        assert lhs == "-" + NatToString(-row);
        assert forall i :: 1 <= i < |lhs| ==> lhs[i] == NatToString(-row)[i - 1];
      }
    }
    ParseIntRoundTrip(row);
    ParseIntRoundTrip(col);
    SplitOnceAt(lhs, ',', rhs);
  }
}
