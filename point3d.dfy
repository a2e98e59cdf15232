/** `Point3D<T>` of src/points/point_3d.rs, with unbounded coordinates. */
module Point3D {
  import opened Wrappers
  import opened IntMath
  import Sorting

  datatype Point = Point(x: int, y: int, z: int)

  /** The derived `Ord`: compare x, then y, then z. */
  predicate LessEq(p: Point, q: Point)
  {
    p.x < q.x || (p.x == q.x && (p.y < q.y || (p.y == q.y && p.z <= q.z)))
  }

  lemma LessEqIsTotalOrder()
    ensures Sorting.TotalOrder((p: Point, q: Point) => LessEq(p, q))
  {
  }

  /** dx² + dy² + dz², with the differences taken as `point - self`. */
  function SquaredDistance(p: Point, q: Point): nat
  {
    var dx, dy, dz := q.x - p.x, q.y - p.y, q.z - p.z;
    dx * dx + dy * dy + dz * dz
  }

  /** `distance`: the floor of the Euclidean distance, in exact integers. */
  function Distance(p: Point, q: Point): (d: nat)
    ensures d * d <= SquaredDistance(p, q) < (d + 1) * (d + 1)
  {
    FloorSqrt(SquaredDistance(p, q))
  }

  lemma DistanceSymmetric(p: Point, q: Point)
    ensures Distance(p, q) == Distance(q, p)
  {
    SquareOfNegation(q.x - p.x);
    SquareOfNegation(q.y - p.y);
    SquareOfNegation(q.z - p.z);
    assert SquaredDistance(p, q) == SquaredDistance(q, p);
  }

  lemma DistanceZeroIff(p: Point, q: Point)
    ensures Distance(p, q) == 0 <==> p == q
  {
    var d := Distance(p, q);
    var dx, dy, dz := q.x - p.x, q.y - p.y, q.z - p.z;
    SquareIsZeroOnlyAtZero(dx);
    SquareIsZeroOnlyAtZero(dy);
    SquareIsZeroOnlyAtZero(dz);
    SquareIsZeroOnlyAtZero(d);
    assert SquaredDistance(p, q) == dx * dx + dy * dy + dz * dz;
    if d == 0 {
      assert SquaredDistance(p, q) < 1;
    } else {
      assert d * d >= 1;
    }
  }

  lemma SquareOfNegation(a: int)
    ensures a * a == (-a) * (-a)
  {
  }

  lemma SquareIsZeroOnlyAtZero(a: int)
    ensures a * a >= 0
    ensures a * a == 0 ==> a == 0
  {
    if a > 0 { assert a * a >= a; } else if a < 0 { assert a * a >= -a; }
  }

  /** Entry 9(i+1) + 3(j+1) + (k+1) of the neighbourhood is (x+i, y+j, z-k). */
  function NeighborCube(p: Point): seq<Point>
  {
    seq(27, n requires 0 <= n < 27 => Point(p.x + n / 9 - 1, p.y + (n / 3) % 3 - 1, p.z - (n % 3 - 1)))
  }

  function CubeIndex(i: int, j: int, k: int): int
  {
    9 * (i + 1) + 3 * (j + 1) + (k + 1)
  }

  /** Every slot number below 27 is the CubeIndex of its three base-3 digits. */
  lemma CubeDigits(n: int)
    requires 0 <= n < 27
    ensures -1 <= n / 9 - 1 <= 1 && -1 <= (n / 3) % 3 - 1 <= 1 && -1 <= n % 3 - 1 <= 1
    ensures n == CubeIndex(n / 9 - 1, (n / 3) % 3 - 1, n % 3 - 1)
  {
  }

  lemma CubeEntries(p: Point)
    ensures |NeighborCube(p)| == 27
    ensures forall i, j, k :: -1 <= i <= 1 && -1 <= j <= 1 && -1 <= k <= 1 ==>
      NeighborCube(p)[CubeIndex(i, j, k)] == Point(p.x + i, p.y + j, p.z - k)
  {
    forall i, j, k | -1 <= i <= 1 && -1 <= j <= 1 && -1 <= k <= 1
      ensures NeighborCube(p)[CubeIndex(i, j, k)] == Point(p.x + i, p.y + j, p.z - k)
    {
      var n := CubeIndex(i, j, k);
      assert n / 9 == i + 1 && (n / 3) % 3 == j + 1 && n % 3 == k + 1;
    }
  }

  /** The 27 cells of the 3×3×3 block around `p`, `p` itself included, each once. */
  lemma NeighborCubeSpec(p: Point)
    ensures |NeighborCube(p)| == 27
    ensures forall i, j, k :: -1 <= i <= 1 && -1 <= j <= 1 && -1 <= k <= 1 ==>
      NeighborCube(p)[CubeIndex(i, j, k)] == Point(p.x + i, p.y + j, p.z - k)
    ensures NeighborCube(p)[13] == p
    ensures forall q: Point :: q in NeighborCube(p) <==> Abs(q.x - p.x) <= 1 && Abs(q.y - p.y) <= 1 && Abs(q.z - p.z) <= 1
    ensures forall a, b :: 0 <= a < b < 27 ==> NeighborCube(p)[a] != NeighborCube(p)[b]
  {
    CubeEntries(p);
    var c := NeighborCube(p);
    assert c[CubeIndex(0, 0, 0)] == p;
    forall q: Point | Abs(q.x - p.x) <= 1 && Abs(q.y - p.y) <= 1 && Abs(q.z - p.z) <= 1
      ensures q in c
    {
      assert c[CubeIndex(q.x - p.x, q.y - p.y, p.z - q.z)] == q;
    }
    forall n | 0 <= n < 27
      ensures Abs(c[n].x - p.x) <= 1 && Abs(c[n].y - p.y) <= 1 && Abs(c[n].z - p.z) <= 1
    {
      CubeDigits(n);
    }
    forall a, b | 0 <= a < b < 27 ensures c[a] != c[b] {
      CubeDigits(a);
      CubeDigits(b);
    }
  }

  /** `neighbors`: fills a 27-slot array in three nested loops with a running index. */
  method Neighbors(p: Point) returns (ns: array<Point>)
    ensures fresh(ns)
    ensures ns[..] == NeighborCube(p)
  {
    ns := new Point[27](_ => Default());
    CubeEntries(p);
    var index := 0;
    for xInc := -1 to 2
      invariant index == 9 * (xInc + 1)
      invariant forall n :: 0 <= n < index ==> ns[n] == NeighborCube(p)[n]
    {
      var x := p.x + xInc;
      for yInc := -1 to 2
        invariant index == 9 * (xInc + 1) + 3 * (yInc + 1)
        invariant forall n :: 0 <= n < index ==> ns[n] == NeighborCube(p)[n]
      {
        var y := p.y + yInc;
        for zInc := -1 to 2
          invariant index == CubeIndex(xInc, yInc, zInc)
          invariant forall n :: 0 <= n < index ==> ns[n] == NeighborCube(p)[n]
        {
          ns[index] := Point(x, y, p.z - zInc);
          index := index + 1;
        }
      }
    }
  }

  /** `add`: component-wise; the default point is its identity on either side. */
  function Add(a: Point, b: Point): (r: Point)
    ensures a == Default() ==> r == b
    ensures b == Default() ==> r == a
  {
    Point(a.x + b.x, a.y + b.y, a.z + b.z)
  }

  /** `add_assign`: the receiver's new value. */
  method AddAssign(self: Point, rhs: Point) returns (updated: Point)
    ensures updated == Add(self, rhs)
  {
    updated := self;
    updated := updated.(x := updated.x + rhs.x);
    updated := updated.(y := updated.y + rhs.y);
    updated := updated.(z := updated.z + rhs.z);
  }

  /** `default`: the origin. */
  function Default(): Point
  {
    Point(0, 0, 0)
  }

  lemma AddCommutative(a: Point, b: Point)
    ensures Add(a, b) == Add(b, a)
  {
  }

  lemma AddAssociative(a: Point, b: Point, c: Point)
    ensures Add(Add(a, b), c) == Add(a, Add(b, c))
  {
  }

  /** The coordinate types `new` exists for. */
  datatype Width = I16 | I32 | I64

  function MaxOf(w: Width): nat
  {
    match w
    case I16 => 0x7FFF
    case I32 => 0x7FFF_FFFF
    case I64 => 0x7FFF_FFFF_FFFF_FFFF
  }

  /** `new(x, y, z)`: `None` where `try_from(..).unwrap()` panics. */
  function New(x: nat, y: nat, z: nat, w: Width): (r: Option<Point>)
    ensures r.Some? <==> x <= MaxOf(w) && y <= MaxOf(w) && z <= MaxOf(w)
    ensures r.Some? ==> r.value == Point(x, y, z)
  {
    if x <= MaxOf(w) && y <= MaxOf(w) && z <= MaxOf(w) then Some(Point(x, y, z)) else None
  }
}
