/** Integer points and the grid of the closest-point lookup
    (xs/src/libslic3r/Point.hpp): the lexicographic point order, the cross
    and dot products, and the grid resolution of
    ClosestPointInRadiusLookup. Coordinates are unbounded integers and the
    products are computed exactly. For 32-bit coordinates widened to 64 bits
    the cross product always fits in 64 bits; the dot product fits except for
    the dot of (INT32_MIN, INT32_MIN) with itself, which is 2^63
    (CrossFitsInt64, DotFitsInt64 and DotSelfWrapped below). */
module Geometry {

  datatype Point = Point(x: int, y: int)

  // ---------------------------------------------------------------------------
  // Order and products
  // ---------------------------------------------------------------------------

  /** operator<: by x, then by y. */
  predicate Less(p: Point, q: Point)
  {
    p.x < q.x || (p.x == q.x && p.y < q.y)
  }

  /** The order is a strict total order: irreflexive, transitive, and any two
      distinct points are comparable one way exactly. */
  lemma LessIsStrictTotalOrder(p: Point, q: Point, r: Point)
    ensures !Less(p, p)
    ensures Less(p, q) && Less(q, r) ==> Less(p, r)
    ensures p != q <==> (Less(p, q) != Less(q, p))
  {
  }

  function Cross(v1: Point, v2: Point): (c: int)
  {
    v1.x * v2.y - v1.y * v2.x
  }

  function Dot(v1: Point, v2: Point): (d: int)
  {
    v1.x * v2.x + v1.y * v2.y
  }

  /** A vector is parallel to itself, the cross product changes sign with the
      order of its arguments, and the dot product does not. */
  lemma CrossDotSymmetry(v1: Point, v2: Point)
    ensures Cross(v1, v1) == 0
    ensures Cross(v1, v2) == -Cross(v2, v1)
    ensures Dot(v1, v2) == Dot(v2, v1)
  {
  }

  /** A vector's dot product with itself is never negative, and zero only for
      the zero vector. */
  lemma DotSelfPositive(v: Point)
    ensures Dot(v, v) >= 0
    ensures Dot(v, v) == 0 <==> v == Point(0, 0)
  {
    SquarePositive(v.x);
    SquarePositive(v.y);
  }

  lemma SquarePositive(a: int)
    ensures a * a >= 0
    ensures a != 0 ==> a * a > 0
  {
    if a > 0 {
      IntMulMonotone(1, a, a);
    } else if a < 0 {
      IntMulMonotone(1, -a, -a);
      assert (-a) * (-a) == a * a;
    }
  }

  lemma IntMulMonotone(a: int, b: int, c: int)
    requires c >= 0
    ensures a <= b ==> a * c <= b * c
  {
  }

  // ---------------------------------------------------------------------------
  // 64-bit range of the products
  // ---------------------------------------------------------------------------

  const Int32Min: int := -0x8000_0000
  const Int32Max: int := 0x7fff_ffff
  const Int64Min: int := -0x8000_0000_0000_0000
  const Int64Max: int := 0x7fff_ffff_ffff_ffff

  /** Both coordinates fit in coord_t (32 bits). */
  predicate InInt32(p: Point)
  {
    Int32Min <= p.x <= Int32Max && Int32Min <= p.y <= Int32Max
  }

  /** A value reduced to 64-bit two's complement, as the int64_t arithmetic
      wraps. */
  function Wrap64(v: int): (r: int)
    ensures Int64Min <= r <= Int64Max
    ensures Int64Min <= v <= Int64Max ==> r == v
  {
    var m := (v - Int64Min) % 0x1_0000_0000_0000_0000;
    m + Int64Min
  }

  lemma MulLe(a: int, b: int, c: int, d: int)
    requires 0 <= a <= c && 0 <= b <= d
    ensures a * b <= c * d
  {
    IntMulMonotone(a, c, b);
    IntMulMonotone(b, d, c);
  }

  /** The product of two 32-bit values lies in [-2^62 + 2^31, 2^62], and is
      2^62 only for INT32_MIN times INT32_MIN. */
  lemma ProductBounds(a: int, b: int)
    requires Int32Min <= a <= Int32Max && Int32Min <= b <= Int32Max
    ensures -0x4000_0000_0000_0000 + 0x8000_0000 <= a * b <= 0x4000_0000_0000_0000
    ensures a * b == 0x4000_0000_0000_0000 <==> a == Int32Min && b == Int32Min
  {
    if a >= 0 && b >= 0 {
      MulLe(a, b, Int32Max, Int32Max);
    } else if a < 0 && b < 0 {
      assert a * b == (-a) * (-b);
      MulLe(-a, -b, 0x8000_0000, 0x8000_0000);
      if a != Int32Min {
        MulLe(-a, -b, 0x7fff_ffff, 0x8000_0000);
      } else if b != Int32Min {
        MulLe(-a, -b, 0x8000_0000, 0x7fff_ffff);
      }
    } else if a < 0 {
      assert a * b == -((-a) * b);
      MulLe(-a, b, 0x8000_0000, Int32Max);
      MulLe(0, 0, -a, b);
    } else {
      assert a * b == -(a * (-b));
      MulLe(a, -b, Int32Max, 0x8000_0000);
      MulLe(0, 0, a, -b);
    }
  }

  /** int64_t cross of two 32-bit vectors never overflows. */
  lemma CrossFitsInt64(v1: Point, v2: Point)
    requires InInt32(v1) && InInt32(v2)
    ensures Int64Min <= Cross(v1, v2) <= Int64Max
    ensures Wrap64(Cross(v1, v2)) == Cross(v1, v2)
  {
    ProductBounds(v1.x, v2.y);
    ProductBounds(v1.y, v2.x);
  }

  /** int64_t dot of two 32-bit vectors overflows exactly when both are
      (INT32_MIN, INT32_MIN). */
  lemma DotFitsInt64(v1: Point, v2: Point)
    requires InInt32(v1) && InInt32(v2)
    ensures Int64Min <= Dot(v1, v2)
    ensures Dot(v1, v2) <= Int64Max <==> !(v1 == v2 == Point(Int32Min, Int32Min))
  {
    ProductBounds(v1.x, v2.x);
    ProductBounds(v1.y, v2.y);
  }

  /** The 64-bit dot of a 32-bit vector with itself, as the source computes
      it, is non-negative for every vector but (INT32_MIN, INT32_MIN), where
      it wraps to INT64_MIN. */
  lemma DotSelfWrapped(v: Point)
    requires InInt32(v)
    ensures Wrap64(Dot(v, v)) >= 0 <==> v != Point(Int32Min, Int32Min)
    ensures v == Point(Int32Min, Int32Min) ==> Wrap64(Dot(v, v)) == Int64Min
  {
    DotFitsInt64(v, v);
    DotSelfPositive(v);
    if v == Point(Int32Min, Int32Min) {
      assert Dot(v, v) == Int64Max + 1;
    }
  }

  /** The quotient and remainder of a division by a positive number are the
      only ones. */
  lemma DivUnique(v: int, d: int, q: int, r: int)
    requires d > 0 && v == q * d + r && 0 <= r < d
    ensures v / d == q
  {
    var q0 := v / d;
    var r0 := v % d;
    assert v == q0 * d + r0 && 0 <= r0 < d;
    var a := q - q0;
    assert a * d == r0 - r;
    if a >= 1 {
      IntMulMonotone(1, a, d);
    } else if a <= -1 {
      IntMulMonotone(1, -a, d);
    }
  }

  /** The bounds of the floor quotient. */
  lemma DivBounds(v: int, d: int)
    requires d > 0
    ensures (v / d) * d <= v < (v / d + 1) * d
  {
    assert v == (v / d) * d + v % d;
    assert (v / d + 1) * d == (v / d) * d + d;
  }

  // ---------------------------------------------------------------------------
  // Grid resolution
  // ---------------------------------------------------------------------------

  function Pow2(n: nat): (r: nat)
    ensures r >= 1
  {
    if n == 0 then 1 else 2 * Pow2(n - 1)
  }

  /** The number of binary digits of `v` (0 for 0). */
  function BitLength(v: nat): nat
  {
    if v == 0 then 0 else 1 + BitLength(v / 2)
  }

  /** A positive `v` lies between 2^(BitLength(v)-1) and 2^BitLength(v). */
  lemma {:induction false} BitLengthBounds(v: nat)
    ensures v < Pow2(BitLength(v))
    ensures v >= 1 ==> BitLength(v) >= 1 && Pow2(BitLength(v) - 1) <= v
  {
    if v > 0 {
      BitLengthBounds(v / 2);
    }
  }

  lemma {:induction false} DivPow2Step(v: nat, s: nat)
    requires s >= 1
    ensures v / Pow2(s) == (v / 2) / Pow2(s - 1)
  {
    var p := Pow2(s - 1);
    var q := (v / 2) / p;
    var m := (v / 2) % p;
    assert (v / 2) == q * p + m && 0 <= m < p;
    assert v == 2 * (v / 2) + v % 2;
    assert v == q * (2 * p) + (2 * m + v % 2) by {
      assert 2 * (q * p) == q * (2 * p);
    }
    DivUnique(v, 2 * p, q, 2 * m + v % 2);
  }

  /** Shifting right by `s` removes exactly `s` digits from a value with at
      least `s` of them. */
  lemma {:induction false} BitLengthShift(v: nat, s: nat)
    requires s >= 1 && v >= Pow2(s - 1)
    ensures BitLength(v) == s + BitLength(v / Pow2(s))
    decreases s
  {
    DivPow2Step(v, s);
    if s > 1 {
      BitLengthShift(v / 2, s - 1);
    } else {
      assert v / Pow2(1) == v / 2;
    }
  }

  /** One step of the cascade: shift right by `s` when the value has at least
      `s` digits. */
  function Step(v: nat, log2: nat, s: nat): (nat, nat)
    requires s >= 1
  {
    if v > Pow2(s - 1) - 1 then (v / Pow2(s), log2 + s) else (v, log2)
  }

  lemma StepKeepsDigits(v: nat, log2: nat, s: nat)
    requires s >= 1
    ensures var (v2, l2) := Step(v, log2, s); l2 + BitLength(v2) == log2 + BitLength(v)
  {
    if v > Pow2(s - 1) - 1 {
      BitLengthShift(v, s);
    }
  }

  /** The largest resolution the source admits. */
  const MaxGridResolution: nat := 0x4000_0000

  /** The log2 computation of the ClosestPointInRadiusLookup constructor, as
      written: shift by 16, 8, 4 and 2 when the value exceeds 32767, 127, 7
      and 1, then add one for a non-zero remainder. */
  function GridLog2AsWritten(gridres: nat): (log2: nat)
    requires gridres < MaxGridResolution
    ensures log2 == BitLength(gridres)
  {
    var (v1, l1) := Step(gridres, 0, 16);
    var (v2, l2) := Step(v1, l1, 8);
    var (v3, l3) := Step(v2, l2, 4);
    var (v4, l4) := Step(v3, l3, 2);
    StepKeepsDigits(gridres, 0, 16);
    StepKeepsDigits(v1, l1, 8);
    StepKeepsDigits(v2, l2, 4);
    StepKeepsDigits(v3, l3, 2);
    assert Pow2(16) == 65536 && Pow2(8) == 256 && Pow2(4) == 16 && Pow2(2) == 4;
    assert Pow2(15) == 32768 && Pow2(7) == 128 && Pow2(3) == 8 && Pow2(1) == 2;
    assert v4 <= 1;
    assert BitLength(v4) == v4 by {
      if v4 == 1 {
        assert BitLength(0) == 0;
      }
    }
    if v4 > 0 then l4 + 1 else l4
  }

  /** As written, the resolution is 2^BitLength(gridres): always above
      gridres, and exactly twice gridres when gridres is a power of two, so
      the source's own check gridres > resolution / 2 fails then; with search
      radius 2 (gridres 8) the resolution is 16. */
  lemma GridResolutionAsWrittenDoubles(k: nat)
    requires Pow2(k) < MaxGridResolution
    ensures Pow2(GridLog2AsWritten(Pow2(k))) == 2 * Pow2(k)
    ensures GridLog2AsWritten(GridRes(2)) == 4 && Pow2(4) == 2 * GridRes(2)
  {
    PowBitLength(k);
    assert Pow2(3) == 8;
    PowBitLength(3);
  }

  lemma {:induction false} PowBitLength(k: nat)
    ensures BitLength(Pow2(k)) == k + 1
  {
    if k > 0 {
      PowBitLength(k - 1);
      assert Pow2(k) / 2 == Pow2(k - 1);
    }
  }

  /** The grid resolution for a search radius: twice the radius plus 4. */
  function GridRes(searchRadius: nat): (g: nat)
    ensures g >= 4 && g % 2 == 0
  {
    2 * searchRadius + 4
  }

  /** The corrected log2: the same cascade applied to gridres - 1, giving the
      smallest power of two not below gridres. */
  function GridLog2(gridres: nat): (log2: nat)
    requires 1 <= gridres <= MaxGridResolution
    ensures gridres <= Pow2(log2) < 2 * gridres
  {
    var log2 := GridLog2AsWritten(gridres - 1);
    BitLengthBounds(gridres - 1);
    log2
  }

  // ---------------------------------------------------------------------------
  // Grid cells
  // ---------------------------------------------------------------------------

  /** The lookup's parameters: search radius and log2 of the resolution. */
  datatype Lookup = Lookup(searchRadius: nat, gridLog2: nat)

  /** The constructor, with the corrected log2. */
  function NewLookup(searchRadius: nat): (l: Lookup)
    requires GridRes(searchRadius) <= MaxGridResolution
    ensures GridRes(searchRadius) <= Pow2(l.gridLog2) < 2 * GridRes(searchRadius)
    ensures l.searchRadius == searchRadius
  {
    Lookup(searchRadius, GridLog2(GridRes(searchRadius)))
  }

  /** The cell of a coordinate: an arithmetic shift right, i.e. floor
      division by the resolution. */
  function CellOf(l: Lookup, c: int): int
  {
    c / Pow2(l.gridLog2)
  }

  /** The cell corner closest to a coordinate, as find rounds it. */
  function CornerOf(l: Lookup, c: int): int
  {
    (c + Pow2(l.gridLog2) / 2) / Pow2(l.gridLog2)
  }

  lemma MulPred(a: int, m: int)
    ensures (a - 1) * m == a * m - m
  {
  }

  lemma MulLessCancel(a: int, b: int, m: int)
    requires m > 0 && a * m < b * m
    ensures a < b
  {
    if a >= b {
      IntMulMonotone(b, a, m);
    }
  }

  /** find looks in the cells corner - 1 and corner on each axis; a
      coordinate within the search radius of the query lies in one of them,
      so no candidate is missed. */
  lemma FindCoversRadius(searchRadius: nat, query: int, c: int)
    requires GridRes(searchRadius) <= MaxGridResolution
    requires query - searchRadius <= c <= query + searchRadius
    ensures var l := NewLookup(searchRadius);
      CornerOf(l, query) - 1 <= CellOf(l, c) <= CornerOf(l, query)
  {
    var l := NewLookup(searchRadius);
    CellsAroundCorner(Pow2(l.gridLog2), searchRadius, query, c);
  }

  /** The same on a grid of any resolution of at least twice the radius. */
  lemma CellsAroundCorner(res: int, searchRadius: nat, query: int, c: int)
    requires res > 0 && 2 * searchRadius <= res
    requires query - searchRadius <= c <= query + searchRadius
    ensures (query + res / 2) / res - 1 <= c / res <= (query + res / 2) / res
  {
    var h := res / 2;
    var corner := (query + h) / res;
    var k := c / res;
    DivBounds(query + h, res);
    DivBounds(c, res);
    MulLessCancel(k, corner + 1, res);
    MulPred(corner, res);
    MulLessCancel(corner - 1, k + 1, res);
  }
}
