/** Spacing adjustment for solid infill (src/libslic3r/Fill/FillBase.cpp,
    Fill::_adjust_solid_spacing): widen the line spacing so that a whole
    number of lines fills the width, by at most 20 %. The source mixes
    integer coordinates with double arithmetic; the doubles are reals here. */
module Fill {
  import opened Libslic3r

  /** The conversion of a double to an integer coordinate: truncation toward
      zero. */
  function Trunc(x: real): (r: int)
    ensures x >= 0.0 ==> r as real <= x < r as real + 1.0
    ensures x < 0.0 ==> r as real - 1.0 < x <= r as real
  {
    if x >= 0.0 then x.Floor else -((-x).Floor)
  }

  /** The spacing limit: floor(1.2 * distance + 0.5). */
  function MaxSpacing(distance: int): int
  {
    (distance as real * 1.2 + 0.5).Floor
  }

  lemma MulMonotone(a: real, b: real, c: real)
    requires a <= b && c > 0.0
    ensures a * c <= b * c
  {
  }

  lemma MulStrict(a: real, b: real, c: real)
    requires a < b && c > 0.0
    ensures a * c < b * c
  {
  }

  lemma IntMulMonotone(a: int, b: int, c: int)
    requires c >= 0
    ensures a <= b ==> a * c <= b * c
  {
  }

  /** Dividing by a positive real and comparing with `k` is multiplying `k`
      and comparing with the dividend. */
  lemma DivCompare(x: real, d: real, k: real)
    requires d > 0.0
    ensures x / d >= k <==> x >= k * d
    ensures x / d < k <==> x < k * d
    ensures x / d > k <==> x > k * d
  {
    var q := x / d;
    assert q * d == x;
    if q >= k {
      MulMonotone(k, q, d);
    } else {
      MulStrict(q, k, d);
    }
    if q > k {
      MulStrict(k, q, d);
    } else {
      MulMonotone(q, k, d);
    }
  }

  /** Cutting (w - EPSILON) / m to an integer is the integer quotient
      (w - 1) / m for a positive integer width, and 0 for width 0. */
  lemma TruncDivEpsilon(w: int, m: int)
    requires w >= 0 && m > 0
    ensures Trunc((w as real - Epsilon) / m as real) == if w == 0 then 0 else (w - 1) / m
  {
    if w == 0 {
      TruncDivEpsilonZero(m);
    } else {
      TruncDivEpsilonPositive(w, m);
    }
  }

  lemma TruncDivEpsilonZero(m: int)
    requires m > 0
    ensures Trunc((0 as real - Epsilon) / m as real) == 0
  {
    var x := 0 as real - Epsilon;
    var d := m as real;
    DivCompare(x, d, 0.0);
    DivCompare(x, d, -1.0);
    assert -1.0 * d <= -1.0 < x;
  }

  lemma TruncDivEpsilonPositive(w: int, m: int)
    requires w > 0 && m > 0
    ensures Trunc((w as real - Epsilon) / m as real) == (w - 1) / m
  {
    var x := w as real - Epsilon;
    var d := m as real;
    var k := (w - 1) / m;
    QuotientBounds(w - 1, m);
    CastMul(k, m);
    CastMul(k + 1, m);
    DivCompare(x, d, k as real);
    DivCompare(x, d, (k + 1) as real);
    TruncBetween(x / d, k);
  }

  lemma QuotientBounds(v: int, m: int)
    requires v >= 0 && m > 0
    ensures (v / m) * m <= v < (v / m + 1) * m
  {
    assert v == (v / m) * m + v % m;
  }

  lemma CastMul(a: int, b: int)
    ensures (a * b) as real == a as real * b as real
  {
  }

  lemma TruncBetween(x: real, k: int)
    requires k >= 0 && k as real <= x < (k + 1) as real
    ensures Trunc(x) == k
  {
  }

  /** The number of whole intervals of `distance` that fit in the width less
      EPSILON: the largest `n` with n * distance <= width - 1 (none for
      width 0). */
  function NumberOfIntervals(width: int, distance: int): (n: int)
    requires width >= 0 && distance > 0
    ensures n >= 0
    ensures width == 0 ==> n == 0
    ensures width > 0 ==> n * distance <= width - 1 < (n + 1) * distance
  {
    TruncDivEpsilon(width, distance);
    Trunc((width as real - Epsilon) / distance as real)
  }

  /** The 20 % cap in integers: floor(1.2 d + 0.5) == (12 d + 5) / 10. */
  lemma MaxSpacingInt(distance: int)
    requires distance > 0
    ensures MaxSpacing(distance) == (12 * distance + 5) / 10
    ensures MaxSpacing(distance) >= distance
  {
    var k := (12 * distance + 5) / 10;
    assert distance as real * 1.2 + 0.5 == (12 * distance + 5) as real / 10.0;
    assert k * 10 <= 12 * distance + 5 < (k + 1) * 10;
  }

  /** _adjust_solid_spacing. */
  function AdjustSolidSpacing(width: int, distance: int): (r: int)
    requires width >= 0 && distance > 0
    ensures r >= distance
    ensures r <= MaxSpacing(distance)
    ensures NumberOfIntervals(width, distance) == 0 ==> r == distance
  {
    var n := NumberOfIntervals(width, distance);
    var newDistance := if n == 0 then distance else Trunc((width as real - Epsilon) / n as real);
    SpacingBounds(width, distance, n, newDistance);
    var factor := newDistance as real / distance as real;
    if factor > 1.2 then MaxSpacing(distance) else newDistance
  }

  /** The uncapped spacing is at least `distance`, and when its ratio to
      `distance` is at most 1.2 it is within the cap. */
  lemma SpacingBounds(width: int, distance: int, n: int, newDistance: int)
    requires width >= 0 && distance > 0
    requires n == NumberOfIntervals(width, distance)
    requires newDistance == if n == 0 then distance else Trunc((width as real - Epsilon) / n as real)
    ensures newDistance >= distance
    ensures newDistance as real / distance as real <= 1.2 ==> newDistance <= MaxSpacing(distance)
    ensures MaxSpacing(distance) >= distance
  {
    MaxSpacingInt(distance);
    if n > 0 {
      TruncDivEpsilon(width, n);
      UncappedAtLeastDistance(width, distance, n);
    }
    DivCompare(newDistance as real, distance as real, 1.2);
    assert (newDistance as real <= 1.2 * distance as real) ==> newDistance * 10 <= 12 * distance;
  }

  lemma UncappedAtLeastDistance(width: int, distance: int, n: int)
    requires distance > 0 && n > 0 && n * distance <= width - 1
    ensures (width - 1) / n >= distance
  {
    var nd := (width - 1) / n;
    assert nd * n <= width - 1 < (nd + 1) * n;
    IntMulMonotone(nd + 1, distance, n);
  }

  /** A width below one interval keeps the spacing; otherwise the spacing is
      (width - 1) / n for the n whole intervals that fit, unless that exceeds
      the 20 % cap. */
  lemma AdjustSolidSpacingCases(width: int, distance: int)
    requires width >= 0 && distance > 0
    ensures width <= distance ==> AdjustSolidSpacing(width, distance) == distance
    ensures var n := NumberOfIntervals(width, distance);
      n > 0 ==>
        (AdjustSolidSpacing(width, distance) == (width - 1) / n || AdjustSolidSpacing(width, distance) == MaxSpacing(distance))
  {
    var n := NumberOfIntervals(width, distance);
    if n > 0 {
      TruncDivEpsilon(width, n);
      IntMulMonotone(1, n, distance);
    }
  }
}
