/** Multi-material auto-colourisation parameters and colour pick
    (src/libslic3r/MultiMaterialAutoColorization.cpp): picking an extruder
    for a value in [0, 1] from a weight distribution, and the validation that
    normalises the parameters. Floats are reals; the patterns that walk a
    mesh (height, radial, spiral, noise) are not modelled. */
module AutoColor {
  import opened Wrappers

  /** The positive part of a weight: max(0, d). */
  function Pos(d: real): (p: real)
    ensures p >= 0.0 && p >= d
    ensures d >= 0.0 ==> p == d
  {
    if d > 0.0 then d else 0.0
  }

  /** The sum of the positive weights among the first `i`. */
  function PositivePrefix(dist: seq<real>, i: nat): (w: real)
    requires i <= |dist|
    ensures w >= 0.0
  {
    if i == 0 then 0.0 else PositivePrefix(dist, i - 1) + Pos(dist[i - 1])
  }

  lemma {:induction false} PositivePrefixMonotone(dist: seq<real>, a: nat, b: nat)
    requires a <= b <= |dist|
    ensures PositivePrefix(dist, a) <= PositivePrefix(dist, b)
    decreases b - a
  {
    if a < b {
      PositivePrefixMonotone(dist, a, b - 1);
    }
  }

  /** Some weight is positive exactly when the positive weights add up to
      more than 0. */
  lemma {:induction false} PositivePrefixIff(dist: seq<real>, i: nat)
    requires i <= |dist|
    ensures PositivePrefix(dist, i) > 0.0 <==> exists k :: 0 <= k < i && dist[k] > 0.0
  {
    if i > 0 {
      PositivePrefixIff(dist, i - 1);
      if dist[i - 1] > 0.0 {
        assert PositivePrefix(dist, i) > 0.0;
      }
    }
  }

  /** The last active (positive) extruder, or 0 when there is none. */
  function LastActive(ext: seq<int>): (r: int)
    ensures r == 0 <==> forall k :: 0 <= k < |ext| ==> ext[k] <= 0
    ensures r != 0 ==> r > 0 && r in ext
  {
    if ext == [] then 0
    else if ext[|ext| - 1] > 0 then ext[|ext| - 1]
    else LastActive(ext[..|ext| - 1])
  }

  // ---------------------------------------------------------------------------
  // The pick as written
  // ---------------------------------------------------------------------------

  /** The running sums of the positive weights, one entry per positive
      weight: the cumulative list of the source before normalisation. */
  function Cumulative(dist: seq<real>, i: nat, acc: real): (c: seq<real>)
    requires i <= |dist|
    decreases |dist| - i
  {
    if i == |dist| then []
    else if dist[i] > 0.0 then [acc + dist[i]] + Cumulative(dist, i + 1, acc + dist[i])
    else Cumulative(dist, i + 1, acc)
  }

  /** The search loop as written: entry `i` of the cumulative list (which
      counts only positive weights) is paired with extruders[i]; None stands
      for reading past the end of the extruder list. */
  function ScanAsWritten(v: real, ext: seq<int>, cum: seq<real>, sum: real, i: nat): (r: Option<int>)
    requires sum > 0.0
    ensures r.Some? ==> r.value == 0 || (r.value > 0 && r.value in ext)
    decreases |cum| - i
  {
    if i >= |cum| then Some(LastActive(ext))
    else if v <= cum[i] / sum then
      if i >= |ext| then None
      else if ext[i] > 0 then Some(ext[i])
      else ScanAsWritten(v, ext, cum, sum, i + 1)
    else ScanAsWritten(v, ext, cum, sum, i + 1)
  }

  /** assign_color_from_distribution as written: 0 for no extruders or no
      weights, the first extruder when no weight is positive, otherwise the
      first extruder whose normalised cumulative weight reaches the value, or
      the last active extruder. */
  function AssignColorAsWritten(v: real, ext: seq<int>, dist: seq<real>): (r: Option<int>)
    ensures ext == [] || dist == [] ==> r == Some(0)
    ensures ext != [] && dist != [] && (forall k :: 0 <= k < |dist| ==> dist[k] <= 0.0) ==> r == Some(ext[0])
    ensures ext != [] && (exists k :: 0 <= k < |dist| && dist[k] > 0.0) && r.Some? ==>
      r.value == 0 || (r.value > 0 && r.value in ext)
  {
    if ext == [] || dist == [] then Some(0)
    else
      var sum := PositivePrefix(dist, |dist|);
      PositivePrefixIff(dist, |dist|);
      if sum <= 0.0 then Some(ext[0])
      else ScanAsWritten(v, ext, Cumulative(dist, 0, 0.0), sum, 0)
  }

  /** The bands as written are closed above: with weights 30, 30, 40 the
      value 0.3 picks extruder 1 and 0.6 picks extruder 2, where the
      repository's test expects 2 and 3. */
  lemma BoundaryAsWritten()
    ensures AssignColorAsWritten(0.3, [1, 2, 3, 0, 0], [30.0, 30.0, 40.0, 0.0, 0.0]) == Some(1)
    ensures AssignColorAsWritten(0.6, [1, 2, 3, 0, 0], [30.0, 30.0, 40.0, 0.0, 0.0]) == Some(2)
  {
    var dist := [30.0, 30.0, 40.0, 0.0, 0.0];
    assert PositivePrefix(dist, 5) == 100.0;
    assert Cumulative(dist, 0, 0.0) == [30.0, 60.0, 100.0];
  }

  /** As written, a zero weight before positive ones shifts the pairing: with
      weights 0, 50, 50 the value 0.25 picks extruder 1, whose weight is 0;
      and a weight without an extruder makes the loop read past the
      extruder list. */
  lemma MisalignedAsWritten()
    ensures AssignColorAsWritten(0.25, [1, 2, 3], [0.0, 50.0, 50.0]) == Some(1)
    ensures AssignColorAsWritten(0.75, [1], [50.0, 50.0]) == None
  {
    assert PositivePrefix([0.0, 50.0, 50.0], 3) == 100.0;
    assert Cumulative([0.0, 50.0, 50.0], 0, 0.0) == [50.0, 100.0];
    assert PositivePrefix([50.0, 50.0], 2) == 100.0;
    assert Cumulative([50.0, 50.0], 0, 0.0) == [50.0, 100.0];
  }

  // ---------------------------------------------------------------------------
  // The pick as intended
  // ---------------------------------------------------------------------------

  /** The corrected search: every positive weight keeps its own extruder
      index, a value belongs to the half-open band [previous, cumulative) of
      the normalised sums (the value arrives scaled by the sum, `vs`, and is
      compared as vs < cumulative, the same as v < cumulative / sum for a
      positive sum), the last band also takes the value 1, and an index
      without an active extruder is passed over. */
  function Scan(vs: real, ext: seq<int>, dist: seq<real>, sum: real, i: nat, acc: real): (r: int)
    requires i <= |dist|
    ensures r == 0 || (r > 0 && r in ext)
    decreases |dist| - i
  {
    if i == |dist| then LastActive(ext)
    else if dist[i] > 0.0 then
      var acc' := acc + dist[i];
      if (vs < acc' || acc' == sum) && i < |ext| && ext[i] > 0 then ext[i]
      else Scan(vs, ext, dist, sum, i + 1, acc')
    else Scan(vs, ext, dist, sum, i + 1, acc)
  }

  /** The corrected pick for a value already scaled by the sum of the
      positive weights. */
  function Pick(vs: real, ext: seq<int>, dist: seq<real>): (r: int)
    ensures ext == [] || dist == [] ==> r == 0
    ensures ext != [] && dist != [] && (forall k :: 0 <= k < |dist| ==> dist[k] <= 0.0) ==> r == ext[0]
    ensures ext != [] && (exists k :: 0 <= k < |dist| && dist[k] > 0.0) ==>
      r == 0 || (r > 0 && r in ext)
  {
    if ext == [] || dist == [] then 0
    else
      var sum := PositivePrefix(dist, |dist|);
      PositivePrefixIff(dist, |dist|);
      if sum <= 0.0 then ext[0]
      else Scan(vs, ext, dist, sum, 0, 0.0)
  }

  /** assign_color_from_distribution, corrected: 0 for no extruders or no
      weights, the first extruder when no weight is positive, otherwise an
      active extruder (or 0 when none is active). */
  function AssignColor(v: real, ext: seq<int>, dist: seq<real>): (r: int)
    ensures ext == [] || dist == [] ==> r == 0
    ensures ext != [] && dist != [] && (forall k :: 0 <= k < |dist| ==> dist[k] <= 0.0) ==> r == ext[0]
    ensures ext != [] && (exists k :: 0 <= k < |dist| && dist[k] > 0.0) ==>
      r == 0 || (r > 0 && r in ext)
  {
    Pick(Times(v, PositivePrefix(dist, |dist|)), ext, dist)
  }

  /** A product of reals, kept as a term of its own so that the solver
      matches it as a whole. */
  function Times(a: real, b: real): real
  {
    a * b
  }

  /** Every positive weight has an active extruder. */
  predicate Consistent(ext: seq<int>, dist: seq<real>)
  {
    forall k :: 0 <= k < |dist| && dist[k] > 0.0 ==> k < |ext| && ext[k] > 0
  }

  /** The search from index `j` with the running sum of the first `j`
      weights reaches the band that holds the value. */
  lemma {:induction false} ScanFindsBand(vs: real, ext: seq<int>, dist: seq<real>, j: nat, i: nat)
    requires Consistent(ext, dist) && j <= i < |dist| && dist[i] > 0.0
    requires PositivePrefix(dist, i) <= vs < PositivePrefix(dist, i + 1)
    ensures Scan(vs, ext, dist, PositivePrefix(dist, |dist|), j, PositivePrefix(dist, j)) == ext[i]
    decreases i - j
  {
    var sum := PositivePrefix(dist, |dist|);
    var acc := PositivePrefix(dist, j);
    var acc' := PositivePrefix(dist, j + 1);
    assert acc' == acc + Pos(dist[j]);
    PositivePrefixMonotone(dist, i + 1, |dist|);
    if j < i {
      PositivePrefixMonotone(dist, j + 1, i);
      ScanFindsBand(vs, ext, dist, j + 1, i);
      if dist[j] > 0.0 {
        assert !(vs < acc') && acc' != sum;
      }
    } else {
      assert i < |ext| && ext[i] > 0;
    }
  }

  /** The pick on the scaled value: with an active extruder for every
      positive weight, extruder i takes exactly the band [W(i), W(i+1)) of
      the cumulative positive weights. */
  lemma {:induction false} PickBands(vs: real, ext: seq<int>, dist: seq<real>, i: nat)
    requires Consistent(ext, dist) && i < |dist| && dist[i] > 0.0
    requires PositivePrefix(dist, i) <= vs < PositivePrefix(dist, i + 1)
    ensures Pick(vs, ext, dist) == ext[i]
  {
    PositivePrefixMonotone(dist, i + 1, |dist|);
    assert i < |ext|;
    ScanFindsBand(vs, ext, dist, 0, i);
    assert PositivePrefix(dist, 0) == 0.0;
  }

  /** With an active extruder for every positive weight, extruder i takes
      exactly the values of its band [W(i), W(i+1)) of the normalised
      cumulative weights. */
  lemma {:induction false} AssignColorBands(v: real, ext: seq<int>, dist: seq<real>, i: nat)
    requires Consistent(ext, dist) && i < |dist| && dist[i] > 0.0
    requires PositivePrefix(dist, i) <= Times(v, PositivePrefix(dist, |dist|)) < PositivePrefix(dist, i + 1)
    ensures AssignColor(v, ext, dist) == ext[i]
  {
    PickBands(Times(v, PositivePrefix(dist, |dist|)), ext, dist, i);
  }

  /** The repository's test values: with weights 30, 30, 40 the values 0,
      0.29, 0.3, 0.59, 0.6 and 1 pick 1, 1, 2, 2, 3 and 3. */
  lemma AssignColorTestValues()
    ensures var ext := [1, 2, 3, 0, 0];
      var dist := [30.0, 30.0, 40.0, 0.0, 0.0];
      AssignColor(0.0, ext, dist) == 1 && AssignColor(0.29, ext, dist) == 1
      && AssignColor(0.3, ext, dist) == 2 && AssignColor(0.59, ext, dist) == 2
      && AssignColor(0.6, ext, dist) == 3 && AssignColor(1.0, ext, dist) == 3
  {
    var dist := [30.0, 30.0, 40.0, 0.0, 0.0];
    assert PositivePrefix(dist, 5) == 100.0;
  }

  /** Corrected, the weights 0, 50, 50 give the value 0.25 to extruder 2. */
  lemma AlignedCorrected()
    ensures AssignColor(0.25, [1, 2, 3], [0.0, 50.0, 50.0]) == 2
    ensures AssignColor(0.75, [1], [50.0, 50.0]) == 1
  {
    assert PositivePrefix([0.0, 50.0, 50.0], 3) == 100.0;
    assert PositivePrefix([50.0, 50.0], 2) == 100.0;
  }

  // ---------------------------------------------------------------------------
  // Parameter validation
  // ---------------------------------------------------------------------------

  /** The parameters validation touches. */
  datatype Params = Params(extruders: seq<int>, distribution: seq<real>,
                           heightStartPercent: real, heightEndPercent: real, radialRadius: real,
                           spiralPitch: real, spiralTurns: int, noiseScale: real, noiseThreshold: real)

  predicate HasActive(ext: seq<int>)
  {
    exists k :: 0 <= k < |ext| && ext[k] > 0
  }

  function CountActive(ext: seq<int>): (n: nat)
    ensures n <= |ext|
    ensures n > 0 <==> HasActive(ext)
  {
    if ext == [] then 0
    else
      assert forall k :: 1 <= k < |ext| ==> ext[k] == ext[1..][k - 1];
      (if ext[0] > 0 then 1 else 0) + CountActive(ext[1..])
  }

  function Sum(s: seq<real>): real
  {
    if s == [] then 0.0 else s[0] + Sum(s[1..])
  }

  /** Every weight replaced by its positive part. */
  function NonNegative(d: seq<real>): (r: seq<real>)
    ensures |r| == |d|
    ensures forall k :: 0 <= k < |r| ==> r[k] == Pos(d[k])
  {
    seq(|d|, k requires 0 <= k < |d| => Pos(d[k]))
  }

  /** Every weight as a percentage of `total`. */
  function Percentages(d: seq<real>, total: real): (r: seq<real>)
    requires total > 0.0
    ensures |r| == |d|
    ensures forall k :: 0 <= k < |r| ==> r[k] == (d[k] / total) * 100.0
    decreases |d|
  {
    if d == [] then [] else [(d[0] / total) * 100.0] + Percentages(d[1..], total)
  }

  /** The equal share: weight `c` for every active extruder and 0 for every
      inactive one, over the indices both lists have; the rest of `d` stays. */
  function EqualShare(ext: seq<int>, d: seq<real>, c: real): (r: seq<real>)
    ensures |r| == |d|
    ensures forall k :: 0 <= k < |d| && k < |ext| ==> r[k] == (if ext[k] > 0 then c else 0.0)
    ensures forall k :: |ext| <= k < |d| ==> r[k] == d[k]
    decreases |d|
  {
    if d == [] then []
    else if ext == [] then d
    else [if ext[0] > 0 then c else 0.0] + EqualShare(ext[1..], d[1..], c)
  }

  /** std::clamp. */
  function Clamp(x: real, lo: real, hi: real): (r: real)
    requires lo <= hi
    ensures lo <= r <= hi
    ensures lo <= x <= hi ==> r == x
    ensures x < lo ==> r == lo
    ensures hi < x ==> r == hi
  {
    if x < lo then lo else if hi < x then hi else x
  }

  function MaxReal(a: real, b: real): (r: real)
    ensures r >= a && r >= b && (r == a || r == b)
  {
    if a < b then b else a
  }

  /** validate_auto_colorization_params. */
  function ValidateParams(p: Params): (r: Params)
    ensures |r.extruders| == |p.extruders| && |r.distribution| == |p.distribution|
    ensures HasActive(p.extruders) ==> r.extruders == p.extruders
    ensures !HasActive(p.extruders) && p.extruders != [] ==> r.extruders == p.extruders[0 := 1]
    ensures p.extruders != [] ==> HasActive(r.extruders)
    ensures forall k :: 0 <= k < |r.distribution| ==> r.distribution[k] >= 0.0
    ensures Sum(NonNegative(p.distribution)) > 0.0 ==>
      forall k :: 0 <= k < |r.distribution| ==>
        r.distribution[k] == (NonNegative(p.distribution)[k] / Sum(NonNegative(p.distribution))) * 100.0
    ensures Sum(NonNegative(p.distribution)) == 0.0 && CountActive(r.extruders) > 0 ==>
      forall k :: 0 <= k < |r.distribution| ==>
        r.distribution[k] == (if k < |r.extruders| && r.extruders[k] > 0 then 100.0 / CountActive(r.extruders) as real else 0.0)
    ensures Sum(NonNegative(p.distribution)) == 0.0 && CountActive(r.extruders) == 0 ==>
      forall k :: 0 <= k < |r.distribution| ==> r.distribution[k] == 0.0
    ensures 0.0 <= r.heightStartPercent <= 100.0 && 0.0 <= r.heightEndPercent <= 100.0
    ensures 0.0 <= p.heightStartPercent <= 100.0 ==> r.heightStartPercent == p.heightStartPercent
    ensures p.heightStartPercent < 0.0 ==> r.heightStartPercent == 0.0
    ensures p.heightStartPercent > 100.0 ==> r.heightStartPercent == 100.0
    ensures 0.0 <= p.heightEndPercent <= 100.0 ==> r.heightEndPercent == p.heightEndPercent
    ensures p.heightEndPercent < 0.0 ==> r.heightEndPercent == 0.0
    ensures p.heightEndPercent > 100.0 ==> r.heightEndPercent == 100.0
    ensures r.radialRadius >= 0.1 && r.spiralPitch >= 0.1 && r.spiralTurns >= 1
    ensures p.radialRadius >= 0.1 ==> r.radialRadius == p.radialRadius
    ensures p.radialRadius < 0.1 ==> r.radialRadius == 0.1
    ensures p.spiralPitch >= 0.1 ==> r.spiralPitch == p.spiralPitch
    ensures p.spiralPitch < 0.1 ==> r.spiralPitch == 0.1
    ensures p.spiralTurns >= 1 ==> r.spiralTurns == p.spiralTurns
    ensures p.spiralTurns < 1 ==> r.spiralTurns == 1
    ensures r.noiseScale >= 0.1 && 0.0 <= r.noiseThreshold <= 1.0
    ensures p.noiseScale >= 0.1 ==> r.noiseScale == p.noiseScale
    ensures p.noiseScale < 0.1 ==> r.noiseScale == 0.1
    ensures 0.0 <= p.noiseThreshold <= 1.0 ==> r.noiseThreshold == p.noiseThreshold
    ensures p.noiseThreshold < 0.0 ==> r.noiseThreshold == 0.0
    ensures p.noiseThreshold > 1.0 ==> r.noiseThreshold == 1.0
  {
    var ext := ActiveExtruders(p.extruders);
    Params(ext, ValidDistribution(ext, p.distribution),
           Clamp(p.heightStartPercent, 0.0, 100.0), Clamp(p.heightEndPercent, 0.0, 100.0),
           MaxReal(0.1, p.radialRadius), MaxReal(0.1, p.spiralPitch),
           if p.spiralTurns < 1 then 1 else p.spiralTurns,
           MaxReal(0.1, p.noiseScale), Clamp(p.noiseThreshold, 0.0, 1.0))
  }

  /** With no active extruder, the first one is made active. */
  function ActiveExtruders(ext: seq<int>): (r: seq<int>)
    ensures |r| == |ext|
    ensures HasActive(ext) ==> r == ext
    ensures !HasActive(ext) && ext != [] ==> r == ext[0 := 1]
    ensures ext != [] ==> HasActive(r)
  {
    if !HasActive(ext) && ext != [] then
      var r := ext[0 := 1];
      assert r[0] == 1;
      r
    else ext
  }

  /** The weights, made non-negative and then percentages of their sum; an
      equal share for every active extruder when they add up to 0. */
  function ValidDistribution(ext: seq<int>, d: seq<real>): (r: seq<real>)
    ensures |r| == |d|
    ensures forall k :: 0 <= k < |r| ==> r[k] >= 0.0
    ensures Sum(NonNegative(d)) > 0.0 ==>
      forall k :: 0 <= k < |r| ==> r[k] == (NonNegative(d)[k] / Sum(NonNegative(d))) * 100.0
    ensures Sum(NonNegative(d)) == 0.0 && CountActive(ext) > 0 ==>
      forall k :: 0 <= k < |r| ==>
        r[k] == (if k < |ext| && ext[k] > 0 then 100.0 / CountActive(ext) as real else 0.0)
    ensures Sum(NonNegative(d)) == 0.0 && CountActive(ext) == 0 ==> forall k :: 0 <= k < |r| ==> r[k] == 0.0
  {
    var d0 := NonNegative(d);
    var total := Sum(d0);
    SumNonNegative(d0);
    if total > 0.0 then
      var r := Percentages(d0, total);
      assert forall k :: 0 <= k < |r| ==> r[k] >= 0.0 by {
        forall k | 0 <= k < |r| ensures r[k] >= 0.0 {
          DivNonNegative(d0[k], total);
        }
      }
      r
    else if d0 != [] && CountActive(ext) > 0 then
      var c := 100.0 / CountActive(ext) as real;
      EqualShareNonNegative(ext, d0, c);
      EqualShare(ext, d0, c)
    else d0
  }

  lemma DivNonNegative(a: real, t: real)
    requires a >= 0.0 && t > 0.0
    ensures (a / t) * 100.0 >= 0.0
  {
  }

  lemma {:induction false} SumNonNegative(d: seq<real>)
    requires forall k :: 0 <= k < |d| ==> d[k] >= 0.0
    ensures Sum(d) >= 0.0
    ensures Sum(d) == 0.0 ==> forall k :: 0 <= k < |d| ==> d[k] == 0.0
    decreases |d|
  {
    if d != [] {
      SumNonNegative(d[1..]);
      assert forall k :: 1 <= k < |d| ==> d[k] == d[1..][k - 1];
    }
  }

  lemma {:induction false} EqualShareNonNegative(ext: seq<int>, d: seq<real>, c: real)
    requires c >= 0.0 && forall k :: 0 <= k < |d| ==> d[k] >= 0.0
    ensures forall k :: 0 <= k < |d| ==> EqualShare(ext, d, c)[k] >= 0.0
    decreases |d|
  {
    if d != [] && ext != [] {
      EqualShareNonNegative(ext[1..], d[1..], c);
      var r := EqualShare(ext, d, c);
      forall k | 1 <= k < |d| ensures r[k] >= 0.0 {
        assert r[k] == EqualShare(ext[1..], d[1..], c)[k - 1];
      }
    }
  }

  lemma {:induction false} SumPercentages(d: seq<real>, total: real)
    requires total > 0.0
    ensures Sum(Percentages(d, total)) == Times(Sum(d), 100.0 / total)
    decreases |d|
  {
    var f := 100.0 / total;
    if d == [] {
      assert Times(0.0, f) == 0.0;
    } else {
      SumPercentages(d[1..], total);
      assert (d[0] / total) * 100.0 == Times(d[0], f);
      SumCons((d[0] / total) * 100.0, Percentages(d[1..], total));
      TimesDistributes(d[0], Sum(d[1..]), f);
    }
  }

  lemma TimesDistributes(a: real, b: real, c: real)
    ensures Times(a, c) + Times(b, c) == Times(a + b, c)
  {
  }

  lemma {:induction false} SumEqualShare(ext: seq<int>, d: seq<real>, c: real)
    requires |d| >= |ext|
    ensures Sum(EqualShare(ext, d, c)) == Times(c, CountActive(ext) as real) + Sum(d[|ext|..])
    decreases |d|
  {
    if ext == [] {
      assert d[0..] == d;
      assert Times(c, 0.0) == 0.0;
    } else {
      SumEqualShare(ext[1..], d[1..], c);
      assert d[1..][|ext| - 1..] == d[|ext|..];
      var x := if ext[0] > 0 then c else 0.0;
      SumCons(x, EqualShare(ext[1..], d[1..], c));
      var n := CountActive(ext[1..]) as real;
      if ext[0] > 0 {
        TimesSucc(c, n);
      }
    }
  }

  lemma SumCons(x: real, rest: seq<real>)
    ensures Sum([x] + rest) == x + Sum(rest)
  {
    assert ([x] + rest)[1..] == rest;
  }

  lemma TimesSucc(c: real, n: real)
    ensures Times(c, n + 1.0) == Times(c, n) + c
  {
  }

  /** After validation the weights are percentages: they add up to 100 when
      some weight was positive, and also when none was and every extruder
      has a weight. */
  lemma ValidateSumsTo100(p: Params)
    requires Sum(NonNegative(p.distribution)) > 0.0
             || (p.extruders != [] && |p.distribution| >= |p.extruders|)
    ensures Sum(ValidateParams(p).distribution) == 100.0
  {
    var r := ValidateParams(p);
    var d0 := NonNegative(p.distribution);
    var total := Sum(d0);
    SumNonNegative(d0);
    if total > 0.0 {
      SumPercentages(d0, total);
      assert r.distribution == Percentages(d0, total);
      ShareTimesCount(total);
    } else {
      var ext := r.extruders;
      var n := CountActive(ext);
      assert n > 0;
      var c := 100.0 / n as real;
      assert r.distribution == EqualShare(ext, d0, c);
      SumEqualShare(ext, d0, c);
      ZeroTail(d0, |ext|);
      ShareTimesCount(n as real);
    }
  }

  lemma ShareTimesCount(m: real)
    requires m > 0.0
    ensures Times(100.0 / m, m) == 100.0
    ensures Times(m, 100.0 / m) == 100.0
  {
  }

  lemma {:induction false} ZeroTail(d: seq<real>, from: nat)
    requires from <= |d| && forall k :: 0 <= k < |d| ==> d[k] == 0.0
    ensures Sum(d[from..]) == 0.0
    decreases |d| - from
  {
    if from < |d| {
      ZeroTail(d, from + 1);
      assert d[from..][1..] == d[from + 1..];
    }
  }
}
