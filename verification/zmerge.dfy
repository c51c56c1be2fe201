/** Merging of near-equal layer heights: the preview's layer list and the
    3D scene's layer list both sort the layer tops and replace every run of
    heights within EPSILON of the run's first height by the run's midpoint
    (src/slic3r/GUI/GCodeViewer.cpp and xs/src/slic3r/GUI/3DScene.cpp carry
    the same loop). Heights are doubles in the source and reals here. */
module ZMerge {
  import opened Sorting
  import opened Libslic3r

  predicate SortedReals(s: seq<real>)
  {
    forall i, j :: 0 <= i < j < |s| ==> s[i] <= s[j]
  }

  /** The end (exclusive) of the run that starts at `i`: the heights up to
      EPSILON above zs[i]. */
  function RunEnd(zs: seq<real>, i: nat, j: nat): (e: nat)
    requires i < j <= |zs|
    requires forall m :: i <= m < j ==> zs[m] <= zs[i] + Epsilon
    ensures j <= e <= |zs|
    ensures forall m :: i <= m < e ==> zs[m] <= zs[i] + Epsilon
    ensures e == |zs| || zs[e] > zs[i] + Epsilon
    decreases |zs| - j
  {
    if j < |zs| && zs[j] <= zs[i] + Epsilon then RunEnd(zs, i, j + 1) else j
  }

  /** The value standing for a run: the midpoint of its ends, or the height
      itself for a run of one. */
  function RunValue(zs: seq<real>, i: nat, e: nat): real
    requires i < e <= |zs|
  {
    if e > i + 1 then 0.5 * (zs[i] + zs[e - 1]) else zs[i]
  }

  /** The merge loop from position `i` on. */
  function MergeFrom(zs: seq<real>, i: nat): (r: seq<real>)
    requires i <= |zs|
    ensures |r| <= |zs| - i
    ensures i < |zs| ==> |r| > 0
    decreases |zs| - i
  {
    if i == |zs| then []
    else
      var e := RunEnd(zs, i, i + 1);
      [RunValue(zs, i, e)] + MergeFrom(zs, e)
  }

  function RealLe(a: real, b: real): bool
  {
    a <= b
  }

  lemma RealLeTotal()
    ensures Total(RealLe)
  {
  }

  /** Sort, then replace each run of heights within EPSILON of its first by
      the run's midpoint. */
  function MergeNearEqual(zs: seq<real>): (r: seq<real>)
    ensures |r| <= |zs|
    ensures |zs| > 0 ==> |r| > 0
  {
    RealLeTotal();
    var sorted := Sort(zs, RealLe);
    assert |sorted| == |multiset(sorted)| == |multiset(zs)| == |zs|;
    MergeFrom(sorted, 0)
  }

  lemma SortedByRealsIsSorted(s: seq<real>)
    requires SortedBy(s, RealLe)
    ensures SortedReals(s)
  {
    forall i, j | 0 <= i < j < |s| ensures s[i] <= s[j] {
      SortedStep(s, i, j);
    }
  }

  lemma {:induction false} SortedStep(s: seq<real>, i: nat, j: nat)
    requires SortedBy(s, RealLe) && i <= j < |s|
    ensures s[i] <= s[j]
    decreases j - i
  {
    if i < j {
      SortedStep(s, i, j - 1);
      assert RealLe(s[j - 1], s[j]);
    }
  }

  /** Each merged value lies between its run's first height and EPSILON/2
      above it. */
  lemma RunValueBounds(zs: seq<real>, i: nat)
    requires i < |zs| && SortedReals(zs)
    ensures var e := RunEnd(zs, i, i + 1);
      zs[i] <= RunValue(zs, i, e) <= zs[i] + Epsilon / 2.0 && RunValue(zs, i, e) <= zs[e - 1]
  {
  }

  /** Each element is more than EPSILON/2 above the previous one. */
  predicate SpreadApart(r: seq<real>)
  {
    forall k :: 0 <= k < |r| - 1 ==> r[k + 1] > r[k] + Epsilon / 2.0
  }

  predicate Within(r: seq<real>, lo: real, hi: real)
  {
    forall k :: 0 <= k < |r| ==> lo <= r[k] <= hi
  }

  /** The merged heights of a sorted sequence are strictly increasing, each
      more than EPSILON/2 above the previous, and all lie within the range of
      the input from position `i`. */
  lemma {:induction false} MergeFromSpread(zs: seq<real>, i: nat)
    requires i <= |zs| && SortedReals(zs)
    ensures SpreadApart(MergeFrom(zs, i))
    ensures i < |zs| ==> Within(MergeFrom(zs, i), zs[i], zs[|zs| - 1])
    decreases |zs| - i
  {
    if i < |zs| {
      var e := RunEnd(zs, i, i + 1);
      var r := MergeFrom(zs, i);
      var rest := MergeFrom(zs, e);
      var v := RunValue(zs, i, e);
      assert r == [v] + rest;
      RunValueBounds(zs, i);
      MergeFromSpread(zs, e);
      assert v <= zs[|zs| - 1];
      if e == |zs| {
        assert rest == [];
      } else {
        assert Within(rest, zs[e], zs[|zs| - 1]);
        assert zs[i] + Epsilon < zs[e] <= rest[0];
        assert zs[i] <= zs[e];
      }
      forall k | 0 <= k < |r| ensures zs[i] <= r[k] <= zs[|zs| - 1] {
        if k > 0 {
          assert r[k] == rest[k - 1];
        }
      }
      forall k | 0 <= k < |r| - 1 ensures r[k + 1] > r[k] + Epsilon / 2.0 {
        if k > 0 {
          assert r[k] == rest[k - 1] && r[k + 1] == rest[k];
        } else {
          assert r[1] == rest[0];
        }
      }
    }
  }

  /** The merged layer heights are strictly increasing, more than EPSILON/2
      apart. */
  lemma MergeNearEqualSpread(zs: seq<real>)
    ensures SpreadApart(MergeNearEqual(zs))
  {
    RealLeTotal();
    var sorted := Sort(zs, RealLe);
    SortedByRealsIsSorted(sorted);
    MergeFromSpread(sorted, 0);
  }

  /** `v` is the midpoint of two input heights at most EPSILON apart (a run
      of one height is the midpoint of that height with itself). */
  predicate IsRunMidpoint(v: real, zs: seq<real>)
  {
    exists a, b :: a in zs && b in zs && a <= b <= a + Epsilon && v == 0.5 * (a + b)
  }

  /** Every merged height stands for a run of input heights. */
  predicate MidpointsOf(r: seq<real>, zs: seq<real>)
  {
    forall k :: 0 <= k < |r| ==> IsRunMidpoint(r[k], zs)
  }

  /** `z` lies within EPSILON of some height of `r`. */
  predicate NearSome(r: seq<real>, z: real)
  {
    exists k :: 0 <= k < |r| && r[k] - Epsilon <= z <= r[k] + Epsilon
  }

  /** Every input height lies within EPSILON of some merged height. */
  predicate Covers(r: seq<real>, zs: seq<real>)
  {
    forall z :: z in zs ==> NearSome(r, z)
  }

  /** The value of the run that starts at `p`. */
  function RunValueAt(zs: seq<real>, p: nat): real
    requires p < |zs|
  {
    RunValue(zs, p, RunEnd(zs, p, p + 1))
  }

  /** `v` is the value of the run that starts at some position from `i` on. */
  predicate IsRunValueFrom(v: real, zs: seq<real>, i: nat)
  {
    exists p :: i <= p < |zs| && v == RunValueAt(zs, p)
  }

  lemma NearSomeCons(v: real, rest: seq<real>, z: real)
    requires NearSome(rest, z) || v - Epsilon <= z <= v + Epsilon
    ensures NearSome([v] + rest, z)
  {
    var r := [v] + rest;
    if v - Epsilon <= z <= v + Epsilon {
      assert r[0] == v;
    } else {
      var k :| 0 <= k < |rest| && rest[k] - Epsilon <= z <= rest[k] + Epsilon;
      assert r[k + 1] == rest[k];
    }
  }

  /** Each merged height from position `i` on is the value of the run that
      starts at some position p at or after `i`. */
  lemma {:induction false} MergeFromRuns(zs: seq<real>, i: nat)
    requires i <= |zs|
    ensures forall k :: 0 <= k < |MergeFrom(zs, i)| ==> IsRunValueFrom(MergeFrom(zs, i)[k], zs, i)
    decreases |zs| - i
  {
    if i < |zs| {
      var e := RunEnd(zs, i, i + 1);
      var r := MergeFrom(zs, i);
      var rest := MergeFrom(zs, e);
      assert r == [RunValue(zs, i, e)] + rest;
      MergeFromRuns(zs, e);
      forall k | 0 <= k < |r| ensures IsRunValueFrom(r[k], zs, i) {
        if k == 0 {
          assert i <= i < |zs| && r[0] == RunValueAt(zs, i);
        } else {
          assert r[k] == rest[k - 1];
          assert IsRunValueFrom(rest[k - 1], zs, e);
          var p :| e <= p < |zs| && rest[k - 1] == RunValueAt(zs, p);
          assert i <= p;
        }
      }
    }
  }

  /** On sorted heights, every height from position `i` on lies within
      EPSILON of some merged height from `i` on. */
  lemma {:induction false} MergeFromCovers(zs: seq<real>, i: nat)
    requires i <= |zs| && SortedReals(zs)
    ensures forall m :: i <= m < |zs| ==> NearSome(MergeFrom(zs, i), zs[m])
    decreases |zs| - i
  {
    if i < |zs| {
      var e := RunEnd(zs, i, i + 1);
      var rest := MergeFrom(zs, e);
      var v := RunValue(zs, i, e);
      assert MergeFrom(zs, i) == [v] + rest;
      RunValueBounds(zs, i);
      MergeFromCovers(zs, e);
      forall m | i <= m < |zs| ensures NearSome([v] + rest, zs[m]) {
        if m < e {
          assert zs[i] <= zs[m] <= zs[i] + Epsilon;
        }
        NearSomeCons(v, rest, zs[m]);
      }
    }
  }

  /** On sorted heights, a run's value is the midpoint of two heights of the
      run, which are at most EPSILON apart. */
  lemma RunValueIsMidpoint(zs: seq<real>, p: nat)
    requires p < |zs| && SortedReals(zs)
    ensures IsRunMidpoint(RunValueAt(zs, p), zs)
  {
    var e := RunEnd(zs, p, p + 1);
    var a, b := zs[p], zs[e - 1];
    assert a in zs && b in zs && a <= b <= a + Epsilon;
    if e == p + 1 {
      assert RunValue(zs, p, e) == 0.5 * (a + a);
    } else {
      assert RunValue(zs, p, e) == 0.5 * (a + b);
    }
  }

  /** A midpoint of heights of a sequence is one of any sequence holding the
      same heights. */
  lemma MidpointSameElements(v: real, s: seq<real>, t: seq<real>)
    requires IsRunMidpoint(v, s)
    requires forall z :: z in s ==> z in t
    ensures IsRunMidpoint(v, t)
  {
    var a, b :| a in s && b in s && a <= b <= a + Epsilon && v == 0.5 * (a + b);
    assert a in t && b in t;
  }

  /** The merge of a sorted sequence is made of run midpoints and covers it. */
  lemma MergeFromMeaning(sorted: seq<real>)
    requires SortedReals(sorted)
    ensures MidpointsOf(MergeFrom(sorted, 0), sorted)
    ensures Covers(MergeFrom(sorted, 0), sorted)
  {
    var r := MergeFrom(sorted, 0);
    MergeFromRuns(sorted, 0);
    forall k | 0 <= k < |r| ensures IsRunMidpoint(r[k], sorted) {
      assert IsRunValueFrom(r[k], sorted, 0);
      var p :| 0 <= p < |sorted| && r[k] == RunValueAt(sorted, p);
      RunValueIsMidpoint(sorted, p);
    }
    MergeFromCovers(sorted, 0);
    forall z | z in sorted ensures NearSome(r, z) {
      var m :| 0 <= m < |sorted| && sorted[m] == z;
    }
  }

  /** The merge does what its name says: every merged height is the midpoint
      of a run of input heights at most EPSILON apart, and every input height
      lies within EPSILON of a merged one. */
  lemma MergeNearEqualMeaning(zs: seq<real>)
    ensures MidpointsOf(MergeNearEqual(zs), zs)
    ensures Covers(MergeNearEqual(zs), zs)
  {
    RealLeTotal();
    var sorted := Sort(zs, RealLe);
    assert MergeNearEqual(zs) == MergeFrom(sorted, 0);
    SortedByRealsIsSorted(sorted);
    MergeFromMeaning(sorted);
    SameElementsOfPermutation(sorted, zs);
    MeaningSameElements(MergeFrom(sorted, 0), sorted, zs);
  }

  /** Both properties depend only on the heights the input holds. */
  lemma MeaningSameElements(r: seq<real>, s: seq<real>, t: seq<real>)
    requires MidpointsOf(r, s) && Covers(r, s)
    requires forall z :: z in s <==> z in t
    ensures MidpointsOf(r, t) && Covers(r, t)
  {
    MidpointsSubset(r, s, t);
    CoversSubset(r, s, t);
  }

  lemma MidpointsSubset(r: seq<real>, s: seq<real>, t: seq<real>)
    requires MidpointsOf(r, s)
    requires forall z :: z in s ==> z in t
    ensures MidpointsOf(r, t)
  {
    forall k | 0 <= k < |r| ensures IsRunMidpoint(r[k], t) {
      MidpointSameElements(r[k], s, t);
    }
  }

  lemma CoversSubset(r: seq<real>, s: seq<real>, t: seq<real>)
    requires Covers(r, s)
    requires forall z :: z in t ==> z in s
    ensures Covers(r, t)
  {
  }

  lemma SameElementsOfPermutation(s: seq<real>, t: seq<real>)
    requires multiset(s) == multiset(t)
    ensures forall z :: z in s <==> z in t
  {
    forall z ensures z in s <==> z in t {
      assert z in s <==> z in multiset(s);
      assert z in t <==> z in multiset(t);
    }
  }

  /** Merged heights can be less than EPSILON apart: the run 0, EPSILON
      merges to EPSILON/2, and the next height 1.1 EPSILON stays itself. */
  lemma MergedHeightsCloserThanEpsilon()
    ensures MergeFrom([0.0, Epsilon, 1.1 * Epsilon], 0) == [Epsilon / 2.0, 1.1 * Epsilon]
  {
    var zs := [0.0, Epsilon, 1.1 * Epsilon];
    assert RunEnd(zs, 0, 1) == 2;
    assert RunEnd(zs, 2, 3) == 3;
    assert MergeFrom(zs, 3) == [];
  }

}
