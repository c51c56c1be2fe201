/** The editing state of three gizmos (src/slic3r/GUI/GLGizmo.cpp): the SLA
    support-point editor's selection and deletion, the cut plane's clamp and
    the rotation angle's wrap at a full turn. Rendering, mouse handling and
    the back end's support generation are not modelled. */
module Gizmos {
  import opened Libslic3r

  // ---------------------------------------------------------------------------
  // SLA support points
  // ---------------------------------------------------------------------------

  /** A support point: position, head radius and whether it supports a newly
      appearing island. */
  datatype SupportPoint = SupportPoint(x: real, y: real, z: real, headRadius: real, isNewIsland: bool)

  /** An entry of the editing cache: a point and whether it is selected. */
  datatype Entry = Entry(point: SupportPoint, selected: bool)

  datatype SlaGizmo = SlaGizmo(cache: seq<Entry>, selectionEmpty: bool, editingMode: bool,
                               unsavedChanges: bool, lockUniqueIslands: bool, modelPoints: seq<SupportPoint>)

  /** The argument of select_point: every point, none, or one index. */
  datatype Selector = AllPoints | NoPoints | Index(i: int)

  /** The entry with its selection flag set to `b`. */
  function WithSelected(e: Entry, b: bool): Entry
  {
    e.(selected := b)
  }

  function SelectAll(cache: seq<Entry>, b: bool): (r: seq<Entry>)
    ensures |r| == |cache|
    ensures forall k :: 0 <= k < |r| ==> r[k] == WithSelected(cache[k], b)
  {
    seq(|cache|, k requires 0 <= k < |cache| => WithSelected(cache[k], b))
  }

  /** select_point: AllPoints and NoPoints set every flag and say whether the
      selection is empty; an index selects that point, keeps the others, and
      makes the selection non-empty. */
  function SelectPoint(g: SlaGizmo, s: Selector): (r: SlaGizmo)
    requires s.Index? ==> 0 <= s.i < |g.cache|
    ensures |r.cache| == |g.cache|
    ensures r == g.(cache := r.cache, selectionEmpty := r.selectionEmpty)
    ensures forall k :: 0 <= k < |r.cache| ==> r.cache[k].point == g.cache[k].point
    ensures s == AllPoints ==> !r.selectionEmpty && forall k :: 0 <= k < |r.cache| ==> r.cache[k].selected
    ensures s == NoPoints ==> r.selectionEmpty && forall k :: 0 <= k < |r.cache| ==> !r.cache[k].selected
    ensures s.Index? ==>
      (!r.selectionEmpty && r.cache[s.i].selected
       && forall k :: 0 <= k < |r.cache| && k != s.i ==> r.cache[k] == g.cache[k])
  {
    match s
    case AllPoints => g.(cache := SelectAll(g.cache, true), selectionEmpty := false)
    case NoPoints => g.(cache := SelectAll(g.cache, false), selectionEmpty := true)
    case Index(i) => g.(cache := g.cache[i := WithSelected(g.cache[i], true)], selectionEmpty := false)
  }

  /** An entry delete removes: selected, and not a new island while islands
      are locked. */
  predicate Deletable(e: Entry, lockUniqueIslands: bool)
  {
    e.selected && (!e.point.isNewIsland || !lockUniqueIslands)
  }

  /** The entries that survive deletion, in their order. */
  function Survivors(cache: seq<Entry>, lockUniqueIslands: bool): (r: seq<Entry>)
    ensures |r| <= |cache|
    decreases |cache|
  {
    if cache == [] then []
    else
      var rest := Survivors(cache[1..], lockUniqueIslands);
      if Deletable(cache[0], lockUniqueIslands) then rest else [cache[0]] + rest
  }

  /** Deletion removes every copy of each deletable entry and keeps every
      copy of the others. */
  lemma {:induction false} SurvivorsContents(cache: seq<Entry>, lock: bool)
    ensures var r := Survivors(cache, lock);
      multiset(r) <= multiset(cache)
      && (forall e :: e in multiset(cache) && Deletable(e, lock) ==> multiset(r)[e] == 0)
      && (forall e :: e in multiset(cache) && !Deletable(e, lock) ==> multiset(r)[e] == multiset(cache)[e])
    decreases |cache|
  {
    if cache != [] {
      var tail := cache[1..];
      SurvivorsContents(tail, lock);
      assert cache == [cache[0]] + tail;
      assert multiset(cache) == multiset{cache[0]} + multiset(tail);
      var r := Survivors(cache, lock);
      var rest := Survivors(tail, lock);
      if !Deletable(cache[0], lock) {
        assert r == [cache[0]] + rest;
        assert multiset(r) == multiset{cache[0]} + multiset(rest);
      } else {
        assert r == rest;
      }
      forall e | e in multiset(cache)
        ensures Deletable(e, lock) ==> multiset(r)[e] == 0
        ensures !Deletable(e, lock) ==> multiset(r)[e] == multiset(cache)[e]
      {
        if e !in multiset(tail) {
          assert multiset(rest)[e] == 0;
        }
      }
    }
  }

  /** Deletion shortens the cache exactly when some entry is deletable. */
  lemma {:induction false} SurvivorsLength(cache: seq<Entry>, lock: bool)
    ensures |Survivors(cache, lock)| == |cache| <==> forall k :: 0 <= k < |cache| ==> !Deletable(cache[k], lock)
    decreases |cache|
  {
    if cache != [] {
      var tail := cache[1..];
      SurvivorsLength(tail, lock);
      var r := Survivors(cache, lock);
      if |r| == |cache| {
        assert !Deletable(cache[0], lock);
        forall k | 0 <= k < |cache| ensures !Deletable(cache[k], lock) {
          if k > 0 {
            assert cache[k] == tail[k - 1];
          }
        }
      }
      if forall k :: 0 <= k < |cache| ==> !Deletable(cache[k], lock) {
        assert !Deletable(cache[0], lock);
        assert forall k :: 0 <= k < |tail| ==> tail[k] == cache[k + 1];
      }
    }
  }

  /** delete_selected_points: outside editing mode nothing happens; inside
      it, the deletable entries go, a deletion marks unsaved changes, and
      everything left is deselected. */
  function DeleteSelectedPoints(g: SlaGizmo): (r: SlaGizmo)
    ensures !g.editingMode ==> r == g
    ensures g.editingMode ==>
      r.cache == SelectAll(Survivors(g.cache, g.lockUniqueIslands), false)
      && r.selectionEmpty
      && r.unsavedChanges == (g.unsavedChanges || |r.cache| < |g.cache|)
      && r == g.(cache := r.cache, selectionEmpty := true, unsavedChanges := r.unsavedChanges)
  {
    if !g.editingMode then g
    else
      var kept := Survivors(g.cache, g.lockUniqueIslands);
      var deleted := |kept| < |g.cache|;
      SelectPoint(g.(cache := kept, unsavedChanges := g.unsavedChanges || deleted), NoPoints)
  }

  /** A second deletion finds nothing selected and changes nothing. */
  lemma DeleteIdempotent(g: SlaGizmo)
    ensures DeleteSelectedPoints(DeleteSelectedPoints(g)) == DeleteSelectedPoints(g)
  {
    var g1 := DeleteSelectedPoints(g);
    if g.editingMode {
      assert forall k :: 0 <= k < |g1.cache| ==> !Deletable(g1.cache[k], g1.lockUniqueIslands);
      var kept := Survivors(g1.cache, g1.lockUniqueIslands);
      SurvivorsOfNone(g1.cache, g1.lockUniqueIslands);
      assert SelectAll(kept, false) == g1.cache;
    }
  }

  lemma {:induction false} SurvivorsOfNone(cache: seq<Entry>, lock: bool)
    requires forall k :: 0 <= k < |cache| ==> !Deletable(cache[k], lock)
    ensures Survivors(cache, lock) == cache
    decreases |cache|
  {
    if cache != [] {
      SurvivorsOfNone(cache[1..], lock);
      assert [cache[0]] + cache[1..] == cache;
    }
  }

  /** With only entry `i` selected and deletable, deletion removes exactly
      that entry. */
  lemma {:induction false} SurvivorsOfOne(cache: seq<Entry>, lock: bool, i: nat)
    requires i < |cache| && Deletable(cache[i], lock)
    requires forall k :: 0 <= k < |cache| && k != i ==> !cache[k].selected
    ensures Survivors(cache, lock) == cache[..i] + cache[i + 1..]
    decreases |cache|
  {
    var tail := cache[1..];
    if i == 0 {
      assert Survivors(cache, lock) == Survivors(tail, lock);
      SurvivorsOfNone(tail, lock);
      assert cache[..0] + cache[1..] == tail;
    } else {
      assert !Deletable(cache[0], lock);
      assert Survivors(cache, lock) == [cache[0]] + Survivors(tail, lock);
      SurvivorsOfOne(tail, lock, i - 1);
      assert tail[..i - 1] == cache[1..i];
      assert tail[i..] == cache[i + 1..];
      assert [cache[0]] + cache[1..i] == cache[..i];
    }
  }

  /** Clicking point `i` and pressing delete removes that point alone (unless
      it is a locked new island) and leaves the rest deselected. */
  lemma SelectOneThenDelete(g: SlaGizmo, i: nat)
    requires g.editingMode && i < |g.cache|
    requires !g.cache[i].point.isNewIsland || !g.lockUniqueIslands
    ensures var r := DeleteSelectedPoints(SelectPoint(SelectPoint(g, NoPoints), Index(i)));
      r.cache == SelectAll(g.cache[..i] + g.cache[i + 1..], false) && r.unsavedChanges
  {
    var g1 := SelectPoint(SelectPoint(g, NoPoints), Index(i));
    SurvivorsOfOne(g1.cache, g1.lockUniqueIslands, i);
    var kept := g1.cache[..i] + g1.cache[i + 1..];
    assert |kept| == |g.cache| - 1;
    var want := g.cache[..i] + g.cache[i + 1..];
    forall k | 0 <= k < |kept| ensures WithSelected(kept[k], false) == WithSelected(want[k], false) {
      if k < i {
        assert kept[k] == g1.cache[k] && want[k] == g.cache[k];
      } else {
        assert kept[k] == g1.cache[k + 1] && want[k] == g.cache[k + 1];
      }
    }
  }

  /** The cache rebuilt from the model's points, none selected. */
  function CacheOf(points: seq<SupportPoint>): (r: seq<Entry>)
    ensures |r| == |points|
    ensures forall k :: 0 <= k < |r| ==> r[k] == Entry(points[k], false)
  {
    seq(|points|, k requires 0 <= k < |points| => Entry(points[k], false))
  }

  function PointsOf(cache: seq<Entry>): (r: seq<SupportPoint>)
    ensures |r| == |cache|
    ensures forall k :: 0 <= k < |r| ==> r[k] == cache[k].point
  {
    seq(|cache|, k requires 0 <= k < |cache| => cache[k].point)
  }

  /** editing_mode_discard_changes: the cache is rebuilt from the model's
      points, and editing mode and unsaved changes end. */
  function DiscardChanges(g: SlaGizmo): (r: SlaGizmo)
    ensures PointsOf(r.cache) == g.modelPoints
    ensures forall k :: 0 <= k < |r.cache| ==> !r.cache[k].selected
    ensures !r.editingMode && !r.unsavedChanges && r.modelPoints == g.modelPoints
  {
    g.(cache := CacheOf(g.modelPoints), editingMode := false, unsavedChanges := false)
  }

  /** editing_mode_apply_changes: unsaved changes are written to the model;
      editing mode and unsaved changes end. */
  function ApplyChanges(g: SlaGizmo): (r: SlaGizmo)
    ensures g.unsavedChanges ==> r.modelPoints == PointsOf(g.cache)
    ensures !g.unsavedChanges ==> r.modelPoints == g.modelPoints
    ensures r.cache == g.cache && !r.editingMode && !r.unsavedChanges
  {
    var points := if g.unsavedChanges then PointsOf(g.cache) else g.modelPoints;
    g.(modelPoints := points, editingMode := false, unsavedChanges := false)
  }

  /** switch_to_editing_mode: reload the cache from the model and edit. */
  function SwitchToEditingMode(g: SlaGizmo): (r: SlaGizmo)
    ensures r.cache == CacheOf(g.modelPoints) && r.editingMode && !r.unsavedChanges
  {
    g.(cache := CacheOf(g.modelPoints), editingMode := true, unsavedChanges := false)
  }

  /** Applied edits survive: entering editing mode again, or discarding,
      shows the edited points. Discarded edits are lost: applying after a
      discard leaves the model as it was. */
  lemma ApplyThenReload(g: SlaGizmo)
    requires g.unsavedChanges
    ensures PointsOf(SwitchToEditingMode(ApplyChanges(g)).cache) == PointsOf(g.cache)
    ensures PointsOf(DiscardChanges(ApplyChanges(g)).cache) == PointsOf(g.cache)
    ensures ApplyChanges(DiscardChanges(g)).modelPoints == g.modelPoints
  {
    assert PointsOf(CacheOf(PointsOf(g.cache))) == PointsOf(g.cache);
  }

  // ---------------------------------------------------------------------------
  // Cut plane and rotation
  // ---------------------------------------------------------------------------

  /** set_cut_z: clamp the plane into [0, max_z]. */
  function SetCutZ(maxZ: real, cutZ: real): (z: real)
    ensures z >= 0.0
    ensures maxZ >= 0.0 ==> z <= maxZ
    ensures 0.0 <= cutZ <= maxZ ==> z == cutZ
    ensures cutZ < 0.0 || maxZ < 0.0 ==> z == 0.0
    ensures 0.0 <= maxZ < cutZ ==> z == maxZ
  {
    if 0.0 > (if maxZ < cutZ then maxZ else cutZ) then 0.0
    else if maxZ < cutZ then maxZ else cutZ
  }

  /** Clamping again changes nothing, and a new bounding box height (as
      update_max_z applies it) re-clamps the plane into it. */
  lemma SetCutZIdempotent(maxZ: real, cutZ: real, newMaxZ: real)
    ensures SetCutZ(maxZ, SetCutZ(maxZ, cutZ)) == SetCutZ(maxZ, cutZ)
    ensures newMaxZ >= 0.0 ==> 0.0 <= SetCutZ(newMaxZ, SetCutZ(maxZ, cutZ)) <= newMaxZ
  {
  }

  function Abs(x: real): real
  {
    if x < 0.0 then -x else x
  }

  /** set_angle: an angle within EPSILON of a full turn is stored as 0; any
      other angle as given. */
  function SetAngle(angle: real): (a: real)
    ensures Abs(angle - 2.0 * Pi) < Epsilon ==> a == 0.0
    ensures Abs(angle - 2.0 * Pi) >= Epsilon ==> a == angle
    ensures Abs(a - 2.0 * Pi) >= Epsilon
  {
    if Abs(angle - 2.0 * Pi) < Epsilon then 0.0 else angle
  }

  /** Storing a stored angle again keeps it. */
  lemma SetAngleIdempotent(angle: real)
    ensures SetAngle(SetAngle(angle)) == SetAngle(angle)
  {
  }
}
