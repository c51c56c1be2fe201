/** Bookkeeping of the volumes of the 3D scene (xs/src/slic3r/GUI/3DScene.cpp
    and 3DScene.hpp): the composite id packing object, volume and instance
    indices, the layer list of the scene, the vertex range shown for a Z
    range, and the colour a volume is drawn in. */
module Scene3D {
  import opened ZMerge

  // ---------------------------------------------------------------------------
  // Composite ids
  // ---------------------------------------------------------------------------

  /** The largest value of the source's int. */
  const IntMax: int := 0x7FFF_FFFF

  /** composite_id = obj * 1000000 + volume * 1000 + instance. */
  function CompositeId(obj: nat, volume: nat, instance: nat): (id: nat)
    ensures id >= obj * 1000000
  {
    obj * 1000000 + volume * 1000 + instance
  }

  /** object_idx, volume_idx and instance_idx of a non-negative id (C++
      division and remainder agree with Dafny's there). */
  function ObjectIdx(id: nat): nat { id / 1000000 }
  function VolumeIdx(id: nat): (r: nat) ensures r < 1000 { (id / 1000) % 1000 }
  function InstanceIdx(id: nat): (r: nat) ensures r < 1000 { id % 1000 }

  /** The indices come back from a composite id when the volume and instance
      indices are below 1000 and the id fits in an int. */
  lemma CompositeIdRoundTrip(obj: nat, volume: nat, instance: nat)
    requires volume < 1000 && instance < 1000
    requires CompositeId(obj, volume, instance) <= IntMax
    ensures ObjectIdx(CompositeId(obj, volume, instance)) == obj
    ensures VolumeIdx(CompositeId(obj, volume, instance)) == volume
    ensures InstanceIdx(CompositeId(obj, volume, instance)) == instance
  {
    var id := CompositeId(obj, volume, instance);
    assert id == (obj * 1000 + volume) * 1000 + instance;
    assert id / 1000 == obj * 1000 + volume;
    assert id / 1000000 == (id / 1000) / 1000;
  }

  /** A volume index of 1000 already collides with the next object. */
  lemma CompositeIdCollision()
    ensures CompositeId(0, 1000, 0) == CompositeId(1, 0, 0)
  {
  }

  /** select_group_id: the object's, the volume's or the instance's id, with
      the parts below the one selected by zeroed; any other selection mode
      leaves the previous group id. */
  function SelectGroupId(selectBy: string, obj: nat, volume: nat, instance: nat, previous: int): (r: int)
    ensures selectBy == "object" ==> r == CompositeId(obj, 0, 0)
    ensures selectBy == "volume" ==> r == CompositeId(obj, volume, 0)
    ensures selectBy == "instance" ==> r == CompositeId(obj, volume, instance)
    ensures selectBy !in {"object", "volume", "instance"} ==> r == previous
  {
    if selectBy == "object" then obj * 1000000
    else if selectBy == "volume" then obj * 1000000 + volume * 1000
    else if selectBy == "instance" then CompositeId(obj, volume, instance)
    else previous
  }

  /** Volumes of one object share the object group, volumes of one volume
      share the volume group, and group ids decode to the object (and volume)
      they belong to. */
  lemma SelectGroupIdDecodes(obj: nat, volume: nat, instance: nat, previous: int)
    requires volume < 1000 && instance < 1000
    requires CompositeId(obj, volume, instance) <= IntMax
    ensures ObjectIdx(SelectGroupId("object", obj, volume, instance, previous)) == obj
    ensures VolumeIdx(SelectGroupId("object", obj, volume, instance, previous)) == 0
    ensures ObjectIdx(SelectGroupId("volume", obj, volume, instance, previous)) == obj
    ensures VolumeIdx(SelectGroupId("volume", obj, volume, instance, previous)) == volume
    ensures InstanceIdx(SelectGroupId("volume", obj, volume, instance, previous)) == 0
  {
    CompositeIdRoundTrip(obj, 0, 0);
    CompositeIdRoundTrip(obj, volume, 0);
  }

  // ---------------------------------------------------------------------------
  // Layer list of the scene
  // ---------------------------------------------------------------------------

  datatype Volume = Volume(isActive: bool, printZs: seq<real>)

  /** The layer tops of the volumes taken into account, in volume order. */
  function CollectPrintZs(volumes: seq<Volume>, activeOnly: bool): (r: seq<real>)
    ensures forall z :: z in r <==> exists k :: 0 <= k < |volumes| && (!activeOnly || volumes[k].isActive)
                                                && z in volumes[k].printZs
    decreases |volumes|
  {
    if volumes == [] then []
    else
      var v := volumes[|volumes| - 1];
      var front := CollectPrintZs(volumes[..|volumes| - 1], activeOnly);
      assert forall k :: 0 <= k < |volumes| - 1 ==> volumes[..|volumes| - 1][k] == volumes[k];
      front + (if !activeOnly || v.isActive then v.printZs else [])
  }

  lemma CollectPrintZsNonEmpty(volumes: seq<Volume>, activeOnly: bool)
    ensures (exists k :: 0 <= k < |volumes| && (!activeOnly || volumes[k].isActive) && |volumes[k].printZs| > 0)
        ==> |CollectPrintZs(volumes, activeOnly)| > 0
  {
    if exists k :: 0 <= k < |volumes| && (!activeOnly || volumes[k].isActive) && |volumes[k].printZs| > 0 {
      var k :| 0 <= k < |volumes| && (!activeOnly || volumes[k].isActive) && |volumes[k].printZs| > 0;
      assert volumes[k].printZs[0] in CollectPrintZs(volumes, activeOnly);
    }
  }

  /** get_current_print_zs: the layer tops of all (or all active) volumes,
      merged like the preview's: strictly increasing, more than EPSILON/2
      apart, no more numerous than the tops collected, each the midpoint of a
      run of collected tops, and every collected top within EPSILON of one. */
  function GetCurrentPrintZs(volumes: seq<Volume>, activeOnly: bool): (r: seq<real>)
    ensures |r| <= |CollectPrintZs(volumes, activeOnly)|
    ensures SpreadApart(r)
    ensures (exists k :: 0 <= k < |volumes| && (!activeOnly || volumes[k].isActive) && |volumes[k].printZs| > 0)
        ==> |r| > 0
    ensures MidpointsOf(r, CollectPrintZs(volumes, activeOnly))
    ensures Covers(r, CollectPrintZs(volumes, activeOnly))
  {
    var zs := CollectPrintZs(volumes, activeOnly);
    MergeNearEqualSpread(zs);
    MergeNearEqualMeaning(zs);
    CollectPrintZsNonEmpty(volumes, activeOnly);
    MergeNearEqual(zs)
  }

  // ---------------------------------------------------------------------------
  // set_range
  // ---------------------------------------------------------------------------

  /** The quad and triangle index ranges a volume draws. */
  datatype Ranges = Ranges(qFirst: nat, qSecond: nat, tFirst: nat, tSecond: nat)

  /** A volume's layers: their tops, and for layer `i` the quad and triangle
      offsets at 2i and 2i+1. */
  datatype Layers = Layers(printZs: seq<real>, offsets: seq<nat>, quadIndices: nat, triangleIndices: nat)

  predicate ValidLayers(l: Layers)
  {
    |l.offsets| == 2 * |l.printZs|
  }

  /** The first index from `i` on whose top is not below `minZ`. */
  function FirstNotBelow(zs: seq<real>, minZ: real, i: nat): (r: nat)
    requires i <= |zs|
    ensures i <= r <= |zs|
    ensures forall m :: i <= m < r ==> zs[m] < minZ
    ensures r < |zs| ==> zs[r] >= minZ
    decreases |zs| - i
  {
    if i < |zs| && zs[i] < minZ then FirstNotBelow(zs, minZ, i + 1) else i
  }

  /** The first index from `i` on whose top is above `maxZ`. */
  function FirstAbove(zs: seq<real>, maxZ: real, i: nat): (r: nat)
    requires i <= |zs|
    ensures i <= r <= |zs|
    ensures forall m :: i <= m < r ==> zs[m] <= maxZ
    ensures r < |zs| ==> zs[r] > maxZ
    decreases |zs| - i
  {
    if i < |zs| && zs[i] <= maxZ then FirstAbove(zs, maxZ, i + 1) else i
  }

  /** set_range: everything when no layers are known; nothing when the layers
      lie wholly outside [minZ, maxZ]; otherwise from the first layer not
      below minZ up to (not including) the first layer above maxZ, or to the
      end. */
  function SetRange(l: Layers, minZ: real, maxZ: real): (r: Ranges)
    requires ValidLayers(l)
    ensures l.printZs == [] ==> r == Ranges(0, l.quadIndices, 0, l.triangleIndices)
    ensures l.printZs != [] && (l.printZs[0] > maxZ || l.printZs[|l.printZs| - 1] < minZ) ==>
      r.qSecond == 0 && r.tSecond == 0
  {
    var full := Ranges(0, l.quadIndices, 0, l.triangleIndices);
    var zs := l.printZs;
    if zs == [] then full
    else if zs[0] > maxZ || zs[|zs| - 1] < minZ then full.(qSecond := 0, tSecond := 0)
    else
      var i := FirstNotBelow(zs, minZ, 0);
      if i == |zs| then full.(qSecond := 0, tSecond := 0)
      else
        var start := full.(qFirst := l.offsets[2 * i], tFirst := l.offsets[2 * i + 1]);
        var j := FirstAbove(zs, maxZ, i);
        if j < |zs| then start.(qSecond := l.offsets[2 * j], tSecond := l.offsets[2 * j + 1]) else start
  }

  /** The layers of a volume with sorted tops that are shown: those whose top
      lies in [minZ, maxZ]. */
  predicate Shown(zs: seq<real>, minZ: real, maxZ: real, m: nat)
    requires m < |zs|
  {
    minZ <= zs[m] <= maxZ
  }

  /** When the layers overlap [minZ, maxZ], set_range starts at the offsets of
      layer `i` and ends at those of layer `j` (or the end), where the layers
      from `i` to before `j` are exactly the ones whose top lies in the range.
      The source's branch for "no layer reaches minZ" is never taken. */
  lemma SetRangeSelectsShownLayers(l: Layers, minZ: real, maxZ: real)
    requires ValidLayers(l) && SortedReals(l.printZs)
    requires l.printZs != [] && l.printZs[0] <= maxZ && l.printZs[|l.printZs| - 1] >= minZ
    ensures var zs := l.printZs;
      var i := FirstNotBelow(zs, minZ, 0);
      var j := FirstAbove(zs, maxZ, i);
      && i < |zs|
      && SetRange(l, minZ, maxZ).qFirst == l.offsets[2 * i]
      && SetRange(l, minZ, maxZ).tFirst == l.offsets[2 * i + 1]
      && (j < |zs| ==>
            SetRange(l, minZ, maxZ).qSecond == l.offsets[2 * j] && SetRange(l, minZ, maxZ).tSecond == l.offsets[2 * j + 1])
      && (j == |zs| ==>
            SetRange(l, minZ, maxZ).qSecond == l.quadIndices && SetRange(l, minZ, maxZ).tSecond == l.triangleIndices)
      && (forall m :: 0 <= m < |zs| ==> (Shown(zs, minZ, maxZ, m) <==> i <= m < j))
  {
    var zs := l.printZs;
    var i := FirstNotBelow(zs, minZ, 0);
    var j := FirstAbove(zs, maxZ, i);
    forall m | 0 <= m < |zs| ensures Shown(zs, minZ, maxZ, m) <==> i <= m < j {
      if m >= j && j < |zs| {
        assert zs[j] <= zs[m];
      }
      if m < i {
        assert zs[m] < minZ;
      }
      if i <= m < j {
        assert zs[i] <= zs[m];
      }
    }
  }

  // ---------------------------------------------------------------------------
  // Render colour
  // ---------------------------------------------------------------------------

  datatype Rgba = Rgba(r: real, g: real, b: real, a: real)

  const SelectedColor: Rgba := Rgba(0.0, 1.0, 0.0, 1.0)
  const HoverColor: Rgba := Rgba(0.4, 0.9, 0.1, 1.0)
  const OutsideColor: Rgba := Rgba(0.0, 0.38, 0.8, 1.0)
  const SelectedOutsideColor: Rgba := Rgba(0.19, 0.58, 1.0, 1.0)

  datatype VolumeState = VolumeState(
    selected: bool, hover: bool, isOutside: bool, outsideDetection: bool, color: Rgba)

  /** GLVolume::set_render_color(): selection first (in its outside variant
      when outside the bed), then hover, then the outside colour when
      outside-printer detection is on, else the volume's own colour. */
  function RenderColor(s: VolumeState): (c: Rgba)
    ensures s.selected ==> c == (if s.isOutside then SelectedOutsideColor else SelectedColor)
    ensures !s.selected && s.hover ==> c == HoverColor
    ensures !s.selected && !s.hover && s.isOutside && s.outsideDetection ==> c == OutsideColor
    ensures !s.selected && !s.hover && !(s.isOutside && s.outsideDetection) ==> c == s.color
  {
    if s.selected then (if s.isOutside then SelectedOutsideColor else SelectedColor)
    else if s.hover then HoverColor
    else if s.isOutside && s.outsideDetection then OutsideColor
    else s.color
  }

  /** The volume's own colour shows only when no state overrides it; a
      higher-priority state hides the lower ones. */
  lemma RenderColorPriority(s: VolumeState, c: Rgba)
    ensures RenderColor(s.(color := c)) == c || s.selected || s.hover || (s.isOutside && s.outsideDetection)
    ensures s.selected ==> RenderColor(s.(hover := !s.hover)) == RenderColor(s)
    ensures s.selected || s.hover ==> RenderColor(s.(outsideDetection := !s.outsideDetection)) == RenderColor(s)
  {
  }
}
