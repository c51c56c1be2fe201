/** The data-side helpers of the G-code preview
    (src/slic3r/GUI/GCodeViewer.cpp): the mapping between move types and
    render buffers, the visibility flags word, and the post-processing of a
    loaded result (merging near-equal layer heights, de-duplicating roles and
    extruder ids). Rendering is left out. */
module GCodeViewer {
  import opened Sorting
  import opened ZMerge

  // ---------------------------------------------------------------------------
  // Move types and buffers
  // ---------------------------------------------------------------------------

  /** GCodeProcessor::EMoveType, an unsigned char enumeration. */
  datatype MoveType = Noop | Retract | Unretract | ToolChange | ColorChange | PausePrint
                    | CustomGCode | Travel | Extrude | Count

  function Code(t: MoveType): (c: nat)
    ensures c <= 9
  {
    match t
    case Noop => 0 case Retract => 1 case Unretract => 2 case ToolChange => 3
    case ColorChange => 4 case PausePrint => 5 case CustomGCode => 6 case Travel => 7
    case Extrude => 8 case Count => 9
  }

  /** There is one render buffer per move type from Retract to Extrude. */
  const BufferCount: nat := 8

  /** buffer_id: the move type minus Retract, as an unsigned char (so Noop
      wraps round to 255). */
  function BufferId(t: MoveType): (id: nat)
    ensures id < 256
    ensures t != Noop ==> id == Code(t) - 1
    ensures id < BufferCount <==> t != Noop && t != Count
  {
    (Code(t) - Code(Retract)) % 256
  }

  /** buffer_type: Retract plus the id, as an unsigned char; the code of the
      move type. */
  function BufferType(id: nat): (code: nat)
    requires id < 256
    ensures code < 256
  {
    (Code(Retract) + id) % 256
  }

  /** buffer_type undoes buffer_id for every move type, and buffer_id undoes
      buffer_type for every buffer. */
  lemma BufferIdRoundTrip(t: MoveType, id: nat)
    requires id < BufferCount
    ensures BufferType(BufferId(t)) == Code(t)
    ensures exists u :: Code(u) == BufferType(id) && BufferId(u) == id
  {
    var u := BufferMoveType(id);
  }

  /** The move type a buffer renders. */
  function BufferMoveType(id: nat): (u: MoveType)
    requires id < BufferCount
    ensures Code(u) == BufferType(id) && BufferId(u) == id
  {
    match id
    case 0 => Retract case 1 => Unretract case 2 => ToolChange case 3 => ColorChange
    case 4 => PausePrint case 5 => CustomGCode case 6 => Travel case _ => Extrude
  }

  // ---------------------------------------------------------------------------
  // Visibility
  // ---------------------------------------------------------------------------

  /** The visibility state the flags word covers. */
  datatype Visibility = Visibility(
    buffers: seq<bool>, shells: bool, marker: bool, legend: bool, timeEstimate: bool)

  /** is_toolpath_move_type_visible: false for a type without a buffer. */
  function IsVisible(v: Visibility, t: MoveType): (r: bool)
    ensures r ==> BufferId(t) < |v.buffers|
    ensures BufferId(t) < |v.buffers| ==> r == v.buffers[BufferId(t)]
  {
    var id := BufferId(t);
    if id < |v.buffers| then v.buffers[id] else false
  }

  /** set_toolpath_move_type_visible: a type without a buffer changes
      nothing. */
  function SetVisible(v: Visibility, t: MoveType, visible: bool): (r: Visibility)
    ensures |r.buffers| == |v.buffers|
    ensures BufferId(t) >= |v.buffers| ==> r == v
    ensures BufferId(t) < |v.buffers| ==> IsVisible(r, t) == visible
    ensures forall u :: BufferId(u) != BufferId(t) ==> IsVisible(r, u) == IsVisible(v, u)
    ensures r.shells == v.shells && r.marker == v.marker && r.legend == v.legend && r.timeEstimate == v.timeEstimate
  {
    var id := BufferId(t);
    if id < |v.buffers| then v.(buffers := v.buffers[id := visible]) else v
  }

  /** Preview::OptionType, the bit positions of the flags word, in their
      declaration order. */
  datatype OptionType = OptTravel | OptRetractions | OptUnretractions | OptToolChanges | OptColorChanges
                      | OptPausePrints | OptCustomGCodes | OptShells | OptToolMarker | OptLegend | OptTimeEstimate

  function Bit(o: OptionType): (b: nat)
    ensures b < 11
  {
    match o
    case OptTravel => 0 case OptRetractions => 1 case OptUnretractions => 2 case OptToolChanges => 3
    case OptColorChanges => 4 case OptPausePrints => 5 case OptCustomGCodes => 6 case OptShells => 7
    case OptToolMarker => 8 case OptLegend => 9 case OptTimeEstimate => 10
  }

  /** A flags word, as the set of its bit positions that are 1: `flags | (1 <<
      b)` adds `b`, and `flags & (1 << b) != 0` tests for it. */
  type Flags = set<nat>

  /** The bits get_options_visibility_flags can set. */
  const UsedBits: Flags := set b: nat | b < 11

  /** The part of the visibility state an option stands for. */
  datatype Target = BufferOf(t: MoveType) | ShellsTarget | MarkerTarget | LegendTarget | TimeEstimateTarget

  function TargetOf(o: OptionType): Target
  {
    match o
    case OptTravel => BufferOf(Travel) case OptRetractions => BufferOf(Retract)
    case OptUnretractions => BufferOf(Unretract) case OptToolChanges => BufferOf(ToolChange)
    case OptColorChanges => BufferOf(ColorChange) case OptPausePrints => BufferOf(PausePrint)
    case OptCustomGCodes => BufferOf(CustomGCode) case OptShells => ShellsTarget
    case OptToolMarker => MarkerTarget case OptLegend => LegendTarget
    case OptTimeEstimate => TimeEstimateTarget
  }

  /** The options in the order both functions handle them. */
  const Options: seq<OptionType> := [
    OptTravel, OptRetractions, OptUnretractions, OptToolChanges, OptColorChanges, OptPausePrints,
    OptCustomGCodes, OptShells, OptToolMarker, OptLegend, OptTimeEstimate]

  /** Whether the part an option stands for is visible. */
  function Current(v: Visibility, o: OptionType): bool
  {
    match TargetOf(o)
    case BufferOf(t) => IsVisible(v, t)
    case ShellsTarget => v.shells
    case MarkerTarget => v.marker
    case LegendTarget => v.legend
    case TimeEstimateTarget => v.timeEstimate
  }

  /** Set the part an option stands for. */
  function Assign(v: Visibility, o: OptionType, visible: bool): (r: Visibility)
    ensures |r.buffers| == |v.buffers|
    ensures forall k :: 7 <= k < |v.buffers| ==> r.buffers[k] == v.buffers[k]
  {
    match TargetOf(o)
    case BufferOf(t) => SetVisible(v, t, visible)
    case ShellsTarget => v.(shells := visible)
    case MarkerTarget => v.(marker := visible)
    case LegendTarget => v.(legend := visible)
    case TimeEstimateTarget => v.(timeEstimate := visible)
  }

  /** Options whose part exists in the state: all but buffers past the end. */
  predicate HasPart(v: Visibility, o: OptionType)
  {
    TargetOf(o).BufferOf? ==> BufferId(TargetOf(o).t) < |v.buffers|
  }

  /** Setting one option's part leaves every other option's part alone. */
  lemma AssignCurrent(v: Visibility, o: OptionType, visible: bool, p: OptionType)
    ensures Current(Assign(v, o, visible), p)
         == if p != o then Current(v, p) else if HasPart(v, o) then visible else Current(v, o)
  {
    if p != o {
      AssignOther(v, o, visible, p);
    } else {
      AssignSame(v, o, visible);
    }
  }

  lemma AssignSame(v: Visibility, o: OptionType, visible: bool)
    ensures Current(Assign(v, o, visible), o) == if HasPart(v, o) then visible else Current(v, o)
  {
  }

  lemma AssignOther(v: Visibility, o: OptionType, visible: bool, p: OptionType)
    requires p != o
    ensures Current(Assign(v, o, visible), p) == Current(v, p)
  {
    TargetInverse(o);
    TargetInverse(p);
    if TargetOf(o).BufferOf? && TargetOf(p).BufferOf? {
      var t, u := TargetOf(o).t, TargetOf(p).t;
      assert t != u;
      CodeInverse(t);
      CodeInverse(u);
      assert BufferId(u) != BufferId(t);
    }
  }

  /** The option a part belongs to. */
  function OptionOfTarget(target: Target): OptionType
  {
    match target
    case BufferOf(t) =>
      (match t
       case Retract => OptRetractions case Unretract => OptUnretractions case ToolChange => OptToolChanges
       case ColorChange => OptColorChanges case PausePrint => OptPausePrints
       case CustomGCode => OptCustomGCodes case _ => OptTravel)
    case ShellsTarget => OptShells
    case MarkerTarget => OptToolMarker
    case LegendTarget => OptLegend
    case TimeEstimateTarget => OptTimeEstimate
  }

  /** Distinct options stand for distinct parts. */
  lemma TargetInverse(o: OptionType)
    ensures OptionOfTarget(TargetOf(o)) == o
    ensures TargetOf(o).BufferOf? ==> TargetOf(o).t != Noop && TargetOf(o).t != Count
  {
  }

  function TypeOfCode(c: nat): MoveType
  {
    match c
    case 0 => Noop case 1 => Retract case 2 => Unretract case 3 => ToolChange
    case 4 => ColorChange case 5 => PausePrint case 6 => CustomGCode case 7 => Travel
    case 8 => Extrude case _ => Count
  }

  /** Distinct move types have distinct codes. */
  lemma CodeInverse(t: MoveType)
    ensures TypeOfCode(Code(t)) == t
  {
  }

  function SetFlag(flags: Flags, o: OptionType, active: bool): Flags
  {
    if active then flags + {Bit(o)} else flags
  }

  predicate IsFlagSet(flags: Flags, o: OptionType)
  {
    Bit(o) in flags
  }

  /** The loop of get_options_visibility_flags over `opts`. */
  function CollectFlags(v: Visibility, opts: seq<OptionType>, flags: Flags): (r: Flags)
    decreases |opts|
  {
    if opts == [] then flags else CollectFlags(v, opts[1..], SetFlag(flags, opts[0], Current(v, opts[0])))
  }

  /** The bits set are those set before and those of the visible options. */
  lemma {:induction false} CollectFlagsBits(v: Visibility, opts: seq<OptionType>, flags: Flags, b: nat)
    ensures b in CollectFlags(v, opts, flags) <==>
      b in flags || exists k :: 0 <= k < |opts| && Bit(opts[k]) == b && Current(v, opts[k])
    decreases |opts|
  {
    if opts != [] {
      CollectFlagsBits(v, opts[1..], SetFlag(flags, opts[0], Current(v, opts[0])), b);
      if exists k :: 0 <= k < |opts| && Bit(opts[k]) == b && Current(v, opts[k]) {
        var k :| 0 <= k < |opts| && Bit(opts[k]) == b && Current(v, opts[k]);
        if k > 0 {
          assert opts[1..][k - 1] == opts[k];
        }
      }
      if exists k :: 0 <= k < |opts[1..]| && Bit(opts[1..][k]) == b && Current(v, opts[1..][k]) {
        var k :| 0 <= k < |opts[1..]| && Bit(opts[1..][k]) == b && Current(v, opts[1..][k]);
        assert opts[k + 1] == opts[1..][k];
      }
    }
  }

  /** get_options_visibility_flags. */
  function GetFlags(v: Visibility): (flags: Flags)
  {
    CollectFlags(v, Options, {})
  }

  /** The bit of an option is set exactly when its part is visible, and no
      other bit is set. */
  lemma GetFlagsSpec(v: Visibility)
    ensures GetFlags(v) <= UsedBits
    ensures forall o :: IsFlagSet(GetFlags(v), o) <==> Current(v, o)
  {
    GetFlagsBound(v);
    forall o ensures IsFlagSet(GetFlags(v), o) <==> Current(v, o) {
      GetFlagsAt(v, o);
    }
  }

  lemma GetFlagsBound(v: Visibility)
    ensures GetFlags(v) <= UsedBits
  {
    forall b: nat | b in GetFlags(v) ensures b < 11 {
      CollectFlagsBits(v, Options, {}, b);
    }
  }

  lemma GetFlagsAt(v: Visibility, o: OptionType)
    ensures IsFlagSet(GetFlags(v), o) <==> Current(v, o)
  {
    CollectFlagsBits(v, Options, {}, Bit(o));
    OptionsIndex(o);
    if IsFlagSet(GetFlags(v), o) {
      var k :| 0 <= k < |Options| && Bit(Options[k]) == Bit(o) && Current(v, Options[k]);
      var _ := OptionOfBit(k);
    }
  }

  /** Each option sits at its own bit in the list. */
  lemma OptionsIndex(o: OptionType)
    ensures Bit(o) < |Options| && Options[Bit(o)] == o
  {
  }

  /** No option is listed twice. */
  lemma OptionsDistinct()
    ensures forall i, j :: 0 <= i < j < |Options| ==> Options[i] != Options[j]
  {
    forall i, j | 0 <= i < j < |Options| ensures Options[i] != Options[j] {
      var _ := OptionOfBit(i);
      var _ := OptionOfBit(j);
    }
  }

  /** The option that owns a bit in use, and the one listed at that place. */
  function OptionOfBit(b: nat): (o: OptionType)
    requires b < 11
    ensures Bit(o) == b && Options[b] == o
  {
    match b
    case 0 => OptTravel case 1 => OptRetractions case 2 => OptUnretractions case 3 => OptToolChanges
    case 4 => OptColorChanges case 5 => OptPausePrints case 6 => OptCustomGCodes case 7 => OptShells
    case 8 => OptToolMarker case 9 => OptLegend case _ => OptTimeEstimate
  }

  /** The loop of set_options_visibility_from_flags over `opts`. */
  function ApplyFlags(v: Visibility, flags: Flags, opts: seq<OptionType>): (r: Visibility)
    ensures |r.buffers| == |v.buffers|
    ensures forall k :: 7 <= k < |v.buffers| ==> r.buffers[k] == v.buffers[k]
    decreases |opts|
  {
    if opts == [] then v else ApplyFlags(Assign(v, opts[0], IsFlagSet(flags, opts[0])), flags, opts[1..])
  }

  /** After applying, an option listed once has its part set from its bit
      (where the part exists); an unlisted option is unchanged. */
  lemma {:induction false} ApplyFlagsCurrent(v: Visibility, flags: Flags, opts: seq<OptionType>, o: OptionType)
    requires forall i, j :: 0 <= i < j < |opts| ==> opts[i] != opts[j]
    ensures Current(ApplyFlags(v, flags, opts), o)
         == if o in opts && HasPart(v, o) then IsFlagSet(flags, o) else Current(v, o)
    decreases |opts|
  {
    if opts != [] {
      var w := Assign(v, opts[0], IsFlagSet(flags, opts[0]));
      DistinctTail(opts);
      ApplyFlagsCurrent(w, flags, opts[1..], o);
      AssignCurrent(v, opts[0], IsFlagSet(flags, opts[0]), o);
      assert HasPart(w, o) == HasPart(v, o);
    }
  }

  /** The tail of a list without repetitions has none, misses the head, and
      holds every other member of the list. */
  lemma DistinctTail<T>(xs: seq<T>)
    requires xs != [] && forall i, j :: 0 <= i < j < |xs| ==> xs[i] != xs[j]
    ensures forall i, j :: 0 <= i < j < |xs[1..]| ==> xs[1..][i] != xs[1..][j]
    ensures xs[0] !in xs[1..]
    ensures forall x :: x != xs[0] ==> (x in xs <==> x in xs[1..])
  {
    forall i, j | 0 <= i < j < |xs[1..]| ensures xs[1..][i] != xs[1..][j] {
      assert xs[1..][i] == xs[i + 1] && xs[1..][j] == xs[j + 1];
    }
    forall j | 0 <= j < |xs[1..]| ensures xs[1..][j] != xs[0] {
      assert xs[1..][j] == xs[j + 1];
    }
    assert xs == [xs[0]] + xs[1..];
  }

  /** set_options_visibility_from_flags. */
  function SetFromFlags(v: Visibility, flags: Flags): (r: Visibility)
    ensures |r.buffers| == |v.buffers|
    ensures forall k :: 7 <= k < |v.buffers| ==> r.buffers[k] == v.buffers[k]
  {
    ApplyFlags(v, flags, Options)
  }

  lemma SetFromFlagsSpec(v: Visibility, flags: Flags)
    ensures forall o :: Current(SetFromFlags(v, flags), o) == if HasPart(v, o) then IsFlagSet(flags, o) else Current(v, o)
  {
    forall o ensures Current(SetFromFlags(v, flags), o) == if HasPart(v, o) then IsFlagSet(flags, o) else Current(v, o) {
      SetFromFlagsAt(v, flags, o);
    }
  }

  lemma SetFromFlagsAt(v: Visibility, flags: Flags, o: OptionType)
    ensures Current(SetFromFlags(v, flags), o) == if HasPart(v, o) then IsFlagSet(flags, o) else Current(v, o)
  {
    OptionsDistinct();
    OptionsIndex(o);
    ApplyFlagsCurrent(v, flags, Options, o);
  }

  /** The option standing for each of the first seven buffers. */
  function BufferOption(k: nat): (o: OptionType)
    requires k < 7
    ensures TargetOf(o).BufferOf? && BufferId(TargetOf(o).t) == k
  {
    match k
    case 0 => OptRetractions case 1 => OptUnretractions case 2 => OptToolChanges
    case 3 => OptColorChanges case 4 => OptPausePrints case 5 => OptCustomGCodes case _ => OptTravel
  }

  /** Two states agreeing on every option and on the buffers past the
      seventh are equal. */
  lemma VisibilityExtensional(v: Visibility, w: Visibility)
    requires |v.buffers| == |w.buffers|
    requires forall o :: Current(v, o) == Current(w, o)
    requires forall k :: 7 <= k < |v.buffers| ==> v.buffers[k] == w.buffers[k]
    ensures v == w
  {
    forall k | 0 <= k < |v.buffers| ensures v.buffers[k] == w.buffers[k] {
      if k < 7 {
        assert Current(v, BufferOption(k)) == Current(w, BufferOption(k));
      }
    }
    assert Current(v, OptShells) == Current(w, OptShells);
    assert Current(v, OptToolMarker) == Current(w, OptToolMarker);
    assert Current(v, OptLegend) == Current(w, OptLegend);
    assert Current(v, OptTimeEstimate) == Current(w, OptTimeEstimate);
  }

  /** Restoring the flags a state produced gives back that state. */
  lemma FlagsRoundTrip(v: Visibility)
    ensures SetFromFlags(v, GetFlags(v)) == v
  {
    GetFlagsSpec(v);
    SetFromFlagsSpec(v, GetFlags(v));
    VisibilityExtensional(SetFromFlags(v, GetFlags(v)), v);
  }

  /** Reading back the flags just applied gives them back, cut to the bits in
      use, when every option has its buffer. */
  lemma FlagsRoundTripFromFlags(v: Visibility, flags: Flags)
    requires |v.buffers| >= 7
    ensures GetFlags(SetFromFlags(v, flags)) == flags * UsedBits
  {
    forall b: nat ensures b in GetFlags(SetFromFlags(v, flags)) <==> b in flags * UsedBits {
      FlagBitRoundTrip(v, flags, b);
    }
  }

  lemma FlagBitRoundTrip(v: Visibility, flags: Flags, b: nat)
    requires |v.buffers| >= 7
    ensures b in GetFlags(SetFromFlags(v, flags)) <==> b in flags * UsedBits
  {
    var r := SetFromFlags(v, flags);
    if b < 11 {
      var o := OptionOfBit(b);
      GetFlagsAt(r, o);
      SetFromFlagsAt(v, flags, o);
      EveryPartExists(v, o);
      assert b in UsedBits;
    } else {
      GetFlagsBound(r);
      assert b !in UsedBits;
    }
  }

  lemma EveryPartExists(v: Visibility, o: OptionType)
    requires |v.buffers| >= 7
    ensures HasPart(v, o)
  {
  }

  // ---------------------------------------------------------------------------
  // Layer heights
  // ---------------------------------------------------------------------------

  /** The layer heights of a loaded result (the tops of the extrusion moves):
      sorted, then each run of heights within EPSILON of its first replaced by
      its midpoint. The heights come out strictly increasing, more than
      EPSILON/2 apart, and no more numerous than the moves; each is the
      midpoint of a run of move heights, and every move height lies within
      EPSILON of one of them. */
  function MergeLayersZs(extrusionZs: seq<real>): (r: seq<real>)
    ensures |r| <= |extrusionZs|
    ensures |extrusionZs| > 0 ==> |r| > 0
    ensures SpreadApart(r)
    ensures MidpointsOf(r, extrusionZs) && Covers(r, extrusionZs)
  {
    MergeNearEqualSpread(extrusionZs);
    MergeNearEqualMeaning(extrusionZs);
    MergeNearEqual(extrusionZs)
  }

  // ---------------------------------------------------------------------------
  // Roles and extruder ids
  // ---------------------------------------------------------------------------

  /** The roles of a loaded result: every move but the first contributes its
      role; the list is then sorted and de-duplicated. */
  function LoadedRoles(moveRoles: seq<int>): (r: seq<int>)
    ensures StrictlyIncreasing(r)
    ensures forall x :: x in r <==> exists k :: 1 <= k < |moveRoles| && moveRoles[k] == x
  {
    var roles := if |moveRoles| > 0 then moveRoles[1..] else [];
    assert forall x :: x in roles <==> exists k :: 1 <= k < |moveRoles| && moveRoles[k] == x by {
      forall x ensures x in roles <==> exists k :: 1 <= k < |moveRoles| && moveRoles[k] == x {
        if x in roles {
          var m :| 0 <= m < |roles| && roles[m] == x;
          assert moveRoles[m + 1] == x;
        }
        if exists k :: 1 <= k < |moveRoles| && moveRoles[k] == x {
          var k :| 1 <= k < |moveRoles| && moveRoles[k] == x;
          assert roles[k - 1] == x;
        }
      }
    }
    SortUnique(roles)
  }

  /** The extruder ids of a loaded result: those of all moves, sorted and
      de-duplicated. */
  function LoadedExtruderIds(moveExtruders: seq<int>): (r: seq<int>)
    ensures StrictlyIncreasing(r)
    ensures forall x :: x in r <==> x in moveExtruders
    ensures |r| <= |moveExtruders|
  {
    SortUnique(moveExtruders)
  }
}
