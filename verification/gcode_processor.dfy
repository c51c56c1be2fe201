/** The move interpretation of the G-code processor
    (src/libslic3r/GCode/GCodeProcessor.cpp): resolving axis words into
    positions, classifying a G1 displacement, G92 origin shifts, the fan and
    flow overrides, tool changes, and the per-machine option accessors.
    Floats are reals; the time estimator (trapezoids, jerk, acceleration) is
    not modelled, nor is the parsing of G-code text into lines. */
module GCodeProcessor {
  import opened Wrappers

  // ---------------------------------------------------------------------------
  // Per-machine option values
  // ---------------------------------------------------------------------------

  /** get_option_value: 0 for an empty option, the id-th value when there is
      one, otherwise the last value. */
  function GetOptionValue(values: seq<real>, id: nat): (v: real)
    ensures values == [] ==> v == 0.0
    ensures values != [] ==> v in values
    ensures id < |values| ==> v == values[id]
    ensures values != [] && id >= |values| ==> v == values[|values| - 1]
  {
    if values == [] then 0.0
    else if id < |values| then values[id]
    else values[|values| - 1]
  }

  /** set_option_value: overwrite the id-th value; an id out of range is
      ignored. */
  function SetOptionValue(values: seq<real>, id: nat, value: real): (r: seq<real>)
    ensures |r| == |values|
    ensures forall i :: 0 <= i < |values| && i != id ==> r[i] == values[i]
    ensures id >= |values| ==> r == values
  {
    if id < |values| then values[id := value] else values
  }

  /** A value set in range is read back; reading another id sees what it saw
      before. */
  lemma OptionGetAfterSet(values: seq<real>, id: nat, value: real, other: nat)
    ensures id < |values| ==> GetOptionValue(SetOptionValue(values, id, value), id) == value
    ensures other != id && other < |values| ==>
      GetOptionValue(SetOptionValue(values, id, value), other) == GetOptionValue(values, other)
  {
  }

  // ---------------------------------------------------------------------------
  // Processor state
  // ---------------------------------------------------------------------------

  const InchesToMm: real := 25.4
  const MmMinToMmSec: real := 1.0 / 60.0

  datatype Axis = X | Y | Z | E

  /** A coordinate per axis. */
  datatype Axes = Axes(x: real, y: real, z: real, e: real)
  {
    function Get(a: Axis): real
    {
      match a
      case X => x
      case Y => y
      case Z => z
      case E => e
    }
  }

  const Zero: Axes := Axes(0.0, 0.0, 0.0, 0.0)

  datatype Units = Millimeters | Inches
  datatype Positioning = Absolute | Relative

  datatype MoveType = Noop | Retract | Unretract | ToolChange | ColorChange | PausePrint | CustomGCode | Travel | Extrude

  /** The extrusion roles run from erNone (0) to erMixed (14); erCustom is
      13. */
  const RoleNone: int := 0
  const RoleCustom: int := 13
  const RoleMixed: int := 14

  predicate IsValidExtrusionRole(role: int)
  {
    RoleNone <= role <= RoleMixed
  }

  /** A stored move: the tool position (with the extruder offset), the
      extruder delta and the state it was made in. */
  datatype Move = Move(kind: MoveType, role: int, x: real, y: real, z: real, deltaExtruder: real,
                       feedrate: real, width: real, height: real, fanSpeed: real, extruderId: nat)

  datatype State = State(units: Units, globalPositioning: Positioning, eLocalPositioning: Positioning,
                         start: Axes, end: Axes, origin: Axes,
                         feedrate: real, width: real, height: real, fanSpeed: real,
                         role: int, extruderId: nat, extruderOffsets: seq<(real, real)>,
                         extrudeFactorOverride: real, moves: seq<Move>)

  /** The active extruder has an offset. */
  predicate Valid(s: State)
  {
    s.extruderId < |s.extruderOffsets|
  }

  /** reset: millimetres, absolute positioning, everything at zero and one
      extruder without offset. */
  function Reset(): (s: State)
    ensures Valid(s) && s.moves == []
  {
    State(Millimeters, Absolute, Absolute, Zero, Zero, Zero, 0.0, 0.0, 0.0, 0.0, RoleNone, 0, [(0.0, 0.0)], 1.0, [])
  }

  function ScaleFactor(s: State): real
  {
    if s.units == Inches then InchesToMm else 1.0
  }

  /** store_move_vertex: append a move at the end position, shifted by the
      active extruder's offset. */
  function StoreMove(s: State, kind: MoveType): (r: State)
    requires Valid(s)
    ensures Valid(r)
    ensures r == s.(moves := r.moves)
    ensures |r.moves| == |s.moves| + 1 && r.moves[..|s.moves|] == s.moves
    ensures var m := r.moves[|s.moves|];
      m.kind == kind && m.extruderId == s.extruderId && m.deltaExtruder == s.end.e - s.start.e
      && m.z == s.end.z
  {
    var (ox, oy) := s.extruderOffsets[s.extruderId];
    var m := Move(kind, s.role, s.end.x + ox, s.end.y + oy, s.end.z, s.end.e - s.start.e,
                  s.feedrate, s.width, s.height, s.fanSpeed, s.extruderId);
    s.(moves := s.moves + [m])
  }

  // ---------------------------------------------------------------------------
  // G1
  // ---------------------------------------------------------------------------

  /** The axis words and the feedrate of a line, and whether it names an axis
      the processor does not know. */
  datatype Line = Line(x: Option<real>, y: Option<real>, z: Option<real>, e: Option<real>, f: Option<real>,
                       unknownAxis: bool)
  {
    function Word(a: Axis): Option<real>
    {
      match a
      case X => x
      case Y => y
      case Z => z
      case E => e
    }
  }

  /** Whether an axis moves relatively: the global mode, or for E also the
      extruder's own mode. */
  predicate IsRelative(s: State, a: Axis)
  {
    s.globalPositioning == Relative || (a == E && s.eLocalPositioning == Relative)
  }

  /** absolute_position: a given word is scaled to millimetres and taken from
      the start position in relative mode or from the origin in absolute mode;
      a missing word keeps the start position. */
  function AbsolutePosition(s: State, a: Axis, line: Line): (p: real)
    ensures line.Word(a).None? ==> p == s.start.Get(a)
    ensures line.Word(a).Some? && IsRelative(s, a) ==> p - s.start.Get(a) == line.Word(a).value * ScaleFactor(s)
    ensures line.Word(a).Some? && !IsRelative(s, a) ==> p - s.origin.Get(a) == line.Word(a).value * ScaleFactor(s)
  {
    match line.Word(a)
    case None => s.start.Get(a)
    case Some(v) =>
      var ret := v * ScaleFactor(s);
      if IsRelative(s, a) then s.start.Get(a) + ret else s.origin.Get(a) + ret
  }

  /** The move type of a displacement, with the width and height it leaves.
      With `viewerAsState` (the ENABLE_GCODE_VIEWER_AS_STATE build) an
      extrusion without width or height becomes a travel and, unless the role
      is custom, sets both to 0.5; without it an extrusion with no width, no
      height or an invalid role becomes a travel. */
  function ClassifyMove(d: Axes, width: real, height: real, role: int, viewerAsState: bool): (r: (MoveType, real, real))
    ensures r.0 in {Noop, Retract, Unretract, Travel, Extrude}
    ensures r.0 == Extrude ==> d.e > 0.0 && (d.x != 0.0 || d.y != 0.0) && width != 0.0 && height != 0.0
    ensures r.0 == Retract <==> d.e < 0.0 && d.x == 0.0 && d.y == 0.0 && d.z == 0.0
    ensures r.0 == Unretract <==> d.e > 0.0 && d.x == 0.0 && d.y == 0.0 && d.z == 0.0
    ensures (r.1, r.2) != (width, height) ==> viewerAsState && role != RoleCustom && r.0 == Travel
  {
    var t :=
      if d.e < 0.0 then
        (if d.x != 0.0 || d.y != 0.0 || d.z != 0.0 then Travel else Retract)
      else if d.e > 0.0 then
        (if d.x == 0.0 && d.y == 0.0 && d.z == 0.0 then Unretract
         else if d.x != 0.0 || d.y != 0.0 then Extrude
         else Noop)
      else if d.x != 0.0 || d.y != 0.0 || d.z != 0.0 then Travel
      else Noop;
    if viewerAsState then
      if t == Extrude && (width == 0.0 || height == 0.0) then
        if role != RoleCustom then (Travel, 0.5, 0.5) else (Travel, width, height)
      else (t, width, height)
    else
      if t == Extrude && (width == 0.0 || height == 0.0 || !IsValidExtrusionRole(role)) then (Travel, width, height)
      else (t, width, height)
  }

  /** A displacement is classified as nothing only when it is none at all or
      when the extruder pushes during a purely vertical move; a travel is a
      move without extrusion or a rejected extrusion. */
  lemma ClassifyMoveCases(d: Axes, width: real, height: real, role: int, viewerAsState: bool)
    ensures var t := ClassifyMove(d, width, height, role, viewerAsState).0;
      (t == Noop <==> d == Zero || (d.e > 0.0 && d.x == 0.0 && d.y == 0.0 && d.z != 0.0))
      && (d.e == 0.0 && (d.x != 0.0 || d.y != 0.0 || d.z != 0.0) ==> t == Travel)
      && (d.e < 0.0 && (d.x != 0.0 || d.y != 0.0 || d.z != 0.0) ==> t == Travel)
      && ((d.e > 0.0 && (d.x != 0.0 || d.y != 0.0) && width != 0.0 && height != 0.0
           && (viewerAsState || IsValidExtrusionRole(role))) ==> t == Extrude)
  {
  }

  function Delta(s: State): Axes
  {
    Axes(s.end.x - s.start.x, s.end.y - s.start.y, s.end.z - s.start.z, s.end.e - s.start.e)
  }

  /** process_G1 (and G0): resolve every axis, take a given feedrate, and
      store one classified move unless nothing moved. */
  function ProcessG1(s: State, line: Line, viewerAsState: bool): (r: State)
    requires Valid(s)
    ensures Valid(r)
    ensures forall a :: r.end.Get(a) == AbsolutePosition(s, a, line)
    ensures line.f.Some? ==> r.feedrate == line.f.value * MmMinToMmSec
    ensures line.f.None? ==> r.feedrate == s.feedrate
    ensures Delta(r) == Zero ==> r.moves == s.moves
    ensures Delta(r) != Zero ==>
      |r.moves| == |s.moves| + 1 && r.moves[..|s.moves|] == s.moves
      && r.moves[|s.moves|].kind == ClassifyMove(Delta(r), s.width, s.height, s.role, viewerAsState).0
    ensures r.start == s.start && r.origin == s.origin && r.extruderId == s.extruderId
  {
    var end := Axes(AbsolutePosition(s, X, line), AbsolutePosition(s, Y, line),
                    AbsolutePosition(s, Z, line), AbsolutePosition(s, E, line));
    var feedrate := if line.f.Some? then line.f.value * MmMinToMmSec else s.feedrate;
    var s1 := s.(end := end, feedrate := feedrate);
    var d := Delta(s1);
    if d == Zero then s1
    else
      var (t, w, h) := ClassifyMove(d, s.width, s.height, s.role, viewerAsState);
      StoreMove(s1.(width := w, height := h), t)
  }

  // ---------------------------------------------------------------------------
  // G92
  // ---------------------------------------------------------------------------

  /** process_G92: each given X, Y, Z word moves the origin so that the end
      position reads as the word; an E word sets the extruder position; a line
      with no word at all (and no unknown axis) makes the end position the
      origin of every axis. */
  function ProcessG92(s: State, line: Line): (r: State)
    ensures r == s.(origin := r.origin, end := r.end)
    ensures forall a :: a != E && line.Word(a).Some? ==>
      r.origin.Get(a) == s.end.Get(a) - line.Word(a).value * ScaleFactor(s)
    ensures line.e.Some? ==> r.end == s.end.(e := line.e.value * ScaleFactor(s))
    ensures line.e.None? ==> r.end == s.end
    ensures line.x.None? && line.y.None? && line.z.None? && line.e.None? && !line.unknownAxis ==> r.origin == s.end
    ensures (line.x.Some? || line.y.Some? || line.z.Some? || line.e.Some? || line.unknownAxis) ==>
      forall a :: line.Word(a).None? ==> r.origin.Get(a) == s.origin.Get(a)
  {
    var k := ScaleFactor(s);
    var ox := if line.x.Some? then s.end.x - line.x.value * k else s.origin.x;
    var oy := if line.y.Some? then s.end.y - line.y.value * k else s.origin.y;
    var oz := if line.z.Some? then s.end.z - line.z.value * k else s.origin.z;
    var end := if line.e.Some? then s.end.(e := line.e.value * k) else s.end;
    var anyFound := line.x.Some? || line.y.Some? || line.z.Some? || line.e.Some?;
    if !anyFound && !line.unknownAxis then s.(origin := end)
    else s.(origin := Axes(ox, oy, oz, s.origin.e), end := end)
  }

  /** process_gcode_line starts every line at the previous line's end. */
  function BeginLine(s: State): (r: State)
    ensures r.start == s.end && r == s.(start := r.start)
  {
    s.(start := s.end)
  }

  /** After "G92 X v" an absolute "G1 X v" in the same units stays where it
      is: it stores no move. */
  lemma G92ThenG1StaysPut(s: State, v: real, viewerAsState: bool)
    requires Valid(s) && s.globalPositioning == Absolute
    ensures var s1 := BeginLine(ProcessG92(BeginLine(s), Line(Some(v), None, None, None, None, false)));
      var s2 := ProcessG1(s1, Line(Some(v), None, None, None, None, false), viewerAsState);
      s2.end == s1.end && s2.moves == s.moves
  {
    var s1 := BeginLine(ProcessG92(BeginLine(s), Line(Some(v), None, None, None, None, false)));
    var line := Line(Some(v), None, None, None, None, false);
    assert s1.origin.x == s1.end.x - v * ScaleFactor(s1);
    assert AbsolutePosition(s1, X, line) == s1.end.x;
    var s2 := ProcessG1(s1, line, viewerAsState);
    assert s2.end == Axes(s2.end.Get(X), s2.end.Get(Y), s2.end.Get(Z), s2.end.Get(E));
  }

  // ---------------------------------------------------------------------------
  // Fan, flow and tools
  // ---------------------------------------------------------------------------

  /** process_M106: without a P word (the print cooling fan) the speed is S
      scaled from 0..255 to percent, or full speed without S; with P nothing
      changes. */
  function ProcessM106(s: State, hasP: bool, speed: Option<real>): (r: State)
    ensures r == s.(fanSpeed := r.fanSpeed)
    ensures hasP ==> r == s
    ensures !hasP && speed.None? ==> r.fanSpeed == 100.0
    ensures !hasP && speed.Some? ==> r.fanSpeed * 255.0 == 100.0 * speed.value
  {
    if hasP then s
    else if speed.Some? then s.(fanSpeed := (100.0 / 255.0) * speed.value)
    else s.(fanSpeed := 100.0)
  }

  /** A full-scale S (255) is full speed, like an M106 without S. */
  lemma M106FullScale(s: State)
    ensures ProcessM106(s, false, Some(255.0)).fanSpeed == ProcessM106(s, false, None).fanSpeed
  {
  }

  /** process_M107: the fan stops. */
  function ProcessM107(s: State): (r: State)
    ensures r == s.(fanSpeed := 0.0)
  {
    s.(fanSpeed := 0.0)
  }

  /** process_M132: each given axis has its origin reset to zero. */
  function ProcessM132(s: State, line: Line): (r: State)
    ensures r == s.(origin := r.origin)
    ensures forall a :: line.Word(a).Some? ==> r.origin.Get(a) == 0.0
    ensures forall a :: line.Word(a).None? ==> r.origin.Get(a) == s.origin.Get(a)
  {
    var o := s.origin;
    s.(origin := Axes(if line.x.Some? then 0.0 else o.x, if line.y.Some? then 0.0 else o.y,
                      if line.z.Some? then 0.0 else o.z, if line.e.Some? then 0.0 else o.e))
  }

  /** After M132 names X, an absolute G1 X v goes to v in millimetres,
      whatever the origin was. */
  lemma M132ThenAbsoluteMove(s: State, line: Line, v: real, viewerAsState: bool)
    requires Valid(s) && s.globalPositioning == Absolute && line.x.Some?
    ensures ProcessG1(ProcessM132(s, line), Line(Some(v), None, None, None, None, false), viewerAsState).end.x
      == v * ScaleFactor(s)
  {
    var s1 := ProcessM132(s, line);
    assert AbsolutePosition(s1, X, Line(Some(v), None, None, None, None, false)) == v * ScaleFactor(s);
  }

  /** process_M221: an S word without a T word sets the extrusion override
      of every machine to S percent. */
  function ProcessM221(s: State, speed: Option<real>, tool: Option<real>): (r: State)
    ensures r == s.(extrudeFactorOverride := r.extrudeFactorOverride)
    ensures speed.Some? && tool.None? ==> r.extrudeFactorOverride * 100.0 == speed.value
    ensures speed.None? || tool.Some? ==> r == s
  {
    if speed.Some? && tool.None? then s.(extrudeFactorOverride := speed.value * 0.01) else s
  }

  /** The cast of a std::stoi result to unsigned char. */
  function ToByte(v: int): (b: nat)
    ensures b < 256
    ensures 0 <= v < 256 ==> b == v
  {
    v % 256
  }

  /** process_T: a command longer than one character is parsed after the
      "T" (`parseInt` stands for std::stoi, None when it throws). A different
      tool within the extruder count becomes active; an unknown tool only
      logs an error; either way a different tool stores a tool-change move. */
  function ProcessT(s: State, command: string, parseInt: string -> Option<int>): (r: State)
    requires Valid(s)
    ensures Valid(r)
    ensures r.extruderOffsets == s.extruderOffsets
    ensures r.moves == s.moves || (|r.moves| == |s.moves| + 1 && r.moves[..|s.moves|] == s.moves
                                   && r.moves[|s.moves|].kind == ToolChange)
    ensures r.extruderId != s.extruderId ==>
      |command| > 1 && parseInt(command[1..]).Some? && r.extruderId == ToByte(parseInt(command[1..]).value)
      && r.extruderId < |s.extruderOffsets| % 256
  {
    if |command| <= 1 then s
    else
      match parseInt(command[1..])
      case None => s
      case Some(v) =>
        var id := ToByte(v);
        if s.extruderId == id then s
        else
          var count := |s.extruderOffsets| % 256;
          var s1 := if id >= count then s else s.(extruderId := id);
          StoreMove(s1, ToolChange)
  }

  /** A tool number at or beyond the extruder count keeps the active
      extruder but still stores a tool-change move; a valid different one is
      activated. */
  lemma ProcessTCases(s: State, command: string, parseInt: string -> Option<int>)
    requires Valid(s) && |command| > 1 && parseInt(command[1..]).Some?
    ensures var id := ToByte(parseInt(command[1..]).value);
      var r := ProcessT(s, command, parseInt);
      (id == s.extruderId ==> r == s)
      && (id != s.extruderId && id >= |s.extruderOffsets| % 256 ==>
            r.extruderId == s.extruderId && |r.moves| == |s.moves| + 1)
      && (id != s.extruderId && id < |s.extruderOffsets| % 256 ==>
            r.extruderId == id && |r.moves| == |s.moves| + 1 && r.moves[|s.moves|].extruderId == id)
  {
  }

  // ---------------------------------------------------------------------------
  // Dispatch
  // ---------------------------------------------------------------------------

  /** The commands of the model. */
  datatype Command =
    | G1(line: Line)
    | G92(line: Line)
    | G10 | G11 | G20 | G21 | G22 | G23 | G90 | G91 | M82 | M83
    | M132(line: Line)
    | M106(hasP: bool, speed: Option<real>)
    | M107
    | M221(speed: Option<real>, tool: Option<real>)
    | T(command: string)

  /** process_gcode_line for the modelled commands: the start position
      becomes the previous end, then the command runs. */
  function ProcessLine(s: State, c: Command, parseInt: string -> Option<int>, viewerAsState: bool): (r: State)
    requires Valid(s)
    ensures Valid(r)
    ensures r.start == s.end
    ensures |s.moves| <= |r.moves| <= |s.moves| + 1 && r.moves[..|s.moves|] == s.moves
  {
    var s0 := BeginLine(s);
    match c
    case G1(line) => ProcessG1(s0, line, viewerAsState)
    case G92(line) => ProcessG92(s0, line)
    case G10 => StoreMove(s0, Retract)
    case G11 => StoreMove(s0, Unretract)
    case G20 => s0.(units := Inches)
    case G21 => s0.(units := Millimeters)
    case G22 => StoreMove(s0, Retract)
    case G23 => StoreMove(s0, Unretract)
    case G90 => s0.(globalPositioning := Absolute)
    case G91 => s0.(globalPositioning := Relative)
    case M82 => s0.(eLocalPositioning := Absolute)
    case M83 => s0.(eLocalPositioning := Relative)
    case M106(hasP, speed) => ProcessM106(s0, hasP, speed)
    case M107 => ProcessM107(s0)
    case M132(line) => ProcessM132(s0, line)
    case M221(speed, tool) => ProcessM221(s0, speed, tool)
    case T(command) => ProcessT(s0, command, parseInt)
  }

  /** Processing a whole program keeps the active extruder valid and only
      ever appends moves, at most one per line. */
  function ProcessAll(s: State, cs: seq<Command>, parseInt: string -> Option<int>, viewerAsState: bool): (r: State)
    requires Valid(s)
    ensures Valid(r)
    ensures |s.moves| <= |r.moves| <= |s.moves| + |cs| && r.moves[..|s.moves|] == s.moves
    decreases |cs|
  {
    if cs == [] then s
    else
      var s1 := ProcessLine(s, cs[0], parseInt, viewerAsState);
      var r := ProcessAll(s1, cs[1..], parseInt, viewerAsState);
      assert r.moves[..|s.moves|] == r.moves[..|s1.moves|][..|s.moves|];
      r
  }

  /** In relative mode the stored move's extruder delta is the E word in
      millimetres. */
  lemma RelativeExtrusionDelta(s: State, line: Line, viewerAsState: bool)
    requires Valid(s) && s.eLocalPositioning == Relative && line.e.Some? && line.e.value != 0.0
    ensures var r := ProcessG1(s, line, viewerAsState);
      |r.moves| == |s.moves| + 1 && r.moves[|s.moves|].deltaExtruder == line.e.value * ScaleFactor(s)
  {
    var r := ProcessG1(s, line, viewerAsState);
    assert r.end.Get(E) == AbsolutePosition(s, E, line);
    assert Delta(r).e != 0.0;
  }
}
