/** Print configuration rules (xs/src/libslic3r/PrintConfig.cpp): rewriting
    of legacy keys and values read from old configuration files, normalisation
    of a dynamic configuration, the minimum object distance, and the
    spiral-vase checks of validation.

    Number parsing and printing (boost::lexical_cast between float and
    string, and the point parser) are parameters: `parse` yields None where
    the cast throws. */
module PrintConfig {
  import opened Wrappers
  import opened Strings

  // ---------------------------------------------------------------------------
  // handle_legacy
  // ---------------------------------------------------------------------------

  /** The keys of obsolete options, dropped on load. */
  const IgnoredKeys: set<string> := {
    "duplicate_x", "duplicate_y", "gcode_arcs", "multiply_x", "multiply_y",
    "support_material_tool", "acceleration", "adjust_overhang_flow",
    "standby_temperature", "scale", "rotate", "duplicate", "duplicate_grid",
    "start_perimeters_at_concave_points", "start_perimeters_at_non_overhang", "randomize_start",
    "seal_position", "vibration_limit", "bed_size", "octoprint_host",
    "print_center", "g0", "threads", "pressure_advance"}

  /** The keys that handle_legacy rewrites or whose values it rewrites. */
  const LegacyKeys: set<string> := {
    "extrusion_width_ratio", "bottom_layer_speed_ratio", "first_layer_height_ratio",
    "gcode_flavor", "fill_density", "randomize_start", "bed_size", "octoprint_host",
    "perimeter_acceleration", "infill_acceleration", "support_material_threshold"}

  /** A key and value pair from a configuration file; an empty key means the
      option is dropped. */
  datatype KeyValue = KeyValue(key: string, value: string)

  /** The conversions handle_legacy needs. */
  datatype Conversions = Conversions(
    parseFloat: string -> Option<real>,
    formatFloat: real -> string,
    parsePoint: string -> (real, real))

  /** The ratio options became absolute-or-percent options: the ratio is
      printed as a percentage, 0 stays as it is, and an unparsable ratio
      becomes "0". */
  function RatioToPercent(value: string, conv: Conversions): (r: string)
  {
    match conv.parseFloat(value)
    case None => "0"
    case Some(v) => if v != 0.0 then conv.formatFloat(v * 100.0) + "%" else value
  }

  /** The key and value after the per-key rewrites, before the ignore list and
      the lookup in the option definitions. */
  function RewriteLegacy(kv: KeyValue, conv: Conversions): (r: KeyValue)
    ensures kv.key !in LegacyKeys ==> r == kv
  {
    var k := kv.key;
    var v := kv.value;
    if k == "extrusion_width_ratio" then KeyValue("extrusion_width", RatioToPercent(v, conv))
    else if k == "bottom_layer_speed_ratio" then KeyValue("first_layer_speed", RatioToPercent(v, conv))
    else if k == "first_layer_height_ratio" then KeyValue("first_layer_height", RatioToPercent(v, conv))
    else if k == "gcode_flavor" && v == "makerbot" then KeyValue(k, "makerware")
    else if k == "fill_density" && '%' !in v then
      match conv.parseFloat(v)
      case None => kv
      case Some(f) => KeyValue(k, conv.formatFloat(f * 100.0) + "%")
    else if k == "randomize_start" && v == "1" then KeyValue("seam_position", "random")
    else if k == "bed_size" && v != [] then
      var (x, y) := conv.parsePoint(v);
      var fx := conv.formatFloat(x);
      var fy := conv.formatFloat(y);
      KeyValue("bed_shape", "0x0," + fx + "x0," + fx + "x" + fy + ",0x" + fy)
    else if k == "octoprint_host" && v != [] then KeyValue("print_host", v)
    else if (k == "perimeter_acceleration" && v == "25") || (k == "infill_acceleration" && v == "50") then
      KeyValue(k, "0")
    else if k == "support_material_threshold" && v == "0" then KeyValue(k, "60%")
    else kv
  }

  /** handle_legacy: rewrite, then drop (empty key) obsolete keys and keys
      that `defined` (the keys of print_config_def) does not know. */
  function HandleLegacy(kv: KeyValue, defined: set<string>, conv: Conversions): (r: KeyValue)
    ensures r.key == [] || (r.key in defined && r.key !in IgnoredKeys)
    ensures r.key != [] ==> r == RewriteLegacy(kv, conv)
    ensures kv.key !in LegacyKeys && kv.key in defined && kv.key !in IgnoredKeys ==> r == kv
  {
    var rw := RewriteLegacy(kv, conv);
    if rw.key in IgnoredKeys || rw.key !in defined then KeyValue([], rw.value) else rw
  }

  /** The value rewrites the source lists for single keys. */
  lemma HandleLegacyValues(defined: set<string>, conv: Conversions)
    requires "gcode_flavor" in defined && "support_material_threshold" in defined
    requires "seam_position" in defined
    ensures HandleLegacy(KeyValue("gcode_flavor", "makerbot"), defined, conv) == KeyValue("gcode_flavor", "makerware")
    ensures HandleLegacy(KeyValue("support_material_threshold", "0"), defined, conv)
         == KeyValue("support_material_threshold", "60%")
    ensures HandleLegacy(KeyValue("randomize_start", "1"), defined, conv) == KeyValue("seam_position", "random")
  {
    assert "gcode_flavor" !in IgnoredKeys;
    assert "support_material_threshold" !in IgnoredKeys;
    assert "seam_position" !in IgnoredKeys;
    var kv := KeyValue("support_material_threshold", "0");
    assert kv.key != "extrusion_width_ratio" && kv.key != "bottom_layer_speed_ratio";
    assert kv.key != "first_layer_height_ratio" && kv.key != "gcode_flavor" && kv.key != "fill_density";
    assert kv.key != "randomize_start" && kv.key != "bed_size" && kv.key != "octoprint_host";
    assert kv.key != "perimeter_acceleration" && kv.key != "infill_acceleration";
    var kr := KeyValue("randomize_start", "1");
    assert kr.key != "extrusion_width_ratio" && kr.key != "bottom_layer_speed_ratio";
    assert kr.key != "first_layer_height_ratio" && kr.key != "gcode_flavor" && kr.key != "fill_density";
  }

  /** A fill density without '%' that parses becomes a percentage (ending in
      '%'); one that does not parse is kept as it is. */
  lemma FillDensityBecomesPercent(value: string, defined: set<string>, conv: Conversions)
    requires '%' !in value && "fill_density" in defined
    ensures var r := HandleLegacy(KeyValue("fill_density", value), defined, conv);
      r.key == "fill_density"
      && (conv.parseFloat(value).Some? ==> |r.value| > 0 && r.value[|r.value| - 1] == '%')
      && (conv.parseFloat(value).None? ==> r.value == value)
  {
    assert "fill_density" !in IgnoredKeys;
    var k := "fill_density";
    assert k != "extrusion_width_ratio" && k != "bottom_layer_speed_ratio";
    assert k != "first_layer_height_ratio" && k != "gcode_flavor";
  }

  /** Obsolete keys are dropped whatever their value, except that
      randomize_start = 1 turns into a seam position first. */
  lemma IgnoredKeysDropped(kv: KeyValue, defined: set<string>, conv: Conversions)
    requires kv.key in IgnoredKeys && kv.key !in LegacyKeys
    ensures HandleLegacy(kv, defined, conv).key == []
  {
  }

  /** Rewriting is idempotent on what it keeps: a kept pair passes through a
      second time unchanged unless its new key is itself a legacy key. */
  lemma HandleLegacyStable(kv: KeyValue, defined: set<string>, conv: Conversions)
    requires HandleLegacy(kv, defined, conv).key != []
    requires HandleLegacy(kv, defined, conv).key !in LegacyKeys
    ensures HandleLegacy(HandleLegacy(kv, defined, conv), defined, conv) == HandleLegacy(kv, defined, conv)
  {
  }

  // ---------------------------------------------------------------------------
  // DynamicPrintConfig::normalize
  // ---------------------------------------------------------------------------

  /** The option values normalize and validation look at. */
  datatype Value = IntValue(i: int) | BoolValue(b: bool) | BoolsValue(bs: seq<bool>) | PercentValue(p: real)
                 | FloatValue(f: real)

  type Config = map<string, Value>

  /** The options normalize reads have the types their definitions give. */
  predicate WellTyped(c: Config)
  {
    && ("extruder" in c ==> c["extruder"].IntValue?)
    && ("infill_extruder" in c ==> c["infill_extruder"].IntValue?)
    && ("spiral_vase" in c ==> c["spiral_vase"].BoolValue?)
    && ("retract_layer_change" in c ==> c["retract_layer_change"].BoolsValue?)
  }

  function SpiralVaseOn(c: Config): bool
  {
    "spiral_vase" in c && c["spiral_vase"] == BoolValue(true)
  }

  /** Step 1: a legacy "extruder" option is removed and, when non-zero, fills
      in the infill and perimeter extruders not set explicitly. */
  function SpreadExtruder(c: Config): (r: Config)
    requires WellTyped(c)
    ensures WellTyped(r) && "extruder" !in r
    ensures SpiralVaseOn(r) <==> SpiralVaseOn(c)
    ensures "extruder" in c && c["extruder"].i != 0 && "infill_extruder" !in c ==>
      "infill_extruder" in r && r["infill_extruder"] == c["extruder"]
    ensures "extruder" in c && c["extruder"].i != 0 && "perimeter_extruder" !in c ==>
      "perimeter_extruder" in r && r["perimeter_extruder"] == c["extruder"]
    ensures "extruder" in c && c["extruder"].i == 0 ==> r == c - {"extruder"}
    ensures "extruder" !in c ==> r == c
    ensures r.Keys <= c.Keys + ExtruderKeys
    ensures forall k :: k in c && k != "extruder" ==> k in r && r[k] == c[k]
  {
    assert "infill_extruder" != "extruder" && "infill_extruder" != "perimeter_extruder";
    assert "spiral_vase" != "extruder" && "spiral_vase" != "infill_extruder" && "spiral_vase" != "perimeter_extruder";
    if "extruder" in c then
      var e := c["extruder"].i;
      var c1 := c - {"extruder"};
      if e != 0 then
        var c2 := if "infill_extruder" !in c1 then c1["infill_extruder" := IntValue(e)] else c1;
        if "perimeter_extruder" !in c2 then c2["perimeter_extruder" := IntValue(e)] else c2
      else c1
    else c
  }

  /** The per-role extruders a legacy "extruder" option fills in. */
  const ExtruderKeys: set<string> := {"infill_extruder", "perimeter_extruder"}

  /** normalize: spread the legacy extruder, default the solid infill
      extruder to the infill extruder, and in spiral-vase mode switch off
      retraction on layer change (`retractDefault` is the value the option is
      created with when missing), use one perimeter, no top solid layers and
      no infill. */
  function Normalize(c: Config, retractDefault: seq<bool>): (r: Config)
    requires WellTyped(c)
    ensures WellTyped(r) && "extruder" !in r
    ensures "infill_extruder" in r ==> "solid_infill_extruder" in r
    ensures SpiralVaseOn(r) <==> SpiralVaseOn(c)
    ensures SpiralVaseOn(c) ==>
      && "perimeters" in r && "top_solid_layers" in r && "fill_density" in r && "retract_layer_change" in r
      && r["perimeters"] == IntValue(1)
      && r["top_solid_layers"] == IntValue(0)
      && r["fill_density"] == PercentValue(0.0)
      && forall k :: 0 <= k < |r["retract_layer_change"].bs| ==> !r["retract_layer_change"].bs[k]
    ensures "extruder" in c && c["extruder"].i != 0 && "infill_extruder" !in c ==>
      "infill_extruder" in r && r["infill_extruder"] == c["extruder"]
    ensures "extruder" in c && c["extruder"].i != 0 && "perimeter_extruder" !in c ==>
      "perimeter_extruder" in r && r["perimeter_extruder"] == c["extruder"]
    ensures "solid_infill_extruder" !in c && "infill_extruder" in r ==>
      "solid_infill_extruder" in r && r["solid_infill_extruder"] == r["infill_extruder"]
    ensures r.Keys <= c.Keys + ExtruderKeys + {"solid_infill_extruder"} + SpiralVaseKeys
    ensures forall k :: k in c && k != "extruder" && (k !in SpiralVaseKeys || !SpiralVaseOn(c)) ==>
      k in r && r[k] == c[k]
  {
    var c2 := DefaultSolidInfill(SpreadExtruder(c));
    if SpiralVaseOn(c2) then SpiralVaseOverrides(c2, retractDefault) else c2
  }

  /** Step 2: an unset solid infill extruder takes the infill extruder. */
  function DefaultSolidInfill(c: Config): (r: Config)
    requires WellTyped(c)
    ensures WellTyped(r)
    ensures SpiralVaseOn(r) <==> SpiralVaseOn(c)
    ensures "extruder" in r <==> "extruder" in c
    ensures "infill_extruder" in r ==> "solid_infill_extruder" in r
    ensures "solid_infill_extruder" !in c && "infill_extruder" in c ==>
      "solid_infill_extruder" in r && r["solid_infill_extruder"] == c["infill_extruder"]
    ensures r.Keys <= c.Keys + {"solid_infill_extruder"}
    ensures forall k :: k in c ==> k in r && r[k] == c[k]
  {
    assert "spiral_vase" != "solid_infill_extruder" && "infill_extruder" != "solid_infill_extruder";
    assert "extruder" != "solid_infill_extruder";
    if "solid_infill_extruder" !in c && "infill_extruder" in c
    then c["solid_infill_extruder" := IntValue(c["infill_extruder"].i)] else c
  }

  const SpiralVaseKeys: set<string> := {"retract_layer_change", "perimeters", "top_solid_layers", "fill_density"}

  /** The options spiral-vase mode forces. */
  function SpiralVaseOverrides(c: Config, retractDefault: seq<bool>): (r: Config)
    requires WellTyped(c)
    ensures WellTyped(r)
    ensures r.Keys == c.Keys + SpiralVaseKeys
    ensures forall k :: k in c && k !in SpiralVaseKeys ==> r[k] == c[k]
    ensures "perimeters" in r && r["perimeters"] == IntValue(1)
    ensures "top_solid_layers" in r && r["top_solid_layers"] == IntValue(0)
    ensures "fill_density" in r && r["fill_density"] == PercentValue(0.0)
    ensures "retract_layer_change" in r && r["retract_layer_change"].BoolsValue?
    ensures forall k :: 0 <= k < |r["retract_layer_change"].bs| ==> !r["retract_layer_change"].bs[k]
  {
    assert "spiral_vase" != "retract_layer_change" && "spiral_vase" != "perimeters";
    assert "spiral_vase" != "top_solid_layers" && "spiral_vase" != "fill_density";
    var retract := if "retract_layer_change" in c then c["retract_layer_change"].bs else retractDefault;
    c["retract_layer_change" := BoolsValue(seq(|retract|, _ => false))]
      ["perimeters" := IntValue(1)]
      ["top_solid_layers" := IntValue(0)]
      ["fill_density" := PercentValue(0.0)]
  }

  /** Normalizing a normalized configuration changes nothing. */
  lemma NormalizeIdempotent(c: Config, retractDefault: seq<bool>)
    requires WellTyped(c)
    ensures Normalize(Normalize(c, retractDefault), retractDefault) == Normalize(c, retractDefault)
  {
    var c2 := DefaultSolidInfill(SpreadExtruder(c));
    var r := Normalize(c, retractDefault);
    assert SpreadExtruder(r) == r;
    assert DefaultSolidInfill(r) == r;
    if SpiralVaseOn(c2) {
      assert r == SpiralVaseOverrides(c2, retractDefault);
      SpiralVaseOverridesIdempotent(c2, retractDefault);
    }
  }

  /** Forcing the spiral-vase options a second time changes nothing. */
  lemma SpiralVaseOverridesIdempotent(c: Config, retractDefault: seq<bool>)
    requires WellTyped(c)
    ensures SpiralVaseOverrides(SpiralVaseOverrides(c, retractDefault), retractDefault)
      == SpiralVaseOverrides(c, retractDefault)
  {
    var r := SpiralVaseOverrides(c, retractDefault);
    var r2 := SpiralVaseOverrides(r, retractDefault);
    var bs := r["retract_layer_change"].bs;
    assert seq(|bs|, _ => false) == bs;
    assert r2.Keys == r.Keys;
  }

  // ---------------------------------------------------------------------------
  // min_object_distance and the spiral-vase checks of validate
  // ---------------------------------------------------------------------------

  /** min_object_distance: the extruder clearance radius when printing
      objects one by one and it exceeds the duplicate distance; otherwise the
      duplicate distance. */
  function MinObjectDistance(completeObjects: bool, clearanceRadius: real, duplicateDistance: real): (r: real)
    ensures r >= duplicateDistance
    ensures completeObjects ==> r >= clearanceRadius
    ensures r == duplicateDistance || r == clearanceRadius
    ensures !completeObjects ==> r == duplicateDistance
  {
    if completeObjects && clearanceRadius > duplicateDistance then clearanceRadius else duplicateDistance
  }

  /** The distance is the least one that keeps the duplicate distance and,
      for sequential printing, the extruder clearance. */
  lemma MinObjectDistanceIsLeast(completeObjects: bool, clearanceRadius: real, duplicateDistance: real, x: real)
    requires x >= duplicateDistance && (completeObjects ==> x >= clearanceRadius)
    ensures MinObjectDistance(completeObjects, clearanceRadius, duplicateDistance) <= x
  {
  }

  /** The settings the spiral-vase block of FullPrintConfig::validate reads. */
  datatype SpiralSettings = SpiralSettings(
    spiralVase: bool, perimeters: int, fillDensity: real, topSolidLayers: int,
    supportMaterial: bool, supportMaterialEnforceLayers: int)

  /** The error messages of the spiral-vase checks. */
  const TooManyPerimeters: string := "Can't make more than one perimeter when spiral vase mode is enabled"
  const TooFewPerimeters: string := "Can't make less than one perimeter when spiral vase mode is enabled"
  const NotHollow: string := "Spiral vase mode can only print hollow objects, so you need to set Fill density to 0"
  const HasTopLayers: string := "Spiral vase mode is not compatible with top solid layers"
  const HasSupport: string := "Spiral vase mode is not compatible with support material"

  /** The spiral-vase block of validate: the first error message, if any. */
  function ValidateSpiralVase(s: SpiralSettings): (r: Option<string>)
    ensures !s.spiralVase ==> r.None?
    ensures r.None? <==> !s.spiralVase || (s.perimeters == 1 && s.fillDensity <= 0.0 && s.topSolidLayers <= 0
                                            && !s.supportMaterial && s.supportMaterialEnforceLayers <= 0)
    ensures s.spiralVase && s.perimeters != 1 ==> r.Some?
  {
    if !s.spiralVase then None
    else if s.perimeters > 1 then Some(TooManyPerimeters)
    else if s.perimeters < 1 then Some(TooFewPerimeters)
    else if s.fillDensity > 0.0 then
      Some(NotHollow)
    else if s.topSolidLayers > 0 then Some(HasTopLayers)
    else if s.supportMaterial || s.supportMaterialEnforceLayers > 0 then
      Some(HasSupport)
    else None
  }

  /** The settings as read from a normalized configuration, with the support
      options passed in. */
  function SpiralSettingsOf(c: Config, supportMaterial: bool, enforceLayers: int): SpiralSettings
    requires SpiralVaseOn(c) ==> "perimeters" in c && "fill_density" in c && "top_solid_layers" in c
  {
    if !SpiralVaseOn(c) then SpiralSettings(false, 1, 0.0, 0, supportMaterial, enforceLayers)
    else
      SpiralSettings(true,
        if c["perimeters"].IntValue? then c["perimeters"].i else 0,
        if c["fill_density"].PercentValue? then c["fill_density"].p else 1.0,
        if c["top_solid_layers"].IntValue? then c["top_solid_layers"].i else 1,
        supportMaterial, enforceLayers)
  }

  /** After normalize, spiral-vase validation can only fail because of support
      material: normalize fixes perimeters, infill and top layers. */
  lemma NormalizedPassesSpiralChecks(c: Config, retractDefault: seq<bool>, supportMaterial: bool, enforceLayers: int)
    requires WellTyped(c)
    ensures ValidateSpiralVase(SpiralSettingsOf(Normalize(c, retractDefault), supportMaterial, enforceLayers)).Some?
        ==> SpiralVaseOn(c) && (supportMaterial || enforceLayers > 0)
  {
  }
}
