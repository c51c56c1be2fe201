/** Helpers of the preset bundle (xs/src/slic3r/GUI/PresetBundle.cpp):
    `#RRGGBB` colour parsing, the per-extruder filament preset list, and the
    extruder-number clamp of the merged configuration. */
module PresetBundle {
  import opened Presets

  // ---------------------------------------------------------------------------
  // Colours
  // ---------------------------------------------------------------------------

  /** hex_digit_to_int: the value of a hexadecimal digit of either case, or
      -1 for any other character. */
  function HexDigitToInt(c: char): (d: int)
    ensures -1 <= d <= 15
    ensures d == -1 <==> !('0' <= c <= '9' || 'A' <= c <= 'F' || 'a' <= c <= 'f')
  {
    if '0' <= c <= '9' then c as int - '0' as int
    else if 'A' <= c <= 'F' then c as int - 'A' as int + 10
    else if 'a' <= c <= 'f' then c as int - 'a' as int + 10
    else -1
  }

  /** The upper-case hexadecimal digit of a value below 16. */
  function HexDigit(d: nat): (c: char)
    requires d < 16
  {
    if d < 10 then ('0' as int + d) as char else ('A' as int + d - 10) as char
  }

  /** Both cases of a letter digit read the same, and every value has a digit
      that reads back as it. */
  lemma HexDigitRoundTrip(d: nat)
    requires d < 16
    ensures HexDigitToInt(HexDigit(d)) == d
    ensures d >= 10 ==> HexDigitToInt(('a' as int + d - 10) as char) == d
  {
  }

  /** The outcome of parse_color: the bool it returns and the three bytes it
      left in rgb_out. */
  datatype ParsedColor = ParsedColor(ok: bool, rgb: seq<int>)

  /** Parses the components from `i` on, writing into `rgb`; stops at the first
      bad digit, keeping the components already written. */
  function ParseComponents(s: string, rgb: seq<int>, i: nat): (r: ParsedColor)
    requires |s| == 7 && |rgb| == 3 && i <= 3
    ensures |r.rgb| == 3
    ensures forall k :: 0 <= k < i ==> r.rgb[k] == rgb[k]
    ensures forall k :: 0 <= k < 3 && 0 <= rgb[k] <= 255 ==> 0 <= r.rgb[k] <= 255
    decreases 3 - i
  {
    if i == 3 then ParsedColor(true, rgb)
    else
      var b := ComponentAt(s, i);
      if b == -1 then ParsedColor(false, rgb)
      else ParseComponents(s, rgb[i := b], i + 1)
  }

  /** Component `i` from its two digits, or -1 when either is not a digit. */
  function ComponentAt(s: string, i: nat): (b: int)
    requires |s| == 7 && i < 3
    ensures -1 <= b <= 255
    ensures b == -1 <==> HexDigitToInt(s[1 + 2 * i]) == -1 || HexDigitToInt(s[2 + 2 * i]) == -1
    ensures b != -1 ==> b == 16 * HexDigitToInt(s[1 + 2 * i]) + HexDigitToInt(s[2 + 2 * i])
  {
    var d1 := HexDigitToInt(s[1 + 2 * i]);
    var d2 := HexDigitToInt(s[2 + 2 * i]);
    if d1 == -1 || d2 == -1 then -1 else d1 * 16 + d2
  }

  /** parse_color: zero the output, then require "#" and six hex digits. */
  function ParseColor(s: string): (r: ParsedColor)
    ensures |r.rgb| == 3 && forall k :: 0 <= k < 3 ==> 0 <= r.rgb[k] <= 255
    ensures !(|s| == 7 && s[0] == '#') ==> r == ParsedColor(false, [0, 0, 0])
  {
    if |s| != 7 || s[0] != '#' then ParsedColor(false, [0, 0, 0])
    else ParseComponents(s, [0, 0, 0], 0)
  }

  predicate IsHexDigit(c: char)
  {
    '0' <= c <= '9' || 'A' <= c <= 'F' || 'a' <= c <= 'f'
  }

  /** The six characters after '#' are all hex digits. */
  predicate WellFormedColor(s: string)
  {
    |s| == 7 && s[0] == '#' && forall k :: 1 <= k < 7 ==> IsHexDigit(s[k])
  }

  /** Components `i` to 2 consist of hex digits. */
  predicate HexComponentsFrom(s: string, i: nat)
    requires |s| == 7
  {
    forall c :: i <= c < 3 ==> IsHexDigit(s[1 + 2 * c]) && IsHexDigit(s[2 + 2 * c])
  }

  lemma HexComponentsStep(s: string, i: nat)
    requires |s| == 7 && i < 3
    ensures HexComponentsFrom(s, i)
        <==> IsHexDigit(s[1 + 2 * i]) && IsHexDigit(s[2 + 2 * i]) && HexComponentsFrom(s, i + 1)
  {
  }

  lemma {:induction false} ParseComponentsOk(s: string, rgb: seq<int>, i: nat)
    requires |s| == 7 && |rgb| == 3 && i <= 3
    ensures ParseComponents(s, rgb, i).ok <==> HexComponentsFrom(s, i)
    decreases 3 - i
  {
    if i < 3 {
      HexComponentsStep(s, i);
      if ComponentAt(s, i) != -1 {
        ParseComponentsOk(s, rgb[i := ComponentAt(s, i)], i + 1);
      }
    }
  }

  lemma {:induction false} ParseComponentsValues(s: string, rgb: seq<int>, i: nat, c: nat)
    requires |s| == 7 && |rgb| == 3 && i <= c < 3
    requires ParseComponents(s, rgb, i).ok
    ensures ComponentAt(s, c) != -1 && ParseComponents(s, rgb, i).rgb[c] == ComponentAt(s, c)
    decreases 3 - i
  {
    var next := ParseComponentsUnfold(s, rgb, i);
    if c > i {
      ParseComponentsValues(s, next, i + 1, c);
    }
  }

  /** One successful step of the loop: component `i` is written from its two
      digits and the loop goes on. */
  lemma ParseComponentsUnfold(s: string, rgb: seq<int>, i: nat) returns (next: seq<int>)
    requires |s| == 7 && |rgb| == 3 && i < 3
    requires ParseComponents(s, rgb, i).ok
    ensures next == rgb[i := 16 * HexDigitToInt(s[1 + 2 * i]) + HexDigitToInt(s[2 + 2 * i])]
    ensures ParseComponents(s, rgb, i) == ParseComponents(s, next, i + 1)
  {
    next := rgb[i := ComponentAt(s, i)];
  }

  /** A colour parses exactly when it is well formed, and then each component
      is 16 times its first digit plus its second. */
  lemma ParseColorSpec(s: string)
    ensures ParseColor(s).ok <==> WellFormedColor(s)
    ensures ParseColor(s).ok ==> forall c :: 0 <= c < 3 ==>
      ParseColor(s).rgb[c] == 16 * HexDigitToInt(s[1 + 2 * c]) + HexDigitToInt(s[2 + 2 * c])
  {
    if |s| == 7 && s[0] == '#' {
      ParseComponentsOk(s, [0, 0, 0], 0);
      if ParseComponents(s, [0, 0, 0], 0).ok {
        forall c | 0 <= c < 3 {
          ParseComponentsValues(s, [0, 0, 0], 0, c);
        }
      }
      if HexComponentsFrom(s, 0) {
        forall k | 1 <= k < 7 ensures IsHexDigit(s[k]) {
          var c := (k - 1) / 2;
          assert k == 1 + 2 * c || k == 2 + 2 * c;
        }
      }
      if WellFormedColor(s) {
        assert HexComponentsFrom(s, 0) by {
          forall c | 0 <= c < 3 ensures IsHexDigit(s[1 + 2 * c]) && IsHexDigit(s[2 + 2 * c]) {
            assert 1 <= 1 + 2 * c < 7 && 1 <= 2 + 2 * c < 7;
          }
        }
      }
    }
  }

  /** A bad second component leaves the first one parsed and the others zero:
      the output is zeroed only before parsing starts. */
  lemma PartialColorOnBadDigit()
    ensures ParseColor("#FF00G0") == ParsedColor(false, [255, 0, 0])
  {
    assert HexDigitToInt('G') == -1;
    assert [0, 0, 0][0 := 255] == [255, 0, 0];
  }

  // ---------------------------------------------------------------------------
  // Filament presets per extruder
  // ---------------------------------------------------------------------------

  /** set_filament_preset: grow the list to `idx + 1` entries with the default
      filament's name, then store the name without its " (modified)" suffix. */
  function SetFilamentPreset(presets: seq<string>, idx: nat, name: string, defaultName: string): (r: seq<string>)
    ensures |r| == if idx < |presets| then |presets| else idx + 1
    ensures r[idx] == RemoveSuffixModified(name)
    ensures forall k :: 0 <= k < |presets| && k != idx ==> r[k] == presets[k]
    ensures forall k :: |presets| <= k < |r| && k != idx ==> r[k] == defaultName
  {
    var grown := if idx >= |presets| then presets + seq(idx + 1 - |presets|, _ => defaultName) else presets;
    grown[idx := RemoveSuffixModified(name)]
  }

  /** Selecting a filament through its UI label stores the plain name. */
  lemma SetFilamentFromLabel(presets: seq<string>, idx: nat, p: Preset, defaultName: string)
    requires p.isDirty || !EndsWith(p.name, SuffixModified)
    ensures SetFilamentPreset(presets, idx, Label(p), defaultName)[idx] == p.name
  {
    RemoveSuffixOfLabel(p);
  }

  // ---------------------------------------------------------------------------
  // Extruder clamp in full_config
  // ---------------------------------------------------------------------------

  const ExtruderKeys: seq<string> := [
    "perimeter_extruder", "infill_extruder", "solid_infill_extruder",
    "support_material_extruder", "support_material_interface_extruder"]

  /** boost::algorithm::clamp. */
  function Clamp(v: int, lo: int, hi: int): (r: int)
    requires lo <= hi
    ensures lo <= r <= hi
    ensures lo <= v <= hi ==> r == v
    ensures v < lo ==> r == lo
    ensures v > hi ==> r == hi
  {
    if v < lo then lo else if v > hi then hi else v
  }

  /** The end of full_config: drop "compatible_printers" and clamp the
      extruder-number options into [0, numExtruders]. The extruder options are
      always present in a full configuration. */
  function ClampExtruderOptions(ints: map<string, int>, numExtruders: nat): (r: map<string, int>)
    requires forall k :: 0 <= k < |ExtruderKeys| ==> ExtruderKeys[k] in ints
    ensures r.Keys == ints.Keys - {"compatible_printers"}
    ensures forall k :: k in r && k in ExtruderKeys ==> 0 <= r[k] <= numExtruders
    ensures forall k :: k in r && k in ExtruderKeys ==> r[k] == Clamp(ints[k], 0, numExtruders)
    ensures forall k :: k in r && k !in ExtruderKeys ==> r[k] == ints[k]
  {
    map k | k in ints && k != "compatible_printers" ::
      if k in ExtruderKeys then Clamp(ints[k], 0, numExtruders) else ints[k]
  }

  /** Clamping twice is clamping once: a merged configuration is a fixed
      point. */
  lemma ClampExtruderOptionsIdempotent(ints: map<string, int>, numExtruders: nat)
    requires forall k :: 0 <= k < |ExtruderKeys| ==> ExtruderKeys[k] in ints
    ensures forall k :: 0 <= k < |ExtruderKeys| ==> ExtruderKeys[k] in ClampExtruderOptions(ints, numExtruders)
    ensures ClampExtruderOptions(ClampExtruderOptions(ints, numExtruders), numExtruders)
         == ClampExtruderOptions(ints, numExtruders)
  {
    forall k | 0 <= k < |ExtruderKeys|
      ensures ExtruderKeys[k] in ClampExtruderOptions(ints, numExtruders)
    {
      assert ExtruderKeys[k] != "compatible_printers";
    }
  }
}
