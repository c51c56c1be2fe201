# PrusaSlicer core logic in Dafny

This project models small, sequential pieces of PrusaSlicer (formerly Slic3r
PE) and proves properties about them. Each piece is written as pure functions
over immutable values, and the properties are proved as contracts and lemmas.
The pieces are:

- the configuration codecs: C-style string escaping, the `;`-separated string
  list, vector options (`get_at`, `set_at`, `resize`, `set`), FloatOrPercent,
  Bool/Bools and enum names, and `diff`/`equal`;
- legacy-key rewriting, `normalize` and the spiral-vase checks of the print
  configuration;
- the run-length codec of JXS layer images and the encoded layer header;
- colour parsing, the " (modified)" suffix, config-file-type voting and preset
  selection;
- the DoubleSlider thumbs and ticks;
- in the G-code viewer: the buffer ids, the visibility bit flags, the merge
  of near-equal layer heights and the role/extruder de-duplication;
- in 3DScene: composite ids, print heights, `set_range` and the render colour;
- solid infill spacing, the closest-point grid resolution, and the point
  order and products;
- the 3MF attribute and unit helpers;
- the G-code processor's move interpretation;
- the gizmos: SLA point selection and deletion, the cut plane and the rotation
  angle;
- multi-material auto-colourisation.

Floating-point numbers are modelled as `real`, so the model has no rounding.
I/O, number formatting and parsing, and options defined elsewhere are
parameters of the functions. Each module header says which parameters stand
in for what.

Modules: `Wrappers` (Option/Result), `Strings`, `ConfigEscape`,
`ConfigOptions`, `PrintConfig`, `Rle`, `Presets`, `PresetBundle`,
`DoubleSlider`, `Sorting`, `ZMerge`, `GCodeViewer`, `Scene3D`, `Libslic3r`
(EPSILON), `Fill`, `Geometry`, `ThreeMf`, `GCodeProcessor`, `Gizmos`,
`AutoColor`.

## Model

| member | source | states |
|---|---|---|
| ConfigEscape.EscapeString | xs/src/libslic3r/Config.cpp:23-38 | the escaped string is one character longer than the input per line break |
| ConfigEscape.EscapeStringIsOneLine | xs/src/libslic3r/Config.cpp:23-38 | every '\n' and '\r' is replaced: the result holds no line break, and a string without line breaks comes back unchanged |
| ConfigEscape.UnescapeString | xs/src/libslic3r/Config.cpp:87-104 | a successful unescape is never longer than its input |
| ConfigEscape.UnescapeFailsIffLoneBackslash | xs/src/libslic3r/Config.cpp:87-104 | unescaping fails exactly when the input ends in an odd run of backslashes, i.e. in a lone backslash |
| ConfigEscape.EscapeStringRoundTrip | xs/src/libslic3r/Config.cpp:23-104 | strings without '\\' and '\r' survive escape then unescape |
| ConfigEscape.BackslashLostInRoundTrip | xs/src/libslic3r/Config.cpp:23-104 | as written, `\x` escapes to itself and unescapes to the empty string, while `\n` (two characters) unescapes to a newline |
| ConfigEscape.EscapeStringFixed | xs/src/libslic3r/Config.cpp:23-38 | corrected escape: the output has between one and two characters per input character |
| ConfigEscape.UnescapeStringFixed | xs/src/libslic3r/Config.cpp:87-104 | corrected unescape: a successful result is no longer than the input |
| ConfigEscape.EscapeStringFixedRoundTrip | xs/src/libslic3r/Config.cpp:23-104 | with the correction, every string without '\r', backslashes included, survives the round trip |
| ConfigEscape.EscapeQuoted | xs/src/libslic3r/Config.cpp:65-78 | the quoted body has between one and two characters per input character |
| ConfigEscape.EscapeElement | xs/src/libslic3r/Config.cpp:54-82 | an element is copied unchanged exactly when no character forces quotes and it is not the only, empty element; otherwise it is wrapped in double quotes |
| ConfigEscape.EscapeTail | xs/src/libslic3r/Config.cpp:50-53 | every element after the first begins with the ';' separator |
| ConfigEscape.EscapeStrings | xs/src/libslic3r/Config.cpp:40-85 | the encoding is empty exactly for the empty vector (a lone empty string is written as `""`) |
| ConfigEscape.SkipBlanks | xs/src/libslic3r/Config.cpp:113-119 | the result is the suffix after the leading spaces and tabs: it does not start with a blank and everything skipped is blank |
| ConfigEscape.ReadQuoted | xs/src/libslic3r/Config.cpp:125-144 | a word read from a quoted string leaves a strictly shorter rest |
| ConfigEscape.ParseWords | xs/src/libslic3r/Config.cpp:111-172 | decoding only appends to the output vector |
| ConfigEscape.AfterWord | xs/src/libslic3r/Config.cpp:155-171 | decoding what follows a word only appends to the output vector |
| ConfigEscape.UnescapeStrings | xs/src/libslic3r/Config.cpp:106-109 | the empty string decodes successfully to no strings |
| ConfigEscape.ReadQuotedOfEscaped | xs/src/libslic3r/Config.cpp:125-144 | reading back a quoted body written by the encoder yields the element and exactly the text after the closing quote (see also lines 65-78) |
| ConfigEscape.ParseEscapedElement | xs/src/libslic3r/Config.cpp:111-154 | decoding an encoded element, quoted or not, stores that element and hands the following text on unchanged (see also lines 54-82) |
| ConfigEscape.EscapeTailRoundTrip | xs/src/libslic3r/Config.cpp:50-85 | the `;`-prefixed elements after the first decode successfully to themselves, appended in order (see also lines 155-172) |
| ConfigEscape.EscapeStringsRoundTrip | xs/src/libslic3r/Config.cpp:40-173 | every vector whose elements contain no ';' and no '\r' decodes back to itself, `[]` and `[""]` included |
| ConfigEscape.TrailingSemicolonAddsEmptyString | xs/src/libslic3r/Config.cpp:167-170 | an encoded vector followed by ';' decodes to the vector plus one empty string |
| ConfigEscape.ReadQuotedNeedsQuote | xs/src/libslic3r/Config.cpp:127-143 | without a closing quote no quoted word is read |
| ConfigEscape.UnterminatedQuoteFails | xs/src/libslic3r/Config.cpp:125-143 | an opening quote that is never closed makes the decoder return false with nothing stored |
| ConfigEscape.JunkAfterQuotedWordFails | xs/src/libslic3r/Config.cpp:154-166 | a character other than a blank or ';' after a quoted word makes the decoder return false; the word has already been stored |
| ConfigOptions.Code | xs/src/libslic3r/Config.hpp:31-62 | every type code is below twice coVectorType |
| ConfigOptions.ScalarType | xs/src/libslic3r/Config.hpp:139 | the scalar type of a vector type is not a vector and its code is the vector code less coVectorType |
| ConfigOptions.IsVectorIffPlural | xs/src/libslic3r/Config.hpp:81-82 | is_vector holds exactly for the six vector types, and distinct types have distinct codes |
| ConfigOptions.GetAt | xs/src/libslic3r/Config.hpp:206-210 | get_at(i) is values[i] when i is in range and the first value otherwise |
| ConfigOptions.SourceValue | xs/src/libslic3r/Config.hpp:193-203 | the value set_at reads: the scalar, or get_at(j) of a non-empty vector of the same type; an empty vector or a foreign type is an error |
| ConfigOptions.PadWithFront | xs/src/libslic3r/Config.hpp:189-192 | the vector is grown to at least n values, and the new slots copy the first value |
| ConfigOptions.SetAt | xs/src/libslic3r/Config.hpp:185-204 | set_at fails exactly when the right-hand side is unusable; otherwise the vector grows to i + 1 if needed, slot i holds the value read, the old slots are unchanged and the new ones copy the first value |
| ConfigOptions.ValuesAfterSetAt | xs/src/libslic3r/Config.hpp:185-204 | a failing set_at still leaves the vector grown to i + 1 values with copies of the first value, the old slots untouched; a successful one leaves the vector it returns |
| ConfigOptions.SetAtThenGetAt | xs/src/libslic3r/Config.hpp:185-210 | reading back the slot set_at wrote gives the value written, and other old slots read as before |
| ConfigOptions.Resize | xs/src/libslic3r/Config.hpp:216-237 | resize fails exactly when an empty vector must grow and the default is missing ("No default value provided.") or is not a vector of the same type ("Extending with an incompatible type."); otherwise the size is n, a prefix is kept, and new slots copy the last value (or the default's first value for an empty vector) |
| ConfigOptions.ExtendEmpty | xs/src/libslic3r/Config.hpp:226-231 | growing an empty vector fails with "No default value provided." without a default and with "Extending with an incompatible type." when the default is not a vector of the same type; otherwise every new slot holds the default's first value |
| ConfigOptions.ResizeShrinkGrow | xs/src/libslic3r/Config.hpp:216-237 | resizing to the current size changes nothing, and shrinking to m then growing to n gives the first m values followed by copies of value m - 1 |
| ConfigOptions.SetFromList | xs/src/libslic3r/Config.hpp:166-180 | set(list) succeeds exactly when every element is usable, and then holds one value per element: its scalar or its vector's first value |
| ConfigOptions.ValuesAfterSet | xs/src/libslic3r/Config.hpp:166-180 | the vector set(list) leaves, thrown or not, holds the values of the leading usable elements and stops just before the first unusable one |
| ConfigOptions.ValuesAfterSetMatches | xs/src/libslic3r/Config.hpp:166-180 | set(list) leaves a value for every element exactly when it succeeds, and then the vector it returns |
| ConfigOptions.GetAbsValue | xs/src/libslic3r/Config.hpp:594-595 | an absolute value is returned as is; a percentage p gives ratio_over * p / 100 |
| ConfigOptions.GetAbsValueScales | xs/src/libslic3r/Config.hpp:594-595 | an absolute value ignores the base, 100 % of a base is the base, and a percentage is linear in the base |
| ConfigOptions.SerializeFloatOrPercent | xs/src/libslic3r/Config.hpp:604-611 | the formatted number, followed by '%' exactly when the value is a percentage |
| ConfigOptions.DeserializeFloatOrPercent | xs/src/libslic3r/Config.hpp:613-620 | succeeds exactly when the number parses; the percent flag is whether '%' occurs anywhere |
| ConfigOptions.FloatOrPercentRoundTrip | xs/src/libslic3r/Config.hpp:604-620 | with a number format the parser reads back, serialize then deserialize gives back the option |
| ConfigOptions.SerializeBool | xs/src/libslic3r/Config.hpp:727-730 | true is written "1" and false "0" |
| ConfigOptions.DeserializeBool | xs/src/libslic3r/Config.hpp:732-737 | only the exact string "1" reads as true |
| ConfigOptions.BoolRoundTrip | xs/src/libslic3r/Config.hpp:727-737 | a bool survives serialize then deserialize |
| ConfigOptions.SerializeBools | xs/src/libslic3r/Config.hpp:761-769 | the encoding is empty exactly for the empty vector, and otherwise has one digit per value plus the commas between them |
| ConfigOptions.GetlineItems | xs/src/libslic3r/Config.hpp:783-785 | std::getline on ',' yields no items exactly for the empty string |
| ConfigOptions.DeserializeBools | xs/src/libslic3r/Config.hpp:781-789 | the old values are kept only when appending, followed by one bool per comma-separated item, true exactly for "1" |
| ConfigOptions.GetlineItemsOfSerialized | xs/src/libslic3r/Config.hpp:761-789 | splitting the serialized bools on ',' gives back one "1"/"0" digit per value |
| ConfigOptions.BoolsRoundTrip | xs/src/libslic3r/Config.hpp:761-789 | a bool vector, the empty one included, survives serialize then deserialize |
| ConfigOptions.MaxValue | xs/src/libslic3r/Config.hpp:847-849 | the largest value of the enum table, attained by some entry, and 0 for an empty table (the count starts at 0) |
| ConfigOptions.EnumNames | xs/src/libslic3r/Config.hpp:841-856 | get_enum_names has one slot more than the largest value, a single empty name for an empty table |
| ConfigOptions.EnumLookup | xs/src/libslic3r/Config.hpp:821-830 | deserialize finds a value exactly when the name is in the table, and the value found is that name's |
| ConfigOptions.EnumNamesAt | xs/src/libslic3r/Config.hpp:841-856 | with distinct values, every name sits in the slot of its value |
| ConfigOptions.EnumRoundTrip | xs/src/libslic3r/Config.hpp:814-856 | with distinct names and values, every value serializes to its own name and that name deserializes back to the value |
| ConfigOptions.Diff | xs/src/libslic3r/Config.cpp:196-207 | diff lists exactly the keys present in both configurations whose options differ |
| ConfigOptions.Equal | xs/src/libslic3r/Config.cpp:209-219 | equal lists exactly the keys present in both configurations whose options are equal |
| ConfigOptions.DiffEqualPartition | xs/src/libslic3r/Config.cpp:196-219 | diff and equal are disjoint, together cover every key present in both configurations, and their lengths add up to the number of such key entries |
| Presets.RemoveSuffixModified | xs/src/slic3r/GUI/Preset.cpp:69-74 | a name ending in " (modified)" loses exactly that suffix; any other name is returned unchanged |
| Presets.RemoveSuffixOfModified | xs/src/slic3r/GUI/Preset.cpp:62-74 | appending the suffix and removing it gives back the name |
| Presets.Label | xs/src/slic3r/GUI/Preset.cpp:140-143 | a dirty preset's label is its name plus the suffix; a clean preset's label is its name |
| Presets.RemoveSuffixOfLabel | xs/src/slic3r/GUI/Preset.cpp:69-74 | removing the suffix from a label recovers the preset name, unless a clean preset's own name ends in the suffix (see also lines 140-143) |
| Presets.CountDirectoryKeys | xs/src/slic3r/GUI/Preset.cpp:51-54 | the "recent" section casts at most one app-config vote per child |
| Presets.Vote | xs/src/slic3r/GUI/Preset.cpp:34-54 | each top-level entry casts at most one config vote and at most one bundle vote |
| Presets.CountVotes | xs/src/slic3r/GUI/Preset.cpp:30-55 | the bundle and config totals never exceed the number of entries |
| Presets.GuessConfigFileType | xs/src/slic3r/GUI/Preset.cpp:56-57 | the file is an app config exactly when the app votes beat both others, a bundle only when bundle votes beat config votes, and a config only when they do not |
| Presets.CountVotesAppend | xs/src/slic3r/GUI/Preset.cpp:30-55 | the votes of two concatenated trees are the sums of their votes |
| Presets.PresetsSectionIsBundle | xs/src/slic3r/GUI/Preset.cpp:48-57 | a lone "presets" section ties app config and bundle, so the file is taken for a bundle |
| Presets.NozzleDiameterVotesConfig | xs/src/slic3r/GUI/Preset.cpp:40-42 | a "nozzle_diameter" key line casts a single config vote |
| Presets.ConfigVoteKeepsConfig | xs/src/slic3r/GUI/Preset.cpp:28-58 | adding a "nozzle_diameter" line to a file taken for a plain config keeps it a plain config |
| Presets.DecideMoreConfig | xs/src/slic3r/GUI/Preset.cpp:56-57 | one more config vote never changes a plain-config decision |
| Presets.FirstVisibleFrom | xs/src/slic3r/GUI/Preset.cpp:448-451 | the first visible preset at or after an index: none before it is visible, and when none is found no preset from the index on is visible |
| Presets.FirstVisibleIdx | xs/src/slic3r/GUI/Preset.cpp:445-455 | first_visible_idx is in range, visible or 0, and no preset before it (skipping a suppressed default) is visible |
| Presets.ClearDirty | xs/src/slic3r/GUI/Preset.cpp:664-665 | every preset is kept, with its dirty flag cleared |
| Presets.SelectPreset | xs/src/slic3r/GUI/Preset.cpp:662-672 | select_preset clears every dirty flag, selects idx or else the first visible preset, copies it into the edited preset, and shows the default preset unless it is suppressed and not selected |
| Presets.SelectPresetIdempotent | xs/src/slic3r/GUI/Preset.cpp:662-672 | selecting the selected preset again leaves the presets unchanged |
| Presets.NameLessStrictTotal | xs/src/slic3r/GUI/Preset.hpp:139 | the name order presets are sorted by is irreflexive, and of two different names one comes first |
| Presets.LowerBound | xs/src/slic3r/GUI/Preset.hpp:296 | std::lower_bound stops at the first preset after the default one whose name is not ordered before the key; every earlier one is ordered before it |
| Presets.FindPreset | xs/src/slic3r/GUI/Preset.hpp:291-297 | a preset is found only under its exact name; a miss means at least that the default preset has another name |
| Presets.FindPresetComplete | xs/src/slic3r/GUI/Preset.hpp:291-297 | when the presets after the default one are in name order, as the collection keeps them, a name is missed exactly when no preset holds it |
| Presets.FindPresetNeedsOrder | xs/src/slic3r/GUI/Preset.hpp:296 | out of name order the lower bound can miss a preset that is there ("b" before "a" hides "a") |
| Presets.SelectPresetByName | xs/src/slic3r/GUI/Preset.cpp:674-699 | it reports a selection exactly when forced or when the index changes, changes nothing otherwise, selects the index the lookup finds for the name stripped of its suffix, and otherwise falls back to the first visible preset (or the default one) |
| Presets.SelectByLabel | xs/src/slic3r/GUI/Preset.cpp:674-699 | in a name-ordered collection, selecting a preset by its combo-box label selects that preset |
| PresetBundle.HexDigitToInt | xs/src/slic3r/GUI/PresetBundle.cpp:661-667 | a digit's value is between -1 and 15, and -1 exactly for a character that is not a hexadecimal digit |
| PresetBundle.HexDigitRoundTrip | xs/src/slic3r/GUI/PresetBundle.cpp:661-667 | every value below 16 is read back from its digit, in either case |
| PresetBundle.ParseComponents | xs/src/slic3r/GUI/PresetBundle.cpp:674-681 | parsing stops at the first bad digit, and every component stays a byte |
| PresetBundle.ParseColor | xs/src/slic3r/GUI/PresetBundle.cpp:669-683 | a string that is not 7 characters starting with '#' fails with black; the output is always three bytes |
| PresetBundle.ParseComponentsOk | xs/src/slic3r/GUI/PresetBundle.cpp:674-681 | the component loop succeeds exactly when the remaining six characters are hexadecimal digits |
| PresetBundle.ComponentAt | xs/src/slic3r/GUI/PresetBundle.cpp:676-680 | -1 exactly when either of the two characters is not a hexadecimal digit; otherwise 16 times the first digit plus the second, a byte |
| PresetBundle.ParseComponentsValues | xs/src/slic3r/GUI/PresetBundle.cpp:674-681 | after a successful loop every component from the start index on holds the byte its two digits give |
| PresetBundle.ParseColorSpec | xs/src/slic3r/GUI/PresetBundle.cpp:669-683 | parse_color succeeds exactly for "#" plus six hexadecimal digits, and then yields each byte from its two digits |
| PresetBundle.PartialColorOnBadDigit | xs/src/slic3r/GUI/PresetBundle.cpp:671-680 | the output is zeroed only before the loop: "#FF00G0" fails but leaves (255, 0, 0) behind |
| PresetBundle.SetFilamentPreset | xs/src/slic3r/GUI/PresetBundle.cpp:654-659 | the list grows to idx + 1 with the default filament name, slot idx holds the name without its suffix, and other slots are kept |
| PresetBundle.SetFilamentFromLabel | xs/src/slic3r/GUI/PresetBundle.cpp:654-659 | storing a filament through its combo-box label stores the plain preset name |
| PresetBundle.ClampExtruderOptions | xs/src/slic3r/GUI/PresetBundle.cpp:261-268 | "compatible_printers" is removed, the five extruder options are clamped into [0, number of extruders], and all other values are kept |
| PresetBundle.ClampExtruderOptionsIdempotent | xs/src/slic3r/GUI/PresetBundle.cpp:261-268 | clamping a clamped configuration changes nothing |
| PrintConfig.RewriteLegacy | xs/src/libslic3r/PrintConfig.cpp:1759-1800 | only the eleven legacy keys are rewritten; every other key and value passes through unchanged |
| PrintConfig.HandleLegacy | xs/src/libslic3r/PrintConfig.cpp:1757-1817 | the key is cleared or is a defined, non-obsolete key; a kept pair is the rewritten one; a current, defined key passes through unchanged |
| PrintConfig.HandleLegacyValues | xs/src/libslic3r/PrintConfig.cpp:1771-1800 | "makerbot" becomes "makerware", a support threshold of 0 becomes "60%", and randomize_start = 1 becomes seam_position = random |
| PrintConfig.FillDensityBecomesPercent | xs/src/libslic3r/PrintConfig.cpp:1773-1778 | a fill density without '%' that parses becomes a value ending in '%'; one that does not parse is kept |
| PrintConfig.IgnoredKeysDropped | xs/src/libslic3r/PrintConfig.cpp:1802-1813 | an obsolete key that is not rewritten first is dropped, whatever its value |
| PrintConfig.HandleLegacyStable | xs/src/libslic3r/PrintConfig.cpp:1757-1817 | a kept pair whose key is not a legacy key passes through handle_legacy a second time unchanged |
| PrintConfig.SpreadExtruder | xs/src/libslic3r/PrintConfig.cpp:1841-1856 | the "extruder" option is removed; when it is non-zero it fills in an unset infill extruder and an unset perimeter extruder, when it is zero nothing else changes; only those two keys can be added, and every other option is kept |
| PrintConfig.DefaultSolidInfill | xs/src/libslic3r/PrintConfig.cpp:1858-1859 | an unset solid infill extruder takes the infill extruder's value; nothing else is added or changed |
| PrintConfig.Normalize | xs/src/libslic3r/PrintConfig.cpp:1839-1874 | after normalize there is no "extruder"; a non-zero one filled the unset infill and perimeter extruders; an unset solid infill extruder equals the infill extruder; in spiral-vase mode there is one perimeter, no top solid layers, 0 % infill and no retraction on layer change; only those keys can appear, and every other option is kept |
| PrintConfig.SpiralVaseOverrides | xs/src/libslic3r/PrintConfig.cpp:1862-1873 | the four spiral-vase options are created if missing and set; every other option is unchanged |
| PrintConfig.SpiralVaseOverridesIdempotent | xs/src/libslic3r/PrintConfig.cpp:1862-1873 | forcing the spiral-vase options a second time changes nothing |
| PrintConfig.NormalizeIdempotent | xs/src/libslic3r/PrintConfig.cpp:1839-1874 | normalizing a normalized configuration changes nothing |
| PrintConfig.MinObjectDistance | xs/src/libslic3r/PrintConfig.cpp:1890-1899 | the distance is the larger of the duplicate distance and, for sequential printing only, the extruder clearance radius |
| PrintConfig.MinObjectDistanceIsLeast | xs/src/libslic3r/PrintConfig.cpp:1890-1899 | no distance that keeps the duplicate distance and, for sequential printing, the clearance radius is smaller than the one returned |
| PrintConfig.ValidateSpiralVase | xs/src/libslic3r/PrintConfig.cpp:1991-2005 | with spiral vase off there is no error; with it on, validation passes exactly with one perimeter, no infill, no top solid layers and no support |
| PrintConfig.NormalizedPassesSpiralChecks | xs/src/libslic3r/PrintConfig.cpp:1839-1874 | after normalize, the spiral-vase checks can only fail because of support material (see also lines 1991-2005) |
| Rle.RleEncode | src/libslic3r/Format/JXS.cpp:230-250 | the encoding is a sequence of (count, value) pairs with counts from 1 to 255 and runs cut only when full; it expands back to the input, and is at most twice as long |
| Rle.EncodeRunStep | src/libslic3r/Format/JXS.cpp:235-247 | appending the pair of the next run keeps the counts positive and the runs maximal, and extends the expansion by the run |
| Rle.ExpandAppend | src/libslic3r/Format/JXS.cpp:230-250 | the expansion of two pair streams side by side is the two expansions side by side |
| Rle.ExpandPair | src/libslic3r/Format/JXS.cpp:245-246 | one pair expands to count copies of its value |
| Rle.ExpandLength | src/libslic3r/Format/JXS.cpp:377-390 | a pair stream expands to as many bytes as its counts add up to, and a trailing odd byte adds nothing |
| Rle.AppendRun | src/libslic3r/Format/JXS.cpp:383-385 | the inner loop appends count copies of the value but stops at the expected size |
| Rle.CapPrefix | src/libslic3r/Format/JXS.cpp:377 | once the output is full, more input does not change it |
| Rle.DecodeFull | src/libslic3r/Format/JXS.cpp:377 | when the output is full before the input ends, the remaining pairs are ignored |
| Rle.DecodeRest | src/libslic3r/Format/JXS.cpp:378 | a trailing odd byte is ignored |
| Rle.DecodeStep | src/libslic3r/Format/JXS.cpp:380-387 | each pair extends the output by its run |
| Rle.RleDecode | src/libslic3r/Format/JXS.cpp:370-393 | the output is the expansion of all complete pairs, cut to the expected size |
| Rle.RleRoundTrip | src/libslic3r/Format/JXS.cpp:370-393 | decoding an encoding, expecting the original size, gives the original bytes back (see also lines 230-250) |
| Rle.Le32 | src/libslic3r/Format/JXS.cpp:210-211 | a 32-bit word becomes four bytes |
| Rle.Le32RoundTrip | src/libslic3r/Format/JXS.cpp:210-211 | the four little-endian bytes read back as the word |
| Rle.EncodeLayerImage | src/libslic3r/Format/JXS.cpp:196-215 | the layer is an 8-byte header followed by the PNG payload; the header holds format id 2 and the payload size cut to 32 bits |
| DoubleSlider.GetActiveValue | src/slic3r/GUI/wxExtensions.cpp:1468-1473 | the value of the selected thumb, or -1 when none is selected |
| DoubleSlider.CorrectLowerValue | src/slic3r/GUI/wxExtensions.cpp:2036-2045 | the lower thumb is clamped into the range (an in-range value is kept), the higher thumb is pulled onto it when overtaken or in one-layer mode, and nothing else changes |
| DoubleSlider.CorrectHigherValue | src/slic3r/GUI/wxExtensions.cpp:2047-2056 | the mirror image: the higher thumb is clamped into the range and the lower thumb follows it when overtaken or in one-layer mode |
| DoubleSlider.CorrectionsKeepOrdered | src/slic3r/GUI/wxExtensions.cpp:2036-2056 | outside one-layer mode, a slider with its thumbs in range and in order is left unchanged by either correction |
| DoubleSlider.CorrectionsIdempotent | src/slic3r/GUI/wxExtensions.cpp:2036-2056 | correcting twice is the same as correcting once |
| DoubleSlider.SetLowerValue | src/slic3r/GUI/wxExtensions.cpp:1492-1503 | the lower thumb becomes selected, an in-range value is taken as given and becomes the active value, and the thumbs end up in order |
| DoubleSlider.SetHigherValue | src/slic3r/GUI/wxExtensions.cpp:1505-1516 | the higher thumb becomes selected, an in-range value is taken as given and becomes the active value, and the thumbs end up in order |
| DoubleSlider.SetSelectionSpan | src/slic3r/GUI/wxExtensions.cpp:1518-1523 | the thumbs end up ordered with the lower one at least the minimum, an in-range span is taken as given, and a span of more than one layer ends one-layer mode |
| DoubleSlider.SelectionSpanOrdered | src/slic3r/GUI/wxExtensions.cpp:1518-1523 | a span whose lower end is within the range leaves the thumbs in range and in order |
| DoubleSlider.ActionTick | src/slic3r/GUI/wxExtensions.cpp:2141-2157 | with no thumb selected nothing changes; otherwise only the tick at the active value changes: toggled, added or deleted |
| DoubleSlider.ActionTickInverse | src/slic3r/GUI/wxExtensions.cpp:2141-2157 | toggling twice restores the ticks, and so does adding then deleting a tick that was not there |
| Sorting.Insert | src/slic3r/GUI/GCodeViewer.cpp:978-982 | inserting keeps a sorted sequence sorted and adds exactly the inserted element |
| Sorting.Sort | src/slic3r/GUI/GCodeViewer.cpp:961-982 | std::sort yields a sorted permutation of its input |
| Sorting.Unique | src/slic3r/GUI/GCodeViewer.cpp:979-983 | std::unique keeps exactly the same set of values, the first one included, and leaves no two equal neighbours |
| Sorting.UniqueKeepsSorted | src/slic3r/GUI/GCodeViewer.cpp:978-983 | removing duplicates keeps a sorted sequence sorted |
| Sorting.SortUnique | src/slic3r/GUI/GCodeViewer.cpp:978-983 | sort then unique gives the distinct input values in strictly increasing order |
| Sorting.StrictlyIncreasingUnique | src/slic3r/GUI/GCodeViewer.cpp:978-983 | a strictly increasing sequence is determined by its set of values, so the de-duplicated list is the one canonical list of those values |
| Sorting.SortUniqueIdempotent | src/slic3r/GUI/GCodeViewer.cpp:978-983 | de-duplicating a de-duplicated list changes nothing |
| ZMerge.RunEnd | src/slic3r/GUI/GCodeViewer.cpp:965-967 | a run takes every following height up to EPSILON above its first one and stops at the first height beyond that |
| ZMerge.MergeFrom | src/slic3r/GUI/GCodeViewer.cpp:963-972 | each run becomes one height, so there are no more heights than before, and at least one for non-empty input |
| ZMerge.MergeNearEqual | src/slic3r/GUI/GCodeViewer.cpp:960-972 | the merged list is no longer than the input and is non-empty for non-empty input |
| ZMerge.MergeFromRuns | src/slic3r/GUI/GCodeViewer.cpp:963-972 | every merged height is the value of a run of the input: the midpoint of the run's first and last heights, or the height itself for a run of one |
| ZMerge.MergeFromCovers | src/slic3r/GUI/GCodeViewer.cpp:963-972 | on sorted heights, every input height lies within EPSILON of some merged height |
| ZMerge.RunValueIsMidpoint | src/slic3r/GUI/GCodeViewer.cpp:965-968 | on sorted heights, a run's value is the midpoint of two input heights at most EPSILON apart |
| ZMerge.MergeFromMeaning | src/slic3r/GUI/GCodeViewer.cpp:963-972 | the merge of sorted heights consists of run midpoints and leaves no input height farther than EPSILON from a merged one |
| ZMerge.MergeNearEqualMeaning | src/slic3r/GUI/GCodeViewer.cpp:960-972 | every merged height is the midpoint of two input heights at most EPSILON apart, and every input height lies within EPSILON of a merged one |
| ZMerge.RunValueBounds | src/slic3r/GUI/GCodeViewer.cpp:968 | the height standing for a run lies between its first height and EPSILON/2 above it, and not above its last height |
| ZMerge.MergeFromSpread | src/slic3r/GUI/GCodeViewer.cpp:963-972 | merging a sorted list gives strictly increasing heights, each more than EPSILON/2 above the previous one, within the range of the input |
| ZMerge.MergeNearEqualSpread | src/slic3r/GUI/GCodeViewer.cpp:960-972 | the merged layer heights are strictly increasing and more than EPSILON/2 apart |
| ZMerge.MergedHeightsCloserThanEpsilon | src/slic3r/GUI/GCodeViewer.cpp:963-970 | merged heights can be less than EPSILON apart: 0, EPSILON and 1.1 EPSILON merge to EPSILON/2 and 1.1 EPSILON |
| GCodeViewer.Code | src/libslic3r/GCode/GCodeProcessor.hpp:62-75 | the move types are numbered 0 to 9 in declaration order |
| GCodeViewer.BufferId | src/slic3r/GUI/GCodeViewer.cpp:35-37 | buffer_id is the type's code less one, as an unsigned char; it is a valid buffer index exactly for the eight types from Retract to Extrude |
| GCodeViewer.BufferType | src/slic3r/GUI/GCodeViewer.cpp:39-41 | buffer_type gives a code below 256 |
| GCodeViewer.BufferIdRoundTrip | src/slic3r/GUI/GCodeViewer.cpp:35-41 | buffer_type undoes buffer_id for every move type, and every buffer index belongs to the move type buffer_type names |
| GCodeViewer.IsVisible | src/slic3r/GUI/GCodeViewer.cpp:436-440 | a type is visible only when it has a buffer, and then exactly when that buffer is visible |
| GCodeViewer.SetVisible | src/slic3r/GUI/GCodeViewer.cpp:442-447 | a type without a buffer changes nothing; otherwise that type's visibility is set and every other type's and flag's is kept |
| GCodeViewer.Assign | src/slic3r/GUI/GCodeViewer.cpp:470-485 | setting one option never changes the number of buffers or the buffers that no option covers |
| GCodeViewer.AssignCurrent | src/slic3r/GUI/GCodeViewer.cpp:470-485 | setting one option's part makes it read back as set when the part exists, and leaves every other option's part alone |
| GCodeViewer.TargetInverse | src/slic3r/GUI/GCodeViewer.cpp:457-467 | distinct options stand for distinct parts, and no option stands for Noop or Count |
| GCodeViewer.CodeInverse | src/libslic3r/GCode/GCodeProcessor.hpp:62-75 | distinct move types have distinct codes |
| GCodeViewer.CollectFlagsBits | src/slic3r/GUI/GCodeViewer.cpp:449-468 | a bit is set after the loop exactly when it was set before or belongs to a listed option whose part is visible |
| GCodeViewer.GetFlagsSpec | src/slic3r/GUI/GCodeViewer.cpp:449-468 | get_options_visibility_flags sets an option's bit exactly when its part is visible, and sets no bit outside the eleven in use |
| GCodeViewer.GetFlagsBound | src/slic3r/GUI/GCodeViewer.cpp:449-468 | only the eleven option bits can be set |
| GCodeViewer.GetFlagsAt | src/slic3r/GUI/GCodeViewer.cpp:449-468 | an option's bit is set exactly when its part is visible |
| GCodeViewer.OptionsIndex | src/slic3r/GUI/GCodeViewer.cpp:457-467 | each option is handled at the position of its own bit |
| GCodeViewer.OptionsDistinct | src/slic3r/GUI/GCodeViewer.cpp:457-467 | no option is handled twice |
| GCodeViewer.OptionOfBit | src/slic3r/GUI/GCodeViewer.cpp:457-467 | every bit in use belongs to the option handled at that position |
| GCodeViewer.ApplyFlags | src/slic3r/GUI/GCodeViewer.cpp:470-485 | applying flags never changes the number of buffers or the buffers no option covers |
| GCodeViewer.ApplyFlagsCurrent | src/slic3r/GUI/GCodeViewer.cpp:470-485 | after the loop, an option handled once has its part set from its bit when the part exists, and an option not handled is unchanged |
| GCodeViewer.SetFromFlags | src/slic3r/GUI/GCodeViewer.cpp:470-485 | set_options_visibility_from_flags keeps the buffer count and the uncovered buffers |
| GCodeViewer.SetFromFlagsSpec | src/slic3r/GUI/GCodeViewer.cpp:470-485 | afterwards every option whose part exists is visible exactly when its bit is set, and the others are unchanged |
| GCodeViewer.SetFromFlagsAt | src/slic3r/GUI/GCodeViewer.cpp:470-485 | one option's part is visible exactly when its bit is set, when the part exists |
| GCodeViewer.BufferOption | src/slic3r/GUI/GCodeViewer.cpp:457-463 | each of the first seven buffers is covered by one option |
| GCodeViewer.VisibilityExtensional | src/slic3r/GUI/GCodeViewer.cpp:449-485 | the options and the uncovered buffers determine the whole visibility state |
| GCodeViewer.FlagsRoundTrip | src/slic3r/GUI/GCodeViewer.cpp:449-485 | restoring the flags a state produced gives back exactly that state |
| GCodeViewer.FlagsRoundTripFromFlags | src/slic3r/GUI/GCodeViewer.cpp:449-485 | reading back the flags just applied gives them back, cut to the eleven bits in use |
| GCodeViewer.FlagBitRoundTrip | src/slic3r/GUI/GCodeViewer.cpp:449-485 | bit by bit: a bit reads back set exactly when it was set and is in use |
| GCodeViewer.EveryPartExists | src/slic3r/GUI/GCodeViewer.cpp:436-447 | with all seven buffers present every option has its part |
| GCodeViewer.MergeLayersZs | src/slic3r/GUI/GCodeViewer.cpp:949-975 | the layer heights of a result are no more numerous than the extrusion moves, non-empty when there are any, strictly increasing more than EPSILON/2 apart, each the midpoint of two move heights at most EPSILON apart, and every move height within EPSILON of one of them |
| GCodeViewer.LoadedRoles | src/slic3r/GUI/GCodeViewer.cpp:956-979 | the role list holds exactly the roles of the moves after the first, each once, in increasing order |
| GCodeViewer.LoadedExtruderIds | src/slic3r/GUI/GCodeViewer.cpp:954-983 | the extruder list holds exactly the extruders of the moves, each once, in increasing order |
| Scene3D.CompositeId | xs/src/slic3r/GUI/3DScene.cpp:658 | the id of a volume is at least its object index times 1000000 |
| Scene3D.VolumeIdx | xs/src/slic3r/GUI/3DScene.hpp:330 | the volume index read from an id is below 1000 |
| Scene3D.InstanceIdx | xs/src/slic3r/GUI/3DScene.hpp:331 | the instance index read from an id is below 1000 |
| Scene3D.CompositeIdRoundTrip | xs/src/slic3r/GUI/3DScene.hpp:329-331 | object_idx, volume_idx and instance_idx recover the three indices of a composite id, when volume and instance are below 1000 and the id fits in an int |
| Scene3D.CompositeIdCollision | xs/src/slic3r/GUI/3DScene.cpp:658 | a volume index of 1000 already collides with the next object |
| Scene3D.SelectGroupId | xs/src/slic3r/GUI/3DScene.cpp:659-664 | the group is the object's id, the volume's id or the full composite id, depending on the selection mode; any other mode keeps the previous group |
| Scene3D.SelectGroupIdDecodes | xs/src/slic3r/GUI/3DScene.cpp:659-664 | an object group id decodes to its object with volume 0, and a volume group id to its object and volume with instance 0 |
| Scene3D.CollectPrintZs | xs/src/slic3r/GUI/3DScene.cpp:955-961 | the collected heights are exactly the layer tops of the volumes taken into account (all, or only the active ones) |
| Scene3D.CollectPrintZsNonEmpty | xs/src/slic3r/GUI/3DScene.cpp:955-961 | one volume taken into account with a layer is enough for a non-empty collection |
| Scene3D.GetCurrentPrintZs | xs/src/slic3r/GUI/3DScene.cpp:953-977 | the scene's layer tops are strictly increasing, more than EPSILON/2 apart, no more numerous than the collected tops, non-empty when a volume taken into account has a layer, each the midpoint of two collected tops at most EPSILON apart, and every collected top within EPSILON of one of them |
| Scene3D.FirstNotBelow | xs/src/slic3r/GUI/3DScene.cpp:351 | the first layer from a position on whose top is not below min_z; all layers before it are below |
| Scene3D.FirstAbove | xs/src/slic3r/GUI/3DScene.cpp:361 | the first layer from a position on whose top is above max_z; all layers before it are at most max_z |
| Scene3D.SetRange | xs/src/slic3r/GUI/3DScene.cpp:337-367 | with no layers everything is drawn; layers wholly outside [min_z, max_z] draw nothing |
| Scene3D.SetRangeSelectsShownLayers | xs/src/slic3r/GUI/3DScene.cpp:337-367 | for sorted layers overlapping the range, the drawn index range runs from the offsets of the first shown layer to those of the first layer above it (or the end), and the layers in between are exactly those whose top lies in [min_z, max_z]; the "shall not happen" branch is indeed never taken |
| Scene3D.RenderColor | xs/src/slic3r/GUI/3DScene.cpp:248-258 | a selected volume is drawn in the selection colour (its outside variant when outside the bed), else a hovered one in the hover colour, else an outside one with detection on in the outside colour, else in its own colour (see also lines 197-200) |
| Scene3D.RenderColorPriority | xs/src/slic3r/GUI/3DScene.cpp:248-258 | the volume's own colour shows only when no state overrides it, hover makes no difference to a selected volume, and outside detection makes none to a selected or hovered one |
| Fill.Trunc | src/libslic3r/Fill/FillBase.cpp:74-77 | the conversion of a double to coord_t cuts toward zero: the result is within one below a non-negative value and within one above a negative one |
| Fill.TruncDivEpsilon | src/libslic3r/Fill/FillBase.cpp:74-77 | for integer width w and positive divisor m, (w - EPSILON) / m cut to an integer is (w - 1) / m, and 0 for w = 0 |
| Fill.NumberOfIntervals | src/libslic3r/Fill/FillBase.cpp:73-74 | the number of intervals is the largest n with n * distance <= width - 1, and 0 for width 0 |
| Fill.MaxSpacingInt | src/libslic3r/Fill/FillBase.cpp:81-83 | the 20 % cap floor(1.2 d + 0.5) is (12 d + 5) / 10 in integers, and never below d |
| Fill.AdjustSolidSpacing | src/libslic3r/Fill/FillBase.cpp:69-85 | the adjusted spacing never shrinks the spacing, never exceeds the 20 % cap, and stays as it is when not even one interval fits |
| Fill.SpacingBounds | src/libslic3r/Fill/FillBase.cpp:75-79 | the uncapped spacing is at least the distance, so the source's assertion factor > 1 - 1e-5 holds; a ratio of at most 1.2 stays within the cap |
| Fill.UncappedAtLeastDistance | src/libslic3r/Fill/FillBase.cpp:75-77 | dividing the width among the intervals that fit never gives less than the distance |
| Fill.AdjustSolidSpacingCases | src/libslic3r/Fill/FillBase.cpp:69-85 | a width of at most one distance keeps the spacing; otherwise the spacing is (width - 1) / n for the n intervals that fit, or the cap |
| Geometry.LessIsStrictTotalOrder | xs/src/libslic3r/Point.hpp:44 | operator< on points is irreflexive and transitive, and any two distinct points are ordered one way exactly |
| Geometry.CrossDotSymmetry | xs/src/libslic3r/Point.hpp:81-82 | a vector's cross product with itself is 0, cross is antisymmetric, and dot is symmetric |
| Geometry.DotSelfPositive | xs/src/libslic3r/Point.hpp:82 | a vector's exact dot product with itself is never negative, and zero only for the zero vector |
| Geometry.ProductBounds | xs/src/libslic3r/Point.hpp:81-82 | a product of two 32-bit coordinates lies in [-2^62 + 2^31, 2^62], reaching 2^62 only for INT32_MIN times INT32_MIN |
| Geometry.CrossFitsInt64 | xs/src/libslic3r/Point.hpp:81 | the int64_t cross product of two 32-bit vectors never overflows |
| Geometry.DotFitsInt64 | xs/src/libslic3r/Point.hpp:82 | the int64_t dot product of two 32-bit vectors overflows exactly when both are (INT32_MIN, INT32_MIN) |
| Geometry.DotSelfWrapped | xs/src/libslic3r/Point.hpp:82 | the 64-bit dot of a 32-bit vector with itself is non-negative for every vector but (INT32_MIN, INT32_MIN), where it wraps to INT64_MIN |
| Geometry.GridLog2AsWritten | xs/src/libslic3r/Point.hpp:106-124 | as written, the shift cascade computes the number of binary digits of gridres |
| Geometry.GridResolutionAsWrittenDoubles | xs/src/libslic3r/Point.hpp:102-127 | as written, a gridres that is a power of two gets twice that resolution, so the assertion gridres > resolution / 2 fails; search radius 2 gives gridres 8 and resolution 16 |
| Geometry.BitLengthBounds | xs/src/libslic3r/Point.hpp:106-124 | a positive value lies between 2^(digits - 1) and 2^digits |
| Geometry.BitLengthShift | xs/src/libslic3r/Point.hpp:107-122 | shifting right by s removes exactly s digits from a value with at least s digits |
| Geometry.StepKeepsDigits | xs/src/libslic3r/Point.hpp:107-122 | each step of the cascade moves digits from the value into the log2 without losing any |
| Geometry.GridRes | xs/src/libslic3r/Point.hpp:102 | gridres is even and at least 4 |
| Geometry.GridLog2 | xs/src/libslic3r/Point.hpp:102-127 | corrected: the resolution is the smallest power of two not below gridres, so both assertions of the constructor hold |
| Geometry.NewLookup | xs/src/libslic3r/Point.hpp:98-128 | the constructor with the corrected log2 keeps the search radius and picks a resolution between gridres and twice gridres |
| Geometry.FindCoversRadius | xs/src/libslic3r/Point.hpp:143-171 | every coordinate within the search radius of the query lies in one of the two cells find looks at on each axis, so no candidate is missed |
| Geometry.CellsAroundCorner | xs/src/libslic3r/Point.hpp:149-154 | the same on any grid whose resolution is at least twice the radius |
| ThreeMf.FindFrom | xs/src/libslic3r/Format/3mf.cpp:74-80 | nothing exactly when no pair from the start on has the key; otherwise the value paired with the first pair holding it |
| ThreeMf.GetAttributeValue | xs/src/libslic3r/Format/3mf.cpp:69-81 | a value exactly when the list is present, of even size, the key is present and some pair holds it; the value is the one after the first such key |
| ThreeMf.GetAttributeValueString | xs/src/libslic3r/Format/3mf.cpp:83-87 | the empty string when the lookup finds nothing, the found value otherwise |
| ThreeMf.LookupFindsPairedValue | xs/src/libslic3r/Format/3mf.cpp:69-81 | in a list of pairs with distinct keys, every key yields its own value |
| ThreeMf.Pairs | xs/src/libslic3r/Format/3mf.cpp:69 | interleaving keys and values doubles the length |
| ThreeMf.PairsIndex | xs/src/libslic3r/Format/3mf.cpp:76-77 | keys sit at even and values at the following odd positions |
| ThreeMf.GetUnitFactor | xs/src/libslic3r/Format/3mf.cpp:129-146 | micron, centimeter, inch, foot and meter scale by their size in millimetres; any other name means millimetres |
| ThreeMf.UnitFactorPositive | xs/src/libslic3r/Format/3mf.cpp:129-146 | every factor is positive, and it is 1 exactly for the names that are not listed units |
| ThreeMf.ListedFrom | xs/src/libslic3r/Format/3mf.cpp:154-160 | the scan of the name table succeeds exactly for a member of the table |
| ThreeMf.IsValidObjectType | xs/src/libslic3r/Format/3mf.cpp:148-161 | valid exactly for the empty type and "model" (see also lines 52-56) |
| ThreeMf.InvalidObjectTypesRejected | xs/src/libslic3r/Format/3mf.cpp:148-161 | solidsupport, support, surface and other are all rejected (see also lines 58-64) |
| ThreeMf.DropSpaces | xs/src/libslic3r/Format/3mf.cpp:108 | the rest starts with no space and is shorter whenever a space was skipped |
| ThreeMf.Tokens | xs/src/libslic3r/Format/3mf.cpp:108 | splitting with compressed separators yields at least one token |
| ThreeMf.TokensOfJoin | xs/src/libslic3r/Format/3mf.cpp:108 | non-empty space-free words joined by single spaces split back into the same words |
| ThreeMf.JoinStartsWithWord | xs/src/libslic3r/Format/3mf.cpp:108 | the joined text begins with the first word's first character, so it is not empty |
| ThreeMf.GetMatrixFromString | xs/src/libslic3r/Format/3mf.cpp:101-127 | identity for the empty string or a token count other than twelve; otherwise the top three rows hold the tokens transposed from the 4x3 column layout and the bottom row is 0 0 0 1 |
| ThreeMf.MatrixOfTwelveWords | xs/src/libslic3r/Format/3mf.cpp:101-127 | twelve numbers written with single spaces read back in column order |
| ThreeMf.CreateObjectInstance | xs/src/libslic3r/Format/3mf.cpp:865-916 | more than ten levels fails with "Too many recursions", an unknown id with "Found item with invalid object id", and every created instance belongs to an existing object that aliases itself |
| ThreeMf.CreateComponents | xs/src/libslic3r/Format/3mf.cpp:906-913 | the loop over the components creates only instances of existing self-aliased objects |
| ThreeMf.CircularAliasFails | xs/src/libslic3r/Format/3mf.cpp:906-913 | two objects aliasing each other end in "Too many recursions" from any level and under any transform (see also lines 869-874) |
| ThreeMf.NestedInstance | xs/src/libslic3r/Format/3mf.cpp:883-913 | a self-aliased object becomes one instance under the given transform, and one component level above it composes the parent and component transforms (see also line 701) |
| GCodeProcessor.GetOptionValue | src/libslic3r/GCode/GCodeProcessor.cpp:43-47 | 0 for an empty option, the id-th value in range, and the last value past the end; a non-empty option always yields one of its values |
| GCodeProcessor.SetOptionValue | src/libslic3r/GCode/GCodeProcessor.cpp:37-41 | the length and every other value are kept; an id past the end changes nothing |
| GCodeProcessor.OptionGetAfterSet | src/libslic3r/GCode/GCodeProcessor.cpp:37-47 | a value set in range is read back, and reading another id sees what it saw before |
| GCodeProcessor.Reset | src/libslic3r/GCode/GCodeProcessor.cpp:343-371 | the state after reset is well formed (the active extruder has an offset) and holds no moves |
| GCodeProcessor.StoreMove | src/libslic3r/GCode/GCodeProcessor.cpp:1275-1291 | exactly one move is appended, the earlier moves and the rest of the state are kept, and the move records the end position shifted by the active extruder's offset, the extruder delta and the active extruder |
| GCodeProcessor.AbsolutePosition | src/libslic3r/GCode/GCodeProcessor.cpp:655-668 | a missing word keeps the start position; a given word, scaled to millimetres, is an offset from the start in relative mode (for E also in relative extruder mode) and from the origin otherwise |
| GCodeProcessor.ClassifyMove | src/libslic3r/GCode/GCodeProcessor.cpp:670-702 | retraction exactly for a pure negative E move, unretraction exactly for a pure positive E move, extrusion only with XY motion, positive E and non-zero width and height; width and height change only in the viewer-as-state branch, which turns a rejected extrusion into a travel |
| GCodeProcessor.ClassifyMoveCases | src/libslic3r/GCode/GCodeProcessor.cpp:670-699 | nothing is stored only for a zero displacement or a positive E with only Z motion; E=0 or E<0 with motion is a travel; an acceptable extrusion is an extrusion |
| GCodeProcessor.ProcessG1 | src/libslic3r/GCode/GCodeProcessor.cpp:653-723 | every axis ends at its resolved position, a given feedrate is converted to mm/s, a zero displacement stores nothing and any other stores one move of the classified type; start, origin and extruder are kept (see also lines 887-888) |
| GCodeProcessor.ProcessG92 | src/libslic3r/GCode/GCodeProcessor.cpp:935-971 | each given X, Y or Z moves the origin so that the current end position reads as the given value; a given E sets the E position itself; a line naming no axis at all sets the origin to the end position; nothing else changes |
| GCodeProcessor.BeginLine | src/libslic3r/GCode/GCodeProcessor.cpp:472-473 | a line starts where the previous one ended and nothing else changes |
| GCodeProcessor.G92ThenG1StaysPut | src/libslic3r/GCode/GCodeProcessor.cpp:661-664 | after "G92 X v" an absolute "G1 X v" stays where it is and stores no move (see also lines 940-941, 721-723) |
| GCodeProcessor.ProcessM106 | src/libslic3r/GCode/GCodeProcessor.cpp:988-998 | only the fan speed changes; a P word changes nothing; otherwise the speed is S scaled from 255 to 100, or 100 without S |
| GCodeProcessor.M106FullScale | src/libslic3r/GCode/GCodeProcessor.cpp:990-996 | S255 is the same full speed as M106 without S |
| GCodeProcessor.ProcessM107 | src/libslic3r/GCode/GCodeProcessor.cpp:1000-1003 | the fan stops and nothing else changes |
| GCodeProcessor.ProcessM132 | src/libslic3r/GCode/GCodeProcessor.cpp:1020-1037 | each given axis has its origin reset to zero, the others keep theirs, and nothing else changes |
| GCodeProcessor.M132ThenAbsoluteMove | src/libslic3r/GCode/GCodeProcessor.cpp:661-664 | after M132 names X, an absolute G1 X v ends at v in millimetres whatever the origin was (see also lines 1029-1030) |
| GCodeProcessor.ProcessM221 | src/libslic3r/GCode/GCodeProcessor.cpp:1153-1163 | an S word without a T word sets the extrude factor override to S/100; otherwise nothing changes |
| GCodeProcessor.ToByte | src/libslic3r/GCode/GCodeProcessor.cpp:1246 | the cast to unsigned char lands in 0..255 and keeps values already there |
| GCodeProcessor.ProcessT | src/libslic3r/GCode/GCodeProcessor.cpp:1241-1273 | the state stays well formed, at most one tool-change move is appended, and the active extruder changes only to the parsed tool number when it is below the extruder count |
| GCodeProcessor.ProcessTCases | src/libslic3r/GCode/GCodeProcessor.cpp:1247-1265 | the same tool changes nothing; an out-of-range tool keeps the active extruder but still stores a tool-change move; a valid different tool becomes active and the stored move carries it |
| GCodeProcessor.ProcessLine | src/libslic3r/GCode/GCodeProcessor.cpp:468-538 | every modelled command keeps the state well formed, starts at the previous end position, and appends at most one move while keeping the earlier ones |
| GCodeProcessor.ProcessAll | src/libslic3r/GCode/GCodeProcessor.cpp:468-538 | processing a program keeps the state well formed and only appends moves, at most one per line |
| GCodeProcessor.RelativeExtrusionDelta | src/libslic3r/GCode/GCodeProcessor.cpp:657-664 | in relative extruder mode a non-zero E word stores one move whose extruder delta is the E word in millimetres (see also line 1281) |
| Gizmos.SelectAll | src/slic3r/GUI/GLGizmo.cpp:2422-2423 | every entry keeps its point and takes the given selection flag |
| Gizmos.SelectPoint | src/slic3r/GUI/GLGizmo.cpp:2420-2432 | points never change; AllPoints selects every entry and makes the selection non-empty, NoPoints deselects every entry and makes it empty; an index selects that entry, makes the selection non-empty and leaves every other entry as it was |
| Gizmos.Survivors | src/slic3r/GUI/GLGizmo.cpp:2184-2188 | deletion never lengthens the cache |
| Gizmos.SurvivorsContents | src/slic3r/GUI/GLGizmo.cpp:2184-2188 | every copy of a deletable entry (selected, and not a new island while islands are locked) is removed, and every other entry keeps its number of copies |
| Gizmos.SurvivorsLength | src/slic3r/GUI/GLGizmo.cpp:2184-2188 | the cache gets shorter exactly when some entry is deletable |
| Gizmos.DeleteSelectedPoints | src/slic3r/GUI/GLGizmo.cpp:2179-2195 | outside editing mode nothing changes; inside it the survivors remain, all deselected, the selection is empty, unsaved changes are flagged exactly when something was deleted or already pending, and nothing else changes |
| Gizmos.DeleteIdempotent | src/slic3r/GUI/GLGizmo.cpp:2179-2195 | a second deletion finds nothing selected and changes nothing |
| Gizmos.SurvivorsOfNone | src/slic3r/GUI/GLGizmo.cpp:2184-2188 | with nothing deletable the cache survives whole |
| Gizmos.SurvivorsOfOne | src/slic3r/GUI/GLGizmo.cpp:2184-2188 | with only entry i deletable exactly that entry is removed and the order of the rest is kept |
| Gizmos.SelectOneThenDelete | src/slic3r/GUI/GLGizmo.cpp:2179-2195 | clicking point i (not a locked new island) and deleting removes that point alone, leaves the rest deselected and flags unsaved changes (see also lines 2420-2432) |
| Gizmos.CacheOf | src/slic3r/GUI/GLGizmo.cpp:2437-2439 | the rebuilt cache holds the model's points in order, none selected |
| Gizmos.PointsOf | src/slic3r/GUI/GLGizmo.cpp:2451-2452 | the points of the cache, in order |
| Gizmos.DiscardChanges | src/slic3r/GUI/GLGizmo.cpp:2435-2443 | the cache shows the model's points, none selected, the model is untouched, and editing mode and unsaved changes end |
| Gizmos.ApplyChanges | src/slic3r/GUI/GLGizmo.cpp:2446-2462 | pending changes write the cache's points to the model, otherwise the model is kept; the cache stays and editing mode and unsaved changes end |
| Gizmos.SwitchToEditingMode | src/slic3r/GUI/GLGizmo.cpp:2465-2471 | the cache is reloaded from the model, none selected, editing mode starts with no unsaved changes (see also lines 2509-2513) |
| Gizmos.ApplyThenReload | src/slic3r/GUI/GLGizmo.cpp:2435-2471 | applied edits are what editing mode or a discard shows next; applying after a discard leaves the model as it was (see also lines 2509-2513) |
| Gizmos.SetCutZ | src/slic3r/GUI/GLGizmo.cpp:2758-2762 | the plane lies in [0, max_z] when max_z is not negative, a height inside is kept, one above is clamped to max_z and one below zero (or any height with a negative max_z) to 0 |
| Gizmos.SetCutZIdempotent | src/slic3r/GUI/GLGizmo.cpp:2754-2762 | clamping again changes nothing, and a later bounding box height clamps the stored plane into the new range |
| Gizmos.SetAngle | src/slic3r/GUI/GLGizmo.cpp:346-352 | an angle within EPSILON of a full turn is stored as 0, any other unchanged, so a stored angle is never within EPSILON of a full turn |
| Gizmos.SetAngleIdempotent | src/slic3r/GUI/GLGizmo.cpp:346-352 | storing a stored angle again keeps it |
| AutoColor.Pos | src/libslic3r/MultiMaterialAutoColorization.cpp:119 | the positive part of a weight is non-negative, at least the weight, and the weight itself when that is not negative (see also line 413) |
| AutoColor.PositivePrefix | src/libslic3r/MultiMaterialAutoColorization.cpp:117-123 | the running sum of the positive weights is never negative |
| AutoColor.PositivePrefixMonotone | src/libslic3r/MultiMaterialAutoColorization.cpp:117-123 | the running sum never decreases along the list |
| AutoColor.PositivePrefixIff | src/libslic3r/MultiMaterialAutoColorization.cpp:117-131 | the sum is positive exactly when some weight is positive, so the "all weights are 0" branch is taken exactly when none is |
| AutoColor.LastActive | src/libslic3r/MultiMaterialAutoColorization.cpp:139-145 | 0 exactly when no extruder is active; otherwise an active extruder from the list |
| AutoColor.ScanAsWritten | src/libslic3r/MultiMaterialAutoColorization.cpp:133-145 | as written, the search returns 0 or an active extruder from the list, or reads past the end of the extruder list (None) |
| AutoColor.AssignColorAsWritten | src/libslic3r/MultiMaterialAutoColorization.cpp:111-146 | as written: 0 without extruders or weights, the first extruder when no weight is positive, otherwise 0 or an active extruder whenever it does not read past the extruder list |
| AutoColor.BoundaryAsWritten | src/libslic3r/MultiMaterialAutoColorization.cpp:135 | as written, 0.3 picks extruder 1 and 0.6 extruder 2 for weights 30, 30, 40, where the repository's test expects 2 and 3 |
| AutoColor.MisalignedAsWritten | src/libslic3r/MultiMaterialAutoColorization.cpp:118-136 | as written, a zero weight shifts the pairing (0.25 for weights 0, 50, 50 picks extruder 1, whose weight is 0), and more positive weights than extruders read past the extruder list |
| AutoColor.Scan | src/libslic3r/MultiMaterialAutoColorization.cpp:133-145 | corrected search: 0 or an active extruder from the list |
| AutoColor.Pick | src/libslic3r/MultiMaterialAutoColorization.cpp:111-146 | corrected pick on the scaled value: 0 without extruders or weights, the first extruder when no weight is positive, otherwise 0 or an active extruder |
| AutoColor.AssignColor | src/libslic3r/MultiMaterialAutoColorization.cpp:111-146 | corrected: the same three cases on the normalised value |
| AutoColor.ScanFindsBand | src/libslic3r/MultiMaterialAutoColorization.cpp:133-137 | a value in the band of positive weight i is given extruder i when every positive weight has an active extruder |
| AutoColor.PickBands | src/libslic3r/MultiMaterialAutoColorization.cpp:133-137 | the pick on the scaled value lands on the extruder of the band holding it |
| AutoColor.AssignColorBands | src/libslic3r/MultiMaterialAutoColorization.cpp:111-137 | corrected, extruder i takes exactly the values in its half-open band [sum before i, sum through i) of the normalised weights |
| AutoColor.AssignColorTestValues | src/libslic3r/MultiMaterialAutoColorization.cpp:111-146 | corrected, the values 0, 0.29, 0.3, 0.59, 0.6 and 1 with weights 30, 30, 40 pick 1, 1, 2, 2, 3 and 3, as the repository's test requires |
| AutoColor.AlignedCorrected | src/libslic3r/MultiMaterialAutoColorization.cpp:118-136 | corrected, 0.25 for weights 0, 50, 50 picks extruder 2, and more weights than extruders no longer reads past the list |
| AutoColor.CountActive | src/libslic3r/MultiMaterialAutoColorization.cpp:424-427 | the count of active extruders is at most the list length and positive exactly when some extruder is active |
| AutoColor.NonNegative | src/libslic3r/MultiMaterialAutoColorization.cpp:412-415 | every weight is replaced by its positive part |
| AutoColor.Percentages | src/libslic3r/MultiMaterialAutoColorization.cpp:418-421 | every weight becomes its percentage of the total |
| AutoColor.EqualShare | src/libslic3r/MultiMaterialAutoColorization.cpp:429-434 | the length is kept; active extruders get the equal share, inactive ones 0, and weights past the extruder list are kept |
| AutoColor.Clamp | src/libslic3r/MultiMaterialAutoColorization.cpp:438-450 | the result lies in the range and a value inside is kept |
| AutoColor.ValidateParams | src/libslic3r/MultiMaterialAutoColorization.cpp:394-453 | lengths are kept; extruders are kept when one is active, otherwise the first becomes 1; every weight is non-negative; with a positive total each weight is its positive part as a percentage of the total, with a zero total every active extruder gets 100 over the active count and every other weight is 0; height percents and the noise threshold keep an in-range value and otherwise become the nearer endpoint of [0, 100] or [0, 1]; radius, pitch and noise scale keep a value of at least 0.1 and otherwise become 0.1; turns keep a value of at least 1 and otherwise become 1 |
| AutoColor.ActiveExtruders | src/libslic3r/MultiMaterialAutoColorization.cpp:397-408 | the extruders are kept when one is active; otherwise a non-empty list gets its first extruder set to 1, so an active one always exists |
| AutoColor.ValidDistribution | src/libslic3r/MultiMaterialAutoColorization.cpp:410-435 | the length is kept and every weight is non-negative; with a positive total each weight is its positive part as a percentage of the total; with a zero total each active extruder gets 100 over the active count and every other weight (an inactive extruder, a weight past the extruder list, or every weight when none is active) is 0 |
| AutoColor.SumNonNegative | src/libslic3r/MultiMaterialAutoColorization.cpp:411-415 | non-negative weights have a non-negative total, which is 0 only when every weight is 0 |
| AutoColor.EqualShareNonNegative | src/libslic3r/MultiMaterialAutoColorization.cpp:429-434 | the equal share of non-negative weights is non-negative |
| AutoColor.SumPercentages | src/libslic3r/MultiMaterialAutoColorization.cpp:418-421 | the percentages add up to the total scaled by 100 over the total |
| AutoColor.SumEqualShare | src/libslic3r/MultiMaterialAutoColorization.cpp:429-434 | the equal share adds up to the share times the active count, plus the weights past the extruder list |
| AutoColor.ValidateSumsTo100 | src/libslic3r/MultiMaterialAutoColorization.cpp:410-435 | after validation the weights add up to 100 when some weight was positive, and also when none was, some extruder was given and every extruder has a weight |

## Left out

- Floating point: every `float` and `double` is a `real`, so rounding, `NaN` and the float casts are not modelled. EPSILON is 1e-4; libslic3r.h, which defines it, is not part of this model.
- Number formatting and parsing (`ostringstream`, `boost::lexical_cast`, `atof`, `atoi`, `std::stoi`, the point parser) are function parameters. The round-trip lemmas state which format/parse pairs they assume.
- ConfigOptions.SerializeBool: the digit comes from an `ostringstream`, modelled directly as "1" or "0".
- ConfigOptions.EnumRoundTrip: needs distinct names and distinct values. The source's table is a map, so names are distinct by construction; distinct values are a separate predicate.
- The option classes' virtual dispatch, `clone`, `set(ConfigOption*)` and the `ConfigDef` registry are not modelled. Option definitions and obsolete keys are parameters of PrintConfig.
- Rle: the PNG/raster side of the JXS archive, zip writing and the printer profile are not modelled, only the byte codecs and the layer header.
- Presets.FindPreset: the source's std::lower_bound needs the presets after the default one in name order, which the collection keeps by inserting at the lower bound. The model's ValidCollection does not carry that order, so "not found only when no preset has the name" is FindPresetComplete's, under SortedAfterDefault. On an unordered tail the model takes the first position not ordered before the name, where the source's binary search is unspecified.
- PresetBundle.ParseColor: strings are sequences of characters, not of UTF-8 bytes. A 7-character string holding a non-ASCII character, such as "#FF00Ä0", is 8 bytes in the source and fails its size check with black; the model reads it as 7 characters and stops at the bad digit with (255, 0, 0). The same character-for-byte reading applies to every string in the model.
- Presets: loading, saving and file-system access of preset collections are not modelled. The INI/JSON tree fed to the vote is an abstract list of sections and keys.
- DoubleSlider: drawing, mouse and key events and the posting of wxWidgets events are not modelled, only the thumb and tick state.
- GCodeViewer.GetFlagsSpec: the bit positions of the flags word follow the order of Preview::OptionType (Travel, Retractions, Unretractions, ToolChanges, ColorChanges, PausePrints, CustomGCodes, Shells, ToolMarker, Legend, TimeEstimate). Preview's header is not part of this model.
- GCodeProcessor.ClassifyMove: ENABLE_GCODE_VIEWER_AS_STATE is a boolean parameter, not a build-time switch, so both branches of the conditional compilation are modelled.
- GCodeViewer rendering, shaders, the legend, the sequential slider and the extrusion-path range colours are not modelled.
- ZMerge.MergedHeightsCloserThanEpsilon: merged heights are only guaranteed to be more than EPSILON/2 apart, not more than EPSILON. The lemma exhibits three heights for which EPSILON fails.
- Scene3D.CompositeId: the `int` packing is modelled only where the id fits in an `int` (the round-trip requires it); overflow for very large object indices is not modelled.
- Scene3D.SetRange: the vertex ranges come from the volume's offsets; building the offsets from geometry is not modelled.
- Scene3D drawing (`render`, VBOs, shaders) is not modelled, only the colour choice.
- Fill: infill pattern generation (FillRectilinear, FillRhodo and the other patterns) is out of scope; only the spacing helpers of FillBase are modelled.
- Geometry.DotSelfPositive: states the exact product. The source's int64_t dot of (INT32_MIN, INT32_MIN) with itself is 2^63, which overflows (signed overflow is undefined in C++; DotSelfWrapped takes the two's-complement wrap, INT64_MIN). DotFitsInt64 shows this is the only overflowing input.
- Geometry.FindCoversRadius: states that the cells visited cover the search radius. The candidate scan and distance comparison of `find` over a real grid map are not modelled.
- ThreeMf.CreateObjectInstance: `add_instance` returning a null pointer is not modelled. On failure the source keeps instances already created, while the model returns the error alone.
- ThreeMf: the XML parser callbacks, the zip archive, mesh and metadata reading, and `_handle_end_object`'s bookkeeping are not modelled. The alias map and the set of objects with a model object are parameters.
- GCodeProcessor: not modelled are:
  - the time estimator (trapezoids, jerk, acceleration, `simulate_st_synchronize`);
  - M1, M201, M203, M204, M205, M401, M402, M566 and M702;
  - the flavour-dependent M108 and M135;
  - `process_tags`, `apply_config` and `process_file`;
  - the `cp_color`/`extruders_color` bookkeeping.
- GCodeProcessor.ProcessT: the log messages of an invalid tool change are not modelled; the state is what the model tracks.
- Gizmos.SelectPoint: an index outside the cache is undefined behaviour in the source, so the model requires it in range.
- Gizmos: rendering, mouse hover and drag, raycasting, the back end's support generation and the ImGui panel are not modelled. The AllPoints/NoPoints sentinels are a datatype, because the header defining their values is not part of this model.
- AutoColor: the patterns that colour a mesh (height gradient, radial, spiral, Perlin noise) and TriangleSelector are not modelled. The Params record carries only the fields that validation touches, because the header defining MMUAutoColorizationParams is not part of this model.

## Findings

| source | as written | input that shows it | evidently intended | confidence | as-written member | corrected member |
|---|---|---|---|---|---|---|
| xs/src/libslic3r/Config.cpp:23-38,87-104 | escape_string_cstyle copies '\\' unescaped, and unescape_string_cstyle drops a backslash and turns the character after it into a newline only for 'n', dropping it otherwise | the string `\x` escapes to `\x` and unescapes to the empty string; `\n` (backslash, n) comes back as a newline | a backslash is escaped as `\\`, and unescaping keeps the escaped character, so every string without '\r' round-trips | not executed | ConfigEscape.BackslashLostInRoundTrip | ConfigEscape.EscapeStringFixedRoundTrip |
| xs/src/libslic3r/Point.hpp:102-127 | grid_log2 counts the binary digits of gridres, so for gridres a power of two the resolution is twice gridres | search radius 2 gives gridres 8, log2 4 and resolution 16, and the assertion gridres > resolution / 2 fails | the smallest power of two not below gridres (the digits of gridres - 1) | not executed | Geometry.GridResolutionAsWrittenDoubles | Geometry.NewLookup |
| src/libslic3r/MultiMaterialAutoColorization.cpp:118-122,134-136 | the cumulative list holds only positive weights, but entry i is paired with extruders[i], and i can run past the extruder list | weights 0, 50, 50 with extruders 1, 2, 3 give value 0.25 to extruder 1, whose weight is 0; weights 50, 50 with the single extruder 1 read extruders[1] for value 0.75 | each positive weight keeps the extruder at its own index | not executed | AutoColor.MisalignedAsWritten | AutoColor.AssignColorBands |
| src/libslic3r/MultiMaterialAutoColorization.cpp:135 | a value equal to a cumulative boundary goes to the band below (`<=`) | weights 30, 30, 40 with extruders 1, 2, 3, 0, 0: value 0.3 picks 1 and 0.6 picks 2, while tests/libslic3r/test_mmu_auto_colorization.cpp:117-127 expects 2 and 3 | half-open bands closed below, so a boundary value starts the next band | not executed | AutoColor.BoundaryAsWritten | AutoColor.AssignColorTestValues |
