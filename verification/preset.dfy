/** Presets and preset collections (xs/src/slic3r/GUI/Preset.cpp): the
    " (modified)" suffix of dirty presets, the vote that guesses the kind of a
    loaded INI file, and selection of the active preset in a collection. */
module Presets {
  import opened Wrappers

  // ---------------------------------------------------------------------------
  // The " (modified)" suffix
  // ---------------------------------------------------------------------------

  const SuffixModified: string := " (modified)"

  predicate EndsWith(s: string, suffix: string)
  {
    |suffix| <= |s| && s[|s| - |suffix|..] == suffix
  }

  predicate StartsWith(s: string, prefix: string)
  {
    |prefix| <= |s| && s[..|prefix|] == prefix
  }

  /** remove_suffix_modified: strip one trailing " (modified)". */
  function RemoveSuffixModified(name: string): (r: string)
    ensures EndsWith(name, SuffixModified) ==> r + SuffixModified == name
    ensures !EndsWith(name, SuffixModified) ==> r == name
  {
    if EndsWith(name, SuffixModified) then name[..|name| - |SuffixModified|] else name
  }

  /** Appending the suffix and removing it again gives the name back. */
  lemma RemoveSuffixOfModified(n: string)
    ensures RemoveSuffixModified(n + SuffixModified) == n
  {
    var s := n + SuffixModified;
    assert s[|s| - |SuffixModified|..] == SuffixModified;
    assert s[..|s| - |SuffixModified|] == n;
  }

  datatype Preset = Preset(name: string, isVisible: bool, isDirty: bool)

  /** label: the name, with the suffix when the preset is dirty. */
  function Label(p: Preset): (r: string)
    ensures p.isDirty ==> |r| == |p.name| + |SuffixModified|
    ensures !p.isDirty ==> r == p.name
  {
    p.name + (if p.isDirty then SuffixModified else "")
  }

  /** The preset name is recovered from its label whether or not it is dirty,
      as long as the name itself does not end in the suffix. */
  lemma RemoveSuffixOfLabel(p: Preset)
    requires p.isDirty || !EndsWith(p.name, SuffixModified)
    ensures RemoveSuffixModified(Label(p)) == p.name
  {
    if p.isDirty {
      RemoveSuffixOfModified(p.name);
    } else {
      assert Label(p) == p.name;
    }
  }

  // ---------------------------------------------------------------------------
  // guess_config_file_type
  // ---------------------------------------------------------------------------

  datatype ConfigFileType = AppConfigFile | ConfigBundleFile | ConfigFile

  /** One top-level entry of the parsed INI tree: its key, whether it has no
      children (a plain key = value line), and the keys of its children. */
  datatype TreeEntry = TreeEntry(key: string, leaf: bool, children: seq<string>)

  datatype Votes = Votes(appConfig: nat, bundle: nat, config: nat)

  function CountDirectoryKeys(children: seq<string>): (n: nat)
    ensures n <= |children|
  {
    if children == [] then 0
    else (if children[0] == "config_directory" || children[0] == "skein_directory" then 1 else 0)
         + CountDirectoryKeys(children[1..])
  }

  /** The votes one entry casts. */
  function Vote(e: TreeEntry): (v: Votes)
    ensures v.config <= 1 && v.bundle <= 1
  {
    if e.leaf then
      if e.key in ["background_processing", "last_output_path", "no_controller", "no_defaults"] then Votes(1, 0, 0)
      else if e.key in ["nozzle_diameter", "filament_diameter"] then Votes(0, 0, 1)
      else Votes(0, 0, 0)
    else if StartsWith(e.key, "print:") || StartsWith(e.key, "filament:")
         || StartsWith(e.key, "printer:") || e.key == "settings" then Votes(0, 1, 0)
    else if e.key == "presets" then Votes(1, 1, 0)
    else if e.key == "recent" then Votes(CountDirectoryKeys(e.children), 0, 0)
    else Votes(0, 0, 0)
  }

  function AddVotes(a: Votes, b: Votes): Votes
  {
    Votes(a.appConfig + b.appConfig, a.bundle + b.bundle, a.config + b.config)
  }

  function CountVotes(tree: seq<TreeEntry>): (v: Votes)
    ensures v.bundle <= |tree| && v.config <= |tree|
  {
    if tree == [] then Votes(0, 0, 0) else AddVotes(Vote(tree[0]), CountVotes(tree[1..]))
  }

  /** The decision on the totals: the app config must win outright, then a
      bundle beats a plain config. */
  function Decide(v: Votes): ConfigFileType
  {
    if v.appConfig > v.bundle && v.appConfig > v.config then AppConfigFile
    else if v.bundle > v.config then ConfigBundleFile
    else ConfigFile
  }

  function GuessConfigFileType(tree: seq<TreeEntry>): (t: ConfigFileType)
    ensures t == AppConfigFile <==> CountVotes(tree).appConfig > CountVotes(tree).bundle
                                    && CountVotes(tree).appConfig > CountVotes(tree).config
    ensures t == ConfigBundleFile ==> CountVotes(tree).bundle > CountVotes(tree).config
    ensures t == ConfigFile ==> CountVotes(tree).bundle <= CountVotes(tree).config
  {
    Decide(CountVotes(tree))
  }

  lemma {:induction false} CountVotesAppend(a: seq<TreeEntry>, b: seq<TreeEntry>)
    ensures CountVotes(a + b) == AddVotes(CountVotes(a), CountVotes(b))
    decreases |a|
  {
    if a == [] {
      assert a + b == b;
      assert CountVotes(a) == Votes(0, 0, 0);
      AddVotesZero(CountVotes(b));
    } else {
      var x := Vote(a[0]);
      assert (a + b)[0] == a[0];
      assert (a + b)[1..] == a[1..] + b;
      assert CountVotes(a + b) == AddVotes(x, CountVotes(a[1..] + b));
      CountVotesAppend(a[1..], b);
      assert CountVotes(a) == AddVotes(x, CountVotes(a[1..]));
      AddVotesAssoc(x, CountVotes(a[1..]), CountVotes(b));
    }
  }

  lemma AddVotesZero(v: Votes)
    ensures AddVotes(Votes(0, 0, 0), v) == v
  {
  }

  lemma AddVotesAssoc(x: Votes, y: Votes, z: Votes)
    ensures AddVotes(x, AddVotes(y, z)) == AddVotes(AddVotes(x, y), z)
  {
  }

  /** A "presets" section votes for both the app config and a bundle, so on
      its own it ties them and the file is taken for a bundle. */
  lemma PresetsSectionIsBundle()
    ensures GuessConfigFileType([TreeEntry("presets", false, [])]) == ConfigBundleFile
  {
    var e := TreeEntry("presets", false, []);
    assert !StartsWith("presets", "print:") && !StartsWith("presets", "printer:") by {
      assert "presets"[5] != "print:"[5];
    }
    assert !StartsWith("presets", "filament:");
    assert Vote(e) == Votes(1, 1, 0);
    assert [e][1..] == [];
  }

  lemma NozzleDiameterVotesConfig()
    ensures CountVotes([TreeEntry("nozzle_diameter", true, [])]) == Votes(0, 0, 1)
  {
    var n := [TreeEntry("nozzle_diameter", true, [])];
    assert "nozzle_diameter" != "background_processing";
    assert "nozzle_diameter" != "last_output_path";
    assert "nozzle_diameter" != "no_controller";
    assert "nozzle_diameter" != "no_defaults";
    assert Vote(n[0]) == Votes(0, 0, 1);
    assert n[1..] == [];
  }

  /** Adding a printer key line to a file read as a plain config keeps it
      one. */
  lemma {:induction false} ConfigVoteKeepsConfig(tree: seq<TreeEntry>)
    requires GuessConfigFileType(tree) == ConfigFile
    ensures GuessConfigFileType(tree + [TreeEntry("nozzle_diameter", true, [])]) == ConfigFile
  {
    var n := [TreeEntry("nozzle_diameter", true, [])];
    NozzleDiameterVotesConfig();
    CountVotesAppend(tree, n);
    DecideMoreConfig(CountVotes(tree));
  }

  /** One more vote for a plain config never changes a ConfigFile decision. */
  lemma DecideMoreConfig(v: Votes)
    requires Decide(v) == ConfigFile
    ensures Decide(AddVotes(v, Votes(0, 0, 1))) == ConfigFile
  {
  }

  // ---------------------------------------------------------------------------
  // PresetCollection selection
  // ---------------------------------------------------------------------------

  /** A collection of presets, the "- default -" preset first. */
  datatype Collection = Collection(
    presets: seq<Preset>, defaultSuppressed: bool, idxSelected: nat, edited: Preset)

  predicate ValidCollection(c: Collection)
  {
    c.presets != [] && c.idxSelected < |c.presets|
  }

  /** The first visible index at or after `i`, if any. */
  function FirstVisibleFrom(presets: seq<Preset>, i: nat): (r: Option<nat>)
    ensures r.Some? ==> i <= r.value < |presets| && presets[r.value].isVisible
    ensures r.Some? ==> forall j :: i <= j < r.value ==> !presets[j].isVisible
    ensures r.None? ==> forall j :: i <= j < |presets| ==> !presets[j].isVisible
    decreases |presets| - i
  {
    if i >= |presets| then None
    else if presets[i].isVisible then Some(i)
    else FirstVisibleFrom(presets, i + 1)
  }

  /** first_visible_idx: the first visible preset, skipping the default one
      when it is suppressed; 0 when none is visible. */
  function FirstVisibleIdx(presets: seq<Preset>, defaultSuppressed: bool): (r: nat)
    requires presets != []
    ensures r < |presets|
    ensures r == 0 || presets[r].isVisible
    ensures forall j :: (if defaultSuppressed then 1 else 0) <= j < r ==> !presets[j].isVisible
  {
    match FirstVisibleFrom(presets, if defaultSuppressed then 1 else 0)
    case Some(i) => i
    case None => 0
  }

  function ClearDirty(presets: seq<Preset>): (r: seq<Preset>)
    ensures |r| == |presets|
    ensures forall k :: 0 <= k < |r| ==> r[k] == presets[k].(isDirty := false)
  {
    seq(|presets|, k requires 0 <= k < |presets| => presets[k].(isDirty := false))
  }

  /** select_preset: drop all edits, select `idx` (or the first visible preset
      when `idx` is out of range), copy it into the edited preset, and show the
      default preset unless it is suppressed and not selected. */
  function SelectPreset(c: Collection, idx: nat): (r: Collection)
    requires c.presets != []
    ensures ValidCollection(r)
    ensures |r.presets| == |c.presets| && r.defaultSuppressed == c.defaultSuppressed
    ensures idx < |c.presets| ==> r.idxSelected == idx
    ensures idx >= |c.presets| ==> r.idxSelected == FirstVisibleIdx(c.presets, c.defaultSuppressed)
    ensures forall k :: 0 <= k < |r.presets| ==> !r.presets[k].isDirty && r.presets[k].name == c.presets[k].name
    ensures forall k :: 1 <= k < |r.presets| ==> r.presets[k].isVisible == c.presets[k].isVisible
    ensures r.presets[0].isVisible <==> !c.defaultSuppressed || r.idxSelected == 0
    ensures r.edited.name == c.presets[r.idxSelected].name && !r.edited.isDirty
  {
    var cleared := ClearDirty(c.presets);
    var i := if idx >= |c.presets| then FirstVisibleIdx(c.presets, c.defaultSuppressed) else idx;
    var front := cleared[0].(isVisible := !c.defaultSuppressed || i == 0);
    Collection(cleared[0 := front], c.defaultSuppressed, i, cleared[i])
  }

  /** Selecting is idempotent: selecting the selected preset again changes
      nothing. */
  lemma SelectPresetIdempotent(c: Collection, idx: nat)
    requires c.presets != []
    ensures SelectPreset(SelectPreset(c, idx), SelectPreset(c, idx).idxSelected).presets
         == SelectPreset(c, idx).presets
  {
    var r := SelectPreset(c, idx);
    var r2 := SelectPreset(r, r.idxSelected);
    assert forall k :: 0 <= k < |r2.presets| ==> r2.presets[k] == r.presets[k];
  }

  /** std::string's operator<: lexicographic by character, a proper prefix
      first. */
  predicate NameLess(a: string, b: string)
  {
    if |a| == 0 then |b| > 0
    else if |b| == 0 then false
    else if a[0] != b[0] then a[0] < b[0]
    else NameLess(a[1..], b[1..])
  }

  /** No name is less than itself, and of two different names one is less. */
  lemma {:induction false} NameLessStrictTotal(a: string, b: string)
    ensures !NameLess(a, a)
    ensures a != b ==> NameLess(a, b) || NameLess(b, a)
  {
    if |a| > 0 && |b| > 0 && a[0] == b[0] {
      NameLessStrictTotal(a[1..], b[1..]);
      if a != b {
        assert a == [a[0]] + a[1..] && b == [b[0]] + b[1..];
      }
    }
    if |a| > 0 {
      NameLessStrictTotal(a[1..], a[1..]);
    }
  }

  /** The presets after the default one are in name order, as the collection
      keeps them (they are inserted at their lower bound). */
  predicate SortedAfterDefault(presets: seq<Preset>)
  {
    forall i, j :: 1 <= i < j < |presets| ==> !NameLess(presets[j].name, presets[i].name)
  }

  /** std::lower_bound over presets[i..]: the first position whose name is
      not less than `name`, or the end. */
  function LowerBound(presets: seq<Preset>, name: string, i: nat): (r: nat)
    requires i <= |presets|
    ensures i <= r <= |presets|
    ensures forall k :: i <= k < r ==> NameLess(presets[k].name, name)
    ensures r < |presets| ==> !NameLess(presets[r].name, name)
    decreases |presets| - i
  {
    if i == |presets| || !NameLess(presets[i].name, name) then i
    else LowerBound(presets, name, i + 1)
  }

  /** find_preset_internal followed by the name check of its callers: the
      lower bound of the name among the presets after the default one when
      it holds that name, else the default preset when it has that name. */
  function FindPreset(presets: seq<Preset>, name: string): (r: Option<nat>)
    requires presets != []
    ensures r.Some? ==> r.value < |presets| && presets[r.value].name == name
    ensures r.None? ==> presets[0].name != name
  {
    var it := LowerBound(presets, name, 1);
    if it < |presets| && presets[it].name == name then Some(it)
    else if presets[0].name == name then Some(0)
    else None
  }

  /** On name-ordered presets the lower bound misses a name only when no
      preset holds it, so a preset is found exactly when one has that name. */
  lemma FindPresetComplete(presets: seq<Preset>, name: string)
    requires presets != [] && SortedAfterDefault(presets)
    ensures FindPreset(presets, name).None? <==> forall k :: 0 <= k < |presets| ==> presets[k].name != name
  {
    var it := LowerBound(presets, name, 1);
    if FindPreset(presets, name).None? {
      forall k | 0 <= k < |presets| ensures presets[k].name != name {
        if 1 <= k < it {
          NameLessStrictTotal(name, name);
        } else if k >= it && k > 0 {
          assert it < |presets| && presets[it].name != name;
          NameLessStrictTotal(presets[it].name, name);
          if k > it {
            assert !NameLess(presets[k].name, presets[it].name);
            NameLessStrictTotal(presets[k].name, presets[it].name);
          }
        }
      }
    }
  }

  /** On presets out of name order the lower bound can miss a preset that is
      there: "b" before "a" hides "a". */
  lemma FindPresetNeedsOrder()
    ensures var d := Preset("- default -", true, false);
      FindPreset([d, Preset("b", true, false), Preset("a", true, false)], "a").None?
  {
    var d := Preset("- default -", true, false);
    var ps := [d, Preset("b", true, false), Preset("a", true, false)];
    assert !NameLess("b", "a");
    assert LowerBound(ps, "a", 1) == 1;
  }

  /** select_preset_by_name: strip the suffix, find the preset (or fall back
      to the first visible one), and select it if that changes the selection
      or `force` is set. The flag tells whether it selected. */
  function SelectPresetByName(c: Collection, nameWithSuffix: string, force: bool): (r: (Collection, bool))
    requires ValidCollection(c)
    ensures r.1 <==> force || r.0.idxSelected != c.idxSelected
    ensures !r.1 ==> r.0 == c
    ensures ValidCollection(r.0) && |r.0.presets| == |c.presets|
    ensures FindPreset(c.presets, RemoveSuffixModified(nameWithSuffix)).Some? ==>
      r.0.idxSelected == FindPreset(c.presets, RemoveSuffixModified(nameWithSuffix)).value
    ensures FindPreset(c.presets, RemoveSuffixModified(nameWithSuffix)).None? ==>
      r.0.idxSelected == FirstVisibleIdx(c.presets, c.defaultSuppressed)
  {
    var name := RemoveSuffixModified(nameWithSuffix);
    var idx := match FindPreset(c.presets, name)
      case Some(i) => i
      case None => FirstVisibleIdx(c.presets, c.defaultSuppressed);
    if c.idxSelected != idx || force then (SelectPreset(c, idx), true) else (c, false)
  }

  /** Selecting a preset by its label selects that preset. */
  lemma SelectByLabel(c: Collection, k: nat)
    requires ValidCollection(c) && k < |c.presets|
    requires c.presets[k].isDirty || !EndsWith(c.presets[k].name, SuffixModified)
    requires SortedAfterDefault(c.presets)
    ensures c.presets[SelectPresetByName(c, Label(c.presets[k]), true).0.idxSelected].name == c.presets[k].name
  {
    RemoveSuffixOfLabel(c.presets[k]);
    FindPresetComplete(c.presets, c.presets[k].name);
  }
}
