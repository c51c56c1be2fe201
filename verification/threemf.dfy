/** Helpers of the 3MF importer (xs/src/libslic3r/Format/3mf.cpp): XML
    attribute lookup, the unit factor, the object-type check, the transform
    string and the bounded resolution of aliased objects into instances. The
    XML parser, the zip archive and the mesh data are not modelled; `atof` is
    a parameter. */
module ThreeMf {
  import opened Wrappers
  import opened Strings

  // ---------------------------------------------------------------------------
  // Attributes
  // ---------------------------------------------------------------------------

  /** The attribute list holds `key` at pair `i`. */
  predicate KeyAt(attrs: seq<string>, i: int, key: string)
  {
    0 <= 2 * i < |attrs| && attrs[2 * i] == key
  }

  /** Look for `key` among the pairs from pair `i` on. */
  function FindFrom(attrs: seq<string>, key: string, i: nat): (r: Option<string>)
    requires |attrs| % 2 == 0
    ensures r.None? <==> forall j :: i <= j ==> !KeyAt(attrs, j, key)
    ensures r.Some? ==>
      exists j :: (i <= j && KeyAt(attrs, j, key) && r.value == attrs[2 * j + 1]
                   && forall k :: i <= k < j ==> !KeyAt(attrs, k, key))
    decreases |attrs| - 2 * i
  {
    if 2 * i >= |attrs| then None
    else if attrs[2 * i] == key then
      assert KeyAt(attrs, i, key);
      Some(attrs[2 * i + 1])
    else FindFrom(attrs, key, i + 1)
  }

  /** get_attribute_value_charptr: nothing (a null pointer) for a null list, an
      empty or odd-sized list, a null key or a missing key; otherwise the value
      paired with the first occurrence of the key. */
  function GetAttributeValue(attrs: Option<seq<string>>, key: Option<string>): (r: Option<string>)
    ensures r.Some? <==>
      (attrs.Some? && key.Some? && |attrs.value| % 2 == 0 && exists j :: KeyAt(attrs.value, j, key.value))
    ensures r.Some? ==>
      exists j :: (KeyAt(attrs.value, j, key.value) && r.value == attrs.value[2 * j + 1]
                   && forall k :: 0 <= k < j ==> !KeyAt(attrs.value, k, key.value))
  {
    if attrs.None? || |attrs.value| == 0 || |attrs.value| % 2 != 0 || key.None? then None
    else FindFrom(attrs.value, key.value, 0)
  }

  /** get_attribute_value_string: the value, or the empty string when the
      lookup finds nothing. */
  function GetAttributeValueString(attrs: Option<seq<string>>, key: Option<string>): (r: string)
    ensures GetAttributeValue(attrs, key).None? ==> r == ""
    ensures GetAttributeValue(attrs, key).Some? ==> r == GetAttributeValue(attrs, key).value
  {
    match GetAttributeValue(attrs, key)
    case None => ""
    case Some(v) => v
  }

  /** A list of pairs with distinct keys yields each key's own value. */
  lemma {:induction false} LookupFindsPairedValue(keys: seq<string>, values: seq<string>, j: nat)
    requires |keys| == |values| && j < |keys|
    requires forall a, b :: 0 <= a < b < |keys| ==> keys[a] != keys[b]
    ensures GetAttributeValue(Some(Pairs(keys, values)), Some(keys[j])) == Some(values[j])
  {
    var attrs := Pairs(keys, values);
    PairsIndex(keys, values);
    assert KeyAt(attrs, j, keys[j]);
    var r := GetAttributeValue(Some(attrs), Some(keys[j]));
    var j' :| KeyAt(attrs, j', keys[j]) && r.value == attrs[2 * j' + 1]
      && forall k :: 0 <= k < j' ==> !KeyAt(attrs, k, keys[j]);
  }

  /** Interleave keys and values: k0, v0, k1, v1, ... */
  function Pairs(keys: seq<string>, values: seq<string>): (r: seq<string>)
    requires |keys| == |values|
    ensures |r| == 2 * |keys|
    decreases |keys|
  {
    if keys == [] then [] else [keys[0], values[0]] + Pairs(keys[1..], values[1..])
  }

  lemma {:induction false} PairsIndex(keys: seq<string>, values: seq<string>)
    requires |keys| == |values|
    ensures forall i :: 0 <= i < |keys| ==> Pairs(keys, values)[2 * i] == keys[i] && Pairs(keys, values)[2 * i + 1] == values[i]
    decreases |keys|
  {
    if keys != [] {
      PairsIndex(keys[1..], values[1..]);
      var r := Pairs(keys, values);
      forall i | 1 <= i < |keys|
        ensures r[2 * i] == keys[i] && r[2 * i + 1] == values[i]
      {
        assert r[2 * i] == Pairs(keys[1..], values[1..])[2 * (i - 1)];
        assert r[2 * i + 1] == Pairs(keys[1..], values[1..])[2 * (i - 1) + 1];
      }
    }
  }

  // ---------------------------------------------------------------------------
  // Units and object types
  // ---------------------------------------------------------------------------

  /** The unit names of the 3MF core specification with their size in
      millimetres. */
  const UnitFactors: map<string, real> :=
    map["micron" := 0.001, "centimeter" := 10.0, "inch" := 25.4, "foot" := 304.8, "meter" := 1000.0]

  /** get_unit_factor: the known units by name, millimetres otherwise. */
  function GetUnitFactor(unit: string): (f: real)
    ensures unit in UnitFactors ==> f == UnitFactors[unit]
    ensures unit !in UnitFactors ==> f == 1.0
  {
    if unit == "micron" then 0.001
    else if unit == "centimeter" then 10.0
    else if unit == "inch" then 25.4
    else if unit == "foot" then 304.8
    else if unit == "meter" then 1000.0
    else 1.0
  }

  /** Every factor is positive, and a unit scales by 1 exactly when it is not
      one of the named units, so no named unit is mistaken for millimetres. */
  lemma UnitFactorPositive(unit: string)
    ensures GetUnitFactor(unit) > 0.0
    ensures GetUnitFactor(unit) == 1.0 <==> unit !in UnitFactors
  {
  }

  const ValidObjectTypes: seq<string> := ["model"]
  const InvalidObjectTypes: seq<string> := ["solidsupport", "support", "surface", "other"]

  /** Whether `t` is one of the listed names, compared in list order. */
  function ListedFrom(t: string, names: seq<string>): (r: bool)
    ensures r <==> t in names
  {
    if names == [] then false else t == names[0] || ListedFrom(t, names[1..])
  }

  /** is_valid_object_type: an empty type defaults to "model". */
  function IsValidObjectType(t: string): (r: bool)
    ensures r <==> t == "" || t == "model"
  {
    t == [] || ListedFrom(t, ValidObjectTypes)
  }

  /** The types the specification lists as not printable are rejected. */
  lemma InvalidObjectTypesRejected()
    ensures forall t :: t in InvalidObjectTypes ==> !IsValidObjectType(t)
  {
    assert "solidsupport" != "model" && "support" != "model";
    assert "surface" != "model" && "other" != "model";
  }

  // ---------------------------------------------------------------------------
  // Transform strings
  // ---------------------------------------------------------------------------

  /** Skip leading spaces. */
  function DropSpaces(s: string): (r: string)
    ensures |r| <= |s|
    ensures r == [] || r[0] != ' '
    ensures |s| > 0 && s[0] == ' ' ==> |r| < |s|
  {
    if s != [] && s[0] == ' ' then DropSpaces(s[1..]) else s
  }

  /** boost::split on ' ' with token_compress_on: a run of spaces separates
      two tokens; a leading or trailing run gives an empty token. */
  function Tokens(s: string): (r: seq<string>)
    ensures |r| >= 1
    decreases |s|
  {
    var (w, rest) := SplitAt(s, ' ');
    if rest == [] then [w] else [w] + Tokens(DropSpaces(rest))
  }

  /** Tokens joined by single spaces. */
  function JoinSpaces(ts: seq<string>): string
    requires |ts| >= 1
  {
    if |ts| == 1 then ts[0] else ts[0] + " " + JoinSpaces(ts[1..])
  }

  predicate Word(t: string)
  {
    t != [] && forall k :: 0 <= k < |t| ==> t[k] != ' '
  }

  /** Splitting non-empty, space-free tokens joined by spaces gives them
      back. */
  lemma {:induction false} TokensOfJoin(ts: seq<string>)
    requires |ts| >= 1 && forall i :: 0 <= i < |ts| ==> Word(ts[i])
    ensures Tokens(JoinSpaces(ts)) == ts
    decreases |ts|
  {
    assert Word(ts[0]);
    if |ts| == 1 {
      SplitAtOfWord(ts[0], ' ', []);
      assert ts[0] + [] == ts[0];
    } else {
      var rest := " " + JoinSpaces(ts[1..]);
      assert ts[0] + " " + JoinSpaces(ts[1..]) == ts[0] + rest;
      SplitAtOfWord(ts[0], ' ', rest);
      assert Word(ts[1]);
      JoinStartsWithWord(ts[1..]);
      assert rest[1..] == JoinSpaces(ts[1..]);
      assert DropSpaces(rest) == DropSpaces(rest[1..]);
      TokensOfJoin(ts[1..]);
    }
  }

  lemma JoinStartsWithWord(ts: seq<string>)
    requires |ts| >= 1 && Word(ts[0])
    ensures JoinSpaces(ts)[0] == ts[0][0]
  {
  }

  /** A 4x4 matrix, row major. */
  type Matrix = seq<seq<real>>

  predicate Square4(m: Matrix)
  {
    |m| == 4 && forall r :: 0 <= r < 4 ==> |m[r]| == 4
  }

  function IdentityEntry(r: int, c: int): real
  {
    if r == c then 1.0 else 0.0
  }

  const Identity: Matrix := seq(4, r => seq(4, c => IdentityEntry(r, c)))

  /** Entry (r, c) read from twelve tokens stored column by column for the
      top three rows; the last row stays that of the identity. */
  function EntryOf(ts: seq<string>, atof: string -> real, r: int, c: int): real
    requires |ts| == 12
  {
    if 0 <= r < 3 && 0 <= c < 4 then atof(ts[3 * c + r]) else IdentityEntry(r, c)
  }

  /** get_matrix_from_string: identity for the empty string or a token count
      other than 12; otherwise the tokens transposed from the 3MF 4x3 layout. */
  function GetMatrixFromString(s: string, atof: string -> real): (m: Matrix)
    ensures Square4(m)
    ensures s == [] || |Tokens(s)| != 12 ==> m == Identity
    ensures s != [] && |Tokens(s)| == 12 ==>
      (forall r, c :: 0 <= r < 3 && 0 <= c < 4 ==> m[r][c] == atof(Tokens(s)[3 * c + r]))
      && m[3] == [0.0, 0.0, 0.0, 1.0]
  {
    if s == [] then Identity
    else
      var ts := Tokens(s);
      if |ts| != 12 then Identity
      else seq(4, r => seq(4, c => EntryOf(ts, atof, r, c)))
  }

  /** Twelve numbers written with single spaces read back into the top three
      rows, column by column. */
  lemma MatrixOfTwelveWords(ts: seq<string>, atof: string -> real)
    requires |ts| == 12 && forall i :: 0 <= i < 12 ==> Word(ts[i])
    ensures var m := GetMatrixFromString(JoinSpaces(ts), atof);
      forall r, c :: 0 <= r < 3 && 0 <= c < 4 ==> m[r][c] == atof(ts[3 * c + r])
  {
    TokensOfJoin(ts);
    assert Word(ts[0]);
    JoinStartsWithWord(ts);
  }

  // ---------------------------------------------------------------------------
  // Instances of aliased objects
  // ---------------------------------------------------------------------------

  /** A component of an object: another object under a transform. */
  datatype Component<M> = Component(objectId: int, matrix: M)

  /** A created instance of a mesh object with its accumulated transform. */
  datatype Instance<M> = Instance(objectId: int, matrix: M)

  /** MAX_RECURSIONS of _create_object_instance. */
  const MaxRecursions: nat := 10

  /** The object is an alias of itself only: it has a mesh of its own. */
  predicate SelfAliased<M>(aliases: map<int, seq<Component<M>>>, id: int)
  {
    id in aliases && |aliases[id]| == 1 && aliases[id][0].objectId == id
  }

  /** The recursion levels still allowed. */
  function Budget(recur: nat): nat
  {
    if recur > MaxRecursions then 0 else MaxRecursions + 1 - recur
  }

  /** _create_object_instance: an object that aliases itself becomes one
      instance (when its model object exists); any other object stands for
      its components, each resolved with the composed transform one level
      deeper; more than MAX_RECURSIONS levels is an error, which ends
      circular aliasing. `objects` are the ids with a model object and `mul`
      the matrix product. */
  function CreateObjectInstance<M>(aliases: map<int, seq<Component<M>>>, objects: set<int>, objectId: int,
                                   matrix: M, recur: nat, mul: (M, M) -> M): (r: Result<seq<Instance<M>>>)
    ensures recur > MaxRecursions ==> r == Failure("Too many recursions")
    ensures recur <= MaxRecursions && objectId !in aliases ==> r == Failure("Found item with invalid object id")
    ensures r.Success? ==> forall inst :: inst in r.value ==> inst.objectId in objects && SelfAliased(aliases, inst.objectId)
    decreases Budget(recur), 1, 0
  {
    if recur > MaxRecursions then Failure("Too many recursions")
    else if objectId !in aliases then Failure("Found item with invalid object id")
    else if SelfAliased(aliases, objectId) then
      if objectId !in objects then Failure("Found invalid object")
      else Success([Instance(objectId, matrix)])
    else CreateComponents(aliases, objects, aliases[objectId], matrix, recur, mul)
  }

  /** The loop over the components of an aliased object, stopping at the
      first failure. */
  function CreateComponents<M>(aliases: map<int, seq<Component<M>>>, objects: set<int>, comps: seq<Component<M>>,
                               matrix: M, recur: nat, mul: (M, M) -> M): (r: Result<seq<Instance<M>>>)
    requires recur <= MaxRecursions
    ensures r.Success? ==> forall inst :: inst in r.value ==> inst.objectId in objects && SelfAliased(aliases, inst.objectId)
    decreases Budget(recur), 0, |comps|
  {
    if comps == [] then Success([])
    else
      match CreateObjectInstance(aliases, objects, comps[0].objectId, mul(matrix, comps[0].matrix), recur + 1, mul)
      case Failure(e) => Failure(e)
      case Success(first) =>
        match CreateComponents(aliases, objects, comps[1..], matrix, recur, mul)
        case Failure(e) => Failure(e)
        case Success(rest) => Success(first + rest)
  }

  /** Two objects that alias each other end in "Too many recursions" from any
      level, whatever the transform. */
  lemma {:induction false} CircularAliasFails<M>(aliases: map<int, seq<Component<M>>>, objects: set<int>, a: int, b: int,
                                                 matrix: M, recur: nat, mul: (M, M) -> M)
    requires a != b && a in aliases && b in aliases
    requires |aliases[a]| == 1 && aliases[a][0].objectId == b
    requires |aliases[b]| == 1 && aliases[b][0].objectId == a
    ensures CreateObjectInstance(aliases, objects, a, matrix, recur, mul) == Failure("Too many recursions")
    decreases Budget(recur)
  {
    if recur <= MaxRecursions {
      var m := mul(matrix, aliases[a][0].matrix);
      CircularAliasFails(aliases, objects, b, a, m, recur + 1, mul);
      assert CreateComponents(aliases, objects, aliases[a], matrix, recur, mul) == Failure("Too many recursions");
    }
  }

  /** An object with a mesh of its own becomes one instance under the given
      transform; one component level above it composes the transforms. */
  lemma NestedInstance<M>(aliases: map<int, seq<Component<M>>>, objects: set<int>, parent: int, child: int,
                          matrix: M, childMatrix: M, recur: nat, mul: (M, M) -> M)
    requires recur < MaxRecursions && parent != child && child in objects
    requires SelfAliased(aliases, child)
    requires parent in aliases && aliases[parent] == [Component(child, childMatrix)]
    ensures CreateObjectInstance(aliases, objects, child, matrix, recur, mul) == Success([Instance(child, matrix)])
    ensures CreateObjectInstance(aliases, objects, parent, matrix, recur, mul)
      == Success([Instance(child, mul(matrix, childMatrix))])
  {
    var comps := aliases[parent];
    assert !SelfAliased(aliases, parent);
    var m := mul(matrix, childMatrix);
    assert comps[1..] == [];
    assert CreateObjectInstance(aliases, objects, child, m, recur + 1, mul) == Success([Instance(child, m)]);
    assert CreateComponents(aliases, objects, comps[1..], matrix, recur, mul) == Success([]);
    assert [Instance(child, m)] + [] == [Instance(child, m)];
    assert CreateComponents(aliases, objects, comps, matrix, recur, mul) == Success([Instance(child, m)]);
    assert CreateObjectInstance(aliases, objects, parent, matrix, recur, mul)
      == CreateComponents(aliases, objects, comps, matrix, recur, mul);
  }
}
