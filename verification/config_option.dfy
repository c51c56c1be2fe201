/** Configuration option values (xs/src/libslic3r/Config.hpp and the key
    comparisons of xs/src/libslic3r/Config.cpp).

    The C++ class hierarchy of options becomes plain values: a vector option is
    a `seq<T>`, a scalar is a `T`, and an option type is its integer code. Type
    mismatches that the C++ code reports by throwing are `Failure` results. */
module ConfigOptions {
  import opened Wrappers
  import opened Strings

  // ---------------------------------------------------------------------------
  // Option types
  // ---------------------------------------------------------------------------

  const VectorTypeBit: int := 0x4000

  datatype OptionType =
    | CoNone | CoFloat | CoFloats | CoInt | CoInts | CoString | CoStrings
    | CoPercent | CoPercents | CoFloatOrPercent | CoPoint | CoPoints
    | CoBool | CoBools | CoEnum

  /** The numeric value of each ConfigOptionType enumerator. */
  function Code(t: OptionType): (c: nat)
    ensures c < 2 * VectorTypeBit
  {
    match t
    case CoNone => 0
    case CoFloat => 1
    case CoFloats => 1 + VectorTypeBit
    case CoInt => 2
    case CoInts => 2 + VectorTypeBit
    case CoString => 3
    case CoStrings => 3 + VectorTypeBit
    case CoPercent => 4
    case CoPercents => 4 + VectorTypeBit
    case CoFloatOrPercent => 5
    case CoPoint => 6
    case CoPoints => 6 + VectorTypeBit
    case CoBool => 7
    case CoBools => 7 + VectorTypeBit
    case CoEnum => 8
  }

  /** is_vector: the coVectorType bit (bit 14) is set in the type code. */
  predicate IsVector(t: OptionType)
  {
    (Code(t) / VectorTypeBit) % 2 == 1
  }

  /** The scalar type of a vector type: its code without the vector bit. */
  function ScalarType(t: OptionType): (s: OptionType)
    requires IsVector(t)
    ensures !IsVector(s) && Code(s) == Code(t) - VectorTypeBit
  {
    match t
    case CoFloats => CoFloat
    case CoInts => CoInt
    case CoStrings => CoString
    case CoPercents => CoPercent
    case CoPoints => CoPoint
    case CoBools => CoBool
  }

  /** Exactly the six plural types are vectors, and type codes are distinct. */
  lemma IsVectorIffPlural(t: OptionType)
    ensures IsVector(t) <==> t in {CoFloats, CoInts, CoStrings, CoPercents, CoPoints, CoBools}
    ensures forall u: OptionType :: Code(u) == Code(t) ==> u == t
  {
  }

  // ---------------------------------------------------------------------------
  // ConfigOptionVector<T>
  // ---------------------------------------------------------------------------

  /** get_at: the i-th value, or the first one when `i` is past the end. The
      vector is expected to hold at least one value. */
  function GetAt<T>(values: seq<T>, i: nat): (r: T)
    requires values != []
    ensures r in values
    ensures i < |values| ==> r == values[i]
    ensures i >= |values| ==> r == values[0]
  {
    if i < |values| then values[i] else values[0]
  }

  /** The right-hand side of set_at and of set(vector): an option of the same
      vector type, of the matching scalar type, or of some other type. */
  datatype Source<T> = SameVector(vs: seq<T>) | Scalar(v: T) | Incompatible

  /** The value that set_at reads from its right-hand side. */
  function SourceValue<T>(rhs: Source<T>, j: nat): (r: Result<T>)
    ensures r.Success? <==> rhs.Scalar? || (rhs.SameVector? && rhs.vs != [])
    ensures rhs.Scalar? ==> r == Success(rhs.v)
    ensures rhs.SameVector? && rhs.vs != [] ==> r == Success(GetAt(rhs.vs, j))
  {
    match rhs
    case SameVector(vs) =>
      if vs == [] then Failure("ConfigOptionVector::set_at(): Assigning from an empty vector")
      else Success(GetAt(vs, j))
    case Scalar(v) => Success(v)
    case Incompatible => Failure("ConfigOptionVector::set_at(): Assigning an incompatible type")
  }

  /** The vector padded to at least `n` values with copies of its first value. */
  function PadWithFront<T>(values: seq<T>, n: nat): (r: seq<T>)
    requires values != []
    ensures |r| == if n > |values| then n else |values|
    ensures forall k :: 0 <= k < |values| ==> r[k] == values[k]
    ensures forall k :: |values| <= k < |r| ==> r[k] == values[0]
  {
    if |values| >= n then values else values + seq(n - |values|, _ => values[0])
  }

  /** set_at: grow the vector to `i + 1` values by copying its first value,
      then store at `i` the scalar, or the `j`-th value of the vector, on the
      right. */
  function SetAt<T>(values: seq<T>, rhs: Source<T>, i: nat, j: nat): (r: Result<seq<T>>)
    requires values != []
    ensures r.Success? <==> SourceValue(rhs, j).Success?
    ensures r.Success? ==>
      && |r.value| == (if i < |values| then |values| else i + 1)
      && r.value[i] == SourceValue(rhs, j).value
      && (forall k :: 0 <= k < |values| && k != i ==> r.value[k] == values[k])
      && (forall k :: |values| <= k < |r.value| && k != i ==> r.value[k] == values[0])
  {
    var grown := PadWithFront(values, i + 1);
    match SourceValue(rhs, j)
    case Success(v) => Success(grown[i := v])
    case Failure(e) => Failure(e)
  }

  /** The vector set_at leaves behind, whether it throws or not: the padding
      to `i + 1` values happens before the right-hand side is examined, so a
      failing assignment still leaves the vector grown. */
  function ValuesAfterSetAt<T>(values: seq<T>, rhs: Source<T>, i: nat, j: nat): (r: seq<T>)
    requires values != []
    ensures SetAt(values, rhs, i, j).Success? ==> r == SetAt(values, rhs, i, j).value
    ensures SetAt(values, rhs, i, j).Failure? ==>
      && |r| == (if i < |values| then |values| else i + 1)
      && r[..|values|] == values
      && (forall k :: |values| <= k < |r| ==> r[k] == values[0])
  {
    var grown := PadWithFront(values, i + 1);
    match SourceValue(rhs, j)
    case Success(v) => grown[i := v]
    case Failure(_) => grown
  }

  /** Reading back a slot written by set_at yields the value written, and the
      other slots read as before. */
  lemma SetAtThenGetAt<T>(values: seq<T>, v: T, i: nat, k: nat)
    requires values != []
    ensures SetAt(values, Scalar(v), i, 0).Success?
    ensures GetAt(SetAt(values, Scalar(v), i, 0).value, i) == v
    ensures k != i && k < |values| ==> GetAt(SetAt(values, Scalar(v), i, 0).value, k) == values[k]
  {
  }

  /** resize(n, opt_default): truncate, or extend by repeating the last value;
      an empty vector is extended from the first value of the default, which
      must be a vector option of the same type, and without a default it
      cannot be extended. */
  function Resize<T>(values: seq<T>, n: nat, default: Option<Source<T>>): (r: Result<seq<T>>)
    requires default.Some? && default.value.SameVector? ==> default.value.vs != []
    ensures r.Failure? <==> n > |values| && values == [] && (default.None? || !default.value.SameVector?)
    ensures n > |values| && values == [] && default.None? ==>
      r == Failure("ConfigOptionVector::resize(): No default value provided.")
    ensures n > |values| && values == [] && default.Some? && !default.value.SameVector? ==>
      r == Failure("ConfigOptionVector::resize(): Extending with an incompatible type.")
    ensures r.Success? ==> |r.value| == n
    ensures r.Success? ==> forall k :: 0 <= k < n && k < |values| ==> r.value[k] == values[k]
    ensures r.Success? && values != [] ==> forall k :: |values| <= k < n ==> r.value[k] == values[|values| - 1]
    ensures r.Success? && values == [] && n > 0 ==>
      default.Some? && default.value.SameVector? && forall k :: 0 <= k < n ==> r.value[k] == default.value.vs[0]
  {
    if n == 0 then Success([])
    else if n < |values| then Success(values[..n])
    else if n > |values| then
      if values == [] then ExtendEmpty(n, default)
      else Success(values + seq(n - |values|, _ => values[|values| - 1]))
    else Success(values)
  }

  /** Growing an empty vector to `n` values from the default. */
  function ExtendEmpty<T>(n: nat, default: Option<Source<T>>): (r: Result<seq<T>>)
    requires default.Some? && default.value.SameVector? ==> default.value.vs != []
    ensures r.Failure? <==> default.None? || !default.value.SameVector?
    ensures default.None? ==> r == Failure("ConfigOptionVector::resize(): No default value provided.")
    ensures default.Some? && !default.value.SameVector? ==>
      r == Failure("ConfigOptionVector::resize(): Extending with an incompatible type.")
    ensures r.Success? ==> |r.value| == n && forall k :: 0 <= k < n ==> r.value[k] == default.value.vs[0]
  {
    match default
    case None => Failure("ConfigOptionVector::resize(): No default value provided.")
    case Some(SameVector(d)) => Success(seq(n, _ => d[0]))
    case Some(_) => Failure("ConfigOptionVector::resize(): Extending with an incompatible type.")
  }

  /** Resizing to the current size changes nothing, and shrinking then growing
      back refills the cut-off slots with the last value kept. */
  lemma ResizeShrinkGrow<T>(values: seq<T>, m: nat, n: nat)
    requires 0 < m <= |values| && m <= n
    ensures Resize(values, |values|, None) == Success(values)
    ensures Resize(Resize(values, m, None).value, n, None).Success?
    ensures Resize(Resize(values, m, None).value, n, None).value
         == values[..m] + seq(n - m, _ => values[m - 1])
  {
    var shrunk := Resize(values, m, None).value;
    assert shrunk == values[..m];
    var grown := Resize(shrunk, n, None).value;
    assert |grown| == n;
    forall k | 0 <= k < n
      ensures grown[k] == (values[..m] + seq(n - m, _ => values[m - 1]))[k]
    {
    }
  }

  /** set(vector of options): each right-hand side contributes its scalar value
      or the first value of its vector; an empty vector or a foreign type makes
      the whole assignment fail. */
  function SetFromList<T>(rhs: seq<Source<T>>): (r: Result<seq<T>>)
    ensures r.Success? <==> forall k :: 0 <= k < |rhs| ==> SourceValue(rhs[k], 0).Success?
    ensures r.Success? ==> |r.value| == |rhs|
    ensures r.Success? ==> forall k :: 0 <= k < |rhs| ==> r.value[k] == SourceValue(rhs[k], 0).value
  {
    if rhs == [] then Success([])
    else
      match SourceValue(rhs[0], 0)
      case Failure(e) =>
        Failure(if rhs[0].Incompatible? then "ConfigOptionVector::set():: Assigning an incompatible type"
                else "ConfigOptionVector::set(): Assigning from an empty vector")
      case Success(v) =>
        assert forall k :: 1 <= k < |rhs| ==> rhs[k] == rhs[1..][k - 1];
        match SetFromList(rhs[1..])
        case Failure(e) => Failure(e)
        case Success(vs) =>
          assert forall k :: 1 <= k < |rhs| ==> ([v] + vs)[k] == vs[k - 1];
          Success([v] + vs)
  }

  /** The vector set(vector of options) leaves behind, whether it throws or
      not: it is cleared first and then filled in order, so a failure leaves
      exactly the values of the right-hand sides before the first bad one. */
  function ValuesAfterSet<T>(rhs: seq<Source<T>>): (r: seq<T>)
    ensures |r| <= |rhs|
    ensures forall k :: 0 <= k < |r| ==> SourceValue(rhs[k], 0).Success? && r[k] == SourceValue(rhs[k], 0).value
    ensures |r| < |rhs| ==> SourceValue(rhs[|r|], 0).Failure?
  {
    var f := FirstUnusable(rhs, 0);
    seq(f, k requires 0 <= k < f => SourceValue(rhs[k], 0).value)
  }

  /** The position of the first unusable right-hand side from `i` on, or the
      end. */
  function FirstUnusable<T>(rhs: seq<Source<T>>, i: nat): (f: nat)
    requires i <= |rhs|
    ensures i <= f <= |rhs|
    ensures forall k :: i <= k < f ==> SourceValue(rhs[k], 0).Success?
    ensures f < |rhs| ==> SourceValue(rhs[f], 0).Failure?
    decreases |rhs| - i
  {
    if i == |rhs| || SourceValue(rhs[i], 0).Failure? then i else FirstUnusable(rhs, i + 1)
  }

  /** set leaves a full vector exactly when it succeeds, and then the vector
      it returns. */
  lemma ValuesAfterSetMatches<T>(rhs: seq<Source<T>>)
    ensures SetFromList(rhs).Success? <==> |ValuesAfterSet(rhs)| == |rhs|
    ensures SetFromList(rhs).Success? ==> ValuesAfterSet(rhs) == SetFromList(rhs).value
  {
    var r := ValuesAfterSet(rhs);
    if |r| < |rhs| {
      assert SourceValue(rhs[|r|], 0).Failure?;
    } else {
      assert forall k :: 0 <= k < |rhs| ==> SourceValue(rhs[k], 0).Success? && r[k] == SourceValue(rhs[k], 0).value;
    }
  }

  // ---------------------------------------------------------------------------
  // ConfigOptionFloatOrPercent
  // ---------------------------------------------------------------------------

  datatype FloatOrPercent = FloatOrPercent(value: real, percent: bool)

  /** get_abs_value: a percentage of `ratioOver`, or the absolute value. */
  function GetAbsValue(f: FloatOrPercent, ratioOver: real): (r: real)
    ensures !f.percent ==> r == f.value
    ensures f.percent ==> r * 100.0 == ratioOver * f.value
  {
    if f.percent then ratioOver * f.value / 100.0 else f.value
  }

  /** An absolute value ignores the base; 100% of a base is the base, and a
      percentage scales linearly with the base. */
  lemma GetAbsValueScales(f: FloatOrPercent, a: real, b: real)
    ensures !f.percent ==> GetAbsValue(f, a) == GetAbsValue(f, b)
    ensures GetAbsValue(FloatOrPercent(100.0, true), a) == a
    ensures f.percent ==> GetAbsValue(f, a + b) == GetAbsValue(f, a) + GetAbsValue(f, b)
  {
  }

  /** serialize: the number as printed by the stream, then '%' for a
      percentage. `format` stands for the stream's number formatting. */
  function SerializeFloatOrPercent(f: FloatOrPercent, format: real -> string): (r: string)
    ensures |r| == |format(f.value)| + (if f.percent then 1 else 0)
    ensures r[..|format(f.value)|] == format(f.value)
    ensures f.percent ==> r[|r| - 1] == '%'
    ensures '%' !in format(f.value) ==> (f.percent <==> '%' in r)
  {
    format(f.value) + (if f.percent then "%" else "")
  }

  /** deserialize: the percent flag is whether '%' occurs anywhere; the value
      is whatever the stream parses from the front (`parse`, None on a stream
      failure). */
  function DeserializeFloatOrPercent(s: string, parse: string -> Option<real>): (r: Result<FloatOrPercent>)
    ensures r.Success? <==> parse(s).Some?
    ensures r.Success? ==> r.value.percent == ('%' in s) && r.value.value == parse(s).value
  {
    match parse(s)
    case None => Failure("FloatOrPercent: not a number")
    case Some(v) => Success(FloatOrPercent(v, '%' in s))
  }

  /** With a number formatting that the parser reads back (and that never
      prints '%'), a FloatOrPercent survives serialize and deserialize. */
  lemma FloatOrPercentRoundTrip(f: FloatOrPercent, format: real -> string, parse: string -> Option<real>)
    requires forall x :: '%' !in format(x)
    requires forall x :: parse(format(x)) == Some(x) && parse(format(x) + "%") == Some(x)
    ensures DeserializeFloatOrPercent(SerializeFloatOrPercent(f, format), parse) == Success(f)
  {
    var s := SerializeFloatOrPercent(f, format);
    if !f.percent {
      assert s == format(f.value);
    }
    assert parse(s) == Some(f.value);
  }

  // ---------------------------------------------------------------------------
  // ConfigOptionBool and ConfigOptionBools
  // ---------------------------------------------------------------------------

  function SerializeBool(b: bool): (r: string)
    ensures |r| == 1 && (r == "1" <==> b) && (r == "0" <==> !b)
  {
    if b then "1" else "0"
  }

  /** deserialize: only the exact string "1" is true; it never fails. */
  function DeserializeBool(s: string): (r: bool)
    ensures r ==> |s| == 1 && s[0] == '1'
    ensures |s| == 1 && s[0] == '1' ==> r
  {
    s == "1"
  }

  lemma BoolRoundTrip(b: bool)
    ensures DeserializeBool(SerializeBool(b)) == b
  {
  }

  /** Comma-joined "1"/"0" digits. */
  function SerializeBools(v: seq<bool>): (r: string)
    ensures v == [] <==> r == []
    ensures v != [] ==> |r| == 2 * |v| - 1
  {
    if v == [] then []
    else if |v| == 1 then SerializeBool(v[0])
    else SerializeBool(v[0]) + "," + SerializeBools(v[1..])
  }

  /** The items std::getline yields when splitting on ',': a trailing empty
      item (after a final ',' or in an empty string) is not produced. */
  function GetlineItems(s: string): (r: seq<string>)
    ensures s == [] <==> r == []
    decreases |s|
  {
    if s == [] then []
    else
      var (w, rest) := SplitAt(s, ',');
      if rest == [] then [w] else [w] + GetlineItems(rest[1..])
  }

  /** deserialize: each item is true iff it is "1"; `append` keeps the old
      values in front. */
  function DeserializeBools(prev: seq<bool>, s: string, append: bool): (r: seq<bool>)
    ensures append ==> |r| == |prev| + |GetlineItems(s)| && r[..|prev|] == prev
    ensures append ==> forall k :: 0 <= k < |GetlineItems(s)| ==> r[|prev| + k] == (GetlineItems(s)[k] == "1")
    ensures !append ==> |r| == |GetlineItems(s)|
    ensures !append ==> forall k :: 0 <= k < |GetlineItems(s)| ==> r[k] == (GetlineItems(s)[k] == "1")
  {
    var items := GetlineItems(s);
    if append then ReadBools(prev, items)
    else ReadBools([], items)
  }

  /** The items read as bools after the values kept in front. */
  function ReadBools(front: seq<bool>, items: seq<string>): (r: seq<bool>)
    ensures |r| == |front| + |items|
    ensures r[..|front|] == front
    ensures forall k :: 0 <= k < |items| ==> r[|front| + k] == (items[k] == "1")
  {
    front + seq(|items|, k requires 0 <= k < |items| => items[k] == "1")
  }

  /** A comma-free item followed by ',' is the first item of the split. */
  lemma {:induction false} GetlineItemsCons(d: string, tail: string)
    requires forall k :: 0 <= k < |d| ==> d[k] != ','
    ensures GetlineItems(d + ([','] + tail)) == [d] + GetlineItems(tail)
    ensures d != [] ==> GetlineItems(d) == [d]
  {
    SplitAtOfWord(d, ',', [','] + tail);
    assert ([','] + tail)[1..] == tail;
    if d != [] {
      SplitAtOfWord(d, ',', []);
      assert d + [] == d;
    }
  }

  function Digits(v: seq<bool>): (r: seq<string>)
    ensures |r| == |v|
    ensures forall k :: 0 <= k < |v| ==> r[k] == SerializeBool(v[k])
  {
    seq(|v|, k requires 0 <= k < |v| => SerializeBool(v[k]))
  }

  lemma {:induction false} GetlineItemsOfSerialized(v: seq<bool>)
    ensures GetlineItems(SerializeBools(v)) == Digits(v)
    decreases |v|
  {
    if |v| == 1 {
      var d := SerializeBool(v[0]);
      GetlineItemsCons(d, []);
      assert Digits(v) == [d];
    } else if |v| > 1 {
      GetlineItemsStep(v);
      GetlineItemsOfSerialized(v[1..]);
      DigitsCons(v);
    }
  }

  lemma GetlineItemsStep(v: seq<bool>)
    requires |v| > 1
    ensures GetlineItems(SerializeBools(v)) ==
      [SerializeBool(v[0])] + GetlineItems(SerializeBools(v[1..]))
  {
    var d := SerializeBool(v[0]);
    var tail := SerializeBools(v[1..]);
    assert SerializeBools(v) == d + [','] + tail;
    AppendAssoc(d, [','], tail);
    GetlineItemsCons(d, tail);
  }

  lemma DigitsCons(v: seq<bool>)
    requires v != []
    ensures Digits(v) == [SerializeBool(v[0])] + Digits(v[1..])
  {
    assert Digits(v)[1..] == Digits(v[1..]);
  }

  /** Bools survive serialize and deserialize, the empty vector included. */
  lemma BoolsRoundTrip(v: seq<bool>)
    ensures DeserializeBools([], SerializeBools(v), false) == v
  {
    GetlineItemsOfSerialized(v);
    var r := DeserializeBools([], SerializeBools(v), false);
    forall k | 0 <= k < |v| ensures r[k] == v[k] {
      assert GetlineItems(SerializeBools(v))[k] == Digits(v)[k];
    }
  }

  // ---------------------------------------------------------------------------
  // ConfigOptionEnum<T>
  // ---------------------------------------------------------------------------

  /** An enum table as std::map iterates it: (name, value) pairs in key order,
      with non-negative values. */
  predicate ValidEnumTable(table: seq<(string, int)>)
  {
    forall a :: 0 <= a < |table| ==> table[a].1 >= 0
  }

  /** The names are the keys of the map, so no name occurs twice. */
  predicate DistinctNames(table: seq<(string, int)>)
  {
    forall a, b :: 0 <= a < b < |table| ==> table[a].0 != table[b].0
  }

  /** The running maximum of get_enum_names, which starts from 0: the largest
      value in the table, or 0 for an empty table. */
  function MaxValue(table: seq<(string, int)>): (m: int)
    requires ValidEnumTable(table)
    ensures forall a :: 0 <= a < |table| ==> table[a].1 <= m
    ensures table == [] ==> m == 0
    ensures table != [] ==> exists a :: 0 <= a < |table| && table[a].1 == m
    decreases |table|
  {
    if table == [] then 0
    else
      var prefix := table[..|table| - 1];
      assert forall a :: 0 <= a < |prefix| ==> prefix[a] == table[a];
      var m := MaxValue(prefix);
      var v := table[|table| - 1].1;
      if v >= m then v
      else
        assert prefix != [];
        var a :| 0 <= a < |prefix| && prefix[a].1 == m;
        assert table[a].1 == m;
        m
  }

  /** get_enum_names: a vector of max+1 names, each slot holding the last name
      (in key order) with that value, and "" in gaps; an empty table gives
      the single name "". */
  function EnumNames(table: seq<(string, int)>): (names: seq<string>)
    requires ValidEnumTable(table)
    ensures |names| == MaxValue(table) + 1
    ensures table == [] ==> names == [""]
    decreases |table|
  {
    if table == [] then [""]
    else
      var prev := EnumNames(table[..|table| - 1]);
      var (k, v) := table[|table| - 1];
      var grown := prev + seq(MaxValue(table) + 1 - |prev|, _ => "");
      grown[v := k]
  }

  /** deserialize: look the string up among the names. */
  function EnumLookup(table: seq<(string, int)>, s: string): (r: Option<int>)
    ensures r.Some? <==> exists a :: 0 <= a < |table| && table[a].0 == s
    ensures r.Some? ==> exists a :: 0 <= a < |table| && table[a].0 == s && table[a].1 == r.value
  {
    if table == [] then None
    else if table[0].0 == s then Some(table[0].1)
    else
      var r := EnumLookup(table[1..], s);
      assert forall a :: 1 <= a < |table| ==> table[a] == table[1..][a - 1];
      if r.None? then None
      else
        assert exists a :: 0 <= a < |table[1..]| && table[1..][a].0 == s && table[1..][a].1 == r.value;
        r
  }

  /** No two names share a value. */
  predicate DistinctValues(table: seq<(string, int)>)
  {
    forall a, b :: 0 <= a < b < |table| ==> table[a].1 != table[b].1
  }

  /** The last pair of the table writes its name into the slot of its value
      and leaves the slots of the shorter table in place. */
  lemma {:induction false} EnumNamesStep(table: seq<(string, int)>, x: nat)
    requires ValidEnumTable(table) && table != []
    ensures ValidEnumTable(table[..|table| - 1])
    ensures |EnumNames(table[..|table| - 1])| <= |EnumNames(table)|
    ensures EnumNames(table)[table[|table| - 1].1] == table[|table| - 1].0
    ensures x < |EnumNames(table[..|table| - 1])| && x != table[|table| - 1].1 ==>
      EnumNames(table)[x] == EnumNames(table[..|table| - 1])[x]
  {
    var prefix := table[..|table| - 1];
    assert forall b :: 0 <= b < |prefix| ==> prefix[b] == table[b];
    var prev := EnumNames(prefix);
    var (k, v) := table[|table| - 1];
    var grown := prev + seq(MaxValue(table) + 1 - |prev|, _ => "");
    assert EnumNames(table) == grown[v := k];
    if x < |prev| {
      assert grown[x] == prev[x];
    }
  }

  /** With distinct values, every name sits in the slot of its value. */
  lemma {:induction false} EnumNamesAt(table: seq<(string, int)>, a: nat)
    requires ValidEnumTable(table) && DistinctValues(table)
    requires a < |table|
    ensures table[a].1 < |EnumNames(table)|
    ensures EnumNames(table)[table[a].1] == table[a].0
    decreases |table|, 1
  {
    if a < |table| - 1 {
      EnumNamesAtEarlier(table, a);
    } else {
      EnumNamesStep(table, table[a].1);
    }
  }

  /** A pair before the last one: its slot was filled by the shorter table
      and the last pair, having another value, leaves it alone. */
  lemma {:induction false} EnumNamesAtEarlier(table: seq<(string, int)>, a: nat)
    requires ValidEnumTable(table) && DistinctValues(table)
    requires a < |table| - 1
    ensures table[a].1 < |EnumNames(table)|
    ensures EnumNames(table)[table[a].1] == table[a].0
    decreases |table|, 0
  {
    var prefix := table[..|table| - 1];
    assert |prefix| == |table| - 1;
    DistinctPrefix(table, a);
    EnumNamesAt(prefix, a);
    EnumNamesCarry(table, a);
  }

  /** A slot the shorter table filled keeps its name unless the last pair
      takes it over. */
  lemma EnumNamesCarry(table: seq<(string, int)>, a: nat)
    requires ValidEnumTable(table) && a < |table| - 1
    requires ValidEnumTable(table[..|table| - 1])
    requires table[a].1 != table[|table| - 1].1
    requires table[a].1 < |EnumNames(table[..|table| - 1])|
    requires EnumNames(table[..|table| - 1])[table[a].1] == table[a].0
    ensures table[a].1 < |EnumNames(table)| && EnumNames(table)[table[a].1] == table[a].0
  {
    EnumNamesStep(table, table[a].1);
  }

  lemma DistinctPrefix(table: seq<(string, int)>, a: nat)
    requires ValidEnumTable(table) && DistinctValues(table)
    requires a < |table| - 1
    ensures ValidEnumTable(table[..|table| - 1]) && DistinctValues(table[..|table| - 1])
    ensures table[..|table| - 1][a] == table[a]
    ensures table[a].1 != table[|table| - 1].1
  {
    var prefix := table[..|table| - 1];
    assert forall b :: 0 <= b < |prefix| ==> prefix[b] == table[b];
  }

  /** serialize: the name stored for the value. */
  function SerializeEnum(table: seq<(string, int)>, v: int): (r: string)
    requires ValidEnumTable(table)
    requires 0 <= v <= MaxValue(table)
  {
    EnumNames(table)[v]
  }

  /** Every enum value of a table with distinct values serializes to its own
      name, and that name deserializes back to the value. */
  lemma EnumRoundTrip(table: seq<(string, int)>, a: nat)
    requires ValidEnumTable(table) && DistinctNames(table) && DistinctValues(table)
    requires a < |table|
    ensures 0 <= table[a].1 <= MaxValue(table)
    ensures SerializeEnum(table, table[a].1) == table[a].0
    ensures EnumLookup(table, SerializeEnum(table, table[a].1)) == Some(table[a].1)
  {
    EnumNamesAt(table, a);
    var r := EnumLookup(table, table[a].0);
    var b :| 0 <= b < |table| && table[b].0 == table[a].0 && table[b].1 == r.value;
    assert b == a;
  }

  // ---------------------------------------------------------------------------
  // ConfigBase::diff and ConfigBase::equal
  // ---------------------------------------------------------------------------

  /** A configuration as seen by diff/equal: its key list (`keys()`) and the
      option stored under each key. */
  datatype Config<V> = Config(keys: seq<string>, options: map<string, V>)

  predicate InBoth<V>(k: string, mine: Config<V>, other: Config<V>)
  {
    k in mine.options && k in other.options
  }

  /** diff: the keys of `mine`, in order, whose option is present in both
      configurations and differs. */
  function Diff<V(==)>(mine: Config<V>, other: Config<V>): (r: seq<string>)
    ensures |r| <= |mine.keys|
    ensures forall k :: k in r <==> k in mine.keys && InBoth(k, mine, other) && mine.options[k] != other.options[k]
    decreases |mine.keys|
  {
    if mine.keys == [] then []
    else
      var k := mine.keys[0];
      var rest := Diff(mine.(keys := mine.keys[1..]), other);
      if InBoth(k, mine, other) && mine.options[k] != other.options[k] then [k] + rest else rest
  }

  /** equal: the keys of `mine`, in order, whose option is present in both
      configurations and compares equal. */
  function Equal<V(==)>(mine: Config<V>, other: Config<V>): (r: seq<string>)
    ensures |r| <= |mine.keys|
    ensures forall k :: k in r <==> k in mine.keys && InBoth(k, mine, other) && mine.options[k] == other.options[k]
    decreases |mine.keys|
  {
    if mine.keys == [] then []
    else
      var k := mine.keys[0];
      var rest := Equal(mine.(keys := mine.keys[1..]), other);
      if InBoth(k, mine, other) && mine.options[k] == other.options[k] then [k] + rest else rest
  }

  /** The number of key-list entries present in both configurations. */
  function CountInBoth<V>(keys: seq<string>, mine: Config<V>, other: Config<V>): nat
  {
    if keys == [] then 0
    else (if InBoth(keys[0], mine, other) then 1 else 0) + CountInBoth(keys[1..], mine, other)
  }

  /** diff and equal are disjoint, and together they list every key entry that
      is present in both configurations exactly once; keys missing from either
      side are ignored. */
  lemma {:induction false} DiffEqualPartition<V>(mine: Config<V>, other: Config<V>)
    ensures forall k :: !(k in Diff(mine, other) && k in Equal(mine, other))
    ensures forall k :: k in mine.keys && InBoth(k, mine, other) <==> k in Diff(mine, other) || k in Equal(mine, other)
    ensures |Diff(mine, other)| + |Equal(mine, other)| == CountInBoth(mine.keys, mine, other)
    decreases |mine.keys|
  {
    if mine.keys != [] {
      var tail := mine.(keys := mine.keys[1..]);
      DiffEqualPartition(tail, other);
      assert CountInBoth(mine.keys, mine, other)
          == (if InBoth(mine.keys[0], mine, other) then 1 else 0) + CountInBoth(tail.keys, tail, other)
        by { CountInBothOptionsOnly(tail.keys, mine, tail, other); }
    }
  }

  /** CountInBoth depends on the options only, not on the key list stored. */
  lemma {:induction false} CountInBothOptionsOnly<V>(keys: seq<string>, a: Config<V>, b: Config<V>, other: Config<V>)
    requires a.options == b.options
    ensures CountInBoth(keys, a, other) == CountInBoth(keys, b, other)
    decreases |keys|
  {
    if keys != [] {
      CountInBothOptionsOnly(keys[1..], a, b, other);
    }
  }
}
