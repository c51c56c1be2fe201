/** Sorting and adjacent-duplicate removal, the std::sort / std::unique pair
    the viewers apply to layer heights, extrusion roles and extruder ids.
    Sorting is an insertion sort over a caller-given total order; only its
    result (a sorted permutation) matters to the model. */
module Sorting {

  /** `le` is total: any two elements are comparable. */
  ghost predicate Total<T(!new)>(le: (T, T) -> bool)
  {
    forall a: T, b: T :: le(a, b) || le(b, a)
  }

  /** Every element is `le` its successor. */
  predicate SortedBy<T>(s: seq<T>, le: (T, T) -> bool)
  {
    forall i :: 0 <= i < |s| - 1 ==> le(s[i], s[i + 1])
  }

  /** Insert `x` into a sorted sequence, before the first element it is `le`
      to. */
  function Insert<T(!new)>(x: T, s: seq<T>, le: (T, T) -> bool): (r: seq<T>)
    requires Total(le) && SortedBy(s, le)
    ensures multiset(r) == multiset(s) + multiset{x}
    ensures SortedBy(r, le)
    ensures r[0] == x || (|s| > 0 && r[0] == s[0])
    decreases |s|
  {
    if s == [] then [x]
    else if le(x, s[0]) then [x] + s
    else
      var rest := Insert(x, s[1..], le);
      assert s == [s[0]] + s[1..];
      [s[0]] + rest
  }

  /** Insertion sort: a sorted permutation of the input. */
  function Sort<T(!new)>(s: seq<T>, le: (T, T) -> bool): (r: seq<T>)
    requires Total(le)
    ensures multiset(r) == multiset(s)
    ensures SortedBy(r, le)
    decreases |s|
  {
    if s == [] then []
    else
      assert s == [s[0]] + s[1..];
      Insert(s[0], Sort(s[1..], le), le)
  }

  /** std::unique: drop every element equal to its predecessor. */
  function Unique<T(==,!new)>(s: seq<T>): (r: seq<T>)
    ensures |r| <= |s|
    ensures forall x :: x in r <==> x in s
    ensures forall i :: 0 <= i < |r| - 1 ==> r[i] != r[i + 1]
    ensures |s| > 0 ==> |r| > 0 && r[0] == s[0]
    decreases |s|
  {
    if |s| <= 1 then s
    else if s[0] == s[1] then
      assert forall x :: x in s <==> x in s[1..];
      Unique(s[1..])
    else
      assert forall x :: x in s <==> x == s[0] || x in s[1..];
      [s[0]] + Unique(s[1..])
  }

  /** Removing duplicates keeps a sorted sequence sorted. */
  lemma {:induction false} UniqueKeepsSorted<T(!new)>(s: seq<T>, le: (T, T) -> bool)
    requires SortedBy(s, le)
    ensures SortedBy(Unique(s), le)
    decreases |s|
  {
    if |s| > 1 {
      UniqueKeepsSorted(s[1..], le);
      if s[0] != s[1] {
        var u := Unique(s[1..]);
        assert u[0] == s[1];
        assert [s[0]] + u == Unique(s);
      }
    }
  }

  /** The order of integers. */
  function IntLe(a: int, b: int): bool
  {
    a <= b
  }

  lemma IntLeTotal()
    ensures Total(IntLe)
  {
  }

  /** Strictly increasing. */
  predicate StrictlyIncreasing(s: seq<int>)
  {
    forall i, j :: 0 <= i < j < |s| ==> s[i] < s[j]
  }

  lemma {:induction false} AdjacentToStrict(s: seq<int>)
    requires forall i :: 0 <= i < |s| - 1 ==> s[i] < s[i + 1]
    ensures StrictlyIncreasing(s)
    decreases |s|
  {
    if |s| > 1 {
      AdjacentToStrict(s[1..]);
      forall i, j | 0 <= i < j < |s| ensures s[i] < s[j] {
        if i > 0 {
          assert s[i] == s[1..][i - 1] && s[j] == s[1..][j - 1];
        } else if j > 1 {
          assert s[1] == s[1..][0] && s[j] == s[1..][j - 1];
        }
      }
    }
  }

  /** Sort then unique: the distinct values of the input, in increasing
      order. */
  function SortUnique(s: seq<int>): (r: seq<int>)
    ensures StrictlyIncreasing(r)
    ensures forall x :: x in r <==> x in s
    ensures |r| <= |s|
  {
    IntLeTotal();
    var sorted := Sort(s, IntLe);
    assert forall x :: x in sorted <==> x in multiset(sorted);
    assert forall x :: x in s <==> x in multiset(s);
    var r := Unique(sorted);
    UniqueKeepsSorted(sorted, IntLe);
    AdjacentToStrict(r);
    assert |sorted| == |multiset(sorted)| == |multiset(s)| == |s|;
    r
  }

  /** A strictly increasing sequence is determined by its elements. */
  lemma {:induction false} StrictlyIncreasingUnique(a: seq<int>, b: seq<int>)
    requires StrictlyIncreasing(a) && StrictlyIncreasing(b)
    requires forall x :: x in a <==> x in b
    ensures a == b
    decreases |a|
  {
    if a != [] {
      assert a[0] in a;
    }
    if b != [] {
      assert b[0] in b;
    }
    if a != [] && b != [] {
      SameMinimum(a, b);
      SameMinimum(b, a);
      forall x ensures x in a[1..] <==> x in b[1..] {
        TailMember(a, b, x);
        TailMember(b, a, x);
      }
      StrictlyIncreasingTail(a);
      StrictlyIncreasingTail(b);
      StrictlyIncreasingUnique(a[1..], b[1..]);
      assert a == [a[0]] + a[1..] && b == [b[0]] + b[1..];
    }
  }

  /** The first element of a strictly increasing sequence is its least. */
  lemma SameMinimum(a: seq<int>, b: seq<int>)
    requires StrictlyIncreasing(b) && a != [] && b != []
    requires a[0] in b
    ensures b[0] <= a[0]
  {
    var k :| 0 <= k < |b| && b[k] == a[0];
    if k > 0 {
      assert b[0] < b[k];
    }
  }

  /** An element after the head of `a` is one after the head of `b`. */
  lemma TailMember(a: seq<int>, b: seq<int>, x: int)
    requires StrictlyIncreasing(a) && StrictlyIncreasing(b) && a != [] && b != []
    requires a[0] == b[0]
    requires forall y :: y in a <==> y in b
    ensures x in a[1..] ==> x in b[1..]
  {
    if x in a[1..] {
      var k :| 0 <= k < |a[1..]| && a[1..][k] == x;
      assert a[k + 1] == x && a[0] < a[k + 1];
      assert x in b;
      var m :| 0 <= m < |b| && b[m] == x;
      assert m != 0;
      assert b[1..][m - 1] == x;
    }
  }

  lemma StrictlyIncreasingTail(a: seq<int>)
    requires StrictlyIncreasing(a) && a != []
    ensures StrictlyIncreasing(a[1..])
  {
    forall i, j | 0 <= i < j < |a[1..]| ensures a[1..][i] < a[1..][j] {
      assert a[1..][i] == a[i + 1] && a[1..][j] == a[j + 1];
    }
  }

  /** Sorting and removing duplicates twice is doing it once. */
  lemma SortUniqueIdempotent(s: seq<int>)
    ensures SortUnique(SortUnique(s)) == SortUnique(s)
  {
    StrictlyIncreasingUnique(SortUnique(SortUnique(s)), SortUnique(s));
  }
}
