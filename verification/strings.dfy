/** Small string helpers shared by the configuration codecs. */
module Strings {

  /** Splits `t` before the first occurrence of `sep`: the word before it and
      the rest, which is empty or starts with `sep`. */
  function SplitAt(t: string, sep: char): (r: (string, string))
    ensures r.0 + r.1 == t
    ensures forall k :: 0 <= k < |r.0| ==> r.0[k] != sep
    ensures r.1 == [] || r.1[0] == sep
  {
    if t == [] || t[0] == sep then ([], t)
    else
      var (w, rest) := SplitAt(t[1..], sep);
      assert [t[0]] + (w + rest) == t;
      assert forall k :: 1 <= k < |w| + 1 ==> ([t[0]] + w)[k] == w[k - 1];
      ([t[0]] + w, rest)
  }

  /** A word free of `sep`, followed by nothing or by `sep`, is split off
      exactly. */
  lemma {:induction false} SplitAtOfWord(e: string, sep: char, rest: string)
    requires forall k :: 0 <= k < |e| ==> e[k] != sep
    requires rest == [] || rest[0] == sep
    ensures SplitAt(e + rest, sep) == (e, rest)
    decreases |e|
  {
    if e != [] {
      var t := e + rest;
      assert t[0] == e[0] && t[0] != sep;
      assert t[1..] == e[1..] + rest;
      SplitAtOfWord(e[1..], sep, rest);
      assert SplitAt(t, sep) == ([t[0]] + e[1..], rest);
      assert [e[0]] + e[1..] == e;
    } else {
      assert e + rest == rest;
    }
  }

  /** Concatenation regroups; stated for any element type so that the solver
      does not reason about strings. */
  lemma AppendAssoc<T>(a: seq<T>, b: seq<T>, c: seq<T>)
    ensures a + b + c == a + (b + c)
  {
  }

  lemma AppendHead<T>(acc: seq<T>, w: seq<T>)
    requires w != []
    ensures acc + [w[0]] + w[1..] == acc + w
  {
    assert [w[0]] + w[1..] == w;
  }

  /** A sequence is its first element followed by the rest. */
  lemma HeadTail<T>(s: seq<T>)
    requires s != []
    ensures s == [s[0]] + s[1..]
  {
  }

  lemma HeadTail2<T>(s: seq<T>)
    requires |s| >= 2
    ensures s == [s[0]] + ([s[1]] + s[2..])
  {
    assert s[1..] == [s[1]] + s[2..];
  }

  /** Dropping the first part of a concatenation leaves the second. */
  lemma DropPrefix<T>(a: seq<T>, b: seq<T>)
    ensures (a + b)[|a|..] == b
    ensures a != [] ==> (a + b)[0] == a[0]
  {
  }

  lemma ConsAppend<T>(v: seq<T>, x: T)
    requires v != []
    ensures [v[0]] + (v[1..] + [x]) == v + [x]
  {
    assert v == [v[0]] + v[1..];
  }
}
