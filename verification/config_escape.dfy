/** C-style escaping of configuration values (xs/src/libslic3r/Config.cpp).

    A single string is escaped by `EscapeString`/`UnescapeString`; a vector of
    strings is stored as one `;`-separated line by `EscapeStrings` and read back
    by `UnescapeStrings`. Elements that contain spaces, tabs, quotes, backslashes
    or line breaks are written in double quotes with backslash escapes. */
module ConfigEscape {
  import opened Wrappers
  import opened Strings

  // ---------------------------------------------------------------------------
  // Single strings
  // ---------------------------------------------------------------------------

  predicate IsLineBreak(c: char) { c == '\n' || c == '\r' }

  /** Number of line-break characters in `s`. */
  function LineBreaks(s: string): nat
  {
    if s == [] then 0 else (if IsLineBreak(s[0]) then 1 else 0) + LineBreaks(s[1..])
  }

  /** escape_string_cstyle: every '\n' or '\r' becomes the two characters `\n`;
      every other character is copied. */
  function EscapeString(s: string): (r: string)
    ensures |r| == |s| + LineBreaks(s)
  {
    if s == [] then []
    else (if IsLineBreak(s[0]) then ['\\', 'n'] else [s[0]]) + EscapeString(s[1..])
  }

  /** The escaped string is a single line, and a single line is left as is. */
  lemma EscapeStringIsOneLine(s: string)
    ensures forall k :: 0 <= k < |EscapeString(s)| ==> !IsLineBreak(EscapeString(s)[k])
    ensures (forall k :: 0 <= k < |s| ==> !IsLineBreak(s[k])) ==> EscapeString(s) == s
  {
    EscapeStringNoLineBreaks(s);
    if forall k :: 0 <= k < |s| ==> !IsLineBreak(s[k]) {
      EscapeStringOfOneLine(s);
    }
  }

  lemma {:induction false} EscapeStringNoLineBreaks(s: string)
    ensures forall k :: 0 <= k < |EscapeString(s)| ==> !IsLineBreak(EscapeString(s)[k])
    decreases |s|
  {
    if s != [] {
      EscapeStringNoLineBreaks(s[1..]);
      var head: string := if IsLineBreak(s[0]) then ['\\', 'n'] else [s[0]];
      var r := EscapeString(s);
      assert r == head + EscapeString(s[1..]);
      forall k | 0 <= k < |r| ensures !IsLineBreak(r[k]) {
        if k >= |head| {
          assert r[k] == EscapeString(s[1..])[k - |head|];
        }
      }
    }
  }

  lemma {:induction false} EscapeStringOfOneLine(s: string)
    requires forall k :: 0 <= k < |s| ==> !IsLineBreak(s[k])
    ensures EscapeString(s) == s
    decreases |s|
  {
    if s != [] {
      assert forall k :: 0 <= k < |s[1..]| ==> !IsLineBreak(s[1..][k]) by {
        forall k | 0 <= k < |s[1..]| ensures !IsLineBreak(s[1..][k]) {
          assert s[1..][k] == s[k + 1];
        }
      }
      EscapeStringOfOneLine(s[1..]);
      assert !IsLineBreak(s[0]);
      HeadTail(s);
    }
  }

  /** Length of the run of backslashes at the end of `s`. */
  function TrailingBackslashes(s: string): nat
    ensures TrailingBackslashes(s) <= |s|
  {
    if s == [] || s[|s| - 1] != '\\' then 0 else 1 + TrailingBackslashes(s[..|s| - 1])
  }

  /** unescape_string_cstyle: a backslash consumes the next character and emits a
      newline if that character is 'n' and nothing otherwise; a backslash with
      no character after it makes the whole call fail (`None`). */
  function UnescapeString(s: string): (r: Option<string>)
    ensures r.Some? ==> |r.value| <= |s|
  {
    if s == [] then Some([])
    else if s[0] == '\\' then
      if |s| == 1 then None
      else
        match UnescapeString(s[2..])
        case None => None
        case Some(t) => Some((if s[1] == 'n' then ['\n'] else []) + t)
    else
      match UnescapeString(s[1..])
      case None => None
      case Some(t) => Some([s[0]] + t)
  }

  lemma {:induction false} TrailingBackslashesCons(c: char, t: string)
    ensures TrailingBackslashes([c] + t)
         == if c == '\\' && TrailingBackslashes(t) == |t| then |t| + 1 else TrailingBackslashes(t)
    decreases |t|
  {
    var s := [c] + t;
    if t == [] {
      assert s == [c];
    } else {
      assert s[|s| - 1] == t[|t| - 1];
      if t[|t| - 1] == '\\' {
        assert s[..|s| - 1] == [c] + t[..|t| - 1];
        TrailingBackslashesCons(c, t[..|t| - 1]);
      }
    }
  }

  /** Unescaping fails exactly when the input ends in an unpaired backslash,
      i.e. when the trailing run of backslashes has odd length. */
  lemma {:induction false} UnescapeFailsIffLoneBackslash(s: string)
    ensures UnescapeString(s).None? <==> TrailingBackslashes(s) % 2 == 1
    decreases |s|
  {
    if s == [] {
    } else if s[0] == '\\' && |s| == 1 {
      HeadTail(s);
      TrailingBackslashesCons('\\', []);
    } else if s[0] == '\\' {
      UnescapeFailsIffLoneBackslash(s[2..]);
      TrailingBackslashesPair(s);
    } else {
      UnescapeFailsIffLoneBackslash(s[1..]);
      HeadTail(s);
      TrailingBackslashesCons(s[0], s[1..]);
    }
  }

  lemma ParityShift(a: nat)
    ensures (a + 2) % 2 == a % 2
  {
  }

  /** A leading backslash pair does not change the parity of the trailing
      run. */
  lemma TrailingBackslashesPair(s: string)
    requires |s| >= 2 && s[0] == '\\'
    ensures TrailingBackslashes(s) % 2 == TrailingBackslashes(s[2..]) % 2
  {
    var t := s[2..];
    var u := [s[1]] + t;
    HeadTail2(s);
    TrailingBackslashesCons(s[0], u);
    TrailingBackslashesCons(s[1], t);
    if s[1] == '\\' && TrailingBackslashes(t) == |t| {
      assert TrailingBackslashes(s) == TrailingBackslashes(t) + 2;
      ParityShift(TrailingBackslashes(t));
    } else {
      assert TrailingBackslashes(u) == TrailingBackslashes(t) < |u|;
      assert TrailingBackslashes(s) == TrailingBackslashes(t);
    }
  }

  /** Strings without backslashes and carriage returns survive an escape and
      unescape round trip. */
  lemma {:induction false} EscapeStringRoundTrip(s: string)
    requires forall k :: 0 <= k < |s| ==> s[k] != '\\' && s[k] != '\r'
    ensures UnescapeString(EscapeString(s)) == Some(s)
    decreases |s|
  {
    if s != [] {
      EscapeStringRoundTrip(s[1..]);
      var e := EscapeString(s);
      if s[0] == '\n' {
        assert e == ['\\', 'n'] + EscapeString(s[1..]);
        assert e[2..] == EscapeString(s[1..]);
      } else {
        assert e == [s[0]] + EscapeString(s[1..]);
        assert e[1..] == EscapeString(s[1..]);
      }
      assert s == [s[0]] + s[1..];
    }
  }

  /** The single-string pair as written loses every backslash: `\x` escapes to
      itself and unescapes to the empty string. */
  lemma BackslashLostInRoundTrip()
    ensures EscapeString(['\\', 'x']) == ['\\', 'x']
    ensures UnescapeString(EscapeString(['\\', 'x'])) == Some([])
    ensures UnescapeString(EscapeString(['\\', 'n'])) == Some(['\n'])
  {
    var bx: string := ['\\', 'x'];
    var bn: string := ['\\', 'n'];
    assert EscapeString(['x']) == ['x'] + EscapeString([]);
    assert EscapeString(['n']) == ['n'] + EscapeString([]);
    assert EscapeString(bx) == ['\\'] + EscapeString(['x']) == bx;
    assert EscapeString(bn) == ['\\'] + EscapeString(['n']) == bn;
    assert bx[2..] == [] && bn[2..] == [];
    assert UnescapeString(bx) == Some([]);
    assert UnescapeString(bn) == Some(['\n'] + []);
    assert ['\n'] + [] == ['\n'];
  }

  /** Corrected escaping: a backslash is escaped too, as in the quoted
      elements of a string vector. */
  function EscapeStringFixed(s: string): (r: string)
    ensures |s| <= |r| <= 2 * |s|
  {
    if s == [] then []
    else
      (if s[0] == '\\' then ['\\', '\\']
       else if IsLineBreak(s[0]) then ['\\', 'n']
       else [s[0]]) + EscapeStringFixed(s[1..])
  }

  /** Corrected unescaping: the character after a backslash is kept, and `\n`
      is a newline. */
  function UnescapeStringFixed(s: string): (r: Option<string>)
    ensures r.Some? ==> |r.value| <= |s|
  {
    if s == [] then Some([])
    else if s[0] == '\\' then
      if |s| == 1 then None
      else
        match UnescapeStringFixed(s[2..])
        case None => None
        case Some(t) => Some([if s[1] == 'n' then '\n' else s[1]] + t)
    else
      match UnescapeStringFixed(s[1..])
      case None => None
      case Some(t) => Some([s[0]] + t)
  }

  /** With the correction every string without '\r' round-trips, backslashes
      included. */
  lemma {:induction false} EscapeStringFixedRoundTrip(s: string)
    requires forall k :: 0 <= k < |s| ==> s[k] != '\r'
    ensures UnescapeStringFixed(EscapeStringFixed(s)) == Some(s)
    decreases |s|
  {
    if s != [] {
      EscapeStringFixedRoundTrip(s[1..]);
      var e := EscapeStringFixed(s);
      if s[0] == '\\' || s[0] == '\n' {
        assert e[2..] == EscapeStringFixed(s[1..]);
      } else {
        assert e[1..] == EscapeStringFixed(s[1..]);
      }
      assert s == [s[0]] + s[1..];
    }
  }

  // ---------------------------------------------------------------------------
  // Vectors of strings
  // ---------------------------------------------------------------------------

  /** Characters that force an element of a string vector into quotes. */
  predicate ForcesQuotes(c: char)
  {
    c == ' ' || c == '\t' || c == '\\' || c == '"' || c == '\r' || c == '\n'
  }

  predicate NeedsQuotes(e: string)
  {
    exists k :: 0 <= k < |e| && ForcesQuotes(e[k])
  }

  /** The body of a quoted element: '\' and '"' get a backslash, line breaks
      become `\n`. */
  function EscapeQuoted(e: string): (r: string)
    ensures |e| <= |r| <= 2 * |e|
  {
    if e == [] then []
    else
      (if e[0] == '\\' || e[0] == '"' then ['\\', e[0]]
       else if IsLineBreak(e[0]) then ['\\', 'n']
       else [e[0]]) + EscapeQuoted(e[1..])
  }

  /** One element of escape_strings_cstyle. `only` is set when the vector has a
      single element: an empty sole element is quoted so that it is not lost. */
  function EscapeElement(e: string, only: bool): (r: string)
    ensures r == e <==> !NeedsQuotes(e) && !(only && e == [])
    ensures r != e ==> |r| >= 2 && r[0] == '"' && r[|r| - 1] == '"'
  {
    if NeedsQuotes(e) || (only && e == []) then "\"" + EscapeQuoted(e) + "\"" else e
  }

  /** The elements after the first, each preceded by ';'. */
  function EscapeTail(w: seq<string>): (r: string)
    ensures w != [] ==> |r| >= 1 && r[0] == ';'
    ensures w == [] ==> r == []
  {
    if w == [] then [] else ";" + EscapeElement(w[0], false) + EscapeTail(w[1..])
  }

  /** escape_strings_cstyle. */
  function EscapeStrings(v: seq<string>): (r: string)
    ensures r == [] <==> v == []
  {
    if v == [] then []
    else
      var head := EscapeElement(v[0], |v| == 1);
      assert |v| == 1 ==> head != [];
      head + EscapeTail(v[1..])
  }

  predicate IsBlank(c: char) { c == ' ' || c == '\t' }

  /** The suffix of `t` after its leading spaces and tabs. */
  function SkipBlanks(t: string): (r: string)
    ensures |r| <= |t| && r == t[|t| - |r|..]
    ensures r == [] || !IsBlank(r[0])
    ensures forall k :: 0 <= k < |t| - |r| ==> IsBlank(t[k])
  {
    if t != [] && IsBlank(t[0]) then
      var r := SkipBlanks(t[1..]);
      assert t[1..][|t| - 1 - |r|..] == t[|t| - |r|..];
      assert forall k :: 1 <= k < |t| - |r| ==> t[k] == t[1..][k - 1];
      r
    else t
  }

  datatype QuotedWord = Word(word: string, rest: string) | Unterminated | LoneBackslash

  function Prepend(c: char, q: QuotedWord): QuotedWord
  {
    match q
    case Word(w, r) => Word([c] + w, r)
    case _ => q
  }

  /** Reads a quoted word; `t` starts right after the opening quote. A backslash
      takes the next character literally, except that `\n` is a newline. */
  function ReadQuoted(t: string): (r: QuotedWord)
    ensures r.Word? ==> |r.rest| < |t|
  {
    if t == [] then Unterminated
    else if t[0] == '"' then Word([], t[1..])
    else if t[0] == '\\' then
      if |t| == 1 then LoneBackslash
      else Prepend(if t[1] == 'n' then '\n' else t[1], ReadQuoted(t[2..]))
    else Prepend(t[0], ReadQuoted(t[1..]))
  }

  /** The outcome of unescape_strings_cstyle: the bool it returns and the
      strings it appended to its output vector. */
  datatype Decoded = Decoded(ok: bool, out: seq<string>)

  /** The loop body of unescape_strings_cstyle, from the start of a word. */
  function ParseWords(t: string, acc: seq<string>): (r: Decoded)
    requires t != []
    ensures |acc| <= |r.out|
    decreases |t|, 1
  {
    var u := SkipBlanks(t);
    if u == [] then Decoded(true, acc)
    else if u[0] == '"' then
      match ReadQuoted(u[1..])
      case Word(w, rest) => AfterWord(rest, acc + [w])
      case _ => Decoded(false, acc)
    else
      var (w, rest) := SplitAt(u, ';');
      AfterWord(rest, acc + [w])
  }

  /** What follows a word: the end, blanks, or a ';' that either ends the
      input (one more empty string) or starts the next word. */
  function AfterWord(r: string, acc: seq<string>): (d: Decoded)
    ensures |acc| <= |d.out|
    decreases |r|, 0
  {
    if r == [] then Decoded(true, acc)
    else
      var m := SkipBlanks(r);
      if m == [] then Decoded(true, acc)
      else if m[0] != ';' then Decoded(false, acc)
      else if |m| == 1 then Decoded(true, acc + [""])
      else ParseWords(m[1..], acc)
  }

  /** unescape_strings_cstyle, starting from an empty output vector. */
  function UnescapeStrings(s: string): (r: Decoded)
    ensures s == [] ==> r == Decoded(true, [])
  {
    if s == [] then Decoded(true, []) else ParseWords(s, [])
  }

  // ---------------------------------------------------------------------------
  // Properties of the vector codec
  // ---------------------------------------------------------------------------

  /** Elements that the codec carries unchanged: no ';' (which would split an
      unquoted element) and no '\r' (which is written as `\n`). */
  predicate Portable(e: string)
  {
    forall k :: 0 <= k < |e| ==> e[k] != ';' && e[k] != '\r'
  }

  lemma {:induction false} ReadQuotedOfEscaped(e: string, rest: string)
    requires forall k :: 0 <= k < |e| ==> e[k] != '\r'
    ensures ReadQuoted(EscapeQuoted(e) + "\"" + rest) == Word(e, rest)
    decreases |e|
  {
    if e == [] {
      assert EscapeQuoted(e) + "\"" + rest == ['"'] + rest;
    } else {
      var c := e[0];
      ReadQuotedOfEscaped(e[1..], rest);
      var tail := EscapeQuoted(e[1..]) + "\"" + rest;
      var head := if c == '\\' || c == '"' then ['\\', c] else if IsLineBreak(c) then ['\\', 'n'] else [c];
      assert EscapeQuoted(e) == head + EscapeQuoted(e[1..]);
      AppendAssoc(head, EscapeQuoted(e[1..]), "\"");
      AppendAssoc(head, EscapeQuoted(e[1..]) + "\"", rest);
      DropPrefix(head, tail);
      ReadQuotedStep(head + tail, c, tail);
      HeadTail(e);
    }
  }

  /** One character (or escape pair) of a quoted word, read off the front. */
  lemma ReadQuotedStep(t: string, c: char, tail: string)
    requires t != [] && t[0] != '"'
    requires t[0] == '\\' ==>
               |t| >= 2 && t[2..] == tail && ((c == '\n' && t[1] == 'n') || ((c == '\\' || c == '"') && t[1] == c))
    requires t[0] != '\\' ==> t[0] == c && t[1..] == tail
    ensures ReadQuoted(t) == Prepend(c, ReadQuoted(tail))
  {
  }

  lemma {:induction false} SkipBlanksNone(t: string)
    requires t == [] || !IsBlank(t[0])
    ensures SkipBlanks(t) == t
  {
  }

  lemma {:induction false} ParseWordsQuoted(t: string, acc: seq<string>)
    requires t != [] && t[0] == '"' && ReadQuoted(t[1..]).Word?
    ensures ParseWords(t, acc) == AfterWord(ReadQuoted(t[1..]).rest, acc + [ReadQuoted(t[1..]).word])
  {
    SkipBlanksNone(t);
  }

  lemma {:induction false} ParseWordsPlain(t: string, acc: seq<string>)
    requires t != [] && t[0] != '"' && !IsBlank(t[0])
    ensures ParseWords(t, acc) == AfterWord(SplitAt(t, ';').1, acc + [SplitAt(t, ';').0])
  {
    SkipBlanksNone(t);
  }

  lemma {:induction false} AfterWordSemicolon(r: string, acc: seq<string>)
    requires |r| >= 2 && r[0] == ';'
    ensures AfterWord(r, acc) == ParseWords(r[1..], acc)
  {
    SkipBlanksNone(r);
  }

  /** Reading one escaped element hands the rest of the line to `AfterWord`. */
  lemma {:induction false} ParseEscapedElement(e: string, only: bool, rest: string, acc: seq<string>)
    requires Portable(e)
    requires rest == [] || rest[0] == ';'
    requires EscapeElement(e, only) + rest != []
    ensures ParseWords(EscapeElement(e, only) + rest, acc) == AfterWord(rest, acc + [e])
  {
    if NeedsQuotes(e) || (only && e == []) {
      AppendAssoc(['"'] + EscapeQuoted(e), "\"", rest);
      AppendAssoc(['"'], EscapeQuoted(e), "\"" + rest);
      AppendAssoc(EscapeQuoted(e), "\"", rest);
      ParseQuotedElement(e, rest, acc);
    } else {
      assert EscapeElement(e, only) == e;
      ParsePlainElement(e, rest, acc);
    }
  }

  lemma {:induction false} ParseQuotedElement(e: string, rest: string, acc: seq<string>)
    requires Portable(e)
    ensures ParseWords(['"'] + (EscapeQuoted(e) + "\"" + rest), acc) == AfterWord(rest, acc + [e])
  {
    var t := ['"'] + (EscapeQuoted(e) + "\"" + rest);
    DropPrefix(['"'], EscapeQuoted(e) + "\"" + rest);
    ReadQuotedOfEscaped(e, rest);
    ParseWordsQuoted(t, acc);
  }

  lemma {:induction false} ParsePlainElement(e: string, rest: string, acc: seq<string>)
    requires Portable(e) && !NeedsQuotes(e)
    requires rest == [] || rest[0] == ';'
    requires e + rest != []
    ensures ParseWords(e + rest, acc) == AfterWord(rest, acc + [e])
  {
    var t := e + rest;
    SplitAtOfWord(e, ';', rest);
    if e != [] {
      assert !ForcesQuotes(e[0]);
      assert t[0] == e[0];
    } else {
      assert t == rest;
    }
    ParseWordsPlain(t, acc);
  }

  /** Decoding `;` followed by one escaped element stores that element and
      continues after it. */
  lemma {:induction false} EscapeTailStep(w: seq<string>, acc: seq<string>)
    requires w != [] && Portable(w[0])
    ensures AfterWord(EscapeTail(w), acc) == AfterWord(EscapeTail(w[1..]), acc + [w[0]])
  {
    var el := EscapeElement(w[0], false);
    var tail := EscapeTail(w[1..]);
    var r := EscapeTail(w);
    assert r == [';'] + (el + tail);
    if el + tail == [] {
      assert |r| == 1 && r[0] == ';';
      SkipBlanksNone(r);
    } else {
      assert r[1..] == el + tail;
      AfterWordSemicolon(r, acc);
      ParseEscapedElement(w[0], false, tail, acc);
    }
  }

  lemma {:induction false} EscapeTailRoundTrip(w: seq<string>, acc: seq<string>)
    requires forall k :: 0 <= k < |w| ==> Portable(w[k])
    ensures AfterWord(EscapeTail(w), acc) == Decoded(true, acc + w)
    decreases |w|
  {
    if w == [] {
      assert acc + w == acc;
      assert EscapeTail(w) == [];
    } else {
      assert Portable(w[0]);
      EscapeTailStep(w, acc);
      assert forall k :: 0 <= k < |w[1..]| ==> Portable(w[1..][k]) by {
        forall k | 0 <= k < |w[1..]| ensures Portable(w[1..][k]) {
          assert w[1..][k] == w[k + 1];
        }
      }
      EscapeTailRoundTrip(w[1..], acc + [w[0]]);
      AppendHead(acc, w);
    }
  }

  /** Decoding starts by reading the first escaped element. */
  lemma {:induction false} UnescapeStringsHead(e: string, only: bool, rest: string)
    requires Portable(e)
    requires rest == [] || rest[0] == ';'
    requires only || rest != []
    ensures UnescapeStrings(EscapeElement(e, only) + rest) == AfterWord(rest, [e])
  {
    assert EscapeElement(e, only) + rest != [];
    ParseEscapedElement(e, only, rest, []);
    assert [] + [e] == [e];
  }

  /** Every vector of portable strings, including `[]` and `[""]`, survives
      an escape and unescape round trip. */
  lemma {:induction false} EscapeStringsRoundTrip(v: seq<string>)
    requires forall k :: 0 <= k < |v| ==> Portable(v[k])
    ensures UnescapeStrings(EscapeStrings(v)) == Decoded(true, v)
  {
    if v != [] {
      assert Portable(v[0]);
      var tail := EscapeTail(v[1..]);
      assert EscapeStrings(v) == EscapeElement(v[0], |v| == 1) + tail;
      UnescapeStringsHead(v[0], |v| == 1, tail);
      EscapeTailRoundTrip(v[1..], [v[0]]);
      HeadTail(v);
    }
  }

  lemma {:induction false} EscapeTailAppendEmpty(w: seq<string>)
    ensures EscapeTail(w + [""]) == EscapeTail(w) + ";"
    decreases |w|
  {
    if w == [] {
      assert EscapeTail([""]) == ";" + EscapeElement("", false) + EscapeTail([]);
    } else {
      assert (w + [""])[1..] == w[1..] + [""];
      EscapeTailAppendEmpty(w[1..]);
    }
  }

  lemma {:induction false} AllPortableTailPlusEmpty(v: seq<string>)
    requires v != []
    requires forall k :: 0 <= k < |v| ==> Portable(v[k])
    ensures forall k :: 0 <= k < |v| ==> Portable((v[1..] + [""])[k])
  {
    forall k | 0 <= k < |v| ensures Portable((v[1..] + [""])[k]) {
      if k < |v| - 1 {
        assert (v[1..] + [""])[k] == v[k + 1];
      } else {
        assert (v[1..] + [""])[k] == "";
      }
    }
  }

  lemma {:induction false} EscapeStringsAppendSemicolon(v: seq<string>)
    requires v != []
    ensures EscapeStrings(v) + ";" == EscapeElement(v[0], |v| == 1) + EscapeTail(v[1..] + [""])
  {
    EscapeTailAppendEmpty(v[1..]);
    AppendAssoc(EscapeElement(v[0], |v| == 1), EscapeTail(v[1..]), ";");
  }

  /** A trailing ';' after an escaped vector yields one extra empty string. */
  lemma {:induction false} TrailingSemicolonAddsEmptyString(v: seq<string>)
    requires v != []
    requires forall k :: 0 <= k < |v| ==> Portable(v[k])
    ensures UnescapeStrings(EscapeStrings(v) + ";") == Decoded(true, v + [""])
  {
    var w := v[1..] + [""];
    var tail := EscapeTail(w);
    EscapeStringsAppendSemicolon(v);
    assert Portable(v[0]);
    UnescapeStringsHead(v[0], |v| == 1, tail);
    AllPortableTailPlusEmpty(v);
    EscapeTailRoundTrip(w, [v[0]]);
    ConsAppend(v, "");
  }

  /** A quoted word is only found up to a closing quote. */
  lemma {:induction false} ReadQuotedNeedsQuote(t: string)
    requires forall k :: 0 <= k < |t| ==> t[k] != '"'
    ensures !ReadQuoted(t).Word?
    decreases |t|
  {
    if t != [] && t[0] == '\\' && |t| > 1 {
      ReadQuotedNeedsQuote(t[2..]);
    } else if t != [] && t[0] != '\\' {
      ReadQuotedNeedsQuote(t[1..]);
    }
  }

  /** A quoted word without a closing quote makes the decoder fail. */
  lemma {:induction false} UnterminatedQuoteFails(body: string)
    requires forall k :: 0 <= k < |body| ==> body[k] != '"'
    ensures UnescapeStrings("\"" + body) == Decoded(false, [])
  {
    var s := "\"" + body;
    SkipBlanksNone(s);
    assert s[1..] == body;
    ReadQuotedNeedsQuote(body);
  }

  /** After a quoted word, anything other than blanks or ';' makes the decoder
      fail; the word itself has already been stored. */
  lemma {:induction false} JunkAfterQuotedWordFails(e: string, c: char, rest: string)
    requires forall k :: 0 <= k < |e| ==> e[k] != '\r'
    requires c != ';' && !IsBlank(c)
    ensures UnescapeStrings("\"" + EscapeQuoted(e) + "\"" + [c] + rest) == Decoded(false, [e])
  {
    var s := "\"" + EscapeQuoted(e) + "\"" + [c] + rest;
    assert s == ['"'] + (EscapeQuoted(e) + "\"" + ([c] + rest));
    assert s[1..] == EscapeQuoted(e) + "\"" + ([c] + rest);
    ReadQuotedOfEscaped(e, [c] + rest);
    ParseWordsQuoted(s, []);
    SkipBlanksNone([c] + rest);
    assert [] + [e] == [e];
  }
}
