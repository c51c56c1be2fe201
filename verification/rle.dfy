/** The byte-level codecs of the JXS archive format
    (src/libslic3r/Format/JXS.cpp): run-length encoding of layer images as
    (count, value) byte pairs, and the 8-byte header of an encoded layer. */
module Rle {

  newtype byte = x: int | 0 <= x < 256

  // ---------------------------------------------------------------------------
  // Reference meaning of an RLE stream
  // ---------------------------------------------------------------------------

  /** The bytes a stream of (count, value) pairs stands for; a trailing odd
      byte is no pair and stands for nothing. */
  function Expand(pairs: seq<byte>): (r: seq<byte>)
    decreases |pairs|
  {
    if |pairs| < 2 then [] else seq(pairs[0] as int, _ => pairs[1]) + Expand(pairs[2..])
  }

  /** The first `n` elements of `s`, or all of `s` when it is shorter. */
  function Cap(s: seq<byte>, n: nat): (r: seq<byte>)
    ensures |r| == if |s| <= n then |s| else n
    ensures r == s[..|r|]
  {
    if |s| <= n then s else s[..n]
  }

  /** Every count byte of a pair stream is between 1 and 255. */
  predicate PositiveCounts(pairs: seq<byte>)
  {
    forall k :: 0 <= k < |pairs| / 2 ==> pairs[2 * k] >= 1
  }

  /** Two consecutive pairs carry the same value only when the first run is
      full (255): runs are as long as the count byte allows. */
  predicate MaximalRuns(pairs: seq<byte>)
  {
    forall k :: 0 <= k < |pairs| / 2 - 1 && pairs[2 * k + 1] == pairs[2 * k + 3] ==> pairs[2 * k] == 255
  }

  lemma {:induction false} ExpandAppend(a: seq<byte>, b: seq<byte>)
    requires |a| % 2 == 0
    ensures Expand(a + b) == Expand(a) + Expand(b)
    decreases |a|
  {
    if a == [] {
      assert a + b == b;
    } else {
      assert (a + b)[2..] == a[2..] + b;
      ExpandAppend(a[2..], b);
    }
  }

  lemma ExpandPair(c: byte, v: byte)
    ensures Expand([c, v]) == seq(c as int, _ => v)
  {
    assert [c, v][2..] == [];
  }

  /** The sum of the count bytes of all complete pairs. */
  function SumCounts(pairs: seq<byte>): nat
    decreases |pairs|
  {
    if |pairs| < 2 then 0 else pairs[0] as nat + SumCounts(pairs[2..])
  }

  /** A pair stream expands to as many bytes as its counts add up to, and a
      trailing odd byte adds nothing. */
  lemma {:induction false} ExpandLength(pairs: seq<byte>, extra: byte)
    ensures |Expand(pairs)| == SumCounts(pairs)
    ensures |pairs| % 2 == 0 ==> Expand(pairs + [extra]) == Expand(pairs)
    decreases |pairs|
  {
    if |pairs| >= 2 {
      ExpandLength(pairs[2..], extra);
      if |pairs| % 2 == 0 {
        assert (pairs + [extra])[2..] == pairs[2..] + [extra];
      }
    } else if |pairs| == 0 {
      assert pairs + [extra] == [extra];
    }
  }

  // ---------------------------------------------------------------------------
  // rle_encode
  // ---------------------------------------------------------------------------

  /** JXSArchive::rle_encode: each run of equal bytes, cut into pieces of at
      most 255, becomes a (count, value) pair. */
  method RleEncode(data: seq<byte>) returns (r: seq<byte>)
    ensures |r| % 2 == 0
    ensures PositiveCounts(r)
    ensures MaximalRuns(r)
    ensures Expand(r) == data
    ensures SumCounts(r) == |data|
    ensures |r| <= 2 * |data|
  {
    r := [];
    var i := 0;
    while i < |data|
      invariant 0 <= i <= |data|
      invariant |r| % 2 == 0 && |r| <= 2 * i
      invariant PositiveCounts(r) && MaximalRuns(r)
      invariant Expand(r) == data[..i]
      invariant r != [] ==> i > 0 && r[|r| - 1] == data[i - 1]
      invariant r != [] && i < |data| && data[i] == r[|r| - 1] ==> r[|r| - 2] == 255
    {
      var current := data[i];
      var count := 1;
      while i + count < |data| && data[i + count] == current && count < 255
        invariant 1 <= count <= 255 && i + count <= |data|
        invariant forall m :: i <= m < i + count ==> data[m] == current
      {
        count := count + 1;
      }
      ghost var prev := r;
      r := r + [count as byte, current];
      EncodeRunStep(prev, data, i, count);
      assert |r| == |prev| + 2 && r[|r| - 2] == count as byte && r[|r| - 1] == current;
      i := i + count;
    }
    assert data[..i] == data;
    ExpandLength(r, 0);
  }

  /** Appending the pair for the run data[i..i + count] keeps the encoder's
      loop invariant. */
  lemma EncodeRunStep(prev: seq<byte>, data: seq<byte>, i: nat, count: nat)
    requires 1 <= count <= 255 && i + count <= |data|
    requires |prev| % 2 == 0 && PositiveCounts(prev) && MaximalRuns(prev)
    requires Expand(prev) == data[..i]
    requires prev != [] ==> i > 0 && prev[|prev| - 1] == data[i - 1]
    requires prev != [] && data[i] == prev[|prev| - 1] ==> prev[|prev| - 2] == 255
    requires forall m :: i <= m < i + count ==> data[m] == data[i]
    ensures PositiveCounts(prev + [count as byte, data[i]])
    ensures MaximalRuns(prev + [count as byte, data[i]])
    ensures Expand(prev + [count as byte, data[i]]) == data[..i + count]
  {
    var current := data[i];
    var r := prev + [count as byte, current];
    ExpandAppend(prev, [count as byte, current]);
    ExpandPair(count as byte, current);
    assert data[..i + count] == data[..i] + data[i..i + count];
    assert data[i..i + count] == seq(count, _ => current);
    forall k | 0 <= k < |r| / 2 ensures r[2 * k] >= 1 {
      if k < |prev| / 2 {
        assert r[2 * k] == prev[2 * k];
      }
    }
    forall k | 0 <= k < |r| / 2 - 1 && r[2 * k + 1] == r[2 * k + 3] ensures r[2 * k] == 255 {
      if k < |prev| / 2 - 1 {
        assert r[2 * k] == prev[2 * k] && r[2 * k + 1] == prev[2 * k + 1] && r[2 * k + 3] == prev[2 * k + 3];
      } else {
        assert 2 * k == |prev| - 2;
      }
    }
  }

  // ---------------------------------------------------------------------------
  // rle_decode
  // ---------------------------------------------------------------------------

  lemma {:induction false} CapPrefix(s: seq<byte>, t: seq<byte>, n: nat)
    requires |Cap(s, n)| == n
    ensures Cap(s + t, n) == Cap(s, n)
  {
  }

  /** The inner loop of rle_decode: append `count` copies of `value`, stopping
      at `expectedSize` bytes. */
  method AppendRun(prefix: seq<byte>, count: byte, value: byte, expectedSize: nat) returns (r: seq<byte>)
    requires |prefix| <= expectedSize
    ensures r == Cap(prefix + seq(count as int, _ => value), expectedSize)
  {
    r := prefix;
    var j: byte := 0;
    while j < count && |r| < expectedSize
      invariant 0 <= j <= count
      invariant r == prefix + seq(j as int, _ => value)
      invariant |r| <= expectedSize
    {
      r := r + [value];
      j := j + 1;
    }
    if j < count {
      CapPrefix(r, seq(count as int - j as int, _ => value), expectedSize);
      assert r + seq(count as int - j as int, _ => value) == prefix + seq(count as int, _ => value);
    }
  }

  /** Once the output is full, later pairs change nothing. */
  lemma {:induction false} DecodeFull(data: seq<byte>, i: nat, n: nat)
    requires i <= |data| && i % 2 == 0
    requires |Cap(Expand(data[..i]), n)| == n
    ensures Cap(Expand(data), n) == Cap(Expand(data[..i]), n)
  {
    ExpandAppend(data[..i], data[i..]);
    assert data[..i] + data[i..] == data;
    CapPrefix(Expand(data[..i]), Expand(data[i..]), n);
  }

  /** Past the last full pair nothing more is expanded. */
  lemma {:induction false} DecodeRest(data: seq<byte>, i: nat)
    requires i <= |data| && i % 2 == 0 && i + 1 >= |data|
    ensures Expand(data) == Expand(data[..i])
  {
    ExpandAppend(data[..i], data[i..]);
    assert data[..i] + data[i..] == data;
    assert Expand(data[i..]) == [];
  }

  /** One more pair extends the expansion by its run. */
  lemma {:induction false} DecodeStep(data: seq<byte>, i: nat)
    requires i % 2 == 0 && i + 1 < |data|
    ensures Expand(data[..i + 2]) == Expand(data[..i]) + seq(data[i] as int, _ => data[i + 1])
  {
    assert data[..i + 2] == data[..i] + [data[i], data[i + 1]];
    ExpandAppend(data[..i], [data[i], data[i + 1]]);
    ExpandPair(data[i], data[i + 1]);
  }

  /** JXSReader::rle_decode: expands (count, value) pairs until the input is
      used up or `expectedSize` bytes are out; a trailing odd byte is
      ignored. */
  method RleDecode(data: seq<byte>, expectedSize: nat) returns (r: seq<byte>)
    ensures r == Cap(Expand(data), expectedSize)
    ensures |r| <= expectedSize
  {
    r := [];
    var i := 0;
    while i < |data| && |r| < expectedSize
      invariant 0 <= i <= |data| && i % 2 == 0
      invariant r == Cap(Expand(data[..i]), expectedSize)
    {
      if i + 1 >= |data| {
        break;
      }
      var count := data[i];
      var value := data[i + 1];
      assert r == Expand(data[..i]);
      r := AppendRun(r, count, value, expectedSize);
      DecodeStep(data, i);
      i := i + 2;
    }
    if |r| == expectedSize {
      DecodeFull(data, i, expectedSize);
    } else {
      DecodeRest(data, i);
    }
  }

  /** Decoding the encoding of `data`, expecting `|data|` bytes, gives `data`
      back. */
  method RleRoundTrip(data: seq<byte>) returns (r: seq<byte>)
    ensures r == data
  {
    var encoded := RleEncode(data);
    r := RleDecode(encoded, |data|);
  }

  // ---------------------------------------------------------------------------
  // encode_layer_image header
  // ---------------------------------------------------------------------------

  const PngFormatId: nat := 2
  const Two32: nat := 0x1_0000_0000

  /** A 32-bit value as four little-endian bytes (the byte order memcpy
      produces on the little-endian hosts the format is written on). */
  function Le32(x: nat): (r: seq<byte>)
    requires x < Two32
    ensures |r| == 4
  {
    var q0 := x / 256;
    var q1 := q0 / 256;
    var q2 := q1 / 256;
    [(x % 256) as byte, (q0 % 256) as byte, (q1 % 256) as byte, q2 as byte]
  }

  function FromLe32(b: seq<byte>): (x: nat)
    requires |b| == 4
    ensures x < Two32
  {
    b[0] as nat + 256 * b[1] as nat + 65536 * b[2] as nat + 16777216 * b[3] as nat
  }

  lemma Le32RoundTrip(x: nat)
    requires x < Two32
    ensures FromLe32(Le32(x)) == x
  {
    var q0 := x / 256;
    var q1 := q0 / 256;
    var q2 := q1 / 256;
    assert x == x % 256 + 256 * q0;
    assert q0 == q0 % 256 + 256 * q1;
    assert q1 == q1 % 256 + 256 * q2;
    assert x == x % 256 + 256 * (q0 % 256) + 65536 * (q1 % 256) + 16777216 * q2;
  }

  /** encode_layer_image: the format id 2 (PNG) and the payload size, cut to
      32 bits, as little-endian words, followed by the payload. */
  function EncodeLayerImage(png: seq<byte>): (r: seq<byte>)
    ensures |r| == 8 + |png|
    ensures r[8..] == png
    ensures FromLe32(r[..4]) == PngFormatId
    ensures FromLe32(r[4..8]) == |png| % Two32
  {
    var size := |png| % Two32;
    Le32RoundTrip(PngFormatId);
    Le32RoundTrip(size);
    var r := Le32(PngFormatId) + Le32(size) + png;
    assert r[..4] == Le32(PngFormatId) && r[4..8] == Le32(size);
    r
  }
}
