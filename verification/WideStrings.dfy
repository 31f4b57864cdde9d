/**
 Wide strings in UTF-8: WideStringToUtf8 for a wchar_t of two octets, which holds UTF-16, and of
 four, against the UTF-16 encoding of RFC 2781. A wchar_t is the bits it has as a UInt32.
 */
module WideStrings {
  import opened Common
  import opened Utf8

  // ---- Surrogate pairs ----

  predicate IsHigh(u: bv32) {
    u & 0xFC00 == 0xD800
  }

  predicate IsLow(u: bv32) {
    u & 0xFC00 == 0xDC00
  }

  /** IsUtf16SurrogatePair; short says that wchar_t has two octets. */
  predicate IsPair(first: bv32, second: bv32, short: bool) {
    short && IsHigh(first) && IsLow(second)
  }

  /** CreateCodePointFromUtf16SurrogatePair, of a pair. */
  function FromPair(first: bv32, second: bv32): bv32 {
    (((first & 0x3FF) << 10) | (second & 0x3FF)) + 0x1_0000
  }

  /** The code points of a wide string. */
  function Points(units: seq<bv32>, short: bool): seq<bv32> {
    if units == [] then []
    else if |units| >= 2 && IsPair(units[0], units[1], short) then
      [FromPair(units[0], units[1])] + Points(units[2..], short)
    else [units[0]] + Points(units[1..], short)
  }

  /** Section 2.1 of RFC 2781. */
  function Encoding16(p: bv32): seq<bv32> {
    if p <= 0xFFFF then [p]
    else [0xD800 | ((p - 0x1_0000) >> 10), 0xDC00 | ((p - 0x1_0000) & 0x3FF)]
  }

  function Encode16(ps: seq<bv32>): seq<bv32> {
    if ps == [] then [] else Encoding16(ps[0]) + Encode16(ps[1..])
  }

  predicate Short(units: seq<bv32>) {
    forall i :: 0 <= i < |units| ==> units[i] <= 0xFFFF
  }

  predicate IsScalar(p: bv32) {
    0 < p <= 0x10_FFFF && !IsHigh(p) && !IsLow(p)
  }

  /** Two units that are a surrogate pair, and the 20 bits they carry. */
  predicate Carry(first: bv32, second: bv32, v: bv32) {
    first <= 0xFFFF && second <= 0xFFFF && IsHigh(first) && IsLow(second)
    && v == ((first & 0x3FF) << 10) | (second & 0x3FF)
  }

  lemma CarryFirst(first: bv32, second: bv32, v: bv32)
    requires Carry(first, second, v)
    ensures v <= 0xF_FFFF && 0xD800 | (v >> 10) == first
  {
  }

  lemma CarrySecond(first: bv32, second: bv32, v: bv32)
    requires Carry(first, second, v)
    ensures 0xDC00 | (v & 0x3FF) == second
  {
  }

  lemma Offset(v: bv32)
    requires v <= 0xF_FFFF
    ensures 0x1_0000 <= v + 0x1_0000 <= 0x10_FFFF && (v + 0x1_0000) - 0x1_0000 == v
  {
  }

  lemma EncodingOfOffset(v: bv32)
    requires v <= 0xF_FFFF
    ensures Encoding16(v + 0x1_0000) == [0xD800 | (v >> 10), 0xDC00 | (v & 0x3FF)]
  {
    Offset(v);
  }

  lemma OffsetPair(first: bv32, second: bv32, v: bv32)
    requires Carry(first, second, v)
    ensures 0x1_0000 <= v + 0x1_0000 <= 0x10_FFFF
    ensures Encoding16(v + 0x1_0000) == [first, second]
  {
    CarryFirst(first, second, v);
    CarrySecond(first, second, v);
    Offset(v);
    EncodingOfOffset(v);
  }

  lemma PairBits(first: bv32, second: bv32)
    requires first <= 0xFFFF && second <= 0xFFFF && IsHigh(first) && IsLow(second)
    ensures 0x1_0000 <= FromPair(first, second) <= 0x10_FFFF
    ensures Encoding16(FromPair(first, second)) == [first, second]
  {
    OffsetPair(first, second, ((first & 0x3FF) << 10) | (second & 0x3FF));
  }

  lemma HalfOf(bits: bv32)
    requires bits <= 0x3FF
    ensures var h := 0xD800 | bits; IsHigh(h) && h <= 0xFFFF && h & 0x3FF == bits
    ensures var l := 0xDC00 | bits; IsLow(l) && l <= 0xFFFF && l & 0x3FF == bits
  {
  }

  lemma Halves(v: bv32)
    requires v <= 0xF_FFFF
    ensures v >> 10 <= 0x3FF && v & 0x3FF <= 0x3FF && ((v >> 10) << 10) | (v & 0x3FF) == v
  {
  }

  lemma Subtract(p: bv32)
    requires 0xFFFF < p <= 0x10_FFFF
    ensures p - 0x1_0000 <= 0xF_FFFF && (p - 0x1_0000) + 0x1_0000 == p
  {
  }

  lemma SupplementaryBits(p: bv32)
    requires 0xFFFF < p <= 0x10_FFFF
    ensures var e := Encoding16(p);
            IsHigh(e[0]) && IsLow(e[1]) && FromPair(e[0], e[1]) == p
  {
    Subtract(p);
    Halves(p - 0x1_0000);
    HalfOf((p - 0x1_0000) >> 10);
    HalfOf((p - 0x1_0000) & 0x3FF);
  }

  /** Nothing is lost: the code points of any 16-bit string give it back, paired surrogates or not. */
  lemma {:induction false} PointsLossless(units: seq<bv32>)
    requires Short(units)
    ensures Encode16(Points(units, true)) == units
  {
    if units == [] {
    } else if |units| >= 2 && IsPair(units[0], units[1], true) {
      PairBits(units[0], units[1]);
      PointsLossless(units[2..]);
      assert units == [units[0], units[1]] + units[2..];
    } else {
      PointsLossless(units[1..]);
      assert units == [units[0]] + units[1..];
    }
  }

  /** Every surrogate pair becomes the code point it encodes, and every other scalar value itself. */
  lemma {:induction false} PointsOfEncode16(ps: seq<bv32>)
    requires forall i :: 0 <= i < |ps| ==> IsScalar(ps[i])
    ensures Points(Encode16(ps), true) == ps
  {
    if ps == [] {
    } else {
      var p, rest := ps[0], Encode16(ps[1..]);
      PointsOfEncode16(ps[1..]);
      assert ps == [p] + ps[1..];
      if p <= 0xFFFF {
        assert ([p] + rest)[1..] == rest;
      } else {
        SupplementaryBits(p);
        assert (Encoding16(p) + rest)[2..] == rest;
      }
    }
  }

  /** UTF-16 reaches no code point beyond 10FFFF, so that all of them can be encoded. */
  lemma {:induction false} PointsEncodable(units: seq<bv32>)
    requires Short(units) && forall i :: 0 <= i < |units| ==> units[i] != 0
    ensures Encodable(Points(units, true))
  {
    if units == [] {
    } else if |units| >= 2 && IsPair(units[0], units[1], true) {
      PointsEncodable(units[2..]);
      PairBits(units[0], units[1]);
      EncodableCons(FromPair(units[0], units[1]), Points(units[2..], true));
    } else {
      PointsEncodable(units[1..]);
      EncodableCons(units[0], Points(units[1..], true));
    }
  }

  lemma EncodableCons(p: bv32, rest: seq<bv32>)
    requires 0 < p <= 0x10_FFFF && Encodable(rest)
    ensures Encodable([p] + rest)
  {
  }

  lemma {:induction false} PointsLong(units: seq<bv32>)
    ensures Points(units, false) == units
  {
    if units == [] {
    } else {
      PointsLong(units[1..]);
    }
  }

  // ---- WideStringToUtf8 ----

  /** What the stream receives. */
  function Streamed(ps: seq<bv32>): seq<bv8> {
    if ps == [] then [] else Utf8.Utf8(ps[0]) + Streamed(ps[1..])
  }

  /** StringStreamToString: NUL octets become a backslash and a zero. */
  function StreamToString(octets: seq<bv8>): seq<bv8> {
    if octets == [] then []
    else (if octets[0] == 0 then [0x5C, 0x30] else [octets[0]]) + StreamToString(octets[1..])
  }

  /** The characters in front of the terminator. */
  function UpToNul(str: seq<bv32>): (r: seq<bv32>)
    ensures r <= str
    ensures forall i :: 0 <= i < |r| ==> r[i] != 0
    ensures |r| < |str| ==> str[|r|] == 0
  {
    if str == [] || str[0] == 0 then [] else [str[0]] + UpToNul(str[1..])
  }

  /** The characters that are converted; -1 stands for all. */
  function Units(str: seq<bv32>, numChars: int): (r: seq<bv32>)
    ensures r <= str && forall i :: 0 <= i < |r| ==> r[i] != 0
    ensures numChars != -1 ==> |r| <= Max(0, numChars)
    ensures |r| < |str| && str[|r|] != 0 ==> numChars != -1 && |r| == Max(0, numChars)
  {
    var all := UpToNul(str);
    if numChars == -1 then all else all[..Max(0, Min(numChars, |all|))]
  }

  /** The string can be read that far. */
  predicate Readable(str: seq<bv32>, numChars: int) {
    |UpToNul(str)| < |str| || 0 <= numChars <= |str| || numChars < -1
  }

  /** The inner part of the loop: the code point at i and where the next one is. */
  method NextPoint(str: seq<bv32>, i: nat, n: int, short: bool, ghost units: seq<bv32>)
    returns (codePoint: bv32, next: nat)
    requires units <= str && i < |units| <= n
    requires |units| < n ==> |units| < |str| && str[|units|] == 0
    ensures i < next <= |units|
    ensures Points(units[i..], short) == [codePoint] + Points(units[next..], short)
  {
    ghost var rest := units[i..];
    assert rest[0] == str[i] && rest[1..] == units[i + 1..];
    if i + 1 < n && IsPair(str[i], str[i + 1], short) {
      assert i + 1 < |units| && rest[1] == str[i + 1] && rest[2..] == units[i + 2..];
      codePoint, next := FromPair(str[i], str[i + 1]), i + 2;
    } else {
      codePoint, next := str[i], i + 1;
    }
  }

  method WideStringToUtf8(str: seq<bv32>, numChars: int, short: bool) returns (s: seq<bv8>)
    requires Readable(str, numChars)
    ensures s == StreamToString(Streamed(Points(Units(str, numChars), short)))
  {
    var n := if numChars == -1 then |UpToNul(str)| else numChars;
    ghost var units := Units(str, numChars);
    var stream: seq<bv8> := [];
    var i := 0;
    while i < n
      invariant 0 <= i <= |units|
      invariant stream + Streamed(Points(units[i..], short)) == Streamed(Points(units, short))
      decreases n - i
    {
      if str[i] == 0 {
        break;
      }
      var codePoint, next := NextPoint(str, i, n, short, units);
      var octets := CodePointToUtf8(codePoint);
      StreamStep(stream, codePoint, Points(units[next..], short));
      stream, i := stream + octets, next;
    }
    assert units[i..] == [] && stream + [] == stream;
    s := StreamToString(stream);
  }

  lemma StreamStep(stream: seq<bv8>, p: bv32, rest: seq<bv32>)
    ensures stream + Streamed([p] + rest) == (stream + Utf8.Utf8(p)) + Streamed(rest)
  {
    assert ([p] + rest)[1..] == rest;
    Associative(stream, Utf8.Utf8(p), Streamed(rest));
  }

  // ---- What the octets tell ----

  lemma {:induction false} NoNulInStream(ps: seq<bv32>)
    requires Encodable(ps)
    ensures Streamed(ps) == EncodeAll(ps) && 0 !in EncodeAll(ps)
  {
    if ps == [] {
    } else {
      NoNulInStream(ps[1..]);
      NoNulOctet(ps[0]);
    }
  }

  lemma {:induction false} StreamAppend(a: seq<bv8>, b: seq<bv8>)
    ensures StreamToString(a + b) == StreamToString(a) + StreamToString(b)
  {
    if a == [] {
      assert a + b == b;
    } else {
      assert (a + b)[1..] == a[1..] + b;
      StreamAppend(a[1..], b);
      Associative(if a[0] == 0 then [0x5C, 0x30] else [a[0]], StreamToString(a[1..]), StreamToString(b));
    }
  }

  /** Every NUL becomes a backslash and a zero, where it stands. */
  lemma NulSpelled(a: seq<bv8>, b: seq<bv8>)
    ensures StreamToString(a + ([0] + b)) == StreamToString(a) + ([92, 48] + StreamToString(b))
  {
    assert ([0] + b)[1..] == b;
    StreamAppend(a, [0] + b);
  }

  lemma {:induction false} UnchangedWithoutNul(octets: seq<bv8>)
    requires 0 !in octets
    ensures StreamToString(octets) == octets
  {
    if octets == [] {
    } else {
      UnchangedWithoutNul(octets[1..]);
      assert octets == [octets[0]] + octets[1..];
    }
  }

  /** The text that stands for a wide string. */
  function Text(str: seq<bv32>, numChars: int, short: bool): seq<bv8> {
    StreamToString(Streamed(Points(Units(str, numChars), short)))
  }

  lemma TextOfEncodable(ps: seq<bv32>)
    requires Encodable(ps)
    ensures Decode(StreamToString(Streamed(ps))) == Some(ps)
  {
    NoNulInStream(ps);
    UnchangedWithoutNul(EncodeAll(ps));
    RoundTrip(ps);
  }

  /**
   With 16-bit characters the text decodes to the code points of the string, and these give back
   every character of it, so that two different strings never become the same text.
   */
  lemma ShortText(str: seq<bv32>, numChars: int)
    requires Short(str)
    ensures var t := Decode(Text(str, numChars, true)); t.Some? && Encode16(t.value) == Units(str, numChars)
  {
    var units := Units(str, numChars);
    PointsEncodable(units);
    TextOfEncodable(Points(units, true));
    PointsLossless(units);
  }

  /** A string that holds the UTF-16 encoding of scalar values becomes their UTF-8 encoding. */
  lemma ShortTextOfScalars(ps: seq<bv32>, str: seq<bv32>, numChars: int)
    requires forall i :: 0 <= i < |ps| ==> IsScalar(ps[i])
    requires Units(str, numChars) == Encode16(ps)
    ensures Text(str, numChars, true) == EncodeAll(ps)
  {
    PointsOfEncode16(ps);
    NoNulInStream(ps);
    UnchangedWithoutNul(EncodeAll(ps));
  }

  /** With 32-bit characters the text decodes to the characters if and only if each has at most 21 bits. */
  lemma LongText(str: seq<bv32>, numChars: int)
    ensures var units := Units(str, numChars);
            Decode(Text(str, numChars, false)) == Some(units) <==>
              forall i :: 0 <= i < |units| ==> units[i] <= 0x1F_FFFF
  {
    var units := Units(str, numChars);
    PointsLong(units);
    if forall i :: 0 <= i < |units| ==> units[i] <= MAX_CODE_POINT_4 {
      TextOfEncodable(units);
    } else if Decode(Text(str, numChars, false)).Some? {
      DecodedFit(Text(str, numChars, false));
    }
  }
}
