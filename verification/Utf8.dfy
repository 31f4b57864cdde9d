/**
 One code point in UTF-8: CodePointToUtf8, against the table of RFC 3629 and a decoder. Characters
 of a std::string are octets.
 */
module Utf8 {
  import opened Common

  const MAX_CODE_POINT_1: bv32 := 0x7F
  const MAX_CODE_POINT_2: bv32 := 0x7FF
  const MAX_CODE_POINT_3: bv32 := 0xFFFF
  const MAX_CODE_POINT_4: bv32 := 0x1F_FFFF

  // ---- One code point ----

  function Lead(mark: bv32, bits: bv32): bv8 {
    ((mark | bits) & 0xFF) as bv8
  }

  /** 10xxxxxx with the lowest six bits. */
  function Tail(bits: bv32): bv8 {
    (0x80 | (bits & 0x3F)) as bv8
  }

  /** The table of section 3 of RFC 3629, up to 21 bits. */
  function Encoding(p: bv32): (r: seq<bv8>)
    ensures 1 <= |r| <= 4
  {
    if p <= MAX_CODE_POINT_1 then [Lead(0, p)]
    else if p <= MAX_CODE_POINT_2 then [Lead(0xC0, p >> 6), Tail(p)]
    else if p <= MAX_CODE_POINT_3 then [Lead(0xE0, p >> 12), Tail(p >> 6), Tail(p)]
    else [Lead(0xF0, p >> 18), Tail(p >> 12), Tail(p >> 6), Tail(p)]
  }

  /** The length that the first octet of a character announces. */
  function Announced(b: bv8): int {
    if b & 0x80 == 0 then 1
    else if b & 0xE0 == 0xC0 then 2
    else if b & 0xF0 == 0xE0 then 3
    else if b & 0xF8 == 0xF0 then 4
    else 0
  }

  predicate IsTail(b: bv8) {
    b & 0xC0 == 0x80
  }

  function Wide(b: bv8): bv32 {
    b as bv32
  }

  /** Whether these octets are laid out as one character. */
  predicate IsCharacter(s: seq<bv8>) {
    && s != [] && |s| == Announced(s[0])
    && (|s| > 1 ==> IsTail(s[1])) && (|s| > 2 ==> IsTail(s[2])) && (|s| > 3 ==> IsTail(s[3]))
  }

  function Value(s: seq<bv8>): bv32
    requires 1 <= |s| <= 4
  {
    if |s| == 1 then Wide(s[0])
    else if |s| == 2 then ((Wide(s[0]) & 0x1F) << 6) | (Wide(s[1]) & 0x3F)
    else if |s| == 3 then ((Wide(s[0]) & 0x0F) << 12) | ((Wide(s[1]) & 0x3F) << 6) | (Wide(s[2]) & 0x3F)
    else ((Wide(s[0]) & 0x07) << 18) | ((Wide(s[1]) & 0x3F) << 12) | ((Wide(s[2]) & 0x3F) << 6) | (Wide(s[3]) & 0x3F)
  }

  predicate ReadsBack(s: seq<bv8>, p: bv32) {
    IsCharacter(s) && Value(s) == p
  }

  lemma OneOctet(p: bv32)
    requires p <= MAX_CODE_POINT_1
    ensures ReadsBack([Lead(0, p)], p)
  {
  }

  lemma TwoOctets(p: bv32)
    requires MAX_CODE_POINT_1 < p <= MAX_CODE_POINT_2
    ensures ReadsBack([Lead(0xC0, p >> 6), Tail(p)], p)
  {
  }

  lemma ThreeOctets(p: bv32)
    requires MAX_CODE_POINT_2 < p <= MAX_CODE_POINT_3
    ensures ReadsBack([Lead(0xE0, p >> 12), Tail(p >> 6), Tail(p)], p)
  {
  }

  lemma FourOctets(p: bv32)
    requires MAX_CODE_POINT_3 < p <= MAX_CODE_POINT_4
    ensures ReadsBack([Lead(0xF0, p >> 18), Tail(p >> 12), Tail(p >> 6), Tail(p)], p)
  {
  }

  /** A code point of at most 21 bits can be read back from its encoding. */
  lemma CharacterRoundTrip(p: bv32)
    requires p <= 0x1F_FFFF
    ensures ReadsBack(Encoding(p), p)
  {
    if p <= MAX_CODE_POINT_1 {
      OneOctet(p);
    } else if p <= MAX_CODE_POINT_2 {
      TwoOctets(p);
    } else if p <= MAX_CODE_POINT_3 {
      ThreeOctets(p);
    } else {
      FourOctets(p);
    }
  }

  /** Two octets laid out as one character with the value v. */
  predicate IsTwo(a: bv8, b: bv8, v: bv32) {
    Announced(a) == 2 && IsTail(b) && v == ((Wide(a) & 0x1F) << 6) | (Wide(b) & 0x3F)
  }

  predicate IsThree(a: bv8, b: bv8, c: bv8, v: bv32) {
    Announced(a) == 3 && IsTail(b) && IsTail(c)
    && v == ((Wide(a) & 0x0F) << 12) | ((Wide(b) & 0x3F) << 6) | (Wide(c) & 0x3F)
  }

  predicate IsFour(a: bv8, b: bv8, c: bv8, d: bv8, v: bv32) {
    Announced(a) == 4 && IsTail(b) && IsTail(c) && IsTail(d)
    && v == ((Wide(a) & 0x07) << 18) | ((Wide(b) & 0x3F) << 12) | ((Wide(c) & 0x3F) << 6) | (Wide(d) & 0x3F)
  }

  lemma FirstOfTwo(a: bv8, b: bv8, v: bv32)
    requires IsTwo(a, b, v)
    ensures v <= MAX_CODE_POINT_2 && Lead(0xC0, v >> 6) == a
  {
  }

  lemma SecondOfTwo(a: bv8, b: bv8, v: bv32)
    requires IsTwo(a, b, v)
    ensures Tail(v) == b
  {
  }

  lemma FirstOfThree(a: bv8, b: bv8, c: bv8, v: bv32)
    requires IsThree(a, b, c, v)
    ensures v <= MAX_CODE_POINT_3 && Lead(0xE0, v >> 12) == a
  {
  }

  lemma SecondOfThree(a: bv8, b: bv8, c: bv8, v: bv32)
    requires IsThree(a, b, c, v)
    ensures Tail(v >> 6) == b
  {
  }

  lemma ThirdOfThree(a: bv8, b: bv8, c: bv8, v: bv32)
    requires IsThree(a, b, c, v)
    ensures Tail(v) == c
  {
  }

  lemma FirstOfFour(a: bv8, b: bv8, c: bv8, d: bv8, v: bv32)
    requires IsFour(a, b, c, d, v)
    ensures v <= MAX_CODE_POINT_4 && Lead(0xF0, v >> 18) == a
  {
  }

  lemma SecondOfFour(a: bv8, b: bv8, c: bv8, d: bv8, v: bv32)
    requires IsFour(a, b, c, d, v)
    ensures Tail(v >> 12) == b
  {
  }

  lemma ThirdOfFour(a: bv8, b: bv8, c: bv8, d: bv8, v: bv32)
    requires IsFour(a, b, c, d, v)
    ensures Tail(v >> 6) == c
  {
  }

  lemma FourthOfFour(a: bv8, b: bv8, c: bv8, d: bv8, v: bv32)
    requires IsFour(a, b, c, d, v)
    ensures Tail(v) == d
  {
  }

  /** The encoding of v is s or is shorter. */
  predicate AtMost(v: bv32, s: seq<bv8>) {
    v <= 0x1F_FFFF && (|Encoding(v)| < |s| || Encoding(v) == s)
  }

  lemma ShortestOne(a: bv8)
    requires Announced(a) == 1
    ensures AtMost(Wide(a), [a])
  {
  }

  lemma AtMostTwo(v: bv32)
    requires v <= MAX_CODE_POINT_2
    ensures AtMost(v, [Lead(0xC0, v >> 6), Tail(v)])
  {
  }

  lemma AtMostThree(v: bv32)
    requires v <= MAX_CODE_POINT_3
    ensures AtMost(v, [Lead(0xE0, v >> 12), Tail(v >> 6), Tail(v)])
  {
  }

  lemma AtMostFour(v: bv32)
    requires v <= MAX_CODE_POINT_4
    ensures AtMost(v, [Lead(0xF0, v >> 18), Tail(v >> 12), Tail(v >> 6), Tail(v)])
  {
  }

  lemma ShortestTwo(a: bv8, b: bv8, v: bv32)
    requires IsTwo(a, b, v)
    ensures AtMost(v, [a, b])
  {
    FirstOfTwo(a, b, v);
    SecondOfTwo(a, b, v);
    AtMostTwo(v);
  }

  lemma ShortestThree(a: bv8, b: bv8, c: bv8, v: bv32)
    requires IsThree(a, b, c, v)
    ensures AtMost(v, [a, b, c])
  {
    FirstOfThree(a, b, c, v);
    SecondOfThree(a, b, c, v);
    ThirdOfThree(a, b, c, v);
    AtMostThree(v);
  }

  lemma ShortestFour(a: bv8, b: bv8, c: bv8, d: bv8, v: bv32)
    requires IsFour(a, b, c, d, v)
    ensures AtMost(v, [a, b, c, d])
  {
    FirstOfFour(a, b, c, d, v);
    SecondOfFour(a, b, c, d, v);
    ThirdOfFour(a, b, c, d, v);
    FourthOfFour(a, b, c, d, v);
    AtMostFour(v);
  }

  /** The four layouts of a character. */
  lemma Layouts(s: seq<bv8>)
    requires IsCharacter(s)
    ensures |s| == 1 ==> s == [s[0]] && Announced(s[0]) == 1 && Value(s) == Wide(s[0])
    ensures |s| == 2 ==> s == [s[0], s[1]] && IsTwo(s[0], s[1], Value(s))
    ensures |s| == 3 ==> s == [s[0], s[1], s[2]] && IsThree(s[0], s[1], s[2], Value(s))
    ensures |s| == 4 ==> s == [s[0], s[1], s[2], s[3]] && IsFour(s[0], s[1], s[2], s[3], Value(s))
    ensures 1 <= |s| <= 4
  {
  }

  /** No character with the same value is shorter, and none as short is different. */
  lemma ShortestForm(s: seq<bv8>)
    requires IsCharacter(s)
    ensures AtMost(Value(s), s)
  {
    Layouts(s);
    var v := Value(s);
    if |s| == 1 {
      ShortestOne(s[0]);
    } else if |s| == 2 {
      ShortestTwo(s[0], s[1], v);
    } else if |s| == 3 {
      ShortestThree(s[0], s[1], s[2], v);
    } else {
      ShortestFour(s[0], s[1], s[2], s[3], v);
    }
  }

  lemma NoNulOctet(p: bv32)
    requires 0 < p <= MAX_CODE_POINT_4
    ensures 0 !in Encoding(p)
  {
  }

  // ---- Sequences of characters ----

  function EncodeAll(ps: seq<bv32>): seq<bv8> {
    if ps == [] then [] else Encoding(ps[0]) + EncodeAll(ps[1..])
  }

  /** Reads octets as characters; shorter forms than announced and stray octets are errors. */
  function Decode(s: seq<bv8>): Option<seq<bv32>> {
    if s == [] then Some([])
    else
      var n := Announced(s[0]);
      if n == 0 || n > |s| || !IsCharacter(s[..n]) then None
      else
        match Decode(s[n..])
        case None => None
        case Some(rest) => Some([Value(s[..n])] + rest)
  }

  predicate Encodable(ps: seq<bv32>) {
    forall i :: 0 <= i < |ps| ==> 0 < ps[i] <= 0x1F_FFFF
  }

  lemma DecodeStep(c: seq<bv8>, p: bv32, rest: seq<bv8>)
    requires ReadsBack(c, p)
    ensures Decode(c + rest) == match Decode(rest) case None => None case Some(ps) => Some([p] + ps)
  {
    assert (c + rest)[..|c|] == c && (c + rest)[|c|..] == rest;
  }

  /** The octets of a sequence of code points determine the sequence. */
  lemma {:induction false} RoundTrip(ps: seq<bv32>)
    requires Encodable(ps)
    ensures Decode(EncodeAll(ps)) == Some(ps)
  {
    if ps == [] {
      assert Decode([]) == Some([]);
    } else {
      assert [ps[0]] + ps[1..] == ps;
      CharacterRoundTrip(ps[0]);
      RoundTrip(ps[1..]);
      DecodeStep(Encoding(ps[0]), ps[0], EncodeAll(ps[1..]));
    }
  }

  /** No encoding is a proper prefix of another. */
  lemma PrefixFree(p: bv32, q: bv32)
    requires p <= MAX_CODE_POINT_4 && q <= MAX_CODE_POINT_4 && Encoding(p) <= Encoding(q)
    ensures p == q
  {
    CharacterRoundTrip(p);
    CharacterRoundTrip(q);
    SameStart(Encoding(p), Encoding(q), p, q);
  }

  lemma SameStart(a: seq<bv8>, b: seq<bv8>, p: bv32, q: bv32)
    requires ReadsBack(a, p) && ReadsBack(b, q) && a <= b
    ensures p == q
  {
    assert a[0] == b[0];
    assert a == b;
  }

  /** Everything that decodes has values that fit. */
  lemma {:induction false} DecodedFit(s: seq<bv8>)
    requires Decode(s).Some?
    ensures forall i :: 0 <= i < |Decode(s).value| ==> Decode(s).value[i] <= MAX_CODE_POINT_4
  {
    if s == [] {
    } else {
      var n := Announced(s[0]);
      ShortestForm(s[..n]);
      DecodedFit(s[n..]);
    }
  }

  // ---- CodePointToUtf8 ----

  const NUL: bv8 := 0

  function HexDigit(d: bv32): bv8
    requires d < 16
  {
    if d < 10 then (0x30 + d) as bv8 else (0x37 + d) as bv8
  }

  /** "%X". */
  function FormatHexInt(value: bv32): (r: seq<bv8>)
    ensures r != []
    decreases value
  {
    if value < 16 then [HexDigit(value)] else FormatHexInt(value >> 4) + [HexDigit(value & 15)]
  }

  function HexValue(s: seq<bv8>): bv32 {
    if s == [] then 0
    else
      var last := Wide(s[|s| - 1]);
      (HexValue(s[..|s| - 1]) << 4) | (if last < 0x3A then last - 0x30 else last - 0x37)
  }

  lemma LastDigit(high: bv32, value: bv32)
    requires value >= 16 && high == value >> 4
    ensures var d := Wide(HexDigit(value & 15)); (high << 4) | (if d < 0x3A then d - 0x30 else d - 0x37) == value
  {
  }

  lemma {:induction false} HexRoundTrip(value: bv32)
    ensures HexValue(FormatHexInt(value)) == value
    decreases value
  {
    if value >= 16 {
      HexRoundTrip(value >> 4);
      LastDigit(value >> 4, value);
      var s := FormatHexInt(value);
      assert s[..|s| - 1] == FormatHexInt(value >> 4);
    } else {
      assert [HexDigit(value)][..0] == [];
    }
  }

  /** "(Invalid Unicode 0x" */
  const INVALID: seq<bv8> := [0x28, 0x49, 0x6E, 0x76, 0x61, 0x6C, 0x69, 0x64, 0x20,
                              0x55, 0x6E, 0x69, 0x63, 0x6F, 0x64, 0x65, 0x20, 0x30, 0x78]

  /** What a code point becomes: nothing, its encoding, or a text that names it. */
  function Utf8(p: bv32): seq<bv8> {
    if p > MAX_CODE_POINT_4 then INVALID + FormatHexInt(p) + [0x29]
    else if p == 0 then []
    else Encoding(p)
  }

  /** Octets as characters. */
  function Spelled(octets: seq<bv8>): string {
    seq(|octets|, i requires 0 <= i < |octets| => octets[i] as char)
  }

  lemma SpelledAppend(a: seq<bv8>, b: seq<bv8>)
    ensures Spelled(a + b) == Spelled(a) + Spelled(b)
  {
  }

  lemma SpelledInvalid()
    ensures Spelled(INVALID) == "(Invalid Unicode 0x"
  {
    var a, b, c: seq<bv8> := [0x28, 0x49, 0x6E, 0x76, 0x61, 0x6C, 0x69], [0x64, 0x20, 0x55, 0x6E, 0x69, 0x63],
                             [0x6F, 0x64, 0x65, 0x20, 0x30, 0x78];
    assert INVALID == a + b + c;
    SpelledAppend(a + b, c);
    SpelledAppend(a, b);
    SpelledFirst(a);
    SpelledSecond(b);
    SpelledThird(c);
    assert "(Invali" + "d Unic" + "ode 0x" == "(Invalid Unicode 0x";
  }

  lemma SpelledFirst(a: seq<bv8>)
    requires a == [0x28, 0x49, 0x6E, 0x76, 0x61, 0x6C, 0x69]
    ensures Spelled(a) == "(Invali"
  {
  }

  lemma SpelledSecond(a: seq<bv8>)
    requires a == [0x64, 0x20, 0x55, 0x6E, 0x69, 0x63]
    ensures Spelled(a) == "d Unic"
  {
  }

  lemma SpelledThird(a: seq<bv8>)
    requires a == [0x6F, 0x64, 0x65, 0x20, 0x30, 0x78]
    ensures Spelled(a) == "ode 0x"
  {
  }

  lemma SpelledParen()
    ensures Spelled([0x29]) == ")"
  {
  }

  /** A value of more than 21 bits is named by its hexadecimal digits. */
  lemma InvalidText(p: bv32, digits: seq<bv8>)
    requires p > 0x1F_FFFF && digits == FormatHexInt(p)
    ensures Spelled(Utf8(p)) == "(Invalid Unicode 0x" + Spelled(digits) + ")"
  {
    SpelledAppend(INVALID + digits, [0x29]);
    SpelledAppend(INVALID, digits);
    SpelledInvalid();
    SpelledParen();
  }

  /** Takes the n lowest bits off. */
  method ChopLowBits(bits: bv32, n: bv6) returns (low: bv32, rest: bv32)
    requires n < 32
    ensures low == bits & ((1 << n) - 1) && rest == bits >> n
  {
    low := bits & ((1 << n) - 1);
    rest := bits >> n;
  }

  lemma Chopped(p: bv32, low: bv32)
    requires low == p & ((1 << 6) - 1)
    ensures low < 0x40 && (0x80 | low) as bv8 == Tail(p)
  {
  }

  lemma Shifts(p: bv32)
    ensures (p >> 6) >> 6 == p >> 12 && (p >> 12) >> 6 == p >> 18
  {
  }

  method FillTwo(str: array<bv8>, p: bv32)
    requires str.Length == 5 && MAX_CODE_POINT_1 < p <= MAX_CODE_POINT_2
    modifies str
    ensures str[..2] == [Lead(0xC0, p >> 6), Tail(p)] && str[2] == 0
  {
    str[2] := 0;
    var low, codePoint := ChopLowBits(p, 6);
    Chopped(p, low);
    str[1] := (0x80 | low) as bv8;
    str[0] := (0xC0 | codePoint) as bv8;
  }

  method FillThree(str: array<bv8>, p: bv32)
    requires str.Length == 5 && MAX_CODE_POINT_2 < p <= MAX_CODE_POINT_3
    modifies str
    ensures str[..3] == [Lead(0xE0, p >> 12), Tail(p >> 6), Tail(p)] && str[3] == 0
  {
    str[3] := 0;
    var low, codePoint := ChopLowBits(p, 6);
    Chopped(p, low);
    str[2] := (0x80 | low) as bv8;
    low, codePoint := ChopLowBits(codePoint, 6);
    Chopped(p >> 6, low);
    Shifts(p);
    str[1] := (0x80 | low) as bv8;
    str[0] := (0xE0 | codePoint) as bv8;
  }

  method FillFour(str: array<bv8>, p: bv32)
    requires str.Length == 5 && MAX_CODE_POINT_3 < p <= MAX_CODE_POINT_4
    modifies str
    ensures str[..4] == [Lead(0xF0, p >> 18), Tail(p >> 12), Tail(p >> 6), Tail(p)] && str[4] == 0
  {
    str[4] := 0;
    var low, codePoint := ChopLowBits(p, 6);
    Chopped(p, low);
    str[3] := (0x80 | low) as bv8;
    low, codePoint := ChopLowBits(codePoint, 6);
    Chopped(p >> 6, low);
    Shifts(p);
    str[2] := (0x80 | low) as bv8;
    low, codePoint := ChopLowBits(codePoint, 6);
    Chopped(p >> 12, low);
    str[1] := (0x80 | low) as bv8;
    str[0] := (0xF0 | codePoint) as bv8;
  }

  method CodePointToUtf8(p: bv32) returns (s: seq<bv8>)
    ensures s == Utf8(p)
  {
    if p > MAX_CODE_POINT_4 {
      return INVALID + FormatHexInt(p) + [0x29];
    }
    var str := new bv8[5];    // big enough for four octets and a NUL
    if p <= MAX_CODE_POINT_1 {
      str[1] := 0;
      str[0] := p as bv8;
    } else if p <= MAX_CODE_POINT_2 {
      FillTwo(str, p);
    } else if p <= MAX_CODE_POINT_3 {
      FillThree(str, p);
    } else {
      FillFour(str, p);
    }
    ghost var n := |Encoding(p)|;
    assert str[..n] == Encoding(p) && str[n] == 0;
    CStringOfArray(str, p, n);
    s := CString(str[..], NUL);
  }

  lemma CStringOfArray(str: array<bv8>, p: bv32, n: nat)
    requires p <= MAX_CODE_POINT_4 && n == |Encoding(p)| < str.Length && str[..n] == Encoding(p) && str[n] == 0
    ensures CString(str[..], NUL) == Utf8(p)
  {
    if p == 0 {
      assert str[..][0] == str[..n][0];
    } else {
      NoNulOctet(p);
      SplitJoin(str[..], n);
      assert str[..][n..] == str[n..] && str[..][..n] == str[..n];
      CStringOf(str[..n], str[n..], NUL);
    }
  }
}
