/**
 The payload types of H.264 (RFC 6184) and H.265 (RFC 7798): the dispatch tables, the header
 bits each type reads, and the fragments that a sender makes of a NAL unit.
 */
module NaluTypes {
  import opened Common

  type Octets = seq<bv8>

  /** What the client reads off one packet before copying it. */
  datatype View = View(start: bool, end: bool, header: Octets, skip: nat)

  datatype Codec = H264(packetization: int) | H265

  // ---- H.264 ----

  datatype H264Type = Single264 | StapA | StapB | Mtap16 | Mtap24 | FuA | FuB

  const FU_A_ID: bv8 := 28
  const FU_A_ERR: bv8 := 0xFF

  function TypeBits264(p: Octets): bv8
    requires p != []
  {
    p[0] & 0x1F
  }

  /** The table of nalu_types_h264.cpp, for the modes single NAL, non-interleaved and interleaved. */
  function Table264(mode: int, nt: bv8): Option<H264Type> {
    if mode == 0 then
      if 1 <= nt <= 12 then Some(Single264) else None
    else if mode == 1 then
      if 1 <= nt <= 12 then Some(Single264)
      else if nt == 24 then Some(StapA)
      else if nt == 28 then Some(FuA)
      else None
    else if mode == 2 then
      if nt == 25 then Some(StapB)
      else if nt == 26 then Some(Mtap16)
      else if nt == 27 then Some(Mtap24)
      else if nt == 28 then Some(FuA)
      else if nt == 29 then Some(FuB)
      else None
    else None
  }

  function Skip264(t: H264Type): nat {
    if t == FuA then 2 else 1
  }

  predicate IsFuA(p: Octets)
    requires p != []
  {
    p[0] & FU_A_ID == FU_A_ID
  }

  function F264(t: H264Type, p: Octets): bv8
    requires p != []
  {
    if t == FuA && !IsFuA(p) then FU_A_ERR else p[0] & 0x80
  }

  function Nri264(t: H264Type, p: Octets): bv8
    requires p != []
  {
    if t == FuA && !IsFuA(p) then FU_A_ERR else p[0] & 0x60
  }

  function Type264(t: H264Type, p: Octets): bv8
    requires |p| >= Skip264(t)
  {
    if t != FuA then p[0] & 0x1F
    else if !IsFuA(p) then FU_A_ERR
    else p[1] & 0x1F
  }

  predicate IsStart264(t: H264Type, p: Octets)
    requires |p| >= Skip264(t)
  {
    t != FuA || (IsFuA(p) && p[1] & 0x80 != 0)
  }

  predicate IsEnd264(t: H264Type, p: Octets)
    requires |p| >= Skip264(t)
  {
    t != FuA || (IsFuA(p) && p[1] & 0x40 != 0)
  }

  function Header264(t: H264Type, p: Octets): bv8
    requires |p| >= Skip264(t)
  {
    F264(t, p) | Nri264(t, p) | Type264(t, p)
  }

  // ---- H.265 ----

  datatype H265Type = Single265 | Ap | Fu

  function Word(p: Octets): bv16
    requires |p| >= 2
  {
    (p[0] as bv16 << 8) | p[1] as bv16
  }

  function Table265(nt: bv16): Option<H265Type> {
    if nt <= 40 then Some(Single265)
    else if nt == 48 then Some(Ap)
    else if nt == 49 then Some(Fu)
    else None
  }

  function TypeBits265(p: Octets): bv16
    requires |p| >= 2
  {
    (Word(p) & 0x7E00) >> 9
  }

  function Skip265(t: H265Type): nat {
    if t == Fu then 3 else 2
  }

  function Type265(t: H265Type, p: Octets): bv16
    requires |p| >= Skip265(t)
  {
    if t == Fu then (p[2] & 0x3F) as bv16 << 9 else Word(p) & 0x7E00
  }

  predicate IsStart265(t: H265Type, p: Octets)
    requires |p| >= Skip265(t)
  {
    t != Fu || (TypeBits265(p) == 49 && p[2] & 0x80 != 0)
  }

  predicate IsEnd265(t: H265Type, p: Octets)
    requires |p| >= Skip265(t)
  {
    t != Fu || (TypeBits265(p) == 49 && p[2] & 0x40 != 0)
  }

  function Header265(t: H265Type, p: Octets): bv16
    requires |p| >= Skip265(t)
  {
    (Word(p) & 0x8000) | Type265(t, p) | (Word(p) & 0x01F8) | (Word(p) & 0x0007)
  }

  function HeaderBytes265(h: bv16): Octets {
    [((h >> 8) & 0xFF) as bv8, (h & 0xFF) as bv8]
  }

  // ---- Both ----

  function HeaderLength(c: Codec): nat {
    if c.H264? then 1 else 2
  }

  /** The number of leading bytes that the type of p makes the client read. */
  function Needs(c: Codec, p: Octets): nat {
    if |p| < HeaderLength(c) then HeaderLength(c)
    else
      match c
      case H264(mode) =>
        var t := Table264(mode, TypeBits264(p));
        if t.Some? then Skip264(t.value) else 1
      case H265 =>
        var t := Table265(TypeBits265(p));
        if t.Some? then Skip265(t.value) else 2
  }

  predicate LongEnough(c: Codec, p: Octets) {
    |p| >= Needs(c, p)
  }

  /** ParsePacket: None for an unknown mode or type. */
  function ViewOf(c: Codec, p: Octets): (v: Option<View>)
    requires LongEnough(c, p)
    ensures v.Some? ==> v.value.skip <= |p| && |v.value.header| <= v.value.skip
  {
    match c
    case H264(mode) =>
      var t := Table264(mode, TypeBits264(p));
      if t.None? then None
      else
        Some(View(IsStart264(t.value, p), IsEnd264(t.value, p), [Header264(t.value, p)], Skip264(t.value)))
    case H265 =>
      var t := Table265(TypeBits265(p));
      if t.None? then None
      else
        Some(View(IsStart265(t.value, p), IsEnd265(t.value, p),
                  HeaderBytes265(Header265(t.value, p)), Skip265(t.value)))
  }

  // ---- The sender ----

  /** A NAL unit: one header byte in H.264, two in H.265, and a body. */
  datatype Nal = Nal(header: Octets, body: Octets) {
    function Bytes(): Octets { header + body }
  }

  predicate IsNal(c: Codec, n: Nal) {
    |n.header| == HeaderLength(c)
  }

  function FuFlags(first: bool, last: bool): bv8 {
    (if first then 0x80 else 0) | (if last then 0x40 else 0)
  }

  /** The leading bytes of a fragmentation unit (section 5.8 of RFC 6184, section 4.4.3 of RFC 7798). */
  function FuHeader(c: Codec, h: Octets, first: bool, last: bool): Octets
    requires |h| == HeaderLength(c)
  {
    match c
    case H264(_) => [(h[0] & 0xE0) | 28, FuFlags(first, last) | (h[0] & 0x1F)]
    case H265 => [(h[0] & 0x81) | 0x62, h[1], FuFlags(first, last) | ((h[0] >> 1) & 0x3F)]
  }

  /** The packet mode in force can carry fragments. */
  predicate Fragments(c: Codec) {
    c.H264? ==> c.packetization in {1, 2}
  }

  /** The type of the unit is one that the client takes as a packet of its own. */
  predicate SinglePacket(c: Codec, n: Nal)
    requires IsNal(c, n)
  {
    match c
    case H264(mode) => mode in {0, 1} && 1 <= n.header[0] & 0x1F <= 12
    case H265 => (n.header[0] >> 1) & 0x3F <= 40
  }

  // ---- Header bits ----

  /** Under table dispatch the guards of the FU-A methods never fire. */
  lemma GuardsNeverFire(mode: int, p: Octets)
    requires p != [] && Table264(mode, TypeBits264(p)) == Some(FuA)
    ensures IsFuA(p)
    ensures F264(FuA, p) == p[0] & 0x80 && Nri264(FuA, p) == p[0] & 0x60
    ensures |p| >= 2 ==> Type264(FuA, p) == p[1] & 0x1F
  {
    var b := p[0];
    assert b & 0x1F == 28 ==> b & 28 == 28;
  }

  lemma FuBits264(h: bv8, flags: bv8, b: bv8, f: bv8)
    requires b == (h & 0xE0) | 28 && f == flags | (h & 0x1F)
    requires flags in {0, 0x40, 0x80, 0xC0}
    ensures b & 0x1F == 28 && b & 28 == 28
    ensures (b & 0x80) | (b & 0x60) | (f & 0x1F) == h
    ensures f & 0x80 == flags & 0x80 && f & 0x40 == flags & 0x40
  {
  }

  lemma FlagBits(first: bool, last: bool)
    ensures var s := FuFlags(first, last);
            s in {0, 0x40, 0x80, 0xC0} && (s & 0x80 != 0 <==> first) && (s & 0x40 != 0 <==> last)
  {
  }

  lemma SingleBits264(b: bv8)
    ensures (b & 0x80) | (b & 0x60) | (b & 0x1F) == b
  {
  }

  lemma WordBytes(b0: bv8, b1: bv8)
    ensures HeaderBytes265((b0 as bv16 << 8) | b1 as bv16) == [b0, b1]
  {
  }

  lemma WordFields(w: bv16)
    ensures (w & 0x8000) | (w & 0x7E00) | (w & 0x01F8) | (w & 0x0007) == w
  {
  }

  lemma TypeOfWord(b0: bv8, b1: bv8)
    ensures (((b0 as bv16 << 8) | b1 as bv16) & 0x7E00) >> 9 == ((b0 >> 1) & 0x3F) as bv16
  {
  }

  lemma FuBits265(h0: bv8, h1: bv8, flags: bv8, b: bv8, f: bv8)
    requires b == (h0 & 0x81) | 0x62 && f == flags | ((h0 >> 1) & 0x3F)
    requires flags in {0, 0x40, 0x80, 0xC0}
    ensures (b >> 1) & 0x3F == 49
    ensures var w := (b as bv16 << 8) | h1 as bv16;
            (w & 0x8000) | ((f & 0x3F) as bv16 << 9) | (w & 0x01F8) | (w & 0x0007) == (h0 as bv16 << 8) | h1 as bv16
    ensures f & 0x80 == flags & 0x80 && f & 0x40 == flags & 0x40
  {
  }

  lemma FragmentLead264(mode: int, p: Octets, h: bv8, first: bool, last: bool)
    requires mode in {1, 2} && |p| >= 2
    requires p[0] == (h & 0xE0) | 28 && p[1] == FuFlags(first, last) | (h & 0x1F)
    ensures LongEnough(H264(mode), p)
    ensures ViewOf(H264(mode), p) == Some(View(first, last, [h], 2))
  {
    FlagBits(first, last);
    FuBits264(h, FuFlags(first, last), p[0], p[1]);
  }

  lemma FragmentLead265(p: Octets, h0: bv8, h1: bv8, first: bool, last: bool)
    requires |p| >= 3
    requires p[0] == (h0 & 0x81) | 0x62 && p[1] == h1 && p[2] == FuFlags(first, last) | ((h0 >> 1) & 0x3F)
    ensures LongEnough(H265, p)
    ensures ViewOf(H265, p) == Some(View(first, last, [h0, h1], 3))
  {
    FlagBits(first, last);
    FuBits265(h0, h1, FuFlags(first, last), p[0], p[2]);
    TypeOfWord(p[0], p[1]);
    WordBytes(h0, h1);
  }

  /** A fragment is read back as what the sender meant, with the original header of the unit. */
  lemma ViewOfFragment(c: Codec, h: Octets, first: bool, last: bool, part: Octets)
    requires Fragments(c) && |h| == HeaderLength(c)
    ensures var p := FuHeader(c, h, first, last) + part;
            LongEnough(c, p) && ViewOf(c, p) == Some(View(first, last, h, HeaderLength(c) + 1))
  {
    var p := FuHeader(c, h, first, last) + part;
    match c {
      case H264(mode) =>
        FragmentLead264(mode, p, h[0], first, last);
        assert [h[0]] == h;
      case H265 =>
        FragmentLead265(p, h[0], h[1], first, last);
        assert [h[0], h[1]] == h;
    }
  }

  /** A unit sent as one packet is read back as a whole unit. */
  lemma ViewOfSingle(c: Codec, n: Nal)
    requires IsNal(c, n) && SinglePacket(c, n)
    ensures LongEnough(c, n.Bytes())
    ensures ViewOf(c, n.Bytes()) == Some(View(true, true, n.header, HeaderLength(c)))
  {
    var p := n.Bytes();
    match c {
      case H264(mode) =>
        SingleBits264(p[0]);
        assert [p[0]] == n.header;
      case H265 =>
        TypeOfWord(p[0], p[1]);
        assert TypeBits265(p) <= 40;
        WordFields(Word(p));
        WordBytes(p[0], p[1]);
        assert [p[0], p[1]] == n.header;
    }
  }

  // ---- All packets ----

  /** The types whose packets the client copies as they are, by number. */
  predicate IsWhole(c: Codec, p: Octets)
    requires |p| >= HeaderLength(c)
  {
    match c
    case H264(mode) =>
      var t := p[0] & 31;
      || (0 <= mode <= 1 && 1 <= t <= 12)
      || (mode == 1 && t == 24)
      || (mode == 2 && (25 <= t <= 27 || t == 29))
    case H265 =>
      var t := (p[0] >> 1) & 63;
      t <= 40 || t == 48
  }

  /** The types of fragments. */
  predicate IsFragment(c: Codec, p: Octets)
    requires |p| >= HeaderLength(c)
  {
    match c
    case H264(mode) => 1 <= mode <= 2 && p[0] & 31 == 28
    case H265 => (p[0] >> 1) & 63 == 49
  }

  /** Every other packet is unknown; single units and aggregation packets come out as a whole, with their own header. */
  lemma ViewIff(c: Codec, p: Octets)
    requires LongEnough(c, p)
    ensures ViewOf(c, p).Some? <==> IsWhole(c, p) || IsFragment(c, p)
    ensures IsWhole(c, p) ==> ViewOf(c, p) == Some(View(true, true, p[..HeaderLength(c)], HeaderLength(c)))
  {
    match c {
      case H264(mode) =>
        ViewIff264(mode, p);
      case H265 =>
        ViewIff265(p);
    }
  }

  /** A fragment has one octet more than its header, and any other packet is long enough with its header. */
  lemma LongEnoughIff(c: Codec, p: Octets)
    ensures LongEnough(c, p) <==>
              |p| >= HeaderLength(c) && (IsFragment(c, p) ==> |p| >= (if c.H264? then 2 else 3))
  {
    if |p| >= HeaderLength(c) {
      match c {
        case H264(mode) => TableIff264(mode, p[0] & 31);
        case H265 =>
          TypeFacts(p[0], p[1], TypeBits265(p));
          TableIff265(TypeBits265(p));
      }
    }
  }

  lemma ViewIff264(mode: int, p: Octets)
    requires LongEnough(H264(mode), p)
    ensures ViewOf(H264(mode), p).Some? <==> IsWhole(H264(mode), p) || IsFragment(H264(mode), p)
    ensures IsWhole(H264(mode), p) ==> ViewOf(H264(mode), p) == Some(View(true, true, p[..1], 1))
  {
    TableIff264(mode, p[0] & 31);
    SingleBits264(p[0]);
    assert p[..1] == [p[0]];
  }

  lemma TableIff264(mode: int, t: bv8)
    ensures Table264(mode, t) == Some(FuA) <==> 1 <= mode <= 2 && t == 28
    ensures Table264(mode, t).Some? && Table264(mode, t).value != FuA <==>
              || (0 <= mode <= 1 && 1 <= t <= 12)
              || (mode == 1 && t == 24)
              || (mode == 2 && (25 <= t <= 27 || t == 29))
  {
  }

  lemma ViewIff265(p: Octets)
    requires LongEnough(H265, p)
    ensures ViewOf(H265, p).Some? <==> IsWhole(H265, p) || IsFragment(H265, p)
    ensures IsWhole(H265, p) ==> ViewOf(H265, p) == Some(View(true, true, p[..2], 2))
  {
    TypeFacts(p[0], p[1], TypeBits265(p));
    TableIff265(TypeBits265(p));
    if IsWhole(H265, p) {
      WholeView265(p);
    }
  }

  lemma TypeFacts(b0: bv8, b1: bv8, u: bv16)
    requires u == (((b0 as bv16 << 8) | b1 as bv16) & 0x7E00) >> 9
    ensures u <= 40 <==> (b0 >> 1) & 63 <= 40
    ensures u == 48 <==> (b0 >> 1) & 63 == 48
    ensures u == 49 <==> (b0 >> 1) & 63 == 49
  {
  }

  lemma WholeView265(p: Octets)
    requires |p| >= 2 && LongEnough(H265, p)
    requires Table265(TypeBits265(p)).Some? && Table265(TypeBits265(p)).value != Fu
    ensures ViewOf(H265, p) == Some(View(true, true, p[..2], 2))
  {
    HeaderOfWhole(Table265(TypeBits265(p)).value, p);
    WordBytes(p[0], p[1]);
    assert p[..2] == [p[0], p[1]];
  }

  lemma HeaderOfWhole(t: H265Type, p: Octets)
    requires t != Fu && |p| >= 2
    ensures Header265(t, p) == Word(p)
  {
    WordFields(Word(p));
  }

  lemma TableIff265(t: bv16)
    ensures Table265(t) == Some(Fu) <==> t == 49
    ensures Table265(t).Some? && Table265(t).value != Fu <==> t <= 40 || t == 48
  {
  }
}
