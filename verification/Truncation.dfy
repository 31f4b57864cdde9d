/**
 A unit and the size of the caller's buffer: exactly which units come out whole and leave the queue at
 the next unit, what a call makes of the others, and what it leaves to the next call.
 */
module Truncation {
  import opened Common
  import opened NaluTypes
  import opened Reassembly

  /** Room for these last fragments of a unit. An empty fragment needs none if it is the only one. */
  predicate TailExact(c: Codec, max: nat, have: nat, parts: seq<Octets>)
    requires parts != []
  {
    have + |Flatten(parts)| + HeaderLength(c) + 1 <= max || (|parts| == 1 && parts[0] == [])
  }

  /** Room for all packets of a unit, with `have` octets in the buffer. */
  predicate UnitFits(c: Codec, max: nat, have: nat, t: Transmission)
    requires Sendable(c, t)
  {
    match t
    case Whole(n) => have + |n.Bytes()| <= max
    case Cut(h, parts) =>
      && have + HeaderLength(c) + 1 + |parts[0]| <= max
      && (|parts| == 1 || TailExact(c, max, have + 4 + HeaderLength(c) + |parts[0]|, parts[1..]))
  }

  lemma TailWhole(c: Codec, max: nat, soFar: Octets, h: Octets, parts: seq<Octets>, rest: seq<Octets>)
    requires |h| == HeaderLength(c) && Fragments(c) && Readable(c, rest) && parts != [] && Cuttable(c, parts)
    requires TailExact(c, max, |soFar|, parts)
    ensures Readable(c, FuPackets(c, h, parts, false) + rest)
    ensures var r := Assemble(c, max, soFar, FuPackets(c, h, parts, false) + rest);
            r.ok && r.out == soFar + Flatten(parts) && r.rest == rest
  {
    if |soFar| + |Flatten(parts)| + HeaderLength(c) + 1 <= max {
      TailFragments(c, max, soFar, h, parts, rest);
    } else {
      FlattenOne(parts);
      FuPacketsSplit(c, h, parts, false, rest);
      NoRoom(c, max, soFar, FuPacket(c, h, false, true, parts[0]), rest);
      assert soFar + [] == soFar;
    }
  }

  /**
   Without that room the call stops at the j-th of these packets, which it takes and drops, and leaves
   the ones behind it. What it has put out is too short, or what it leaves is empty.
   */
  lemma {:induction false} TailTruncated(c: Codec, max: nat, soFar: Octets, h: Octets, parts: seq<Octets>, rest: seq<Octets>)
    returns (j: nat)
    requires |h| == HeaderLength(c) && Fragments(c) && Readable(c, rest) && parts != [] && Cuttable(c, parts)
    requires !TailExact(c, max, |soFar|, parts)
    ensures 1 <= j <= |parts| && Readable(c, FuPackets(c, h, parts, false) + rest)
    ensures var r := Assemble(c, max, soFar, FuPackets(c, h, parts, false) + rest);
            && r.ok && r.out == soFar + Flatten(parts[..j - 1])
            && r.rest == FuPackets(c, h, parts[j..], false) + rest
            && (|r.out| < |soFar| + |Flatten(parts)|
                || (r.out == soFar + Flatten(parts) && j < |parts| && Flatten(parts[j..]) == []))
    decreases |parts|
  {
    var last := |parts| == 1;
    var more := FuPackets(c, h, parts[1..], false) + rest;
    FuPacketsSplit(c, h, parts, false, rest);
    var p := FuPacket(c, h, false, last, parts[0]);
    if |soFar| + |p| > max {
      j := 1;
      NoRoom(c, max, soFar, p, more);
      FlattenOne(parts);
      assert parts[..0] == [] && soFar + [] == soFar;
    } else {
      FlattenOne(parts);
      if !last {
        FlattenOne(parts[1..]);
      }
      FragmentStep(c, max, soFar, h, parts[0], false, last, more);
      assert [] + parts[0] == parts[0];
      var i := TailTruncated(c, max, soFar + parts[0], h, parts[1..], rest);
      j := i + 1;
      Regroup(soFar, parts, i);
    }
  }

  lemma Regroup(soFar: Octets, parts: seq<Octets>, i: nat)
    requires parts != [] && 1 <= i <= |parts| - 1
    ensures parts[1..][i..] == parts[i + 1..]
    ensures soFar + parts[0] + Flatten(parts[1..][..i - 1]) == soFar + Flatten(parts[..i])
    ensures soFar + parts[0] + Flatten(parts[1..]) == soFar + Flatten(parts)
  {
    assert parts[..i][1..] == parts[1..][..i - 1];
    Associative(soFar, parts[0], Flatten(parts[1..][..i - 1]));
    Associative(soFar, parts[0], Flatten(parts[1..]));
  }

  lemma UnitWhole(c: Codec, max: nat, soFar: Octets, t: Transmission, rest: seq<Octets>)
    requires Sendable(c, t) && Readable(c, rest) && UnitFits(c, max, |soFar|, t)
    ensures Readable(c, PacketsOf(c, t) + rest)
    ensures var r := Assemble(c, max, soFar, PacketsOf(c, t) + rest);
            r.ok && r.out == soFar + AnnexB(t.Unit()) && r.rest == rest
  {
    match t
    case Whole(n) => WholeRoundTrip(c, max, soFar, n, rest);
    case Cut(h, parts) =>
      FirstFragment(c, max, soFar, h, parts, rest);
      if |parts| > 1 {
        TailWhole(c, max, soFar + (START_CODE + h + parts[0]), h, parts[1..], rest);
      }
  }

  /** The first fragment, when there is room for it. */
  lemma FirstFragment(c: Codec, max: nat, soFar: Octets, h: Octets, parts: seq<Octets>, rest: seq<Octets>)
    requires Sendable(c, Cut(h, parts)) && Readable(c, rest)
    requires |soFar| + HeaderLength(c) + 1 + |parts[0]| <= max
    ensures var more := FuPackets(c, h, parts[1..], false) + rest;
            var longer := soFar + (START_CODE + h + parts[0]);
            && Readable(c, more) && Readable(c, FuPackets(c, h, parts, true) + rest)
            && longer + Flatten(parts[1..]) == soFar + AnnexB(Nal(h, Flatten(parts)))
            && var r := Assemble(c, max, soFar, FuPackets(c, h, parts, true) + rest);
               if |parts| == 1 then r.ok && r.out == soFar + AnnexB(Nal(h, Flatten(parts))) && r.rest == rest
               else
                 var s := Assemble(c, max, longer, more);
                 r.ok == s.ok && r.out == s.out && r.rest == s.rest
  {
    var more := FuPackets(c, h, parts[1..], false) + rest;
    var lead := START_CODE + h;
    FuPacketsSplit(c, h, parts, true, rest);
    FragmentStep(c, max, soFar, h, parts[0], true, |parts| == 1, more);
    Associative(START_CODE, h, Flatten(parts));
    Associative(lead, parts[0], Flatten(parts[1..]));
    Associative(soFar, lead + parts[0], Flatten(parts[1..]));
    if |parts| == 1 {
      assert Flatten(parts[1..]) == [];
      assert soFar + (lead + parts[0]) + [] == soFar + (lead + parts[0]);
    }
  }

  /** The body that a call with too little room puts out behind start code and header; nothing if the first packet has none. */
  function Kept(h: Octets, parts: seq<Octets>, j: nat): Octets
    requires 1 <= j <= |parts|
  {
    if j == 1 then [] else START_CODE + h + Flatten(parts[..j - 1])
  }

  lemma CutTruncated(c: Codec, max: nat, soFar: Octets, h: Octets, parts: seq<Octets>, rest: seq<Octets>) returns (j: nat)
    requires Sendable(c, Cut(h, parts)) && Readable(c, rest) && !UnitFits(c, max, |soFar|, Cut(h, parts))
    ensures 1 <= j <= |parts| && Readable(c, FuPackets(c, h, parts, true) + rest)
    ensures var r := Assemble(c, max, soFar, FuPackets(c, h, parts, true) + rest);
            && r.ok && r.out == soFar + Kept(h, parts, j)
            && r.rest == FuPackets(c, h, parts[j..], false) + rest
            && (|r.out| < |soFar + AnnexB(Nal(h, Flatten(parts)))|
                || (r.out == soFar + AnnexB(Nal(h, Flatten(parts))) && j < |parts| && Flatten(parts[j..]) == []))
  {
    if |soFar| + HeaderLength(c) + 1 + |parts[0]| > max {
      j := 1;
      var p := FuPacket(c, h, true, |parts| == 1, parts[0]);
      FuPacketsSplit(c, h, parts, true, rest);
      NoRoom(c, max, soFar, p, FuPackets(c, h, parts[1..], false) + rest);
      assert soFar + [] == soFar;
    } else {
      var lead := START_CODE + h;
      FirstFragment(c, max, soFar, h, parts, rest);
      var i := TailTruncated(c, max, soFar + (lead + parts[0]), h, parts[1..], rest);
      j := i + 1;
      KeptBehind(soFar, h, parts, i);
    }
  }

  lemma KeptBehind(soFar: Octets, h: Octets, parts: seq<Octets>, i: nat)
    requires parts != [] && 1 <= i <= |parts| - 1
    ensures parts[1..][i..] == parts[i + 1..]
    ensures soFar + (START_CODE + h + parts[0]) + Flatten(parts[1..][..i - 1]) == soFar + Kept(h, parts, i + 1)
  {
    var lead := START_CODE + h;
    assert parts[..i][1..] == parts[1..][..i - 1];
    Associative(lead, parts[0], Flatten(parts[1..][..i - 1]));
    Associative(soFar, lead + parts[0], Flatten(parts[1..][..i - 1]));
  }

  /** A unit comes out whole, and the queue is left at the packets behind it, if and only if it fits. */
  lemma UnitExactIff(c: Codec, max: nat, soFar: Octets, t: Transmission, rest: seq<Octets>)
    requires Sendable(c, t) && Readable(c, rest)
    ensures Readable(c, PacketsOf(c, t) + rest)
    ensures var r := Assemble(c, max, soFar, PacketsOf(c, t) + rest);
            r.ok && (r.out == soFar + AnnexB(t.Unit()) && r.rest == rest <==> UnitFits(c, max, |soFar|, t))
  {
    if UnitFits(c, max, |soFar|, t) {
      UnitWhole(c, max, soFar, t, rest);
    } else {
      match t
      case Whole(n) => WholeDropped(c, max, soFar, n, rest);
      case Cut(h, parts) =>
        var j := CutTruncated(c, max, soFar, h, parts, rest);
        FuPacketsCount(c, h, parts[j..], false);
    }
  }

  /** A unit in one packet that does not fit is dropped. */
  lemma WholeDropped(c: Codec, max: nat, soFar: Octets, n: Nal, rest: seq<Octets>)
    requires Sendable(c, Whole(n)) && Readable(c, rest) && |soFar| + |n.Bytes()| > max
    ensures Readable(c, [n.Bytes()] + rest)
    ensures Assemble(c, max, soFar, [n.Bytes()] + rest) == Outcome(true, soFar, rest, 0)
    ensures |soFar| < |soFar + AnnexB(n)|
  {
    ViewOfSingle(c, n);
    NoRoom(c, max, soFar, n.Bytes(), rest);
  }

  /**
   A cut unit that does not fit: the call succeeds with the fragments before the j-th and drops that one,
   and the next call takes the ones behind it for a unit of its own, without start code and header.
   */
  lemma TruncatedUnit(s: Session, max: nat, h: Octets, parts: seq<Octets>, rest: seq<Octets>) returns (j: nat)
    requires Sendable(s.codec, Cut(h, parts)) && Readable(s.codec, rest) && !s.needPrefix
    requires !UnitFits(s.codec, max, 0, Cut(h, parts))
    requires s.packets == FuPackets(s.codec, h, parts, true) + rest
    ensures 1 <= j <= |parts| && Readable(s.codec, s.packets)
    ensures var r := Call(s, max);
            && r.result == Some(Kept(h, parts, j))
            && r.next == s.(packets := FuPackets(s.codec, h, parts[j..], false) + rest)
            && Readable(s.codec, r.next.packets)
            && (j < |parts| && TailExact(s.codec, max, 0, parts[j..]) ==>
                  && Call(r.next, max).result == Some(Flatten(parts[j..]))
                  && Call(r.next, max).next.packets == rest)
  {
    var c := s.codec;
    j := CutTruncated(c, max, [], h, parts, rest);
    assert [] + Kept(h, parts, j) == Kept(h, parts, j);
    FuPacketsReadable(c, h, parts[j..], false, rest);
    if j < |parts| && TailExact(c, max, 0, parts[j..]) {
      TailWhole(c, max, [], h, parts[j..], rest);
      assert [] + Flatten(parts[j..]) == Flatten(parts[j..]);
    }
  }

  /** With fewer packets queued the loop either takes them all and finds no other, or does just the same. */
  lemma {:induction false} DryOrSame(c: Codec, max: nat, soFar: Octets, q: seq<Octets>, later: seq<Octets>)
    requires Readable(c, q) && Readable(c, later)
    ensures Readable(c, q + later)
    ensures var a, b := Assemble(c, max, soFar, q), Assemble(c, max, soFar, q + later);
            || (!a.ok && a.rest == [] && a.copied == |q|)
            || (a.ok == b.ok && a.out == b.out && a.rest + later == b.rest)
    decreases |q|
  {
    if q == [] {
    } else {
      DropAppended(q, later, 1);
      assert (q + later)[0] == q[0];
      if q[0] != [] && ViewOf(c, q[0]).Some? {
        DryOrSame(c, max, soFar + Chunk(ViewOf(c, q[0]).value, q[0]), q[1..], later);
      }
    }
  }
}
