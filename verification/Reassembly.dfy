/**
 GetMediaData as a function of the packets that are queued: one call, and what it means for
 the NAL units of a sender.
 */
module Reassembly {
  import opened Common
  import opened NaluTypes

  const MEDIA_BUFFER := 8192
  const START_CODE: Octets := [0, 0, 0, 1]

  /** The outcome of the packet loop: null or a buffer, what the buffer holds, the packets left, and how many were copied. */
  datatype Outcome = Outcome(ok: bool, out: Octets, rest: seq<Octets>, copied: nat)

  /** CopyData: a start packet is introduced by a start code and its rebuilt header. */
  function Chunk(v: View, p: Octets): Octets
    requires v.skip <= |p|
  {
    (if v.start then START_CODE + v.header else []) + p[v.skip..]
  }

  /** A single unit or an aggregation packet is copied behind a start code, octet by octet. */
  lemma CopiedWhole(c: Codec, p: Octets)
    requires LongEnough(c, p) && IsWhole(c, p)
    ensures ViewOf(c, p).Some? && ViewOf(c, p).value.end && Chunk(ViewOf(c, p).value, p) == [0, 0, 0, 1] + p
  {
    ViewIff(c, p);
    SplitJoin(p, HeaderLength(c));
    Associative([0, 0, 0, 1], p[..HeaderLength(c)], p[HeaderLength(c)..]);
  }

  /** The packets that the source's own contract admits. */
  predicate Readable(c: Codec, packets: seq<Octets>) {
    forall p :: p in packets ==> p == [] || LongEnough(c, p)
  }

  /** The do-while loop of GetMediaData with `soFar` already in the buffer. */
  function Assemble(c: Codec, max: nat, soFar: Octets, packets: seq<Octets>): (r: Outcome)
    requires Readable(c, packets)
    ensures r.copied <= |packets|
    decreases |packets|
  {
    if packets == [] then Outcome(false, soFar, [], 0)
    else
      var p, rest := packets[0], packets[1..];
      if p == [] || |p| > MEDIA_BUFFER then Outcome(false, soFar, rest, 0)
      else if |soFar| + |p| > max then Outcome(true, soFar, rest, 0)
      else
        match ViewOf(c, p)
        case None => Outcome(false, soFar, rest, 0)
        case Some(v) =>
          var longer := soFar + Chunk(v, p);
          if v.end then Outcome(true, longer, rest, 1)
          else
            var r := Assemble(c, max, longer, rest);
            r.(copied := r.copied + 1)
  }

  /** PrefixParameterOnce: it fails at the first parameter set that does not decode or is empty. */
  datatype PrefixOutcome = PrefixOutcome(ok: bool, bytes: Octets)

  function Prefix(sets: seq<Option<Octets>>): PrefixOutcome {
    if sets == [] then PrefixOutcome(true, [])
    else if sets[0].None? || sets[0].value == [] then PrefixOutcome(false, [])
    else
      var r := Prefix(sets[1..]);
      r.(bytes := START_CODE + sets[0].value + r.bytes)
  }

  /** The state that one call finds and leaves: the once-flag and the queue. */
  datatype Session = Session(codec: Codec, sets: seq<Option<Octets>>, needPrefix: bool, packets: seq<Octets>)

  /** A call returns Some with what it wrote to the buffer, or None. */
  datatype CallResult = CallResult(result: Option<Octets>, written: Octets, next: Session)

  function Call(s: Session, max: nat): CallResult
    requires Readable(s.codec, s.packets)
  {
    var prefix := if s.needPrefix then Prefix(s.sets) else PrefixOutcome(true, []);
    if !prefix.ok then CallResult(None, prefix.bytes, s)
    else
      var r := Assemble(s.codec, max, prefix.bytes, s.packets);
      CallResult(if r.ok then Some(r.out) else None, r.out, s.(needPrefix := false, packets := r.rest))
  }

  // ---- The sender's side ----

  function FuPacket(c: Codec, h: Octets, first: bool, last: bool, part: Octets): Octets
    requires |h| == HeaderLength(c)
  {
    FuHeader(c, h, first, last) + part
  }

  /** The fragments that carry `parts`; the first of them starts the unit when `first` holds. */
  function FuPackets(c: Codec, h: Octets, parts: seq<Octets>, first: bool): seq<Octets>
    requires |h| == HeaderLength(c)
  {
    if parts == [] then []
    else [FuPacket(c, h, first, |parts| == 1, parts[0])] + FuPackets(c, h, parts[1..], false)
  }

  /** A unit as the sender puts it on the wire: whole, or its body cut into parts. */
  datatype Transmission = Whole(nal: Nal) | Cut(header: Octets, parts: seq<Octets>) {
    function Unit(): Nal {
      if Whole? then nal else Nal(header, Flatten(parts))
    }
  }

  /** Every fragment fits the client's packet buffer. */
  predicate Cuttable(c: Codec, parts: seq<Octets>) {
    forall i :: 0 <= i < |parts| ==> |parts[i]| + HeaderLength(c) + 1 <= MEDIA_BUFFER
  }

  predicate Sendable(c: Codec, t: Transmission) {
    && IsNal(c, t.Unit())
    && match t
       case Whole(n) => SinglePacket(c, n) && |n.Bytes()| <= MEDIA_BUFFER
       case Cut(h, parts) =>
         Fragments(c) && parts != [] && Cuttable(c, parts)
  }

  function PacketsOf(c: Codec, t: Transmission): seq<Octets>
    requires Sendable(c, t)
  {
    match t
    case Whole(n) => [n.Bytes()]
    case Cut(h, parts) => FuPackets(c, h, parts, true)
  }

  /** The room that the size check of the loop asks for, over what the buffer already holds. */
  function Room(c: Codec, t: Transmission): nat
    requires Sendable(c, t)
  {
    match t
    case Whole(n) => |n.Bytes()|
    case Cut(h, parts) =>
      var lead := HeaderLength(c) + 1;
      lead + |Flatten(parts)| + if |parts| == 1 then 0 else 4 + HeaderLength(c)
  }

  function AnnexB(n: Nal): Octets {
    START_CODE + n.Bytes()
  }

  // ---- One unit ----

  lemma AssembleStep(c: Codec, max: nat, soFar: Octets, p: Octets, rest: seq<Octets>, v: View)
    requires p != [] && LongEnough(c, p) && ViewOf(c, p) == Some(v)
    requires |p| <= MEDIA_BUFFER && |soFar| + |p| <= max && Readable(c, rest)
    ensures Readable(c, [p] + rest)
    ensures var longer := soFar + Chunk(v, p);
            Assemble(c, max, soFar, [p] + rest) ==
            if v.end then Outcome(true, longer, rest, 1)
            else
              var r := Assemble(c, max, longer, rest);
              r.(copied := r.copied + 1)
  {
    assert ([p] + rest)[1..] == rest;
  }

  lemma {:induction false} FuPacketsReadable(c: Codec, h: Octets, parts: seq<Octets>, first: bool, rest: seq<Octets>)
    requires |h| == HeaderLength(c) && Fragments(c) && Readable(c, rest)
    ensures Readable(c, FuPackets(c, h, parts, first) + rest)
    decreases |parts|
  {
    if parts != [] {
      FuPacketsReadable(c, h, parts[1..], false, rest);
      ViewOfFragment(c, h, first, |parts| == 1, parts[0]);
      var p := FuPacket(c, h, first, |parts| == 1, parts[0]);
      Associative([p], FuPackets(c, h, parts[1..], false), rest);
    } else {
      assert [] + rest == rest;
    }
  }

  lemma FuPacketsSplit(c: Codec, h: Octets, parts: seq<Octets>, first: bool, rest: seq<Octets>)
    requires |h| == HeaderLength(c) && Fragments(c) && Readable(c, rest) && parts != []
    ensures var more := FuPackets(c, h, parts[1..], false) + rest;
            && Readable(c, more)
            && Readable(c, FuPackets(c, h, parts, first) + rest)
            && FuPackets(c, h, parts, first) + rest == [FuPacket(c, h, first, |parts| == 1, parts[0])] + more
            && (|parts| == 1 ==> more == rest)
  {
    FuPacketsReadable(c, h, parts, first, rest);
    FuPacketsReadable(c, h, parts[1..], false, rest);
    Associative([FuPacket(c, h, first, |parts| == 1, parts[0])], FuPackets(c, h, parts[1..], false), rest);
    if |parts| == 1 {
      assert FuPackets(c, h, parts[1..], false) == [];
      assert [] + rest == rest;
    }
  }

  /** One fragment: what it adds, and that the loop goes on exactly if it is not the last. */
  lemma FragmentStep(c: Codec, max: nat, soFar: Octets, h: Octets, part: Octets, first: bool, last: bool, rest: seq<Octets>)
    requires |h| == HeaderLength(c) && Fragments(c) && Readable(c, rest)
    requires |part| + HeaderLength(c) + 1 <= MEDIA_BUFFER
    requires |soFar| + HeaderLength(c) + 1 + |part| <= max
    ensures var p := FuPacket(c, h, first, last, part);
            var longer := soFar + ((if first then START_CODE + h else []) + part);
            && Readable(c, [p] + rest)
            && Assemble(c, max, soFar, [p] + rest) ==
               if last then Outcome(true, longer, rest, 1)
               else
                 var r := Assemble(c, max, longer, rest);
                 r.(copied := r.copied + 1)
  {
    ViewOfFragment(c, h, first, last, part);
    var p := FuPacket(c, h, first, last, part);
    var v := View(first, last, h, HeaderLength(c) + 1);
    assert p[v.skip..] == part;
    AssembleStep(c, max, soFar, p, rest, v);
  }

  lemma FlattenOne(parts: seq<Octets>)
    requires parts != []
    ensures |parts| == 1 ==> Flatten(parts) == parts[0]
  {
    if |parts| == 1 {
      assert Flatten(parts[1..]) == [];
    }
  }

  /** The rest of a fragmented unit appends the rest of its body and stops on the last fragment. */
  lemma {:induction false} TailFragments(c: Codec, max: nat, soFar: Octets, h: Octets, parts: seq<Octets>, rest: seq<Octets>)
    requires |h| == HeaderLength(c) && Fragments(c) && Readable(c, rest) && parts != []
    requires Cuttable(c, parts)
    requires |soFar| + |Flatten(parts)| + HeaderLength(c) + 1 <= max
    ensures Readable(c, FuPackets(c, h, parts, false) + rest)
    ensures Assemble(c, max, soFar, FuPackets(c, h, parts, false) + rest)
            == Outcome(true, soFar + Flatten(parts), rest, |parts|)
    decreases |parts|
  {
    var last := |parts| == 1;
    var more := FuPackets(c, h, parts[1..], false) + rest;
    FuPacketsSplit(c, h, parts, false, rest);
    FragmentStep(c, max, soFar, h, parts[0], false, last, more);
    assert [] + parts[0] == parts[0];
    FlattenOne(parts);
    if !last {
      Associative(soFar, parts[0], Flatten(parts[1..]));
      TailFragments(c, max, soFar + parts[0], h, parts[1..], rest);
    }
  }

  /** A cut unit that fits is put together again, header, body and nothing else. */
  lemma FragmentsRoundTrip(c: Codec, max: nat, soFar: Octets, h: Octets, parts: seq<Octets>, rest: seq<Octets>)
    requires Sendable(c, Cut(h, parts)) && Readable(c, rest)
    requires |soFar| + Room(c, Cut(h, parts)) <= max
    ensures Readable(c, FuPackets(c, h, parts, true) + rest)
    ensures Assemble(c, max, soFar, FuPackets(c, h, parts, true) + rest)
            == Outcome(true, soFar + AnnexB(Nal(h, Flatten(parts))), rest, |parts|)
  {
    var last := |parts| == 1;
    var more := FuPackets(c, h, parts[1..], false) + rest;
    FuPacketsSplit(c, h, parts, true, rest);
    FragmentStep(c, max, soFar, h, parts[0], true, last, more);
    var lead := START_CODE + h;
    Associative(START_CODE, h, Flatten(parts));
    FlattenOne(parts);
    if !last {
      var longer := soFar + (lead + parts[0]);
      Associative(lead, parts[0], Flatten(parts[1..]));
      Associative(soFar, lead + parts[0], Flatten(parts[1..]));
      TailFragments(c, max, longer, h, parts[1..], rest);
    }
  }

  lemma WholeRoundTrip(c: Codec, max: nat, soFar: Octets, n: Nal, rest: seq<Octets>)
    requires Sendable(c, Whole(n)) && Readable(c, rest)
    requires |soFar| + Room(c, Whole(n)) <= max
    ensures Readable(c, [n.Bytes()] + rest)
    ensures Assemble(c, max, soFar, [n.Bytes()] + rest) == Outcome(true, soFar + AnnexB(n), rest, 1)
  {
    ViewOfSingle(c, n);
    var v := View(true, true, n.header, HeaderLength(c));
    AssembleStep(c, max, soFar, n.Bytes(), rest, v);
    assert n.Bytes()[v.skip..] == n.body;
    Associative(START_CODE, n.header, n.body);
  }

  lemma RoundTrip(c: Codec, max: nat, soFar: Octets, t: Transmission, rest: seq<Octets>)
    requires Sendable(c, t) && Readable(c, rest) && |soFar| + Room(c, t) <= max
    ensures Readable(c, PacketsOf(c, t) + rest)
    ensures Assemble(c, max, soFar, PacketsOf(c, t) + rest)
            == Outcome(true, soFar + AnnexB(t.Unit()), rest, |PacketsOf(c, t)|)
  {
    match t
    case Whole(n) => WholeRoundTrip(c, max, soFar, n, rest);
    case Cut(h, parts) =>
      FragmentsRoundTrip(c, max, soFar, h, parts, rest);
      FuPacketsCount(c, h, parts, true);
  }

  lemma {:induction false} FuPacketsCount(c: Codec, h: Octets, parts: seq<Octets>, first: bool)
    requires |h| == HeaderLength(c)
    ensures |FuPackets(c, h, parts, first)| == |parts|
    decreases |parts|
  {
    if parts == [] {
    } else {
      FuPacketsCount(c, h, parts[1..], false);
    }
  }

  // ---- Too little room ----

  lemma NoRoom(c: Codec, max: nat, soFar: Octets, p: Octets, more: seq<Octets>)
    requires Readable(c, [p] + more) && 0 < |p| <= MEDIA_BUFFER && |soFar| + |p| > max
    ensures Assemble(c, max, soFar, [p] + more) == Outcome(true, soFar, more, 0)
  {
    assert ([p] + more)[1..] == more;
  }

  /** There is room for the fragments that carry these parts, with `have` octets in the buffer; empty parts need none. */
  predicate TailFits(c: Codec, max: nat, have: nat, parts: seq<Octets>) {
    Flatten(parts) == [] || have + |Flatten(parts)| + HeaderLength(c) + 1 <= max
  }

  /** There is room for the first fragment, and behind its start code and header for the others. */
  predicate CutFits(c: Codec, max: nat, have: nat, parts: seq<Octets>)
    requires parts != []
  {
    && have + HeaderLength(c) + 1 + |parts[0]| <= max
    && TailFits(c, max, have + 4 + HeaderLength(c) + |parts[0]|, parts[1..])
  }

  /** The rest of a fragmented unit comes out whole if there is room for it, and is shorter otherwise. */
  lemma {:induction false} TailOut(c: Codec, max: nat, soFar: Octets, h: Octets, parts: seq<Octets>, rest: seq<Octets>)
    requires |h| == HeaderLength(c) && Fragments(c) && Readable(c, rest) && parts != []
    requires Cuttable(c, parts)
    ensures Readable(c, FuPackets(c, h, parts, false) + rest)
    ensures var r := Assemble(c, max, soFar, FuPackets(c, h, parts, false) + rest);
            && r.ok
            && if TailFits(c, max, |soFar|, parts) then r.out == soFar + Flatten(parts)
               else |r.out| < |soFar| + |Flatten(parts)|
    decreases |parts|
  {
    var last := |parts| == 1;
    var more := FuPackets(c, h, parts[1..], false) + rest;
    FuPacketsSplit(c, h, parts, false, rest);
    var p := FuPacket(c, h, false, last, parts[0]);
    FlattenOne(parts);
    if |soFar| + |p| > max {
      NoRoom(c, max, soFar, p, more);
      assert soFar + [] == soFar;
    } else {
      var longer := soFar + ([] + parts[0]);
      assert [] + parts[0] == parts[0];
      FragmentStep(c, max, soFar, h, parts[0], false, last, more);
      if !last {
        Associative(soFar, parts[0], Flatten(parts[1..]));
        TailOut(c, max, longer, h, parts[1..], rest);
        TailFitsStep(c, max, |soFar|, parts);
      }
    }
  }

  lemma TailFitsStep(c: Codec, max: nat, have: nat, parts: seq<Octets>)
    requires parts != [] && have + HeaderLength(c) + 1 + |parts[0]| <= max
    ensures TailFits(c, max, have, parts) <==> TailFits(c, max, have + |parts[0]|, parts[1..])
  {
    if Flatten(parts[1..]) == [] {
      assert parts[0] + [] == parts[0];
    }
  }

  lemma CutOut(c: Codec, max: nat, soFar: Octets, h: Octets, parts: seq<Octets>, rest: seq<Octets>)
    requires Sendable(c, Cut(h, parts)) && Readable(c, rest)
    ensures Readable(c, FuPackets(c, h, parts, true) + rest)
    ensures var r := Assemble(c, max, soFar, FuPackets(c, h, parts, true) + rest);
            && r.ok
            && if CutFits(c, max, |soFar|, parts) then r.out == soFar + ((START_CODE + h) + Flatten(parts))
               else |r.out| < |soFar| + 4 + |h| + |Flatten(parts)|
  {
    var last := |parts| == 1;
    var p := FuPacket(c, h, true, last, parts[0]);
    var more := FuPackets(c, h, parts[1..], false) + rest;
    var lead := START_CODE + h;
    FuPacketsSplit(c, h, parts, true, rest);
    FlattenOne(parts);
    if |soFar| + |p| > max {
      NoRoom(c, max, soFar, p, more);
    } else {
      FragmentStep(c, max, soFar, h, parts[0], true, last, more);
      if !last {
        Associative(lead, parts[0], Flatten(parts[1..]));
        Associative(soFar, lead + parts[0], Flatten(parts[1..]));
        TailOut(c, max, soFar + (lead + parts[0]), h, parts[1..], rest);
      }
    }
  }

  /** Of a cut unit the whole comes out if and only if there is room for it; an empty fragment needs none. */
  lemma FragmentsFitIff(c: Codec, max: nat, soFar: Octets, h: Octets, parts: seq<Octets>, rest: seq<Octets>)
    requires Sendable(c, Cut(h, parts)) && Readable(c, rest)
    ensures Readable(c, FuPackets(c, h, parts, true) + rest)
    ensures Assemble(c, max, soFar, FuPackets(c, h, parts, true) + rest).out
            == soFar + AnnexB(Nal(h, Flatten(parts)))
            <==> CutFits(c, max, |soFar|, parts)
  {
    Associative(START_CODE, h, Flatten(parts));
    CutOut(c, max, soFar, h, parts, rest);
  }

  /** If there is no room it comes out shorter, and no error is reported. */
  lemma FragmentsTruncated(c: Codec, max: nat, soFar: Octets, h: Octets, parts: seq<Octets>, rest: seq<Octets>)
    requires Sendable(c, Cut(h, parts)) && Readable(c, rest) && !CutFits(c, max, |soFar|, parts)
    ensures Readable(c, FuPackets(c, h, parts, true) + rest)
    ensures var r := Assemble(c, max, soFar, FuPackets(c, h, parts, true) + rest);
            r.ok && |r.out| < |soFar| + |AnnexB(Nal(h, Flatten(parts)))|
  {
    CutOut(c, max, soFar, h, parts, rest);
  }

  lemma {:induction false} LastPartCounts(parts: seq<Octets>)
    requires parts != []
    ensures |Flatten(parts)| >= |parts[|parts| - 1]|
    decreases |parts|
  {
    if |parts| > 1 {
      LastPartCounts(parts[1..]);
    }
  }

  /** With a non-empty last part that is the room for the last packet. */
  lemma CutFitsByRoom(c: Codec, max: nat, have: nat, h: Octets, parts: seq<Octets>)
    requires Sendable(c, Cut(h, parts)) && parts[|parts| - 1] != []
    ensures CutFits(c, max, have, parts) <==> have + Room(c, Cut(h, parts)) <= max
  {
    FlattenOne(parts);
    if |parts| > 1 {
      LastPartCounts(parts[1..]);
    }
  }

  // ---- Any packets ----

  function Chunks(c: Codec, packets: seq<Octets>): Octets
    requires Readable(c, packets)
    decreases |packets|
  {
    if packets == [] then []
    else
      var p := packets[0];
      (if p == [] || ViewOf(c, p).None? then [] else Chunk(ViewOf(c, p).value, p)) + Chunks(c, packets[1..])
  }

  /** What a packet adds to the reported size. */
  function Contribution(c: Codec, p: Octets): nat
    requires p == [] || LongEnough(c, p)
  {
    if p == [] || ViewOf(c, p).None? then 0
    else
      var v := ViewOf(c, p).value;
      |p| - v.skip + if v.start then 4 + HeaderLength(c) else 0
  }

  function Contributions(c: Codec, packets: seq<Octets>): nat
    requires Readable(c, packets)
    decreases |packets|
  {
    if packets == [] then 0 else Contribution(c, packets[0]) + Contributions(c, packets[1..])
  }

  lemma {:induction false} ChunksLength(c: Codec, packets: seq<Octets>)
    requires Readable(c, packets)
    ensures |Chunks(c, packets)| == Contributions(c, packets)
    decreases |packets|
  {
    if packets == [] {
    } else {
      ChunksLength(c, packets[1..]);
    }
  }

  lemma ChunksOfCons(c: Codec, p: Octets, rest: seq<Octets>)
    requires Readable(c, [p] + rest) && p != [] && ViewOf(c, p).Some?
    ensures Readable(c, rest)
    ensures Chunks(c, [p] + rest) == Chunk(ViewOf(c, p).value, p) + Chunks(c, rest)
  {
    assert ([p] + rest)[1..] == rest;
  }

  lemma OneMoreChunk(c: Codec, soFar: Octets, packets: seq<Octets>, k: nat)
    requires packets != [] && Readable(c, packets) && k < |packets|
    requires packets[0] != [] && ViewOf(c, packets[0]).Some?
    ensures var chunk := Chunk(ViewOf(c, packets[0]).value, packets[0]);
            soFar + chunk + Chunks(c, packets[1..][..k]) == soFar + Chunks(c, packets[..k + 1])
  {
    var p, rest := packets[0], packets[1..];
    assert packets[..k + 1] == [p] + rest[..k];
    ChunksOfCons(c, p, rest[..k]);
    Associative(soFar, Chunk(ViewOf(c, p).value, p), Chunks(c, rest[..k]));
  }

  lemma {:induction false} AssembledChunks(c: Codec, max: nat, soFar: Octets, packets: seq<Octets>)
    requires Readable(c, packets)
    ensures var r := Assemble(c, max, soFar, packets); r.out == soFar + Chunks(c, packets[..r.copied])
    decreases |packets|
  {
    var r := Assemble(c, max, soFar, packets);
    if r.copied == 0 {
      assert packets[..0] == [];
      assert soFar + [] == soFar;
    } else {
      var p, rest := packets[0], packets[1..];
      var v := ViewOf(c, p).value;
      if v.end {
        ChunksOfCons(c, p, []);
        assert packets[..1] == [p] + [];
      } else {
        var q := Assemble(c, max, soFar + Chunk(v, p), rest);
        AssembledChunks(c, max, soFar + Chunk(v, p), rest);
        OneMoreChunk(c, soFar, packets, q.copied);
      }
    }
  }

  lemma {:induction false} PacketsTaken(c: Codec, max: nat, soFar: Octets, packets: seq<Octets>)
    requires Readable(c, packets)
    ensures var r := Assemble(c, max, soFar, packets);
            && (r.rest == packets[r.copied..] || (r.copied < |packets| && r.rest == packets[r.copied + 1..]))
            && |r.out| <= Max(|soFar|, max + 4)
    decreases |packets|
  {
    var r := Assemble(c, max, soFar, packets);
    if r.copied > 0 {
      var p, rest := packets[0], packets[1..];
      var v := ViewOf(c, p).value;
      if !v.end {
        PacketsTaken(c, max, soFar + Chunk(v, p), rest);
      }
    }
  }

  /**
   Whatever the packets are, the buffer holds what was there and then one chunk for every packet
   copied, in order; besides those at most one packet is taken from the queue; and the size stays
   within the caller's limit and one start code.
   */
  lemma Accounting(c: Codec, max: nat, soFar: Octets, packets: seq<Octets>)
    requires Readable(c, packets)
    ensures var r := Assemble(c, max, soFar, packets);
            && r.out == soFar + Chunks(c, packets[..r.copied])
            && |r.out| == |soFar| + Contributions(c, packets[..r.copied])
            && (r.rest == packets[r.copied..] || (r.copied < |packets| && r.rest == packets[r.copied + 1..]))
            && |r.out| <= Max(|soFar|, max + 4)
  {
    AssembledChunks(c, max, soFar, packets);
    PacketsTaken(c, max, soFar, packets);
    ChunksLength(c, packets[..Assemble(c, max, soFar, packets).copied]);
  }

  // ---- One call ----

  lemma CallKeepsReadable(s: Session, max: nat)
    requires Readable(s.codec, s.packets)
    ensures Readable(s.codec, Call(s, max).next.packets) && Call(s, max).next.codec == s.codec
  {
    var prefix := if s.needPrefix then Prefix(s.sets) else PrefixOutcome(true, []);
    if prefix.ok {
      Accounting(s.codec, max, prefix.bytes, s.packets);
    }
  }
}
