/**
 Runs of GetMediaData while packets arrive: what a call makes of a unit of which only some
 packets are there, when a run yields exactly the units of the sender, and what becomes of the
 parameter sets. A packet that arrives while a call waits counts as queued before the call; a
 queue that has run dry is one where the wait for the next packet has timed out.
 */
module MediaRuns {
  import opened Common
  import opened NaluTypes
  import opened Reassembly
  import opened Truncation

  datatype Event = Arrive(packets: seq<Octets>) | Get

  /** What the calls of a run did, in order, and the session it leaves. */
  datatype Log = Log(calls: seq<CallResult>, last: Session) {
    function After(first: seq<CallResult>): Log {
      Log(first + calls, last)
    }
  }

  function Arrived(events: seq<Event>): seq<Octets> {
    if events == [] then []
    else (if events[0].Arrive? then events[0].packets else []) + Arrived(events[1..])
  }

  /** All packets that the run can meet are readable. */
  predicate Clean(s: Session, events: seq<Event>) {
    Readable(s.codec, s.packets) && Readable(s.codec, Arrived(events))
  }

  function Happen(s: Session, max: nat, e: Event): Session
    requires Clean(s, [e])
  {
    match e
    case Arrive(packets) => s.(packets := s.packets + packets)
    case Get => Call(s, max).next
  }

  lemma HappenClean(s: Session, max: nat, events: seq<Event>)
    requires Clean(s, events) && events != []
    ensures Clean(s, [events[0]]) && Clean(Happen(s, max, events[0]), events[1..])
    ensures Happen(s, max, events[0]).codec == s.codec && Happen(s, max, events[0]).sets == s.sets
  {
    var e := events[0];
    assert [e][1..] == [];
    assert Arrived([e]) == (if e.Arrive? then e.packets else []);
    var now, later := Arrived([e]), Arrived(events[1..]);
    assert forall p :: p in now ==> p in now + later;
    assert forall p :: p in later ==> p in now + later;
    CallKeepsReadable(s, max);
  }

  function Run(s: Session, max: nat, events: seq<Event>): Log
    requires Clean(s, events)
    decreases |events|
  {
    if events == [] then Log([], s)
    else
      HappenClean(s, max, events);
      var r := Run(Happen(s, max, events[0]), max, events[1..]);
      if events[0].Get? then r.After([Call(s, max)]) else r
  }

  function Results(calls: seq<CallResult>): seq<Option<Octets>> {
    if calls == [] then [] else [calls[0].result] + Results(calls[1..])
  }

  /** The calls that did not return null. */
  function Successes(calls: seq<CallResult>): seq<Octets> {
    if calls == [] then []
    else (if calls[0].result.Some? then [calls[0].result.value] else []) + Successes(calls[1..])
  }

  // ---- The queue ----

  predicate IsSuffix<T(==)>(a: seq<T>, b: seq<T>) {
    |a| <= |b| && a == b[|b| - |a|..]
  }

  lemma SuffixTransitive<T>(a: seq<T>, b: seq<T>, c: seq<T>)
    requires IsSuffix(a, b) && IsSuffix(b, c)
    ensures IsSuffix(a, c)
  {
    DropDrop(c, |c| - |b|, |b| - |a|);
  }

  lemma SuffixAppend<T>(a: seq<T>, b: seq<T>, x: seq<T>)
    requires IsSuffix(a, b)
    ensures IsSuffix(a + x, b + x)
  {
    DropAppended(b, x, |b| - |a|);
  }

  /** No packet is taken twice, skipped in the queue or reordered. */
  lemma {:induction false} QueueInOrder(s: Session, max: nat, events: seq<Event>)
    requires Clean(s, events)
    ensures IsSuffix(Run(s, max, events).last.packets, s.packets + Arrived(events))
    decreases |events|
  {
    if events == [] {
      assert s.packets + [] == s.packets;
    } else {
      HappenClean(s, max, events);
      var t := Happen(s, max, events[0]);
      var later := Arrived(events[1..]);
      QueueInOrder(t, max, events[1..]);
      match events[0]
      case Arrive(packets) => Associative(s.packets, packets, later);
      case Get =>
        CallTakesPrefix(s, max);
        assert [] + later == later;
        SuffixAppend(t.packets, s.packets, later);
        SuffixTransitive(Run(t, max, events[1..]).last.packets, t.packets + later, s.packets + later);
    }
  }

  lemma CallTakesPrefix(s: Session, max: nat)
    requires Readable(s.codec, s.packets)
    ensures IsSuffix(Call(s, max).next.packets, s.packets)
  {
    var prefix := if s.needPrefix then Prefix(s.sets) else PrefixOutcome(true, []);
    if prefix.ok {
      PacketsTaken(s.codec, max, prefix.bytes, s.packets);
    }
  }

  // ---- A unit of which only some packets have arrived ----

  /** The packet ends a unit. */
  predicate EndsUnit(c: Codec, p: Octets)
    requires p == [] || LongEnough(c, p)
  {
    p != [] && ViewOf(c, p).Some? && ViewOf(c, p).value.end
  }

  predicate HoldsEnd(c: Codec, q: seq<Octets>)
    requires Readable(c, q)
  {
    exists i :: 0 <= i < |q| && EndsUnit(c, q[i])
  }

  lemma FuPacketAt(c: Codec, h: Octets, parts: seq<Octets>, first: bool, i: nat)
    requires |h| == HeaderLength(c) && i < |parts|
    ensures |FuPackets(c, h, parts, first)| == |parts|
    ensures FuPackets(c, h, parts, first)[i] == FuPacket(c, h, first && i == 0, i == |parts| - 1, parts[i])
    decreases i
  {
    FuPacketsCount(c, h, parts, first);
    if i > 0 {
      FuPacketAt(c, h, parts[1..], false, i - 1);
    }
  }

  /** Of the packets of a cut unit just the last one ends it. */
  lemma FuPacketEnds(c: Codec, h: Octets, parts: seq<Octets>, first: bool, i: nat)
    requires |h| == HeaderLength(c) && Fragments(c) && i < |parts| == |FuPackets(c, h, parts, first)|
    ensures var p := FuPackets(c, h, parts, first)[i];
            LongEnough(c, p) && (EndsUnit(c, p) <==> i == |parts| - 1)
  {
    FuPacketAt(c, h, parts, first, i);
    ViewOfFragment(c, h, first && i == 0, i == |parts| - 1, parts[i]);
  }

  /** The packets from the k-th part on, without the start of the unit. */
  lemma FuPacketsDrop(c: Codec, h: Octets, parts: seq<Octets>, first: bool, k: nat)
    requires |h| == HeaderLength(c) && 0 < k <= |parts|
    ensures |FuPackets(c, h, parts, first)| == |parts|
    ensures FuPackets(c, h, parts, first)[k..] == FuPackets(c, h, parts[k..], false)
    decreases k
  {
    FuPacketsCount(c, h, parts, first);
    var all, more := FuPackets(c, h, parts, first), FuPackets(c, h, parts[1..], false);
    assert all[1..] == more;
    if k > 1 {
      FuPacketsDrop(c, h, parts[1..], false, k - 1);
      DropDrop(all, 1, k - 1);
      DropDrop(parts, 1, k - 1);
    }
  }

  /**
   Some fragments of a unit, but not the last one: the loop takes them all and then finds no
   packet. What they carried stands in the buffer that the null result discards.
   */
  lemma {:induction false} SomeFragments(c: Codec, max: nat, soFar: Octets, h: Octets, parts: seq<Octets>, first: bool, k: nat)
    requires |h| == HeaderLength(c) && Fragments(c) && Cuttable(c, parts) && k < |parts|
    requires |soFar| + (if first then 4 + HeaderLength(c) else 0) + |Flatten(parts)| + HeaderLength(c) + 1 <= max
    ensures |FuPackets(c, h, parts, first)| == |parts| && Readable(c, FuPackets(c, h, parts, first)[..k])
    ensures var r := Assemble(c, max, soFar, FuPackets(c, h, parts, first)[..k]);
            && !r.ok && r.rest == []
            && (k > 0 ==> |r.out| >= |soFar| + if first then 4 + |h| else 0)
    decreases k
  {
    FuPacketsCount(c, h, parts, first);
    var all := FuPackets(c, h, parts, first);
    if k == 0 {
      assert all[..0] == [];
    } else {
      var more := FuPackets(c, h, parts[1..], false);
      var lead := if first then START_CODE + h else [];
      var longer := soFar + (lead + parts[0]);
      assert all[..k] == [FuPacket(c, h, first, false, parts[0])] + more[..k - 1];
      SomeFragments(c, max, longer, h, parts[1..], false, k - 1);
      FragmentStep(c, max, soFar, h, parts[0], first, false, more[..k - 1]);
      if k == 1 {
        assert more[..0] == [];
      }
    }
  }

  /**
   A queue that holds the first k packets of a cut unit that fits: the call succeeds if and only
   if they are all there. Otherwise it returns null and has taken the ones that were, and when the
   others arrive the next call succeeds with the rest of the body, without start code and header.
   */
  lemma PartOfUnit(s: Session, max: nat, h: Octets, parts: seq<Octets>, k: nat, rest: seq<Octets>)
    requires Sendable(s.codec, Cut(h, parts)) && Room(s.codec, Cut(h, parts)) <= max && !s.needPrefix
    requires k <= |parts| == |FuPackets(s.codec, h, parts, true)| && Readable(s.codec, rest)
    requires s.packets == FuPackets(s.codec, h, parts, true)[..k]
    ensures Readable(s.codec, s.packets)
    ensures var r := Call(s, max);
            && (r.result.Some? <==> k == |parts|)
            && r.next.packets == []
            && (0 < k < |parts| ==>
                  var late := r.next.(packets := FuPackets(s.codec, h, parts, true)[k..] + rest);
                  && Readable(s.codec, late.packets)
                  && Call(late, max) == CallResult(Some(Flatten(parts[k..])), Flatten(parts[k..]), late.(packets := rest)))
  {
    var c, all := s.codec, FuPackets(s.codec, h, parts, true);
    if k == |parts| {
      assert all[..k] == all && all + [] == all;
      FragmentsRoundTrip(c, max, [], h, parts, []);
    } else if k == 0 {
      assert s.packets == [];
    } else {
      SomeFragments(c, max, [], h, parts, true, k);
      FuPacketsDrop(c, h, parts, true, k);
      FlattenDrop(parts, k);
      TailFragments(c, max, [], h, parts[k..], rest);
      assert [] + Flatten(parts[k..]) == Flatten(parts[k..]);
    }
  }

  lemma {:induction false} FlattenDrop(parts: seq<Octets>, k: nat)
    requires k <= |parts|
    ensures |Flatten(parts[k..])| <= |Flatten(parts)|
    decreases k
  {
    if k > 0 {
      FlattenDrop(parts[1..], k - 1);
      DropDrop(parts, 1, k - 1);
    } else {
      assert parts[0..] == parts;
    }
  }

  // ---- The sender's stream ----

  predicate AllSendable(c: Codec, ts: seq<Transmission>) {
    forall t :: t in ts ==> Sendable(c, t)
  }

  function AllPackets(c: Codec, ts: seq<Transmission>): seq<Octets>
    requires AllSendable(c, ts)
  {
    if ts == [] then [] else PacketsOf(c, ts[0]) + AllPackets(c, ts[1..])
  }

  /** The Annex-B form of each unit. */
  function Units(ts: seq<Transmission>): seq<Octets> {
    if ts == [] then [] else [AnnexB(ts[0].Unit())] + Units(ts[1..])
  }

  lemma LastPacketEnds(c: Codec, t: Transmission)
    requires Sendable(c, t)
    ensures PacketsOf(c, t) != [] && Readable(c, PacketsOf(c, t))
    ensures var ps := PacketsOf(c, t); forall i :: 0 <= i < |ps| ==> (EndsUnit(c, ps[i]) <==> i == |ps| - 1)
  {
    match t
    case Whole(n) =>
      ViewOfSingle(c, n);
    case Cut(h, parts) =>
      FuPacketsCount(c, h, parts, true);
      var ps := FuPackets(c, h, parts, true);
      forall i | 0 <= i < |ps|
        ensures LongEnough(c, ps[i]) && (EndsUnit(c, ps[i]) <==> i == |ps| - 1)
      {
        FuPacketEnds(c, h, parts, true, i);
      }
  }

  lemma {:induction false} StreamReadable(c: Codec, ts: seq<Transmission>)
    requires AllSendable(c, ts)
    ensures Readable(c, AllPackets(c, ts))
  {
    if ts == [] {
    } else {
      LastPacketEnds(c, ts[0]);
      StreamReadable(c, ts[1..]);
    }
  }

  lemma Align<T>(a: seq<T>, b: seq<T>, x: seq<T>, y: seq<T>)
    requires a + b == x + y
    ensures |a| >= |x| ==> a == x + a[|x|..] && a[|x|..] + b == y
    ensures |a| <= |x| ==> a == x[..|a|]
  {
    var s := a + b;
    if |a| >= |x| {
      assert a[..|x|] == s[..|x|] == x;
      assert a[|x|..] + b == s[|x|..] == y;
    } else {
      assert a == s[..|a|] == x[..|a|];
    }
  }

  lemma ReadableParts(c: Codec, q: seq<Octets>, later: seq<Octets>)
    requires Readable(c, q + later)
    ensures Readable(c, q) && Readable(c, later)
  {
    assert forall p :: p in q ==> p in q + later;
    assert forall p :: p in later ==> p in q + later;
  }

  /** The queue holds an end if and only if it holds all packets of the unit it starts with. */
  lemma HoldsEndIff(c: Codec, q: seq<Octets>, later: seq<Octets>, ts: seq<Transmission>)
    requires AllSendable(c, ts) && q + later == AllPackets(c, ts) && ts != []
    ensures Readable(c, q)
    ensures HoldsEnd(c, q) <==> |q| >= |PacketsOf(c, ts[0])|
  {
    var ps := PacketsOf(c, ts[0]);
    StreamReadable(c, ts);
    ReadableParts(c, q, later);
    LastPacketEnds(c, ts[0]);
    Align(q, later, ps, AllPackets(c, ts[1..]));
    if |q| >= |ps| {
      assert q[|ps| - 1] == ps[|ps| - 1];
    } else {
      assert forall i :: 0 <= i < |q| ==> q[i] == ps[i];
    }
  }

  /** What the loop makes of a queue that starts at the start of a unit that fits. */
  lemma InStep(c: Codec, max: nat, soFar: Octets, q: seq<Octets>, later: seq<Octets>, ts: seq<Transmission>)
    requires AllSendable(c, ts) && q + later == AllPackets(c, ts)
    requires q != [] && ts != [] ==> UnitFits(c, max, |soFar|, ts[0])
    ensures Readable(c, q) && (q != [] ==> ts != [])
    ensures var r := Assemble(c, max, soFar, q);
            if HoldsEnd(c, q) then
              && ts != [] && r.ok && r.out == soFar + AnnexB(ts[0].Unit())
              && r.rest + later == AllPackets(c, ts[1..])
            else !r.ok && r.rest == [] && (q != [] ==> |r.out| > |soFar|)
  {
    if q == [] {
    } else {
      var ps := PacketsOf(c, ts[0]);
      HoldsEndIff(c, q, later, ts);
      Align(q, later, ps, AllPackets(c, ts[1..]));
      if HoldsEnd(c, q) {
        RestReadable(c, ps, q[|ps|..]);
        UnitWhole(c, max, soFar, ts[0], q[|ps|..]);
      } else {
        StreamReadable(c, ts[1..]);
        UnitWhole(c, max, soFar, ts[0], AllPackets(c, ts[1..]));
        RunsDry(c, max, soFar, q, later, ts[0]);
      }
    }
  }

  /** The first packet of a unit carries its start. */
  lemma StartCarries(c: Codec, t: Transmission)
    requires Sendable(c, t)
    ensures PacketsOf(c, t) != [] && LongEnough(c, PacketsOf(c, t)[0]) && Contribution(c, PacketsOf(c, t)[0]) > 0
  {
    match t
    case Whole(n) => ViewOfSingle(c, n);
    case Cut(h, parts) => ViewOfFragment(c, h, true, |parts| == 1, parts[0]);
  }

  /** With packets of a unit queued the loop runs out of packets, having written something, or does what it does with all that follow. */
  lemma RunsDry(c: Codec, max: nat, soFar: Octets, q: seq<Octets>, later: seq<Octets>, t: Transmission)
    requires Sendable(c, t) && Readable(c, q) && Readable(c, later) && q != [] && q[0] == PacketsOf(c, t)[0]
    ensures Readable(c, q + later)
    ensures var a, b := Assemble(c, max, soFar, q), Assemble(c, max, soFar, q + later);
            || (!a.ok && a.rest == [] && |a.out| > |soFar|)
            || (a.ok == b.ok && a.out == b.out && a.rest + later == b.rest)
  {
    DryOrSame(c, max, soFar, q, later);
    StartCarries(c, t);
    Accounting(c, max, soFar, q);
    assert q[..|q|] == q;
  }

  /** The packets behind a unit of which some fragments without a body are still there. */
  ghost predicate LeftBehind(c: Codec, h: Octets, q: seq<Octets>, ts: seq<Transmission>)
    requires |h| == HeaderLength(c) && AllSendable(c, ts)
  {
    exists parts: seq<Octets> :: parts != [] && Cuttable(c, parts) && Flatten(parts) == []
                                 && q == FuPackets(c, h, parts, false) + AllPackets(c, ts)
  }

  /** What it makes of a queue that starts at a unit that does not fit: null, a success that is too short, or one that leaves some of its fragments. */
  lemma OutOfStep(c: Codec, max: nat, soFar: Octets, q: seq<Octets>, later: seq<Octets>, ts: seq<Transmission>)
    requires AllSendable(c, ts) && q + later == AllPackets(c, ts) && q != [] && ts != []
    requires !UnitFits(c, max, |soFar|, ts[0])
    ensures Readable(c, q)
    ensures var r := Assemble(c, max, soFar, q);
            || (!r.ok && r.rest == [] && |r.out| > |soFar|)
            || (r.ok && |r.out| < |soFar + AnnexB(ts[0].Unit())|)
            || (r.ok && r.out == soFar + AnnexB(ts[0].Unit()) && ts[0].Cut? && Fragments(c)
                && |ts[0].header| == HeaderLength(c) && LeftBehind(c, ts[0].header, r.rest + later, ts[1..]))
  {
    var rest := AllPackets(c, ts[1..]);
    StreamReadable(c, ts);
    StreamReadable(c, ts[1..]);
    ReadableParts(c, q, later);
    LastPacketEnds(c, ts[0]);
    Align(q, later, PacketsOf(c, ts[0]), rest);
    RunsDry(c, max, soFar, q, later, ts[0]);
    match ts[0]
    case Whole(n) => WholeDropped(c, max, soFar, n, rest);
    case Cut(h, parts) =>
      var j := CutTruncated(c, max, soFar, h, parts, rest);
      assert Cuttable(c, parts[j..]);
  }

  lemma RestReadable(c: Codec, ps: seq<Octets>, rest: seq<Octets>)
    requires Readable(c, ps + rest)
    ensures Readable(c, rest)
  {
    ReadableParts(c, ps, rest);
  }

  // ---- Runs in step ----

  /** The queue, what the run brings and what comes later make the packets of these units. */
  predicate Streams(s: Session, events: seq<Event>, future: seq<Octets>, ts: seq<Transmission>) {
    AllSendable(s.codec, ts) && s.packets + (Arrived(events) + future) == AllPackets(s.codec, ts)
  }

  lemma StreamsClean(s: Session, events: seq<Event>, future: seq<Octets>, ts: seq<Transmission>)
    requires Streams(s, events, future, ts)
    ensures Clean(s, events) && Readable(s.codec, future)
  {
    StreamReadable(s.codec, ts);
    ReadableParts(s.codec, s.packets, Arrived(events) + future);
    ReadableParts(s.codec, Arrived(events), future);
  }

  /** What the next call writes in front of a unit. */
  function Lead(s: Session): Octets {
    if s.needPrefix then Prefix(s.sets).bytes else []
  }

  /** The call finds no packet, or all packets of a unit that fits. */
  predicate Ready(s: Session, ts: seq<Transmission>, max: nat)
    requires Readable(s.codec, s.packets) && AllSendable(s.codec, ts)
  {
    s.packets == [] || (HoldsEnd(s.codec, s.packets) && ts != [] && UnitFits(s.codec, max, |Lead(s)|, ts[0]))
  }

  /** The units that are left to the calls behind this event, if the call finds what it should. */
  function Behind(s: Session, e: Event, ts: seq<Transmission>): seq<Transmission> {
    if e.Arrive? || s.packets == [] || ts == [] then ts else ts[1..]
  }

  predicate EveryCallReady(s: Session, max: nat, events: seq<Event>, ts: seq<Transmission>)
    requires Clean(s, events) && AllSendable(s.codec, ts)
    decreases |events|
  {
    events == [] || (
      HappenClean(s, max, events);
      && (events[0].Get? ==> Ready(s, ts, max))
      && EveryCallReady(Happen(s, max, events[0]), max, events[1..], Behind(s, events[0], ts)))
  }

  /** How many calls find a packet. */
  function Found(s: Session, max: nat, events: seq<Event>): nat
    requires Clean(s, events)
    decreases |events|
  {
    if events == [] then 0
    else
      HappenClean(s, max, events);
      (if events[0].Get? && s.packets != [] then 1 else 0) + Found(Happen(s, max, events[0]), max, events[1..])
  }

  lemma StreamsArrive(s: Session, events: seq<Event>, future: seq<Octets>, ts: seq<Transmission>, max: nat)
    requires Streams(s, events, future, ts) && events != [] && events[0].Arrive? && Clean(s, events)
    ensures Clean(s, [events[0]]) && Streams(Happen(s, max, events[0]), events[1..], future, ts)
  {
    HappenClean(s, max, events);
    var now, later := events[0].packets, Arrived(events[1..]);
    Associative(now, later, future);
    Associative(s.packets, now, later + future);
  }

  /** One call of a run that is in step. */
  lemma StreamsGet(s: Session, events: seq<Event>, future: seq<Octets>, ts: seq<Transmission>, max: nat)
    requires Streams(s, events, future, ts) && events != [] && events[0].Get? && Clean(s, events)
    requires s.needPrefix ==> Prefix(s.sets).ok
    requires s.packets != [] && ts != [] ==> UnitFits(s.codec, max, |Lead(s)|, ts[0])
    ensures var prefix, r := Lead(s), Call(s, max);
            && !r.next.needPrefix && r.next.codec == s.codec && (s.packets != [] ==> ts != [])
            && if HoldsEnd(s.codec, s.packets) then
                 && ts != [] && r.result == Some(prefix + AnnexB(ts[0].Unit()))
                 && Streams(r.next, events[1..], future, ts[1..])
               else r.result == None && r.next.packets == [] && (s.packets != [] ==> |r.written| > |prefix|)
  {
    var later := Arrived(events[1..]);
    assert [] + later == later;
    InStep(s.codec, max, Lead(s), s.packets, later + future, ts);
  }

  /**
   In a run whose calls are all ready, the calls that find packets succeed, one unit each, in
   order, and the packets of the other units are still to come.
   */
  lemma {:induction false} ReadyRun(s: Session, events: seq<Event>, future: seq<Octets>, ts: seq<Transmission>, max: nat)
    requires Streams(s, events, future, ts) && Clean(s, events) && !s.needPrefix
    requires EveryCallReady(s, max, events, ts)
    ensures var n, r := Found(s, max, events), Run(s, max, events);
            && n <= |ts| && Successes(r.calls) == Units(ts[..n])
            && r.last.packets + future == AllPackets(s.codec, ts[n..])
    decreases |events|
  {
    if events == [] {
      assert [] + future == future && ts[0..] == ts && ts[..0] == [];
    } else {
      HappenClean(s, max, events);
      var t := Happen(s, max, events[0]);
      match events[0]
      case Arrive(_) =>
        StreamsArrive(s, events, future, ts, max);
        ReadyRun(t, events[1..], future, ts, max);
      case Get =>
        StreamsGet(s, events, future, ts, max);
        SuccessesCons(Call(s, max), Run(t, max, events[1..]).calls);
        if s.packets == [] {
          assert t == s;
          assert [] + Arrived(events[1..]) == Arrived(events[1..]);
          ReadyRun(t, events[1..], future, ts, max);
        } else {
          ReadyRun(t, events[1..], future, ts[1..], max);
          OneMoreUnit(ts, Found(t, max, events[1..]));
        }
    }
  }

  lemma OneMoreUnit(ts: seq<Transmission>, n: nat)
    requires n < |ts|
    ensures ts[n + 1..] == ts[1..][n..] && Units(ts[..n + 1]) == [AnnexB(ts[0].Unit())] + Units(ts[1..][..n])
    ensures [] + AnnexB(ts[0].Unit()) == AnnexB(ts[0].Unit())
  {
    assert ts[..n + 1][1..] == ts[1..][..n];
  }

  lemma SuccessesCons(c: CallResult, calls: seq<CallResult>)
    ensures Successes([c] + calls) == (if c.result.Some? then [c.result.value] else []) + Successes(calls)
    ensures Results([c] + calls) == [c.result] + Results(calls)
  {
    assert ([c] + calls)[1..] == calls;
  }

  // ---- Nothing is made up ----

  function Written(calls: seq<CallResult>): nat {
    if calls == [] then 0 else |calls[0].written| + Written(calls[1..])
  }

  lemma {:induction false} ContributionsAppend(c: Codec, a: seq<Octets>, b: seq<Octets>)
    requires Readable(c, a) && Readable(c, b)
    ensures Readable(c, a + b) && Contributions(c, a + b) == Contributions(c, a) + Contributions(c, b)
  {
    if a == [] {
      assert a + b == b;
    } else {
      assert a + b == [a[0]] + (a[1..] + b);
      ContributionsAppend(c, a[1..], b);
    }
  }

  /** A call writes no more than its packets carry. */
  lemma CallWrites(s: Session, max: nat)
    requires Readable(s.codec, s.packets) && !s.needPrefix
    ensures var r := Call(s, max);
            && Readable(s.codec, r.next.packets)
            && |r.written| + Contributions(s.codec, r.next.packets) <= Contributions(s.codec, s.packets)
  {
    var c, q := s.codec, s.packets;
    var k := Assemble(c, max, [], q).copied;
    CallKeepsReadable(s, max);
    Accounting(c, max, [], q);
    SplitJoin(q, k);
    ContributionsAppend(c, q[..k], q[k..]);
    if k < |q| {
      assert q[k..] == [q[k]] + q[k + 1..];
      ContributionsAppend(c, [q[k]], q[k + 1..]);
    }
  }

  lemma {:induction false} RunWrites(s: Session, max: nat, events: seq<Event>)
    requires Clean(s, events) && !s.needPrefix
    ensures var r := Run(s, max, events);
            && Readable(s.codec, r.last.packets)
            && Written(r.calls) + Contributions(s.codec, r.last.packets)
               <= Contributions(s.codec, s.packets) + Contributions(s.codec, Arrived(events))
    decreases |events|
  {
    if events == [] {
    } else {
      HappenClean(s, max, events);
      var t := Happen(s, max, events[0]);
      RunWrites(t, max, events[1..]);
      match events[0]
      case Arrive(packets) =>
        assert Arrived([events[0]]) == packets + Arrived([events[0]][1..]) == packets;
        ContributionsAppend(s.codec, s.packets, packets);
        ContributionsAppend(s.codec, packets, Arrived(events[1..]));
      case Get =>
        CallWrites(s, max);
        assert [] + Arrived(events[1..]) == Arrived(events[1..]);
        assert ([Call(s, max)] + Run(t, max, events[1..]).calls)[1..] == Run(t, max, events[1..]).calls;
    }
  }

  /** Successful calls return what they have written. */
  predicate Honest(calls: seq<CallResult>) {
    forall i :: 0 <= i < |calls| ==> calls[i].result.Some? ==> calls[i].result.value == calls[i].written
  }

  lemma {:induction false} RunHonest(s: Session, max: nat, events: seq<Event>)
    requires Clean(s, events)
    ensures Honest(Run(s, max, events).calls)
    decreases |events|
  {
    if events == [] {
    } else {
      HappenClean(s, max, events);
      RunHonest(Happen(s, max, events[0]), max, events[1..]);
    }
  }

  lemma {:induction false} SuccessesWritten(calls: seq<CallResult>)
    requires Honest(calls)
    ensures |Flatten(Successes(calls))| <= Written(calls)
  {
    if calls == [] {
    } else {
      SuccessesWritten(calls[1..]);
      var rest := Successes(calls[1..]);
      if calls[0].result.Some? {
        assert ([calls[0].result.value] + rest)[1..] == rest;
      } else {
        assert [] + rest == rest;
      }
    }
  }

  /** A call that returns null after it has written something: nobody gets those octets. */
  lemma {:induction false} WasteLoses(calls: seq<CallResult>, i: nat)
    requires Honest(calls) && i < |calls| && calls[i].result.None? && calls[i].written != []
    ensures |Flatten(Successes(calls))| < Written(calls)
  {
    LogCons(calls[0], calls[1..]);
    assert calls == [calls[0]] + calls[1..];
    if i == 0 {
      SuccessesWritten(calls[1..]);
    } else {
      WasteLoses(calls[1..], i - 1);
    }
  }

  lemma LogCons(c: CallResult, calls: seq<CallResult>)
    ensures Written([c] + calls) == |c.written| + Written(calls)
    ensures |Flatten(Successes([c] + calls))|
            == (if c.result.Some? then |c.result.value| else 0) + |Flatten(Successes(calls))|
  {
    assert ([c] + calls)[1..] == calls;
    var rest := Successes(calls);
    if c.result.Some? {
      assert ([c.result.value] + rest)[1..] == rest;
    } else {
      assert [] + rest == rest;
    }
  }

  /** The packets of some units carry just their Annex-B stream. */
  lemma {:induction false} StreamCarries(c: Codec, ts: seq<Transmission>)
    requires AllSendable(c, ts)
    ensures Readable(c, AllPackets(c, ts))
    ensures Contributions(c, AllPackets(c, ts)) == |Flatten(Units(ts))|
  {
    StreamReadable(c, ts);
    if ts == [] {
    } else {
      var ps := PacketsOf(c, ts[0]);
      var max := Room(c, ts[0]);
      LastPacketEnds(c, ts[0]);
      StreamCarries(c, ts[1..]);
      ContributionsAppend(c, ps, AllPackets(c, ts[1..]));
      RoundTrip(c, max, [], ts[0], []);
      assert ps + [] == ps && ps[..|ps|] == ps;
      Accounting(c, max, [], ps);
    }
  }

  lemma {:induction false} UnitsSplit(ts: seq<Transmission>, n: nat)
    requires n <= |ts|
    ensures |Flatten(Units(ts))| == |Flatten(Units(ts[..n]))| + |Flatten(Units(ts[n..]))|
    decreases n
  {
    if n == 0 {
      assert ts[..0] == [] && ts[0..] == ts;
    } else {
      assert ts[..n][1..] == ts[1..][..n - 1] && ts[n..] == ts[1..][n - 1..];
      UnitsSplit(ts[1..], n - 1);
    }
  }

  /** The successful calls are the first n units, and the packets of all others are left or still to come. */
  predicate Exact(r: Log, c: Codec, future: seq<Octets>, ts: seq<Transmission>, n: nat)
    requires AllSendable(c, ts)
  {
    n <= |ts| && Successes(r.calls) == Units(ts[..n]) && r.last.packets + future == AllPackets(c, ts[n..])
  }

  /** What is written and given to nobody is missing. */
  lemma WasteNotExact(s: Session, events: seq<Event>, future: seq<Octets>, ts: seq<Transmission>, max: nat, n: nat)
    requires Streams(s, events, future, ts) && Clean(s, events) && !s.needPrefix && n <= |ts|
    requires |Flatten(Successes(Run(s, max, events).calls))| < Written(Run(s, max, events).calls)
    ensures !Exact(Run(s, max, events), s.codec, future, ts, n)
  {
    var c, r := s.codec, Run(s, max, events);
    RunWrites(s, max, events);
    StreamsClean(s, events, future, ts);
    ContributionsAppend(c, Arrived(events), future);
    ContributionsAppend(c, s.packets, Arrived(events) + future);
    ContributionsAppend(c, r.last.packets, future);
    StreamCarries(c, ts);
    StreamCarries(c, ts[n..]);
    UnitsSplit(ts, n);
  }

  lemma {:induction false} UnitsCount(ts: seq<Transmission>)
    ensures |Units(ts)| == |ts| && forall i :: 0 <= i < |ts| ==> Units(ts)[i] == AnnexB(ts[i].Unit())
  {
    if ts == [] {
    } else {
      UnitsCount(ts[1..]);
    }
  }

  /** A first success that is not the first unit. */
  lemma WrongFirst(r: Log, first: CallResult, c: Codec, future: seq<Octets>, ts: seq<Transmission>, n: nat)
    requires AllSendable(c, ts) && n <= |ts| && first.result.Some?
    requires ts != [] ==> |first.result.value| < |AnnexB(ts[0].Unit())|
    ensures !Exact(r.After([first]), c, future, ts, n)
  {
    SuccessesCons(first, r.calls);
    UnitsCount(ts[..n]);
  }

  /** A first success that is the first unit. */
  lemma RightFirst(r: Log, first: CallResult, c: Codec, future: seq<Octets>, ts: seq<Transmission>, n: nat)
    requires AllSendable(c, ts) && n <= |ts| && ts != [] && first.result == Some(AnnexB(ts[0].Unit()))
    requires Exact(r.After([first]), c, future, ts, n)
    ensures n >= 1 && Exact(r, c, future, ts[1..], n - 1)
  {
    SuccessesCons(first, r.calls);
    if n > 0 {
      assert ts[..n][1..] == ts[1..][..n - 1] && ts[1..][n - 1..] == ts[n..];
      var unit, more := AnnexB(ts[0].Unit()), Units(ts[1..][..n - 1]);
      assert ([unit] + more)[1..] == more && ([unit] + Successes(r.calls))[1..] == Successes(r.calls);
    }
  }

  lemma NoFirst(r: Log, first: CallResult, c: Codec, future: seq<Octets>, ts: seq<Transmission>, n: nat)
    requires AllSendable(c, ts) && n <= |ts| && first.result.None?
    ensures Exact(r.After([first]), c, future, ts, n) <==> Exact(r, c, future, ts, n)
  {
    SuccessesCons(first, r.calls);
    assert [] + Successes(r.calls) == Successes(r.calls);
  }

  /** What a call makes of fragments without a body that a call before it has left. */
  lemma LeftoverCall(c: Codec, max: nat, h: Octets, parts: seq<Octets>, q: seq<Octets>, later: seq<Octets>, ts: seq<Transmission>)
    requires |h| == HeaderLength(c) && Fragments(c) && AllSendable(c, ts) && Readable(c, q) && q != []
    requires parts != [] && Cuttable(c, parts) && Flatten(parts) == []
    requires q + later == FuPackets(c, h, parts, false) + AllPackets(c, ts)
    ensures var r := Assemble(c, max, [], q);
            || (r.ok && r.out == [])
            || (!r.ok && r.rest == [] && |q| < |parts| && later == FuPackets(c, h, parts[|q|..], false) + AllPackets(c, ts))
  {
    var all, rest := FuPackets(c, h, parts, false), AllPackets(c, ts);
    FuPacketsCount(c, h, parts, false);
    StreamReadable(c, ts);
    Align(q, later, all, rest);
    if |q| >= |parts| {
      ReadableParts(c, all, q[|parts|..]);
      LeftoverWhole(c, max, h, parts, q[|parts|..]);
    } else {
      LeftoverPart(c, max, h, parts, q, later, rest);
    }
  }

  lemma LeftoverPart(c: Codec, max: nat, h: Octets, parts: seq<Octets>, q: seq<Octets>, later: seq<Octets>, rest: seq<Octets>)
    requires |h| == HeaderLength(c) && Fragments(c) && Readable(c, q) && Readable(c, rest) && 0 < |q| < |parts|
    requires Cuttable(c, parts) && Flatten(parts) == [] && q + later == FuPackets(c, h, parts, false) + rest
    ensures later == FuPackets(c, h, parts[|q|..], false) + rest
    ensures var r := Assemble(c, max, [], q); (r.ok && r.out == []) || (!r.ok && r.rest == [])
  {
    FuPacketsReadable(c, h, parts, false, rest);
    ReadableParts(c, q, later);
    LeftoverWhole(c, max, h, parts, rest);
    DryOrSame(c, max, [], q, later);
    BehindSome(c, h, parts, q, later, rest);
  }

  lemma BehindSome(c: Codec, h: Octets, parts: seq<Octets>, q: seq<Octets>, later: seq<Octets>, rest: seq<Octets>)
    requires |h| == HeaderLength(c) && 0 < |q| < |parts| && q + later == FuPackets(c, h, parts, false) + rest
    ensures later == FuPackets(c, h, parts[|q|..], false) + rest
  {
    FuPacketsDrop(c, h, parts, false, |q|);
    DropAppended(FuPackets(c, h, parts, false), rest, |q|);
    assert (q + later)[|q|..] == later;
  }

  lemma LeftoverWhole(c: Codec, max: nat, h: Octets, parts: seq<Octets>, rest: seq<Octets>)
    requires |h| == HeaderLength(c) && Fragments(c) && Readable(c, rest)
    requires parts != [] && Cuttable(c, parts) && Flatten(parts) == []
    ensures Readable(c, FuPackets(c, h, parts, false) + rest)
    ensures var r := Assemble(c, max, [], FuPackets(c, h, parts, false) + rest); r.ok && r.out == []
  {
    if TailExact(c, max, 0, parts) {
      TailWhole(c, max, [], h, parts, rest);
    } else {
      var j := TailTruncated(c, max, [], h, parts, rest);
    }
  }

  /** With such fragments in front the units behind them do not come out exactly. */
  lemma {:induction false} LeftoverNotExact(s: Session, events: seq<Event>, future: seq<Octets>, ts: seq<Transmission>, max: nat,
                                            n: nat, h: Octets, parts: seq<Octets>)
    requires |h| == HeaderLength(s.codec) && Fragments(s.codec) && AllSendable(s.codec, ts) && n <= |ts|
    requires Clean(s, events) && !s.needPrefix && parts != [] && Cuttable(s.codec, parts) && Flatten(parts) == []
    requires s.packets + (Arrived(events) + future) == FuPackets(s.codec, h, parts, false) + AllPackets(s.codec, ts)
    ensures !Exact(Run(s, max, events), s.codec, future, ts, n)
    decreases |events|
  {
    var c := s.codec;
    FuPacketsCount(c, h, parts, false);
    if events == [] {
      UnitsCount(ts[..n]);
      assert [] + future == future;
      assert n == 0 ==> ts[n..] == ts;
    } else {
      HappenClean(s, max, events);
      var t := Happen(s, max, events[0]);
      var later := Arrived(events[1..]) + future;
      match events[0]
      case Arrive(now) =>
        Associative(now, Arrived(events[1..]), future);
        Associative(s.packets, now, later);
        LeftoverNotExact(t, events[1..], future, ts, max, n, h, parts);
      case Get =>
        var call, r := Call(s, max), Run(t, max, events[1..]);
        assert [] + Arrived(events[1..]) == Arrived(events[1..]);
        if s.packets == [] {
          NoFirst(r, call, c, future, ts, n);
          LeftoverNotExact(t, events[1..], future, ts, max, n, h, parts);
        } else {
          LeftoverCall(c, max, h, parts, s.packets, later, ts);
          if call.result.Some? {
            WrongFirst(r, call, c, future, ts, n);
          } else {
            var k := |s.packets|;
            NoFirst(r, call, c, future, ts, n);
            FlattenDrop(parts, k);
            assert [] + later == later;
            LeftoverNotExact(t, events[1..], future, ts, max, n, h, parts[k..]);
          }
        }
    }
  }

  /** A first call that is not ready. */
  lemma UnreadyNotExact(s: Session, events: seq<Event>, future: seq<Octets>, ts: seq<Transmission>, max: nat, n: nat)
    requires Streams(s, events, future, ts) && Clean(s, events) && !s.needPrefix && n <= |ts|
    requires events != [] && events[0].Get? && !Ready(s, ts, max)
    ensures !Exact(Run(s, max, events), s.codec, future, ts, n)
  {
    HappenClean(s, max, events);
    var call, later := Call(s, max), Arrived(events[1..]) + future;
    var r := Run(call.next, max, events[1..]);
    assert [] + Arrived(events[1..]) == Arrived(events[1..]);
    assert ts != [];
    if UnitFits(s.codec, max, 0, ts[0]) {
      InStep(s.codec, max, [], s.packets, later, ts);
    } else {
      OutOfStep(s.codec, max, [], s.packets, later, ts);
      assert [] + AnnexB(ts[0].Unit()) == AnnexB(ts[0].Unit());
    }
    if call.result.None? {
      RunHonest(s, max, events);
      WasteLoses(Run(s, max, events).calls, 0);
      WasteNotExact(s, events, future, ts, max, n);
    } else if |call.result.value| < |AnnexB(ts[0].Unit())| {
      WrongFirst(r, call, s.codec, future, ts, n);
    } else if Exact(r.After([call]), s.codec, future, ts, n) {
      var parts: seq<Octets> :| parts != [] && Cuttable(s.codec, parts) && Flatten(parts) == []
        && call.next.packets + later == FuPackets(s.codec, ts[0].header, parts, false) + AllPackets(s.codec, ts[1..]);
      RightFirst(r, call, s.codec, future, ts, n);
      LeftoverNotExact(call.next, events[1..], future, ts[1..], max, n - 1, ts[0].header, parts);
    }
  }

  lemma {:induction false} NotReadyNotExact(s: Session, events: seq<Event>, future: seq<Octets>, ts: seq<Transmission>, max: nat, n: nat)
    requires Streams(s, events, future, ts) && Clean(s, events) && !s.needPrefix && n <= |ts|
    requires !EveryCallReady(s, max, events, ts)
    ensures !Exact(Run(s, max, events), s.codec, future, ts, n)
    decreases |events|
  {
    HappenClean(s, max, events);
    var t := Happen(s, max, events[0]);
    match events[0]
    case Arrive(_) =>
      StreamsArrive(s, events, future, ts, max);
      NotReadyNotExact(t, events[1..], future, ts, max, n);
    case Get =>
      if !Ready(s, ts, max) {
        UnreadyNotExact(s, events, future, ts, max, n);
      } else {
        var call, r := Call(s, max), Run(t, max, events[1..]);
        StreamsGet(s, events, future, ts, max);
        if s.packets == [] {
          assert t == s && [] + Arrived(events[1..]) == Arrived(events[1..]);
          NoFirst(r, call, s.codec, future, ts, n);
          NotReadyNotExact(t, events[1..], future, ts, max, n);
        } else if Exact(r.After([call]), s.codec, future, ts, n) {
          assert [] + AnnexB(ts[0].Unit()) == AnnexB(ts[0].Unit());
          RightFirst(r, call, s.codec, future, ts, n);
          NotReadyNotExact(t, events[1..], future, ts[1..], max, n - 1);
        }
      }
  }

  /**
   However packets arrive and calls are made, the run yields exactly the units, in order, with none
   lost and none cut, if and only if every call finds either no packet or all packets of a unit that fits.
   */
  lemma ExactIffReady(s: Session, events: seq<Event>, future: seq<Octets>, ts: seq<Transmission>, max: nat)
    requires Streams(s, events, future, ts) && Clean(s, events) && !s.needPrefix
    ensures (exists n :: 0 <= n <= |ts| && Exact(Run(s, max, events), s.codec, future, ts, n))
            <==> EveryCallReady(s, max, events, ts)
  {
    if EveryCallReady(s, max, events, ts) {
      ReadyRun(s, events, future, ts, max);
      assert Exact(Run(s, max, events), s.codec, future, ts, Found(s, max, events));
    } else {
      forall n | 0 <= n <= |ts|
        ensures !Exact(Run(s, max, events), s.codec, future, ts, n)
      {
        NotReadyNotExact(s, events, future, ts, max, n);
      }
    }
  }

  // ---- The parameter sets ----

  /** How many calls put the parameter sets into the buffer. */
  function Insertions(s: Session, max: nat, events: seq<Event>): nat
    requires Clean(s, events)
    decreases |events|
  {
    if events == [] then 0
    else
      HappenClean(s, max, events);
      (if events[0].Get? && s.needPrefix && Prefix(s.sets).ok then 1 else 0)
      + Insertions(Happen(s, max, events[0]), max, events[1..])
  }

  /** Over any packets, arrivals and calls the parameter sets are inserted at most once. */
  lemma {:induction false} AtMostOnce(s: Session, max: nat, events: seq<Event>)
    requires Clean(s, events)
    ensures Insertions(s, max, events) <= if s.needPrefix && Prefix(s.sets).ok then 1 else 0
    decreases |events|
  {
    if events == [] {
    } else {
      HappenClean(s, max, events);
      AtMostOnce(Happen(s, max, events[0]), max, events[1..]);
    }
  }

  /** They stand at the front of what that call writes, and a call that returns null still uses them up. */
  lemma PrefixInFront(s: Session, max: nat)
    requires Readable(s.codec, s.packets) && s.needPrefix && Prefix(s.sets).ok
    ensures Prefix(s.sets).bytes <= Call(s, max).written && !Call(s, max).next.needPrefix
    ensures s.packets == [] ==> Call(s, max).result == None
  {
    Accounting(s.codec, max, Prefix(s.sets).bytes, s.packets);
  }

  /** Some call that inserts the parameter sets succeeds. */
  predicate Delivered(s: Session, max: nat, events: seq<Event>)
    requires Clean(s, events)
    decreases |events|
  {
    events != [] && (
      HappenClean(s, max, events);
      || (events[0].Get? && s.needPrefix && Prefix(s.sets).ok && Call(s, max).result.Some?)
      || Delivered(Happen(s, max, events[0]), max, events[1..]))
  }

  /** What the first call finds in the queue. */
  function FirstFound(q: seq<Octets>, events: seq<Event>): Option<seq<Octets>>
    decreases |events|
  {
    if events == [] then None
    else
      match events[0]
      case Arrive(packets) => FirstFound(q + packets, events[1..])
      case Get => Some(q)
  }

  predicate FirstCallReady(s: Session, events: seq<Event>) {
    var q := FirstFound(s.packets, events);
    q.Some? && Readable(s.codec, q.value) && HoldsEnd(s.codec, q.value)
  }

  /** The parameter sets, if due, and the first unit fit. */
  predicate PrefixFits(s: Session, ts: seq<Transmission>, max: nat)
    requires AllSendable(s.codec, ts)
  {
    s.needPrefix && Prefix(s.sets).ok && (ts != [] ==> UnitFits(s.codec, max, |Prefix(s.sets).bytes|, ts[0]))
  }

  lemma {:induction false} NeverDelivered(s: Session, max: nat, events: seq<Event>)
    requires Clean(s, events) && !s.needPrefix
    ensures !Delivered(s, max, events)
    decreases |events|
  {
    if events == [] {
    } else {
      HappenClean(s, max, events);
      NeverDelivered(Happen(s, max, events[0]), max, events[1..]);
    }
  }

  /** They are delivered if and only if the first call that is made finds all packets of a unit. */
  lemma {:induction false} DeliveredIff(s: Session, events: seq<Event>, future: seq<Octets>, ts: seq<Transmission>, max: nat)
    requires Streams(s, events, future, ts) && Clean(s, events) && PrefixFits(s, ts, max)
    ensures Delivered(s, max, events) <==> FirstCallReady(s, events)
    decreases |events|
  {
    if events == [] {
    } else {
      HappenClean(s, max, events);
      match events[0]
      case Arrive(_) =>
        StreamsArrive(s, events, future, ts, max);
        DeliveredIff(Happen(s, max, events[0]), events[1..], future, ts, max);
      case Get =>
        StreamsGet(s, events, future, ts, max);
        NeverDelivered(Call(s, max).next, max, events[1..]);
    }
  }

  /** The same packets and no parameter sets due: the same results, whatever the sets are. */
  lemma {:induction false} SetsForgotten(s: Session, t: Session, max: nat, events: seq<Event>)
    requires Clean(s, events) && !s.needPrefix && t == s.(sets := t.sets)
    ensures Results(Run(s, max, events).calls) == Results(Run(t, max, events).calls)
    decreases |events|
  {
    if events == [] {
    } else {
      HappenClean(s, max, events);
      HappenClean(t, max, events);
      var u, v := Happen(s, max, events[0]), Happen(t, max, events[0]);
      SetsForgotten(u, v, max, events[1..]);
      SuccessesCons(Call(s, max), Run(u, max, events[1..]).calls);
      SuccessesCons(Call(t, max), Run(v, max, events[1..]).calls);
    }
  }

  /** If the first call is too early, no result depends on the parameter sets: they are in none. */
  lemma {:induction false} PrefixLost(s: Session, events: seq<Event>, future: seq<Octets>, ts: seq<Transmission>, max: nat,
                                      others: seq<Option<Octets>>)
    requires Streams(s, events, future, ts) && Clean(s, events) && PrefixFits(s, ts, max)
    requires !FirstCallReady(s, events)
    ensures var none := s.(needPrefix := false, sets := others);
            && Clean(none, events)
            && Results(Run(s, max, events).calls) == Results(Run(none, max, events).calls)
    decreases |events|
  {
    if events == [] {
    } else {
      var none := s.(needPrefix := false, sets := others);
      HappenClean(s, max, events);
      HappenClean(none, max, events);
      var u, v := Happen(s, max, events[0]), Happen(none, max, events[0]);
      match events[0]
      case Arrive(_) =>
        StreamsArrive(s, events, future, ts, max);
        PrefixLost(u, events[1..], future, ts, max, others);
      case Get =>
        StreamsGet(s, events, future, ts, max);
        StreamsGet(none, events, future, ts, max);
        SetsForgotten(u, v, max, events[1..]);
        SuccessesCons(Call(s, max), Run(u, max, events[1..]).calls);
        SuccessesCons(Call(none, max), Run(v, max, events[1..]).calls);
    }
  }

  lemma UnitsBehindPrefix(ts: seq<Transmission>, n: nat, prefix: Octets)
    requires n < |ts|
    ensures ts[1..n + 1] == ts[1..][..n] && ts[n + 1..] == ts[1..][n..]
    ensures Flatten([prefix + AnnexB(ts[0].Unit())] + Units(ts[1..][..n])) == prefix + Flatten(Units(ts[..n + 1]))
  {
    var unit := AnnexB(ts[0].Unit());
    var more := Units(ts[1..][..n]);
    assert ts[..n + 1][1..] == ts[1..][..n];
    assert ([prefix + unit] + more)[1..] == more && ([unit] + more)[1..] == more;
    Associative(prefix, unit, Flatten(more));
  }

  lemma WholeRunFromGet(s: Session, events: seq<Event>, future: seq<Octets>, ts: seq<Transmission>, max: nat)
    requires Streams(s, events, future, ts) && Clean(s, events) && PrefixFits(s, ts, max)
    requires EveryCallReady(s, max, events, ts) && FirstCallReady(s, events) && events[0].Get?
    ensures var n, r, prefix := Found(s, max, events), Run(s, max, events), Prefix(s.sets).bytes;
            && 1 <= n <= |ts|
            && Successes(r.calls) == [prefix + AnnexB(ts[0].Unit())] + Units(ts[1..n])
            && Flatten(Successes(r.calls)) == prefix + Flatten(Units(ts[..n]))
            && r.last.packets + future == AllPackets(s.codec, ts[n..])
  {
    HappenClean(s, max, events);
    var t := Call(s, max).next;
    StreamsGet(s, events, future, ts, max);
    ReadyRun(t, events[1..], future, ts[1..], max);
    SuccessesCons(Call(s, max), Run(t, max, events[1..]).calls);
    UnitsBehindPrefix(ts, Found(t, max, events[1..]), Prefix(s.sets).bytes);
  }

  /**
   The whole run: if every call is ready and the first one finds a unit, the outputs put together are
   the parameter sets, which were due, and the Annex-B stream of the units found.
   */
  lemma {:induction false} WholeRun(s: Session, events: seq<Event>, future: seq<Octets>, ts: seq<Transmission>, max: nat)
    requires Streams(s, events, future, ts) && Clean(s, events) && PrefixFits(s, ts, max)
    requires EveryCallReady(s, max, events, ts) && FirstCallReady(s, events)
    ensures var n, r, prefix := Found(s, max, events), Run(s, max, events), Prefix(s.sets).bytes;
            && 1 <= n <= |ts|
            && Successes(r.calls) == [prefix + AnnexB(ts[0].Unit())] + Units(ts[1..n])
            && Flatten(Successes(r.calls)) == prefix + Flatten(Units(ts[..n]))
            && r.last.packets + future == AllPackets(s.codec, ts[n..])
    decreases |events|
  {
    match events[0]
    case Arrive(_) =>
      HappenClean(s, max, events);
      StreamsArrive(s, events, future, ts, max);
      WholeRun(Happen(s, max, events[0]), events[1..], future, ts, max);
    case Get => WholeRunFromGet(s, events, future, ts, max);
  }
}
