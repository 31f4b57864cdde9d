/**
 What the two sends per frame of SendRTPRTCPData leave on the wire to one destination, over any
 schedule of what send does, and what a decoder at the other end makes of it. A schedule that is
 used up takes all bytes.
 */
module FrameSending {
  import opened Common
  import opened Interleaved
  import opened Resynchronisation

  datatype SendOutcome = Takes(count: nat) | Fails

  datatype Peer = Peer(sent: seq<byte>, schedule: seq<SendOutcome>)

  /** Whether send returned a count and not an error, and the peer afterwards. */
  datatype SendResult = SendResult(ok: bool, peer: Peer)

  function SendOnce(p: Peer, bytes: seq<byte>): SendResult {
    if p.schedule == [] then SendResult(true, p.(sent := p.sent + bytes))
    else
      var after := p.(schedule := p.schedule[1..]);
      match p.schedule[0]
      case Takes(n) => SendResult(true, after.(sent := p.sent + bytes[..Min(n, |bytes|)]))
      case Fails => SendResult(false, after)
  }

  /** Header and payload; only an error is looked at, not how much was taken. */
  function SendFrame(p: Peer, data: seq<byte>): SendResult
    requires |data| <= MAX_PAYLOAD
  {
    var h := SendOnce(p, FrameHeader(1, |data|));
    if !h.ok then h else SendOnce(h.peer, data)
  }

  /** No payload is too big for a frame. */
  predicate Sendable(payloads: seq<seq<byte>>) {
    forall p :: p in payloads ==> |p| <= 65535
  }

  /** One frame after the other, until one fails and the destination is forgotten. */
  function SendFrames(p: Peer, payloads: seq<seq<byte>>): SendResult
    requires Sendable(payloads)
    decreases |payloads|
  {
    if payloads == [] then SendResult(true, p)
    else
      var f := SendFrame(p, payloads[0]);
      if f.ok then SendFrames(f.peer, payloads[1..]) else f
  }

  lemma {:induction false} SendFramesSnoc(p: Peer, payloads: seq<seq<byte>>, data: seq<byte>)
    requires Sendable(payloads) && |data| <= MAX_PAYLOAD
    ensures Sendable(payloads + [data])
    ensures SendFrames(p, payloads + [data]) ==
            var r := SendFrames(p, payloads);
            if r.ok then SendFrame(r.peer, data) else r
    decreases |payloads|
  {
    var all := payloads + [data];
    if payloads == [] {
      assert all[1..] == [];
    } else {
      assert all[1..] == payloads[1..] + [data];
      var f := SendFrame(p, payloads[0]);
      SendFramesSnoc(f.peer, payloads[1..], data);
    }
  }

  // ---- When the frames are on the wire ----

  function Later(schedule: seq<SendOutcome>): seq<SendOutcome> {
    if schedule == [] then [] else schedule[1..]
  }

  /** The next send takes all of n bytes. */
  predicate TakesAll(schedule: seq<SendOutcome>, n: nat) {
    schedule == [] || (schedule[0].Takes? && schedule[0].count >= n)
  }

  /** No send fails and none takes only a part. */
  predicate Smooth(schedule: seq<SendOutcome>, payloads: seq<seq<byte>>)
    decreases |payloads|
  {
    payloads == [] || (
      && TakesAll(schedule, 4)
      && TakesAll(Later(schedule), |payloads[0]|)
      && Smooth(Later(Later(schedule)), payloads[1..]))
  }

  /** The wire gets no more than the bytes, and all of them exactly if the send takes them. */
  lemma OneSend(p: Peer, bytes: seq<byte>)
    ensures var r := SendOnce(p, bytes);
            && r.peer.schedule == Later(p.schedule)
            && p.sent <= r.peer.sent <= p.sent + bytes
            && (TakesAll(p.schedule, |bytes|) ==> r.ok && r.peer.sent == p.sent + bytes)
            && (r.peer.sent == p.sent + bytes && (r.ok || bytes != []) ==> TakesAll(p.schedule, |bytes|))
  {
    assert bytes[..|bytes|] == bytes;
    assert p.sent + [] == p.sent;
  }

  lemma OneFrame(p: Peer, data: seq<byte>)
    requires |data| <= MAX_PAYLOAD
    ensures var r, all := SendFrame(p, data), p.sent + EncodeFrame(1, data);
            var smooth := TakesAll(p.schedule, 4) && TakesAll(Later(p.schedule), |data|);
            && p.sent <= r.peer.sent && |r.peer.sent| <= |all|
            && (r.ok ==> r.peer.schedule == Later(Later(p.schedule)))
            && (smooth ==> r.ok && r.peer.sent == all)
            && (|r.peer.sent| == |all| ==> r.peer.sent == all)
            && (|r.peer.sent| == |all| && (r.ok || data != []) ==> smooth)
  {
    var header := FrameHeader(1, |data|);
    var h := SendOnce(p, header);
    OneSend(p, header);
    Associative(p.sent, header, data);
    if h.ok {
      OneSend(h.peer, data);
    }
  }

  /**
   The wire never gets more bytes than the frames have. It gets all frames from a destination that is
   kept if and only if every send takes all its bytes; the last frame may also be lost with its
   destination after it has gone out, if it has no payload.
   */
  lemma {:induction false} WireIff(p: Peer, payloads: seq<seq<byte>>)
    requires Sendable(payloads)
    ensures var r, all := SendFrames(p, payloads), p.sent + Sent(payloads);
            && p.sent <= r.peer.sent && |r.peer.sent| <= |all|
            && (|r.peer.sent| == |all| ==> r.peer.sent == all)
            && (r.ok && r.peer.sent == all <==> Smooth(p.schedule, payloads))
            && (r.peer.sent == all && !r.ok ==> payloads != [] && payloads[|payloads| - 1] == [])
    decreases |payloads|
  {
    if payloads == [] {
      assert p.sent + [] == p.sent;
    } else {
      var data, more := payloads[0], payloads[1..];
      var f := SendFrame(p, data);
      OneFrame(p, data);
      Associative(p.sent, EncodeFrame(1, data), Sent(more));
      if f.ok {
        WireIff(f.peer, more);
      } else {
        NothingSent(more);
      }
    }
  }

  lemma {:induction false} NothingSent(payloads: seq<seq<byte>>)
    requires Sendable(payloads)
    ensures |Sent(payloads)| >= 4 * |payloads|
    ensures Sent(payloads) == [] <==> payloads == []
  {
    if payloads == [] {
    } else {
      NothingSent(payloads[1..]);
    }
  }

  // ---- What arrives ----

  lemma {:induction false} WeightOfFrames(payloads: seq<seq<byte>>)
    requires Sendable(payloads)
    ensures Weight(ControlFrames(payloads)) == |Sent(payloads)|
  {
    if payloads == [] {
    } else {
      var all := ControlFrames(payloads);
      assert all[1..] == ControlFrames(payloads[1..]);
      WeightOfFrames(payloads[1..]);
    }
  }

  /** A decoder at a frame start that has no callback set. */
  predicate Listening(d: Decoder) {
    AtFrameStart(d) && !d.armed
  }

  /** The decoder makes just these payloads of the wire, in order and flagged RTCP. */
  predicate AllArrive(d: Decoder, wire: seq<byte>, payloads: seq<seq<byte>>) {
    Drain(d, wire).out == ControlFrames(payloads)
  }

  /** Every send takes all its bytes, and the last payload is not empty. */
  predicate Undisturbed(schedule: seq<SendOutcome>, payloads: seq<seq<byte>>) {
    Smooth(schedule, payloads) && (payloads == [] || payloads[|payloads| - 1] != [])
  }

  /** All payloads arrive, and nothing else, if and only if nothing disturbs them. */
  lemma ArrivesIff(d: Decoder, schedule: seq<SendOutcome>, payloads: seq<seq<byte>>)
    requires Listening(d) && Sendable(payloads)
    ensures AllArrive(d, SendFrames(Peer([], schedule), payloads).peer.sent, payloads)
            <==> Undisturbed(schedule, payloads)
  {
    var r := SendFrames(Peer([], schedule), payloads);
    WireIff(Peer([], schedule), payloads);
    assert [] + Sent(payloads) == Sent(payloads);
    WeightOfFrames(payloads);
    WeightBound(d, r.peer.sent);
    if |r.peer.sent| == |Sent(payloads)| {
      WriteReadRoundTrip(d, payloads);
    }
  }

  /** A send that takes one byte of two: the next frame is taken for the rest, and what is left of it for text. */
  lemma PartialSend(d: Decoder, a: byte, b: byte, x: byte)
    requires Listening(d)
    ensures var wire := SendFrames(Peer([], [Takes(4), Takes(1)]), [[a, b], [x]]).peer.sent;
            wire == [36, 1, 0, 2, a, 36, 1, 0, 1, x] && Drain(d, wire).out == [Frame([a, 36], false)]
  {
    PartialWire(a, b, x);
    CutStream(d, a, x);
  }

  lemma PartialWire(a: byte, b: byte, x: byte)
    ensures SendFrames(Peer([], [Takes(4), Takes(1)]), [[a, b], [x]]).peer.sent
            == [36, 1, 0, 2, a, 36, 1, 0, 1, x]
  {
    TwoFrames(Peer([], [Takes(4), Takes(1)]), [a, b], [x]);
    FirstIsCut(a, b);
    SecondIsWhole(Peer([36, 1, 0, 2, a], []), x);
  }

  lemma TwoFrames(p: Peer, first: seq<byte>, second: seq<byte>)
    requires |first| <= MAX_PAYLOAD && |second| <= MAX_PAYLOAD
    ensures SendFrames(p, [first, second]) ==
            var f := SendFrame(p, first);
            if f.ok then SendFrame(f.peer, second) else f
  {
    assert [first] + [second] == [first, second] && [first][1..] == [];
    SendFramesSnoc(p, [first], second);
  }

  lemma CutStream(d: Decoder, a: byte, x: byte)
    requires Listening(d)
    ensures Drain(d, [36, 1, 0, 2, a, 36, 1, 0, 1, x]).out == [Frame([a, 36], false)]
  {
    var p, rest: seq<byte> := [a, 36], [1, 0, 1, x];
    assert FrameHeader(1, 2) == [36, 1, 0, 2];
    assert EncodeFrame(1, p) + rest == [36, 1, 0, 2, a, 36, 1, 0, 1, x];
    FrameTurns(d, 1, p, rest);
    RestIsText(Decoder(RecvLen, 2, false, d.armed), x);
  }

  lemma RestIsText(d: Decoder, x: byte)
    requires Listening(d)
    ensures Drain(d, [1, 0, 1, x]).out == []
  {
    NoMarkerFrameless([1, 0, 1], x);
    assert [1, 0, 1] + [x] == [1, 0, 1, x];
    TextOnly(d, [1, 0, 1] + [x]);
  }

  lemma {:induction false} NoMarkerFrameless(t: seq<byte>, x: byte)
    requires forall i :: 0 <= i < |t| ==> !IsMarker(t[i])
    ensures Frameless(t + [x])
  {
    if t == [] {
      assert t + [x] == [x] && [x][1..] == [];
    } else {
      NoMarkerFrameless(t[1..], x);
      assert (t + [x])[1..] == t[1..] + [x];
    }
  }

  lemma FirstIsCut(a: byte, b: byte)
    ensures SendFrame(Peer([], [Takes(4), Takes(1)]), [a, b]) == SendResult(true, Peer([36, 1, 0, 2, a], []))
  {
    var h: seq<byte> := [36, 1, 0, 2];
    var first: seq<byte> := [a, b];
    var p, p1 := Peer([], [Takes(4), Takes(1)]), Peer(h, [Takes(1)]);
    assert FrameHeader(1, 2) == h;
    assert p.schedule[1..] == [Takes(1)] && p1.schedule[1..] == [];
    assert h[..4] == h && [] + h == h && first[..1] == [a];
    assert SendOnce(p, h) == SendResult(true, p1);
    assert SendOnce(p1, first) == SendResult(true, Peer(h + [a], []));
  }

  lemma SecondIsWhole(p: Peer, x: byte)
    requires p.schedule == []
    ensures SendFrame(p, [x]) == SendResult(true, p.(sent := p.sent + [36, 1, 0, 1, x]))
  {
    assert FrameHeader(1, 1) == [36, 1, 0, 1];
    assert p.sent + [36, 1, 0, 1] + [x] == p.sent + [36, 1, 0, 1, x];
  }
}
