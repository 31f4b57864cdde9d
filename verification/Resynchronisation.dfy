/**
 What the interleaved decoder makes of a stream that mixes frames with RTSP text: which
 text runs leave it in step, which frames it delivers, and what an armed callback takes.
 */
module Resynchronisation {
  import opened Common
  import opened Interleaved
  import HeaderLines

  const MAX_PAYLOAD := 65535

  /** A text run, or one frame of section 10.12 of RFC 2326. */
  datatype Item = Text(bytes: seq<byte>) | Packet(channel: byte, payload: seq<byte>)

  function HighByte(n: nat): byte
    requires n <= MAX_PAYLOAD
  {
    n / 256 % 256
  }

  function LowByte(n: nat): byte
    requires n <= MAX_PAYLOAD
  {
    n % 256
  }

  function FrameHeader(channel: byte, length: nat): seq<byte>
    requires length <= MAX_PAYLOAD
  {
    [DOLLAR, channel, HighByte(length), LowByte(length)]
  }

  function EncodeFrame(channel: byte, payload: seq<byte>): seq<byte>
    requires |payload| <= MAX_PAYLOAD
  {
    FrameHeader(channel, |payload|) + payload
  }

  /** The two bytes at which the decoder looks at the next byte as well. */
  predicate IsMarker(b: byte) {
    b == '$' as int || b == 'R' as int
  }

  /** The bytes behind a dollar sign that make the decoder take a frame. */
  predicate IsChannel(b: byte) {
    b == 0 || b == 1 || b == 'T' as int
  }

  /** No pair that the decoder looks at in the run is the start of a frame. */
  predicate Frameless(t: seq<byte>)
    decreases |t|
  {
    if t == [] then true
    else if !IsMarker(t[0]) then Frameless(t[1..])
    else |t| == 1 || (!(t[0] == '$' as int && IsChannel(t[1])) && Frameless(t[2..]))
  }

  function TrailingMarkers(t: seq<byte>): nat {
    if t == [] || !IsMarker(t[|t| - 1]) then 0 else 1 + TrailingMarkers(t[..|t| - 1])
  }

  /** The run ends in an even number of markers, possibly none. */
  predicate KeepsStep(t: seq<byte>) {
    TrailingMarkers(t) % 2 == 0
  }

  predicate GoodPacket(i: Item)
    requires i.Packet?
  {
    IsChannel(i.channel) && |i.payload| <= MAX_PAYLOAD
  }

  predicate Good(i: Item) {
    match i
    case Text(t) => Frameless(t)
    case Packet(_, _) => GoodPacket(i)
  }

  function Bytes(i: Item): seq<byte>
    requires Good(i)
  {
    match i
    case Text(t) => t
    case Packet(c, p) => EncodeFrame(c, p)
  }

  function Encode(items: seq<Item>): seq<byte>
    requires forall i :: i in items ==> Good(i)
  {
    if items == [] then [] else Bytes(items[0]) + Encode(items[1..])
  }

  /** Every text run that something follows keeps the decoder in step. */
  predicate InStep(items: seq<Item>)
    requires forall i :: i in items ==> Good(i)
  {
    items == [] || (
      && (items[0].Text? && Encode(items[1..]) != [] ==> KeepsStep(items[0].bytes))
      && InStep(items[1..]))
  }

  function Frames(items: seq<Item>): seq<Output> {
    if items == [] then []
    else
      match items[0]
      case Text(_) => Frames(items[1..])
      case Packet(c, p) => [Frame(p, c == 0)] + Frames(items[1..])
  }

  /** The stream ends with the header of an empty frame, so no byte announces its payload. */
  predicate Starved(items: seq<Item>)
    requires forall i :: i in items ==> Good(i)
  {
    items != [] && (
      || Starved(items[1..])
      || (items[0].Packet? && items[0].payload == [] && Encode(items[1..]) == []))
  }

  function Delivered(items: seq<Item>): seq<Output>
    requires forall i :: i in items ==> Good(i)
  {
    var all := Frames(items);
    if Starved(items) && all != [] then all[..|all| - 1] else all
  }

  // ---- Text runs ----

  /** The decoder reaches the end of the run in the middle of a pair of bytes. */
  predicate LeavesHalf(t: seq<byte>)
    decreases |t|
  {
    if t == [] then false
    else if !IsMarker(t[0]) then LeavesHalf(t[1..])
    else |t| == 1 || LeavesHalf(t[2..])
  }

  lemma {:induction false} TrailingMarkersOfCons(x: byte, u: seq<byte>)
    ensures TrailingMarkers(u) <= |u|
    ensures TrailingMarkers([x] + u) ==
            if IsMarker(x) && TrailingMarkers(u) == |u| then |u| + 1 else TrailingMarkers(u)
  {
    if u == [] {
      assert [x] + u == [x];
      assert [x][..0] == [];
    } else {
      var v := u[..|u| - 1];
      TrailingMarkersOfCons(x, v);
      assert ([x] + u)[..|u|] == [x] + v;
    }
  }

  /** Step is lost exactly when the run ends in an odd number of markers. */
  lemma {:induction false} LeavesHalfIffOdd(t: seq<byte>)
    ensures LeavesHalf(t) <==> !KeepsStep(t)
    decreases |t|
  {
    if t == [] {
    } else {
      assert t == [t[0]] + t[1..];
      TrailingMarkersOfCons(t[0], t[1..]);
      if !IsMarker(t[0]) {
        LeavesHalfIffOdd(t[1..]);
      } else if |t| == 1 {
        assert t[1..] == [];
      } else {
        assert t[1..] == [t[1]] + t[2..];
        TrailingMarkersOfCons(t[1], t[2..]);
        LeavesHalfIffOdd(t[2..]);
      }
    }
  }

  predicate AtFrameStart(d: Decoder) {
    d.state == RecvLen
  }

  lemma {:induction false} TooShort(d: Decoder, s: seq<byte>)
    requires AtFrameStart(d) && |s| < 4
    ensures Drain(d, s).out == []
    decreases |s|
  {
    if s != [] && NextTurn(d, s).Moved? {
      TooShort(d, s[NextTurn(d, s).used..]);
    }
  }

  predicate IsResponse(r: seq<byte>) {
    |r| >= 4 && r[0] == 'R' as int && r[1] == 'T' as int && r[2] == 'S' as int && r[3] == 'P' as int
  }

  lemma ResponseStarts(s: seq<byte>)
    requires |s| >= 4
    ensures IsResponse(s) <==> s[..4] == RTSP
  {
    assert s[..4] == [s[0], s[1], s[2], s[3]];
  }

  /** The next turn at a marker that starts no frame, with no callback or nothing for it to take. */
  lemma PairTurn(d: Decoder, s: seq<byte>)
    requires AtFrameStart(d) && |s| >= 2 && IsMarker(s[0]) && !(s[0] == DOLLAR && IsChannel(s[1]))
    requires !d.armed || !IsResponse(s)
    ensures Drain(d, s).out == Drain(d, s[2..]).out
  {
    if |s| >= 4 {
      ResponseStarts(s);
      assert NextTurn(d, s) == Moved(2, d, []);
    } else if NextTurn(d, s).Wait? {
      TooShort(d, s[2..]);
    }
  }

  /** Nothing that the decoder looks at in a run t, in front of the rest, starts with "RTSP". */
  predicate Silent(t: seq<byte>, rest: seq<byte>)
    decreases |t|
  {
    if t == [] then true
    else if !IsMarker(t[0]) then Silent(t[1..], rest)
    else !IsResponse(t + rest) && (|t| == 1 || Silent(t[2..], rest))
  }

  /** A run that keeps step is skipped without trace, unless an armed callback finds a response in it. */
  lemma {:induction false} SkipText(d: Decoder, t: seq<byte>, rest: seq<byte>)
    requires AtFrameStart(d) && Frameless(t) && (!d.armed || Silent(t, rest))
    requires !LeavesHalf(t)
    ensures Drain(d, t + rest).out == Drain(d, rest).out
    decreases |t|
  {
    var s := t + rest;
    if t == [] {
      assert s == rest;
    } else if !IsMarker(t[0]) {
      DropAppended(t, rest, 1);
      assert NextTurn(d, s) == Moved(1, d, []);
      SkipText(d, t[1..], rest);
    } else {
      DropAppended(t, rest, 2);
      PairTurn(d, s);
      SkipText(d, t[2..], rest);
    }
  }

  /** A run that does not keep step takes the byte after it along, unless the two start a frame. */
  lemma {:induction false} SkipTextAndOne(d: Decoder, t: seq<byte>, rest: seq<byte>)
    requires AtFrameStart(d) && Frameless(t) && !d.armed
    requires LeavesHalf(t) && rest != [] && !(t[|t| - 1] == DOLLAR && IsChannel(rest[0]))
    ensures Drain(d, t + rest).out == Drain(d, rest[1..]).out
    decreases |t|
  {
    var s := t + rest;
    if !IsMarker(t[0]) {
      DropAppended(t, rest, 1);
      assert NextTurn(d, s) == Moved(1, d, []);
      SkipTextAndOne(d, t[1..], rest);
    } else if |t| == 1 {
      PairTurn(d, s);
      assert s[2..] == rest[1..];
    } else {
      DropAppended(t, rest, 2);
      PairTurn(d, s);
      SkipTextAndOne(d, t[2..], rest);
    }
  }

  /** Text alone, in step or not, delivers nothing. */
  lemma {:induction false} TextOnly(d: Decoder, t: seq<byte>)
    requires AtFrameStart(d) && Frameless(t) && !d.armed
    ensures Drain(d, t).out == []
    decreases |t|
  {
    if |t| < 4 {
      TooShort(d, t);
    } else if !IsMarker(t[0]) {
      assert NextTurn(d, t) == Moved(1, d, []);
      TextOnly(d, t[1..]);
    } else {
      PairTurn(d, t);
      TextOnly(d, t[2..]);
    }
  }

  // ---- Frames ----

  /** The length survives the split into two bytes. */
  lemma LengthRoundTrip(n: nat)
    requires n <= MAX_PAYLOAD
    ensures FieldValue(HighByte(n), LowByte(n)) == n
  {
  }

  lemma FrameHeaderTurn(d: Decoder, c: byte, n: nat, tail: seq<byte>)
    requires AtFrameStart(d) && IsChannel(c) && n <= MAX_PAYLOAD
    ensures Drain(d, FrameHeader(c, n) + tail).out == Drain(Decoder(RecvData, n, c == 0, d.armed), tail).out
  {
    var s := FrameHeader(c, n) + tail;
    LengthRoundTrip(n);
    assert s[0] == DOLLAR && s[1] == c && FieldValue(s[2], s[3]) == n;
    assert s[4..] == tail;
    assert NextTurn(d, s) == Moved(4, Decoder(RecvData, n, c == 0, d.armed), []);
  }

  lemma FrameTurns(d: Decoder, c: byte, p: seq<byte>, rest: seq<byte>)
    requires AtFrameStart(d) && GoodPacket(Packet(c, p))
    ensures p == [] && rest == [] ==> Drain(d, EncodeFrame(c, p) + rest).out == []
    ensures p != [] || rest != [] ==>
              Drain(d, EncodeFrame(c, p) + rest).out
              == [Frame(p, c == 0)] + Drain(Decoder(RecvLen, |p|, c == 0, d.armed), rest).out
  {
    Associative(FrameHeader(c, |p|), p, rest);
    FrameHeaderTurn(d, c, |p|, p + rest);
    var e := Decoder(RecvData, |p|, c == 0, d.armed);
    if p + rest != [] {
      DropAppended(p, rest, |p|);
      assert NextTurn(e, p + rest) == Moved(|p|, e.(state := RecvLen), [Frame(p, c == 0)]);
    }
  }

  /** The decoder delivers the frames of a stream that stays in step, except a last one without a payload. */
  lemma {:induction false} Resync(d: Decoder, items: seq<Item>)
    requires AtFrameStart(d) && !d.armed
    requires (forall i :: i in items ==> Good(i)) && InStep(items)
    ensures Drain(d, Encode(items)).out == Delivered(items)
    decreases |items|
  {
    if items == [] {
    } else {
      var tail := items[1..];
      var rest := Encode(tail);
      assert Good(items[0]);
      match items[0] {
        case Text(t) =>
          LeavesHalfIffOdd(t);
          if rest == [] {
            assert t + rest == t;
            TextOnly(d, t);
            Resync(d, tail);
          } else {
            SkipText(d, t, rest);
            Resync(d, tail);
          }
        case Packet(c, p) =>
          var e := Decoder(RecvLen, |p|, c == 0, d.armed);
          FrameTurns(d, c, p, rest);
          Resync(e, tail);
          DeliveredOfPacket(items);
      }
    }
  }

  lemma {:induction false} NothingEncoded(items: seq<Item>)
    requires (forall i :: i in items ==> Good(i)) && Encode(items) == []
    ensures Frames(items) == [] && !Starved(items)
    decreases |items|
  {
    if items == [] {
    } else {
      assert Good(items[0]);
      NothingEncoded(items[1..]);
    }
  }

  lemma {:induction false} StarvedHasFrame(items: seq<Item>)
    requires (forall i :: i in items ==> Good(i)) && Starved(items)
    ensures Frames(items) != []
    decreases |items|
  {
    if Starved(items[1..]) {
      StarvedHasFrame(items[1..]);
    }
  }

  lemma DeliveredOfPacket(items: seq<Item>)
    requires forall i :: i in items ==> Good(i)
    requires items != [] && items[0].Packet?
    ensures Delivered(items) ==
            if items[0].payload == [] && Encode(items[1..]) == [] then []
            else [Frame(items[0].payload, items[0].channel == 0)] + Delivered(items[1..])
  {
    var tail := items[1..];
    if Encode(tail) == [] {
      NothingEncoded(tail);
    }
    if Starved(tail) {
      StarvedHasFrame(tail);
      var f := [Frame(items[0].payload, items[0].channel == 0)];
      var all := Frames(tail);
      assert (f + all)[..|f + all| - 1] == f + all[..|all| - 1];
    }
  }

  /** All frames arrive exactly when the stream does not end in an empty frame. */
  lemma AllDeliveredIff(d: Decoder, items: seq<Item>)
    requires AtFrameStart(d) && !d.armed
    requires (forall i :: i in items ==> Good(i)) && InStep(items)
    ensures Drain(d, Encode(items)).out == Frames(items) <==> !Starved(items)
  {
    Resync(d, items);
    if Starved(items) {
      StarvedHasFrame(items);
    }
  }

  // ---- Losing step ----

  function Weight(out: seq<Output>): nat {
    if out == [] then 0
    else (if out[0].Frame? then 4 + |out[0].data| else 0) + Weight(out[1..])
  }

  lemma {:induction false} WeightBound(d: Decoder, s: seq<byte>)
    ensures Weight(Drain(d, s).out) <= |s| + if d.state == RecvData then 4 else 0
    decreases |s|, Rank(d)
  {
    if s != [] && NextTurn(d, s).Moved? {
      var m := NextTurn(d, s);
      var r := Drain(m.next, s[m.used..]).out;
      WeightBound(m.next, s[m.used..]);
      assert Drain(d, s).out == m.out + r;
      if m.out == [] {
        assert m.out + r == r;
      } else {
        assert (m.out + r)[1..] == r;
      }
    }
  }

  /** After a text run the next frame is delivered if and only if the run keeps step. */
  lemma SyncIff(d: Decoder, t: seq<byte>, c: byte, p: seq<byte>)
    requires AtFrameStart(d) && !d.armed && Frameless(t)
    requires IsChannel(c) && 0 < |p| <= MAX_PAYLOAD
    ensures Drain(d, t + EncodeFrame(c, p)).out == [Frame(p, c == 0)] <==> KeepsStep(t)
  {
    var f := EncodeFrame(c, p);
    LeavesHalfIffOdd(t);
    if KeepsStep(t) {
      SkipText(d, t, f);
      FrameTurns(d, c, p, []);
      assert f + [] == f;
      assert [Frame(p, c == 0)] + [] == [Frame(p, c == 0)];
    } else {
      SkipTextAndOne(d, t, f);
      WeightBound(d, f[1..]);
      assert [Frame(p, c == 0)][1..] == [];
      assert Weight([Frame(p, c == 0)]) == 4 + |p|;
    }
  }

  /** One R in front of a frame loses it. */
  lemma FrameLost(d: Decoder)
    requires AtFrameStart(d) && !d.armed
    ensures Drain(d, [UPPER_R] + EncodeFrame(0, [7])).out == []
  {
    var s: seq<byte> := [82, 36, 0, 0, 1, 7];
    assert [UPPER_R] + EncodeFrame(0, [7]) == s;
    PairTurn(d, s);
    var u: seq<byte> := [0, 0, 1, 7];
    assert s[2..] == u;
    assert NextTurn(d, u) == Moved(1, d, []);
    TooShort(d, u[1..]);
  }

  // ---- An armed callback ----

  lemma ResponseBlock(r: seq<byte>)
    requires IsResponse(r) && HeaderLines.IsHeaderBlock(r)
    ensures HeaderLines.IsHeaderBlock(r[2..])
  {
    assert r[0] == 82 && r[1] == 84 && r[2] == 83 && r[3] == 80;
    var u := r[2..];
    var i0: nat :| HeaderLines.BlankLineAt(r, i0, |r|);
    assert HeaderLines.BlankLineAt(u, i0 - 2, |u|);
    forall i: nat, j: nat | HeaderLines.BlankLineAt(u, i, j)
      ensures j == |u|
    {
      assert HeaderLines.BlankLineAt(r, i + 2, j + 2);
    }
  }

  lemma ResponseCommand(d: Decoder, r: seq<byte>, rest: seq<byte>)
    requires IsResponse(r) && HeaderLines.IsHeaderBlock(r) && |r| - 2 < COMMAND_BUFFER
    ensures CommandTurn(d, r + rest) == Moved(|r|, d.(armed := false), [Command(RTSP + r[2..])])
  {
    ResponseBlock(r);
    DropAppended(r, rest, 2);
    HeaderLines.HeaderReadOfBlock(r[2..], rest, COMMAND_BUFFER);
    assert (r + rest)[2..|r|] == r[2..];
  }

  /** The longest response that has room, with SP twice and its NUL, in the array for the text. */
  const MAX_RESPONSE := COMMAND_BUFFER - 3

  /** A callback text that starts with this response has room exactly if the response is no longer than that. */
  lemma ResponseFitsIff(d: Decoder, r: seq<byte>, rest: seq<byte>)
    requires AtFrameStart(d) && d.armed && IsResponse(r) && HeaderLines.IsHeaderBlock(r)
    ensures NextTurn(d, r + rest).Moved?
    ensures Fits(NextTurn(d, r + rest).out) <==> |r| <= MAX_RESPONSE
  {
    ResponseBlock(r);
    DropAppended(r, rest, 2);
    DropAppended(r, rest, 4);
    assert r[0] == r[..4][0] == 82 && r[1] == r[..4][1] == 84;
    HeaderLines.HeaderReadOfBlock(r[2..], rest, COMMAND_BUFFER);
    assert NextTurn(d, r + rest) == CommandTurn(d, r + rest);
    CommandFitsIff(d, r + rest);
    HeaderLines.HeaderEndOfBlock(r[2..]);
    HeaderLines.HeaderEndPrefix(r[2..], rest, HeaderLines.Start);
  }

  /** The shortest response without room. */
  lemma ResponseTooLong(d: Decoder)
    requires AtFrameStart(d) && d.armed
    ensures var r: seq<byte> := RTSP + seq(MAX_RESPONSE - 5, _ => 97) + [HeaderLines.LF, HeaderLines.LF];
            |r| == 8190 && NextTurn(d, r).Moved? && !Fits(NextTurn(d, r).out)
  {
    var filler: seq<byte> := seq(MAX_RESPONSE - 5, _ => 97);
    var r: seq<byte> := RTSP + filler + [HeaderLines.LF, HeaderLines.LF];
    var n := |r|;
    assert |r| == 8190 && r[n - 1] == r[n - 2] == HeaderLines.LF;
    assert forall i :: 0 <= i < n - 2 ==> r[i] != HeaderLines.LF by {
      assert forall i :: 4 <= i < n - 2 ==> r[i] == filler[i - 4] == 97;
      assert r[..4] == RTSP;
    }
    assert HeaderLines.IsHeaderBlock(r) by {
      assert HeaderLines.BlankLineAt(r, n - 1, n);
    }
    assert r[..4] == RTSP;
    ResponseFitsIff(d, r, []);
    assert r + [] == r;
  }

  /** A response that has room is taken whole, whatever bytes it contains, and the callback is disarmed. */
  lemma ResponseTurn(d: Decoder, r: seq<byte>, rest: seq<byte>)
    requires AtFrameStart(d) && d.armed
    requires IsResponse(r) && HeaderLines.IsHeaderBlock(r) && |r| <= MAX_RESPONSE
    ensures Drain(d, r + rest).out == [Command(RTSP + r[2..])] + Drain(d.(armed := false), rest).out
  {
    ResponseCommand(d, r, rest);
    assert r[0] == r[..4][0] == 82 && r[1] == r[..4][1] == 84;
    DropAppended(r, rest, 4);
    DropAppended(r, rest, |r|);
    assert NextTurn(d, r + rest) == CommandTurn(d, r + rest);
  }

  /** Text runs in front of a tail keep the decoder in step and show it no response. */
  predicate Passed(items: seq<Item>, tail: seq<byte>)
    requires forall i :: i in items ==> Good(i)
  {
    items == [] || (
      && (items[0].Text? ==>
            KeepsStep(items[0].bytes) && Silent(items[0].bytes, Encode(items[1..]) + tail))
      && Passed(items[1..], tail))
  }

  /** Frames and text around one response: all frames are delivered, and the callback runs once, in its place. */
  lemma {:induction false} ArmedStream(d: Decoder, before: seq<Item>, r: seq<byte>, after: seq<Item>)
    requires AtFrameStart(d) && d.armed
    requires IsResponse(r) && HeaderLines.IsHeaderBlock(r) && |r| <= MAX_RESPONSE
    requires (forall i :: i in after ==> Good(i)) && InStep(after)
    requires (forall i :: i in before ==> Good(i)) && Passed(before, r + Encode(after))
    ensures Drain(d, Encode(before) + (r + Encode(after))).out
            == Frames(before) + ([Command(RTSP + r[2..])] + Delivered(after))
    decreases |before|
  {
    var tail := r + Encode(after);
    if before == [] {
      assert [] + tail == tail;
      ResponseTurn(d, r, Encode(after));
      Resync(d.(armed := false), after);
    } else {
      var rest := Encode(before[1..]);
      assert Good(before[0]);
      Associative(Bytes(before[0]), rest, tail);
      match before[0] {
        case Text(t) =>
          LeavesHalfIffOdd(t);
          SkipText(d, t, rest + tail);
          ArmedStream(d, before[1..], r, after);
        case Packet(c, p) =>
          FrameTurns(d, c, p, rest + tail);
          ArmedStream(Decoder(RecvLen, |p|, c == 0, d.armed), before[1..], r, after);
          Associative([Frame(p, c == 0)], Frames(before[1..]), [Command(RTSP + r[2..])] + Delivered(after));
      }
    }
  }

  // ---- Written frames ----

  function Sent(payloads: seq<seq<byte>>): seq<byte>
    requires forall p :: p in payloads ==> |p| <= MAX_PAYLOAD
  {
    if payloads == [] then [] else EncodeFrame(1, payloads[0]) + Sent(payloads[1..])
  }

  function ControlItems(payloads: seq<seq<byte>>): seq<Item> {
    seq(|payloads|, i requires 0 <= i < |payloads| => Packet(1, payloads[i]))
  }

  function ControlFrames(payloads: seq<seq<byte>>): seq<Output> {
    seq(|payloads|, i requires 0 <= i < |payloads| => Frame(payloads[i], false))
  }

  lemma {:induction false} SentIsEncoded(payloads: seq<seq<byte>>)
    requires forall p :: p in payloads ==> |p| <= MAX_PAYLOAD
    ensures var items := ControlItems(payloads);
            && (forall i :: i in items ==> Good(i))
            && Encode(items) == Sent(payloads)
            && InStep(items)
            && Frames(items) == ControlFrames(payloads)
            && (Starved(items) <==> payloads != [] && payloads[|payloads| - 1] == [])
  {
    if payloads == [] {
    } else {
      var items := ControlItems(payloads);
      var rest := payloads[1..];
      SentIsEncoded(rest);
      assert items[1..] == ControlItems(rest);
      assert ControlFrames(payloads) == [Frame(payloads[0], false)] + ControlFrames(rest);
      assert Encode(items[1..]) == [] <==> rest == [];
    }
  }

  /** Decoding what was written returns the payloads, flagged RTCP, exactly when the last one is not empty. */
  lemma WriteReadRoundTrip(d: Decoder, payloads: seq<seq<byte>>)
    requires AtFrameStart(d) && !d.armed
    requires forall p :: p in payloads ==> |p| <= MAX_PAYLOAD
    ensures Drain(d, Sent(payloads)).out == ControlFrames(payloads)
            <==> payloads == [] || payloads[|payloads| - 1] != []
  {
    SentIsEncoded(payloads);
    AllDeliveredIff(d, ControlItems(payloads));
  }
}
