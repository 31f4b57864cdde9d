/**
 The interleaved RTP/RTCP/RTSP connection as a decoder of a byte stream (section 10.12 of
 RFC 2326): one turn of the receive loop, one call of the poll function, the whole stream.
 A turn that needs more bytes than are queued is `Wait`; it has taken nothing, so it is
 taken again from the same bytes and more.
 */
module Interleaved {
  import opened Common
  import HeaderLines

  const DOLLAR: byte := 36
  const UPPER_R: byte := 82
  const UPPER_T: byte := 84
  const RTSP: seq<byte> := [82, 84, 83, 80]
  const COMMAND_BUFFER := 8192

  datatype RecvState = RecvLen | RecvData | CommitBye | GotBye

  /** The persistent fields of the transmitter; armed says that a command callback is set. */
  datatype Decoder = Decoder(state: RecvState, dataLength: nat, isRtp: bool, armed: bool)

  /** A packet put on the raw packet list, or the text handed to the command callback. */
  datatype Output = Frame(data: seq<byte>, isRtp: bool) | Command(text: seq<byte>)

  datatype Turn = Wait | Moved(used: nat, next: Decoder, out: seq<Output>)

  /** One turn of the do-while loop on the queued bytes s. */
  function NextTurn(d: Decoder, s: seq<byte>): (r: Turn)
    requires s != []
    ensures r.Moved? ==> r.used <= |s|
    ensures r.Moved? ==> |r.out| <= 1
    ensures r.Moved? && r.used == 0 ==> d.state != RecvLen && r.next.state == RecvLen
  {
    match d.state
    case RecvLen => HeaderTurn(d, s)
    case RecvData =>
      if |s| < d.dataLength then Wait
      else Moved(d.dataLength, d.(state := RecvLen), [Frame(s[..d.dataLength], d.isRtp)])
    case _ => Moved(0, d.(state := RecvLen), [])
  }

  /** The 16-bit big-endian length field. */
  function FieldValue(high: byte, low: byte): nat {
    high as int * 256 + low as int
  }

  function HeaderTurn(d: Decoder, s: seq<byte>): (r: Turn)
    requires s != [] && d.state == RecvLen
    ensures r.Moved? ==> 0 < r.used <= |s| && |r.out| <= 1 && !DeliversFrame(r.out)
  {
    if s[0] != DOLLAR && s[0] != UPPER_R then Moved(1, d, [])
    else if |s| < 2 then Wait
    else if s[1] != 0 && s[1] != 1 && s[1] != UPPER_T then Moved(2, d, [])
    else if |s| < 4 then Wait
    else if s[0] == UPPER_R then
      if s[..4] == RTSP && d.armed then CommandTurn(d, s) else Moved(2, d, [])
    else
      Moved(4, d.(state := RecvData, dataLength := FieldValue(s[2], s[3]), isRtp := s[1] == 0), [])
  }

  /**
   With a callback armed, two bytes and a whole header are taken, and the callback is disarmed.
   Its text starts with the four bytes that were peeked, of which only two were taken. This is what
   the code does as long as the text has room in its array; see Fits.
   */
  function CommandTurn(d: Decoder, s: seq<byte>): (r: Turn)
    requires |s| >= 4
    ensures r.Moved? ==> 0 < r.used <= |s| && |r.out| <= 1 && !DeliversFrame(r.out)
  {
    match HeaderLines.HeaderRead(s[2..], COMMAND_BUFFER)
    case Wait => Turn.Wait
    case Took(k) => Moved(2 + k, d.(armed := false), [Command(RTSP + s[2..2 + k])])
  }

  /** Every callback text and the NUL behind it have room in the array that the code allots to them. */
  predicate Fits(out: seq<Output>) {
    forall o :: o in out && o.Command? ==> |o.text| + 1 <= COMMAND_BUFFER
  }

  /**
   The array has room exactly when the header that is read ends within five bytes of its length. The
   line loop is given the whole length as its limit, although four bytes are in the array before.
   */
  lemma CommandFitsIff(d: Decoder, s: seq<byte>)
    requires |s| >= 4 && CommandTurn(d, s).Moved?
    ensures Fits(CommandTurn(d, s).out) <==>
            var e := HeaderLines.HeaderEnd(s[2..], HeaderLines.Start); e.Took? && e.count <= COMMAND_BUFFER - 5
  {
    var o := CommandTurn(d, s).out[0];
    assert o in CommandTurn(d, s).out;
  }

  predicate DeliversFrame(out: seq<Output>) {
    out != [] && out[|out| - 1].Frame?
  }

  function Rank(d: Decoder): nat {
    if d.state == RecvLen then 0 else 1
  }

  /** What some turns have led to: the decoder and the bytes it has left, the outputs, and whether a read waits. */
  datatype Progress = Progress(decoder: Decoder, rest: seq<byte>, out: seq<Output>, waiting: bool) {
    function After(first: seq<Output>): Progress {
      this.(out := first + out)
    }

    lemma AfterAfter(first: seq<Output>, second: seq<Output>)
      ensures After(second).After(first) == After(first + second)
    {
      Associative(first, second, out);
    }
  }

  /** One call of the poll function: turns until the queue is empty, a packet is complete, or a read waits. */
  function Poll(d: Decoder, s: seq<byte>): (r: Progress)
    ensures |r.rest| <= |s| && r.rest == s[|s| - |r.rest|..]
    ensures DeliversFrame(r.out) ==> |r.rest| < |s| || Rank(r.decoder) < Rank(d)
    decreases |s|, Rank(d)
  {
    if s == [] then Progress(d, s, [], false)
    else
      match NextTurn(d, s)
      case Wait => Progress(d, s, [], true)
      case Moved(n, e, out) =>
        if DeliversFrame(out) then Progress(e, s[n..], out, false)
        else
          Poll(e, s[n..]).After(out)
  }

  /** Turns until none can be taken: everything the stream s yields, however many calls it needs. */
  function Drain(d: Decoder, s: seq<byte>): (r: Progress)
    ensures |r.rest| <= |s|
    decreases |s|, Rank(d)
  {
    if s == [] then Progress(d, s, [], false)
    else
      match NextTurn(d, s)
      case Wait => Progress(d, s, [], true)
      case Moved(n, e, out) =>
        Drain(e, s[n..]).After(out)
  }

  /** Calls until one returns without a packet. */
  function PollMany(d: Decoder, s: seq<byte>): (r: Progress)
    decreases |s|, Rank(d)
  {
    var r := Poll(d, s);
    if DeliversFrame(r.out) then
      PollMany(r.decoder, r.rest).After(r.out)
    else r
  }

  // ---- Calls, arrivals and the one-shot decode ----

  lemma CommandTurnPrefix(d: Decoder, s: seq<byte>, t: seq<byte>)
    requires |s| >= 4 && CommandTurn(d, s).Moved?
    ensures CommandTurn(d, s + t) == CommandTurn(d, s)
  {
    var k := HeaderLines.HeaderRead(s[2..], COMMAND_BUFFER).count;
    DropAppended(s, t, 2);
    HeaderLines.HeaderReadPrefix(s[2..], t, COMMAND_BUFFER);
    assert (s + t)[2..2 + k] == s[2..2 + k];
  }

  lemma HeaderTurnPrefix(d: Decoder, s: seq<byte>, t: seq<byte>)
    requires s != [] && d.state == RecvLen && HeaderTurn(d, s).Moved?
    ensures HeaderTurn(d, s + t) == HeaderTurn(d, s)
  {
    if |s| >= 4 {
      DropAppended(s, t, 4);
      if CommandTurn(d, s).Moved? {
        CommandTurnPrefix(d, s, t);
      }
    }
  }

  lemma NextTurnPrefix(d: Decoder, s: seq<byte>, t: seq<byte>)
    requires s != [] && NextTurn(d, s).Moved?
    ensures NextTurn(d, s + t) == NextTurn(d, s)
  {
    match d.state {
      case RecvLen => HeaderTurnPrefix(d, s, t);
      case RecvData => DropAppended(s, t, d.dataLength);
      case _ =>
    }
  }

  lemma DrainStep(d: Decoder, s: seq<byte>, t: seq<byte>)
    requires s != [] && NextTurn(d, s).Moved?
    ensures var m := NextTurn(d, s); Drain(d, s + t) == Drain(m.next, s[m.used..] + t).After(m.out)
  {
    NextTurnPrefix(d, s, t);
    DropAppended(s, t, NextTurn(d, s).used);
  }

  /** Decoding can be interrupted anywhere: what is left over is decoded with what comes later. */
  lemma {:induction false} DrainResumes(d: Decoder, s: seq<byte>, t: seq<byte>)
    ensures var r := Drain(d, s); Drain(d, s + t) == Drain(r.decoder, r.rest + t).After(r.out)
    decreases |s|, Rank(d)
  {
    if s != [] && NextTurn(d, s).Moved? {
      var m := NextTurn(d, s);
      var u := s[m.used..];
      DrainStep(d, s, t);
      DrainResumes(m.next, u, t);
      var r := Drain(m.next, u);
      Drain(r.decoder, r.rest + t).AfterAfter(m.out, r.out);
    }
  }

  /** The call that began in d0 with s0 has got to d with s, having put out `done`. */
  predicate InCall(d0: Decoder, s0: seq<byte>, d: Decoder, s: seq<byte>, done: seq<Output>, complete: bool) {
    Poll(d0, s0) == if complete then Progress(d, s, done, false) else Poll(d, s).After(done)
  }

  lemma PollTurn(d0: Decoder, s0: seq<byte>, d: Decoder, s: seq<byte>, done: seq<Output>)
    requires s != [] && InCall(d0, s0, d, s, done, false)
    ensures match NextTurn(d, s)
            case Wait => Poll(d0, s0) == Progress(d, s, done, true)
            case Moved(n, e, out) => InCall(d0, s0, e, s[n..], done + out, DeliversFrame(out))
  {
    match NextTurn(d, s)
    case Wait => assert done + [] == done;
    case Moved(n, e, out) =>
      if !DeliversFrame(out) {
        Poll(e, s[n..]).AfterAfter(done, out);
      }
  }

  /** A call that has put out something puts it out whatever comes next. */
  lemma CallKeeps(d0: Decoder, s0: seq<byte>, d: Decoder, s: seq<byte>, done: seq<Output>, complete: bool)
    requires InCall(d0, s0, d, s, done, complete)
    ensures done <= Poll(d0, s0).out
  {
  }

  lemma FitsAppend(a: seq<Output>, b: seq<Output>)
    ensures Fits(a + b) <==> Fits(a) && Fits(b)
  {
    assert forall o :: o in a + b <==> o in a || o in b;
  }

  /** The first turn of a call, when one can be taken. */
  lemma PollStep(d: Decoder, s: seq<byte>)
    requires s != [] && NextTurn(d, s).Moved?
    ensures var m := NextTurn(d, s);
            Poll(d, s) == if DeliversFrame(m.out) then Progress(m.next, s[m.used..], m.out, false)
                          else Poll(m.next, s[m.used..]).After(m.out)
  {
  }

  /** A call takes a prefix of the work of the one-shot decode, whatever arrives after it. */
  lemma {:induction false} PollIsPartOfDrain(d: Decoder, s: seq<byte>, t: seq<byte>)
    ensures var r := Poll(d, s); Drain(d, s + t) == Drain(r.decoder, r.rest + t).After(r.out)
    decreases |s|, Rank(d)
  {
    if s != [] && NextTurn(d, s).Moved? {
      var m := NextTurn(d, s);
      var u := s[m.used..];
      PollStep(d, s);
      DrainStep(d, s, t);
      if !DeliversFrame(m.out) {
        PollIsPartOfDrain(m.next, u, t);
        var r := Poll(m.next, u);
        Drain(r.decoder, r.rest + t).AfterAfter(m.out, r.out);
      }
    } else {
      var all := Drain(d, s + t);
      assert Poll(d, s).rest == s && Poll(d, s).decoder == d;
      assert [] + all.out == all.out;
    }
  }

  lemma DeliversAppended(first: seq<Output>, out: seq<Output>)
    requires !DeliversFrame(first)
    ensures DeliversFrame(first + out) <==> DeliversFrame(out)
  {
    if out != [] {
      assert (first + out)[|first + out| - 1] == out[|out| - 1];
    } else {
      assert first + out == first;
    }
  }

  lemma {:induction false} PollStuck(d: Decoder, s: seq<byte>)
    requires !DeliversFrame(Poll(d, s).out)
    ensures var r := Poll(d, s); Drain(r.decoder, r.rest) == r.(out := [])
    decreases |s|, Rank(d)
  {
    if s != [] && NextTurn(d, s).Moved? {
      var m := NextTurn(d, s);
      assert !DeliversFrame(m.out);
      DeliversAppended(m.out, Poll(m.next, s[m.used..]).out);
      PollStuck(m.next, s[m.used..]);
    }
  }

  /** Repeated calls deliver all of the one-shot decode. */
  lemma {:induction false} PollManyIsDrain(d: Decoder, s: seq<byte>)
    ensures PollMany(d, s) == Drain(d, s)
    decreases |s|, Rank(d)
  {
    var r := Poll(d, s);
    PollIsPartOfDrain(d, s, []);
    assert s + [] == s && r.rest + [] == r.rest;
    if DeliversFrame(r.out) {
      PollManyIsDrain(r.decoder, r.rest);
    } else {
      PollStuck(d, s);
      assert r.out + [] == r.out;
    }
  }

  /** A call delivers at most one packet, and that is the last thing it does. */
  lemma {:induction false} PollDeliversAtMostOne(d: Decoder, s: seq<byte>)
    ensures forall i :: 0 <= i < |Poll(d, s).out| - 1 ==> Poll(d, s).out[i].Command?
    decreases |s|, Rank(d)
  {
    if s != [] && NextTurn(d, s).Moved? {
      var m := NextTurn(d, s);
      if !DeliversFrame(m.out) {
        var out := Poll(m.next, s[m.used..]).out;
        PollDeliversAtMostOne(m.next, s[m.used..]);
        assert Poll(d, s).out == m.out + out;
      } else {
        assert Poll(d, s).out == m.out;
      }
    }
  }

  datatype Event = Arrive(bytes: seq<byte>) | Call

  datatype World = World(decoder: Decoder, queue: seq<byte>, consumed: seq<byte>, out: seq<Output>)

  function Happen(w: World, e: Event): World {
    match e
    case Arrive(bytes) => w.(queue := w.queue + bytes)
    case Call =>
      var r := Poll(w.decoder, w.queue);
      World(r.decoder, r.rest, w.consumed + w.queue[..|w.queue| - |r.rest|], w.out + r.out)
  }

  function Run(w: World, events: seq<Event>): World
    decreases |events|
  {
    if events == [] then w else Run(Happen(w, events[0]), events[1..])
  }

  function Arrived(events: seq<Event>): seq<byte> {
    if events == [] then []
    else (if events[0].Arrive? then events[0].bytes else []) + Arrived(events[1..])
  }

  lemma HappenConserves(w: World, e: Event)
    ensures var v := Happen(w, e);
            v.consumed + v.queue == w.consumed + (w.queue + if e.Arrive? then e.bytes else [])
  {
    match e {
      case Arrive(bytes) =>
      case Call =>
        var k := |w.queue| - |Poll(w.decoder, w.queue).rest|;
        SplitJoin(w.queue, k);
        Associative(w.consumed, w.queue[..k], w.queue[k..]);
        assert w.queue + [] == w.queue;
    }
  }

  /** No byte is lost, repeated or reordered between its arrival and the decoder. */
  lemma {:induction false} BytesConserved(w: World, events: seq<Event>)
    ensures Run(w, events).consumed + Run(w, events).queue == w.consumed + (w.queue + Arrived(events))
    decreases |events|
  {
    if events == [] {
      assert w.queue + [] == w.queue;
    } else {
      var v := Happen(w, events[0]);
      var a := if events[0].Arrive? then events[0].bytes else [];
      var later := Arrived(events[1..]);
      BytesConserved(v, events[1..]);
      HappenConserves(w, events[0]);
      Associative(v.consumed, v.queue, later);
      Associative(w.consumed, w.queue + a, later);
      Associative(w.queue, a, later);
    }
  }

  lemma HappenDrains(w: World, e: Event, later: seq<byte>)
    ensures var v := Happen(w, e);
            var a := if e.Arrive? then e.bytes else [];
            w.out + Drain(w.decoder, w.queue + (a + later)).out == v.out + Drain(v.decoder, v.queue + later).out
  {
    match e {
      case Arrive(bytes) =>
        Associative(w.queue, bytes, later);
      case Call =>
        assert [] + later == later;
        var r := Poll(w.decoder, w.queue);
        PollIsPartOfDrain(w.decoder, w.queue, later);
        Associative(w.out, r.out, Drain(r.decoder, r.rest + later).out);
    }
  }

  /**
   However arrivals and calls interleave, what has been delivered is a prefix of the one-shot
   decode of everything that has arrived and will arrive, and the rest is still to come.
   */
  lemma {:induction false} ArrivalIndependence(w: World, events: seq<Event>, future: seq<byte>)
    ensures var v := Run(w, events);
            w.out + Drain(w.decoder, w.queue + (Arrived(events) + future)).out
            == v.out + Drain(v.decoder, v.queue + future).out
    decreases |events|
  {
    if events == [] {
      assert [] + future == future;
    } else {
      var v := Happen(w, events[0]);
      var a := if events[0].Arrive? then events[0].bytes else [];
      HappenDrains(w, events[0], Arrived(events[1..]) + future);
      Associative(a, Arrived(events[1..]), future);
      ArrivalIndependence(v, events[1..], future);
    }
  }
}
