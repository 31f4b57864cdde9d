/**
 The TCP transmitter: the poll function that works through the bytes of one socket, and the
 writer of interleaved frames. A blocking read is a method that reports `false`, and takes
 nothing, when too few bytes are queued.
 */
module Transmitter {
  import opened Common
  import opened Interleaved
  import opened FrameSending
  import HeaderLines
  import Pending
  import Receiving
  import Resynchronisation

  const HEADER_LENGTH := 4

  /** The receiving end of a connection that stays open. */
  class Socket {
    var queue: seq<byte>

    constructor ()
      ensures queue == []
    {
      queue := [];
    }

    /** The FIONREAD request. */
    method Available() returns (length: nat)
      ensures length == |queue|
    {
      length := |queue|;
    }

    /** recv with MSG_WAITALL and MSG_PEEK. */
    method Peek(buffer: array<byte>, n: nat) returns (ok: bool)
      requires n <= buffer.Length
      modifies buffer
      ensures ok <==> n <= |queue|
      ensures ok ==> buffer[..n] == queue[..n]
      ensures ok ==> forall i :: 0 <= i < n ==> buffer[i] == queue[i]
    {
      ok := n <= |queue|;
      if ok {
        forall i | 0 <= i < n {
          buffer[i] := queue[i];
        }
      }
    }

    /** recv with MSG_WAITALL. */
    method Receive(n: nat) returns (ok: bool, bytes: seq<byte>)
      modifies this
      ensures ok <==> n <= |old(queue)|
      ensures ok ==> bytes == old(queue)[..n] && queue == old(queue)[n..]
      ensures !ok ==> bytes == [] && queue == old(queue)
    {
      ok := n <= |queue|;
      bytes := [];
      if ok {
        bytes, queue := queue[..n], queue[n..];
      }
    }

    /**
     ReadLine on this socket, once the line is there: the line and a NUL go into the buffer, and the
     number is what ReadLine returns. It reports `false` where the code would write behind the buffer.
     */
    method ReadLine(buffer: array<byte>, at: nat, limit: nat) returns (fits: bool, n: nat, ghost line: seq<byte>)
      requires limit >= 1 && HeaderLines.LineRead(queue, limit).Took? && at <= buffer.Length
      modifies this, buffer
      ensures line == old(queue)[..HeaderLines.LineRead(old(queue), limit).count]
      ensures fits <==> at + |line| < buffer.Length
      ensures fits ==>
                && queue == old(queue)[|line|..] && n == HeaderLines.Reported(line, limit)
                && buffer[..at] == old(buffer[..at]) && buffer[at..at + |line|] == line && buffer[at + |line|] == 0
    {
      var k := HeaderLines.LineRead(queue, limit).count;
      line := queue[..k];
      fits := at + k < buffer.Length;
      n := HeaderLines.Reported(queue[..k], limit);
      if fits {
        forall i | 0 <= i < k {
          buffer[at + i] := queue[i];
        }
        buffer[at + k] := 0;
        queue := queue[k..];
      }
    }
  }

  /** A connected destination: what has gone out to it, and how its next sends will behave. */
  class Destination {
    var sent: seq<byte>
    var schedule: seq<SendOutcome>

    constructor (schedule: seq<SendOutcome>)
      ensures State() == Peer([], schedule)
    {
      sent, this.schedule := [], schedule;
    }

    ghost function State(): Peer
      reads this
    {
      Peer(sent, schedule)
    }

    method Send(bytes: seq<byte>) returns (ok: bool)
      modifies this
      ensures SendResult(ok, State()) == SendOnce(old(State()), bytes)
    {
      if schedule == [] {
        sent := sent + bytes;
        return true;
      }
      var outcome := schedule[0];
      schedule := schedule[1..];
      match outcome {
        case Takes(n) =>
          sent := sent + bytes[..Min(n, |bytes|)];
          ok := true;
        case Fails =>
          ok := false;
      }
    }
  }

  /** Overrun: the code would write behind the array for a callback text, and nothing is said of what follows. */
  datatype PollStatus = Returned | Waiting | Overrun
  datatype SendStatus = Done | NotInit | NotCreated | TooBig

  /** The line as the text has it: it is where ReadLine put it, with a NUL behind it if it has no line feed. */
  lemma LineInText(line: seq<byte>, limit: nat, text: seq<byte>)
    requires forall i :: 0 <= i < |line| - 1 ==> line[i] != HeaderLines.LF
    requires HeaderLines.EndsLine(line) || |line| == limit - 1
    requires |line| < |text| && text[..|line|] == line && text[|line|] == Receiving.NUL
    ensures var n := HeaderLines.Reported(line, limit);
            && n <= |text|
            && (HeaderLines.Blank(line) <==> n <= 2 && HeaderLines.Blank(CString(text[..n], Receiving.NUL)))
  {
    var n := HeaderLines.Reported(line, limit);
    assert text[..|line| + 1] == line + [Receiving.NUL];
    Receiving.BlankText(line, text[..n]);
  }

  /** The loop has taken some bytes of a header of `total` bytes, and goes on with this limit. */
  ghost predicate Reading(start: seq<byte>, taken: nat, total: nat, bufsize: nat) {
    && taken <= total <= |start|
    && if bufsize == 0 then taken == total
       else HeaderLines.HeaderRead(start[taken..], bufsize) == HeaderLines.Took(total - taken)
  }

  lemma ReadingNext(start: seq<byte>, taken: nat, total: nat, bufsize: nat)
    requires Reading(start, taken, total, bufsize) && bufsize > 0
    ensures HeaderLines.LineRead(start[taken..], bufsize).Took?
    ensures var k := HeaderLines.LineRead(start[taken..], bufsize).count;
            var line := start[taken..][..k];
            var n := HeaderLines.Reported(line, bufsize);
            && taken + k <= total && n <= bufsize
            && if HeaderLines.Blank(line) then taken + k == total else Reading(start, taken + k, total, bufsize - n)
  {
    HeaderLines.HeaderReadTurn(start[taken..], bufsize);
    DropDrop(start, taken, HeaderLines.LineRead(start[taken..], bufsize).count);
  }

  lemma LineTaken(front: seq<byte>, start: seq<byte>, taken: nat, k: nat)
    requires taken + k <= |start|
    ensures start[taken..][k..] == start[taken + k..]
    ensures front + start[..taken] + start[taken..][..k] == front + start[..taken + k]
  {
    assert start[..taken] + start[taken..][..k] == start[..taken + k];
    Associative(front, start[..taken], start[taken..][..k]);
  }

  /** The callback text in terms of the bytes behind the two that were skipped. */
  lemma CommandText(d: Decoder, s: seq<byte>)
    requires |s| >= 4 && CommandTurn(d, s).Moved?
    ensures var m, k := CommandTurn(d, s), HeaderLines.HeaderRead(s[2..], COMMAND_BUFFER).count;
            && (Fits(m.out) <==> HEADER_LENGTH + k + 1 <= COMMAND_BUFFER)
            && m == Moved(2 + k, d.(armed := false), [Command(RTSP + s[2..][..k])])
            && s[2 + k..] == s[2..][k..]
  {
    var m := CommandTurn(d, s);
    assert m.out[0] in m.out;
    assert s[2..][..m.used - 2] == s[2..m.used];
  }

  lemma TurnFits(d0: Decoder, s0: seq<byte>, d: Decoder, s: seq<byte>, done: seq<Output>, out: seq<Output>)
    requires InCall(d0, s0, d, s, done + out, DeliversFrame(out)) && Fits(done)
    ensures Fits(done + out) <==> Fits(out)
    ensures !Fits(out) ==> !Fits(Poll(d0, s0).out)
  {
    var all := Poll(d0, s0).out;
    CallKeeps(d0, s0, d, s, done + out, DeliversFrame(out));
    FitsAppend(done, out);
    SplitJoin(all, |done + out|);
    FitsAppend(done + out, all[|done + out|..]);
  }

  ghost function States(all: seq<Destination>): (r: seq<Peer>)
    reads all
    ensures |r| == |all| && forall k :: 0 <= k < |all| ==> r[k] == all[k].State()
  {
    seq(|all|, k requires 0 <= k < |all| reads all => all[k].State())
  }

  ghost predicate Among(some: seq<Destination>, all: seq<Destination>) {
    forall k :: 0 <= k < |some| ==> some[k] in all
  }

  /** Since they were as before, destinations have got these payloads, and those left are the ones where all went well. */
  ghost predicate HaveGot(all: seq<Destination>, before: seq<Peer>, payloads: seq<seq<byte>>, left: seq<Destination>)
    requires Sendable(payloads)
    reads all
  {
    && |all| == |before|
    && forall k :: 0 <= k < |all| ==>
         var r := SendFrames(before[k], payloads);
         all[k].State() == r.peer && (all[k] in left <==> r.ok)
  }

  class MyTcpTransmitter {
    var recvState: RecvState
    var dataLength: nat
    var isRtp: bool
    var callbackArmed: bool
    const headerBuffer: array<byte>
    var received: seq<Output>      // raw packets and callback texts, in order
    var initialised: bool
    var created: bool
    var destinations: seq<Destination>

    constructor ()
      ensures State() == Decoder(RecvLen, 0, false, false) && received == []
      ensures !initialised && !created && destinations == []
      ensures fresh(headerBuffer) && Valid()
    {
      recvState, dataLength, isRtp, callbackArmed := RecvLen, 0, false, false;
      headerBuffer := new byte[HEADER_LENGTH](_ => 0);
      received := [];
      initialised, created, destinations := false, false, [];
    }

    ghost predicate Valid() {
      headerBuffer.Length == HEADER_LENGTH
    }

    ghost function State(): Decoder
      reads this
    {
      Decoder(recvState, dataLength, isRtp, callbackArmed)
    }

    /** Sets the callback for the next RTSP message on the connection. */
    method SetCallback(isSet: bool)
      modifies this`callbackArmed
      ensures State() == old(State()).(armed := isSet)
    {
      callbackArmed := isSet;
    }

    /**
     Lines up to a blank one, as long as bufsize lasts, behind the four bytes that are in the text
     already. The text and its NUL have room exactly when the header is short enough.
     */
    method ReadCommand(sock: Socket, text: array<byte>) returns (fits: bool, length: nat)
      requires text.Length == COMMAND_BUFFER && text[..HEADER_LENGTH] == RTSP
      requires HeaderLines.HeaderRead(sock.queue, COMMAND_BUFFER).Took?
      modifies sock, text
      ensures var n := HeaderLines.HeaderRead(old(sock.queue), COMMAND_BUFFER).count;
              && (fits <==> HEADER_LENGTH + n + 1 <= text.Length)
              && (fits ==>
                    && sock.queue == old(sock.queue)[n..]
                    && length == HEADER_LENGTH + n && text[length] == 0
                    && text[..length] == RTSP + old(sock.queue)[..n])
    {
      ghost var start := sock.queue;
      ghost var total := HeaderLines.HeaderRead(start, COMMAND_BUFFER).count;
      ghost var taken: nat := 0;
      var bufsize: nat, index := COMMAND_BUFFER, HEADER_LENGTH;
      length := index;
      assert RTSP + start[..0] == RTSP;
      while bufsize > 0
        invariant Reading(start, taken, total, bufsize) && sock.queue == start[taken..]
        invariant length == HEADER_LENGTH + taken < text.Length && text[..length] == RTSP + start[..taken]
        invariant bufsize == 0 ==> text[length] == 0
        invariant bufsize > 0 ==> index == length
      {
        ReadingNext(start, taken, total, bufsize);
        var n, blank;
        ghost var k;
        fits, n, blank, k := ReadCommandLine(sock, text, index, bufsize, start, taken);
        if !fits {
          return;
        }
        length := length + if n == bufsize then n - 1 else n;
        taken := taken + k;
        if blank {
          break;
        }
        index := index + n;
        bufsize := bufsize - n;
      }
      fits := true;
    }

    /** One line of the loop, of k bytes, and whether the expression for a blank line matches it in the text. */
    method ReadCommandLine(sock: Socket, text: array<byte>, index: nat, bufsize: nat, ghost start: seq<byte>, ghost taken: nat)
      returns (fits: bool, n: nat, blank: bool, ghost k: nat)
      requires taken <= |start| && sock.queue == start[taken..]
      requires bufsize >= 1 && HeaderLines.LineRead(start[taken..], bufsize).Took?
      requires index == HEADER_LENGTH + taken <= text.Length && text[..index] == RTSP + start[..taken]
      modifies sock, text
      ensures k == HeaderLines.LineRead(start[taken..], bufsize).count
      ensures fits <==> index + k < text.Length
      ensures fits ==>
                && sock.queue == start[taken + k..]
                && text[..index + k] == RTSP + start[..taken + k] && text[index + k] == 0
                && n == HeaderLines.Reported(start[taken..][..k], bufsize)
                && (blank <==> HeaderLines.Blank(start[taken..][..k]))
                && k == if n == bufsize then n - 1 else n
    {
      HeaderLines.LineReadStops(sock.queue, bufsize);
      ghost var line;
      fits, n, line := sock.ReadLine(text, index, bufsize);
      k := |line|;
      blank := false;
      if fits {
        LineInText(line, bufsize, text[index..]);
        LineTaken(RTSP, start, taken, k);
        assert text[..index + k] == text[..index] + text[index..index + k];
        blank := n <= 2 && HeaderLines.Blank(CString(text[index..][..n], Receiving.NUL));
      }
    }

    /** One turn of the loop at the start of a frame. */
    method ReceiveHeader(sock: Socket) returns (status: PollStatus)
      requires Valid() && recvState == RecvLen && sock.queue != []
      modifies `recvState, `dataLength, `isRtp, `callbackArmed, `received, headerBuffer, sock
      ensures match HeaderTurn(old(State()), old(sock.queue))
              case Wait =>
                && status == Waiting && State() == old(State())
                && sock.queue == old(sock.queue) && received == old(received)
              case Moved(used, next, out) =>
                && (status == if Fits(out) then Returned else Overrun)
                && (Fits(out) ==>
                      State() == next && sock.queue == old(sock.queue)[used..] && received == old(received) + out)
    {
      status := Returned;
      var ok := sock.Peek(headerBuffer, 1);
      if headerBuffer[0] != DOLLAR && headerBuffer[0] != UPPER_R {
        var _, _ := sock.Receive(1);
        return;
      }
      ok := sock.Peek(headerBuffer, 2);
      if !ok {
        return Waiting;
      }
      if headerBuffer[1] != 0 && headerBuffer[1] != 1 && headerBuffer[1] != UPPER_T {
        var _, _ := sock.Receive(2);
        return;
      }
      if headerBuffer[0] == UPPER_R {
        ok := sock.Peek(headerBuffer, HEADER_LENGTH);
        if !ok {
          return Waiting;
        }
        assert sock.queue[..4] == headerBuffer[..];
        if headerBuffer[..] == RTSP {
          status := ReceiveCommand(sock);
        } else {
          var _, _ := sock.Receive(2);
        }
        return;
      }
      ok := sock.Peek(headerBuffer, HEADER_LENGTH);
      if !ok {
        return Waiting;
      }
      var _, _ := sock.Receive(HEADER_LENGTH);
      isRtp := headerBuffer[1] == 0;
      dataLength := FieldValue(headerBuffer[2], headerBuffer[3]);
      recvState := RecvData;
    }

    /** The message that a peek found to start with "RTSP". */
    method ReceiveCommand(sock: Socket) returns (status: PollStatus)
      requires Valid() && recvState == RecvLen && |sock.queue| >= 4
      requires headerBuffer[..] == RTSP
      modifies `recvState, `dataLength, `isRtp, `callbackArmed, `received, headerBuffer, sock
      ensures old(callbackArmed) ==>
                match CommandTurn(old(State()), old(sock.queue))
                case Wait =>
                  && status == Waiting && State() == old(State())
                  && sock.queue == old(sock.queue) && received == old(received)
                case Moved(used, next, out) =>
                  && (status == if Fits(out) then Returned else Overrun)
                  && (Fits(out) ==>
                        State() == next && sock.queue == old(sock.queue)[used..] && received == old(received) + out)
      ensures !old(callbackArmed) ==>
                && status == Returned && State() == old(State())
                && sock.queue == old(sock.queue)[2..] && received == old(received)
    {
      status := Returned;
      if callbackArmed {
        if HeaderLines.HeaderRead(sock.queue[2..], COMMAND_BUFFER).Wait? {
          return Waiting;
        }
        ghost var s := sock.queue;
        var _, _ := sock.Receive(2);
        var text := new byte[COMMAND_BUFFER](_ => 0);
        forall i | 0 <= i < HEADER_LENGTH {
          text[i] := headerBuffer[i];
        }
        assert text[..HEADER_LENGTH] == headerBuffer[..];
        var fits, length := ReadCommand(sock, text);
        CommandText(State(), s);
        if !fits {
          return Overrun;
        }
        received := received + [Command(text[..length])];
      } else {
        var _, _ := sock.Receive(2);
      }
      callbackArmed := false;
    }

    /** The body of the loop, by the state of the receiver. */
    method TakeTurn(sock: Socket) returns (complete: bool, status: PollStatus)
      requires Valid() && sock.queue != []
      modifies `recvState, `dataLength, `isRtp, `callbackArmed, `received, headerBuffer, sock
      ensures match NextTurn(old(State()), old(sock.queue))
              case Wait =>
                && status == Waiting && State() == old(State())
                && sock.queue == old(sock.queue) && received == old(received)
              case Moved(used, next, out) =>
                && (status == if Fits(out) then Returned else Overrun)
                && (Fits(out) ==>
                      && State() == next && (complete <==> DeliversFrame(out))
                      && sock.queue == old(sock.queue)[used..] && received == old(received) + out)
    {
      complete, status := false, Returned;
      match recvState {
        case RecvLen =>
          status := ReceiveHeader(sock);
        case RecvData =>
          var ok, data := sock.Receive(dataLength);
          if !ok {
            return false, Waiting;
          }
          recvState := RecvLen;
          complete := true;
          received := received + [Frame(data, isRtp)];
        case _ =>
          recvState := RecvLen;
      }
    }

    /**
     The poll function: at most one packet, and nothing when the socket is empty. It does what the
     specification says exactly when every callback text has room. When it waits it is for bytes that are
     missing behind the pending ones, and otherwise nothing is pending unless a packet was delivered.
     */
    method PollSocket(sock: Socket) returns (status: PollStatus)
      requires Valid()
      modifies `recvState, `dataLength, `isRtp, `callbackArmed, `received, headerBuffer, sock
      ensures var r := Poll(old(State()), old(sock.queue));
              && (status == Overrun <==> !Fits(r.out))
              && (Fits(r.out) ==>
                    && State() == r.decoder
                    && sock.queue == r.rest
                    && received == old(received) + r.out
                    && (status == Waiting <==> r.waiting)
                    && (status == Waiting ==> Pending.Stuck(State(), sock.queue))
                    && (status == Returned ==> sock.queue == [] || DeliversFrame(r.out)))
    {
      ghost var d0, s0 := State(), sock.queue;
      Pending.PollLeaves(d0, s0);
      ghost var done: seq<Output> := [];
      var complete := false;
      var dataAvailable := true;
      while dataAvailable && !complete
        invariant received == old(received) + done && Fits(done)
        invariant InCall(d0, s0, State(), sock.queue, done, complete)
        invariant !dataAvailable && !complete ==> sock.queue == []
        decreases !complete, dataAvailable, |sock.queue|, Rank(State())
      {
        var length := sock.Available();
        dataAvailable := length > 0;
        if dataAvailable {
          ghost var d, s := State(), sock.queue;
          PollTurn(d0, s0, d, s, done);
          complete, status := TakeTurn(sock);
          if status == Waiting {
            return;
          }
          ghost var m := NextTurn(d, s);
          TurnFits(d0, s0, m.next, s[m.used..], done, m.out);
          if status == Overrun {
            return;
          }
          Associative(old(received), done, m.out);
          done := done + m.out;
        }
      }
      CallKeeps(d0, s0, State(), sock.queue, done, complete);
      return Returned;
    }

    /**
     Writes one frame to every destination, and forgets the destinations where that fails. No other is
     forgotten and none is added.
     */
    method SendRtpRtcpData(data: seq<byte>) returns (status: SendStatus)
      requires Distinct(destinations)
      modifies this`destinations, destinations
      ensures Distinct(destinations)
      ensures status == (
                if !initialised then NotInit
                else if !created then NotCreated
                else if |data| > 65535 then TooBig
                else Done)
      ensures status != Done ==> destinations == old(destinations) && (forall x :: x in destinations ==> unchanged(x))
      ensures forall x :: x in destinations ==> x in old(destinations)
      ensures status == Done ==>
                forall x :: x in old(destinations) ==>
                  var r := SendFrame(old(x.State()), data);
                  x.State() == r.peer && (x in destinations <==> r.ok)
    {
      if !initialised {
        return NotInit;
      }
      if !created {
        return NotCreated;
      }
      if |data| > Resynchronisation.MAX_PAYLOAD {
        return TooBig;
      }
      var all := destinations;
      var kept := [];
      for i := 0 to |all|
        invariant destinations == old(destinations) == all
        invariant forall x :: x in kept ==> x in all[..i]
        invariant Distinct(kept)
        invariant forall j :: i <= j < |all| ==> all[j].State() == old(all[j].State())
        invariant forall j :: 0 <= j < i ==>
                    var r := SendFrame(old(all[j].State()), data);
                    all[j].State() == r.peer && (all[j] in kept <==> r.ok)
      {
        var x := all[i];
        assert x !in kept;
        var ok := x.Send(Resynchronisation.FrameHeader(1, |data|));
        if ok {
          ok := x.Send(data);
        }
        if ok {
          kept := kept + [x];
        }
      }
      destinations := kept;
      return Done;
    }

    /** Payload after payload: every destination gets its frames, up to one that fails. */
    method SendEach(payloads: seq<seq<byte>>)
      requires Distinct(destinations) && initialised && created && Sendable(payloads)
      modifies this`destinations, destinations
      ensures Distinct(destinations)
      ensures forall x :: x in destinations ==> x in old(destinations)
      ensures forall x :: x in old(destinations) ==>
                var r := SendFrames(old(x.State()), payloads);
                x.State() == r.peer && (x in destinations <==> r.ok)
      ensures forall x, d: Decoder :: x in old(destinations) && old(x.sent) == [] && Listening(d) ==>
                (AllArrive(d, x.sent, payloads) <==> Undisturbed(old(x.schedule), payloads))
    {
      ghost var all, before := destinations, States(destinations);
      assert payloads[..0] == [];
      for i := 0 to |payloads|
        invariant Distinct(destinations) && Among(destinations, all)
        invariant HaveGot(all, before, payloads[..i], destinations)
      {
        assert payloads[..i + 1] == payloads[..i] + [payloads[i]];
        SendNext(all, before, payloads[..i], payloads[i]);
      }
      assert payloads[..|payloads|] == payloads;
      forall d: Decoder, schedule: seq<SendOutcome> | Listening(d)
        ensures AllArrive(d, SendFrames(Peer([], schedule), payloads).peer.sent, payloads)
                <==> Undisturbed(schedule, payloads)
      {
        ArrivesIff(d, schedule, payloads);
      }
    }

    method SendNext(ghost all: seq<Destination>, ghost before: seq<Peer>, ghost done: seq<seq<byte>>, data: seq<byte>)
      requires Distinct(destinations) && Among(destinations, all) && initialised && created
      requires Sendable(done) && |data| <= Resynchronisation.MAX_PAYLOAD
      requires HaveGot(all, before, done, destinations)
      modifies this`destinations, all
      ensures Distinct(destinations) && Among(destinations, all)
      ensures Sendable(done + [data]) && HaveGot(all, before, done + [data], destinations)
    {
      forall k | 0 <= k < |all|
        ensures Sendable(done + [data])
        ensures SendFrames(before[k], done + [data]) ==
                var r := SendFrames(before[k], done);
                if r.ok then SendFrame(r.peer, data) else r
      {
        SendFramesSnoc(before[k], done, data);
      }
      ghost var left := destinations;
      var _ := SendRtpRtcpData(data);
      forall k | 0 <= k < |destinations|
        ensures destinations[k] in all
      {
        assert destinations[k] in destinations && destinations[k] in left;
      }
    }
  }
}
