/**
 Writing a request on a socket that takes as much as it likes: the retry loops of Writen and
 SendRTSP over any finite schedule of what write does. A schedule that is used up fails.
 */
module Sending {
  import opened Common

  datatype WriteOutcome = Accept(count: nat) | Interrupted | WouldBlock | Broken

  /** The peer's view of a socket, and errno. */
  datatype Link = Link(accepted: seq<byte>, schedule: seq<WriteOutcome>, errno: Errno)

  datatype Result = Result(code: int, link: Link)

  /** One write call. A write that takes nothing leaves errno alone. */
  function WriteOnce(l: Link, bytes: seq<byte>): (r: Result)
    ensures -1 <= r.code <= |bytes| && r.link.accepted == l.accepted + bytes[..Max(r.code, 0)]
    ensures |r.link.schedule| == Max(|l.schedule| - 1, 0)
  {
    assert l.accepted + bytes[..0] == l.accepted;
    if l.schedule == [] then Result(-1, l.(errno := EOTHER))
    else
      var after := l.(schedule := l.schedule[1..]);
      match l.schedule[0]
      case Accept(n) =>
        var k := Min(n, |bytes|);
        Result(k, after.(accepted := l.accepted + bytes[..k]))
      case Interrupted => Result(-1, after.(errno := EINTR))
      case WouldBlock => Result(-1, after.(errno := EAGAIN))
      case Broken => Result(-1, after.(errno := EOTHER))
  }

  /** Writen after `done` bytes of its argument, with `bytes` left. */
  function WriteRest(l: Link, bytes: seq<byte>, done: nat): (r: Result)
    ensures bytes != [] ==> |r.link.schedule| < |l.schedule| || (r.code == -1 && r.link.errno == EOTHER)
    ensures |r.link.schedule| <= |l.schedule|
    ensures -1 <= r.code <= done + |bytes|
    decreases |l.schedule|, |bytes|
  {
    if bytes == [] then Result(done, l)
    else
      var w := WriteOnce(l, bytes);
      if w.code > 0 then WriteRest(w.link, bytes[w.code..], done + w.code)
      else if w.code < 0 && w.link.errno == EINTR then WriteRest(w.link, bytes, done)
      else if w.code < 0 && w.link.errno == EAGAIN then Result(done, w.link)
      else Result(-1, w.link)
  }

  /** SendRTSP: true for RTSP_NO_ERROR. */
  datatype SendResult = SendResult(ok: bool, link: Link)

  function Send(l: Link, msg: seq<byte>): SendResult
    decreases |l.schedule|, |msg|
  {
    if msg == [] then SendResult(true, l)
    else
      var w := WriteRest(l, msg, 0);
      if w.code < 0 then
        if w.link.errno == EINTR || w.link.errno == EAGAIN then Send(w.link, msg)
        else SendResult(false, w.link)
      else if w.code == 0 then SendResult(false, w.link)
      else Send(w.link, msg[w.code..])
  }

  // ---- Exactly once ----

  /** POSIX write returns 0 for no non-empty buffer. */
  predicate NoZero(schedule: seq<WriteOutcome>) {
    forall i :: 0 <= i < |schedule| && schedule[i].Accept? ==> schedule[i].count > 0
  }

  /** Writen reports what it wrote unless the connection is broken, and it never writes a byte twice. */
  lemma {:induction false} WriteRestReports(l: Link, bytes: seq<byte>, done: nat)
    requires NoZero(l.schedule)
    ensures var r := WriteRest(l, bytes, done);
            && NoZero(r.link.schedule)
            && l.accepted <= r.link.accepted <= l.accepted + bytes
            && (r.code >= 0 ==> r.code - done == |r.link.accepted| - |l.accepted|)
            && (r.code < 0 ==> r.link.errno == EOTHER && r.link.accepted != l.accepted + bytes)
    decreases |l.schedule|, |bytes|
  {
    if bytes == [] {
    } else {
      var w := WriteOnce(l, bytes);
      assert bytes[..0] == [];
      if w.code > 0 {
        var k := w.code;
        WriteRestReports(w.link, bytes[k..], done + k);
        SplitJoin(bytes, k);
        Associative(l.accepted, bytes[..k], bytes[k..]);
      } else if w.code < 0 && w.link.errno == EINTR {
        WriteRestReports(w.link, bytes, done);
      }
    }
  }

  /**
   Over any schedule the accepted bytes are a prefix of the message, each once and in order; they
   are the whole message exactly when no error is reported.
   */
  lemma {:induction false} ExactlyOnce(l: Link, msg: seq<byte>)
    requires NoZero(l.schedule)
    ensures var r := Send(l, msg);
            && l.accepted <= r.link.accepted <= l.accepted + msg
            && (r.ok <==> r.link.accepted == l.accepted + msg)
    decreases |l.schedule|, |msg|
  {
    if msg == [] {
    } else {
      var w := WriteRest(l, msg, 0);
      WriteRestReports(l, msg, 0);
      if w.code > 0 {
        assert w.link.accepted == l.accepted + msg[..w.code];
        ExactlyOnce(w.link, msg[w.code..]);
        SplitJoin(msg, w.code);
        Associative(l.accepted, msg[..w.code], msg[w.code..]);
      }
    }
  }

  // ---- When the message goes out ----

  /**
   What may happen while these bytes are written, of which a call of Writen has written some or not: the
   link does not break or end, and no call finds the link busy before it has written anything.
   */
  predicate GoesOut(schedule: seq<WriteOutcome>, left: nat, begun: bool)
    decreases |schedule|
  {
    if left == 0 then true
    else if schedule == [] then false
    else
      match schedule[0]
      case Accept(n) => GoesOut(schedule[1..], left - Min(n, left), true)
      case Interrupted => GoesOut(schedule[1..], left, begun)
      case WouldBlock => begun && GoesOut(schedule[1..], left, false)
      case Broken => false
  }

  /** What SendRTSP makes of a call of Writen that had `bytes` left after `done` bytes. */
  predicate Succeeds(w: Result, bytes: seq<byte>, done: nat) {
    w.code > 0 && done <= w.code && w.code - done <= |bytes| && Send(w.link, bytes[w.code - done..]).ok
  }

  predicate GoOn(l: Link, bytes: seq<byte>, done: nat) {
    Succeeds(WriteRest(l, bytes, done), bytes, done)
  }

  lemma SucceedsBehind(w: Result, bytes: seq<byte>, done: nat, k: nat)
    requires k <= |bytes| && (w.code < 0 || done + k <= w.code)
    ensures Succeeds(w, bytes, done) == Succeeds(w, bytes[k..], done + k)
  {
    if w.code >= 0 && w.code - done <= |bytes| {
      DropDrop(bytes, k, w.code - done - k);
    }
  }

  lemma TakesSome(l: Link, bytes: seq<byte>, done: nat)
    requires NoZero(l.schedule) && bytes != [] && l.schedule != [] && l.schedule[0].Accept?
    requires l.schedule[0].count < |bytes|
    ensures var k, w := l.schedule[0].count, WriteOnce(l, bytes);
            && w.code == k > 0 && NoZero(w.link.schedule) && w.link.schedule == l.schedule[1..]
            && WriteRest(l, bytes, done) == WriteRest(w.link, bytes[k..], done + k)
  {
  }

  /** A write that takes some of the bytes, and not all. */
  lemma GoOnSome(l: Link, bytes: seq<byte>, done: nat)
    requires NoZero(l.schedule) && bytes != [] && l.schedule != [] && l.schedule[0].Accept?
    requires l.schedule[0].count < |bytes|
    ensures var k := l.schedule[0].count;
            var w := WriteOnce(l, bytes);
            && w.code == k > 0 && NoZero(w.link.schedule) && w.link.schedule == l.schedule[1..]
            && GoOn(l, bytes, done) == GoOn(w.link, bytes[k..], done + k)
  {
    var k, w := l.schedule[0].count, WriteOnce(l, bytes);
    TakesSome(l, bytes, done);
    ReportsFrom(w.link, bytes[k..], done + k);
    SucceedsBehind(WriteRest(l, bytes, done), bytes, done, k);
  }

  lemma ReportsFrom(l: Link, bytes: seq<byte>, done: nat)
    requires NoZero(l.schedule)
    ensures var c := WriteRest(l, bytes, done).code; c < 0 || c >= done
  {
    WriteRestReports(l, bytes, done);
  }

  /** A write that takes all of them. */
  lemma GoOnAll(l: Link, bytes: seq<byte>, done: nat)
    requires NoZero(l.schedule) && bytes != [] && l.schedule != [] && l.schedule[0].Accept?
    requires l.schedule[0].count >= |bytes|
    ensures GoOn(l, bytes, done)
  {
    assert bytes[|bytes|..] == [];
    assert WriteRest(l, bytes, done).code == done + |bytes|;
  }

  /** A write that would block. */
  lemma GoOnBusy(l: Link, bytes: seq<byte>, done: nat)
    requires NoZero(l.schedule) && bytes != [] && l.schedule != [] && l.schedule[0].WouldBlock?
    ensures var w := WriteOnce(l, bytes);
            && NoZero(w.link.schedule) && w.link.schedule == l.schedule[1..]
            && (GoOn(l, bytes, done) <==> done > 0 && GoOn(w.link, bytes, 0))
  {
    assert bytes[0..] == bytes;
    SendGoesOn(WriteOnce(l, bytes).link, bytes);
  }

  lemma GoOnAgain(l: Link, bytes: seq<byte>, done: nat)
    requires NoZero(l.schedule) && bytes != [] && l.schedule != [] && l.schedule[0].Interrupted?
    ensures var w := WriteOnce(l, bytes);
            && NoZero(w.link.schedule) && w.link.schedule == l.schedule[1..]
            && GoOn(l, bytes, done) == GoOn(w.link, bytes, done)
  {
  }

  lemma GoOnNever(l: Link, bytes: seq<byte>, done: nat)
    requires bytes != [] && (l.schedule == [] || l.schedule[0].Broken?)
    ensures !GoOn(l, bytes, done)
  {
  }

  lemma {:induction false} GoOnIff(l: Link, bytes: seq<byte>, done: nat)
    requires NoZero(l.schedule) && bytes != []
    ensures GoOn(l, bytes, done) <==> GoesOut(l.schedule, |bytes|, done > 0)
    decreases |l.schedule|
  {
    if l.schedule == [] {
      GoOnNever(l, bytes, done);
    } else {
      var next := WriteOnce(l, bytes).link;
      match l.schedule[0]
      case Accept(k) =>
        if k < |bytes| {
          GoOnSome(l, bytes, done);
          GoOnIff(next, bytes[k..], done + k);
        } else {
          GoOnAll(l, bytes, done);
        }
      case Interrupted =>
        GoOnAgain(l, bytes, done);
        GoOnIff(next, bytes, done);
      case WouldBlock =>
        GoOnBusy(l, bytes, done);
        GoOnIff(next, bytes, 0);
      case Broken => GoOnNever(l, bytes, done);
    }
  }

  lemma SendGoesOn(l: Link, msg: seq<byte>)
    requires NoZero(l.schedule) && msg != []
    ensures Send(l, msg).ok <==> GoOn(l, msg, 0)
  {
    WriteRestReports(l, msg, 0);
  }

  /** SendRTSP succeeds on exactly those schedules. */
  lemma SentIff(l: Link, msg: seq<byte>)
    requires NoZero(l.schedule)
    ensures Send(l, msg).ok <==> GoesOut(l.schedule, |msg|, false)
  {
    if msg != [] {
      SendGoesOn(l, msg);
      GoOnIff(l, msg, 0);
    }
  }

  /** If write could return 0, an errno left by an earlier interruption would make the loop write a byte again. */
  lemma ZeroWriteRepeats(a: byte, b: byte)
    ensures var l := Link([], [Accept(1), Interrupted, Accept(0), Accept(2)], NoError);
            Send(l, [a, b]) == SendResult(true, Link([a, a, b], [], EINTR))
  {
    var msg := [a, b];
    var l := Link([], [Accept(1), Interrupted, Accept(0), Accept(2)], NoError);
    var l1 := Link([a], [Interrupted, Accept(0), Accept(2)], NoError);
    var l2 := Link([a], [Accept(0), Accept(2)], EINTR);
    var l3 := Link([a], [Accept(2)], EINTR);
    var l4 := Link([a, a, b], [], EINTR);
    assert l.schedule[1..] == l1.schedule && msg[..1] == [a] && msg[1..] == [b];
    assert WriteOnce(l, msg) == Result(1, l1);
    assert l1.schedule[1..] == l2.schedule;
    assert WriteOnce(l1, [b]) == Result(-1, l2);
    assert l2.schedule[1..] == l3.schedule && l2.accepted + [b][..0] == [a];
    assert WriteOnce(l2, [b]) == Result(0, l3);
    assert WriteRest(l2, [b], 1) == Result(-1, l3);
    assert WriteRest(l1, [b], 1) == Result(-1, l3);
    assert WriteRest(l, msg, 0) == Result(-1, l3);
    assert l3.schedule[1..] == [] && msg[..2] == msg && l3.accepted + msg == [a, a, b];
    assert WriteOnce(l3, msg) == Result(2, l4);
    assert msg[2..] == [];
    assert WriteRest(l3, msg, 0) == Result(2, l4);
    assert Send(l3, msg) == SendResult(true, l4);
  }

  // ---- The loops ----

  class OutSocket {
    var link: Link

    constructor (schedule: seq<WriteOutcome>)
      ensures link == Link([], schedule, NoError)
    {
      link := Link([], schedule, NoError);
    }

    method Write(bytes: seq<byte>) returns (n: int)
      modifies this
      ensures Result(n, link) == WriteOnce(old(link), bytes)
    {
      var r := WriteOnce(link, bytes);
      n, link := r.code, r.link;
    }

    method Writen(bytes: seq<byte>) returns (code: int)
      modifies this
      ensures Result(code, link) == WriteRest(old(link), bytes, 0)
    {
      var left: nat, at: nat := |bytes|, 0;
      while left > 0
        invariant at + left == |bytes|
        invariant WriteRest(old(link), bytes, 0) == WriteRest(link, bytes[at..], at)
        decreases |link.schedule|, left
      {
        ghost var before := link;
        var n := Write(bytes[at..]);
        if n <= 0 {
          if n < 0 && link.errno == EINTR {
            n := 0;
          } else if n < 0 && (link.errno == EAGAIN) {
            return |bytes| - left;
          } else {
            return -1;
          }
        }
        assert bytes[at..][n..] == bytes[at + n..];
        left := left - n;
        at := at + n;
      }
      assert bytes[at..] == [];
      return |bytes|;
    }

    method SendRtsp(msg: seq<byte>) returns (ok: bool)
      modifies this
      ensures SendResult(ok, link) == Send(old(link), msg)
      ensures NoZero(old(link.schedule)) ==>
                && old(link.accepted) <= link.accepted <= old(link.accepted) + msg
                && (ok <==> link.accepted == old(link.accepted) + msg)
                && (ok <==> GoesOut(old(link.schedule), |msg|, false))
    {
      if NoZero(link.schedule) {
        ExactlyOnce(link, msg);
        SentIff(link, msg);
      }
      var index: nat, size: nat := 0, |msg|;
      while size > 0
        invariant index + size == |msg|
        invariant Send(old(link), msg) == Send(link, msg[index..])
        decreases |link.schedule|, size
      {
        var n := Writen(msg[index..]);
        if n < 0 {
          if link.errno == EINTR || link.errno == EAGAIN {
            continue;
          }
          return false;
        } else if n == 0 {
          return false;
        }
        assert msg[index..][n..] == msg[index + n..];
        index := index + n;
        size := size - n;
      }
      assert msg[index..] == [];
      return true;
    }
  }
}
