/**
 What the interleaved decoder leaves on the connection, and when it waits: by the bytes that are queued
 and their positions, for every state, for whole streams, for one call and for runs of text.
 */
module Pending {
  import opened Common
  import opened Interleaved
  import opened Resynchronisation
  import HeaderLines

  /** The first one, two or three bytes of what may be a frame or a response. */
  predicate Short(s: seq<byte>) {
    s != [] && IsMarker(s[0]) && (|s| == 1 || (IsChannel(s[1]) && |s| < 4))
  }

  /** A response of which no blank line has come yet, and less than the line loop asks for. */
  ghost predicate Incomplete(s: seq<byte>) {
    IsResponse(s) && |s| - 2 < 8191 && HeaderLines.NoBlankLine(s[2..])
  }

  /** The decoder cannot take a turn on these bytes, by what they are. */
  ghost predicate Stuck(d: Decoder, s: seq<byte>) {
    match d.state
    case RecvLen => Short(s) || (d.armed && Incomplete(s))
    case RecvData => 0 < |s| < d.dataLength
    case _ => false
  }

  /** The next turn waits for more bytes exactly on those. */
  lemma WaitIff(d: Decoder, s: seq<byte>)
    requires s != []
    ensures NextTurn(d, s).Wait? <==> Stuck(d, s)
  {
    if d.state == RecvLen && |s| >= 4 {
      ResponseStarts(s);
      HeaderLines.HeaderWaitsIff(s[2..], COMMAND_BUFFER);
    }
  }

  /** How many bytes the next turn takes, by what they are, and in which state it leaves the decoder. */
  lemma TakesOf(d: Decoder, s: seq<byte>)
    requires s != [] && !Stuck(d, s)
    ensures var m := NextTurn(d, s);
            && m.Moved?
            && match d.state
               case RecvLen =>
                 if !IsMarker(s[0]) then m == Moved(1, d, [])
                 else if !IsChannel(s[1]) then m == Moved(2, d, [])
                 else if s[0] == '$' as int then m == Moved(4, Decoder(RecvData, 256 * s[2] as int + s[3] as int, s[1] == 0, d.armed), [])
                 else if !d.armed || !IsResponse(s) then m == Moved(2, d, [])
                 else m.next == d.(armed := false)
               case RecvData =>
                 m == Moved(d.dataLength, d.(state := RecvLen), [Frame(s[..d.dataLength], d.isRtp)])
               case _ => m == Moved(0, d.(state := RecvLen), [])
  {
    WaitIff(d, s);
    if |s| >= 4 {
      ResponseStarts(s);
    }
  }

  // ---- Streams and calls ----

  predicate Left(rest: seq<byte>, s: seq<byte>) {
    |rest| <= |s| && rest == s[|s| - |rest|..]
  }

  /** What a whole stream leaves is an end of it; it is nothing, or the decoder is stuck on it and waits. */
  lemma {:induction false} DrainLeaves(d: Decoder, s: seq<byte>)
    ensures var r := Drain(d, s);
            && Left(r.rest, s)
            && (r.waiting <==> r.rest != [])
            && (r.rest != [] ==> Stuck(r.decoder, r.rest))
    decreases |s|, Rank(d)
  {
    if s == [] {
    } else if NextTurn(d, s).Wait? {
      WaitIff(d, s);
    } else {
      var m := NextTurn(d, s);
      DrainLeaves(m.next, s[m.used..]);
    }
  }

  /**
   And one call: it waits exactly if it leaves something that the decoder is stuck on, having delivered no
   packet. A call that does not wait has delivered a packet, or leaves nothing.
   */
  lemma {:induction false} PollLeaves(d: Decoder, s: seq<byte>)
    ensures var r := Poll(d, s);
            && (r.waiting ==> Stuck(r.decoder, r.rest) && !DeliversFrame(r.out))
            && (!r.waiting ==> r.rest == [] || DeliversFrame(r.out))
    decreases |s|, Rank(d)
  {
    if s == [] {
    } else if NextTurn(d, s).Wait? {
      WaitIff(d, s);
    } else {
      var m := NextTurn(d, s);
      if !DeliversFrame(m.out) {
        PollLeaves(m.next, s[m.used..]);
        DeliversAppended(m.out, Poll(m.next, s[m.used..]).out);
      }
    }
  }

  // ---- Runs of text ----

  /** The decoder looks at the byte behind a front that ends in an even number of markers. */
  predicate LooksAt(s: seq<byte>, i: nat) {
    i <= |s| && KeepsStep(s[..i])
  }

  /** It is stuck at none of the places that it looks at in the run t, with the rest behind it. */
  ghost predicate FreeOf(d: Decoder, t: seq<byte>, rest: seq<byte>) {
    forall i :: 0 <= i < |t| && LooksAt(t, i) ==> !Stuck(d, t[i..] + rest)
  }

  lemma StepsOfTail(t: seq<byte>, k: nat, i: nat)
    requires k <= i <= |t| && KeepsStep(t[..k])
    ensures KeepsStep(t[k..][..i - k]) <==> KeepsStep(t[..i])
  {
    LeavesHalfIffOdd(t[..k]);
    LeavesHalfIffOdd(t[..i]);
    LeavesHalfIffOdd(t[k..][..i - k]);
    assert t[..i] == t[..k] + t[k..][..i - k];
    HalfBehind(t[..k], t[k..][..i - k]);
  }

  lemma {:induction false} HalfBehind(a: seq<byte>, b: seq<byte>)
    requires !LeavesHalf(a)
    ensures LeavesHalf(a + b) <==> LeavesHalf(b)
    decreases |a|
  {
    if a == [] {
      assert a + b == b;
    } else if !IsMarker(a[0]) {
      assert (a + b)[1..] == a[1..] + b;
      HalfBehind(a[1..], b);
    } else {
      assert (a + b)[2..] == a[2..] + b;
      HalfBehind(a[2..], b);
    }
  }

  /** One place that it looks at: it takes one or two bytes and looks at the next. */
  lemma FreeOfTail(d: Decoder, t: seq<byte>, rest: seq<byte>, k: nat)
    requires FreeOf(d, t, rest) && k <= |t| && KeepsStep(t[..k])
    ensures FreeOf(d, t[k..], rest)
  {
    forall i | 0 <= i < |t[k..]| && LooksAt(t[k..], i)
      ensures !Stuck(d, t[k..][i..] + rest)
    {
      StepsOfTail(t, k, k + i);
      assert t[k..][i..] == t[k + i..];
      assert LooksAt(t, k + i);
    }
  }

  lemma OneOrTwo(t: seq<byte>)
    requires t != []
    ensures !IsMarker(t[0]) ==> KeepsStep(t[..1])
    ensures |t| >= 2 && IsMarker(t[0]) ==> KeepsStep(t[..2])
    ensures KeepsStep([])
  {
    LeavesHalfIffOdd(t[..1]);
    LeavesHalfIffOdd([]);
    if |t| >= 2 {
      LeavesHalfIffOdd(t[..2]);
    }
  }

  /** Skipped without trace: what follows is decoded as if the run had not been there, to the byte. */
  lemma {:induction false} SkipExactly(d: Decoder, t: seq<byte>, rest: seq<byte>)
    requires AtFrameStart(d) && Frameless(t) && !LeavesHalf(t) && FreeOf(d, t, rest)
    requires !d.armed || Silent(t, rest)
    ensures Drain(d, t + rest) == Drain(d, rest)
    decreases |t|
  {
    var s := t + rest;
    if t == [] {
      assert s == rest;
    } else {
      var k := if IsMarker(t[0]) then 2 else 1;
      OneOrTwo(t);
      assert t[..0] == [] && LooksAt(t, 0);
      assert t[0..] == t;
      DropAppended(t, rest, k);
      TakesOf(d, s);
      FreeOfTail(d, t, rest, k);
      SkipExactly(d, t[k..], rest);
      var r := Drain(d, t[k..] + rest);
      assert [] + r.out == r.out;
    }
  }

  /** The first place in a run that the decoder looks at and is stuck on. */
  ghost predicate FirstStuck(d: Decoder, s: seq<byte>, i: nat) {
    i < |s| && LooksAt(s, i) && Stuck(d, s[i..]) && forall j :: 0 <= j < i && LooksAt(s, j) ==> !Stuck(d, s[j..])
  }

  /** With text queued and no callback it stops at that place, with all from there on pending. */
  lemma TextStuck(d: Decoder, s: seq<byte>, i: nat)
    requires AtFrameStart(d) && !d.armed && Frameless(s) && FirstStuck(d, s, i)
    ensures Drain(d, s) == Progress(d, s[i..], [], true)
  {
    SplitJoin(s, i);
    LeavesHalfIffOdd(s[..i]);
    FramelessFront(s, i);
    forall j | 0 <= j < i && LooksAt(s[..i], j)
      ensures !Stuck(d, s[..i][j..] + s[i..])
    {
      assert s[..i][..j] == s[..j] && s[..i][j..] + s[i..] == s[j..];
    }
    SkipExactly(d, s[..i], s[i..]);
    WaitIff(d, s[i..]);
  }

  lemma {:induction false} FramelessFront(s: seq<byte>, i: nat)
    requires Frameless(s) && i <= |s|
    ensures Frameless(s[..i])
    decreases |s|
  {
    if i == 0 {
    } else if !IsMarker(s[0]) {
      FramelessFront(s[1..], i - 1);
      assert s[..i][1..] == s[1..][..i - 1];
    } else if i >= 2 {
      FramelessFront(s[2..], i - 2);
      assert s[..i][2..] == s[2..][..i - 2];
    }
  }

  /** If there is none, all of it is gone. */
  lemma TextGone(d: Decoder, s: seq<byte>)
    requires AtFrameStart(d) && !d.armed && Frameless(s)
    requires forall i :: 0 <= i < |s| && LooksAt(s, i) ==> !Stuck(d, s[i..])
    ensures Drain(d, s) == Progress(d, [], [], false)
  {
    HalfIsStuck(d, s);
    forall j | 0 <= j < |s| && LooksAt(s, j)
      ensures !Stuck(d, s[j..] + [])
    {
      assert s[j..] + [] == s[j..];
    }
    SkipExactly(d, s, []);
    assert s + [] == s;
  }

  /** A run that ends in the middle of a pair ends in a marker that the decoder is stuck on. */
  lemma HalfIsStuck(d: Decoder, s: seq<byte>)
    requires AtFrameStart(d)
    ensures LeavesHalf(s) ==> s != [] && LooksAt(s, |s| - 1) && Stuck(d, s[|s| - 1..])
  {
    if LeavesHalf(s) {
      HalfLast(s);
      assert s[|s| - 1..] == [s[|s| - 1]];
    }
  }

  lemma HalfLast(s: seq<byte>)
    requires LeavesHalf(s)
    ensures s != [] && IsMarker(s[|s| - 1]) && KeepsStep(s[..|s| - 1])
  {
    LeavesHalfIffOdd(s);
    OddLast(s, TrailingMarkers(s));
  }

  lemma OddLast(s: seq<byte>, n: nat)
    requires n == TrailingMarkers(s) && n % 2 == 1
    ensures s != [] && IsMarker(s[|s| - 1]) && KeepsStep(s[..|s| - 1])
  {
    assert n == 1 + TrailingMarkers(s[..|s| - 1]);
    assert (n - 1) % 2 == 0;
  }

  /**
   So text leaves something, and the decoder waits, if and only if one of the places that it looks at has a
   marker alone, or a marker with 0, 1 or T and fewer than four bytes.
   */
  lemma TextPendingIff(d: Decoder, s: seq<byte>)
    requires AtFrameStart(d) && !d.armed && Frameless(s)
    ensures Drain(d, s).waiting <==> exists i :: 0 <= i < |s| && LooksAt(s, i) && Short(s[i..])
    ensures !Drain(d, s).waiting ==> Drain(d, s).rest == []
    ensures Drain(d, s).waiting ==> |Drain(d, s).rest| < 4
  {
    if exists i :: 0 <= i < |s| && LooksAt(s, i) && Stuck(d, s[i..]) {
      var i :| 0 <= i < |s| && LooksAt(s, i) && Stuck(d, s[i..]);
      var k := Least(d, s, i);
      TextStuck(d, s, k);
      assert Short(s[k..]);
    } else {
      TextGone(d, s);
      forall i | 0 <= i < |s| && LooksAt(s, i)
        ensures !Short(s[i..])
      {
        assert !Stuck(d, s[i..]);
      }
    }
  }

  lemma {:induction false} Least(d: Decoder, s: seq<byte>, i: nat) returns (k: nat)
    requires i < |s| && LooksAt(s, i) && Stuck(d, s[i..])
    ensures FirstStuck(d, s, k)
    decreases i
  {
    if j :| 0 <= j < i && LooksAt(s, j) && Stuck(d, s[j..]) {
      k := Least(d, s, j);
    } else {
      k := i;
    }
  }

  /** With a callback armed, a response that is incomplete by position is what is left of it, behind any text. */
  lemma ResponsePending(d: Decoder, t: seq<byte>, r: seq<byte>)
    requires AtFrameStart(d) && d.armed && Frameless(t) && !LeavesHalf(t) && Silent(t, r) && FreeOf(d, t, r)
    requires Incomplete(r)
    ensures Drain(d, t + r) == Progress(d, r, [], true)
  {
    SkipExactly(d, t, r);
    WaitIff(d, r);
  }
}
