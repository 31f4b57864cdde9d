/**
 RecvRTSP on a socket that does not block: when a header block still arrives whole. A read that
 would block ends ReadLine with the part of the line that it has, and the loop goes on as if a line
 had ended there.
 */
module CutLines {
  import opened Common
  import opened Receiving
  import opened HeaderLines

  /** The loop in the middle of a line. */
  function Going(f: Feed, left: nat, line: seq<byte>, stored: seq<byte>): Received
    requires left >= 1 && |line| < left
  {
    AfterLine(LineFrom(f, left, line), left, stored)
  }

  function AfterLine(r: Got, left: nat, stored: seq<byte>): Received
    requires r.code <= left
  {
    if r.code < 0 then Received(false, stored + r.bytes, r.feed)
    else if r.code == 0 then Received(false, stored, r.feed)
    else if r.code <= 2 && Blank(r.bytes) then Received(true, stored + r.bytes, r.feed)
    else HeaderFrom(r.feed, left - r.code, stored + r.bytes)
  }

  function PlaceBehind(line: seq<byte>): Place {
    if line == [] then Start else if line == [CR] then AfterCR else Inside
  }

  /** A text that a line reader takes for a blank line and more. */
  predicate LooksBlank(b: seq<byte>) {
    (|b| > 1 && b[0] == LF) || (|b| > 2 && b[0] == CR && b[1] == LF)
  }

  /**
   What may happen while `block` is read, of which a line has been begun or not: the link does not
   break, no call of ReadLine finds nothing to read, and none ends in front of a rest that looks
   like a blank line and is not the end of the block.
   */
  predicate Undisturbed(schedule: seq<ReadOutcome>, block: seq<byte>, begun: bool)
    decreases |schedule|
  {
    schedule == [] || block == [] ||
    match schedule[0]
    case Give(_) => Undisturbed(schedule[1..], block[1..], block[0] != LF)
    case Interrupted => Undisturbed(schedule[1..], block, begun)
    case WouldBlock => begun && !LooksBlank(block) && Undisturbed(schedule[1..], block, false)
    case Broken => false
  }

  // ---- One read ----

  predicate Gives(f: Feed) {
    f.schedule == [] || f.schedule[0].Give?
  }

  lemma OneByte(f: Feed, b: seq<byte>, body: seq<byte>)
    requires f.input == b + body && b != [] && Gives(f)
    ensures var r := ReadOnce(f, 1);
            && r.code == 1 && r.bytes == [b[0]] && r.feed.input == b[1..] + body
            && r.feed.schedule == (if f.schedule == [] then [] else f.schedule[1..])
  {
    DropAppended(b, body, 1);
    assert (b + body)[..1] == [b[0]];
  }

  /** The line goes on, or ends behind a line feed. */
  lemma GoingGives(f: Feed, left: nat, line: seq<byte>, stored: seq<byte>, b: seq<byte>, body: seq<byte>)
    requires f.input == b + body && b != [] && Gives(f) && |line| + 1 < left
    ensures var g := ReadOnce(f, 1).feed;
            Going(f, left, line, stored) ==
            if b[0] == LF then AfterLine(Got(|line| + 1, line + [LF], g), left, stored)
            else Going(g, left, line + [b[0]], stored)
  {
    OneByte(f, b, body);
  }

  lemma GoingStops(f: Feed, left: nat, line: seq<byte>, stored: seq<byte>)
    requires |line| + 1 < left && !Gives(f) && LF !in line
    ensures var g := ReadOnce(f, 1).feed;
            && g.input == f.input && g.schedule == f.schedule[1..]
            && (f.schedule[0].Interrupted? ==> Going(f, left, line, stored) == Going(g, left, line, stored))
            && (f.schedule[0].Broken? ==> !Going(f, left, line, stored).ok)
            && (f.schedule[0].WouldBlock? ==>
                  if line == [] then !Going(f, left, line, stored).ok
                  else Going(f, left, line, stored) == Going(g, left - |line|, [], stored + line))
  {
    if f.schedule[0].WouldBlock? && line != [] {
      assert !Blank(line) by {
        assert line[|line| - 1] in line;
      }
    }
  }

  // ---- A cut that looks blank ----

  /** A line begun and text ahead of it that make a blank line, with more of the block behind it. */
  predicate BlankAhead(line: seq<byte>, b: seq<byte>) {
    (line == [] && LooksBlank(b)) || (line == [CR] && |b| > 1 && b[0] == LF)
  }

  /** The loop ends there at the latest. */
  lemma {:induction false} StopsEarly(f: Feed, left: nat, line: seq<byte>, stored: seq<byte>, b: seq<byte>, body: seq<byte>)
    requires f.input == b + body && BlankAhead(line, b) && |line| + |b| < left
    ensures var r := Going(f, left, line, stored);
            r.ok ==> |r.bytes| < |stored| + |line| + |b|
    decreases |b|, |f.schedule|
  {
    var g := ReadOnce(f, 1).feed;
    if Gives(f) {
      OneByte(f, b, body);
      GoingGives(f, left, line, stored, b, body);
      if b[0] == LF {
        assert Blank(line + [LF]);
      } else {
        StopsEarly(g, left, line + [b[0]], stored, b[1..], body);
      }
    } else {
      GoingStops(f, left, line, stored);
      if f.schedule[0].Interrupted? {
        StopsEarly(g, left, line, stored, b, body);
      } else if f.schedule[0].WouldBlock? && line != [] {
        StopsEarly(g, left - |line|, [], stored + line, b, body);
      }
    }
  }

  // ---- When the block arrives whole ----

  predicate Whole(r: Received, bytes: seq<byte>, body: seq<byte>) {
    r.ok && r.bytes == bytes && r.feed.input == body
  }

  /** The place behind a longer line. */
  lemma PlaceNext(line: seq<byte>, c: byte)
    requires LF !in line && c != LF
    ensures PlaceBehind(line + [c]) == (if c == CR && PlaceBehind(line) == Start then AfterCR else Inside)
    ensures LF !in line + [c]
  {
    if line != [] {
      assert |line + [c]| >= 2;
    } else {
      assert line + [c] == [c];
    }
  }

  /** Behind a cut the block ends where it did, unless the rest looks like a blank line. */
  lemma PlaceForgotten(b: seq<byte>, p: Place)
    requires HeaderEnd(b, p) == Took(|b|) && p != Start && !LooksBlank(b)
    ensures HeaderEnd(b, Start) == Took(|b|)
  {
    if |b| == 2 {
      PairInside(b, p);
    }
  }

  lemma PairInside(b: seq<byte>, p: Place)
    requires |b| == 2 && p != Start
    ensures b[0] == CR && b[1] == LF ==> HeaderEnd(b, p) == Wait
  {
    assert b[1..][1..] == [];
    assert b[1..][0] == b[1];
  }

  lemma PlaceBlank(line: seq<byte>)
    requires LF !in line
    ensures Blank(line + [LF]) <==> PlaceBehind(line) != Inside
  {
    if Blank(line + [LF]) {
      assert (line + [LF])[..|line|] == line;
    }
  }

  /** A line that ends: the block ends with it, or the loop begins the next line. */
  lemma LineEnds(g: Feed, left: nat, line: seq<byte>, stored: seq<byte>, b: seq<byte>, body: seq<byte>)
    requires b != [] && b[0] == LF && LF !in line && |line| + |b| < left
    requires g.input == b[1..] + body && HeaderEnd(b, PlaceBehind(line)) == Took(|b|)
    ensures var r := AfterLine(Got(|line| + 1, line + [LF], g), left, stored);
            && (|b| == 1 ==> Whole(r, stored + line + b, body))
            && (|b| > 1 ==>
                  && HeaderEnd(b[1..], Start) == Took(|b[1..]|)
                  && r == Going(g, left - |line| - 1, [], stored + (line + [LF])))
  {
    PlaceBlank(line);
    if |b| == 1 {
      assert b == [LF] && b[1..] == [];
      assert HeaderEnd([], Start) == Wait;
      Associative(stored, line, b);
      assert [] + body == body;
    }
  }

  lemma RegroupLine(stored: seq<byte>, line: seq<byte>, b: seq<byte>)
    requires b != []
    ensures stored + line + b == stored + (line + [b[0]]) + b[1..]
  {
  }

  lemma RegroupStored(stored: seq<byte>, b: seq<byte>)
    ensures stored + b == stored + [] + b
  {
  }

  lemma {:induction false} GoingWholeIff(f: Feed, left: nat, line: seq<byte>, stored: seq<byte>, b: seq<byte>,
                                         all: seq<byte>, body: seq<byte>)
    requires f.input == b + body && b != [] && LF !in line && |line| + |b| < left
    requires HeaderEnd(b, PlaceBehind(line)) == Took(|b|)
    requires all == stored + line + b
    ensures Whole(Going(f, left, line, stored), all, body) <==> Undisturbed(f.schedule, b, line != [])
    decreases |b|, |f.schedule|
  {
    var g := ReadOnce(f, 1).feed;
    if Gives(f) {
      OneByte(f, b, body);
      GoingGives(f, left, line, stored, b, body);
      RegroupLine(stored, line, b);
      if b[0] == LF {
        LineEnds(g, left, line, stored, b, body);
        if |b| > 1 {
          RegroupStored(stored + (line + [LF]), b[1..]);
          GoingWholeIff(g, left - |line| - 1, [], stored + (line + [LF]), b[1..], all, body);
        }
      } else {
        PlaceNext(line, b[0]);
        GoingWholeIff(g, left, line + [b[0]], stored, b[1..], all, body);
      }
    } else {
      GoingStops(f, left, line, stored);
      if f.schedule[0].Interrupted? {
        GoingWholeIff(g, left, line, stored, b, all, body);
      } else if f.schedule[0].WouldBlock? && line != [] {
        if LooksBlank(b) {
          StopsEarly(g, left - |line|, [], stored + line, b, body);
        } else {
          PlaceForgotten(b, PlaceBehind(line));
          RegroupStored(stored + line, b);
          GoingWholeIff(g, left - |line|, [], stored + line, b, all, body);
        }
      }
    }
  }

  lemma {:induction false} StoresLess(f: Feed, maxlen: nat, stored: seq<byte>)
    requires maxlen >= 1
    ensures |HeaderFrom(f, maxlen, stored).bytes| < |stored| + maxlen
    decreases maxlen
  {
    var r := LineFrom(f, maxlen, []);
    if r.code > 0 && !(r.code <= 2 && Blank(r.bytes)) && r.code < maxlen {
      StoresLess(r.feed, maxlen - r.code, stored + r.bytes);
    }
  }

  lemma HeaderFromStart(f: Feed, maxlen: nat)
    requires maxlen >= 1
    ensures HeaderFrom(f, maxlen, []) == Going(f, maxlen, [], [])
  {
  }

  lemma FramingOfEnd(f: Feed, block: seq<byte>, body: seq<byte>, maxlen: nat)
    requires f.input == block + body && HeaderEnd(block, Start) == Took(|block|)
    ensures Whole(HeaderFrom(f, maxlen, []), block, body) <==>
            |block| < maxlen && Undisturbed(f.schedule, block, false)
  {
    if |block| < maxlen {
      assert [] + [] + block == block;
      GoingWholeIff(f, maxlen, [], [], block, block, body);
      HeaderFromStart(f, maxlen);
    } else if maxlen > 0 {
      StoresLess(f, maxlen, []);
    }
  }

  /**
   On any schedule RecvRTSP stores a header block whole and leaves the stream at the byte behind it
   exactly when the block is shorter than the buffer and nothing disturbs its reading.
   */
  lemma FramingIff(f: Feed, block: seq<byte>, body: seq<byte>, maxlen: nat)
    requires f.input == block + body && IsHeaderBlock(block)
    ensures Whole(HeaderFrom(f, maxlen, []), block, body) <==>
            |block| < maxlen && Undisturbed(f.schedule, block, false)
  {
    HeaderEndOfBlock(block);
    FramingOfEnd(f, block, body, maxlen);
  }

  // ---- An input that fails ----

  /** A stream that does not block can make the loop take the rest of a line for a blank line. */
  lemma CutLineLooksBlank(a: byte)
    requires a != LF && a != CR
    ensures var s: seq<byte> := [a, LF, LF];
            var f := Feed(s, [Give(1), WouldBlock], NoError);
            && HeaderEnd(s, Start) == Took(3)
            && HeaderFrom(f, 10, []) == Received(true, [a, LF], Feed([LF], [], EAGAIN))
  {
    var lf := LF;
    var s: seq<byte> := [a, lf, lf];
    var t: seq<byte> := [lf, lf];
    var f2 := Feed(t, [], EAGAIN);
    assert s[1..] == t && t[1..] == [lf];
    assert HeaderEnd(t, Inside) == Took(2) by {
      assert HeaderEnd([lf], Start) == Took(1);
    }
    CutLineFirst(a, t);
    CutLineSecond(a);
    assert [] + [a] == [a] && s == [a] + t;
    assert [a][0] != [lf][0] && !Blank([a]);
    assert HeaderFrom(f2, 9, [a]) == HeaderFrom(Feed(s, [Give(1), WouldBlock], NoError), 10, []);
  }

  lemma CutLineFirst(a: byte, t: seq<byte>)
    requires a != LF
    ensures LineFrom(Feed([a] + t, [Give(1), WouldBlock], NoError), 10, []) == Got(1, [a], Feed(t, [], EAGAIN))
  {
    var f := Feed([a] + t, [Give(1), WouldBlock], NoError);
    var f1 := Feed(t, [WouldBlock], NoError);
    assert f.schedule[1..] == f1.schedule && f1.schedule[1..] == [];
    assert f.input[..1] == [a] && f.input[1..] == t;
    assert ReadOnce(f, 1) == Got(1, [a], f1);
    assert ReadOnce(f1, 1) == Got(-1, [], Feed(t, [], EAGAIN));
    assert [] + [a] == [a];
    assert LineFrom(f1, 10, [a]) == Got(1, [a], Feed(t, [], EAGAIN));
  }

  lemma CutLineSecond(a: byte)
    ensures var lf := LF;
            HeaderFrom(Feed([lf, lf], [], EAGAIN), 9, [a]) == Received(true, [a, lf], Feed([lf], [], EAGAIN))
  {
    var lf := LF;
    var f2 := Feed([lf, lf], [], EAGAIN);
    assert f2.input[1..] == [lf] && f2.input[..1] == [lf];
    assert ReadOnce(f2, 1) == Got(1, [lf], Feed([lf], [], EAGAIN));
    assert LineFrom(f2, 9, []) == Got(1, [lf], Feed([lf], [], EAGAIN));
    assert [a] + [lf] == [a, lf];
  }
}
