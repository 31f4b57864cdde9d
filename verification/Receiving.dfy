/**
 Reading a response: ReadLine, Readn and the loops of RecvRTSP and RecvSDP over any finite
 schedule of what read does. A schedule that is used up gives all that is asked for; a stream
 that is used up is at its end.
 */
module Receiving {
  import opened Common
  import HeaderLines

  datatype ReadOutcome = Give(count: nat) | Interrupted | WouldBlock | Broken

  /** What the peer has still to deliver, how read will behave, and errno. */
  datatype Feed = Feed(input: seq<byte>, schedule: seq<ReadOutcome>, errno: Errno)

  /** A return code, the bytes stored meanwhile, and the feed afterwards. */
  datatype Got = Got(code: int, bytes: seq<byte>, feed: Feed)

  function Deliver(f: Feed, n: nat): Got
    requires n <= |f.input|
  {
    Got(n, f.input[..n], f.(input := f.input[n..]))
  }

  /** One read call for up to `want` bytes: at least one if there are any, none at the end of the stream. */
  function ReadOnce(f: Feed, want: nat): (r: Got)
    requires want >= 1
    ensures r.code == -1 || (r.code == |r.bytes| <= want)
    ensures r.code == -1 ==> r.bytes == []
    ensures f.input == r.bytes + r.feed.input
    ensures r.code <= 0 ==> r.feed.input == f.input
    ensures r.code == 0 ==> f.input == []
    ensures r.code == -1 ==> r.feed.errno != NoError
  {
    if f.schedule == [] then Deliver(f, Min(want, |f.input|))
    else
      var after := f.(schedule := f.schedule[1..]);
      match f.schedule[0]
      case Give(n) => Deliver(after, Min(Max(n, 1), Min(want, |f.input|)))
      case Interrupted => Got(-1, [], after.(errno := EINTR))
      case WouldBlock => Got(-1, [], after.(errno := EAGAIN))
      case Broken => Got(-1, [], after.(errno := EOTHER))
  }

  lemma ReadProgress(f: Feed, want: nat)
    requires want >= 1
    ensures var r := ReadOnce(f, want);
            && |r.feed.schedule| <= |f.schedule|
            && (r.code < 0 ==> |r.feed.schedule| < |f.schedule|)
            && (r.code > 0 ==> |r.feed.input| < |f.input|)
  {
  }

  /** ReadLine with the bytes in `line` already stored. */
  function LineFrom(f: Feed, limit: nat, line: seq<byte>): (r: Got)
    ensures -1 <= r.code <= Max(limit, |line| + 1)
    ensures line <= r.bytes && |r.bytes| < Max(limit, |line| + 1)
    ensures r.code >= 0 ==> |r.bytes| <= r.code && (|r.bytes| < r.code ==> r.code >= limit)
    decreases limit - |line|, |f.schedule|
  {
    var n := |line| + 1;
    if n >= limit then Got(n, line, f)
    else
      ReadProgress(f, 1);
      var r := ReadOnce(f, 1);
      if r.code == 1 then
        if r.bytes == [HeaderLines.LF] then Got(n, line + r.bytes, r.feed)
        else LineFrom(r.feed, limit, line + r.bytes)
      else if r.code == 0 then Got(n - 1, line, r.feed)
      else if r.feed.errno == EINTR then LineFrom(r.feed, limit, line)
      else if r.feed.errno == EAGAIN then Got(n - 1, line, r.feed)
      else Got(-1, line, r.feed)
  }

  /** Readn with `done` bytes stored and `left` to go. */
  function RestFrom(f: Feed, left: nat, done: seq<byte>): (r: Got)
    decreases left, |f.schedule|
  {
    if left == 0 then Got(|done|, done, f)
    else
      ReadProgress(f, left);
      var r := ReadOnce(f, left);
      if r.code < 0 then
        if r.feed.errno == EINTR then RestFrom(r.feed, left, done)
        else if r.feed.errno == EAGAIN then Got(|done|, done, r.feed)
        else Got(-1, done, r.feed)
      else if r.code == 0 then Got(|done|, done, r.feed)
      else RestFrom(r.feed, left - r.code, done + r.bytes)
  }

  /** The same, for a feed of which only the input matters. */
  datatype Header = Header(ok: bool, bytes: seq<byte>, rest: seq<byte>)

  /** RTSP_NO_ERROR or not, the bytes stored at the front of the buffer, and the feed afterwards. */
  datatype Received = Received(ok: bool, bytes: seq<byte>, feed: Feed) {
    function Pure(): Header {
      Header(ok, bytes, feed.input)
    }
  }

  /** The loop of RecvRTSP. */
  function HeaderFrom(f: Feed, maxlen: nat, stored: seq<byte>): Received
    decreases maxlen
  {
    if maxlen == 0 then Received(true, stored, f)
    else
      var r := LineFrom(f, maxlen, []);
      if r.code < 0 then Received(false, stored + r.bytes, r.feed)
      else if r.code == 0 then Received(false, stored, r.feed)
      else if r.code <= 2 && HeaderLines.Blank(r.bytes) then Received(true, stored + r.bytes, r.feed)
      else HeaderFrom(r.feed, maxlen - r.code, stored + r.bytes)
  }

  /** The loop of RecvSDP. */
  function BodyFrom(f: Feed, size: nat, stored: seq<byte>): Received
    decreases size
  {
    if size == 0 then Received(true, stored, f)
    else
      var r := RestFrom(f, size, []);
      if r.code < 0 then Received(false, stored + r.bytes, r.feed)
      else if r.code == 0 then Received(false, stored, r.feed)
      else
        RestReports(f, size, []);
        BodyFrom(r.feed, size - r.code, stored + r.bytes)
  }

  // ---- Bodies ----

  /** Readn stores the bytes that it takes off the stream, and counts them. */
  lemma {:induction false} RestReports(f: Feed, left: nat, done: seq<byte>)
    ensures var r := RestFrom(f, left, done);
            && done <= r.bytes && |r.bytes| <= |done| + left
            && (r.code < 0 || r.code == |r.bytes|)
            && done + f.input == r.bytes + r.feed.input
            && (r.code < 0 ==> |r.bytes| < |done| + left)
    decreases left, |f.schedule|
  {
    if left == 0 {
    } else {
      ReadProgress(f, left);
      var r := ReadOnce(f, left);
      if r.code > 0 {
        Associative(done, r.bytes, r.feed.input);
        RestReports(r.feed, left - r.code, done + r.bytes);
      } else if r.code < 0 && r.feed.errno == EINTR {
        RestReports(r.feed, left, done);
      }
    }
  }

  /**
   Over any schedule RecvSDP stores just the bytes that it takes off the stream, and reports no
   error exactly when these are all the bytes asked for.
   */
  lemma {:induction false} BodyExact(f: Feed, size: nat, stored: seq<byte>)
    ensures var r := BodyFrom(f, size, stored);
            && stored <= r.bytes && |r.bytes| <= |stored| + size
            && stored + f.input == r.bytes + r.feed.input
            && (r.ok <==> |r.bytes| == |stored| + size)
    decreases size
  {
    if size == 0 {
    } else {
      RestReports(f, size, []);
      var r := RestFrom(f, size, []);
      assert [] + f.input == f.input;
      Associative(stored, r.bytes, r.feed.input);
      if r.code == 0 {
        assert stored + r.bytes == stored;
      } else if r.code > 0 {
        BodyExact(r.feed, size - r.code, stored + r.bytes);
      }
    }
  }

  lemma HeaderStep(f: Feed, maxlen: nat, stored: seq<byte>)
    requires maxlen > 0
    ensures var r := LineFrom(f, maxlen, []);
            && -1 <= r.code <= maxlen && |r.bytes| < maxlen && (r.code >= 0 ==> |r.bytes| <= r.code)
            && (r.code < maxlen && r.code >= 0 ==> |r.bytes| == r.code)
            && HeaderFrom(f, maxlen, stored) ==
               if r.code <= 0 then Received(false, stored + r.bytes, r.feed)
               else if r.code <= 2 && HeaderLines.Blank(r.bytes) then Received(true, stored + r.bytes, r.feed)
               else HeaderFrom(r.feed, maxlen - r.code, stored + r.bytes)
  {
    var r := LineFrom(f, maxlen, []);
    if r.code == 0 {
      assert stored + r.bytes == stored;
    }
  }

  lemma BodyStep(f: Feed, size: nat, stored: seq<byte>)
    requires size > 0
    ensures var r := RestFrom(f, size, []);
            && r.code <= size && (r.code < 0 || r.code == |r.bytes|)
            && BodyFrom(f, size, stored) ==
               if r.code <= 0 then Received(false, stored + r.bytes, r.feed)
               else BodyFrom(r.feed, size - r.code, stored + r.bytes)
  {
    RestReports(f, size, []);
    var r := RestFrom(f, size, []);
    if r.code == 0 {
      assert stored + r.bytes == stored;
    }
  }

  /** A buffer with zeros behind what is stored is filled exactly when no error is reported. */
  lemma BodyFills(f: Feed, size: nat, msg: seq<byte>)
    requires |msg| == size && BodyFrom(f, size, []).bytes <= msg
    ensures var r := BodyFrom(f, size, []); r.ok <==> msg + r.feed.input == f.input
  {
    BodyExact(f, size, []);
    var r := BodyFrom(f, size, []);
    assert [] + f.input == f.input;
    if |r.bytes| == size {
      assert msg == r.bytes;
    }
  }

  // ---- Headers on a blocking stream ----

  /** Reads are only ever cut short or interrupted. */
  predicate Blocking(f: Feed) {
    forall i :: 0 <= i < |f.schedule| ==> f.schedule[i].Give? || f.schedule[i].Interrupted?
  }

  lemma BlockingRead(f: Feed)
    requires Blocking(f)
    ensures var r := ReadOnce(f, 1);
            && Blocking(r.feed)
            && (r.code < 0 ==> r.feed.errno == EINTR)
            && (r.code == 1 ==> r.bytes == [f.input[0]] && r.feed.input == f.input[1..])
            && (r.code >= 0 && f.input != [] ==> r.code == 1)
  {
  }

  /** ReadLine on the bytes of a stream, when nothing gets in its way. */
  datatype Line = Line(code: nat, bytes: seq<byte>, rest: seq<byte>)

  function PureLine(s: seq<byte>, limit: nat, line: seq<byte>): (r: Line)
    requires |line| < limit
    ensures r.code <= limit
  {
    var n := |line| + 1;
    if n >= limit then Line(n, line, s)
    else if s == [] then Line(n - 1, line, s)
    else if s[0] == HeaderLines.LF then Line(n, line + [s[0]], s[1..])
    else PureLine(s[1..], limit, line + [s[0]])
  }

  lemma {:induction false} LineOnBlocking(f: Feed, limit: nat, line: seq<byte>)
    requires Blocking(f) && |line| < limit
    ensures var r := LineFrom(f, limit, line);
            Blocking(r.feed) && r.code >= 0 && Line(r.code, r.bytes, r.feed.input) == PureLine(f.input, limit, line)
    decreases limit - |line|, |f.schedule|
  {
    if |line| + 1 < limit {
      ReadProgress(f, 1);
      BlockingRead(f);
      var r := ReadOnce(f, 1);
      if r.code < 0 {
        LineOnBlocking(r.feed, limit, line);
      } else if r.code == 1 && r.bytes != [HeaderLines.LF] {
        LineOnBlocking(r.feed, limit, line + r.bytes);
      }
    }
  }

  /** The header loop on the bytes of a stream, when nothing gets in its way. */
  function PureHeader(s: seq<byte>, maxlen: nat, stored: seq<byte>): Header
    decreases maxlen
  {
    if maxlen == 0 then Header(true, stored, s)
    else
      var r := PureLine(s, maxlen, []);
      if r.code == 0 then Header(false, stored, r.rest)
      else if r.code <= 2 && HeaderLines.Blank(r.bytes) then Header(true, stored + r.bytes, r.rest)
      else PureHeader(r.rest, maxlen - r.code, stored + r.bytes)
  }

  lemma {:induction false} HeaderIsPure(f: Feed, maxlen: nat, stored: seq<byte>)
    requires Blocking(f)
    ensures Blocking(HeaderFrom(f, maxlen, stored).feed)
    ensures HeaderFrom(f, maxlen, stored).Pure() == PureHeader(f.input, maxlen, stored)
    decreases maxlen
  {
    if maxlen == 0 {
    } else {
      LineOnBlocking(f, maxlen, []);
      var r := LineFrom(f, maxlen, []);
      if r.code > 0 && !(r.code <= 2 && HeaderLines.Blank(r.bytes)) {
        HeaderIsPure(r.feed, maxlen - r.code, stored + r.bytes);
      }
    }
  }

  /** The line in terms of the line reader. */
  lemma {:induction false} PureLineReads(s: seq<byte>, limit: nat, line: seq<byte>)
    requires |line| < limit
    ensures match HeaderLines.LineRead(s, limit - |line|)
            case Took(n) =>
              PureLine(s, limit, line)
              == Line(|line| + HeaderLines.Reported(s[..n], limit - |line|), line + s[..n], s[n..])
            case Wait => PureLine(s, limit, line) == Line(|line| + |s|, line + s, [])
    decreases s
  {
    if |line| + 1 >= limit {
      assert line + s[..0] == line;
    } else if s == [] {
      assert line + s == line;
    } else if s[0] == HeaderLines.LF {
      assert s[..1] == [s[0]];
    } else {
      PureLineReads(s[1..], limit, line + [s[0]]);
      LineCons(s, limit - |line|);
      Associative(line, [s[0]], s[1..]);
      var t := HeaderLines.LineRead(s[1..], limit - |line| - 1);
      if t.Took? {
        Associative(line, [s[0]], s[1..][..t.count]);
      }
    }
  }

  lemma LineCons(s: seq<byte>, limit: nat)
    requires s != [] && s[0] != HeaderLines.LF && limit >= 2
    ensures var t := HeaderLines.LineRead(s[1..], limit - 1);
            && HeaderLines.LineRead(s, limit) == t.Plus(1)
            && s == [s[0]] + s[1..]
            && (t.Took? ==>
                  && s[..t.count + 1] == [s[0]] + s[1..][..t.count]
                  && s[t.count + 1..] == s[1..][t.count..]
                  && HeaderLines.Reported(s[..t.count + 1], limit) == 1 + HeaderLines.Reported(s[1..][..t.count], limit - 1))
  {
  }

  lemma FirstLineReads(s: seq<byte>, limit: nat)
    requires limit >= 1
    ensures match HeaderLines.LineRead(s, limit)
            case Took(n) => PureLine(s, limit, []) == Line(HeaderLines.Reported(s[..n], limit), s[..n], s[n..])
            case Wait => PureLine(s, limit, []) == Line(|s|, s, [])
  {
    PureLineReads(s, limit, []);
    var t := HeaderLines.LineRead(s, limit);
    if t.Took? {
      assert [] + s[..t.count] == s[..t.count];
    } else {
      assert [] + s == s;
    }
  }

  lemma PureHeaderWaits(s: seq<byte>, maxlen: nat, stored: seq<byte>)
    requires maxlen >= 1 && HeaderLines.LineRead(s, maxlen).Wait?
    ensures !PureHeader(s, maxlen, stored).ok && HeaderLines.HeaderRead(s, maxlen).Wait?
  {
    FirstLineReads(s, maxlen);
    HeaderLines.LineReadWaits(s, maxlen);
    HeaderLines.NoLineFeed(s, |s|, HeaderLines.Start);
    if s != [] {
      assert s[|s| - 1] != HeaderLines.LF;
      FirstLineReads([], maxlen - |s|);
      assert PureHeader(s, maxlen, stored) == PureHeader([], maxlen - |s|, stored + s);
    }
  }

  lemma PureHeaderStep(s: seq<byte>, maxlen: nat, stored: seq<byte>, n: nat)
    requires maxlen >= 1 && HeaderLines.LineRead(s, maxlen) == HeaderLines.Took(n)
    ensures PureHeader(s, maxlen, stored) ==
            if HeaderLines.Blank(s[..n]) || !HeaderLines.EndsLine(s[..n]) then Header(true, stored + s[..n], s[n..])
            else PureHeader(s[n..], maxlen - n, stored + s[..n])
  {
    FirstLineReads(s, maxlen);
    if !HeaderLines.EndsLine(s[..n]) {
      assert PureHeader(s[n..], 0, stored + s[..n]) == Header(true, stored + s[..n], s[n..]);
    }
  }

  /** h is what the header loop makes of s, of which `stored` has been stored before. */
  predicate IsHeaderRead(s: seq<byte>, maxlen: nat, stored: seq<byte>, h: Header)
    requires maxlen >= 1
  {
    match HeaderLines.HeaderRead(s, maxlen)
    case Took(n) => h == Header(true, stored + s[..n], s[n..])
    case Wait => !h.ok
  }

  lemma IsHeaderReadMore(s: seq<byte>, n: nat, maxlen: nat, stored: seq<byte>, h: Header)
    requires maxlen >= 1 && HeaderLines.LineRead(s, maxlen) == HeaderLines.Took(n)
    requires !HeaderLines.Blank(s[..n]) && HeaderLines.EndsLine(s[..n])
    requires IsHeaderRead(s[n..], maxlen - n, stored + s[..n], h)
    ensures IsHeaderRead(s, maxlen, stored, h)
  {
    HeaderLines.HeaderReadStep(s, maxlen);
    var u := HeaderLines.HeaderRead(s[n..], maxlen - n);
    if u.Took? {
      SliceAgain(stored, s, n, u.count);
    }
  }

  /** The header loop has enough to read exactly when it succeeds, and then stores what it takes. */
  lemma {:induction false} PureHeaderReads(s: seq<byte>, maxlen: nat, stored: seq<byte>)
    requires maxlen >= 1
    ensures IsHeaderRead(s, maxlen, stored, PureHeader(s, maxlen, stored))
    decreases maxlen
  {
    var t := HeaderLines.LineRead(s, maxlen);
    if t.Wait? {
      PureHeaderWaits(s, maxlen, stored);
    } else {
      var n := t.count;
      PureHeaderStep(s, maxlen, stored, n);
      if !HeaderLines.Blank(s[..n]) && HeaderLines.EndsLine(s[..n]) {
        PureHeaderReads(s[n..], maxlen - n, stored + s[..n]);
        IsHeaderReadMore(s, n, maxlen, stored, PureHeader(s, maxlen, stored));
      } else {
        HeaderLines.HeaderReadStep(s, maxlen);
      }
    }
  }

  lemma SliceAgain(stored: seq<byte>, s: seq<byte>, n: nat, m: nat)
    requires n + m <= |s|
    ensures stored + s[..n] + s[n..][..m] == stored + s[..n + m] && s[n..][m..] == s[n + m..]
  {
    Associative(stored, s[..n], s[n..][..m]);
    assert s[..n] + s[n..][..m] == s[..n + m];
  }

  /**
   On a blocking stream RecvRTSP reports no error exactly when the header loop has enough to
   read, and then it stores what the loop takes and leaves the rest on the stream.
   */
  lemma HeaderOnBlocking(f: Feed, maxlen: nat)
    requires Blocking(f) && maxlen >= 1
    ensures var r := HeaderFrom(f, maxlen, []);
            Blocking(r.feed) &&
            match HeaderLines.HeaderRead(f.input, maxlen)
            case Took(n) => r.ok && r.bytes == f.input[..n] && r.feed.input == f.input[n..]
            case Wait => !r.ok
  {
    HeaderIsPure(f, maxlen, []);
    PureHeaderReads(f.input, maxlen, []);
    var t := HeaderLines.HeaderRead(f.input, maxlen);
    if t.Took? {
      assert [] + f.input[..t.count] == f.input[..t.count];
    }
  }

  /**
   A header block in front of anything is stored whole, and the stream left at the byte after it,
   exactly when it is shorter than the buffer (section 4.4 of RFC 2326); no error is reported
   either way.
   */
  lemma MessageFraming(f: Feed, block: seq<byte>, body: seq<byte>, maxlen: nat)
    requires Blocking(f) && f.input == block + body && HeaderLines.IsHeaderBlock(block) && maxlen >= 1
    ensures var r := HeaderFrom(f, maxlen, []);
            && r.ok && Blocking(r.feed)
            && r.bytes == block[..Min(|block|, maxlen - 1)]
            && (r.bytes == block && r.feed.input == body <==> |block| < maxlen)
  {
    HeaderOnBlocking(f, maxlen);
    HeaderLines.HeaderReadOfBlock(block, body, maxlen);
    var n := Min(|block|, maxlen - 1);
    DropAppended(block, body, n);
    assert block[|block|..] + body == body;
  }

  /** A response header and then a body of the announced size, on one blocking stream. */
  lemma HeaderThenBody(f: Feed, block: seq<byte>, sdp: seq<byte>, more: seq<byte>, maxlen: nat)
    requires Blocking(f) && HeaderLines.IsHeaderBlock(block) && |block| < maxlen
    requires f.input == block + (sdp + more)
    ensures var h := HeaderFrom(f, maxlen, []);
            var b := BodyFrom(h.feed, |sdp|, []);
            h.ok && h.bytes == block && b.ok && b.bytes == sdp && b.feed.input == more
  {
    MessageFraming(f, block, sdp + more, maxlen);
    var h := HeaderFrom(f, maxlen, []);
    BodyExact(h.feed, |sdp|, []);
    BodyArrives(h.feed, |sdp|, []);
    var b := BodyFrom(h.feed, |sdp|, []);
    assert [] + h.feed.input == sdp + more;
    assert (b.bytes + b.feed.input)[..|sdp|] == b.bytes && (sdp + more)[..|sdp|] == sdp;
    assert (b.bytes + b.feed.input)[|sdp|..] == b.feed.input && (sdp + more)[|sdp|..] == more;
  }

  lemma {:induction false} RestArrives(f: Feed, left: nat, done: seq<byte>)
    requires Blocking(f) && left <= |f.input|
    ensures var r := RestFrom(f, left, done); r.code == |done| + left && Blocking(r.feed)
    decreases left, |f.schedule|
  {
    if left == 0 {
    } else {
      ReadProgress(f, left);
      var r := ReadOnce(f, left);
      if r.code > 0 {
        RestArrives(r.feed, left - r.code, done + r.bytes);
      } else if r.code < 0 {
        RestArrives(r.feed, left, done);
      }
    }
  }

  lemma BodyArrives(f: Feed, size: nat, stored: seq<byte>)
    requires Blocking(f) && size <= |f.input|
    ensures BodyFrom(f, size, stored).ok
  {
    if size > 0 {
      RestArrives(f, size, []);
      assert RestFrom(f, size, []).code == size;
    }
  }

  const RECV_BUF_SIZE := 8192
  const NUL: byte := 0

  /** RecvRTSP into a string: the string is the header block exactly when that is shorter than the buffer and free of NUL. */
  lemma StringFraming(f: Feed, block: seq<byte>, body: seq<byte>)
    requires Blocking(f) && f.input == block + body && HeaderLines.IsHeaderBlock(block)
    ensures CString(HeaderFrom(f, RECV_BUF_SIZE, []).bytes, 0) == block <==> |block| < 8192 && 0 !in block
  {
    MessageFraming(f, block, body, RECV_BUF_SIZE);
    var r := HeaderFrom(f, RECV_BUF_SIZE, []);
    CStringWhole(r.bytes, NUL);
    assert block[..|block|] == block;
  }

  /** A line feed only ever ends what ReadLine stores. */
  lemma {:induction false} LineShape(f: Feed, limit: nat, line: seq<byte>)
    requires HeaderLines.LF !in line
    ensures var r := LineFrom(f, limit, line);
            HeaderLines.LF in r.bytes ==>
              r.code == |r.bytes| && HeaderLines.LF !in r.bytes[..|r.bytes| - 1]
    decreases limit - |line|, |f.schedule|
  {
    if |line| + 1 < limit {
      ReadProgress(f, 1);
      var r := ReadOnce(f, 1);
      if r.code == 1 {
        if r.bytes != [HeaderLines.LF] {
          LineShape(r.feed, limit, line + r.bytes);
        } else {
          assert (line + r.bytes)[..|line|] == line;
        }
      } else if r.code == -1 && r.feed.errno == EINTR {
        LineShape(r.feed, limit, line);
      }
    }
  }

  /** ReadLine counts at most one byte more than it stores. */
  lemma {:induction false} LineCount(f: Feed, limit: nat, line: seq<byte>)
    requires |line| < limit
    ensures LineFrom(f, limit, line).code <= |LineFrom(f, limit, line).bytes| + 1
    decreases limit - |line|, |f.schedule|
  {
    if |line| + 1 < limit {
      ReadProgress(f, 1);
      var r := ReadOnce(f, 1);
      if r.code == 1 && r.bytes != [HeaderLines.LF] {
        LineCount(r.feed, limit, line + r.bytes);
      } else if r.code == -1 && r.feed.errno == EINTR {
        LineCount(r.feed, limit, line);
      }
    }
  }

  /** The blank-line expression sees the line as a string, with the zero that ReadLine puts behind it. */
  lemma BlankText(line: seq<byte>, text: seq<byte>)
    requires text == line || (text == line + [NUL] && HeaderLines.LF !in line)
    requires HeaderLines.LF in line ==> HeaderLines.LF !in line[..|line| - 1]
    ensures |text| <= 2 ==> (HeaderLines.Blank(CString(text, NUL)) <==> HeaderLines.Blank(line))
  {
    if |text| == 1 {
      assert text[1..] == [];
    } else if |text| == 2 {
      assert text[1..] == [text[1]] && text[1..][1..] == [];
      assert CString([text[1]], NUL) == if text[1] == NUL then [] else [text[1]];
      assert CString(text, NUL) == if text[0] == NUL then [] else [text[0]] + CString([text[1]], NUL);
      assert CString(text, NUL) == if text[0] == NUL then [] else if text[1] == NUL then [text[0]] else text;
      assert line[0] == text[0] && line[0] in line;
      assert |line| == 2 ==> line[0] in line[..1];
    }
  }

  /**
   When ReadLine or Readn fails, errno is neither EINTR nor EAGAIN: the branches that their
   callers keep for these two are never taken, and are not in the functions above.
   */
  lemma {:induction false} LineFailsForGood(f: Feed, limit: nat, line: seq<byte>)
    ensures LineFrom(f, limit, line).code < 0 ==> LineFrom(f, limit, line).feed.errno == EOTHER
    decreases limit - |line|, |f.schedule|
  {
    if |line| + 1 < limit {
      ReadProgress(f, 1);
      var r := ReadOnce(f, 1);
      if r.code == 1 && r.bytes != [HeaderLines.LF] {
        LineFailsForGood(r.feed, limit, line + r.bytes);
      } else if r.code == -1 && r.feed.errno == EINTR {
        LineFailsForGood(r.feed, limit, line);
      }
    }
  }

  lemma {:induction false} RestFailsForGood(f: Feed, left: nat, done: seq<byte>)
    ensures RestFrom(f, left, done).code < 0 ==> RestFrom(f, left, done).feed.errno == EOTHER
    decreases left, |f.schedule|
  {
    if left == 0 {
    } else {
      ReadProgress(f, left);
      var r := ReadOnce(f, left);
      if r.code > 0 {
        RestFailsForGood(r.feed, left - r.code, done + r.bytes);
      } else if r.code < 0 && r.feed.errno == EINTR {
        RestFailsForGood(r.feed, left, done);
      }
    }
  }

  // ---- The loops ----

  class InSocket {
    var feed: Feed

    constructor (feed: Feed)
      ensures this.feed == feed
    {
      this.feed := feed;
    }

    /** read into a buffer. */
    method Read(buf: array<byte>, at: nat, want: nat) returns (n: int)
      requires want >= 1 && at + want <= buf.Length
      modifies this, buf
      ensures var r := ReadOnce(old(feed), want);
              && n == r.code && feed == r.feed
              && buf[..at + |r.bytes|] == old(buf[..at]) + r.bytes
              && forall i :: at + |r.bytes| <= i < buf.Length ==> buf[i] == old(buf[i])
    {
      var r := ReadOnce(feed, want);
      forall i | 0 <= i < |r.bytes| {
        buf[at + i] := r.bytes[i];
      }
      n, feed := r.code, r.feed;
    }

    /** read into one char. */
    method ReadChar() returns (n: int, c: byte)
      modifies this
      ensures var r := ReadOnce(old(feed), 1);
              n == r.code && feed == r.feed && (n == 1 ==> r.bytes == [c])
    {
      var r := ReadOnce(feed, 1);
      n, feed := r.code, r.feed;
      c := if n == 1 then r.bytes[0] else 0;
    }

    method ReadLine(buf: array<byte>, at: nat, limit: nat) returns (code: int)
      requires limit >= 1 && at + limit <= buf.Length
      modifies this, buf
      ensures var r := LineFrom(old(feed), limit, []);
              && code == r.code && feed == r.feed
              && buf[..at] == old(buf[..at]) && buf[at..at + |r.bytes|] == r.bytes
              && forall i :: at + |r.bytes| <= i < buf.Length ==>
                   buf[i] == old(buf[i]) || (i == at + |r.bytes| && buf[i] == 0)
    {
      var n, ptr := 1, at;
      ghost var line: seq<byte> := [];
      while n < limit
        invariant 1 <= n <= limit && |line| == n - 1 && ptr == at + |line|
        invariant buf[..at] == old(buf[..at]) && buf[at..ptr] == line
        invariant forall i :: ptr <= i < buf.Length ==> buf[i] == old(buf[i])
        invariant LineFrom(old(feed), limit, []) == LineFrom(feed, limit, line)
        decreases limit - n, |feed.schedule|
      {
        ReadProgress(feed, 1);
        var rc, c := ReadChar();
        if rc == 1 {
          buf[ptr] := c;
          ptr := ptr + 1;
          line := line + [c];
          if c == HeaderLines.LF {
            break;
          }
          n := n + 1;
        } else if rc == 0 {
          buf[ptr] := 0;
          return n - 1;
        } else {
          if feed.errno == EINTR {
            continue;
          } else if feed.errno == EAGAIN {
            return n - 1;
          }
          return -1;
        }
      }
      buf[ptr] := 0;
      return n;
    }

    method Readn(buf: array<byte>, at: nat, size: nat) returns (code: int)
      requires at + size <= buf.Length
      modifies this, buf
      ensures var r := RestFrom(old(feed), size, []);
              && code == r.code && feed == r.feed && |r.bytes| <= size
              && buf[..at + |r.bytes|] == old(buf[..at]) + r.bytes
              && forall i :: at + |r.bytes| <= i < buf.Length ==> buf[i] == old(buf[i])
    {
      RestReports(feed, size, []);
      var left, ptr := size, at;
      ghost var done: seq<byte> := [];
      while left > 0
        invariant ptr + left == at + size && left >= 0 && ptr == at + |done|
        invariant buf[..ptr] == old(buf[..at]) + done
        invariant forall i :: ptr <= i < buf.Length ==> buf[i] == old(buf[i])
        invariant RestFrom(old(feed), size, []) == RestFrom(feed, left, done)
        decreases left, |feed.schedule|
      {
        ghost var r := ReadOnce(feed, left);
        ReadProgress(feed, left);
        var n := Read(buf, ptr, left);
        if n < 0 {
          if feed.errno == EINTR {
            n := 0;
          } else if feed.errno == EAGAIN {
            return size - left;
          } else {
            return -1;
          }
        } else if n == 0 {
          break;
        }
        Associative(old(buf[..at]), done, r.bytes);
        assert n == 0 ==> done + r.bytes == done;
        done := done + r.bytes;
        left := left - n;
        ptr := ptr + n;
      }
      return size - left;
    }

    /** One line of the header loop, and whether the expression for a blank line matches it. */
    method ReadHeaderLine(msg: array<byte>, index: nat, left: nat, ghost maxlen: nat)
      returns (n: int, blank: bool)
      requires left >= 1 && index + left == maxlen <= msg.Length
      requires forall i :: index <= i < maxlen ==> msg[i] == 0
      modifies this, msg
      ensures var r := LineFrom(old(feed), left, []);
              && n == r.code && feed == r.feed
              && msg[..index + |r.bytes|] == old(msg[..index]) + r.bytes
              && (forall i :: index + |r.bytes| <= i < maxlen ==> msg[i] == 0)
              && (n > 0 ==> (blank <==> n <= 2 && HeaderLines.Blank(r.bytes)))
    {
      ghost var r := LineFrom(feed, left, []);
      LineShape(feed, left, []);
      n := ReadLine(msg, index, left);
      blank := false;
      if 0 < n <= 2 {
        ghost var text := msg[index..index + n];
        assert text[..|r.bytes|] == r.bytes;
        if n > |r.bytes| {
          assert n == left;
          LineCount(old(feed), left, []);
          assert text == r.bytes + [0];
        } else {
          assert text == r.bytes;
        }
        BlankText(r.bytes, text);
        blank := HeaderLines.Blank(CString(msg[index..index + n], NUL));
      }
    }

    /** RecvRTSP: the buffer is cleared, and holds the lines read in front of zeros. */
    method RecvRtsp(msg: array<byte>, maxlen: nat) returns (ok: bool)
      requires maxlen <= msg.Length
      modifies this, msg
      ensures var r := HeaderFrom(old(feed), maxlen, []);
              && ok == r.ok && feed == r.feed
              && |r.bytes| <= maxlen && msg[..|r.bytes|] == r.bytes
              && forall i :: |r.bytes| <= i < maxlen ==> msg[i] == 0
    {
      forall i | 0 <= i < maxlen {
        msg[i] := 0;
      }
      var index, left := 0, maxlen;
      ghost var stored: seq<byte> := [];
      while left > 0
        invariant index + left == maxlen && left >= 0
        invariant |stored| <= index && (left > 0 ==> |stored| == index)
        invariant msg[..|stored|] == stored
        invariant forall i :: |stored| <= i < maxlen ==> msg[i] == 0
        invariant HeaderFrom(old(feed), maxlen, []) == HeaderFrom(feed, left, stored)
      {
        ghost var r := LineFrom(feed, left, []);
        HeaderStep(feed, left, stored);
        var n, blank := ReadHeaderLine(msg, index, left, maxlen);
        stored := stored + r.bytes;
        if n < 0 {
          return false;
        } else if n == 0 {
          return false;
        }
        if blank {
          return true;
        }
        index := index + n;
        left := left - n;
      }
      return true;
    }

    /** RecvSDP: the buffer is cleared, and holds the bytes read in front of zeros. */
    method RecvSdp(msg: array<byte>, size: nat) returns (ok: bool)
      requires size <= msg.Length
      modifies this, msg
      ensures var r := BodyFrom(old(feed), size, []);
              && ok == r.ok && feed == r.feed
              && |r.bytes| <= size && msg[..|r.bytes|] == r.bytes
              && forall i :: |r.bytes| <= i < size ==> msg[i] == 0
      ensures ok <==> msg[..size] + feed.input == old(feed.input)
    {
      BodyExact(feed, size, []);
      forall i | 0 <= i < size {
        msg[i] := 0;
      }
      var index, left := 0, size;
      ok := true;
      while left > 0
        invariant index + left == size && left >= 0
        invariant forall i :: index <= i < size ==> msg[i] == 0
        invariant ok && BodyFrom(old(feed), size, []) == BodyFrom(feed, left, msg[..index])
      {
        ghost var whole, stored, r := BodyFrom(feed, left, msg[..index]), msg[..index], RestFrom(feed, left, []);
        BodyStep(feed, left, stored);
        var n := Readn(msg, index, left);
        if n <= 0 {
          ok := false;
          break;
        }
        index := index + n;
        left := left - n;
        assert msg[..index] == stored + r.bytes;
        assert whole == BodyFrom(feed, left, stored + r.bytes);
      }
      BodyFills(old(feed), size, msg[..size]);
    }
  }
}
