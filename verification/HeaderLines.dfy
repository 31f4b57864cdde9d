/**
 The line reader of utils.cpp and what the header loops built on it take, as functions of the
 bytes waiting on a blocking stream.
 */
module HeaderLines {
  import opened Common

  const CR: byte := 13
  const LF: byte := 10

  /** A read that has to wait for more bytes, or that has taken some. */
  datatype Read = Wait | Took(count: nat) {
    function Plus(n: nat): Read {
      if Wait? then Wait else Took(n + count)
    }
  }

  /** The number of bytes ReadLine takes: up to a line feed, and at most limit - 1. */
  function LineRead(s: seq<byte>, limit: nat): (r: Read)
    requires limit >= 1
    ensures r.Took? ==> r.count <= |s| && r.count < limit
    decreases s
  {
    if limit == 1 then Took(0)
    else if s == [] then Wait
    else if s[0] == LF then Took(1)
    else LineRead(s[1..], limit - 1).Plus(1)
  }

  predicate EndsLine(line: seq<byte>) {
    line != [] && line[|line| - 1] == LF
  }

  /** What ReadLine returns for the bytes it took. At the limit it counts one byte it did not read. */
  function Reported(line: seq<byte>, limit: nat): nat {
    if EndsLine(line) then |line| else limit
  }

  /** The regular expression ^(\r\n|\n)$ on one line. */
  predicate Blank(line: seq<byte>) {
    line == [LF] || line == [CR, LF]
  }

  /** How much of the current line has been seen: nothing, one carriage return, or anything else. */
  datatype Place = Start | AfterCR | Inside

  /** The length of the stream up to and including its first blank line. */
  function HeaderEnd(s: seq<byte>, p: Place): (r: Read)
    ensures r.Took? ==> 0 < r.count <= |s|
  {
    if s == [] then Wait
    else if s[0] == LF then
      if p == Inside then HeaderEnd(s[1..], Start).Plus(1) else Took(1)
    else
      HeaderEnd(s[1..], if s[0] == CR && p == Start then AfterCR else Inside).Plus(1)
  }

  /** The number of bytes taken by reading lines until a blank one, or until limit is used up. */
  function HeaderRead(s: seq<byte>, limit: nat): (r: Read)
    requires limit >= 1
    ensures r.Took? ==> r.count <= |s| && r.count < limit
  {
    var e := HeaderEnd(s, Start);
    if e.Took? && e.count < limit then e
    else if |s| >= limit - 1 then Took(limit - 1)
    else Wait
  }

  // ---- What a header block is, said without the reader ----

  ghost predicate LineStart(s: seq<byte>, i: nat) {
    i == 0 || (i <= |s| && s[i - 1] == 10)
  }

  /** A blank line of s occupies the positions from i up to j: "\n" or "\r\n". */
  ghost predicate BlankLineAt(s: seq<byte>, i: nat, j: nat) {
    && i < j <= |s|
    && LineStart(s, i)
    && s[j - 1] == 10
    && (j == i + 1 || (j == i + 2 && s[i] == 13))
  }

  /** b ends with its first blank line. */
  ghost predicate IsHeaderBlock(b: seq<byte>) {
    && (exists i: nat :: BlankLineAt(b, i, |b|))
    && (forall i: nat, j: nat :: BlankLineAt(b, i, j) ==> j == |b|)
  }

  /** s holds no blank line. */
  ghost predicate NoBlankLine(s: seq<byte>) {
    forall i: nat, j: nat :: !BlankLineAt(s, i, j)
  }

  // ---- Lemmas ----

  lemma {:induction false} HeaderEndPrefix(s: seq<byte>, t: seq<byte>, p: Place)
    ensures HeaderEnd(s, p).Took? ==> HeaderEnd(s + t, p) == HeaderEnd(s, p)
    ensures HeaderEnd(s, p).Wait? && HeaderEnd(s + t, p).Took? ==> HeaderEnd(s + t, p).count > |s|
  {
    if s == [] {
    } else {
      DropAppended(s, t, 1);
      if s[0] != LF || p == Inside {
        var q := if s[0] == LF then Start else if s[0] == CR && p == Start then AfterCR else Inside;
        HeaderEndPrefix(s[1..], t, q);
      }
    }
  }

  /** More bytes behind a complete header do not change how much of it is read. */
  lemma HeaderReadPrefix(s: seq<byte>, t: seq<byte>, limit: nat)
    requires limit >= 1 && HeaderRead(s, limit).Took?
    ensures HeaderRead(s + t, limit) == HeaderRead(s, limit)
  {
    HeaderEndPrefix(s, t, Start);
  }

  /** A line read stops at the first line feed or at the limit. */
  lemma {:induction false} LineReadStops(s: seq<byte>, limit: nat)
    requires limit >= 1 && LineRead(s, limit).Took?
    ensures var n := LineRead(s, limit).count;
            && (forall i :: 0 <= i < n - 1 ==> s[i] != LF)
            && (!EndsLine(s[..n]) ==> n == limit - 1)
  {
    if limit > 1 && s[0] != LF {
      LineReadStops(s[1..], limit - 1);
      var n := LineRead(s, limit).count;
      assert s[..n] == [s[0]] + s[1..][..n - 1];
    }
  }

  /** The blank line is looked for line by line. */
  lemma {:induction false} HeaderEndOfLine(s: seq<byte>, k: nat, p: Place)
    requires 0 < k <= |s| && s[k - 1] == LF && (forall i :: 0 <= i < k - 1 ==> s[i] != LF)
    ensures HeaderEnd(s, p) ==
            if (p != Inside && k == 1) || (p == Start && k == 2 && s[0] == CR) then Took(k)
            else HeaderEnd(s[k..], Start).Plus(k)
  {
    if k > 1 {
      HeaderEndOfLine(s[1..], k - 1, if s[0] == CR && p == Start then AfterCR else Inside);
      assert s[1..][k - 1..] == s[k..];
    }
  }

  lemma {:induction false} NoLineFeed(s: seq<byte>, n: nat, p: Place)
    requires n <= |s| && forall i :: 0 <= i < n ==> s[i] != LF
    ensures HeaderEnd(s, p).Took? ==> HeaderEnd(s, p).count > n
  {
    if n == 0 {
    } else {
      NoLineFeed(s[1..], n - 1, if s[0] == CR && p == Start then AfterCR else Inside);
    }
  }

  lemma BlankByBytes(s: seq<byte>, k: nat)
    requires 0 < k <= |s| && s[k - 1] == LF
    ensures Blank(s[..k]) <==> k == 1 || (k == 2 && s[0] == CR)
  {
  }

  lemma {:induction false} LineReadWaits(s: seq<byte>, limit: nat)
    requires limit >= 1 && LineRead(s, limit).Wait?
    ensures |s| < limit - 1 && forall i :: 0 <= i < |s| ==> s[i] != LF
  {
    if s == [] {
    } else {
      LineReadWaits(s[1..], limit - 1);
    }
  }

  /** When the whole header can be read, so can its next line. */
  lemma HeaderReadStarts(s: seq<byte>, limit: nat)
    requires limit >= 1 && HeaderRead(s, limit).Took?
    ensures LineRead(s, limit).Took?
  {
    if LineRead(s, limit).Wait? {
      LineReadWaits(s, limit);
      NoLineFeed(s, |s|, Start);
    }
  }

  /** One line of a header loop: it ends the header, uses up the limit, or leaves the rest of the work. */
  lemma HeaderReadStep(s: seq<byte>, limit: nat)
    requires limit >= 1 && LineRead(s, limit).Took?
    ensures var n := LineRead(s, limit).count;
            HeaderRead(s, limit) ==
            if Blank(s[..n]) || !EndsLine(s[..n]) then Took(n)
            else HeaderRead(s[n..], limit - n).Plus(n)
  {
    var n := LineRead(s, limit).count;
    LineReadStops(s, limit);
    if EndsLine(s[..n]) {
      HeaderEndOfLine(s, n, Start);
      BlankByBytes(s, n);
    } else {
      NoLineFeed(s, n, Start);
    }
  }

  /** The same, in terms of what ReadLine returns: the loop is through with a blank line or at the limit. */
  lemma HeaderReadTurn(s: seq<byte>, limit: nat)
    requires limit >= 1 && HeaderRead(s, limit).Took?
    ensures LineRead(s, limit).Took?
    ensures var k, total := LineRead(s, limit).count, HeaderRead(s, limit).count;
            var n := Reported(s[..k], limit);
            && k <= total && n <= limit
            && (if Blank(s[..k]) || n == limit then total == k
                else n == k && HeaderRead(s[k..], limit - n) == Took(total - k))
  {
    HeaderReadStarts(s, limit);
    HeaderReadStep(s, limit);
  }

  lemma {:induction false} FirstLineFeed(s: seq<byte>) returns (k: nat)
    requires LF in s
    ensures 0 < k <= |s| && s[k - 1] == LF && forall i :: 0 <= i < k - 1 ==> s[i] != LF
  {
    if s[0] == LF {
      k := 1;
    } else {
      var j := FirstLineFeed(s[1..]);
      k := j + 1;
    }
  }

  lemma BlankLineShift(b: seq<byte>, k: nat, i: nat, j: nat)
    requires 0 < k <= |b| && b[k - 1] == LF
    ensures BlankLineAt(b[k..], i, j) <==> BlankLineAt(b, i + k, j + k)
  {
  }

  lemma DropFirstLine(b: seq<byte>, k: nat, i0: nat)
    requires IsHeaderBlock(b) && BlankLineAt(b, i0, |b|)
    requires 0 < k < |b| && b[k - 1] == LF && i0 >= k
    ensures IsHeaderBlock(b[k..])
  {
    var c := b[k..];
    BlankLineShift(b, k, i0 - k, |c|);
    forall i: nat, j: nat | BlankLineAt(c, i, j)
      ensures j == |c|
    {
      BlankLineShift(b, k, i, j);
      assert BlankLineAt(b, i + k, j + k);
    }
  }

  /** The reader finds the end of every header block. */
  lemma {:induction false} HeaderEndOfBlock(b: seq<byte>)
    requires IsHeaderBlock(b)
    ensures HeaderEnd(b, Start) == Took(|b|)
    decreases |b|
  {
    var i0: nat :| BlankLineAt(b, i0, |b|);
    assert b[|b| - 1] == LF;
    var k := FirstLineFeed(b);
    HeaderEndOfLine(b, k, Start);
    if k == 1 || (k == 2 && b[0] == CR) {
      assert BlankLineAt(b, 0, k);
    } else {
      if i0 < k {
        assert false;
      }
      DropFirstLine(b, k, i0);
      HeaderEndOfBlock(b[k..]);
    }
  }

  /**
   The header loop takes the whole block exactly when the block is shorter than the limit,
   and otherwise stops one byte before the limit.
   */
  lemma HeaderReadOfBlock(b: seq<byte>, rest: seq<byte>, limit: nat)
    requires IsHeaderBlock(b) && limit >= 1
    ensures HeaderRead(b + rest, limit) == Took(Min(|b|, limit - 1))
  {
    HeaderEndOfBlock(b);
    HeaderEndPrefix(b, rest, Start);
  }

  /** The first blank line by position is where the reader finds the end, and there is none exactly if it finds none. */
  lemma {:induction false} HeaderEndIff(s: seq<byte>)
    ensures HeaderEnd(s, Start).Wait? <==> NoBlankLine(s)
    decreases |s|
  {
    if LF !in s {
      NoLineFeed(s, |s|, Start);
    } else {
      var k := FirstLineFeed(s);
      HeaderEndOfLine(s, k, Start);
      if k == 1 || (k == 2 && s[0] == CR) {
        assert BlankLineAt(s, 0, k);
      } else {
        HeaderEndIff(s[k..]);
        BlankBehindLine(s, k);
      }
    }
  }

  /** A first line that is not blank holds no blank line. */
  lemma BlankBehindLine(s: seq<byte>, k: nat)
    requires 0 < k <= |s| && s[k - 1] == LF && (forall i :: 0 <= i < k - 1 ==> s[i] != LF)
    requires k != 1 && !(k == 2 && s[0] == CR)
    ensures NoBlankLine(s) <==> NoBlankLine(s[k..])
  {
    forall i: nat, j: nat
      ensures BlankLineAt(s[k..], i, j) <==> BlankLineAt(s, i + k, j + k)
    {
      BlankLineShift(s, k, i, j);
    }
    if !NoBlankLine(s) {
      var i: nat, j: nat :| BlankLineAt(s, i, j);
      assert i >= k;
      assert BlankLineAt(s[k..], i - k, j - k);
    }
    if !NoBlankLine(s[k..]) {
      var i: nat, j: nat :| BlankLineAt(s[k..], i, j);
      assert BlankLineAt(s, i + k, j + k);
    }
  }

  /** A header read waits exactly while there is no blank line and the limit is not reached. */
  lemma HeaderWaitsIff(s: seq<byte>, limit: nat)
    requires limit >= 1
    ensures HeaderRead(s, limit).Wait? <==> NoBlankLine(s) && |s| + 1 < limit
  {
    HeaderEndIff(s);
  }
}
