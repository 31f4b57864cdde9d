/**
 MyRegex::RegexLine: a cursor that hands out the lines of a string one call at a time. Matching
 a line against a pattern is left to the caller.
 */
module LineCursor {
  import opened Common

  const CR: char := '\r'
  const LF: char := '\n'

  /** The first place of a carriage return with a line feed behind it. */
  function FindCrLf(u: string): (r: Option<nat>)
    ensures r.Some? ==> r.value + 1 < |u| && u[r.value] == CR && u[r.value + 1] == LF
  {
    if |u| < 2 then None
    else if u[0] == CR && u[1] == LF then Some(0)
    else
      var r := FindCrLf(u[1..]);
      if r.None? then None else Some(r.value + 1)
  }

  function FindLf(u: string): (r: Option<nat>)
    ensures r.Some? ==> r.value < |u| && u[r.value] == LF
  {
    if u == "" then None
    else if u[0] == LF then Some(0)
    else
      var r := FindLf(u[1..]);
      if r.None? then None else Some(r.value + 1)
  }

  /** The end of the first line of u: a pair is preferred to a line feed, however far away it is. */
  function LineEnd(u: string): (r: Option<nat>)
    ensures r.Some? ==> r.value < |u| && (u[r.value] == CR || u[r.value] == LF)
  {
    if FindCrLf(u).Some? then FindCrLf(u) else FindLf(u)
  }

  /** The lines that the calls hand out from the text u. */
  function Lines(u: string): (r: seq<string>)
    ensures r != []
    decreases |u|
  {
    match LineEnd(u)
    case None => [u]
    case Some(e) => [u[..e]] + Lines(u[e + 1..])
  }

  /** The character dropped behind each line but the last. */
  function Dropped(u: string): (r: string)
    ensures |r| + 1 == |Lines(u)|
    ensures forall c :: c in r ==> c == '\r' || c == '\n'
    decreases |u|
  {
    match LineEnd(u)
    case None => ""
    case Some(e) => [u[e]] + Dropped(u[e + 1..])
  }

  function Rejoin(lines: seq<string>, dropped: string): string
    requires |lines| == |dropped| + 1
  {
    if dropped == "" then lines[0] else lines[0] + [dropped[0]] + Rejoin(lines[1..], dropped[1..])
  }

  lemma RejoinCons(line: string, c: char, lines: seq<string>, dropped: string)
    requires |lines| == |dropped| + 1
    ensures Rejoin([line] + lines, [c] + dropped) == line + [c] + Rejoin(lines, dropped)
  {
    assert ([line] + lines)[1..] == lines && ([c] + dropped)[1..] == dropped;
  }

  lemma CutAt(u: string, e: nat)
    requires e < |u|
    ensures u[..e] + [u[e]] + u[e + 1..] == u
  {
  }

  lemma RejoinCut(u: string, e: nat)
    requires LineEnd(u) == Some(e) && Rejoin(Lines(u[e + 1..]), Dropped(u[e + 1..])) == u[e + 1..]
    ensures Rejoin(Lines(u), Dropped(u)) == u
  {
    RejoinCons(u[..e], u[e], Lines(u[e + 1..]), Dropped(u[e + 1..]));
    CutAt(u, e);
  }

  /** Nothing is lost, but one carriage return or line feed behind each line except the last. */
  lemma {:induction false} Lossless(u: string)
    ensures Rejoin(Lines(u), Dropped(u)) == u
    decreases |u|
  {
    var t := LineEnd(u);
    if t.Some? {
      Lossless(u[t.value + 1..]);
      RejoinCut(u, t.value);
    }
  }

  // ---- Texts of one kind ----

  predicate Bare(line: string) {
    '\r' !in line && '\n' !in line
  }

  /** Lines that each end in the terminator, as SDP text is written. */
  function Terminated(lines: seq<string>, terminator: string): string {
    if lines == [] then [] else lines[0] + (terminator + Terminated(lines[1..], terminator))
  }

  function WithLeadingLf(lines: seq<string>): seq<string> {
    if lines == [] then [] else ["\n" + lines[0]] + WithLeadingLf(lines[1..])
  }

  lemma {:induction false} FindCrLfBehind(line: string, rest: string)
    requires CR !in line
    ensures FindCrLf(line + ([CR, LF] + rest)) == Some(|line|)
  {
    if line == "" {
    } else {
      FindCrLfBehind(line[1..], rest);
      assert line[0] in line;
      assert (line + ([CR, LF] + rest))[1..] == line[1..] + ([CR, LF] + rest);
    }
  }

  lemma {:induction false} FindLfBehind(line: string, rest: string)
    requires LF !in line
    ensures FindLf(line + ([LF] + rest)) == Some(|line|)
  {
    if line == "" {
    } else {
      FindLfBehind(line[1..], rest);
      assert line[0] in line;
      assert (line + ([LF] + rest))[1..] == line[1..] + ([LF] + rest);
    }
  }

  lemma {:induction false} NoCrNoPair(u: string)
    requires CR !in u
    ensures FindCrLf(u) == None
  {
    if |u| >= 2 {
      assert u[0] in u;
      NoCrNoPair(u[1..]);
    }
  }

  lemma LinesCrLf(line: string, rest: string)
    requires CR !in line
    ensures Lines(line + ([CR, LF] + rest)) == [line] + Lines([LF] + rest)
  {
    var u := line + ([CR, LF] + rest);
    FindCrLfBehind(line, rest);
    assert u[..|line|] == line && u[|line| + 1..] == [LF] + rest;
  }

  lemma LinesLf(line: string, rest: string)
    requires Bare(line) && CR !in rest
    ensures Lines(line + ([LF] + rest)) == [line] + Lines(rest)
  {
    var u := line + ([LF] + rest);
    NoCrNoPair(u);
    FindLfBehind(line, rest);
    assert u[..|line|] == line && u[|line| + 1..] == rest;
  }

  predicate AllBare(lines: seq<string>) {
    forall i :: 0 <= i < |lines| ==> Bare(lines[i])
  }

  /** Behind a "\r\n" the cursor stands in front of the line feed, and every line has it in front. */
  lemma {:induction false} AfterCrLf(lines: seq<string>)
    requires AllBare(lines)
    ensures Lines([LF] + Terminated(lines, [CR, LF])) == WithLeadingLf(lines) + ["", ""]
  {
    if lines == [] {
      assert [LF] + Terminated(lines, [CR, LF]) == "" + ([LF] + "");
      LinesLf("", "");
      assert Lines("") == [""];
      assert [""] + [""] == WithLeadingLf(lines) + ["", ""];
    } else {
      var rest := Terminated(lines[1..], [CR, LF]);
      Associative([LF], lines[0], [CR, LF] + rest);
      LinesCrLf([LF] + lines[0], rest);
      AfterCrLf(lines[1..]);
      Associative([[LF] + lines[0]], WithLeadingLf(lines[1..]), ["", ""]);
    }
  }

  /** Text with "\r\n" behind every line: each line but the first comes out with a line feed in front. */
  lemma CrLfText(lines: seq<string>)
    requires AllBare(lines) && lines != []
    ensures Lines(Terminated(lines, "\r\n")) == [lines[0]] + (WithLeadingLf(lines[1..]) + ["", ""])
  {
    LinesCrLf(lines[0], Terminated(lines[1..], [CR, LF]));
    AfterCrLf(lines[1..]);
  }

  lemma {:induction false} NoCrTerminated(lines: seq<string>)
    requires AllBare(lines)
    ensures CR !in Terminated(lines, [LF])
  {
    if lines == [] {
    } else {
      NoCrTerminated(lines[1..]);
    }
  }

  /** Text with "\n" behind every line: the lines come out as they are. */
  lemma {:induction false} LfText(lines: seq<string>)
    requires AllBare(lines)
    ensures Lines(Terminated(lines, "\n")) == lines + [""]
  {
    if lines == [] {
      assert Lines("") == [""];
    } else {
      NoCrTerminated(lines[1..]);
      LinesLf(lines[0], Terminated(lines[1..], [LF]));
      LfText(lines[1..]);
      assert lines + [""] == [lines[0]] + (lines[1..] + [""]);
    }
  }

  /** The first line of what is left, and what is left behind it. */
  lemma LinesFrom(text: string, pos: nat)
    requires pos <= |text|
    ensures var rest := text[pos..];
            var end := LineEnd(rest);
            && Lines(rest) != []
            && (end.None? ==> Lines(rest) == [rest])
            && (end.Some? ==>
                  && pos + end.value + 1 <= |text|
                  && Lines(rest) == [rest[..end.value]] + Lines(text[pos + end.value + 1..]))
  {
    var end := LineEnd(text[pos..]);
    if end.Some? {
      DropDrop(text, pos, end.value + 1);
    }
  }

  // ---- The cursor ----

  /** A string with an identity of its own, which is what the cursor remembers. */
  class StringObject {
    const chars: string

    constructor (chars: string)
      ensures this.chars == chars
    {
      this.chars := chars;
    }
  }

  class MyRegex {
    var lastStr: StringObject?
    var nextPos: Option<nat>

    constructor ()
      ensures Valid() && lastStr == null
    {
      lastStr, nextPos := null, None;
    }

    ghost predicate Valid()
      reads this
    {
      lastStr != null && nextPos.Some? ==> nextPos.value <= |lastStr.chars|
    }

    /** The lines that the next calls with str will hand out. */
    ghost function Ahead(str: StringObject?): seq<string>
      requires Valid()
      reads this
    {
      if str == null then []
      else if str != lastStr then Lines(str.chars)
      else if nextPos.None? then []
      else Lines(str.chars[nextPos.value..])
    }

    /** Hands out the next line, or reports the end of the string. */
    method RegexLine(str: StringObject?) returns (still: bool, line: string)
      requires Valid()
      modifies this
      ensures Valid()
      ensures still <==> old(Ahead(str)) != []
      ensures still ==> line == old(Ahead(str))[0] && Ahead(str) == old(Ahead(str))[1..]
      ensures !still ==> Ahead(str) == []
    {
      ghost var ahead := Ahead(str);
      line := "";
      if lastStr != str {
        lastStr := str;
        nextPos := Some(0);
      }
      if nextPos.None? || lastStr == null {
        return false, line;
      }
      var rest := lastStr.chars[nextPos.value..];
      assert ahead == Lines(rest) by {
        assert str.chars[0..] == str.chars;
      }
      var end := FindCrLf(rest);
      if end.None? {
        end := FindLf(rest);
      }
      assert end == LineEnd(rest);
      LinesFrom(lastStr.chars, nextPos.value);
      still := true;
      if end.Some? {
        line := rest[..end.value];
        nextPos := Some(nextPos.value + end.value + 1);
      } else {
        line := rest;
        nextPos := None;
      }
      assert ahead == [line] + Ahead(str);
    }
  }
}
