/**
 The Annex-B byte stream as a receiver reads it (Annex B of H.264 and of H.265), and what it makes of
 the output of a run: the parameter sets and the units, one by one.
 */
module ByteStream {
  import opened Common
  import opened NaluTypes
  import opened Reassembly
  import opened MediaRuns

  // ---- The reader ----

  /** The octets 00 00 01, in front of a unit. */
  predicate CodeAt(s: Octets, i: int) {
    0 <= i && i + 3 <= |s| && s[i] == 0 && s[i + 1] == 0 && s[i + 2] == 1
  }

  /** 00 00 00 or 00 00 01, where a unit ends. */
  predicate BreakAt(s: Octets, i: int) {
    0 <= i && i + 3 <= |s| && s[i] == 0 && s[i + 1] == 0 && (s[i + 2] == 0 || s[i + 2] == 1)
  }

  /** The first place of 00 00 01, or the end. */
  function FirstCode(s: Octets): (k: nat)
    ensures k <= |s| && (k < |s| ==> CodeAt(s, k)) && forall i :: 0 <= i < k ==> !CodeAt(s, i)
  {
    if |s| < 3 then |s|
    else if CodeAt(s, 0) then 0
    else
      var k := FirstCode(s[1..]);
      assert forall i :: 1 <= i < k + 1 ==> !CodeAt(s, i) by {
        assert forall i :: 1 <= i <= |s| ==> (CodeAt(s, i) <==> CodeAt(s[1..], i - 1));
      }
      k + 1
  }

  /** The first place where a unit ends. */
  function FirstBreak(s: Octets): (k: nat)
    ensures k <= |s| && (k < |s| ==> BreakAt(s, k)) && forall i :: 0 <= i < k ==> !BreakAt(s, i)
  {
    if s == [] || BreakAt(s, 0) then 0
    else
      var k := FirstBreak(s[1..]);
      assert forall i :: 1 <= i < k + 1 ==> !BreakAt(s, i) by {
        assert forall i :: 1 <= i <= |s| ==> (BreakAt(s, i) <==> BreakAt(s[1..], i - 1));
      }
      k + 1
  }

  /** The units of a byte stream: what stands between each 00 00 01 and the next break. */
  function ReadUnits(s: Octets): seq<Octets>
    decreases |s|
  {
    var k := FirstCode(s);
    if k == |s| then []
    else
      var u := s[k + 3..];
      [u[..FirstBreak(u)]] + ReadUnits(u[FirstBreak(u)..])
  }

  // ---- Streams ----

  /** Each unit behind 00 00 00 01. */
  function StreamOf(units: seq<Octets>): Octets {
    if units == [] then [] else [0, 0, 0, 1] + (units[0] + StreamOf(units[1..]))
  }

  /** No octets of the unit look like its end; in front of another unit it does not end in 00 either. */
  predicate Unbroken(u: Octets, more: bool) {
    && (forall i :: 0 <= i < |u| ==> !BreakAt(u, i))
    && (more && u != [] ==> u[|u| - 1] != 0)
  }

  predicate AllUnbroken(units: seq<Octets>) {
    forall i :: 0 <= i < |units| ==> Unbroken(units[i], i < |units| - 1)
  }

  /** A unit in front of other units, or at the end, is read to its end exactly if it is unbroken. */
  lemma ReadsToEnd(u: Octets, rest: Octets)
    requires rest == [] || (|rest| >= 4 && rest[..4] == [0, 0, 0, 1])
    ensures FirstBreak(u + rest) <= |u|
    ensures FirstBreak(u + rest) == |u| <==> Unbroken(u, rest != [])
  {
    var s, n := u + rest, |u|;
    if rest == [] {
      assert s == u;
    } else {
      assert rest[0] == rest[..4][0] && rest[1] == rest[..4][1] && rest[2] == rest[..4][2];
      assert s[n] == 0 && s[n + 1] == 0 && s[n + 2] == 0;
      assert BreakAt(s, n);
      assert forall i :: 0 <= i && i + 3 <= n ==> (BreakAt(s, i) <==> BreakAt(u, i));
      if u != [] && u[n - 1] == 0 {
        assert BreakAt(s, n - 1);
      }
    }
  }

  lemma StreamStarts(units: seq<Octets>)
    ensures units == [] <==> StreamOf(units) == []
    ensures units != [] ==> |StreamOf(units)| >= 4 && StreamOf(units)[..4] == [0, 0, 0, 1]
  {
  }

  lemma ReadFirst(u: Octets, rest: Octets)
    ensures var k := FirstBreak(u + rest);
            ReadUnits([0, 0, 0, 1] + (u + rest)) == [(u + rest)[..k]] + ReadUnits((u + rest)[k..])
  {
    var s: Octets := [0, 0, 0, 1] + (u + rest);
    assert !CodeAt(s, 0) && CodeAt(s, 1);
    assert FirstCode(s) == 1;
    assert s[4..] == u + rest;
  }

  /** The reader gives back the units that the stream was made of if and only if all of them are unbroken. */
  lemma {:induction false} ReadIff(units: seq<Octets>)
    ensures ReadUnits(StreamOf(units)) == units <==> AllUnbroken(units)
  {
    if units == [] {
    } else {
      var u, more := units[0], units[1..];
      var rest := StreamOf(more);
      StreamStarts(more);
      ReadFirst(u, rest);
      ReadsToEnd(u, rest);
      ReadIff(more);
      UnbrokenCons(units);
      var k := FirstBreak(u + rest);
      if k == |u| {
        assert (u + rest)[..k] == u && (u + rest)[k..] == rest;
        assert units == [u] + more;
      } else {
        assert |(u + rest)[..k]| < |units[0]|;
      }
    }
  }

  lemma UnbrokenCons(units: seq<Octets>)
    requires units != []
    ensures AllUnbroken(units) <==> Unbroken(units[0], units[1..] != []) && AllUnbroken(units[1..])
  {
    var more := units[1..];
    assert forall i :: 0 <= i < |more| ==> more[i] == units[i + 1];
    if AllUnbroken(units) {
      forall i | 0 <= i < |more|
        ensures Unbroken(more[i], i < |more| - 1)
      {
        assert Unbroken(units[i + 1], i + 1 < |units| - 1);
      }
    }
    if Unbroken(units[0], more != []) && AllUnbroken(more) {
      forall i | 0 <= i < |units|
        ensures Unbroken(units[i], i < |units| - 1)
      {
        if i > 0 {
          assert Unbroken(more[i - 1], i - 1 < |more| - 1);
        }
      }
    }
  }

  // ---- The output of the client ----

  /** The octets of the units. */
  function BytesOf(ts: seq<Transmission>): seq<Octets> {
    if ts == [] then [] else [ts[0].Unit().header + ts[0].Unit().body] + BytesOf(ts[1..])
  }

  /** The parameter sets that decode. */
  function Decoded(sets: seq<Option<Octets>>): seq<Octets> {
    if sets == [] || sets[0].None? then [] else [sets[0].value] + Decoded(sets[1..])
  }

  lemma {:induction false} StreamAppend(a: seq<Octets>, b: seq<Octets>)
    ensures StreamOf(a + b) == StreamOf(a) + StreamOf(b)
  {
    if a == [] {
      assert a + b == b;
    } else {
      assert (a + b)[1..] == a[1..] + b;
      StreamAppend(a[1..], b);
      Associative(a[0], StreamOf(a[1..]), StreamOf(b));
      Associative([0, 0, 0, 1], a[0] + StreamOf(a[1..]), StreamOf(b));
    }
  }

  lemma {:induction false} UnitsAreStream(ts: seq<Transmission>)
    ensures Flatten(Units(ts)) == StreamOf(BytesOf(ts))
  {
    if ts == [] {
    } else {
      UnitsAreStream(ts[1..]);
      var n := ts[0].Unit();
      assert Units(ts)[1..] == Units(ts[1..]);
      assert AnnexB(n) == [0, 0, 0, 1] + (n.header + n.body);
      Associative([0, 0, 0, 1], n.header + n.body, Flatten(Units(ts[1..])));
    }
  }

  lemma {:induction false} SetsAreStream(sets: seq<Option<Octets>>)
    requires Prefix(sets).ok
    ensures Prefix(sets).bytes == StreamOf(Decoded(sets)) && |Decoded(sets)| == |sets|
  {
    if sets == [] {
    } else {
      SetsAreStream(sets[1..]);
      assert START_CODE + sets[0].value == [0, 0, 0, 1] + sets[0].value;
      Associative([0, 0, 0, 1], sets[0].value, StreamOf(Decoded(sets[1..])));
    }
  }

  /**
   What a receiver reads from the results of a run in which every call is ready and the first finds a unit,
   put together: the parameter sets in their order and then the units found, if and only if all are unbroken.
   */
  lemma RunIsRead(s: Session, events: seq<Event>, future: seq<Octets>, ts: seq<Transmission>, max: nat)
    requires Streams(s, events, future, ts) && Clean(s, events) && PrefixFits(s, ts, max)
    requires EveryCallReady(s, max, events, ts) && FirstCallReady(s, events)
    ensures 1 <= Found(s, max, events) <= |ts|
    ensures var n := Found(s, max, events);
            var units := Decoded(s.sets) + BytesOf(ts[..n]);
            (ReadUnits(Flatten(Successes(Run(s, max, events).calls))) == units <==> AllUnbroken(units))
  {
    WholeRun(s, events, future, ts, max);
    var n := Found(s, max, events);
    UnitsAreStream(ts[..n]);
    SetsAreStream(s.sets);
    StreamAppend(Decoded(s.sets), BytesOf(ts[..n]));
    ReadIff(Decoded(s.sets) + BytesOf(ts[..n]));
  }

  /** And without parameter sets due, the units found. */
  lemma LaterRunIsRead(s: Session, events: seq<Event>, future: seq<Octets>, ts: seq<Transmission>, max: nat)
    requires Streams(s, events, future, ts) && Clean(s, events) && !s.needPrefix
    requires EveryCallReady(s, max, events, ts)
    ensures var n := Found(s, max, events);
            && n <= |ts|
            && (ReadUnits(Flatten(Successes(Run(s, max, events).calls))) == BytesOf(ts[..n]) <==> AllUnbroken(BytesOf(ts[..n])))
  {
    ReadyRun(s, events, future, ts, max);
    UnitsAreStream(ts[..Found(s, max, events)]);
    ReadIff(BytesOf(ts[..Found(s, max, events)]));
  }
}
