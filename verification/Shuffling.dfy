/**
 Permutations by index vector: the in-place shuffle of a range, and what visiting elements
 through a shuffled index vector means.
 */
module Shuffling {
  import opened Common

  const MAX_RANGE := 0x8000_0000    // kMaxRange, 2^31
  const WORD := 0x1_0000_0000

  /** The linear congruential generator, in 32-bit arithmetic. */
  function NextState(state: nat): (r: nat)
    ensures r < MAX_RANGE
  {
    (1103515245 * state + 12345) % WORD % MAX_RANGE
  }

  /** The state in front of one, with the inverse of the multiplier. */
  function PreviousState(state: nat): (r: nat)
    ensures r < 0x8000_0000
  {
    (1857678181 * (state - 12345)) % 0x8000_0000
  }

  lemma NextStateQuotient(state: nat)
    ensures NextState(state) == (1103515245 * state + 12345) % 0x8000_0000
  {
    var x := 1103515245 * state + 12345;
    var q, r := x / WORD, x % WORD;
    var q', r' := r / 0x8000_0000, r % 0x8000_0000;
    assert x == (2 * q + q') * 0x8000_0000 + r';
    UniqueQuotient(x, 0x8000_0000, 2 * q + q', r');
  }

  /** One step of the generator is a permutation of the numbers below 2^31, undone by the step back. */
  lemma NextStatePermutes(x: nat)
    requires x < 0x8000_0000
    ensures PreviousState(NextState(x)) == x && NextState(PreviousState(x)) == x
  {
    NextStateQuotient(x);
    NextStateQuotient(PreviousState(x));
    var y := 1103515245 * x + 12345;
    var k := y / 0x8000_0000;
    UniqueQuotient(1857678181 * (NextState(x) - 12345), 0x8000_0000, 954594553 * x - 1857678181 * k, x);
    var z := 1857678181 * (x - 12345);
    var j := z / 0x8000_0000;
    UniqueQuotient(1103515245 * PreviousState(x) + 12345, 0x8000_0000, 954594553 * (x - 12345) - 1103515245 * j, x);
  }

  class Random {
    var state: nat

    constructor (seed: nat)
      ensures state == seed
    {
      state := seed;
    }

    method Reseed(seed: nat)
      modifies `state
      ensures state == seed
    {
      state := seed;
    }

    /** A number from 0 up to range, for a range that passes the two checks. */
    method Generate(range: nat) returns (n: nat)
      requires 0 < range <= MAX_RANGE
      modifies `state
      ensures state == NextState(old(state)) && n == state % range && n < range
    {
      state := NextState(state);
      n := state % range;
    }
  }

  // ---- Fisher-Yates ----

  /** Every draw is below the number of elements that are left. */
  predicate Fitting(draws: seq<nat>, n: nat)
    decreases n
  {
    if n < 2 then draws == [] else draws != [] && draws[0] < n && Fitting(draws[1..], n - 1)
  }

  /** The elements left when the last one has changed places with the one drawn, which is done. */
  function Rest<E>(s: seq<E>, draw: nat): (r: seq<E>)
    requires draw < |s|
    ensures |r| == |s| - 1
  {
    if draw == |s| - 1 then s[..|s| - 1] else s[..|s| - 1][draw := s[|s| - 1]]
  }

  /** The shuffle of all of s with given draws. */
  function FisherYates<E>(s: seq<E>, draws: seq<nat>): (r: seq<E>)
    requires Fitting(draws, |s|)
    ensures |r| == |s|
    decreases |s|
  {
    if |s| < 2 then s else FisherYates(Rest(s, draws[0]), draws[1..]) + [s[draws[0]]]
  }

  lemma FisherYatesCons<E>(s: seq<E>, d: nat, draws: seq<nat>)
    requires |s| >= 2 && d < |s| && Fitting(draws, |s| - 1)
    ensures Fitting([d] + draws, |s|)
    ensures FisherYates(s, [d] + draws) == FisherYates(Rest(s, d), draws) + [s[d]]
  {
    assert ([d] + draws)[1..] == draws;
  }

  lemma RestMultiset<E>(s: seq<E>, d: nat)
    requires d < |s|
    ensures multiset(Rest(s, d)) == multiset(s) - multiset{s[d]}
  {
    var n := |s| - 1;
    assert s == s[..n] + [s[n]];
    assert multiset(s) == multiset(s[..n]) + multiset{s[n]};
    if d < n {
      assert s[..n][d] == s[d];
    }
  }

  /** Whatever is drawn, the result is a permutation. */
  lemma {:induction false} FisherYatesPermutes<E>(s: seq<E>, draws: seq<nat>)
    requires Fitting(draws, |s|)
    ensures multiset(FisherYates(s, draws)) == multiset(s)
    decreases |s|
  {
    if |s| >= 2 {
      var d := draws[0];
      RestMultiset(s, d);
      FisherYatesPermutes(Rest(s, d), draws[1..]);
      assert s[d] in multiset(s);
    }
  }

  /** Every permutation comes out for some draws. */
  lemma {:induction false} EveryPermutation<E>(s: seq<E>, t: seq<E>) returns (draws: seq<nat>)
    requires multiset(s) == multiset(t)
    ensures Fitting(draws, |s|) && FisherYates(s, draws) == t
    decreases |s|
  {
    SameLength(s, t);
    if |s| < 2 {
      draws := [];
      if |s| == 1 {
        assert s[0] in multiset(t);
      }
    } else {
      var n := |s| - 1;
      var d := IndexOf(s, t, n);
      RestMultiset(s, d);
      RestMultiset(t, n);
      assert Rest(t, n) == t[..n];
      var more := EveryPermutation(Rest(s, d), t[..n]);
      LastJoins(s, t, d, more);
      draws := [d] + more;
    }
  }

  lemma LastJoins<E>(s: seq<E>, t: seq<E>, d: nat, more: seq<nat>)
    requires |s| == |t| >= 2 && d < |s| && s[d] == t[|t| - 1]
    requires Fitting(more, |s| - 1) && FisherYates(Rest(s, d), more) == t[..|t| - 1]
    ensures Fitting([d] + more, |s|) && FisherYates(s, [d] + more) == t
  {
    FisherYatesCons(s, d, more);
    assert t == t[..|t| - 1] + [t[|t| - 1]];
  }

  lemma IndexOf<E>(s: seq<E>, t: seq<E>, k: nat) returns (d: nat)
    requires multiset(s) == multiset(t) && k < |t|
    ensures d < |s| && s[d] == t[k]
  {
    assert t[k] in multiset(s);
    var i :| 0 <= i < |s| && s[i] == t[k];
    d := i;
  }

  lemma SameLength<E>(s: seq<E>, t: seq<E>)
    requires multiset(s) == multiset(t)
    ensures |s| == |t|
  {
    assert |multiset(s)| == |s| && |multiset(t)| == |t|;
  }

  lemma RestDistinct<E>(s: seq<E>, d: nat)
    requires Distinct(s) && d < |s|
    ensures Distinct(Rest(s, d))
  {
  }

  /** Different draws give different orders of different elements, so that no order is favoured. */
  lemma {:induction false} DrawsDetermined<E>(s: seq<E>, a: seq<nat>, b: seq<nat>)
    requires Distinct(s) && Fitting(a, |s|) && Fitting(b, |s|)
    requires FisherYates(s, a) == FisherYates(s, b)
    ensures a == b
    decreases |s|
  {
    if |s| >= 2 {
      var fa, fb := FisherYates(Rest(s, a[0]), a[1..]), FisherYates(Rest(s, b[0]), b[1..]);
      LastOne(fa, s[a[0]], fb, s[b[0]]);
      RestDistinct(s, a[0]);
      DrawsDetermined(Rest(s, a[0]), a[1..], b[1..]);
      assert a == [a[0]] + a[1..] && b == [b[0]] + b[1..];
    }
  }

  lemma LastOne<E>(a: seq<E>, x: E, b: seq<E>, y: E)
    requires a + [x] == b + [y]
    ensures a == b && x == y
  {
    var s, t := a + [x], b + [y];
    assert |a| == |b| && s[|a|] == t[|a|];
    assert a == s[..|a|] && b == t[..|b|];
  }

  /** What the generator draws from a state on, for a range of n elements. */
  function Draws(state: nat, n: nat): (r: seq<nat>)
    ensures Fitting(r, n)
    decreases n
  {
    if n < 2 then [] else [NextState(state) % n] + Draws(NextState(state), n - 1)
  }

  /** The state behind those draws. */
  function StateAfter(state: nat, n: nat): nat
    decreases n
  {
    if n < 2 then state else StateAfter(NextState(state), n - 1)
  }

  /** The whole of a vector is shuffled from that state on. */
  predicate ShuffledFrom<E(==)>(before: seq<E>, after: seq<E>, state: nat) {
    after == FisherYates(before, Draws(state, |before|))
  }

  /** One turn of the loop: the last of the width elements from begin on changes places with the one drawn. */
  function Exchanged<E>(v: seq<E>, begin: nat, width: nat, draw: nat): (r: seq<E>)
    requires draw < width && begin + width <= |v|
    ensures |r| == |v|
  {
    v[begin + draw := v[begin + width - 1]][begin + width - 1 := v[begin + draw]]
  }

  /** All turns of the loop. */
  function InPlace<E>(v: seq<E>, begin: nat, draws: seq<nat>, width: nat): (r: seq<E>)
    requires begin + width <= |v| && Fitting(draws, width)
    ensures |r| == |v|
    decreases width
  {
    if width < 2 then v else InPlace(Exchanged(v, begin, width, draws[0]), begin, draws[1..], width - 1)
  }

  lemma ExchangedParts<E>(front: seq<E>, part: seq<E>, back: seq<E>, draw: nat)
    requires draw < |part|
    ensures Exchanged(front + (part + back), |front|, |part|, draw)
         == front + (Rest(part, draw) + ([part[draw]] + back))
  {
    var r := Exchanged(front + (part + back), |front|, |part|, draw);
    var t := front + (Rest(part, draw) + ([part[draw]] + back));
    assert |r| == |t|;
    assert forall k :: 0 <= k < |r| ==> r[k] == t[k];
  }

  /** The loop shuffles the range and leaves the rest alone. */
  lemma {:induction false} InPlaceShuffles<E>(front: seq<E>, part: seq<E>, back: seq<E>, draws: seq<nat>)
    requires Fitting(draws, |part|)
    ensures InPlace(front + (part + back), |front|, draws, |part|) == front + (FisherYates(part, draws) + back)
    decreases |part|
  {
    if |part| >= 2 {
      var d := draws[0];
      ExchangedParts(front, part, back, d);
      InPlaceShuffles(front, Rest(part, d), [part[d]] + back, draws[1..]);
      Associative(FisherYates(Rest(part, d), draws[1..]), [part[d]], back);
    }
  }

  lemma ThreeParts<E>(v: seq<E>, begin: nat, end: nat)
    requires begin <= end <= |v|
    ensures v == v[..begin] + (v[begin..end] + v[end..])
  {
  }

  lemma RangeOf<E>(r: seq<E>, front: seq<E>, range: seq<E>, back: seq<E>)
    requires r == front + (range + back)
    ensures var b, e := |front|, |front| + |range|; r[..b] == front && r[b..e] == range && r[e..] == back
  {
  }

  lemma InPlaceRange<E>(v: seq<E>, begin: nat, end: nat, draws: seq<nat>)
    requires begin <= end <= |v| && Fitting(draws, end - begin)
    ensures var r := InPlace(v, begin, draws, end - begin);
            && r[..begin] == v[..begin] && r[end..] == v[end..]
            && r[begin..end] == FisherYates(v[begin..end], draws)
            && multiset(r[begin..end]) == multiset(v[begin..end])
  {
    var part := v[begin..end];
    ThreeParts(v, begin, end);
    InPlaceShuffles(v[..begin], part, v[end..], draws);
    RangeOf(InPlace(v, begin, draws, end - begin), v[..begin], FisherYates(part, draws), v[end..]);
    FisherYatesPermutes(part, draws);
  }

  /** The loop of ShuffleRange. */
  method ShuffleLoop<E>(random: Random, begin: nat, width: nat, v: seq<E>) returns (r: seq<E>)
    requires begin + width <= |v| && width <= MAX_RANGE
    modifies random`state
    ensures r == InPlace(v, begin, Draws(old(random.state), width), width)
    ensures random.state == StateAfter(old(random.state), width)
  {
    r := v;
    var rangeWidth := width;
    ghost var result := InPlace(v, begin, Draws(random.state, width), width);
    while rangeWidth >= 2
      invariant 0 <= rangeWidth <= width && |r| == |v|
      invariant result == InPlace(r, begin, Draws(random.state, rangeWidth), rangeWidth)
      invariant StateAfter(random.state, rangeWidth) == StateAfter(old(random.state), width)
    {
      var lastInRange := begin + rangeWidth - 1;
      InPlaceTurn(r, begin, random.state, rangeWidth);
      var n := random.Generate(rangeWidth);
      var selected := begin + n;
      r := r[selected := r[lastInRange]][lastInRange := r[selected]];
      rangeWidth := rangeWidth - 1;
    }
  }

  lemma InPlaceTurn<E>(r: seq<E>, begin: nat, state: nat, width: nat)
    requires width >= 2 && begin + width <= |r|
    ensures var next := NextState(state);
            InPlace(r, begin, Draws(state, width), width) ==
            InPlace(Exchanged(r, begin, width, next % width), begin, Draws(next, width - 1), width - 1)
  {
    var next := NextState(state);
    assert Draws(state, width) == [next % width] + Draws(next, width - 1);
    assert Draws(state, width)[1..] == Draws(next, width - 1);
  }

  /** The in-place shuffle of the elements from begin up to end. */
  method ShuffleRange<E>(random: Random, begin: nat, end: nat, v: seq<E>) returns (r: seq<E>)
    requires begin <= end <= |v| && end - begin <= MAX_RANGE
    modifies random`state
    ensures |r| == |v| && r[..begin] == v[..begin] && r[end..] == v[end..]
    ensures r[begin..end] == FisherYates(v[begin..end], Draws(old(random.state), end - begin))
    ensures multiset(r[begin..end]) == multiset(v[begin..end])
    ensures random.state == StateAfter(old(random.state), end - begin)
  {
    InPlaceRange(v, begin, end, Draws(random.state, end - begin));
    r := ShuffleLoop(random, begin, end - begin, v);
  }

  // ---- Index vectors ----

  /** The numbers from a up to b. */
  function Iota(a: int, b: int): (r: seq<int>)
    requires a <= b
    ensures |r| == b - a && forall i :: 0 <= i < b - a ==> r[i] == a + i
  {
    seq(b - a, i => a + i)
  }

  lemma IotaAppend(n: nat)
    ensures Iota(0, n) + [n] == Iota(0, n + 1)
  {
  }

  lemma IotaByElements(s: seq<int>)
    requires forall i :: 0 <= i < |s| ==> s[i] == i
    ensures s == Iota(0, |s|)
  {
  }

  /** The index vector is a permutation of 0 up to n that maps 0 up to d to itself. */
  predicate BlockPermutation(indices: seq<int>, d: int, n: int)
    requires 0 <= d <= n
  {
    |indices| == n
    && multiset(indices[..d]) == multiset(Iota(0, d))
    && multiset(indices[d..]) == multiset(Iota(d, n))
  }

  lemma BlockMembers(indices: seq<int>, d: int, n: int, i: int)
    requires 0 <= d <= n && BlockPermutation(indices, d, n) && 0 <= i < n
    ensures 0 <= indices[i] < n && (indices[i] < d <==> i < d)
  {
    if i < d {
      assert indices[..d][i] == indices[i];
      assert indices[i] in multiset(indices[..d]);
      assert indices[i] in multiset(Iota(0, d));
    } else {
      assert indices[d..][i - d] == indices[i];
      assert indices[i] in multiset(indices[d..]);
      assert indices[i] in multiset(Iota(d, n));
    }
  }

  lemma IotaSplits(d: int, n: int)
    requires 0 <= d <= n
    ensures Iota(0, n)[..d] == Iota(0, d) && Iota(0, n)[d..] == Iota(d, n)
    ensures BlockPermutation(Iota(0, n), d, n)
  {
  }

  /** A permutation of the block and one of the rest make a permutation of the whole. */
  lemma BlockIsPermutation(indices: seq<int>, d: int, n: int)
    requires 0 <= d <= n && BlockPermutation(indices, d, n)
    ensures multiset(indices) == multiset(Iota(0, n))
  {
    IotaSplits(d, n);
    SplitJoin(indices, d);
    SplitJoin(Iota(0, n), d);
  }

  /** The first d elements are shuffled from that state on, and then the others. */
  predicate BlocksShuffled(before: seq<int>, after: seq<int>, d: nat, state: nat) {
    && d <= |before| == |after|
    && after[..d] == FisherYates(before[..d], Draws(state, d))
    && after[d..] == FisherYates(before[d..], Draws(StateAfter(state, d), |before| - d))
  }

  /** Shuffling the block and then the rest keeps the vector a permutation that maps the block to itself. */
  lemma ShuffledBlocks(before: seq<int>, after: seq<int>, d: nat, state: nat)
    requires BlocksShuffled(before, after, d, state) && BlockPermutation(before, d, |before|)
    ensures BlockPermutation(after, d, |after|)
  {
    FisherYatesPermutes(before[..d], Draws(state, d));
    FisherYatesPermutes(before[d..], Draws(StateAfter(state, d), |before| - d));
  }

  lemma RangesAreBlocks(before: seq<int>, first: seq<int>, after: seq<int>, d: nat, state: nat)
    requires d <= |before| == |first| == |after|
    requires first[d..] == before[d..] && first[0..d] == FisherYates(before[0..d], Draws(state, d))
    requires after[..d] == first[..d]
    requires after[d..|after|] == FisherYates(first[d..|first|], Draws(StateAfter(state, d), |before| - d))
    ensures BlocksShuffled(before, after, d, state)
  {
    assert first[0..d] == first[..d] && before[0..d] == before[..d];
    assert after[d..|after|] == after[d..] && first[d..|first|] == first[d..];
  }

  /** Shuffles the first d elements of an index vector and then the others. */
  method ShuffleBlocks(random: Random, start: seq<int>, d: nat) returns (r: seq<int>)
    requires d <= |start| <= MAX_RANGE
    modifies random`state
    ensures BlocksShuffled(start, r, d, old(random.state))
    ensures random.state == StateAfter(StateAfter(old(random.state), d), |start| - d)
  {
    var first := ShuffleRange(random, 0, d, start);
    r := ShuffleRange(random, d, |start|, first);
    RangesAreBlocks(start, first, r, d, old(random.state));
  }

  predicate Within(indices: seq<int>, n: nat) {
    forall i :: 0 <= i < |indices| ==> 0 <= indices[i] < n
  }

  function Visit<T>(elements: seq<T>, indices: seq<int>): seq<T>
    requires Within(indices, |elements|)
  {
    seq(|indices|, k requires 0 <= k < |indices| => elements[indices[k]])
  }

  function Without<T>(b: seq<T>, j: nat): seq<T>
    requires j < |b|
  {
    b[..j] + b[j + 1..]
  }

  lemma WithoutMultiset<T>(b: seq<T>, j: nat)
    requires j < |b|
    ensures multiset(b) == multiset(Without(b, j)) + multiset{b[j]}
    ensures multiset(Without(b, j)) == multiset(b) - multiset{b[j]}
  {
    assert b == b[..j] + ([b[j]] + b[j + 1..]);
  }

  lemma VisitWithout<T>(elements: seq<T>, b: seq<int>, j: nat)
    requires j < |b| && Within(b, |elements|)
    ensures Within(Without(b, j), |elements|)
    ensures multiset(Visit(elements, b)) == multiset(Visit(elements, Without(b, j))) + multiset{elements[b[j]]}
  {
    var front, back := Visit(elements, b[..j]), Visit(elements, b[j + 1..]);
    assert Visit(elements, b) == front + ([elements[b[j]]] + back);
    assert Visit(elements, Without(b, j)) == front + back;
  }

  /** What is visited, and how often, depends on the indices as a multiset only. */
  lemma {:induction false} VisitMultiset<T>(elements: seq<T>, a: seq<int>, b: seq<int>)
    requires Within(a, |elements|) && Within(b, |elements|) && multiset(a) == multiset(b)
    ensures multiset(Visit(elements, a)) == multiset(Visit(elements, b))
    decreases |a|
  {
    if a == [] {
      assert |multiset(b)| == 0;
      assert b == [];
    } else {
      assert a[0] in multiset(b);
      var j :| 0 <= j < |b| && b[j] == a[0];
      WithoutMultiset(a, 0);
      WithoutMultiset(b, j);
      VisitWithout(elements, a, 0);
      VisitWithout(elements, b, j);
      VisitMultiset(elements, Without(a, 0), Without(b, j));
    }
  }

  /**
   Visiting through such an index vector meets every element exactly once, and all of the block
   before any of the rest.
   */
  lemma VisitsAllBlockFirst<T>(elements: seq<T>, indices: seq<int>, d: int)
    requires 0 <= d <= |elements| && BlockPermutation(indices, d, |elements|)
    ensures Within(indices, |elements|)
    ensures multiset(Visit(elements, indices)) == multiset(elements)
    ensures multiset(Visit(elements, indices)[..d]) == multiset(elements[..d])
    ensures multiset(Visit(elements, indices)[d..]) == multiset(elements[d..])
  {
    var n := |elements|;
    forall i | 0 <= i < n
      ensures 0 <= indices[i] < n && (indices[i] < d <==> i < d)
    {
      BlockMembers(indices, d, n, i);
    }
    BlockIsPermutation(indices, d, n);
    VisitMultiset(elements, indices, Iota(0, n));
    assert Visit(elements, Iota(0, n)) == elements;
    VisitMultiset(elements, indices[..d], Iota(0, d));
    assert Visit(elements, Iota(0, d)) == elements[..d];
    assert Visit(elements, indices)[..d] == Visit(elements, indices[..d]);
    VisitMultiset(elements, indices[d..], Iota(d, n));
    assert Visit(elements, Iota(d, n)) == elements[d..];
    assert Visit(elements, indices)[d..] == Visit(elements, indices[d..]);
  }

  // ---- Lists of lists ----

  lemma FlattenOne<T>(list: seq<T>)
    ensures Flatten([list]) == list
  {
    assert [list][1..] == [];
  }

  lemma FlattenUpTo<T>(lists: seq<seq<T>>, i: nat)
    requires i < |lists|
    ensures Flatten(lists[..i + 1]) == Flatten(lists[..i]) + lists[i]
  {
    assert lists[..i + 1] == lists[..i] + [lists[i]];
    FlattenAppend(lists[..i], [lists[i]]);
    FlattenOne(lists[i]);
  }

  lemma FlattenAround<T>(front: seq<seq<T>>, list: seq<T>, back: seq<seq<T>>)
    ensures Flatten(front + ([list] + back)) == Flatten(front) + (list + Flatten(back))
  {
    FlattenAppend(front, [list] + back);
    FlattenAppend([list], back);
    FlattenOne(list);
  }

  lemma MultisetAround<T>(a: seq<T>, b: seq<T>, c: seq<T>)
    ensures multiset(a + (b + c)) == multiset(b) + multiset(a + c)
  {
  }

  lemma SplitAround<T>(s: seq<T>, j: nat)
    requires j < |s|
    ensures s == s[..j] + ([s[j]] + s[j + 1..])
  {
  }

  lemma FlattenWithout<T>(lists: seq<seq<T>>, j: nat)
    requires j < |lists|
    ensures multiset(Flatten(lists)) == multiset(lists[j]) + multiset(Flatten(Without(lists, j)))
  {
    var front, list, back := lists[..j], lists[j], lists[j + 1..];
    SplitAround(lists, j);
    FlattenAround(front, list, back);
    FlattenAppend(front, back);
    MultisetAround(Flatten(front), list, Flatten(back));
  }

  /** The same lists in another order hold the same elements as often. */
  lemma {:induction false} FlattenMultiset<T>(a: seq<seq<T>>, b: seq<seq<T>>)
    requires multiset(a) == multiset(b)
    ensures multiset(Flatten(a)) == multiset(Flatten(b))
    decreases |a|
  {
    if a == [] {
      assert |multiset(b)| == 0;
      assert b == [];
    } else {
      assert a[0] in multiset(b);
      var j :| 0 <= j < |b| && b[j] == a[0];
      WithoutMultiset(a, 0);
      WithoutMultiset(b, j);
      FlattenWithout(a, 0);
      FlattenWithout(b, j);
      FlattenMultiset(Without(a, 0), Without(b, j));
    }
  }

  /** In their original order the indices visit the elements in theirs. */
  lemma VisitUnshuffled<T>(elements: seq<T>)
    ensures Visit(elements, Iota(0, |elements|)) == elements
  {
  }

  /**
   The two accessors for the i-th element: one goes through the index vector, the other only
   checks its length. Over distinct elements they agree everywhere exactly on an unshuffled vector.
   */
  lemma AccessorsAgreeIff<T>(elements: seq<T>, indices: seq<int>)
    requires |indices| == |elements| && Within(indices, |elements|)
    requires forall i, j :: 0 <= i < j < |elements| ==> elements[i] != elements[j]
    ensures Visit(elements, indices) == elements <==> indices == Iota(0, |elements|)
  {
    if Visit(elements, indices) == elements {
      forall i | 0 <= i < |indices|
        ensures indices[i] == i
      {
        assert Visit(elements, indices)[i] == elements[indices[i]];
      }
    }
  }
}
