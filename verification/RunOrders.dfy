/**
 What one iteration of a run visits and runs, and in which order, as functions of the lists of tests,
 of the tests that are to run and of the seed.
 */
module RunOrders {
  import opened Common
  import opened Shuffling

  // ---- The elements to run ----

  function Keep<T(==)>(s: seq<T>, due: set<T>): seq<T> {
    if s == [] then [] else (if s[0] in due then [s[0]] else []) + Keep(s[1..], due)
  }

  lemma {:induction false} KeepAppend<T>(a: seq<T>, b: seq<T>, due: set<T>)
    ensures Keep(a + b, due) == Keep(a, due) + Keep(b, due)
  {
    if a == [] {
      assert a + b == b;
    } else {
      assert (a + b)[1..] == a[1..] + b;
      KeepAppend(a[1..], b, due);
      var first := if a[0] in due then [a[0]] else [];
      Associative(first, Keep(a[1..], due), Keep(b, due));
    }
  }

  lemma KeepOne<T>(x: T, due: set<T>)
    ensures Keep([x], due) == if x in due then [x] else []
  {
    assert [x][1..] == [];
  }

  lemma KeepWithout<T>(s: seq<T>, j: nat, due: set<T>)
    requires j < |s|
    ensures multiset(Keep(s, due)) == multiset(Keep([s[j]], due)) + multiset(Keep(Without(s, j), due))
  {
    var front, back := s[..j], s[j + 1..];
    SplitAround(s, j);
    KeepAppend(front, [s[j]] + back, due);
    KeepAppend([s[j]], back, due);
    KeepAppend(front, back, due);
    MultisetAround(Keep(front, due), Keep([s[j]], due), Keep(back, due));
  }

  lemma {:induction false} KeepMultiset<T>(a: seq<T>, b: seq<T>, due: set<T>)
    requires multiset(a) == multiset(b)
    ensures multiset(Keep(a, due)) == multiset(Keep(b, due))
    decreases |a|
  {
    if a == [] {
      assert |multiset(b)| == 0;
      assert b == [];
    } else {
      assert a[0] in multiset(b);
      var j :| 0 <= j < |b| && b[j] == a[0];
      WithoutMultiset(a, 0);
      WithoutMultiset(b, j);
      KeepWithout(a, 0, due);
      KeepWithout(b, j, due);
      KeepMultiset(Without(a, 0), Without(b, j), due);
    }
  }

  lemma {:induction false} KeepIn<T>(s: seq<T>, due: set<T>, x: T)
    ensures x in Keep(s, due) <==> x in s && x in due
  {
    if s == [] {
    } else {
      KeepIn(s[1..], due, x);
      assert x in s <==> x == s[0] || x in s[1..];
    }
  }

  // ---- The orders ----

  /** A vector after a shuffle from that state of the generator. */
  function Shuffled(v: seq<int>, state: nat): (r: seq<int>)
    ensures |r| == |v| && multiset(r) == multiset(v)
  {
    FisherYatesPermutes(v, Draws(state, |v|));
    FisherYates(v, Draws(state, |v|))
  }

  /** The order of n lists, of which the first d stay in front: as registered, or shuffled from a seed. */
  function CaseOrder(n: nat, d: nat, shuffle: bool, seed: nat): (r: seq<int>)
    requires d <= n
    ensures BlockPermutation(r, d, n) && Within(r, n)
  {
    IotaSplits(d, n);
    if !shuffle then
      Iota(0, n)
    else
      var r := Shuffled(Iota(0, d), seed) + Shuffled(Iota(d, n), StateAfter(seed, d));
      assert r[..d] == Shuffled(Iota(0, d), seed) && r[d..] == Shuffled(Iota(d, n), StateAfter(seed, d));
      PermutationWithin(r, d, n);
      r
  }

  lemma PermutationWithin(r: seq<int>, d: int, n: int)
    requires 0 <= d <= n && BlockPermutation(r, d, n)
    ensures Within(r, n)
  {
    forall i | 0 <= i < n
      ensures 0 <= r[i] < n
    {
      BlockMembers(r, d, n, i);
    }
  }

  /** The state of the generator when the i-th list is shuffled. */
  function StateAt<T>(state: nat, lists: seq<seq<T>>, i: nat): nat
    requires i <= |lists|
    decreases i
  {
    if i == 0 then state else StateAfter(StateAt(state, lists, i - 1), |lists[i - 1]|)
  }

  /** It depends on the lengths only. */
  lemma {:induction false} StateAtLengths<T, U>(state: nat, a: seq<seq<T>>, b: seq<seq<U>>, i: nat)
    requires i <= |a| == |b| && forall k :: 0 <= k < |a| ==> |a[k]| == |b[k]|
    ensures StateAt(state, a, i) == StateAt(state, b, i)
    decreases i
  {
    if i == 0 {
    } else {
      StateAtLengths(state, a, b, i - 1);
    }
  }

  /** The state behind the shuffle of the n lists. */
  function StateBehind(seed: nat, d: nat, n: nat): nat
    requires d <= n
  {
    StateAfter(StateAfter(seed, d), n - d)
  }

  /** The order inside the i-th list. */
  function InnerOrder<T>(lists: seq<seq<T>>, i: nat, shuffle: bool, state: nat): (r: seq<int>)
    requires i < |lists|
    ensures BlockPermutation(r, 0, |lists[i]|) && Within(r, |lists[i]|)
  {
    var n := |lists[i]|;
    IotaSplits(0, n);
    if !shuffle then
      Iota(0, n)
    else
      var r := Shuffled(Iota(0, n), StateAt(state, lists, i));
      assert r[..0] == [] && r[0..] == r && Iota(0, 0) == [];
      PermutationWithin(r, 0, n);
      r
  }

  /** What is run of each list. */
  function Runs<T(==)>(lists: seq<seq<T>>, due: set<T>, shuffle: bool, state: nat): (r: seq<seq<T>>)
    ensures |r| == |lists|
  {
    seq(|lists|, i requires 0 <= i < |lists| => Keep(Visit(lists[i], InnerOrder(lists, i, shuffle, state)), due))
  }

  /** All that is run, list by list. */
  function TestOrder<T(==)>(lists: seq<seq<T>>, due: set<T>, d: nat, shuffle: bool, seed: nat): seq<T>
    requires d <= |lists|
  {
    var n := |lists|;
    Flatten(Visit(Runs(lists, due, shuffle, StateBehind(seed, d, n)), CaseOrder(n, d, shuffle, seed)))
  }

  // ---- What the orders have in common ----

  lemma {:induction false} RunsMultiset<T>(lists: seq<seq<T>>, due: set<T>, shuffle: bool, state: nat, k: nat)
    requires k <= |lists|
    ensures multiset(Flatten(Runs(lists, due, shuffle, state)[..k])) == multiset(Keep(Flatten(lists[..k]), due))
    decreases k
  {
    var runs := Runs(lists, due, shuffle, state);
    if k == 0 {
    } else {
      var i := k - 1;
      var order := InnerOrder(lists, i, shuffle, state);
      RunsMultiset(lists, due, shuffle, state, i);
      FlattenUpTo(runs, i);
      FlattenUpTo(lists, i);
      KeepAppend(Flatten(lists[..i]), lists[i], due);
      VisitsAllBlockFirst(lists[i], order, 0);
      KeepMultiset(Visit(lists[i], order), lists[i], due);
    }
  }

  /** Shuffled or not, the elements to run are run, each as often as it is listed. */
  lemma TestOrderMultiset<T>(lists: seq<seq<T>>, due: set<T>, d: nat, shuffle: bool, seed: nat)
    requires d <= |lists|
    ensures multiset(TestOrder(lists, due, d, shuffle, seed)) == multiset(Keep(Flatten(lists), due))
  {
    var n := |lists|;
    var state, order := StateBehind(seed, d, n), CaseOrder(n, d, shuffle, seed);
    var runs := Runs(lists, due, shuffle, state);
    VisitsAllBlockFirst(runs, order, d);
    FlattenMultiset(Visit(runs, order), runs);
    RunsMultiset(lists, due, shuffle, state, n);
    assert runs[..n] == runs && lists[..n] == lists;
  }

  lemma {:induction false} RunsUnshuffled<T>(lists: seq<seq<T>>, due: set<T>, state: nat, k: nat)
    requires k <= |lists|
    ensures Flatten(Runs(lists, due, false, state)[..k]) == Keep(Flatten(lists[..k]), due)
    decreases k
  {
    if k == 0 {
    } else {
      var i := k - 1;
      RunsUnshuffled(lists, due, state, i);
      FlattenUpTo(Runs(lists, due, false, state), i);
      FlattenUpTo(lists, i);
      KeepAppend(Flatten(lists[..i]), lists[i], due);
      VisitUnshuffled(lists[i]);
    }
  }

  /** Unshuffled they are run in the order of the lists. */
  lemma TestOrderUnshuffled<T>(lists: seq<seq<T>>, due: set<T>, d: nat, seed: nat)
    requires d <= |lists|
    ensures TestOrder(lists, due, d, false, seed) == Keep(Flatten(lists), due)
  {
    var n := |lists|;
    var runs := Runs(lists, due, false, StateBehind(seed, d, n));
    VisitUnshuffled(runs);
    RunsUnshuffled(lists, due, StateBehind(seed, d, n), n);
    assert runs[..n] == runs && lists[..n] == lists;
  }

  // ---- Seeds ----

  const MAX_RANDOM_SEED := 99999

  /** The seed of the first iteration, from a flag or a clock read as a 32-bit word. */
  function FirstSeed(raw: nat): nat {
    (raw + 0xFFFF_FFFF) % 0x1_0000_0000 % MAX_RANDOM_SEED + 1
  }

  function NextRandomSeed(seed: nat): nat {
    if seed + 1 > MAX_RANDOM_SEED then 1 else seed + 1
  }

  /** The seed of the k-th iteration: they go round from 1 to 99999. */
  function SeedAt(raw: nat, k: nat): nat {
    ((raw + 0xFFFF_FFFF) % 0x1_0000_0000 + k) % 99999 + 1
  }

  lemma SeedStarts(raw: nat)
    ensures SeedAt(raw, 0) == FirstSeed(raw)
  {
  }

  lemma SeedNext(raw: nat, k: nat)
    ensures SeedAt(raw, k + 1) == NextRandomSeed(SeedAt(raw, k))
  {
    var x := (raw + 0xFFFF_FFFF) % 0x1_0000_0000 + k;
    var q, r := x / 99999, x % 99999;
    assert x == q * 99999 + r;
    if r + 1 < 99999 {
      UniqueQuotient(x + 1, 99999, q, r + 1);
    } else {
      UniqueQuotient(x + 1, 99999, q + 1, 0);
    }
  }
}
