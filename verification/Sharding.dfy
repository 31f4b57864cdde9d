/**
 Which tests one launch of a test program selects. The runnable tests are numbered in the order of
 registration and test number t belongs to shard t % total.
 */
module Sharding {
  import opened Common

  /** What the sharding variables ask for. */
  datatype Protocol = Ignore | Honor(total: int, index: int) | Exit

  /** ShouldShard; a variable that is not set reads as -1. */
  function ShouldShard(total: int, index: int, inSubprocess: bool): Protocol {
    if inSubprocess then Ignore
    else if total == -1 && index == -1 then Ignore
    else if total == -1 || index == -1 then Exit
    else if index < 0 || index >= total then Exit
    else if total > 1 then Honor(total, index)
    else Ignore
  }

  predicate ShouldRunTestOnShard(total: int, index: int, testId: nat)
    requires total > 0
  {
    testId % total == index
  }

  predicate Legal(p: Protocol) {
    p.Ignore? || (p.Honor? && 0 <= p.index < p.total)
  }

  predicate OnShard(p: Protocol, testId: nat)
    requires Legal(p)
  {
    p.Ignore? || ShouldRunTestOnShard(p.total, p.index, testId)
  }

  /** The variables in terms of their values: when they contradict each other, and when they select. */
  lemma ShardingIff(total: int, index: int, inSubprocess: bool)
    ensures var p := ShouldShard(total, index, inSubprocess);
            && (p.Exit? <==> !inSubprocess && (total != -1 || index != -1) && !(0 <= index < total))
            && (p.Honor? <==> !inSubprocess && 0 <= index < total && total > 1)
            && (p.Honor? ==> p == Honor(total, index))
            && (p.Exit? || Legal(p))
  {
  }

  /** Test number testId is on the shard of a launch. */
  predicate OnShardOf(total: int, index: int, inSubprocess: bool, testId: nat) {
    inSubprocess || total <= 1 || testId % total == index
  }

  lemma OnShardIff(total: int, index: int, inSubprocess: bool, testId: nat)
    requires !ShouldShard(total, index, inSubprocess).Exit?
    ensures Legal(ShouldShard(total, index, inSubprocess))
    ensures OnShard(ShouldShard(total, index, inSubprocess), testId) <==> OnShardOf(total, index, inSubprocess, testId)
  {
    ShardingIff(total, index, inSubprocess);
  }

  function Bit(b: bool): nat {
    if b then 1 else 0
  }

  function Count(s: seq<bool>): nat {
    if s == [] then 0 else Bit(s[0]) + Count(s[1..])
  }

  /** The tests selected, when a test is runnable as told and the first runnable one has number testId. */
  function Selected(runnable: seq<bool>, p: Protocol, testId: nat): (r: seq<bool>)
    requires Legal(p)
    ensures |r| == |runnable|
  {
    if runnable == [] then []
    else [runnable[0] && OnShard(p, testId)] + Selected(runnable[1..], p, testId + Bit(runnable[0]))
  }

  lemma {:induction false} CountAppend(a: seq<bool>, b: seq<bool>)
    ensures Count(a + b) == Count(a) + Count(b)
  {
    if a == [] {
      assert a + b == b;
    } else {
      assert a + b == [a[0]] + (a[1..] + b);
      CountAppend(a[1..], b);
    }
  }

  lemma CountOne(b: bool)
    ensures Count([b]) == Bit(b)
  {
    assert [b][1..] == [];
  }

  /** The numbering goes on from one list of tests to the next. */
  lemma {:induction false} SelectedAppend(a: seq<bool>, b: seq<bool>, p: Protocol, testId: nat)
    requires Legal(p)
    ensures Selected(a + b, p, testId) == Selected(a, p, testId) + Selected(b, p, testId + Count(a))
  {
    if a == [] {
      assert a + b == b;
    } else {
      assert a + b == [a[0]] + (a[1..] + b);
      SelectedAppend(a[1..], b, p, testId + Bit(a[0]));
    }
  }

  lemma SelectedOne(b: bool, p: Protocol, testId: nat)
    requires Legal(p)
    ensures Selected([b], p, testId) == [b && OnShard(p, testId)]
  {
    assert [b][1..] == [];
  }

  /** Test k is selected if and only if it is runnable and its number among the runnable ones is on the shard. */
  lemma {:induction false} SelectedIff(runnable: seq<bool>, p: Protocol, testId: nat, k: nat)
    requires Legal(p) && k < |runnable|
    ensures Selected(runnable, p, testId)[k] <==> runnable[k] && OnShard(p, testId + Count(runnable[..k]))
  {
    if k == 0 {
    } else {
      SelectedIff(runnable[1..], p, testId + Bit(runnable[0]), k - 1);
      assert runnable[..k] == [runnable[0]] + runnable[1..][..k - 1];
    }
  }

  // ---- All the shards together ----

  /** The launch with that shard index out of total. */
  function Launch(total: int, index: int): Protocol {
    ShouldShard(total, index, false)
  }

  /** The one shard of a test. */
  function ShardOf(runnable: seq<bool>, total: int, k: nat): (i: int)
    requires total >= 1 && k < |runnable|
    ensures 0 <= i < total
  {
    Count(runnable[..k]) % total
  }

  /** A runnable test is selected by exactly one of the launches, and any other test by none. */
  lemma ExactlyOneShard(runnable: seq<bool>, total: int, index: int, k: nat)
    requires 0 <= index < total && k < |runnable|
    ensures Legal(Launch(total, index))
    ensures Selected(runnable, Launch(total, index), 0)[k] <==> runnable[k] && index == ShardOf(runnable, total, k)
  {
    SelectedIff(runnable, Launch(total, index), 0, k);
  }

  /** How many of the numbers below m are on the shard. */
  function Hits(m: nat, total: int, index: int): int
    requires 0 <= index < total
  {
    (m + total - 1 - index) / total
  }

  lemma OneMore(x: nat, n: int)
    requires n > 0
    ensures (x + 1) / n == x / n + (if (x + 1) % n == 0 then 1 else 0)
    ensures (x + 1) % n == (if (x + 1) % n == 0 then 0 else x % n + 1)
  {
    var q, r := x / n, x % n;
    assert x == q * n + r;
    if r + 1 < n {
      UniqueQuotient(x + 1, n, q, r + 1);
    } else {
      UniqueQuotient(x + 1, n, q + 1, 0);
    }
  }

  lemma HitsStep(m: nat, total: int, index: int)
    requires 0 <= index < total
    ensures Hits(m + 1, total, index) == Hits(m, total, index) + Bit(m % total == index)
  {
    var q, r := m / total, m % total;
    assert m == q * total + r;
    OneMore(m + total - 1 - index, total);
    if r >= index {
      UniqueQuotient(m + total - index, total, q + 1, r - index);
    } else {
      UniqueQuotient(m + total - index, total, q, r - index + total);
    }
  }

  lemma {:induction false} SizeFrom(runnable: seq<bool>, total: int, index: int, testId: nat)
    requires 0 <= index < total
    ensures Count(Selected(runnable, Honor(total, index), testId))
         == Hits(testId + Count(runnable), total, index) - Hits(testId, total, index)
  {
    if runnable == [] {
    } else {
      var p := Honor(total, index);
      SizeFrom(runnable[1..], total, index, testId + Bit(runnable[0]));
      CountAppend([runnable[0] && OnShard(p, testId)], Selected(runnable[1..], p, testId + Bit(runnable[0])));
      CountOne(runnable[0] && OnShard(p, testId));
      if runnable[0] {
        HitsStep(testId, total, index);
      }
    }
  }

  lemma {:induction false} IgnoreSelectsAll(runnable: seq<bool>, testId: nat)
    ensures Selected(runnable, Ignore, testId) == runnable
  {
    if runnable == [] {
    } else {
      IgnoreSelectsAll(runnable[1..], testId + Bit(runnable[0]));
    }
  }

  function ShardSize(runnable: seq<bool>, total: int, index: int): nat
    requires 0 <= index < total
  {
    Count(Selected(runnable, Launch(total, index), 0))
  }

  /** The size of a shard is the number of runnable tests divided by that of shards, rounded up or down. */
  lemma SizeOfShard(runnable: seq<bool>, total: int, index: int)
    requires 0 <= index < total
    ensures var m := Count(runnable); ShardSize(runnable, total, index) == m / total + Bit(index < m % total)
  {
    if total == 1 {
      IgnoreSelectsAll(runnable, 0);
    } else {
      SizeFrom(runnable, total, index, 0);
      HitsBelow(Count(runnable), total, index);
    }
  }

  lemma HitsBelow(m: nat, total: int, index: int)
    requires 0 <= index < total
    ensures Hits(0, total, index) == 0
    ensures Hits(m, total, index) == m / total + Bit(index < m % total)
  {
    var q, r := m / total, m % total;
    assert m == q * total + r;
    UniqueQuotient(total - 1 - index, total, 0, total - 1 - index);
    if index < r {
      UniqueQuotient(m + total - 1 - index, total, q + 1, r - 1 - index);
    } else {
      UniqueQuotient(m + total - 1 - index, total, q, r + total - 1 - index);
    }
  }

  lemma ShardsBalanced(runnable: seq<bool>, total: int, i: int, j: int)
    requires 0 <= i < j < total
    ensures 0 <= ShardSize(runnable, total, i) - ShardSize(runnable, total, j) <= 1
  {
    SizeOfShard(runnable, total, i);
    SizeOfShard(runnable, total, j);
  }

  /** The sizes of the first k shards together. */
  function SizeOfShards(runnable: seq<bool>, total: int, k: int): nat
    requires 0 <= k <= total
  {
    if k == 0 then 0 else SizeOfShards(runnable, total, k - 1) + ShardSize(runnable, total, k - 1)
  }

  lemma {:induction false} SizesAddUpTo(runnable: seq<bool>, total: int, k: int)
    requires 0 <= k <= total && total >= 1
    ensures var m := Count(runnable);
            SizeOfShards(runnable, total, k) == k * (m / total) + (if k < m % total then k else m % total)
  {
    if k == 0 {
    } else {
      SizesAddUpTo(runnable, total, k - 1);
      SizeOfShard(runnable, total, k - 1);
      var q := Count(runnable) / total;
      assert (k - 1) * q + q == k * q;
    }
  }

  lemma ShardSizesAddUp(runnable: seq<bool>, total: int)
    requires total >= 1
    ensures SizeOfShards(runnable, total, total) == Count(runnable)
  {
    SizesAddUpTo(runnable, total, total);
    var m := Count(runnable);
    assert m == (m / total) * total + m % total;
  }
}
