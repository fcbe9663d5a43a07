/** Which tests run, and on which shard. */
module Sharding {
  import opened Common
  import opened TestFilter

  datatype Flags = Flags(filter: string, alsoRunDisabledTests: bool)

  /** Matches the filter and is not disabled, or disabled tests are wanted too. */
  ghost predicate Runnable(flags: Flags, testCase: string, test: string) {
    && (flags.alsoRunDisabledTests || !(IsDisabledName(testCase) || IsDisabledName(test)))
    && Selects(flags.filter, testCase + "." + test)
  }

  datatype Shard = Unsharded | Shard(total: int, index: int) {
    predicate Valid() {
      Shard? ==> 0 <= index < total
    }
  }

  predicate ShouldRunTestOnShard(totalShards: int, shardIndex: int, testId: nat)
    requires totalShards > 0
  {
    testId % totalShards == shardIndex
  }

  predicate OnShard(shard: Shard, testId: nat)
    requires shard.Valid()
  {
    shard.Unsharded? || ShouldRunTestOnShard(shard.total, shard.index, testId)
  }

  /** How many of the first n flags are set. */
  function CountTrue(b: seq<bool>, n: nat): nat
    requires n <= |b|
  {
    if n == 0 then 0 else CountTrue(b, n - 1) + if b[n - 1] then 1 else 0
  }

  /** How many flags are set in the first n rows of a table with a row for each case. */
  function CountAll(table: seq<seq<bool>>, n: nat): nat
    requires n <= |table|
  {
    if n == 0 then 0 else CountAll(table, n - 1) + CountTrue(table[n - 1], |table[n - 1]|)
  }

  /** How many of the tests that can run precede test t of case c. */
  function Rank(runnable: seq<seq<bool>>, c: nat, t: nat): nat
    requires c < |runnable| && t <= |runnable[c]|
  {
    CountAll(runnable, c) + CountTrue(runnable[c], t)
  }

  /** A test is selected when it can run and its rank among the tests that can falls on the shard. */
  predicate SelectedOn(shard: Shard, runnable: seq<seq<bool>>, c: nat, t: nat)
    requires shard.Valid() && c < |runnable| && t < |runnable[c]|
  {
    runnable[c][t] && OnShard(shard, Rank(runnable, c, t))
  }

  /** The tests marked on a shard, a row for each case. */
  function Marks(shard: Shard, runnable: seq<seq<bool>>): (m: seq<seq<bool>>)
    requires shard.Valid()
    ensures |m| == |runnable| && forall c | 0 <= c < |m| :: |m[c]| == |runnable[c]|
    ensures forall c, t | 0 <= c < |m| && 0 <= t < |m[c]| :: m[c][t] <==> SelectedOn(shard, runnable, c, t)
  {
    seq(|runnable|, c requires 0 <= c < |runnable| =>
      seq(|runnable[c]|, t requires 0 <= t < |runnable[c]| => SelectedOn(shard, runnable, c, t)))
  }

  // ------------------------------------------------------------ counting

  /** How many of the ids below n are kept. */
  function KeptBelow(keep: nat -> bool, n: nat): nat {
    if n == 0 then 0 else KeptBelow(keep, n - 1) + if keep(n - 1) then 1 else 0
  }

  function Keeper(shard: Shard): nat -> bool
    requires shard.Valid()
  {
    (id: nat) => OnShard(shard, id)
  }

  /** How many of n tests that can run fall on the shard. */
  function ShardSize(shard: Shard, n: nat): nat
    requires shard.Valid()
  {
    KeptBelow(Keeper(shard), n)
  }

  lemma {:induction false} NextRemainder(n: nat, total: int)
    requires total > 0
    ensures n % total + 1 < total ==> (n + 1) / total == n / total && (n + 1) % total == n % total + 1
    ensures n % total + 1 == total ==> (n + 1) / total == n / total + 1 && (n + 1) % total == 0
  {
    var q, r := n / total, n % total;
    assert n == total * q + r;
    if r + 1 < total {
      RemainderIs(n + 1, total, q, r + 1);
    } else {
      assert n + 1 == total * q + total == total * (q + 1);
      RemainderIs(n + 1, total, q + 1, 0);
    }
  }

  /** Each shard gets the quotient, and the first n mod total shards one more. */
  lemma {:induction false} ShardSizeIs(shard: Shard, n: nat)
    requires shard.Shard? && shard.Valid()
    ensures ShardSize(shard, n) == n / shard.total + if shard.index < n % shard.total then 1 else 0
  {
    if n == 0 {
      RemainderIs(0, shard.total, 0, 0);
    } else {
      ShardSizeIs(shard, n - 1);
      NextRemainder(n - 1, shard.total);
    }
  }

  /** The sizes of the first k shards added up. */
  function ShardSizes(total: int, k: nat, n: nat): nat
    requires k <= total
  {
    if k == 0 then 0 else ShardSizes(total, k - 1, n) + ShardSize(Shard(total, k - 1), n)
  }

  lemma {:induction false} NextIsOnOneShard(total: int, k: nat, n: nat)
    requires 0 <= k <= total && total > 0
    ensures ShardSizes(total, k, n + 1) == ShardSizes(total, k, n) + if n % total < k then 1 else 0
  {
    if k > 0 {
      NextIsOnOneShard(total, k - 1, n);
    }
  }

  lemma {:induction false} NoneOnShards(total: int, k: nat)
    requires k <= total
    ensures ShardSizes(total, k, 0) == 0
  {
    if k > 0 {
      NoneOnShards(total, k - 1);
    }
  }

  lemma {:induction false} SizesAddUp(total: int, n: nat)
    requires total > 0
    ensures ShardSizes(total, total, n) == n
  {
    if n == 0 {
      NoneOnShards(total, total);
    } else {
      SizesAddUp(total, n - 1);
      NextIsOnOneShard(total, total, n - 1);
    }
  }

  // ------------------------------------------------------------ what the shards mark

  /** The marks of a case are on the tests that can run with a rank that is kept. */
  ghost predicate CaseKept(runnable: seq<bool>, keep: nat -> bool, before: nat, marks: seq<bool>) {
    && |marks| == |runnable|
    && forall t | 0 <= t < |marks| :: marks[t] <==> runnable[t] && keep(before + CountTrue(runnable, t))
  }

  /** The marks of one case number as many as the ids kept among those its tests use up. */
  lemma {:induction false} KeptInCase(runnable: seq<bool>, keep: nat -> bool, before: nat, marks: seq<bool>, n: nat)
    requires n <= |marks| && CaseKept(runnable, keep, before, marks)
    ensures CountTrue(marks, n) + KeptBelow(keep, before) == KeptBelow(keep, before + CountTrue(runnable, n))
  {
    if n > 0 {
      KeptInCase(runnable, keep, before, marks, n - 1);
      var id := before + CountTrue(runnable, n - 1);
      assert KeptBelow(keep, id + 1) == KeptBelow(keep, id) + if keep(id) then 1 else 0;
    }
  }

  lemma CountNone(marks: seq<seq<bool>>, runnable: seq<seq<bool>>, keep: nat -> bool)
    ensures CountAll(marks, 0) == KeptBelow(keep, CountAll(runnable, 0))
  {
  }

  lemma CountNext(table: seq<seq<bool>>, n: nat)
    requires n < |table|
    ensures CountAll(table, n + 1) == CountAll(table, n) + CountTrue(table[n], |table[n]|)
  {
  }

  lemma CaseSizes(runnable: seq<bool>, keep: nat -> bool, before: nat, marks: seq<bool>)
    requires CaseKept(runnable, keep, before, marks)
    ensures |marks| == |runnable|
  {
  }

  lemma {:induction false} KeptInTable(runnable: seq<seq<bool>>, keep: nat -> bool, marks: seq<seq<bool>>, n: nat)
    requires n <= |runnable| == |marks|
    requires forall c | 0 <= c < n :: CaseKept(runnable[c], keep, CountAll(runnable, c), marks[c])
    ensures CountAll(marks, n) == KeptBelow(keep, CountAll(runnable, n))
  {
    hide CountAll, CountTrue, KeptBelow, CaseKept;
    if n == 0 {
      CountNone(marks, runnable, keep);
    } else {
      CountNext(marks, n - 1);
      CountNext(runnable, n - 1);
      assert CaseKept(runnable[n - 1], keep, CountAll(runnable, n - 1), marks[n - 1]);
      KeptInTable(runnable, keep, marks, n - 1);
      CaseSizes(runnable[n - 1], keep, CountAll(runnable, n - 1), marks[n - 1]);
      KeptInCase(runnable[n - 1], keep, CountAll(runnable, n - 1), marks[n - 1], |marks[n - 1]|);
    }
  }

  /** The tests marked on a shard number as many as the ids that fall on it. */
  lemma {:induction false} MarkedCount(shard: Shard, runnable: seq<seq<bool>>)
    requires shard.Valid()
    ensures CountAll(Marks(shard, runnable), |runnable|) == ShardSize(shard, CountAll(runnable, |runnable|))
  {
    hide CountAll, CountTrue, KeptBelow;
    var marks := Marks(shard, runnable);
    forall c | 0 <= c < |runnable|
      ensures CaseKept(runnable[c], Keeper(shard), CountAll(runnable, c), marks[c])
    {
      forall t | 0 <= t < |marks[c]|
        ensures marks[c][t] <==> runnable[c][t] && Keeper(shard)(CountAll(runnable, c) + CountTrue(runnable[c], t))
      {
        assert marks[c][t] <==> SelectedOn(shard, runnable, c, t);
      }
    }
    KeptInTable(runnable, Keeper(shard), marks, |runnable|);
  }

  /** Without shards every test that can run is marked. */
  lemma {:induction false} UnshardedMarksAll(runnable: seq<seq<bool>>)
    ensures Marks(Unsharded, runnable) == runnable
  {
    var marks := Marks(Unsharded, runnable);
    forall c | 0 <= c < |runnable|
      ensures marks[c] == runnable[c]
    {
      assert forall t | 0 <= t < |marks[c]| :: marks[c][t] == runnable[c][t];
    }
  }

  /** Any two shards differ by at most one in the number of tests marked. */
  lemma {:induction false} ShardsAreBalanced(runnable: seq<seq<bool>>, total: int, i: int, j: int)
    requires 0 <= i < total && 0 <= j < total
    ensures CountAll(Marks(Shard(total, i), runnable), |runnable|) <= CountAll(Marks(Shard(total, j), runnable), |runnable|) + 1
  {
    MarkedCount(Shard(total, i), runnable);
    MarkedCount(Shard(total, j), runnable);
    ShardSizeIs(Shard(total, i), CountAll(runnable, |runnable|));
    ShardSizeIs(Shard(total, j), CountAll(runnable, |runnable|));
  }

  /** The tests marked on the first k shards, counted shard by shard. */
  function MarkedOnFirst(runnable: seq<seq<bool>>, total: int, k: nat): nat
    requires k <= total
  {
    if k == 0 then 0
    else MarkedOnFirst(runnable, total, k - 1) + CountAll(Marks(Shard(total, k - 1), runnable), |runnable|)
  }

  lemma {:induction false} MarkedOnFirstSizes(runnable: seq<seq<bool>>, total: int, k: nat)
    requires k <= total
    ensures MarkedOnFirst(runnable, total, k) == ShardSizes(total, k, CountAll(runnable, |runnable|))
  {
    if k > 0 {
      MarkedOnFirstSizes(runnable, total, k - 1);
      MarkedCount(Shard(total, k - 1), runnable);
    }
  }

  /** The marks of all shards together number as many as the tests that can run. */
  lemma {:induction false} ShardsAddUp(runnable: seq<seq<bool>>, total: int)
    requires total > 0
    ensures MarkedOnFirst(runnable, total, total) == CountAll(runnable, |runnable|)
  {
    MarkedOnFirstSizes(runnable, total, total);
    SizesAddUp(total, CountAll(runnable, |runnable|));
  }

  /** Of all the shards, i and no other marks test t of case c. */
  predicate MarkedOnlyOn(runnable: seq<seq<bool>>, total: int, c: nat, t: nat, i: int)
    requires c < |runnable| && t < |runnable[c]|
  {
    0 <= i < total && forall j | 0 <= j < total :: Marks(Shard(total, j), runnable)[c][t] <==> j == i
  }

  /** The shards partition the tests: one that can run is marked on exactly one shard, any other on none. */
  lemma {:induction false} ExactlyOneShard(runnable: seq<seq<bool>>, total: int, c: nat, t: nat)
    requires total > 0 && c < |runnable| && t < |runnable[c]|
    ensures runnable[c][t] <==> exists i :: MarkedOnlyOn(runnable, total, c, t, i)
    ensures runnable[c][t] <==> exists i | 0 <= i < total :: Marks(Shard(total, i), runnable)[c][t]
  {
    forall j | 0 <= j < total
      ensures Marks(Shard(total, j), runnable)[c][t] <==> runnable[c][t] && j == Rank(runnable, c, t) % total
    {
      assert Marks(Shard(total, j), runnable)[c][t] <==> SelectedOn(Shard(total, j), runnable, c, t);
    }
    if runnable[c][t] {
      var i := Rank(runnable, c, t) % total;
      assert Marks(Shard(total, i), runnable)[c][t];
      assert MarkedOnlyOn(runnable, total, c, t, i);
    } else {
      forall i
        ensures !MarkedOnlyOn(runnable, total, c, t, i)
      {
        assert 0 <= i < total ==> !Marks(Shard(total, i), runnable)[c][t];
      }
    }
  }

  lemma {:induction false} CountGrows(b: seq<bool>, m: nat, n: nat)
    requires m <= n <= |b|
    ensures CountTrue(b, m) <= CountTrue(b, n)
    decreases n
  {
    if m < n {
      CountGrows(b, m, n - 1);
    }
  }

  lemma {:induction false} AllGrows(runnable: seq<seq<bool>>, m: nat, n: nat)
    requires m <= n <= |runnable|
    ensures CountAll(runnable, m) <= CountAll(runnable, n)
    decreases n
  {
    if m < n {
      AllGrows(runnable, m, n - 1);
    }
  }

  /** A table without a flag set, found by counting. */
  lemma {:induction false} NothingCounted(table: seq<seq<bool>>, c: nat, t: nat)
    requires CountAll(table, |table|) == 0 && c < |table| && t < |table[c]|
    ensures !table[c][t]
  {
    AllGrows(table, c + 1, |table|);
    CountGrows(table[c], t + 1, |table[c]|);
  }
}
