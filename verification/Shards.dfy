/** How the tests that can run are spread over shards. */
module Shards {

  function CountTrue(flags: seq<bool>): nat {
    if flags == [] then 0 else CountTrue(flags[..|flags| - 1]) + if flags[|flags| - 1] then 1 else 0
  }

  /** Test ids go round the shards. The caller makes sure that the index is one of the shards. */
  predicate ShouldRunTestOnShard(totalShards: nat, shardIndex: nat, testId: nat)
    requires shardIndex < totalShards
  {
    testId % totalShards == shardIndex
  }

  /** Whether a test is selected on a shard, given which tests can run: those in front of it make up its id. */
  predicate Picked(runnable: seq<bool>, k: nat, totalShards: nat, shardIndex: nat)
    requires k < |runnable| && shardIndex < totalShards
  {
    runnable[k] && ShouldRunTestOnShard(totalShards, shardIndex, CountTrue(runnable[..k]))
  }

  function CountPicked(runnable: seq<bool>, totalShards: nat, shardIndex: nat): nat
    requires shardIndex < totalShards
  {
    if runnable == [] then 0
    else
      var n := |runnable| - 1;
      CountPicked(runnable[..n], totalShards, shardIndex) +
      if Picked(runnable, n, totalShards, shardIndex) then 1 else 0
  }

  /** Every test that can run is selected on exactly one shard, and no other test on any. */
  lemma ExactlyOneShard(runnable: seq<bool>, k: nat, totalShards: nat)
    requires k < |runnable| && totalShards > 0
    ensures runnable[k] <==> exists i: nat :: i < totalShards && Picked(runnable, k, totalShards, i)
    ensures forall i: nat, j: nat ::
      (i < totalShards && Picked(runnable, k, totalShards, i)) &&
      (j < totalShards && Picked(runnable, k, totalShards, j))
      ==> i == j
  {
    if runnable[k] {
      assert Picked(runnable, k, totalShards, CountTrue(runnable[..k]) % totalShards);
    }
  }

  /** One more test: the quotient grows exactly on the shard whose turn it is. */
  lemma OneMore(r: nat, total: nat, i: nat)
    requires i < total
    ensures (r + 1 + (total - 1 - i)) / total == (r + (total - 1 - i)) / total + if r % total == i then 1 else 0
  {
    OneMoreAt(r, total, i, r / total, r % total);
  }

  lemma NextMultiple(q: nat, total: nat)
    ensures (q + 1) * total == q * total + total
  {
  }

  lemma OneMoreAt(r: nat, total: nat, i: nat, q: nat, m: nat)
    requires i < total && m < total && r == q * total + m
    ensures (r + 1 + (total - 1 - i)) / total == (r + (total - 1 - i)) / total + if m == i then 1 else 0
  {
    var last := total - 1 - i;
    NextMultiple(q, total);
    if m < i {
      QuotientIs(r + last, total, q, m + last);
      QuotientIs(r + 1 + last, total, q, m + last + 1);
    } else if m == i {
      QuotientIs(r + last, total, q, m + last);
      QuotientIs(r + 1 + last, total, q + 1, 0);
    } else {
      QuotientIs(r + last, total, q + 1, m + last - total);
      QuotientIs(r + 1 + last, total, q + 1, m + last + 1 - total);
    }
  }

  lemma QuotientIs(a: int, b: int, q: int, m: int)
    requires a == q * b + m && 0 <= m < b
    ensures a / b == q
  {
    var d := a / b - q;
    assert a == (a / b) * b + a % b;
    assert d * b == m - a % b;
    AtLeast(d, b);
    AtLeast(-d, b);
  }

  lemma AtLeast(k: int, b: int)
    requires b > 0
    ensures k >= 1 ==> k * b >= b
  {
  }

  /** The size of a shard depends on the number of runnable tests only. */
  lemma {:induction false} ShardSize(runnable: seq<bool>, total: nat, i: nat)
    requires i < total
    ensures CountPicked(runnable, total, i) == (CountTrue(runnable) + (total - 1 - i)) / total
  {
    if runnable == [] {
      QuotientIs(total - 1 - i, total, 0, total - 1 - i);
    } else {
      var before := runnable[..|runnable| - 1];
      ShardSize(before, total, i);
      OneMore(CountTrue(before), total, i);
    }
  }

  /** No shard has more than one test more than another, and none in front of another has less. */
  lemma EvenShards(runnable: seq<bool>, total: nat, i: nat, j: nat)
    requires i <= j < total
    ensures CountPicked(runnable, total, j) <= CountPicked(runnable, total, i) <= CountPicked(runnable, total, j) + 1
  {
    hide CountPicked, CountTrue;
    ShardSize(runnable, total, i);
    ShardSize(runnable, total, j);
    var a, b := CountTrue(runnable) + (total - 1 - i), CountTrue(runnable) + (total - 1 - j);
    Between(a, b, total);
  }

  lemma Between(a: nat, b: nat, total: nat)
    requires total > 0 && b <= a <= b + total
    ensures b / total <= a / total <= b / total + 1
  {
    var q, m := b / total, b % total;
    assert b == q * total + m && (q + 1) * total == q * total + total;
    if m + (a - b) < total {
      QuotientIs(a, total, q, m + (a - b));
    } else {
      QuotientIs(a, total, q + 1, m + (a - b) - total);
    }
  }

  function SumShards(runnable: seq<bool>, total: nat, m: nat): nat
    requires m <= total
  {
    if m == 0 then 0 else SumShards(runnable, total, m - 1) + CountPicked(runnable, total, m - 1)
  }

  lemma {:induction false} SumGrows(runnable: seq<bool>, total: nat, m: nat)
    requires runnable != [] && m <= total && total > 0
    ensures SumShards(runnable, total, m) == SumShards(runnable[..|runnable| - 1], total, m) +
      if runnable[|runnable| - 1] && CountTrue(runnable[..|runnable| - 1]) % total < m then 1 else 0
  {
    if m > 0 {
      SumGrows(runnable, total, m - 1);
    }
  }

  /** All shards together run every test that can run once. */
  lemma {:induction false} ShardsAddUp(runnable: seq<bool>, total: nat)
    requires total > 0
    ensures SumShards(runnable, total, total) == CountTrue(runnable)
  {
    if runnable == [] {
      NoTests(total, total);
    } else {
      SumGrows(runnable, total, total);
      ShardsAddUp(runnable[..|runnable| - 1], total);
    }
  }

  lemma {:induction false} NoTests(total: nat, m: nat)
    requires m <= total
    ensures SumShards([], total, m) == 0
  {
    if m > 0 {
      NoTests(total, m - 1);
    }
  }
}
