/** How the runnable tests are dealt out to the shards. */
module Shards {
  import opened Arithmetic

  /** The number of runnable tests. */
  ghost function Count(runnable: seq<bool>): (n: nat)
    ensures n <= |runnable|
  {
    if runnable == [] then 0
    else Count(runnable[..|runnable| - 1]) + if runnable[|runnable| - 1] then 1 else 0
  }

  predicate ShouldRunTestOnShard(totalShards: nat, shardIndex: nat, testId: nat)
    requires shardIndex < totalShards
  {
    testId % totalShards == shardIndex
  }

  /** The tests of one process: those of its shard, or all when tests are not sharded. */
  datatype Sharding = Ignore | Honor(total: nat, index: nat)

  ghost predicate ShardingOk(sharding: Sharding) {
    sharding.Honor? ==> sharding.index < sharding.total
  }

  /** Test `k` runs: its id is the number of runnable tests before it. */
  ghost predicate Runs(runnable: seq<bool>, sharding: Sharding, k: nat)
    requires k < |runnable| && ShardingOk(sharding)
  {
    && runnable[k]
    && (sharding.Honor? ==> ShouldRunTestOnShard(sharding.total, sharding.index, Count(runnable[..k])))
  }

  /** The number of tests that run. */
  ghost function Size(runnable: seq<bool>, sharding: Sharding): (n: nat)
    requires ShardingOk(sharding)
    ensures n <= Count(runnable)
  {
    if runnable == [] then 0
    else
      var m := |runnable| - 1;
      Size(runnable[..m], sharding) + if Runs(runnable, sharding, m) then 1 else 0
  }

  /** Every runnable test runs on one shard and no other. */
  lemma OnExactlyOneShard(runnable: seq<bool>, total: nat, k: nat) returns (index: nat)
    requires k < |runnable| && runnable[k] && total > 0
    ensures index < total
    ensures forall other: nat | other < total :: Runs(runnable, Honor(total, other), k) <==> other == index
  {
    index := Count(runnable[..k]) % total;
  }

  /** The ids below `n` that fall to a shard. */
  ghost function Share(n: nat, total: nat, index: nat): nat
    requires index < total
  {
    if n == 0 then 0 else Share(n - 1, total, index) + if (n - 1) % total == index then 1 else 0
  }

  lemma {:induction false} SizeIsShare(runnable: seq<bool>, total: nat, index: nat)
    requires index < total
    ensures Size(runnable, Honor(total, index)) == Share(Count(runnable), total, index)
  {
    if runnable != [] {
      SizeIsShare(runnable[..|runnable| - 1], total, index);
    }
  }

  lemma {:induction false} SharesAreEven(n: nat, total: nat, index: nat, q: nat, r: nat)
    requires index < total && n == q * total + r && r < total
    ensures Share(n, total, index) == q + if index < r then 1 else 0
    decreases n
  {
    if r > 0 {
      SharesAreEven(n - 1, total, index, q, r - 1);
      Divided(n - 1, total, q, r - 1);
    } else if q > 0 {
      assert (q - 1) * total == q * total - total;
      SharesAreEven(n - 1, total, index, q - 1, total - 1);
      Divided(n - 1, total, q - 1, total - 1);
    }
  }

  lemma SizeOfShard(runnable: seq<bool>, total: nat, index: nat, q: nat, r: nat)
    requires index < total && Count(runnable) == q * total + r && r < total
    ensures Size(runnable, Honor(total, index)) == q + if index < r then 1 else 0
  {
    SizeIsShare(runnable, total, index);
    SharesAreEven(Count(runnable), total, index, q, r);
  }

  /** No shard runs more than one test more than another. */
  lemma ShardsAreBalanced(runnable: seq<bool>, total: nat, a: nat, b: nat)
    requires a < total && b < total
    ensures Size(runnable, Honor(total, a)) <= Size(runnable, Honor(total, b)) + 1
  {
    var q, r := Count(runnable) / total, Count(runnable) % total;
    SizeOfShard(runnable, total, a, q, r);
    SizeOfShard(runnable, total, b, q, r);
  }

  ghost function AllSizes(runnable: seq<bool>, total: nat, shards: nat): nat
    requires shards <= total
  {
    if shards == 0 then 0 else AllSizes(runnable, total, shards - 1) + Size(runnable, Honor(total, shards - 1))
  }

  lemma {:induction false} SomeShards(runnable: seq<bool>, total: nat, shards: nat, q: nat, r: nat)
    requires shards <= total && Count(runnable) == q * total + r && r < total
    ensures AllSizes(runnable, total, shards) == shards * q + if shards < r then shards else r
  {
    if shards > 0 {
      SomeShards(runnable, total, shards - 1, q, r);
      SizeOfShard(runnable, total, shards - 1, q, r);
      assert shards * q == (shards - 1) * q + q;
    }
  }

  /** Together the shards run every runnable test. */
  lemma ShardsRunEverything(runnable: seq<bool>, total: nat)
    requires total > 0
    ensures AllSizes(runnable, total, total) == Count(runnable)
  {
    var q, r := Count(runnable) / total, Count(runnable) % total;
    SomeShards(runnable, total, total, q, r);
    assert total * q == q * total;
  }

  /** Without sharding every runnable test runs. */
  lemma {:induction false} Unsharded(runnable: seq<bool>)
    ensures Size(runnable, Ignore) == Count(runnable)
  {
    if runnable != [] {
      Unsharded(runnable[..|runnable| - 1]);
    }
  }

  lemma OneMore(runnable: seq<bool>, b: bool, sharding: Sharding)
    requires ShardingOk(sharding)
    ensures Count(runnable + [b]) == Count(runnable) + if b then 1 else 0
    ensures Size(runnable + [b], sharding)
         == Size(runnable, sharding) + if Runs(runnable + [b], sharding, |runnable|) then 1 else 0
  {
    assert (runnable + [b])[..|runnable|] == runnable;
  }
}
