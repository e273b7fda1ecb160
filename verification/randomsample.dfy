/**
 * Python's `random.sample(population, k)` on a list, in the branch that copies the
 * population into a pool and draws from it without replacement (a partial
 * Fisher-Yates shuffle). The random source is a parameter: `draw(i)` is the raw
 * outcome of the i-th draw, reduced into the range of the pool still in play.
 */
module RandomSample {
  import opened Collections

  /** `random.sample` refuses a negative sample size or one larger than the population. */
  datatype SampleError = SampleLargerThanPopulationOrNegative

  /** Dropping the last element after moving it into position j removes exactly the old s[j]. */
  lemma SwapOut(s: seq<nat>, j: nat)
    requires j < |s|
    ensures multiset(s[j := s[|s| - 1]][..|s| - 1]) + multiset{s[j]} == multiset(s)
  {
    var m := |s| - 1;
    var t := s[j := s[m]];
    if j == m {
      assert t == s;
      assert s == s[..m] + [s[m]];
    } else {
      assert t[..m] == s[..j] + [s[m]] + s[j + 1..m];
      assert s == s[..j] + [s[j]] + s[j + 1..m] + [s[m]];
    }
  }

  /**
   * One draw from the first m elements of the pool: moving the last live element into
   * position j, shrinking the live part by one and appending the drawn pool[j] to the
   * result keeps result and live pool together equal to the population.
   */
  lemma DrawStep(population: seq<nat>, result: seq<nat>, pool: seq<nat>, m: nat, j: nat)
    requires j < m <= |pool|
    requires multiset(result) + multiset(pool[..m]) == multiset(population)
    ensures multiset(result + [pool[j]]) + multiset(pool[j := pool[m - 1]][..m - 1]) == multiset(population)
  {
    var live := pool[..m];
    SwapOut(live, j);
    assert live[j := live[m - 1]][..m - 1] == pool[j := pool[m - 1]][..m - 1];
    assert multiset(result + [pool[j]]) == multiset(result) + multiset{pool[j]};
  }

  /** What has been drawn is part of the population, and all of it once the pool is empty. */
  lemma DrawnWithin(population: seq<nat>, result: seq<nat>, rest: seq<nat>)
    requires multiset(result) + multiset(rest) == multiset(population)
    ensures multiset(result) <= multiset(population)
    ensures rest == [] ==> multiset(result) == multiset(population)
  {
  }

  /**
   * A sample of k elements drawn without replacement: refused exactly when k is negative
   * or exceeds the population; otherwise k elements, none taken more often than it
   * occurs in the population, and the whole population when k is its size.
   */
  method Sample(population: seq<nat>, k: int, draw: nat -> nat) returns (r: Result<seq<nat>, SampleError>)
    ensures r.Err? <==> k < 0 || k > |population|
    ensures r.Ok? ==> |r.value| == k
    ensures r.Ok? ==> multiset(r.value) <= multiset(population)
    ensures r.Ok? && k == |population| ==> multiset(r.value) == multiset(population)
  {
    var n := |population|;
    if k < 0 || k > n {
      return Err(SampleLargerThanPopulationOrNegative);
    }
    var result: seq<nat> := [];
    var pool := population;
    var i := 0;
    assert pool[..n] == pool;
    while i < k
      invariant 0 <= i <= k
      invariant |result| == i
      invariant |pool| == n
      invariant multiset(result) + multiset(pool[..n - i]) == multiset(population)
    {
      var j := draw(i) % (n - i);
      DrawStep(population, result, pool, n - i, j);
      result := result + [pool[j]];
      pool := pool[j := pool[n - i - 1]];
      i := i + 1;
    }
    DrawnWithin(population, result, pool[..n - i]);
    r := Ok(result);
  }
}
