/** Sizing of pools in placement groups (src/ceph.py), over exact arithmetic. */
module PlacementGroups {
  import opened Wrappers

  const DEFAULT_POOL_WEIGHT := 10.0
  const DEFAULT_PGS_PER_OSD_TARGET := 100
  const DEFAULT_MINIMUM_PGS := 2
  const LEGACY_PG_COUNT := 200

  function Pow2(e: nat): (r: nat)
    ensures r >= 1
  {
    if e == 0 then 1 else 2 * Pow2(e - 1)
  }

  ghost predicate PowerOfTwo(n: int) {
    exists e: nat :: n == Pow2(e)
  }

  /** floor(log2(n)) */
  function Log2(n: nat): (e: nat)
    requires n >= 1
    ensures Pow2(e) <= n < 2 * Pow2(e)
  {
    if n == 1 then 0 else 1 + Log2(n / 2)
  }

  /** The nearest power of two below n, or the next one when that is more than 25% below n. */
  function RoundToPow2(n: nat): nat
    requires n >= 1
  {
    var nearest := Pow2(Log2(n));
    if (n - nearest) as real > n as real * 0.25 then nearest * 2 else nearest
  }

  /** The share of the cluster's target that a fraction of the data is entitled to. */
  function Share(osdCount: nat, target: nat, fraction: real): real {
    target as real * osdCount as real * fraction
  }

  /** The target number of placement groups before rounding; `//` floors. */
  function Wanted(osdCount: nat, target: nat, poolSize: nat, weight: real): (n: nat)
    requires poolSize > 0
    ensures n >= DEFAULT_MINIMUM_PGS
  {
    var n := (Share(osdCount, target, weight / 100.0) / poolSize as real).Floor;
    if n < DEFAULT_MINIMUM_PGS then DEFAULT_MINIMUM_PGS else n
  }

  function Pgs(osdCount: nat, target: nat, poolSize: nat, weight: real): nat
    requires poolSize > 0
  {
    RoundToPow2(Wanted(osdCount, target, poolSize, weight))
  }

  ghost predicate Rounded(r: int, n: nat) {
    PowerOfTwo(r) && 3 * n <= 4 * r && 2 * r < 3 * n
  }

  /**
   * `BasePool.get_pgs`. Absent options take their defaults, an expected OSD count counts when it is
   * larger and no device class is asked for, and 200 is the answer when no OSD is known or expected.
   */
  method GetPgs(osds: nat, expected: nat, pgsPerOsd: nat, poolSize: nat, percentData: Option<real>, deviceClass: bool)
    returns (r: nat)
    requires poolSize > 0
    ensures osds == 0 && expected == 0 ==> r == 200
    ensures osds > 0 || expected > 0 ==>
              var count := if osds == 0 then expected else if deviceClass || expected <= osds then osds else expected;
              var target := if pgsPerOsd == 0 then 100 else pgsPerOsd;
              var weight := if percentData.None? then 10.0 else percentData.value;
              r == Pgs(count, target, poolSize, weight) && Rounded(r, Wanted(count, target, poolSize, weight))
  {
    var weight := if percentData.None? then DEFAULT_POOL_WEIGHT else percentData.value;
    var osdCount;
    if osds > 0 {
      if deviceClass {
        osdCount := osds;
      } else {
        osdCount := if expected > osds then expected else osds;
      }
    } else if expected > 0 {
      osdCount := expected;
    } else {
      return LEGACY_PG_COUNT;
    }
    weight := weight / 100.0;
    var target := if pgsPerOsd == 0 then DEFAULT_PGS_PER_OSD_TARGET else pgsPerOsd;
    var numPg := (Share(osdCount, target, weight) / poolSize as real).Floor;
    if numPg < DEFAULT_MINIMUM_PGS {
      numPg := DEFAULT_MINIMUM_PGS;
    }
    var nearest := Pow2(Log2(numPg));
    if (numPg - nearest) as real > numPg as real * 0.25 {
      r := nearest * 2;
    } else {
      r := nearest;
    }
    RoundingBounds(numPg);
  }

  /** The rounded count is a power of two within 25% below and 50% above the target. */
  lemma RoundingBounds(n: nat)
    requires n >= 1
    ensures Rounded(RoundToPow2(n), n)
  {
    var e := Log2(n);
    assert Pow2(e + 1) == 2 * Pow2(e);
    assert PowerOfTwo(Pow2(e)) && PowerOfTwo(Pow2(e + 1));
  }

  /** The calculation in plain terms: the exact target, two at least, rounded to the power of two around it. */
  lemma PgsMeans(osdCount: nat, target: nat, poolSize: nat, weight: real)
    requires poolSize > 0
    ensures var exact := target as real * osdCount as real * (weight / 100.0) / poolSize as real;
      var n := if exact < 2.0 then 2 else exact.Floor;
      var r := Pgs(osdCount, target, poolSize, weight);
      PowerOfTwo(r) && 3 * n <= 4 * r && 2 * r < 3 * n
  {
    RoundingBounds(Wanted(osdCount, target, poolSize, weight));
  }

  lemma {:induction false} Pow2Monotone(a: nat, b: nat)
    requires a < b
    ensures 2 * Pow2(a) <= Pow2(b)
    decreases b
  {
    if a + 1 < b {
      Pow2Monotone(a, b - 1);
    }
  }

  /** No two powers of two meet those bounds. */
  lemma RoundedIsUnique(r: int, q: int, n: nat)
    requires Rounded(r, n) && Rounded(q, n)
    ensures r == q
  {
    var a: nat, b: nat :| r == Pow2(a) && q == Pow2(b);
    if a < b { Pow2Monotone(a, b); }
    if b < a { Pow2Monotone(b, a); }
  }

  /** Rounding is monotone. */
  lemma RoundingMonotone(n: nat, m: nat)
    requires 1 <= n <= m
    ensures RoundToPow2(n) <= RoundToPow2(m)
  {
    var a, b := Log2(n), Log2(m);
    if a < b {
      Pow2Monotone(a, b);
    } else if b < a {
      Pow2Monotone(b, a);
    }
  }

  lemma QuotientMonotone(a: real, b: real, size: real, larger: real)
    requires 0.0 <= a <= b && 0.0 < size <= larger
    ensures a / larger <= b / size
  {
    assert a / larger * larger == a;
    assert a / larger >= 0.0;
    assert a / larger * size <= a / larger * larger;
    assert (b / size - a / larger) * size >= 0.0;
  }

  lemma ProductMonotone(a: real, b: real, c: real, d: real)
    requires 0.0 <= a <= b && 0.0 <= c <= d
    ensures 0.0 <= a * c <= b * d
  {
    assert a * c <= b * c <= b * d;
  }

  lemma ShareMonotone(osds: nat, moreOsds: nat, target: nat, fraction: real, moreFraction: real)
    requires osds <= moreOsds && 0.0 <= fraction <= moreFraction
    ensures 0.0 <= Share(osds, target, fraction) <= Share(moreOsds, target, moreFraction)
  {
    var t := target as real;
    ProductMonotone(t, t, osds as real, moreOsds as real);
    ProductMonotone(t * osds as real, t * moreOsds as real, fraction, moreFraction);
  }

  lemma FloorMonotone(a: real, b: real)
    requires a <= b
    ensures a.Floor <= b.Floor
  {
  }

  lemma WantedMonotone(osds: nat, moreOsds: nat, target: nat, size: nat, larger: nat, weight: real, moreWeight: real)
    requires osds <= moreOsds && 0 < size <= larger && 0.0 <= weight <= moreWeight
    ensures Wanted(osds, target, larger, weight) <= Wanted(moreOsds, target, size, moreWeight)
  {
    var a, b := Share(osds, target, weight / 100.0), Share(moreOsds, target, moreWeight / 100.0);
    ShareMonotone(osds, moreOsds, target, weight / 100.0, moreWeight / 100.0);
    QuotientMonotone(a, b, size as real, larger as real);
    FloorMonotone(a / larger as real, b / size as real);
  }

  /** More OSDs or more weight never mean fewer placement groups; a larger pool size never means more. */
  lemma PgsMonotone(osds: nat, moreOsds: nat, target: nat, size: nat, larger: nat, weight: real, moreWeight: real)
    requires osds <= moreOsds && 0 < size <= larger && 0.0 <= weight <= moreWeight
    ensures Pgs(osds, target, larger, weight) <= Pgs(moreOsds, target, size, moreWeight)
  {
    WantedMonotone(osds, moreOsds, target, size, larger, weight, moreWeight);
    RoundingMonotone(Wanted(osds, target, larger, weight), Wanted(moreOsds, target, size, moreWeight));
  }

  // ---- the budget of a whole cluster ----

  datatype Pool = Pool(size: nat, weight: real)

  predicate Sane(pools: seq<Pool>) {
    forall p <- pools :: p.size > 0 && p.weight >= 0.0
  }

  function TotalWeight(pools: seq<Pool>): real {
    if pools == [] then 0.0 else pools[0].weight + TotalWeight(pools[1..])
  }

  function TotalSize(pools: seq<Pool>): nat {
    if pools == [] then 0 else pools[0].size + TotalSize(pools[1..])
  }

  /** Placement group replicas over all pools: each pool's groups times its size. */
  function Replicas(pools: seq<Pool>, osdCount: nat, target: nat): nat
    requires Sane(pools)
  {
    if pools == [] then 0
    else Pgs(osdCount, target, pools[0].size, pools[0].weight) * pools[0].size + Replicas(pools[1..], osdCount, target)
  }

  lemma RoundedWithinShare(n: nat, r: nat, size: nat, share: real)
    requires size > 0 && 2 * r < 3 * n && n as real <= share / size as real
    ensures (r * size) as real <= 1.5 * share
  {
    var s := size as real;
    assert share / s * s == share;
    assert n as real * s <= share / s * s;
    assert r as real * s <= 1.5 * n as real * s;
    assert (r * size) as real == r as real * s;
  }

  /** One pool stays within 1.5 times its share of the target, or is at the minimum of two groups. */
  lemma PoolBudget(p: Pool, osdCount: nat, target: nat)
    requires p.size > 0 && p.weight >= 0.0
    ensures (Pgs(osdCount, target, p.size, p.weight) * p.size) as real
            <= 1.5 * Share(osdCount, target, p.weight / 100.0) + 2.0 * p.size as real
  {
    var share := Share(osdCount, target, p.weight / 100.0);
    var n := Wanted(osdCount, target, p.size, p.weight);
    var r := RoundToPow2(n);
    RoundingBounds(n);
    ShareMonotone(0, osdCount, target, 0.0, p.weight / 100.0);
    if n as real <= share / p.size as real {
      RoundedWithinShare(n, r, p.size, share);
    } else {
      assert n == DEFAULT_MINIMUM_PGS && r == 2;
    }
  }

  lemma ShareAdds(osdCount: nat, target: nat, head: real, tail: real)
    ensures Share(osdCount, target, (head + tail) / 100.0)
            == Share(osdCount, target, head / 100.0) + Share(osdCount, target, tail / 100.0)
  {
    assert (head + tail) / 100.0 == head / 100.0 + tail / 100.0;
  }

  lemma {:induction false} ReplicasBudget(pools: seq<Pool>, osdCount: nat, target: nat)
    requires Sane(pools)
    ensures Replicas(pools, osdCount, target) as real
            <= 1.5 * Share(osdCount, target, TotalWeight(pools) / 100.0) + 2.0 * TotalSize(pools) as real
  {
    if pools != [] {
      PoolBudget(pools[0], osdCount, target);
      ReplicasBudget(pools[1..], osdCount, target);
      ShareAdds(osdCount, target, pools[0].weight, TotalWeight(pools[1..]));
    } else {
      ShareMonotone(0, osdCount, target, 0.0, 0.0);
    }
  }

  lemma {:induction false} TotalWeightNonNegative(pools: seq<Pool>)
    requires Sane(pools)
    ensures TotalWeight(pools) >= 0.0
  {
    if pools != [] {
      TotalWeightNonNegative(pools[1..]);
    }
  }

  /** Pools whose weights add up to at most 100 use at most 150 replicas per OSD and two per unit of size. */
  lemma ClusterBudget(pools: seq<Pool>, osdCount: nat)
    requires Sane(pools) && TotalWeight(pools) <= 100.0
    ensures Replicas(pools, osdCount, DEFAULT_PGS_PER_OSD_TARGET) <= 150 * osdCount + 2 * TotalSize(pools)
  {
    ReplicasBudget(pools, osdCount, DEFAULT_PGS_PER_OSD_TARGET);
    TotalWeightNonNegative(pools);
    ShareMonotone(osdCount, osdCount, DEFAULT_PGS_PER_OSD_TARGET, TotalWeight(pools) / 100.0, 1.0);
    assert Share(osdCount, DEFAULT_PGS_PER_OSD_TARGET, 1.0) == 100.0 * osdCount as real;
  }
}
