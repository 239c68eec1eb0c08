/**
  Seed-based marker clustering (`computeClusters`). Indices are visited in input
  order; each index nobody has claimed yet becomes a seed, and claims every later
  unclaimed index whose distance from the seed is at most the zoom's radius.
  Membership is decided against the seed only, never against other members.

  The distance is a parameter: the source's haversine formula is floating point and
  is not part of this model, so every property here holds for any distance function.
 */
module Clustering {
  import opened Seqs

  /** 2 to the power `e`, over the reals, for negative exponents as well. */
  function Pow2(e: int): (r: real)
    ensures r > 0.0
    decreases if e < 0 then -e else e
  {
    if e == 0 then 1.0 else if e > 0 then 2.0 * Pow2(e - 1) else Pow2(e + 1) / 2.0
  }

  /** Raising the exponent never lowers the power. */
  lemma {:induction false} Pow2Monotone(e1: int, e2: int)
    requires e1 <= e2
    ensures Pow2(e1) <= Pow2(e2)
    decreases e2 - e1
  {
    if e1 < e2 {
      Pow2Monotone(e1 + 1, e2);
      assert Pow2(e1 + 1) == 2.0 * Pow2(e1);
    }
  }

  /** Cluster radius in km at a zoom level: `Math.pow(2, 12 - zoom) * 0.3`. */
  function ThresholdKm(zoom: int): (t: real)
    ensures t > 0.0
  {
    Pow2(12 - zoom) * 0.3
  }

  /** The radius shrinks as the map zooms in, and doubles with each zoom level out. */
  lemma ThresholdShrinks(z1: int, z2: int)
    requires z1 <= z2
    ensures ThresholdKm(z2) <= ThresholdKm(z1)
    ensures ThresholdKm(z1 - 1) == 2.0 * ThresholdKm(z1)
  {
    Pow2Monotone(12 - z2, 12 - z1);
    assert Pow2(13 - z1) == 2.0 * Pow2(12 - z1);
  }

  /** Clusters are non-empty, list their indices in increasing order, and index `n` items. */
  ghost predicate WellFormed(cs: seq<seq<nat>>, n: nat) {
    forall k :: 0 <= k < |cs| ==> |cs[k]| > 0 && Ascending(cs[k]) && forall m :: 0 <= m < |cs[k]| ==> cs[k][m] < n
  }

  /** No index is in two clusters. */
  ghost predicate Disjoint(cs: seq<seq<nat>>) {
    forall k1, k2, j :: 0 <= k1 < |cs| && 0 <= k2 < |cs| && j in cs[k1] && j in cs[k2] ==> k1 == k2
  }

  ghost function ElemSet(c: seq<nat>): set<nat> {
    set x | x in c
  }

  /** The indices held by some cluster. */
  ghost function Claimed(cs: seq<seq<nat>>): set<nat> {
    set k, m | 0 <= k < |cs| && 0 <= m < |cs[k]| :: cs[k][m]
  }

  lemma ClaimedAppend(cs: seq<seq<nat>>, c: seq<nat>)
    ensures Claimed(cs + [c]) == Claimed(cs) + ElemSet(c)
  {
    var cs' := cs + [c];
    forall x | x in Claimed(cs') ensures x in Claimed(cs) + ElemSet(c) {
      var k, m :| 0 <= k < |cs'| && 0 <= m < |cs'[k]| && cs'[k][m] == x;
      if k < |cs| { assert cs[k][m] == x; }
    }
    forall x | x in Claimed(cs) ensures x in Claimed(cs') {
      var k, m :| 0 <= k < |cs| && 0 <= m < |cs[k]| && cs[k][m] == x;
      assert cs'[k][m] == x;
    }
    forall m | 0 <= m < |c| ensures c[m] in Claimed(cs') {
      assert cs'[|cs|][m] == c[m];
    }
  }

  /** Every index below `n` is in some cluster. */
  ghost predicate Covers(cs: seq<seq<nat>>, n: nat) {
    forall j :: 0 <= j < n ==> j in Claimed(cs)
  }

  /** Every index below `n` lands in exactly one cluster, and every cluster is non-empty. */
  ghost predicate IsPartition(cs: seq<seq<nat>>, n: nat) {
    WellFormed(cs, n) && Disjoint(cs) && Covers(cs, n)
  }

  /** Each cluster's first element is its seed; every other member is within `thr` of the seed. */
  ghost predicate WithinSeed<T>(items: seq<T>, dist: (T, T) -> real, thr: real, cs: seq<seq<nat>>)
    requires WellFormed(cs, |items|)
  {
    forall k, m :: 0 <= k < |cs| && 0 < m < |cs[k]| ==> dist(items[cs[k][0]], items[cs[k][m]]) <= thr
  }

  /** Seeds appear in increasing input order. */
  ghost predicate SeedsAscending(cs: seq<seq<nat>>)
    requires forall k :: 0 <= k < |cs| ==> |cs[k]| > 0
  {
    forall k1, k2 :: 0 <= k1 < k2 < |cs| ==> cs[k1][0] < cs[k2][0]
  }

  /**
    The greedy choice: no member of a cluster was within reach of an earlier seed
    (otherwise that seed would have claimed it first).
   */
  ghost predicate NotClaimedEarlier<T>(items: seq<T>, dist: (T, T) -> real, thr: real, cs: seq<seq<nat>>)
    requires WellFormed(cs, |items|)
  {
    forall k1, k2, m :: 0 <= k1 < k2 < |cs| && 0 <= m < |cs[k2]| ==> dist(items[cs[k1][0]], items[cs[k2][m]]) > thr
  }

  /** Everything `computeClusters` promises about its result, for radius `thr`. */
  ghost predicate SeedClustering<T>(items: seq<T>, dist: (T, T) -> real, thr: real, cs: seq<seq<nat>>) {
    && IsPartition(cs, |items|)
    && WithinSeed(items, dist, thr, cs)
    && SeedsAscending(cs)
    && NotClaimedEarlier(items, dist, thr, cs)
  }

  /** What the outer loop of `computeClusters` keeps true after visiting the indices below `i`. */
  ghost predicate Progress<T>(items: seq<T>, dist: (T, T) -> real, thr: real, clusters: seq<seq<nat>>, used: set<nat>, i: nat) {
    && i <= |items|
    && |clusters| <= i
    && WellFormed(clusters, |items|)
    && Disjoint(clusters)
    && (forall k :: 0 <= k < |clusters| ==> clusters[k][0] < i)
    && SeedsAscending(clusters)
    && WithinSeed(items, dist, thr, clusters)
    && NotClaimedEarlier(items, dist, thr, clusters)
    && used == Claimed(clusters)
    && (forall x :: 0 <= x < i ==> x in used)
    && (forall k, x :: 0 <= k < |clusters| && i <= x < |items| && x !in used ==> dist(items[clusters[k][0]], items[x]) > thr)
  }

  /** What the inner loop delivers for seed `i`: the seed, then every later unclaimed index within reach. */
  ghost predicate Absorbed<T>(items: seq<T>, dist: (T, T) -> real, thr: real, i: nat, used0: set<nat>, cluster: seq<nat>, used: set<nat>) {
    && i < |items|
    && |cluster| > 0 && cluster[0] == i && Ascending(cluster)
    && (forall m :: 0 <= m < |cluster| ==> i <= cluster[m] < |items|)
    && (forall m :: 0 < m < |cluster| ==> dist(items[i], items[cluster[m]]) <= thr)
    && (forall m :: 0 <= m < |cluster| ==> cluster[m] !in used0)
    && used == used0 + ElemSet(cluster)
    && (forall x :: i < x < |items| && x !in used ==> dist(items[i], items[x]) > thr)
  }

  lemma ProgressStart<T>(items: seq<T>, dist: (T, T) -> real, thr: real)
    ensures Progress(items, dist, thr, [], {}, 0)
  {
    assert Claimed([]) == {};
  }

  lemma ProgressSkip<T>(items: seq<T>, dist: (T, T) -> real, thr: real, clusters: seq<seq<nat>>, used: set<nat>, i: nat)
    requires Progress(items, dist, thr, clusters, used, i)
    requires i < |items| && i in used
    ensures Progress(items, dist, thr, clusters, used, i + 1)
  {
  }

  lemma AppendWellFormed(clusters: seq<seq<nat>>, cluster: seq<nat>, n: nat)
    requires WellFormed(clusters, n)
    requires |cluster| > 0 && Ascending(cluster) && forall m :: 0 <= m < |cluster| ==> cluster[m] < n
    ensures WellFormed(clusters + [cluster], n)
  {
    var cs := clusters + [cluster];
    forall k | 0 <= k < |cs| ensures |cs[k]| > 0 && Ascending(cs[k]) && forall m :: 0 <= m < |cs[k]| ==> cs[k][m] < n {
      if k < |clusters| { assert cs[k] == clusters[k]; }
    }
  }

  lemma AppendDisjoint(clusters: seq<seq<nat>>, cluster: seq<nat>)
    requires Disjoint(clusters)
    requires forall k, j :: 0 <= k < |clusters| && j in clusters[k] ==> j !in cluster
    ensures Disjoint(clusters + [cluster])
  {
    var cs := clusters + [cluster];
    forall k1, k2, j | 0 <= k1 < |cs| && 0 <= k2 < |cs| && j in cs[k1] && j in cs[k2] ensures k1 == k2 {
      if k1 < |clusters| { assert cs[k1] == clusters[k1]; }
      if k2 < |clusters| { assert cs[k2] == clusters[k2]; }
    }
  }

  /** Appending a seed's cluster keeps every member of the earlier ones out of its reach. */
  lemma AppendNotClaimedEarlier<T>(items: seq<T>, dist: (T, T) -> real, thr: real, clusters: seq<seq<nat>>, used0: set<nat>, i: nat,
                                   cluster: seq<nat>, used: set<nat>)
    requires Progress(items, dist, thr, clusters, used0, i)
    requires i !in used0
    requires Absorbed(items, dist, thr, i, used0, cluster, used)
    requires WellFormed(clusters + [cluster], |items|)
    ensures NotClaimedEarlier(items, dist, thr, clusters + [cluster])
  {
    var cs := clusters + [cluster];
    forall k1, k2, m | 0 <= k1 < k2 < |cs| && 0 <= m < |cs[k2]| ensures dist(items[cs[k1][0]], items[cs[k2][m]]) > thr {
      if k2 == |clusters| {
        assert cs[k2][m] == cluster[m] && cluster[m] !in used0;
        assert cs[k1][0] == clusters[k1][0];
      } else {
        assert cs[k1] == clusters[k1] && cs[k2] == clusters[k2];
      }
    }
  }

  lemma AppendSeedProperties<T>(items: seq<T>, dist: (T, T) -> real, thr: real, clusters: seq<seq<nat>>, used0: set<nat>, i: nat,
                                cluster: seq<nat>, used: set<nat>)
    requires Progress(items, dist, thr, clusters, used0, i)
    requires i !in used0
    requires Absorbed(items, dist, thr, i, used0, cluster, used)
    requires WellFormed(clusters + [cluster], |items|)
    ensures WithinSeed(items, dist, thr, clusters + [cluster])
    ensures NotClaimedEarlier(items, dist, thr, clusters + [cluster])
    ensures SeedsAscending(clusters + [cluster])
  {
    AppendNotClaimedEarlier(items, dist, thr, clusters, used0, i, cluster, used);
    var cs := clusters + [cluster];
    forall k, m | 0 <= k < |cs| && 0 < m < |cs[k]| ensures dist(items[cs[k][0]], items[cs[k][m]]) <= thr {
      if k < |clusters| { assert cs[k] == clusters[k]; }
    }
    forall k1, k2 | 0 <= k1 < k2 < |cs| ensures cs[k1][0] < cs[k2][0] {
      if k2 < |clusters| { assert cs[k1] == clusters[k1] && cs[k2] == clusters[k2]; }
      else { assert cs[k1] == clusters[k1]; }
    }
  }

  lemma ProgressAdd<T>(items: seq<T>, dist: (T, T) -> real, thr: real, clusters: seq<seq<nat>>, used0: set<nat>, i: nat,
                       cluster: seq<nat>, used: set<nat>)
    requires Progress(items, dist, thr, clusters, used0, i)
    requires i !in used0
    requires Absorbed(items, dist, thr, i, used0, cluster, used)
    ensures Progress(items, dist, thr, clusters + [cluster], used, i + 1)
  {
    ClaimedAppend(clusters, cluster);
    AppendWellFormed(clusters, cluster, |items|);
    FreshCluster(clusters, used0, cluster);
    AppendDisjoint(clusters, cluster);
    AppendSeedProperties(items, dist, thr, clusters, used0, i, cluster, used);
    AppendSeedBelow(clusters, cluster, i);
    AppendStillOutOfReach(items, dist, thr, clusters, used0, i, cluster, used);
  }

  /** A cluster made of unclaimed indices shares none with the clusters so far. */
  lemma FreshCluster(clusters: seq<seq<nat>>, used0: set<nat>, cluster: seq<nat>)
    requires used0 == Claimed(clusters)
    requires forall m :: 0 <= m < |cluster| ==> cluster[m] !in used0
    ensures forall k, j :: 0 <= k < |clusters| && j in clusters[k] ==> j !in cluster
  {
    forall k, j | 0 <= k < |clusters| && j in clusters[k] ensures j !in cluster {
      var m :| 0 <= m < |clusters[k]| && clusters[k][m] == j;
      assert j in used0;
    }
  }

  /** With seed `i` appended, every seed is below `i + 1`. */
  lemma AppendSeedBelow(clusters: seq<seq<nat>>, cluster: seq<nat>, i: nat)
    requires forall k :: 0 <= k < |clusters| ==> |clusters[k]| > 0 && clusters[k][0] < i
    requires |cluster| > 0 && cluster[0] == i
    ensures forall k :: 0 <= k < |clusters + [cluster]| ==> (clusters + [cluster])[k][0] < i + 1
  {
    var cs := clusters + [cluster];
    forall k | 0 <= k < |cs| ensures cs[k][0] < i + 1 {
      if k < |clusters| { assert cs[k] == clusters[k]; }
    }
  }

  /** An index past `i` that no seed so far has claimed is out of reach of every seed so far. */
  lemma AppendStillOutOfReach<T>(items: seq<T>, dist: (T, T) -> real, thr: real, clusters: seq<seq<nat>>, used0: set<nat>, i: nat,
                                 cluster: seq<nat>, used: set<nat>)
    requires Progress(items, dist, thr, clusters, used0, i)
    requires Absorbed(items, dist, thr, i, used0, cluster, used)
    ensures forall k, x :: 0 <= k < |clusters + [cluster]| && i + 1 <= x < |items| && x !in used ==>
              dist(items[(clusters + [cluster])[k][0]], items[x]) > thr
  {
    var cs := clusters + [cluster];
    forall k, x | 0 <= k < |cs| && i + 1 <= x < |items| && x !in used ensures dist(items[cs[k][0]], items[x]) > thr {
      if k < |clusters| { assert cs[k] == clusters[k]; }
    }
  }

  lemma ProgressDone<T>(items: seq<T>, dist: (T, T) -> real, thr: real, clusters: seq<seq<nat>>, used: set<nat>)
    requires Progress(items, dist, thr, clusters, used, |items|)
    ensures SeedClustering(items, dist, thr, clusters)
  {
  }

  /** The inner loop of `computeClusters`: seed `i` claims every later unclaimed index within `thresholdKm`. */
  method Absorb<T>(items: seq<T>, dist: (T, T) -> real, thresholdKm: real, i: nat, used0: set<nat>)
    returns (cluster: seq<nat>, used: set<nat>)
    requires i < |items| && i !in used0
    ensures Absorbed(items, dist, thresholdKm, i, used0, cluster, used)
  {
    cluster := [i];
    used := used0 + {i};
    var j := i + 1;
    while j < |items|
      invariant i + 1 <= j <= |items|
      invariant |cluster| > 0 && cluster[0] == i && Ascending(cluster)
      invariant forall m :: 0 <= m < |cluster| ==> i <= cluster[m] < j
      invariant forall m :: 0 < m < |cluster| ==> dist(items[i], items[cluster[m]]) <= thresholdKm
      invariant forall m :: 0 <= m < |cluster| ==> cluster[m] !in used0
      invariant used == used0 + ElemSet(cluster)
      invariant forall x :: i < x < j && x !in used ==> dist(items[i], items[x]) > thresholdKm
    {
      if j !in used && dist(items[i], items[j]) <= thresholdKm {
        ghost var c0 := cluster;
        cluster := cluster + [j];
        used := used + {j};
        assert ElemSet(cluster) == ElemSet(c0) + {j};
      }
      j := j + 1;
    }
  }

  /**
    `computeClusters(visibleMarkers, zoom)`, returning each cluster as the ascending
    list of positions in `items` it holds.
   */
  method ComputeClusters<T>(items: seq<T>, dist: (T, T) -> real, zoom: int) returns (clusters: seq<seq<nat>>)
    ensures SeedClustering(items, dist, ThresholdKm(zoom), clusters)
    ensures |items| == 0 ==> clusters == []
  {
    var thresholdKm := ThresholdKm(zoom);
    var used: set<nat> := {};
    clusters := [];
    ProgressStart(items, dist, thresholdKm);
    var i := 0;
    while i < |items|
      invariant Progress(items, dist, thresholdKm, clusters, used, i)
    {
      if i in used {
        ProgressSkip(items, dist, thresholdKm, clusters, used, i);
        i := i + 1;
        continue;
      }
      var cluster, used' := Absorb(items, dist, thresholdKm, i, used);
      ProgressAdd(items, dist, thresholdKm, clusters, used, i, cluster, used');
      clusters := clusters + [cluster];
      used := used';
      i := i + 1;
    }
    ProgressDone(items, dist, thresholdKm, clusters, used);
  }
}
