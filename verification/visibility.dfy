/**
  The viewport visibility controller (`updateMarkerVisibility`), run on every map
  `idle` event. Each marker carries whether the current viewport holds it and
  whether it is currently drawn. At or below the cluster zoom every marker is
  hidden, the in-bounds ones are clustered, singletons are drawn again and one
  aggregate marker is drawn per larger cluster. Above it, a marker is toggled only
  when its drawn state differs from its bounds membership.
 */
module Visibility {
  import opened Wrappers
  import opened Seqs
  import opened Clustering
  import opened ClusterGeometry

  /** `CLUSTER_ZOOM` / `CONFIG.clusterZoom`: clustering runs at this zoom and below. */
  const ClusterZoom: int := 10

  /** `inBounds` is `bounds.hasLatLng(position)` for the current viewport; `shown` is `marker.getMap() != null`. */
  datatype Marker = Marker(position: Coord, inBounds: bool, shown: bool)

  /** The map as the controller reads it: its zoom and whether `getBounds()` returned bounds. */
  datatype MapView = MapView(zoom: int, hasBounds: bool)

  /** Individual markers plus the aggregate markers currently drawn. */
  datatype ViewState = ViewState(markers: seq<Marker>, clusterMarkers: seq<ClusterMarker>)

  function Positions(ms: seq<Marker>): (ps: seq<Coord>)
    ensures |ps| == |ms|
    ensures forall i :: 0 <= i < |ms| ==> ps[i] == ms[i].position
  {
    seq(|ms|, i requires 0 <= i < |ms| => ms[i].position)
  }

  ghost function InBoundsSet(ms: seq<Marker>): set<nat> {
    set i | 0 <= i < |ms| && ms[i].inBounds
  }

  predicate InBounds(m: Marker) {
    m.inBounds
  }

  /** The drawn state disagrees with bounds membership. */
  predicate Mismatch(m: Marker) {
    m.shown != m.inBounds
  }

  /** Turn clusters of positions in `visible` back into clusters of marker indices. */
  function Relabel(cs: seq<seq<nat>>, visible: seq<nat>): (gs: seq<seq<nat>>)
    requires forall k, m :: 0 <= k < |cs| && 0 <= m < |cs[k]| ==> cs[k][m] < |visible|
    ensures |gs| == |cs|
    ensures forall k :: 0 <= k < |cs| ==> |gs[k]| == |cs[k]| && forall m :: 0 <= m < |cs[k]| ==> gs[k][m] == visible[cs[k][m]]
  {
    seq(|cs|, k requires 0 <= k < |cs| => seq(|cs[k]|, m requires 0 <= m < |cs[k]| => visible[cs[k][m]]))
  }

  /** The render groups cover exactly the in-bounds markers, each once. */
  ghost predicate PartitionsInBounds(ms: seq<Marker>, gs: seq<seq<nat>>) {
    WellFormed(gs, |ms|) && Disjoint(gs) && Claimed(gs) == InBoundsSet(ms)
  }

  /** The positions of the in-bounds markers, in marker order: what gets clustered. */
  function VisiblePositions(ms: seq<Marker>, visible: seq<nat>): (items: seq<Coord>)
    requires forall k :: 0 <= k < |visible| ==> visible[k] < |ms|
    ensures |items| == |visible|
    ensures forall k :: 0 <= k < |visible| ==> items[k] == ms[visible[k]].position
  {
    seq(|visible|, k requires 0 <= k < |visible| => ms[visible[k]].position)
  }

  lemma RelabelWellFormed(n: nat, visible: seq<nat>, cs: seq<seq<nat>>)
    requires Ascending(visible)
    requires forall k :: 0 <= k < |visible| ==> visible[k] < n
    requires WellFormed(cs, |visible|)
    ensures WellFormed(Relabel(cs, visible), n)
  {
    var gs := Relabel(cs, visible);
    forall k | 0 <= k < |gs| ensures |gs[k]| > 0 && Ascending(gs[k]) && forall m :: 0 <= m < |gs[k]| ==> gs[k][m] < n {
      assert Ascending(cs[k]);
    }
  }

  lemma RelabelDisjoint(visible: seq<nat>, cs: seq<seq<nat>>)
    requires Ascending(visible)
    requires WellFormed(cs, |visible|)
    requires Disjoint(cs)
    ensures Disjoint(Relabel(cs, visible))
  {
    var gs := Relabel(cs, visible);
    forall k1, k2, j | 0 <= k1 < |gs| && 0 <= k2 < |gs| && j in gs[k1] && j in gs[k2] ensures k1 == k2 {
      var m1 :| 0 <= m1 < |gs[k1]| && gs[k1][m1] == j;
      var m2 :| 0 <= m2 < |gs[k2]| && gs[k2][m2] == j;
      assert visible[cs[k1][m1]] == visible[cs[k2][m2]];
      assert cs[k1][m1] == cs[k2][m2];
      assert cs[k1][m1] in cs[k2];
    }
  }

  lemma RelabelClaimed(ms: seq<Marker>, visible: seq<nat>, cs: seq<seq<nat>>)
    requires forall k :: 0 <= k < |visible| ==> visible[k] < |ms| && ms[visible[k]].inBounds
    requires forall i :: 0 <= i < |ms| && ms[i].inBounds ==> i in visible
    requires WellFormed(cs, |visible|)
    requires Covers(cs, |visible|)
    ensures Claimed(Relabel(cs, visible)) == InBoundsSet(ms)
  {
    var gs := Relabel(cs, visible);
    forall i | i in Claimed(gs) ensures i in InBoundsSet(ms) {
      var k, m :| 0 <= k < |gs| && 0 <= m < |gs[k]| && gs[k][m] == i;
    }
    forall i | i in InBoundsSet(ms) ensures i in Claimed(gs) {
      var x :| 0 <= x < |visible| && visible[x] == i;
      assert x in Claimed(cs);
      var k, m :| 0 <= k < |cs| && 0 <= m < |cs[k]| && cs[k][m] == x;
      assert gs[k][m] == i;
    }
  }

  lemma RelabelSeeds(ms: seq<Marker>, dist: (Coord, Coord) -> real, thr: real, visible: seq<nat>, cs: seq<seq<nat>>)
    requires Ascending(visible)
    requires forall k :: 0 <= k < |visible| ==> visible[k] < |ms|
    requires WellFormed(cs, |visible|)
    requires WithinSeed(VisiblePositions(ms, visible), dist, thr, cs)
    requires SeedsAscending(cs)
    requires NotClaimedEarlier(VisiblePositions(ms, visible), dist, thr, cs)
    requires WellFormed(Relabel(cs, visible), |ms|)
    ensures WithinSeed(Positions(ms), dist, thr, Relabel(cs, visible))
    ensures SeedsAscending(Relabel(cs, visible))
    ensures NotClaimedEarlier(Positions(ms), dist, thr, Relabel(cs, visible))
  {
    var items := VisiblePositions(ms, visible);
    var gs := Relabel(cs, visible);
    var ps := Positions(ms);
    forall k, m | 0 <= k < |gs| && 0 < m < |gs[k]| ensures dist(ps[gs[k][0]], ps[gs[k][m]]) <= thr {
      assert ps[gs[k][0]] == items[cs[k][0]] && ps[gs[k][m]] == items[cs[k][m]];
    }
    forall k1, k2, m | 0 <= k1 < k2 < |gs| && 0 <= m < |gs[k2]| ensures dist(ps[gs[k1][0]], ps[gs[k2][m]]) > thr {
      assert ps[gs[k1][0]] == items[cs[k1][0]] && ps[gs[k2][m]] == items[cs[k2][m]];
    }
  }

  /** Seed clustering of the in-bounds positions, carried over to marker indices. */
  lemma RelabelKeepsClustering(ms: seq<Marker>, dist: (Coord, Coord) -> real, thr: real, visible: seq<nat>, cs: seq<seq<nat>>)
    requires Ascending(visible)
    requires forall k :: 0 <= k < |visible| ==> visible[k] < |ms| && ms[visible[k]].inBounds
    requires forall i :: 0 <= i < |ms| && ms[i].inBounds ==> i in visible
    requires SeedClustering(VisiblePositions(ms, visible), dist, thr, cs)
    ensures PartitionsInBounds(ms, Relabel(cs, visible))
    ensures WithinSeed(Positions(ms), dist, thr, Relabel(cs, visible))
    ensures SeedsAscending(Relabel(cs, visible))
    ensures NotClaimedEarlier(Positions(ms), dist, thr, Relabel(cs, visible))
  {
    RelabelWellFormed(|ms|, visible, cs);
    RelabelDisjoint(visible, cs);
    RelabelClaimed(ms, visible, cs);
    RelabelSeeds(ms, dist, thr, visible, cs);
  }

  /** Whether marker `i` forms a cluster on its own, and so is drawn individually. */
  predicate IsSingleton(gs: seq<seq<nat>>, i: nat) {
    exists k | 0 <= k < |gs| :: gs[k] == [i]
  }

  /** The first elements of the one-member groups, in group order. */
  function Singletons(gs: seq<seq<nat>>): (r: seq<nat>)
    ensures forall i :: i in r <==> IsSingleton(gs, i)
  {
    if |gs| == 0 then []
    else
      var front := Singletons(gs[..|gs| - 1]);
      assert forall k :: 0 <= k < |gs| - 1 ==> gs[..|gs| - 1][k] == gs[k];
      if |gs[|gs| - 1]| == 1 then
        assert gs[|gs| - 1] == [gs[|gs| - 1][0]];
        front + [gs[|gs| - 1][0]]
      else front
  }

  /** A group that `createClusterMarker` draws as one aggregate marker. */
  predicate Aggregated(g: seq<nat>) {
    |g| >= 2
  }

  /** The positions of a group's markers, in group order. */
  function MemberPositions(ms: seq<Marker>, g: seq<nat>): (ps: seq<Coord>)
    requires forall m :: 0 <= m < |g| ==> g[m] < |ms|
    ensures |ps| == |g|
    ensures forall m :: 0 <= m < |g| ==> ps[m] == ms[g[m]].position
  {
    seq(|g|, m requires 0 <= m < |g| => ms[g[m]].position)
  }

  /**
    One aggregate marker per group of two or more, in group order: the `k`-th
    aggregate is the marker of the `k`-th such group, drawn at its members' mean.
   */
  function Aggregates(style: Style, ms: seq<Marker>, gs: seq<seq<nat>>): (r: seq<ClusterMarker>)
    requires WellFormed(gs, |ms|)
    ensures |r| <= |gs|
    ensures forall k :: 0 <= k < |r| ==> r[k].count >= 2
    ensures |r| == |KeptIndices(gs, Aggregated)|
    ensures forall k :: 0 <= k < |r| ==> r[k] == MakeClusterMarker(style, MemberPositions(ms, gs[KeptIndices(gs, Aggregated)[k]]))
  {
    if |gs| == 0 then []
    else
      var g := gs[|gs| - 1];
      var front := Aggregates(style, ms, gs[..|gs| - 1]);
      assert forall k :: 0 <= k < |gs| - 1 ==> gs[..|gs| - 1][k] == gs[k];
      if |g| >= 2 then front + [MakeClusterMarker(style, MemberPositions(ms, g))]
      else front
  }

  /** Every group of two or more has its own aggregate marker, with the group's size and its members' mean. */
  lemma AggregateOfGroup(style: Style, ms: seq<Marker>, gs: seq<seq<nat>>, k: nat)
    requires WellFormed(gs, |ms|)
    requires k < |gs| && |gs[k]| >= 2
    ensures exists j :: 0 <= j < |Aggregates(style, ms, gs)| && Aggregates(style, ms, gs)[j] == MakeClusterMarker(style, MemberPositions(ms, gs[k]))
    ensures MakeClusterMarker(style, MemberPositions(ms, gs[k])).count == |gs[k]|
  {
    var idx := KeptIndices(gs, Aggregated);
    assert k in idx;
    var j :| 0 <= j < |idx| && idx[j] == k;
    assert Aggregates(style, ms, gs)[j] == MakeClusterMarker(style, MemberPositions(ms, gs[k]));
  }

  function Range(n: nat): (r: seq<nat>)
    ensures |r| == n
    ensures forall i :: 0 <= i < n ==> r[i] == i
  {
    seq(n, i requires 0 <= i < n => i)
  }

  /** Non-cluster mode: draw exactly the in-bounds markers, touching only those that differ. */
  function ShowInBounds(ms: seq<Marker>): (r: (seq<Marker>, seq<nat>))
    ensures |r.0| == |ms|
    ensures forall i :: 0 <= i < |ms| ==> r.0[i] == ms[i].(shown := ms[i].inBounds)
    ensures forall i :: 0 <= i < |ms| ==> (i in r.1 <==> ms[i].shown != ms[i].inBounds)
  {
    (seq(|ms|, i requires 0 <= i < |ms| => ms[i].(shown := ms[i].inBounds)), KeptIndices(ms, Mismatch))
  }

  /** A second non-cluster pass over unchanged bounds toggles nothing and changes nothing. */
  lemma ShowInBoundsIdempotent(ms: seq<Marker>)
    ensures ShowInBounds(ShowInBounds(ms).0).1 == []
    ensures ShowInBounds(ShowInBounds(ms).0).0 == ShowInBounds(ms).0
  {
    NothingMismatched(ShowInBounds(ms).0);
  }

  lemma {:induction false} NothingMismatched(ms: seq<Marker>)
    requires forall i :: 0 <= i < |ms| ==> ms[i].shown == ms[i].inBounds
    ensures KeptIndices(ms, Mismatch) == []
  {
    if |ms| > 0 {
      NothingMismatched(ms[..|ms| - 1]);
    }
  }

  /**
    `updateMarkerVisibility()`. Besides the new view state it returns the render plan
    `groups` (one entry per cluster, as marker indices; one one-element entry per
    individually drawn marker) and `calls`, the marker indices `setMap` is called on,
    in call order.
   */
  method UpdateMarkerVisibility(style: Style, view: Option<MapView>, st: ViewState, dist: (Coord, Coord) -> real)
    returns (st': ViewState, groups: seq<seq<nat>>, calls: seq<nat>)
    // No map, or no bounds yet: nothing happens.
    ensures view.None? || !view.value.hasBounds ==> st' == st && groups == [] && calls == []
    // Otherwise only the drawn state of individual markers changes.
    ensures view.Some? && view.value.hasBounds ==>
              && |st'.markers| == |st.markers|
              && forall i :: 0 <= i < |st.markers| ==> st'.markers[i] == st.markers[i].(shown := st'.markers[i].shown)
    // Cluster mode: the in-bounds markers are seed-clustered at the current zoom.
    ensures view.Some? && view.value.hasBounds && view.value.zoom <= ClusterZoom ==>
              && PartitionsInBounds(st.markers, groups)
              && WithinSeed(Positions(st.markers), dist, ThresholdKm(view.value.zoom), groups)
              && SeedsAscending(groups)
              && NotClaimedEarlier(Positions(st.markers), dist, ThresholdKm(view.value.zoom), groups)
              && (forall i :: 0 <= i < |st.markers| ==> (st'.markers[i].shown <==> IsSingleton(groups, i)))
              && st'.clusterMarkers == Aggregates(style, st.markers, groups)
              && calls == Range(|st.markers|) + Singletons(groups)
    // Normal mode: drawn exactly when in bounds, every group a single marker, only differing markers toggled.
    ensures view.Some? && view.value.hasBounds && view.value.zoom > ClusterZoom ==>
              && (forall i :: 0 <= i < |st.markers| ==> st'.markers[i].shown == st.markers[i].inBounds)
              && st'.clusterMarkers == []
              && (forall k :: 0 <= k < |groups| ==> |groups[k]| == 1)
              && PartitionsInBounds(st.markers, groups)
              && Ascending(calls)
              && (forall i :: 0 <= i < |st.markers| ==> (i in calls <==> st.markers[i].shown != st.markers[i].inBounds))
              && (forall k :: 0 <= k < |calls| ==> calls[k] < |st.markers|)
  {
    if view.None? || !view.value.hasBounds {
      return st, [], [];
    }
    if view.value.zoom <= ClusterZoom {
      st', groups, calls := ClusterView(style, st, view.value.zoom, dist);
    } else {
      st', groups, calls := NormalView(st);
    }
  }

  /** Cluster mode of `updateMarkerVisibility()`: the in-bounds markers, seed-clustered at `zoom`. */
  method ClusterView(style: Style, st: ViewState, zoom: int, dist: (Coord, Coord) -> real)
    returns (st': ViewState, groups: seq<seq<nat>>, calls: seq<nat>)
    ensures |st'.markers| == |st.markers|
    ensures forall i :: 0 <= i < |st.markers| ==> st'.markers[i] == st.markers[i].(shown := st'.markers[i].shown)
    ensures && PartitionsInBounds(st.markers, groups)
            && WithinSeed(Positions(st.markers), dist, ThresholdKm(zoom), groups)
            && SeedsAscending(groups)
            && NotClaimedEarlier(Positions(st.markers), dist, ThresholdKm(zoom), groups)
    ensures forall i :: 0 <= i < |st.markers| ==> (st'.markers[i].shown <==> IsSingleton(groups, i))
    ensures st'.clusterMarkers == Aggregates(style, st.markers, groups)
    ensures calls == Range(|st.markers|) + Singletons(groups)
  {
    var ms := st.markers;
    var visible := KeptIndices(ms, InBounds);
    var cs := ComputeClusters(VisiblePositions(ms, visible), dist, zoom);
    RelabelKeepsClustering(ms, dist, ThresholdKm(zoom), visible, cs);
    groups := Relabel(cs, visible);
    var ms' := seq(|ms|, i requires 0 <= i < |ms| => ms[i].(shown := IsSingleton(groups, i)));
    st' := ViewState(ms', Aggregates(style, ms, groups));
    calls := Range(|ms|) + Singletons(groups);
  }

  /** Normal mode of `updateMarkerVisibility()`: each in-bounds marker drawn on its own, only differing markers toggled. */
  method NormalView(st: ViewState) returns (st': ViewState, groups: seq<seq<nat>>, calls: seq<nat>)
    ensures |st'.markers| == |st.markers|
    ensures forall i :: 0 <= i < |st.markers| ==> st'.markers[i] == st.markers[i].(shown := st'.markers[i].shown)
    ensures forall i :: 0 <= i < |st.markers| ==> st'.markers[i].shown == st.markers[i].inBounds
    ensures st'.clusterMarkers == []
    ensures forall k :: 0 <= k < |groups| ==> |groups[k]| == 1
    ensures PartitionsInBounds(st.markers, groups)
    ensures Ascending(calls)
    ensures forall i :: 0 <= i < |st.markers| ==> (i in calls <==> st.markers[i].shown != st.markers[i].inBounds)
    ensures forall k :: 0 <= k < |calls| ==> calls[k] < |st.markers|
  {
    var ms := st.markers;
    var visible := KeptIndices(ms, InBounds);
    groups := seq(|visible|, k requires 0 <= k < |visible| => [visible[k]]);
    SinglesPartition(ms, visible);
    var r := ShowInBounds(ms);
    st' := ViewState(r.0, []);
    calls := r.1;
  }

  /** Above the cluster zoom every in-bounds marker is its own render group. */
  lemma SinglesPartition(ms: seq<Marker>, visible: seq<nat>)
    requires Ascending(visible)
    requires forall k :: 0 <= k < |visible| ==> visible[k] < |ms| && ms[visible[k]].inBounds
    requires forall i :: 0 <= i < |ms| && ms[i].inBounds ==> i in visible
    ensures PartitionsInBounds(ms, seq(|visible|, k requires 0 <= k < |visible| => [visible[k]]))
  {
    var gs := seq(|visible|, k requires 0 <= k < |visible| => [visible[k]]);
    forall k1, k2, j | 0 <= k1 < |gs| && 0 <= k2 < |gs| && j in gs[k1] && j in gs[k2] ensures k1 == k2 {
      assert visible[k1] == visible[k2];
    }
    forall i | i in Claimed(gs) ensures i in InBoundsSet(ms) {
      var k, m :| 0 <= k < |gs| && 0 <= m < |gs[k]| && gs[k][m] == i;
    }
    forall i | i in InBoundsSet(ms) ensures i in Claimed(gs) {
      var x :| 0 <= x < |visible| && visible[x] == i;
      assert gs[x][0] == i;
    }
  }
}
