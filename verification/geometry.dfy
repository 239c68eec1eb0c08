/**
  Cluster-marker geometry (`createClusterMarker`): the marker sits at the arithmetic
  mean of its members' coordinates, and its pixel size and font size grow with the
  member count up to a cap. The archived widget and the v2 widget use different
  size constants.
 */
module ClusterGeometry {

  datatype Coord = Coord(lat: real, lng: real)

  /** Which copy of the widget draws the marker. */
  datatype Style = Archive | V2

  function SumLat(ps: seq<Coord>): real {
    if |ps| == 0 then 0.0 else SumLat(ps[..|ps| - 1]) + ps[|ps| - 1].lat
  }

  function SumLng(ps: seq<Coord>): real {
    if |ps| == 0 then 0.0 else SumLng(ps[..|ps| - 1]) + ps[|ps| - 1].lng
  }

  /** `totalLat / cluster.length`, `totalLng / cluster.length`. */
  function Centroid(ps: seq<Coord>): (c: Coord)
    requires |ps| > 0
    ensures c.lat * (|ps| as real) == SumLat(ps)
    ensures c.lng * (|ps| as real) == SumLng(ps)
  {
    Coord(SumLat(ps) / (|ps| as real), SumLng(ps) / (|ps| as real))
  }

  /** The closed rectangle `south <= lat <= north`, `west <= lng <= east`. */
  predicate InBox(c: Coord, south: real, west: real, north: real, east: real) {
    south <= c.lat <= north && west <= c.lng <= east
  }

  /** `x` added up `n` times. */
  function Times(n: nat, x: real): (r: real)
    ensures r == x * (n as real)
  {
    if n == 0 then 0.0 else Times(n - 1, x) + x
  }

  lemma {:induction false} SumsInBox(ps: seq<Coord>, south: real, west: real, north: real, east: real)
    requires forall i :: 0 <= i < |ps| ==> InBox(ps[i], south, west, north, east)
    ensures Times(|ps|, south) <= SumLat(ps) <= Times(|ps|, north)
    ensures Times(|ps|, west) <= SumLng(ps) <= Times(|ps|, east)
  {
    if |ps| > 0 {
      SumsInBox(ps[..|ps| - 1], south, west, north, east);
      assert InBox(ps[|ps| - 1], south, west, north, east);
    }
  }

  /**
    The mean lies inside every rectangle that holds all the members: a cluster marker
    of in-bounds markers is itself drawn inside the viewport.
   */
  lemma CentroidInBox(ps: seq<Coord>, south: real, west: real, north: real, east: real)
    requires |ps| > 0
    requires forall i :: 0 <= i < |ps| ==> InBox(ps[i], south, west, north, east)
    ensures InBox(Centroid(ps), south, west, north, east)
  {
    SumsInBox(ps, south, west, north, east);
    MeanOfBoundedSum(|ps|, SumLat(ps), south, north);
    MeanOfBoundedSum(|ps|, SumLng(ps), west, east);
  }

  lemma MeanOfBoundedSum(count: nat, sum: real, lo: real, hi: real)
    requires count > 0 && Times(count, lo) <= sum <= Times(count, hi)
    ensures lo <= sum / (count as real) <= hi
  {
    var n := count as real;
    assert lo * n <= sum <= hi * n;
    MeanBetween(n, sum, lo, hi);
  }

  /** A mean of `n` terms is between the bounds when the sum is between `n` times them. */
  lemma MeanBetween(n: real, sum: real, lo: real, hi: real)
    requires n > 0.0 && lo * n <= sum <= hi * n
    ensures lo <= sum / n <= hi
  {
    var mean := sum / n;
    assert mean * n == sum;
    assert (mean - lo) * n >= 0.0;
    assert (hi - mean) * n >= 0.0;
  }

  /** Members that all sit at one point put the marker exactly there. */
  lemma {:induction false} CentroidOfOnePoint(ps: seq<Coord>, p: Coord)
    requires |ps| > 0
    requires forall i :: 0 <= i < |ps| ==> ps[i] == p
    ensures Centroid(ps) == p
  {
    CentroidInBox(ps, p.lat, p.lng, p.lat, p.lng);
  }

  /** Marker diameter in pixels: `36 + min(count, 8) * 3` (archive), `40 + min(count, 10) * 3` (v2). */
  function ClusterSize(style: Style, count: nat): (size: int)
    ensures style.Archive? && count >= 2 ==> 42 <= size <= 60
    ensures style.V2? && count >= 2 ==> 46 <= size <= 70
    ensures style.Archive? ==> (size == 60 <==> count >= 8)
    ensures style.V2? ==> (size == 70 <==> count >= 10)
  {
    match style
    case Archive => 36 + (if count < 8 then count else 8) * 3
    case V2 => 40 + (if count < 10 then count else 10) * 3
  }

  /** A cluster with more members is never drawn smaller. */
  lemma ClusterSizeMonotone(style: Style, c1: nat, c2: nat)
    requires c1 <= c2
    ensures ClusterSize(style, c1) <= ClusterSize(style, c2)
  {
  }

  /** Label font: 16px when `size > 46` (archive) or `size > 50` (v2), else 14px. */
  function FontSize(style: Style, size: int): (px: int)
    ensures px == 14 || px == 16
  {
    match style
    case Archive => if size > 46 then 16 else 14
    case V2 => if size > 50 then 16 else 14
  }

  /** In both copies the large font is used exactly for clusters of four or more. */
  lemma LargeFontIffFourOrMore(style: Style, count: nat)
    ensures FontSize(style, ClusterSize(style, count)) == 16 <==> count >= 4
  {
  }

  datatype ClusterMarker = ClusterMarker(center: Coord, count: nat, size: int, fontSize: int)

  /** The aggregate marker `createClusterMarker` draws for a cluster's member coordinates. */
  function MakeClusterMarker(style: Style, members: seq<Coord>): (m: ClusterMarker)
    requires |members| > 0
    ensures m.count == |members|
    ensures m.center.lat * (|members| as real) == SumLat(members)
    ensures m.center.lng * (|members| as real) == SumLng(members)
    ensures m.fontSize == 16 <==> |members| >= 4
  {
    var size := ClusterSize(style, |members|);
    ClusterMarker(Centroid(members), |members|, size, FontSize(style, size))
  }
}
