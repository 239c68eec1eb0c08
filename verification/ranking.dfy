/**
  Reference-point ranking: `setReferencePoint`, `clearReferencePoint` and
  `searchNearby` copy the partners with a `distance` field and sort the copies by it.
  The distance from the reference point is a parameter; the source's haversine
  formula is not part of this model.
 */
module Ranking {
  import opened Seqs
  import V2Filters

  /** `{ ...partner, distance }`. */
  datatype Ranked<P> = Ranked(partner: P, distance: real)

  function DistanceOf<P>(r: Ranked<P>): real {
    r.distance
  }

  function PartnerOf<P>(r: Ranked<P>): P {
    r.partner
  }

  /** `partners.map(p => ({ ...p, distance: d(p) }))`. */
  function Annotate<P>(partners: seq<P>, d: P -> real): (rs: seq<Ranked<P>>)
    ensures |rs| == |partners|
    ensures forall k :: 0 <= k < |rs| ==> rs[k].partner == partners[k] && rs[k].distance == d(partners[k])
  {
    Map(partners, (p: P) => Ranked(p, d(p)))
  }

  /** `map(({ distance, ...rest }) => rest)`: drop the distance again. */
  function Strip<P>(rs: seq<Ranked<P>>): (ps: seq<P>)
    ensures |ps| == |rs|
    ensures forall k :: 0 <= k < |rs| ==> ps[k] == rs[k].partner
  {
    Map(rs, PartnerOf)
  }

  /** Dropping the distances of an annotated copy gives the partners back. */
  lemma StripAnnotate<P>(partners: seq<P>, d: P -> real)
    ensures Strip(Annotate(partners, d)) == partners
  {
  }

  /** Taking out position `j` takes one copy of `b[j]` out of the multiset. */
  lemma MultisetRemoveAt<T>(b: seq<T>, j: nat)
    requires j < |b|
    ensures multiset(b[..j] + b[j + 1..]) == multiset(b) - multiset{b[j]}
  {
    assert b == b[..j] + [b[j]] + b[j + 1..];
  }

  lemma MapRemoveAt<T, U>(b: seq<T>, j: nat, f: T -> U)
    requires j < |b|
    ensures multiset(Map(b, f)) == multiset(Map(b[..j] + b[j + 1..], f)) + multiset{f(b[j])}
  {
    var m := Map(b, f);
    assert m == m[..j] + [m[j]] + m[j + 1..];
    assert Map(b[..j] + b[j + 1..], f) == m[..j] + m[j + 1..];
  }

  /** Taking the same element out of two permutations of each other leaves permutations of each other. */
  lemma RemoveMatching<T>(a: seq<T>, b: seq<T>, j: nat)
    requires |a| > 0 && j < |b| && b[j] == a[0]
    requires multiset(a) == multiset(b)
    ensures multiset(a[1..]) == multiset(b[..j] + b[j + 1..])
  {
    MultisetRemoveAt(b, j);
    assert a == [a[0]] + a[1..];
  }

  /** The images agree once the matching elements' images are put back. */
  lemma MapMatching<T, U>(a: seq<T>, b: seq<T>, j: nat, f: T -> U)
    requires |a| > 0 && j < |b| && b[j] == a[0]
    requires multiset(Map(a[1..], f)) == multiset(Map(b[..j] + b[j + 1..], f))
    ensures multiset(Map(a, f)) == multiset(Map(b, f))
  {
    assert multiset(Map(b, f)) == multiset(Map(b[..j] + b[j + 1..], f)) + multiset{f(a[0])} by {
      MapRemoveAt(b, j, f);
    }
    assert multiset(Map(a, f)) == multiset(Map(a[1..], f)) + multiset{f(a[0])} by {
      assert Map(a, f) == [f(a[0])] + Map(a[1..], f);
    }
  }

  /** Permuting a list permutes its image. */
  lemma {:induction false} MapPermutation<T, U>(a: seq<T>, b: seq<T>, f: T -> U)
    requires multiset(a) == multiset(b)
    ensures multiset(Map(a, f)) == multiset(Map(b, f))
    decreases |a|
  {
    if |a| > 0 {
      assert a[0] in multiset(b);
      var j :| 0 <= j < |b| && b[j] == a[0];
      RemoveMatching(a, b, j);
      MapPermutation(a[1..], b[..j] + b[j + 1..], f);
      MapMatching(a, b, j, f);
    }
  }

  /**
    `.map(...distance...).sort((a, b) => a.distance - b.distance)`: every partner once,
    each with its own distance, nearest first, ties in list order.
   */
  function Rank<P>(partners: seq<P>, d: P -> real): (rs: seq<Ranked<P>>)
    ensures |rs| == |partners|
    ensures SortedBy(rs, DistanceOf)
    ensures forall k :: 0 <= k < |rs| ==> rs[k].distance == d(rs[k].partner)
    ensures multiset(Strip(rs)) == multiset(partners)
  {
    var annotated := Annotate(partners, d);
    var rs := SortBy(annotated, DistanceOf);
    SortBySpec(annotated, DistanceOf);
    MapPermutation(rs, annotated, PartnerOf);
    StripAnnotate(partners, d);
    forall k | 0 <= k < |rs| ensures rs[k].distance == d(rs[k].partner) {
      assert rs[k] in multiset(annotated);
      var j :| 0 <= j < |annotated| && annotated[j] == rs[k];
    }
    rs
  }

  /** Partners at the same distance keep the order they had in the list. */
  lemma RankStable<P>(partners: seq<P>, d: P -> real, v: real)
    ensures Filter(Rank(partners, d), KeyIs(DistanceOf, v)) == Filter(Annotate(partners, d), KeyIs(DistanceOf, v))
  {
    SortStable(Annotate(partners, d), DistanceOf, v);
  }

  /** The nearest partner comes first. */
  lemma RankFirstIsNearest<P>(partners: seq<P>, d: P -> real)
    requires |partners| > 0
    ensures forall i :: 0 <= i < |partners| ==> Rank(partners, d)[0].distance <= d(partners[i])
  {
    var rs := Rank(partners, d);
    forall i | 0 <= i < |partners| ensures rs[0].distance <= d(partners[i]) {
      assert partners[i] in multiset(Strip(rs));
      var k :| 0 <= k < |rs| && Strip(rs)[k] == partners[i];
      assert DistanceOf(rs[0]) <= DistanceOf(rs[k]);
    }
  }

  /** `searchNearby` (v2 and Makeshop): every loaded partner ranked from the device position, whatever the filters. */
  function SearchNearby<P>(partners: seq<P>, d: P -> real): (rs: seq<Ranked<P>>)
    ensures |rs| == |partners|
    ensures SortedBy(rs, DistanceOf)
    ensures forall k :: 0 <= k < |rs| ==> rs[k].distance == d(rs[k].partner)
    ensures multiset(Strip(rs)) == multiset(partners)
  {
    Rank(partners, d)
  }

  /** The search from the device puts a nearest partner first. */
  lemma SearchNearbyNearestFirst<P>(partners: seq<P>, d: P -> real)
    requires |partners| > 0
    ensures forall i :: 0 <= i < |partners| ==> SearchNearby(partners, d)[0].distance <= d(partners[i])
  {
    RankFirstIsNearest(partners, d);
  }

  /** Partners the device finds equally far keep their loaded order. */
  lemma SearchNearbyStable<P>(partners: seq<P>, d: P -> real, v: real)
    ensures Filter(SearchNearby(partners, d), KeyIs(DistanceOf, v)) == Filter(Annotate(partners, d), KeyIs(DistanceOf, v))
  {
    RankStable(partners, d, v);
  }

  /**
    v2 `setReferencePoint`: rank every partner; when some filter is on, re-run
    `applyFilters` and rank its result instead.
   */
  function SetReferencePoint(partners: seq<V2Filters.Partner>, f: V2Filters.Filters, favoritesOnly: bool,
                             favorites: seq<string>, d: V2Filters.Partner -> real): (rs: seq<Ranked<V2Filters.Partner>>)
    ensures SortedBy(rs, DistanceOf)
    ensures forall k :: 0 <= k < |rs| ==> rs[k].distance == d(rs[k].partner)
    ensures multiset(Strip(rs)) == multiset(V2Filters.ApplyFilters(partners, f, favoritesOnly, favorites))
  {
    var all := Rank(partners, d);
    if V2Filters.AnyActive(f, favoritesOnly) then
      Rank(V2Filters.ApplyFilters(partners, f, favoritesOnly, favorites), d)
    else
      V2Filters.InactiveKeepsAll(partners, f, favoritesOnly, favorites);
      all
  }

  /** Either way, the result is the current filter result ranked by distance. */
  lemma SetReferencePointRanksFiltered(partners: seq<V2Filters.Partner>, f: V2Filters.Filters, favoritesOnly: bool,
                                       favorites: seq<string>, d: V2Filters.Partner -> real)
    ensures SetReferencePoint(partners, f, favoritesOnly, favorites, d)
            == Rank(V2Filters.ApplyFilters(partners, f, favoritesOnly, favorites), d)
  {
    if !V2Filters.AnyActive(f, favoritesOnly) {
      V2Filters.InactiveKeepsAll(partners, f, favoritesOnly, favorites);
    }
  }

  /**
    v2 `clearReferencePoint`: the distances are stripped from the ranked list, which
    `applyFilters` then replaces at once, so the list is the filter result in loaded order.
   */
  function ClearReferencePoint(partners: seq<V2Filters.Partner>, f: V2Filters.Filters, favoritesOnly: bool,
                               favorites: seq<string>): (ps: seq<V2Filters.Partner>)
    ensures Subsequence(ps, partners)
    ensures forall k :: 0 <= k < |ps| ==> V2Filters.Passes(f, favoritesOnly, favorites, ps[k])
    ensures forall i :: 0 <= i < |partners| && V2Filters.Passes(f, favoritesOnly, favorites, partners[i]) ==> partners[i] in ps
    ensures Embeds(KeptIndices(partners, V2Filters.PassesBy(f, favoritesOnly, favorites)), ps, partners)
  {
    V2Filters.ApplyFilters(partners, f, favoritesOnly, favorites)
  }

  /** Clearing the reference point lists the same partners that were ranked, back in loaded order. */
  lemma ClearAfterSet(partners: seq<V2Filters.Partner>, f: V2Filters.Filters, favoritesOnly: bool,
                      favorites: seq<string>, d: V2Filters.Partner -> real)
    ensures var ranked := SetReferencePoint(partners, f, favoritesOnly, favorites, d);
            && multiset(ClearReferencePoint(partners, f, favoritesOnly, favorites)) == multiset(Strip(ranked))
            && ClearReferencePoint(partners, f, favoritesOnly, favorites) == V2Filters.ApplyFilters(partners, f, favoritesOnly, favorites)
  {
  }
}
