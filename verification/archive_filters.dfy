/**
  The archived widget's list pipeline: `splitData` for the multi-valued sheet cells,
  `applyFilters` (search, region, category, association, partner type, then the
  favourites button) and `sortPartners`. Sheet cells arrive as raw text; a missing
  cell is the empty string, which is how the code's `|| ''` and falsy checks treat it.
 */
module ArchiveFilters {
  import opened Wrappers
  import opened Text
  import opened Seqs
  import opened Regions

  /** The separators of `splitData`'s `/[,|\n]+/`. */
  predicate IsDataSep(c: char) {
    c == ',' || c == '|' || c == '\n'
  }

  /** A clean list entry: non-empty, no whitespace at either end, no separator inside. */
  predicate CleanItem(s: string) {
    && |s| > 0
    && !IsSpace(s[0]) && !IsSpace(s[|s| - 1])
    && forall i :: 0 <= i < |s| ==> !IsDataSep(s[i])
  }

  /** `splitData(text)`: blank text gives no items; otherwise split, trim, drop empties. */
  function SplitData(text: string): (items: seq<string>)
    ensures forall k :: 0 <= k < |items| ==> CleanItem(items[k])
  {
    if Trim(text) == [] then []
    else
      var pieces := SplitRuns(text, IsDataSep);
      TrimmedPiecesClean(pieces);
      Filter(Map(pieces, Trim), NonEmpty)
  }

  lemma TrimmedPiecesClean(pieces: seq<string>)
    requires forall k, i :: 0 <= k < |pieces| && 0 <= i < |pieces[k]| ==> !IsDataSep(pieces[k][i])
    ensures forall k :: 0 <= k < |Filter(Map(pieces, Trim), NonEmpty)| ==> CleanItem(Filter(Map(pieces, Trim), NonEmpty)[k])
  {
    var trimmed := Map(pieces, Trim);
    var r := Filter(trimmed, NonEmpty);
    FilterEmbeds(trimmed, NonEmpty);
    var idx := KeptIndices(trimmed, NonEmpty);
    forall k | 0 <= k < |r| ensures CleanItem(r[k]) {
      var piece := pieces[idx[k]];
      assert r[k] == Trim(piece);
      TrimKeeps(piece, c => !IsDataSep(c));
    }
  }

  /** Clean items written out with commas are read back unchanged. */
  lemma SplitDataOfJoin(items: seq<string>)
    requires forall k :: 0 <= k < |items| ==> CleanItem(items[k])
    ensures SplitData(Join(items, ",")) == items
  {
    var text := Join(items, ",");
    if |items| == 0 {
      assert text == "";
    } else {
      JoinStartsWith(items, ",");
      assert text[0] == items[0][0];
      TrimEmptyIffAllSpace(text);
      assert Trim(text) != [];
      SplitRunsOfJoin(items, ',', IsDataSep);
      assert SplitRuns(text, IsDataSep) == items;
      MapTrimClean(items);
      FilterKeepsAll(items, NonEmpty);
      assert SplitData(text) == Filter(Map(items, Trim), NonEmpty);
    }
  }

  lemma MapTrimClean(items: seq<string>)
    requires forall k :: 0 <= k < |items| ==> CleanItem(items[k])
    ensures Map(items, Trim) == items
  {
    var trimmed := Map(items, Trim);
    forall k | 0 <= k < |items| ensures trimmed[k] == items[k] {
      TrimOfTrimmed(items[k]);
    }
  }

  /**
    A sheet row. `partnerType` is `None` unless the cell holds an array, which is the
    only shape the partner-type filter accepts.
   */
  datatype Partner = Partner(
    name: string, category: string, address: string, detailAddress: string,
    description: string, association: string, partnerType: Option<seq<string>>)

  /** The four drop-down filters; `"all"` switches a filter off. */
  datatype Filters = Filters(region: string, category: string, association: string, partnerType: string)

  const All: string := "all"

  /** The lower-cased query occurs in the lower-cased name, category, address, detail and description, joined by spaces. */
  predicate SearchHit(query: string, p: Partner) {
    Includes(ToLower(Join([p.name, p.category, p.address, p.detailAddress, p.description], " ")), ToLower(query))
  }

  /** Some listed type, non-empty and trimmed, equals the wanted one. */
  predicate TypeHit(types: Option<seq<string>>, want: string) {
    && types.Some?
    && |types.value| > 0
    && exists k :: 0 <= k < |types.value| && types.value[k] != "" && Trim(types.value[k]) == want
  }

  /** The first pass of `applyFilters`: every filter that is switched on holds. */
  predicate Passes(f: Filters, query: string, p: Partner) {
    && (query == "" || SearchHit(query, p))
    && (f.region == All || ArchiveRegion(p.address) == f.region)
    && (f.category == All || f.category in SplitData(p.category))
    && (f.association == All || f.association in SplitData(p.association))
    && (f.partnerType == All || TypeHit(p.partnerType, f.partnerType))
  }

  /** `isFavorite(partner.name)`: the name is in the favourites list. */
  predicate Favored(favorites: seq<string>, p: Partner) {
    p.name in favorites
  }

  /** Kept by the whole of `applyFilters`: the filters, and the favourites button when it is on. */
  predicate Selected(f: Filters, query: string, favoritesOnly: bool, favorites: seq<string>, p: Partner) {
    Passes(f, query, p) && (favoritesOnly ==> Favored(favorites, p))
  }

  /** `Selected` with the settings fixed, as the test handed to `filter`. */
  function SelectedBy(f: Filters, query: string, favoritesOnly: bool, favorites: seq<string>): Partner -> bool {
    p => Selected(f, query, favoritesOnly, favorites, p)
  }

  /**
    `applyFilters()` up to the sort: the filter pass, then the favourites pass when
    the button is on. The result is read off the partners at exactly the selected
    positions, so each selected record appears once per occurrence, in order.
   */
  function ApplyFilters(partners: seq<Partner>, f: Filters, query: string, favoritesOnly: bool, favorites: seq<string>): (r: seq<Partner>)
    ensures Subsequence(r, partners)
    ensures forall k :: 0 <= k < |r| ==> Selected(f, query, favoritesOnly, favorites, r[k])
    ensures forall i :: 0 <= i < |partners| && Selected(f, query, favoritesOnly, favorites, partners[i]) ==> partners[i] in r
    ensures Embeds(KeptIndices(partners, SelectedBy(f, query, favoritesOnly, favorites)), r, partners)
  {
    var pass := (p: Partner) => Passes(f, query, p);
    var fav := (p: Partner) => Favored(favorites, p);
    var sel := SelectedBy(f, query, favoritesOnly, favorites);
    FilterSpec(partners, sel);
    FilterEmbeds(partners, sel);
    if favoritesOnly then
      FilterFilter(partners, pass, fav, sel);
      Filter(Filter(partners, pass), fav)
    else
      Filter(partners, sel)
  }

  /** A list whose every entry is selected passes through unchanged. */
  lemma ApplyFiltersKeepsSelected(partners: seq<Partner>, f: Filters, query: string, favoritesOnly: bool, favorites: seq<string>)
    requires forall k :: 0 <= k < |partners| ==> Selected(f, query, favoritesOnly, favorites, partners[k])
    ensures ApplyFilters(partners, f, query, favoritesOnly, favorites) == partners
  {
    var pass := (p: Partner) => Passes(f, query, p);
    var fav := (p: Partner) => Favored(favorites, p);
    if favoritesOnly {
      FilterKeepsAll(partners, pass);
      FilterKeepsAll(partners, fav);
    } else {
      FilterKeepsAll(partners, SelectedBy(f, query, favoritesOnly, favorites));
    }
  }

  /** Re-applying the same filters to their own result changes nothing. */
  lemma ApplyFiltersIdempotent(partners: seq<Partner>, f: Filters, query: string, favoritesOnly: bool, favorites: seq<string>)
    ensures var once := ApplyFilters(partners, f, query, favoritesOnly, favorites);
            ApplyFilters(once, f, query, favoritesOnly, favorites) == once
  {
    ApplyFiltersKeepsSelected(ApplyFilters(partners, f, query, favoritesOnly, favorites), f, query, favoritesOnly, favorites);
  }

  /** With every filter off, no query and the favourites button off, every partner is listed. */
  lemma NoFiltersKeepsAll(partners: seq<Partner>, favorites: seq<string>)
    ensures ApplyFilters(partners, Filters(All, All, All, All), "", false, favorites) == partners
  {
    ApplyFiltersKeepsSelected(partners, Filters(All, All, All, All), "", false, favorites);
  }

  /**
    `applyFilters` followed by `sortPartners`: the selected partners in non-decreasing
    order of `rank` — the distance from the user when a location is known, otherwise
    a rank standing for the locale order of names — with ties in list order.
   */
  function Listing(partners: seq<Partner>, f: Filters, query: string, favoritesOnly: bool, favorites: seq<string>, rank: Partner -> real): (r: seq<Partner>)
    ensures SortedBy(r, rank)
    ensures multiset(r) == multiset(ApplyFilters(partners, f, query, favoritesOnly, favorites))
    ensures forall k :: 0 <= k < |r| ==> Selected(f, query, favoritesOnly, favorites, r[k])
  {
    var kept := ApplyFilters(partners, f, query, favoritesOnly, favorites);
    SortBySpec(kept, rank);
    PermutationKeeps(SortBy(kept, rank), kept, SelectedBy(f, query, favoritesOnly, favorites));
    SortBy(kept, rank)
  }
}
