/**
  The v2 widget's `applyFilters`: one pass over the loaded partners keeping those that
  pass the category, region, association, partner-type, search and favourites checks.
  Loaded partners carry their category and partner types as lists already; the
  association is still a comma-separated cell.
 */
module V2Filters {
  import opened Text
  import opened Seqs
  import opened Regions

  /** A loaded partner; `id` is the string form `String(partner.id)` used by the favourites list. */
  datatype Partner = Partner(
    id: string, name: string, category: seq<string>, address: string,
    association: string, partnerType: seq<string>)

  /** `currentFilters`; `"all"` switches a drop-down off and an empty search is no search. */
  datatype Filters = Filters(category: string, region: string, association: string, partnerType: string, search: string)

  const All: string := "all"

  /** The lower-cased query occurs in the lower-cased name or the lower-cased address. */
  predicate SearchHit(query: string, p: Partner) {
    Includes(ToLower(p.name), ToLower(query)) || Includes(ToLower(p.address), ToLower(query))
  }

  /** Every check of `applyFilters` that is switched on holds. */
  predicate Passes(f: Filters, favoritesOnly: bool, favorites: seq<string>, p: Partner) {
    && (f.category == All || f.category in p.category)
    && (f.region == All || ProvinceRegion(p.address) == f.region)
    && (f.association == All || f.association in CommaList(p.association))
    && (f.partnerType == All || f.partnerType in p.partnerType)
    && (f.search == "" || SearchHit(f.search, p))
    && (favoritesOnly ==> p.id in favorites)
  }

  /** Some filter is on: the test `setReferencePoint` makes before re-filtering. */
  predicate AnyActive(f: Filters, favoritesOnly: bool) {
    f.category != All || f.region != All || f.association != All || f.partnerType != All || f.search != "" || favoritesOnly
  }

  /** `applyFilters()`: the partners that pass, in their loaded order, each occurrence kept once. */
  function ApplyFilters(partners: seq<Partner>, f: Filters, favoritesOnly: bool, favorites: seq<string>): (r: seq<Partner>)
    ensures Subsequence(r, partners)
    ensures forall k :: 0 <= k < |r| ==> Passes(f, favoritesOnly, favorites, r[k])
    ensures forall i :: 0 <= i < |partners| && Passes(f, favoritesOnly, favorites, partners[i]) ==> partners[i] in r
    ensures Embeds(KeptIndices(partners, PassesBy(f, favoritesOnly, favorites)), r, partners)
  {
    var pass := PassesBy(f, favoritesOnly, favorites);
    FilterSpec(partners, pass);
    FilterEmbeds(partners, pass);
    Filter(partners, pass)
  }

  /** `Passes` with the settings fixed, as the callback handed to `partners.filter`. */
  function PassesBy(f: Filters, favoritesOnly: bool, favorites: seq<string>): Partner -> bool {
    p => Passes(f, favoritesOnly, favorites, p)
  }

  /** A list whose every entry passes comes back unchanged. */
  lemma ApplyFiltersKeepsPassing(partners: seq<Partner>, f: Filters, favoritesOnly: bool, favorites: seq<string>)
    requires forall k :: 0 <= k < |partners| ==> Passes(f, favoritesOnly, favorites, partners[k])
    ensures ApplyFilters(partners, f, favoritesOnly, favorites) == partners
  {
    FilterKeepsAll(partners, PassesBy(f, favoritesOnly, favorites));
  }

  /** Re-applying the same filters to their own result changes nothing. */
  lemma ApplyFiltersIdempotent(partners: seq<Partner>, f: Filters, favoritesOnly: bool, favorites: seq<string>)
    ensures var once := ApplyFilters(partners, f, favoritesOnly, favorites);
            ApplyFilters(once, f, favoritesOnly, favorites) == once
  {
    ApplyFiltersKeepsPassing(ApplyFilters(partners, f, favoritesOnly, favorites), f, favoritesOnly, favorites);
  }

  /** When no filter is on, every partner is listed, in loaded order. */
  lemma InactiveKeepsAll(partners: seq<Partner>, f: Filters, favoritesOnly: bool, favorites: seq<string>)
    requires !AnyActive(f, favoritesOnly)
    ensures ApplyFilters(partners, f, favoritesOnly, favorites) == partners
  {
    ApplyFiltersKeepsPassing(partners, f, favoritesOnly, favorites);
  }

  /** An association cell written as comma-joined names matches exactly those names. */
  lemma AssociationMatch(p: Partner, names: seq<string>, f: Filters)
    requires forall k :: 0 <= k < |names| ==> |names[k]| > 0 && ',' !in names[k]
    requires forall k :: 0 <= k < |names| ==> !IsSpace(names[k][0]) && !IsSpace(names[k][|names[k]| - 1])
    requires p.association == Join(names, ",")
    requires f.association != All
    ensures (f.association in CommaList(p.association)) <==> f.association in names
  {
    CommaListOfJoin(names);
  }
}
