/**
  The Makeshop copy of the partner map: `loadPartnerData` turns the sheet's rows into
  partners, and its `applyFilters` keeps the partners passing the category, region and
  search checks. Coordinates stay as the sheet's text: only their presence matters
  here, and `parseFloat` is not part of this model.
 */
module MakeshopPartners {
  import opened Text
  import opened Seqs
  import opened Regions

  /** A sheet row as fetched; an absent cell is the empty string. */
  datatype Row = Row(id: string, status: string, lat: string, lng: string, name: string, category: string, address: string, partnerType: string)

  datatype Partner = Partner(id: string, name: string, category: seq<string>, address: string, lat: string, lng: string, partnerType: string)

  /** `p.status === 'active' && p.lat && p.lng`. */
  predicate Usable(row: Row) {
    row.status == "active" && row.lat != "" && row.lng != ""
  }

  /** The record `loadPartnerData` builds from a row: the category cell becomes a trimmed list. */
  function ToPartner(row: Row): (p: Partner)
    ensures p.id == row.id && p.name == row.name && p.address == row.address
    ensures row.category == "" ==> p.category == []
    ensures forall k :: 0 <= k < |p.category| ==> ',' !in p.category[k]
  {
    Partner(row.id, row.name, CommaList(row.category), row.address, row.lat, row.lng, row.partnerType)
  }

  /** `loadPartnerData` after the fetch: the usable rows, in sheet order, each converted. */
  function LoadPartners(rows: seq<Row>): (ps: seq<Partner>)
    ensures |ps| == |KeptIndices(rows, Usable)|
    ensures forall k :: 0 <= k < |ps| ==> ps[k] == ToPartner(rows[KeptIndices(rows, Usable)[k]])
    ensures forall k :: 0 <= k < |ps| ==> Usable(rows[KeptIndices(rows, Usable)[k]])
  {
    var usable := Filter(rows, Usable);
    FilterEmbeds(rows, Usable);
    Map(usable, ToPartner)
  }

  /** A usable row whose category cell lists clean names loads with exactly those categories. */
  lemma LoadedCategories(rows: seq<Row>, i: nat, names: seq<string>)
    requires i < |rows| && Usable(rows[i])
    requires forall k :: 0 <= k < |names| ==> |names[k]| > 0 && ',' !in names[k]
    requires forall k :: 0 <= k < |names| ==> !IsSpace(names[k][0]) && !IsSpace(names[k][|names[k]| - 1])
    requires rows[i].category == Join(names, ",")
    ensures exists k :: 0 <= k < |LoadPartners(rows)| && LoadPartners(rows)[k].category == names && LoadPartners(rows)[k].id == rows[i].id
  {
    var idx := KeptIndices(rows, Usable);
    assert i in idx;
    var k :| 0 <= k < |idx| && idx[k] == i;
    CommaListOfJoin(names);
    assert LoadPartners(rows)[k] == ToPartner(rows[i]);
  }

  datatype Filters = Filters(category: string, region: string, search: string)

  const All: string := "all"

  predicate SearchHit(query: string, p: Partner) {
    Includes(ToLower(p.name), ToLower(query)) || Includes(ToLower(p.address), ToLower(query))
  }

  /** Every check of this copy's `applyFilters` that is switched on holds. */
  predicate Passes(f: Filters, p: Partner) {
    && (f.category == All || f.category in p.category)
    && (f.region == All || ProvinceRegion(p.address) == f.region)
    && (f.search == "" || SearchHit(f.search, p))
  }

  /** This copy's `applyFilters()`: the partners that pass, in their loaded order, each occurrence kept once. */
  function ApplyFilters(partners: seq<Partner>, f: Filters): (r: seq<Partner>)
    ensures Subsequence(r, partners)
    ensures forall k :: 0 <= k < |r| ==> Passes(f, r[k])
    ensures forall i :: 0 <= i < |partners| && Passes(f, partners[i]) ==> partners[i] in r
    ensures Embeds(KeptIndices(partners, PassesBy(f)), r, partners)
  {
    var pass := PassesBy(f);
    FilterSpec(partners, pass);
    FilterEmbeds(partners, pass);
    Filter(partners, pass)
  }

  /** `Passes` with the filters fixed, as the callback handed to `partners.filter`. */
  function PassesBy(f: Filters): Partner -> bool {
    p => Passes(f, p)
  }

  /** `'all'` everywhere and an empty search keep every partner, in order. */
  lemma NoFiltersKeepsAll(partners: seq<Partner>)
    ensures ApplyFilters(partners, Filters(All, All, "")) == partners
  {
    FilterKeepsAll(partners, PassesBy(Filters(All, All, "")));
  }

  /** Re-applying the same filters to their own result changes nothing. */
  lemma ApplyFiltersIdempotent(partners: seq<Partner>, f: Filters)
    ensures ApplyFilters(ApplyFilters(partners, f), f) == ApplyFilters(partners, f)
  {
    FilterKeepsAll(ApplyFilters(partners, f), (p: Partner) => Passes(f, p));
  }
}
