/**
  The v2 widget's `loadPartnerData`: a non-empty cached list is used as it is;
  otherwise the fetched records that carry both coordinates become partners, with
  the category and a textual partner-type cell split on commas and trimmed.
  Unlike the Makeshop copy, no `status` test is applied.
 */
module V2Loading {
  import opened Wrappers
  import opened Text
  import opened Seqs
  import V2Filters

  /** The partner-type cell arrives either as text or already as a list. */
  datatype TypeCell = TypeText(text: string) | TypeList(items: seq<string>)

  /** A fetched record; an absent text cell is the empty string. */
  datatype Row = Row(id: string, lat: string, lng: string, name: string, category: string,
                     address: string, association: string, partnerType: TypeCell)

  /** `p.lat && p.lng`: both coordinate cells are present. */
  predicate HasCoordinates(row: Row) {
    row.lat != "" && row.lng != ""
  }

  /** The record built from a fetched row: the category and a textual partner-type cell become trimmed lists. */
  function ToPartner(row: Row): (p: V2Filters.Partner)
    ensures p.id == row.id && p.name == row.name && p.address == row.address && p.association == row.association
    ensures row.category == "" ==> p.category == []
    ensures forall k :: 0 <= k < |p.category| ==> ',' !in p.category[k]
    ensures row.partnerType.TypeList? ==> p.partnerType == row.partnerType.items
    ensures row.partnerType == TypeText("") ==> p.partnerType == []
    ensures row.partnerType.TypeText? ==> forall k :: 0 <= k < |p.partnerType| ==> ',' !in p.partnerType[k]
  {
    var types := match row.partnerType
      case TypeText(t) => CommaList(t)
      case TypeList(items) => items;
    V2Filters.Partner(row.id, row.name, CommaList(row.category), row.address, row.association, types)
  }

  /** The fetched rows with both coordinates, in fetched order, each converted. */
  function LoadRows(rows: seq<Row>): (ps: seq<V2Filters.Partner>)
    ensures |ps| == |KeptIndices(rows, HasCoordinates)|
    ensures forall k :: 0 <= k < |ps| ==> ps[k] == ToPartner(rows[KeptIndices(rows, HasCoordinates)[k]])
    ensures forall k :: 0 <= k < |ps| ==> HasCoordinates(rows[KeptIndices(rows, HasCoordinates)[k]])
  {
    var placed := Filter(rows, HasCoordinates);
    FilterEmbeds(rows, HasCoordinates);
    Map(placed, ToPartner)
  }

  /** Every row with both coordinates is loaded. */
  lemma LoadRowsKeepsPlaced(rows: seq<Row>, i: nat)
    requires i < |rows| && HasCoordinates(rows[i])
    ensures exists k :: 0 <= k < |LoadRows(rows)| && LoadRows(rows)[k] == ToPartner(rows[i])
  {
    var idx := KeptIndices(rows, HasCoordinates);
    assert i in idx;
    var k :| 0 <= k < |idx| && idx[k] == i;
    assert LoadRows(rows)[k] == ToPartner(rows[i]);
  }

  /** A placed row whose partner-type text lists clean names loads with exactly those types. */
  lemma LoadedPartnerTypes(rows: seq<Row>, i: nat, names: seq<string>)
    requires i < |rows| && HasCoordinates(rows[i])
    requires forall k :: 0 <= k < |names| ==> |names[k]| > 0 && ',' !in names[k]
    requires forall k :: 0 <= k < |names| ==> !IsSpace(names[k][0]) && !IsSpace(names[k][|names[k]| - 1])
    requires rows[i].partnerType == TypeText(Join(names, ","))
    ensures exists k :: 0 <= k < |LoadRows(rows)| && LoadRows(rows)[k].partnerType == names && LoadRows(rows)[k].id == rows[i].id
  {
    LoadRowsKeepsPlaced(rows, i);
    CommaListOfJoin(names);
  }

  /**
    `loadPartnerData()`: `cached` is what `getCache()` returned, `fetched` the record
    array of the response, or `None` when the fetch failed or gave no array.
   */
  function LoadPartnerData(cached: Option<seq<V2Filters.Partner>>, fetched: Option<seq<Row>>): (ps: seq<V2Filters.Partner>)
    ensures cached.Some? && |cached.value| > 0 ==> ps == cached.value
    ensures (cached.None? || cached.value == []) && fetched.None? ==> ps == []
    ensures (cached.None? || cached.value == []) && fetched.Some? ==> ps == LoadRows(fetched.value)
  {
    if cached.Some? && |cached.value| > 0 then cached.value
    else if fetched.None? then []
    else LoadRows(fetched.value)
  }

  /** An empty cached list counts as no cache: the data is fetched again. */
  lemma EmptyCacheIgnored(fetched: Option<seq<Row>>)
    ensures LoadPartnerData(Some([]), fetched) == LoadPartnerData(None, fetched)
  {
  }
}
