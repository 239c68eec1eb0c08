/**
  Shareable links. The archived widget writes its filters into the address with
  `setUrlParams` and reads them back at start-up with `getUrlParams`; the v2 widget
  does the same with `updateUrlParams` and `loadUrlParams` through the browser's
  `URLSearchParams`. Percent-encoding is a pair of parameters `enc` and `dec`: the
  model only asks that `dec` undoes `enc` and that encoded text holds no `&` or `=`,
  which `encodeURIComponent` and the form encoder both guarantee.
 */
module UrlParams {
  import opened Wrappers
  import opened Text
  import opened Seqs
  import ArchiveFilters
  import V2Filters

  /** A query parameter: name and value, before encoding or after decoding. */
  type Pair = (string, string)

  /** Encoded text never holds the two characters that delimit a query string. */
  ghost predicate QuerySafe(enc: string -> string) {
    forall x :: '&' !in enc(x) && '=' !in enc(x)
  }

  /** `dec` undoes `enc`, and decodes the empty text to the empty text. */
  ghost predicate Inverts(enc: string -> string, dec: string -> string) {
    dec("") == "" && forall x :: dec(enc(x)) == x
  }

  /** `encode(key) + '=' + encode(value)`. */
  function EncodePair(p: Pair, enc: string -> string): (s: string)
    ensures '=' in s
  {
    var s := enc(p.0) + "=" + enc(p.1);
    assert s[|enc(p.0)|] == '=';
    s
  }

  /** The pairs joined by `&`; also what `URLSearchParams.toString()` produces. */
  function QueryString(pairs: seq<Pair>, enc: string -> string): (q: string)
    ensures q == "" <==> |pairs| == 0
  {
    var encoded := Map(pairs, p => EncodePair(p, enc));
    if |pairs| > 0 then
      JoinStartsWith(encoded, "&");
      Join(encoded, "&")
    else
      Join(encoded, "&")
  }

  /**
    The address written back with `history.replaceState`: the path alone when no
    pair is written, otherwise the path, `?` and the query string. The archived code
    tests the number of pairs and v2 tests the query string itself; by
    `QueryString`'s contract the two tests agree.
   */
  function Url(path: string, pairs: seq<Pair>, enc: string -> string): (url: string)
    ensures StartsWith(url, path)
    ensures url == path <==> |pairs| == 0
    ensures |pairs| > 0 ==> url[|path|..] == "?" + QueryString(pairs, enc)
  {
    if |pairs| > 0 then path + "?" + QueryString(pairs, enc) else path
  }

  /** `location.search` of an address that starts with the path. */
  function SearchOf(url: string, path: string): (search: string)
    requires StartsWith(url, path)
    ensures |search| == |url| - |path|
  {
    url[|path|..]
  }

  /* ---------- archived widget ---------- */

  /** `getUrlParams`' treatment of one piece: `split('=')`, then the first two parts decoded, a missing value read as empty. */
  function ArchiveDecodePair(piece: string, dec: string -> string): Pair {
    var parts := SplitOn(piece, '=');
    (dec(parts[0]), dec(if |parts| > 1 then parts[1] else ""))
  }

  /** `getUrlParams`: drop the `?`, split on `&`, decode each piece; nothing at all for an empty query. */
  function ArchiveParse(search: string, dec: string -> string): (ps: seq<Pair>)
    ensures search == "" || search == "?" ==> ps == []
  {
    var body := if |search| > 0 then search[1..] else "";
    if body == "" then [] else Map(SplitOn(body, '&'), piece => ArchiveDecodePair(piece, dec))
  }

  /** `params[key]` after `getUrlParams`' loop: a later piece with the same key overwrites an earlier one. */
  function LastValue(ps: seq<Pair>, key: string): (v: Option<string>)
    ensures v.None? <==> forall i :: 0 <= i < |ps| ==> ps[i].0 != key
    ensures v.Some? ==> exists i :: 0 <= i < |ps| && ps[i] == (key, v.value) && forall j :: i < j < |ps| ==> ps[j].0 != key
  {
    if |ps| == 0 then None
    else if ps[|ps| - 1].0 == key then Some(ps[|ps| - 1].1)
    else LastValue(ps[..|ps| - 1], key)
  }

  /** `setUrlParams` writes a value only when it is non-empty and not `'all'`. */
  predicate Written(p: Pair) {
    p.1 != "" && p.1 != "all"
  }

  /** The object `applyFilters` hands to `setUrlParams`, in its key order. */
  function ArchiveFields(f: ArchiveFilters.Filters, query: string): seq<Pair> {
    [("region", f.region), ("category", f.category), ("association", f.association),
     ("partnerType", f.partnerType), ("search", query)]
  }

  /** The pairs `setUrlParams` writes: the fields with a value worth sharing, in key order. */
  function ArchivePairs(f: ArchiveFilters.Filters, query: string): (pairs: seq<Pair>)
    ensures Subsequence(pairs, ArchiveFields(f, query))
    ensures forall k :: 0 <= k < |pairs| ==> Written(pairs[k])
    ensures forall i :: 0 <= i < 5 && Written(ArchiveFields(f, query)[i]) ==> ArchiveFields(f, query)[i] in pairs
  {
    FilterSpec(ArchiveFields(f, query), Written);
    Filter(ArchiveFields(f, query), Written)
  }

  /** `setUrlParams(...)`: the address after `applyFilters`. */
  function ArchiveUrl(path: string, f: ArchiveFilters.Filters, query: string, enc: string -> string): (url: string)
    ensures StartsWith(url, path)
    ensures url == path <==> forall i :: 0 <= i < 5 ==> !Written(ArchiveFields(f, query)[i])
  {
    var pairs := ArchivePairs(f, query);
    if forall i :: 0 <= i < 5 ==> !Written(ArchiveFields(f, query)[i]) then
      FilterNone(ArchiveFields(f, query), Written);
      Url(path, pairs, enc)
    else
      Url(path, pairs, enc)
  }

  /** `urlParams.key && urlParams.key !== 'all'`: a drop-down is restored from a non-empty value other than `'all'`. */
  function RestoreFilter(ps: seq<Pair>, key: string, current: string): (v: string)
    ensures LastValue(ps, key).Some? && Written((key, LastValue(ps, key).value)) ==> v == LastValue(ps, key).value
    ensures !(LastValue(ps, key).Some? && Written((key, LastValue(ps, key).value))) ==> v == current
  {
    var got := LastValue(ps, key);
    if got.Some? && got.value != "" && got.value != "all" then got.value else current
  }

  /** The start-up half of `initializeApp`: each filter and the search restored from the address when present. */
  function ArchiveRestore(ps: seq<Pair>, f: ArchiveFilters.Filters, query: string): (r: (ArchiveFilters.Filters, string))
    ensures LastValue(ps, "search").Some? && LastValue(ps, "search").value != "" ==> r.1 == LastValue(ps, "search").value
    ensures !(LastValue(ps, "search").Some? && LastValue(ps, "search").value != "") ==> r.1 == query
  {
    var got := LastValue(ps, "search");
    (ArchiveFilters.Filters(
       RestoreFilter(ps, "region", f.region),
       RestoreFilter(ps, "category", f.category),
       RestoreFilter(ps, "association", f.association),
       RestoreFilter(ps, "partnerType", f.partnerType)),
     if got.Some? && got.value != "" then got.value else query)
  }

  /** An empty drop-down value cannot be shared: it is not written and reads back as `'all'`. */
  function Shareable(v: string): string {
    if v == "" then "all" else v
  }

  /** The state a fresh page reads from a shared archived address. A search for the literal text `all` is not written, so it reads back empty. */
  function ArchiveShared(f: ArchiveFilters.Filters, query: string): (ArchiveFilters.Filters, string) {
    (ArchiveFilters.Filters(Shareable(f.region), Shareable(f.category), Shareable(f.association), Shareable(f.partnerType)),
     if query == "all" then "" else query)
  }

  /* ---------- v2 widget ---------- */

  /** `URLSearchParams`' treatment of one piece: split at the first `=`, decode both sides, a missing value read as empty. */
  function FormDecodePair(piece: string, dec: string -> string): Pair {
    var parts := SplitOn(piece, '=');
    (dec(parts[0]), dec(Join(parts[1..], "=")))
  }

  /** `new URLSearchParams(location.search)`: drop a leading `?`, split on `&`, skip empty pieces, decode the rest. */
  function FormParse(search: string, dec: string -> string): seq<Pair> {
    var body := if |search| > 0 && search[0] == '?' then search[1..] else search;
    Map(Filter(SplitOn(body, '&'), NonEmpty), piece => FormDecodePair(piece, dec))
  }

  /** `params.get(key)`: the first pair with that key. */
  function FirstValue(ps: seq<Pair>, key: string): (v: Option<string>)
    ensures v.None? <==> forall i :: 0 <= i < |ps| ==> ps[i].0 != key
    ensures v.Some? ==> exists i :: 0 <= i < |ps| && ps[i] == (key, v.value) && forall j :: 0 <= j < i ==> ps[j].0 != key
  {
    if |ps| == 0 then None
    else if ps[0].0 == key then Some(ps[0].1)
    else
      FirstValue(ps[1..], key)
  }

  /** `updateUrlParams` sets a drop-down unless it is `'all'`, and the search when it is non-empty. */
  predicate V2Written(p: Pair) {
    if p.0 == "search" then p.1 != "" else p.1 != "all"
  }

  /** `currentFilters` in the order `updateUrlParams` sets them. */
  function V2Fields(f: V2Filters.Filters): seq<Pair> {
    [("category", f.category), ("region", f.region), ("association", f.association),
     ("partnerType", f.partnerType), ("search", f.search)]
  }

  function V2Pairs(f: V2Filters.Filters): (pairs: seq<Pair>)
    ensures Subsequence(pairs, V2Fields(f))
    ensures forall k :: 0 <= k < |pairs| ==> V2Written(pairs[k])
    ensures forall i :: 0 <= i < 5 && V2Written(V2Fields(f)[i]) ==> V2Fields(f)[i] in pairs
  {
    FilterSpec(V2Fields(f), V2Written);
    Filter(V2Fields(f), V2Written)
  }

  /** `updateUrlParams()`: the address after a filter change. */
  function V2Url(path: string, f: V2Filters.Filters, enc: string -> string): (url: string)
    ensures StartsWith(url, path)
    ensures url == path <==> !V2Filters.AnyActive(f, false)
  {
    var pairs := V2Pairs(f);
    if !V2Filters.AnyActive(f, false) then
      FilterNone(V2Fields(f), V2Written);
      Url(path, pairs, enc)
    else
      var fields := V2Fields(f);
      assert V2Written(fields[0]) || V2Written(fields[1]) || V2Written(fields[2]) || V2Written(fields[3]) || V2Written(fields[4]);
      Url(path, pairs, enc)
  }

  /** `if (params.get(key))`: a value is restored when it is non-empty. */
  function RestoreV2(ps: seq<Pair>, key: string, current: string): (v: string)
    ensures FirstValue(ps, key).Some? && FirstValue(ps, key).value != "" ==> v == FirstValue(ps, key).value
    ensures !(FirstValue(ps, key).Some? && FirstValue(ps, key).value != "") ==> v == current
  {
    var got := FirstValue(ps, key);
    if got.Some? && got.value != "" then got.value else current
  }

  /** `loadUrlParams()`: every filter and the search restored from the address when present and non-empty. */
  function V2Restore(ps: seq<Pair>, f: V2Filters.Filters): (r: V2Filters.Filters)
    ensures FirstValue(ps, "search").Some? && FirstValue(ps, "search").value != "" ==> r.search == FirstValue(ps, "search").value
  {
    V2Filters.Filters(
      RestoreV2(ps, "category", f.category),
      RestoreV2(ps, "region", f.region),
      RestoreV2(ps, "association", f.association),
      RestoreV2(ps, "partnerType", f.partnerType),
      RestoreV2(ps, "search", f.search))
  }

  /** The state a fresh page reads from a shared v2 address: an empty drop-down is written as `key=` and reads back as `'all'`. */
  function V2Shared(f: V2Filters.Filters): V2Filters.Filters {
    V2Filters.Filters(Shareable(f.category), Shareable(f.region), Shareable(f.association), Shareable(f.partnerType), f.search)
  }

  /* ---------- round trips ---------- */

  /** Encoding a pair and splitting it on `=` gives the two encoded halves. */
  lemma SplitEncoded(p: Pair, enc: string -> string)
    requires QuerySafe(enc)
    ensures SplitOn(EncodePair(p, enc), '=') == [enc(p.0), enc(p.1)]
  {
    var parts := [enc(p.0), enc(p.1)];
    assert Join(parts, "=") == EncodePair(p, enc);
    SplitOnOfJoin(parts, '=');
  }

  /** The encoded pairs, split back out of the query string. */
  lemma SplitQuery(pairs: seq<Pair>, enc: string -> string)
    requires QuerySafe(enc) && |pairs| > 0
    ensures SplitOn(QueryString(pairs, enc), '&') == Map(pairs, p => EncodePair(p, enc))
  {
    var encoded := Map(pairs, p => EncodePair(p, enc));
    forall k | 0 <= k < |encoded| ensures '&' !in encoded[k] {
      var p := pairs[k];
      assert encoded[k] == enc(p.0) + "=" + enc(p.1);
      assert '&' !in enc(p.0) && '&' !in enc(p.1);
    }
    SplitOnOfJoin(encoded, '&');
  }

  /** `getUrlParams` reads back exactly the pairs that were written. */
  lemma ArchiveParseOfUrl(path: string, pairs: seq<Pair>, enc: string -> string, dec: string -> string)
    requires QuerySafe(enc) && Inverts(enc, dec)
    ensures ArchiveParse(SearchOf(Url(path, pairs, enc), path), dec) == pairs
  {
    var search := SearchOf(Url(path, pairs, enc), path);
    if |pairs| > 0 {
      assert search == "?" + QueryString(pairs, enc);
      assert search[1..] == QueryString(pairs, enc);
      SplitQuery(pairs, enc);
      var r := ArchiveParse(search, dec);
      assert |r| == |pairs|;
      forall k | 0 <= k < |pairs| ensures r[k] == pairs[k] {
        SplitEncoded(pairs[k], enc);
      }
    }
  }

  /** One written pair, read back by `URLSearchParams`. */
  lemma FormDecodeEncoded(p: Pair, enc: string -> string, dec: string -> string)
    requires QuerySafe(enc) && Inverts(enc, dec)
    ensures FormDecodePair(EncodePair(p, enc), dec) == p
  {
    SplitEncoded(p, enc);
    assert [enc(p.0), enc(p.1)][1..] == [enc(p.1)];
  }

  /** The non-empty pieces of a written query string are the encoded pairs. */
  lemma FormPieces(pairs: seq<Pair>, enc: string -> string)
    requires QuerySafe(enc) && |pairs| > 0
    ensures Filter(SplitOn(QueryString(pairs, enc), '&'), NonEmpty) == Map(pairs, p => EncodePair(p, enc))
  {
    SplitQuery(pairs, enc);
    FilterKeepsAll(Map(pairs, p => EncodePair(p, enc)), NonEmpty);
  }

  /** `URLSearchParams` reads back exactly the pairs that were written. */
  lemma FormParseOfUrl(path: string, pairs: seq<Pair>, enc: string -> string, dec: string -> string)
    requires QuerySafe(enc) && Inverts(enc, dec)
    ensures FormParse(SearchOf(Url(path, pairs, enc), path), dec) == pairs
  {
    var search := SearchOf(Url(path, pairs, enc), path);
    if |pairs| > 0 {
      var encoded := Map(pairs, p => EncodePair(p, enc));
      assert search[1..] == QueryString(pairs, enc) by {
        assert search == "?" + QueryString(pairs, enc);
      }
      FormPieces(pairs, enc);
      var r := FormParse(search, dec);
      assert |r| == |pairs|;
      forall k | 0 <= k < |pairs| ensures r[k] == pairs[k] {
        assert r[k] == FormDecodePair(encoded[k], dec);
        FormDecodeEncoded(pairs[k], enc, dec);
      }
    } else {
      assert search == "";
      FormParseOfEmpty(dec);
    }
  }

  /** An empty query string holds no pairs. */
  lemma FormParseOfEmpty(dec: string -> string)
    ensures FormParse("", dec) == []
  {
    assert SplitOn("", '&') == [""] by {
      assert Join([""], "&") == "";
      SplitOnOfJoin([""], '&');
    }
    FilterNone([""], NonEmpty);
  }

  /** Among filtered fields with distinct keys, the last pair for a key is its field when that field is written. */
  lemma LastOfFiltered(fields: seq<Pair>, keep: Pair -> bool, i: nat)
    requires i < |fields|
    requires forall j :: 0 <= j < |fields| && j != i ==> fields[j].0 != fields[i].0
    ensures LastValue(Filter(fields, keep), fields[i].0) == if keep(fields[i]) then Some(fields[i].1) else None
  {
    var ps := Filter(fields, keep);
    var key := fields[i].0;
    if keep(fields[i]) {
      FilterMembership(fields, keep, fields[i]);
      var m :| 0 <= m < |ps| && ps[m] == fields[i];
      assert ps[m].0 == key;
      var v := LastValue(ps, key);
      var n :| 0 <= n < |ps| && ps[n] == (key, v.value) && forall j :: n < j < |ps| ==> ps[j].0 != key;
      FilterMembership(fields, keep, ps[n]);
      var j :| 0 <= j < |fields| && fields[j] == ps[n];
      assert j == i;
    } else {
      forall m | 0 <= m < |ps| ensures ps[m].0 != key {
        FilterMembership(fields, keep, ps[m]);
        var j :| 0 <= j < |fields| && fields[j] == ps[m];
        assert fields[j] != fields[i];
      }
    }
  }

  /** The same for the first pair with a key. */
  lemma FirstOfFiltered(fields: seq<Pair>, keep: Pair -> bool, i: nat)
    requires i < |fields|
    requires forall j :: 0 <= j < |fields| && j != i ==> fields[j].0 != fields[i].0
    ensures FirstValue(Filter(fields, keep), fields[i].0) == if keep(fields[i]) then Some(fields[i].1) else None
  {
    var ps := Filter(fields, keep);
    var key := fields[i].0;
    if keep(fields[i]) {
      FilterMembership(fields, keep, fields[i]);
      var m :| 0 <= m < |ps| && ps[m] == fields[i];
      assert ps[m].0 == key;
      var v := FirstValue(ps, key);
      var n :| 0 <= n < |ps| && ps[n] == (key, v.value) && forall j :: 0 <= j < n ==> ps[j].0 != key;
      FilterMembership(fields, keep, ps[n]);
      var j :| 0 <= j < |fields| && fields[j] == ps[n];
      assert j == i;
    } else {
      forall m | 0 <= m < |ps| ensures ps[m].0 != key {
        FilterMembership(fields, keep, ps[m]);
        var j :| 0 <= j < |fields| && fields[j] == ps[m];
        assert fields[j] != fields[i];
      }
    }
  }

  /** One drop-down of a shared archived address, read back on a fresh page. */
  lemma ArchiveFieldRoundTrip(f: ArchiveFilters.Filters, query: string, i: nat)
    requires i < 4
    ensures var field := ArchiveFields(f, query)[i];
            RestoreFilter(ArchivePairs(f, query), field.0, "all") == Shareable(field.1)
  {
    var fields := ArchiveFields(f, query);
    assert forall j :: 0 <= j < 5 && j != i ==> fields[j].0 != fields[i].0;
    LastOfFiltered(fields, Written, i);
  }

  /** The search of a shared archived address, read back on a fresh page. */
  lemma ArchiveSearchRoundTrip(f: ArchiveFilters.Filters, query: string)
    ensures LastValue(ArchivePairs(f, query), "search") == if Written(("search", query)) then Some(query) else None
  {
    var fields := ArchiveFields(f, query);
    assert forall j :: 0 <= j < 4 ==> fields[j].0 != fields[4].0;
    LastOfFiltered(fields, Written, 4);
  }

  /**
    A shared archived address, opened on a fresh page (every filter `'all'`, no
    search), restores the filters and search it was written from, up to what
    cannot be shared.
   */
  lemma ArchiveRoundTrip(path: string, f: ArchiveFilters.Filters, query: string, enc: string -> string, dec: string -> string)
    requires QuerySafe(enc) && Inverts(enc, dec)
    ensures var url := ArchiveUrl(path, f, query, enc);
            ArchiveRestore(ArchiveParse(SearchOf(url, path), dec), ArchiveFilters.Filters("all", "all", "all", "all"), "")
            == ArchiveShared(f, query)
  {
    ArchiveUrlParses(path, f, query, enc, dec);
    ArchiveRestoreFresh(f, query);
  }

  /** The address written for the archived filters parses back to the pairs written. */
  lemma ArchiveUrlParses(path: string, f: ArchiveFilters.Filters, query: string, enc: string -> string, dec: string -> string)
    requires QuerySafe(enc) && Inverts(enc, dec)
    ensures ArchiveParse(SearchOf(ArchiveUrl(path, f, query, enc), path), dec) == ArchivePairs(f, query)
  {
    var pairs := ArchivePairs(f, query);
    assert ArchiveUrl(path, f, query, enc) == Url(path, pairs, enc);
    ArchiveParseOfUrl(path, pairs, enc, dec);
  }

  /** The pairs written for the archived filters, read on a fresh page, give the shareable state. */
  lemma ArchiveRestoreFresh(f: ArchiveFilters.Filters, query: string)
    ensures ArchiveRestore(ArchivePairs(f, query), ArchiveFilters.Filters("all", "all", "all", "all"), "") == ArchiveShared(f, query)
  {
    ArchiveFieldRoundTrip(f, query, 0);
    ArchiveFieldRoundTrip(f, query, 1);
    ArchiveFieldRoundTrip(f, query, 2);
    ArchiveFieldRoundTrip(f, query, 3);
    ArchiveSearchRoundTrip(f, query);
  }

  /** One filter of a shared v2 address, read back on a fresh page. */
  lemma V2FieldRoundTrip(f: V2Filters.Filters, i: nat, start: string)
    requires i < 5
    requires start == if i == 4 then "" else "all"
    ensures var field := V2Fields(f)[i];
            RestoreV2(V2Pairs(f), field.0, start) == if i == 4 then field.1 else Shareable(field.1)
  {
    var fields := V2Fields(f);
    assert forall j :: 0 <= j < 5 && j != i ==> fields[j].0 != fields[i].0;
    FirstOfFiltered(fields, V2Written, i);
  }

  /** A shared v2 address, opened on a fresh page, restores the filters it was written from, up to what cannot be shared. */
  lemma V2RoundTrip(path: string, f: V2Filters.Filters, enc: string -> string, dec: string -> string)
    requires QuerySafe(enc) && Inverts(enc, dec)
    ensures V2Restore(FormParse(SearchOf(V2Url(path, f, enc), path), dec), V2Filters.Filters("all", "all", "all", "all", ""))
            == V2Shared(f)
  {
    V2UrlParses(path, f, enc, dec);
    V2RestoreFresh(f);
  }

  /** The address written for the v2 filters parses back to the pairs written. */
  lemma V2UrlParses(path: string, f: V2Filters.Filters, enc: string -> string, dec: string -> string)
    requires QuerySafe(enc) && Inverts(enc, dec)
    ensures FormParse(SearchOf(V2Url(path, f, enc), path), dec) == V2Pairs(f)
  {
    var pairs := V2Pairs(f);
    assert V2Url(path, f, enc) == Url(path, pairs, enc);
    FormParseOfUrl(path, pairs, enc, dec);
  }

  /** The pairs written for the v2 filters, read on a fresh page, give the shareable state. */
  lemma V2RestoreFresh(f: V2Filters.Filters)
    ensures V2Restore(V2Pairs(f), V2Filters.Filters("all", "all", "all", "all", "")) == V2Shared(f)
  {
    V2FieldRoundTrip(f, 0, "all");
    V2FieldRoundTrip(f, 1, "all");
    V2FieldRoundTrip(f, 2, "all");
    V2FieldRoundTrip(f, 3, "all");
    V2FieldRoundTrip(f, 4, "");
  }

  /** The archived address loses a search for the literal text `all`; the v2 address keeps it. */
  lemma SearchForAll(path: string, enc: string -> string, dec: string -> string)
    requires QuerySafe(enc) && Inverts(enc, dec)
    ensures ArchiveUrl(path, ArchiveFilters.Filters("all", "all", "all", "all"), "all", enc) == path
    ensures V2Restore(FormParse(SearchOf(V2Url(path, V2Filters.Filters("all", "all", "all", "all", "all"), enc), path), dec),
                      V2Filters.Filters("all", "all", "all", "all", "")).search == "all"
  {
    var f := ArchiveFilters.Filters("all", "all", "all", "all");
    var fields := ArchiveFields(f, "all");
    assert forall i :: 0 <= i < 5 ==> !Written(fields[i]);
    var g := V2Filters.Filters("all", "all", "all", "all", "all");
    V2RoundTrip(path, g, enc, dec);
    assert V2Shared(g).search == "all";
  }
}
