/**
  `extractRegion`: the region label a partner's address is filed under. The archived
  widget first takes a leading administrative unit ending in 시 or 도, then falls back
  to eight metropolitan city names; v2 and the Makeshop copy only look for one of
  seventeen province names at the start of the address.
 */
module Regions {
  import opened Wrappers
  import opened Text

  /** The label for addresses no rule recognises. */
  const Other: string := "기타"

  /** The metropolitan names of the archived widget's fallback pattern, in pattern order. */
  const Cities: seq<string> := ["서울", "부산", "대구", "인천", "광주", "대전", "울산", "세종"]

  /** The seventeen names of the v2 pattern, in pattern order. */
  const Provinces: seq<string> := Cities + ["경기", "강원", "충북", "충남", "전북", "전남", "경북", "경남", "제주"]

  /** `^(a|b|...)`: the first alternative, in order, that begins `s`. */
  function LeadingAlternative(s: string, alts: seq<string>): (r: Option<string>)
    ensures r.Some? ==> r.value in alts && StartsWith(s, r.value)
    ensures r.None? <==> forall k :: 0 <= k < |alts| ==> !StartsWith(s, alts[k])
    ensures r.Some? ==> exists k :: 0 <= k < |alts| && alts[k] == r.value && forall j :: 0 <= j < k ==> !StartsWith(s, alts[j])
  {
    if |alts| == 0 then None
    else if StartsWith(s, alts[0]) then Some(alts[0])
    else
      var r := LeadingAlternative(s, alts[1..]);
      if r.Some? then
        var k :| 0 <= k < |alts[1..]| && alts[1..][k] == r.value && forall j :: 0 <= j < k ==> !StartsWith(s, alts[1..][j]);
        assert alts[k + 1] == r.value;
        r
      else r
  }

  /** v2 and Makeshop `extractRegion`: the leading province name, else `'기타'`. */
  function ProvinceRegion(address: string): (r: string)
    ensures r == Other <==> forall k :: 0 <= k < |Provinces| ==> !StartsWith(address, Provinces[k])
    ensures r != Other ==> r in Provinces && StartsWith(address, r)
  {
    var m := LeadingAlternative(address, Provinces);
    if m.Some? then m.value else Other
  }

  /** An address that starts with a province name is filed under exactly that name. */
  lemma ProvinceRegionOfPrefixed(p: string, rest: string)
    requires p in Provinces
    ensures ProvinceRegion(p + rest) == p
  {
    var s := p + rest;
    assert StartsWith(s, p);
    var r := ProvinceRegion(s);
    assert r != Other;
    assert |r| == 2 && |p| == 2;
    assert r == s[..2] == p;
  }

  /** The characters the archived pattern's `[^시도군구]` excludes. */
  predicate IsUnitChar(c: char) {
    c == '시' || c == '도' || c == '군' || c == '구'
  }

  /**
    `^([^시도군구]+[시도])` matches with `address[..k + 1]`: a non-empty run free of
    시, 도, 군 and 구, then 시 or 도.
   */
  predicate LeadingUnitAt(address: string, k: int) {
    && 1 <= k < |address|
    && (forall i :: 0 <= i < k ==> !IsUnitChar(address[i]))
    && (address[k] == '시' || address[k] == '도')
  }

  /** The archived widget's `extractRegion`. */
  function ArchiveRegion(address: string): (r: string)
    ensures forall k :: LeadingUnitAt(address, k) ==> r == address[..k + 1]
    ensures (forall k :: !LeadingUnitAt(address, k)) ==>
              && (r == Other <==> forall j :: 0 <= j < |Cities| ==> !StartsWith(address, Cities[j]))
              && (r != Other ==> r in Cities && StartsWith(address, r))
  {
    if address == "" then Other
    else
      var k := PrefixWhile(address, c => !IsUnitChar(c));
      if 1 <= k < |address| && (address[k] == '시' || address[k] == '도') then
        assert LeadingUnitAt(address, k);
        address[..k + 1]
      else
        assert forall j :: !LeadingUnitAt(address, j);
        var m := LeadingAlternative(address, Cities);
        if m.Some? then m.value else Other
  }

  /** An address led by a unit name such as `서울특별시` or `경기도` is filed under that name. */
  lemma ArchiveRegionOfUnit(name: string, unit: char, rest: string)
    requires |name| > 0 && forall i :: 0 <= i < |name| ==> !IsUnitChar(name[i])
    requires unit == '시' || unit == '도'
    ensures ArchiveRegion(name + [unit] + rest) == name + [unit]
  {
    var s := name + [unit] + rest;
    assert LeadingUnitAt(s, |name|);
    assert s[..|name| + 1] == name + [unit];
  }
}
