# Partner map and YouTube product matcher — a Dafny model

This project models the decision logic of a partner-map widget and of a YouTube product block. It covers three copies of the map:
- the archived widget (`_archive/partnermap/script.js`);
- the v2 widget (`partnermap-v2/js/main.js`);
- its Makeshop test copy (`_archive/partnermap-tests/partnermap-v2/main-for-makeshop.js`).

It also covers the two copies of the YouTube block, the grid and the hybrid layout.

The map side comprises:
- seed clustering of markers;
- the viewport visibility controller;
- the geometry of cluster markers;
- loading the partner records;
- the filter pipeline and its string helpers (`splitData`, `extractRegion`, the search match);
- ranking by distance from a reference point;
- favourites;
- opening hours;
- shareable URL parameters;
- the expiry test of the local cache.

The YouTube side comprises:
- product-code extraction, then keyword matching;
- the "NEW" badge, view-count and day-bucket date texts;
- title truncation and HTML escaping;
- the hybrid layout's choice of main video and thumbnails.

Everything is written as immutable datatypes and pure functions. The exceptions are the clustering loops, the visibility controller and the thumbnail walk, which are methods with loop invariants.

The modules follow the program's structure:

| module | file | what it holds |
|---|---|---|
| `Wrappers`, `Text` | `text.dfy` | `Option`, white space, digits, `trim`, ASCII `toLowerCase`, `indexOf`/`includes`, `split`/`join`, the value of a digit run |
| `Seqs` | `seqs.dfy` | subsequences, `filter`, `map`, a stable insertion sort by a real key |
| `Clustering` | `clustering.dfy` | `computeClusters` and the seed-clustering invariant |
| `ClusterGeometry` | `geometry.dfy` | `createClusterMarker`: centroid, size and font buckets |
| `Visibility` | `visibility.dfy` | `updateMarkerVisibility` |
| `Regions` | `regions.dfy` | the two `extractRegion` versions |
| `ArchiveFilters` | `archive_filters.dfy` | `splitData`, archived `applyFilters`, `sortPartners` |
| `V2Filters` | `v2_filters.dfy` | v2 `applyFilters` |
| `V2Loading` | `v2_loading.dfy` | v2 `loadPartnerData` |
| `MakeshopPartners` | `makeshop.dfy` | Makeshop `loadPartnerData` and `applyFilters` |
| `Ranking` | `ranking.dfy` | `setReferencePoint`, `clearReferencePoint`, `searchNearby` |
| `Favorites` | `favorites.dfy` | both `toggleFavorite`s and `FavoritesManager` |
| `Hours` | `hours.dfy` | `parseAndCheckHours` |
| `UrlParams` | `url_params.dfy` | `setUrlParams`/`getUrlParams` and `updateUrlParams`/`loadUrlParams` |
| `Cache` | `cache.dfy` | cache store and expiry |
| `YouTube` | `youtube.dfy` | the matcher and the text helpers |
| `HybridLayout` | `hybrid.dfy` | `renderLayout`, `renderMoreVideos`, thumbnail clicks |

Outside inputs become parameters:
- The haversine distance is an arbitrary function `dist`.
- The sort key of a partner is an arbitrary `real`.
- The clock is an integer `now` in milliseconds, or in minutes since midnight for opening hours.
- Bounds membership of a marker is a given flag.
- `encodeURIComponent`/`decodeURIComponent` are a pair `enc`/`dec` of which only two things are known:
  - `dec` undoes `enc`;
  - encoded text holds no `&` or `=`.

Where the copies agree, as the two YouTube files do for matching, truncation and escaping, the behaviour is modelled once. Where they differ, each copy has its own member:
- the cache boundary;
- the favourites toggle;
- the region extraction;
- the URL parse (last versus first value of a repeated key);
- the cluster-marker size buckets.

## Model

| member | source | states |
|---|---|---|
| Clustering.ThresholdKm | _archive/partnermap/script.js:784 | the clustering radius `2^(12-zoom)*0.3` km is positive |
| Clustering.ThresholdShrinks | partnermap-v2/js/main.js:570 | zooming in never widens the radius, and one step out doubles it |
| Clustering.Pow2Monotone | _archive/partnermap/script.js:784 | the power of two in the radius grows with its exponent |
| Clustering.ComputeClusters | _archive/partnermap/script.js:783-807 | every index lands in exactly one non-empty cluster; each cluster begins with its seed, and every other member is a later index within the radius of that seed; members and seeds ascend; no index is left for a later seed that an earlier seed could reach; empty input gives no clusters |
| Clustering.Absorb | _archive/partnermap/script.js:793-803 | the inner loop gathers the seed, then exactly the unclaimed later indices within the radius of the seed, in order, and claims them |
| Clustering.ProgressStart | _archive/partnermap/script.js:785-788 | before the outer loop, nothing is clustered or claimed |
| Clustering.ProgressSkip | _archive/partnermap/script.js:789 | skipping an already claimed index keeps the loop invariant |
| Clustering.ProgressAdd | _archive/partnermap/script.js:790-804 | appending the seed's cluster keeps the loop invariant: partition so far, seed distances, ascending seeds, and nothing reachable left behind |
| Clustering.ProgressDone | _archive/partnermap/script.js:805-806 | when the outer loop ends, the clusters are a complete seed clustering of the input |
| Clustering.ClaimedAppend | _archive/partnermap/script.js:801 | the claimed set after a new cluster is the old set plus that cluster's members |
| Clustering.AppendWellFormed | _archive/partnermap/script.js:804 | a non-empty ascending cluster of valid indices can be appended without breaking well-formedness |
| Clustering.AppendDisjoint | _archive/partnermap/script.js:804 | a cluster sharing no index with the earlier ones keeps the clusters pairwise disjoint |
| Clustering.FreshCluster | _archive/partnermap/script.js:794 | a cluster built only from unclaimed indices shares no index with any earlier cluster |
| Clustering.AppendNotClaimedEarlier | _archive/partnermap/script.js:793-803 | after the new cluster, no member of any cluster was reachable from an earlier seed |
| Clustering.AppendSeedProperties | _archive/partnermap/script.js:790-803 | the new cluster starts at its seed, its members are within the radius, and the seeds still ascend |
| Clustering.AppendSeedBelow | _archive/partnermap/script.js:788 | every seed so far is an index the outer loop has already passed |
| Clustering.AppendStillOutOfReach | _archive/partnermap/script.js:794-803 | an index still unclaimed after the new cluster is out of reach of every seed so far |
| ClusterGeometry.Centroid | _archive/partnermap/script.js:811-816 | the marker position times the member count equals the sum of the member latitudes, and likewise for longitudes: it is their arithmetic mean |
| ClusterGeometry.CentroidInBox | partnermap-v2/js/main.js:606-611 | the mean of points that lie in a rectangle lies in that rectangle |
| ClusterGeometry.SumsInBox | partnermap-v2/js/main.js:608-609 | the coordinate sums of points in a rectangle lie between count times the lower edges and count times the upper edges |
| ClusterGeometry.MeanOfBoundedSum | partnermap-v2/js/main.js:610-611 | dividing such a sum by the count gives a value between the edges |
| ClusterGeometry.CentroidOfOnePoint | _archive/partnermap/script.js:811-816 | members that all sit at one point put the cluster marker exactly there |
| ClusterGeometry.ClusterSize | _archive/partnermap/script.js:818 | the diameter of a real cluster (two or more members) is 42..60 px in the archive and 46..70 px in v2; it reaches the maximum exactly from 8 members (archive) or 10 members (v2) |
| ClusterGeometry.ClusterSizeMonotone | partnermap-v2/js/main.js:617 | a cluster with more members is never drawn smaller |
| ClusterGeometry.FontSize | _archive/partnermap/script.js:824 | the label font is 14 or 16 px |
| ClusterGeometry.LargeFontIffFourOrMore | partnermap-v2/js/main.js:617-618 | in both copies the 16 px font is used exactly for clusters of four or more members |
| ClusterGeometry.MakeClusterMarker | _archive/partnermap/script.js:810-839 | the aggregate marker carries the member count, sits at the members' mean, and uses the large font exactly from four members |
| Visibility.UpdateMarkerVisibility | _archive/partnermap/script.js:740-780 | with no map or no bounds nothing changes; at or below zoom 10 the in-bounds markers, and only they, are seed-clustered, every marker is hidden, singletons are re-shown and one aggregate marker per cluster of two or more is drawn; above zoom 10 a marker ends up shown exactly when it is in bounds, only differing markers are toggled, and aggregates are cleared; marker positions and bounds never change |
| Visibility.ClusterView | partnermap-v2/js/main.js:525-548 | cluster mode: the render groups partition the in-bounds markers into a seed clustering at that zoom; a marker is shown exactly when it forms a cluster on its own; aggregates are drawn for the larger clusters; every marker is hidden first and singletons are then shown |
| Visibility.NormalView | partnermap-v2/js/main.js:550-558 | normal mode: each marker ends up shown exactly when it is in bounds, no aggregates remain, and the toggled markers are exactly those whose state differed |
| Visibility.ShowInBounds | _archive/partnermap/script.js:771-778 | each marker's shown flag becomes its bounds flag, and the markers touched are exactly the mismatched ones |
| Visibility.ShowInBoundsIdempotent | _archive/partnermap/script.js:771-778 | a second pass over the same bounds toggles nothing and changes nothing |
| Visibility.NothingMismatched | _archive/partnermap/script.js:771-778 | when every marker already agrees with the bounds, no marker is toggled |
| Visibility.Singletons | _archive/partnermap/script.js:763-766 | the markers re-shown are exactly the members of one-member clusters |
| Visibility.Aggregates | _archive/partnermap/script.js:763-767 | one aggregate marker per cluster of two or more, in cluster order: the k-th is the marker built from the k-th such cluster's member positions, so it counts at least two |
| Visibility.AggregateOfGroup | _archive/partnermap/script.js:763-767 | every cluster of two or more members gets its aggregate marker drawn, and that marker's count is the cluster's size |
| Visibility.Relabel | partnermap-v2/js/main.js:527-538 | clusters of positions in the visible list become clusters of the markers those positions came from |
| Visibility.VisiblePositions | _archive/partnermap/script.js:753-759 | what is clustered is the in-bounds markers' positions, in marker order |
| Visibility.RelabelWellFormed | partnermap-v2/js/main.js:527-538 | mapping clusters back to marker indices keeps them non-empty, ascending and in range |
| Visibility.RelabelDisjoint | partnermap-v2/js/main.js:527-538 | mapping clusters back to marker indices keeps them disjoint |
| Visibility.RelabelClaimed | _archive/partnermap/script.js:753-761 | the mapped clusters together claim exactly the in-bounds markers |
| Visibility.RelabelSeeds | _archive/partnermap/script.js:761 | the seed-distance, ascending-seed and out-of-reach properties carry over to marker indices |
| Visibility.RelabelKeepsClustering | _archive/partnermap/script.js:753-761 | a seed clustering of the in-bounds positions is, on marker indices, a seed clustering that partitions the in-bounds markers |
| Visibility.SinglesPartition | partnermap-v2/js/main.js:550-558 | above the cluster zoom, one group per in-bounds marker partitions the in-bounds markers |
| Visibility.Positions | _archive/partnermap/script.js:755 | the position list lines up with the markers, one for one |
| Visibility.Range | _archive/partnermap/script.js:754-759 | the hide-everything pass touches every marker index once, in order |
| Regions.LeadingAlternative | partnermap-v2/js/main.js:725-729 | the anchored alternation returns the first listed alternative the text starts with, or nothing exactly when no alternative is a prefix |
| Regions.ProvinceRegion | partnermap-v2/js/main.js:725-729 | the region is one of the 17 province names that the address starts with, or `기타` exactly when the address starts with none of them |
| Regions.ProvinceRegionOfPrefixed | _archive/partnermap-tests/partnermap-v2/main-for-makeshop.js:233-236 | an address written after a province name has that province as its region |
| Regions.ArchiveRegion | _archive/partnermap/script.js:460-467 | the archived version takes the leading run up to the first `시` or `도` before any `시도군구`, and otherwise falls back to the eight city names, then `기타` |
| Regions.ArchiveRegionOfUnit | _archive/partnermap/script.js:462-463 | a name without unit characters followed by `시` or `도` is read back as that name and unit |
| ArchiveFilters.SplitData | _archive/partnermap/script.js:116-123 | every item is non-empty, trimmed, and free of `,`, `\|` and newline |
| ArchiveFilters.TrimmedPiecesClean | _archive/partnermap/script.js:118-122 | trimming separator-free pieces and dropping the empty ones leaves only clean items |
| ArchiveFilters.SplitDataOfJoin | _archive/partnermap/script.js:116-123 | clean items joined with commas split back into exactly those items |
| ArchiveFilters.MapTrimClean | _archive/partnermap/script.js:119-121 | trimming items that are already trimmed changes nothing |
| ArchiveFilters.ApplyFilters | _archive/partnermap/script.js:538-588 | the result is an order-preserving subsequence of the partners holding exactly those that pass the search, region, category, association and partner-type checks and, with the favourites button on, whose name is a favourite; it is read off the partners at exactly the passing positions, in order, so a partner listed twice is kept twice |
| ArchiveFilters.ApplyFiltersKeepsSelected | _archive/partnermap/script.js:539-580 | a list whose every partner passes comes back unchanged |
| ArchiveFilters.ApplyFiltersIdempotent | _archive/partnermap/script.js:538-588 | filtering the result again with the same settings changes nothing |
| ArchiveFilters.NoFiltersKeepsAll | _archive/partnermap/script.js:538-588 | with every drop-down on `all`, no search and the favourites button off, every partner is listed in order |
| ArchiveFilters.Listing | _archive/partnermap/script.js:611-623 | the listing after `sortPartners` is the filter result reordered in non-decreasing sort key |
| V2Filters.ApplyFilters | partnermap-v2/js/main.js:669-718 | the result is an order-preserving subsequence of the partners holding exactly those that pass every active check (category, region, association, partner type, case-insensitive search in name or address, favourites by id); it is read off the partners at exactly the passing positions, in order, so a partner listed twice is kept twice |
| V2Filters.ApplyFiltersKeepsPassing | partnermap-v2/js/main.js:669-718 | a list whose every partner passes comes back unchanged |
| V2Filters.ApplyFiltersIdempotent | partnermap-v2/js/main.js:669-718 | filtering the result again changes nothing |
| V2Filters.InactiveKeepsAll | partnermap-v2/js/main.js:669-718 | when no filter is on, every partner is listed in loaded order |
| V2Filters.AssociationMatch | partnermap-v2/js/main.js:685-692 | an association cell written as comma-joined names matches a selected association exactly when it is one of those names |
| MakeshopPartners.ToPartner | _archive/partnermap-tests/partnermap-v2/main-for-makeshop.js:92-105 | a record keeps its id, name and address; an empty category gives no categories, and no category holds a comma |
| MakeshopPartners.LoadPartners | _archive/partnermap-tests/partnermap-v2/main-for-makeshop.js:89-106 | the loaded partners are the active records with a latitude and a longitude, converted in record order, and only those |
| MakeshopPartners.LoadedCategories | _archive/partnermap-tests/partnermap-v2/main-for-makeshop.js:95 | a usable record whose category cell is comma-joined names loads with exactly those names as its categories |
| V2Loading.ToPartner | partnermap-v2/js/main.js:291-309 | id, name, address and association are carried over; the category cell and a textual partner-type cell become comma-free lists, empty for an empty cell; a partner-type list is kept as it is |
| V2Loading.LoadRows | partnermap-v2/js/main.js:289-309 | the k-th loaded partner is the converted k-th record holding both coordinates, in fetched order, and nothing else is loaded; unlike the Makeshop copy, `status` is not looked at |
| V2Loading.LoadRowsKeepsPlaced | partnermap-v2/js/main.js:290 | every record with both coordinates is loaded |
| V2Loading.LoadedPartnerTypes | partnermap-v2/js/main.js:305-307 | a record whose partner-type text is comma-joined clean names loads with exactly those names as its types |
| V2Loading.LoadPartnerData | partnermap-v2/js/main.js:265-317 | a non-empty cached list is returned as it is; otherwise a failed fetch or a response without a record array gives the empty list, and a record array is loaded |
| V2Loading.EmptyCacheIgnored | partnermap-v2/js/main.js:267-268 | an empty cached list is treated exactly like no cache |
| MakeshopPartners.ApplyFilters | _archive/partnermap-tests/partnermap-v2/main-for-makeshop.js:204-227 | the result is an order-preserving subsequence holding exactly the partners that pass the category, region and search conjunction; it is read off the partners at exactly the passing positions, in order, so a partner listed twice is kept twice |
| MakeshopPartners.NoFiltersKeepsAll | _archive/partnermap-tests/partnermap-v2/main-for-makeshop.js:204-227 | `all`, `all` and an empty search keep every partner in order |
| MakeshopPartners.ApplyFiltersIdempotent | _archive/partnermap-tests/partnermap-v2/main-for-makeshop.js:204-227 | filtering the result again changes nothing |
| Ranking.Annotate | partnermap-v2/js/main.js:214-217 | each partner gets a copy carrying its distance, in list order |
| Ranking.Strip | partnermap-v2/js/main.js:252-255 | dropping the distance keeps the partners in their positions |
| Ranking.StripAnnotate | partnermap-v2/js/main.js:252-255 | dropping the distances of an annotated copy gives the partners back |
| Ranking.Rank | partnermap-v2/js/main.js:214-217 | the ranked copy has every partner once, each with its own distance, in non-decreasing distance |
| Ranking.RankStable | partnermap-v2/js/main.js:214-217 | partners at equal distance keep their list order |
| Ranking.RankFirstIsNearest | partnermap-v2/js/main.js:214-217 | the first ranked partner is no farther than any partner |
| Ranking.MapPermutation | partnermap-v2/js/main.js:214-217 | a permutation of a list has a permutation of its image |
| Ranking.MultisetRemoveAt | partnermap-v2/js/main.js:214-217 | removing a position removes one copy of its element from the multiset |
| Ranking.MapRemoveAt | partnermap-v2/js/main.js:214-217 | the image loses one copy of the removed element's image |
| Ranking.RemoveMatching | partnermap-v2/js/main.js:214-217 | removing the same element from two permutations of each other leaves permutations |
| Ranking.MapMatching | partnermap-v2/js/main.js:214-217 | images agree once the matching element's image is put back |
| Ranking.SearchNearby | _archive/partnermap-tests/partnermap-v2/main-for-makeshop.js:319-323 | every loaded partner once, whatever the filters, each paired with its own distance from the device and ordered by non-decreasing distance |
| Ranking.SearchNearbyNearestFirst | _archive/partnermap-tests/partnermap-v2/main-for-makeshop.js:319-323 | the first entry of the search is no farther from the device than any loaded partner |
| Ranking.SearchNearbyStable | _archive/partnermap-tests/partnermap-v2/main-for-makeshop.js:319-323 | partners at the same distance keep their loaded order, as the stable `Array.prototype.sort` leaves them |
| Ranking.SetReferencePoint | partnermap-v2/js/main.js:191-238 | the ranked list is exactly the current filter result (a permutation of it), each entry with its distance, in non-decreasing distance |
| Ranking.SetReferencePointRanksFiltered | partnermap-v2/js/main.js:221-228 | with or without active filters, the result is the ranked filter result |
| Ranking.ClearReferencePoint | partnermap-v2/js/main.js:241-259 | after clearing, the list is read off the loaded partners at exactly the positions that pass the current filters, in loaded order: every passing partner is listed and nothing else |
| Ranking.ClearAfterSet | partnermap-v2/js/main.js:241-259 | clearing lists the same partners that were ranked, with the distances removed, back in loaded order |
| Favorites.PositionOf | _archive/partnermap/script.js:318-320 | `indexOf` is -1 exactly when the name is absent, and otherwise the first position holding it |
| Favorites.ArchiveToggle | _archive/partnermap/script.js:307-316 | an absent name is appended; a present one loses exactly one copy |
| Favorites.ArchiveToggleNoDup | _archive/partnermap/script.js:307-316 | toggling a list without repeats leaves a list without repeats |
| Favorites.ArchiveToggleIsV2Toggle | _archive/partnermap/script.js:307-316 | on a list without repeats, the archived toggle and the v2 toggle agree |
| Favorites.RemoveOnly | _archive/partnermap/script.js:310 | removing a name that occurs once joins the parts before and after it |
| Favorites.ArchiveToggleWithRepeat | _archive/partnermap/script.js:307-316 | for any list holding a name at least twice, the archived toggle removes only one copy, so the partner is still a favourite afterwards |
| Favorites.V2Toggle | partnermap-v2/js/main.js:53-68 | toggling flips membership of the id and leaves every other id's membership alone |
| Favorites.V2ToggleTwice | partnermap-v2/js/main.js:53-68 | adding an absent id and toggling it again restores the list |
| Favorites.V2ToggleNoDup | partnermap-v2/js/main.js:53-68 | v2 toggling never creates a repeat |
| Favorites.NoDupSubsequence | partnermap-v2/js/main.js:59 | removing entries from a list without repeats leaves no repeats |
| Favorites.RemoveAbsent | partnermap-v2/js/main.js:1342 | removing an id that is absent changes nothing |
| Favorites.ManagerAdd | partnermap-v2/js/main.js:1333-1339 | after `add` the id is present and other ids are untouched; a present id leaves the list as it was, an absent one is appended at the end |
| Favorites.ManagerAddNoDup | partnermap-v2/js/main.js:1333-1339 | `add` on a list without repeats leaves a list without repeats |
| Favorites.ManagerRemove | partnermap-v2/js/main.js:1341-1345 | after `remove` no copy of the id remains, other ids are untouched and in order |
| Favorites.ManagerToggle | partnermap-v2/js/main.js:1347-1349 | `toggle` flips membership of the id |
| Favorites.ManagerToggleIsV2Toggle | partnermap-v2/js/main.js:1347-1349 | the manager's toggle changes the list exactly as the free `toggleFavorite` does |
| Hours.ParseAndCheckHours | _archive/partnermap/script.js:175-185 | blank text gives no result; text with 휴업 or 폐점 is closed, before any time is read; text with no range gives no result; otherwise the first range decides, and open means open minute ≤ now < close minute |
| Hours.OvernightNeverOpen | _archive/partnermap/script.js:184 | a range that closes no later than it opens never reports open |
| Hours.FirstMatch | _archive/partnermap/script.js:178 | the match is the leftmost position where the time-range pattern matches, or none exactly when it matches nowhere |
| Hours.FirstMatchIsLeftmost | _archive/partnermap/script.js:178 | whichever position is leftmost among those where the pattern matches is the one the search from the start reports, with its captures |
| Hours.RangeDecides | _archive/partnermap/script.js:178-184 | no result exactly when the pattern matches nowhere; otherwise the leftmost range decides, open exactly when open minute ≤ now < close minute |
| Hours.MatchAt | _archive/partnermap/script.js:178 | a match starts on a digit, and each captured number is at most 99 |
| Hours.NoMatchPastEnd | _archive/partnermap/script.js:178 | the pattern matches nowhere past the end of the text |
| Hours.ClockAt | _archive/partnermap/script.js:178 | a clock reading starts on a digit, ends inside the text, and has numbers of at most two digits |
| Hours.HourLen | _archive/partnermap/script.js:178 | the hour takes two digits when two digits and a colon follow, otherwise one digit when one digit and a colon follow, else no match |
| Hours.SkipSpaces | _archive/partnermap/script.js:178 | white space is skipped up to the first non-space position |
| Hours.SmallValue | _archive/partnermap/script.js:182-183 | at most two digits read as at most 99 |
| Hours.Pad2 | _archive/partnermap/script.js:178 | a number below 100 written as two digits reads back as that number |
| Hours.Format | _archive/partnermap/script.js:178 | a written range `HH:MM~HH:MM` is 11 characters long |
| Hours.FormatPieces | _archive/partnermap/script.js:178 | the pieces of a written range are the padded numbers and separators |
| Hours.FormatIsPlain | _archive/partnermap/script.js:176-177 | a written range is neither blank nor a closure notice |
| Hours.NoHangul | _archive/partnermap/script.js:177 | ASCII text contains no Hangul keyword |
| Hours.ClockOfPadded | _archive/partnermap/script.js:178 | two padded numbers around a colon read back as that clock |
| Hours.MatchFormat | _archive/partnermap/script.js:178 | the pattern matches a written range at its first character and captures its own numbers |
| Hours.ParseFormat | _archive/partnermap/script.js:175-185 | reading a written range gives back its numbers, and so the open test on them |
| UrlParams.ArchivePairs | _archive/partnermap/script.js:250-256 | the parameters written are exactly the region, category, association, partner-type and search values that are non-empty and not `all`, in that key order |
| UrlParams.ArchiveUrl | _archive/partnermap/script.js:250-259 | the address starts with the path and is the bare path exactly when nothing is worth sharing |
| UrlParams.Url | _archive/partnermap/script.js:256-257 | the address is the bare path exactly when there are no pairs, and otherwise the path, `?` and the query |
| UrlParams.QueryString | _archive/partnermap/script.js:256 | the query is empty exactly when there are no pairs |
| UrlParams.EncodePair | _archive/partnermap/script.js:254 | an encoded pair holds the `=` that separates name and value |
| UrlParams.SearchOf | _archive/partnermap/script.js:240 | `location.search` is the address after the path |
| UrlParams.ArchiveParse | _archive/partnermap/script.js:238-248 | an empty query or a bare `?` parses to no parameters |
| UrlParams.LastValue | _archive/partnermap/script.js:243-245 | a repeated key keeps its last value, and a key that never occurs has none |
| UrlParams.RestoreFilter | _archive/partnermap/script.js:1454-1469 | a filter is restored when its parameter has a shareable value, and otherwise keeps its current value |
| UrlParams.ArchiveRestore | _archive/partnermap/script.js:1452-1473 | restoring takes the search from a non-empty `search` parameter, and otherwise keeps the current search |
| UrlParams.SplitEncoded | _archive/partnermap/script.js:244 | an encoded pair splits on `=` into its encoded name and value |
| UrlParams.SplitQuery | _archive/partnermap/script.js:243 | a written query splits on `&` into the encoded pairs |
| UrlParams.ArchiveParseOfUrl | _archive/partnermap/script.js:238-259 | parsing a written address gives back the pairs written |
| UrlParams.ArchiveUrlParses | _archive/partnermap/script.js:238-259 | parsing the address `setUrlParams` writes gives the shareable fields |
| UrlParams.LastOfFiltered | _archive/partnermap/script.js:243-245 | for a key that occurs once, the last value after filtering is its value when kept, else none |
| UrlParams.ArchiveFieldRoundTrip | _archive/partnermap/script.js:1454-1469 | each drop-down filter is restored from the written parameters exactly when it was shareable |
| UrlParams.ArchiveSearchRoundTrip | _archive/partnermap/script.js:1470-1473 | the search parameter is found exactly when the search was shareable |
| UrlParams.ArchiveRestoreFresh | _archive/partnermap/script.js:1452-1473 | restoring the written parameters into a fresh page gives back the shared filters and search |
| UrlParams.ArchiveRoundTrip | _archive/partnermap/script.js:1452-1473 | a shared archived address, opened fresh, restores every shareable filter and the search |
| UrlParams.SearchForAll | _archive/partnermap/script.js:253 | a search text of `all` is not written by the archived widget, but v2 writes and restores it |
| UrlParams.V2Pairs | partnermap-v2/js/main.js:1162-1169 | the parameters set are exactly the non-`all` drop-downs and a non-empty search, in key order |
| UrlParams.V2Url | partnermap-v2/js/main.js:1162-1176 | the address starts with the path and is the bare path exactly when no filter is active |
| UrlParams.FirstValue | partnermap-v2/js/main.js:1178-1202 | `URLSearchParams.get` returns the first value of a repeated key, and none for an absent key |
| UrlParams.RestoreV2 | partnermap-v2/js/main.js:1181-1196 | a filter is restored from a non-empty parameter and otherwise keeps its value |
| UrlParams.V2Restore | partnermap-v2/js/main.js:1178-1202 | the search is restored from a non-empty `search` parameter |
| UrlParams.FormDecodeEncoded | partnermap-v2/js/main.js:1179 | decoding an encoded pair gives back the pair |
| UrlParams.FormPieces | partnermap-v2/js/main.js:1179 | the non-empty pieces of a written query are the encoded pairs |
| UrlParams.FormParseOfUrl | partnermap-v2/js/main.js:1179 | `URLSearchParams` reads back the pairs a written address holds |
| UrlParams.FormParseOfEmpty | partnermap-v2/js/main.js:1179 | an empty query has no parameters |
| UrlParams.FirstOfFiltered | partnermap-v2/js/main.js:1181-1196 | for a key that occurs once, the first value after filtering is its value when kept, else none |
| UrlParams.V2FieldRoundTrip | partnermap-v2/js/main.js:1181-1196 | each filter is restored from the written parameters exactly when it was active |
| UrlParams.V2UrlParses | partnermap-v2/js/main.js:1162-1202 | parsing the address `updateUrlParams` writes gives the active fields |
| UrlParams.V2RestoreFresh | partnermap-v2/js/main.js:1178-1202 | restoring the written parameters into fresh filters gives back the active filters |
| UrlParams.V2RoundTrip | partnermap-v2/js/main.js:1162-1202 | a shared v2 address, opened fresh, restores every active filter |
| Cache.Store | _archive/partnermap/script.js:278-285 | storing keeps the data with the time it was stored |
| Cache.ArchiveGet | _archive/partnermap/script.js:262-276 | cached data is returned exactly when an entry exists and is younger than 24 hours |
| Cache.V2Get | partnermap-v2/js/main.js:1220-1235 | cached data is returned exactly when an entry exists and is at most 24 hours old; otherwise the entry is evicted |
| Cache.GetAfterStore | _archive/partnermap-tests/partnermap-v2/main-for-makeshop.js:433-459 | within a day of storing, both lookups return the stored data and v2 keeps the entry |
| Cache.ExpiryIsFinal | partnermap-v2/js/main.js:1220-1235 | once expired, an entry stays expired later |
| Cache.EvictionIsFinal | _archive/partnermap-tests/partnermap-v2/main-for-makeshop.js:433-448 | after an eviction every later lookup finds nothing |
| Cache.BoundaryDiffers | _archive/partnermap/script.js:268 | at exactly 24 hours the archived cache has expired while the v2 cache still answers |
| YouTube.ParseProductCode | _archive/features/youtube-product-integration/youtube-product.js:279-285 | the code is the `[A-Z0-9]+` token of the first `[제품코드:` tag followed by optional spaces, the code and `]`, and there is none exactly when no position holds such a tag |
| YouTube.FirstCode | _archive/features/youtube-product-integration/youtube-product.js:282 | the leftmost position at or after a start where the tag pattern matches, or none when it matches nowhere there |
| YouTube.CodeAt | _archive/features/youtube-product-integration/youtube-product.js:282 | a match at a position starts with the tag and yields a non-empty upper-case alphanumeric code |
| YouTube.CodeIn | _archive/features/youtube-product-integration/youtube-product.js:282 | after the tag, spaces are skipped and any code found is a well-formed code |
| YouTube.CodeClosed | _archive/features/youtube-product-integration/youtube-product.js:282 | a code is accepted only when closed by `]` |
| YouTube.NoTagAt | _archive/features/youtube-product-integration/youtube-product.js:282 | the pattern cannot match where there is no `[` |
| YouTube.CodeAtTag | _archive/features/youtube-product-integration/youtube-product.js:282 | a tag, spaces, a code and `]` written at a position match there with that code |
| YouTube.CodeInTail | _archive/features/youtube-product-integration/youtube-product.js:282 | spaces, a code and `]` after the tag yield that code |
| YouTube.CodeRun | _archive/features/youtube-product-integration/youtube-product.js:282 | the code characters run up to the closing `]` |
| YouTube.SpaceRun | _archive/features/youtube-product-integration/youtube-product.js:282 | the optional spaces end where the code begins |
| YouTube.ParseTaggedDescription | _archive/features/youtube-product-integration/youtube-product-hybrid.js:338-343 | a description holding one well-formed tag, with no `[` before it, parses to that tag's code |
| YouTube.UntaggedHasNoCode | _archive/features/youtube-product-integration/youtube-product-hybrid.js:338-343 | a description without `[` has no code |
| YouTube.FirstHit | _archive/features/youtube-product-integration/youtube-product.js:294-306 | the first keyword entry, in iteration order, whose word occurs and whose first code is catalogued, or none when no entry qualifies |
| YouTube.MatchByKeywords | _archive/features/youtube-product-integration/youtube-product.js:288-309 | no mapping gives nothing; otherwise the product of the first keyword entry whose lower-cased word occurs in the lower-cased title, space and description and whose first code is catalogued; entries with an unknown first code are skipped; nothing exactly when no entry qualifies |
| YouTube.TitleWordInSearchText | _archive/features/youtube-product-integration/youtube-product-hybrid.js:348 | a word found in the lower-cased title is found in the search text |
| YouTube.FirstKeywordWins | _archive/features/youtube-product-integration/youtube-product-hybrid.js:345-365 | when the first keyword entry is catalogued and its word is in the title, its product is the match |
| YouTube.MatchProduct | _archive/features/youtube-product-integration/youtube-product.js:254-276 | no mapping gives nothing; a parsed code present in the catalogue wins; otherwise the keyword match decides |
| YouTube.TaggedVideoMatches | _archive/features/youtube-product-integration/youtube-product-hybrid.js:317-336 | a video tagged with a catalogued code gets that product whatever its keywords say |
| YouTube.UntaggedFallsBack | _archive/features/youtube-product-integration/youtube-product-hybrid.js:317-336 | a video without a tag is matched by keywords alone |
| YouTube.IsNewVideo | _archive/features/youtube-product-integration/youtube-product.js:357-362 | a video is new exactly when fewer than four whole days have passed since publication |
| YouTube.FormatViewCount | _archive/features/youtube-product-integration/youtube-product.js:364-373 | an unknown or zero count shows the counting text; the 만 form is used exactly from 10000; other texts carry the count |
| YouTube.FormatDate | _archive/features/youtube-product-integration/youtube-product.js:375-389 | the text is 오늘 within the first day, 어제 within the second, N일 전 below a week, ⌊days ÷ 7⌋주 전 (one to four, the whole weeks elapsed) below 30 days, and the absolute date from 30 days |
| YouTube.FutureDateIsNegativeDays | _archive/features/youtube-product-integration/youtube-product-hybrid.js:389-403 | a date in the future falls into the days-ago bucket with a negative count |
| YouTube.TruncateTitle | _archive/features/youtube-product-integration/youtube-product.js:395-401 | titles no longer than the limit (50 by default) are unchanged; longer ones become their first limit characters plus `...` |
| YouTube.TruncatedTitleBounds | _archive/features/youtube-product-integration/youtube-product-hybrid.js:292 | a truncated title is at most three characters over the limit and starts with the title's first limit characters |
| YouTube.EscapeHtml | _archive/features/youtube-product-integration/youtube-product.js:403-413 | escaping never shortens the text |
| YouTube.EscapedHasNoMarkup | _archive/features/youtube-product-integration/youtube-product.js:403-413 | escaped text holds none of `<`, `>`, `"`, `'` |
| YouTube.UnescapeEscape | _archive/features/youtube-product-integration/youtube-product-hybrid.js:417-427 | reading the five entities back gives the original text, so escaping loses nothing and replaces only the five characters |
| YouTube.UnescapeChar | _archive/features/youtube-product-integration/youtube-product-hybrid.js:417-427 | the replacement of each single character reads back as that character |
| YouTube.UnescapeAmp | _archive/features/youtube-product-integration/youtube-product-hybrid.js:420 | `&amp;` reads back as `&` |
| YouTube.UnescapeLt | _archive/features/youtube-product-integration/youtube-product-hybrid.js:421 | `&lt;` reads back as `<` |
| YouTube.UnescapeGt | _archive/features/youtube-product-integration/youtube-product-hybrid.js:422 | `&gt;` reads back as `>` |
| YouTube.UnescapeQuot | _archive/features/youtube-product-integration/youtube-product-hybrid.js:423 | `&quot;` reads back as `"` |
| YouTube.UnescapeApos | _archive/features/youtube-product-integration/youtube-product-hybrid.js:424 | `&#039;` reads back as `'` |
| YouTube.EscapePlain | _archive/features/youtube-product-integration/youtube-product-hybrid.js:417-427 | text free of the five special characters is its own escape |
| HybridLayout.MoreVideos | _archive/features/youtube-product-integration/youtube-product-hybrid.js:252-268 | the thumbnail row is the first four videos other than the main one, in ascending index order, never the main one |
| HybridLayout.Others | _archive/features/youtube-product-integration/youtube-product-hybrid.js:259-267 | the candidates are valid indices other than the main one |
| HybridLayout.OthersSpec | _archive/features/youtube-product-integration/youtube-product-hybrid.js:259-267 | the candidates are every valid index except the main one, ascending |
| HybridLayout.OthersPrefix | _archive/features/youtube-product-integration/youtube-product-hybrid.js:259-267 | walking fewer videos yields a prefix of the candidates |
| HybridLayout.Take | _archive/features/youtube-product-integration/youtube-product-hybrid.js:258-260 | at most the first four candidates are kept, as a prefix |
| HybridLayout.RenderLayout | _archive/features/youtube-product-integration/youtube-product-hybrid.js:170-179 | the error path is taken exactly when there are no videos; the main video is shown exactly when the index is valid, and then it is not among the up to four thumbnails |
| HybridLayout.StartLayout | _archive/features/youtube-product-integration/youtube-product-hybrid.js:170-179 | at start-up the first video is main and the thumbnails are the next ones in order |
| HybridLayout.OthersAfterZero | _archive/features/youtube-product-integration/youtube-product-hybrid.js:259-267 | with the first video main, the k-th candidate is video k+1 |
| HybridLayout.ClickThumbnail | _archive/features/youtube-product-integration/youtube-product-hybrid.js:299-301 | clicking a thumbnail makes that video main, and it leaves the thumbnail row |
| Seqs.Filter | partnermap-v2/js/main.js:670 | `Array.prototype.filter` keeps only elements that pass, never more than it was given |
| Seqs.FilterSpec | partnermap-v2/js/main.js:670 | the filtered list is an order-preserving subsequence holding every element that passes |
| Seqs.FilterMembership | partnermap-v2/js/main.js:670 | an element is in the filtered list exactly when it was in the list and passes |
| Seqs.FilterConcat | _archive/partnermap/script.js:583-588 | filtering a concatenation filters each part |
| Seqs.FilterFilter | _archive/partnermap/script.js:583-588 | a second filter pass after the first equals one pass with both tests |
| Seqs.FilterIdempotent | partnermap-v2/js/main.js:670 | filtering twice with the same test equals filtering once |
| Seqs.FilterAll | partnermap-v2/js/main.js:670 | a filter leaves a list unchanged exactly when every element passes |
| Seqs.FilterKeepsAll | partnermap-v2/js/main.js:670 | a list whose every element passes is kept whole |
| Seqs.FilterNone | partnermap-v2/js/main.js:670 | a list no element of which passes filters to nothing |
| Seqs.KeptIndices | partnermap-v2/js/main.js:670 | the kept positions ascend and are exactly the positions whose element passes |
| Seqs.SortBySpec | _archive/partnermap/script.js:611-623 | the sorted list is a permutation of the input in non-decreasing key |
| Seqs.SortStable | partnermap-v2/js/main.js:1003-1006 | elements with equal keys keep their relative order |
| Seqs.Insert | _archive/partnermap/script.js:611-623 | inserting adds exactly one copy of the element |
| Seqs.InsertSorted | _archive/partnermap/script.js:611-623 | inserting into a sorted list keeps it sorted |
| Seqs.InsertFilter | partnermap-v2/js/main.js:1003-1006 | an element inserted into a sorted list comes after every element with the same key |
| Text.Trim | _archive/partnermap/script.js:119 | the trimmed text starts and ends with a non-space |
| Text.TrimSpec | _archive/partnermap/script.js:119 | the trimmed text is the input with only white space removed from either end |
| Text.TrimEmptyIffAllSpace | _archive/partnermap/script.js:117 | text trims to empty exactly when it is all white space |
| Text.IndexOf | _archive/partnermap/script.js:549 | `indexOf` gives the first occurrence, or -1 exactly when there is none |
| Text.IncludesIffOccurs | partnermap-v2/js/main.js:704-705 | `includes` holds exactly when the query occurs somewhere |
| Text.SplitOn | _archive/partnermap/script.js:243-244 | `split` on one character gives pieces without it that join back to the text |
| Text.SplitOnOfJoin | _archive/partnermap/script.js:243-244 | splitting joined separator-free pieces gives the pieces back |
| Text.CommaList | partnermap-v2/js/main.js:687-689 | an empty cell gives no items, and no item holds a comma |
| Text.CommaListOfJoin | partnermap-v2/js/main.js:687-689 | trimmed names joined with commas split back into those names |
| Text.SplitRuns | _archive/partnermap/script.js:118 | splitting on runs of separators gives pieces holding no separator |
| Text.SplitRunsOfJoin | _archive/partnermap/script.js:118 | non-empty pieces joined by one separator split back into those pieces |

## Left out

- `calculateDistance` (haversine) and `formatDistance`: floating-point trigonometry and text; distance is an arbitrary function `dist`, and the ranking key an arbitrary `real`.
- Naver Maps SDK objects (markers, `LatLngBounds`, `hasLatLng`, `setMap`), script loading and retries: bounds membership is a flag per marker and `setMap` is a change of the flag; the order of `setMap` calls is recorded as a list of marker indices.
- `fetch`/ajax, JSON parsing, `localStorage` reads and writes, geolocation callbacks, timers and Promise flows: I/O; the cache is an optional entry, the clock is a parameter `now`.
- DOM and HTML templating: info windows, lists, cards, toasts, share dialogs, `createMarkerIcon`, `convertGoogleDriveUrl`, the archived widget's DOM-based `escapeHtml`.
- `localeCompare` name ordering in `sortPartners`: replaced by an abstract real rank; the sort is modelled as a stable sort by that rank.
- `toLocaleString`, `toFixed` and `Date` formatting texts: `FormatViewCount` and `FormatDate` return which branch is taken and the number shown, not the text.
- Text.ToLower: lower-cases ASCII `A`–`Z` only, because full Unicode case mapping is not expressible here; Hangul, digits and punctuation are unaffected by either.
- Lengths in `TruncateTitle` count code points, where JavaScript counts UTF-16 units; they agree on text in the Basic Multilingual Plane, which includes Hangul.
- `encodeURIComponent`, `decodeURIComponent` and the form encoding of `URLSearchParams`: parameters `enc`/`dec` of which only inversion and the absence of `&` and `=` in encoded text are assumed.
- `parseInt`, `parseFloat` and `Date` parsing: the numbers arrive already parsed (time stamps in milliseconds, the view count as an optional integer).
- The `partner` URL parameter (`pendingPartnerFocus`) and the focusing it triggers: it moves the map and opens an info window, which is presentation.
- `for..in` iteration over the keyword object: its order is taken as the given sequence order of the keyword entries; a missing keyword object reads as an empty list.
- v2 `loadPartnerData` (partnermap-v2/js/main.js:265-318): the choice between `data.partners` and `data` and the `Array.isArray` test happen before the model, which receives the record array or its absence. The `setCache` write and the logging are left out. So are the fields that no modelled operation reads: `lat`/`lng` as numbers, phone, e-mail, description and image URLs. Coordinate cells are text, so a numeric `0`, which JavaScript treats as false, has no counterpart.
- Clustering.ComputeClusters: the number of clusters is not claimed to fall as the zoom falls; with an arbitrary distance the greedy seed order can make a larger radius yield more clusters.
- Favorites.ManagerToggleIsV2Toggle: ids are modelled as strings, so the agreement holds for string ids only; `FavoritesManager` (partnermap-v2/js/main.js:1333-1353) compares the raw id it is given, while `toggleFavorite` first applies `String()` (partnermap-v2/js/main.js:57), so a numeric id would behave differently in the two.
- js/heritage.js and docs/service-worker.js: presentation and Cache API plumbing with no decision logic.

