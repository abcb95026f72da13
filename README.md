# Trellis faceting pipeline

A model of the data pipeline inside the `Trellis` React component
(`src/components/Trellis.tsx`). The component takes rows, a facet-key
accessor, an optional value accessor, a search query and a sort configuration.
It produces three things:

1. **Grouping** — the facets. d3-array's `group` splits the rows into
   `(label, rows)` pairs. It keeps labels in first-seen order and rows in
   input order.
2. **Filter and sort** — the facets to show.
   - Filtering is a case-insensitive substring match of the query on the label.
   - Sorting is by a per-facet metric, either ascending or descending.
   - For the `default` sort type, facets are sorted by label instead.
3. **Shared domain** — the y-domain given to every chart.
   - It is an explicit domain, no domain, or the minimum and maximum over
     all rows.
   - The minimum is clamped to at most 0.

Modules:

- `StableSort`: the stable sort that `Array.prototype.sort` provides.
  - The reference definition is insertion sort, `SortBy`.
  - The in-place array method `SortInPlace` is proved against it.
  - Lemmas cover sortedness, permutation, stability and uniqueness. The
    uniqueness lemma means every stable sort by the same order gives the same
    result.
- `Grouping`: `group` followed by `Array.from`, as a fold that builds an
  insertion-ordered map. It is proved against reference definitions on the
  rows alone: `Keys`, `Select` and `FirstIndex`.
  - `Group` (Trellis.tsx:165-172) is the facets memo: `Entries(Collect(rows, facetKey))`.
- `Search`: ASCII `toLowerCase`, `includes`, and the facet filter.
  - `LowerChar` and `ToLower` (Trellis.tsx:180) are `toLowerCase`.
  - `Includes` (Trellis.tsx:180) is `String.prototype.includes`.
  - `Keep` (Trellis.tsx:179-181) is the `filter` call, and `FilterFacets`
    (Trellis.tsx:177-182) adds the skip for an empty query.
- `Ordering`: metric choice, the decorate–sort–strip metric sort, and the
  label sort.
  - `Metric` (Trellis.tsx:187-193) is one facet's metric for a sort
    configuration.
  - `Process` (Trellis.tsx:175-214) is the filter-and-sort memo as a
    function: the filtered facets, sorted by metric or by label.
  - It contains both the memo body as written and a corrected version (see
    Findings).
- `SharedDomain`: the `forEach` scan with its ±Infinity sentinels and the
  clamp.
  - `Scan` (Trellis.tsx:222-230) is the running minimum and maximum from
    ±Infinity.
  - `YDomain` (Trellis.tsx:217-235) is the domain memo: explicit, absent, or
    the clamped scan.
- `Trellis`: one render of the three memos, and end-to-end properties.
- `Scenarios`: the outcomes the repository's tests expect, plus the
  render sequence behind the finding.

Modelling choices:

- **Accessors are functions.** A field name `k` stands for
  `d => String(d[k])` or `d => Number(d[k])`.
- **Values and metrics are `int`.**
- **`calculateMetric` is an abstract parameter.** It has type
  `(rows, valueOf, kind) -> int`.
- **`localeCompare` becomes an abstract predicate.** It is a "less than or
  equal" predicate on strings. Where order matters, the lemmas require it to
  be a total preorder.
- **Comparators become "at most 0" predicates.** A comparator `cmp` is
  modelled as `le(a, b) == (cmp(a, b) <= 0)`.
- **`debouncedQuery` is an input.** It is the query after the debounce.

**Edge cases, as the code behaves.**

- **Empty data.** The `+Infinity` sentinel for the minimum is clamped to 0,
  so the code returns `[0, -Infinity]` (`SharedDomain.EmptyDataDomain`).
- **Named sort without a value accessor.** Every metric is 0, so a first
  render keeps first-seen order (`Ordering.NoValueKeyKeepsOrder`). After an
  in-place label sort of the memoised array it does not (see Findings).

## Model

| member | source | states |
|---|---|---|
| StableSort.SortInPlace | src/components/Trellis.tsx:202-206 | sorting an array in place leaves exactly the stable sort (`SortBy`) of its old contents |
| StableSort.SortBySorted | src/components/Trellis.tsx:202-206 | for a total preorder, the stable sort's output is sorted |
| StableSort.SortByPermutes | src/components/Trellis.tsx:202-206 | the stable sort's output is a permutation of its input |
| StableSort.SortByStable | src/components/Trellis.tsx:202-206 | for a total preorder, the output is sorted and, for every element, the elements tied with it appear in the same order before and after sorting (stability) |
| StableSort.SortByTiedWith | src/components/Trellis.tsx:202-206 | sorting keeps the run of elements tied with any given element unchanged |
| StableSort.SortBySortedInput | src/components/Trellis.tsx:202-206 | an already sorted input is returned unchanged |
| StableSort.SortedStableUnique | src/components/Trellis.tsx:202-206 | any sorted sequence with the same tied runs as the input equals `SortBy`, so the result does not depend on which stable algorithm the engine uses |
| StableSort.SortByAllTied | src/components/Trellis.tsx:188-206 | when every pair compares as equal, the sort returns its input unchanged |
| StableSort.SortByMap | src/components/Trellis.tsx:187-208 | sorting commutes with a map that carries one order onto the other |
| Grouping.Collect | src/components/Trellis.tsx:166-171 | the map `group` builds lists each label once, and has exactly the listed labels as keys |
| Grouping.AddRow | src/components/Trellis.tsx:167-170 | one step of `group` keeps the map well formed, gives the row's label a non-empty bucket, and drops no label |
| Grouping.EntriesAddKnown | src/components/Trellis.tsx:166-171 | pushing a row onto an existing bucket changes only that label's entry, in place |
| Grouping.EntriesAddNew | src/components/Trellis.tsx:166-171 | a row with a new label appends one entry holding just that row |
| Grouping.CollectMatchesSelect | src/components/Trellis.tsx:165-172 | a label has a bucket exactly when some row carries it, and that bucket is exactly the rows with that label, in input order |
| Grouping.GroupKeysDistinct | src/components/Trellis.tsx:165-172 | no two facets share a label |
| Grouping.GroupSubsets | src/components/Trellis.tsx:165-172 | each facet's label is some row's label, its rows are exactly the rows with that label, in input order, and it is non-empty |
| Grouping.GroupCovers | src/components/Trellis.tsx:165-172 | every row's label has a facet |
| Grouping.GroupFirstSeen | src/components/Trellis.tsx:166-171 | facets are listed in the order their labels first occur in the rows |
| Grouping.GroupCountsRows | src/components/Trellis.tsx:165-172 | the facets together hold exactly as many rows as the input |
| Grouping.GroupPartitions | src/components/Trellis.tsx:165-172 | all of the above together: the facets partition the rows by label, in first-seen order |
| Grouping.RowInExactlyOneFacet | src/components/Trellis.tsx:165-172 | each row lies in the facet with its own label and in no facet with another label |
| Grouping.GroupEmpty | src/components/Trellis.tsx:165-172 | no rows give no facets |
| Search.LowerCharFoldsCase | src/components/Trellis.tsx:180 | lower-casing one character never yields an ASCII capital, sends a capital and its small letter to the same character, and changes a character exactly when it is a capital |
| Search.ToLower | src/components/Trellis.tsx:180 | lower-casing keeps the length and lower-cases each code point (Unicode scalar value) |
| Search.IncludesOccurs | src/components/Trellis.tsx:180 | `includes` holds exactly when the query occurs at some offset of the label |
| Search.IncludesEmpty | src/components/Trellis.tsx:180 | every label includes the empty string |
| Search.KeepMembers | src/components/Trellis.tsx:179-181 | a facet survives the filter exactly when it is one of the facets and its label matches |
| Search.KeepSubsequence | src/components/Trellis.tsx:179-181 | the filter keeps the surviving facets in their order, unchanged |
| Search.FilterFacetsSpec | src/components/Trellis.tsx:177-182 | an empty query keeps every facet as is; a non-empty query keeps exactly the matching facets, as a subsequence; never more facets than before |
| Search.KeepEmptyQuery | src/components/Trellis.tsx:178 | filtering with the empty string would keep every facet, so skipping it for an empty query changes nothing |
| Search.MatchesIgnoresCase | src/components/Trellis.tsx:180 | matching is insensitive to ASCII letter case on both sides |
| Search.LowerIdempotent | src/components/Trellis.tsx:180 | lower-casing twice is lower-casing once |
| Ordering.DecoratedSort | src/components/Trellis.tsx:187-208 | attaching the metric, sorting by it and stripping it again is the same as sorting facets by their metric |
| Ordering.SortByMetricOnce | src/components/Trellis.tsx:185-207 | computing each metric once into a decorated array, sorting that array in place and stripping the metrics gives the facets sorted by their metric |
| Ordering.ProcessFacets | src/components/Trellis.tsx:175-214 | the filter-and-sort memo (corrected to never sort the memoised array) returns `Process`, the filtered facets sorted by metric or by label |
| Ordering.ProcessFacetsInPlace | src/components/Trellis.tsx:175-214 | the memo as written returns `Process` of the old facets. With an empty query and the `default` sort, it returns the memoised array itself, now reordered; otherwise it leaves that array alone |
| Ordering.MetricOrderTotal | src/components/Trellis.tsx:202-206 | the metric comparator is a total preorder in both directions |
| Ordering.LabelOrderTotal | src/components/Trellis.tsx:212 | the label comparator is a total preorder when the locale order is one |
| Ordering.ProcessMetricSort | src/components/Trellis.tsx:185-208 | a non-default sort permutes the filtered facets, orders metrics non-decreasing for `asc` and non-increasing for `desc`, and keeps facets with equal metrics in filtered order |
| Ordering.CustomMetricSort | src/components/Trellis.tsx:189-190 | a function-typed sort orders facets by that function applied to their rows |
| Ordering.NamedMetricSort | src/components/Trellis.tsx:191-192 | a named sort with a value accessor orders facets by `calculateMetric` |
| Ordering.NoValueKeyKeepsOrder | src/components/Trellis.tsx:188-193 | a named sort without a value accessor gives every facet metric 0 and returns the filtered facets in their order |
| Ordering.ProcessDefaultSort | src/components/Trellis.tsx:211-212 | the `default` sort permutes the filtered facets into ascending label order, stably, with the same result for `asc` and `desc` |
| Ordering.ProcessPermutes | src/components/Trellis.tsx:175-214 | whatever the sort, the result is a permutation of the filtered facets |
| Ordering.ProcessKeepsFacets | src/components/Trellis.tsx:175-214 | every shown facet is one of the grouped facets, unchanged, and there are no more of them |
| SharedDomain.GlobalYDomain | src/components/Trellis.tsx:217-235 | the shared-scale memo's loop computes `YDomain`: the selection, then the running min/max scan and the clamp |
| SharedDomain.ScanFindsBounds | src/components/Trellis.tsx:222-230 | scanning non-empty values ends with finite bounds that are among the values and enclose all of them |
| SharedDomain.ComputedDomain | src/components/Trellis.tsx:222-234 | for non-empty data, max is the greatest value and min is min(0, least value); every row is within bounds |
| SharedDomain.EmptyDataDomain | src/components/Trellis.tsx:222-234 | empty data gives `[0, -Infinity]` |
| SharedDomain.DomainSelection | src/components/Trellis.tsx:218-220 | an explicit domain is returned even with shared scale off; otherwise shared scale off or no value accessor gives no domain |
| Trellis.Render | src/components/Trellis.tsx:162-235 | one render yields the grouping, the filtered-and-sorted facets of that grouping, and a domain that depends only on the rows, the value accessor and the scale options, never on the query or the sort |
| Trellis.ShownFacetsAreGroups | src/components/Trellis.tsx:250 | the visible count never exceeds the total, and every shown facet holds exactly the rows with its label and is non-empty |
| Trellis.SearchShowsMatchingGroups | src/components/Trellis.tsx:177-182 | with a non-empty query, a label is shown exactly when some row carries it and it matches the query |
| Trellis.MatchingGroupShown | src/components/Trellis.tsx:177-182 | a label carried by some row and matching the query is shown |
| Trellis.ShownGroupMatches | src/components/Trellis.tsx:177-182 | a shown facet's label is carried by some row and matches the query |
| Scenarios.RendersGivenFacets | src/components/Trellis.test.tsx:31-45 | the mock data by region gives facets `A` and `B`, two rows each, in that order under the default sort |
| Scenarios.SearchLeavesA | src/components/Trellis.test.tsx:47-67 | searching `A` leaves only facet `A` |
| Scenarios.SumDescending | src/components/Trellis.test.tsx:69-86 | sorting by `sum` descending puts `B` (70) before `A` (30) |
| Scenarios.CustomCountDescending | src/components/Trellis.test.tsx:88-116 | sorting by the row count, descending, puts `B` (3 rows) before `A` (1 row) |
| Scenarios.SharedScaleOfMockData | src/components/Trellis.test.tsx:118-136 | the shared domain of the mock data is `[0, 40]` |
| Scenarios.StaleOrderAcrossRenders | src/components/Trellis.tsx:177-212 | after a `default` render, a later named sort without a value accessor shows `A, B` as written, where the first-seen order `B, A` is intended |

## Left out

- `calculateMetric` and its `sum`, `max`, `deviation` and `trend` formulas. They live in `components/utils/analytics`, which is not part of this model, and two of them are floating point. The metric is an abstract integer function.
- `localeCompare` locale rules: a foreign Intl call, replaced by an abstract order on strings.
- Search.ToLower: maps only the ASCII letters, because JavaScript's full Unicode case mapping (including changes of length) is not modelled.
- Labels and queries are sequences of Unicode scalar values (Dafny's `char`), not of UTF-16 code units. Lone surrogates and code-unit lengths (an astral character has length 2 in JavaScript) are not modelled; `includes` gives the same answer on well-formed strings.
- JavaScript numbers: values and metrics are integers. NaN in the `a.metric - b.metric` comparator, non-integer values and `Number()` conversion of field values are not modelled. Infinity appears only as the scan's sentinels.
- Ordering.ProcessMetricSort and StableSort.SortBySorted: sortedness assumes a consistent comparator. What `Array.prototype.sort` does with an inconsistent one (NaN metrics, a locale order that is not a total preorder) is implementation-defined and not modelled.
- A value accessor given as a field name that is falsy (the empty string) counts as absent at line 191 (no named metric) and at line 220 (no shared domain). The model takes the accessor as present or absent.
- Prop defaults: `sharedScale` defaults to `true` (Trellis.tsx:136). `Trellis.Render` takes the flag as an explicit argument, so a caller that omits the prop passes `true`; the `sortConfig` default of line 145 is `Ordering.DefaultSortConfig`.
- `useDebounce` (timers and React effects): the model takes the debounced query as an input.
- The controlled/uncontrolled search state and `handleSearchChange`: React state plumbing.
- `useMemo` caching: each memo is modelled as the function it recomputes. The finding shows the one place where reusing the cached `facets` array is observable.
- `TrellisItem`, `useInView`, skeletons, click and keyboard handlers, `cn` and all rendering: UI.
- `src/App.tsx`, `src/components/DetailModal.tsx`, `src/setupTests.ts`, `vite.lib.config.ts` and `src/index.ts` are not part of this model. They are UI, test mocks, build configuration and re-exports.

## Findings

| source | as written | input that shows it | evidently intended | confidence | as-written member | corrected member |
|---|---|---|---|---|---|---|
| src/components/Trellis.tsx:177, 212 | With an empty query, `result` is the memoised `facets` array, and the `default` sort calls `result.sort(...)`, which reorders that cached array in place. A later memo run with another sort starts from label order, not first-seen order. | Rows labelled `B` then `A`, with `data` and `facetKey` keeping their identity between the two renders (a string `facetKey`, say), so that the `facets` memo of line 172 is not rebuilt. Render with the default sort and no query, then with `sum` and no value accessor. The second render shows `A, B`. An inline arrow-function `facetKey` rebuilds `facets` on every render and does not show it. | The memo does not mutate `facets`. A named sort without a value accessor keeps first-seen order `B, A`, as it does on a first render. | not executed | Ordering.ProcessFacetsInPlace (counterexample: Scenarios.StaleOrderAcrossRenders) | Ordering.ProcessFacets (used by Trellis.Render; order proved by Ordering.NoValueKeyKeepsOrder) |
