/** The data pipeline of the `Trellis` component, from its props to what it
    hands to the charts: the grouped facets, the facets to show in order, and
    the shared y-domain. Both accessors are taken as functions (a field name
    `k` is the function `d => String(d[k])` or `d => Number(d[k])`). */
module Trellis {
  import opened Optional
  import opened Grouping
  import opened Search
  import opened Ordering
  import opened SharedDomain

  /** One render: the split memo, the filter-and-sort memo and the
      shared-scale memo. `debouncedQuery` is the query after the debounce. */
  method Render<T>(data: seq<T>, facetKey: T -> string, valueKey: Option<T -> int>,
                   explicitYDomain: Option<(int, int)>, sharedScale: bool,
                   debouncedQuery: string, sortConfig: SortConfig<T>,
                   calculateMetric: MetricFn<T>, localeLe: (string, string) -> bool)
    returns (facets: seq<Facet<T>>, processedFacets: seq<Facet<T>>, yDomain: Option<Domain>)
    ensures facets == Group(data, facetKey)
    ensures processedFacets
         == Process(Group(data, facetKey), debouncedQuery, sortConfig, valueKey, calculateMetric, localeLe)
    ensures yDomain == YDomain(data, sharedScale, explicitYDomain, valueKey)
  {
    facets := Group(data, facetKey);
    processedFacets := ProcessFacets(facets, debouncedQuery, sortConfig, valueKey, calculateMetric, localeLe);
    yDomain := GlobalYDomain(data, sharedScale, explicitYDomain, valueKey);
  }

  /** Every facet shown is a whole group of the data: its rows are exactly the
      rows carrying its label, in input order, and there is at least one. The
      counter `visible / total` never shows more visible than total facets. */
  lemma ShownFacetsAreGroups<T>(data: seq<T>, facetKey: T -> string, debouncedQuery: string,
                                sortConfig: SortConfig<T>, valueKey: Option<T -> int>,
                                calculateMetric: MetricFn<T>, localeLe: (string, string) -> bool)
    ensures var facets := Group(data, facetKey);
      var shown := Process(facets, debouncedQuery, sortConfig, valueKey, calculateMetric, localeLe);
      && |shown| <= |facets|
      && forall f :: f in shown ==> f.subset == Select(data, facetKey, f.key) && f.subset != []
  {
    var facets := Group(data, facetKey);
    GroupPartitions(data, facetKey);
    ProcessKeepsFacets(facets, debouncedQuery, sortConfig, valueKey, calculateMetric, localeLe);
  }

  /** Searching shows exactly the groups whose label matches the query. */
  lemma SearchShowsMatchingGroups<T>(data: seq<T>, facetKey: T -> string, debouncedQuery: string,
                                     sortConfig: SortConfig<T>, valueKey: Option<T -> int>,
                                     calculateMetric: MetricFn<T>, localeLe: (string, string) -> bool)
    requires debouncedQuery != ""
    ensures var shown := Process(Group(data, facetKey), debouncedQuery, sortConfig, valueKey, calculateMetric, localeLe);
      forall l :: (exists f :: f in shown && f.key == l)
        <==> l in Keys(data, facetKey) && Matches(l, debouncedQuery)
  {
    var shown := Process(Group(data, facetKey), debouncedQuery, sortConfig, valueKey, calculateMetric, localeLe);
    forall l ensures (exists f :: f in shown && f.key == l) <==> l in Keys(data, facetKey) && Matches(l, debouncedQuery) {
      if l in Keys(data, facetKey) && Matches(l, debouncedQuery) {
        MatchingGroupShown(data, facetKey, debouncedQuery, sortConfig, valueKey, calculateMetric, localeLe, l);
      }
      if f :| f in shown && f.key == l {
        ShownGroupMatches(data, facetKey, debouncedQuery, sortConfig, valueKey, calculateMetric, localeLe, f);
      }
    }
  }

  lemma MatchingGroupShown<T>(data: seq<T>, facetKey: T -> string, debouncedQuery: string,
                              sortConfig: SortConfig<T>, valueKey: Option<T -> int>,
                              calculateMetric: MetricFn<T>, localeLe: (string, string) -> bool, l: string)
    requires debouncedQuery != "" && l in Keys(data, facetKey) && Matches(l, debouncedQuery)
    ensures exists f :: f in Process(Group(data, facetKey), debouncedQuery, sortConfig, valueKey, calculateMetric, localeLe)
                        && f.key == l
  {
    var facets := Group(data, facetKey);
    var shown := Process(facets, debouncedQuery, sortConfig, valueKey, calculateMetric, localeLe);
    var kept := FilterFacets(facets, debouncedQuery);
    var b := Collect(data, facetKey);
    CollectAt(data, facetKey, l);
    var i :| 0 <= i < |b.order| && b.order[i] == l;
    var f := facets[i];
    assert f.key == l;
    assert f in facets;
    KeepMembers(facets, debouncedQuery);
    assert f in kept;
    ProcessPermutes(facets, debouncedQuery, sortConfig, valueKey, calculateMetric, localeLe);
    assert f in multiset(kept);
    assert f in shown;
  }

  lemma ShownGroupMatches<T>(data: seq<T>, facetKey: T -> string, debouncedQuery: string,
                             sortConfig: SortConfig<T>, valueKey: Option<T -> int>,
                             calculateMetric: MetricFn<T>, localeLe: (string, string) -> bool, f: Facet<T>)
    requires debouncedQuery != ""
    requires f in Process(Group(data, facetKey), debouncedQuery, sortConfig, valueKey, calculateMetric, localeLe)
    ensures f.key in Keys(data, facetKey) && Matches(f.key, debouncedQuery)
  {
    var facets := Group(data, facetKey);
    var shown := Process(facets, debouncedQuery, sortConfig, valueKey, calculateMetric, localeLe);
    var kept := FilterFacets(facets, debouncedQuery);
    GroupSubsets(data, facetKey);
    KeepMembers(facets, debouncedQuery);
    ProcessPermutes(facets, debouncedQuery, sortConfig, valueKey, calculateMetric, localeLe);
    assert f in multiset(shown);
    assert f in kept;
    var i :| 0 <= i < |facets| && facets[i] == f;
  }
}
