/** The filter-and-sort step of the trellis (the second memo): keep the facets
    that match the query, then order them by a per-facet metric or, for the
    `default` sort, by label. */
module Ordering {
  import opened Optional
  import opened Grouping
  import opened Search
  import opened StableSort

  /** The named kinds of metric. */
  datatype MetricType = Default | Sum | Max | Deviation | Trend

  /** The `type` of a sort configuration: a named metric, or the caller's own
      function of a facet's rows. */
  datatype SortType<!T> = Named(kind: MetricType) | Custom(metricOf: seq<T> -> int)

  datatype Direction = Asc | Desc

  datatype SortConfig<!T> = SortConfig(sortType: SortType<T>, direction: Direction)

  /** The configuration used when the caller passes none. */
  function DefaultSortConfig<T>(): SortConfig<T> {
    SortConfig(Named(Default), Asc)
  }

  predicate IsDefault<T>(config: SortConfig<T>) {
    config.sortType.Named? && config.sortType.kind == Default
  }

  /** `calculateMetric(subset, valueKey, type)`: the named metrics, computed
      from each row's value. Their formulas are not part of this model. */
  type MetricFn<!T> = (seq<T>, T -> int, MetricType) -> int

  /** The sort key of one facet when the sort is not `default`. */
  function Metric<T>(config: SortConfig<T>, valueKey: Option<T -> int>,
                     calculateMetric: MetricFn<T>, subset: seq<T>): int
  {
    match config.sortType
    case Custom(metricOf) => metricOf(subset)
    case Named(kind) => if valueKey.Some? then calculateMetric(subset, valueKey.value, kind) else 0
  }

  /** A facet together with its metric, as built before sorting. */
  datatype Scored<T> = Scored(key: string, subset: seq<T>, metric: int)

  function Attach<T>(config: SortConfig<T>, valueKey: Option<T -> int>,
                     calculateMetric: MetricFn<T>): Facet<T> -> Scored<T>
  {
    (f: Facet<T>) => Scored(f.key, f.subset, Metric(config, valueKey, calculateMetric, f.subset))
  }

  function Strip<T>(): Scored<T> -> Facet<T> {
    (x: Scored<T>) => Facet(x.key, x.subset)
  }

  /** The metric comparator `a.metric - b.metric` (or its negation for
      `desc`), as "the comparator is at most 0". */
  function ByMetric<T>(direction: Direction): (Scored<T>, Scored<T>) -> bool {
    (a: Scored<T>, b: Scored<T>) => if direction == Asc then a.metric <= b.metric else b.metric <= a.metric
  }

  /** The same order, stated on facets. */
  function FacetsByMetric<T>(config: SortConfig<T>, valueKey: Option<T -> int>,
                             calculateMetric: MetricFn<T>): (Facet<T>, Facet<T>) -> bool
  {
    (a: Facet<T>, b: Facet<T>) =>
      var ma := Metric(config, valueKey, calculateMetric, a.subset);
      var mb := Metric(config, valueKey, calculateMetric, b.subset);
      if config.direction == Asc then ma <= mb else mb <= ma
  }

  /** `a[0].localeCompare(b[0]) <= 0`, given the locale's order on strings. */
  function ByLabel<T>(localeLe: (string, string) -> bool): (Facet<T>, Facet<T>) -> bool {
    (a: Facet<T>, b: Facet<T>) => localeLe(a.key, b.key)
  }

  /** Step B on already filtered facets. */
  function SortFacets<T>(result: seq<Facet<T>>, config: SortConfig<T>, valueKey: Option<T -> int>,
                         calculateMetric: MetricFn<T>, localeLe: (string, string) -> bool): seq<Facet<T>>
  {
    if !IsDefault(config) then SortBy(FacetsByMetric(config, valueKey, calculateMetric), result)
    else SortBy(ByLabel(localeLe), result)
  }

  /** What the filter-and-sort memo computes from the grouped facets. */
  function Process<T>(facets: seq<Facet<T>>, query: string, config: SortConfig<T>,
                      valueKey: Option<T -> int>, calculateMetric: MetricFn<T>,
                      localeLe: (string, string) -> bool): seq<Facet<T>>
  {
    SortFacets(FilterFacets(facets, query), config, valueKey, calculateMetric, localeLe)
  }

  // ---- The imperative step, as the component runs it ----

  method ArrayOf<X>(s: seq<X>) returns (a: array<X>)
    ensures fresh(a) && a[..] == s
  {
    a := new X[|s|](i requires 0 <= i < |s| => s[i]);
  }

  /** Decorating with the metric, sorting, and stripping the metric again
      sorts the facets by their metric. */
  lemma DecoratedSort<T>(result: seq<Facet<T>>, config: SortConfig<T>, valueKey: Option<T -> int>,
                         calculateMetric: MetricFn<T>)
    ensures MapSeq(Strip(), SortBy(ByMetric(config.direction), MapSeq(Attach(config, valueKey, calculateMetric), result)))
         == SortBy(FacetsByMetric(config, valueKey, calculateMetric), result)
  {
    var attach := Attach(config, valueKey, calculateMetric);
    var le := FacetsByMetric(config, valueKey, calculateMetric);
    SortByMap(le, ByMetric(config.direction), attach, result);
    var sorted := SortBy(le, result);
    assert MapSeq(Strip(), MapSeq(attach, sorted)) == sorted;
  }

  /** The metric branch: compute each facet's metric once, sort the
      decorated facets by it, and strip the metric again. */
  method SortByMetricOnce<T>(result: seq<Facet<T>>, config: SortConfig<T>, valueKey: Option<T -> int>,
                             calculateMetric: MetricFn<T>)
    returns (sorted: seq<Facet<T>>)
    ensures sorted == SortBy(FacetsByMetric(config, valueKey, calculateMetric), result)
  {
    var withMetrics := ArrayOf(MapSeq(Attach(config, valueKey, calculateMetric), result));
    SortInPlace(withMetrics, ByMetric(config.direction));
    sorted := MapSeq(Strip(), withMetrics[..]);
    DecoratedSort(result, config, valueKey, calculateMetric);
  }

  /** The filter-and-sort memo. Unlike the component, it never sorts the
      caller's facet list: the filtered list is always a fresh array. */
  method ProcessFacets<T>(facets: seq<Facet<T>>, query: string, config: SortConfig<T>,
                          valueKey: Option<T -> int>, calculateMetric: MetricFn<T>,
                          localeLe: (string, string) -> bool)
    returns (processed: seq<Facet<T>>)
    ensures processed == Process(facets, query, config, valueKey, calculateMetric, localeLe)
  {
    var result := ArrayOf(FilterFacets(facets, query));
    if !IsDefault(config) {
      processed := SortByMetricOnce(result[..], config, valueKey, calculateMetric);
      return;
    }
    SortInPlace(result, ByLabel(localeLe));
    processed := result[..];
  }

  /** The filter-and-sort memo as the component writes it: with an empty
      query, `result` is the memoised `facets` array itself, and the `default`
      sort reorders that array in place. */
  method ProcessFacetsInPlace<T>(facets: array<Facet<T>>, query: string, config: SortConfig<T>,
                                 valueKey: Option<T -> int>, calculateMetric: MetricFn<T>,
                                 localeLe: (string, string) -> bool)
    returns (processed: array<Facet<T>>)
    modifies facets
    ensures processed[..] == Process(old(facets[..]), query, config, valueKey, calculateMetric, localeLe)
    ensures query == "" && IsDefault(config) ==> processed == facets
    ensures !(query == "" && IsDefault(config)) ==> fresh(processed) && facets[..] == old(facets[..])
  {
    var result := facets;
    if query != "" {
      result := ArrayOf(FilterFacets(facets[..], query));
    }
    if !IsDefault(config) {
      var sorted := SortByMetricOnce(result[..], config, valueKey, calculateMetric);
      processed := ArrayOf(sorted);
      return;
    }
    SortInPlace(result, ByLabel(localeLe));
    processed := result;
  }

  // ---- Properties of the filter-and-sort step ----

  lemma MetricOrderTotal<T(!new)>(config: SortConfig<T>, valueKey: Option<T -> int>,
                                  calculateMetric: MetricFn<T>)
    ensures TotalPreorder(FacetsByMetric(config, valueKey, calculateMetric))
  {}

  lemma LabelOrderTotal<T(!new)>(localeLe: (string, string) -> bool)
    requires TotalPreorder(localeLe)
    ensures TotalPreorder(ByLabel<T>(localeLe))
  {
    var le := ByLabel<T>(localeLe);
    forall a: Facet<T>, b: Facet<T> ensures le(a, b) || le(b, a) {
      assert localeLe(a.key, b.key) || localeLe(b.key, a.key);
    }
    forall a: Facet<T>, b: Facet<T>, c: Facet<T> | le(a, b) && le(b, c) ensures le(a, c) {
      assert localeLe(a.key, b.key) && localeLe(b.key, c.key);
    }
  }

  /** For a metric sort, the result is the filtered facets reordered by
      metric (ascending for `asc`, descending for `desc`), each facet kept
      whole, and facets with equal metrics kept in their filtered order. */
  lemma ProcessMetricSort<T(!new)>(facets: seq<Facet<T>>, query: string, config: SortConfig<T>,
                                   valueKey: Option<T -> int>, calculateMetric: MetricFn<T>,
                                   localeLe: (string, string) -> bool)
    requires !IsDefault(config)
    ensures var r := Process(facets, query, config, valueKey, calculateMetric, localeLe);
      var m := (f: Facet<T>) => Metric(config, valueKey, calculateMetric, f.subset);
      && multiset(r) == multiset(FilterFacets(facets, query))
      && (config.direction == Asc ==> forall i, j :: 0 <= i < j < |r| ==> m(r[i]) <= m(r[j]))
      && (config.direction == Desc ==> forall i, j :: 0 <= i < j < |r| ==> m(r[i]) >= m(r[j]))
      && SameTiedRuns(FacetsByMetric(config, valueKey, calculateMetric), r, FilterFacets(facets, query))
  {
    var le := FacetsByMetric(config, valueKey, calculateMetric);
    MetricOrderTotal(config, valueKey, calculateMetric);
    SortByStable(le, FilterFacets(facets, query));
    SortByPermutes(le, FilterFacets(facets, query));
  }

  /** A caller's function orders facets by its value on each facet's rows. */
  lemma CustomMetricSort<T(!new)>(facets: seq<Facet<T>>, query: string, config: SortConfig<T>,
                                  valueKey: Option<T -> int>, calculateMetric: MetricFn<T>,
                                  localeLe: (string, string) -> bool)
    requires config.sortType.Custom?
    ensures var r := Process(facets, query, config, valueKey, calculateMetric, localeLe);
      var f := config.sortType.metricOf;
      && (config.direction == Asc ==> forall i, j :: 0 <= i < j < |r| ==> f(r[i].subset) <= f(r[j].subset))
      && (config.direction == Desc ==> forall i, j :: 0 <= i < j < |r| ==> f(r[i].subset) >= f(r[j].subset))
  {
    ProcessMetricSort(facets, query, config, valueKey, calculateMetric, localeLe);
  }

  /** A named metric with a value accessor orders facets by `calculateMetric`. */
  lemma NamedMetricSort<T(!new)>(facets: seq<Facet<T>>, query: string, config: SortConfig<T>,
                                 valueKey: Option<T -> int>, calculateMetric: MetricFn<T>,
                                 localeLe: (string, string) -> bool)
    requires !IsDefault(config) && config.sortType.Named? && valueKey.Some?
    ensures var r := Process(facets, query, config, valueKey, calculateMetric, localeLe);
      var m := (f: Facet<T>) => calculateMetric(f.subset, valueKey.value, config.sortType.kind);
      && (config.direction == Asc ==> forall i, j :: 0 <= i < j < |r| ==> m(r[i]) <= m(r[j]))
      && (config.direction == Desc ==> forall i, j :: 0 <= i < j < |r| ==> m(r[i]) >= m(r[j]))
  {
    ProcessMetricSort(facets, query, config, valueKey, calculateMetric, localeLe);
  }

  /** A named metric without a value accessor gives every facet metric 0, so
      the stable sort leaves the filtered order as it was. */
  lemma NoValueKeyKeepsOrder<T>(facets: seq<Facet<T>>, query: string, config: SortConfig<T>,
                                calculateMetric: MetricFn<T>, localeLe: (string, string) -> bool)
    requires !IsDefault(config) && config.sortType.Named?
    ensures Process(facets, query, config, None, calculateMetric, localeLe) == FilterFacets(facets, query)
  {
    var result := FilterFacets(facets, query);
    var le := FacetsByMetric(config, None, calculateMetric);
    forall a, b | a in result && b in result ensures le(a, b) {
      assert Metric(config, None, calculateMetric, a.subset) == 0;
      assert Metric(config, None, calculateMetric, b.subset) == 0;
    }
    SortByAllTied(le, result);
  }

  /** The `default` sort orders the filtered facets by label, ascending, and
      does not look at the direction. */
  lemma ProcessDefaultSort<T(!new)>(facets: seq<Facet<T>>, query: string, config: SortConfig<T>,
                                    valueKey: Option<T -> int>, calculateMetric: MetricFn<T>,
                                    localeLe: (string, string) -> bool)
    requires IsDefault(config) && TotalPreorder(localeLe)
    ensures var r := Process(facets, query, config, valueKey, calculateMetric, localeLe);
      && multiset(r) == multiset(FilterFacets(facets, query))
      && (forall i, j :: 0 <= i < j < |r| ==> localeLe(r[i].key, r[j].key))
      && SameTiedRuns(ByLabel(localeLe), r, FilterFacets(facets, query))
      && r == Process(facets, query, SortConfig(Named(Default), Asc), valueKey, calculateMetric, localeLe)
      && r == Process(facets, query, SortConfig(Named(Default), Desc), valueKey, calculateMetric, localeLe)
  {
    var le := ByLabel<T>(localeLe);
    LabelOrderTotal<T>(localeLe);
    SortByStable(le, FilterFacets(facets, query));
    SortByPermutes(le, FilterFacets(facets, query));
  }

  /** Whatever the sort, the result is a permutation of the filtered facets. */
  lemma ProcessPermutes<T>(facets: seq<Facet<T>>, query: string, config: SortConfig<T>,
                           valueKey: Option<T -> int>, calculateMetric: MetricFn<T>,
                           localeLe: (string, string) -> bool)
    ensures multiset(Process(facets, query, config, valueKey, calculateMetric, localeLe))
         == multiset(FilterFacets(facets, query))
  {
    var result := FilterFacets(facets, query);
    if !IsDefault(config) {
      SortByPermutes(FacetsByMetric(config, valueKey, calculateMetric), result);
    } else {
      SortByPermutes(ByLabel(localeLe), result);
    }
  }

  /** Every facet shown is one of the grouped facets, unchanged, and no more
      facets are shown than there are. */
  lemma ProcessKeepsFacets<T>(facets: seq<Facet<T>>, query: string, config: SortConfig<T>,
                              valueKey: Option<T -> int>, calculateMetric: MetricFn<T>,
                              localeLe: (string, string) -> bool)
    ensures var r := Process(facets, query, config, valueKey, calculateMetric, localeLe);
      && |r| <= |facets|
      && forall f :: f in r ==> f in facets
  {
    var result := FilterFacets(facets, query);
    FilterFacetsSpec(facets, query);
    var r := Process(facets, query, config, valueKey, calculateMetric, localeLe);
    ProcessPermutes(facets, query, config, valueKey, calculateMetric, localeLe);
    forall f | f in r ensures f in facets {
      assert f in multiset(r);
      assert f in result;
      SubsequenceMembers(result, facets, f);
    }
  }
}
