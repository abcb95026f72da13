/** The outcomes the component's own tests expect, worked out on the model,
    and the render sequence that shows the stale order left behind by the
    in-place label sort. */
module Scenarios {
  import opened Optional
  import opened Grouping
  import opened Search
  import opened StableSort
  import opened Ordering
  import opened SharedDomain

  datatype Row = Row(region: string, category: string, value: int)

  /** `facetKey="region"`. */
  function Region(): Row -> string {
    (r: Row) => r.region
  }

  /** `valueKey="value"`. */
  function Value(): Row -> int {
    (r: Row) => r.value
  }

  function MockData(): seq<Row> {
    [Row("A", "X", 10), Row("A", "Y", 20), Row("B", "X", 30), Row("B", "Y", 40)]
  }

  function CustomData(): seq<Row> {
    [Row("A", "X", 10), Row("B", "X", 30), Row("B", "Y", 40), Row("B", "Z", 50)]
  }

  /** Plain code-point order on strings, standing in for `localeCompare` on
      these one-letter labels. */
  predicate CodePointLe(a: string, b: string) {
    a == [] || (b != [] && (a[0] < b[0] || (a[0] == b[0] && CodePointLe(a[1..], b[1..]))))
  }

  function SumOf(values: seq<int>): int {
    if values == [] then 0 else SumOf(values[..|values| - 1]) + values[|values| - 1]
  }

  /** The `sum` metric, the only named metric these tests use. */
  function SumMetric(): MetricFn<Row> {
    (subset: seq<Row>, valueOf: Row -> int, kind: MetricType) =>
      if kind == Sum then SumOf(MapSeq(valueOf, subset)) else 0
  }

  /** `group` visits the rows in order: grouping one more row is one more
      `AddRow` step. */
  lemma CollectStep<T>(rows: seq<T>, facetKey: T -> string, i: nat)
    requires 0 < i <= |rows|
    ensures Collect(rows[..i], facetKey) == AddRow(Collect(rows[..i - 1], facetKey), facetKey(rows[i - 1]), rows[i - 1])
  {
    assert rows[..i][..i - 1] == rows[..i - 1];
  }

  /** The stable sort of two elements swaps them exactly when the second
      must come first. */
  lemma SortPair<X>(le: (X, X) -> bool, x: X, y: X)
    ensures SortBy(le, [x, y]) == if le(x, y) then [x, y] else [y, x]
  {
    assert [x, y][..1] == [x];
    assert [x][..0] == [];
    assert SortBy(le, [x]) == Insert(le, SortBy(le, []), x) == [x];
    assert SortBy(le, [x, y]) == Insert(le, [x], y);
    if !le(x, y) {
      assert Insert(le, [x], y) == Insert(le, [], y) + [x];
    }
  }

  /** Growing the bucket of `l` from `rows[j..i - 1]` to `rows[j..i]`. */
  lemma GrowBucket<T>(m: map<string, seq<T>>, l: string, rows: seq<T>, j: nat, i: nat)
    requires j < i <= |rows|
    ensures m[l := rows[j..i - 1]][l := m[l := rows[j..i - 1]][l] + [rows[i - 1]]] == m[l := rows[j..i]]
  {
    assert rows[j..i - 1] + [rows[i - 1]] == rows[j..i];
  }

  /** A row whose label owns the bucket `rows[j..i - 1]` extends it to `rows[j..i]`. */
  lemma CollectStepKnown<T>(rows: seq<T>, facetKey: T -> string, i: nat, j: nat,
                            order: seq<string>, m: map<string, seq<T>>, l: string)
    requires j < i <= |rows| && facetKey(rows[i - 1]) == l
    requires Collect(rows[..i - 1], facetKey) == Buckets(order, m[l := rows[j..i - 1]])
    ensures Collect(rows[..i], facetKey) == Buckets(order, m[l := rows[j..i]])
  {
    CollectStep(rows, facetKey, i);
    GrowBucket(m, l, rows, j, i);
  }

  /** A row with a new label opens the bucket `rows[i - 1..i]` at the end of the order. */
  lemma CollectStepNew<T>(rows: seq<T>, facetKey: T -> string, i: nat,
                          order: seq<string>, m: map<string, seq<T>>, l: string)
    requires 0 < i <= |rows| && facetKey(rows[i - 1]) == l && l !in m
    requires Collect(rows[..i - 1], facetKey) == Buckets(order, m)
    ensures Collect(rows[..i], facetKey) == Buckets(order + [l], m[l := rows[i - 1..i]])
  {
    CollectStep(rows, facetKey, i);
    SliceOfOne(rows, i - 1);
  }

  lemma SliceOfOne<T>(rows: seq<T>, p: nat)
    requires p < |rows|
    ensures rows[p..p + 1] == [rows[p]]
  {}

  /** The first row opens the first bucket. */
  lemma CollectFirst<T>(rows: seq<T>, facetKey: T -> string)
    requires rows != []
    ensures Collect(rows[..1], facetKey) == Buckets([facetKey(rows[0])], map[][facetKey(rows[0]) := rows[0..1]])
  {
    assert rows[..0] == [];
    CollectStepNew(rows, facetKey, 1, [], map[], facetKey(rows[0]));
  }

  /** Two runs of rows, labelled `la` then `lb`: the map `group` builds after
      the first `i` rows, where the second run starts at `j`. */
  lemma {:induction false} CollectTwoRuns<T>(rows: seq<T>, facetKey: T -> string, la: string, lb: string, j: nat, i: nat)
    requires 0 < j < i <= |rows| && la != lb
    requires forall p :: 0 <= p < j ==> facetKey(rows[p]) == la
    requires forall p :: j <= p < i ==> facetKey(rows[p]) == lb
    ensures Collect(rows[..i], facetKey) == Buckets([la, lb], map[][la := rows[0..j]][lb := rows[j..i]])
    decreases i
  {
    if i == j + 1 {
      CollectSecondRunStart(rows, facetKey, la, lb, j);
    } else {
      CollectTwoRuns(rows, facetKey, la, lb, j, i - 1);
      CollectStepKnown(rows, facetKey, i, j, [la, lb], map[][la := rows[0..j]], lb);
    }
  }

  /** The first row labelled `lb` opens the second bucket. */
  lemma CollectSecondRunStart<T>(rows: seq<T>, facetKey: T -> string, la: string, lb: string, j: nat)
    requires 0 < j < |rows| && la != lb
    requires forall p :: 0 <= p < j ==> facetKey(rows[p]) == la
    requires facetKey(rows[j]) == lb
    ensures Collect(rows[..j + 1], facetKey) == Buckets([la, lb], map[][la := rows[0..j]][lb := rows[j..j + 1]])
  {
    CollectFirstRun(rows, facetKey, la, j);
    assert lb !in map[][la := rows[0..j]];
    CollectStepNew(rows, facetKey, j + 1, [la], map[][la := rows[0..j]], lb);
    assert [la] + [lb] == [la, lb];
  }

  /** One run of rows labelled `la`: a single bucket. */
  lemma {:induction false} CollectFirstRun<T>(rows: seq<T>, facetKey: T -> string, la: string, i: nat)
    requires 0 < i <= |rows|
    requires forall p :: 0 <= p < i ==> facetKey(rows[p]) == la
    ensures Collect(rows[..i], facetKey) == Buckets([la], map[][la := rows[0..i]])
    decreases i
  {
    if i == 1 {
      CollectFirst(rows, facetKey);
    } else {
      CollectFirstRun(rows, facetKey, la, i - 1);
      CollectStepKnown(rows, facetKey, i, 0, [la], map[], la);
    }
  }

  /** Two runs of rows, labelled `la` then `lb`, give two facets in that order. */
  lemma GroupTwoRuns<T>(rows: seq<T>, facetKey: T -> string, la: string, lb: string, j: nat)
    requires 0 < j < |rows| && la != lb
    requires forall p :: 0 <= p < j ==> facetKey(rows[p]) == la
    requires forall p :: j <= p < |rows| ==> facetKey(rows[p]) == lb
    ensures Group(rows, facetKey) == [Facet(la, rows[..j]), Facet(lb, rows[j..])]
  {
    CollectTwoRuns(rows, facetKey, la, lb, j, |rows|);
    assert rows[..|rows|] == rows;
    var fs := Group(rows, facetKey);
    assert rows[0..j] == rows[..j] && rows[j..|rows|] == rows[j..];
    assert |fs| == 2 && fs[0] == Facet(la, rows[..j]) && fs[1] == Facet(lb, rows[j..]);
  }

  lemma GroupMockData()
    ensures Group(MockData(), Region()) == [Facet("A", MockData()[..2]), Facet("B", MockData()[2..])]
  {
    GroupTwoRuns(MockData(), Region(), "A", "B", 2);
  }

  lemma GroupCustomData()
    ensures Group(CustomData(), Region()) == [Facet("A", CustomData()[..1]), Facet("B", CustomData()[1..])]
  {
    GroupTwoRuns(CustomData(), Region(), "A", "B", 1);
  }

  lemma GroupReversedData()
    ensures Group(ReversedData(), Region()) == [Facet("B", ReversedData()[..1]), Facet("A", ReversedData()[1..])]
  {
    GroupTwoRuns(ReversedData(), Region(), "B", "A", 1);
  }

  /** The filter on two facets. */
  lemma KeepPair<T>(a: Facet<T>, b: Facet<T>, query: string)
    ensures Keep([a, b], query)
         == (if Matches(a.key, query) then [a] else []) + (if Matches(b.key, query) then [b] else [])
  {
    assert [a, b][..1] == [a];
    assert [a][..0] == [];
  }

  /** Rendering the mock data by region gives the facets `A` and `B`, in that
      order, with two rows each. */
  lemma RendersGivenFacets()
    ensures Group(MockData(), Region())
         == [Facet("A", MockData()[..2]), Facet("B", MockData()[2..])]
    ensures Process(Group(MockData(), Region()), "", DefaultSortConfig(), None, SumMetric(), CodePointLe)
         == Group(MockData(), Region())
  {
    GroupMockData();
    var a, b := Facet("A", MockData()[..2]), Facet("B", MockData()[2..]);
    assert CodePointLe("A", "B");
    SortPair(ByLabel<Row>(CodePointLe), a, b);
  }

  /** Searching for `A` leaves only facet `A`. */
  lemma SearchLeavesA()
    ensures Process(Group(MockData(), Region()), "A", DefaultSortConfig(), None, SumMetric(), CodePointLe)
         == [Facet("A", MockData()[..2])]
  {
    GroupMockData();
    var a, b := Facet("A", MockData()[..2]), Facet("B", MockData()[2..]);
    assert Matches("A", "A") by { assert ToLower("A") == "a"; }
    assert !Matches("B", "A") by { assert ToLower("B") == "b"; }
    KeepPair(a, b, "A");
    assert SortBy(ByLabel<Row>(CodePointLe), [a]) == [a] by { assert [a][..0] == []; }
  }

  /** The `sum` metric of two rows. */
  lemma SumOfRows(config: SortConfig<Row>, x: Row, y: Row)
    requires config.sortType == Named(Sum)
    ensures Metric(config, Some(Value()), SumMetric(), [x, y]) == x.value + y.value
  {
    var values := MapSeq(Value(), [x, y]);
    assert values == [x.value, y.value];
    assert values[..1] == [x.value];
    assert SumOf([x.value]) == x.value by { assert [x.value][..0] == []; }
    assert SumOf(values) == x.value + y.value;
    assert SumMetric()([x, y], Value(), Sum) == SumOf(values);
  }

  /** Sorting by `sum`, descending: `B` (70) comes before `A` (30). */
  lemma SumDescending()
    ensures Process(Group(MockData(), Region()), "", SortConfig(Named(Sum), Desc), Some(Value()), SumMetric(), CodePointLe)
         == [Facet("B", MockData()[2..]), Facet("A", MockData()[..2])]
  {
    GroupMockData();
    var a, b := Facet("A", MockData()[..2]), Facet("B", MockData()[2..]);
    var config := SortConfig(Named(Sum), Desc);
    SumOfRows(config, MockData()[0], MockData()[1]);
    SumOfRows(config, MockData()[2], MockData()[3]);
    assert a.subset == [MockData()[0], MockData()[1]];
    assert b.subset == [MockData()[2], MockData()[3]];
    SortPair(FacetsByMetric(config, Some(Value()), SumMetric()), a, b);
  }

  /** Sorting by the caller's row count, descending: `B` (3 rows) comes
      before `A` (1 row). */
  lemma CustomCountDescending()
    ensures Process(Group(CustomData(), Region()), "",
                    SortConfig(Custom((subset: seq<Row>) => |subset|), Desc), None, SumMetric(), CodePointLe)
         == [Facet("B", CustomData()[1..]), Facet("A", CustomData()[..1])]
  {
    GroupCustomData();
    var a, b := Facet("A", CustomData()[..1]), Facet("B", CustomData()[1..]);
    var config := SortConfig(Custom((subset: seq<Row>) => |subset|), Desc);
    assert Metric(config, None, SumMetric(), a.subset) == 1;
    assert Metric(config, None, SumMetric(), b.subset) == 3;
    SortPair(FacetsByMetric(config, None, SumMetric()), a, b);
  }

  /** The shared scale over the mock data is `[0, 40]`. */
  lemma SharedScaleOfMockData()
    ensures YDomain(MockData(), true, None, Some(Value())) == Some(Domain(Finite(0), Finite(40)))
  {
    var values := MapSeq(Value(), MockData());
    assert values == [10, 20, 30, 40];
    assert values[..3][..2][..1][..0] == [];
    assert Scan(values[..3][..2][..1]) == Domain(Finite(10), Finite(10));
    assert Scan(values[..3][..2]) == Domain(Finite(10), Finite(20));
    assert Scan(values[..3]) == Domain(Finite(10), Finite(30));
    assert Scan(values) == Domain(Finite(10), Finite(40));
  }

  /** Data whose first label sorts last: `B` is seen before `A`. */
  function ReversedData(): seq<Row> {
    [Row("B", "X", 30), Row("A", "X", 10)]
  }

  /** Two renders over the same memoised facets: first with the default sort
      and no query, then with `sum` and no value accessor, which should keep
      the first-seen order. As written, the first render has already sorted
      the memoised array, so the second shows `A, B`; the intended result is
      `B, A`. */
  method StaleOrderAcrossRenders() returns (shownAsWritten: seq<Facet<Row>>, shownIntended: seq<Facet<Row>>)
    ensures shownIntended == Process(Group(ReversedData(), Region()), "", SortConfig(Named(Sum), Asc), None, SumMetric(), CodePointLe)
    ensures shownIntended == [Facet("B", ReversedData()[..1]), Facet("A", ReversedData()[1..])]
    ensures shownAsWritten == [Facet("A", ReversedData()[1..]), Facet("B", ReversedData()[..1])]
    ensures shownAsWritten != shownIntended
  {
    var grouped := Group(ReversedData(), Region());
    GroupReversedData();
    var a := grouped[1];
    var b := grouped[0];
    assert a.key == "A" && b.key == "B";
    assert CodePointLe("A", "B") && !CodePointLe("B", "A");
    assert ByLabel<Row>(CodePointLe)(a, b) && !ByLabel<Row>(CodePointLe)(b, a);
    SortPair(ByLabel<Row>(CodePointLe), b, a);
    var memo := ArrayOf(grouped);
    var first := ProcessFacetsInPlace(memo, "", DefaultSortConfig(), None, SumMetric(), CodePointLe);
    assert memo[..] == [a, b];
    var second := ProcessFacetsInPlace(memo, "", SortConfig(Named(Sum), Asc), None, SumMetric(), CodePointLe);
    shownAsWritten := second[..];
    shownIntended := ProcessFacets(grouped, "", SortConfig(Named(Sum), Asc), None, SumMetric(), CodePointLe);
    NoValueKeyKeepsOrder(grouped, "", SortConfig(Named(Sum), Asc), SumMetric(), CodePointLe);
    NoValueKeyKeepsOrder([a, b], "", SortConfig(Named(Sum), Asc), SumMetric(), CodePointLe);
  }
}
