/** The split step of the trellis: d3-array's `group` followed by `Array.from`.
    `group` walks the rows once, keeping an insertion-ordered map from label to
    the rows seen so far with that label; `Array.from` lists its entries in
    insertion order. */
module Grouping {

  /** One facet: a label and the rows that carry it. */
  datatype Facet<T> = Facet(key: string, subset: seq<T>)

  /** The insertion-ordered map that `group` builds: the labels in the order
      they were first seen, and the rows collected under each. */
  datatype Buckets<T> = Buckets(order: seq<string>, rowsOf: map<string, seq<T>>)

  ghost predicate Distinct(ls: seq<string>) {
    forall i, j :: 0 <= i < j < |ls| ==> ls[i] != ls[j]
  }

  /** Every listed label has exactly one entry in the map, and nothing else does. */
  ghost predicate WellFormed<T>(b: Buckets<T>) {
    && Distinct(b.order)
    && (forall l :: l in b.rowsOf <==> l in b.order)
  }

  /** One step of `group`: push `row` onto the bucket for `k`, creating the
      bucket (at the end of the order) when the label is new. */
  function AddRow<T>(b: Buckets<T>, k: string, row: T): (r: Buckets<T>)
    requires WellFormed(b)
    ensures WellFormed(r)
    ensures k in r.rowsOf && r.rowsOf[k] != []
    ensures forall l :: l in b.rowsOf ==> l in r.rowsOf
  {
    if k in b.rowsOf then
      b.(rowsOf := b.rowsOf[k := b.rowsOf[k] + [row]])
    else
      Buckets(b.order + [k], b.rowsOf[k := [row]])
  }

  /** The map `group` holds after visiting every row of `rows`. */
  function Collect<T>(rows: seq<T>, facetKey: T -> string): (b: Buckets<T>)
    ensures WellFormed(b)
  {
    if rows == [] then Buckets([], map[])
    else AddRow(Collect(rows[..|rows| - 1], facetKey), facetKey(rows[|rows| - 1]), rows[|rows| - 1])
  }

  /** `Array.from` on the map: its entries in insertion order. */
  function Entries<T>(b: Buckets<T>): (fs: seq<Facet<T>>)
    requires WellFormed(b)
    ensures |fs| == |b.order|
    ensures forall i :: 0 <= i < |b.order| ==> fs[i] == Facet(b.order[i], b.rowsOf[b.order[i]])
  {
    seq(|b.order|, i requires 0 <= i < |b.order| => Facet(b.order[i], b.rowsOf[b.order[i]]))
  }

  /** `Array.from(group(rows, facetKey))`. */
  function Group<T>(rows: seq<T>, facetKey: T -> string): seq<Facet<T>> {
    Entries(Collect(rows, facetKey))
  }

  // ---- Reference definitions, stated on the rows alone ----

  /** The label of every row, in row order. */
  function Keys<T>(rows: seq<T>, facetKey: T -> string): (ks: seq<string>)
    ensures |ks| == |rows|
    ensures forall p :: 0 <= p < |rows| ==> ks[p] == facetKey(rows[p])
  {
    if rows == [] then [] else Keys(rows[..|rows| - 1], facetKey) + [facetKey(rows[|rows| - 1])]
  }

  /** The rows whose label is `l`, in their input order. */
  function Select<T>(rows: seq<T>, facetKey: T -> string, l: string): (s: seq<T>)
    ensures |s| <= |rows|
    ensures forall x :: x in s ==> facetKey(x) == l
  {
    if rows == [] then []
    else Select(rows[..|rows| - 1], facetKey, l)
         + (if facetKey(rows[|rows| - 1]) == l then [rows[|rows| - 1]] else [])
  }

  /** The index of the first occurrence of `l` in `ks`. */
  function FirstIndex(ks: seq<string>, l: string): (p: nat)
    requires l in ks
    ensures p < |ks| && ks[p] == l
    ensures forall q :: 0 <= q < p ==> ks[q] != l
  {
    var ks' := ks[..|ks| - 1];
    if l in ks' then FirstIndex(ks', l) else |ks| - 1
  }

  /** Total number of rows over all facets. */
  function TotalRows<T>(fs: seq<Facet<T>>): nat {
    if fs == [] then 0 else TotalRows(fs[..|fs| - 1]) + |fs[|fs| - 1].subset|
  }

  // ---- The map `group` builds, against the reference definitions ----

  /** A label no row carries selects nothing. */
  lemma {:induction false} SelectAbsent<T>(rows: seq<T>, facetKey: T -> string, l: string)
    requires l !in Keys(rows, facetKey)
    ensures Select(rows, facetKey, l) == []
  {
    if rows != [] {
      SelectAbsent(rows[..|rows| - 1], facetKey, l);
    }
  }

  /** Under every label, the map holds exactly the rows carrying it. */
  lemma {:induction false} CollectAt<T>(rows: seq<T>, facetKey: T -> string, l: string)
    ensures l in Collect(rows, facetKey).rowsOf <==> l in Keys(rows, facetKey)
    ensures l in Collect(rows, facetKey).rowsOf ==>
      Collect(rows, facetKey).rowsOf[l] == Select(rows, facetKey, l)
  {
    if rows != [] {
      var rows', last := rows[..|rows| - 1], rows[|rows| - 1];
      CollectAt(rows', facetKey, l);
      var b', k := Collect(rows', facetKey), facetKey(last);
      var b := AddRow(b', k, last);
      assert Collect(rows, facetKey) == b;
      assert Keys(rows, facetKey) == Keys(rows', facetKey) + [k];
      assert Select(rows, facetKey, l) == Select(rows', facetKey, l) + (if k == l then [last] else []);
      if k == l {
        if l in b'.rowsOf {
          assert b.rowsOf[l] == b'.rowsOf[l] + [last];
        } else {
          SelectAbsent(rows', facetKey, l);
        }
      } else {
        assert l in b.rowsOf <==> l in b'.rowsOf;
        assert l in b.rowsOf ==> b.rowsOf[l] == b'.rowsOf[l];
      }
    }
  }

  lemma CollectMatchesSelect<T>(rows: seq<T>, facetKey: T -> string)
    ensures forall l :: l in Collect(rows, facetKey).rowsOf <==> l in Keys(rows, facetKey)
    ensures forall l :: l in Collect(rows, facetKey).rowsOf ==>
      Collect(rows, facetKey).rowsOf[l] == Select(rows, facetKey, l)
  {
    forall l ensures l in Collect(rows, facetKey).rowsOf <==> l in Keys(rows, facetKey) {
      CollectAt(rows, facetKey, l);
    }
    forall l | l in Collect(rows, facetKey).rowsOf
      ensures Collect(rows, facetKey).rowsOf[l] == Select(rows, facetKey, l)
    {
      CollectAt(rows, facetKey, l);
    }
  }

  /** Appending a label leaves the first occurrence of earlier labels alone. */
  lemma FirstIndexAppend(ks: seq<string>, k: string, l: string)
    requires l in ks + [k]
    ensures FirstIndex(ks + [k], l) == if l in ks then FirstIndex(ks, l) else |ks|
  {
    assert (ks + [k])[..|ks|] == ks;
  }

  /** `order` lists labels of `ks` by increasing first occurrence. */
  ghost predicate FirstSeenOrder(ks: seq<string>, order: seq<string>) {
    && (forall l :: l in order ==> l in ks)
    && (forall i, j :: 0 <= i < j < |order| ==> FirstIndex(ks, order[i]) < FirstIndex(ks, order[j]))
  }

  lemma FirstSeenAppendKnown(ks: seq<string>, k: string, order: seq<string>)
    requires FirstSeenOrder(ks, order)
    ensures FirstSeenOrder(ks + [k], order)
  {
    forall l | l in order ensures FirstIndex(ks + [k], l) == FirstIndex(ks, l) {
      FirstIndexAppend(ks, k, l);
    }
  }

  lemma FirstSeenAppendNew(ks: seq<string>, k: string, order: seq<string>)
    requires FirstSeenOrder(ks, order) && k !in ks
    ensures FirstSeenOrder(ks + [k], order + [k])
  {
    FirstIndexAppend(ks, k, k);
    forall l | l in order ensures FirstIndex(ks + [k], l) == FirstIndex(ks, l) {
      FirstIndexAppend(ks, k, l);
    }
    var o := order + [k];
    forall i, j | 0 <= i < j < |o| ensures FirstIndex(ks + [k], o[i]) < FirstIndex(ks + [k], o[j]) {
      assert o[i] in order;
      if j < |order| {
        assert o[j] in order;
      }
    }
  }

  /** The map's labels are listed in the order of their first occurrence. */
  lemma {:induction false} CollectFirstSeen<T>(rows: seq<T>, facetKey: T -> string)
    ensures FirstSeenOrder(Keys(rows, facetKey), Collect(rows, facetKey).order)
  {
    if rows != [] {
      var rows', last := rows[..|rows| - 1], rows[|rows| - 1];
      CollectFirstSeen(rows', facetKey);
      var ks', k := Keys(rows', facetKey), facetKey(last);
      var b' := Collect(rows', facetKey);
      assert Keys(rows, facetKey) == ks' + [k];
      CollectAt(rows', facetKey, k);
      if k in b'.rowsOf {
        assert Collect(rows, facetKey).order == b'.order;
        FirstSeenAppendKnown(ks', k, b'.order);
      } else {
        assert Collect(rows, facetKey).order == b'.order + [k];
        FirstSeenAppendNew(ks', k, b'.order);
      }
    }
  }

  lemma {:induction false} TotalRowsUpdate<T>(fs: seq<Facet<T>>, i: nat, f: Facet<T>)
    requires i < |fs|
    ensures TotalRows(fs[i := f]) == TotalRows(fs) - |fs[i].subset| + |f.subset|
  {
    if i < |fs| - 1 {
      TotalRowsUpdate(fs[..|fs| - 1], i, f);
      assert fs[i := f][..|fs| - 1] == fs[..|fs| - 1][i := f];
    } else {
      assert fs[i := f][..|fs| - 1] == fs[..|fs| - 1];
    }
  }

  /** A row with a known label grows that label's entry in place. */
  lemma EntriesAddKnown<T>(b: Buckets<T>, k: string, row: T, i: nat)
    requires WellFormed(b) && i < |b.order| && b.order[i] == k
    ensures Entries(AddRow(b, k, row)) == Entries(b)[i := Facet(k, b.rowsOf[k] + [row])]
  {
    assert k in b.rowsOf;
    var r := AddRow(b, k, row);
    assert r.order == b.order;
    forall j | 0 <= j < |b.order| ensures Entries(r)[j] == Entries(b)[i := Facet(k, b.rowsOf[k] + [row])][j] {
      if j != i {
        assert b.order[j] != k;
      }
    }
  }

  /** A row with a new label adds an entry at the end. */
  lemma EntriesAddNew<T>(b: Buckets<T>, k: string, row: T)
    requires WellFormed(b) && k !in b.rowsOf
    ensures Entries(AddRow(b, k, row)) == Entries(b) + [Facet(k, [row])]
  {
    var r := AddRow(b, k, row);
    forall j | 0 <= j < |b.order| ensures Entries(r)[j] == Entries(b)[j] {
      assert b.order[j] in b.rowsOf;
    }
  }

  /** Adding one row adds one row to the listed facets. */
  lemma {:induction false} GroupCountsRows<T>(rows: seq<T>, facetKey: T -> string)
    ensures TotalRows(Group(rows, facetKey)) == |rows|
  {
    if rows != [] {
      var rows', last := rows[..|rows| - 1], rows[|rows| - 1];
      GroupCountsRows(rows', facetKey);
      var b' := Collect(rows', facetKey);
      var fs, fs' := Group(rows, facetKey), Group(rows', facetKey);
      var k := facetKey(last);
      if k in b'.rowsOf {
        var i :| 0 <= i < |b'.order| && b'.order[i] == k;
        EntriesAddKnown(b', k, last, i);
        TotalRowsUpdate(fs', i, Facet(k, b'.rowsOf[k] + [last]));
      } else {
        EntriesAddNew(b', k, last);
        assert fs[..|fs| - 1] == fs';
      }
    }
  }

  lemma GroupKeysDistinct<T>(rows: seq<T>, facetKey: T -> string)
    ensures var fs := Group(rows, facetKey);
      forall i, j :: 0 <= i < j < |fs| ==> fs[i].key != fs[j].key
  {
    var b := Collect(rows, facetKey);
    assert Distinct(b.order);
  }

  lemma GroupSubsets<T>(rows: seq<T>, facetKey: T -> string)
    ensures var fs := Group(rows, facetKey);
      forall i :: 0 <= i < |fs| ==>
        fs[i].key in Keys(rows, facetKey) && fs[i].subset == Select(rows, facetKey, fs[i].key)
        && fs[i].subset != []
  {
    var fs, b := Group(rows, facetKey), Collect(rows, facetKey);
    forall i | 0 <= i < |fs|
      ensures fs[i].key in Keys(rows, facetKey) && fs[i].subset == Select(rows, facetKey, fs[i].key)
      ensures fs[i].subset != []
    {
      assert fs[i] == Facet(b.order[i], b.rowsOf[b.order[i]]);
      CollectAt(rows, facetKey, b.order[i]);
      SelectNonEmpty(rows, facetKey, fs[i].key);
    }
  }

  lemma GroupCovers<T>(rows: seq<T>, facetKey: T -> string)
    ensures var fs := Group(rows, facetKey);
      forall p :: 0 <= p < |rows| ==> exists i :: 0 <= i < |fs| && fs[i].key == facetKey(rows[p])
  {
    var fs, b := Group(rows, facetKey), Collect(rows, facetKey);
    forall p | 0 <= p < |rows|
      ensures exists i :: 0 <= i < |fs| && fs[i].key == facetKey(rows[p])
    {
      var l := facetKey(rows[p]);
      assert Keys(rows, facetKey)[p] == l;
      CollectAt(rows, facetKey, l);
      var i :| 0 <= i < |b.order| && b.order[i] == l;
      assert fs[i].key == l;
    }
  }

  lemma GroupFirstSeen<T>(rows: seq<T>, facetKey: T -> string)
    ensures var fs := Group(rows, facetKey);
      && (forall i :: 0 <= i < |fs| ==> fs[i].key in Keys(rows, facetKey))
      && (forall i, j :: 0 <= i < j < |fs| ==>
            FirstIndex(Keys(rows, facetKey), fs[i].key) < FirstIndex(Keys(rows, facetKey), fs[j].key))
  {
    var fs, b := Group(rows, facetKey), Collect(rows, facetKey);
    var ks := Keys(rows, facetKey);
    CollectFirstSeen(rows, facetKey);
    forall i | 0 <= i < |fs| ensures fs[i].key in ks {
      assert b.order[i] in b.order;
    }
    forall i, j | 0 <= i < j < |fs| ensures FirstIndex(ks, fs[i].key) < FirstIndex(ks, fs[j].key) {
      assert fs[i].key == b.order[i] && fs[j].key == b.order[j];
    }
  }

  /** The properties `group` promises: one facet per distinct label, listed in
      first-seen order; each facet holds exactly the rows carrying its label,
      in input order, and is never empty; the facets hold every row once. */
  lemma GroupPartitions<T>(rows: seq<T>, facetKey: T -> string)
    ensures var fs := Group(rows, facetKey);
      && (forall i, j :: 0 <= i < j < |fs| ==> fs[i].key != fs[j].key)
      && (forall i :: 0 <= i < |fs| ==> fs[i].key in Keys(rows, facetKey))
      && (forall i :: 0 <= i < |fs| ==> fs[i].subset == Select(rows, facetKey, fs[i].key))
      && (forall i :: 0 <= i < |fs| ==> fs[i].subset != [])
      && (forall p :: 0 <= p < |rows| ==>
            exists i :: 0 <= i < |fs| && fs[i].key == facetKey(rows[p]))
      && (forall i, j :: 0 <= i < j < |fs| ==>
            FirstIndex(Keys(rows, facetKey), fs[i].key) < FirstIndex(Keys(rows, facetKey), fs[j].key))
      && TotalRows(fs) == |rows|
  {
    GroupKeysDistinct(rows, facetKey);
    GroupSubsets(rows, facetKey);
    GroupCovers(rows, facetKey);
    GroupFirstSeen(rows, facetKey);
    GroupCountsRows(rows, facetKey);
  }

  /** A label that some row carries selects at least one row. */
  lemma {:induction false} SelectNonEmpty<T>(rows: seq<T>, facetKey: T -> string, l: string)
    requires l in Keys(rows, facetKey)
    ensures Select(rows, facetKey, l) != []
  {
    var rows' := rows[..|rows| - 1];
    if facetKey(rows[|rows| - 1]) != l {
      SelectNonEmpty(rows', facetKey, l);
    }
  }

  /** Every row lands in the facet with its own label and in no other. */
  lemma RowInExactlyOneFacet<T>(rows: seq<T>, facetKey: T -> string, p: nat)
    requires p < |rows|
    ensures var fs := Group(rows, facetKey);
      && (exists i :: 0 <= i < |fs| && fs[i].key == facetKey(rows[p]) && rows[p] in fs[i].subset)
      && (forall i :: 0 <= i < |fs| && rows[p] in fs[i].subset ==> fs[i].key == facetKey(rows[p]))
  {
    GroupPartitions(rows, facetKey);
    var fs := Group(rows, facetKey);
    var i :| 0 <= i < |fs| && fs[i].key == facetKey(rows[p]);
    SelectContains(rows, facetKey, p);
  }

  lemma {:induction false} SelectContains<T>(rows: seq<T>, facetKey: T -> string, p: nat)
    requires p < |rows|
    ensures rows[p] in Select(rows, facetKey, facetKey(rows[p]))
  {
    if p < |rows| - 1 {
      SelectContains(rows[..|rows| - 1], facetKey, p);
    }
  }

  /** No rows, no facets. */
  lemma GroupEmpty<T>(facetKey: T -> string)
    ensures Group([], facetKey) == []
  {}
}
