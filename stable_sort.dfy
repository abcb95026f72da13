/** A stable sort driven by a "less than or equal" comparator, standing in for
    JavaScript's `Array.prototype.sort`, which the ECMAScript specification
    requires to be stable. A comparator `cmp` of the source becomes
    `le(a, b) == (cmp(a, b) <= 0)`. The reference definition is insertion sort;
    `SortedStableUnique` shows that every stable sort by the same total preorder
    yields the same sequence, so the choice of algorithm is not observable. */
module StableSort {

  /** `le` is total and transitive: what a consistent comparator provides. */
  ghost predicate TotalPreorder<X(!new)>(le: (X, X) -> bool) {
    && (forall x, y :: le(x, y) || le(y, x))
    && (forall x, y, z :: le(x, y) && le(y, z) ==> le(x, z))
  }

  /** Two elements compare as equal (the comparator returns 0 for them). */
  predicate Tied<X>(le: (X, X) -> bool, x: X, y: X) {
    le(x, y) && le(y, x)
  }

  ghost predicate Sorted<X>(le: (X, X) -> bool, s: seq<X>) {
    forall i, j :: 0 <= i < j < |s| ==> le(s[i], s[j])
  }

  /** The elements of `s` tied with `x`, in their order in `s`. */
  function TiedWith<X>(le: (X, X) -> bool, s: seq<X>, x: X): (r: seq<X>)
    ensures |r| <= |s|
  {
    if s == [] then []
    else TiedWith(le, s[..|s| - 1], x) + (if Tied(le, x, s[|s| - 1]) then [s[|s| - 1]] else [])
  }

  /** Stability together with "same elements": for every element, the run of
      elements tied with it is the same subsequence before and after. */
  ghost predicate SameTiedRuns<X(!new)>(le: (X, X) -> bool, r: seq<X>, s: seq<X>) {
    forall x :: TiedWith(le, r, x) == TiedWith(le, s, x)
  }

  /** Inserts `x` after every element of `p` that is not greater than it. */
  function Insert<X>(le: (X, X) -> bool, p: seq<X>, x: X): (r: seq<X>)
    ensures |r| == |p| + 1
  {
    if p == [] || le(p[|p| - 1], x) then p + [x]
    else Insert(le, p[..|p| - 1], x) + [p[|p| - 1]]
  }

  /** Insertion sort: the reference definition of the stable sort. */
  function SortBy<X>(le: (X, X) -> bool, s: seq<X>): (r: seq<X>)
    ensures |r| == |s|
  {
    if s == [] then [] else Insert(le, SortBy(le, s[..|s| - 1]), s[|s| - 1])
  }

  lemma {:induction false} InsertSorted<X(!new)>(le: (X, X) -> bool, p: seq<X>, x: X)
    requires TotalPreorder(le) && Sorted(le, p)
    ensures Sorted(le, Insert(le, p, x))
  {
    if p == [] || le(p[|p| - 1], x) {
    } else {
      var p', last := p[..|p| - 1], p[|p| - 1];
      InsertSorted(le, p', x);
      var q := Insert(le, p', x);
      assert le(x, last);
      InsertMembers(le, p', x);
      forall i | 0 <= i < |q| ensures le(q[i], last) {
        if q[i] != x {
          var k :| 0 <= k < |p'| && p'[k] == q[i];
        }
      }
    }
  }

  /** Every element of `Insert(le, p, x)` is `x` or an element of `p`. */
  lemma {:induction false} InsertMembers<X>(le: (X, X) -> bool, p: seq<X>, x: X)
    ensures forall i :: 0 <= i < |Insert(le, p, x)| ==>
      Insert(le, p, x)[i] == x || exists k :: 0 <= k < |p| && p[k] == Insert(le, p, x)[i]
  {
    if p == [] || le(p[|p| - 1], x) {
      var r := Insert(le, p, x);
      forall i | 0 <= i < |r| && r[i] != x
        ensures exists k :: 0 <= k < |p| && p[k] == r[i]
      {
        assert p[i] == r[i];
      }
    } else {
      var p' := p[..|p| - 1];
      InsertMembers(le, p', x);
      var r := Insert(le, p, x);
      forall i | 0 <= i < |r| && r[i] != x
        ensures exists k :: 0 <= k < |p| && p[k] == r[i]
      {
        if i == |r| - 1 {
          assert p[|p| - 1] == r[i];
        } else {
          var q := Insert(le, p', x);
          assert r[i] == q[i];
          var k :| 0 <= k < |p'| && p'[k] == q[i];
          assert p[k] == r[i];
        }
      }
    }
  }

  /** Inserting `x` appends it to its own tied run and leaves every other
      run alone. */
  lemma {:induction false} InsertTiedWith<X(!new)>(le: (X, X) -> bool, p: seq<X>, x: X, c: X)
    requires TotalPreorder(le)
    ensures TiedWith(le, Insert(le, p, x), c)
         == TiedWith(le, p, c) + (if Tied(le, c, x) then [x] else [])
  {
    if p == [] || le(p[|p| - 1], x) {
      assert (p + [x])[..|p|] == p;
    } else {
      var p', last := p[..|p| - 1], p[|p| - 1];
      var q := Insert(le, p', x);
      InsertTiedWith(le, p', x, c);
      assert (q + [last])[..|q|] == q;
      var tx := if Tied(le, c, x) then [x] else [];
      var tl := if Tied(le, c, last) then [last] else [];
      assert TiedWith(le, q + [last], c) == TiedWith(le, p', c) + tx + tl;
      assert TiedWith(le, p, c) == TiedWith(le, p', c) + tl;
      if Tied(le, c, x) && Tied(le, c, last) {
        assert false;
      }
    }
  }

  lemma {:induction false} SortBySorted<X(!new)>(le: (X, X) -> bool, s: seq<X>)
    requires TotalPreorder(le)
    ensures Sorted(le, SortBy(le, s))
  {
    if s != [] {
      SortBySorted(le, s[..|s| - 1]);
      InsertSorted(le, SortBy(le, s[..|s| - 1]), s[|s| - 1]);
    }
  }

  lemma {:induction false} SortByTiedWith<X(!new)>(le: (X, X) -> bool, s: seq<X>, c: X)
    requires TotalPreorder(le)
    ensures TiedWith(le, SortBy(le, s), c) == TiedWith(le, s, c)
  {
    if s != [] {
      SortByTiedWith(le, s[..|s| - 1], c);
      InsertTiedWith(le, SortBy(le, s[..|s| - 1]), s[|s| - 1], c);
    }
  }

  /** The sort orders by `le` and keeps tied elements in their input order. */
  lemma SortByStable<X(!new)>(le: (X, X) -> bool, s: seq<X>)
    requires TotalPreorder(le)
    ensures Sorted(le, SortBy(le, s))
    ensures SameTiedRuns(le, SortBy(le, s), s)
  {
    SortBySorted(le, s);
    forall c ensures TiedWith(le, SortBy(le, s), c) == TiedWith(le, s, c) {
      SortByTiedWith(le, s, c);
    }
  }

  lemma {:induction false} InsertPermutes<X>(le: (X, X) -> bool, p: seq<X>, x: X)
    ensures multiset(Insert(le, p, x)) == multiset(p) + multiset{x}
  {
    if !(p == [] || le(p[|p| - 1], x)) {
      InsertPermutes(le, p[..|p| - 1], x);
      assert p == p[..|p| - 1] + [p[|p| - 1]];
    }
  }

  /** The sort is a permutation of its input. */
  lemma {:induction false} SortByPermutes<X>(le: (X, X) -> bool, s: seq<X>)
    ensures multiset(SortBy(le, s)) == multiset(s)
  {
    if s != [] {
      SortByPermutes(le, s[..|s| - 1]);
      InsertPermutes(le, SortBy(le, s[..|s| - 1]), s[|s| - 1]);
      assert s == s[..|s| - 1] + [s[|s| - 1]];
    }
  }

  /** When every pair of elements is tied (all sort keys equal), the sort
      returns its input unchanged. */
  lemma {:induction false} SortByAllTied<X>(le: (X, X) -> bool, s: seq<X>)
    requires forall x, y :: x in s && y in s ==> le(x, y)
    ensures SortBy(le, s) == s
  {
    if s != [] {
      var s', last := s[..|s| - 1], s[|s| - 1];
      assert s == s' + [last];
      SortByAllTied(le, s');
      if s' != [] {
        assert s'[|s'| - 1] in s;
        assert le(s'[|s'| - 1], last);
      }
      assert SortBy(le, s) == Insert(le, s', last) == s;
    }
  }

  /** A sorted sequence is its own sort. */
  lemma {:induction false} SortBySortedInput<X>(le: (X, X) -> bool, s: seq<X>)
    requires Sorted(le, s)
    ensures SortBy(le, s) == s
  {
    if s != [] {
      var s', last := s[..|s| - 1], s[|s| - 1];
      forall i, j | 0 <= i < j < |s'| ensures le(s'[i], s'[j]) {
        assert s'[i] == s[i] && s'[j] == s[j];
      }
      SortBySortedInput(le, s');
      if s' != [] {
        assert le(s[|s'| - 1], last);
      }
      assert SortBy(le, s) == Insert(le, s', last) == s' + [last];
    }
  }

  /** Any sorted sequence with the same tied runs as `s` is `SortBy(le, s)`:
      a stable sort is determined by its comparator. */
  lemma SortedStableUnique<X(!new)>(le: (X, X) -> bool, r: seq<X>, s: seq<X>)
    requires TotalPreorder(le)
    requires Sorted(le, r) && SameTiedRuns(le, r, s)
    ensures r == SortBy(le, s)
  {
    SortByStable(le, s);
    SortedRunsEqual(le, r, SortBy(le, s));
  }

  lemma {:induction false} SortedRunsEqual<X(!new)>(le: (X, X) -> bool, r: seq<X>, t: seq<X>)
    requires TotalPreorder(le)
    requires Sorted(le, r) && Sorted(le, t) && SameTiedRuns(le, r, t)
    ensures r == t
    decreases |r| + |t|
  {
    if r == [] || t == [] {
      if r != [] {
        TiedWithSelf(le, r, |r| - 1);
        assert false;
      } else if t != [] {
        TiedWithSelf(le, t, |t| - 1);
        assert false;
      }
    } else {
      SortedLastEqual(le, r, t);
      var r', t' := r[..|r| - 1], t[..|t| - 1];
      var x := r[|r| - 1];
      forall c ensures TiedWith(le, r', c) == TiedWith(le, t', c) {
        var tail := if Tied(le, c, x) then [x] else [];
        assert TiedWith(le, r', c) + tail == TiedWith(le, t', c) + tail by {
          assert TiedWith(le, r, c) == TiedWith(le, t, c);
        }
        SuffixCancel(TiedWith(le, r', c), TiedWith(le, t', c), tail);
      }
      assert Sorted(le, r') && Sorted(le, t');
      SortedRunsEqual(le, r', t');
    }
  }

  /** Two sorted sequences with the same tied runs end in the same element. */
  lemma SortedLastEqual<X(!new)>(le: (X, X) -> bool, r: seq<X>, t: seq<X>)
    requires TotalPreorder(le)
    requires Sorted(le, r) && Sorted(le, t) && SameTiedRuns(le, r, t)
    requires r != [] && t != []
    ensures r[|r| - 1] == t[|t| - 1]
  {
    var x, y := r[|r| - 1], t[|t| - 1];
    TiedLast(le, r, t);
    TiedLast(le, t, r);
    assert le(x, x);
    var a, b := TiedWith(le, r, x), TiedWith(le, t, x);
    assert a == TiedWith(le, r[..|r| - 1], x) + [x];
    assert b == TiedWith(le, t[..|t| - 1], x) + [y];
    assert a == b;
    assert a[|a| - 1] == x && b[|b| - 1] == y;
  }

  lemma SuffixCancel<X>(a: seq<X>, b: seq<X>, c: seq<X>)
    requires a + c == b + c
    ensures a == b
  {
    assert a == (a + c)[..|a|];
    assert b == (b + c)[..|b|];
  }

  /** The last element of `r` is not greater than the last of `t`. */
  lemma TiedLast<X(!new)>(le: (X, X) -> bool, r: seq<X>, t: seq<X>)
    requires TotalPreorder(le)
    requires Sorted(le, t) && SameTiedRuns(le, r, t)
    requires r != [] && t != []
    ensures le(r[|r| - 1], t[|t| - 1])
  {
    var x := r[|r| - 1];
    TiedWithSelf(le, r, |r| - 1);
    assert TiedWith(le, t, x) != [];
    TiedWithIn(le, t, x);
    var i :| 0 <= i < |t| && Tied(le, x, t[i]);
    assert i == |t| - 1 || le(t[i], t[|t| - 1]);
  }

  /** An element belongs to its own tied run. */
  lemma {:induction false} TiedWithSelf<X(!new)>(le: (X, X) -> bool, s: seq<X>, k: nat)
    requires TotalPreorder(le) && k < |s|
    ensures TiedWith(le, s, s[k]) != []
  {
    if k < |s| - 1 {
      TiedWithSelf(le, s[..|s| - 1], k);
    } else {
      assert le(s[k], s[k]);
    }
  }

  /** Every element of a tied run comes from the sequence and is tied. */
  lemma {:induction false} TiedWithIn<X>(le: (X, X) -> bool, s: seq<X>, x: X)
    ensures TiedWith(le, s, x) != [] ==> exists i :: 0 <= i < |s| && Tied(le, x, s[i])
  {
    if s != [] && !Tied(le, x, s[|s| - 1]) {
      TiedWithIn(le, s[..|s| - 1], x);
      if TiedWith(le, s, x) != [] {
        var i :| 0 <= i < |s| - 1 && Tied(le, x, s[..|s| - 1][i]);
        assert s[i] == s[..|s| - 1][i];
      }
    }
  }

  /** `s.map(f)`. */
  function MapSeq<X, Y>(f: X -> Y, s: seq<X>): (r: seq<Y>)
    ensures |r| == |s|
    ensures forall i :: 0 <= i < |s| ==> r[i] == f(s[i])
  {
    if s == [] then [] else MapSeq(f, s[..|s| - 1]) + [f(s[|s| - 1])]
  }

  /** Sorting commutes with a map that carries one comparator onto the other:
      decorating elements with their sort key and sorting the decorated
      elements gives the decorated sort. */
  lemma {:induction false} SortByMap<X, Y>(leX: (X, X) -> bool, leY: (Y, Y) -> bool, f: X -> Y, s: seq<X>)
    requires forall x, y :: leY(f(x), f(y)) == leX(x, y)
    ensures MapSeq(f, SortBy(leX, s)) == SortBy(leY, MapSeq(f, s))
  {
    if s != [] {
      var s' := s[..|s| - 1];
      SortByMap(leX, leY, f, s');
      InsertMap(leX, leY, f, SortBy(leX, s'), s[|s| - 1]);
      assert MapSeq(f, s)[..|s| - 1] == MapSeq(f, s');
    }
  }

  lemma {:induction false} InsertMap<X, Y>(leX: (X, X) -> bool, leY: (Y, Y) -> bool, f: X -> Y, p: seq<X>, x: X)
    requires forall x, y :: leY(f(x), f(y)) == leX(x, y)
    ensures MapSeq(f, Insert(leX, p, x)) == Insert(leY, MapSeq(f, p), f(x))
  {
    var q := MapSeq(f, p);
    if p != [] {
      assert q[|q| - 1] == f(p[|p| - 1]);
      assert q[..|q| - 1] == MapSeq(f, p[..|p| - 1]);
      if !leX(p[|p| - 1], x) {
        InsertMap(leX, leY, f, p[..|p| - 1], x);
      }
    }
  }

  /** Places `x` at index `j` of `p`, when everything before `j` is not greater
      than `x` and everything from `j` on is greater. */
  lemma {:induction false} InsertAt<X>(le: (X, X) -> bool, p: seq<X>, x: X, j: nat)
    requires j <= |p|
    requires j == 0 || le(p[j - 1], x)
    requires forall k :: j <= k < |p| ==> !le(p[k], x)
    ensures Insert(le, p, x) == p[..j] + [x] + p[j..]
  {
    if j < |p| {
      var p' := p[..|p| - 1];
      InsertAt(le, p', x, j);
      assert p'[..j] == p[..j];
      assert p'[j..] + [p[|p| - 1]] == p[j..];
    }
  }

  /** Moves `a[i]` left past every greater element before it: the inner loop
      of insertion sort. */
  method InsertLast<X>(a: array<X>, i: nat, le: (X, X) -> bool)
    requires i < a.Length
    modifies a
    ensures a[..i + 1] == Insert(le, old(a[..i]), old(a[i]))
    ensures a[i + 1..] == old(a[i + 1..])
  {
    ghost var sorted := a[..i];
    ghost var rest := a[i + 1..];
    var x := a[i];
    var j := i;
    while j > 0 && !le(a[j - 1], x)
      invariant 0 <= j <= i
      invariant a[..j] == sorted[..j]
      invariant a[j + 1..i + 1] == sorted[j..]
      invariant a[i + 1..] == rest
      invariant forall k :: j <= k < i ==> !le(sorted[k], x)
    {
      a[j] := a[j - 1];
      j := j - 1;
    }
    a[j] := x;
    InsertAt(le, sorted, x, j);
    assert a[..i + 1] == sorted[..j] + [x] + sorted[j..];
  }

  /** Sorts `a` in place, stably, as `Array.prototype.sort` does. */
  method SortInPlace<X>(a: array<X>, le: (X, X) -> bool)
    modifies a
    ensures a[..] == SortBy(le, old(a[..]))
  {
    ghost var s := a[..];
    var i := 0;
    while i < a.Length
      invariant 0 <= i <= a.Length
      invariant a[..i] == SortBy(le, s[..i])
      invariant a[i..] == s[i..]
    {
      InsertLast(a, i, le);
      assert s[..i + 1][..i] == s[..i];
      i := i + 1;
    }
    assert s[..a.Length] == s;
  }
}
