/** The filter step of the trellis: a facet is kept when its label contains
    the (debounced) query, compared case-insensitively. An empty query is
    falsy in JavaScript and keeps every facet. */
module Search {
  import opened Grouping

  /** `String.prototype.toLowerCase` on one code point (Unicode scalar
      value), for the ASCII letters. */
  function LowerChar(c: char): char {
    if 'A' <= c <= 'Z' then (c as int + 32) as char else c
  }

  /** Lower-casing folds case: it never yields a capital, a capital and its
      small letter lower-case alike, and it moves exactly the capitals. */
  lemma LowerCharFoldsCase(c: char)
    ensures !('A' <= LowerChar(c) <= 'Z')
    ensures 'A' <= c <= 'Z' ==> LowerChar(c) == LowerChar((c as int + 32) as char)
    ensures LowerChar(c) == c <==> !('A' <= c <= 'Z')
  {}

  function ToLower(s: string): (r: string)
    ensures |r| == |s|
    ensures forall i :: 0 <= i < |s| ==> r[i] == LowerChar(s[i])
  {
    if s == [] then [] else [LowerChar(s[0])] + ToLower(s[1..])
  }

  /** `s.includes(sub)`: is `sub` a contiguous part of `s`? */
  function Includes(s: string, sub: string): bool
    decreases |s|
  {
    if |sub| > |s| then false
    else s[..|sub|] == sub || (s != [] && Includes(s[1..], sub))
  }

  /** `sub` occurs in `s` starting at offset `i`. */
  ghost predicate OccursAt(sub: string, s: string, i: int) {
    0 <= i <= |s| - |sub| && s[i..i + |sub|] == sub
  }

  /** The reference definition: `sub` occurs at some offset of `s`. */
  ghost predicate OccursIn(sub: string, s: string) {
    exists i :: OccursAt(sub, s, i)
  }

  lemma {:induction false} IncludesOccurs(s: string, sub: string)
    ensures Includes(s, sub) <==> OccursIn(sub, s)
    decreases |s|
  {
    if |sub| <= |s| && s != [] {
      var t := s[1..];
      IncludesOccurs(t, sub);
      if s[..|sub|] == sub {
        assert OccursAt(sub, s, 0);
      }
      if OccursIn(sub, s) && s[..|sub|] != sub {
        var i :| OccursAt(sub, s, i);
        assert i > 0;
        assert t[i - 1..i - 1 + |sub|] == s[i..i + |sub|];
        assert OccursAt(sub, t, i - 1);
      }
      if OccursIn(sub, t) {
        var i :| OccursAt(sub, t, i);
        assert s[i + 1..i + 1 + |sub|] == t[i..i + |sub|];
        assert OccursAt(sub, s, i + 1);
      }
    } else if |sub| <= |s| {
      assert OccursAt(sub, s, 0);
    }
  }

  /** The empty string is part of every string. */
  lemma IncludesEmpty(s: string)
    ensures Includes(s, "")
  {
    IncludesOccurs(s, "");
    assert OccursAt("", s, 0);
  }

  /** `key.toLowerCase().includes(query.toLowerCase())`. */
  predicate Matches(key: string, query: string) {
    Includes(ToLower(key), ToLower(query))
  }

  /** The facets whose label matches `query`, in their order. */
  function Keep<T>(facets: seq<Facet<T>>, query: string): (r: seq<Facet<T>>)
    ensures |r| <= |facets|
  {
    if facets == [] then []
    else Keep(facets[..|facets| - 1], query)
         + (if Matches(facets[|facets| - 1].key, query) then [facets[|facets| - 1]] else [])
  }

  /** Step A of the filter-and-sort memo: filter only when the query is
      non-empty. */
  function FilterFacets<T>(facets: seq<Facet<T>>, query: string): seq<Facet<T>> {
    if query != "" then Keep(facets, query) else facets
  }

  /** `a` is `b` with some elements left out, the rest in their order. */
  ghost predicate Subsequence<X>(a: seq<X>, b: seq<X>)
    decreases |b|
  {
    if a == [] then true
    else if b == [] then false
    else (a[|a| - 1] == b[|b| - 1] && Subsequence(a[..|a| - 1], b[..|b| - 1]))
         || Subsequence(a, b[..|b| - 1])
  }

  lemma {:induction false} SubsequenceMembers<X>(a: seq<X>, b: seq<X>, x: X)
    requires Subsequence(a, b) && x in a
    ensures x in b
    decreases |b|
  {
    var a', b' := a[..|a| - 1], b[..|b| - 1];
    if a[|a| - 1] == b[|b| - 1] && Subsequence(a', b') {
      assert a == a' + [a[|a| - 1]];
      if x in a' {
        SubsequenceMembers(a', b', x);
        assert b == b' + [b[|b| - 1]];
      }
    } else {
      SubsequenceMembers(a, b', x);
      assert b == b' + [b[|b| - 1]];
    }
  }

  lemma {:induction false} KeepSubsequence<T>(facets: seq<Facet<T>>, query: string)
    ensures Subsequence(Keep(facets, query), facets)
  {
    if facets != [] {
      var fs' := facets[..|facets| - 1];
      KeepSubsequence(fs', query);
      var last := facets[|facets| - 1];
      assert facets == fs' + [last];
      if Matches(last.key, query) {
        var a := Keep(facets, query);
        assert a == Keep(fs', query) + [last];
        assert a[..|a| - 1] == Keep(fs', query);
      } else {
        assert Keep(facets, query) == Keep(fs', query);
        SubsequenceExtend(Keep(fs', query), fs', last);
      }
    }
  }

  lemma {:induction false} SubsequenceExtend<X>(a: seq<X>, b: seq<X>, x: X)
    requires Subsequence(a, b)
    ensures Subsequence(a, b + [x])
  {
    if a != [] {
      assert (b + [x])[..|b|] == b;
    }
  }

  lemma {:induction false} KeepMembers<T>(facets: seq<Facet<T>>, query: string)
    ensures forall f :: f in Keep(facets, query) <==> f in facets && Matches(f.key, query)
  {
    if facets != [] {
      KeepMembers(facets[..|facets| - 1], query);
      assert facets == facets[..|facets| - 1] + [facets[|facets| - 1]];
    }
  }

  /** With an empty query every facet is kept, in order; otherwise a facet is
      kept exactly when its lower-cased label contains the lower-cased query,
      the kept facets keep their order, and each keeps its rows. */
  lemma FilterFacetsSpec<T>(facets: seq<Facet<T>>, query: string)
    ensures query == "" ==> FilterFacets(facets, query) == facets
    ensures query != "" ==>
      forall f :: f in FilterFacets(facets, query) <==> f in facets && Matches(f.key, query)
    ensures Subsequence(FilterFacets(facets, query), facets)
    ensures |FilterFacets(facets, query)| <= |facets|
  {
    KeepMembers(facets, query);
    KeepSubsequence(facets, query);
    if query == "" {
      SubsequenceRefl(facets);
    }
  }

  lemma {:induction false} SubsequenceRefl<X>(a: seq<X>)
    ensures Subsequence(a, a)
  {
    if a != [] {
      SubsequenceRefl(a[..|a| - 1]);
    }
  }

  /** Filtering on the empty string would also keep every facet, so skipping
      the filter for an empty query changes nothing. */
  lemma {:induction false} KeepEmptyQuery<T>(facets: seq<Facet<T>>)
    ensures Keep(facets, "") == facets
  {
    if facets != [] {
      KeepEmptyQuery(facets[..|facets| - 1]);
      IncludesEmpty(ToLower(facets[|facets| - 1].key));
    }
  }

  /** The query is matched without regard to ASCII letter case. */
  lemma MatchesIgnoresCase(key: string, query: string)
    ensures Matches(key, query) == Matches(ToLower(key), ToLower(query))
  {
    LowerIdempotent(key);
    LowerIdempotent(query);
  }

  lemma LowerIdempotent(s: string)
    ensures ToLower(ToLower(s)) == ToLower(s)
  {}
}
