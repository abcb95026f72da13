/** The shared-scale step of the trellis: one y-domain for every chart,
    computed from all rows (never only the filtered ones), with its floor
    clamped to at most 0. */
module SharedDomain {
  import opened Optional
  import opened StableSort

  /** A JavaScript number as far as this step needs one: an integer, or one of
      the infinities that seed the scan. */
  datatype Extended = NegInf | Finite(n: int) | PosInf

  /** JavaScript's `<` on these numbers. */
  predicate Less(a: Extended, b: Extended) {
    match (a, b)
    case (NegInf, NegInf) => false
    case (NegInf, _) => true
    case (Finite(x), Finite(y)) => x < y
    case (Finite(_), PosInf) => true
    case (_, _) => false
  }

  /** The `[min, max]` pair handed to every chart. */
  datatype Domain = Domain(min: Extended, max: Extended)

  /** One iteration of the scan: `if (val < min) min = val; if (val > max) max = val;`. */
  function Step(d: Domain, v: int): Domain {
    Domain(if Less(Finite(v), d.min) then Finite(v) else d.min,
           if Less(d.max, Finite(v)) then Finite(v) else d.max)
  }

  /** The running bounds after scanning `values`, starting from
      `min = Infinity` and `max = -Infinity`. */
  function Scan(values: seq<int>): Domain {
    if values == [] then Domain(PosInf, NegInf) else Step(Scan(values[..|values| - 1]), values[|values| - 1])
  }

  /** `if (min > 0) min = 0;`. */
  function Clamp(d: Domain): Domain {
    if Less(Finite(0), d.min) then d.(min := Finite(0)) else d
  }

  /** What the shared-scale memo computes. */
  function YDomain<T>(data: seq<T>, sharedScale: bool, explicitYDomain: Option<(int, int)>,
                      valueKey: Option<T -> int>): Option<Domain>
  {
    if !sharedScale && explicitYDomain.None? then None
    else if explicitYDomain.Some? then Some(Domain(Finite(explicitYDomain.value.0), Finite(explicitYDomain.value.1)))
    else if valueKey.None? then None
    else Some(Clamp(Scan(MapSeq(valueKey.value, data))))
  }

  /** The shared-scale memo: the `forEach` over all rows that tracks the
      running minimum and maximum. */
  method GlobalYDomain<T>(data: seq<T>, sharedScale: bool, explicitYDomain: Option<(int, int)>,
                          valueKey: Option<T -> int>)
    returns (yDomain: Option<Domain>)
    ensures yDomain == YDomain(data, sharedScale, explicitYDomain, valueKey)
  {
    if !sharedScale && explicitYDomain.None? {
      return None;
    }
    if explicitYDomain.Some? {
      return Some(Domain(Finite(explicitYDomain.value.0), Finite(explicitYDomain.value.1)));
    }
    if valueKey.None? {
      return None;
    }
    var valueOf := valueKey.value;
    ghost var values := MapSeq(valueOf, data);
    var min, max := PosInf, NegInf;
    for i := 0 to |data|
      invariant Domain(min, max) == Scan(values[..i])
    {
      var val := valueOf(data[i]);
      assert values[..i + 1][..i] == values[..i];
      if Less(Finite(val), min) {
        min := Finite(val);
      }
      if Less(max, Finite(val)) {
        max := Finite(val);
      }
    }
    assert values[..|data|] == values;
    if Less(Finite(0), min) {
      min := Finite(0);
    }
    yDomain := Some(Domain(min, max));
  }

  /** The scan of a non-empty list finds its least and its greatest value. */
  lemma {:induction false} ScanFindsBounds(values: seq<int>)
    requires values != []
    ensures Scan(values).min.Finite? && Scan(values).max.Finite?
    ensures Scan(values).min.n in values && Scan(values).max.n in values
    ensures forall v :: v in values ==> Scan(values).min.n <= v <= Scan(values).max.n
  {
    var values' := values[..|values| - 1];
    assert values == values' + [values[|values| - 1]];
    if values' != [] {
      ScanFindsBounds(values');
    }
  }

  /** With shared scale on, no explicit domain and a value accessor, the
      domain of non-empty data is `[min(0, least value), greatest value]`. */
  lemma ComputedDomain<T>(data: seq<T>, valueOf: T -> int)
    requires data != []
    ensures var d := YDomain(data, true, None, Some(valueOf));
      && d.Some? && d.value.min.Finite? && d.value.max.Finite?
      && d.value.min.n <= 0
      && (forall r :: r in data ==> d.value.min.n <= valueOf(r) <= d.value.max.n)
      && (d.value.min.n == 0 || exists r :: r in data && valueOf(r) == d.value.min.n)
      && (exists r :: r in data && valueOf(r) == d.value.max.n)
      && ((forall r :: r in data ==> valueOf(r) > 0) ==> d.value.min.n == 0)
  {
    var values := MapSeq(valueOf, data);
    ScanFindsBounds(values);
    var s := Scan(values);
    forall r | r in data ensures s.min.n <= valueOf(r) <= s.max.n {
      var p :| 0 <= p < |data| && data[p] == r;
      assert values[p] == valueOf(r);
      assert values[p] in values;
    }
    var q :| 0 <= q < |values| && values[q] == s.max.n;
    assert data[q] in data;
    if !Less(Finite(0), s.min) {
      var p :| 0 <= p < |values| && values[p] == s.min.n;
      assert data[p] in data;
    }
  }

  /** No rows leave the sentinels in place: the domain is `[0, -Infinity]`. */
  lemma EmptyDataDomain<T>(valueOf: T -> int)
    ensures YDomain([], true, None, Some(valueOf)) == Some(Domain(Finite(0), NegInf))
  {}

  /** An explicit domain wins even when shared scale is off; otherwise, with
      shared scale off or no value accessor, there is no domain. */
  lemma DomainSelection<T>(data: seq<T>, sharedScale: bool, explicitYDomain: Option<(int, int)>,
                           valueKey: Option<T -> int>)
    ensures explicitYDomain.Some? ==>
      YDomain(data, sharedScale, explicitYDomain, valueKey)
        == Some(Domain(Finite(explicitYDomain.value.0), Finite(explicitYDomain.value.1)))
    ensures explicitYDomain.None? && (!sharedScale || valueKey.None?) ==>
      YDomain(data, sharedScale, explicitYDomain, valueKey) == None
  {}
}
