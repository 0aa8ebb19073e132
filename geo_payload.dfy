/**
 * `extractGeoPayload` in src/pages/Geo.jsx: find the row list inside whatever
 * payload shape arrives, normalise every row, drop the rejected ones, and sort
 * the rest by sales, highest first, with `Array.prototype.sort` (a stable sort)
 * and the comparator `(a, b) => b.sales - a.sales`.
 */
module GeoPayload {
  import opened Wrappers
  import opened JsValues
  import opened GeoRecords

  /** Top-level metadata of a payload; `null` when absent. */
  datatype GeoMeta = GeoMeta(updatedAt: Value, currency: Value)

  datatype GeoData = GeoData(entries: seq<CountrySales>, meta: GeoMeta)

  // ---------------------------------------------------------------------------
  // Number order as the comparator sees it

  /** `a - b` on JavaScript numbers. */
  function NumSub(a: Num, b: Num): Num {
    match (a, b)
    case (NaN, _) => NaN
    case (_, NaN) => NaN
    case (PosInf, PosInf) => NaN
    case (NegInf, NegInf) => NaN
    case (PosInf, _) => PosInf
    case (NegInf, _) => NegInf
    case (_, PosInf) => NegInf
    case (_, NegInf) => PosInf
    case (Finite(x), Finite(y)) => Finite(x - y)
  }

  /** `n > 0` */
  predicate IsPositive(n: Num) {
    n.PosInf? || (n.Finite? && n.r > 0.0)
  }

  /** `a < b` on numbers other than NaN. */
  predicate NumLess(a: Num, b: Num) {
    match (a, b)
    case (NegInf, NegInf) => false
    case (NegInf, _) => !b.NaN?
    case (Finite(x), Finite(y)) => x < y
    case (Finite(_), PosInf) => true
    case (_, _) => false
  }

  /** For numbers other than NaN, the comparator's difference is positive exactly when the order says so. */
  lemma SubPositiveIsLess(a: Num, b: Num)
    requires !a.NaN? && !b.NaN?
    ensures IsPositive(NumSub(a, b)) <==> NumLess(b, a)
  {
  }

  /** A positive difference never comes from two equal numbers. */
  lemma SubPositiveMeansDistinct(a: Num, b: Num)
    requires IsPositive(NumSub(a, b))
    ensures a != b
  {
  }

  // ---------------------------------------------------------------------------
  // The stable sort

  /** The comparator `(a, b) => b.sales - a.sales` says `y` must come before `x`. */
  predicate Ahead(y: CountrySales, x: CountrySales) {
    IsPositive(NumSub(y.sales, x.sales))
  }

  /** Inserts `x`, which preceded every element of `l`, after the leading elements that must come before it. */
  function Insert(x: CountrySales, l: seq<CountrySales>): (r: seq<CountrySales>)
    ensures multiset(r) == multiset(l) + multiset{x}
    ensures |r| == |l| + 1
    decreases |l|
  {
    if l == [] || !Ahead(l[0], x) then [x] + l
    else
      assert l == [l[0]] + l[1..];
      [l[0]] + Insert(x, l[1..])
  }

  /** `entries.sort((a, b) => b.sales - a.sales)` as a stable insertion sort. */
  function SortBySalesDesc(xs: seq<CountrySales>): (r: seq<CountrySales>)
    ensures multiset(r) == multiset(xs)
    ensures |r| == |xs|
    decreases |xs|
  {
    if xs == [] then []
    else
      assert xs == [xs[0]] + xs[1..];
      Insert(xs[0], SortBySalesDesc(xs[1..]))
  }

  predicate NoNaNSales(xs: seq<CountrySales>) {
    forall i :: 0 <= i < |xs| ==> !xs[i].sales.NaN?
  }

  /** Every sales figure passed the gate of line 53: not NaN and not negative. */
  predicate NonNegativeSales(xs: seq<CountrySales>) {
    forall i :: 0 <= i < |xs| ==> IsNonNegative(xs[i].sales)
  }

  /** Sales never increase along `xs`. */
  predicate Descending(xs: seq<CountrySales>) {
    forall i, j :: 0 <= i < j < |xs| ==> !NumLess(xs[i].sales, xs[j].sales)
  }

  /** The elements of `xs` whose sales equal `v`, in their order in `xs`. */
  function WithSales(xs: seq<CountrySales>, v: Num): (r: seq<CountrySales>)
    ensures |r| <= |xs|
    decreases |xs|
  {
    if xs == [] then []
    else (if xs[0].sales == v then [xs[0]] else []) + WithSales(xs[1..], v)
  }

  lemma {:induction false} InsertDescending(x: CountrySales, l: seq<CountrySales>)
    requires !x.sales.NaN? && NoNaNSales(l) && Descending(l)
    ensures Descending(Insert(x, l))
    decreases |l|
  {
    if l == [] || !Ahead(l[0], x) {
      if l != [] {
        SubPositiveIsLess(l[0].sales, x.sales);
      }
    } else {
      SubPositiveIsLess(l[0].sales, x.sales);
      var rest := Insert(x, l[1..]);
      InsertDescending(x, l[1..]);
      var r := [l[0]] + rest;
      forall j | 1 <= j < |r|
        ensures !NumLess(l[0].sales, r[j].sales)
      {
        assert r[j] in multiset(rest);
        assert r[j] in multiset(l[1..]) || r[j] == x;
        if r[j] != x {
          var k :| 0 <= k < |l[1..]| && l[1..][k] == r[j];
          assert l[k + 1] == r[j];
        }
      }
    }
  }

  lemma {:induction false} SortDescending(xs: seq<CountrySales>)
    requires NoNaNSales(xs)
    ensures Descending(SortBySalesDesc(xs))
    decreases |xs|
  {
    if xs != [] {
      SortDescending(xs[1..]);
      var s := SortBySalesDesc(xs[1..]);
      forall i | 0 <= i < |s|
        ensures !s[i].sales.NaN?
      {
        assert s[i] in multiset(xs[1..]);
        var k :| 0 <= k < |xs[1..]| && xs[1..][k] == s[i];
      }
      InsertDescending(xs[0], s);
    }
  }

  lemma {:induction false} InsertStable(x: CountrySales, l: seq<CountrySales>, v: Num)
    ensures WithSales(Insert(x, l), v) == (if x.sales == v then [x] else []) + WithSales(l, v)
    decreases |l|
  {
    if l == [] || !Ahead(l[0], x) {
      assert ([x] + l)[1..] == l;
    } else {
      var rest, tail := Insert(x, l[1..]), WithSales(l[1..], v);
      var a := if l[0].sales == v then [l[0]] else [];
      var b := if x.sales == v then [x] else [];
      SubPositiveMeansDistinct(l[0].sales, x.sales);
      InsertStable(x, l[1..], v);
      assert ([l[0]] + rest)[1..] == rest;
      assert a == [] || b == [];
      calc {
        WithSales(Insert(x, l), v);
        a + WithSales(rest, v);
        a + (b + tail);
        { assert a + (b + tail) == b + (a + tail); }
        b + (a + tail);
        b + WithSales(l, v);
      }
    }
  }

  /** The sort is stable: the elements with any given sales figure keep their relative order. */
  lemma {:induction false} SortStable(xs: seq<CountrySales>, v: Num)
    ensures WithSales(SortBySalesDesc(xs), v) == WithSales(xs, v)
    decreases |xs|
  {
    if xs != [] {
      SortStable(xs[1..], v);
      InsertStable(xs[0], SortBySalesDesc(xs[1..]), v);
    }
  }

  /** Sorting neither adds nor drops an entry, so it keeps every sales figure non-negative. */
  lemma SortKeepsMembers(xs: seq<CountrySales>)
    ensures forall e :: e in SortBySalesDesc(xs) <==> e in xs
    ensures NonNegativeSales(xs) ==> NonNegativeSales(SortBySalesDesc(xs))
  {
    var s := SortBySalesDesc(xs);
    forall e ensures e in s <==> e in xs {
      assert e in s <==> e in multiset(s);
      assert e in xs <==> e in multiset(xs);
    }
    if NonNegativeSales(xs) {
      forall i | 0 <= i < |s| ensures IsNonNegative(s[i].sales) {
        assert s[i] in xs;
      }
    }
  }

  // ---------------------------------------------------------------------------
  // Payload extraction

  /** The rows: the payload itself if it is an array, else its `entries`, `countries` or `data` array, else none. */
  function Rows(payload: Value): seq<Value> {
    if payload.Array? then payload.items
    else if Get(payload, "entries").Array? then Get(payload, "entries").items
    else if Get(payload, "countries").Array? then Get(payload, "countries").items
    else if Get(payload, "data").Array? then Get(payload, "data").items
    else []
  }

  /** Some row's normalisation throws. */
  predicate SomeRowThrows(rows: seq<Value>, h: Host) {
    exists i :: 0 <= i < |rows| && NormalizeCountryRecord(rows[i], h).Thrown?
  }

  /**
   * `rows.map((row) => normalizeCountryRecord(row))`: the first row that throws
   * makes the whole map throw; otherwise one result per row, None for `null`.
   */
  function NormalizeRows(rows: seq<Value>, h: Host): (r: Completion<seq<Option<CountrySales>>>)
    ensures r.Thrown? <==> SomeRowThrows(rows, h)
    ensures r.Normal? ==> |r.value| == |rows|
    ensures r.Normal? ==> forall i :: 0 <= i < |rows| ==> Normal(r.value[i]) == NormalizeCountryRecord(rows[i], h)
    decreases |rows|
  {
    if rows == [] then Normal([])
    else
      var first := NormalizeCountryRecord(rows[0], h);
      var rest := NormalizeRows(rows[1..], h);
      assert forall i :: 1 <= i < |rows| ==> rows[i] == rows[1..][i - 1];
      assert SomeRowThrows(rows, h) <==> first.Thrown? || SomeRowThrows(rows[1..], h) by {
        if SomeRowThrows(rows[1..], h) {
          var i :| 0 <= i < |rows[1..]| && NormalizeCountryRecord(rows[1..][i], h).Thrown?;
          assert rows[i + 1] == rows[1..][i];
        }
      }
      if first.Thrown? || rest.Thrown? then Thrown else Normal([first.value] + rest.value)
  }

  /** `.filter((row) => row !== null)` */
  function DropNulls(rows: seq<Option<CountrySales>>): (r: seq<CountrySales>)
    ensures |r| <= |rows|
    decreases |rows|
  {
    if rows == [] then []
    else (if rows[0].Some? then [rows[0].value] else []) + DropNulls(rows[1..])
  }

  /** The filter keeps exactly the non-null rows. */
  lemma {:induction false} DropNullsMembers(rows: seq<Option<CountrySales>>, e: CountrySales)
    ensures e in DropNulls(rows) <==> Some(e) in rows
    decreases |rows|
  {
    if rows != [] {
      DropNullsMembers(rows[1..], e);
      assert rows == [rows[0]] + rows[1..];
    }
  }

  /** The normalised, filtered rows, when no normalisation throws. */
  function Kept(rows: seq<Value>, h: Host): seq<CountrySales>
    requires !SomeRowThrows(rows, h)
  {
    DropNulls(NormalizeRows(rows, h).value)
  }

  /** The kept entries are exactly the non-null normalisations of the rows, and none has NaN sales. */
  lemma KeptMembers(rows: seq<Value>, h: Host)
    requires !SomeRowThrows(rows, h)
    ensures forall e :: e in Kept(rows, h) <==>
              exists i :: 0 <= i < |rows| && NormalizeCountryRecord(rows[i], h) == Normal(Some(e))
    ensures NonNegativeSales(Kept(rows, h)) && NoNaNSales(Kept(rows, h))
  {
    var normalized := NormalizeRows(rows, h).value;
    forall e ensures e in Kept(rows, h) <==>
                     exists i :: 0 <= i < |rows| && NormalizeCountryRecord(rows[i], h) == Normal(Some(e))
    {
      DropNullsMembers(normalized, e);
      if Some(e) in normalized {
        var k :| 0 <= k < |normalized| && normalized[k] == Some(e);
        assert NormalizeCountryRecord(rows[k], h) == Normal(Some(e));
      }
    }
    forall i | 0 <= i < |Kept(rows, h)|
      ensures IsNonNegative(Kept(rows, h)[i].sales)
    {
      var e := Kept(rows, h)[i];
      DropNullsMembers(normalized, e);
      var k :| 0 <= k < |normalized| && normalized[k] == Some(e);
      assert NormalizeCountryRecord(rows[k], h) == Normal(Some(e));
    }
  }

  /**
   * `extractGeoPayload(payload)`; `Thrown` stands for the TypeError a row's
   * normalisation throws.
   */
  function ExtractGeoPayload(payload: Value, h: Host): (r: Completion<GeoData>)
    ensures r.Thrown? <==> SomeRowThrows(Rows(payload), h)
    ensures r.Normal? ==> r.value.meta.updatedAt == Coalesce(Get(payload, "updatedAt"), Null)
    ensures r.Normal? ==> r.value.meta.currency == Coalesce(Get(payload, "currency"), Coalesce(GetPath(payload, ["meta", "currency"]), Null))
    ensures r.Normal? ==> |r.value.entries| <= |Rows(payload)|
    ensures r.Normal? ==> forall e :: e in r.value.entries <==>
              exists i :: 0 <= i < |Rows(payload)| && NormalizeCountryRecord(Rows(payload)[i], h) == Normal(Some(e))
    ensures r.Normal? ==> multiset(r.value.entries) == multiset(Kept(Rows(payload), h))
    ensures r.Normal? ==> NonNegativeSales(r.value.entries)
    ensures r.Normal? ==> Descending(r.value.entries)
    ensures r.Normal? ==> forall v :: WithSales(r.value.entries, v) == WithSales(Kept(Rows(payload), h), v)
  {
    var meta := GeoMeta(
      Coalesce(Get(payload, "updatedAt"), Null),
      Coalesce(Get(payload, "currency"), Coalesce(GetPath(payload, ["meta", "currency"]), Null)));
    var normalized := NormalizeRows(Rows(payload), h);
    if normalized.Thrown? then Thrown
    else
      var kept := Kept(Rows(payload), h);
      var entries := SortBySalesDesc(kept);
      KeptMembers(Rows(payload), h);
      SortDescending(kept);
      forall v ensures WithSales(entries, v) == WithSales(kept, v) {
        SortStable(kept, v);
      }
      SortKeepsMembers(kept);
      Normal(GeoData(entries, meta))
  }

  /** A row with a sales object `{"toString": "5"}` makes `Number(numericValue)`, and so the whole extraction, throw. */
  lemma ExtractThrowsOnOwnToStringSales(h: Host)
    ensures var row := Object(map["countryCode" := Str("FRA"), "sales" := Object(map["toString" := Str("5")])]);
      ExtractGeoPayload(Array([row]), h) == Thrown
  {
    var row := Object(map["countryCode" := Str("FRA"), "sales" := Object(map["toString" := Str("5")])]);
    assert Lookups(row, CodePaths)[0] == Str("FRA");
    assert Lookups(row, SalesPaths)[0] == Object(map["toString" := Str("5")]);
    assert NormalizeCountryRecord(Rows(Array([row]))[0], h).Thrown?;
  }

  /** A payload that is neither an array nor holds a row array yields no entries, and absent metadata is null. */
  lemma ExtractFromEmptyObject(h: Host)
    ensures ExtractGeoPayload(Object(map[]), h) == Normal(GeoData([], GeoMeta(Null, Null)))
  {
  }
}
