/**
 * The derivations `Geo()` memoises over the normalised country list
 * (src/pages/Geo.jsx:196-224): the `salesByCountry` and `ordersByCountry`
 * lookup maps, built row by row with `map.set`, and the `maxSales` and
 * `totalSales` folds.
 */
module CountryIndex {
  import opened Wrappers
  import opened JsValues
  import opened GeoRecords
  import opened GeoPayload
  import opened NameKeys

  // ---------------------------------------------------------------------------
  // The lookup maps

  /** `normalizeName(countryName)` throws for this row: its name is truthy and its conversion throws. */
  predicate NameThrows(row: CountrySales) {
    Truthy(row.countryName) && ConversionThrows(row.countryName)
  }

  /** Some row's name key throws, which makes the `forEach` throw. */
  predicate SomeNameThrows(rows: seq<CountrySales>) {
    exists i :: 0 <= i < |rows| && NameThrows(rows[i])
  }

  /**
   * The keys one row is stored under: its upper-cased code, and its name key when
   * that is not empty (a row whose name throws has no name key here; the loop
   * never gets past it).
   */
  function KeysOf(row: CountrySales, h: Host): set<string> {
    var name := NormalizeName(row.countryName, h).GetOr("");
    {h.toUpperCase(row.countryCode)} + (if name != "" then {name} else {})
  }

  /** The map after one `forEach` step: both keys of `row` are set to `field(row)`. */
  function SetRow<V>(m: map<string, V>, row: CountrySales, h: Host, field: CountrySales -> V): map<string, V> {
    var withCode := m[h.toUpperCase(row.countryCode) := field(row)];
    var name := NormalizeName(row.countryName, h).GetOr("");
    if name != "" then withCode[name := field(row)] else withCode
  }

  /** The map the `forEach` over `rows` leaves behind, starting from `new Map()`. */
  function IndexOf<V>(rows: seq<CountrySales>, h: Host, field: CountrySales -> V): map<string, V>
    decreases |rows|
  {
    if rows == [] then map[]
    else SetRow(IndexOf(rows[..|rows| - 1], h, field), rows[|rows| - 1], h, field)
  }

  /** The key sets of all rows, in order. */
  function RowKeys(rows: seq<CountrySales>, h: Host): (ks: seq<set<string>>)
    ensures |ks| == |rows|
    ensures forall i :: 0 <= i < |rows| ==> ks[i] == KeysOf(rows[i], h)
  {
    seq(|rows|, i requires 0 <= i < |rows| => KeysOf(rows[i], h))
  }

  /** The last position whose key set holds `key`, or -1 when none does. */
  function LastHolding(ks: seq<set<string>>, key: string): (j: int)
    ensures -1 <= j < |ks|
    decreases |ks|
  {
    if ks == [] then -1
    else if key in ks[|ks| - 1] then |ks| - 1
    else LastHolding(ks[..|ks| - 1], key)
  }

  /** The position found holds `key`, and no later one does. */
  lemma {:induction false} LastHoldingIsLast(ks: seq<set<string>>, key: string)
    ensures var j := LastHolding(ks, key);
      && (j >= 0 ==> key in ks[j])
      && forall k :: j < k < |ks| ==> key !in ks[k]
    decreases |ks|
  {
    if ks != [] && key !in ks[|ks| - 1] {
      var init := ks[..|ks| - 1];
      LastHoldingIsLast(init, key);
      forall k | 0 <= k < |init| ensures ks[k] == init[k] { }
    }
  }

  /** The last row stored under `key`, or -1 when no row is. */
  function LastWriter(rows: seq<CountrySales>, h: Host, key: string): (j: int)
    ensures -1 <= j < |rows|
  {
    LastHolding(RowKeys(rows, h), key)
  }

  /** The last writer is stored under `key`, and no later row is. */
  lemma LastWriterIsLast(rows: seq<CountrySales>, h: Host, key: string)
    ensures var j := LastWriter(rows, h, key);
      && (j >= 0 ==> key in KeysOf(rows[j], h))
      && forall k :: j < k < |rows| ==> key !in KeysOf(rows[k], h)
  {
    LastHoldingIsLast(RowKeys(rows, h), key);
  }

  /** One step sets exactly the row's keys, to the row's value, and leaves every other key alone. */
  lemma SetRowEffect<V>(m: map<string, V>, row: CountrySales, h: Host, field: CountrySales -> V, key: string)
    ensures key in KeysOf(row, h) ==> key in SetRow(m, row, h, field) && SetRow(m, row, h, field)[key] == field(row)
    ensures key !in KeysOf(row, h) ==>
              (key in SetRow(m, row, h, field) <==> key in m)
              && (key in m ==> SetRow(m, row, h, field)[key] == m[key])
  {
  }

  /** The last writer of a non-empty list is its last row if that row has the key, else the last writer before it. */
  lemma LastWriterStep(rows: seq<CountrySales>, h: Host, key: string)
    requires rows != []
    ensures var init := rows[..|rows| - 1];
      LastWriter(rows, h, key) ==
        if key in KeysOf(rows[|rows| - 1], h) then |rows| - 1 else LastWriter(init, h, key)
  {
    assert RowKeys(rows, h)[..|rows| - 1] == RowKeys(rows[..|rows| - 1], h);
  }

  /**
   * A key is in the map exactly when some row is stored under it, and then it
   * holds the value of the LAST such row: later rows overwrite earlier ones.
   */
  lemma {:induction false} IndexLastWriter<V>(rows: seq<CountrySales>, h: Host, field: CountrySales -> V, key: string)
    ensures key in IndexOf(rows, h, field) <==> LastWriter(rows, h, key) >= 0
    ensures LastWriter(rows, h, key) >= 0 ==>
              key in IndexOf(rows, h, field) && IndexOf(rows, h, field)[key] == field(rows[LastWriter(rows, h, key)])
    decreases |rows|
  {
    if rows != [] {
      var init := rows[..|rows| - 1];
      var last := rows[|rows| - 1];
      IndexLastWriter(init, h, field, key);
      LastWriterStep(rows, h, key);
      assert IndexOf(rows, h, field) == SetRow(IndexOf(init, h, field), last, h, field);
      SetRowEffect(IndexOf(init, h, field), last, h, field, key);
      var j := LastWriter(init, h, key);
      if key !in KeysOf(last, h) && j >= 0 {
        assert rows[j] == init[j];
      }
    }
  }

  /** Appending a row stores its value under its keys whatever came before. */
  lemma LaterRowOverwrites<V>(rows: seq<CountrySales>, row: CountrySales, h: Host, field: CountrySales -> V, key: string)
    requires key in KeysOf(row, h)
    ensures key in IndexOf(rows + [row], h, field)
    ensures IndexOf(rows + [row], h, field)[key] == field(row)
  {
    assert (rows + [row])[..|rows|] == rows;
  }

  /** No row of `rows` has a name key that throws, stated row by row from the back. */
  predicate NoNameThrows(rows: seq<CountrySales>)
    decreases |rows|
  {
    rows == [] || (NoNameThrows(rows[..|rows| - 1]) && !NameThrows(rows[|rows| - 1]))
  }

  lemma {:induction false} NoNameThrowsIff(rows: seq<CountrySales>)
    ensures NoNameThrows(rows) <==> !SomeNameThrows(rows)
    decreases |rows|
  {
    if rows != [] {
      var init := rows[..|rows| - 1];
      NoNameThrowsIff(init);
      assert forall k :: 0 <= k < |init| ==> init[k] == rows[k];
      if SomeNameThrows(rows) && !NameThrows(rows[|rows| - 1]) {
        var k :| 0 <= k < |rows| && NameThrows(rows[k]);
        assert k < |init| && NameThrows(init[k]);
      }
    }
  }

  /**
   * The loop of `salesByCountry` and `ordersByCountry`: one `map.set` pair per
   * row. None stands for the TypeError of a row whose name key throws.
   */
  method BuildIndex<V>(rows: seq<CountrySales>, h: Host, field: CountrySales -> V) returns (m: Option<map<string, V>>)
    ensures m.None? <==> SomeNameThrows(rows)
    ensures m.Some? ==> m.value == IndexOf(rows, h, field)
  {
    var acc := map[];
    var i := 0;
    while i < |rows|
      invariant 0 <= i <= |rows|
      invariant acc == IndexOf(rows[..i], h, field)
      invariant NoNameThrows(rows[..i])
    {
      var row := rows[i];
      acc := acc[h.toUpperCase(row.countryCode) := field(row)];
      var name := NormalizeName(row.countryName, h);
      if name.None? {
        assert NameThrows(rows[i]);
        return None;
      }
      var normalized := name.value;
      if normalized != "" {
        acc := acc[normalized := field(row)];
      }
      assert rows[..i + 1][..i] == rows[..i];
      i := i + 1;
    }
    assert rows[..|rows|] == rows;
    NoNameThrowsIff(rows);
    m := Some(acc);
  }

  /** `salesByCountry` */
  method SalesByCountry(rows: seq<CountrySales>, h: Host) returns (m: Option<map<string, Num>>)
    ensures m.None? <==> SomeNameThrows(rows)
    ensures m.Some? ==> m.value == IndexOf(rows, h, (row: CountrySales) => row.sales)
  {
    m := BuildIndex(rows, h, (row: CountrySales) => row.sales);
  }

  /**
   * `ordersByCountry`. `orders ?? 0` is `orders`: a normalised row always has a
   * number there, and a fallback row, which has no `orders` field, is a row
   * whose orders are 0.
   */
  method OrdersByCountry(rows: seq<CountrySales>, h: Host) returns (m: Option<map<string, real>>)
    ensures m.None? <==> SomeNameThrows(rows)
    ensures m.Some? ==> m.value == IndexOf(rows, h, (row: CountrySales) => row.orders)
  {
    m := BuildIndex(rows, h, (row: CountrySales) => row.orders);
  }

  // ---------------------------------------------------------------------------
  // The folds

  /** `Math.max(a, b)`: NaN when either is NaN. */
  function NumMax(a: Num, b: Num): Num {
    if a.NaN? || b.NaN? then NaN else if NumLess(a, b) then b else a
  }

  /** `a + b` on JavaScript numbers. */
  function NumAdd(a: Num, b: Num): Num {
    match (a, b)
    case (NaN, _) => NaN
    case (_, NaN) => NaN
    case (PosInf, NegInf) => NaN
    case (NegInf, PosInf) => NaN
    case (PosInf, _) => PosInf
    case (_, PosInf) => PosInf
    case (NegInf, _) => NegInf
    case (_, NegInf) => NegInf
    case (Finite(x), Finite(y)) => Finite(x + y)
  }

  /** `a <= b` for numbers other than NaN. */
  predicate NumAtMost(a: Num, b: Num) {
    !a.NaN? && !b.NaN? && !NumLess(b, a)
  }

  /** `Math.max` is NaN exactly when an operand is; otherwise it is one of them and at least both. */
  lemma NumMaxFacts(a: Num, b: Num)
    ensures NumMax(a, b).NaN? <==> a.NaN? || b.NaN?
    ensures !a.NaN? && !b.NaN? ==>
              && (NumMax(a, b) == a || NumMax(a, b) == b)
              && NumAtMost(a, NumMax(a, b)) && NumAtMost(b, NumMax(a, b))
  {
  }

  /**
   * `+` is exact on finite numbers and commutative; it is NaN exactly when an
   * operand is NaN or the operands are opposite infinities.
   */
  lemma NumAddFacts(a: Num, b: Num)
    ensures a.Finite? && b.Finite? ==> NumAdd(a, b) == Finite(a.r + b.r)
    ensures NumAdd(a, b) == NumAdd(b, a)
    ensures NumAdd(a, b).NaN? <==> a.NaN? || b.NaN? || (a.PosInf? && b.NegInf?) || (a.NegInf? && b.PosInf?)
  {
  }

  /** `countrySales.reduce((max, row) => Math.max(max, row.sales), 0)` */
  function MaxSales(rows: seq<CountrySales>): Num
    decreases |rows|
  {
    if rows == [] then Zero else NumMax(MaxSales(rows[..|rows| - 1]), rows[|rows| - 1].sales)
  }

  /** `countrySales.reduce((sum, row) => sum + row.sales, 0)` */
  function TotalSales(rows: seq<CountrySales>): Num
    decreases |rows|
  {
    if rows == [] then Zero else NumAdd(TotalSales(rows[..|rows| - 1]), rows[|rows| - 1].sales)
  }

  lemma MaxSalesOfEmpty()
    ensures MaxSales([]) == Zero && TotalSales([]) == Zero
  {
  }

  /**
   * Over non-negative sales, `maxSales` is non-negative, at least every row's
   * sales, and either 0 or some row's sales.
   */
  lemma {:induction false} MaxSalesBounds(rows: seq<CountrySales>)
    requires NonNegativeSales(rows)
    ensures IsNonNegative(MaxSales(rows))
    ensures forall i :: 0 <= i < |rows| ==> NumAtMost(rows[i].sales, MaxSales(rows))
    ensures MaxSales(rows) == Zero || exists i :: 0 <= i < |rows| && MaxSales(rows) == rows[i].sales
    decreases |rows|
  {
    if rows != [] {
      var init := rows[..|rows| - 1];
      assert NonNegativeSales(init) by {
        forall i | 0 <= i < |init| ensures IsNonNegative(init[i].sales) {
          assert init[i] == rows[i];
        }
      }
      MaxSalesBounds(init);
      var m, x := MaxSales(init), rows[|rows| - 1].sales;
      forall i | 0 <= i < |rows| ensures NumAtMost(rows[i].sales, MaxSales(rows)) {
        if i < |init| {
          assert rows[i] == init[i];
        }
      }
      if MaxSales(rows) != Zero && MaxSales(rows) != x {
        var i :| 0 <= i < |init| && m == init[i].sales;
        assert rows[i] == init[i];
      }
    }
  }

  /** Over non-negative sales, `maxSales === 0` exactly when every row's sales are 0. */
  lemma MaxSalesZeroIffAllZero(rows: seq<CountrySales>)
    requires NonNegativeSales(rows)
    ensures MaxSales(rows) == Zero <==> forall i :: 0 <= i < |rows| ==> rows[i].sales == Zero
  {
    MaxSalesBounds(rows);
  }

  /** Over non-negative sales, `totalSales` is non-negative and at least `maxSales`. */
  lemma {:induction false} TotalAtLeastMax(rows: seq<CountrySales>)
    requires NonNegativeSales(rows)
    ensures IsNonNegative(TotalSales(rows))
    ensures NumAtMost(MaxSales(rows), TotalSales(rows))
    decreases |rows|
  {
    if rows != [] {
      var init := rows[..|rows| - 1];
      assert NonNegativeSales(init) by {
        forall i | 0 <= i < |init| ensures IsNonNegative(init[i].sales) {
          assert init[i] == rows[i];
        }
      }
      TotalAtLeastMax(init);
      MaxSalesBounds(init);
    }
  }
}
