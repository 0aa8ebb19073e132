/**
 * Normalisation of one loosely shaped country record of the geo KPI feed
 * (`normalizeCountryRecord` in src/pages/Geo.jsx): the code, sales, name and
 * orders fields are each read from a priority list of alias properties.
 */
module GeoRecords {
  import opened Wrappers
  import opened JsValues

  /** A country's sales figures after normalisation. */
  datatype CountrySales = CountrySales(
    countryCode: string,   // trimmed and upper-cased
    countryName: Value,    // whatever the first name alias holds, or the code
    sales: Num,            // not NaN and not negative (may be +Infinity)
    orders: real)          // finite and non-negative, 0 by default

  /** Alias property paths, in priority order (`record.country?.code` is the path country, code). */
  const CodePaths: seq<seq<string>> :=
    [["countryCode"], ["countryISO"], ["countryIso"], ["country", "code"], ["code"], ["iso_code"]]
  const SalesPaths: seq<seq<string>> :=
    [["sales"], ["totalSales"], ["revenue"], ["value"], ["amount"], ["total"], ["count"]]
  const NamePaths: seq<seq<string>> :=
    [["countryName"], ["country", "name"], ["name"], ["label"], ["title"]]
  const OrdersPaths: seq<seq<string>> :=
    [["orders"], ["orderCount"], ["totalOrders"], ["ordersCount"], ["countOrders"], ["count"]]

  /** The values found at each of `paths` in `record`. */
  function Lookups(record: Value, paths: seq<seq<string>>): (vs: seq<Value>)
    ensures |vs| == |paths|
    ensures forall i :: 0 <= i < |paths| ==> vs[i] == GetPath(record, paths[i])
  {
    seq(|paths|, i requires 0 <= i < |paths| => GetPath(record, paths[i]))
  }

  /** The index of the first non-nullish value of `vs`, or |vs| when every value is nullish. */
  function FirstPresent(vs: seq<Value>): (k: nat)
    ensures k <= |vs|
    ensures forall i :: 0 <= i < k ==> IsNullish(vs[i])
    ensures k < |vs| ==> !IsNullish(vs[k])
    decreases |vs|
  {
    if vs == [] then 0
    else if !IsNullish(vs[0]) then 0
    else 1 + FirstPresent(vs[1..])
  }

  /** A chain of `??` picks the first non-nullish value, or the last value when there is none. */
  lemma CoalesceAllIsFirstPresent(vs: seq<Value>)
    requires |vs| >= 1
    ensures CoalesceAll(vs) == if FirstPresent(vs) < |vs| then vs[FirstPresent(vs)] else vs[|vs| - 1]
  {
  }

  /** `record.countryCode ?? record.countryISO ?? ... ?? record.iso_code` */
  function RawCode(record: Value): Value {
    CoalesceAll(Lookups(record, CodePaths))
  }

  /** `record.sales ?? record.totalSales ?? ... ?? record.count` */
  function RawSales(record: Value): Value {
    CoalesceAll(Lookups(record, SalesPaths))
  }

  /** `record.countryName ?? record.country?.name ?? ... ?? record.title ?? code` */
  function RawName(record: Value, code: string): Value {
    CoalesceAll(Lookups(record, NamePaths) + [Str(code)])
  }

  /** `record.orders ?? record.orderCount ?? ... ?? record.count` */
  function RawOrders(record: Value): Value {
    CoalesceAll(Lookups(record, OrdersPaths))
  }

  /** `Number.isFinite(n) && n >= 0 ? n : 0` */
  function OrdersOrZero(n: Num): real {
    if n.Finite? && n.r >= 0.0 then n.r else 0.0
  }

  /** `String(rawCode).trim().toUpperCase()`; None stands for the TypeError `String` throws. */
  function NormalizeCode(rawCode: Value, h: Host): (r: Option<string>)
    ensures r.None? <==> ConversionThrows(rawCode)
  {
    var s := ToStr(rawCode, h);
    if s.None? then None else Some(h.toUpperCase(Trim(s.value)))
  }

  /**
   * `normalizeCountryRecord(record)`. `Normal(None)` stands for the `null` the
   * source returns and `Thrown` for the TypeError one of its three conversions
   * (lines 52, 55 and 72) throws.
   */
  function NormalizeCountryRecord(record: Value, h: Host): (r: Completion<Option<CountrySales>>)
    ensures r.Normal? && r.value.Some? ==> IsNonNegative(r.value.value.sales) && r.value.value.orders >= 0.0
  {
    if !Truthy(record) || !IsObjectLike(record) then Normal(None)
    else
      var rawCode := RawCode(record);
      var numericValue := RawSales(record);
      if !Truthy(rawCode) || IsNullish(numericValue) then Normal(None)
      else
        var parsedValue := ToNumber(numericValue, h);
        if parsedValue.None? then Thrown
        else if parsedValue.value.NaN? || IsNegative(parsedValue.value) then Normal(None)
        else
          var code := NormalizeCode(rawCode, h);
          if code.None? then Thrown
          else
            var parsedOrders := ToNumber(RawOrders(record), h);
            if parsedOrders.None? then Thrown
            else
              Normal(Some(CountrySales(code.value, RawName(record, code.value), parsedValue.value,
                                       OrdersOrZero(parsedOrders.value))))
  }

  /** `Number.isNaN(n) || n < 0`, the sales gate of line 53. */
  predicate FailsSalesGate(n: Num) {
    n.NaN? || IsNegative(n)
  }

  /** The outcome of `normalizeCountryRecord` in terms of the values its `??` chains give. */
  lemma NormalizeOutcome(record: Value, h: Host)
    ensures var rawCode, numericValue, r := RawCode(record), RawSales(record), NormalizeCountryRecord(record, h);
      var parsed := ToNumber(numericValue, h);
      && (r == Normal(None) <==>
            || !IsObjectLike(record) || !Truthy(rawCode) || IsNullish(numericValue)
            || (parsed.Some? && FailsSalesGate(parsed.value)))
      && (r.Thrown? <==>
            && IsObjectLike(record) && Truthy(rawCode) && !IsNullish(numericValue)
            && (parsed.None? || (!FailsSalesGate(parsed.value) && (ConversionThrows(rawCode) || ConversionThrows(RawOrders(record))))))
  {
  }

  /** A `??` chain is falsy exactly when its first present value is, or when there is none. */
  lemma ChainFacts(vs: seq<Value>)
    requires |vs| >= 1
    ensures var k := FirstPresent(vs);
      && (Truthy(CoalesceAll(vs)) <==> k < |vs| && Truthy(vs[k]))
      && (IsNullish(CoalesceAll(vs)) <==> k == |vs|)
      && (k < |vs| ==> CoalesceAll(vs) == vs[k])
  {
    CoalesceAllIsFirstPresent(vs);
  }

  /**
   * A record is rejected with `null` exactly when it is not an object, when the
   * first non-nullish code alias is falsy (or there is none), when every sales
   * alias is nullish, or when the first present sales alias parses to NaN or a
   * negative number.
   */
  lemma NormalizeRejectsExactly(record: Value, h: Host)
    ensures var codes, sales := Lookups(record, CodePaths), Lookups(record, SalesPaths);
      var kc, ks := FirstPresent(codes), FirstPresent(sales);
      NormalizeCountryRecord(record, h) == Normal(None) <==>
        || !IsObjectLike(record)
        || kc == |codes|
        || !Truthy(codes[kc])
        || ks == |sales|
        || (ToNumber(sales[ks], h).Some? && FailsSalesGate(ToNumber(sales[ks], h).value))
  {
    NormalizeOutcome(record, h);
    ChainFacts(Lookups(record, CodePaths));
    ChainFacts(Lookups(record, SalesPaths));
  }

  /**
   * `normalizeCountryRecord` throws exactly when a record that passes the gates
   * of lines 32 and 50 has a first present sales alias whose conversion throws,
   * or passes the sales gate too and has a code or orders value whose
   * conversion throws.
   */
  lemma NormalizeThrowsExactly(record: Value, h: Host)
    ensures var codes, sales := Lookups(record, CodePaths), Lookups(record, SalesPaths);
      var orders := Lookups(record, OrdersPaths);
      var kc, ks, ko := FirstPresent(codes), FirstPresent(sales), FirstPresent(orders);
      NormalizeCountryRecord(record, h).Thrown? <==>
        && IsObjectLike(record)
        && kc < |codes| && Truthy(codes[kc])
        && ks < |sales|
        && (|| ConversionThrows(sales[ks])
            || (&& !FailsSalesGate(ToNumber(sales[ks], h).value)
                && (ConversionThrows(codes[kc]) || ConversionThrows(if ko < |orders| then orders[ko] else orders[|orders| - 1]))))
  {
    NormalizeOutcome(record, h);
    ChainFacts(Lookups(record, CodePaths));
    ChainFacts(Lookups(record, SalesPaths));
    CoalesceAllIsFirstPresent(Lookups(record, OrdersPaths));
  }

  /** A returned row is built from the values the `??` chains give. */
  lemma NormalizeRow(record: Value, h: Host)
    requires NormalizeCountryRecord(record, h).Normal? && NormalizeCountryRecord(record, h).value.Some?
    ensures var e := NormalizeCountryRecord(record, h).value.value;
      && Truthy(RawCode(record)) && NormalizeCode(RawCode(record), h).Some?
      && ToNumber(RawSales(record), h).Some? && ToNumber(RawOrders(record), h).Some?
      && e.countryCode == NormalizeCode(RawCode(record), h).value
      && e.sales == ToNumber(RawSales(record), h).value
      && e.orders == OrdersOrZero(ToNumber(RawOrders(record), h).value)
      && e.countryName == RawName(record, e.countryCode)
  {
  }

  /**
   * On success, the code is the trimmed, upper-cased string of the first present
   * code alias, and the sales figure is the parse of the first present sales alias.
   */
  lemma NormalizeCodeAndSales(record: Value, h: Host)
    requires NormalizeCountryRecord(record, h).Normal? && NormalizeCountryRecord(record, h).value.Some?
    ensures var codes, sales := Lookups(record, CodePaths), Lookups(record, SalesPaths);
      var kc, ks := FirstPresent(codes), FirstPresent(sales);
      var e := NormalizeCountryRecord(record, h).value.value;
      && kc < |codes| && Truthy(codes[kc]) && ToStr(codes[kc], h).Some?
      && e.countryCode == h.toUpperCase(Trim(ToStr(codes[kc], h).value))
      && ks < |sales| && ToNumber(sales[ks], h).Some?
      && e.sales == ToNumber(sales[ks], h).value
      && IsNonNegative(e.sales)
  {
    NormalizeRow(record, h);
    ChainFacts(Lookups(record, CodePaths));
    ChainFacts(Lookups(record, SalesPaths));
  }

  /**
   * On success, the orders figure is the first present orders alias when that
   * parses to a finite non-negative number and 0 otherwise, and the name is the
   * first present name alias, or the normalised code when there is none.
   */
  lemma NormalizeNameAndOrders(record: Value, h: Host)
    requires NormalizeCountryRecord(record, h).Normal? && NormalizeCountryRecord(record, h).value.Some?
    ensures var names, orders := Lookups(record, NamePaths), Lookups(record, OrdersPaths);
      var kn, ko := FirstPresent(names), FirstPresent(orders);
      var e := NormalizeCountryRecord(record, h).value.value;
      var n := ToNumber(if ko < |orders| then orders[ko] else orders[|orders| - 1], h);
      && n.Some?
      && e.orders >= 0.0
      && (n.value.Finite? && n.value.r >= 0.0 ==> e.orders == n.value.r)
      && (!(n.value.Finite? && n.value.r >= 0.0) ==> e.orders == 0.0)
      && e.countryName == (if kn < |names| then names[kn] else Str(e.countryCode))
  {
    var names, orders := Lookups(record, NamePaths), Lookups(record, OrdersPaths);
    NormalizeRow(record, h);
    var e := NormalizeCountryRecord(record, h).value.value;
    CoalesceAllIsFirstPresent(orders);
    var all := names + [Str(e.countryCode)];
    assert all[..|names|] == names;
    CoalesceAllIsFirstPresent(all);
    FirstPresentOfPrefix(names, [Str(e.countryCode)]);
  }

  /** A code that is an object with its own `toString` key passes the gate of line 50, and `String(rawCode)` throws. */
  lemma NormalizeThrowsOnOwnToStringCode(h: Host)
    ensures NormalizeCountryRecord(
              Object(map["countryCode" := Object(map["toString" := Str("x")]), "sales" := Number(Finite(1.0))]), h)
            == Thrown
  {
    var record := Object(map["countryCode" := Object(map["toString" := Str("x")]), "sales" := Number(Finite(1.0))]);
    assert Lookups(record, CodePaths)[0] == Object(map["toString" := Str("x")]);
    assert Lookups(record, SalesPaths)[0] == Number(Finite(1.0));
  }

  /** The first present value of `a + b` lies in `a` when `a` has one. */
  lemma {:induction false} FirstPresentOfPrefix(a: seq<Value>, b: seq<Value>)
    ensures FirstPresent(a) < |a| ==> FirstPresent(a + b) == FirstPresent(a)
    ensures FirstPresent(a) == |a| ==> FirstPresent(a + b) == |a| + FirstPresent(b)
    decreases |a|
  {
    if a == [] {
      assert a + b == b;
    } else {
      assert (a + b)[0] == a[0];
      assert (a + b)[1..] == a[1..] + b;
      FirstPresentOfPrefix(a[1..], b);
    }
  }

  /** Two records that agree on `paths`. */
  ghost predicate AgreeOn(r1: Value, r2: Value, paths: seq<seq<string>>) {
    forall i :: 0 <= i < |paths| ==> GetPath(r1, paths[i]) == GetPath(r2, paths[i])
  }

  /** The gates of lines 32, 50 and 53, which decide whether a record is kept rather than rejected with `null`. */
  predicate Accepted(record: Value, h: Host) {
    && Truthy(record) && IsObjectLike(record)
    && Truthy(RawCode(record)) && !IsNullish(RawSales(record))
    && var parsed := ToNumber(RawSales(record), h);
       parsed.Some? && !parsed.value.NaN? && !IsNegative(parsed.value)
  }

  /**
   * `normalizeCountryRecord` returns a row exactly when the gates pass and the
   * code and orders values convert without throwing.
   */
  lemma NormalizeSomeIffAccepted(record: Value, h: Host)
    ensures NormalizeCountryRecord(record, h).Normal? && NormalizeCountryRecord(record, h).value.Some? <==>
              Accepted(record, h) && !ConversionThrows(RawCode(record)) && !ConversionThrows(RawOrders(record))
  {
  }

  /**
   * Whether a record is kept depends only on its shape and its code and sales
   * aliases: the name and orders fields never cause a rejection.
   */
  lemma AcceptanceIgnoresNameAndOrders(r1: Value, r2: Value, h: Host)
    requires IsObjectLike(r1) == IsObjectLike(r2)
    requires AgreeOn(r1, r2, CodePaths) && AgreeOn(r1, r2, SalesPaths)
    ensures Accepted(r1, h) <==> Accepted(r2, h)
  {
    assert Lookups(r1, CodePaths) == Lookups(r2, CodePaths);
    assert Lookups(r1, SalesPaths) == Lookups(r2, SalesPaths);
    assert RawCode(r1) == RawCode(r2) && RawSales(r1) == RawSales(r2);
  }
}
