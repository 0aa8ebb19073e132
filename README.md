# Sales dashboard helpers, modelled in Dafny

This project models the deterministic logic inside a React sales dashboard and proves what that logic promises. It covers three pieces.

- **The geo KPI pipeline and choropleth colouring** (src/pages/Geo.jsx). `normalizeCountryRecord` turns a loosely shaped JSON record into a `{countryCode, countryName, sales, orders}` row, or `null`. It reads each field from a priority list of alias properties. `extractGeoPayload` finds the row list in whatever payload shape arrives, normalises the rows, drops the rejected ones and sorts the rest by sales, highest first. `normalizeName` makes the lookup key that joins map regions to feed rows. `hexToRgb`, `rgbToHex` and `interpolateColor` pick a colour from a six-stop green palette, and `colorForValue` adds the zero-sales fill on top. The memoised `salesByCountry`/`ordersByCountry` maps and the `maxSales`/`totalSales` folds are built from the normalised rows.
- **Chart axis-label wrapping** (src/pages/ProductInsights.jsx). `wrapLabelIntoLines` breaks a label into lines of at most `maxCharsPerLine` characters. It fills lines greedily, word by word, and hard-chunks words that are too long on their own. The tick renderer keeps the first `maxLines` lines and marks a cut with `"..."`.
- **Date-range resolution** (src/utils/dateRanges.js). `RANGE_OPTIONS` lists the past week, month, six months and year. `resolveDateRange` picks an option by key, with a fallback key and then the first option as defaults. It computes the range's first day by calendar subtraction from today's midnight. `formatDate` writes a date as `YYYY-MM-DD`.

## Modules

- `Wrappers` (wrappers.dfy): `Option`, and `Completion`, which tells a call that throws from one that returns.
- `JsValues` (js_values.dfy): the JavaScript values a decoded payload can hold.
  - Numbers are `NaN`, the two infinities, or finite numbers taken as exact reals.
  - Also covered: truthiness, `??`, optional-chaining property access, `String(...)`, `Number(...)`, `toString()`, `trim`, and whitespace as `\s` matches it.
  - `String(...)` and `Number(...)` return `None` where they throw. They throw on an object with its own `toString` key and on an array with such an element; everything else converts.
  - Built-ins whose exact behaviour is not modelled are fields of a `Host` parameter: the string-to-number parse, number printing, Unicode case mapping and NFD normalisation.
- `GeoRecords` (geo_records.dfy): `normalizeCountryRecord`.
- `GeoPayload` (geo_payload.dfy): `extractGeoPayload`. The comparator is `b.sales - a.sales` and the sort is stable, as `Array.prototype.sort` is.
- `NameKeys` (name_keys.dfy): `normalizeName`.
- `Choropleth` (choropleth.dfy): `hexToRgb`, `rgbToHex`, `interpolateColor` and `colorForValue`. `Math.pow(x, 0.55)` is a parameter `warp`, assumed only to fix 0 and 1 and to be monotone on [0, 1].
- `CountryIndex` (country_index.dfy): the lookup maps, built by a loop with `map.set` as in the source, and the two folds.
- `LabelWrap` (label_wrap.dfy): the wrap in two forms.
  - The `forEach` loop is a method that updates `lines` and `currentLine`.
  - The same loop is also a fold `Run` of a `Step` function; the method is proved equal to it.
  - The truncation overwrites the last kept line of a fresh array.
- `Calendar` (calendar.dfy): the proleptic Gregorian day arithmetic of section 21.4.1 of ECMA-262.
  - Day numbers, year, month and date of a day.
  - `MakeDay`, with its month and date roll-over.
- `JsDates` (js_date.dfy): a `Date` object.
  - It is a class whose one field is the time value.
  - Getters: `getFullYear`, `getMonth`, `getDate`.
  - Setters: `setDate`, `setMonth`, `setFullYear`, `setHours(0, 0, 0, 0)`.
- `DateRanges` (date_ranges.dfy): the options, the key lookup, the `subtract*` helpers, `resolveDateRange` and `formatDate`.

A record whose first present code alias is a non-empty string of spaces, such as `"   "`, is truthy, so it passes the gate at Geo.jsx:50 and becomes the empty country code `""`; the model keeps that record.

Conversions can throw. `String(v)`, `Number(v)` and `v.toString()` on an object call its `toString` method. A decoded JSON object with its own `toString` key holds plain data under that key, which cannot be called, so the conversion throws a TypeError. An array is converted by joining its elements, so it throws when one of its non-nullish elements throws. Such a value can reach the conversions at Geo.jsx:52, 55 and 72, `normalizeName` at Geo.jsx:109, and `String(value ?? "")` at ProductInsights.jsx:38. The model carries the throw through `normalizeCountryRecord`, the `map` in `extractGeoPayload`, `normalizeName`, the two country maps and the label wrap. It is `None`, or `Thrown` where `null` is also a possible result.

The model also shows what happens with an infinite sales figure. The sales gate at Geo.jsx:53 rejects only NaN and negative values, so `Infinity` is accepted as sales. `maxSales` then becomes `Infinity`, and `colorForValue` divides `Infinity / Infinity`, which is NaN. `interpolateColor` then indexes the palette with NaN and `hexToRgb` throws. `ColorForInfiniteSales` states this, with `None` standing for the thrown error.

## Model

| member | source | states |
|---|---|---|
| JsValues.CoalesceAll | src/pages/Geo.jsx:33-39 | a `??` chain is nullish exactly when every operand is; it is the first non-nullish operand, or the last operand when all are nullish |
| JsValues.IsNullish | src/pages/Geo.jsx:50 | no contract of its own: the `=== undefined \|\| === null` test, which `JsValues.CoalesceAll` and `GeoRecords.ChainFacts` relate to the `??` chains |
| JsValues.Truthy | src/pages/Geo.jsx:50 | no contract of its own: `JsValues.FalsyValues` lists the values `!x` holds for |
| JsValues.FalsyValues | src/pages/Geo.jsx:50 | a value is falsy exactly when it is `undefined`, `null`, `false`, `NaN`, `0` or `""` |
| JsValues.IsObjectLike | src/pages/Geo.jsx:32 | no contract of its own: `typeof record === "object"` for a non-null value, the first gate `GeoRecords.NormalizeRejectsExactly` states |
| JsValues.IsNegative | src/pages/Geo.jsx:53 | no contract of its own: `n < 0`, false for NaN, part of the gate `GeoRecords.NormalizeRejectsExactly` states |
| JsValues.IsNonNegative | src/pages/Geo.jsx:53 | no contract of its own: the numbers that pass `Number.isNaN(n) \|\| n < 0` unrejected, which `GeoRecords.NormalizeCountryRecord` promises of every row |
| JsValues.AsciiUpper | src/pages/Geo.jsx:55 | `toUpperCase()` on ASCII text maps each character on its own, keeping the length |
| JsValues.AsciiLower | src/pages/Geo.jsx:110 | `toLowerCase()` on ASCII text maps each character on its own, keeping the length |
| JsValues.Coalesce | src/pages/Geo.jsx:84 | no contract of its own: the binary `??`, whose chains `JsValues.CoalesceAll` states |
| JsValues.Get | src/pages/Geo.jsx:84 | no contract of its own: `v?.key`, which `JsValues.GetPathFacts` states for whole paths |
| JsValues.GetPath | src/pages/Geo.jsx:85 | no contract of its own: `payload?.meta?.currency` and the other chained lookups, which `JsValues.GetPathFacts` states |
| JsValues.GetPathFacts | src/pages/Geo.jsx:85 | a path is followed piece by piece, and past a value that is not an object every further step of `?.` is `undefined` |
| JsValues.ConversionThrows | src/pages/Geo.jsx:55 | no contract of its own: when `String`/`Number` throw, as `JsValues.ConversionFacts` and `JsValues.ConversionThrowsOfOwnToString` state |
| JsValues.Printed | src/pages/Geo.jsx:55 | no contract of its own: the text `String(v)` gives where it does not throw, which `JsValues.ToStr` and `JsValues.ConversionFacts` state |
| JsValues.Join | src/pages/Geo.jsx:55 | no contract of its own: the `join(",")` of an array's conversion, which `JsValues.JoinSnoc` states |
| JsValues.JoinSnoc | src/pages/Geo.jsx:55 | joining one more part appends the separator and that part |
| JsValues.ToStr | src/pages/Geo.jsx:55 | `String(v)` throws exactly when `v` is an object with its own `toString` key or an array with a non-nullish element that throws |
| JsValues.ToNumber | src/pages/Geo.jsx:52 | `Number(v)` throws on exactly the same values as `String(v)` |
| JsValues.ConversionFacts | src/pages/Geo.jsx:52-55 | a string prints as itself and parses with the host's parse; a number parses to itself; an object throws exactly when it has its own `toString` key and otherwise prints as `"[object Object]"`; an array throws exactly when one of its non-nullish elements does |
| JsValues.ConversionThrowsOfOwnToString | src/pages/Geo.jsx:72 | an object with its own `toString` key throws under `String` and `Number`, and so does an array holding it, even after a `null` |
| JsValues.Trim | src/pages/ProductInsights.jsx:38 | no contract of its own: `JsValues.TrimSlice` and `JsValues.TrimEmptyIffBlank` state what `trim()` gives |
| JsValues.TrimSlice | src/pages/ProductInsights.jsx:38 | `trim()` is a slice of the string with only whitespace cut away at both ends, and the result has no whitespace at either end |
| JsValues.TrimEmptyIffBlank | src/pages/ProductInsights.jsx:38-39 | the trimmed text is empty exactly when the text is empty or all whitespace |
| JsValues.TrimStartFacts | src/pages/ProductInsights.jsx:38 | `trimStart()` is the suffix after the leading whitespace, and it starts with a non-whitespace character or is empty |
| JsValues.TrimEndFacts | src/pages/ProductInsights.jsx:38 | `trimEnd()` is the prefix before the trailing whitespace, and it ends with a non-whitespace character or is empty |
| JsValues.TrimStart | src/pages/ProductInsights.jsx:38 | no contract of its own: `JsValues.TrimStartFacts` states `trimStart()` |
| JsValues.TrimEnd | src/pages/ProductInsights.jsx:38 | no contract of its own: `JsValues.TrimEndFacts` states `trimEnd()` |
| JsValues.SpaceChars | src/pages/ProductInsights.jsx:43 | no contract of its own: the WhiteSpace and LineTerminator characters `\s` and `trim()` treat as whitespace; `JsValues.TrimSlice` and `LabelWrap.SplitContent` are stated over them |
| JsValues.IsSpace | src/pages/ProductInsights.jsx:43 | no contract of its own: membership in that set, over which `JsValues.TrimSlice` and `LabelWrap.SplitContent` are stated |
| JsValues.SquashAppend | src/pages/ProductInsights.jsx:43 | removing whitespace from a concatenation is concatenating the two strings with whitespace removed |
| GeoRecords.FirstPresent | src/pages/Geo.jsx:33-48 | the index found is the first non-nullish alias value: all values before it are nullish, it is not, or it is the length when none is present |
| GeoRecords.CodePaths | src/pages/Geo.jsx:33-39 | no contract of its own: the six code aliases in priority order, read by `GeoRecords.RawCode` |
| GeoRecords.SalesPaths | src/pages/Geo.jsx:41-48 | no contract of its own: the seven sales aliases in priority order, read by `GeoRecords.RawSales` |
| GeoRecords.NamePaths | src/pages/Geo.jsx:56-61 | no contract of its own: the five name aliases in priority order, read by `GeoRecords.RawName` |
| GeoRecords.OrdersPaths | src/pages/Geo.jsx:64-70 | no contract of its own: the six orders aliases in priority order, read by `GeoRecords.RawOrders` |
| GeoRecords.Lookups | src/pages/Geo.jsx:33-70 | one value per alias path, the one optional chaining finds at that path |
| GeoRecords.CoalesceAllIsFirstPresent | src/pages/Geo.jsx:33-39 | an alias chain yields the value at the first present index, or the last alias's value when none is present |
| GeoRecords.ChainFacts | src/pages/Geo.jsx:33-50 | an alias chain is truthy exactly when its first present value is, nullish exactly when no value is present, and otherwise equal to its first present value |
| GeoRecords.RawCode | src/pages/Geo.jsx:33-39 | no contract of its own: the code alias chain, whose value `GeoRecords.CoalesceAllIsFirstPresent` and `GeoRecords.ChainFacts` state |
| GeoRecords.RawSales | src/pages/Geo.jsx:41-48 | no contract of its own: the sales alias chain, whose value `GeoRecords.CoalesceAllIsFirstPresent` and `GeoRecords.ChainFacts` state |
| GeoRecords.RawName | src/pages/Geo.jsx:56-62 | no contract of its own: the name alias chain ending in the code, whose value `GeoRecords.NormalizeNameAndOrders` and `GeoRecords.FirstPresentOfPrefix` state |
| GeoRecords.RawOrders | src/pages/Geo.jsx:64-70 | no contract of its own: the orders alias chain, whose value `GeoRecords.NormalizeNameAndOrders` states |
| GeoRecords.NormalizeCode | src/pages/Geo.jsx:55 | the code conversion throws exactly when `String(rawCode)` does |
| GeoRecords.NormalizeCountryRecord | src/pages/Geo.jsx:31-80 | the call returns or throws; a returned row has non-NaN, non-negative sales and non-negative orders |
| GeoRecords.NormalizeOutcome | src/pages/Geo.jsx:32-72 | `null` is returned exactly when the record is not an object, the code chain is falsy, the sales chain is nullish, or the parsed sales are NaN or negative; the call throws exactly when the gates at lines 32 and 50 pass and then `Number(numericValue)` throws, or the sales pass line 53 and `String(rawCode)` or `Number(ordersValue)` throws |
| GeoRecords.NormalizeRow | src/pages/Geo.jsx:55-79 | a returned row holds the converted code chain, the parsed sales chain, the orders chain's number or 0, and the name chain with the code as last alias |
| GeoRecords.NormalizeRejectsExactly | src/pages/Geo.jsx:32-53 | `null` is returned if and only if the record is not an object, the first present code alias is falsy or absent, every sales alias is nullish, or the first present sales alias converts to NaN or a negative number |
| GeoRecords.NormalizeThrowsExactly | src/pages/Geo.jsx:50-72 | the call throws if and only if the record is an object with a truthy first present code alias and a present sales alias, and either that sales alias throws under `Number`, or the sales pass the gate and the code alias or the first present orders alias (the last one when none is) throws |
| GeoRecords.NormalizeCodeAndSales | src/pages/Geo.jsx:33-55 | on success the code is the trimmed, upper-cased `String` of the first present code alias, and sales is the `Number` of the first present sales alias, which is not negative |
| GeoRecords.NormalizeNameAndOrders | src/pages/Geo.jsx:56-78 | on success `Number` of the first present orders alias (the last alias when none is present) does not throw, and orders is that number when it is finite and non-negative and 0 otherwise; the name is the first present name alias, or the normalised code when there is none |
| GeoRecords.OrdersOrZero | src/pages/Geo.jsx:78 | no contract of its own: `Number.isFinite(n) && n >= 0 ? n : 0`, which `GeoRecords.NormalizeNameAndOrders` states |
| GeoRecords.FailsSalesGate | src/pages/Geo.jsx:53 | no contract of its own: `Number.isNaN(n) \|\| n < 0`, the gate `GeoRecords.NormalizeRejectsExactly` states |
| GeoRecords.Accepted | src/pages/Geo.jsx:32-53 | no contract of its own: the three gates that keep a record, which `GeoRecords.NormalizeSomeIffAccepted` and `GeoRecords.AcceptanceIgnoresNameAndOrders` state |
| GeoRecords.NormalizeSomeIffAccepted | src/pages/Geo.jsx:32-72 | a row is returned exactly when the three gates (object, truthy code with a present sales alias, sales not NaN and not negative) all pass and neither `String(rawCode)` nor `Number(ordersValue)` throws |
| GeoRecords.AcceptanceIgnoresNameAndOrders | src/pages/Geo.jsx:56-78 | two records that agree on their shape and on their code and sales aliases are both accepted or both rejected, whatever their name and orders fields hold |
| GeoRecords.FirstPresentOfPrefix | src/pages/Geo.jsx:56-62 | appending the code as a last name alias changes the first present index only when no name alias is present |
| GeoRecords.NormalizeThrowsOnOwnToStringCode | src/pages/Geo.jsx:55 | a record whose `countryCode` is an object with its own `toString` key, and whose sales are 1, throws |
| GeoPayload.SubPositiveIsLess | src/pages/Geo.jsx:101 | for numbers other than NaN, the comparator's `b.sales - a.sales` is positive exactly when a's sales are below b's, infinities included |
| GeoPayload.SubPositiveMeansDistinct | src/pages/Geo.jsx:101 | the comparator never orders two entries whose sales are equal |
| GeoPayload.IsPositive | src/pages/Geo.jsx:101 | no contract of its own: the comparator's result being above 0, which `GeoPayload.SubPositiveIsLess` states |
| GeoPayload.NumLess | src/pages/Geo.jsx:101 | no contract of its own: `a < b` on numbers, which `GeoPayload.SubPositiveIsLess` ties to the comparator |
| GeoPayload.Ahead | src/pages/Geo.jsx:101 | no contract of its own: the comparator `b.sales - a.sales` asking for a swap, which `GeoPayload.SubPositiveIsLess` and `GeoPayload.InsertStable` state |
| GeoPayload.NumSub | src/pages/Geo.jsx:101 | no contract of its own: `b.sales - a.sales` on JavaScript numbers, whose sign `GeoPayload.SubPositiveIsLess` and `GeoPayload.SubPositiveMeansDistinct` state |
| GeoPayload.Insert | src/pages/Geo.jsx:101 | inserting an entry adds exactly that entry: the multiset grows by it and the length by one |
| GeoPayload.SortBySalesDesc | src/pages/Geo.jsx:101 | the sort is a permutation of its input |
| GeoPayload.InsertDescending | src/pages/Geo.jsx:101 | inserting into a list whose sales never increase keeps the sales never increasing |
| GeoPayload.SortDescending | src/pages/Geo.jsx:101 | over sales other than NaN, the sorted sales never increase |
| GeoPayload.Descending | src/pages/Geo.jsx:101 | no contract of its own: the order `b.sales - a.sales` sorts into, which `GeoPayload.SortDescending` and `GeoPayload.InsertDescending` state |
| GeoPayload.InsertStable | src/pages/Geo.jsx:101 | inserting keeps the order of the entries with any given sales figure, with the inserted entry first among its equals |
| GeoPayload.SortStable | src/pages/Geo.jsx:101 | for every sales figure, the entries with that figure appear in the same relative order before and after the sort |
| GeoPayload.SortKeepsMembers | src/pages/Geo.jsx:101 | the sort keeps exactly the same entries, so non-negative sales stay non-negative |
| GeoPayload.NormalizeRows | src/pages/Geo.jsx:98-99 | the `map` throws exactly when some row's normalisation throws; otherwise the mapped list has one normalisation per row, in order |
| GeoPayload.SomeRowThrows | src/pages/Geo.jsx:98-99 | no contract of its own: some row's normalisation throws, which `GeoPayload.NormalizeRows` and `GeoPayload.ExtractGeoPayload` tie to the throw |
| GeoPayload.DropNulls | src/pages/Geo.jsx:100 | the filter never lengthens the list |
| GeoPayload.DropNullsMembers | src/pages/Geo.jsx:100 | an entry survives the filter exactly when it was a non-null element |
| GeoPayload.Rows | src/pages/Geo.jsx:88-96 | no contract of its own: the row list that `GeoPayload.ExtractGeoPayload`'s ensures are stated over; `GeoPayload.ExtractFromEmptyObject` shows the case with no row array |
| GeoPayload.Kept | src/pages/Geo.jsx:98-100 | no contract of its own: `GeoPayload.KeptMembers` states which entries survive the map and the filter |
| GeoPayload.KeptMembers | src/pages/Geo.jsx:98-100 | when no row throws, the kept entries are exactly the rows' normalisations that return a row, and all have non-negative sales |
| GeoPayload.ExtractGeoPayload | src/pages/Geo.jsx:82-104 | the call throws exactly when some row's normalisation does; otherwise `updatedAt` is `payload.updatedAt`, else null; `currency` is `payload.currency`, else `meta.currency`, else null; the entries number at most the rows and are exactly the rows' normalisations that return a row; they are a permutation of them, sorted by sales with no increase, stable among equal sales, and non-negative |
| GeoPayload.ExtractFromEmptyObject | src/pages/Geo.jsx:83-96 | an object without a row array returns no entries and null metadata |
| GeoPayload.ExtractThrowsOnOwnToStringSales | src/pages/Geo.jsx:98-99 | a payload of one row whose sales are an object with its own `toString` key throws |
| NameKeys.RemoveCombiningMarks | src/pages/Geo.jsx:112 | no character of U+0300 to U+036F remains, and a string without them is unchanged |
| NameKeys.IsCombiningMark | src/pages/Geo.jsx:112 | no contract of its own: the class `[\u0300-\u036f]`, which `NameKeys.RemoveCombiningMarks` states |
| NameKeys.KeepLettersAndSpaces | src/pages/Geo.jsx:113 | only a-z and whitespace remain, and a string of only those is unchanged |
| NameKeys.IsKeyChar | src/pages/Geo.jsx:113 | no contract of its own: a-z or a space, the characters `NameKeys.KeyOf` says a key holds |
| NameKeys.CollapseSpaces | src/pages/Geo.jsx:114 | the result is empty exactly when the input is, and starts with a space exactly when the input starts with whitespace |
| NameKeys.CollapseShape | src/pages/Geo.jsx:113-114 | after collapsing, a string of letters and whitespace holds only letters and single spaces |
| NameKeys.CollapseOfKey | src/pages/Geo.jsx:114 | collapsing changes nothing in a string of letters and single spaces |
| NameKeys.KeyShapeOfSlice | src/pages/Geo.jsx:115 | cutting a piece out of a string of letters and single spaces leaves a string of letters and single spaces |
| NameKeys.TrimKeepsSingleSpaced | src/pages/Geo.jsx:114-115 | trimming a string of letters and single spaces gives a key: no space at either end |
| NameKeys.KeyOf | src/pages/Geo.jsx:112-115 | the filtering chain always yields a key: only a-z and single spaces, with no space at either end |
| NameKeys.KeyOfKey | src/pages/Geo.jsx:112-115 | the filtering chain leaves a key unchanged |
| NameKeys.IsNameKey | src/pages/Geo.jsx:112-115 | no contract of its own: the shape of every key, which `NameKeys.KeyOf` and `NameKeys.NormalizeName` state |
| NameKeys.NormalizeName | src/pages/Geo.jsx:106-116 | the call throws exactly when the value is truthy and `toString()` throws; otherwise the result is a key, and it is "" for a falsy input |
| NameKeys.NormalizeKey | src/pages/Geo.jsx:106-116 | a key, passed as a string, normalises to itself without throwing on any host that maps ASCII as JavaScript does |
| NameKeys.NormalizeNameIdempotent | src/pages/Geo.jsx:106-116 | normalising an already normalised name gives the same key |
| Choropleth.ReplaceFirst | src/pages/Geo.jsx:119 | `replace("#", "")` removes one character when there is a `#` and nothing otherwise |
| Choropleth.SplitBytes | src/pages/Geo.jsx:121 | each of the three shifted-and-masked channels is a byte |
| Choropleth.HexToRgb | src/pages/Geo.jsx:118-122 | `hexToRgb` of any string gives three channels in 0..255 |
| Choropleth.PadStart2 | src/pages/Geo.jsx:125 | `padStart(2, "0")` leaves two or more characters unchanged and otherwise pads to exactly two, keeping the digits at the end |
| Choropleth.HexChar | src/pages/Geo.jsx:125 | no contract of its own: the digit `toString(16)` writes, which `Choropleth.HexCharDigit` states |
| Choropleth.HexCharDigit | src/pages/Geo.jsx:125 | the digit written for a value below 16 reads back as that value |
| Choropleth.HexDigits | src/pages/Geo.jsx:125 | no contract of its own: the digits of `n.toString(16)`, which `Choropleth.HexDigitsValue` states |
| Choropleth.HexDigitsValue | src/pages/Geo.jsx:125 | `n.toString(16)` is at least one lower-case hexadecimal digit, and the digits denote `n` |
| Choropleth.ToHexString | src/pages/Geo.jsx:125 | no contract of its own: `value.toString(16)`, which `Choropleth.ToHexStringReadsBack` and `Choropleth.ByteToHexDigits` state |
| Choropleth.ToHexStringReadsBack | src/pages/Geo.jsx:120-125 | `parseInt(n.toString(16), 16)` gives `n` back for every non-negative integer |
| Choropleth.ByteToHexDigits | src/pages/Geo.jsx:125 | a channel in 0..255 is written as exactly two lower-case digits, high nibble first |
| Choropleth.ByteToHex | src/pages/Geo.jsx:125 | no contract of its own: `Choropleth.ByteToHexDigits` states the two digits `toHex` writes |
| Choropleth.RgbToHexDigits | src/pages/Geo.jsx:124-127 | `rgbToHex` of byte channels is `#` followed by the six digits of the three channels |
| Choropleth.RgbToHexShape | src/pages/Geo.jsx:124-127 | `rgbToHex` of byte channels is always `#` plus six hexadecimal digits |
| Choropleth.HexSixValue | src/pages/Geo.jsx:124-127 | the six digits read as one hexadecimal number give `r * 65536 + g * 256 + b` |
| Choropleth.RgbToHex | src/pages/Geo.jsx:124-127 | no contract of its own: `Choropleth.RgbToHexDigits`, `Choropleth.RgbToHexShape` and `Choropleth.HexRoundTrip` state what it writes |
| Choropleth.ParseIntHexOfDigits | src/pages/Geo.jsx:120 | `parseInt(s, 16)` of a non-empty run of hexadecimal digits reads all of them |
| Choropleth.ParseIntHex | src/pages/Geo.jsx:120 | no contract of its own: `Choropleth.ParseIntHexOfDigits` states what `parseInt(s, 16)` reads |
| Choropleth.IsHexDigit | src/pages/Geo.jsx:120 | no contract of its own: the digits `parseInt(s, 16)` reads, over which `Choropleth.ParseIntHexOfDigits` is stated |
| Choropleth.DigitValue | src/pages/Geo.jsx:120 | a hexadecimal digit is worth less than 16 |
| Choropleth.HexRun | src/pages/Geo.jsx:120 | the digit run `parseInt` reads is a prefix made of hexadecimal digits |
| Choropleth.HexRunStops | src/pages/Geo.jsx:120 | the run stops only at the end or at a character that is not a digit |
| Choropleth.HexValue | src/pages/Geo.jsx:120 | no contract of its own: the value of the digits read, which `Choropleth.ParseIntHexOfDigits` and `Choropleth.HexDigitsValue` state |
| Choropleth.BytesOf | src/pages/Geo.jsx:121 | shifting and masking a 24-bit number built from three bytes gives back those bytes |
| Choropleth.HexToRgbOfDigits | src/pages/Geo.jsx:118-122 | `hexToRgb` of `#` plus six digits splits their value into its three bytes |
| Choropleth.HexRoundTrip | src/pages/Geo.jsx:118-127 | `hexToRgb(rgbToHex(c)) == c` for every colour with channels in 0..255 |
| Choropleth.StopIsRgbToHex | src/pages/Geo.jsx:7 | every palette entry is what `rgbToHex` writes for its channels |
| Choropleth.StopChannels | src/pages/Geo.jsx:141-142 | `hexToRgb` reads every palette entry as its byte channels |
| Choropleth.ColorStops | src/pages/Geo.jsx:7 | no contract of its own: `COLOR_STOPS`, whose entries `Choropleth.StopIsRgbToHex` and `Choropleth.StopChannels` state |
| Choropleth.Clamp01 | src/pages/Geo.jsx:130 | the clamped ratio lies in [0, 1], and it is missing exactly when the ratio is NaN |
| Choropleth.Scaled | src/pages/Geo.jsx:131-132 | the scaled position lies between 0 and the last palette index |
| Choropleth.Ceil | src/pages/Geo.jsx:134 | `Math.ceil(x)` is the integer in [x, x + 1) |
| Choropleth.Min | src/pages/Geo.jsx:134 | `Math.min(a, b)` is one of the two and at most both |
| Choropleth.ScaledBetween | src/pages/Geo.jsx:144 | a fraction `t` in [0, 1] of a channel difference lies between 0 and that difference |
| Choropleth.RoundBetween | src/pages/Geo.jsx:144 | `Math.round` of a value between two integers stays between them |
| Choropleth.MixChannelBetween | src/pages/Geo.jsx:143-145 | a mixed channel lies between the two channels it mixes |
| Choropleth.MixRgbBetween | src/pages/Geo.jsx:143-145 | every channel of the mixed colour lies between those of the two neighbouring colours |
| Choropleth.Round | src/pages/Geo.jsx:144 | no contract of its own: `Choropleth.RoundBetween` states its bounds |
| Choropleth.MixChannel | src/pages/Geo.jsx:143-145 | no contract of its own: `Choropleth.MixChannelBetween` states its bounds |
| Choropleth.MixRgb | src/pages/Geo.jsx:143-145 | no contract of its own: `Choropleth.MixRgbBetween` states its bounds |
| Choropleth.BetweenBytes | src/pages/Geo.jsx:143-146 | a colour whose channels lie between those of two byte colours has byte channels |
| Choropleth.ColorAt | src/pages/Geo.jsx:133-146 | the colour at a position is a palette entry or `#` plus six hexadecimal digits |
| Choropleth.InterpolateColor | src/pages/Geo.jsx:129-147 | the result is missing (the thrown error) exactly when the ratio is NaN; otherwise it is a palette entry or a six-digit hex colour |
| Choropleth.Position | src/pages/Geo.jsx:130-132 | the palette position of any ratio other than NaN lies between 0 and the last index |
| Choropleth.InterpolateIsColorAt | src/pages/Geo.jsx:129-147 | for a ratio other than NaN the colour is the colour at the ratio's palette position |
| Choropleth.InterpolateClampLow | src/pages/Geo.jsx:130-138 | a ratio at or below 0 gives the first palette entry |
| Choropleth.InterpolateClampHigh | src/pages/Geo.jsx:130-138 | a ratio at or above 1 gives the last palette entry |
| Choropleth.ColorAtGridHit | src/pages/Geo.jsx:133-138 | a position exactly on a palette index gives that entry unchanged |
| Choropleth.InterpolateGridHit | src/pages/Geo.jsx:129-138 | a ratio whose position is exactly a palette index gives that entry unchanged |
| Choropleth.ColorAtBetweenStops | src/pages/Geo.jsx:140-146 | off the grid the colour is `rgbToHex` of the channel-wise mix of the two neighbouring entries, and each channel lies between theirs |
| Choropleth.PositionMonotone | src/pages/Geo.jsx:130-132 | a larger ratio never maps to an earlier palette position |
| Choropleth.ColorForValue | src/pages/Geo.jsx:245 | a missing or falsy value, or `maxSales === 0`, gives the zero-sales fill; the call throws exactly when the value is truthy, the maximum is not 0 and `value / maxSales` is NaN; any colour returned is the fill, a palette entry or a hex colour |
| Choropleth.ZeroSalesFill | src/pages/Geo.jsx:6 | no contract of its own: `ZERO_SALES_FILL`, which `Choropleth.ColorForValue` returns for zero sales |
| Choropleth.NumDiv | src/pages/Geo.jsx:245 | no contract of its own: `Choropleth.NumDivFacts` states `value / maxSales` |
| Choropleth.NumDivFacts | src/pages/Geo.jsx:245 | division is exact between finite numbers with a non-zero divisor, a finite number over an infinity is 0, and the quotient is NaN exactly when an operand is NaN, both are 0, or both are infinite |
| Choropleth.ColorForMaximum | src/pages/Geo.jsx:245 | a positive value equal to the maximum gets the darkest palette entry |
| Choropleth.ColorForFiniteSales | src/pages/Geo.jsx:245 | finite sales up to a positive finite maximum always get a colour |
| Choropleth.ColorForInfiniteSales | src/pages/Geo.jsx:245 | an infinite value with an infinite maximum throws |
| CountryIndex.LastHoldingIsLast | src/pages/Geo.jsx:198-202 | the position found holds the key and no later position does |
| CountryIndex.IndexOf | src/pages/Geo.jsx:196-204 | no contract of its own: the row-by-row fold whose content `CountryIndex.IndexLastWriter` states |
| CountryIndex.LastWriterIsLast | src/pages/Geo.jsx:198-202 | the last writer of a key is stored under that key, and no later row is |
| CountryIndex.SetRowEffect | src/pages/Geo.jsx:199-201 | one row's two `map.set` calls set exactly its code and non-empty name key to its value and leave every other key alone |
| CountryIndex.KeysOf | src/pages/Geo.jsx:199-201 | no contract of its own: the upper-cased code and the non-empty normalised name a row is stored under, as `CountryIndex.SetRowEffect` and `CountryIndex.LastWriterIsLast` state |
| CountryIndex.SetRow | src/pages/Geo.jsx:199-201 | no contract of its own: one `forEach` body, whose effect `CountryIndex.SetRowEffect` states |
| CountryIndex.LastWriterStep | src/pages/Geo.jsx:198-202 | the last writer is the last row when that row has the key, and otherwise the last writer among the earlier rows |
| CountryIndex.IndexLastWriter | src/pages/Geo.jsx:196-204 | a key is in the map exactly when some row is stored under it, and then it holds the value of the last such row |
| CountryIndex.LaterRowOverwrites | src/pages/Geo.jsx:198-202 | a row appended at the end sets its keys to its value, whatever came before |
| CountryIndex.BuildIndex | src/pages/Geo.jsx:197-203 | the `forEach` loop throws exactly when some row's name throws in `normalizeName`, and otherwise builds exactly the map of the row-by-row fold |
| CountryIndex.NameThrows | src/pages/Geo.jsx:200 | no contract of its own: `normalizeName(countryName)` throws for a row, as `NameKeys.NormalizeName` states |
| CountryIndex.SomeNameThrows | src/pages/Geo.jsx:197-203 | no contract of its own: some row's name throws, which `CountryIndex.BuildIndex` ties to the throw |
| CountryIndex.NoNameThrowsIff | src/pages/Geo.jsx:197-203 | the rows handled one by one all have names that convert exactly when no row's name throws |
| CountryIndex.SalesByCountry | src/pages/Geo.jsx:196-204 | `salesByCountry` throws exactly when some row's name throws, and is otherwise the fold that stores each row's sales under its keys |
| CountryIndex.OrdersByCountry | src/pages/Geo.jsx:206-214 | `ordersByCountry` throws exactly when some row's name throws, and is otherwise the fold that stores each row's orders under its keys |
| CountryIndex.MaxSalesOfEmpty | src/pages/Geo.jsx:216-224 | for no rows, `maxSales` and `totalSales` are 0 |
| CountryIndex.MaxSales | src/pages/Geo.jsx:216-219 | no contract of its own: `CountryIndex.MaxSalesBounds`, `CountryIndex.MaxSalesZeroIffAllZero` and `CountryIndex.MaxSalesOfEmpty` state its value |
| CountryIndex.TotalSales | src/pages/Geo.jsx:221-224 | no contract of its own: `CountryIndex.TotalAtLeastMax` and `CountryIndex.MaxSalesOfEmpty` bound it |
| CountryIndex.NumMax | src/pages/Geo.jsx:217 | no contract of its own: `CountryIndex.NumMaxFacts` states `Math.max` |
| CountryIndex.NumMaxFacts | src/pages/Geo.jsx:217 | `Math.max(a, b)` is NaN exactly when an operand is; otherwise it is one of the two and at least both |
| CountryIndex.NumAdd | src/pages/Geo.jsx:222 | no contract of its own: `CountryIndex.NumAddFacts` states `+` |
| CountryIndex.NumAddFacts | src/pages/Geo.jsx:222 | `a + b` is exact on finite numbers and commutative, and it is NaN exactly when an operand is NaN or the operands are opposite infinities |
| CountryIndex.MaxSalesBounds | src/pages/Geo.jsx:216-219 | over non-negative sales, `maxSales` is non-negative, at least every row's sales, and either 0 or some row's sales |
| CountryIndex.MaxSalesZeroIffAllZero | src/pages/Geo.jsx:216-219 | over non-negative sales, `maxSales === 0` exactly when every row's sales are 0 |
| CountryIndex.TotalAtLeastMax | src/pages/Geo.jsx:216-224 | over non-negative sales, `totalSales` is non-negative and at least `maxSales` |
| LabelWrap.ConcatAppend | src/pages/ProductInsights.jsx:64 | joining two lists of pieces is joining each and concatenating |
| LabelWrap.Concat | src/pages/ProductInsights.jsx:64 | no contract of its own: the text of a list of pieces, which `LabelWrap.ConcatAppend` and `LabelWrap.SplitContent` state |
| LabelWrap.SplitWords | src/pages/ProductInsights.jsx:43 | `split(/\s+/)` always gives at least one piece |
| LabelWrap.SquashTrimStart | src/pages/ProductInsights.jsx:43 | removing leading whitespace loses no text that is not whitespace |
| LabelWrap.SplitContent | src/pages/ProductInsights.jsx:43 | no word holds whitespace, and the words joined are the text with its whitespace removed |
| LabelWrap.SplitTrimmedWords | src/pages/ProductInsights.jsx:43 | a non-empty trimmed text splits into non-empty words only |
| LabelWrap.ChunksShape | src/pages/ProductInsights.jsx:61-62 | the regex chunks join to the word; all but the last have exactly `maxCharsPerLine` characters, the last has 1 to `maxCharsPerLine`, and an overlong word has at least two |
| LabelWrap.Chunks | src/pages/ProductInsights.jsx:61-62 | no contract of its own: `LabelWrap.ChunksShape` states what the regex match gives |
| LabelWrap.GreedyStep | src/pages/ProductInsights.jsx:48-52 | the current line is extended by the word exactly when the extended line fits, and only then is no line emitted |
| LabelWrap.FittingWordIsWhole | src/pages/ProductInsights.jsx:58-59 | a word that fits on a line is never split: it is appended to the current line or becomes the new current line |
| LabelWrap.OverlongWordIsChunked | src/pages/ProductInsights.jsx:60-67 | an overlong word is emitted after the pushed current line as pieces of exactly `maxCharsPerLine` characters; the rest, 1 to `maxCharsPerLine` characters, becomes the current line, and together they are the word |
| LabelWrap.PushedContent | src/pages/ProductInsights.jsx:54-56 | pushing the current line keeps the text held |
| LabelWrap.Pushed | src/pages/ProductInsights.jsx:54-56 | no contract of its own: `LabelWrap.PushedContent` states the text kept |
| LabelWrap.StepWellFormed | src/pages/ProductInsights.jsx:47-67 | one iteration keeps every emitted line at 1 to `maxCharsPerLine` characters and the current line at most that, and a non-empty word leaves a non-empty current line |
| LabelWrap.TentativeContent | src/pages/ProductInsights.jsx:48 | the tentative line holds the current line's text followed by the word |
| LabelWrap.Tentative | src/pages/ProductInsights.jsx:48 | no contract of its own: `LabelWrap.TentativeContent` states the text of the tentative line |
| LabelWrap.PiecesContent | src/pages/ProductInsights.jsx:64-66 | emitting all chunks but the last and keeping the last adds exactly the word's text |
| LabelWrap.OverlongStep | src/pages/ProductInsights.jsx:58-67 | for an overlong word the iteration pushes the current line and all chunks but the last, and keeps the last chunk |
| LabelWrap.StepContent | src/pages/ProductInsights.jsx:47-67 | one iteration adds exactly the word to the text held in the lines and the current line |
| LabelWrap.Step | src/pages/ProductInsights.jsx:47-67 | no contract of its own: `LabelWrap.GreedyStep`, `LabelWrap.StepWellFormed` and `LabelWrap.StepContent` state one iteration |
| LabelWrap.Run | src/pages/ProductInsights.jsx:47-68 | no contract of its own: `LabelWrap.RunFacts` states what the fold keeps |
| LabelWrap.RunSnoc | src/pages/ProductInsights.jsx:47-68 | the fold over one more word is one more iteration of the loop body |
| LabelWrap.RunFacts | src/pages/ProductInsights.jsx:47-68 | over words without whitespace, every line stays 1 to `maxCharsPerLine` long, the text held is the words joined, and a non-empty last word leaves a non-empty current line |
| LabelWrap.WrapOfBlank | src/pages/ProductInsights.jsx:38-41 | a label whose text converts and is empty or all whitespace gives exactly `[""]` |
| LabelWrap.WrappedLinesFacts | src/pages/ProductInsights.jsx:43-74 | a non-empty trimmed text gives at least one line, every line has 1 to `maxCharsPerLine` characters, and the lines joined, without whitespace, are the text without whitespace |
| LabelWrap.WrappedLines | src/pages/ProductInsights.jsx:43-74 | no contract of its own: `LabelWrap.WrappedLinesFacts` and `LabelWrap.WrapTextFacts` state its lines |
| LabelWrap.Finish | src/pages/ProductInsights.jsx:70-72 | no contract of its own: the final push, whose lines `LabelWrap.WrappedLinesFacts` states |
| LabelWrap.WrapTextFacts | src/pages/ProductInsights.jsx:38-74 | for any text, the wrap of the trimmed text is `[""]` exactly when the text is blank, has at least one line of at most `maxCharsPerLine` characters each, and holds the text once whitespace is removed |
| LabelWrap.LabelText | src/pages/ProductInsights.jsx:38 | `String(value ?? "")` throws exactly when the value's conversion does |
| LabelWrap.WrapLabel | src/pages/ProductInsights.jsx:37-75 | the wrap throws exactly when the label's conversion does; `LabelWrap.WrapLabelFacts` states its lines |
| LabelWrap.WrapLabelFacts | src/pages/ProductInsights.jsx:37-75 | the wrap throws exactly when `String(value ?? "")` does; otherwise the result is `[""]` exactly when the label text is blank, and else it has at least one line, each of at most `maxCharsPerLine` characters, holding the text in order once whitespace is removed |
| LabelWrap.WrapWords | src/pages/ProductInsights.jsx:47-68 | the `forEach` loop ends with exactly the lines and current line of the fold |
| LabelWrap.WrapLabelIntoLines | src/pages/ProductInsights.jsx:37-75 | the method computes exactly the wrap the facts above are proved of, throwing where it throws |
| LabelWrap.SliceEnd | src/pages/ProductInsights.jsx:80 | `slice(0, end)` never goes past the list's length |
| LabelWrap.TruncatedShape | src/pages/ProductInsights.jsx:80-84 | with `maxLines >= 1`, `min(len, maxLines)` lines are kept and all but the last are unchanged; the last gains `"..."` exactly when lines were dropped and is unchanged otherwise |
| LabelWrap.Truncated | src/pages/ProductInsights.jsx:80-84 | no contract of its own: `LabelWrap.TruncatedShape` states the lines kept |
| LabelWrap.TruncateLines | src/pages/ProductInsights.jsx:80-84 | overwriting the last kept line in place gives the truncation above |
| LabelWrap.TickLines | src/pages/ProductInsights.jsx:77-84 | the tick throws exactly when `payload?.value`'s conversion does; otherwise the lines shown are the truncated wrap of `payload?.value ?? ""` |
| Calendar.TimeWithinDay | src/utils/dateRanges.js:35 | the time within the day lies in [0, one day) |
| Calendar.MsPerDay | src/utils/dateRanges.js:35 | no contract of its own: ECMA-262's msPerDay, 86400000, the unit of `Calendar.DayAndTime` |
| Calendar.Day | src/utils/dateRanges.js:35 | no contract of its own: ECMA-262's `Day(t)`, which `Calendar.DayAndTime` states |
| Calendar.DayAndTime | src/utils/dateRanges.js:35 | a time value is its day's start plus its time within the day |
| Calendar.DayFromYearNext | src/utils/dateRanges.js:13-17 | consecutive years start `DaysInYear` days apart |
| Calendar.DayFromYearCycle | src/utils/dateRanges.js:13-17 | 400 years are always 146097 days |
| Calendar.DayFromYearMonotone | src/utils/dateRanges.js:13-17 | later years start at least 365 days per year later |
| Calendar.InLeapYear | src/utils/dateRanges.js:15 | no contract of its own: the Gregorian leap rule, which fixes `Calendar.DaysInYear` |
| Calendar.DaysInYear | src/utils/dateRanges.js:15 | no contract of its own: 365 or 366 days, the step `Calendar.DayFromYearNext` states |
| Calendar.DayFromYear | src/utils/dateRanges.js:15 | no contract of its own: ECMA-262's `DayFromYear`, which `Calendar.DayFromYearNext`, `Calendar.DayFromYearCycle` and `Calendar.DayFromYearMonotone` state |
| Calendar.YearInCycle | src/utils/dateRanges.js:15 | the year found within one 400-year cycle holds the day |
| Calendar.YearOfDay | src/utils/dateRanges.js:15 | the year found holds the day |
| Calendar.YearOfDayUnique | src/utils/dateRanges.js:15 | only one year holds a given day |
| Calendar.CumDaysStep | src/utils/dateRanges.js:7-11 | every month has 28 to 31 days, and the months fill the year |
| Calendar.CumDays | src/utils/dateRanges.js:9 | no contract of its own: the days before each month, which `Calendar.CumDaysStep` states |
| Calendar.MonthInYear | src/utils/dateRanges.js:9 | the month found holds the day of the year |
| Calendar.MonthStart | src/utils/dateRanges.js:9 | no contract of its own: the first day of a month, from which `Calendar.MakeDayOfCivil` and `Calendar.CivilOfMakeDay` count |
| Calendar.DaysInMonth | src/utils/dateRanges.js:3 | every month has 28 to 31 days |
| Calendar.MonthOfDay | src/utils/dateRanges.js:9 | the month found is in 0..11 and holds the day |
| Calendar.DateOfDay | src/utils/dateRanges.js:3 | the date found is 1 to the length of its month |
| Calendar.MakeDayOfCivil | src/utils/dateRanges.js:1-17 | `MakeDay` of a day's own year, month and date gives the day back |
| Calendar.CivilOfMakeDay | src/utils/dateRanges.js:1-17 | a valid year, month and date is exactly what `MakeDay` turns it into |
| Calendar.MakeDay | src/utils/dateRanges.js:1-17 | no contract of its own: `Calendar.MakeDayOfCivil`, `Calendar.CivilOfMakeDay` and `Calendar.MakeDayDateShift` state its value |
| Calendar.NextMonthLater | src/utils/dateRanges.js:7-11 | the next month, with its roll-over into years, starts at least 28 days later |
| Calendar.FirstsBackEarlier | src/utils/dateRanges.js:7-11 | the first of the month `k` months back is at least `28 * k` days earlier |
| Calendar.MonthsBackEarlier | src/utils/dateRanges.js:7-11 | `k` months back with the same date, rolled over as `MakeDay` does, is at least `28 * k` days earlier |
| Calendar.YearsAreTwelveMonths | src/utils/dateRanges.js:13-17 | `k` years back is `12 * k` months back |
| Calendar.MakeDayDateShift | src/utils/dateRanges.js:1-5 | dates count on from the month's first day without bound, so `k` more means `k` days later |
| JsDates.MonthFromTime | src/utils/dateRanges.js:9 | `getMonth()` is in 0..11 |
| JsDates.YearFromTime | src/utils/dateRanges.js:15 | no contract of its own: ECMA-262's `YearFromTime`, which `Calendar.YearOfDay` and `JsDates.JsDate.GetFullYear` state |
| JsDates.MakeDate | src/utils/dateRanges.js:3 | no contract of its own: ECMA-262's `MakeDate`, which `Calendar.DayAndTime` inverts |
| JsDates.DateFromTime | src/utils/dateRanges.js:3 | `getDate()` is 1 to 31 |
| JsDates.AtMidnightFacts | src/utils/dateRanges.js:35 | `setHours(0, 0, 0, 0)` gives the start of the same day: a whole number of days, at most the time, less than a day before it, and idempotent |
| JsDates.WholeDaysBack | src/utils/dateRanges.js:43 | a midnight is its own midnight and stays a midnight when whole days are taken away |
| JsDates.SetDateMovesBack | src/utils/dateRanges.js:3 | `setDate(getDate() - k)` moves only the date back by `k` |
| JsDates.SetMonthMovesBack | src/utils/dateRanges.js:9 | `setMonth(getMonth() - k)` moves only the month back by `k` |
| JsDates.SetFullYearMovesBack | src/utils/dateRanges.js:15 | `setFullYear(getFullYear() - k)` moves only the year back by `k` |
| JsDates.MovedBack | src/utils/dateRanges.js:1-17 | no contract of its own: the three setters' shared recombination, which `JsDates.SetDateMovesBack`, `JsDates.SetMonthMovesBack` and `JsDates.SetFullYearMovesBack` state |
| JsDates.DaysBackExact | src/utils/dateRanges.js:1-5 | moving the date back `k` moves the time exactly `k` days back, across month and year boundaries |
| JsDates.WithDateInMonth | src/utils/dateRanges.js:3 | `setDate` with a date inside the month sets exactly that date and keeps year, month and time of day |
| JsDates.DaysToMs | src/utils/dateRanges.js:7-17 | whole days keep their order when counted in milliseconds |
| JsDates.MonthsBackBound | src/utils/dateRanges.js:7-11 | moving the month back `k >= 0` lands at least 28 days per month earlier |
| JsDates.YearsAreMonthsBack | src/utils/dateRanges.js:13-17 | moving the year back `k` is moving the month back `12 * k` |
| JsDates.WithDate | src/utils/dateRanges.js:3 | no contract of its own: `JsDates.SetDateMovesBack`, `JsDates.WithDateInMonth` and `JsDates.DaysBackExact` state the new time value |
| JsDates.WithMonth | src/utils/dateRanges.js:9 | no contract of its own: `JsDates.SetMonthMovesBack` and `JsDates.MonthsBackBound` state the new time value |
| JsDates.WithFullYear | src/utils/dateRanges.js:15 | no contract of its own: `JsDates.SetFullYearMovesBack` and `JsDates.YearsAreMonthsBack` state the new time value |
| JsDates.AtMidnight | src/utils/dateRanges.js:35 | no contract of its own: `JsDates.AtMidnightFacts` and `JsDates.WholeDaysBack` state the new time value |
| JsDates.JsDate.constructor | src/utils/dateRanges.js:2 | `new Date(t)` holds time value `t` |
| JsDates.JsDate.GetFullYear | src/utils/dateRanges.js:15 | `getFullYear()` is the year whose days include the date's day |
| JsDates.JsDate.GetMonth | src/utils/dateRanges.js:9 | `getMonth()` is in 0..11 |
| JsDates.JsDate.GetDate | src/utils/dateRanges.js:3 | `getDate()` is 1 to 31 |
| JsDates.JsDate.SetDate | src/utils/dateRanges.js:3 | the new time value is `MakeDay` of the old year and month with the given date, at the old time of day |
| JsDates.JsDate.SetMonth | src/utils/dateRanges.js:9 | the new time value is `MakeDay` of the old year and date with the given month, at the old time of day |
| JsDates.JsDate.SetFullYear | src/utils/dateRanges.js:15 | the new time value is `MakeDay` of the old month and date in the given year, at the old time of day |
| JsDates.JsDate.SetHoursToMidnight | src/utils/dateRanges.js:35 | the new time value is the start of the old one's day |
| DateRanges.NatToStringValue | src/utils/dateRanges.js:21-22 | `String(n)` is digits that denote `n`: one digit below 10 and two from 10 to 99 |
| DateRanges.IntToStringValue | src/utils/dateRanges.js:20 | printing an integer, sign included, and reading it back gives the integer |
| DateRanges.NatToString | src/utils/dateRanges.js:21-22 | no contract of its own: `DateRanges.NatToStringValue` states the digits `String(n)` writes |
| DateRanges.DigitChar | src/utils/dateRanges.js:21-22 | no contract of its own: a decimal digit of `String(n)`, which `DateRanges.NatToStringValue` states |
| DateRanges.IntToString | src/utils/dateRanges.js:20 | no contract of its own: `DateRanges.IntToStringValue` states that the printed integer reads back as itself |
| DateRanges.Repeat | src/utils/dateRanges.js:21-22 | the padding is exactly `n` copies of the fill character |
| DateRanges.PadStartShape | src/utils/dateRanges.js:21-22 | `padStart` keeps the string as its tail, fills only the front, and reaches the target length when the string is shorter |
| DateRanges.PadStart | src/utils/dateRanges.js:21-22 | no contract of its own: `DateRanges.PadStartShape` and `DateRanges.TwoDigits` state what `padStart` gives |
| DateRanges.TwoDigits | src/utils/dateRanges.js:21-22 | `String(n).padStart(2, "0")` for 0 to 99 is exactly two digits denoting `n` |
| DateRanges.FormatPartsReadBack | src/utils/dateRanges.js:23 | the formatted string reads back as its year, month and day, the last two zero-padded to two digits |
| DateRanges.FormatParts | src/utils/dateRanges.js:23 | no contract of its own: `DateRanges.FormatPartsReadBack` states what the template literal writes |
| DateRanges.FormatTimeParts | src/utils/dateRanges.js:19-24 | `formatDate` reads back as the date's year, month 1 to 12 and day of the month |
| DateRanges.ReadsAsUnique | src/utils/dateRanges.js:19-24 | a formatted string fixes the year, month and day it reads as |
| DateRanges.FormatTimeSameDay | src/utils/dateRanges.js:19-24 | two times format alike exactly when they fall on the same day |
| DateRanges.FormatTime | src/utils/dateRanges.js:19-24 | no contract of its own: `DateRanges.FormatTimeParts` and `DateRanges.FormatTimeSameDay` state what it writes |
| DateRanges.FormatDate | src/utils/dateRanges.js:19-24 | no contract of its own: `formatDate` of a date is `FormatTime` of its time value, whose properties `DateRanges.FormatTimeParts` states |
| DateRanges.RangeKeysDistinct | src/utils/dateRanges.js:26-31 | no two options share a key |
| DateRanges.RangeOptions | src/utils/dateRanges.js:26-31 | no contract of its own: `DateRanges.RangeKeysDistinct` and `DateRanges.OptionsReachBack` state the four options |
| DateRanges.Find | src/utils/dateRanges.js:38-39 | `find` succeeds exactly when some option has the key, and then returns an option with that key |
| DateRanges.ResolveOptionChain | src/utils/dateRanges.js:33-40 | the range key's option wins when it exists; otherwise the fallback key's option (by default "7d"); otherwise the first option |
| DateRanges.ResolveOption | src/utils/dateRanges.js:37-40 | no contract of its own: `DateRanges.ResolveOptionChain` and `DateRanges.ResolveUnknownKey` state which option wins |
| DateRanges.FallbackKey | src/utils/dateRanges.js:33 | no contract of its own: `DateRanges.ResolveOptionChain` and `DateRanges.ResolveUnknownKey` state the default "7d" |
| DateRanges.ResolveUnknownKey | src/utils/dateRanges.js:33-40 | an unknown key with no fallback argument resolves to "7d" |
| DateRanges.OptionsReachBack | src/utils/dateRanges.js:26-31 | every option reaches back at least one day |
| DateRanges.DaysStartExact | src/utils/dateRanges.js:1-5 | a span of `n` days starts exactly `n - 1` days before the end |
| DateRanges.MonthsStartEarlier | src/utils/dateRanges.js:7-11 | a span of `n` months starts at least `28 * n` days before the end |
| DateRanges.YearsStartEarlier | src/utils/dateRanges.js:13-17 | a span of `n` years starts where `12 * n` months does, at least `336 * n` days before the end |
| DateRanges.StartOf | src/utils/dateRanges.js:27-30 | no contract of its own: `DateRanges.DaysStartExact`, `DateRanges.MonthsStartEarlier`, `DateRanges.YearsStartEarlier` and `DateRanges.StartBeforeEnd` state where `getStart` lands |
| DateRanges.YearsBack | src/utils/dateRanges.js:30 | no contract of its own: the years `subtractYears` takes away, which `DateRanges.YearsStartEarlier` states |
| DateRanges.MonthsBack | src/utils/dateRanges.js:28-29 | no contract of its own: the months `subtractMonths` takes away, which `DateRanges.MonthsStartEarlier` states |
| DateRanges.DaysBack | src/utils/dateRanges.js:27 | no contract of its own: the `days - 1` `subtractDaysInclusive` takes away, which `DateRanges.DaysStartExact` states |
| DateRanges.StartBeforeEnd | src/utils/dateRanges.js:42-43 | from a midnight end, every option's start midnight is a whole number of days earlier and strictly before the end; a span of days starts exactly `days - 1` days earlier |
| DateRanges.SubtractDaysInclusive | src/utils/dateRanges.js:1-5 | a new date, `days - 1` days before the end date, which is left unchanged |
| DateRanges.SubtractMonths | src/utils/dateRanges.js:7-11 | a new date with the month moved back, the end date left unchanged |
| DateRanges.SubtractYears | src/utils/dateRanges.js:13-17 | a new date with the year moved back, the end date left unchanged |
| DateRanges.GetStart | src/utils/dateRanges.js:27-30 | each option's `getStart` gives a new date at its span's start |
| DateRanges.ResolveDateRange | src/utils/dateRanges.js:33-49 | two distinct new dates: the end is today's midnight, the start is the midnight of the resolved option's start, both whole days, start strictly before end, and for "7d" exactly 6 days before |

## Left out

- HTTP and React are not modelled. That covers the API modules, `Geo()`'s effect with its stale-response flag, the map geometry and viewport, the chart configuration, and the other pages and components. This is I/O, concurrency and rendering.
- The render-time uses of the maps are not modelled: the lookups by region name or code, `topCountries`, and the `Intl.NumberFormat` formatters. They are rendering and locale formatting.
- Floating point is not modelled: finite numbers are exact reals. `value / maxSales`, the interpolation `t` and `value + (other - value) * t` are therefore exact. `Math.pow(x, 0.55)` is the `warp` parameter, with only monotonicity and fixed ends assumed. Negative zero is not modelled.
- `Number(string)`, number printing, `toLowerCase`, `toUpperCase` and `normalize("NFD")` are host parameters, and their exact behaviour is not modelled. Number printing is `Host.numberToString` for every number, integers included, so `String(840)` of a numeric code alias (Geo.jsx:55) or of a numeric chart label (ProductInsights.jsx:38) is unconstrained; only `Choropleth.ToHexString` and `DateRanges.IntToString` print integers exactly. `NormalizeKey` and `NormalizeNameIdempotent` assume a host that maps ASCII as JavaScript does and leaves ASCII unchanged under NFD.
- Choropleth.ParseIntHexOfDigits: `parseInt` is exact on integers of any size. Doubles lose precision past 2^53, but every colour here has six digits.
- Strings are sequences of characters, not UTF-16 code units. Lengths of text outside the Basic Multilingual Plane therefore differ from JavaScript's `length`.
- LabelWrap.WrapLabelIntoLines: requires `maxCharsPerLine >= 1`, because the renderer passes 12. For 0 the pattern `.{1,0}` throws a SyntaxError. For a negative count the braces become literal text, so an overlong word is kept whole. Neither case is modelled.
- LabelWrap.TruncatedShape: stated for `maxLines >= 1`, the only values the renderer is built with. For smaller values `lines[maxLines - 1]` is not an element, and the model leaves the kept lines unchanged.
- CountryIndex.OrdersByCountry: `orders ?? 0` is modelled as `orders`. A normalised row always has a number there. The fallback sample rows (`fallbackGeoKpi.entries`, Geo.jsx:16-27, set as the country list at Geo.jsx:169 and 183) have no `orders` field, so `orders ?? 0` is 0 for them. The model represents such a row as a `CountrySales` with orders 0.
- Dates do not model `TimeClip`, NaN dates or the year limits of ±275760. Local time is taken to be UTC, so timezones and DST are not modelled.
- The wall clock `new Date()` is the `now` parameter of `ResolveDateRange`.
- DateRanges.MonthsStartEarlier: states a lower bound of 28 days per month, not the exact calendar distance, which depends on the months crossed and on roll-over past short months.
- DateRanges.YearsStartEarlier: the same bound at 336 days per year, not the exact distance.
- DateRanges.PadStartShape: `padStart` is modelled only for a one-character fill, the only kind the source uses.
