/**
 * The slice of JavaScript's value semantics that the dashboard's helpers rely on:
 * the values a decoded JSON payload can hold (plus `undefined`, which property
 * access produces), truthiness, nullish coalescing (`??`), optional-chaining
 * property access, `String(...)`, `Number(...)`, and whitespace trimming.
 *
 * Built-ins whose exact behaviour is not modelled (the string-to-number parse,
 * number printing, Unicode case mapping and NFD normalisation) are the fields of
 * a `Host` value that callers pass in.
 */
module JsValues {
  import opened Wrappers

  /** A JavaScript number. Finite doubles are taken as exact reals. */
  datatype Num = NaN | PosInf | NegInf | Finite(r: real)

  /** A JavaScript value of the shapes a JSON payload decodes to, plus `undefined`. */
  datatype Value =
    | Undefined
    | Null
    | Bool(b: bool)
    | Number(n: Num)
    | Str(s: string)
    | Object(fields: map<string, Value>)
    | Array(items: seq<Value>)

  /** The host's built-ins that this model leaves abstract. */
  datatype Host = Host(
    stringToNumber: string -> Num,   // Number(s) for a string s
    numberToString: Num -> string,   // String(n) for a number n
    toLowerCase: string -> string,   // String.prototype.toLowerCase
    toUpperCase: string -> string,   // String.prototype.toUpperCase
    normalizeNfd: string -> string)  // String.prototype.normalize("NFD")

  const Zero: Num := Finite(0.0)

  /** `v === null || v === undefined` */
  predicate IsNullish(v: Value) {
    v.Undefined? || v.Null?
  }

  /** JavaScript truthiness: `false`, `0`, `-0`, `NaN`, `""`, `null` and `undefined` are falsy. */
  predicate Truthy(v: Value) {
    match v
    case Undefined => false
    case Null => false
    case Bool(b) => b
    case Number(n) => !(n.NaN? || n == Zero)
    case Str(s) => s != ""
    case Object(_) => true
    case Array(_) => true
  }

  /** The falsy values are exactly `undefined`, `null`, `false`, `NaN`, `0` and `""` (there is no `-0` here). */
  lemma FalsyValues(v: Value)
    ensures !Truthy(v) <==> v in {Undefined, Null, Bool(false), Number(NaN), Number(Zero), Str("")}
  {
  }

  /** `typeof v === "object"` for a non-null v (arrays are objects too). */
  predicate IsObjectLike(v: Value) {
    v.Object? || v.Array?
  }

  /** `a ?? b` */
  function Coalesce(a: Value, b: Value): Value {
    if IsNullish(a) then b else a
  }

  /** `v?.key`: a missing property, or any property of a primitive, is `undefined`. */
  function Get(v: Value, key: string): Value {
    if v.Object? && key in v.fields then v.fields[key] else Undefined
  }

  /** `v?.k0?.k1 ...` along a path of property names. */
  function GetPath(v: Value, path: seq<string>): Value
    decreases |path|
  {
    if path == [] then v else GetPath(Get(v, path[0]), path[1..])
  }

  /**
   * A path is followed one piece after another, and optional chaining stops at
   * anything that is not an object: every further step gives `undefined`.
   */
  lemma {:induction false} GetPathFacts(v: Value, p: seq<string>, q: seq<string>)
    ensures GetPath(v, p + q) == GetPath(GetPath(v, p), q)
    ensures !v.Object? && p != [] ==> GetPath(v, p) == Undefined
    decreases |p|
  {
    if p == [] {
      assert p + q == q;
    } else {
      assert (p + q)[0] == p[0] && (p + q)[1..] == p[1..] + q;
      GetPathFacts(Get(v, p[0]), p[1..], q);
    }
  }

  /** `vs[0] ?? vs[1] ?? ... ?? vs[n-1]`: the first non-nullish value, else the last one. */
  function CoalesceAll(vs: seq<Value>): (r: Value)
    requires |vs| >= 1
    ensures IsNullish(r) <==> forall i :: 0 <= i < |vs| ==> IsNullish(vs[i])
    ensures forall k :: 0 <= k < |vs| && !IsNullish(vs[k]) && (forall i :: 0 <= i < k ==> IsNullish(vs[i])) ==> r == vs[k]
    ensures (forall i :: 0 <= i < |vs| ==> IsNullish(vs[i])) ==> r == vs[|vs| - 1]
    decreases |vs|
  {
    if |vs| == 1 then vs[0]
    else
      var rest := CoalesceAll(vs[1..]);
      assert forall i :: 1 <= i < |vs| ==> vs[i] == vs[1..][i - 1];
      Coalesce(vs[0], rest)
  }

  /** `parts.join(sep)` */
  function Join(parts: seq<string>, sep: string): string
    decreases |parts|
  {
    if parts == [] then ""
    else if |parts| == 1 then parts[0]
    else parts[0] + sep + Join(parts[1..], sep)
  }

  /** Joining one more part adds the separator and that part at the end. */
  lemma {:induction false} JoinSnoc(parts: seq<string>, x: string, sep: string)
    requires parts != []
    ensures Join(parts + [x], sep) == Join(parts, sep) + sep + x
    decreases |parts|
  {
    if |parts| == 1 {
      assert (parts + [x])[1..] == [x];
    } else {
      assert (parts + [x])[1..] == parts[1..] + [x];
      JoinSnoc(parts[1..], x, sep);
    }
  }

  /**
   * Whether `String(v)` or `Number(v)` throws a TypeError. An object converts
   * through OrdinaryToPrimitive, which calls the first callable of `toString` and
   * `valueOf`. A decoded object inherits both from `Object.prototype` unless it has
   * its own `toString` key, whose value is never callable; the inherited `valueOf`
   * returns the object itself, so the conversion throws. An array prints by joining
   * its elements, so it throws when one of its elements does.
   */
  predicate ConversionThrows(v: Value)
    decreases v
  {
    match v
    case Object(fields) => "toString" in fields
    case Array(items) => exists i :: 0 <= i < |items| && !IsNullish(items[i]) && ConversionThrows(items[i])
    case _ => false
  }

  /**
   * The text `String(v)` gives when it does not throw. An array prints as its
   * elements joined by ",", nullish elements as "".
   */
  function Printed(v: Value, h: Host): string
    decreases v
  {
    match v
    case Undefined => "undefined"
    case Null => "null"
    case Bool(b) => if b then "true" else "false"
    case Number(n) => h.numberToString(n)
    case Str(s) => s
    case Object(_) => "[object Object]"
    case Array(items) =>
      Join(seq(|items|, i requires 0 <= i < |items| =>
                 if IsNullish(items[i]) then "" else Printed(items[i], h)), ",")
  }

  /** `String(v)`; None stands for the TypeError it throws. */
  function ToStr(v: Value, h: Host): (r: Option<string>)
    ensures r.None? <==> ConversionThrows(v)
  {
    if ConversionThrows(v) then None else Some(Printed(v, h))
  }

  /**
   * `Number(v)`; None stands for the TypeError it throws. An object or array is
   * first turned into its string form.
   */
  function ToNumber(v: Value, h: Host): (r: Option<Num>)
    ensures r.None? <==> ConversionThrows(v)
  {
    match v
    case Undefined => Some(NaN)
    case Null => Some(Zero)
    case Bool(b) => Some(if b then Finite(1.0) else Zero)
    case Number(n) => Some(n)
    case Str(s) => Some(h.stringToNumber(s))
    case _ => if ConversionThrows(v) then None else Some(h.stringToNumber(Printed(v, h)))
  }

  /**
   * What the conversions give: a string is itself, a number prints and parses as
   * the host does, an object throws exactly when it has its own `toString` key
   * and otherwise prints as "[object Object]", and an array throws exactly when
   * one of its non-nullish elements does.
   */
  lemma ConversionFacts(v: Value, h: Host)
    ensures v.Str? ==> ToStr(v, h) == Some(v.s) && ToNumber(v, h) == Some(h.stringToNumber(v.s))
    ensures v.Number? ==> ToStr(v, h) == Some(h.numberToString(v.n)) && ToNumber(v, h) == Some(v.n)
    ensures v.Object? ==> (ToStr(v, h).None? <==> "toString" in v.fields)
    ensures v.Object? && "toString" !in v.fields ==>
              ToStr(v, h) == Some("[object Object]") && ToNumber(v, h) == Some(h.stringToNumber("[object Object]"))
    ensures v.Array? ==> (ToStr(v, h).None? <==>
              exists i :: 0 <= i < |v.items| && !IsNullish(v.items[i]) && ToStr(v.items[i], h).None?)
  {
  }

  /** An object with its own `toString` key makes both conversions throw, wherever it sits in an array. */
  lemma ConversionThrowsOfOwnToString(fields: map<string, Value>, h: Host)
    requires "toString" in fields
    ensures ToStr(Object(fields), h).None? && ToNumber(Object(fields), h).None?
    ensures ToStr(Array([Object(fields)]), h).None? && ToNumber(Array([Null, Object(fields)]), h).None?
  {
    assert !IsNullish(Array([Null, Object(fields)]).items[1]);
  }

  /** Every character of `s` is in the ASCII range. */
  predicate IsAscii(s: string) {
    forall i :: 0 <= i < |s| ==> s[i] < '\U{80}'
  }

  function AsciiLowerChar(c: char): char {
    if 'A' <= c <= 'Z' then (c as int + 32) as char else c
  }

  function AsciiUpperChar(c: char): char {
    if 'a' <= c <= 'z' then (c as int - 32) as char else c
  }

  /** Case mapping restricted to ASCII letters. */
  function AsciiLower(s: string): (r: string)
    ensures |r| == |s| && forall i :: 0 <= i < |s| ==> r[i] == AsciiLowerChar(s[i])
  {
    seq(|s|, i requires 0 <= i < |s| => AsciiLowerChar(s[i]))
  }

  function AsciiUpper(s: string): (r: string)
    ensures |r| == |s| && forall i :: 0 <= i < |s| ==> r[i] == AsciiUpperChar(s[i])
  {
    seq(|s|, i requires 0 <= i < |s| => AsciiUpperChar(s[i]))
  }

  /**
   * What every JavaScript host does on ASCII text: toLowerCase and toUpperCase
   * map only the 26 letters, and NFD normalisation changes nothing.
   */
  ghost predicate AsciiFaithful(h: Host) {
    forall s :: IsAscii(s) ==>
      && h.toLowerCase(s) == AsciiLower(s)
      && h.toUpperCase(s) == AsciiUpper(s)
      && h.normalizeNfd(s) == s
  }

  /** `n < 0` (false for NaN). */
  predicate IsNegative(n: Num) {
    n.NegInf? || (n.Finite? && n.r < 0.0)
  }

  /** The numbers that pass `!Number.isNaN(n) && !(n < 0)`. */
  predicate IsNonNegative(n: Num) {
    n.PosInf? || (n.Finite? && n.r >= 0.0)
  }

  /** The characters `\s` matches and `trim()` strips: WhiteSpace and LineTerminator. */
  const SpaceChars: set<char> := {
    '\t', '\n', '\U{B}', '\U{C}', '\r', ' ', '\U{A0}', '\U{1680}',
    '\U{2000}', '\U{2001}', '\U{2002}', '\U{2003}', '\U{2004}', '\U{2005}',
    '\U{2006}', '\U{2007}', '\U{2008}', '\U{2009}', '\U{200A}',
    '\U{2028}', '\U{2029}', '\U{202F}', '\U{205F}', '\U{3000}', '\U{FEFF}'
  }

  predicate IsSpace(c: char) {
    (c <= ' ' || '\U{A0}' <= c) && c in SpaceChars
  }

  predicate AllSpace(s: string) {
    forall i :: 0 <= i < |s| ==> IsSpace(s[i])
  }

  predicate NoSpace(s: string) {
    forall i :: 0 <= i < |s| ==> !IsSpace(s[i])
  }

  /** Neither end of `s` is whitespace. */
  predicate IsTrimmed(s: string) {
    s == [] || (!IsSpace(s[0]) && !IsSpace(s[|s| - 1]))
  }

  /** `s` with every whitespace character removed. */
  function Squash(s: string): (r: string)
    ensures NoSpace(r)
    ensures |r| <= |s|
    decreases |s|
  {
    if s == [] then ""
    else (if IsSpace(s[0]) then "" else [s[0]]) + Squash(s[1..])
  }

  lemma {:induction false} SquashAppend(a: string, b: string)
    ensures Squash(a + b) == Squash(a) + Squash(b)
    decreases |a|
  {
    if a == [] {
      assert a + b == b;
    } else {
      assert (a + b)[0] == a[0];
      assert (a + b)[1..] == a[1..] + b;
      SquashAppend(a[1..], b);
    }
  }

  lemma {:induction false} SquashOfSpaces(s: string)
    requires AllSpace(s)
    ensures Squash(s) == ""
    decreases |s|
  {
    if s != [] {
      SquashOfSpaces(s[1..]);
    }
  }

  lemma {:induction false} SquashOfNoSpace(s: string)
    requires NoSpace(s)
    ensures Squash(s) == s
    decreases |s|
  {
    if s != [] {
      SquashOfNoSpace(s[1..]);
    }
  }

  /** `s.trimStart()` */
  function TrimStart(s: string): (r: string)
    ensures |r| <= |s|
    decreases |s|
  {
    if s != [] && IsSpace(s[0]) then TrimStart(s[1..]) else s
  }

  /** `s.trimEnd()` */
  function TrimEnd(s: string): string
    decreases |s|
  {
    if s != [] && IsSpace(s[|s| - 1]) then TrimEnd(s[..|s| - 1]) else s
  }

  /** `s.trim()` */
  function Trim(s: string): string {
    TrimEnd(TrimStart(s))
  }

  /** `s.trimStart()` is the suffix of `s` after its leading whitespace. */
  lemma {:induction false} TrimStartFacts(s: string)
    ensures var r := TrimStart(s);
      && r == s[|s| - |r|..]
      && AllSpace(s[..|s| - |r|])
      && (r == [] || !IsSpace(r[0]))
    decreases |s|
  {
    if s != [] && IsSpace(s[0]) {
      TrimStartFacts(s[1..]);
      var k := |s| - |TrimStart(s)|;
      assert forall i :: 1 <= i < k ==> s[..k][i] == s[1..][..k - 1][i - 1];
    }
  }

  /** Leading whitespace never reaches a last character that is not whitespace. */
  lemma {:induction false} TrimStartKeepsLast(s: string)
    requires s != [] && !IsSpace(s[|s| - 1])
    ensures TrimStart(s) != [] && TrimStart(s)[|TrimStart(s)| - 1] == s[|s| - 1]
    decreases |s|
  {
    if IsSpace(s[0]) {
      assert |s| >= 2;
      TrimStartKeepsLast(s[1..]);
    }
  }

  /** `s.trimStart()` of whitespace only is empty. */
  lemma {:induction false} TrimStartOfBlank(s: string)
    requires AllSpace(s)
    ensures TrimStart(s) == []
    decreases |s|
  {
    if s != [] {
      TrimStartOfBlank(s[1..]);
    }
  }

  /** `s.trimEnd()` is the prefix of `s` before its trailing whitespace. */
  lemma {:induction false} TrimEndFacts(s: string)
    ensures var r := TrimEnd(s);
      && |r| <= |s|
      && r == s[..|r|]
      && AllSpace(s[|r|..])
      && (r == [] || !IsSpace(r[|r| - 1]))
    decreases |s|
  {
    if s != [] && IsSpace(s[|s| - 1]) {
      TrimEndFacts(s[..|s| - 1]);
      var k := |TrimEnd(s)|;
      assert forall i :: k <= i < |s| - 1 ==> s[i] == s[..|s| - 1][i];
    }
  }

  /** `s.trim()` is `s` without its leading and trailing whitespace. */
  lemma TrimSlice(s: string) returns (i: nat, j: nat)
    ensures i <= j <= |s| && Trim(s) == s[i..j]
    ensures AllSpace(s[..i]) && AllSpace(s[j..])
    ensures IsTrimmed(Trim(s))
  {
    var a := TrimStart(s);
    var r := TrimEnd(a);
    TrimStartFacts(s);
    TrimEndFacts(a);
    i := |s| - |a|;
    j := i + |r|;
    assert r != [] ==> r[0] == a[0];
    assert s[j..] == a[|r|..];
  }

  /** `s.trim()` is empty exactly when `s` is empty or all whitespace. */
  lemma TrimEmptyIffBlank(s: string)
    ensures Trim(s) == "" <==> AllSpace(s)
  {
    if AllSpace(s) {
      TrimStartOfBlank(s);
    }
    var i, j := TrimSlice(s);
    if Trim(s) == "" {
      forall k | 0 <= k < |s| ensures IsSpace(s[k]) {
        if k < i {
          assert s[..i][k] == s[k];
        } else {
          assert s[j..][k - j] == s[k];
        }
      }
    }
  }

  /** Squashing ignores whitespace around a string. */
  lemma SquashSurrounded(pre: string, r: string, post: string)
    requires AllSpace(pre) && AllSpace(post)
    ensures Squash(pre + r + post) == Squash(r)
  {
    SquashOfSpaces(pre);
    SquashOfSpaces(post);
    SquashAppend(pre, r);
    SquashAppend(pre + r, post);
  }

  /** Trimming removes whitespace only. */
  lemma TrimSquash(s: string)
    ensures Squash(Trim(s)) == Squash(s)
  {
    var i, j := TrimSlice(s);
    assert s == s[..i] + s[i..j] + s[j..];
    SquashSurrounded(s[..i], s[i..j], s[j..]);
  }

  /** Trimming a string that is already trimmed changes nothing. */
  lemma TrimOfTrimmed(s: string)
    requires IsTrimmed(s)
    ensures Trim(s) == s
  {
  }
}
