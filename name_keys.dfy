/**
 * `normalizeName` in src/pages/Geo.jsx: the lookup key made from a country
 * name, so that a map region's name and a feed row's name meet in one map.
 * The key holds only the letters a-z and single spaces, with no space at
 * either end.
 */
module NameKeys {
  import opened Wrappers
  import opened JsValues

  predicate IsKeyChar(c: char) {
    'a' <= c <= 'z' || c == ' '
  }

  /** Only letters a-z and spaces, and never two spaces in a row. */
  predicate SingleSpaced(s: string) {
    && (forall i :: 0 <= i < |s| ==> IsKeyChar(s[i]))
    && (forall i :: 0 <= i < |s| - 1 ==> !(s[i] == ' ' && s[i + 1] == ' '))
  }

  /** The shape of every key `normalizeName` produces. */
  predicate IsNameKey(s: string) {
    SingleSpaced(s) && IsTrimmed(s)
  }

  /** Characters of the Combining Diacritical Marks block, U+0300 to U+036F. */
  predicate IsCombiningMark(c: char) {
    '\U{300}' <= c <= '\U{36F}'
  }

  /** `s.replace(/[\u0300-\u036f]/g, "")` */
  function RemoveCombiningMarks(s: string): (r: string)
    ensures forall i :: 0 <= i < |r| ==> !IsCombiningMark(r[i])
    ensures (forall i :: 0 <= i < |s| ==> !IsCombiningMark(s[i])) ==> r == s
    decreases |s|
  {
    if s == [] then ""
    else (if IsCombiningMark(s[0]) then "" else [s[0]]) + RemoveCombiningMarks(s[1..])
  }

  /** `s.replace(/[^a-z\s]/g, "")` */
  function KeepLettersAndSpaces(s: string): (r: string)
    ensures forall i :: 0 <= i < |r| ==> 'a' <= r[i] <= 'z' || IsSpace(r[i])
    ensures (forall i :: 0 <= i < |s| ==> 'a' <= s[i] <= 'z' || IsSpace(s[i])) ==> r == s
    decreases |s|
  {
    if s == [] then ""
    else (if 'a' <= s[0] <= 'z' || IsSpace(s[0]) then [s[0]] else "") + KeepLettersAndSpaces(s[1..])
  }

  /** `s.replace(/\s+/g, " ")`: every maximal run of whitespace becomes one space. */
  function CollapseSpaces(s: string): (r: string)
    ensures (r != [] && r[0] == ' ') <==> (s != [] && IsSpace(s[0]))
    ensures r == [] <==> s == []
    decreases |s|
  {
    if s == [] then ""
    else if IsSpace(s[0]) then " " + CollapseSpaces(TrimStart(s[1..]))
    else [s[0]] + CollapseSpaces(s[1..])
  }

  /** After collapsing, letters and whitespace become letters and single spaces. */
  lemma {:induction false} CollapseShape(s: string)
    requires forall i :: 0 <= i < |s| ==> 'a' <= s[i] <= 'z' || IsSpace(s[i])
    ensures SingleSpaced(CollapseSpaces(s))
    decreases |s|
  {
    if s != [] {
      if IsSpace(s[0]) {
        var t := TrimStart(s[1..]);
        TrimStartFacts(s[1..]);
        assert t == s[1..][|s[1..]| - |t|..];
        assert forall i :: 0 <= i < |t| ==> t[i] == s[|s| - |t| + i];
        CollapseShape(t);
        var tail := CollapseSpaces(t);
        var r := " " + tail;
        assert CollapseSpaces(s) == r;
        assert tail != [] ==> tail[0] != ' ';
        assert forall i :: 1 <= i < |r| ==> r[i] == tail[i - 1];
      } else {
        CollapseShape(s[1..]);
        var tail := CollapseSpaces(s[1..]);
        var r := [s[0]] + tail;
        assert CollapseSpaces(s) == r;
        assert forall i :: 1 <= i < |r| ==> r[i] == tail[i - 1];
        assert r[0] != ' ';
      }
    }
  }

  /** Among key characters only the space is whitespace. */
  lemma KeyCharSpace(c: char)
    requires IsKeyChar(c)
    ensures IsSpace(c) <==> c == ' '
  {
  }

  /** Collapsing changes nothing in a string of letters and single spaces. */
  lemma {:induction false} CollapseOfKey(s: string)
    requires SingleSpaced(s)
    ensures CollapseSpaces(s) == s
    decreases |s|
  {
    if s != [] {
      var t := s[1..];
      assert forall i :: 0 <= i < |t| ==> t[i] == s[i + 1];
      KeyCharSpace(s[0]);
      CollapseOfKey(t);
      if s[0] == ' ' {
        if t != [] {
          KeyCharSpace(t[0]);
        }
        assert TrimStart(t) == t;
        assert s == " " + t;
      } else {
        assert s == [s[0]] + t;
      }
    }
  }

  /** A substring of a string over letters and single spaces is one too. */
  lemma KeyShapeOfSlice(s: string, i: int, j: int)
    requires 0 <= i <= j <= |s|
    requires SingleSpaced(s)
    ensures SingleSpaced(s[i..j])
  {
    var t := s[i..j];
    assert forall k :: 0 <= k < |t| ==> t[k] == s[i + k];
  }

  /**
   * The filtering steps after `.normalize("NFD")` (lines 112-115): drop the
   * combining marks, keep letters and whitespace, collapse runs, trim.
   */
  function KeyOf(s: string): (r: string)
    ensures IsNameKey(r)
  {
    var letters := KeepLettersAndSpaces(RemoveCombiningMarks(s));
    var collapsed := CollapseSpaces(letters);
    CollapseShape(letters);
    TrimKeepsSingleSpaced(collapsed);
    Trim(collapsed)
  }

  /**
   * `normalizeName(value)`; None stands for the TypeError `value.toString()`
   * throws on an object with its own `toString` key.
   */
  function NormalizeName(value: Value, h: Host): (r: Option<string>)
    ensures r.None? <==> Truthy(value) && ConversionThrows(value)
    ensures r.Some? ==> IsNameKey(r.value)
    ensures !Truthy(value) ==> r == Some("")
  {
    if !Truthy(value) then Some("")
    else
      var s := ToStr(value, h);
      if s.None? then None else Some(KeyOf(h.normalizeNfd(h.toLowerCase(s.value))))
  }

  lemma TrimKeepsSingleSpaced(s: string)
    requires SingleSpaced(s)
    ensures IsNameKey(Trim(s))
  {
    var i, j := TrimSlice(s);
    KeyShapeOfSlice(s, i, j);
  }

  /** The filtering steps leave a key unchanged. */
  lemma KeyOfKey(s: string)
    requires IsNameKey(s)
    ensures KeyOf(s) == s
  {
    assert RemoveCombiningMarks(s) == s;
    forall i | 0 <= i < |s|
      ensures 'a' <= s[i] <= 'z' || IsSpace(s[i])
    {
      KeyCharSpace(s[i]);
    }
    assert KeepLettersAndSpaces(s) == s;
    CollapseOfKey(s);
    TrimOfTrimmed(s);
  }

  /** A key is its own normalisation. */
  lemma NormalizeKey(s: string, h: Host)
    requires AsciiFaithful(h)
    requires IsNameKey(s)
    ensures NormalizeName(Str(s), h) == Some(s)
  {
    if s != "" {
      assert IsAscii(s);
      assert AsciiLower(s) == s;
      assert h.normalizeNfd(h.toLowerCase(ToStr(Str(s), h).value)) == s;
      KeyOfKey(s);
    }
  }

  /** Normalising a key again gives the same key. */
  lemma NormalizeNameIdempotent(value: Value, h: Host)
    requires AsciiFaithful(h)
    requires NormalizeName(value, h).Some?
    ensures NormalizeName(Str(NormalizeName(value, h).value), h) == NormalizeName(value, h)
  {
    NormalizeKey(NormalizeName(value, h).value, h);
  }
}
