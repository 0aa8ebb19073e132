/**
 * Choropleth colouring in src/pages/Geo.jsx: `hexToRgb`, `rgbToHex`,
 * `interpolateColor` over the six-stop green palette, and `colorForValue`,
 * which adds the zero-sales fill on top.
 *
 * `Math.pow(x, 0.55)` is the parameter `warp`; all that is assumed of it is
 * what `IsColorWarp` says: it is monotone on [0, 1] and fixes 0 and 1.
 */
module Choropleth {
  import opened Wrappers
  import opened JsValues

  const ZeroSalesFill: string := "#d2dfd7"
  const ColorStops: seq<string> := ["#d7f2df", "#aee4c5", "#7acc9d", "#49a374", "#2f7b51", "#18553a"]

  /** The channels of each palette entry, written as numbers. */
  const StopColors: seq<Rgb> := [
    Rgb(0xd7, 0xf2, 0xdf), Rgb(0xae, 0xe4, 0xc5), Rgb(0x7a, 0xcc, 0x9d),
    Rgb(0x49, 0xa3, 0x74), Rgb(0x2f, 0x7b, 0x51), Rgb(0x18, 0x55, 0x3a)]

  /** A colour as the three-element array `[r, g, b]` the source passes around. */
  datatype Rgb = Rgb(r: int, g: int, b: int)

  predicate IsByte(v: int) {
    0 <= v <= 255
  }

  predicate IsByteRgb(c: Rgb) {
    IsByte(c.r) && IsByte(c.g) && IsByte(c.b)
  }

  // ---------------------------------------------------------------------------
  // Hexadecimal digits

  predicate IsHexDigit(c: char) {
    '0' <= c <= '9' || 'a' <= c <= 'f' || 'A' <= c <= 'F'
  }

  predicate IsLowerHexDigit(c: char) {
    '0' <= c <= '9' || 'a' <= c <= 'f'
  }

  function DigitValue(c: char): (d: nat)
    requires IsHexDigit(c)
    ensures d < 16
  {
    if '0' <= c <= '9' then c as int - '0' as int
    else if 'a' <= c <= 'f' then c as int - 'a' as int + 10
    else c as int - 'A' as int + 10
  }

  /** The lower-case digit `Number.prototype.toString(16)` writes for `d`. */
  function HexChar(d: nat): char
    requires d < 16
  {
    if d < 10 then ('0' as int + d) as char else ('a' as int + d - 10) as char
  }

  lemma HexCharDigit(d: nat)
    requires d < 16
    ensures IsLowerHexDigit(HexChar(d)) && IsHexDigit(HexChar(d))
    ensures DigitValue(HexChar(d)) == d
  {
  }

  /** The number of leading hexadecimal digits of `s`. */
  function HexRun(s: string): (n: nat)
    ensures n <= |s|
    ensures forall i :: 0 <= i < n ==> IsHexDigit(s[i])
    decreases |s|
  {
    if s == [] || !IsHexDigit(s[0]) then 0 else 1 + HexRun(s[1..])
  }

  /** The run stops at the first character that is not a digit. */
  lemma {:induction false} HexRunStops(s: string)
    ensures HexRun(s) < |s| ==> !IsHexDigit(s[HexRun(s)])
    decreases |s|
  {
    if s != [] && IsHexDigit(s[0]) {
      HexRunStops(s[1..]);
    }
  }

  /** A string of digits is read to its end. */
  lemma {:induction false} HexRunOfDigits(s: string)
    requires forall i :: 0 <= i < |s| ==> IsHexDigit(s[i])
    ensures HexRun(s) == |s|
    decreases |s|
  {
    if s != [] {
      HexRunOfDigits(s[1..]);
    }
  }

  /** The value of a string of hexadecimal digits, most significant first. */
  function HexValue(s: string): nat
    requires forall i :: 0 <= i < |s| ==> IsHexDigit(s[i])
    decreases |s|
  {
    if s == [] then 0 else HexValue(s[..|s| - 1]) * 16 + DigitValue(s[|s| - 1])
  }

  // ---------------------------------------------------------------------------
  // hexToRgb

  /** `s.replace(c, "")` with a one-character pattern: the first occurrence only. */
  function ReplaceFirst(s: string, c: char): (r: string)
    ensures c !in s ==> r == s
    ensures c in s ==> |r| == |s| - 1
    decreases |s|
  {
    if s == [] then ""
    else if s[0] == c then s[1..]
    else [s[0]] + ReplaceFirst(s[1..], c)
  }

  /**
   * `parseInt(s, 16)`: skip leading whitespace, read an optional sign and an
   * optional `0x`/`0X`, then the longest run of hexadecimal digits; None is NaN.
   */
  function ParseIntHex(s: string): Option<int> {
    var t := TrimStart(s);
    var negative := t != [] && t[0] == '-';
    var unsigned := if t != [] && (t[0] == '-' || t[0] == '+') then t[1..] else t;
    var digits := if |unsigned| >= 2 && unsigned[0] == '0' && (unsigned[1] == 'x' || unsigned[1] == 'X')
                  then unsigned[2..] else unsigned;
    var n := HexRun(digits);
    if n == 0 then None
    else
      var v: int := HexValue(digits[..n]);
      Some(if negative then -v else v)
  }

  /**
   * `[(bigint >> 16) & 255, (bigint >> 8) & 255, bigint & 255]`. The shifts and
   * masks work on ToInt32 of the number (NaN becomes 0), so each channel is one
   * byte of its 32-bit pattern.
   */
  function SplitBytes(bigint: Option<int>): (c: Rgb)
    ensures IsByteRgb(c)
  {
    var bits := if bigint.None? then 0 else bigint.value % 0x1_0000_0000;
    Rgb((bits / 0x1_0000) % 256, (bits / 256) % 256, bits % 256)
  }

  /** `hexToRgb(hex)` */
  function HexToRgb(hex: string): (c: Rgb)
    ensures IsByteRgb(c)
  {
    SplitBytes(ParseIntHex(ReplaceFirst(hex, '#')))
  }

  // ---------------------------------------------------------------------------
  // rgbToHex

  /** The digits of `n.toString(16)` for a non-negative integer. */
  function HexDigits(n: nat): string
    decreases n
  {
    if n < 16 then [HexChar(n)] else HexDigits(n / 16) + [HexChar(n % 16)]
  }

  /** `n.toString(16)` for an integer `n`. */
  function ToHexString(n: int): string {
    if n < 0 then "-" + HexDigits(-n) else HexDigits(n)
  }

  /** The digits `toString(16)` writes are lower-case hexadecimal digits that denote `n`. */
  lemma {:induction false} HexDigitsValue(n: nat)
    ensures |HexDigits(n)| >= 1
    ensures forall i :: 0 <= i < |HexDigits(n)| ==> IsLowerHexDigit(HexDigits(n)[i])
    ensures forall i :: 0 <= i < |HexDigits(n)| ==> IsHexDigit(HexDigits(n)[i])
    ensures HexValue(HexDigits(n)) == n
    decreases n
  {
    HexCharDigit(n % 16);
    var s := HexDigits(n);
    if n < 16 {
      assert s[..0] == [];
    } else {
      HexDigitsValue(n / 16);
      assert s[..|s| - 1] == HexDigits(n / 16);
    }
  }

  /** `parseInt(n.toString(16), 16)` gives `n` back for every non-negative integer. */
  lemma ToHexStringReadsBack(n: nat)
    ensures ParseIntHex(ToHexString(n)) == Some(n)
  {
    HexDigitsValue(n);
    ParseIntHexOfDigits(HexDigits(n));
  }

  /** `s.padStart(2, "0")` */
  function PadStart2(s: string): (r: string)
    ensures |s| >= 2 ==> r == s
    ensures |s| < 2 ==> |r| == 2 && r[2 - |s|..] == s
  {
    if |s| >= 2 then s else if |s| == 1 then "0" + s else "00"
  }

  /** `toHex(value)` inside `rgbToHex`. */
  function ByteToHex(v: int): string {
    PadStart2(ToHexString(v))
  }

  /** `rgbToHex([r, g, b])` */
  function RgbToHex(c: Rgb): string {
    "#" + ByteToHex(c.r) + ByteToHex(c.g) + ByteToHex(c.b)
  }

  /** `#` followed by six lower-case hexadecimal digits. */
  predicate IsHexColor(s: string) {
    |s| == 7 && s[0] == '#' && forall i :: 1 <= i < 7 ==> IsLowerHexDigit(s[i])
  }

  /** A channel in 0..255 is written as exactly two digits, high nibble first. */
  lemma ByteToHexDigits(v: int)
    requires IsByte(v)
    ensures ByteToHex(v) == [HexChar(v / 16), HexChar(v % 16)]
  {
    if v >= 16 {
      assert HexDigits(v) == HexDigits(v / 16) + [HexChar(v % 16)];
    }
  }

  /** The six digits `rgbToHex` writes for a colour with channels in 0..255. */
  function HexSix(c: Rgb): string
    requires IsByteRgb(c)
  {
    [HexChar(c.r / 16), HexChar(c.r % 16), HexChar(c.g / 16), HexChar(c.g % 16),
     HexChar(c.b / 16), HexChar(c.b % 16)]
  }

  lemma RgbToHexDigits(c: Rgb)
    requires IsByteRgb(c)
    ensures RgbToHex(c) == "#" + HexSix(c)
  {
    ByteToHexDigits(c.r);
    ByteToHexDigits(c.g);
    ByteToHexDigits(c.b);
    var x, y, z := ByteToHex(c.r), ByteToHex(c.g), ByteToHex(c.b);
    var w := HexSix(c);
    assert x == w[..2] && y == w[2..4] && z == w[4..];
    assert w == w[..2] + w[2..4] + w[4..];
  }

  /** `rgbToHex` of channels in 0..255 is always `#` and six hexadecimal digits. */
  lemma RgbToHexShape(c: Rgb)
    requires IsByteRgb(c)
    ensures IsHexColor(RgbToHex(c))
  {
    RgbToHexDigits(c);
    HexSixDigits(c);
  }

  lemma HexSixDigits(c: Rgb)
    requires IsByteRgb(c)
    ensures forall i :: 0 <= i < 6 ==> IsLowerHexDigit(HexSix(c)[i]) && IsHexDigit(HexSix(c)[i])
  {
    HexCharDigit(c.r / 16);
    HexCharDigit(c.r % 16);
    HexCharDigit(c.g / 16);
    HexCharDigit(c.g % 16);
    HexCharDigit(c.b / 16);
    HexCharDigit(c.b % 16);
  }

  lemma HexValueSnoc(s: string, c: char)
    requires forall i :: 0 <= i < |s| ==> IsHexDigit(s[i])
    requires IsHexDigit(c)
    ensures HexValue(s + [c]) == HexValue(s) * 16 + DigitValue(c)
  {
    assert (s + [c])[..|s|] == s;
  }

  /** The six digits read back as one number. */
  lemma HexSixValue(c: Rgb)
    requires IsByteRgb(c)
    ensures forall i :: 0 <= i < 6 ==> IsHexDigit(HexSix(c)[i])
    ensures HexValue(HexSix(c)) == c.r * 0x1_0000 + c.g * 256 + c.b
  {
    var w := HexSix(c);
    HexSixDigits(c);
    HexCharDigit(c.r / 16);
    HexCharDigit(c.r % 16);
    HexCharDigit(c.g / 16);
    HexCharDigit(c.g % 16);
    HexCharDigit(c.b / 16);
    HexCharDigit(c.b % 16);
    forall k | 0 <= k <= 6
      ensures forall i :: 0 <= i < k ==> IsHexDigit(w[..k][i])
    {
    }
    assert w[..0] == [];
    HexValueSnoc(w[..0], w[0]);
    assert w[..0] + [w[0]] == w[..1];
    HexValueSnoc(w[..1], w[1]);
    assert w[..1] + [w[1]] == w[..2];
    HexValueSnoc(w[..2], w[2]);
    assert w[..2] + [w[2]] == w[..3];
    HexValueSnoc(w[..3], w[3]);
    assert w[..3] + [w[3]] == w[..4];
    HexValueSnoc(w[..4], w[4]);
    assert w[..4] + [w[4]] == w[..5];
    HexValueSnoc(w[..5], w[5]);
    assert w[..5] + [w[5]] == w;
    assert HexValue(w[..2]) == c.r;
    assert HexValue(w[..4]) == c.r * 256 + c.g;
  }

  lemma HexDigitNotSpace(c: char)
    requires IsLowerHexDigit(c)
    ensures !IsSpace(c)
  {
  }

  /** The bytes of a 24-bit number built from three bytes are those bytes. */
  lemma BytesOf(r: int, g: int, b: int)
    requires IsByte(r) && IsByte(g) && IsByte(b)
    ensures SplitBytes(Some(r * 0x1_0000 + g * 256 + b)) == Rgb(r, g, b)
  {
    var u := r * 0x1_0000 + g * 256 + b;
    assert u / 0x1_0000 == r;
    assert u / 256 == r * 256 + g;
  }

  /** `parseInt` of a run of lower-case hexadecimal digits reads all of them. */
  lemma ParseIntHexOfDigits(w: string)
    requires |w| >= 1 && forall i :: 0 <= i < |w| ==> IsLowerHexDigit(w[i])
    ensures forall i :: 0 <= i < |w| ==> IsHexDigit(w[i])
    ensures ParseIntHex(w) == Some(HexValue(w))
  {
    HexDigitNotSpace(w[0]);
    assert TrimStart(w) == w;
    HexRunOfDigits(w);
    assert w[..|w|] == w;
  }

  /** `hexToRgb` of `#` and six digits splits their value into three bytes. */
  lemma HexToRgbOfDigits(hex: string, w: string, r: int, g: int, b: int)
    requires IsByte(r) && IsByte(g) && IsByte(b)
    requires hex == "#" + w && |w| == 6
    requires forall i :: 0 <= i < |w| ==> IsLowerHexDigit(w[i])
    requires forall i :: 0 <= i < |w| ==> IsHexDigit(w[i])
    requires HexValue(w) == r * 0x1_0000 + g * 256 + b
    ensures HexToRgb(hex) == Rgb(r, g, b)
  {
    assert ReplaceFirst(hex, '#') == w;
    ParseIntHexOfDigits(w);
    BytesOf(r, g, b);
  }

  /** `hexToRgb(rgbToHex(c))` gives `c` back for channels in 0..255. */
  lemma HexRoundTrip(c: Rgb)
    requires IsByteRgb(c)
    ensures HexToRgb(RgbToHex(c)) == c
  {
    RgbToHexDigits(c);
    HexSixDigits(c);
    HexSixValue(c);
    HexToRgbOfDigits(RgbToHex(c), HexSix(c), c.r, c.g, c.b);
  }

  /** Each palette entry is what `rgbToHex` writes for its channels. */
  lemma StopIsRgbToHex(i: int)
    requires 0 <= i < |ColorStops|
    ensures IsByteRgb(StopColors[i])
    ensures ColorStops[i] == RgbToHex(StopColors[i])
  {
    RgbToHexDigits(StopColors[i]);
    if i < 3 {
      LightStopDigits(i);
    } else {
      DarkStopDigits(i);
    }
  }

  lemma LightStopDigits(i: int)
    requires 0 <= i < 3
    ensures ColorStops[i] == "#" + HexSix(StopColors[i])
  {
    if i == 0 {
      assert HexSix(StopColors[0]) == "d7f2df";
    } else if i == 1 {
      assert HexSix(StopColors[1]) == "aee4c5";
    } else {
      assert HexSix(StopColors[2]) == "7acc9d";
    }
  }

  lemma DarkStopDigits(i: int)
    requires 3 <= i < 6
    ensures ColorStops[i] == "#" + HexSix(StopColors[i])
  {
    if i == 3 {
      assert HexSix(StopColors[3]) == "49a374";
    } else if i == 4 {
      assert HexSix(StopColors[4]) == "2f7b51";
    } else {
      assert HexSix(StopColors[5]) == "18553a";
    }
  }

  /** `hexToRgb` reads each palette entry as its channels. */
  lemma StopChannels(i: int)
    requires 0 <= i < |ColorStops|
    ensures IsByteRgb(StopColors[i])
    ensures HexToRgb(ColorStops[i]) == StopColors[i]
  {
    StopIsRgbToHex(i);
    HexRoundTrip(StopColors[i]);
  }

  // ---------------------------------------------------------------------------
  // interpolateColor

  /** What `Math.pow(x, 0.55)` is relied on for: monotone on [0, 1], fixing 0 and 1. */
  ghost predicate IsColorWarp(warp: real -> real) {
    && warp(0.0) == 0.0
    && warp(1.0) == 1.0
    && forall x, y :: 0.0 <= x <= y <= 1.0 ==> warp(x) <= warp(y)
  }

  /** `Math.min(Math.max(ratio, 0), 1)`; None is NaN. */
  function Clamp01(ratio: Num): (r: Option<real>)
    ensures r.None? <==> ratio.NaN?
    ensures r.Some? ==> 0.0 <= r.value <= 1.0
  {
    match ratio
    case NaN => None
    case NegInf => Some(0.0)
    case PosInf => Some(1.0)
    case Finite(x) => Some(if x < 0.0 then 0.0 else if x > 1.0 then 1.0 else x)
  }

  /** `Math.pow(safeRatio, 0.55) * (COLOR_STOPS.length - 1)`: the position along the palette. */
  function Scaled(safe: real, warp: real -> real): (s: real)
    requires IsColorWarp(warp)
    requires 0.0 <= safe <= 1.0
    ensures 0.0 <= s <= (|ColorStops| - 1) as real
  {
    assert warp(0.0) <= warp(safe) <= warp(1.0);
    warp(safe) * (|ColorStops| - 1) as real
  }

  /** `Math.ceil(x)`: the integer in [x, x + 1). */
  function Ceil(x: real): (c: int)
    ensures x <= c as real < x + 1.0
  {
    -((-x).Floor)
  }

  /** `Math.min(a, b)`: the smaller of the two. */
  function Min(a: int, b: int): (m: int)
    ensures m <= a && m <= b && (m == a || m == b)
  {
    if a <= b then a else b
  }

  /** `Math.round(x)`: the nearest integer, halves rounded up. */
  function Round(x: real): int {
    (x + 0.5).Floor
  }

  /** `Math.round(value + (other - value) * t)` for one channel. */
  function MixChannel(value: int, other: int, t: real): int {
    Round(value as real + (other - value) as real * t)
  }

  /** `lowerRgb.map((value, idx) => Math.round(value + (upperRgb[idx] - value) * t))` */
  function MixRgb(lo: Rgb, up: Rgb, t: real): Rgb {
    Rgb(MixChannel(lo.r, up.r, t), MixChannel(lo.g, up.g, t), MixChannel(lo.b, up.b, t))
  }

  predicate Between(v: int, a: int, b: int) {
    (a <= v <= b) || (b <= v <= a)
  }

  predicate ChannelsBetween(m: Rgb, lo: Rgb, up: Rgb) {
    Between(m.r, lo.r, up.r) && Between(m.g, lo.g, up.g) && Between(m.b, lo.b, up.b)
  }

  /** A fraction of `d` lies between 0 and `d`. */
  lemma ScaledBetween(d: real, t: real)
    requires 0.0 <= t <= 1.0
    ensures d >= 0.0 ==> 0.0 <= d * t <= d
    ensures d <= 0.0 ==> d <= d * t <= 0.0
  {
    assert d - d * t == d * (1.0 - t);
  }

  /** Rounding a value between two integers stays between them. */
  lemma RoundBetween(a: int, b: int, x: real)
    requires (a as real <= x <= b as real) || (b as real <= x <= a as real)
    ensures Between(Round(x), a, b)
  {
  }

  /** A mixed channel lies between the two channels it mixes. */
  lemma MixChannelBetween(a: int, b: int, t: real)
    requires 0.0 <= t <= 1.0
    ensures Between(MixChannel(a, b, t), a, b)
  {
    var d := (b - a) as real;
    var x := a as real + d * t;
    assert MixChannel(a, b, t) == Round(x);
    ScaledBetween(d, t);
    assert (a as real <= x <= b as real) || (b as real <= x <= a as real);
    RoundBetween(a, b, x);
  }

  lemma MixRgbBetween(lo: Rgb, up: Rgb, t: real)
    requires 0.0 <= t <= 1.0
    ensures ChannelsBetween(MixRgb(lo, up, t), lo, up)
  {
    MixChannelBetween(lo.r, up.r, t);
    MixChannelBetween(lo.g, up.g, t);
    MixChannelBetween(lo.b, up.b, t);
  }

  lemma BetweenBytes(m: Rgb, lo: Rgb, up: Rgb)
    requires IsByteRgb(lo) && IsByteRgb(up) && ChannelsBetween(m, lo, up)
    ensures IsByteRgb(m)
  {
  }

  /**
   * The colour at palette position `scaled` (lines 133-146): the entry itself
   * when `Math.floor` and the capped `Math.ceil` agree, else a channel-wise mix
   * of the two entries around it.
   */
  function ColorAt(scaled: real): (r: string)
    requires 0.0 <= scaled <= (|ColorStops| - 1) as real
    ensures r in ColorStops || IsHexColor(r)
  {
    var lowerIndex := scaled.Floor;
    var upperIndex := Min(|ColorStops| - 1, Ceil(scaled));
    if lowerIndex == upperIndex then ColorStops[lowerIndex]
    else
      var t := scaled - lowerIndex as real;
      var lowerRgb := HexToRgb(ColorStops[lowerIndex]);
      var upperRgb := HexToRgb(ColorStops[upperIndex]);
      var mixed := MixRgb(lowerRgb, upperRgb, t);
      MixRgbBetween(lowerRgb, upperRgb, t);
      BetweenBytes(mixed, lowerRgb, upperRgb);
      RgbToHexShape(mixed);
      RgbToHex(mixed)
  }

  /**
   * `interpolateColor(ratio)`. None stands for the TypeError thrown when the
   * ratio is NaN: the indices are then NaN and `COLOR_STOPS[NaN]` is undefined.
   */
  function InterpolateColor(ratio: Num, warp: real -> real): (r: Option<string>)
    requires IsColorWarp(warp)
    ensures r.None? <==> ratio.NaN?
    ensures r.Some? ==> r.value in ColorStops || IsHexColor(r.value)
  {
    var safe := Clamp01(ratio);
    if safe.None? then None else Some(ColorAt(Scaled(safe.value, warp)))
  }

  /** The palette position a ratio other than NaN is mapped to. */
  function Position(ratio: Num, warp: real -> real): (s: real)
    requires IsColorWarp(warp)
    requires !ratio.NaN?
    ensures 0.0 <= s <= (|ColorStops| - 1) as real
  {
    Scaled(Clamp01(ratio).value, warp)
  }

  lemma InterpolateIsColorAt(ratio: Num, warp: real -> real)
    requires IsColorWarp(warp)
    requires !ratio.NaN?
    ensures InterpolateColor(ratio, warp) == Some(ColorAt(Position(ratio, warp)))
  {
  }

  /** A ratio at or below 0 gives the first palette entry. */
  lemma InterpolateClampLow(ratio: Num, warp: real -> real)
    requires IsColorWarp(warp)
    requires ratio.NegInf? || (ratio.Finite? && ratio.r <= 0.0)
    ensures InterpolateColor(ratio, warp) == Some(ColorStops[0])
  {
    assert Clamp01(ratio) == Some(0.0);
    ColorAtGridHit(0);
  }

  /** A ratio at or above 1 gives the last palette entry. */
  lemma InterpolateClampHigh(ratio: Num, warp: real -> real)
    requires IsColorWarp(warp)
    requires ratio.PosInf? || (ratio.Finite? && ratio.r >= 1.0)
    ensures InterpolateColor(ratio, warp) == Some(ColorStops[|ColorStops| - 1])
  {
    var last := |ColorStops| - 1;
    assert Clamp01(ratio) == Some(1.0);
    assert Scaled(1.0, warp) == last as real;
    assert InterpolateColor(ratio, warp) == Some(ColorAt(last as real));
    ColorAtGridHit(last);
  }

  /** A position exactly on a palette entry gives that entry unchanged. */
  lemma ColorAtGridHit(k: int)
    requires 0 <= k < |ColorStops|
    ensures ColorAt(k as real) == ColorStops[k]
  {
    assert (k as real).Floor == k;
    assert Ceil(k as real) == k;
  }

  /** A ratio whose position falls exactly on a palette entry returns that entry unchanged. */
  lemma InterpolateGridHit(ratio: Num, warp: real -> real, k: int)
    requires IsColorWarp(warp)
    requires !ratio.NaN? && 0 <= k < |ColorStops|
    requires Position(ratio, warp) == k as real
    ensures InterpolateColor(ratio, warp) == Some(ColorStops[k])
  {
    InterpolateIsColorAt(ratio, warp);
    ColorAtGridHit(k);
  }

  /**
   * Between two palette entries the colour is a channel-wise mix of the two
   * neighbouring entries, and every channel lies between theirs.
   */
  lemma ColorAtBetweenStops(s: real)
    requires 0.0 <= s <= (|ColorStops| - 1) as real
    requires s != s.Floor as real
    ensures var k := s.Floor;
      && 0 <= k < |ColorStops| - 1
      && var m := MixRgb(StopColors[k], StopColors[k + 1], s - k as real);
      && ColorAt(s) == RgbToHex(m)
      && ChannelsBetween(m, StopColors[k], StopColors[k + 1])
  {
    var k := s.Floor;
    assert Ceil(s) == k + 1;
    StopChannels(k);
    StopChannels(k + 1);
    MixRgbBetween(StopColors[k], StopColors[k + 1], s - k as real);
  }

  /** A larger ratio never moves the colour back along the palette. */
  lemma PositionMonotone(a: Num, b: Num, warp: real -> real)
    requires IsColorWarp(warp)
    requires !a.NaN? && !b.NaN?
    requires a.NegInf? || b.PosInf? || (a.Finite? && b.Finite? && a.r <= b.r)
    ensures Position(a, warp) <= Position(b, warp)
  {
    var x, y := Clamp01(a).value, Clamp01(b).value;
    assert x <= y;
    assert warp(x) <= warp(y);
  }

  // ---------------------------------------------------------------------------
  // colorForValue

  /** `value / maxSales` on JavaScript numbers (there is no negative zero here). */
  function NumDiv(a: Num, b: Num): Num {
    match (a, b)
    case (NaN, _) => NaN
    case (_, NaN) => NaN
    case (Finite(x), Finite(y)) =>
      if y != 0.0 then Finite(x / y)
      else if x == 0.0 then NaN
      else if x > 0.0 then PosInf else NegInf
    case (Finite(_), _) => Zero
    case (_, Finite(y)) =>
      if (y < 0.0) == a.PosInf? then NegInf else PosInf
    case (_, _) => NaN
  }

  /**
   * Division is exact between finite numbers with a non-zero divisor, a finite
   * number over an infinity is 0, and the result is NaN exactly when an operand
   * is NaN, both are 0 or both are infinite.
   */
  lemma NumDivFacts(a: Num, b: Num)
    ensures a.Finite? && b.Finite? && b.r != 0.0 ==> NumDiv(a, b) == Finite(a.r / b.r)
    ensures a.Finite? && !b.Finite? && !b.NaN? ==> NumDiv(a, b) == Zero
    ensures NumDiv(a, b).NaN? <==>
              || a.NaN? || b.NaN? || (a == Zero && b == Zero)
              || (!a.Finite? && !b.Finite?)
  {
  }

  /**
   * `colorForValue(value)`; `value` is a map lookup, where None is `undefined`.
   * None as the result stands for the TypeError `interpolateColor` throws.
   */
  function ColorForValue(value: Option<Num>, maxSales: Num, warp: real -> real): (r: Option<string>)
    requires IsColorWarp(warp)
    ensures (value.None? || !Truthy(Number(value.value)) || maxSales == Zero) ==> r == Some(ZeroSalesFill)
    ensures r.None? <==> value.Some? && Truthy(Number(value.value)) && maxSales != Zero
                         && NumDiv(value.value, maxSales).NaN?
    ensures r.Some? ==> r.value == ZeroSalesFill || r.value in ColorStops || IsHexColor(r.value)
  {
    if value.None? || !Truthy(Number(value.value)) || maxSales == Zero then Some(ZeroSalesFill)
    else InterpolateColor(NumDiv(value.value, maxSales), warp)
  }

  /** A finite positive value equal to the maximum gets the darkest palette entry. */
  lemma ColorForMaximum(v: real, warp: real -> real)
    requires IsColorWarp(warp)
    requires v > 0.0
    ensures ColorForValue(Some(Finite(v)), Finite(v), warp) == Some(ColorStops[|ColorStops| - 1])
  {
    assert v / v == 1.0;
    assert NumDiv(Finite(v), Finite(v)) == Finite(1.0);
    InterpolateClampHigh(Finite(1.0), warp);
  }

  /** Finite sales up to a finite positive maximum always get a colour. */
  lemma ColorForFiniteSales(v: real, maxSales: real, warp: real -> real)
    requires IsColorWarp(warp)
    requires 0.0 <= v <= maxSales && maxSales > 0.0
    ensures ColorForValue(Some(Finite(v)), Finite(maxSales), warp).Some?
  {
  }

  /**
   * An infinite sales figure, which the record gate lets through, makes the
   * maximum infinite too, and `Infinity / Infinity` is NaN: the lookup throws.
   */
  lemma ColorForInfiniteSales(warp: real -> real)
    requires IsColorWarp(warp)
    ensures ColorForValue(Some(PosInf), PosInf, warp).None?
  {
  }
}
