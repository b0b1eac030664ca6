// rgbToHex (components/component-editor.tsx:571-589): a CSS colour such as `rgb(12, 34, 56)` is
// turned into `#0c2238` by reading its runs of decimal digits and printing
// `(1 << 24) + (r << 16) + (g << 8) + b` in base 16 without its leading digit.

module Colour {
  import opened Text

  predicate AllDigits(s: string) {
    forall k :: 0 <= k < |s| ==> IsDigit(s[k])
  }

  /** The first index at or after `i` that does not hold a decimal digit. */
  function DigitsEnd(s: string, i: nat): (j: nat)
    requires i <= |s|
    ensures i <= j <= |s| && (j < |s| ==> !IsDigit(s[j]))
    ensures forall k :: i <= k < j ==> IsDigit(s[k])
    decreases |s| - i
  {
    if i == |s| || !IsDigit(s[i]) then i else DigitsEnd(s, i + 1)
  }

  /** `s.match(/\d+/g)`: the maximal runs of decimal digits, left to right; the empty sequence
      stands for the `null` of no match. */
  function DigitRuns(s: string): (r: seq<string>)
    ensures forall i :: 0 <= i < |r| ==> |r[i]| >= 1 && AllDigits(r[i])
    decreases |s|
  {
    if s == [] then []
    else if !IsDigit(s[0]) then DigitRuns(s[1..])
    else
      var j := DigitsEnd(s, 0);
      [s[..j]] + DigitRuns(s[j..])
  }

  /** ECMAScript ToInt32 (section 7.1.6 of ECMA-262): the value modulo 2^32, read as a signed
      32-bit integer. */
  function ToInt32(x: int): (r: int)
    ensures -0x8000_0000 <= r < 0x8000_0000 && (r - x) % 0x1_0000_0000 == 0
  {
    var m := x % 0x1_0000_0000;
    if m >= 0x8000_0000 then m - 0x1_0000_0000 else m
  }

  /** `x << k` on a JavaScript number with an integer value. */
  function ShiftLeft(x: int, k: nat): int {
    ToInt32(ToInt32(x) * Pow2(k))
  }

  function Pow2(k: nat): (r: nat)
    ensures r >= 1
  {
    if k == 0 then 1 else 2 * Pow2(k - 1)
  }

  function HexDigit(d: nat): (c: char)
    requires d < 16
  {
    if d < 10 then (d + '0' as int) as char else (d - 10 + 'a' as int) as char
  }

  /** The base-16 numeral of a natural number, in lower case. */
  function Hex(n: nat): (r: string)
    ensures |r| >= 1
  {
    if n < 16 then [HexDigit(n)] else Hex(n / 16) + [HexDigit(n % 16)]
  }

  /** `n.toString(16)` for an integer `n`. */
  function NumberToHex(n: int): (r: string)
    ensures |r| >= 1
  {
    if n < 0 then "-" + Hex(-n) else Hex(n)
  }

  /** rgbToHex: a colour starting with `#` is kept; without any digits the colour is black;
      with fewer than three runs `b` is undefined, the sum is NaN and the result is `#` and
      the rest of `NaN`; otherwise the first three runs are the channels. */
  function RgbToHex(rgb: string): string {
    if StartsWith(rgb, "#") then rgb
    else
      var runs := DigitRuns(rgb);
      if |runs| == 0 then "#000000"
      else if |runs| < 3 then "#aN"
      else
        HexColour(ChannelSum(DecimalValue(runs[0]), DecimalValue(runs[1]), DecimalValue(runs[2])))
  }

  /** `(1 << 24) + (r << 16) + (g << 8) + b`. */
  function ChannelSum(r: int, g: int, b: int): int {
    ShiftLeft(1, 24) + ShiftLeft(r, 16) + ShiftLeft(g, 8) + b
  }

  /** `"#" + n.toString(16).slice(1)`. */
  function HexColour(n: int): string {
    "#" + NumberToHex(n)[1..]
  }

  /** The two lower-case hexadecimal digits of a channel value. */
  function Hex2(v: nat): (r: string)
    requires v < 256
    ensures |r| == 2
  {
    [HexDigit(v / 16), HexDigit(v % 16)]
  }

  /** The value of a hexadecimal digit, the inverse of `HexDigit`. */
  function HexValue(c: char): (d: nat)
    ensures d < 16
  {
    if '0' <= c <= '9' then c as int - '0' as int
    else if 'a' <= c <= 'f' then c as int - 'a' as int + 10
    else 0
  }

  /** The channels of a colour `#rrggbb`. */
  function ParseHex(s: string): (r: (nat, nat, nat))
    requires |s| == 7
    ensures r.0 < 256 && r.1 < 256 && r.2 < 256
  {
    (16 * HexValue(s[1]) + HexValue(s[2]), 16 * HexValue(s[3]) + HexValue(s[4]), 16 * HexValue(s[5]) + HexValue(s[6]))
  }

  /** `getComputedStyle`'s spelling of an opaque colour. */
  function CssRgb(r: nat, g: nat, b: nat): string {
    "rgb(" + NatToDecimal(r) + ", " + NatToDecimal(g) + ", " + NatToDecimal(b) + ")"
  }

  // ---------------------------------------------------------------------------------
  // Properties

  /** Every result begins with `#`, and a colour that already does is kept as it is. */
  lemma RgbToHexHash(rgb: string)
    ensures |RgbToHex(rgb)| >= 1 && RgbToHex(rgb)[0] == '#'
    ensures StartsWith(rgb, "#") ==> RgbToHex(rgb) == rgb
  {
  }

  /** A colour without a `#` and without any decimal digit becomes black. */
  lemma RgbToHexBlack(rgb: string)
    requires !StartsWith(rgb, "#") && forall k :: 0 <= k < |rgb| ==> !IsDigit(rgb[k])
    ensures RgbToHex(rgb) == "#000000"
  {
    RunsNone(rgb);
  }

  /** `match` finds no run exactly when the text holds no decimal digit. */
  lemma RunsNone(s: string)
    ensures DigitRuns(s) == [] <==> forall k :: 0 <= k < |s| ==> !IsDigit(s[k])
  {
    if forall k :: 0 <= k < |s| ==> !IsDigit(s[k]) {
      RunsSkip(s, []);
      assert s + [] == s;
    } else {
      var k :| 0 <= k < |s| && IsDigit(s[k]);
      DigitMeansRun(s, k);
    }
  }

  /** A decimal digit anywhere gives at least one run. */
  lemma {:induction false} DigitMeansRun(s: string, k: nat)
    requires k < |s| && IsDigit(s[k])
    ensures |DigitRuns(s)| >= 1
  {
    if !IsDigit(s[0]) {
      assert s[1..][k - 1] == s[k];
      DigitMeansRun(s[1..], k - 1);
    }
  }

  lemma HexDigitValue(d: nat)
    requires d < 16
    ensures HexValue(HexDigit(d)) == d
  {
  }

  /** Reading the two digits back gives the channel value. */
  lemma Hex2RoundTrip(v: nat)
    requires v < 256
    ensures 16 * HexValue(Hex2(v)[0]) + HexValue(Hex2(v)[1]) == v
  {
    HexDigitValue(v / 16);
    HexDigitValue(v % 16);
  }

  /** A shift that stays inside 31 bits multiplies. */
  lemma ShiftLeftSmall(x: nat, k: nat)
    requires x * Pow2(k) < 0x8000_0000 && x < 0x8000_0000
    ensures ShiftLeft(x, k) == x * Pow2(k)
  {
  }

  /** Printing one more digit. */
  lemma HexStep(q: nat, d: nat)
    requires 1 <= q && d < 16
    ensures Hex(16 * q + d) == Hex(q) + [HexDigit(d)]
  {
  }

  /** Printing two more digits. */
  lemma HexStep2(q: nat, v: nat)
    requires 1 <= q && v < 256
    ensures Hex(256 * q + v) == Hex(q) + Hex2(v)
  {
    var q' := 16 * q + v / 16;
    assert 256 * q + v == 16 * q' + v % 16;
    HexStep(q, v / 16);
    HexStep(q', v % 16);
  }

  /** The sum printed in base 16: a leading `1`, then two digits per channel. */
  lemma HexOfSum(r: nat, g: nat, b: nat)
    requires r < 256 && g < 256 && b < 256
    ensures Hex(0x100_0000 + r * 0x1_0000 + g * 0x100 + b) == "1" + Hex2(r) + Hex2(g) + Hex2(b)
  {
    var q2 := 256 * 1 + r;
    var q4 := 256 * q2 + g;
    assert 0x100_0000 + r * 0x1_0000 + g * 0x100 + b == 256 * q4 + b;
    assert Hex(q2) == "1" + Hex2(r) by {
      HexStep2(1, r);
    }
    assert Hex(q4) == Hex(q2) + Hex2(g) by {
      HexStep2(q2, g);
    }
    assert Hex(256 * q4 + b) == Hex(q4) + Hex2(b) by {
      HexStep2(q4, b);
    }
  }

  /** The sum the source forms, for channels in 0..255. */
  lemma SumOfChannels(r: nat, g: nat, b: nat)
    requires r < 256 && g < 256 && b < 256
    ensures ChannelSum(r, g, b) == 0x100_0000 + r * 0x1_0000 + g * 0x100 + b
  {
    Pow2Values();
    ShiftLeftSmall(1, 24);
    ShiftLeftSmall(r, 16);
    ShiftLeftSmall(g, 8);
  }

  /** With three channels in 0..255 the result is `#rrggbb`. */
  lemma RgbToHexChannels(rgb: string)
    requires !StartsWith(rgb, "#") && |DigitRuns(rgb)| >= 3
    requires DecimalValue(DigitRuns(rgb)[0]) < 256 && DecimalValue(DigitRuns(rgb)[1]) < 256 && DecimalValue(DigitRuns(rgb)[2]) < 256
    ensures var runs := DigitRuns(rgb);
      RgbToHex(rgb) == "#" + Hex2(DecimalValue(runs[0])) + Hex2(DecimalValue(runs[1])) + Hex2(DecimalValue(runs[2]))
  {
    var runs := DigitRuns(rgb);
    ChannelsHex(DecimalValue(runs[0]), DecimalValue(runs[1]), DecimalValue(runs[2]));
  }

  /** The colour printed for three channels in 0..255. */
  lemma ChannelsHex(r: nat, g: nat, b: nat)
    requires r < 256 && g < 256 && b < 256
    ensures HexColour(ChannelSum(r, g, b)) == "#" + Hex2(r) + Hex2(g) + Hex2(b)
  {
    var m := 0x100_0000 + r * 0x1_0000 + g * 0x100 + b;
    assert ChannelSum(r, g, b) == m by {
      SumOfChannels(r, g, b);
    }
    assert Hex(m) == "1" + Hex2(r) + Hex2(g) + Hex2(b) by {
      HexOfSum(r, g, b);
    }
    assert Hex(m)[1..] == Hex2(r) + Hex2(g) + Hex2(b);
  }

  lemma Pow2Values()
    ensures Pow2(8) == 0x100 && Pow2(16) == 0x1_0000 && Pow2(24) == 0x100_0000
  {
    assert Pow2(4) == 16;
    assert Pow2(8) == 16 * Pow2(4) by { Pow2Add(4, 4); }
    assert Pow2(16) == Pow2(8) * Pow2(8) by { Pow2Add(8, 8); }
    assert Pow2(24) == Pow2(16) * Pow2(8) by { Pow2Add(16, 8); }
  }

  lemma {:induction false} Pow2Add(a: nat, b: nat)
    ensures Pow2(a + b) == Pow2(a) * Pow2(b)
  {
    if a > 0 {
      Pow2Add(a - 1, b);
    }
  }

  // The digit runs of `rgb(r, g, b)`.

  /** Text without digits adds no run. */
  lemma {:induction false} RunsSkip(x: string, t: string)
    requires forall k :: 0 <= k < |x| ==> !IsDigit(x[k])
    ensures DigitRuns(x + t) == DigitRuns(t)
  {
    if x == [] {
      assert x + t == t;
    } else {
      assert (x + t)[1..] == x[1..] + t;
      RunsSkip(x[1..], t);
    }
  }

  /** A run of digits followed by a non-digit (or nothing) is one run. */
  lemma RunsDigits(d: string, t: string)
    requires |d| >= 1 && AllDigits(d) && (t == [] || !IsDigit(t[0]))
    ensures DigitRuns(d + t) == [d] + DigitRuns(t)
  {
    var s := d + t;
    DigitsEndAt(s, 0, |d|);
    assert s[..|d|] == d && s[|d|..] == t;
  }

  lemma {:induction false} DigitsEndAt(s: string, i: nat, j: nat)
    requires i <= j <= |s| && (forall k :: i <= k < j ==> IsDigit(s[k])) && (j == |s| || !IsDigit(s[j]))
    ensures DigitsEnd(s, i) == j
    decreases j - i
  {
    if i < j {
      DigitsEndAt(s, i + 1, j);
    }
  }

  /** A separator without digits, then a numeral: the numeral is the next run. */
  lemma RunsAfter(sep: string, d: string, t: string)
    requires forall k :: 0 <= k < |sep| ==> !IsDigit(sep[k])
    requires |d| >= 1 && AllDigits(d) && (t == [] || !IsDigit(t[0]))
    ensures DigitRuns(sep + d + t) == [d] + DigitRuns(t)
  {
    assert sep + d + t == sep + (d + t);
    RunsSkip(sep, d + t);
    RunsDigits(d, t);
  }

  /** `rgb(r, g, b)` has the three channels' numerals as its runs. */
  lemma CssRgbRuns(r: nat, g: nat, b: nat)
    ensures DigitRuns(CssRgb(r, g, b)) == [NatToDecimal(r), NatToDecimal(g), NatToDecimal(b)]
  {
    var dr, dg, db := NatToDecimal(r), NatToDecimal(g), NatToDecimal(b);
    var t2 := ", " + db + ")";
    var t1 := ", " + dg + t2;
    assert CssRgb(r, g, b) == "rgb(" + dr + t1;
    assert DigitRuns(CssRgb(r, g, b)) == [dr] + DigitRuns(t1) by {
      RunsAfter("rgb(", dr, t1);
    }
    assert DigitRuns(t1) == [dg] + DigitRuns(t2) by {
      RunsAfter(", ", dg, t2);
    }
    assert DigitRuns(t2) == [db] by {
      RunsAfter(", ", db, ")");
      RunsSkip(")", []);
      assert ")" + [] == ")";
    }
  }

  /** The colour `rgb(r, g, b)` of a computed style becomes `#rrggbb`. */
  lemma RgbToHexCss(r: nat, g: nat, b: nat)
    requires r < 256 && g < 256 && b < 256
    ensures RgbToHex(CssRgb(r, g, b)) == "#" + Hex2(r) + Hex2(g) + Hex2(b)
  {
    CssRgbRuns(r, g, b);
    DecimalRoundTrip(r);
    DecimalRoundTrip(g);
    DecimalRoundTrip(b);
    assert CssRgb(r, g, b)[0] == 'r';
    RgbToHexChannels(CssRgb(r, g, b));
  }

  /** Reading `#rrggbb` back gives the three channels. */
  lemma ParseHexRoundTrip(r: nat, g: nat, b: nat)
    requires r < 256 && g < 256 && b < 256
    ensures var h := "#" + Hex2(r) + Hex2(g) + Hex2(b);
      |h| == 7 && ParseHex(h) == (r, g, b)
  {
    var h := "#" + Hex2(r) + Hex2(g) + Hex2(b);
    assert h[1..3] == Hex2(r) && h[3..5] == Hex2(g) && h[5..7] == Hex2(b);
    Hex2RoundTrip(r);
    Hex2RoundTrip(g);
    Hex2RoundTrip(b);
  }

  /** Reading the result of `rgb(r, g, b)` back gives the three channels. */
  lemma RgbToHexRoundTrip(r: nat, g: nat, b: nat)
    requires r < 256 && g < 256 && b < 256
    ensures |RgbToHex(CssRgb(r, g, b))| == 7 && ParseHex(RgbToHex(CssRgb(r, g, b))) == (r, g, b)
  {
    RgbToHexCss(r, g, b);
    ParseHexRoundTrip(r, g, b);
  }
}
