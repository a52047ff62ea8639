/**
 * The colour conversions behind the detail view: `rgbToHex`, `rgbToHSL`,
 * the lightness ramp of `renderShades` and the hue list of `renderHarmony`.
 *
 * Channels arrive from the browser's rendering of a colour as integers
 * 0..255. `rgbToHSL` divides, so it is stated over `real`, where the
 * comparisons the source makes between channel values are exact.
 */
module Convert {
  import opened Text

  // ---------------------------------------------------------------------
  // rgbToHex
  // ---------------------------------------------------------------------

  predicate IsLowerHexDigit(c: char)
  {
    IsDigit(c) || 'a' <= c <= 'f'
  }

  /** The digit `Number.prototype.toString(16)` writes for 0..15. */
  function HexDigit(d: nat): (c: char)
    requires d < 16
    ensures IsLowerHexDigit(c)
  {
    if d < 10 then ('0' as int + d) as char else ('a' as int + d - 10) as char
  }

  /** The value of one hexadecimal digit of either case. */
  function HexValue(c: char): (v: nat)
    requires IsHexDigit(c)
    ensures v < 16
  {
    if IsDigit(c) then c as int - '0' as int
    else if 'a' <= c <= 'f' then c as int - 'a' as int + 10
    else c as int - 'A' as int + 10
  }

  lemma {:induction false} HexDigitValue(d: nat)
    requires d < 16
    ensures IsHexDigit(HexDigit(d)) && HexValue(HexDigit(d)) == d
  {
  }

  /** `x.toString(16)` for a non-negative integer: no leading zeros. */
  function ToHex(x: nat): (r: string)
    ensures |r| >= 1
    ensures forall i :: 0 <= i < |r| ==> IsLowerHexDigit(r[i])
  {
    if x < 16 then [HexDigit(x)] else ToHex(x / 16) + [HexDigit(x % 16)]
  }

  /** One channel: its hex text, with a `0` in front when it has one digit. */
  function Channel(x: nat): (r: string)
    ensures |r| >= 2
    ensures forall i :: 0 <= i < |r| ==> IsLowerHexDigit(r[i])
  {
    var hex := ToHex(x);
    if |hex| == 1 then ['0'] + hex else hex
  }

  /** `rgbToHex(r, g, b)`. */
  function RgbToHex(r: nat, g: nat, b: nat): (h: string)
    ensures |h| >= 7 && h[0] == '#'
    ensures forall i :: 1 <= i < |h| ==> IsLowerHexDigit(h[i])
  {
    "#" + Channel(r) + Channel(g) + Channel(b)
  }

  /** The value of a two-digit hexadecimal text. */
  function PairValue(p: string): nat
    requires |p| == 2 && IsHexDigit(p[0]) && IsHexDigit(p[1])
  {
    16 * HexValue(p[0]) + HexValue(p[1])
  }

  /** A byte is always written with exactly two digits, and those two digits
      read back as the byte. */
  lemma {:induction false} ChannelRoundTrip(x: nat)
    requires x <= 255
    ensures |Channel(x)| == 2
    ensures IsHexDigit(Channel(x)[0]) && IsHexDigit(Channel(x)[1])
    ensures PairValue(Channel(x)) == x
  {
    HexDigitValue(x % 16);
    if x < 16 {
      assert Channel(x) == ['0', HexDigit(x)];
    } else {
      HexDigitValue(x / 16);
      assert ToHex(x / 16) == [HexDigit(x / 16)];
      assert Channel(x) == [HexDigit(x / 16), HexDigit(x % 16)];
    }
  }

  /** For bytes, `rgbToHex` writes `#` and six lower-case hexadecimal digits,
      and the three pairs read back as the three channels. */
  lemma {:induction false} RgbToHexRoundTrip(r: nat, g: nat, b: nat)
    requires r <= 255 && g <= 255 && b <= 255
    ensures var h := RgbToHex(r, g, b);
      && |h| == 7 && h[0] == '#'
      && (forall i :: 1 <= i < 7 ==> IsLowerHexDigit(h[i]))
      && PairValue(h[1..3]) == r && PairValue(h[3..5]) == g && PairValue(h[5..7]) == b
  {
    ChannelRoundTrip(r);
    ChannelRoundTrip(g);
    ChannelRoundTrip(b);
    var h := RgbToHex(r, g, b);
    assert h[1..3] == Channel(r);
    assert h[3..5] == Channel(g);
    assert h[5..7] == Channel(b);
    forall i | 1 <= i < 7 ensures IsLowerHexDigit(h[i]) {
      if i < 3 {
        assert h[i] == Channel(r)[i - 1];
      } else if i < 5 {
        assert h[i] == Channel(g)[i - 3];
      } else {
        assert h[i] == Channel(b)[i - 5];
      }
    }
  }

  /** Different colours get different hex texts. */
  lemma {:induction false} RgbToHexInjective(r: nat, g: nat, b: nat, r': nat, g': nat, b': nat)
    requires r <= 255 && g <= 255 && b <= 255 && r' <= 255 && g' <= 255 && b' <= 255
    requires RgbToHex(r, g, b) == RgbToHex(r', g', b')
    ensures r == r' && g == g' && b == b'
  {
    RgbToHexRoundTrip(r, g, b);
    RgbToHexRoundTrip(r', g', b');
  }

  // ---------------------------------------------------------------------
  // rgbToHSL
  // ---------------------------------------------------------------------

  /** Hue in degrees, saturation and lightness in percent. */
  datatype HSL = HSL(h: real, s: real, l: real)

  function Max3(a: real, b: real, c: real): (m: real)
    ensures m >= a && m >= b && m >= c
    ensures m == a || m == b || m == c
  {
    if a >= b && a >= c then a else if b >= c then b else c
  }

  function Min3(a: real, b: real, c: real): (m: real)
    ensures m <= a && m <= b && m <= c
    ensures m == a || m == b || m == c
  {
    if a <= b && a <= c then a else if b <= c then b else c
  }

  predicate IsByte(x: real)
  {
    0.0 <= x <= 255.0
  }

  /** The hue fraction (0..1) when the channels differ: the case of the
      largest channel, tried in the order red, green, blue. */
  function HueFraction(r: real, g: real, b: real, mx: real, d: real): real
    requires d > 0.0
  {
    if mx == r then ((g - b) / d + (if g < b then 6.0 else 0.0)) / 6.0
    else if mx == g then ((b - r) / d + 2.0) / 6.0
    else ((r - g) / d + 4.0) / 6.0
  }

  /** `rgbToHSL(r, g, b)` for channel values 0..255. */
  function RgbToHSL(r: real, g: real, b: real): (c: HSL)
    requires IsByte(r) && IsByte(g) && IsByte(b)
    ensures 0.0 <= c.l <= 100.0 && 0.0 <= c.s <= 100.0 && 0.0 <= c.h < 360.0
  {
    var r1, g1, b1 := r / 255.0, g / 255.0, b / 255.0;
    var mx := Max3(r1, g1, b1);
    var mn := Min3(r1, g1, b1);
    var l := (mx + mn) / 2.0;
    assert 0.0 <= mn && mx <= 1.0;
    if mx == mn then HSL(0.0, 0.0, l * 100.0)
    else
      var d := mx - mn;
      var s := if l > 0.5 then d / (2.0 - mx - mn) else d / (mx + mn);
      assert 0.0 <= s <= 1.0 by {
        if l > 0.5 {
          QuotientNonNegative(d, 2.0 - mx - mn);
        } else {
          QuotientNonNegative(d, mx + mn);
        }
      }
      HueFractionRange(r1, g1, b1, mx, mn);
      HSL(HueFraction(r1, g1, b1, mx, d) * 360.0, s * 100.0, l * 100.0)
  }

  /** A grey has neither hue nor saturation. */
  lemma {:induction false} GreyHasNoHue(v: real)
    requires IsByte(v)
    ensures RgbToHSL(v, v, v) == HSL(0.0, 0.0, v / 255.0 * 100.0)
  {
  }

  lemma {:induction false} QuotientBounds(a: real, d: real)
    requires d > 0.0 && -d <= a <= d
    ensures -1.0 <= a / d <= 1.0
  {
    assert a / d * d == a;
  }

  lemma {:induction false} QuotientNonNegative(a: real, d: real)
    requires d > 0.0 && 0.0 <= a <= d
    ensures 0.0 <= a / d <= 1.0
  {
    assert a / d * d == a;
  }

  /** The hue fraction lies in [0, 1). */
  lemma {:induction false} HueFractionRange(r: real, g: real, b: real, mx: real, mn: real)
    requires mx == Max3(r, g, b) && mn == Min3(r, g, b) && mx > mn
    ensures 0.0 <= HueFraction(r, g, b, mx, mx - mn) < 1.0
  {
    var d := mx - mn;
    if mx == r {
      QuotientBounds(g - b, d);
      if g < b {
        assert (g - b) / d < 0.0 by { assert (g - b) / d * d == g - b; }
      } else {
        QuotientNonNegative(g - b, d);
        if (g - b) / d == 1.0 {
          assert g - b == d;
        }
      }
    } else if mx == g {
      QuotientBounds(b - r, d);
    } else {
      QuotientBounds(r - g, d);
    }
  }

  /** The primaries sit at 0, 120 and 240 degrees, fully saturated at half
      lightness. */
  lemma {:induction false} Primaries()
    ensures RgbToHSL(255.0, 0.0, 0.0) == HSL(0.0, 100.0, 50.0)
    ensures RgbToHSL(0.0, 255.0, 0.0) == HSL(120.0, 100.0, 50.0)
    ensures RgbToHSL(0.0, 0.0, 255.0) == HSL(240.0, 100.0, 50.0)
  {
  }

  // ---------------------------------------------------------------------
  // renderShades and renderHarmony
  // ---------------------------------------------------------------------

  /** The loop `for (let l = 5; l <= 95; l += 10)` of `renderShades`: one
      shade per lightness, with the colour's hue and saturation. */
  method Shades(c: HSL) returns (shades: seq<HSL>)
    ensures |shades| == 10
    ensures forall i :: 0 <= i < 10 ==> shades[i] == HSL(c.h, c.s, (5 + 10 * i) as real)
  {
    shades := [];
    var l := 5;
    while l <= 95
      invariant l == 5 + 10 * |shades| && |shades| <= 10
      invariant forall i :: 0 <= i < |shades| ==> shades[i] == HSL(c.h, c.s, (5 + 10 * i) as real)
    {
      shades := shades + [HSL(c.h, c.s, l as real)];
      l := l + 10;
    }
  }

  /** `x.trunc()`. */
  function Trunc(x: real): int
  {
    if x >= 0.0 then x.Floor else -((-x).Floor)
  }

  /** JavaScript's `x % 360`: the remainder of truncating division, with the
      sign of `x`. */
  function Mod360(x: real): (r: real)
    ensures x >= 0.0 ==> 0.0 <= r < 360.0
  {
    x - 360.0 * (Trunc(x / 360.0) as real)
  }

  lemma {:induction false} Mod360Small(x: real)
    requires 0.0 <= x < 360.0
    ensures Mod360(x) == x
  {
    assert (x / 360.0).Floor == 0;
  }

  lemma {:induction false} Mod360Wrap(x: real)
    requires 360.0 <= x < 720.0
    ensures Mod360(x) == x - 360.0
  {
    assert (x / 360.0).Floor == 1;
  }

  /** One chip of `renderHarmony`: a hue and its title. */
  datatype Harmony = Harmony(h: real, title: string)

  /** `x` is the hue `h` turned by `k` degrees, wrapped once past 360 when
      the turn crosses it. */
  predicate TurnedBy(h: real, k: real, x: real)
  {
    x == h + k || x == h + k - 360.0
  }

  /** Turning a hue of the circle by less than a full turn wraps at most
      once. */
  lemma {:induction false} TurnHue(h: real, k: real)
    requires 0.0 <= h < 360.0 && 0.0 <= k < 360.0
    ensures TurnedBy(h, k, Mod360(h + k))
  {
    if h + k < 360.0 {
      Mod360Small(h + k);
    } else {
      Mod360Wrap(h + k);
    }
  }

  /** The five hues `renderHarmony` shows for a colour of hue `h`: its own,
      the complement, the two triadic hues and the analogous hue 30 degrees
      on, each with its title. */
  function Harmonies(h: real): (r: seq<Harmony>)
    ensures |r| == 5 && r[0].h == h
    ensures 0.0 <= h < 360.0 ==> forall i :: 0 <= i < |r| ==> 0.0 <= r[i].h < 360.0
    ensures 0.0 <= h < 360.0 ==>
      && TurnedBy(h, 180.0, r[1].h)
      && TurnedBy(h, 120.0, r[2].h)
      && TurnedBy(h, 240.0, r[3].h)
      && TurnedBy(h, 30.0, r[4].h)
    ensures r[0].title == "Original" && r[1].title == "Complementary"
    ensures r[2].title == "Triadic" && r[3].title == "Triadic"
    ensures r[4].title == "Analogous"
  {
    var hs := [ Harmony(h, "Original"),
                Harmony(Mod360(h + 180.0), "Complementary"),
                Harmony(Mod360(h + 120.0), "Triadic"),
                Harmony(Mod360(h + 240.0), "Triadic"),
                Harmony(Mod360(h + 30.0), "Analogous") ];
    if 0.0 <= h < 360.0 then
      TurnHue(h, 180.0);
      TurnHue(h, 120.0);
      TurnHue(h, 240.0);
      TurnHue(h, 30.0);
      hs
    else hs
  }

  /** The complement of the complement is the original hue. */
  lemma {:induction false} ComplementInvolutive(h: real)
    requires 0.0 <= h < 360.0
    ensures Mod360(Harmonies(h)[1].h + 180.0) == h
  {
    var c := Mod360(h + 180.0);
    if h < 180.0 {
      Mod360Small(h + 180.0);
      Mod360Wrap(c + 180.0);
    } else {
      Mod360Wrap(h + 180.0);
      Mod360Small(c + 180.0);
    }
  }

  /** The original and the two triadic hues are a third of the circle apart:
      each turn by 120 degrees reaches the next, and the third turn returns. */
  lemma {:induction false} TriadicSpacing(h: real)
    requires 0.0 <= h < 360.0
    ensures Mod360(h + 120.0) == Harmonies(h)[2].h
    ensures Mod360(Harmonies(h)[2].h + 120.0) == Harmonies(h)[3].h
    ensures Mod360(Harmonies(h)[3].h + 120.0) == h
  {
    var t1 := Mod360(h + 120.0);
    var t2 := Mod360(h + 240.0);
    if h < 120.0 {
      Mod360Small(h + 120.0);
      Mod360Small(h + 240.0);
      Mod360Small(t1 + 120.0);
      Mod360Wrap(t2 + 120.0);
    } else if h < 240.0 {
      Mod360Small(h + 120.0);
      Mod360Wrap(h + 240.0);
      Mod360Wrap(t1 + 120.0);
      Mod360Small(t2 + 120.0);
    } else {
      Mod360Wrap(h + 120.0);
      Mod360Wrap(h + 240.0);
      Mod360Small(t1 + 120.0);
      Mod360Small(t2 + 120.0);
    }
  }
}
