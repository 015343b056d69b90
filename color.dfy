/**
 * The colour code of a pixel: hue carries the phase and value the
 * magnitude.  `HsvToRgb` is the encoder's `hsv_to_rgb`, `RgbToHsv` the
 * decoder's `rgb_to_hsv`.
 */
module Color {
  import opened Numerics

  datatype Rgb = Rgb(r: byte, g: byte, b: byte)

  datatype Hsv = Hsv(h: real, s: real, v: real)

  /** An RGB8 image, `pixels[y][x]`, row 0 at the top. */
  datatype Image = Image(width: nat, height: nat, pixels: seq<seq<Rgb>>)

  predicate WellFormed(img: Image) {
    |img.pixels| == img.height && forall y | 0 <= y < img.height :: |img.pixels[y]| == img.width
  }

  /** The image row that holds frequency bin `bin`: high frequencies at the top. */
  function FlipRow(height: nat, bin: nat): (y: nat)
    requires bin < height
    ensures y < height
  {
    height - 1 - bin
  }

  /** The vertical flip is its own inverse, so it is a bijection on the rows. */
  lemma {:induction false} FlipRowInvolution(height: nat, bin: nat)
    requires bin < height
    ensures FlipRow(height, FlipRow(height, bin)) == bin
  {
  }

  function MaxChannel(p: Rgb): (m: byte)
    ensures m == p.r || m == p.g || m == p.b
    ensures p.r <= m && p.g <= m && p.b <= m
  {
    if p.r >= p.g && p.r >= p.b then p.r else if p.g >= p.b then p.g else p.b
  }

  function MinChannel(p: Rgb): (m: byte)
    ensures m == p.r || m == p.g || m == p.b
    ensures m <= p.r && m <= p.g && m <= p.b
  {
    if p.r <= p.g && p.r <= p.b then p.r else if p.g <= p.b then p.g else p.b
  }

  /** The chroma `c`, the secondary component `x` and the offset `m` of the six-sector conversion. */
  function Chroma(v: real, s: real): real { v * s }

  function Secondary(h: real, v: real, s: real): real {
    Chroma(v, s) * (1.0 - Abs(FRem(h / 60.0, 2.0) - 1.0))
  }

  /** The unscaled red, green and blue components of a hue sector, before `m` is added. */
  function SectorComponents(hp: real, c: real, x: real): (real, real, real) {
    if hp < 1.0 then (c, x, 0.0)
    else if hp < 2.0 then (x, c, 0.0)
    else if hp < 3.0 then (0.0, c, x)
    else if hp < 4.0 then (0.0, x, c)
    else if hp < 5.0 then (x, 0.0, c)
    else (c, 0.0, x)
  }

  /** `hsv_to_rgb`: the six-sector conversion, each channel scaled by 255 and cast to `u8`. */
  function HsvToRgb(h: real, s: real, v: real): (p: Rgb) {
    var c := Chroma(v, s);
    var x := Secondary(h, v, s);
    var m := v - c;
    var (r, g, b) := SectorComponents(h / 60.0, c, x);
    Rgb(AsU8((r + m) * 255.0), AsU8((g + m) * 255.0), AsU8((b + m) * 255.0))
  }

  /** The hue of `rgb_to_hsv` before a negative value is moved up by 360. */
  function RawHue(r: real, g: real, b: real, max: real, delta: real): real
    requires delta != 0.0
  {
    if max == r then 60.0 * FRem((g - b) / delta, 6.0)
    else if max == g then 60.0 * ((b - r) / delta + 2.0)
    else 60.0 * ((r - g) / delta + 4.0)
  }

  /** The conversion of `rgb_to_hsv` once the channels are scaled to `[0, 1]`. */
  function UnitToHsv(r: real, g: real, b: real): (q: Hsv) {
    var max := Max(Max(r, g), b);
    var min := Min(Min(r, g), b);
    var delta := max - min;
    var h0 := if delta == 0.0 then 0.0 else RawHue(r, g, b, max, delta);
    var h := if h0 < 0.0 then h0 + 360.0 else h0;
    var s := if max == 0.0 then 0.0 else delta / max;
    Hsv(h, s, max)
  }

  /** `rgb_to_hsv`: channels divided by 255, hue from the sector of the largest channel. */
  function RgbToHsv(p: Rgb): (q: Hsv) {
    UnitToHsv(p.r as real / 255.0, p.g as real / 255.0, p.b as real / 255.0)
  }

  /**
   * At full saturation and a value in `[0, 1]` one channel is 0 and the
   * largest is the value scaled by 255 and truncated.
   */
  lemma {:induction false} FullSaturation(h: real, v: real)
    requires 0.0 <= v <= 1.0
    ensures MinChannel(HsvToRgb(h, 1.0, v)) == 0
    ensures MaxChannel(HsvToRgb(h, 1.0, v)) == Trunc(v * 255.0)
  {
    var c := Chroma(v, 1.0);
    var x := Secondary(h, v, 1.0);
    var f := 1.0 - Abs(FRem(h / 60.0, 2.0) - 1.0);
    assert c == v;
    assert x == c * f;
    MulMonotone(f, 1.0, c);
    assert x <= c;
    MulMonotone(v, 1.0, 255.0);
    assert 0.0 <= v * 255.0 <= 255.0;
    var top := AsU8(c * 255.0);
    assert top == Trunc(v * 255.0);
    MulMonotone(x, c, 255.0);
    var p := HsvToRgb(h, 1.0, v);
    var comps := SectorComponents(h / 60.0, c, x);
    assert p == Rgb(AsU8(comps.0 * 255.0), AsU8(comps.1 * 255.0), AsU8(comps.2 * 255.0));
    assert AsU8(x * 255.0) <= top;
  }

  lemma {:induction false} QuotientInUnit(x: real, d: real)
    requires 0.0 < d && -d <= x <= d
    ensures -1.0 <= x / d <= 1.0
  {
    DivMono(x, d, d);
    DivMono(-d, x, d);
  }

  /** Each sector puts the raw hue in `[-60, 300]`, below 0 only in the red sector. */
  lemma {:induction false} RawHueRange(r: real, g: real, b: real)
    requires 0.0 <= r <= 1.0 && 0.0 <= g <= 1.0 && 0.0 <= b <= 1.0
    requires Max(Max(r, g), b) != Min(Min(r, g), b)
    ensures var max := Max(Max(r, g), b);
            var h := RawHue(r, g, b, max, max - Min(Min(r, g), b));
            -60.0 <= h <= 300.0
  {
    var max := Max(Max(r, g), b);
    var delta := max - Min(Min(r, g), b);
    if max == r {
      QuotientInUnit(g - b, delta);
      FRemSmall((g - b) / delta, 6.0);
    } else if max == g {
      QuotientInUnit(b - r, delta);
    } else {
      QuotientInUnit(r - g, delta);
    }
  }

  /** Saturation `delta / max` of non-negative channels lies in `[0, 1]`. */
  lemma {:induction false} SaturationRange(max: real, min: real)
    requires 0.0 <= min <= max && max != 0.0
    ensures 0.0 <= (max - min) / max <= 1.0
  {
    DivMono(max - min, max, max);
    DivMono(0.0, max - min, max);
  }

  /** For channels in `[0, 1]` the hue lies in `[0, 360)`, and saturation and value in `[0, 1]`. */
  lemma {:induction false} UnitToHsvRange(r: real, g: real, b: real)
    requires 0.0 <= r <= 1.0 && 0.0 <= g <= 1.0 && 0.0 <= b <= 1.0
    ensures var q := UnitToHsv(r, g, b);
            && 0.0 <= q.h < 360.0
            && 0.0 <= q.s <= 1.0
            && q.v == Max(Max(r, g), b)
  {
    var max := Max(Max(r, g), b);
    var min := Min(Min(r, g), b);
    if max != min {
      RawHueRange(r, g, b);
    }
    if max != 0.0 {
      SaturationRange(max, min);
    }
  }

  /** The decoded value is the largest channel over 255. */
  lemma {:induction false} ScaledMax(p: Rgb)
    ensures Max(Max(p.r as real / 255.0, p.g as real / 255.0), p.b as real / 255.0) == MaxChannel(p) as real / 255.0
    ensures Min(Min(p.r as real / 255.0, p.g as real / 255.0), p.b as real / 255.0) == MinChannel(p) as real / 255.0
  {
  }

  /** The hue `rgb_to_hsv` decodes lies in `[0, 360)`, saturation in `[0, 1]`, and value is the largest channel over 255. */
  lemma {:induction false} RgbToHsvRange(p: Rgb)
    ensures var q := RgbToHsv(p);
            && 0.0 <= q.h < 360.0
            && 0.0 <= q.s <= 1.0
            && q.v == MaxChannel(p) as real / 255.0
            && 0.0 <= q.v <= 1.0
  {
    ScaledMax(p);
    UnitToHsvRange(p.r as real / 255.0, p.g as real / 255.0, p.b as real / 255.0);
  }

  /**
   * Encoding a value at full saturation and decoding it returns the value
   * quantised down to a multiple of 1/255: never more, and less by under 1/255.
   */
  lemma {:induction false} ValueRoundTrip(h: real, v: real)
    requires 0.0 <= v <= 1.0
    ensures var w := RgbToHsv(HsvToRgb(h, 1.0, v)).v;
            && w == Trunc(v * 255.0) as real / 255.0
            && v - 1.0 / 255.0 < w <= v
  {
    FullSaturation(h, v);
    RgbToHsvRange(HsvToRgb(h, 1.0, v));
    var t := Trunc(v * 255.0) as real;
    assert t <= v * 255.0 < t + 1.0;
    DivMono(t, v * 255.0, 255.0);
    assert (v * 255.0) / 255.0 == v;
    assert (t + 1.0) / 255.0 == t / 255.0 + 1.0 / 255.0;
    DivStrict(v * 255.0, t + 1.0, 255.0);
  }

  /** Channels whose smallest is 0 and largest positive have saturation 1. */
  lemma {:induction false} UnitSaturation(r: real, g: real, b: real)
    requires Min(Min(r, g), b) == 0.0 && Max(Max(r, g), b) > 0.0
    ensures UnitToHsv(r, g, b).s == 1.0
  {
    DivSelf(Max(Max(r, g), b));
  }

  lemma {:induction false} DivSelf(c: real)
    requires c != 0.0
    ensures c / c == 1.0
  {
  }

  /** A pixel the encoder writes with a non-zero value decodes to full saturation. */
  lemma {:induction false} SaturationRoundTrip(h: real, v: real)
    requires 0.0 <= v <= 1.0 && Trunc(v * 255.0) > 0
    ensures RgbToHsv(HsvToRgb(h, 1.0, v)).s == 1.0
  {
    var p := HsvToRgb(h, 1.0, v);
    FullSaturation(h, v);
    ScaledMax(p);
    UnitSaturation(p.r as real / 255.0, p.g as real / 255.0, p.b as real / 255.0);
  }

  /** Full value at hue 0 is pure red. */
  lemma {:induction false} RedEncodes()
    ensures HsvToRgb(0.0, 1.0, 1.0) == Rgb(255, 0, 0)
  {
    assert FRem(0.0, 2.0) == 0.0 by {
      assert Trunc(0.0) == 0;
    }
    assert Secondary(0.0, 1.0, 1.0) == 0.0;
  }

  /** Pure red decodes to hue 0 at full saturation and value. */
  lemma {:induction false} RedDecodes()
    ensures RgbToHsv(Rgb(255, 0, 0)) == Hsv(0.0, 1.0, 1.0)
  {
    assert RawHue(1.0, 0.0, 0.0, 1.0, 1.0) == 0.0 by {
      assert FRem(0.0, 6.0) == 0.0 by {
        assert Trunc(0.0) == 0;
      }
    }
    assert UnitToHsv(1.0, 0.0, 0.0) == Hsv(0.0, 1.0, 1.0);
  }

  /** Zero value is black at every hue, and black decodes to hue 0, saturation 0, value 0. */
  lemma {:induction false} BlackExample(h: real)
    ensures HsvToRgb(h, 1.0, 0.0) == Rgb(0, 0, 0)
    ensures RgbToHsv(Rgb(0, 0, 0)) == Hsv(0.0, 0.0, 0.0)
  {
    assert Secondary(h, 0.0, 1.0) == 0.0;
  }
}
