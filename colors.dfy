/** Colour values and their 8-bit encoding (image.h). Channels are C floats
    in the source; here they are `real`, so every equation below holds in
    exact arithmetic only. */
module Colors {

  /** An unsigned 8-bit value. */
  type Byte = b: int | 0 <= b < 256

  /** `Color`: red, green and blue channels, nominally in [0, 1]. */
  datatype Color = Color(r: real, g: real, b: real)

  /** `BMPixel`: the three bytes of a 24-bit pixel, stored blue first. */
  datatype BMPixel = BMPixel(b: Byte, g: Byte, r: Byte)

  /** The all-zero colour, what a freshly zeroed pixel buffer holds. */
  const Black := Color(0.0, 0.0, 0.0)
  const White := Color(1.0, 1.0, 1.0)

  predicate InUnit(v: real)
  {
    0.0 <= v <= 1.0
  }

  /** Every channel lies in [0, 1]. */
  predicate InRange(c: Color)
  {
    InUnit(c.r) && InUnit(c.g) && InUnit(c.b)
  }

  /** One channel of `color_clamp`: first raised to 0, then lowered to 1. */
  function ClampChannel(v: real): (r: real)
    ensures InUnit(r)
    ensures InUnit(v) ==> r == v
    ensures v < 0.0 ==> r == 0.0
    ensures v > 1.0 ==> r == 1.0
  {
    var lo := if v < 0.0 then 0.0 else v;
    if lo > 1.0 then 1.0 else lo
  }

  /** `color_clamp`: each channel independently forced into [0, 1]; a
      channel already in range is left alone. */
  function Clamp(c: Color): (r: Color)
    ensures InRange(r)
    ensures InUnit(c.r) ==> r.r == c.r
    ensures InUnit(c.g) ==> r.g == c.g
    ensures InUnit(c.b) ==> r.b == c.b
    ensures InRange(c) <==> r == c
  {
    Color(ClampChannel(c.r), ClampChannel(c.g), ClampChannel(c.b))
  }

  /** Clamping a clamped colour changes nothing. */
  lemma ClampIdempotent(c: Color)
    ensures Clamp(Clamp(c)) == Clamp(c)
  {
  }

  /** A channel in [0, 1] scaled to 0..255 and truncated toward zero (the
      `(uint8_t)` cast of a non-negative float). */
  function Quantize(v: real): (k: Byte)
    requires InUnit(v)
    ensures k as real <= v * 255.0 < k as real + 1.0
  {
    var f := (v * 255.0).Floor;
    assert 0 <= f <= 255;
    f
  }

  /** `color_to_bmpixel`: clamp, then truncate `c * 255` per channel. */
  function ToBMPixel(c: Color): (p: BMPixel)
    ensures var k := Clamp(c);
            p.r as real <= k.r * 255.0 < p.r as real + 1.0
            && p.g as real <= k.g * 255.0 < p.g as real + 1.0
            && p.b as real <= k.b * 255.0 < p.b as real + 1.0
  {
    var k := Clamp(c);
    BMPixel(Quantize(k.b), Quantize(k.g), Quantize(k.r))
  }

  /** One channel of `bmpixel_to_color`. */
  function Dequantize(k: Byte): (v: real)
    ensures InUnit(v)
    ensures v * 255.0 == k as real
  {
    k as real / 255.0
  }

  /** `bmpixel_to_color`: channel `k / 255` for byte `k`. */
  function FromBMPixel(p: BMPixel): (c: Color)
    ensures InRange(c)
    ensures c.r * 255.0 == p.r as real && c.g * 255.0 == p.g as real && c.b * 255.0 == p.b as real
  {
    Color(Dequantize(p.r), Dequantize(p.g), Dequantize(p.b))
  }

  /** A colour whose channels are all of the form `k / 255`. */
  ghost predicate Quantized(c: Color)
  {
    exists p: BMPixel :: FromBMPixel(p) == c
  }

  /** Decoding a byte triple and encoding it again gives the same bytes. */
  lemma PixelRoundTrip(p: BMPixel)
    ensures ToBMPixel(FromBMPixel(p)) == p
  {
    var c := FromBMPixel(p);
    assert Clamp(c) == c;
    QuantizeDequantize(p.r);
    QuantizeDequantize(p.g);
    QuantizeDequantize(p.b);
  }

  lemma QuantizeDequantize(k: Byte)
    ensures Quantize(Dequantize(k)) == k
  {
    var v := Dequantize(k);
    assert v * 255.0 == k as real;
  }

  /** Encoding a colour of the form `k / 255` and decoding it again gives the
      same colour. */
  lemma QuantizedRoundTrip(c: Color)
    requires Quantized(c)
    ensures FromBMPixel(ToBMPixel(c)) == c
  {
    var p: BMPixel :| FromBMPixel(p) == c;
    PixelRoundTrip(p);
  }

  /** Channel-wise sum, as in `sum_color.r += ...`. */
  function Plus(a: Color, b: Color): (c: Color)
  {
    Color(a.r + b.r, a.g + b.g, a.b + b.b)
  }

  /** Every channel multiplied by a weight. */
  function Weighted(c: Color, w: real): Color
  {
    Color(c.r * w, c.g * w, c.b * w)
  }

  /** Weighting distributes over a sum of weights. */
  lemma WeightedPlus(c: Color, a: real, b: real)
    ensures Plus(Weighted(c, a), Weighted(c, b)) == Weighted(c, a + b)
  {
    assert c.r * a + c.r * b == c.r * (a + b);
    assert c.g * a + c.g * b == c.g * (a + b);
    assert c.b * a + c.b * b == c.b * (a + b);
  }

  /** `color_lerp`: per-channel `a + (b - a) * t`; t is not clamped. */
  function Lerp(a: Color, b: Color, t: real): (c: Color)
  {
    Color(a.r + (b.r - a.r) * t, a.g + (b.g - a.g) * t, a.b + (b.b - a.b) * t)
  }

  /** The interpolation reaches its end points at t = 0 and t = 1, and stays
      in range for t in [0, 1] when both end points are in range. */
  lemma LerpEndpoints(a: Color, b: Color, t: real)
    ensures Lerp(a, b, 0.0) == a && Lerp(a, b, 1.0) == b
    ensures InRange(a) && InRange(b) && InUnit(t) ==> InRange(Lerp(a, b, t))
  {
    if InRange(a) && InRange(b) && InUnit(t) {
      ChannelBetween(a.r, b.r, t);
      ChannelBetween(a.g, b.g, t);
      ChannelBetween(a.b, b.b, t);
    }
  }

  lemma ChannelBetween(x: real, y: real, t: real)
    requires InUnit(x) && InUnit(y) && InUnit(t)
    ensures InUnit(x + (y - x) * t)
  {
    if x <= y {
      ChannelRising(x, y, t);
    } else {
      ChannelFalling(x, y, t);
    }
  }

  lemma ChannelRising(x: real, y: real, t: real)
    requires InUnit(x) && InUnit(y) && InUnit(t) && x <= y
    ensures InUnit(x + (y - x) * t)
  {
    Scale(t, y - x);
    var p := (y - x) * t;
    assert 0.0 <= p <= y - x;
    assert x + (y - x) * t == x + p;
  }

  lemma ChannelFalling(x: real, y: real, t: real)
    requires InUnit(x) && InUnit(y) && InUnit(t) && y < x
    ensures InUnit(x + (y - x) * t)
  {
    Scale(t, x - y);
    var p := (x - y) * t;
    assert 0.0 <= p <= x - y;
    assert (y - x) * t == -p;
    assert x + (y - x) * t == x - p;
  }

  lemma Scale(v: real, s: real)
    requires InUnit(v) && s >= 0.0
    ensures 0.0 <= s * v <= s
  {
    assert s * v <= s * 1.0;
  }
}
