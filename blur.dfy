/** `filter_gaussian_blur` (filters.c): a normalised one-dimensional
    Gaussian kernel applied first along rows into a scratch image, then
    along columns from the scratch image back into the image. The kernel
    weights come from `exp`, which the model takes from `Externals.Env`. */
module Blur {
  import opened Wrappers
  import opened Colors
  import opened Images
  import opened Filters
  import opened Convolution
  import opened Externals

  // ---------------------------------------------------------------------
  // The kernel
  // ---------------------------------------------------------------------

  /** `(int)ceil(3 * sigma)`, the three-sigma rule: the least integer not
      below 3 sigma. */
  function Radius(sigma: real): (k: nat)
    requires sigma > 0.0
    ensures 3.0 * sigma <= k as real < 3.0 * sigma + 1.0
  {
    -((-3.0 * sigma).Floor)
  }

  /** The raw weights `exp(-(i * i) / (2 sigma^2))` for i from -radius to
      radius, stored at index i + radius. */
  function Weights(env: Env, sigma: real, radius: nat): (k: seq<real>)
    ensures |k| == 2 * radius + 1
  {
    seq(2 * radius + 1, i => env.gauss(sigma, i - radius))
  }

  /** Every weight divided by s: the normalisation loop. */
  function Divided(k: seq<real>, s: real): (d: seq<real>)
    requires s != 0.0
    ensures |d| == |k|
  {
    seq(|k|, i requires 0 <= i < |k| => k[i] / s)
  }

  /** Dividing every weight by s divides their sum by s. */
  lemma {:induction false} SumDivided(k: seq<real>, s: real)
    requires s != 0.0
    ensures Sum(Divided(k, s)) == Sum(k) / s
  {
    if |k| > 0 {
      var n := |k| - 1;
      assert Divided(k, s)[..n] == Divided(k[..n], s);
      SumDivided(k[..n], s);
      assert Sum(k[..n]) / s + k[n] / s == (Sum(k[..n]) + k[n]) / s;
    }
  }

  /** A non-empty sum of positive weights is positive, so the
      normalisation never divides by zero. */
  lemma {:induction false} SumPositive(k: seq<real>)
    requires |k| > 0 && forall i :: 0 <= i < |k| ==> k[i] > 0.0
    ensures Sum(k) > 0.0
  {
    var n := |k| - 1;
    if n > 0 {
      SumPositive(k[..n]);
    } else {
      assert k[..n] == [];
    }
  }

  /** The kernel `filter_gaussian_blur` builds: `2 * ceil(3 sigma) + 1`
      positive weights that sum to 1. */
  function GaussKernel(env: Env, sigma: real): (k: seq<real>)
    requires Sound(env) && sigma > 0.0
    ensures |k| == 2 * Radius(sigma) + 1
    ensures Sum(k) == 1.0
    ensures forall i :: 0 <= i < |k| ==> k[i] > 0.0
  {
    var raw := Weights(env, sigma, Radius(sigma));
    SumPositive(raw);
    SumDivided(raw, Sum(raw));
    Divided(raw, Sum(raw))
  }

  /** The two kernel loops of `filter_gaussian_blur`: fill in the raw
      weights while summing them, then divide each by the sum. */
  method BuildKernel(env: Env, sigma: real) returns (kernel: array<real>)
    requires Sound(env) && sigma > 0.0
    ensures fresh(kernel) && kernel[..] == GaussKernel(env, sigma)
  {
    var radius := Radius(sigma);
    kernel := new real[radius * 2 + 1];
    var sum := RawWeights(kernel, env, sigma, radius);
    SumPositive(kernel[..]);
    Normalise(kernel, sum);
  }

  /** The first kernel loop: weight i + radius is the Gaussian of i, and
      the weights are summed as they are stored. */
  method RawWeights(kernel: array<real>, env: Env, sigma: real, radius: nat) returns (sum: real)
    requires kernel.Length == 2 * radius + 1
    modifies kernel
    ensures kernel[..] == Weights(env, sigma, radius) && sum == Sum(kernel[..])
  {
    ghost var raw := Weights(env, sigma, radius);
    sum := 0.0;
    var i: int := -(radius as int);
    while i <= radius
      invariant -(radius as int) <= i <= radius + 1
      invariant kernel[..i + radius] == raw[..i + radius]
      invariant sum == Sum(raw[..i + radius])
    {
      var index := i + radius;
      kernel[index] := env.gauss(sigma, i);
      assert raw[..index + 1][..index] == raw[..index];
      sum := sum + kernel[index];
      i := i + 1;
    }
    assert kernel[..] == kernel[..kernel.Length];
  }

  /** The second kernel loop: every weight divided by the sum. */
  method Normalise(kernel: array<real>, sum: real)
    requires sum != 0.0
    modifies kernel
    ensures kernel[..] == Divided(old(kernel[..]), sum)
  {
    ghost var raw := kernel[..];
    var j := 0;
    while j < kernel.Length
      invariant 0 <= j <= kernel.Length
      invariant kernel[..j] == Divided(raw, sum)[..j]
      invariant kernel[j..] == raw[j..]
    {
      ghost var rest := kernel[j..];
      assert kernel[j] == rest[0];
      kernel[j] := kernel[j] / sum;
      assert kernel[j + 1..] == rest[1..];
      j := j + 1;
    }
    assert kernel[..] == kernel[..j];
  }

  // ---------------------------------------------------------------------
  // The two passes
  // ---------------------------------------------------------------------

  /** The weighted sum one pass computes for pixel (x, y): the taps run
      from x - |k|/2 along row y when `horizontal`, from y - |k|/2 down
      column x otherwise. */
  function PassSum(r: Raster, k: seq<real>, horizontal: bool, x: int, y: int): Color
    requires r.Wf()
  {
    if horizontal then LineSum(r, k, x - |k| / 2, y, true, |k|)
    else LineSum(r, k, x, y - |k| / 2, false, |k|)
  }

  /** One pass written into a fresh buffer of the same size, each pixel
      clamped by `image_set_pixel`. */
  function Pass(r: Raster, k: seq<real>, horizontal: bool): (o: Raster)
    requires r.Wf()
    ensures o.Valid() && o.width == r.width && o.height == r.height
  {
    var f := (x: nat, y: nat) => Clamp(PassSum(r, k, horizontal, x, y));
    TabulateValid(r.width, r.height, f);
    Tabulate(r.width, r.height, f)
  }

  /** Pixel (x, y) of a pass is the clamped weighted sum around it. */
  lemma PassAt(r: Raster, k: seq<real>, horizontal: bool, x: nat, y: nat)
    requires r.Wf() && x < r.width && y < r.height
    ensures y * r.width + x < |Pass(r, k, horizontal).pixels|
    ensures Pass(r, k, horizontal).pixels[y * r.width + x] == Pass(r, k, horizontal).At(x, y)
    ensures Pass(r, k, horizontal).At(x, y) == Clamp(PassSum(r, k, horizontal, x, y))
  {
    TabulateAt(r.width, r.height, (x: nat, y: nat) => Clamp(PassSum(r, k, horizontal, x, y)), x, y);
  }

  /** The blurred buffer: the vertical pass reads only the result of the
      horizontal pass. */
  function Blurred(r: Raster, k: seq<real>): (o: Raster)
    requires r.Wf()
    ensures o.Valid() && o.width == r.width && o.height == r.height
  {
    Pass(Pass(r, k, true), k, false)
  }

  /** `filter_gaussian_blur` as a value: nothing for sigma <= 0, otherwise
      both passes with the Gaussian kernel of sigma. */
  function GaussianBlurred(r: Raster, env: Env, sigma: real): (o: Option<Raster>)
    requires r.Wf() && Sound(env)
    ensures o.None? <==> sigma <= 0.0
    ensures o.Some? ==> o.value.Valid() && o.value.width == r.width && o.value.height == r.height
  {
    if sigma <= 0.0 then None else Some(Blurred(r, GaussKernel(env, sigma)))
  }

  // ---------------------------------------------------------------------
  // Properties
  // ---------------------------------------------------------------------

  /** With non-negative weights every channel of a line sum over a valid
      buffer lies between 0 and the sum of the weights used. */
  lemma {:induction false} LineSumBounds(r: Raster, k: seq<real>, x: int, y: int, horizontal: bool, n: nat)
    requires r.Valid() && n <= |k| && forall i :: 0 <= i < |k| ==> k[i] >= 0.0
    ensures var s := LineSum(r, k, x, y, horizontal, n);
            0.0 <= s.r <= Sum(k[..n]) && 0.0 <= s.g <= Sum(k[..n]) && 0.0 <= s.b <= Sum(k[..n])
  {
    if n > 0 {
      LineSumBounds(r, k, x, y, horizontal, n - 1);
      assert k[..n][..n - 1] == k[..n - 1];
      var c := Tap(r, x, y, horizontal, n - 1);
      if horizontal {
        BorderInRange(r, x + (n - 1), y);
      } else {
        BorderInRange(r, x, y + (n - 1));
      }
      var s, total := LineSum(r, k, x, y, horizontal, n - 1), Sum(k[..n - 1]);
      StepBounds(s, c, k[n - 1], total);
      assert LineSum(r, k, x, y, horizontal, n) == Plus(s, Weighted(c, k[n - 1]));
      assert Sum(k[..n]) == total + k[n - 1];
    }
  }

  /** One tap of a bounded sum: adding an in-range colour times a
      non-negative weight raises both the channels and their bound by at
      most the weight. */
  lemma StepBounds(s: Color, c: Color, w: real, bound: real)
    requires 0.0 <= s.r <= bound && 0.0 <= s.g <= bound && 0.0 <= s.b <= bound
    requires InRange(c) && w >= 0.0
    ensures var t := Plus(s, Weighted(c, w));
            0.0 <= t.r <= bound + w && 0.0 <= t.g <= bound + w && 0.0 <= t.b <= bound + w
  {
    ChannelStep(s.r, c.r, w, bound);
    ChannelStep(s.g, c.g, w, bound);
    ChannelStep(s.b, c.b, w, bound);
  }

  lemma ChannelStep(a: real, v: real, w: real, bound: real)
    requires 0.0 <= a <= bound && InUnit(v) && w >= 0.0
    ensures 0.0 <= a + v * w <= bound + w
  {
    Scale(v, w);
    assert v * w == w * v;
  }

  /** With non-negative weights summing to 1 a pass computes a weighted
      average of in-range pixels, so the clamp of `image_set_pixel` never
      changes it. */
  lemma PassExact(r: Raster, k: seq<real>, horizontal: bool, x: nat, y: nat)
    requires r.Valid() && x < r.width && y < r.height
    requires Sum(k) == 1.0 && forall i :: 0 <= i < |k| ==> k[i] >= 0.0
    ensures Pass(r, k, horizontal).At(x, y) == PassSum(r, k, horizontal, x, y)
  {
    PassAt(r, k, horizontal, x, y);
    assert k[..|k|] == k;
    if horizontal {
      LineSumBounds(r, k, x - |k| / 2, y, true, |k|);
    } else {
      LineSumBounds(r, k, x, y - |k| / 2, false, |k|);
    }
  }

  /** A pass with weights summing to 1 leaves a buffer of one in-range
      colour unchanged. */
  lemma PassFlat(w: nat, h: nat, c: Color, k: seq<real>, horizontal: bool)
    requires 0 < w && 0 < h && InRange(c) && Sum(k) == 1.0
    ensures Filled(w, h, c).Wf() && Pass(Filled(w, h, c), k, horizontal) == Filled(w, h, c)
  {
    var f := Filled(w, h, c);
    FilledFlat(w, h, c);
    assert k[..|k|] == k;
    forall x: nat, y: nat | x < w && y < h
      ensures Pass(f, k, horizontal).At(x, y) == f.At(x, y)
    {
      PassAt(f, k, horizontal, x, y);
      if horizontal {
        LineSumFlat(f, c, k, x - |k| / 2, y, true, |k|);
      } else {
        LineSumFlat(f, c, k, x, y - |k| / 2, false, |k|);
      }
      assert Weighted(c, 1.0) == c;
      FilledAt(w, h, c, x, y);
    }
    SameRaster(Pass(f, k, horizontal), f);
  }

  /** Blurring a buffer of one in-range colour leaves it unchanged. */
  lemma BlurFlat(w: nat, h: nat, c: Color, env: Env, sigma: real)
    requires 0 < w && 0 < h && InRange(c) && Sound(env) && sigma > 0.0
    ensures Filled(w, h, c).Wf() && GaussianBlurred(Filled(w, h, c), env, sigma) == Some(Filled(w, h, c))
  {
    var k := GaussKernel(env, sigma);
    PassFlat(w, h, c, k, true);
    PassFlat(w, h, c, k, false);
  }

  /** Every blurred pixel is the exact vertical weighted average of exact
      horizontal weighted averages: no clamping happens in either pass. */
  lemma BlurExact(r: Raster, env: Env, sigma: real, x: nat, y: nat)
    requires r.Valid() && Sound(env) && sigma > 0.0 && x < r.width && y < r.height
    ensures var k := GaussKernel(env, sigma);
            GaussianBlurred(r, env, sigma).value.At(x, y) == PassSum(Pass(r, k, true), k, false, x, y)
  {
    var k := GaussKernel(env, sigma);
    PassExact(Pass(r, k, true), k, false, x, y);
  }

  // ---------------------------------------------------------------------
  // filter_gaussian_blur
  // ---------------------------------------------------------------------

  /** `filter_gaussian_blur`: fails with the image unchanged for sigma <= 0;
      otherwise blurs the rows into a fresh scratch image, then the columns
      of the scratch image back into the image. */
  method GaussianBlur(img: Image, env: Env, sigma: real) returns (ok: bool)
    requires img.Valid() && Sound(env)
    modifies img.data
    ensures img.Valid()
    ensures ok <==> sigma > 0.0
    ensures ok ==> GaussianBlurred(old(img.Snapshot()), env, sigma) == Some(img.Snapshot())
    ensures !ok ==> img.Snapshot() == old(img.Snapshot())
  {
    if sigma <= 0.0 {
      return false;
    }
    var kernel := BuildKernel(env, sigma);
    var k := kernel[..];
    var temp := NewImage(img.width, img.height);
    PassRows(img, temp, k, true);
    PassRows(temp, img, k, false);
    return true;
  }

  /** The y loop of one pass, reading `src` and writing `dst`. */
  method PassRows(src: Image, dst: Image, k: seq<real>, horizontal: bool)
    requires src.Snapshot().Wf() && dst.Snapshot().Wf() && dst.data != src.data
    requires dst.width == src.width && dst.height == src.height
    modifies dst.data
    ensures dst.Valid() && dst.Snapshot() == Pass(src.Snapshot(), k, horizontal)
  {
    ghost var t := Pass(src.Snapshot(), k, horizontal).pixels;
    var y := 0;
    while y < src.height
      invariant 0 <= y <= src.height && y * src.width <= |t|
      invariant dst.Snapshot().Wf()
      invariant forall j :: 0 <= j < y * src.width ==> dst.data[j] == t[j]
    {
      MulMono(y + 1, src.height, src.width);
      assert (y + 1) * src.width == y * src.width + src.width;
      PassRow(src, dst, k, horizontal, y, t);
      y := y + 1;
    }
    assert y * src.width == dst.width * dst.height;
    assert dst.data[..] == t;
  }

  /** The x loop of one pass for row y. */
  method PassRow(src: Image, dst: Image, k: seq<real>, horizontal: bool, y: nat, ghost t: seq<Color>)
    requires src.Snapshot().Wf() && dst.Snapshot().Wf() && dst.data != src.data
    requires dst.width == src.width && dst.height == src.height
    requires y < src.height && t == Pass(src.Snapshot(), k, horizontal).pixels
    requires y * src.width + src.width <= |t| && forall j :: 0 <= j < y * src.width ==> dst.data[j] == t[j]
    modifies dst.data
    ensures dst.Snapshot().Wf()
    ensures forall j :: 0 <= j < y * src.width + src.width ==> dst.data[j] == t[j]
  {
    var x := 0;
    while x < src.width
      invariant 0 <= x <= src.width && dst.Snapshot().Wf()
      invariant forall j :: 0 <= j < y * src.width + x ==> dst.data[j] == t[j]
    {
      PassStep(src, dst, k, horizontal, x, y, t);
      x := x + 1;
    }
  }

  /** One pass of the x loop: the tap loop for pixel (x, y), then the
      store into `dst`. */
  method PassStep(src: Image, dst: Image, k: seq<real>, horizontal: bool, x: nat, y: nat, ghost t: seq<Color>)
    requires src.Snapshot().Wf() && dst.Snapshot().Wf() && dst.data != src.data
    requires dst.width == src.width && dst.height == src.height
    requires x < src.width && y < src.height && t == Pass(src.Snapshot(), k, horizontal).pixels
    requires y * src.width + x < |t| && forall j :: 0 <= j < y * src.width + x ==> dst.data[j] == t[j]
    modifies dst.data
    ensures dst.Snapshot().Wf()
    ensures forall j :: 0 <= j < y * src.width + x + 1 ==> dst.data[j] == t[j]
  {
    var radius := |k| / 2;
    var sum;
    if horizontal {
      sum := LineAccumulate(src, k, x - radius, y, true, Black);
    } else {
      sum := LineAccumulate(src, k, x, y - radius, false, Black);
    }
    PassAt(src.Snapshot(), k, horizontal, x, y);
    dst.SetNext(x, y, sum, t);
  }
}
