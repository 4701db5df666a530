/** `apply_convolution` and the two filters built on it, sharpening and
    edge detection (filters.c). The weighted line sum defined here is also
    the inner loop of the Gaussian blur. */
module Convolution {
  import opened Wrappers
  import opened Colors
  import opened Images
  import opened Filters

  // ---------------------------------------------------------------------
  // Weighted sums along a line of border pixels
  // ---------------------------------------------------------------------

  /** The sum of a sequence of weights, added left to right. */
  function Sum(w: seq<real>): real
  {
    if |w| == 0 then 0.0 else Sum(w[..|w| - 1]) + w[|w| - 1]
  }

  /** Tap i of a line starting at (x, y): the border pixel i steps to the
      right when `horizontal`, i steps down otherwise. */
  function Tap(r: Raster, x: int, y: int, horizontal: bool, i: nat): Color
    requires r.Wf()
  {
    if horizontal then Border(r, x + i, y) else Border(r, x, y + i)
  }

  /** `sum_color += pixel * weight` over the first n taps, starting from
      black. */
  function LineSum(r: Raster, w: seq<real>, x: int, y: int, horizontal: bool, n: nat): Color
    requires r.Wf() && n <= |w|
  {
    if n == 0 then Black
    else Plus(LineSum(r, w, x, y, horizontal, n - 1), Weighted(Tap(r, x, y, horizontal, n - 1), w[n - 1]))
  }

  /** On a flat buffer every tap is the same colour, so a line sum is the
      colour scaled by the sum of the weights used. */
  lemma {:induction false} LineSumFlat(r: Raster, c: Color, k: seq<real>, x: int, y: int, horizontal: bool, n: nat)
    requires Flat(r, c) && n <= |k|
    ensures LineSum(r, k, x, y, horizontal, n) == Weighted(c, Sum(k[..n]))
  {
    if n > 0 {
      LineSumFlat(r, c, k, x, y, horizontal, n - 1);
      assert k[..n][..n - 1] == k[..n - 1];
      WeightedPlus(c, Sum(k[..n - 1]), k[n - 1]);
    }
  }

  /** The tap loop: adds the weighted taps of a line, one per iteration, to
      a running sum. */
  method LineAccumulate(img: Image, w: seq<real>, x: int, y: int, horizontal: bool, acc: Color) returns (sum: Color)
    requires img.Snapshot().Wf()
    ensures sum == Plus(acc, LineSum(img.Snapshot(), w, x, y, horizontal, |w|))
  {
    sum := acc;
    var i := 0;
    while i < |w|
      invariant 0 <= i <= |w|
      invariant sum == Plus(acc, LineSum(img.Snapshot(), w, x, y, horizontal, i))
    {
      var pixel := if horizontal then Border(img.Snapshot(), x + i, y) else Border(img.Snapshot(), x, y + i);
      sum := Plus(sum, Weighted(pixel, w[i]));
      i := i + 1;
    }
  }

  // ---------------------------------------------------------------------
  // apply_convolution
  // ---------------------------------------------------------------------

  /** The weights of kernel row `ky`, i.e. `kernel[ky * size + kx]` for kx
      in 0 .. size - 1. */
  function KernelRow(k: seq<real>, size: nat, ky: nat): (row: seq<real>)
    requires |k| == size * size && ky < size
    ensures |row| == size
  {
    MulMono(ky + 1, size, size);
    k[ky * size .. ky * size + size]
  }

  /** The sum of the weights of the first m kernel rows. */
  function KernelTotal(k: seq<real>, size: nat, m: nat): real
    requires |k| == size * size && m <= size
  {
    if m == 0 then 0.0 else KernelTotal(k, size, m - 1) + Sum(KernelRow(k, size, m - 1))
  }

  /** The kernel-weighted sum of the first m kernel rows around (x, y): row
      ky covers the border pixels `(x - size/2 + kx, y - size/2 + ky)`. */
  function KernelSum(r: Raster, k: seq<real>, size: nat, x: int, y: int, m: nat): Color
    requires r.Wf() && |k| == size * size && m <= size
  {
    if m == 0 then Black
    else
      Plus(KernelSum(r, k, size, x, y, m - 1),
           LineSum(r, KernelRow(k, size, m - 1), x - size / 2, y + (m - 1) - size / 2, true, size))
  }

  /** One output pixel: the clamp of the whole kernel-weighted sum (what
      `image_set_pixel` stores). */
  function ConvPixel(r: Raster, k: seq<real>, size: nat, x: int, y: int): (c: Color)
    requires r.Wf() && |k| == size * size
    ensures InRange(c)
  {
    Clamp(KernelSum(r, k, size, x, y, size))
  }

  /** The image `apply_convolution` returns: same dimensions, every pixel
      the clamped kernel-weighted sum around it. */
  function Convolved(r: Raster, k: seq<real>, size: nat): (o: Raster)
    requires r.Wf() && |k| == size * size
    ensures o.Valid() && o.width == r.width && o.height == r.height
  {
    Raster(r.width, r.height, seq(r.width * r.height, j requires 0 <= j < r.width * r.height =>
      Coords(j, r.width, r.height);
      ConvPixel(r, k, size, j % r.width, j / r.width)))
  }

  /** `apply_convolution` as a value: nothing for an even kernel size. */
  function Convolve(r: Raster, k: seq<real>, size: nat): (o: Option<Raster>)
    requires r.Wf() && |k| == size * size
    ensures o.None? <==> size % 2 == 0
    ensures o.Some? ==> o.value.Valid() && o.value.width == r.width && o.value.height == r.height
  {
    if size % 2 == 0 then None else Some(Convolved(r, k, size))
  }

  /** Pixel (x, y) of the convolved buffer is the convolution at (x, y). */
  lemma ConvolvedAt(r: Raster, k: seq<real>, size: nat, x: nat, y: nat)
    requires r.Wf() && |k| == size * size && x < r.width && y < r.height
    ensures Convolved(r, k, size).At(x, y) == ConvPixel(r, k, size, x, y)
  {
    var j := RasterIndex(Convolved(r, k, size), x, y);
    IndexOf(x, y, r.width, r.height);
  }

  /** On a flat buffer the kernel sum is the colour scaled by the sum of
      all kernel weights. */
  lemma {:induction false} KernelSumFlat(r: Raster, c: Color, k: seq<real>, size: nat, x: int, y: int, m: nat)
    requires Flat(r, c) && |k| == size * size && m <= size
    ensures KernelSum(r, k, size, x, y, m) == Weighted(c, KernelTotal(k, size, m))
  {
    if m > 0 {
      KernelSumFlat(r, c, k, size, x, y, m - 1);
      var row := KernelRow(k, size, m - 1);
      LineSumFlat(r, c, row, x - size / 2, y + (m - 1) - size / 2, true, size);
      assert row[..size] == row;
      WeightedPlus(c, KernelTotal(k, size, m - 1), Sum(row));
    }
  }

  /** Convolving a buffer of one in-range colour with a kernel whose weights
      sum to 1 leaves it unchanged. */
  lemma ConvolveFlat(w: nat, h: nat, c: Color, k: seq<real>, size: nat)
    requires 0 < w && 0 < h && |k| == size * size && InRange(c)
    requires KernelTotal(k, size, size) == 1.0
    ensures Filled(w, h, c).Wf() && Convolved(Filled(w, h, c), k, size) == Filled(w, h, c)
  {
    var f := Filled(w, h, c);
    FilledFlat(w, h, c);
    forall x: nat, y: nat | x < w && y < h
      ensures Convolved(f, k, size).At(x, y) == f.At(x, y)
    {
      ConvolvedAt(f, k, size, x, y);
      KernelSumFlat(f, c, k, size, x, y, size);
      FilledAt(w, h, c, x, y);
    }
    SameRaster(Convolved(f, k, size), f);
  }

  /** `apply_convolution`: no image for an even kernel size, otherwise a
      fresh image holding the convolution. */
  method ApplyConvolution(img: Image, k: seq<real>, size: nat) returns (result: Image?)
    requires img.Valid() && |k| == size * size
    ensures result == null <==> size % 2 == 0
    ensures result != null ==> fresh(result) && fresh(result.data) && result.Valid()
    ensures result != null ==> Convolve(img.Snapshot(), k, size) == Some(result.Snapshot())
  {
    if size % 2 == 0 {
      return null;
    }
    result := NewImage(img.width, img.height);
    ConvRows(img, result, k, size);
    assert result.data[..] == Convolved(img.Snapshot(), k, size).pixels;
  }

  /** The y loop of `apply_convolution`. */
  method ConvRows(src: Image, dst: Image, k: seq<real>, size: nat)
    requires src.Snapshot().Wf() && dst.Snapshot().Wf() && dst.data != src.data
    requires dst.width == src.width && dst.height == src.height && |k| == size * size && size % 2 == 1
    modifies dst.data
    ensures dst.Snapshot().Wf()
    ensures forall j :: 0 <= j < dst.width * dst.height ==> dst.data[j] == Convolved(src.Snapshot(), k, size).pixels[j]
  {
    ghost var t := Convolved(src.Snapshot(), k, size).pixels;
    var y := 0;
    while y < src.height
      invariant 0 <= y <= src.height && y * src.width <= |t|
      invariant dst.Snapshot().Wf()
      invariant forall j :: 0 <= j < y * src.width ==> dst.data[j] == t[j]
    {
      MulMono(y + 1, src.height, src.width);
      assert (y + 1) * src.width == y * src.width + src.width;
      ConvRow(src, dst, k, size, y, t);
      y := y + 1;
    }
    assert y * src.width == dst.width * dst.height;
  }

  /** The x loop of `apply_convolution` for row y. */
  method ConvRow(src: Image, dst: Image, k: seq<real>, size: nat, y: nat, ghost t: seq<Color>)
    requires src.Snapshot().Wf() && dst.Snapshot().Wf() && dst.data != src.data
    requires dst.width == src.width && dst.height == src.height && |k| == size * size && size % 2 == 1
    requires y < src.height && t == Convolved(src.Snapshot(), k, size).pixels
    requires y * src.width + src.width <= |t| && forall j :: 0 <= j < y * src.width ==> dst.data[j] == t[j]
    modifies dst.data
    ensures dst.Snapshot().Wf()
    ensures forall j :: 0 <= j < y * src.width + src.width ==> dst.data[j] == t[j]
  {
    var x := 0;
    while x < src.width
      invariant 0 <= x <= src.width && dst.Snapshot().Wf()
      invariant forall j :: 0 <= j < y * src.width + x ==> dst.data[j] == t[j]
    {
      ConvStep(src, dst, k, size, x, y, t);
      x := x + 1;
    }
  }

  /** One pass of the x loop: pixel (x, y) of the result is written. */
  method ConvStep(src: Image, dst: Image, k: seq<real>, size: nat, x: nat, y: nat, ghost t: seq<Color>)
    requires src.Snapshot().Wf() && dst.Snapshot().Wf() && dst.data != src.data
    requires dst.width == src.width && dst.height == src.height && |k| == size * size && size % 2 == 1
    requires x < src.width && y < src.height && t == Convolved(src.Snapshot(), k, size).pixels
    requires y * src.width + x < |t| && forall j :: 0 <= j < y * src.width + x ==> dst.data[j] == t[j]
    modifies dst.data
    ensures dst.Snapshot().Wf()
    ensures forall j :: 0 <= j < y * src.width + x + 1 ==> dst.data[j] == t[j]
  {
    var sum := ConvAt(src, k, size, x, y);
    ConvolvedAt(src.Snapshot(), k, size, x, y);
    var _ := RasterIndex(src.Snapshot(), x, y);
    dst.SetNext(x, y, sum, t);
  }

  /** The kernel loops of `apply_convolution` for pixel (x, y): kernel row
      `ky + half` is weighed against image row `y + ky`, for ky from -half
      to half. */
  method ConvAt(src: Image, k: seq<real>, size: nat, x: int, y: int) returns (sum: Color)
    requires src.Snapshot().Wf() && |k| == size * size && size % 2 == 1
    ensures sum == KernelSum(src.Snapshot(), k, size, x, y, size)
  {
    var half := size / 2;
    sum := Black;
    var ky := -half;
    while ky <= half
      invariant -half <= ky <= half + 1
      invariant sum == KernelSum(src.Snapshot(), k, size, x, y, ky + half)
    {
      sum := LineAccumulate(src, KernelRow(k, size, ky + half), x - half, y + ky, true, sum);
      ky := ky + 1;
    }
  }

  // ---------------------------------------------------------------------
  // Sharpening and edge detection
  // ---------------------------------------------------------------------

  /** The sharpening kernel of `filter_sharpen`. */
  const SharpenKernel: seq<real> := [0.0, -1.0, 0.0, -1.0, 5.0, -1.0, 0.0, -1.0, 0.0]

  /** The Laplacian kernel of `filter_edge_detection`. */
  const Laplacian: seq<real> := [0.0, -1.0, 0.0, -1.0, 4.0, -1.0, 0.0, -1.0, 0.0]

  lemma Sum3(a: real, b: real, c: real)
    ensures Sum([a, b, c]) == a + b + c
  {
    assert [a, b, c][..2] == [a, b];
    assert [a, b][..1] == [a];
    assert [a][..0] == [];
    assert Sum([a]) == a;
    assert Sum([a, b]) == a + b;
  }

  /** The sharpening kernel sums to 1 and the Laplacian to 0. */
  lemma KernelTotals()
    ensures KernelTotal(SharpenKernel, 3, 3) == 1.0
    ensures KernelTotal(Laplacian, 3, 3) == 0.0
  {
    assert KernelRow(SharpenKernel, 3, 0) == [0.0, -1.0, 0.0];
    assert KernelRow(SharpenKernel, 3, 1) == [-1.0, 5.0, -1.0];
    assert KernelRow(SharpenKernel, 3, 2) == [0.0, -1.0, 0.0];
    assert KernelRow(Laplacian, 3, 0) == [0.0, -1.0, 0.0];
    assert KernelRow(Laplacian, 3, 1) == [-1.0, 4.0, -1.0];
    assert KernelRow(Laplacian, 3, 2) == [0.0, -1.0, 0.0];
    Sum3(0.0, -1.0, 0.0);
    Sum3(-1.0, 5.0, -1.0);
    Sum3(-1.0, 4.0, -1.0);
  }

  /** `filter_sharpen`: the image replaced by its convolution with the
      sharpening kernel. */
  method Sharpen(img: Image) returns (ok: bool)
    requires img.Valid()
    modifies img
    ensures ok && img.Valid() && fresh(img.data)
    ensures Convolve(old(img.Snapshot()), SharpenKernel, 3) == Some(img.Snapshot())
  {
    var result := ApplyConvolution(img, SharpenKernel, 3);
    img.data := result.data;
    img.width := result.width;
    img.height := result.height;
    return true;
  }

  /** Sharpening leaves a buffer of one in-range colour unchanged. */
  lemma SharpenFlat(w: nat, h: nat, c: Color)
    requires 0 < w && 0 < h && InRange(c)
    ensures Filled(w, h, c).Wf() && Convolve(Filled(w, h, c), SharpenKernel, 3) == Some(Filled(w, h, c))
  {
    KernelTotals();
    ConvolveFlat(w, h, c, SharpenKernel, 3);
  }

  /** The binarisation of edge detection: white when the red channel is
      strictly above the threshold, black otherwise. */
  function Threshold(t: real, c: Color): (b: Color)
    ensures b == White || b == Black
    ensures b == White <==> c.r > t
  {
    if c.r > t then White else Black
  }

  function Binarizer(t: real): Color -> Color
  {
    c => Threshold(t, c)
  }

  /** `filter_edge_detection` as a value: nothing for a threshold outside
      [0, 1]; otherwise the Laplacian of the grayscale image, binarised. */
  function Edges(r: Raster, t: real): (o: Option<Raster>)
    requires r.Wf()
    ensures o.None? <==> t < 0.0 || t > 1.0
    ensures o.Some? ==> o.value.Valid() && o.value.width == r.width && o.value.height == r.height
  {
    if t < 0.0 || t > 1.0 then None
    else
      var e := Mapped(Convolved(Mapped(r, Gray), Laplacian, 3), Binarizer(t));
      assert e.Clamped();
      Some(e)
  }

  /** Every pixel of an edge image is white or black, white exactly where
      the Laplacian of the grayscale image exceeds the threshold; so the
      result is valid. */
  lemma EdgesAt(r: Raster, t: real, x: nat, y: nat)
    requires r.Wf() && Edges(r, t).Some? && x < r.width && y < r.height
    ensures Edges(r, t).value.Wf()
    ensures var e := Edges(r, t).value.At(x, y);
            (e == White || e == Black) && (e == White <==> ConvPixel(Mapped(r, Gray), Laplacian, 3, x, y).r > t)
  {
    var g := Mapped(r, Gray);
    MappedAt(Convolved(g, Laplacian, 3), Binarizer(t), x, y);
    ConvolvedAt(g, Laplacian, 3, x, y);
  }

  /** Edge detection turns a buffer of one colour black. */
  lemma EdgesFlat(w: nat, h: nat, c: Color, t: real)
    requires 0 < w && 0 < h && 0.0 <= t <= 1.0
    ensures Filled(w, h, c).Wf() && Edges(Filled(w, h, c), t) == Some(Filled(w, h, Black))
  {
    var f := Filled(w, h, c);
    FilledAt(w, h, c, 0, 0);
    var g := Mapped(f, Gray);
    assert g == Filled(w, h, Gray(c));
    KernelTotals();
    FilledFlat(w, h, Gray(c));
    var e := Edges(f, t).value;
    forall x: nat, y: nat | x < w && y < h
      ensures e.At(x, y) == Filled(w, h, Black).At(x, y)
    {
      EdgesAt(f, t, x, y);
      KernelSumFlat(g, Gray(c), Laplacian, 3, x, y, 3);
      FilledAt(w, h, Black, x, y);
    }
    FilledAt(w, h, Black, 0, 0);
    SameRaster(e, Filled(w, h, Black));
  }

  /** `filter_edge_detection`: fails with the image unchanged for a
      threshold outside [0, 1]; otherwise convolves a grayscale copy with
      the Laplacian, binarises it and swaps it in. */
  method EdgeDetection(img: Image, t: real) returns (ok: bool)
    requires img.Valid()
    modifies img
    ensures img.Valid()
    ensures ok <==> Edges(old(img.Snapshot()), t).Some?
    ensures ok ==> Edges(old(img.Snapshot()), t) == Some(img.Snapshot())
    ensures !ok ==> img.Snapshot() == old(img.Snapshot())
    ensures img.data == old(img.data) || fresh(img.data)
  {
    if t < 0.0 || t > 1.0 {
      return false;
    }
    ghost var r := img.Snapshot();
    var gray := img.Copy();
    var _ := Grayscale(gray);
    var edges := ApplyConvolution(gray, Laplacian, 3);
    ghost var l := edges.Snapshot();
    MapPixels(edges, Binarizer(t));
    forall j | 0 <= j < |edges.data[..]|
      ensures InRange(edges.data[..][j])
    {
    }
    img.data := edges.data;
    img.width := edges.width;
    img.height := edges.height;
    return true;
  }
}
