/** Border handling and the point filters of filters.c: crop, grayscale,
    negative, and the per-pixel pass they share with the binarisation step
    of edge detection. */
module Filters {
  import opened Wrappers
  import opened Colors
  import opened Images

  // ---------------------------------------------------------------------
  // get_pixel_with_border
  // ---------------------------------------------------------------------

  /** One coordinate of `get_pixel_with_border`: raised to 0, then lowered
      to n - 1. */
  function ClampIndex(v: int, n: nat): (k: nat)
    requires n > 0
    ensures k < n
    ensures 0 <= v < n ==> k == v
    ensures v < 0 ==> k == 0
    ensures v >= n ==> k == n - 1
  {
    var lo := if v < 0 then 0 else v;
    if lo >= n then n - 1 else lo
  }

  /** `get_pixel_with_border`: the stored pixel nearest to (x, y), each
      coordinate clamped into the image on its own. */
  function Border(r: Raster, x: int, y: int): (c: Color)
    requires r.Wf()
    ensures 0 <= x < r.width && 0 <= y < r.height ==> c == r.At(x, y)
  {
    r.At(ClampIndex(x, r.width), ClampIndex(y, r.height))
  }

  /** The replicated border of a valid buffer is in range. */
  lemma BorderInRange(r: Raster, x: int, y: int)
    requires r.Valid()
    ensures InRange(Border(r, x, y))
  {
    AtInRange(r, ClampIndex(x, r.width), ClampIndex(y, r.height));
  }

  /** Outside the image the border reads the pixel at the clamped
      coordinates: left of column 0 is column 0, right of the last column
      is the last column, and likewise for rows. */
  lemma BorderClamps(r: Raster, x: int, y: int)
    requires r.Wf()
    ensures x < 0 && 0 <= y < r.height ==> Border(r, x, y) == r.At(0, y)
    ensures x >= r.width && 0 <= y < r.height ==> Border(r, x, y) == r.At(r.width - 1, y)
    ensures 0 <= x < r.width && y < 0 ==> Border(r, x, y) == r.At(x, 0)
    ensures 0 <= x < r.width && y >= r.height ==> Border(r, x, y) == r.At(x, r.height - 1)
  {
  }

  /** Every border read of `r`, inside the image or not, gives `c`. */
  ghost predicate Flat(r: Raster, c: Color)
  {
    r.Wf() && forall x: int, y: int :: Border(r, x, y) == c
  }

  /** A buffer holding one colour shows that colour everywhere on its
      border too. */
  lemma FilledFlat(w: nat, h: nat, c: Color)
    requires 0 < w && 0 < h
    ensures Flat(Filled(w, h, c), c)
  {
    FilledAt(w, h, c, 0, 0);
    forall x: int, y: int
      ensures Border(Filled(w, h, c), x, y) == c
    {
      FilledAt(w, h, c, ClampIndex(x, w), ClampIndex(y, h));
    }
  }

  // ---------------------------------------------------------------------
  // Per-pixel passes
  // ---------------------------------------------------------------------

  /** Every pixel replaced by its image under `f`. */
  function Mapped(r: Raster, f: Color -> Color): (m: Raster)
    ensures m.width == r.width && m.height == r.height && |m.pixels| == |r.pixels|
    ensures forall j :: 0 <= j < |r.pixels| ==> m.pixels[j] == f(r.pixels[j])
  {
    Raster(r.width, r.height, seq(|r.pixels|, j requires 0 <= j < |r.pixels| => f(r.pixels[j])))
  }

  /** Pixel (x, y) of the mapped buffer is `f` of pixel (x, y). */
  lemma MappedAt(r: Raster, f: Color -> Color, x: nat, y: nat)
    requires r.Wf() && x < r.width && y < r.height
    ensures Mapped(r, f).Wf() && Mapped(r, f).At(x, y) == f(r.At(x, y))
  {
    var j := RasterIndex(r, x, y);
  }

  /** A map that keeps colours in range keeps a valid buffer valid. */
  lemma MappedValid(r: Raster, f: Color -> Color)
    requires r.Valid()
    requires forall c :: InRange(c) ==> InRange(f(c))
    ensures Mapped(r, f).Valid()
  {
  }

  /** The first n pixels of `d` are `f` of those of `r`; the rest are
      those of `r`. */
  ghost predicate MappedUpTo(d: seq<Color>, r: seq<Color>, f: Color -> Color, n: int)
  {
    |d| == |r| && forall j :: 0 <= j < |d| ==> d[j] == if j < n then f(r[j]) else r[j]
  }

  /** The nested x/y loop shared by grayscale, negative and the
      binarisation of edge detection: each pixel is rewritten in place,
      without clamping. */
  method MapPixels(img: Image, f: Color -> Color)
    requires img.Snapshot().Wf()
    modifies img.data
    ensures img.Snapshot() == Mapped(old(img.Snapshot()), f)
  {
    ghost var r := img.Snapshot();
    var y := 0;
    while y < img.height
      invariant 0 <= y <= img.height
      invariant MappedUpTo(img.data[..], r.pixels, f, y * img.width)
    {
      MapRow(img, f, y, r);
      y := y + 1;
    }
    assert img.data[..] == Mapped(r, f).pixels;
  }

  /** One pass of the x loop of `MapPixels`. */
  method MapRow(img: Image, f: Color -> Color, y: nat, ghost r: Raster)
    requires r.Wf() && r.width == img.width && r.height == img.height && y < img.height
    requires MappedUpTo(img.data[..], r.pixels, f, y * img.width)
    modifies img.data
    ensures MappedUpTo(img.data[..], r.pixels, f, (y + 1) * img.width)
  {
    var x := 0;
    while x < img.width
      invariant 0 <= x <= img.width
      invariant MappedUpTo(img.data[..], r.pixels, f, y * img.width + x)
    {
      IndexOf(x, y, img.width, img.height);
      var i := y * img.width + x;
      img.data[i] := f(img.data[i]);
      x := x + 1;
    }
  }

  // ---------------------------------------------------------------------
  // Grayscale and negative
  // ---------------------------------------------------------------------

  /** The ITU-R BT.601 luma weights used by `filter_grayscale`. */
  const RedWeight: real := 0.299
  const GreenWeight: real := 0.587
  const BlueWeight: real := 0.114

  /** One pixel of `filter_grayscale`: all three channels become the
      luminance. The weights sum to 1, so an in-range colour stays in range
      and a colour whose channels are already equal is left alone. */
  function Gray(c: Color): (g: Color)
    ensures g.r == g.g == g.b
    ensures InRange(c) ==> InRange(g)
    ensures c.r == c.g == c.b ==> g == c
  {
    var l := c.r * RedWeight + c.g * GreenWeight + c.b * BlueWeight;
    Color(l, l, l)
  }

  /** Grayscale is idempotent. */
  lemma GrayIdempotent(r: Raster)
    ensures Mapped(Mapped(r, Gray), Gray) == Mapped(r, Gray)
  {
    assert Mapped(Mapped(r, Gray), Gray).pixels == Mapped(r, Gray).pixels;
  }

  /** One pixel of `filter_negative`: each channel c becomes 1 - c. */
  function Negate(c: Color): (n: Color)
    ensures InRange(c) <==> InRange(n)
    ensures n.r + c.r == 1.0 && n.g + c.g == 1.0 && n.b + c.b == 1.0
  {
    Color(1.0 - c.r, 1.0 - c.g, 1.0 - c.b)
  }

  /** Negative applied twice restores the buffer (exact arithmetic). */
  lemma NegateTwice(r: Raster)
    ensures Mapped(Mapped(r, Negate), Negate) == r
  {
    assert Mapped(Mapped(r, Negate), Negate).pixels == r.pixels;
  }

  /** `filter_grayscale`: always succeeds; every pixel becomes its gray. */
  method Grayscale(img: Image) returns (ok: bool)
    requires img.Valid()
    modifies img.data
    ensures ok && img.Valid()
    ensures img.Snapshot() == Mapped(old(img.Snapshot()), Gray)
  {
    ghost var r := img.Snapshot();
    MapPixels(img, Gray);
    MappedValid(r, Gray);
    return true;
  }

  /** `filter_negative`: always succeeds; every pixel becomes its
      negative. */
  method Negative(img: Image) returns (ok: bool)
    requires img.Valid()
    modifies img.data
    ensures ok && img.Valid()
    ensures img.Snapshot() == Mapped(old(img.Snapshot()), Negate)
  {
    ghost var r := img.Snapshot();
    MapPixels(img, Negate);
    MappedValid(r, Negate);
    return true;
  }

  // ---------------------------------------------------------------------
  // Crop
  // ---------------------------------------------------------------------

  function Min(a: nat, b: nat): (m: nat)
    ensures m <= a && m <= b && (m == a || m == b)
  {
    if a > b then b else a
  }

  /** `filter_crop` as a value: nothing for a zero dimension; otherwise the
      top-left `min(w, width) x min(h, height)` corner, the buffer itself
      when nothing shrinks. */
  function CropTo(r: Raster, w: nat, h: nat): (o: Option<Raster>)
    requires r.Valid()
    ensures o.None? <==> w == 0 || h == 0
    ensures o.Some? ==> o.value.Valid()
    ensures o.Some? ==> o.value.width == Min(w, r.width) && o.value.height == Min(h, r.height)
    ensures o.Some? && w >= r.width && h >= r.height ==> o.value == r
  {
    if w == 0 || h == 0 then None
    else
      var cw, ch := Min(w, r.width), Min(h, r.height);
      if cw == r.width && ch == r.height then Some(r) else Sub(r, 0, 0, cw, ch)
  }

  /** A cropped pixel keeps its value. */
  lemma CropAt(r: Raster, w: nat, h: nat, x: nat, y: nat)
    requires r.Valid() && CropTo(r, w, h).Some?
    requires x < CropTo(r, w, h).value.width && y < CropTo(r, w, h).value.height
    ensures x < r.width && y < r.height
    ensures CropTo(r, w, h).value.At(x, y) == r.At(x, y)
  {
    var cw, ch := Min(w, r.width), Min(h, r.height);
    if !(cw == r.width && ch == r.height) {
      SubAt(r, 0, 0, cw, ch, x, y);
    }
  }

  /** Crop and negative commute. */
  lemma CropNegateCommute(r: Raster, w: nat, h: nat)
    requires r.Valid()
    ensures Mapped(r, Negate).Valid()
    ensures CropTo(Mapped(r, Negate), w, h) ==
            if w == 0 || h == 0 then None else Some(Mapped(CropTo(r, w, h).value, Negate))
  {
    var n := Mapped(r, Negate);
    MappedValid(r, Negate);
    if w > 0 && h > 0 {
      var a, b := CropTo(n, w, h).value, Mapped(CropTo(r, w, h).value, Negate);
      forall x: nat, y: nat | x < a.width && y < a.height
        ensures a.At(x, y) == b.At(x, y)
      {
        CropAt(n, w, h, x, y);
        CropAt(r, w, h, x, y);
        MappedAt(r, Negate, x, y);
        MappedAt(CropTo(r, w, h).value, Negate, x, y);
      }
      SameRaster(a, b);
    }
  }

  /** `filter_crop`: fails on a zero dimension and leaves the image alone;
      otherwise swaps in the cropped buffer (or keeps the image when
      nothing shrinks). */
  method Crop(img: Image, w: nat, h: nat) returns (ok: bool)
    requires img.Valid()
    modifies img
    ensures img.Valid()
    ensures ok <==> CropTo(old(img.Snapshot()), w, h).Some?
    ensures ok ==> CropTo(old(img.Snapshot()), w, h) == Some(img.Snapshot())
    ensures !ok ==> img.Snapshot() == old(img.Snapshot())
    ensures img.data == old(img.data) || fresh(img.data)
  {
    if w == 0 || h == 0 {
      return false;
    }
    var cw := if w > img.width then img.width else w;
    var ch := if h > img.height then img.height else h;
    if cw == img.width && ch == img.height {
      return true;
    }
    var cropped := img.CreateSubimage(0, 0, cw, ch);
    img.data := cropped.data;
    img.width := cropped.width;
    img.height := cropped.height;
    return true;
  }
}
