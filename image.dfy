/** The pixel buffer (image.c): a row-major `width x height` array of
    colours. `Raster` is its value (what the buffer holds at one moment);
    `Image` is the mutable object the filters update in place. */
module Images {
  import opened Wrappers
  import opened Colors

  // ---------------------------------------------------------------------
  // Row-major index arithmetic
  // ---------------------------------------------------------------------

  lemma MulMono(a: int, b: int, w: int)
    requires a <= b && w >= 0
    ensures a * w <= b * w
  {
  }

  lemma DivModUnique(n: int, w: int, q: int, r: int)
    requires w > 0 && 0 <= r < w && n == q * w + r
    ensures n / w == q && n % w == r
  {
    var d := n / w;
    var m := n % w;
    assert n == d * w + m;
    var k := d - q;
    assert k * w == r - m;
    MulSign(k, w);
  }

  lemma MulSign(k: int, w: int)
    requires w >= 0
    ensures k >= 1 ==> k * w >= w
    ensures k <= -1 ==> k * w <= -w
  {
    if k >= 1 {
      MulMono(1, k, w);
    } else if k <= -1 {
      MulMono(k, -1, w);
    }
  }

  /** Pixel (x, y) lives at index `y * w + x`, inside the buffer, and the
      index gives the coordinates back. */
  lemma IndexOf(x: nat, y: nat, w: nat, h: nat)
    requires x < w && y < h
    ensures y * w + x < w * h
    ensures (y * w + x) / w == y && (y * w + x) % w == x
  {
    assert y * w + x < (y + 1) * w;
    MulMono(y + 1, h, w);
    DivModUnique(y * w + x, w, y, x);
  }

  /** Every index of a `w x h` buffer is the index of pixel (j % w, j / w). */
  lemma Coords(j: nat, w: nat, h: nat)
    requires j < w * h
    ensures w > 0 && j % w < w && j / w < h && (j / w) * w + j % w == j
  {
    if j / w >= h {
      MulMono(h, j / w, w);
    }
  }

  // ---------------------------------------------------------------------
  // Raster: the value of a pixel buffer
  // ---------------------------------------------------------------------

  datatype Raster = Raster(width: nat, height: nat, pixels: seq<Color>)
  {
    /** Non-zero dimensions and exactly `width * height` pixels. */
    predicate Wf()
    {
      width > 0 && height > 0 && |pixels| == width * height
    }

    /** Every stored pixel is in [0, 1] (what `image_set_pixel` keeps). */
    predicate Clamped()
    {
      forall i :: 0 <= i < |pixels| ==> InRange(pixels[i])
    }

    predicate Valid()
    {
      Wf() && Clamped()
    }

    /** The pixel at column x, row y. */
    function At(x: nat, y: nat): Color
      requires Wf() && x < width && y < height
    {
      IndexOf(x, y, width, height);
      pixels[y * width + x]
    }

    /** `image_coord_valid`. */
    function CoordValid(x: int, y: int): (b: bool)
      ensures Wf() ==> (b <==> Get(x, y).Some?)
    {
      0 <= x < width && 0 <= y < height
    }

    /** `image_get_pixel`: nothing outside the image, otherwise the element
        at index `y * width + x`. */
    function Get(x: int, y: int): (r: Option<Color>)
      requires Wf()
      ensures r.Some? <==> 0 <= x < width && 0 <= y < height
      ensures r.Some? ==> r.value == At(x, y)
    {
      if 0 <= x < width && 0 <= y < height then Some(At(x, y)) else None
    }

    /** `image_set_pixel`: stores the clamped colour at an in-range
        coordinate; out of range it does nothing. */
    function Set(x: int, y: int, c: Color): (r: Raster)
      requires Wf()
      ensures r.Wf() && r.width == width && r.height == height
      ensures Valid() ==> r.Valid()
    {
      if 0 <= x < width && 0 <= y < height then
        IndexOf(x, y, width, height);
        Raster(width, height, pixels[y * width + x := Clamp(c)])
      else
        this
    }
  }

  /** Reading after `image_set_pixel`: the written pixel reads back as the
      clamped colour, every other pixel is unchanged, and an out-of-range
      write changes nothing. */
  lemma GetAfterSet(r: Raster, x: int, y: int, c: Color, x': int, y': int)
    requires r.Wf()
    ensures r.Set(x, y, c).Get(x', y') ==
            if x' == x && y' == y && r.CoordValid(x, y) then Some(Clamp(c)) else r.Get(x', y')
  {
    if r.CoordValid(x, y) && r.CoordValid(x', y') {
      IndexOf(x, y, r.width, r.height);
      IndexOf(x', y', r.width, r.height);
      var i, i' := y * r.width + x, y' * r.width + x';
      assert i == i' ==> x == x' && y == y';
      assert r.Set(x, y, c).pixels == r.pixels[i := Clamp(c)];
    }
  }

  /** A buffer holding one colour everywhere. */
  function Filled(w: nat, h: nat, c: Color): (r: Raster)
    ensures |r.pixels| == w * h
    ensures forall i :: 0 <= i < w * h ==> r.pixels[i] == c
  {
    Raster(w, h, seq(w * h, _ => c))
  }

  /** What `image_create` produces: all pixels black (zeroed memory). */
  function Blank(w: nat, h: nat): Raster
  {
    Filled(w, h, Black)
  }

  /** A filled buffer reads the same colour at every coordinate, and a
      filled non-empty buffer of an in-range colour is valid. */
  lemma FilledAt(w: nat, h: nat, c: Color, x: nat, y: nat)
    requires 0 < w && 0 < h && x < w && y < h
    ensures Filled(w, h, c).Wf() && Filled(w, h, c).At(x, y) == c
    ensures InRange(c) ==> Filled(w, h, c).Valid()
  {
    IndexOf(x, y, w, h);
  }

  /** A requested extent from `origin`, cut to what fits below `dim`. */
  function Clip(origin: nat, req: nat, dim: nat): (e: nat)
    requires origin < dim
    ensures e == (if req < dim - origin then req else dim - origin)
  {
    if origin + req > dim then dim - origin else req
  }

  /** Pixel j of the sub-image starting at (x, y) with width aw. */
  function SubPixel(src: Raster, x: nat, y: nat, aw: nat, ah: nat, j: nat): Color
    requires src.Wf() && 0 < aw && x + aw <= src.width && y + ah <= src.height && j < aw * ah
  {
    Coords(j, aw, ah);
    Clamp(src.At(x + j % aw, y + j / aw))
  }

  /** `image_create_subimage` as a value: nothing when the origin is outside
      the source or a requested dimension is 0; otherwise each dimension is
      cut to what fits in the source, and every pixel is copied (through
      `image_set_pixel`, so clamped). */
  function Sub(src: Raster, x: nat, y: nat, w: nat, h: nat): (r: Option<Raster>)
    requires src.Wf()
    ensures r.None? <==> x >= src.width || y >= src.height || w == 0 || h == 0
    ensures r.Some? ==> r.value.Valid()
    ensures r.Some? ==> r.value.width == Clip(x, w, src.width) && r.value.height == Clip(y, h, src.height)
  {
    if x >= src.width || y >= src.height then None
    else
      var aw, ah := Clip(x, w, src.width), Clip(y, h, src.height);
      if aw == 0 || ah == 0 then None
      else Some(Raster(aw, ah, seq(aw * ah, j requires 0 <= j < aw * ah => SubPixel(src, x, y, aw, ah, j))))
  }

  /** Sub-image pixel (col, row) is source pixel (x + col, y + row),
      unchanged when the source is valid. */
  lemma SubAt(src: Raster, x: nat, y: nat, w: nat, h: nat, col: nat, row: nat)
    requires src.Valid() && Sub(src, x, y, w, h).Some?
    requires col < Sub(src, x, y, w, h).value.width && row < Sub(src, x, y, w, h).value.height
    ensures x + col < src.width && y + row < src.height
    ensures Sub(src, x, y, w, h).value.At(col, row) == src.At(x + col, y + row)
  {
    var s := Sub(src, x, y, w, h).value;
    var aw, ah := s.width, s.height;
    assert s.pixels == seq(aw * ah, j requires 0 <= j < aw * ah => SubPixel(src, x, y, aw, ah, j));
    var j := RasterIndex(s, col, row);
    SubPixelAt(src, x, y, aw, ah, col, row);
    AtInRange(src, x + col, y + row);
  }

  /** A buffer holding every sub-image pixel is the sub-image. */
  lemma SubFromPixels(src: Raster, x: nat, y: nat, w: nat, h: nat, pixels: seq<Color>)
    requires src.Wf() && x < src.width && y < src.height && 0 < w && 0 < h
    requires var aw, ah := Clip(x, w, src.width), Clip(y, h, src.height);
             |pixels| == aw * ah
             && forall j :: 0 <= j < aw * ah ==> pixels[j] == SubPixel(src, x, y, aw, ah, j)
    ensures Sub(src, x, y, w, h) == Some(Raster(Clip(x, w, src.width), Clip(y, h, src.height), pixels))
  {
    var aw, ah := Clip(x, w, src.width), Clip(y, h, src.height);
    assert pixels == seq(aw * ah, j requires 0 <= j < aw * ah => SubPixel(src, x, y, aw, ah, j));
  }

  /** `At` reads the element at the row-major index. */
  lemma RasterIndex(r: Raster, x: nat, y: nat) returns (j: nat)
    requires r.Wf() && x < r.width && y < r.height
    ensures j == y * r.width + x && j < |r.pixels| && r.At(x, y) == r.pixels[j]
  {
    IndexOf(x, y, r.width, r.height);
    j := y * r.width + x;
  }

  lemma SubPixelAt(src: Raster, x: nat, y: nat, aw: nat, ah: nat, col: nat, row: nat)
    requires src.Wf() && 0 < aw && x + aw <= src.width && y + ah <= src.height
    requires col < aw && row < ah
    ensures row * aw + col < aw * ah
    ensures SubPixel(src, x, y, aw, ah, row * aw + col) == Clamp(src.At(x + col, y + row))
  {
    IndexOf(col, row, aw, ah);
  }

  /** The `w x h` buffer whose pixel (x, y) is f(x, y): what a filter
      that computes every output pixel on its own produces. */
  function Tabulate(w: nat, h: nat, f: (nat, nat) -> Color): (r: Raster)
    ensures r.width == w && r.height == h && |r.pixels| == w * h
  {
    Raster(w, h, seq(w * h, j requires 0 <= j < w * h => Coords(j, w, h); f(j % w, j / w)))
  }

  /** Pixel (x, y) of a tabulated buffer is f(x, y), stored at index
      y * w + x. */
  lemma TabulateAt(w: nat, h: nat, f: (nat, nat) -> Color, x: nat, y: nat)
    requires x < w && y < h
    ensures Tabulate(w, h, f).Wf() && y * w + x < w * h
    ensures Tabulate(w, h, f).pixels[y * w + x] == Tabulate(w, h, f).At(x, y) == f(x, y)
  {
    IndexOf(x, y, w, h);
    assert Tabulate(w, h, f).pixels[y * w + x] == f((y * w + x) % w, (y * w + x) / w);
  }

  /** A tabulated buffer of in-range colours is valid. */
  lemma TabulateValid(w: nat, h: nat, f: (nat, nat) -> Color)
    requires 0 < w && 0 < h && forall x: nat, y: nat :: x < w && y < h ==> InRange(f(x, y))
    ensures Tabulate(w, h, f).Valid()
  {
    forall j | 0 <= j < w * h
      ensures InRange(Tabulate(w, h, f).pixels[j])
    {
      Coords(j, w, h);
    }
  }

  /** Two buffers of the same size that agree at every coordinate are the
      same buffer. */
  lemma SameRaster(a: Raster, b: Raster)
    requires a.Wf() && b.Wf() && a.width == b.width && a.height == b.height
    requires forall x: nat, y: nat :: x < a.width && y < a.height ==> a.At(x, y) == b.At(x, y)
    ensures a == b
  {
    forall j | 0 <= j < |a.pixels|
      ensures a.pixels[j] == b.pixels[j]
    {
      Coords(j, a.width, a.height);
      var x, y := j % a.width, j / a.width;
      assert a.At(x, y) == b.At(x, y);
    }
    assert a.pixels == b.pixels;
  }

  /** A valid raster holds in-range colours at every coordinate. */
  lemma AtInRange(r: Raster, x: nat, y: nat)
    requires r.Valid() && x < r.width && y < r.height
    ensures InRange(r.At(x, y))
  {
    var j := RasterIndex(r, x, y);
  }

  // ---------------------------------------------------------------------
  // Image: the mutable pixel buffer
  // ---------------------------------------------------------------------

  class Image {
    var width: nat
    var height: nat
    var data: array<Color>

    /** The buffer's current value. */
    function Snapshot(): Raster
      reads this, data
    {
      Raster(width, height, data[..])
    }

    ghost predicate Valid()
      reads this, data
    {
      Snapshot().Valid()
    }

    /** `image_create` for non-zero dimensions: a zeroed (black) buffer. */
    constructor(w: nat, h: nat)
      requires w > 0 && h > 0
      ensures Valid() && fresh(data)
      ensures Snapshot() == Blank(w, h)
    {
      width := w;
      height := h;
      data := new Color[w * h](_ => Black);
    }

    /** `image_set_pixel`. */
    method SetPixel(x: int, y: int, c: Color)
      requires Snapshot().Wf()
      modifies data
      ensures Snapshot() == old(Snapshot()).Set(x, y, c)
    {
      if 0 <= x < width && 0 <= y < height {
        IndexOf(x, y, width, height);
        data[y * width + x] := Clamp(c);
      }
    }

    /** `image_set_pixel` at the next position of a row-major fill: the
        pixels before (x, y) already hold `target`, and (x, y) receives a
        colour whose clamp is the target's. */
    method SetNext(x: nat, y: nat, c: Color, ghost target: seq<Color>)
      requires Snapshot().Wf() && x < width && y < height && |target| == width * height
      requires y * width + x < |target| && Clamp(c) == target[y * width + x]
      requires forall j :: 0 <= j < y * width + x ==> data[j] == target[j]
      modifies data
      ensures Snapshot().Wf() && (old(Valid()) ==> Valid())
      ensures forall j :: 0 <= j < y * width + x + 1 ==> data[j] == target[j]
    {
      SetPixel(x, y, c);
    }

    /** `image_fill`: every pixel becomes the clamped colour. */
    method Fill(c: Color)
      requires Snapshot().Wf()
      modifies data
      ensures Snapshot() == Filled(width, height, Clamp(c))
      ensures Valid()
    {
      var k := Clamp(c);
      var i := 0;
      while i < data.Length
        invariant 0 <= i <= data.Length
        invariant forall j :: 0 <= j < i ==> data[j] == k
      {
        data[i] := k;
        i := i + 1;
      }
    }

    /** `image_copy`: a new image with the same dimensions and pixels in
        separate storage. */
    method Copy() returns (copy: Image)
      requires Valid()
      ensures fresh(copy) && fresh(copy.data)
      ensures copy.Snapshot() == Snapshot() && copy.Valid()
    {
      copy := new Image(width, height);
      var i := 0;
      while i < data.Length
        invariant 0 <= i <= data.Length == copy.data.Length
        invariant copy.width == width && copy.height == height
        invariant forall j :: 0 <= j < i ==> copy.data[j] == data[j]
        modifies copy.data
      {
        copy.data[i] := data[i];
        i := i + 1;
      }
      assert copy.data[..] == data[..];
    }

    /** `image_create_subimage`: copies row by row, column by column into a
        fresh image. */
    method CreateSubimage(x: nat, y: nat, w: nat, h: nat) returns (sub: Image?)
      requires Valid()
      ensures sub == null <==> Sub(Snapshot(), x, y, w, h).None?
      ensures sub != null ==> fresh(sub) && fresh(sub.data) && sub.Valid()
      ensures sub != null ==> Sub(Snapshot(), x, y, w, h) == Some(sub.Snapshot())
    {
      if x >= width || y >= height {
        return null;
      }
      var aw := w;
      var ah := h;
      if x + w > width {
        aw := width - x;
      }
      if y + h > height {
        ah := height - y;
      }
      assert aw == Clip(x, w, width) && ah == Clip(y, h, height);
      sub := NewImage(aw, ah);
      if sub == null {
        return;
      }
      CopySubRows(sub, x, y);
      SubFromPixels(Snapshot(), x, y, w, h, sub.data[..]);
    }

    /** The row loop of `image_create_subimage`. */
    method CopySubRows(sub: Image, x: nat, y: nat)
      requires Valid() && sub.Snapshot().Wf() && sub.data != data
      requires x + sub.width <= width && y + sub.height <= height
      modifies sub.data
      ensures sub.Snapshot().Wf()
      ensures forall j :: 0 <= j < sub.width * sub.height ==> sub.data[j] == SubPixel(Snapshot(), x, y, sub.width, sub.height, j)
    {
      var row := 0;
      while row < sub.height
        invariant 0 <= row <= sub.height && row * sub.width <= sub.width * sub.height
        invariant sub.Snapshot().Wf()
        invariant forall j :: 0 <= j < row * sub.width ==> sub.data[j] == SubPixel(Snapshot(), x, y, sub.width, sub.height, j)
      {
        CopySubRow(sub, x, y, row);
        row := row + 1;
      }
    }

    /** One pass of the column loop of `image_create_subimage`: row `row` of
        the sub-image is copied from the source. */
    method CopySubRow(sub: Image, x: nat, y: nat, row: nat)
      requires Valid() && sub.Snapshot().Wf() && sub.data != data
      requires x + sub.width <= width && y + sub.height <= height && row < sub.height
      requires forall j :: 0 <= j < row * sub.width && j < sub.width * sub.height ==> sub.data[j] == SubPixel(Snapshot(), x, y, sub.width, sub.height, j)
      modifies sub.data
      ensures sub.Snapshot().Wf() && row * sub.width + sub.width == (row + 1) * sub.width <= sub.width * sub.height
      ensures forall j :: 0 <= j < (row + 1) * sub.width ==> sub.data[j] == SubPixel(Snapshot(), x, y, sub.width, sub.height, j)
    {
      ghost var src := Snapshot();
      var aw, ah := sub.width, sub.height;
      MulMono(row + 1, ah, aw);
      var col := 0;
      while col < aw
        invariant 0 <= col <= aw && sub.Snapshot().Wf()
        invariant forall j :: 0 <= j < row * aw + col ==> sub.data[j] == SubPixel(src, x, y, aw, ah, j)
      {
        SubPixelAt(src, x, y, aw, ah, col, row);
        var k := RasterIndex(src, x + col, y + row);
        var p := data[(y + row) * width + (x + col)];
        sub.SetPixel(col, row, p);
        col := col + 1;
      }
    }
  }

  /** `image_create`: no image for a zero dimension, otherwise a fresh black
      one. */
  method NewImage(w: nat, h: nat) returns (img: Image?)
    ensures img == null <==> w == 0 || h == 0
    ensures img != null ==> fresh(img) && fresh(img.data) && img.Valid() && img.Snapshot() == Blank(w, h)
  {
    if w == 0 || h == 0 {
      return null;
    }
    img := new Image(w, h);
  }
}
