/** The filters of extra_filters.c: bilinear sampling, glass distortion and
    crystallize. `sinf`, `cosf` and `rand` are taken from `Externals.Env`. */
module ExtraFilters {
  import opened Wrappers
  import opened Colors
  import opened Images
  import opened Externals
  import opened Grid

  // ---------------------------------------------------------------------
  // bilinear_interpolation
  // ---------------------------------------------------------------------

  /** One coordinate of `bilinear_interpolation`: raised to 0, then lowered
      to n - 1. */
  function ClampCoord(v: real, n: nat): (c: real)
    requires n > 0
    ensures 0.0 <= c <= (n - 1) as real
    ensures 0.0 <= v <= (n - 1) as real ==> c == v
    ensures v >= (n - 1) as real ==> c == (n - 1) as real
  {
    var a := if v < 0.0 then 0.0 else v;
    if a >= (n - 1) as real then (n - 1) as real else a
  }

  /** The integer part `floorf(v)` and the fraction `v - floorf(v)` of a
      clamped coordinate. The integer part is a valid index, and on the
      last index the fraction is 0. */
  function Corner(v: real, n: nat): (p: (nat, real))
    requires n > 0 && 0.0 <= v <= (n - 1) as real
    ensures p.0 < n && 0.0 <= p.1 < 1.0 && p.0 as real + p.1 == v
    ensures p.0 == n - 1 ==> p.1 == 0.0
  {
    (v.Floor, v - v.Floor as real)
  }

  /** `image_get_pixel_const`, with black for a missing pixel. */
  function Neighbour(r: Raster, x: int, y: int): (c: Color)
    requires r.Wf()
    ensures 0 <= x < r.width && 0 <= y < r.height ==> c == r.At(x, y)
    ensures !(0 <= x < r.width && 0 <= y < r.height) ==> c == Black
  {
    match r.Get(x, y)
    case Some(c) => c
    case None => Black
  }

  /** `bilinear_interpolation`: the sample point is clamped into the image,
      the four neighbours of its integer corner are interpolated along x and
      then along y, and the result is clamped. */
  function Bilinear(r: Raster, x: real, y: real): (c: Color)
    requires r.Wf()
    ensures InRange(c)
  {
    var px := Corner(ClampCoord(x, r.width), r.width);
    var py := Corner(ClampCoord(y, r.height), r.height);
    var x0, dx, y0, dy := px.0, px.1, py.0, py.1;
    var c0 := Lerp(Neighbour(r, x0, y0), Neighbour(r, x0 + 1, y0), dx);
    var c1 := Lerp(Neighbour(r, x0, y0 + 1), Neighbour(r, x0 + 1, y0 + 1), dx);
    Clamp(Lerp(c0, c1, dy))
  }

  /** At integer coordinates inside a valid buffer the sample is exactly
      the stored pixel. */
  lemma BilinearAtPixel(r: Raster, i: nat, j: nat)
    requires r.Valid() && i < r.width && j < r.height
    ensures Bilinear(r, i as real, j as real) == r.At(i, j)
  {
    assert Corner(i as real, r.width) == (i, 0.0);
    assert Corner(j as real, r.height) == (j, 0.0);
    LerpEndpoints(r.At(i, j), Neighbour(r, i + 1, j), 0.0);
    LerpEndpoints(Neighbour(r, i, j + 1), Neighbour(r, i + 1, j + 1), 0.0);
    LerpEndpoints(r.At(i, j), Neighbour(r, i, j + 1), 0.0);
    AtInRange(r, i, j);
  }

  /** On the last column the missing right-hand neighbours get weight 0:
      the sample is the interpolation down the last column alone. */
  lemma BilinearLastColumn(r: Raster, x: real, y: real)
    requires r.Wf() && x >= (r.width - 1) as real
    ensures var py := Corner(ClampCoord(y, r.height), r.height);
            Bilinear(r, x, y) ==
            Clamp(Lerp(r.At(r.width - 1, py.0), Neighbour(r, r.width - 1, py.0 + 1), py.1))
  {
    var py := Corner(ClampCoord(y, r.height), r.height);
    var x0 := r.width - 1;
    assert Corner(ClampCoord(x, r.width), r.width) == (x0, 0.0);
    LerpEndpoints(Neighbour(r, x0, py.0), Neighbour(r, x0 + 1, py.0), 0.0);
    LerpEndpoints(Neighbour(r, x0, py.0 + 1), Neighbour(r, x0 + 1, py.0 + 1), 0.0);
  }

  /** On the last row the missing lower neighbours get weight 0: the sample
      is the interpolation along the last row alone. */
  lemma BilinearLastRow(r: Raster, x: real, y: real)
    requires r.Wf() && y >= (r.height - 1) as real
    ensures var px := Corner(ClampCoord(x, r.width), r.width);
            Bilinear(r, x, y) ==
            Clamp(Lerp(r.At(px.0, r.height - 1), Neighbour(r, px.0 + 1, r.height - 1), px.1))
  {
    var px := Corner(ClampCoord(x, r.width), r.width);
    var y0 := r.height - 1;
    assert Corner(ClampCoord(y, r.height), r.height) == (y0, 0.0);
    var c0 := Lerp(Neighbour(r, px.0, y0), Neighbour(r, px.0 + 1, y0), px.1);
    var c1 := Lerp(Neighbour(r, px.0, y0 + 1), Neighbour(r, px.0 + 1, y0 + 1), px.1);
    LerpEndpoints(c0, c1, 0.0);
  }

  // ---------------------------------------------------------------------
  // filter_glass_distortion
  // ---------------------------------------------------------------------

  /** One coordinate of the displaced point: raised to 0, and set to n - 1
      only when it reaches n, so it always lies in [0, n). */
  function GlassCoord(v: real, n: nat): (c: real)
    requires n > 0
    ensures 0.0 <= c < n as real
    ensures 0.0 <= v < n as real ==> c == v
  {
    var a := if v < 0.0 then 0.0 else v;
    if a >= n as real then (n - 1) as real else a
  }

  /** The displacement of pixel (x, y) for amplitude a: the wave times the
      amplitude plus noise drawn from [-0.3 a, 0.3 a]. */
  function Shift(env: Env, a: real, x: nat, y: nat): (d: (real, real))
    requires Sound(env) && a > 0.0
    ensures -1.3 * a <= d.0 <= 1.3 * a && -1.3 * a <= d.1 <= 1.3 * a
  {
    var wave := env.wave(x, y);
    (Displace(wave.0, a, RandomInRange(env, x, y, -a * 0.3, a * 0.3)),
     Displace(wave.1, a, RandomInRange(env, y, x, -a * 0.3, a * 0.3)))
  }

  /** One displacement component: the wave value times the amplitude, plus
      the noise. */
  function Displace(s: real, a: real, noise: real): (d: real)
    requires -1.0 <= s <= 1.0 && a > 0.0 && -a * 0.3 <= noise <= a * 0.3
    ensures -1.3 * a <= d <= 1.3 * a
  {
    WaveBound(s, a);
    s * a + noise
  }

  lemma WaveBound(s: real, a: real)
    requires -1.0 <= s <= 1.0 && a > 0.0
    ensures -a <= s * a <= a
  {
    if s >= 0.0 {
      assert s * a <= 1.0 * a;
    } else {
      assert (-s) * a <= 1.0 * a;
    }
  }

  /** The point pixel (x, y) is sampled from: the displaced position,
      clamped into the image. */
  function SourcePoint(env: Env, a: real, w: nat, h: nat, x: nat, y: nat): (p: (real, real))
    requires Sound(env) && a > 0.0 && w > 0 && h > 0
    ensures 0.0 <= p.0 < w as real && 0.0 <= p.1 < h as real
  {
    var d := Shift(env, a, x, y);
    (GlassCoord(x as real + d.0, w), GlassCoord(y as real + d.1, h))
  }

  /** Pixel (x, y) of the distorted image: the bilinear sample of the
      undistorted buffer at its source point. */
  function GlassPixel(r: Raster, env: Env, a: real, x: nat, y: nat): (c: Color)
    requires r.Wf() && Sound(env) && a > 0.0
    ensures InRange(c)
  {
    var p := SourcePoint(env, a, r.width, r.height, x, y);
    Bilinear(r, p.0, p.1)
  }

  function Glassed(r: Raster, env: Env, a: real): (o: Raster)
    requires r.Wf() && Sound(env) && a > 0.0
    ensures o.Valid() && o.width == r.width && o.height == r.height
  {
    var f := (x: nat, y: nat) => GlassPixel(r, env, a, x, y);
    TabulateValid(r.width, r.height, f);
    Tabulate(r.width, r.height, f)
  }

  /** Pixel (x, y) of the distorted buffer. */
  lemma GlassedAt(r: Raster, env: Env, a: real, x: nat, y: nat)
    requires r.Wf() && Sound(env) && a > 0.0 && x < r.width && y < r.height
    ensures y * r.width + x < |Glassed(r, env, a).pixels|
    ensures Glassed(r, env, a).pixels[y * r.width + x] == Glassed(r, env, a).At(x, y)
    ensures Glassed(r, env, a).At(x, y) == GlassPixel(r, env, a, x, y)
  {
    TabulateAt(r.width, r.height, (x: nat, y: nat) => GlassPixel(r, env, a, x, y), x, y);
  }

  /** `filter_glass_distortion` as a value: nothing for scale <= 0; the
      amplitude is the scale. */
  function Distorted(r: Raster, env: Env, scale: real): (o: Option<Raster>)
    requires r.Wf() && Sound(env)
    ensures o.None? <==> scale <= 0.0
    ensures o.Some? ==> o.value.Valid() && o.value.width == r.width && o.value.height == r.height
  {
    if scale <= 0.0 then None else Some(Glassed(r, env, scale))
  }

  /** A point whose displacement keeps it on its own pixel samples that
      pixel: a zero shift reproduces a valid image. */
  lemma GlassStill(r: Raster, env: Env, a: real, x: nat, y: nat)
    requires r.Valid() && Sound(env) && a > 0.0 && x < r.width && y < r.height
    requires Shift(env, a, x, y) == (0.0, 0.0)
    ensures GlassPixel(r, env, a, x, y) == r.At(x, y)
  {
    BilinearAtPixel(r, x, y);
  }

  /** `filter_glass_distortion`: fails with the image unchanged for
      scale <= 0; otherwise every pixel is resampled from a copy of the
      image taken before any pixel is written. */
  method GlassDistortion(img: Image, env: Env, scale: real) returns (ok: bool)
    requires img.Valid() && Sound(env)
    modifies img.data
    ensures img.Valid()
    ensures ok <==> scale > 0.0
    ensures ok ==> Distorted(old(img.Snapshot()), env, scale) == Some(img.Snapshot())
    ensures !ok ==> img.Snapshot() == old(img.Snapshot())
  {
    if scale <= 0.0 {
      return false;
    }
    var copy := img.Copy();
    GlassRows(copy, img, env, scale);
    return true;
  }

  /** The y loop of `filter_glass_distortion`. */
  method GlassRows(src: Image, dst: Image, env: Env, a: real)
    requires src.Snapshot().Wf() && dst.Snapshot().Wf() && dst.data != src.data
    requires dst.width == src.width && dst.height == src.height && Sound(env) && a > 0.0
    modifies dst.data
    ensures dst.Valid() && dst.Snapshot() == Glassed(src.Snapshot(), env, a)
  {
    ghost var t := Glassed(src.Snapshot(), env, a).pixels;
    var y := 0;
    while y < src.height
      invariant 0 <= y <= src.height && y * src.width <= |t|
      invariant dst.Snapshot().Wf()
      invariant forall j :: 0 <= j < y * src.width ==> dst.data[j] == t[j]
    {
      MulMono(y + 1, src.height, src.width);
      assert (y + 1) * src.width == y * src.width + src.width;
      GlassRow(src, dst, env, a, y, t);
      y := y + 1;
    }
    assert y * src.width == dst.width * dst.height;
    assert dst.data[..] == t;
  }

  /** The x loop of `filter_glass_distortion` for row y. */
  method GlassRow(src: Image, dst: Image, env: Env, a: real, y: nat, ghost t: seq<Color>)
    requires src.Snapshot().Wf() && dst.Snapshot().Wf() && dst.data != src.data
    requires dst.width == src.width && dst.height == src.height && Sound(env) && a > 0.0
    requires y < src.height && t == Glassed(src.Snapshot(), env, a).pixels
    requires y * src.width + src.width <= |t| && forall j :: 0 <= j < y * src.width ==> dst.data[j] == t[j]
    modifies dst.data
    ensures dst.Snapshot().Wf()
    ensures forall j :: 0 <= j < y * src.width + src.width ==> dst.data[j] == t[j]
  {
    var x := 0;
    while x < src.width
      invariant 0 <= x <= src.width && dst.Snapshot().Wf()
      invariant forall j :: 0 <= j < y * src.width + x ==> dst.data[j] == t[j]
    {
      GlassStep(src, dst, env, a, x, y, t);
      x := x + 1;
    }
  }

  /** One pass of the x loop: the displaced, clamped source point of
      (x, y) is sampled from `src` and stored in `dst`. */
  method GlassStep(src: Image, dst: Image, env: Env, a: real, x: nat, y: nat, ghost t: seq<Color>)
    requires src.Snapshot().Wf() && dst.Snapshot().Wf() && dst.data != src.data
    requires dst.width == src.width && dst.height == src.height && Sound(env) && a > 0.0
    requires x < src.width && y < src.height && t == Glassed(src.Snapshot(), env, a).pixels
    requires y * src.width + x < |t| && forall j :: 0 <= j < y * src.width + x ==> dst.data[j] == t[j]
    modifies dst.data
    ensures dst.Snapshot().Wf()
    ensures forall j :: 0 <= j < y * src.width + x + 1 ==> dst.data[j] == t[j]
  {
    var wave := env.wave(x, y);
    var dx := wave.0 * a;
    var dy := wave.1 * a;
    dx := dx + RandomInRange(env, x, y, -a * 0.3, a * 0.3);
    dy := dy + RandomInRange(env, y, x, -a * 0.3, a * 0.3);
    assert (dx, dy) == Shift(env, a, x, y);
    var newX := x as real + dx;
    var newY := y as real + dy;
    if newX < 0.0 {
      newX := 0.0;
    }
    if newY < 0.0 {
      newY := 0.0;
    }
    if newX >= src.width as real {
      newX := (src.width - 1) as real;
    }
    if newY >= src.height as real {
      newY := (src.height - 1) as real;
    }
    assert (newX, newY) == SourcePoint(env, a, src.width, src.height, x, y);
    var c := Bilinear(src.Snapshot(), newX, newY);
    GlassedAt(src.Snapshot(), env, a, x, y);
    dst.SetNext(x, y, c, t);
  }

  // ---------------------------------------------------------------------
  // filter_crystallize
  // ---------------------------------------------------------------------

  /** The sample point of the cell at (cx, cy): each `rand()` draw reduced
      modulo the clipped cell size and added to the cell's start, so the
      point always lies in the cell. */
  function SamplePoint(env: Env, cs: nat, w: nat, h: nat, cx: nat, cy: nat): (p: (nat, nat))
    requires cs > 0 && cx < w && cy < h
    ensures cx <= p.0 < CellEnd(cx, cs, w) && cy <= p.1 < CellEnd(cy, cs, h)
  {
    var d := env.draws(cx, cy);
    (cx + d.0 % (CellEnd(cx, cs, w) - cx), cy + d.1 % (CellEnd(cy, cs, h) - cy))
  }

  /** The colour of the cell at (cx, cy): its sample pixel with the same
      random shift from [-0.05, 0.05] added to every channel, each channel
      clamped into [0, 1] (`fminf(1, fmaxf(0, v))`). */
  function CellColor(r: Raster, env: Env, cs: nat, cx: nat, cy: nat): (c: Color)
    requires r.Wf() && Sound(env) && cs > 0 && cx < r.width && cy < r.height
    ensures InRange(c)
  {
    var p := SamplePoint(env, cs, r.width, r.height, cx, cy);
    var s := Neighbour(r, p.0, p.1);
    var hue := RandomInRange(env, cx, cy, -0.05, 0.05);
    Color(ClampChannel(s.r + hue), ClampChannel(s.g + hue), ClampChannel(s.b + hue))
  }

  /** A pixel on the first or last row or column of its cell. */
  predicate OnCellEdge(x: nat, y: nat, cx: nat, cy: nat, ex: nat, ey: nat)
  {
    x == cx || x == ex - 1 || y == cy || y == ey - 1
  }

  /** Pixel (x, y) of the crystallized image: on its cell's edge the mean
      of the original pixel and the cell colour, inside the cell the cell
      colour; stored clamped. */
  function CrystalPixel(r: Raster, env: Env, cs: nat, x: nat, y: nat): (c: Color)
    requires r.Wf() && Sound(env) && cs > 0 && x < r.width && y < r.height
    ensures InRange(c)
  {
    var cx, cy := CellStart(x, cs), CellStart(y, cs);
    var cell := CellColor(r, env, cs, cx, cy);
    if OnCellEdge(x, y, cx, cy, CellEnd(cx, cs, r.width), CellEnd(cy, cs, r.height)) then
      Clamp(Weighted(Plus(r.At(x, y), cell), 0.5))
    else
      Clamp(cell)
  }

  function Crystallized(r: Raster, env: Env, cs: nat): (o: Raster)
    requires r.Wf() && Sound(env) && cs > 0
    ensures o.Valid() && o.width == r.width && o.height == r.height
  {
    var f := (x: nat, y: nat) => if x < r.width && y < r.height then CrystalPixel(r, env, cs, x, y) else Black;
    TabulateValid(r.width, r.height, f);
    Tabulate(r.width, r.height, f)
  }

  /** Pixel (x, y) of the crystallized buffer. */
  lemma CrystallizedAt(r: Raster, env: Env, cs: nat, x: nat, y: nat)
    requires r.Wf() && Sound(env) && cs > 0 && x < r.width && y < r.height
    ensures Crystallized(r, env, cs).Wf()
    ensures Crystallized(r, env, cs).At(x, y) == CrystalPixel(r, env, cs, x, y)
  {
    TabulateAt(r.width, r.height, (x: nat, y: nat) => if x < r.width && y < r.height then CrystalPixel(r, env, cs, x, y) else Black, x, y);
  }

  /** `filter_crystallize` as a value: nothing for a cell size below 2;
      sizes above 100 are accepted. */
  function Crystal(r: Raster, env: Env, cellSize: int): (o: Option<Raster>)
    requires r.Wf() && Sound(env)
    ensures o.None? <==> cellSize < 2
    ensures o.Some? ==> o.value.Valid() && o.value.width == r.width && o.value.height == r.height
  {
    if cellSize < 2 then None else Some(Crystallized(r, env, cellSize))
  }

  /** Two interior pixels of the same cell get the same colour, the cell's
      shifted sample colour. */
  lemma CrystalInterior(r: Raster, env: Env, cs: nat, x: nat, y: nat, q: nat, p: nat)
    requires r.Wf() && Sound(env) && cs > 0 && x < r.width && y < r.height
    requires q * cs <= x < q * cs + cs && p * cs <= y < p * cs + cs
    requires !OnCellEdge(x, y, q * cs, p * cs, CellEnd(q * cs, cs, r.width), CellEnd(p * cs, cs, r.height))
    ensures CrystalPixel(r, env, cs, x, y) == CellColor(r, env, cs, q * cs, p * cs)
  {
    CellUnique(x, q, cs);
    CellUnique(y, p, cs);
  }

  /** An edge pixel is the clamped mean of the original pixel and its cell
      colour. */
  lemma CrystalEdge(r: Raster, env: Env, cs: nat, x: nat, y: nat, q: nat, p: nat)
    requires r.Valid() && Sound(env) && cs > 0 && x < r.width && y < r.height
    requires q * cs <= x < q * cs + cs && p * cs <= y < p * cs + cs
    requires OnCellEdge(x, y, q * cs, p * cs, CellEnd(q * cs, cs, r.width), CellEnd(p * cs, cs, r.height))
    ensures var o, c := r.At(x, y), CellColor(r, env, cs, q * cs, p * cs);
            CrystalPixel(r, env, cs, x, y) == Color((o.r + c.r) * 0.5, (o.g + c.g) * 0.5, (o.b + c.b) * 0.5)
  {
    CellUnique(x, q, cs);
    CellUnique(y, p, cs);
    AtInRange(r, x, y);
  }

  /** `filter_crystallize`: fails with the image unchanged for a cell size
      below 2; otherwise fills every cell from a copy of the image taken
      before any pixel is written. */
  method Crystallize(img: Image, env: Env, cellSize: int) returns (ok: bool)
    requires img.Valid() && Sound(env)
    modifies img.data
    ensures img.Valid()
    ensures ok <==> cellSize >= 2
    ensures ok ==> Crystal(old(img.Snapshot()), env, cellSize) == Some(img.Snapshot())
    ensures !ok ==> img.Snapshot() == old(img.Snapshot())
  {
    if cellSize < 2 {
      return false;
    }
    var copy := img.Copy();
    ghost var orig := copy.Snapshot();
    ghost var tgt := Crystallized(orig, env, cellSize);
    var cellY := 0;
    ghost var p := 0;
    while cellY < img.height
      invariant cellY == p * cellSize && img.Valid() && copy.data != img.data && copy.Snapshot() == orig
      invariant Written(img.Snapshot(), orig, tgt, cellSize, 0, cellY, 0, cellY)
    {
      CellRow(img, copy, env, cellSize, cellY, p, tgt);
      assert cellY + cellSize == (p + 1) * cellSize;
      cellY := cellY + cellSize;
      p := p + 1;
    }
    forall x: nat, y: nat | x < img.width && y < img.height
      ensures img.Snapshot().At(x, y) == tgt.At(x, y)
    {
    }
    SameRaster(img.Snapshot(), tgt);
    return true;
  }

  /** The cell_x loop of `filter_crystallize` for the cell row at cellY. */
  method CellRow(img: Image, copy: Image, env: Env, cs: nat, cellY: nat, ghost p: nat, ghost tgt: Raster)
    requires img.Valid() && copy.Snapshot().Wf() && copy.data != img.data && Sound(env) && cs > 0
    requires copy.width == img.width && copy.height == img.height
    requires cellY == p * cs && cellY < img.height && tgt == Crystallized(copy.Snapshot(), env, cs)
    requires Written(img.Snapshot(), copy.Snapshot(), tgt, cs, 0, cellY, 0, cellY)
    modifies img.data
    ensures img.Valid()
    ensures Written(img.Snapshot(), copy.Snapshot(), tgt, cs, 0, cellY + cs, 0, cellY + cs)
  {
    var cellX := 0;
    ghost var q := 0;
    while cellX < img.width
      invariant cellX == q * cs && img.Valid() && copy.Snapshot() == old(copy.Snapshot())
      invariant Written(img.Snapshot(), copy.Snapshot(), tgt, cs, cellX, cellY, cellX, cellY)
    {
      Cell(img, copy, env, cs, cellX, cellY, q, p, tgt);
      assert cellX + cs == (q + 1) * cs;
      cellX := cellX + cs;
      q := q + 1;
    }
    WrittenSame(img.Snapshot(), copy.Snapshot(), tgt, cs, cellX, cellY, cellX, cellY, 0, cellY + cs, 0, cellY + cs);
  }

  /** One cell: pick its sample point and colour, then the y loop over its
      clipped rows. */
  method Cell(img: Image, copy: Image, env: Env, cs: nat, cellX: nat, cellY: nat, ghost q: nat, ghost p: nat, ghost tgt: Raster)
    requires img.Valid() && copy.Snapshot().Wf() && copy.data != img.data && Sound(env) && cs > 0
    requires copy.width == img.width && copy.height == img.height
    requires cellX == q * cs && cellY == p * cs && cellX < img.width && cellY < img.height
    requires tgt == Crystallized(copy.Snapshot(), env, cs)
    requires Written(img.Snapshot(), copy.Snapshot(), tgt, cs, cellX, cellY, cellX, cellY)
    modifies img.data
    ensures img.Valid()
    ensures Written(img.Snapshot(), copy.Snapshot(), tgt, cs, cellX + cs, cellY, cellX + cs, cellY)
  {
    var endX := if cellX + cs > img.width then img.width else cellX + cs;
    var endY := if cellY + cs > img.height then img.height else cellY + cs;
    var cell := PickColor(copy, env, cs, cellX, cellY, endX, endY);
    var y := cellY;
    while y < endY
      invariant cellY <= y <= endY && img.Valid() && copy.Snapshot() == old(copy.Snapshot())
      invariant Written(img.Snapshot(), copy.Snapshot(), tgt, cs, cellX, cellY, cellX, y)
    {
      CellLine(img, copy, env, cs, cellX, cellY, endX, endY, y, q, p, cell, tgt);
      y := y + 1;
    }
    WrittenSame(img.Snapshot(), copy.Snapshot(), tgt, cs, cellX, cellY, cellX, endY, cellX + cs, cellY, cellX + cs, cellY);
  }

  /** The colour of one cell: the sample point from the two `rand()`
      draws, its pixel in the copy (black if missing), shifted and clamped
      channel by channel. */
  method PickColor(copy: Image, env: Env, cs: nat, cellX: nat, cellY: nat, endX: nat, endY: nat) returns (cell: Color)
    requires copy.Snapshot().Wf() && Sound(env) && cs > 0 && cellX < copy.width && cellY < copy.height
    requires endX == CellEnd(cellX, cs, copy.width) && endY == CellEnd(cellY, cs, copy.height)
    ensures cell == CellColor(copy.Snapshot(), env, cs, cellX, cellY)
  {
    var draw := env.draws(cellX, cellY);
    var sampleX := cellX + draw.0 % (endX - cellX);
    var sampleY := cellY + draw.1 % (endY - cellY);
    var sample := copy.Snapshot().Get(sampleX, sampleY);
    var s := if sample.Some? then sample.value else Black;
    var hue := RandomInRange(env, cellX, cellY, -0.05, 0.05);
    cell := Color(ClampChannel(s.r + hue), ClampChannel(s.g + hue), ClampChannel(s.b + hue));
  }

  /** The x loop over row y of one cell. */
  method CellLine(img: Image, copy: Image, env: Env, cs: nat, cellX: nat, cellY: nat, endX: nat, endY: nat, y: nat,
                  ghost q: nat, ghost p: nat, cell: Color, ghost tgt: Raster)
    requires img.Valid() && copy.Snapshot().Wf() && copy.data != img.data && Sound(env) && cs > 0
    requires copy.width == img.width && copy.height == img.height
    requires cellX == q * cs && cellY == p * cs && cellX < img.width && cellY < img.height && cellY <= y < endY
    requires endX == CellEnd(cellX, cs, img.width) && endY == CellEnd(cellY, cs, img.height)
    requires tgt == Crystallized(copy.Snapshot(), env, cs) && cell == CellColor(copy.Snapshot(), env, cs, cellX, cellY)
    requires Written(img.Snapshot(), copy.Snapshot(), tgt, cs, cellX, cellY, cellX, y)
    modifies img.data
    ensures img.Valid()
    ensures Written(img.Snapshot(), copy.Snapshot(), tgt, cs, cellX, cellY, cellX, y + 1)
  {
    var x := cellX;
    while x < endX
      invariant cellX <= x <= endX && img.Valid() && copy.Snapshot() == old(copy.Snapshot())
      invariant Written(img.Snapshot(), copy.Snapshot(), tgt, cs, cellX, cellY, x, y)
    {
      CellPixel(img, copy, env, cs, cellX, cellY, endX, endY, x, y, q, p, cell, tgt);
      x := x + 1;
    }
    WrittenSame(img.Snapshot(), copy.Snapshot(), tgt, cs, cellX, cellY, endX, y, cellX, cellY, cellX, y + 1);
  }

  /** One pixel of a cell: edge pixels are blended with the original from
      the copy, interior pixels take the cell colour. */
  method CellPixel(img: Image, copy: Image, env: Env, cs: nat, cellX: nat, cellY: nat, endX: nat, endY: nat,
                   x: nat, y: nat, ghost q: nat, ghost p: nat, cell: Color, ghost tgt: Raster)
    requires img.Valid() && copy.Snapshot().Wf() && copy.data != img.data && Sound(env) && cs > 0
    requires copy.width == img.width && copy.height == img.height
    requires cellX == q * cs && cellY == p * cs && cellX < img.width && cellY < img.height
    requires cellX <= x < endX && cellY <= y < endY
    requires endX == CellEnd(cellX, cs, img.width) && endY == CellEnd(cellY, cs, img.height)
    requires tgt == Crystallized(copy.Snapshot(), env, cs) && cell == CellColor(copy.Snapshot(), env, cs, cellX, cellY)
    requires Written(img.Snapshot(), copy.Snapshot(), tgt, cs, cellX, cellY, x, y)
    modifies img.data
    ensures img.Valid()
    ensures Written(img.Snapshot(), copy.Snapshot(), tgt, cs, cellX, cellY, x + 1, y)
  {
    CellUnique(x, q, cs);
    CellUnique(y, p, cs);
    CrystallizedAt(copy.Snapshot(), env, cs, x, y);
    ghost var cur := img.Snapshot();
    if x == cellX || x == endX - 1 || y == cellY || y == endY - 1 {
      var original := copy.Snapshot().Get(x, y);
      if original.Some? {
        var o := original.value;
        var blended := Color((o.r + cell.r) * 0.5, (o.g + cell.g) * 0.5, (o.b + cell.b) * 0.5);
        img.SetPixel(x, y, blended);
        WrittenStep(cur, copy.Snapshot(), tgt, cs, cellX, cellY, x, y, blended);
      }
    } else {
      img.SetPixel(x, y, cell);
      WrittenStep(cur, copy.Snapshot(), tgt, cs, cellX, cellY, x, y, cell);
    }
  }
}
