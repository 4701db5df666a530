/** The mosaic filter of bonus_mosaic.c: the image is cut into square cells,
    and each cell is replaced by the atlas tile whose mean colour is nearest
    to the cell's mean colour, blended 70/30 with the original pixels. */
module Mosaic {
  import opened Wrappers
  import opened Colors
  import opened Images
  import opened Externals
  import opened Grid
  import Bmp

  // ---------------------------------------------------------------------
  // compute_average_color
  // ---------------------------------------------------------------------

  /** The channel sums of row y from column x0 up to x1, added left to right. */
  function RowSum(r: Raster, y: nat, x0: nat, x1: nat): Color
    requires r.Wf() && y < r.height && x0 <= x1 <= r.width
    decreases x1 - x0
  {
    if x1 == x0 then Black else Plus(RowSum(r, y, x0, x1 - 1), r.At(x1 - 1, y))
  }

  /** The channel sums of rows y0 up to y1 over columns x0 up to x1. */
  function RegionSum(r: Raster, x0: nat, x1: nat, y0: nat, y1: nat): Color
    requires r.Wf() && x0 <= x1 <= r.width && y0 <= y1 <= r.height
    decreases y1 - y0
  {
    if y1 == y0 then Black else Plus(RegionSum(r, x0, x1, y0, y1 - 1), RowSum(r, y1 - 1, x0, x1))
  }

  /** Every channel divided by n. */
  function Over(c: Color, n: real): Color
    requires n > 0.0
  {
    Color(c.r / n, c.g / n, c.b / n)
  }

  /** `compute_average_color`: black for an empty region or a start outside
      the image; otherwise the region is cut to the image
      (`end = min(start + size, dim)`) and every channel is the mean over
      the cut region. The cut region is never empty once the start is
      inside the image, so the source's second emptiness test never
      fires. */
  function Average(r: Raster, sx: nat, sy: nat, w: nat, h: nat): (c: Color)
    requires r.Wf()
    ensures w == 0 || h == 0 || sx >= r.width || sy >= r.height ==> c == Black
  {
    if w == 0 || h == 0 || sx >= r.width || sy >= r.height then Black
    else
      var aw, ah := Clip(sx, w, r.width), Clip(sy, h, r.height);
      MulMono(1, ah, aw);
      Over(RegionSum(r, sx, sx + aw, sy, sy + ah), (aw * ah) as real)
  }

  /** The sums of a row of in-range pixels lie between 0 and the row's
      length. */
  lemma {:induction false} RowSumBounds(r: Raster, y: nat, x0: nat, x1: nat)
    requires r.Valid() && y < r.height && x0 <= x1 <= r.width
    ensures var s, n := RowSum(r, y, x0, x1), (x1 - x0) as real;
            0.0 <= s.r <= n && 0.0 <= s.g <= n && 0.0 <= s.b <= n
    decreases x1 - x0
  {
    if x1 > x0 {
      RowSumBounds(r, y, x0, x1 - 1);
      AtInRange(r, x1 - 1, y);
    }
  }

  /** The sums of a region of in-range pixels lie between 0 and its number
      of pixels. */
  lemma {:induction false} RegionSumBounds(r: Raster, x0: nat, x1: nat, y0: nat, y1: nat)
    requires r.Valid() && x0 <= x1 <= r.width && y0 <= y1 <= r.height
    ensures var s, n := RegionSum(r, x0, x1, y0, y1), ((x1 - x0) * (y1 - y0)) as real;
            0.0 <= s.r <= n && 0.0 <= s.g <= n && 0.0 <= s.b <= n
    decreases y1 - y0
  {
    if y1 > y0 {
      RegionSumBounds(r, x0, x1, y0, y1 - 1);
      RowSumBounds(r, y1 - 1, x0, x1);
      RowsStep(x1 - x0, y1 - y0);
      var a, b := RegionSum(r, x0, x1, y0, y1 - 1), RowSum(r, y1 - 1, x0, x1);
      assert RegionSum(r, x0, x1, y0, y1) == Plus(a, b);
      assert ((x1 - x0) * (y1 - y0)) as real == ((x1 - x0) * (y1 - 1 - y0)) as real + (x1 - x0) as real;
    }
  }

  /** k rows of w pixels are k - 1 rows and one more row. */
  lemma RowsStep(w: nat, k: nat)
    requires k > 0
    ensures w * k == w * (k - 1) + w
  {
  }

  /** A channel sum between 0 and n, divided by n, lies in [0, 1]. */
  lemma MeanInUnit(s: real, n: real)
    requires 0.0 <= s <= n && n > 0.0
    ensures InUnit(s / n)
  {
    assert (s / n) * n == s;
  }

  /** The mean colour of in-range pixels is in range. */
  lemma AverageInRange(r: Raster, sx: nat, sy: nat, w: nat, h: nat)
    requires r.Valid()
    ensures InRange(Average(r, sx, sy, w, h))
  {
    if !(w == 0 || h == 0 || sx >= r.width || sy >= r.height) {
      var aw, ah := Clip(sx, w, r.width), Clip(sy, h, r.height);
      RegionSumBounds(r, sx, sx + aw, sy, sy + ah);
      var s, n := RegionSum(r, sx, sx + aw, sy, sy + ah), (aw * ah) as real;
      MulMono(1, ah, aw);
      MeanInUnit(s.r, n);
      MeanInUnit(s.g, n);
      MeanInUnit(s.b, n);
    }
  }

  /** A row of one colour sums to that colour times its length. */
  lemma {:induction false} RowSumFlat(r: Raster, y: nat, x0: nat, x1: nat, c: Color)
    requires r.Wf() && y < r.height && x0 <= x1 <= r.width
    requires forall x: nat :: x0 <= x < x1 ==> r.At(x, y) == c
    ensures RowSum(r, y, x0, x1) == Weighted(c, (x1 - x0) as real)
    decreases x1 - x0
  {
    if x1 > x0 {
      RowSumFlat(r, y, x0, x1 - 1, c);
      WeightedPlus(c, (x1 - 1 - x0) as real, 1.0);
    }
  }

  /** A region of one colour sums to that colour times its pixel count. */
  lemma {:induction false} RegionSumFlat(r: Raster, x0: nat, x1: nat, y0: nat, y1: nat, c: Color)
    requires r.Wf() && x0 <= x1 <= r.width && y0 <= y1 <= r.height
    requires forall x: nat, y: nat :: x0 <= x < x1 && y0 <= y < y1 ==> r.At(x, y) == c
    ensures RegionSum(r, x0, x1, y0, y1) == Weighted(c, ((x1 - x0) * (y1 - y0)) as real)
    decreases y1 - y0
  {
    if y1 > y0 {
      RegionSumFlat(r, x0, x1, y0, y1 - 1, c);
      RowSumFlat(r, y1 - 1, x0, x1, c);
      RowsStep(x1 - x0, y1 - y0);
      WeightedPlus(c, ((x1 - x0) * (y1 - 1 - y0)) as real, (x1 - x0) as real);
    }
  }

  /** Dividing n copies of a colour by n gives the colour back. */
  lemma OverWeighted(c: Color, n: real)
    requires n > 0.0
    ensures Over(Weighted(c, n), n) == c
  {
    assert c.r * n / n == c.r && c.g * n / n == c.g && c.b * n / n == c.b;
  }

  /** The mean of a region whose pixels all have one colour is that colour. */
  lemma AverageFlat(r: Raster, sx: nat, sy: nat, w: nat, h: nat, c: Color)
    requires r.Wf() && 0 < w && 0 < h && sx < r.width && sy < r.height
    requires forall x: nat, y: nat :: sx <= x < sx + w && sy <= y < sy + h && x < r.width && y < r.height ==> r.At(x, y) == c
    ensures Average(r, sx, sy, w, h) == c
  {
    var aw, ah := Clip(sx, w, r.width), Clip(sy, h, r.height);
    RegionSumFlat(r, sx, sx + aw, sy, sy + ah, c);
    var n := (aw * ah) as real;
    MulMono(1, ah, aw);
    OverWeighted(c, n);
  }

  /** The row loop of `compute_average_color`: adds row y of the region to
      the running sums. */
  method SumRow(r: Raster, x0: nat, x1: nat, y: nat, sum: Color) returns (s: Color)
    requires r.Wf() && y < r.height && x0 <= x1 <= r.width
    ensures s == Plus(sum, RowSum(r, y, x0, x1))
  {
    s := sum;
    var x := x0;
    while x < x1
      invariant x0 <= x <= x1 && s == Plus(sum, RowSum(r, y, x0, x))
    {
      var pixel := r.Get(x, y);
      if pixel.Some? {
        s := Plus(s, pixel.value);
      }
      x := x + 1;
    }
  }

  /** `compute_average_color` over a read-only image. */
  method ComputeAverageColor(r: Raster, sx: nat, sy: nat, w: nat, h: nat) returns (avg: Color)
    requires r.Wf()
    ensures avg == Average(r, sx, sy, w, h)
  {
    if w == 0 || h == 0 {
      return Black;
    }
    if sx >= r.width || sy >= r.height {
      return Black;
    }
    var ex, ey := sx + w, sy + h;
    if ex > r.width {
      ex := r.width;
    }
    if ey > r.height {
      ey := r.height;
    }
    var aw, ah := ex - sx, ey - sy;
    MulMono(1, ah, aw);
    var total := (aw * ah) as real;
    var sum := Black;
    var y := sy;
    while y < ey
      invariant sy <= y <= ey && sum == RegionSum(r, sx, ex, sy, y)
    {
      sum := SumRow(r, sx, ex, y, sum);
      y := y + 1;
    }
    avg := Color(sum.r / total, sum.g / total, sum.b / total);
  }

  // ---------------------------------------------------------------------
  // color_distance and find_best_tile
  // ---------------------------------------------------------------------

  /** The square of `color_distance`. `sqrtf` is increasing, so comparing
      squares picks the same tile as comparing distances. */
  function Distance2(a: Color, b: Color): (d: real)
    ensures d >= 0.0
  {
    var dr, dg, db := a.r - b.r, a.g - b.g, a.b - b.b;
    dr * dr + dg * dg + db * db
  }

  /** A colour is at distance 0 from itself. */
  lemma DistanceSelf(a: Color)
    ensures Distance2(a, a) == 0.0
  {
  }

  /** The squared distance is symmetric and is 0 only between equal
      colours. */
  lemma DistanceZero(a: Color, b: Color)
    ensures Distance2(a, b) == Distance2(b, a)
    ensures Distance2(a, b) == 0.0 <==> a == b
  {
    var dr, dg, db := a.r - b.r, a.g - b.g, a.b - b.b;
    if a != b {
      var x := if dr != 0.0 then dr else if dg != 0.0 then dg else db;
      SquarePositive(x);
      calc {
        Distance2(a, b);
        == dr * dr + dg * dg + db * db;
        >= x * x;
        > 0.0;
      }
    }
  }

  /** A square is positive away from 0. */
  lemma SquarePositive(x: real)
    requires x != 0.0
    ensures x * x > 0.0
  {
    if x < 0.0 {
      calc {
        x * x;
        == (-x) * (-x);
        > 0.0;
      }
    }
  }

  /** The index the scan of `find_best_tile` ends on: a distance replaces
      the best so far only when strictly smaller, so this is the first
      index of the smallest distance; 0 when there are none. */
  function FirstMin(d: seq<real>): (i: nat)
    ensures |d| == 0 ==> i == 0
    ensures |d| > 0 ==> i < |d|
    ensures |d| > 0 ==> forall j :: 0 <= j < |d| ==> d[i] <= d[j]
    ensures |d| > 0 ==> forall j :: 0 <= j < i ==> d[i] < d[j]
    decreases |d|
  {
    if |d| <= 1 then 0
    else
      var k := FirstMin(d[..|d| - 1]);
      if d[|d| - 1] < d[k] then |d| - 1 else k
  }

  /** The first smallest distance is unique: any index holding a smallest
      distance with only larger distances before it is `FirstMin`. */
  lemma FirstMinUnique(d: seq<real>, i: nat)
    requires i < |d|
    requires forall j :: 0 <= j < |d| ==> d[i] <= d[j]
    requires forall j :: 0 <= j < i ==> d[i] < d[j]
    ensures FirstMin(d) == i
  {
  }

  /** One more distance: it becomes the first minimum only when strictly
      smaller than the current one. */
  lemma FirstMinNext(d: seq<real>, i: nat)
    requires i < |d|
    ensures FirstMin(d[..i + 1]) == if i == 0 || d[i] < d[FirstMin(d[..i])] then i else FirstMin(d[..i])
  {
    assert d[..i + 1][..i] == d[..i];
  }

  /** The mean colour of a whole tile. */
  function TileAverage(t: Raster): Color
    requires t.Wf()
  {
    Average(t, 0, 0, t.width, t.height)
  }

  predicate AllWf(tiles: seq<Raster>)
  {
    forall i :: 0 <= i < |tiles| ==> tiles[i].Wf()
  }

  /** The distance of every tile's mean colour to the target. */
  function Distances(tiles: seq<Raster>, target: Color): (d: seq<real>)
    requires AllWf(tiles)
    ensures |d| == |tiles|
  {
    seq(|tiles|, i requires 0 <= i < |tiles| => Distance2(target, TileAverage(tiles[i])))
  }

  /** Any strictly increasing function of the distances, such as
      `sqrtf`, orders them the same way, so its first minimum is at the
      same index: comparing squared distances picks the tile that
      comparing distances picks. */
  lemma FirstMinMonotone(d: seq<real>, e: seq<real>)
    requires |d| == |e|
    requires forall i, j :: 0 <= i < |d| && 0 <= j < |d| ==> (d[i] < d[j] <==> e[i] < e[j])
    ensures FirstMin(d) == FirstMin(e)
  {
    if |d| > 0 {
      var i := FirstMin(d);
      assert forall j :: 0 <= j < |e| ==> e[i] <= e[j] by {
        forall j | 0 <= j < |e|
          ensures e[i] <= e[j]
        {
          assert !(d[j] < d[i]);
        }
      }
      FirstMinUnique(e, i);
    }
  }

  /** `find_best_tile`: 0 for an empty set, otherwise the lowest index
      whose tile mean is nearest to the target. */
  function BestTile(tiles: seq<Raster>, target: Color): (i: nat)
    requires AllWf(tiles)
    ensures |tiles| == 0 ==> i == 0
    ensures |tiles| > 0 ==> i < |tiles|
  {
    FirstMin(Distances(tiles, target))
  }

  /** A tile whose mean is exactly the target is always matched: the best
      tile comes no later and its mean is at distance 0 from the target. */
  lemma BestTileExact(tiles: seq<Raster>, target: Color, k: nat)
    requires AllWf(tiles) && k < |tiles| && TileAverage(tiles[k]) == target
    ensures BestTile(tiles, target) <= k
    ensures Distance2(target, TileAverage(tiles[BestTile(tiles, target)])) == 0.0
  {
    var d := Distances(tiles, target);
    DistanceSelf(target);
    assert d[k] == 0.0;
  }

  /** `find_best_tile`: one pass over the tiles keeping the best index and
      distance; the best distance starts at infinity (`None`). */
  method FindBestTile(tiles: seq<Raster>, target: Color) returns (best: nat)
    requires AllWf(tiles)
    ensures best == BestTile(tiles, target)
  {
    if |tiles| == 0 {
      return 0;
    }
    ghost var d := Distances(tiles, target);
    best := 0;
    var bestDistance: Option<real> := None;
    var i := 0;
    while i < |tiles|
      invariant 0 <= i <= |tiles|
      invariant i == 0 ==> best == 0 && bestDistance.None?
      invariant i > 0 ==> best < i && best == FirstMin(d[..i]) && bestDistance == Some(d[best])
    {
      var tileAvg := ComputeAverageColor(tiles[i], 0, 0, tiles[i].width, tiles[i].height);
      var distance := Distance2(target, tileAvg);
      FirstMinNext(d, i);
      if bestDistance.None? || distance < bestDistance.value {
        bestDistance := Some(distance);
        best := i;
      }
      i := i + 1;
    }
    assert d[..|tiles|] == d;
  }

  // ---------------------------------------------------------------------
  // load_tile_set
  // ---------------------------------------------------------------------

  /** `bmp_load` of the named file: nothing when the file cannot be read or
      does not decode. */
  function Atlas(env: Env, name: string): (a: Option<Raster>)
    ensures a.Some? ==> a.value.Valid()
  {
    match env.files(name)
    case None => None
    case Some(bytes) =>
      match Bmp.Decode(bytes)
      case Err(_) => None
      case Ok(r) => Some(r)
  }

  /** The tile whose top-left corner is atlas pixel (ox, oy): a fresh
      ts x ts image filled through `image_set_pixel`. */
  function Tile(atlas: Raster, ts: nat, ox: nat, oy: nat): (t: Raster)
    requires atlas.Wf() && 0 < ts && ox + ts <= atlas.width && oy + ts <= atlas.height
    ensures t.Valid() && t.width == ts && t.height == ts
  {
    var f := (x: nat, y: nat) => if x < ts && y < ts then Clamp(atlas.At(ox + x, oy + y)) else Black;
    forall x: nat, y: nat | x < ts && y < ts
      ensures InRange(f(x, y))
    {
      assert f(x, y) == Clamp(atlas.At(ox + x, oy + y));
    }
    TabulateValid(ts, ts, f);
    Tabulate(ts, ts, f)
  }

  /** Tile (x, y) of an atlas pixel (ox + x, oy + y). */
  lemma TileAt(atlas: Raster, ts: nat, ox: nat, oy: nat, x: nat, y: nat)
    requires atlas.Wf() && 0 < ts && ox + ts <= atlas.width && oy + ts <= atlas.height && x < ts && y < ts
    ensures y * ts + x < ts * ts
    ensures Tile(atlas, ts, ox, oy).pixels[y * ts + x] == Tile(atlas, ts, ox, oy).At(x, y) == Clamp(atlas.At(ox + x, oy + y))
  {
    TabulateAt(ts, ts, (x: nat, y: nat) => if x < ts && y < ts then Clamp(atlas.At(ox + x, oy + y)) else Black, x, y);
  }

  /** The q-th cell along a side whose length n is a multiple of ts ends
      inside it. */
  lemma GridFits(q: nat, n: nat, ts: nat)
    requires 0 < ts && n % ts == 0 && q < n / ts
    ensures q * ts + ts <= n
  {
    MulMono(q + 1, n / ts, ts);
  }

  /** The atlas's size is a whole number of tiles in both directions. */
  predicate Divisible(atlas: Raster, ts: nat)
    requires 0 < ts
  {
    atlas.width % ts == 0 && atlas.height % ts == 0
  }

  /** Tile number i: the tiles are numbered row by row, `tiles_x` to a row. */
  function TileNumber(atlas: Raster, ts: nat, i: nat): (t: Raster)
    requires atlas.Wf() && 0 < ts && Divisible(atlas, ts)
    requires i < (atlas.width / ts) * (atlas.height / ts)
    ensures t.Valid() && t.width == ts && t.height == ts
  {
    var tx, ty := atlas.width / ts, atlas.height / ts;
    Coords(i, tx, ty);
    GridFits(i % tx, atlas.width, ts);
    GridFits(i / tx, atlas.height, ts);
    Tile(atlas, ts, (i % tx) * ts, (i / tx) * ts)
  }

  /** The slicing of `load_tile_set`: `(w / ts) * (h / ts)` tiles, at least
      one, each a ts x ts valid image. */
  function Slice(atlas: Raster, ts: nat): (tiles: seq<Raster>)
    requires atlas.Wf() && 0 < ts && Divisible(atlas, ts)
    ensures |tiles| == (atlas.width / ts) * (atlas.height / ts) > 0
    ensures forall i :: 0 <= i < |tiles| ==> tiles[i].Valid() && tiles[i].width == ts && tiles[i].height == ts
  {
    var n := (atlas.width / ts) * (atlas.height / ts);
    MulMono(1, atlas.height / ts, atlas.width / ts);
    seq(n, i requires 0 <= i < n => TileNumber(atlas, ts, i))
  }

  /** Pixel (x, y) of tile `ty * tiles_x + tx` is atlas pixel
      (tx * ts + x, ty * ts + y). */
  lemma TilePixel(atlas: Raster, ts: nat, tx: nat, ty: nat, x: nat, y: nat)
    requires atlas.Valid() && 0 < ts && Divisible(atlas, ts)
    requires tx < atlas.width / ts && ty < atlas.height / ts && x < ts && y < ts
    ensures ty * (atlas.width / ts) + tx < |Slice(atlas, ts)|
    ensures tx * ts + x < atlas.width && ty * ts + y < atlas.height
    ensures Slice(atlas, ts)[ty * (atlas.width / ts) + tx].At(x, y) == atlas.At(tx * ts + x, ty * ts + y)
  {
    var n := atlas.width / ts;
    IndexOf(tx, ty, n, atlas.height / ts);
    GridFits(tx, atlas.width, ts);
    GridFits(ty, atlas.height, ts);
    TileAt(atlas, ts, tx * ts, ty * ts, x, y);
    AtInRange(atlas, tx * ts + x, ty * ts + y);
  }

  /** A loaded tile set; `count` is the length of `tiles`. */
  datatype TileSet = TileSet(tiles: seq<Raster>, tileSize: nat)

  /** `load_tile_set`: nothing for a tile size below 1, an atlas that cannot
      be loaded, or an atlas whose sides are not multiples of the tile
      size; otherwise the sliced tiles, of which there is always at least
      one. */
  function TileSetOf(env: Env, name: string, ts: int): (s: Option<TileSet>)
    ensures s.None? <==> ts <= 0 || Atlas(env, name).None? || !Divisible(Atlas(env, name).value, ts)
    ensures s.Some? ==> s.value.tileSize == ts && |s.value.tiles| > 0
    ensures s.Some? ==> forall i :: 0 <= i < |s.value.tiles| ==>
              s.value.tiles[i].Valid() && s.value.tiles[i].width == ts && s.value.tiles[i].height == ts
  {
    if ts <= 0 then None
    else
      match Atlas(env, name)
      case None => None
      case Some(atlas) =>
        if !Divisible(atlas, ts) then None else Some(TileSet(Slice(atlas, ts), ts))
  }

  /** `load_tile_set`: loads the atlas, checks its size and cuts the tiles
      out row by row into fresh images. */
  method LoadTileSet(env: Env, name: string, ts: int) returns (tileSet: Option<TileSet>)
    ensures tileSet == TileSetOf(env, name, ts)
  {
    if ts <= 0 {
      return None;
    }
    var file := env.files(name);
    if file.None? {
      return None;
    }
    var atlas := Bmp.Load(file.value);
    if atlas == null {
      return None;
    }
    if atlas.width % ts != 0 || atlas.height % ts != 0 {
      return None;
    }
    var tiles := SliceAtlas(atlas, ts);
    return Some(TileSet(tiles, ts));
  }

  /** The ty loop of `load_tile_set`: the tile rows of the atlas, top to
      bottom. */
  method SliceAtlas(atlas: Image, ts: nat) returns (tiles: seq<Raster>)
    requires atlas.Valid() && 0 < ts && Divisible(atlas.Snapshot(), ts)
    ensures tiles == Slice(atlas.Snapshot(), ts)
  {
    ghost var sl := Slice(atlas.Snapshot(), ts);
    var tilesX, tilesY := atlas.width / ts, atlas.height / ts;
    tiles := [];
    var ty := 0;
    while ty < tilesY
      invariant 0 <= ty <= tilesY
      invariant |tiles| == ty * tilesX <= |sl| && tiles == sl[..|tiles|]
    {
      MulMono(ty + 1, tilesY, tilesX);
      tiles := SliceRow(atlas, ts, ty, tiles, sl);
      ty := ty + 1;
    }
    assert |tiles| == |sl|;
  }

  /** The tx loop of `load_tile_set` for tile row ty. */
  method SliceRow(atlas: Image, ts: nat, ty: nat, tiles: seq<Raster>, ghost sl: seq<Raster>) returns (more: seq<Raster>)
    requires atlas.Valid() && 0 < ts && Divisible(atlas.Snapshot(), ts) && ty < atlas.height / ts
    requires sl == Slice(atlas.Snapshot(), ts)
    requires |tiles| == ty * (atlas.width / ts) && (ty + 1) * (atlas.width / ts) <= |sl|
    requires tiles == sl[..|tiles|]
    ensures |more| == (ty + 1) * (atlas.width / ts) && more == sl[..|more|]
  {
    var tilesX := atlas.width / ts;
    assert ty * tilesX + tilesX == (ty + 1) * tilesX;
    more := tiles;
    var tx := 0;
    while tx < tilesX
      invariant 0 <= tx <= tilesX
      invariant |more| == ty * tilesX + tx && more == sl[..|more|]
    {
      var tile := CutTile(atlas, ts, tx, ty);
      more := more + [tile];
      tx := tx + 1;
    }
  }

  /** Tile (tx, ty): a fresh ts x ts image filled from the atlas. */
  method CutTile(atlas: Image, ts: nat, tx: nat, ty: nat) returns (tile: Raster)
    requires atlas.Valid() && 0 < ts && Divisible(atlas.Snapshot(), ts)
    requires tx < atlas.width / ts && ty < atlas.height / ts
    ensures ty * (atlas.width / ts) + tx < |Slice(atlas.Snapshot(), ts)|
    ensures tile == Slice(atlas.Snapshot(), ts)[ty * (atlas.width / ts) + tx]
  {
    GridFits(tx, atlas.width, ts);
    GridFits(ty, atlas.height, ts);
    IndexOf(tx, ty, atlas.width / ts, atlas.height / ts);
    var image := new Image(ts, ts);
    CopyTile(atlas, image, tx * ts, ty * ts);
    tile := image.Snapshot();
  }

  /** The pixel loops of `load_tile_set` for one tile: every tile pixel is
      read from the atlas and stored with `image_set_pixel`. */
  method CopyTile(atlas: Image, tile: Image, ox: nat, oy: nat)
    requires atlas.Valid() && tile.Snapshot().Wf() && tile.data != atlas.data
    requires 0 < tile.width == tile.height && ox + tile.width <= atlas.width && oy + tile.width <= atlas.height
    modifies tile.data
    ensures tile.Snapshot() == Tile(atlas.Snapshot(), tile.width, ox, oy)
  {
    ghost var t := Tile(atlas.Snapshot(), tile.width, ox, oy);
    var ts := tile.width;
    var y := 0;
    while y < ts
      invariant 0 <= y <= ts && tile.Snapshot().Wf() && y * ts <= ts * ts
      invariant forall j :: 0 <= j < y * ts ==> tile.data[j] == t.pixels[j]
    {
      MulMono(y + 1, ts, ts);
      CopyTileRow(atlas, tile, ox, oy, y, t);
      y := y + 1;
    }
    assert tile.data[..] == t.pixels;
  }

  /** Row y of one tile. */
  method CopyTileRow(atlas: Image, tile: Image, ox: nat, oy: nat, y: nat, ghost t: Raster)
    requires atlas.Valid() && tile.Snapshot().Wf() && tile.data != atlas.data
    requires 0 < tile.width == tile.height && ox + tile.width <= atlas.width && oy + tile.width <= atlas.height
    requires y < tile.width && t == Tile(atlas.Snapshot(), tile.width, ox, oy)
    requires (y + 1) * tile.width <= tile.data.Length == |t.pixels|
    requires forall j :: 0 <= j < y * tile.width ==> tile.data[j] == t.pixels[j]
    modifies tile.data
    ensures tile.Snapshot().Wf()
    ensures forall j :: 0 <= j < (y + 1) * tile.width ==> tile.data[j] == t.pixels[j]
  {
    var ts := tile.width;
    assert y * ts + ts == (y + 1) * ts;
    var x := 0;
    while x < ts
      invariant 0 <= x <= ts && tile.Snapshot().Wf()
      invariant forall j :: 0 <= j < y * ts + x ==> tile.data[j] == t.pixels[j]
    {
      TileAt(atlas.Snapshot(), ts, ox, oy, x, y);
      var srcPixel := atlas.Snapshot().Get(ox + x, oy + y);
      if srcPixel.Some? {
        tile.SetNext(x, y, srcPixel.value, t.pixels);
      }
      x := x + 1;
    }
  }

  // ---------------------------------------------------------------------
  // filter_mosaic
  // ---------------------------------------------------------------------

  /** The tile's share of a mosaic pixel (`blend_factor`). */
  const Blend: real := 0.7

  /** 70% tile pixel and 30% original pixel, stored clamped. */
  function Blended(t: Color, o: Color): Color
  {
    Clamp(Plus(Weighted(t, Blend), Weighted(o, 1.0 - Blend)))
  }

  predicate Tiles(tiles: seq<Raster>, ts: nat)
  {
    && |tiles| > 0
    && forall i :: 0 <= i < |tiles| ==> tiles[i].Wf() && tiles[i].width == ts && tiles[i].height == ts
  }

  /** Pixel (x, y) of the mosaic: the mean of its cell in the original
      image picks the tile, and the tile's pixel (x mod ts, y mod ts) is
      blended with the original pixel, 70% tile, 30% original, and stored
      clamped. */
  function MosaicPixel(r: Raster, tiles: seq<Raster>, ts: nat, x: nat, y: nat): Color
    requires r.Wf() && 0 < ts && Tiles(tiles, ts) && x < r.width && y < r.height
  {
    var avg := Average(r, CellStart(x, ts), CellStart(y, ts), ts, ts);
    var tile := tiles[BestTile(tiles, avg)];
    Blended(tile.At(x % ts, y % ts), r.At(x, y))
  }

  function Mosaicked(r: Raster, tiles: seq<Raster>, ts: nat): (o: Raster)
    requires r.Wf() && 0 < ts && Tiles(tiles, ts)
    ensures o.Valid() && o.width == r.width && o.height == r.height
  {
    var f := (x: nat, y: nat) => if x < r.width && y < r.height then MosaicPixel(r, tiles, ts, x, y) else Black;
    TabulateValid(r.width, r.height, f);
    Tabulate(r.width, r.height, f)
  }

  lemma MosaickedAt(r: Raster, tiles: seq<Raster>, ts: nat, x: nat, y: nat)
    requires r.Wf() && 0 < ts && Tiles(tiles, ts) && x < r.width && y < r.height
    ensures Mosaicked(r, tiles, ts).At(x, y) == MosaicPixel(r, tiles, ts, x, y)
  {
    TabulateAt(r.width, r.height, (x: nat, y: nat) => if x < r.width && y < r.height then MosaicPixel(r, tiles, ts, x, y) else Black, x, y);
  }

  /** `filter_mosaic` as a value: nothing when the tile size is below 1 or
      the tile set cannot be loaded (tile sizes above 100 are accepted);
      otherwise the mosaic, with the image's dimensions. */
  function MosaicOf(r: Raster, env: Env, ts: int, name: string): (o: Option<Raster>)
    requires r.Wf()
    ensures o.None? <==> TileSetOf(env, name, ts).None?
    ensures o.Some? ==> o.value.Valid() && o.value.width == r.width && o.value.height == r.height
  {
    if ts <= 0 then None
    else
      match TileSetOf(env, name, ts)
      case None => None
      case Some(loaded) => Some(Mosaicked(r, loaded.tiles, ts))
  }

  /** Every pixel of cell (q, p) takes the tile chosen by the mean of that
      whole cell in the original image, at the pixel's offset inside the
      cell, and for valid inputs no clamping happens: the pixel is exactly
      0.7 tile + 0.3 original. */
  lemma CellPixel(r: Raster, tiles: seq<Raster>, ts: nat, q: nat, p: nat, x: nat, y: nat)
    requires r.Valid() && 0 < ts && Tiles(tiles, ts) && x < r.width && y < r.height
    requires forall i :: 0 <= i < |tiles| ==> tiles[i].Valid()
    requires q * ts <= x < q * ts + ts && p * ts <= y < p * ts + ts
    ensures var k := BestTile(tiles, Average(r, q * ts, p * ts, ts, ts));
            var t, o := tiles[k].At(x - q * ts, y - p * ts), r.At(x, y);
            Mosaicked(r, tiles, ts).At(x, y) == Plus(Weighted(t, 0.7), Weighted(o, 0.3))
  {
    MosaickedAt(r, tiles, ts, x, y);
    CellUnique(x, q, ts);
    CellUnique(y, p, ts);
    DivModUnique(x, ts, q, x - q * ts);
    DivModUnique(y, ts, p, y - p * ts);
    var k := BestTile(tiles, Average(r, q * ts, p * ts, ts, ts));
    AtInRange(tiles[k], x - q * ts, y - p * ts);
    AtInRange(r, x, y);
  }

  /** The first and last tile columns and rows: `ceil(n / ts)` cells of
      size ts start inside a side of length n, and together cover it. */
  lemma CeilCells(n: nat, ts: nat, t: nat)
    requires 0 < ts
    ensures t < (n + ts - 1) / ts ==> t * ts < n
    ensures t == (n + ts - 1) / ts ==> n <= t * ts
  {
    var k, m := (n + ts - 1) / ts, (n + ts - 1) % ts;
    assert n + ts - 1 == k * ts + m;
    if t < k {
      MulMono(t + 1, k, ts);
    }
  }

  /** `filter_mosaic`: fails with the image unchanged for a tile size below
      1 or a tile set that cannot be loaded; otherwise fills a fresh result
      image cell by cell from the unmodified input and then puts the
      result's pixels in place of the input's. */
  method FilterMosaic(img: Image, env: Env, ts: int, name: string) returns (ok: bool)
    requires img.Valid()
    modifies img
    ensures img.Valid()
    ensures ok <==> MosaicOf(old(img.Snapshot()), env, ts, name).Some?
    ensures ok ==> MosaicOf(old(img.Snapshot()), env, ts, name) == Some(img.Snapshot())
    ensures !ok ==> img.Snapshot() == old(img.Snapshot())
    ensures img.data == old(img.data) || fresh(img.data)
  {
    if ts <= 0 {
      return false;
    }
    var tileSet := LoadTileSet(env, name, ts);
    if tileSet.None? {
      return false;
    }
    var tiles := tileSet.value.tiles;
    assert Tiles(tiles, ts);
    var result := new Image(img.width, img.height);
    ghost var tgt := Mosaicked(img.Snapshot(), tiles, ts);
    MosaicRows(img, result, tiles, ts, tgt);
    img.data := result.data;
    img.width := result.width;
    img.height := result.height;
    return true;
  }

  /** The ty loop of `filter_mosaic`: every cell row of the fresh result,
      which ends up holding the whole mosaic. */
  method MosaicRows(img: Image, result: Image, tiles: seq<Raster>, ts: nat, ghost tgt: Raster)
    requires img.Valid() && result.Valid() && result.data != img.data && 0 < ts && Tiles(tiles, ts)
    requires result.width == img.width && result.height == img.height
    requires result.Snapshot() == Blank(img.width, img.height)
    requires tgt == Mosaicked(img.Snapshot(), tiles, ts)
    modifies result.data
    ensures result.Valid() && result.Snapshot() == tgt
  {
    var width, height := img.width, img.height;
    var tilesX := (width + ts - 1) / ts;
    var tilesY := (height + ts - 1) / ts;
    var ty := 0;
    while ty < tilesY
      invariant 0 <= ty <= tilesY && result.Valid()
      invariant Written(result.Snapshot(), Blank(width, height), tgt, ts, 0, ty * ts, 0, ty * ts)
    {
      CeilCells(height, ts, ty);
      MosaicRow(img, result, tiles, ts, ty, tilesX, tgt);
      assert ty * ts + ts == (ty + 1) * ts;
      ty := ty + 1;
    }
    CeilCells(height, ts, ty);
    forall x: nat, y: nat | x < width && y < height
      ensures result.Snapshot().At(x, y) == tgt.At(x, y)
    {
    }
    SameRaster(result.Snapshot(), tgt);
  }

  /** The tx loop of `filter_mosaic` for the cell row ty. */
  method MosaicRow(img: Image, result: Image, tiles: seq<Raster>, ts: nat, ty: nat, tilesX: nat, ghost tgt: Raster)
    requires img.Valid() && result.Valid() && result.data != img.data && 0 < ts && Tiles(tiles, ts)
    requires result.width == img.width && result.height == img.height
    requires ty * ts < img.height && tilesX == (img.width + ts - 1) / ts
    requires tgt == Mosaicked(img.Snapshot(), tiles, ts)
    requires Written(result.Snapshot(), Blank(img.width, img.height), tgt, ts, 0, ty * ts, 0, ty * ts)
    modifies result.data
    ensures result.Valid()
    ensures Written(result.Snapshot(), Blank(img.width, img.height), tgt, ts, 0, ty * ts + ts, 0, ty * ts + ts)
  {
    var tx := 0;
    while tx < tilesX
      invariant 0 <= tx <= tilesX && result.Valid()
      invariant Written(result.Snapshot(), Blank(img.width, img.height), tgt, ts, tx * ts, ty * ts, tx * ts, ty * ts)
    {
      CeilCells(img.width, ts, tx);
      MosaicCell(img, result, tiles, ts, tx, ty, tgt);
      assert tx * ts + ts == (tx + 1) * ts;
      tx := tx + 1;
    }
    CeilCells(img.width, ts, tx);
    WrittenSame(result.Snapshot(), Blank(img.width, img.height), tgt, ts, tx * ts, ty * ts, tx * ts, ty * ts,
                0, ty * ts + ts, 0, ty * ts + ts);
  }

  /** One cell: its mean colour in the input, the best tile for it, then
      the y loop over the cell's rows, cut to the image edge. */
  method MosaicCell(img: Image, result: Image, tiles: seq<Raster>, ts: nat, tx: nat, ty: nat, ghost tgt: Raster)
    requires img.Valid() && result.Valid() && result.data != img.data && 0 < ts && Tiles(tiles, ts)
    requires result.width == img.width && result.height == img.height
    requires tx * ts < img.width && ty * ts < img.height
    requires tgt == Mosaicked(img.Snapshot(), tiles, ts)
    requires Written(result.Snapshot(), Blank(img.width, img.height), tgt, ts, tx * ts, ty * ts, tx * ts, ty * ts)
    modifies result.data
    ensures result.Valid()
    ensures Written(result.Snapshot(), Blank(img.width, img.height), tgt, ts, tx * ts + ts, ty * ts, tx * ts + ts, ty * ts)
  {
    var startX, startY := tx * ts, ty * ts;
    DivModUnique(startX, ts, tx, 0);
    DivModUnique(startY, ts, ty, 0);
    var areaAvg := ComputeAverageColor(img.Snapshot(), startX, startY, ts, ts);
    var best := FindBestTile(tiles, areaAvg);
    var tile := tiles[best];
    var copyWidth, copyHeight := ts, ts;
    if startX + copyWidth > img.width {
      copyWidth := img.width - startX;
    }
    if startY + copyHeight > img.height {
      copyHeight := img.height - startY;
    }
    var y := 0;
    while y < copyHeight
      invariant 0 <= y <= copyHeight && result.Valid()
      invariant Written(result.Snapshot(), Blank(img.width, img.height), tgt, ts, startX, startY, startX, startY + y)
    {
      MosaicLine(img, result, tiles, ts, startX, startY, copyWidth, y, best, tgt);
      y := y + 1;
    }
    WrittenSame(result.Snapshot(), Blank(img.width, img.height), tgt, ts, startX, startY, startX, startY + copyHeight,
                startX + ts, startY, startX + ts, startY);
  }

  /** The x loop over row y of the cell whose corner is (cx, cy). */
  method MosaicLine(img: Image, result: Image, tiles: seq<Raster>, ts: nat, cx: nat, cy: nat,
                    copyWidth: nat, y: nat, best: nat, ghost tgt: Raster)
    requires img.Valid() && result.Valid() && result.data != img.data && 0 < ts && Tiles(tiles, ts)
    requires result.width == img.width && result.height == img.height
    requires cx % ts == 0 && cy % ts == 0 && cx < img.width && cy + y < img.height && y < ts
    requires copyWidth == CellEnd(cx, ts, img.width) - cx
    requires best == BestTile(tiles, Average(img.Snapshot(), cx, cy, ts, ts))
    requires tgt == Mosaicked(img.Snapshot(), tiles, ts)
    requires Written(result.Snapshot(), Blank(img.width, img.height), tgt, ts, cx, cy, cx, cy + y)
    modifies result.data
    ensures result.Valid()
    ensures Written(result.Snapshot(), Blank(img.width, img.height), tgt, ts, cx, cy, cx, cy + y + 1)
  {
    var x := 0;
    while x < copyWidth
      invariant 0 <= x <= copyWidth && result.Valid()
      invariant Written(result.Snapshot(), Blank(img.width, img.height), tgt, ts, cx, cy, cx + x, cy + y)
    {
      MosaicStep(img, result, tiles, ts, cx, cy, x, y, best, tgt);
      x := x + 1;
    }
    WrittenSame(result.Snapshot(), Blank(img.width, img.height), tgt, ts, cx, cy, cx + copyWidth, cy + y,
                cx, cy, cx, cy + y + 1);
  }

  /** One pixel of a cell: the tile pixel at (x mod ts, y mod ts) blended
      with the input pixel at the destination. Both pixels always exist, so
      the source's fallback to the bare tile pixel is never taken. */
  method MosaicStep(img: Image, result: Image, tiles: seq<Raster>, ts: nat, cx: nat, cy: nat,
                    x: nat, y: nat, best: nat, ghost tgt: Raster)
    requires img.Valid() && result.Valid() && result.data != img.data && 0 < ts && Tiles(tiles, ts)
    requires result.width == img.width && result.height == img.height
    requires cx % ts == 0 && cy % ts == 0 && cx + x < img.width && cy + y < img.height && x < ts && y < ts
    requires best == BestTile(tiles, Average(img.Snapshot(), cx, cy, ts, ts))
    requires tgt == Mosaicked(img.Snapshot(), tiles, ts)
    requires Written(result.Snapshot(), Blank(img.width, img.height), tgt, ts, cx, cy, cx + x, cy + y)
    modifies result.data
    ensures result.Valid()
    ensures Written(result.Snapshot(), Blank(img.width, img.height), tgt, ts, cx, cy, cx + x + 1, cy + y)
  {
    var tile := tiles[best];
    var tilePixel := tile.Get(x % ts, y % ts);
    if tilePixel.Some? {
      var destX, destY := cx + x, cy + y;
      var original := img.Snapshot().Get(destX, destY);
      if original.Some? {
        var t, o := tilePixel.value, original.value;
        var blended := Color(t.r * Blend + o.r * (1.0 - Blend), t.g * Blend + o.g * (1.0 - Blend), t.b * Blend + o.b * (1.0 - Blend));
        PixelTarget(img.Snapshot(), tiles, ts, cx, cy, x, y);
        ghost var cur := result.Snapshot();
        result.SetPixel(destX, destY, blended);
        WrittenStep(cur, Blank(img.width, img.height), tgt, ts, cx, cy, destX, destY, blended);
      }
    }
  }

  /** The mosaic pixel at offset (x, y) of the cell whose corner is
      (cx, cy): the cell's tile at (x, y), blended with the original pixel. */
  lemma PixelTarget(r: Raster, tiles: seq<Raster>, ts: nat, cx: nat, cy: nat, x: nat, y: nat)
    requires r.Wf() && 0 < ts && Tiles(tiles, ts)
    requires cx % ts == 0 && cy % ts == 0 && cx + x < r.width && cy + y < r.height && x < ts && y < ts
    ensures x % ts == x && y % ts == y
    ensures Mosaicked(r, tiles, ts).At(cx + x, cy + y) ==
            Blended(tiles[BestTile(tiles, Average(r, cx, cy, ts, ts))].At(x, y), r.At(cx + x, cy + y))
  {
    var X, Y := cx + x, cy + y;
    var tx, ty := cx / ts, cy / ts;
    assert cx == tx * ts && cy == ty * ts;
    DivModUnique(x, ts, 0, x);
    DivModUnique(y, ts, 0, y);
    DivModUnique(X, ts, tx, x);
    DivModUnique(Y, ts, ty, y);
    CellUnique(X, tx, ts);
    CellUnique(Y, ty, ts);
    MosaickedAt(r, tiles, ts, X, Y);
  }
}
