/** `filter_median` (filters.c): each channel of each pixel becomes the
    middle element of the sorted channel values of its `window x window`
    border-replicated neighbourhood, read from a copy of the image. The
    library `qsort` is modelled by an insertion sort on values; since a
    sorted permutation is unique (`SortedUnique`), any correct sort gives the
    same median. */
module Median {
  import opened Wrappers
  import opened Colors
  import opened Images
  import opened Filters

  // ---------------------------------------------------------------------
  // Sorting and selection
  // ---------------------------------------------------------------------

  predicate Sorted(s: seq<real>)
  {
    forall i, j :: 0 <= i < j < |s| ==> s[i] <= s[j]
  }

  /** `v` inserted into a sorted sequence before the first larger-or-equal
      element. */
  function Insert(s: seq<real>, v: real): (t: seq<real>)
    requires Sorted(s)
    ensures |t| == |s| + 1 && Sorted(t) && multiset(t) == multiset(s) + multiset{v}
    ensures forall i :: 0 <= i < |t| ==> t[i] == v || t[i] in s
  {
    if |s| == 0 then [v]
    else if v <= s[0] then [v] + s
    else
      assert s == [s[0]] + s[1..];
      [s[0]] + Insert(s[1..], v)
  }

  /** The values of `s` in ascending order (what `qsort` with
      `compare_floats` leaves in the buffer). */
  function SortReals(s: seq<real>): (t: seq<real>)
    ensures |t| == |s| && Sorted(t) && multiset(t) == multiset(s)
  {
    if |s| == 0 then []
    else
      assert s == s[..|s| - 1] + [s[|s| - 1]];
      Insert(SortReals(s[..|s| - 1]), s[|s| - 1])
  }

  /** Two sorted sequences holding the same values are equal, so the
      median does not depend on which sorting algorithm produced it. */
  lemma {:induction false} SortedUnique(a: seq<real>, b: seq<real>)
    requires Sorted(a) && Sorted(b) && multiset(a) == multiset(b)
    ensures a == b
  {
    if |a| > 0 {
      assert |b| == |multiset(b)| == |a|;
      assert a[0] in multiset(b);
      assert b[0] in multiset(a);
      var i :| 0 <= i < |a| && a[i] == b[0];
      var j :| 0 <= j < |b| && b[j] == a[0];
      assert a[0] == b[0];
      MultisetTail(a);
      MultisetTail(b);
      SortedUnique(a[1..], b[1..]);
    }
  }

  lemma MultisetTail(s: seq<real>)
    requires |s| > 0
    ensures multiset(s[1..]) == multiset(s) - multiset{s[0]}
  {
    assert s == [s[0]] + s[1..];
  }

  /** The element at index `|s| / 2` of the sorted values. */
  function MedianOf(s: seq<real>): (m: real)
    requires |s| > 0
    ensures m in s
  {
    var t := SortReals(s);
    assert t[|s| / 2] in multiset(t);
    t[|s| / 2]
  }

  /** The median of samples that are all the same value is that value. */
  lemma MedianOfConstant(s: seq<real>, v: real)
    requires |s| > 0 && forall i :: 0 <= i < |s| ==> s[i] == v
    ensures MedianOf(s) == v
  {
  }

  /** The median lies between the least and the greatest sample. */
  lemma MedianBetween(s: seq<real>, lo: real, hi: real)
    requires |s| > 0 && forall i :: 0 <= i < |s| ==> lo <= s[i] <= hi
    ensures lo <= MedianOf(s) <= hi
  {
  }

  // ---------------------------------------------------------------------
  // The filter as a value
  // ---------------------------------------------------------------------

  /** The window samples around (x, y) in the order the source collects
      them: rows dy = -half .. half outer, columns dx inner, sample
      `(dy + half) * window + (dx + half)` being the border pixel at
      (x + dx, y + dy). */
  function Samples(r: Raster, window: nat, x: int, y: int): (s: seq<Color>)
    requires r.Wf() && window > 0
    ensures |s| == window * window
  {
    seq(window * window, i requires 0 <= i < window * window =>
      Border(r, x + i % window - window / 2, y + i / window - window / 2))
  }

  function Reds(s: seq<Color>): (v: seq<real>)
    ensures |v| == |s| && forall i :: 0 <= i < |s| ==> v[i] == s[i].r
  {
    seq(|s|, i requires 0 <= i < |s| => s[i].r)
  }

  function Greens(s: seq<Color>): (v: seq<real>)
    ensures |v| == |s| && forall i :: 0 <= i < |s| ==> v[i] == s[i].g
  {
    seq(|s|, i requires 0 <= i < |s| => s[i].g)
  }

  function Blues(s: seq<Color>): (v: seq<real>)
    ensures |v| == |s| && forall i :: 0 <= i < |s| ==> v[i] == s[i].b
  {
    seq(|s|, i requires 0 <= i < |s| => s[i].b)
  }

  /** Channel-wise median of the window around (x, y). */
  function MedianPixel(r: Raster, window: nat, x: int, y: int): Color
    requires r.Wf() && window > 0
  {
    var s := Samples(r, window, x, y);
    MulSign(window, window);
    Color(MedianOf(Reds(s)), MedianOf(Greens(s)), MedianOf(Blues(s)))
  }

  /** The filtered buffer: every pixel the clamped median of its window (the
      clamp of `image_set_pixel`). */
  function Medianed(r: Raster, window: nat): (o: Raster)
    requires r.Wf() && window > 0
    ensures o.Valid() && o.width == r.width && o.height == r.height
  {
    var f := (x: nat, y: nat) => Clamp(MedianPixel(r, window, x, y));
    TabulateValid(r.width, r.height, f);
    Tabulate(r.width, r.height, f)
  }

  /** `filter_median` as a value: nothing for a window that is not a
      positive odd number; a window of 1 leaves the image alone. */
  function MedianFiltered(r: Raster, window: int): (o: Option<Raster>)
    requires r.Wf()
    ensures o.None? <==> window <= 0 || window % 2 == 0
  {
    if window <= 0 || window % 2 == 0 then None
    else if window == 1 then Some(r)
    else Some(Medianed(r, window))
  }

  /** Pixel (x, y) of the filtered buffer, stored at index y * w + x, is
      the clamped median of its window. */
  lemma MedianedAt(r: Raster, window: nat, x: nat, y: nat)
    requires r.Wf() && window > 0 && x < r.width && y < r.height
    ensures y * r.width + x < |Medianed(r, window).pixels|
    ensures Medianed(r, window).pixels[y * r.width + x] == Medianed(r, window).At(x, y)
    ensures Medianed(r, window).At(x, y) == Clamp(MedianPixel(r, window, x, y))
  {
    TabulateAt(r.width, r.height, (x: nat, y: nat) => Clamp(MedianPixel(r, window, x, y)), x, y);
  }

  /** A window whose samples all show one colour has that colour as its
      median. */
  lemma MedianPixelConstant(r: Raster, window: nat, x: int, y: int, c: Color)
    requires r.Wf() && window > 0
    requires forall i :: 0 <= i < window * window ==> Samples(r, window, x, y)[i] == c
    ensures MedianPixel(r, window, x, y) == c
  {
    var s := Samples(r, window, x, y);
    MulSign(window, window);
    MedianOfConstant(Reds(s), c.r);
    MedianOfConstant(Greens(s), c.g);
    MedianOfConstant(Blues(s), c.b);
  }

  /** The shortcut for a window of 1 agrees with the general computation: a
      1 x 1 window holds only the pixel itself. */
  lemma MedianOfOne(r: Raster)
    requires r.Valid()
    ensures Medianed(r, 1) == r
  {
    forall x: nat, y: nat | x < r.width && y < r.height
      ensures Medianed(r, 1).At(x, y) == r.At(x, y)
    {
      MedianOneAt(r, x, y);
    }
    SameRaster(Medianed(r, 1), r);
  }

  lemma MedianOneAt(r: Raster, x: nat, y: nat)
    requires r.Valid() && x < r.width && y < r.height
    ensures Medianed(r, 1).At(x, y) == r.At(x, y)
  {
    MedianedAt(r, 1, x, y);
    var s := Samples(r, 1, x, y);
    assert s[0] == Border(r, x, y);
    MedianPixelConstant(r, 1, x, y, r.At(x, y));
    AtInRange(r, x, y);
  }

  /** The median of a valid buffer is in range even before the clamp: each
      output channel is one of the sampled values. */
  lemma MedianInRange(r: Raster, window: nat, x: int, y: int)
    requires r.Valid() && window > 0
    ensures InRange(MedianPixel(r, window, x, y))
  {
    var s := Samples(r, window, x, y);
    MulSign(window, window);
    forall i | 0 <= i < |s|
      ensures InRange(s[i])
    {
      BorderInRange(r, x + i % window - window / 2, y + i / window - window / 2);
    }
    MedianBetween(Reds(s), 0.0, 1.0);
    MedianBetween(Greens(s), 0.0, 1.0);
    MedianBetween(Blues(s), 0.0, 1.0);
  }

  /** A median filter leaves a buffer of one in-range colour unchanged. */
  lemma MedianFlat(w: nat, h: nat, c: Color, window: nat)
    requires 0 < w && 0 < h && 0 < window && InRange(c)
    ensures Filled(w, h, c).Wf() && Medianed(Filled(w, h, c), window) == Filled(w, h, c)
  {
    var f := Filled(w, h, c);
    FilledFlat(w, h, c);
    forall x: nat, y: nat | x < w && y < h
      ensures Medianed(f, window).At(x, y) == f.At(x, y)
    {
      MedianFlatAt(f, c, window, x, y);
      FilledAt(w, h, c, x, y);
    }
    SameRaster(Medianed(f, window), f);
  }

  lemma MedianFlatAt(f: Raster, c: Color, window: nat, x: nat, y: nat)
    requires Flat(f, c) && InRange(c) && 0 < window && x < f.width && y < f.height
    ensures Medianed(f, window).At(x, y) == c
  {
    MedianedAt(f, window, x, y);
    var s := Samples(f, window, x, y);
    forall i | 0 <= i < window * window
      ensures s[i] == c
    {
      assert s[i] == Border(f, x + i % window - window / 2, y + i / window - window / 2);
    }
    MedianPixelConstant(f, window, x, y, c);
  }

  // ---------------------------------------------------------------------
  // The filter on the image
  // ---------------------------------------------------------------------

  /** `filter_median`: rejects a window that is not positive and odd,
      returns at once for a window of 1, otherwise rewrites every pixel of
      the image from a copy. */
  method MedianFilter(img: Image, window: int) returns (ok: bool)
    requires img.Valid()
    modifies img.data
    ensures img.Valid()
    ensures ok <==> MedianFiltered(old(img.Snapshot()), window).Some?
    ensures ok ==> MedianFiltered(old(img.Snapshot()), window) == Some(img.Snapshot())
    ensures !ok ==> img.Snapshot() == old(img.Snapshot())
  {
    if window <= 0 || window % 2 == 0 {
      return false;
    }
    if window == 1 {
      return true;
    }
    var copy := img.Copy();
    MulSign(window, window);
    var rv := new real[window * window];
    var gv := new real[window * window];
    var bv := new real[window * window];
    MedianRows(img, copy, window, rv, gv, bv);
    assert img.data[..] == Medianed(copy.Snapshot(), window).pixels;
    return true;
  }

  /** The y loop of `filter_median`. */
  method MedianRows(img: Image, copy: Image, window: nat, rv: array<real>, gv: array<real>, bv: array<real>)
    requires copy.Snapshot().Wf() && img.Snapshot().Wf() && img.data != copy.data && window % 2 == 1
    requires img.width == copy.width && img.height == copy.height
    requires rv.Length == gv.Length == bv.Length == window * window && rv != gv && gv != bv && rv != bv
    modifies img.data, rv, gv, bv
    ensures img.Snapshot().Wf()
    ensures forall j :: 0 <= j < img.width * img.height ==> img.data[j] == Medianed(copy.Snapshot(), window).pixels[j]
  {
    ghost var t := Medianed(copy.Snapshot(), window).pixels;
    var y := 0;
    while y < img.height
      invariant 0 <= y <= img.height && y * img.width <= |t|
      invariant img.Snapshot().Wf()
      invariant forall j :: 0 <= j < y * img.width ==> img.data[j] == t[j]
    {
      MulMono(y + 1, img.height, img.width);
      assert (y + 1) * img.width == y * img.width + img.width;
      MedianRow(img, copy, window, rv, gv, bv, y, t);
      y := y + 1;
    }
    assert y * img.width == img.width * img.height;
  }

  /** The x loop of `filter_median` for row y. */
  method MedianRow(img: Image, copy: Image, window: nat, rv: array<real>, gv: array<real>, bv: array<real>, y: nat, ghost t: seq<Color>)
    requires copy.Snapshot().Wf() && img.Snapshot().Wf() && img.data != copy.data && window % 2 == 1
    requires img.width == copy.width && img.height == copy.height
    requires rv.Length == gv.Length == bv.Length == window * window && rv != gv && gv != bv && rv != bv
    requires y < img.height && t == Medianed(copy.Snapshot(), window).pixels
    requires y * img.width + img.width <= |t| && forall j :: 0 <= j < y * img.width ==> img.data[j] == t[j]
    modifies img.data, rv, gv, bv
    ensures img.Snapshot().Wf()
    ensures forall j :: 0 <= j < y * img.width + img.width ==> img.data[j] == t[j]
  {
    var x := 0;
    while x < img.width
      invariant 0 <= x <= img.width && img.Snapshot().Wf()
      invariant forall j :: 0 <= j < y * img.width + x ==> img.data[j] == t[j]
    {
      MedianStep(img, copy, window, rv, gv, bv, x, y, t);
      x := x + 1;
    }
  }

  /** One pass of the x loop: the window of (x, y) is collected from the
      copy, each channel buffer sorted, and the middle elements stored. */
  method MedianStep(img: Image, copy: Image, window: nat, rv: array<real>, gv: array<real>, bv: array<real>,
                    x: nat, y: nat, ghost t: seq<Color>)
    requires copy.Snapshot().Wf() && img.Snapshot().Wf() && img.data != copy.data && window % 2 == 1
    requires img.width == copy.width && img.height == copy.height
    requires rv.Length == gv.Length == bv.Length == window * window && rv != gv && gv != bv && rv != bv
    requires x < img.width && y < img.height && t == Medianed(copy.Snapshot(), window).pixels
    requires y * img.width + x < |t| && forall j :: 0 <= j < y * img.width + x ==> img.data[j] == t[j]
    modifies img.data, rv, gv, bv
    ensures img.Snapshot().Wf()
    ensures forall j :: 0 <= j < y * img.width + x + 1 ==> img.data[j] == t[j]
  {
    Collect(copy, window, x, y, rv, gv, bv);
    MulSign(window, window);
    var c := Color(MedianOf(rv[..]), MedianOf(gv[..]), MedianOf(bv[..]));
    MedianedAt(copy.Snapshot(), window, x, y);
    img.SetNext(x, y, c, t);
  }

  /** The first n samples are in the three channel buffers. */
  ghost predicate Collected(rs: seq<real>, gs: seq<real>, bs: seq<real>, s: seq<Color>, n: int)
  {
    n <= |rs| && n <= |gs| && n <= |bs| && n <= |s| &&
    forall i :: 0 <= i < n ==> rs[i] == s[i].r && gs[i] == s[i].g && bs[i] == s[i].b
  }

  /** The dy loop of `filter_median`: fills the channel buffers with the
      window samples of (x, y). */
  method Collect(copy: Image, window: nat, x: int, y: int, rv: array<real>, gv: array<real>, bv: array<real>)
    requires copy.Snapshot().Wf() && window % 2 == 1
    requires rv.Length == gv.Length == bv.Length == window * window && rv != gv && gv != bv && rv != bv
    modifies rv, gv, bv
    ensures rv[..] == Reds(Samples(copy.Snapshot(), window, x, y))
    ensures gv[..] == Greens(Samples(copy.Snapshot(), window, x, y))
    ensures bv[..] == Blues(Samples(copy.Snapshot(), window, x, y))
  {
    ghost var s := Samples(copy.Snapshot(), window, x, y);
    var half := window / 2;
    var count := 0;
    var dy := -half;
    while dy <= half
      invariant -half <= dy <= half + 1 && count == (dy + half) * window
      invariant count <= window * window
      invariant Collected(rv[..], gv[..], bv[..], s, count)
    {
      MulMono(dy + half + 1, window, window);
      assert (dy + half + 1) * window == count + window;
      count := CollectRow(copy, window, x, y, dy, rv, gv, bv, count, s);
      dy := dy + 1;
    }
    CollectedAll(rv[..], gv[..], bv[..], s);
  }

  /** Buffers holding all the samples are their channels. */
  lemma CollectedAll(rs: seq<real>, gs: seq<real>, bs: seq<real>, s: seq<Color>)
    requires |rs| == |gs| == |bs| == |s| && Collected(rs, gs, bs, s, |s|)
    ensures rs == Reds(s) && gs == Greens(s) && bs == Blues(s)
  {
  }

  /** The dx loop of `filter_median`: appends the samples of window row
      dy. */
  method CollectRow(copy: Image, window: nat, x: int, y: int, dy: int, rv: array<real>, gv: array<real>, bv: array<real>,
                    count0: nat, ghost s: seq<Color>) returns (count: nat)
    requires copy.Snapshot().Wf() && window % 2 == 1 && s == Samples(copy.Snapshot(), window, x, y)
    requires rv.Length == gv.Length == bv.Length == window * window && rv != gv && gv != bv && rv != bv
    requires 0 <= dy + window / 2 < window && count0 == (dy + window / 2) * window && count0 + window <= window * window
    requires Collected(rv[..], gv[..], bv[..], s, count0)
    modifies rv, gv, bv
    ensures count == count0 + window && Collected(rv[..], gv[..], bv[..], s, count)
  {
    var half := window / 2;
    count := count0;
    var dx := -half;
    while dx <= half
      invariant -half <= dx <= half + 1 && count == count0 + dx + half
      invariant Collected(rv[..], gv[..], bv[..], s, count)
    {
      var pixel := Border(copy.Snapshot(), x + dx, y + dy);
      SampleAt(copy.Snapshot(), window, x, y, dx + half, dy + half);
      rv[count] := pixel.r;
      gv[count] := pixel.g;
      bv[count] := pixel.b;
      count := count + 1;
      dx := dx + 1;
    }
  }

  /** Sample `row * window + col` is the border pixel at offset
      (col - half, row - half). */
  lemma SampleAt(r: Raster, window: nat, x: int, y: int, col: nat, row: nat)
    requires r.Wf() && col < window && row < window
    ensures row * window + col < window * window
    ensures Samples(r, window, x, y)[row * window + col] == Border(r, x + col - window / 2, y + row - window / 2)
  {
    IndexOf(col, row, window, window);
  }
}
