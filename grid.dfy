/** The square cells that crystallize and the mosaic walk through: cells
    start at the multiples of the cell size, the last cell of a row or
    column is cut back to the image edge, and the cell loops write the
    pixels cell by cell. */
module Grid {
  import opened Colors
  import opened Images

  /** The first coordinate of the cell holding v: cells start at the
      multiples of the cell size. */
  function CellStart(v: nat, cs: nat): (c: nat)
    requires cs > 0
    ensures c <= v < c + cs && c % cs == 0
  {
    DivModUnique((v / cs) * cs, cs, v / cs, 0);
    (v / cs) * cs
  }

  /** A coordinate lies in exactly one cell: the cell of the q-th multiple
      that covers it is its cell. */
  lemma CellUnique(v: nat, q: nat, cs: nat)
    requires cs > 0 && q * cs <= v < q * cs + cs
    ensures CellStart(v, cs) == q * cs
  {
    DivModUnique(v, cs, q, v - q * cs);
  }

  /** The end of the cell starting at `start`, cut back to the image edge
      (`end_x`, `end_y` in crystallize; `start + copy_width` in the mosaic). */
  function CellEnd(start: nat, cs: nat, n: nat): (e: nat)
    requires start < n && cs > 0
    ensures start < e <= n && e <= start + cs
    ensures e == n || e == start + cs
  {
    if start + cs > n then n else start + cs
  }

  // The cell loops write the pixels cell by cell. A pixel is done when its
  // cell row is finished, or its cell in the current row is, or it comes
  // before (xx, yy) in the current cell (cx, cy).

  predicate Done(cs: nat, cx: nat, cy: nat, xx: nat, yy: nat, x: nat, y: nat)
  {
    || y < cy
    || (y < cy + cs && x < cx)
    || (cx <= x < cx + cs && cy <= y < cy + cs && (y < yy || (y == yy && x < xx)))
  }

  /** Done pixels of `cur` hold the target, the others the original. */
  ghost predicate Written(cur: Raster, orig: Raster, tgt: Raster, cs: nat, cx: nat, cy: nat, xx: nat, yy: nat)
  {
    && cur.Wf() && orig.Wf() && tgt.Wf()
    && cur.width == orig.width == tgt.width && cur.height == orig.height == tgt.height
    && forall x: nat, y: nat :: x < cur.width && y < cur.height ==>
         cur.At(x, y) == if Done(cs, cx, cy, xx, yy, x, y) then tgt.At(x, y) else orig.At(x, y)
  }

  /** Two loop positions that mark the same pixels done describe the same
      progress. */
  lemma WrittenSame(cur: Raster, orig: Raster, tgt: Raster, cs: nat,
                    cx: nat, cy: nat, xx: nat, yy: nat, cx': nat, cy': nat, xx': nat, yy': nat)
    requires Written(cur, orig, tgt, cs, cx, cy, xx, yy)
    requires forall x: nat, y: nat :: x < cur.width && y < cur.height ==>
               (Done(cs, cx, cy, xx, yy, x, y) <==> Done(cs, cx', cy', xx', yy', x, y))
    ensures Written(cur, orig, tgt, cs, cx', cy', xx', yy')
  {
  }

  /** Writing the target at (xx, yy) moves the position one pixel on. */
  lemma WrittenStep(cur: Raster, orig: Raster, tgt: Raster, cs: nat, cx: nat, cy: nat, xx: nat, yy: nat, c: Color)
    requires Written(cur, orig, tgt, cs, cx, cy, xx, yy)
    requires xx < cur.width && yy < cur.height && cx <= xx < cx + cs && cy <= yy < cy + cs
    requires Clamp(c) == tgt.At(xx, yy)
    ensures Written(cur.Set(xx, yy, c), orig, tgt, cs, cx, cy, xx + 1, yy)
  {
    var next := cur.Set(xx, yy, c);
    forall x: nat, y: nat | x < cur.width && y < cur.height
      ensures next.At(x, y) == if Done(cs, cx, cy, xx + 1, yy, x, y) then tgt.At(x, y) else orig.At(x, y)
    {
      GetAfterSet(cur, xx, yy, c, x, y);
    }
  }
}
