/** Rectangles, the coalesced damage region, and row-major addressing. */
module Geometry {
  import opened Words
  import opened Wrappers

  const MAX_CANVAS_DIM: u32 := 8192

  /** An axis-aligned rectangle in canvas pixels; the far edges saturate. */
  datatype Rect = Rect(x: u32, y: u32, width: u32, height: u32) {

    predicate IsEmpty() { width == 0 || height == 0 }

    function Right(): u32 { SaturatingAdd(x, width) }

    function Bottom(): u32 { SaturatingAdd(y, height) }

    function Area(): nat { width * height }

    function Union(other: Rect): Rect {
      if IsEmpty() then other
      else if other.IsEmpty() then this
      else
        var left, top := Min(x, other.x), Min(y, other.y);
        var right, bottom := Max(Right(), other.Right()), Max(Bottom(), other.Bottom());
        Rect(left, top, right - left, bottom - top)
    }

    function Intersect(other: Rect): Rect {
      var left, top := Max(x, other.x), Max(y, other.y);
      var right, bottom := Min(Right(), other.Right()), Min(Bottom(), other.Bottom());
      if right <= left || bottom <= top then EMPTY else Rect(left, top, right - left, bottom - top)
    }

    function ClampTo(w: u32, h: u32): Rect { Intersect(Whole(w, h)) }

    predicate FitsIn(w: u32, h: u32) { Right() <= w && Bottom() <= h }

    /** The pixels of the rectangle. */
    predicate Contains(px: int, py: int) {
      x <= px < Right() && y <= py < Bottom()
    }

    /** Every pixel of this rectangle lies between the edges of `outer`. */
    predicate Within(outer: Rect) {
      outer.x <= x && outer.y <= y && Right() <= outer.Right() && Bottom() <= outer.Bottom()
    }
  }

  const EMPTY: Rect := Rect(0, 0, 0, 0)

  function Whole(w: u32, h: u32): Rect { Rect(0, 0, w, h) }

  /** The coalesced damage: one bounding box, empty when clean. */
  datatype Damage = Damage(rect: Rect) {
    predicate IsEmpty() { rect.IsEmpty() }
    function Add(r: Rect): Damage { Damage(rect.Union(r)) }
    function Region(): Option<Rect> { if IsEmpty() then None else Some(rect) }
  }

  const NO_DAMAGE: Damage := Damage(EMPTY)

  function FullDamage(w: u32, h: u32): Damage { Damage(Whole(w, h)) }

  /** Coalescing never forgets a damaged pixel, and stays on the surface. */
  lemma UnionCovers(a: Rect, b: Rect, px: int, py: int)
    ensures a.Contains(px, py) || b.Contains(px, py) ==> a.Union(b).Contains(px, py)
  {
  }

  lemma UnionFits(a: Rect, b: Rect, w: u32, h: u32)
    requires a.FitsIn(w, h) && b.FitsIn(w, h)
    ensures a.Union(b).FitsIn(w, h)
  {
  }

  /** The coalesced region is the least rectangle holding both operands. */
  lemma UnionIsLeast(a: Rect, b: Rect, outer: Rect)
    requires !a.IsEmpty() && !b.IsEmpty()
    ensures a.Within(a.Union(b)) && b.Within(a.Union(b))
    ensures a.Within(outer) && b.Within(outer) ==> a.Union(b).Within(outer)
  {
    var u := a.Union(b);
    assert u.Right() == Max(a.Right(), b.Right());
    assert u.Bottom() == Max(a.Bottom(), b.Bottom());
  }

  /** `intersect` keeps exactly the common pixels. */
  lemma IntersectIsExact(a: Rect, b: Rect, px: int, py: int)
    ensures a.Intersect(b).Contains(px, py) <==> a.Contains(px, py) && b.Contains(px, py)
  {
  }

  /** A rectangle already on the surface is not changed by clamping. */
  lemma ClampOfFitting(r: Rect, w: u32, h: u32)
    requires !r.IsEmpty() && r.FitsIn(w, h) && w <= MAX_CANVAS_DIM && h <= MAX_CANVAS_DIM
    ensures r.ClampTo(w, h) == r
  {
  }

  // ---- Row-major addressing ----

  /** Pixel `(x, y)` lives at `y * w + x`, and that index determines both coordinates. */
  lemma RowMajor(w: nat, x: nat, y: nat)
    requires x < w
    ensures (y * w + x) / w == y && (y * w + x) % w == x
  {
    var i := y * w + x;
    var q, r := i / w, i % w;
    assert i == q * w + r;
    assert (q + 1) * w == q * w + w && (y + 1) * w == y * w + w;
    if q < y {
      MulMono(q + 1, y, w);
    } else if y < q {
      MulMono(y + 1, q, w);
    }
  }

  lemma MulMono(a: nat, b: nat, w: nat)
    requires a <= b
    ensures a * w <= b * w
  {
  }

  lemma RowInBounds(w: nat, h: nat, x: nat, y: nat)
    requires x < w && y < h
    ensures y * w + x < w * h
  {
    MulMono(y + 1, h, w);
    assert (y + 1) * w == y * w + w;
  }

  /** The place of column `x`, row `y`. */
  lemma PlaceOf(w: nat, h: nat, x: nat, y: nat) returns (i: nat)
    requires x < w && y < h
    ensures i == y * w + x && i < w * h && i % w == x && i / w == y
  {
    i := y * w + x;
    RowMajor(w, x, y);
    RowInBounds(w, h, x, y);
  }

  lemma RowOfIndex(w: nat, h: nat, i: nat)
    requires 0 < w && i < w * h
    ensures i / w < h && i % w < w
  {
    assert i == (i / w) * w + i % w;
    if h <= i / w {
      MulMono(h, i / w, w);
    }
  }

  /** Does `r` cover the pixel stored at index `i` of a buffer with rows of `w`? */
  predicate Covers(r: Rect, w: nat, i: nat)
    requires 0 < w
  {
    r.Contains(i % w, i / w)
  }

  /** `Covers`, restricted to the first `rows` rows of the rectangle. */
  predicate CoversRows(r: Rect, w: nat, i: nat, rows: nat)
    requires 0 < w
  {
    r.x <= i % w < r.x + r.width && r.y <= i / w < r.y + rows
  }

  lemma CoversAllRows(r: Rect, w: u32, h: u32, i: nat)
    requires 0 < w <= MAX_CANVAS_DIM && h <= MAX_CANVAS_DIM && r.FitsIn(w, h)
    ensures CoversRows(r, w, i, r.height) <==> Covers(r, w, i)
  {
  }

  /** Index of the leftmost pixel of the rectangle's row `row`. */
  function RowStart(r: Rect, w: nat, row: nat): nat { (r.y + row) * w + r.x }

  /** One row of a rectangle is one contiguous segment, disjoint from every other row. */
  lemma RowSegment(r: Rect, w: nat, row: nat, i: nat)
    requires 0 < w && r.x + r.width <= w
    ensures RowStart(r, w, row) <= i < RowStart(r, w, row) + r.width
       <==> CoversRows(r, w, i, row + 1) && !CoversRows(r, w, i, row)
  {
    var y := r.y + row;
    assert i == (i / w) * w + i % w;
    if RowStart(r, w, row) <= i < RowStart(r, w, row) + r.width {
      RowMajor(w, i - y * w, y);
    }
  }
}
