/** Letterboxing the AWT desktop into a surface, and mapping pointers back. */
module Viewports {
  import opened Words
  import opened Wrappers

  datatype ScaleMode = Stretch | Fit | FillCrop | Center

  datatype Placement = Placement(x: i32, y: i32, width: u32, height: u32)

  /** A pointer coordinate; not every `f32` is a number. Arithmetic on it is over the reals. */
  datatype Coord = Finite(v: real) | NotFinite

  /** `n / 2` on a signed integer: truncation toward zero. */
  function Half(n: int): int { if n >= 0 then n / 2 else -((-n) / 2) }

  /** `v as u32` of a non-negative `u64`. */
  function CastU32(v: nat): u32 { v % 0x1_0000_0000 }

  /** `r as u32` of a non-negative float: the fraction is dropped and the result saturates. */
  function FloorU32(r: real): u32
    requires r >= 0.0
  {
    if r.Floor > U32_MAX then U32_MAX else r.Floor
  }

  /** `side`, scaled by `target / per` and rounded down, but at least one pixel. */
  function ScaledSide(side: u32, target: u32, per: u32): nat
    requires per > 0
  {
    Max(side * target / per, 1)
  }

  datatype Viewport = Viewport(cw: u32, ch: u32, sw: u32, sh: u32, mode: ScaleMode) {

    predicate Drawable() { cw > 0 && ch > 0 && sw > 0 && sh > 0 }

    /** Does the height of the surface limit the drawn size? */
    predicate HeightLimits() {
      if mode == Fit then sw * ch > sh * cw else sw * ch < sh * cw
    }

    /** Width and height before the cast back to 32 bits. */
    function ExactSize(): (nat, nat)
      requires Drawable()
    {
      match mode
      case Stretch => (sw, sh)
      case Center => (cw, ch)
      case _ =>
        if HeightLimits() then (ScaledSide(cw, sh, ch), sh) else (sw, ScaledSide(ch, sw, cw))
    }

    function Placed(): Placement {
      if !Drawable() then Placement(0, 0, 0, 0)
      else
        var w, h := CastU32(ExactSize().0), CastU32(ExactSize().1);
        Placement(Half(sw - w), Half(sh - h), w, h)
    }

    function MapPointer(x: Coord, y: Coord): Option<(u32, u32)> {
      if x.NotFinite? || y.NotFinite? then None
      else
        var p := Placed();
        if p.width == 0 || p.height == 0 then None
        else
          var relX, relY := x.v - p.x as real, y.v - p.y as real;
          if relX < 0.0 || relY < 0.0 || relX >= p.width as real || relY >= p.height as real then None
          else
            Some((Pixel(relX, cw, p.width), Pixel(relY, ch, p.height)))
    }

    function MapPointerClamped(x: Coord, y: Coord): (u32, u32) {
      if x.NotFinite? || y.NotFinite? then (0, 0)
      else
        var p := Placed();
        if p.width == 0 || p.height == 0 then (0, 0)
        else
          (Pixel(MaxReal(x.v - p.x as real, 0.0), cw, p.width), Pixel(MaxReal(y.v - p.y as real, 0.0), ch, p.height))
    }

    function MapToSurface(x: u32, y: u32): (real, real) {
      var p := Placed();
      if cw == 0 || ch == 0 then (p.x as real, p.y as real)
      else
        (p.x as real + Scale(x as real, p.width as real, cw as real),
         p.y as real + Scale(y as real, p.height as real, ch as real))
    }
  }

  function MaxReal(a: real, b: real): real { if a >= b then a else b }

  /** One axis of the pointer mapping: scale, drop the fraction, keep on the desktop. */
  function Pixel(rel: real, side: u32, drawn: u32): u32
    requires rel >= 0.0 && drawn > 0
  {
    ScaleNonNegative(rel, side as real, drawn as real);
    Keep(Scale(rel, side as real, drawn as real), side)
  }

  function Scale(rel: real, side: real, drawn: real): real
    requires drawn > 0.0
  {
    rel * side / drawn
  }

  /** Drops the fraction and keeps the pixel on a desktop side. */
  function Keep(r: real, side: u32): u32
    requires r >= 0.0
  {
    Min(FloorU32(r), if side == 0 then 0 else side - 1)
  }

  lemma KeepExact(px: u32, side: u32)
    requires px < side
    ensures Keep(px as real, side) == px
  {
  }

  lemma ScaleNonNegative(rel: real, side: real, drawn: real)
    requires rel >= 0.0 && side >= 0.0 && drawn > 0.0
    ensures Scale(rel, side, drawn) >= 0.0
  {
    assert rel * side >= 0.0;
  }

  // ---- Scaling ----

  /** Integer division leaves less than one unit of the divisor. */
  lemma DivBounds(a: nat, b: nat)
    requires b > 0
    ensures (a / b) * b <= a < (a / b) * b + b
  {
  }

  lemma MulLe(a: nat, b: nat, c: nat)
    requires a <= b
    ensures a * c <= b * c
  {
  }

  /** The scaled side is the exact ratio to within one unit of the other side, clamped or not. */
  lemma ScaledSideError(side: u32, target: u32, per: u32)
    requires side > 0 && target > 0 && per > 0
    ensures side * target - per < ScaledSide(side, target, per) * per < side * target + per
  {
    DivBounds(side * target, per);
    MulLe(1, target, side);
    if side * target / per == 0 {
      assert ScaledSide(side, target, per) * per == per;
    }
  }

  /** Scaling by at most one stays within the target; scaling by at least one covers it. */
  lemma ScaledSideOrder(side: u32, target: u32, per: u32, limit: u32)
    requires side > 0 && target > 0 && per > 0 && limit > 0
    ensures side * target <= limit * per ==> ScaledSide(side, target, per) <= limit
    ensures side * target >= limit * per ==> ScaledSide(side, target, per) >= limit
  {
    var q := side * target / per;
    DivBounds(side * target, per);
    assert (q + 1) * per == q * per + per && (limit + 1) * per == limit * per + per;
    if side * target <= limit * per && q > limit { MulLe(limit + 1, q, per); }
    if side * target >= limit * per && q < limit { MulLe(q + 1, limit, per); }
  }

  /** What `Fit` and `FillCrop` keep: the aspect ratio, to within one unit of the larger side. */
  lemma AspectRatioKept(v: Viewport)
    requires v.Drawable() && (v.mode == Fit || v.mode == FillCrop)
    ensures -Max(v.cw, v.ch) < RatioError(v.ExactSize().0, v.ExactSize().1, v.cw, v.ch) < Max(v.cw, v.ch)
  {
    if v.HeightLimits() {
      ScaledSideError(v.cw, v.sh, v.ch);
    } else {
      ScaledSideError(v.ch, v.sw, v.cw);
    }
  }

  lemma HalfBounds(n: int)
    ensures n >= 0 ==> 0 <= Half(n) && n <= 2 * Half(n) + 1 && 2 * Half(n) <= n
    ensures n <= 0 ==> Half(n) <= 0 && n >= 2 * Half(n) - 1 && 2 * Half(n) >= n
  {
  }

  /** The drawn size never needs more than 32 bits in `Fit`, and is then the placed size. */
  lemma FitSize(v: Viewport)
    requires v.Drawable() && v.mode == Fit
    ensures v.ExactSize().0 <= v.sw && v.ExactSize().1 <= v.sh
    ensures v.ExactSize().0 == v.sw || v.ExactSize().1 == v.sh
    ensures v.Placed().width == v.ExactSize().0 && v.Placed().height == v.ExactSize().1
  {
    FitExact(v);
    PlacedAsExact(v);
  }

  lemma FitExact(v: Viewport)
    requires v.Drawable() && v.mode == Fit
    ensures v.ExactSize().0 <= v.sw && v.ExactSize().1 <= v.sh
    ensures v.ExactSize().0 == v.sw || v.ExactSize().1 == v.sh
  {
    ScaledSideOrder(v.cw, v.sh, v.ch, v.sw);
    ScaledSideOrder(v.ch, v.sw, v.cw, v.sh);
  }

  lemma PlacedAsExact(v: Viewport)
    requires v.Drawable() && v.ExactSize().0 <= U32_MAX && v.ExactSize().1 <= U32_MAX
    ensures v.Placed().width == v.ExactSize().0 && v.Placed().height == v.ExactSize().1
  {
  }

  /** `Fit` draws inside the surface, touches two opposite edges, and keeps the aspect ratio. */
  lemma FitIsLetterboxed(v: Viewport)
    requires v.Drawable() && v.mode == Fit
    ensures var p := v.Placed();
      && 0 <= p.x && p.x + p.width <= v.sw && 0 <= p.y && p.y + p.height <= v.sh
      && ((p.x == 0 && p.width == v.sw) || (p.y == 0 && p.height == v.sh))
      && 1 <= p.width && 1 <= p.height && KeepsRatio(p, v.cw, v.ch)
  {
    FitSize(v);
    AspectRatioKept(v);
    HalfBounds(v.sw - v.Placed().width);
    HalfBounds(v.sh - v.Placed().height);
  }

  /** The scaled size survives the cast back to 32 bits. */
  predicate SizeFits(v: Viewport)
    requires v.Drawable()
  {
    v.ExactSize().0 <= U32_MAX && v.ExactSize().1 <= U32_MAX
  }

  predicate Covers(v: Viewport) {
    var p := v.Placed();
    p.x <= 0 && v.sw <= p.x + p.width && p.y <= 0 && v.sh <= p.y + p.height
  }

  /** By how much a drawn size is off the ratio of a desktop. */
  function RatioError(w: nat, h: nat, cw: u32, ch: u32): int { w * ch - cw * h }

  /** The placed size has the desktop's ratio, to within one unit of its larger side. */
  predicate KeepsRatio(p: Placement, cw: u32, ch: u32) {
    -Max(cw, ch) < RatioError(p.width, p.height, cw, ch) < Max(cw, ch)
  }

  /** A truncated side is far too short for the ratio. */
  lemma TruncatedSide(side: u32, target: u32, per: u32)
    requires side > 0 && target > 0 && per > 0 && ScaledSide(side, target, per) > U32_MAX
    ensures CastU32(ScaledSide(side, target, per)) * per - side * target <= -Max(side, per)
  {
    var n := ScaledSide(side, target, per);
    ScaledSideError(side, target, per);
    MulLe(CastU32(n), n - 0x1_0000_0000, per);
    assert (n - 0x1_0000_0000) * per == n * per - 0x1_0000_0000 * per;
    MulLe(1, per, 0xFFFF_FFFF);
  }

  lemma TruncatedWidth(p: Placement, cw: u32, ch: u32, sh: u32)
    requires cw > 0 && ch > 0 && sh > 0 && ScaledSide(cw, sh, ch) > U32_MAX
    requires p.width == CastU32(ScaledSide(cw, sh, ch)) && p.height == sh
    ensures !KeepsRatio(p, cw, ch)
  {
    TruncatedSide(cw, sh, ch);
  }

  lemma TruncatedHeight(p: Placement, cw: u32, ch: u32, sw: u32)
    requires cw > 0 && ch > 0 && sw > 0 && ScaledSide(ch, sw, cw) > U32_MAX
    requires p.width == sw && p.height == CastU32(ScaledSide(ch, sw, cw))
    ensures !KeepsRatio(p, cw, ch)
  {
    TruncatedSide(ch, sw, cw);
  }

  lemma WideSize(v: Viewport)
    requires v.Drawable() && (v.mode == Fit || v.mode == FillCrop) && v.HeightLimits() && !SizeFits(v)
    ensures ScaledSide(v.cw, v.sh, v.ch) > U32_MAX
    ensures v.Placed().width == CastU32(ScaledSide(v.cw, v.sh, v.ch)) && v.Placed().height == v.sh
  {
  }

  lemma HighSize(v: Viewport)
    requires v.Drawable() && (v.mode == Fit || v.mode == FillCrop) && !v.HeightLimits() && !SizeFits(v)
    ensures ScaledSide(v.ch, v.sw, v.cw) > U32_MAX
    ensures v.Placed().width == v.sw && v.Placed().height == CastU32(ScaledSide(v.ch, v.sw, v.cw))
  {
  }

  lemma RatioLost(v: Viewport, p: Placement)
    requires v.Drawable() && (v.mode == Fit || v.mode == FillCrop) && !SizeFits(v) && p == v.Placed()
    ensures !KeepsRatio(p, v.cw, v.ch)
  {
    if v.HeightLimits() {
      WideSize(v);
      TruncatedWidth(p, v.cw, v.ch, v.sh);
    } else {
      HighSize(v);
      TruncatedHeight(p, v.cw, v.ch, v.sw);
    }
  }

  lemma RatioKept(v: Viewport, p: Placement)
    requires v.Drawable() && (v.mode == Fit || v.mode == FillCrop) && SizeFits(v) && p == v.Placed()
    ensures KeepsRatio(p, v.cw, v.ch)
  {
    AspectRatioKept(v);
    PlacedAsExact(v);
  }

  /** Both modes keep the ratio exactly when the scaled size fits into 32 bits. */
  lemma RatioKeptExactly(v: Viewport)
    requires v.Drawable() && (v.mode == Fit || v.mode == FillCrop)
    ensures KeepsRatio(v.Placed(), v.cw, v.ch) <==> SizeFits(v)
  {
    var p := v.Placed();
    if SizeFits(v) { RatioKept(v, p); } else { RatioLost(v, p); }
  }

  /** Whatever the cast leaves, the surface is covered exactly when no side falls short of it. */
  lemma CoversExactly(v: Viewport)
    requires v.Drawable()
    ensures Covers(v) <==> CastU32(v.ExactSize().0) >= v.sw && CastU32(v.ExactSize().1) >= v.sh
  {
    HalfBounds(v.sw - v.Placed().width);
    HalfBounds(v.sh - v.Placed().height);
  }

  lemma FillCropExact(v: Viewport)
    requires v.Drawable() && v.mode == FillCrop
    ensures v.ExactSize().0 >= v.sw && v.ExactSize().1 >= v.sh
    ensures v.ExactSize().0 == v.sw || v.ExactSize().1 == v.sh
  {
    ScaledSideOrder(v.cw, v.sh, v.ch, v.sw);
    ScaledSideOrder(v.ch, v.sw, v.cw, v.sh);
  }

  /**
    `FillCrop` covers the surface in the desktop's ratio exactly when the scaled size fits into 32 bits,
    and then touches two opposite edges.
    */
  lemma FillCropCovers(v: Viewport)
    requires v.Drawable() && v.mode == FillCrop
    ensures Covers(v) && KeepsRatio(v.Placed(), v.cw, v.ch) <==> SizeFits(v)
    ensures SizeFits(v) ==>
      var p := v.Placed(); (p.x == 0 && p.width == v.sw) || (p.y == 0 && p.height == v.sh)
  {
    RatioKeptExactly(v);
    if SizeFits(v) {
      FillCropExact(v);
      PlacedAsExact(v);
      CoversExactly(v);
    }
  }

  /** A desktop twice as high as wide on the widest surface: the scaled height is truncated. */
  lemma FillCropFallsShort()
    ensures var v := Viewport(1, 2, 0x8000_0000, 1, FillCrop); v.Drawable() && !Covers(v)
  {
    var v := Viewport(1, 2, 0x8000_0000, 1, FillCrop);
    assert !v.HeightLimits() && v.ExactSize().1 == 0x1_0000_0000;
    CoversExactly(v);
  }

  /** A surface and a desktop of at most 65535 pixels a side never overflow `FillCrop`. */
  lemma FillCropFits(v: Viewport)
    requires v.Drawable() && v.cw <= 0xFFFF && v.ch <= 0xFFFF && v.sw <= 0xFFFF && v.sh <= 0xFFFF
    ensures SizeFits(v)
  {
    SideFits(v.cw, v.sh, v.ch);
    SideFits(v.ch, v.sw, v.cw);
  }

  lemma SideFits(side: u32, target: u32, per: u32)
    requires per > 0 && side <= 0xFFFF && target <= 0xFFFF
    ensures ScaledSide(side, target, per) <= U32_MAX
  {
    MulLe(side, 0xFFFF, target);
    MulLe(target, 0xFFFF, 0xFFFF);
    DivBounds(side * target, per);
    MulLe(1, per, side * target / per);
  }

  // ---- Pointers ----

  /** Every mapped pointer is a desktop pixel, and clamping changes nothing where mapping succeeds. */
  lemma PointerMapping(v: Viewport, x: Coord, y: Coord)
    requires v.Drawable()
    ensures v.MapPointerClamped(x, y).0 < v.cw && v.MapPointerClamped(x, y).1 < v.ch
    ensures v.MapPointer(x, y).Some? ==> v.MapPointer(x, y).value == v.MapPointerClamped(x, y)
    ensures v.MapPointer(x, y).Some? <==>
      var p := v.Placed();
      && x.Finite? && y.Finite? && p.width > 0 && p.height > 0
      && 0.0 <= x.v - p.x as real < p.width as real && 0.0 <= y.v - p.y as real < p.height as real
  {
  }

  lemma MulDivReal(a: real, b: real)
    requires b > 0.0
    ensures a / b * b == a && a * b / b == a
  {
  }

  lemma MulLtReal(a: real, b: real, c: real)
    requires c > 0.0
    ensures a < b <==> a * c < b * c
  {
  }

  /** Scaling out and back over the reals. */
  lemma ScaleRoundTrip(p: real, s: real, d: real)
    requires 0.0 <= p < s && d > 0.0
    ensures 0.0 <= Scale(p, d, s) < d && Scale(Scale(p, d, s), s, d) == p
  {
    var rel := Scale(p, d, s);
    MulDivReal(p * d, s);
    MulDivReal(p, d);
    MulLtReal(p, s, d);
    MulLtReal(rel, d, s);
    assert p * d >= 0.0;
    if rel < 0.0 { MulLtReal(rel, 0.0, s); }
  }

  /** One axis of the round trip: a pixel scaled out to `rel` maps back to itself. */
  lemma AxisRoundTrip(px: u32, side: u32, drawn: u32, rel: real)
    requires px < side && drawn > 0 && rel == Scale(px as real, drawn as real, side as real)
    ensures 0.0 <= rel < drawn as real && Pixel(rel, side, drawn) == px
  {
    ScaleRoundTrip(px as real, side as real, drawn as real);
    KeepExact(px, side);
  }

  /** A cursor drawn at a desktop pixel is mapped back to that pixel (over the reals). */
  lemma SurfaceRoundTrip(v: Viewport, x: u32, y: u32, sx: real, sy: real)
    requires v.Drawable() && x < v.cw && y < v.ch && v.Placed().width > 0 && v.Placed().height > 0
    requires v.MapToSurface(x, y) == (sx, sy)
    ensures v.MapPointer(Finite(sx), Finite(sy)) == Some((x, y))
  {
    var p := v.Placed();
    var relX, relY := sx - p.x as real, sy - p.y as real;
    AxisRoundTrip(x, v.cw, p.width, relX);
    AxisRoundTrip(y, v.ch, p.height, relY);
  }

  /** `Stretch` fills the surface and `Center` draws the desktop in its own size, in the middle. */
  lemma StretchAndCenter(v: Viewport)
    requires v.Drawable()
    ensures v.mode == Stretch ==> v.Placed() == Placement(0, 0, v.sw, v.sh)
    ensures v.mode == Center ==>
      var p := v.Placed();
      && p.width == v.cw && p.height == v.ch
      && -1 <= 2 * p.x - (v.sw - v.cw) <= 1 && -1 <= 2 * p.y - (v.sh - v.ch) <= 1
  {
  }

  /** In every mode the desktop is drawn in the middle of the surface, to within half a pixel. */
  lemma DrawnInTheMiddle(v: Viewport)
    requires v.Drawable()
    ensures var p := v.Placed(); -1 <= 2 * p.x - (v.sw - p.width) <= 1 && -1 <= 2 * p.y - (v.sh - p.height) <= 1
  {
  }
}
