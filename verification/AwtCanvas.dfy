/**
  The double-buffered canvas itself: two pixel buffers written row by row in place. Every method
  is tied to the operation of `CanvasSpec` it implements.
  */
module AwtCanvases {
  import opened Words
  import opened Wrappers
  import opened Geometry
  import opened AwtFrames
  import Spec = CanvasSpec

  // ---- One row at a time ----

  /** `buf` with the segment starting at `start` replaced by `row`. */
  function WithRow<T>(buf: seq<T>, start: nat, row: seq<T>): (res: seq<T>)
    requires start + |row| <= |buf|
    ensures |res| == |buf|
  {
    seq(|buf|, i requires 0 <= i < |buf| => if start <= i < start + |row| then row[i - start] else buf[i])
  }

  /** `len` elements of a buffer, from `start` on. */
  function Segment<T>(buf: seq<T>, start: nat, len: nat): (res: seq<T>)
    requires start + len <= |buf|
    ensures |res| == len
  {
    seq(len, k requires 0 <= k < len => buf[start + k])
  }

  /** The `row`-th row of a rectangle of a `w`-wide buffer. */
  function RowOf<T>(buf: seq<T>, w: nat, r: Rect, row: nat): seq<T>
    requires RowStart(r, w, row) + r.width <= |buf|
  {
    Segment(buf, RowStart(r, w, row), r.width)
  }

  lemma RowFits(r: Rect, w: u32, h: u32, row: nat)
    requires r.FitsIn(w, h) && row < r.height && ValidDims(w, h)
    ensures r.x + r.width <= w && r.y + r.height <= h
    ensures RowStart(r, w, row) + r.width <= w * h
  {
    MulMono(r.y + row + 1, h, w);
    assert (r.y + row + 1) * w == (r.y + row) * w + w;
  }

  /** Replacing one more row of the rectangle is one more row patched. */
  lemma PatchOneRow(buf: seq<u32>, src: seq<u32>, w: u32, h: u32, r: Rect, row: nat)
    requires ValidDims(w, h) && |src| == |buf| == w * h && r.FitsIn(w, h) && row < r.height
    requires RowStart(r, w, row) + r.width <= |buf|
    ensures WithRow(Spec.PatchRows(buf, src, w, r, row), RowStart(r, w, row), RowOf(src, w, r, row))
         == Spec.PatchRows(buf, src, w, r, row + 1)
  {
    RowFits(r, w, h, row);
    var start := RowStart(r, w, row);
    var before, after := Spec.PatchRows(buf, src, w, r, row), Spec.PatchRows(buf, src, w, r, row + 1);
    var res := WithRow(before, start, RowOf(src, w, r, row));
    forall i | 0 <= i < |buf| ensures res[i] == after[i] {
      RowSegment(r, w, row, i);
    }
  }

  lemma PatchNoRows(buf: seq<u32>, src: seq<u32>, w: nat, r: Rect)
    requires 0 < w && |src| == |buf|
    ensures Spec.PatchRows(buf, src, w, r, 0) == buf
  {
  }

  lemma PatchAllRows(buf: seq<u32>, src: seq<u32>, w: u32, h: u32, r: Rect)
    requires ValidDims(w, h) && |src| == |buf| && r.FitsIn(w, h)
    ensures Spec.PatchRows(buf, src, w, r, r.height) == Spec.Patch(buf, src, w, r)
  {
    forall i | 0 <= i < |buf| ensures CoversRows(r, w, i, r.height) == Covers(r, w, i) {
      CoversAllRows(r, w, h, i);
    }
  }

  /** One row of a frame, as it lands on the canvas. */
  lemma PaintingRow(frame: AwtFrame, w: u32, h: u32, row: nat, k: nat)
    requires ValidDims(w, h) && frame.damage.FitsIn(w, h) && |frame.pixels| == frame.damage.Area()
    requires row < frame.damage.height && k < frame.damage.width
    ensures RowStart(frame.damage, w, row) + k < w * h
    ensures row * frame.damage.width + k < |frame.pixels|
    ensures Spec.Painting(frame, w, w * h)[RowStart(frame.damage, w, row) + k]
         == Opaque(frame.format, frame.pixels[row * frame.damage.width + k])
  {
    var d := frame.damage;
    RowFits(d, w, h, row);
    RowInBounds(d.width, d.height, k, row);
    RowMajor(w, d.x + k, d.y + row);
    assert RowStart(d, w, row) + k == (d.y + row) * w + (d.x + k);
  }

  // ---- Bytes, four per pixel ----

  /** `dst` with the pixels of the first `rows` rows of `r` converted into it. */
  function PatchByteRows(dst: seq<u8>, bytes: seq<u8>, w: nat, r: Rect, rows: nat): (res: seq<u8>)
    requires 0 < w && |bytes| <= |dst|
    ensures |res| == |dst|
  {
    seq(|dst|, j requires 0 <= j < |dst| =>
      if j < |bytes| && CoversRows(r, w, j / 4, rows) then bytes[j] else dst[j])
  }

  lemma PatchOneByteRow(dst: seq<u8>, bytes: seq<u8>, w: u32, h: u32, r: Rect, row: nat)
    requires ValidDims(w, h) && |bytes| == 4 * (w * h) <= |dst| && r.FitsIn(w, h) && row < r.height
    requires 4 * (RowStart(r, w, row) + r.width) <= |bytes|
    ensures var start := RowStart(r, w, row);
      WithRow(PatchByteRows(dst, bytes, w, r, row), 4 * start, Segment(bytes, 4 * start, 4 * r.width))
      == PatchByteRows(dst, bytes, w, r, row + 1)
  {
    RowFits(r, w, h, row);
    var start := RowStart(r, w, row);
    var before, after := PatchByteRows(dst, bytes, w, r, row), PatchByteRows(dst, bytes, w, r, row + 1);
    var res := WithRow(before, 4 * start, Segment(bytes, 4 * start, 4 * r.width));
    forall j | 0 <= j < |dst| ensures res[j] == after[j] {
      RowSegment(r, w, row, j / 4);
      assert start <= j / 4 < start + r.width <==> 4 * start <= j < 4 * (start + r.width);
    }
  }

  lemma PatchAllByteRows(dst: seq<u8>, bytes: seq<u8>, w: u32, h: u32, r: Rect)
    requires ValidDims(w, h) && |bytes| <= |dst| && r.FitsIn(w, h)
    ensures PatchByteRows(dst, bytes, w, r, 0) == dst
    ensures PatchByteRows(dst, bytes, w, r, r.height) == Spec.PatchBytes(dst, bytes, w, r)
  {
    forall j | 0 <= j < |dst| ensures CoversRows(r, w, j / 4, r.height) == Covers(r, w, j / 4) {
      CoversAllRows(r, w, h, j / 4);
    }
  }

  /** The first `rows` rows of a region of the surface, end to end. */
  function Packed(buf: seq<u32>, w: u32, h: u32, r: Rect, rows: nat): (res: seq<u32>)
    requires ValidDims(w, h) && |buf| == w * h && r.FitsIn(w, h) && rows <= r.height
    ensures |res| == rows * r.width
  {
    if rows == 0 then []
    else
      RowFits(r, w, h, rows - 1);
      assert rows * r.width == (rows - 1) * r.width + r.width;
      Packed(buf, w, h, r, rows - 1) + RowOf(buf, w, r, rows - 1)
  }

  /** Packing the whole surface copies it. */
  lemma {:induction false} PackedWhole(buf: seq<u32>, w: u32, h: u32, rows: nat)
    requires ValidDims(w, h) && |buf| == w * h && rows <= h
    ensures rows * w <= |buf| && Packed(buf, w, h, Whole(w, h), rows) == buf[..rows * w]
  {
    MulMono(rows, h, w);
    if rows > 0 {
      assert rows * w == (rows - 1) * w + w;
      PackedWhole(buf, w, h, rows - 1);
    }
  }

  /** A row of the conversion is the conversion of the row. */
  lemma RgbaOfSegment(pixels: seq<u32>, start: nat, len: nat)
    requires start + len <= |pixels|
    ensures Rgba(Segment(pixels, start, len)) == Segment(Rgba(pixels), 4 * start, 4 * len)
  {
    var a, b := Rgba(Segment(pixels, start, len)), Segment(Rgba(pixels), 4 * start, 4 * len);
    forall j | 0 <= j < |a| ensures a[j] == b[j] {
      RgbaByte(Segment(pixels, start, len), j / 4, j % 4);
      RgbaByte(pixels, start + j / 4, j % 4);
    }
  }

  lemma RgbaOfConcat(a: seq<u32>, b: seq<u32>)
    ensures Rgba(a + b) == Rgba(a) + Rgba(b)
  {
    forall j | 0 <= j < 4 * |a + b| ensures Rgba(a + b)[j] == (Rgba(a) + Rgba(b))[j] {
      RgbaByte(a + b, j / 4, j % 4);
      if j < 4 * |a| { RgbaByte(a, j / 4, j % 4); } else { RgbaByte(b, j / 4 - |a|, j % 4); }
    }
  }

  /** Packing one more row: the converted row goes right after the rows converted before it. */
  lemma PackedRow(was: seq<u8>, buf: seq<u32>, w: u32, h: u32, r: Rect, row: nat)
    requires ValidDims(w, h) && |buf| == w * h && r.FitsIn(w, h) && row < r.height && 4 * r.Area() <= |was|
    ensures row * r.width + r.width <= r.Area() && RowStart(r, w, row) + r.width <= |buf|
    ensures |Packed(buf, w, h, r, row)| == row * r.width
    ensures WithRow(WithRow(was, 0, Rgba(Packed(buf, w, h, r, row))), 4 * (row * r.width), Rgba(RowOf(buf, w, r, row)))
         == WithRow(was, 0, Rgba(Packed(buf, w, h, r, row + 1)))
  {
    RowFits(r, w, h, row);
    MulMono(row + 1, r.height, r.width);
    assert (row + 1) * r.width == row * r.width + r.width;
    var done, next := Packed(buf, w, h, r, row), RowOf(buf, w, r, row);
    assert Packed(buf, w, h, r, row + 1) == done + next;
    RgbaOfConcat(done, next);
    WithRowAppends(was, Rgba(done), Rgba(next));
  }

  lemma WithRowAppends<T>(buf: seq<T>, a: seq<T>, b: seq<T>)
    requires |a| + |b| <= |buf|
    ensures WithRow(WithRow(buf, 0, a), |a|, b) == WithRow(buf, 0, a + b)
  {
  }

  // ---- Loops over the buffers ----

  method NewBuffer(n: nat, color: u32) returns (a: array<u32>)
    ensures fresh(a) && a[..] == Spec.Uniform(n, color)
  {
    a := new u32[n](_ => color);
    assert a[..] == Spec.Uniform(n, color);
  }

  /** `copy_from_slice` of one row from one buffer to the other. */
  method CopyRow(src: array<u32>, dst: array<u32>, start: nat, len: nat)
    requires src != dst && start + len <= src.Length == dst.Length
    modifies dst
    ensures dst[..] == WithRow(old(dst[..]), start, Segment(src[..], start, len))
  {
    for k := 0 to len
      invariant forall i | 0 <= i < dst.Length ::
        dst[i] == if start <= i < start + k then src[i] else old(dst[i])
    {
      dst[start + k] := src[start + k];
    }
  }

  /** One payload row, forced opaque for `IntRgb`. */
  method BlitRow(frame: AwtFrame, src: nat, len: nat, back: array<u32>, dst: nat)
    requires src + len <= |frame.pixels| && dst + len <= back.Length
    modifies back
    ensures Blitted(frame, src, dst, len, old(back[..]), back[..])
  {
    for k := 0 to len
      invariant forall i | 0 <= i < back.Length ::
        back[i] == if dst <= i < dst + k then Opaque(frame.format, frame.pixels[src + (i - dst)]) else old(back[i])
    {
      back[dst + k] := Opaque(frame.format, frame.pixels[src + k]);
    }
  }

  /** Where payload row `row` is read from and where it goes. */
  lemma BlitBounds(frame: AwtFrame, w: u32, h: u32, row: nat)
    requires ValidDims(w, h) && frame.damage.FitsIn(w, h) && |frame.pixels| == frame.damage.Area()
    requires row < frame.damage.height
    ensures RowStart(frame.damage, w, row) + frame.damage.width <= w * h
    ensures row * frame.damage.width + frame.damage.width <= |frame.pixels|
  {
    var d := frame.damage;
    RowFits(d, w, h, row);
    MulMono(row + 1, d.height, d.width);
    assert (row + 1) * d.width == row * d.width + d.width;
  }

  /** Payload row `row` has been blitted from `src` to `dst`. */
  ghost predicate Blitted(frame: AwtFrame, src: nat, dst: nat, len: nat, before: seq<u32>, after: seq<u32>)
    requires src + len <= |frame.pixels| && |before| == |after|
  {
    forall i | 0 <= i < |after| ::
      after[i] == if dst <= i < dst + len then Opaque(frame.format, frame.pixels[src + (i - dst)]) else before[i]
  }

  /** What blitting one payload row leaves is the row of the painting. */
  lemma BlittedRow(frame: AwtFrame, w: u32, h: u32, row: nat, src: nat, dst: nat,
                   before: seq<u32>, after: seq<u32>, ink: seq<u32>)
    requires ValidDims(w, h) && frame.damage.FitsIn(w, h) && |frame.pixels| == frame.damage.Area()
    requires row < frame.damage.height && |before| == |after| == w * h && ink == Spec.Painting(frame, w, w * h)
    requires src == row * frame.damage.width && src + frame.damage.width <= |frame.pixels|
    requires dst == RowStart(frame.damage, w, row) && dst + frame.damage.width <= w * h
    requires Blitted(frame, src, dst, frame.damage.width, before, after)
    ensures after == WithRow(before, dst, RowOf(ink, w, frame.damage, row))
  {
    var d := frame.damage;
    forall i | 0 <= i < |after| ensures after[i] == WithRow(before, dst, RowOf(ink, w, d, row))[i] {
      if dst <= i < dst + d.width { PaintingRow(frame, w, h, row, i - dst); }
    }
  }

  /** The row loop of `submit`: the whole damage rectangle, one payload row after the other. */
  method BlitRows(frame: AwtFrame, back: array<u32>, w: u32, h: u32)
    requires ValidDims(w, h) && back.Length == w * h && Spec.SubmitError(w, h, frame).None?
    modifies back
    ensures back[..] == Spec.Patch(old(back[..]), Spec.Painting(frame, w, back.Length), w, frame.damage)
  {
    var d := frame.damage;
    ghost var was, ink := back[..], Spec.Painting(frame, w, back.Length);
    PatchNoRows(was, ink, w, d);
    for row := 0 to d.height
      invariant back[..] == Spec.PatchRows(was, ink, w, d, row)
    {
      BlitBounds(frame, w, h, row);
      var src, dst := row * d.width, RowStart(d, w, row);
      ghost var before := back[..];
      BlitRow(frame, src, d.width, back, dst);
      BlittedRow(frame, w, h, row, src, dst, before, back[..], ink);
      PatchOneRow(was, ink, w, h, d, row);
    }
    PatchAllRows(was, ink, w, h, d);
  }

  /** The row loop of `present_at`. */
  method PublishRows(back: array<u32>, front: array<u32>, w: u32, h: u32, r: Rect)
    requires ValidDims(w, h) && back != front && back.Length == front.Length == w * h && r.FitsIn(w, h)
    modifies front
    ensures front[..] == Spec.Patch(old(front[..]), back[..], w, r)
  {
    ghost var was := front[..];
    PatchNoRows(was, back[..], w, r);
    for row := 0 to r.height
      invariant front[..] == Spec.PatchRows(was, back[..], w, r, row)
    {
      RowFits(r, w, h, row);
      CopyRow(back, front, RowStart(r, w, row), r.width);
      PatchOneRow(was, back[..], w, h, r, row);
    }
    PatchAllRows(was, back[..], w, h, r);
  }

  /** Converts a run of pixels into the array at `start`; nothing else changes. */
  method ConvertRow(px: array<u32>, src: nat, len: nat, dst: array<u8>, start: nat)
    requires src + len <= px.Length && start + 4 * len <= dst.Length
    modifies dst
    ensures dst[..] == WithRow(old(dst[..]), start, Rgba(Segment(px[..], src, len)))
  {
    var o := start;
    for i := 0 to len
      invariant o == start + 4 * i
      invariant forall j | 0 <= j < dst.Length ::
        dst[j] == if start <= j < start + 4 * i then Channel(px[src + (j - start) / 4], (j - start) % 4) else old(dst[j])
    {
      dst[o] := Channel(px[src + i], 0);
      dst[o + 1] := Channel(px[src + i], 1);
      dst[o + 2] := Channel(px[src + i], 2);
      dst[o + 3] := Channel(px[src + i], 3);
      o := o + 4;
    }
  }

  /** The row loop of `copy_region_into_framebuffer`. */
  method ConvertRows(px: array<u32>, w: u32, h: u32, r: Rect, dst: array<u8>)
    requires ValidDims(w, h) && px.Length == w * h && r.FitsIn(w, h) && 4 * px.Length <= dst.Length
    modifies dst
    ensures dst[..] == Spec.PatchBytes(old(dst[..]), Rgba(px[..]), w, r)
  {
    ghost var was, full := dst[..], Rgba(px[..]);
    PatchAllByteRows(was, full, w, h, r);
    for row := 0 to r.height
      invariant dst[..] == PatchByteRows(was, full, w, r, row)
    {
      RowFits(r, w, h, row);
      var src := RowStart(r, w, row);
      RgbaOfSegment(px[..], src, r.width);
      PatchOneByteRow(was, full, w, h, r, row);
      ghost var before := dst[..];
      ConvertRow(px, src, r.width, dst, 4 * src);
      assert dst[..] == WithRow(before, 4 * src, Segment(full, 4 * src, 4 * r.width));
    }
  }

  /** The row loop of `copy_region_rgba_into`. */
  method PackRows(px: array<u32>, w: u32, h: u32, r: Rect, dst: array<u8>)
    requires ValidDims(w, h) && px.Length == w * h && r.FitsIn(w, h) && 4 * r.Area() <= dst.Length
    modifies dst
    ensures |Packed(px[..], w, h, r, r.height)| == r.Area()
    ensures dst[..] == WithRow(old(dst[..]), 0, Rgba(Packed(px[..], w, h, r, r.height)))
  {
    ghost var was, buf := dst[..], px[..];
    var o := 0;
    for row := 0 to r.height
      invariant o == 4 * (row * r.width) <= dst.Length
      invariant dst[..] == WithRow(was, 0, Rgba(Packed(buf, w, h, r, row)))
    {
      PackedRow(was, buf, w, h, r, row);
      var src := RowStart(r, w, row);
      assert RowOf(buf, w, r, row) == Segment(px[..], src, r.width);
      ConvertRow(px, src, r.width, dst, o);
      assert (row + 1) * r.width == row * r.width + r.width;
      o := o + 4 * r.width;
    }
  }

  /** The checks and the loop of `copy_region_rgba_into`, for a region already clamped. */
  method PackRegion(px: array<u32>, w: u32, h: u32, r: Rect, dst: array<u8>) returns (written: Result<nat, FrameError>)
    requires ValidDims(w, h) && px.Length == w * h && r.FitsIn(w, h)
    modifies dst
    ensures r.IsEmpty() ==> written == Success(0) && dst[..] == old(dst[..])
    ensures !r.IsEmpty() && dst.Length < 4 * r.Area() ==> written == Failure(DestinationTooSmall) && dst[..] == old(dst[..])
    ensures !r.IsEmpty() && dst.Length >= 4 * r.Area() ==>
      && written == Success(4 * r.Area()) && |Packed(px[..], w, h, r, r.height)| == r.Area()
      && dst[..] == WithRow(old(dst[..]), 0, Rgba(Packed(px[..], w, h, r, r.height)))
  {
    if r.IsEmpty() {
      return Success(0);
    }
    if dst.Length < r.Area() * 4 {
      return Failure(DestinationTooSmall);
    }
    PackRows(px, w, h, r, dst);
    written := Success(r.Area() * 4);
  }

  class AwtCanvas {
    var width: u32
    var height: u32
    var back: array<u32>
    var front: array<u32>
    /** What has been drawn since the last present. */
    var pending: Damage
    /** What the consumer has still to fetch. */
    var dirty: Damage
    var stats: Spec.Stats

    ghost function Value(): Spec.Canvas
      reads this, back, front
    {
      Spec.Canvas(width, height, back[..], front[..], pending, dirty, stats)
    }

    ghost predicate Valid()
      reads this, back, front
    {
      back != front && Value().Valid()
    }

    constructor (width: u32, height: u32)
      requires ValidDims(width, height)
      ensures Value() == Spec.NewCanvas(width, height)
      ensures Valid() && fresh(back) && fresh(front)
    {
      ghost var c := Spec.NewCanvas(width, height);
      var back := NewBuffer(width * height, Spec.OPAQUE_BLACK);
      var front := NewBuffer(width * height, Spec.OPAQUE_BLACK);
      this.width, this.height := width, height;
      this.back, this.front := back, front;
      pending := NO_DAMAGE;
      dirty := FullDamage(width, height);
      stats := Spec.Stats(0, 0, 0, 0, 0, 0, 0);
      new;
      assert this.back[..] == c.back && this.front[..] == c.front;
    }

    /** Both buffers are replaced by new ones. */
    method Resize(width: u32, height: u32) returns (err: Option<FrameError>)
      requires Valid()
      modifies this
      ensures Valid()
      ensures match Spec.Resize(old(Value()), width, height)
              case Success(c) => err == None && Value() == c
              case Failure(e) => err == Some(e) && Value() == old(Value())
    {
      err := ValidateDims(width, height);
      if err.Some? || (width == this.width && height == this.height) {
        return;
      }
      Spec.OperationsKeepValid(Value(), AwtFrame(0, 0, 0, IntArgb, EMPTY, []), width, height, 0, 0);
      var n := width * height;
      var back := NewBuffer(n, Spec.OPAQUE_BLACK);
      var front := NewBuffer(n, Spec.OPAQUE_BLACK);
      this.width, this.height := width, height;
      this.back, this.front := back, front;
      pending := NO_DAMAGE;
      dirty := FullDamage(width, height);
      stats := stats.(resizes := stats.resizes + 1);
    }

    /** Writes one accepted frame into the back buffer; a refused frame changes nothing. */
    method Submit(frame: AwtFrame) returns (err: Option<FrameError>)
      requires Valid()
      modifies this, back
      ensures Valid() && back == old(back) && front == old(front)
      ensures match Spec.Submit(old(Value()), frame)
              case Success(c) => err == None && Value() == c
              case Failure(e) => err == Some(e) && Value() == old(Value())
    {
      err := Spec.SubmitError(width, height, frame);
      if err.Some? {
        return;
      }
      Spec.OperationsKeepValid(Value(), frame, 1, 1, 0, 0);
      BlitRows(frame, back, width, height);
      pending := pending.Add(frame.damage);
      stats := stats.(submitted := stats.submitted + 1,
                      bytesBlitted := stats.bytesBlitted + frame.damage.Area() * 4,
                      lastSeq := frame.seqNo);
    }

    /** Publishes the pending damage; only its rows are copied to the front buffer. */
    method Present(nowMs: nat) returns (published: Option<Rect>)
      requires Valid()
      modifies this, front
      ensures Valid() && back == old(back) && front == old(front)
      ensures Value() == Spec.Present(old(Value()), nowMs)
      ensures published == old(pending).Region()
    {
      Spec.OperationsKeepValid(Value(), AwtFrame(0, 0, 0, IntArgb, EMPTY, []), 1, 1, 0, nowMs);
      published := pending.Region();
      pending := NO_DAMAGE;
      if published.None? {
        return;
      }
      if !dirty.IsEmpty() {
        stats := stats.(dropped := stats.dropped + 1);
      }
      PublishRows(back, front, width, height, published.value);
      dirty := dirty.Add(published.value);
      stats := stats.(presented := stats.presented + 1, lastPresentMs := nowMs);
    }

    method Fill(argb: u32)
      requires Valid()
      modifies this, back, front
      ensures Valid() && back == old(back) && front == old(front)
      ensures Value() == Spec.Fill(old(Value()), argb)
    {
      for i := 0 to back.Length
        modifies back
        invariant forall k | 0 <= k < i :: back[k] == argb
      {
        back[i] := argb;
      }
      CopyRow(back, front, 0, back.Length);
      assert back[..] == Spec.Uniform(back.Length, argb);
      assert front[..] == back[..];
      pending := NO_DAMAGE;
      dirty := FullDamage(width, height);
    }

    method TakeDirty() returns (taken: Option<Rect>)
      requires Valid()
      modifies this`dirty
      ensures Valid() && Value() == Spec.TakeDirty(old(Value()))
      ensures taken == old(dirty).Region()
    {
      taken := dirty.Region();
      dirty := NO_DAMAGE;
    }

    /** Converts one region into a whole-desktop framebuffer, each row at its own offset. */
    method CopyRegionIntoFramebuffer(r: Rect, dst: array<u8>) returns (err: Option<FrameError>)
      requires Valid()
      modifies dst
      ensures Value() == old(Value())
      ensures match Spec.CopyRegionIntoFramebuffer(Value(), r, old(dst[..]))
              case Success(fb) => err == None && dst[..] == fb
              case Failure(e) => err == Some(e) && dst[..] == old(dst[..])
    {
      var rect := r.ClampTo(width, height);
      if rect.IsEmpty() {
        return None;
      }
      if dst.Length < width * height * 4 {
        return Some(DestinationTooSmall);
      }
      ConvertRows(front, width, height, rect, dst);
      err := None;
    }

    /** Converts one region, tightly packed from the start of `dst`. */
    method CopyRegionRgbaInto(r: Rect, dst: array<u8>) returns (written: Result<nat, FrameError>)
      requires Valid()
      modifies dst
      ensures Value() == old(Value())
      ensures var rect := r.ClampTo(width, height);
        if rect.IsEmpty() then written == Success(0) && dst[..] == old(dst[..])
        else if dst.Length < 4 * rect.Area() then
          written == Failure(DestinationTooSmall) && dst[..] == old(dst[..])
        else
          && written == Success(4 * rect.Area())
          && |Packed(front[..], width, height, rect, rect.height)| == rect.Area()
          && dst[..] == WithRow(old(dst[..]), 0, Rgba(Packed(front[..], width, height, rect, rect.height)))
    {
      written := PackRegion(front, width, height, r.ClampTo(width, height), dst);
    }

    /** `copy_rgba_into`: the full conversion. */
    method CopyRgbaInto(dst: array<u8>) returns (written: Result<nat, FrameError>)
      requires Valid()
      modifies dst
      ensures Value() == old(Value())
      ensures if dst.Length < 4 * (width * height) then
                written == Failure(DestinationTooSmall) && dst[..] == old(dst[..])
              else
                && written == Success(4 * (width * height))
                && dst[..] == WithRow(old(dst[..]), 0, Rgba(front[..]))
    {
      ClampOfFitting(Whole(width, height), width, height);
      PackedWhole(front[..], width, height, height);
      assert front[..][..height * width] == front[..];
      written := CopyRegionRgbaInto(Whole(width, height), dst);
    }

    /** `poll_frame_into`: convert what is dirty and, only when that worked, mark it clean. */
    method PollFrameInto(dst: array<u8>) returns (r: Result<Option<Rect>, FrameError>)
      requires Valid()
      modifies this`dirty, dst
      ensures Valid()
      ensures match Spec.Poll(Spec.Screen(old(Value()), old(dst[..])))
              case Some(s) => r == Success(old(dirty).Region()) && Value() == s.canvas && dst[..] == s.fb
              case None => r == Failure(DestinationTooSmall) && Value() == old(Value()) && dst[..] == old(dst[..])
    {
      var region := dirty.Region();
      if region.None? {
        return Success(None);
      }
      var err := CopyRegionIntoFramebuffer(region.value, dst);
      if err.Some? {
        return Failure(err.value);
      }
      var _ := TakeDirty();
      r := Success(region);
    }
  }
}
