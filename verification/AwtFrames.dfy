/** One frame of the AWT bridge: a damaged rectangle and its pixels. */
module AwtFrames {
  import opened Words
  import opened Wrappers
  import opened Geometry

  datatype PixelFormat = IntArgb | IntRgb

  datatype FrameError =
    | InvalidSize | SizeOverLimit
    | EmptyDamage | DamageOutside | PayloadMismatch
    | ForeignSize
    | DestinationTooSmall
    | Truncated | BadMagic | BadVersion | BadFormat | PayloadTruncated | PayloadUnaligned

  function ValidateDims(width: u32, height: u32): Option<FrameError> {
    if width == 0 || height == 0 then Some(InvalidSize)
    else if width > MAX_CANVAS_DIM || height > MAX_CANVAS_DIM then Some(SizeOverLimit)
    else None
  }

  predicate ValidDims(width: u32, height: u32) { ValidateDims(width, height).None? }

  /** `pixels` holds only the damaged rectangle, packed row-major. */
  datatype AwtFrame = AwtFrame(
    seqNo: u32, width: u32, height: u32, format: PixelFormat, damage: Rect, pixels: seq<u32>)
  {
    /** What `partial` checks before it hands a frame out. */
    predicate Valid() {
      && ValidDims(width, height)
      && !damage.IsEmpty()
      && damage.FitsIn(width, height)
      && |pixels| == damage.Area()
    }

    predicate IsFull() { damage == Whole(width, height) }

    /** The ARGB colour the frame paints on pixel `(x, y)` of the desktop. */
    function ColorAt(x: int, y: int): u32
      requires damage.Contains(x, y) && |pixels| == damage.Area()
    {
      RowInBounds(damage.width, damage.height, x - damage.x, y - damage.y);
      Opaque(format, pixels[(y - damage.y) * damage.width + (x - damage.x)])
    }
  }

  /** `s | 0xFF00_0000` for `IntRgb`: the alpha byte is forced to 255. */
  function Opaque(format: PixelFormat, pixel: u32): u32 {
    if format == IntRgb then 0xFF00_0000 + pixel % 0x100_0000 else pixel
  }

  function Partial(seqNo: u32, width: u32, height: u32, damage: Rect, pixels: seq<u32>): Result<AwtFrame, FrameError> {
    var dims := ValidateDims(width, height);
    if dims.Some? then Failure(dims.value)
    else if damage.IsEmpty() then Failure(EmptyDamage)
    else if !damage.FitsIn(width, height) then Failure(DamageOutside)
    else if |pixels| != damage.Area() then Failure(PayloadMismatch)
    else Success(AwtFrame(seqNo, width, height, IntArgb, damage, pixels))
  }

  // ---- RGBA8888 ----

  /** Byte `k` (R, G, B, A) of one ARGB pixel. */
  function Channel(px: u32, k: int): u8
    requires 0 <= k < 4
  {
    match k
    case 0 => px / 0x1_0000 % 0x100
    case 1 => px / 0x100 % 0x100
    case 2 => px % 0x100
    case 3 => px / 0x100_0000 % 0x100
  }

  /** The RGBA8888 bytes of a whole ARGB buffer. */
  function Rgba(pixels: seq<u32>): (bytes: seq<u8>)
    ensures |bytes| == 4 * |pixels|
  {
    seq(4 * |pixels|, j requires 0 <= j < 4 * |pixels| => Channel(pixels[j / 4], j % 4))
  }

  /** Byte `4 * i + k` of the conversion is channel `k` of pixel `i`. */
  lemma RgbaByte(pixels: seq<u32>, i: nat, k: nat)
    requires i < |pixels| && k < 4
    ensures Rgba(pixels)[4 * i + k] == Channel(pixels[i], k)
  {
  }

  lemma ChannelsDeterminePixel(p: u32, q: u32)
    requires Channel(p, 0) == Channel(q, 0) && Channel(p, 1) == Channel(q, 1)
    requires Channel(p, 2) == Channel(q, 2) && Channel(p, 3) == Channel(q, 3)
    ensures p == q
  {
    Recompose(p);
    Recompose(q);
  }

  lemma Recompose(p: u32)
    ensures p == 0x100_0000 * Channel(p, 3) + 0x1_0000 * Channel(p, 0) + 0x100 * Channel(p, 1) + Channel(p, 2)
  {
    var hi, mid := p / 0x1_0000, p / 0x100;
    assert mid / 0x100 == hi && hi / 0x100 == p / 0x100_0000;
    assert p == 0x100 * mid + p % 0x100 && mid == 0x100 * hi + mid % 0x100 && hi == 0x100 * (hi / 0x100) + hi % 0x100;
  }

  /** Nothing is lost in the conversion: equal bytes come from equal pixels. */
  lemma RgbaIsInjective(a: seq<u32>, b: seq<u32>)
    requires Rgba(a) == Rgba(b)
    ensures a == b
  {
    assert |Rgba(a)| == |Rgba(b)|;
    forall i | 0 <= i < |a| ensures a[i] == b[i] {
      forall k | 0 <= k < 4 ensures Channel(a[i], k) == Channel(b[i], k) {
        RgbaByte(a, i, k);
        RgbaByte(b, i, k);
      }
      ChannelsDeterminePixel(a[i], b[i]);
    }
  }
}
