/**
  What the user sees of a frame (`launch/awt.rs`): the bytes a poll leaves at a pixel, in terms of the
  payload of the last frame painted there.
  */
module PolledPixels {
  import opened Words
  import opened Wrappers
  import opened Geometry
  import opened AwtFrames
  import opened CanvasSpec

  /** The four bytes at pixel `(x, y)` of an image with rows of `width` pixels. */
  ghost predicate PixelIs(fb: seq<u8>, width: nat, x: nat, y: nat, red: int, green: int, blue: int, alpha: int) {
    var at := 4 * (y * width + x);
    && 0 <= at && at + 3 < |fb|
    && fb[at] == red && fb[at + 1] == green && fb[at + 2] == blue && fb[at + 3] == alpha
  }

  /** An ARGB word shows its red, green and blue, with the alpha of its top byte. */
  ghost predicate ShowsWord(fb: seq<u8>, width: nat, x: nat, y: nat, argb: u32) {
    PixelIs(fb, width, x, y, argb / 0x1_0000 % 0x100, argb / 0x100 % 0x100, argb % 0x100, argb / 0x100_0000)
  }

  /** The word of the payload for pixel `(x, y)` of the desktop. */
  function PayloadAt(frame: AwtFrame, x: nat, y: nat): u32
    requires frame.damage.Contains(x, y) && |frame.pixels| == frame.damage.Area()
  {
    RowInBounds(frame.damage.width, frame.damage.height, x - frame.damage.x, y - frame.damage.y);
    frame.pixels[(y - frame.damage.y) * frame.damage.width + (x - frame.damage.x)]
  }

  /** A pixel of an `IntRgb` frame is opaque whatever its top byte; one of an `IntArgb` frame keeps its alpha. */
  ghost predicate ShowsPayload(fb: seq<u8>, width: nat, x: nat, y: nat, format: PixelFormat, word: u32) {
    PixelIs(fb, width, x, y, word / 0x1_0000 % 0x100, word / 0x100 % 0x100, word % 0x100,
      match format case IntRgb => 255 case IntArgb => word / 0x100_0000)
  }

  lemma OpaqueChannels(word: u32)
    ensures Channel(Opaque(IntArgb, word), 3) == word / 0x100_0000
    ensures Channel(Opaque(IntRgb, word), 3) == 255
    ensures forall format :: Channel(Opaque(format, word), 0) == word / 0x1_0000 % 0x100
    ensures forall format :: Channel(Opaque(format, word), 1) == word / 0x100 % 0x100
    ensures forall format :: Channel(Opaque(format, word), 2) == word % 0x100
  {
    var red, green, blue := word / 0x1_0000 % 0x100, word / 0x100 % 0x100, word % 0x100;
    Recompose(word);
    OfBytes(word / 0x100_0000 % 0x100, red, green, blue);
    OfBytes(255, red, green, blue);
  }

  /** The four bytes of a word, read back. */
  lemma OfBytes(a: u8, r: u8, g: u8, b: u8)
    ensures var word := 0x100_0000 * a + 0x1_0000 * r + 0x100 * g + b;
      && word / 0x100_0000 == a && word / 0x1_0000 % 0x100 == r && word / 0x100 % 0x100 == g && word % 0x100 == b
      && word % 0x100_0000 == 0x1_0000 * r + 0x100 * g + b
  {
    var word := 0x100_0000 * a + 0x1_0000 * r + 0x100 * g + b;
    assert word / 0x100 == 0x1_0000 * a + 0x100 * r + g;
    assert word / 0x1_0000 == 0x100 * a + r;
    assert word / 0x100_0000 == a;
  }

  // ---- the last frame painted there ----

  /** Of the first `shown` frames, `last` is the last one that covers the pixel. */
  ghost predicate LastCovering(frames: seq<AwtFrame>, shown: nat, last: nat, x: nat, y: nat) {
    && last < shown <= |frames| && frames[last].damage.Contains(x, y)
    && forall k | last < k < shown :: !frames[k].damage.Contains(x, y)
  }

  lemma {:induction false} PaintedByLast(base: u32, frames: seq<AwtFrame>, last: nat, x: nat, y: nat)
    requires AllSized(frames) && LastCovering(frames, |frames|, last, x, y)
    ensures PaintedAt(base, frames, x, y) == Opaque(frames[last].format, PayloadAt(frames[last], x, y))
  {
    if last < |frames| - 1 {
      var front := frames[..|frames| - 1];
      assert front[last] == frames[last];
      PaintedByLast(base, front, last, x, y);
    }
  }

  lemma {:induction false} PaintedByNone(base: u32, frames: seq<AwtFrame>, x: nat, y: nat)
    requires AllSized(frames) && forall k | 0 <= k < |frames| :: !frames[k].damage.Contains(x, y)
    ensures PaintedAt(base, frames, x, y) == base
  {
    if frames != [] { PaintedByNone(base, frames[..|frames| - 1], x, y); }
  }

  lemma FourBytes(fb: seq<u8>, width: nat, p: Painter, x: nat, y: nat, word: u32)
    requires p.Valid() && word == PaintedAt(p.base, p.accepted[..p.shown], x, y)
    requires ByteIsPainted(fb, width, p, x, y, 0) && ByteIsPainted(fb, width, p, x, y, 1)
    requires ByteIsPainted(fb, width, p, x, y, 2) && ByteIsPainted(fb, width, p, x, y, 3)
    ensures PixelIs(fb, width, x, y, Channel(word, 0), Channel(word, 1), Channel(word, 2), Channel(word, 3))
  {
    var i := y * width + x;
    assert 4 * (y * width + x) == 4 * i;
  }

  /** The canvas shows what the painter has painted, and the framebuffer mirrors it. */
  ghost predicate Tracks(s: Screen, p: Painter) {
    s.canvas.Valid() && p.Valid() && Shows(s.canvas, p) && Mirrors(s)
  }

  lemma RunsTrack(w: u32, h: u32, fb: seq<u8>, ops: seq<Op>)
    requires ValidDims(w, h)
    ensures Tracks(Run(Screen(NewCanvas(w, h), fb), ops), PainterRun(FreshPainter(w, h), ops))
  {
    CoalescingLosesNothing(w, h, fb, ops);
    RunMirrors(w, h, fb, ops);
  }

  lemma StepTracks(s: Screen, p: Painter, op: Op)
    requires Tracks(s, p)
    ensures Tracks(Step(s, op), PainterStep(p, op))
  {
    StepShows(s, p, op);
    StepMirrors(s, op);
  }

  /** What a poll leaves at a pixel, as one ARGB word. */
  lemma PolledWord(s: Screen, p: Painter, x: nat, y: nat)
    requires Tracks(s, p) && x < s.canvas.width && y < s.canvas.height && |s.fb| == 4 * s.canvas.Size()
    ensures var word := PaintedAt(p.base, p.accepted[..p.shown], x, y);
      PixelIs(Step(s, DoPoll).fb, s.canvas.width, x, y, Channel(word, 0), Channel(word, 1), Channel(word, 2), Channel(word, 3))
  {
    PollIsFullConversion(s);
    ShownByte(s.canvas, p, x, y, 0);
    ShownByte(s.canvas, p, x, y, 1);
    ShownByte(s.canvas, p, x, y, 2);
    ShownByte(s.canvas, p, x, y, 3);
    FourBytes(Rgba(s.canvas.front), s.canvas.width, p, x, y, PaintedAt(p.base, p.accepted[..p.shown], x, y));
  }

  lemma PayloadIsPolled(s: Screen, p: Painter, last: nat, x: nat, y: nat)
    requires Tracks(s, p) && x < s.canvas.width && y < s.canvas.height && |s.fb| == 4 * s.canvas.Size()
    requires LastCovering(p.accepted, p.shown, last, x, y)
    ensures ShowsPayload(Step(s, DoPoll).fb, s.canvas.width, x, y, p.accepted[last].format, PayloadAt(p.accepted[last], x, y))
  {
    PolledWord(s, p, x, y);
    var frames := p.accepted[..p.shown];
    assert frames[last] == p.accepted[last] && LastCovering(frames, |frames|, last, x, y);
    PaintedByLast(p.base, frames, last, x, y);
    OpaqueChannels(PayloadAt(p.accepted[last], x, y));
  }

  lemma FillIsPolled(s: Screen, p: Painter, x: nat, y: nat)
    requires Tracks(s, p) && x < s.canvas.width && y < s.canvas.height && |s.fb| == 4 * s.canvas.Size()
    requires forall k | 0 <= k < p.shown :: !p.accepted[k].damage.Contains(x, y)
    ensures ShowsWord(Step(s, DoPoll).fb, s.canvas.width, x, y, p.base)
  {
    PolledWord(s, p, x, y);
    PaintedByNone(p.base, p.accepted[..p.shown], x, y);
    OpaqueChannels(p.base);
  }

  /**
    After any run and a poll: where the last presented frame that covers a pixel is `IntArgb`, its bytes
    are those of the payload, alpha included; where it is `IntRgb`, the alpha is 255; and where none
    covers it, its bytes are those of the colour last filled.
    */
  lemma PolledPixelIsThePayload(w: u32, h: u32, fb: seq<u8>, ops: seq<Op>, s: Screen, p: Painter, x: nat, y: nat)
    requires ValidDims(w, h)
    requires s == Run(Screen(NewCanvas(w, h), fb), ops) && p == PainterRun(FreshPainter(w, h), ops)
    requires x < s.canvas.width && y < s.canvas.height && |s.fb| == 4 * s.canvas.Size()
    ensures p.Valid()
    ensures forall last: nat | LastCovering(p.accepted, p.shown, last, x, y) ::
      ShowsPayload(Step(s, DoPoll).fb, s.canvas.width, x, y, p.accepted[last].format, PayloadAt(p.accepted[last], x, y))
    ensures (forall k | 0 <= k < p.shown :: !p.accepted[k].damage.Contains(x, y)) ==>
      ShowsWord(Step(s, DoPoll).fb, s.canvas.width, x, y, p.base)
  {
    RunsTrack(w, h, fb, ops);
    forall last: nat | LastCovering(p.accepted, p.shown, last, x, y)
      ensures ShowsPayload(Step(s, DoPoll).fb, s.canvas.width, x, y, p.accepted[last].format, PayloadAt(p.accepted[last], x, y))
    {
      PayloadIsPolled(s, p, last, x, y);
    }
    if forall k | 0 <= k < p.shown :: !p.accepted[k].damage.Contains(x, y) { FillIsPolled(s, p, x, y); }
  }

  // ---- which frames are painted ----

  /** A frame is painted exactly when it is of this desktop, its damage a rectangle in it, its payload that size. */
  lemma AcceptedExactly(w: u32, h: u32, frame: AwtFrame)
    requires ValidDims(w, h)
    ensures SubmitError(w, h, frame) == None <==>
      && frame.width == w && frame.height == h
      && 0 < frame.damage.width && 0 < frame.damage.height
      && frame.damage.x + frame.damage.width <= w && frame.damage.y + frame.damage.height <= h
      && |frame.pixels| == frame.damage.width * frame.damage.height
    ensures frame.width != w || frame.height != h ==> SubmitError(w, h, frame) == Some(ForeignSize)
    ensures frame.width == w && frame.height == h && |frame.pixels| != frame.damage.width * frame.damage.height ==>
      SubmitError(w, h, frame) == Some(PayloadMismatch)
  {
  }

  // ---- straight from the operations ----

  lemma SubmitThenPresent(s: Screen, p: Painter, frame: AwtFrame, nowMs: nat)
    requires Tracks(s, p) && SubmitError(s.canvas.width, s.canvas.height, frame) == None
    ensures var s' := Step(Step(s, DoSubmit(frame)), DoPresent(nowMs));
      s'.canvas.width == s.canvas.width && s'.canvas.height == s.canvas.height && s'.fb == s.fb
    ensures var p' := PainterStep(PainterStep(p, DoSubmit(frame)), DoPresent(nowMs));
      p'.accepted == p.accepted + [frame] && p'.shown == |p'.accepted|
  {
  }

  /** After any run: a frame of this desktop, submitted, presented and polled, shows its payload on its damage. */
  lemma SubmittedFrameIsShown(w: u32, h: u32, fb: seq<u8>, ops: seq<Op>, s: Screen, frame: AwtFrame, nowMs: nat, x: nat, y: nat)
    requires ValidDims(w, h) && s == Run(Screen(NewCanvas(w, h), fb), ops) && |s.fb| == 4 * s.canvas.Size()
    requires frame.width == s.canvas.width && frame.height == s.canvas.height
    requires frame.damage.Contains(x, y) && |frame.pixels| == frame.damage.Area()
    requires frame.damage.x + frame.damage.width <= s.canvas.width && frame.damage.y + frame.damage.height <= s.canvas.height
    ensures ShowsPayload(Step(Step(Step(s, DoSubmit(frame)), DoPresent(nowMs)), DoPoll).fb,
      s.canvas.width, x, y, frame.format, PayloadAt(frame, x, y))
  {
    var p := PainterRun(FreshPainter(w, h), ops);
    RunsTrack(w, h, fb, ops);
    AcceptedExactly(s.canvas.width, s.canvas.height, frame);
    ShownAtOnce(s, p, frame, nowMs, x, y);
  }

  lemma ShownAtOnce(s: Screen, p: Painter, frame: AwtFrame, nowMs: nat, x: nat, y: nat)
    requires Tracks(s, p) && |s.fb| == 4 * s.canvas.Size() && SubmitError(s.canvas.width, s.canvas.height, frame) == None
    requires frame.damage.Contains(x, y) && |frame.pixels| == frame.damage.Area()
    ensures ShowsPayload(Step(Step(Step(s, DoSubmit(frame)), DoPresent(nowMs)), DoPoll).fb,
      s.canvas.width, x, y, frame.format, PayloadAt(frame, x, y))
  {
    StepTracks(s, p, DoSubmit(frame));
    StepTracks(Step(s, DoSubmit(frame)), PainterStep(p, DoSubmit(frame)), DoPresent(nowMs));
    SubmitThenPresent(s, p, frame, nowMs);
    var s' := Step(Step(s, DoSubmit(frame)), DoPresent(nowMs));
    var p' := PainterStep(PainterStep(p, DoSubmit(frame)), DoPresent(nowMs));
    PayloadIsPolled(s', p', |p.accepted|, x, y);
  }

  /** After any run and a fill, every polled pixel has the bytes of the fill colour. */
  lemma FilledCanvasIsShown(w: u32, h: u32, fb: seq<u8>, ops: seq<Op>, s: Screen, argb: u32, x: nat, y: nat)
    requires ValidDims(w, h) && s == Run(Screen(NewCanvas(w, h), fb), ops) && |s.fb| == 4 * s.canvas.Size()
    requires x < s.canvas.width && y < s.canvas.height
    ensures ShowsWord(Step(Step(s, DoFill(argb)), DoPoll).fb, s.canvas.width, x, y, argb)
  {
    var p := PainterRun(FreshPainter(w, h), ops);
    RunsTrack(w, h, fb, ops);
    StepTracks(s, p, DoFill(argb));
    FillIsPolled(Step(s, DoFill(argb)), PainterStep(p, DoFill(argb)), x, y);
  }

  /** A change of size makes everything dirty, so the new buffer is taken. */
  lemma ResizeThenRebind(s: Screen, p: Painter, w: u32, h: u32, buffer: seq<u8>)
    requires Tracks(s, p) && ValidDims(w, h) && (w != s.canvas.width || h != s.canvas.height)
    ensures var s' := Step(Step(s, DoResize(w, h)), DoRebind(buffer));
      s'.canvas.width == w && s'.canvas.height == h && s'.canvas.Size() == w * h && s'.fb == buffer
    ensures var p' := PainterStep(PainterStep(p, DoResize(w, h)), DoRebind(buffer));
      p'.base == 0xFF00_0000 && p'.accepted == [] && p'.shown == 0
  {
  }

  /** After a change of size, polled into a buffer of the new size, every pixel is opaque black. */
  lemma ResizedCanvasIsBlack(w: u32, h: u32, fb: seq<u8>, ops: seq<Op>, s: Screen, w': u32, h': u32,
      buffer: seq<u8>, x: nat, y: nat)
    requires ValidDims(w, h) && s == Run(Screen(NewCanvas(w, h), fb), ops) && ValidDims(w', h')
    requires (w' != s.canvas.width || h' != s.canvas.height) && |buffer| == 4 * (w' * h') && x < w' && y < h'
    ensures PixelIs(Step(Step(Step(s, DoResize(w', h')), DoRebind(buffer)), DoPoll).fb, w', x, y, 0, 0, 0, 255)
  {
    var p := PainterRun(FreshPainter(w, h), ops);
    RunsTrack(w, h, fb, ops);
    BlackAtOnce(s, p, w', h', buffer, x, y);
  }

  lemma BlackIsPolled(s: Screen, p: Painter, x: nat, y: nat)
    requires Tracks(s, p) && x < s.canvas.width && y < s.canvas.height && |s.fb| == 4 * s.canvas.Size()
    requires p.base == 0xFF00_0000 && p.shown == 0
    ensures PixelIs(Step(s, DoPoll).fb, s.canvas.width, x, y, 0, 0, 0, 255)
  {
    FillIsPolled(s, p, x, y);
    BlackWord(Step(s, DoPoll).fb, s.canvas.width, x, y, p.base);
  }

  lemma BlackWord(fb: seq<u8>, width: nat, x: nat, y: nat, argb: u32)
    requires ShowsWord(fb, width, x, y, argb) && argb == 0xFF00_0000
    ensures PixelIs(fb, width, x, y, 0, 0, 0, 255)
  {
  }

  lemma BlackAtOnce(s: Screen, p: Painter, w: u32, h: u32, buffer: seq<u8>, x: nat, y: nat)
    requires Tracks(s, p) && ValidDims(w, h) && (w != s.canvas.width || h != s.canvas.height)
    requires |buffer| == 4 * (w * h) && x < w && y < h
    ensures PixelIs(Step(Step(Step(s, DoResize(w, h)), DoRebind(buffer)), DoPoll).fb, w, x, y, 0, 0, 0, 255)
  {
    var s1, p1 := Step(s, DoResize(w, h)), PainterStep(p, DoResize(w, h));
    StepTracks(s, p, DoResize(w, h));
    StepTracks(s1, p1, DoRebind(buffer));
    ResizeThenRebind(s, p, w, h, buffer);
    BlackIsPolled(Step(s1, DoRebind(buffer)), PainterStep(p1, DoRebind(buffer)), x, y);
  }
}
