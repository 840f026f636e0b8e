/**
  The AWT canvas on values: what each operation does to the two buffers and their damage, and what
  a whole run of them means to the consumer that mirrors the front buffer.
  */
module CanvasSpec {
  import opened Words
  import opened Wrappers
  import opened Geometry
  import opened AwtFrames

  const OPAQUE_BLACK: u32 := 0xFF00_0000

  datatype Stats = Stats(
    submitted: nat, presented: nat, dropped: nat, bytesBlitted: nat, resizes: nat, lastSeq: u32, lastPresentMs: nat)

  datatype Canvas = Canvas(
    width: u32, height: u32, back: seq<u32>, front: seq<u32>, pending: Damage, dirty: Damage, stats: Stats)
  {
    function Size(): nat { width * height }

    predicate Valid() {
      && ValidDims(width, height)
      && |back| == Size() && |front| == Size()
      && pending.rect.FitsIn(width, height)
      && dirty.rect.FitsIn(width, height)
    }
  }

  function Uniform(n: nat, color: u32): seq<u32> { seq(n, _ => color) }

  /** `buf` with the pixels inside `r` taken from `src`; both have rows of `w` pixels. */
  function Patch(buf: seq<u32>, src: seq<u32>, w: nat, r: Rect): (res: seq<u32>)
    requires 0 < w && |src| == |buf|
    ensures |res| == |buf|
  {
    seq(|buf|, i requires 0 <= i < |buf| => if Covers(r, w, i) then src[i] else buf[i])
  }

  /** `Patch`, done only for the first `rows` rows of `r`. */
  function PatchRows(buf: seq<u32>, src: seq<u32>, w: nat, r: Rect, rows: nat): (res: seq<u32>)
    requires 0 < w && |src| == |buf|
    ensures |res| == |buf|
  {
    seq(|buf|, i requires 0 <= i < |buf| => if CoversRows(r, w, i, rows) then src[i] else buf[i])
  }

  /** The frame alone on a `w`-wide surface of `n` pixels (0 where it paints nothing). */
  function Painting(frame: AwtFrame, w: nat, n: nat): (res: seq<u32>)
    requires 0 < w && |frame.pixels| == frame.damage.Area()
    ensures |res| == n
  {
    seq(n, i requires 0 <= i < n =>
      if Covers(frame.damage, w, i) then frame.ColorAt(i % w, i / w) else 0)
  }

  /** `bytes` over `dst`, but only inside `r`; any bytes of `dst` past the image stay. */
  function PatchBytes(dst: seq<u8>, bytes: seq<u8>, w: nat, r: Rect): (res: seq<u8>)
    requires 0 < w && |bytes| <= |dst|
    ensures |res| == |dst|
  {
    seq(|dst|, j requires 0 <= j < |dst| => if j < |bytes| && Covers(r, w, j / 4) then bytes[j] else dst[j])
  }

  // ---- Operations ----

  function NewCanvas(w: u32, h: u32): (c: Canvas)
    requires ValidDims(w, h)
    ensures c.Valid()
  {
    var px := Uniform(w * h, OPAQUE_BLACK);
    Canvas(w, h, px, px, NO_DAMAGE, FullDamage(w, h), Stats(0, 0, 0, 0, 0, 0, 0))
  }

  function Resize(c: Canvas, w: u32, h: u32): Result<Canvas, FrameError> {
    var dims := ValidateDims(w, h);
    if dims.Some? then Failure(dims.value)
    else if w == c.width && h == c.height then Success(c)
    else Success(NewCanvas(w, h).(stats := c.stats.(resizes := c.stats.resizes + 1)))
  }

  /** Why a frame is refused; `None` when it is painted. The frame may be hand-built. */
  function SubmitError(w: u32, h: u32, frame: AwtFrame): Option<FrameError> {
    if frame.width != w || frame.height != h then Some(ForeignSize)
    else if |frame.pixels| != frame.damage.Area() then Some(PayloadMismatch)
    else if frame.damage.IsEmpty() || !frame.damage.FitsIn(w, h) then Some(DamageOutside)
    else None
  }

  function Submit(c: Canvas, frame: AwtFrame): Result<Canvas, FrameError>
    requires c.Valid()
  {
    var err := SubmitError(c.width, c.height, frame);
    if err.Some? then Failure(err.value)
    else Success(c.(
      back := Patch(c.back, Painting(frame, c.width, c.Size()), c.width, frame.damage),
      pending := c.pending.Add(frame.damage),
      stats := c.stats.(submitted := c.stats.submitted + 1,
                        bytesBlitted := c.stats.bytesBlitted + frame.damage.Area() * 4,
                        lastSeq := frame.seqNo)))
  }

  function Present(c: Canvas, nowMs: nat): Canvas
    requires c.Valid()
  {
    if c.pending.IsEmpty() then c.(pending := NO_DAMAGE)
    else c.(
      front := Patch(c.front, c.back, c.width, c.pending.rect),
      pending := NO_DAMAGE,
      dirty := c.dirty.Add(c.pending.rect),
      stats := c.stats.(presented := c.stats.presented + 1,
                        dropped := c.stats.dropped + if c.dirty.IsEmpty() then 0 else 1,
                        lastPresentMs := nowMs))
  }

  function Fill(c: Canvas, argb: u32): Canvas {
    var px := Uniform(|c.back|, argb);
    c.(back := px, front := px, pending := NO_DAMAGE, dirty := FullDamage(c.width, c.height))
  }

  function TakeDirty(c: Canvas): Canvas { c.(dirty := NO_DAMAGE) }

  /** The new contents of a whole-desktop framebuffer after one region was converted into it. */
  function CopyRegionIntoFramebuffer(c: Canvas, r: Rect, dst: seq<u8>): Result<seq<u8>, FrameError>
    requires c.Valid()
  {
    var clipped := r.ClampTo(c.width, c.height);
    if clipped.IsEmpty() then Success(dst)
    else if |dst| < 4 * c.Size() then Failure(DestinationTooSmall)
    else Success(PatchBytes(dst, Rgba(c.front), c.width, clipped))
  }

  // ---- Every operation keeps the canvas well formed ----

  lemma OperationsKeepValid(c: Canvas, frame: AwtFrame, w: u32, h: u32, argb: u32, nowMs: nat)
    requires c.Valid()
    ensures Resize(c, w, h).Success? ==> Resize(c, w, h).value.Valid()
    ensures Submit(c, frame).Success? ==> Submit(c, frame).value.Valid()
    ensures Present(c, nowMs).Valid() && Fill(c, argb).Valid() && TakeDirty(c).Valid()
  {
    UnionFits(c.dirty.rect, c.pending.rect, c.width, c.height);
    if SubmitError(c.width, c.height, frame).None? {
      UnionFits(c.pending.rect, frame.damage, c.width, c.height);
    }
  }

  // ---- Runs: a producer, the canvas, and a consumer that mirrors the front buffer ----

  /** The consumer's persistent framebuffer beside the canvas. */
  datatype Screen = Screen(canvas: Canvas, fb: seq<u8>)

  datatype Op =
    | DoSubmit(frame: AwtFrame)
    | DoPresent(nowMs: nat)
    | DoFill(argb: u32)
    | DoResize(w: u32, h: u32)
    | DoPoll
    | DoRebind(buffer: seq<u8>)

  /**
    `poll_frame_into`: convert the dirty region and, only when that worked, mark the canvas clean.
    `None` means the copy failed.
    */
  function Poll(s: Screen): Option<Screen>
    requires s.canvas.Valid()
  {
    if s.canvas.dirty.IsEmpty() then Some(s)
    else
      match CopyRegionIntoFramebuffer(s.canvas, s.canvas.dirty.rect, s.fb)
      case Failure(_) => None
      case Success(fb) => Some(Screen(TakeDirty(s.canvas), fb))
  }

  /**
    One step. A rejected operation and a failed poll leave everything as it was. The consumer may
    put another buffer in place while the whole desktop is dirty, as it does after a resize.
    */
  function Step(s: Screen, op: Op): (s': Screen)
    requires s.canvas.Valid()
    ensures s'.canvas.Valid()
  {
    match op
    case DoSubmit(frame) =>
      OperationsKeepValid(s.canvas, frame, 1, 1, 0, 0);
      var r := Submit(s.canvas, frame);
      if r.Success? then s.(canvas := r.value) else s
    case DoPresent(nowMs) =>
      OperationsKeepValid(s.canvas, AwtFrame(0, 0, 0, IntArgb, EMPTY, []), 1, 1, 0, nowMs);
      s.(canvas := Present(s.canvas, nowMs))
    case DoFill(argb) => s.(canvas := Fill(s.canvas, argb))
    case DoResize(w, h) =>
      var r := Resize(s.canvas, w, h);
      if r.Success? then s.(canvas := r.value) else s
    case DoPoll =>
      var r := Poll(s);
      if r.Some? then r.value else s
    case DoRebind(buffer) =>
      if s.canvas.dirty.rect == Whole(s.canvas.width, s.canvas.height) then s.(fb := buffer) else s
  }

  function Run(s: Screen, ops: seq<Op>): (s': Screen)
    requires s.canvas.Valid()
    ensures s'.canvas.Valid()
  {
    if ops == [] then s else Step(Run(s, ops[..|ops| - 1]), ops[|ops| - 1])
  }

  // ---- The reference: a list of accepted frames, painted in order ----

  /**
    What a painter remembers: the uniform colour since the last reset, every frame accepted since
    then, and how many of them have been presented.
    */
  datatype Painter = Painter(width: u32, height: u32, base: u32, accepted: seq<AwtFrame>, shown: nat) {
    predicate Valid() {
      && ValidDims(width, height)
      && shown <= |accepted|
      && forall k | 0 <= k < |accepted| :: SubmitError(width, height, accepted[k]).None?
    }
  }

  function PainterStep(p: Painter, op: Op): Painter {
    match op
    case DoSubmit(frame) =>
      if SubmitError(p.width, p.height, frame).None? then p.(accepted := p.accepted + [frame]) else p
    case DoPresent(_) => p.(shown := |p.accepted|)
    case DoFill(argb) => p.(base := argb, accepted := [], shown := 0)
    case DoResize(w, h) =>
      if ValidDims(w, h) && (w != p.width || h != p.height) then Painter(w, h, OPAQUE_BLACK, [], 0) else p
    case DoPoll => p
    case DoRebind(_) => p
  }

  function PainterRun(p: Painter, ops: seq<Op>): Painter {
    if ops == [] then p else PainterStep(PainterRun(p, ops[..|ops| - 1]), ops[|ops| - 1])
  }

  predicate AllSized(frames: seq<AwtFrame>) {
    forall k | 0 <= k < |frames| :: |frames[k].pixels| == frames[k].damage.Area()
  }

  /** The colour of pixel `(x, y)`: that of the last frame whose damage holds it, else the base. */
  function PaintedAt(base: u32, frames: seq<AwtFrame>, x: int, y: int): u32
    requires AllSized(frames)
  {
    if frames == [] then base
    else
      var last := frames[|frames| - 1];
      if last.damage.Contains(x, y) then last.ColorAt(x, y)
      else PaintedAt(base, frames[..|frames| - 1], x, y)
  }

  // ---- Coalescing loses nothing ----

  /** The canvas shows what the painter painted; the buffers differ only inside `pending`. */
  ghost predicate Shows(c: Canvas, p: Painter)
    requires c.Valid() && p.Valid()
  {
    && c.width == p.width && c.height == p.height
    && (forall i | 0 <= i < c.Size() :: c.back[i] == PaintedAt(p.base, p.accepted, i % c.width, i / c.width))
    && (forall i | 0 <= i < c.Size() :: c.front[i] == PaintedAt(p.base, p.accepted[..p.shown], i % c.width, i / c.width))
    && (forall i | 0 <= i < c.Size() && !Covers(c.pending.rect, c.width, i) :: c.front[i] == c.back[i])
    && (c.pending.IsEmpty() <==> p.shown == |p.accepted|)
  }

  lemma PaintedOver(base: u32, frames: seq<AwtFrame>, frame: AwtFrame, x: int, y: int)
    requires AllSized(frames) && |frame.pixels| == frame.damage.Area() && AllSized(frames + [frame])
    ensures PaintedAt(base, frames + [frame], x, y) ==
      if frame.damage.Contains(x, y) then frame.ColorAt(x, y) else PaintedAt(base, frames, x, y)
  {
    assert (frames + [frame])[..|frames|] == frames;
  }

  /** One pixel of a submit: the frame where it paints, else what was there. */
  lemma SubmittedPixel(c: Canvas, frame: AwtFrame, i: nat)
    requires c.Valid() && SubmitError(c.width, c.height, frame).None? && i < c.Size()
    ensures var c' := Submit(c, frame).value;
      && c'.width == c.width && |c'.back| == c.Size() && c'.front == c.front
      && c'.back[i] == (if Covers(frame.damage, c.width, i) then frame.ColorAt(i % c.width, i / c.width) else c.back[i])
      && (Covers(c.pending.rect, c.width, i) || Covers(frame.damage, c.width, i) ==> Covers(c'.pending.rect, c.width, i))
  {
    UnionCovers(c.pending.rect, frame.damage, i % c.width, i / c.width);
    if Covers(frame.damage, c.width, i) {
      assert Submit(c, frame).value.back[i] == Painting(frame, c.width, c.Size())[i];
    }
  }

  lemma AcceptKeeps(p: Painter, frame: AwtFrame)
    requires p.Valid() && SubmitError(p.width, p.height, frame).None?
    ensures var p' := PainterStep(p, DoSubmit(frame));
      p'.Valid() && p'.accepted == p.accepted + [frame] && p'.accepted[..p'.shown] == p.accepted[..p.shown]
  {
  }

  lemma SubmitShows(c: Canvas, p: Painter, frame: AwtFrame)
    requires c.Valid() && p.Valid() && Shows(c, p) && SubmitError(c.width, c.height, frame).None?
    ensures Submit(c, frame).value.Valid() && PainterStep(p, DoSubmit(frame)).Valid()
    ensures Shows(Submit(c, frame).value, PainterStep(p, DoSubmit(frame)))
  {
    OperationsKeepValid(c, frame, 1, 1, 0, 0);
    AcceptKeeps(p, frame);
    var c', p' := Submit(c, frame).value, PainterStep(p, DoSubmit(frame));
    var w := c.width;
    forall i | 0 <= i < c.Size()
      ensures c'.back[i] == PaintedAt(p'.base, p'.accepted, i % w, i / w)
      ensures !Covers(c'.pending.rect, w, i) ==> c'.front[i] == c'.back[i]
    {
      SubmittedPixel(c, frame, i);
      PaintedOver(p.base, p.accepted, frame, i % w, i / w);
    }
  }

  lemma PresentShows(c: Canvas, p: Painter, nowMs: nat)
    requires c.Valid() && p.Valid() && Shows(c, p)
    ensures Present(c, nowMs).Valid()
    ensures Shows(Present(c, nowMs), PainterStep(p, DoPresent(nowMs)))
  {
    OperationsKeepValid(c, AwtFrame(0, 0, 0, IntArgb, EMPTY, []), 1, 1, 0, nowMs);
    assert p.accepted[..|p.accepted|] == p.accepted;
  }

  /** One step of the canvas is one step of the painter. */
  lemma StepShows(s: Screen, p: Painter, op: Op)
    requires s.canvas.Valid() && p.Valid() && Shows(s.canvas, p)
    ensures PainterStep(p, op).Valid()
    ensures Shows(Step(s, op).canvas, PainterStep(p, op))
  {
    match op
    case DoSubmit(frame) =>
      if SubmitError(p.width, p.height, frame).None? {
        SubmitShows(s.canvas, p, frame);
      }
    case DoPresent(nowMs) => PresentShows(s.canvas, p, nowMs);
    case DoFill(_) =>
    case DoResize(_, _) =>
    case DoPoll =>
    case DoRebind(_) =>
  }

  function FreshPainter(w: u32, h: u32): Painter { Painter(w, h, OPAQUE_BLACK, [], 0) }

  /**
    Coalescing loses nothing. After any run from a fresh canvas, however the submits were merged
    into presents, the back buffer is the painting in order of every frame accepted since the last
    reset, and the front buffer is that painting as of the last present.
    */
  lemma {:induction false} CoalescingLosesNothing(w: u32, h: u32, fb: seq<u8>, ops: seq<Op>)
    requires ValidDims(w, h)
    ensures PainterRun(FreshPainter(w, h), ops).Valid()
    ensures Shows(Run(Screen(NewCanvas(w, h), fb), ops).canvas, PainterRun(FreshPainter(w, h), ops))
  {
    if ops != [] {
      var butLast := ops[..|ops| - 1];
      CoalescingLosesNothing(w, h, fb, butLast);
      StepShows(Run(Screen(NewCanvas(w, h), fb), butLast), PainterRun(FreshPainter(w, h), butLast), ops[|ops| - 1]);
    }
  }

  /** Right after a present the front buffer is the whole composition. */
  lemma FrontAfterPresent(w: u32, h: u32, fb: seq<u8>, ops: seq<Op>, nowMs: nat)
    requires ValidDims(w, h)
    ensures Run(Screen(NewCanvas(w, h), fb), ops + [DoPresent(nowMs)]).canvas.front
         == Run(Screen(NewCanvas(w, h), fb), ops).canvas.back
  {
    CoalescingLosesNothing(w, h, fb, ops);
    CoalescingLosesNothing(w, h, fb, ops + [DoPresent(nowMs)]);
    assert (ops + [DoPresent(nowMs)])[..|ops|] == ops;
    var before := Run(Screen(NewCanvas(w, h), fb), ops).canvas;
    var c := Run(Screen(NewCanvas(w, h), fb), ops + [DoPresent(nowMs)]).canvas;
    assert c.back == before.back;
    forall i | 0 <= i < c.Size() ensures c.front[i] == c.back[i] {
      assert !Covers(c.pending.rect, c.width, i);
    }
  }

  /** Counters: nothing is presented that was not submitted, and drops are presents. */
  ghost predicate Counted(c: Canvas) {
    && c.stats.presented + (if c.pending.IsEmpty() then 0 else 1) <= c.stats.submitted
    && c.stats.dropped <= c.stats.presented
  }

  lemma {:induction false} PresentedAtMostSubmitted(w: u32, h: u32, fb: seq<u8>, ops: seq<Op>)
    requires ValidDims(w, h)
    ensures Counted(Run(Screen(NewCanvas(w, h), fb), ops).canvas)
  {
    if ops != [] {
      PresentedAtMostSubmitted(w, h, fb, ops[..|ops| - 1]);
    }
  }

  // ---- The mirrored framebuffer ----

  /** Outside the dirty rectangle the framebuffer already holds the full conversion. */
  ghost predicate Mirrors(s: Screen)
    requires s.canvas.Valid()
  {
    forall j | 0 <= j < 4 * s.canvas.Size() && !Covers(s.canvas.dirty.rect, s.canvas.width, j / 4) ::
      j < |s.fb| && s.fb[j] == Rgba(s.canvas.front)[j]
  }

  lemma WholeCovers(w: u32, h: u32, i: nat)
    requires 0 < w && i < w * h
    ensures Covers(Whole(w, h), w, i)
  {
    RowOfIndex(w, h, i);
  }

  /** While everything is dirty, any buffer at all mirrors the canvas. */
  lemma WholeDirtyMirrors(s: Screen)
    requires s.canvas.Valid() && s.canvas.dirty.rect == Whole(s.canvas.width, s.canvas.height)
    ensures Mirrors(s)
  {
    var c := s.canvas;
    forall j | 0 <= j < 4 * c.Size() ensures Covers(c.dirty.rect, c.width, j / 4) {
      WholeCovers(c.width, c.height, j / 4);
    }
  }

  lemma PresentMirrors(s: Screen, nowMs: nat)
    requires s.canvas.Valid() && Mirrors(s)
    ensures Present(s.canvas, nowMs).Valid() && Mirrors(s.(canvas := Present(s.canvas, nowMs)))
  {
    OperationsKeepValid(s.canvas, AwtFrame(0, 0, 0, IntArgb, EMPTY, []), 1, 1, 0, nowMs);
    var c, c' := s.canvas, Present(s.canvas, nowMs);
    forall j | 0 <= j < 4 * c.Size() && !Covers(c'.dirty.rect, c.width, j / 4)
      ensures j < |s.fb| && s.fb[j] == Rgba(c'.front)[j]
    {
      UnionCovers(c.dirty.rect, c.pending.rect, (j / 4) % c.width, (j / 4) / c.width);
      assert !Covers(c.dirty.rect, c.width, j / 4);
      assert c'.front[j / 4] == c.front[j / 4];
      assert Rgba(c'.front)[j] == Rgba(c.front)[j];
    }
  }

  /** On a clean canvas every byte is already mirrored. */
  lemma MirroredByte(s: Screen, j: nat)
    requires s.canvas.Valid() && Mirrors(s) && s.canvas.dirty.IsEmpty() && j < 4 * s.canvas.Size()
    ensures j < |s.fb| && s.fb[j] == Rgba(s.canvas.front)[j]
  {
    assert !Covers(s.canvas.dirty.rect, s.canvas.width, j / 4);
  }

  /** A successful poll completes the mirror: the first `4 * w * h` bytes are the full conversion. */
  lemma PollCompletes(s: Screen)
    requires s.canvas.Valid() && Mirrors(s) && Poll(s).Some?
    ensures 4 * s.canvas.Size() <= |Poll(s).value.fb|
    ensures Poll(s).value.fb[..4 * s.canvas.Size()] == Rgba(s.canvas.front)
    ensures Mirrors(Poll(s).value)
  {
    var c, s' := s.canvas, Poll(s).value;
    var full := Rgba(c.front);
    if c.dirty.IsEmpty() {
      forall j | 0 <= j < |full| ensures j < |s.fb| && s.fb[j] == full[j] {
        MirroredByte(s, j);
      }
      if |full| > 0 { MirroredByte(s, |full| - 1); }
    } else {
      ClampOfFitting(c.dirty.rect, c.width, c.height);
      forall j | 0 <= j < |full| ensures s'.fb[j] == full[j] {
        if Covers(c.dirty.rect, c.width, j / 4) {
        }
      }
    }
  }

  /** A failed poll changes neither the canvas nor the buffer, and happens only on a short buffer. */
  lemma PollFails(s: Screen)
    requires s.canvas.Valid()
    ensures Poll(s).None? <==> !s.canvas.dirty.IsEmpty() && |s.fb| < 4 * s.canvas.Size()
    ensures Poll(s).None? ==> Step(s, DoPoll) == s
  {
    if !s.canvas.dirty.IsEmpty() {
      ClampOfFitting(s.canvas.dirty.rect, s.canvas.width, s.canvas.height);
    }
  }

  lemma StepMirrors(s: Screen, op: Op)
    requires s.canvas.Valid() && Mirrors(s)
    ensures Mirrors(Step(s, op))
  {
    match op
    case DoSubmit(frame) =>
      assert Step(s, op).canvas.front == s.canvas.front;
    case DoPresent(nowMs) => PresentMirrors(s, nowMs);
    case DoFill(_) => WholeDirtyMirrors(Step(s, op));
    case DoResize(w, h) =>
      if Step(s, op) != s { WholeDirtyMirrors(Step(s, op)); }
    case DoPoll =>
      if Poll(s).Some? { PollCompletes(s); }
    case DoRebind(_) =>
      if Step(s, op) != s { WholeDirtyMirrors(Step(s, op)); }
  }

  /**
    Incremental upload refines full conversion: over every run of submits, presents, fills,
    resizes, polls and buffer changes, each byte outside `dirty` is already the converted front.
    */
  lemma {:induction false} RunMirrors(w: u32, h: u32, fb: seq<u8>, ops: seq<Op>)
    requires ValidDims(w, h)
    ensures Mirrors(Run(Screen(NewCanvas(w, h), fb), ops))
  {
    if ops == [] {
      WholeDirtyMirrors(Screen(NewCanvas(w, h), fb));
    } else {
      RunMirrors(w, h, fb, ops[..|ops| - 1]);
      StepMirrors(Run(Screen(NewCanvas(w, h), fb), ops[..|ops| - 1]), ops[|ops| - 1]);
    }
  }

  /** A poll into a buffer of the right length succeeds and leaves exactly the full conversion. */
  lemma PollIsFullConversion(s: Screen)
    requires s.canvas.Valid() && Mirrors(s) && |s.fb| == 4 * s.canvas.Size()
    ensures Step(s, DoPoll).fb == Rgba(s.canvas.front)
    ensures Step(s, DoPoll).canvas.dirty.IsEmpty() && Step(s, DoPoll).canvas.front == s.canvas.front
  {
    PollFails(s);
    PollCompletes(s);
    var fb' := Poll(s).value.fb;
    assert fb'[..4 * s.canvas.Size()] == fb';
  }

  /** The same over any run from a fresh canvas: incremental upload equals `copy_rgba_into`. */
  lemma PolledFrameIsFullConversion(w: u32, h: u32, fb: seq<u8>, ops: seq<Op>, s: Screen)
    requires ValidDims(w, h)
    requires s == Run(Screen(NewCanvas(w, h), fb), ops) && |s.fb| == 4 * s.canvas.Size()
    ensures Step(s, DoPoll).fb == Rgba(s.canvas.front)
    ensures Step(s, DoPoll).canvas.dirty.IsEmpty()
  {
    RunMirrors(w, h, fb, ops);
    PollIsFullConversion(s);
  }

  /** Byte `k` of pixel `(x, y)` in the image `fb` is the colour the painter has shown there. */
  ghost predicate ByteIsPainted(fb: seq<u8>, width: nat, p: Painter, x: nat, y: nat, k: nat)
    requires p.Valid() && k < 4
  {
    var at := 4 * (y * width + x) + k;
    at < |fb| && fb[at] == Channel(PaintedAt(p.base, p.accepted[..p.shown], x, y), k)
  }

  /** Pixel `i` of what a canvas shows, where `i` is the place of `(x, y)`. */
  lemma ShownPixel(c: Canvas, p: Painter, x: nat, y: nat, i: nat)
    requires c.Valid() && p.Valid() && Shows(c, p) && i < |c.front| && i % c.width == x && i / c.width == y
    ensures c.front[i] == PaintedAt(p.base, p.accepted[..p.shown], x, y)
  {
  }

  /** What a canvas that shows a painter's work converts to, byte by byte. */
  lemma ShownByte(c: Canvas, p: Painter, x: nat, y: nat, k: nat)
    requires c.Valid() && p.Valid() && Shows(c, p) && x < c.width && y < c.height && k < 4
    ensures ByteIsPainted(Rgba(c.front), c.width, p, x, y, k)
  {
    var i := PlaceOf(c.width, c.height, x, y);
    ShownPixel(c, p, x, y, i);
    RgbaByte(c.front, i, k);
  }

  /**
    End to end: after any run and a poll into a buffer of the right length, byte `k` of pixel
    `(x, y)` is the channel of the colour the painter had shown there.
    */
  lemma PolledFrameIsThePainting(w: u32, h: u32, fb: seq<u8>, ops: seq<Op>, s: Screen, p: Painter, x: nat, y: nat, k: nat)
    requires ValidDims(w, h)
    requires s == Run(Screen(NewCanvas(w, h), fb), ops) && p == PainterRun(FreshPainter(w, h), ops)
    requires x < s.canvas.width && y < s.canvas.height && k < 4 && |s.fb| == 4 * s.canvas.Size()
    ensures p.Valid() && ByteIsPainted(Step(s, DoPoll).fb, s.canvas.width, p, x, y, k)
  {
    PolledFrameIsFullConversion(w, h, fb, ops, s);
    CoalescingLosesNothing(w, h, fb, ops);
    ShownByte(s.canvas, p, x, y, k);
  }
}
