/** What the statistics of the canvas count (`launch/awt.rs`), over whole runs. */
module CanvasCounts {
  import opened Words
  import opened Wrappers
  import opened AwtFrames
  import opened CanvasSpec

  /** What happened in a run that the statistics speak of. */
  datatype Told = Told(painted: seq<AwtFrame>, presents: seq<nat>, merged: nat, resizes: nat)

  /** One more operation on this screen: a frame painted, a present that showed something, a new size. */
  function Tell(t: Told, s: Screen, op: Op): Told {
    match op
    case DoSubmit(frame) =>
      if SubmitError(s.canvas.width, s.canvas.height, frame) == None then t.(painted := t.painted + [frame]) else t
    case DoPresent(nowMs) =>
      if s.canvas.pending.rect.width == 0 || s.canvas.pending.rect.height == 0 then t
      else
        t.(presents := t.presents + [nowMs],
           merged := if s.canvas.dirty.rect.width == 0 || s.canvas.dirty.rect.height == 0 then t.merged else t.merged + 1)
    case DoResize(w, h) =>
      if ValidDims(w, h) && (w != s.canvas.width || h != s.canvas.height) then t.(resizes := t.resizes + 1) else t
    case _ => t
  }

  function ToldBy(s: Screen, ops: seq<Op>): Told
    requires s.canvas.Valid()
  {
    if ops == [] then Told([], [], 0, 0)
    else Tell(ToldBy(s, ops[..|ops| - 1]), Run(s, ops[..|ops| - 1]), ops[|ops| - 1])
  }

  function PixelsOf(frames: seq<AwtFrame>): nat {
    if frames == [] then 0
    else PixelsOf(frames[..|frames| - 1]) + frames[|frames| - 1].damage.width * frames[|frames| - 1].damage.height
  }

  /** The statistics are the counts. */
  predicate Counts(stats: Stats, t: Told) {
    && stats.submitted == |t.painted| && stats.bytesBlitted == 4 * PixelsOf(t.painted)
    && stats.lastSeq == (if t.painted == [] then 0 else t.painted[|t.painted| - 1].seqNo)
    && stats.presented == |t.presents| && stats.dropped == t.merged && stats.resizes == t.resizes
    && stats.lastPresentMs == (if t.presents == [] then 0 else t.presents[|t.presents| - 1])
  }

  lemma SubmitCounts(s: Screen, t: Told, frame: AwtFrame)
    requires s.canvas.Valid() && Counts(s.canvas.stats, t)
    ensures Counts(Step(s, DoSubmit(frame)).canvas.stats, Tell(t, s, DoSubmit(frame)))
  {
    assert (t.painted + [frame])[..|t.painted|] == t.painted;
  }

  lemma PresentCounts(s: Screen, t: Told, nowMs: nat)
    requires s.canvas.Valid() && Counts(s.canvas.stats, t)
    ensures Counts(Step(s, DoPresent(nowMs)).canvas.stats, Tell(t, s, DoPresent(nowMs)))
  {
  }

  lemma StepCounts(s: Screen, t: Told, op: Op)
    requires s.canvas.Valid() && Counts(s.canvas.stats, t)
    ensures Counts(Step(s, op).canvas.stats, Tell(t, s, op))
  {
    match op
    case DoSubmit(frame) => SubmitCounts(s, t, frame);
    case DoPresent(nowMs) => PresentCounts(s, t, nowMs);
    case DoFill(_) =>
    case DoResize(_, _) =>
    case DoPoll =>
    case DoRebind(_) =>
  }

  /**
    After any run: frames painted and their bytes, presents that showed something and those of them that
    came before the last one was fetched, changes of size, the last sequence number and the last time.
    */
  lemma {:induction false} StatisticsCount(w: u32, h: u32, fb: seq<u8>, ops: seq<Op>)
    requires ValidDims(w, h)
    ensures Counts(Run(Screen(NewCanvas(w, h), fb), ops).canvas.stats, ToldBy(Screen(NewCanvas(w, h), fb), ops))
  {
    var start := Screen(NewCanvas(w, h), fb);
    if ops != [] {
      var front := ops[..|ops| - 1];
      StatisticsCount(w, h, fb, front);
      StepCounts(Run(start, front), ToldBy(start, front), ops[|ops| - 1]);
    }
  }
}
