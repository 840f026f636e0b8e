/** How little a poll touches (`launch/awt.rs`): the damage stays where something was painted. */
module CanvasDamage {
  import opened Words
  import opened Geometry
  import opened AwtFrames
  import opened CanvasSpec

  ghost predicate StaysInside(d: Damage, outer: Rect) {
    d.rect.width == 0 || d.rect.height == 0 || d.rect.Within(outer)
  }

  /** The two regions of the canvas lie in `outer`. */
  ghost predicate DamageInside(c: Canvas, outer: Rect) {
    StaysInside(c.pending, outer) && StaysInside(c.dirty, outer)
  }

  /** Operations that change nothing outside `outer`: frames painted there, presents and polls. */
  ghost predicate PaintsInside(op: Op, outer: Rect) {
    match op
    case DoSubmit(frame) => frame.damage.Within(outer)
    case DoPresent(_) => true
    case DoPoll => true
    case _ => false
  }

  lemma AddInside(d: Damage, r: Rect, outer: Rect)
    requires StaysInside(d, outer) && (r.IsEmpty() || r.Within(outer))
    ensures StaysInside(d.Add(r), outer)
  {
    if !d.IsEmpty() && !r.IsEmpty() { UnionIsLeast(d.rect, r, outer); }
  }

  lemma StepStaysInside(s: Screen, op: Op, outer: Rect)
    requires s.canvas.Valid() && DamageInside(s.canvas, outer) && PaintsInside(op, outer)
    ensures DamageInside(Step(s, op).canvas, outer)
  {
    match op
    case DoSubmit(frame) => AddInside(s.canvas.pending, frame.damage, outer);
    case DoPresent(_) => AddInside(s.canvas.dirty, s.canvas.pending.rect, outer);
    case DoPoll =>
  }

  /**
    From a clean canvas, however many frames are painted, presented and polled: both regions stay in
    every rectangle that holds the damage of those frames, so no larger region is ever converted.
    */
  lemma {:induction false} DamageStaysInside(s: Screen, ops: seq<Op>, outer: Rect)
    requires s.canvas.Valid() && DamageInside(s.canvas, outer)
    requires forall k | 0 <= k < |ops| :: PaintsInside(ops[k], outer)
    ensures DamageInside(Run(s, ops).canvas, outer)
  {
    if ops != [] {
      var front := ops[..|ops| - 1];
      forall k | 0 <= k < |front| ensures PaintsInside(front[k], outer) { assert front[k] == ops[k]; }
      DamageStaysInside(s, front, outer);
      StepStaysInside(Run(s, front), ops[|ops| - 1], outer);
    }
  }

  /** A poll writes nothing outside the dirty region, and afterwards nothing is dirty. */
  lemma PollTouchesOnlyDirty(s: Screen, j: nat)
    requires s.canvas.Valid() && j < |s.fb| && !Covers(s.canvas.dirty.rect, s.canvas.width, j / 4)
    ensures |Step(s, DoPoll).fb| == |s.fb| && Step(s, DoPoll).fb[j] == s.fb[j]
    ensures Poll(s).Some? ==> Step(s, DoPoll).canvas.dirty.IsEmpty()
  {
    if !s.canvas.dirty.IsEmpty() { ClampOfFitting(s.canvas.dirty.rect, s.canvas.width, s.canvas.height); }
  }

  /** An operation that is refused changes nothing at all. */
  lemma RefusedChangesNothing(s: Screen, frame: AwtFrame, w: u32, h: u32)
    requires s.canvas.Valid()
    ensures SubmitError(s.canvas.width, s.canvas.height, frame).Some? ==> Step(s, DoSubmit(frame)) == s
    ensures !ValidDims(w, h) ==> Step(s, DoResize(w, h)) == s
    ensures w == s.canvas.width && h == s.canvas.height ==> Step(s, DoResize(w, h)) == s
  {
  }
}
