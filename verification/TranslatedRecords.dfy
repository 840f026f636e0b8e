/**
  What each input is reported as (`launch/awt.rs`): the fields of the records, in the numbers AWT uses,
  after whatever happened before.
  */
module TranslatedRecords {
  import opened Words
  import opened Wrappers
  import opened EventCodec
  import opened InputTranslator

  /** A desktop coordinate in the signed field of a record. */
  ghost predicate IsAt(x: int, y: int, desktopX: u32, desktopY: u32) {
    && x == (if desktopX < 0x8000_0000 then desktopX else desktopX - 0x1_0000_0000)
    && y == (if desktopY < 0x8000_0000 then desktopY else desktopY - 0x1_0000_0000)
  }

  /** A mouse record, of button 1, 2 or 3, or of none. */
  ghost predicate Mouse(r: EventRecord, id: int, x: u32, y: u32, button: int, wheel: int) {
    && r.id == id && IsAt(r.x, r.y, x, y) && r.button == button && r.wheel == wheel
    && r.keyCode == 0 && r.keyChar == 0xFFFF
  }

  /** A key record, wherever the pointer is. */
  ghost predicate Key(r: EventRecord, id: int, s: State, code: int, ch: int) {
    && r.id == id && r.x == s.pointerX && r.y == s.pointerY && r.keyCode == code && r.keyChar == ch
    && r.button == 0 && r.wheel == 0
  }

  /** A record about the window. */
  ghost predicate Window(r: EventRecord, id: int, x: u32, y: u32) {
    r.id == id && IsAt(r.x, r.y, x, y) && r.button == 0 && r.keyCode == 0 && r.keyChar == 0xFFFF && r.wheel == 0
  }

  function Numbered(b: Button): int {
    match b case Left => 1 case Middle => 2 case Right => 3
  }

  // ---- the pointer ----

  /** A press and a release are reported where they happened, and the pointer is there afterwards. */
  lemma ButtonIsReported(s: State, x: u32, y: u32, b: Button)
    ensures var (s', out) := Translate(s, PointerDown(x, y, b));
      IsAt(s'.pointerX, s'.pointerY, x, y) && |out| == 1 && Mouse(out[0], 501, x, y, Numbered(b), 0)
    ensures var (s', out) := Translate(s, PointerUp(x, y, b));
      && IsAt(s'.pointerX, s'.pointerY, x, y) && 1 <= |out| <= 2 && Mouse(out[0], 502, x, y, Numbered(b), 0)
      && (|out| == 2 ==> Mouse(out[1], 500, x, y, Numbered(b), 0))
  {
  }

  /** So are a move, which is a drag while a button is held, and a scroll, with its ticks. */
  lemma MotionIsReported(s: State, x: u32, y: u32, ticks: i32)
    ensures var (s', out) := Translate(s, PointerMove(x, y));
      && IsAt(s'.pointerX, s'.pointerY, x, y) && |out| == 1
      && Mouse(out[0], if s.buttons == {} then 503 else 506, x, y, 0, 0)
    ensures var (s', out) := Translate(s, Scroll(x, y, ticks));
      IsAt(s'.pointerX, s'.pointerY, x, y) && |out| == 1 && Mouse(out[0], 507, x, y, 0, ticks)
  {
  }

  /** A tap: after any run, a press and a release of one button at one point are a click there, whatever the slop. */
  lemma TapClicks(slop: u32, inputs: seq<Input>, x: u32, y: u32, b: Button)
    ensures var (s1, down) := Translate(Run(Fresh(slop), inputs).0, PointerDown(x, y, b));
      var (s2, up) := Translate(s1, PointerUp(x, y, b));
      && |down| == 1 && Mouse(down[0], 501, x, y, Numbered(b), 0)
      && |up| == 2 && Mouse(up[0], 502, x, y, Numbered(b), 0) && Mouse(up[1], 500, x, y, Numbered(b), 0)
  {
    var s := Run(Fresh(slop), inputs).0;
    ButtonIsReported(s, x, y, b);
    ButtonIsReported(Translate(s, PointerDown(x, y, b)).0, x, y, b);
  }

  lemma {:induction false} MovesKeepPress(s: State, moves: seq<Input>)
    requires forall k | 0 <= k < |moves| :: moves[k].Translated? && moves[k].e.PointerMove?
    ensures Run(s, moves).0.pressOrigin == s.pressOrigin && Run(s, moves).0.clickSlop == s.clickSlop
  {
    if moves != [] { MovesKeepPress(s, moves[..|moves| - 1]); }
  }

  /** How far apart two coordinates are, the short way round 2^32. */
  function Around(a: u32, b: u32): u32 {
    var d := if a < b then b - a else a - b;
    if d <= 0x8000_0000 then d else 0x1_0000_0000 - d
  }

  /** The difference of the signed fields, wrapped, is that distance: for every pair of desktop coordinates. */
  lemma WrappedDifference(a: u32, b: u32)
    ensures UnsignedAbs(WrappingSub(AsI32(a), AsI32(b))) == Around(a, b)
  {
  }

  lemma ReleaseAfterPress(s: State, x: u32, y: u32, b: Button, x': u32, y': u32)
    requires s.pressOrigin == Some(Press(AsI32(x), AsI32(y), b))
    ensures |Translate(s, PointerUp(x', y', b)).1| == 2 <==> Around(x, x') <= s.clickSlop && Around(y, y') <= s.clickSlop
  {
    WrappedDifference(x, x');
    WrappedDifference(y, y');
  }

  /**
    A drag: after any run, a press, any moves and a release of that button are a click exactly when the
    release is at most the slop away from the press on both axes. Where the moves went does not matter.
    */
  lemma DragClicksExactly(slop: u32, inputs: seq<Input>, x: u32, y: u32, b: Button, moves: seq<Input>, x': u32, y': u32)
    requires forall k | 0 <= k < |moves| :: moves[k].Translated? && moves[k].e.PointerMove?
    ensures var pressed := Translate(Run(Fresh(slop), inputs).0, PointerDown(x, y, b)).0;
      |Translate(Run(pressed, moves).0, PointerUp(x', y', b)).1| == 2 <==> Around(x, x') <= slop && Around(y, y') <= slop
  {
    EveryClickIsJustified(slop, inputs);
    var pressed := Translate(Run(Fresh(slop), inputs).0, PointerDown(x, y, b)).0;
    MovesKeepPress(pressed, moves);
    ReleaseAfterPress(Run(pressed, moves).0, x, y, b, x', y');
  }

  // ---- keys, text and the window ----

  /** A key is reported by its code, a typed character by itself, both at the pointer, which stays. */
  lemma KeysAreReported(s: State, code: i32, ch: char)
    ensures var (s', out) := Translate(s, KeyDown(code));
      |out| == 1 && Key(out[0], 401, s, code, 0xFFFF) && s'.pointerX == s.pointerX && s'.pointerY == s.pointerY
    ensures var (s', out) := Translate(s, KeyUp(code));
      |out| == 1 && Key(out[0], 402, s, code, 0xFFFF) && s'.pointerX == s.pointerX && s'.pointerY == s.pointerY
    ensures var (s', out) := Translate(s, Text(ch)); s' == s && |out| == 1 && Key(out[0], 400, s, 0, ch as int)
  {
  }

  predicate MovesPointer(i: Input) {
    i.FromSurface? || (i.Translated? && (i.e.PointerMove? || i.e.PointerDown? || i.e.PointerUp? || i.e.Scroll?))
  }

  /** Until the pointer is first reported, it is at the corner of the desktop. */
  lemma {:induction false} PointerStartsAtCorner(slop: u32, inputs: seq<Input>)
    requires forall k | 0 <= k < |inputs| :: !MovesPointer(inputs[k])
    ensures var s := Run(Fresh(slop), inputs).0; s.pointerX == 0 && s.pointerY == 0
  {
    if inputs != [] {
      var front, last := inputs[..|inputs| - 1], inputs[|inputs| - 1];
      PointerStartsAtCorner(slop, front);
      var mouse, keys := ReleasesAreReported(Run(Fresh(slop), front).0);
    }
  }

  /** Committed text is one typed record a character, in order. */
  lemma TextIsReported(s: State, text: string, k: nat)
    requires k < |text|
    ensures |TypeStr(s, text)| == |text| && Key(TypeStr(s, text)[k], 400, s, 0, text[k] as int)
  {
  }

  lemma WindowIsReported(s: State, width: u32, height: u32)
    ensures var (s', out) := Translate(s, Focus(true)); s' == s && |out| == 1 && Window(out[0], 1004, 0, 0)
    ensures var (_, out) := Translate(s, Focus(false)); |out| >= 1 && Window(out[|out| - 1], 1005, 0, 0)
    ensures var (s', out) := Translate(s, Resize(width, height)); s' == s && |out| == 1 && Window(out[0], 101, width, height)
  {
  }

  /** A release of something held, at the pointer. */
  ghost predicate Releases(s: State, id: int, rs: seq<EventRecord>) {
    forall r | r in rs :: r.id == id && r.x == s.pointerX && r.y == s.pointerY && r.keyChar == 0xFFFF && r.wheel == 0
  }

  lemma {:induction false} ButtonsReleased(s: State, bs: seq<Button>)
    ensures var (s', out) := ReleaseButtons(s, bs);
      s'.pointerX == s.pointerX && s'.pointerY == s.pointerY && Releases(s, 502, out)
  {
    if bs != [] { ButtonsReleased(s, bs[..|bs| - 1]); }
  }

  lemma {:induction false} KeysReleased(s: State, codes: seq<i32>)
    ensures var (s', out) := ReleaseKeys(s, codes);
      s'.pointerX == s.pointerX && s'.pointerY == s.pointerY && Releases(s, 402, out)
  {
    if codes != [] { KeysReleased(s, codes[..|codes| - 1]); }
  }

  /** Releasing everything reports the buttons and then the keys, at the pointer, which stays. */
  lemma ReleasesAreReported(s: State) returns (mouse: seq<EventRecord>, keys: seq<EventRecord>)
    ensures ReleaseAll(s).1 == mouse + keys && Releases(s, 502, mouse) && Releases(s, 402, keys)
    ensures ReleaseAll(s).0.pointerX == s.pointerX && ReleaseAll(s).0.pointerY == s.pointerY
  {
    ButtonsReleased(s, ALL_BUTTONS);
    mouse := ReleaseButtons(s, ALL_BUTTONS).1;
    KeysReleased(ReleaseButtons(s, ALL_BUTTONS).0, ALL_KEYS);
    keys := ReleaseKeys(ReleaseButtons(s, ALL_BUTTONS).0, ALL_KEYS).1;
  }

  /** The modifier keys are those of `java.awt.event.KeyEvent`: shift 16, control 17, alt 18, meta 157. */
  lemma ModifierKeys(s: State, code: i32)
    ensures Translate(s, KeyDown(code)).0.modifiers == s.modifiers +
      if code == 16 then {Shift} else if code == 17 then {Ctrl}
      else if code == 18 then {Alt} else if code == 157 then {Meta} else {}
    ensures Translate(s, KeyUp(code)).0.modifiers == s.modifiers -
      if code == 16 then {Shift} else if code == 17 then {Ctrl}
      else if code == 18 then {Alt} else if code == 157 then {Meta} else {}
  {
  }

  /** The buttons held are those pressed and not released: button 1 is the left one, 2 the middle, 3 the right. */
  lemma HeldButtons(s: State, x: u32, y: u32, b: Button)
    ensures Translate(s, PointerDown(x, y, b)).0.buttons == s.buttons +
      match b case Left => {Button1} case Middle => {Button2} case Right => {Button3}
    ensures Translate(s, PointerUp(x, y, b)).0.buttons == s.buttons -
      match b case Left => {Button1} case Middle => {Button2} case Right => {Button3}
  {
  }

  // ---- the surface ----

  /** Off the drawn desktop nothing is reported unless a button is held. */
  lemma MissIsNothing(s: State, v: Viewports.Viewport, x: Viewports.Coord, y: Viewports.Coord, b: Button)
    requires s.buttons == {} && v.MapPointer(x, y).None?
    ensures PointerFromSurface(s, v, x, y, Down, b) == (s, []) && PointerFromSurface(s, v, x, y, Move, b) == (s, [])
  {
  }

  /** On it, a touch is reported at the desktop pixel it maps to, and while a button is held at the nearest one. */
  lemma TouchIsReported(s: State, v: Viewports.Viewport, x: Viewports.Coord, y: Viewports.Coord, b: Button, at: (u32, u32))
    requires if s.buttons == {} then v.MapPointer(x, y) == Some(at) else v.MapPointerClamped(x, y) == at
    ensures var out := PointerFromSurface(s, v, x, y, Down, b).1; |out| == 1 && Mouse(out[0], 501, at.0, at.1, Numbered(b), 0)
    ensures var out := PointerFromSurface(s, v, x, y, Move, b).1;
      |out| == 1 && Mouse(out[0], if s.buttons == {} then 503 else 506, at.0, at.1, 0, 0)
  {
    ButtonIsReported(s, at.0, at.1, b);
    MotionIsReported(s, at.0, at.1, 0);
  }

  /** A lift is always reported, at the nearest desktop pixel. */
  lemma LiftIsReported(s: State, v: Viewports.Viewport, x: Viewports.Coord, y: Viewports.Coord, b: Button)
    ensures var at := v.MapPointerClamped(x, y);
      var out := PointerFromSurface(s, v, x, y, Up, b).1;
      |out| >= 1 && Mouse(out[0], 502, at.0, at.1, Numbered(b), 0)
  {
    var at := v.MapPointerClamped(x, y);
    ButtonIsReported(s, at.0, at.1, b);
  }
}
