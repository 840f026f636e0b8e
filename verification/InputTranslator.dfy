/**
  Compose gestures and keys to AWT event records. The held buttons and modifier keys are bit masks;
  an observer that only sees the records must be able to rebuild them.
  */
module InputTranslator {
  import opened Words
  import opened Wrappers
  import opened EventCodec
  import Viewports

  // ---- AWT ids, masks and key codes ----

  const KEY_TYPED: i32 := 400
  const KEY_PRESSED: i32 := 401
  const KEY_RELEASED: i32 := 402
  const MOUSE_CLICKED: i32 := 500
  const MOUSE_PRESSED: i32 := 501
  const MOUSE_RELEASED: i32 := 502
  const MOUSE_MOVED: i32 := 503
  const MOUSE_DRAGGED: i32 := 506
  const MOUSE_WHEEL: i32 := 507
  const COMPONENT_RESIZED: i32 := 101
  const FOCUS_GAINED: i32 := 1004
  const FOCUS_LOST: i32 := 1005

  const CHAR_UNDEFINED: u32 := 0xFFFF

  /** What can be held; `java.awt` gives each its own bit of the `getModifiersEx()` word. */
  datatype Flag = Shift | Ctrl | Meta | Alt | Button1 | Button2 | Button3 {
    function Weight(): i32 {
      match this
      case Shift => 0x40 case Ctrl => 0x80 case Meta => 0x100 case Alt => 0x200
      case Button1 => 0x400 case Button2 => 0x800 case Button3 => 0x1000
    }
  }

  /** A bit mask, as the set of its bits. */
  type Mask = set<Flag>

  const KEY_FLAGS: Mask := {Shift, Ctrl, Meta, Alt}
  const BUTTON_FLAGS: Mask := {Button1, Button2, Button3}

  function WeightIn(m: Mask, f: Flag): i32 { if f in m then f.Weight() else 0 }

  /** The word a mask is written as. */
  function ModifiersField(m: Mask): i32 {
    WeightIn(m, Shift) + WeightIn(m, Ctrl) + WeightIn(m, Meta) + WeightIn(m, Alt)
    + WeightIn(m, Button1) + WeightIn(m, Button2) + WeightIn(m, Button3)
  }

  /** Bit by bit, the word is the mask; so the word determines the mask. */
  lemma WordIsMask(m: Mask, f: Flag)
    ensures ModifiersField(m) / f.Weight() % 2 == 1 <==> f in m
  {
    WordOfBits(m);
    BitsOfWord(Has(m, Shift), Has(m, Ctrl), Has(m, Meta), Has(m, Alt), Has(m, Button1), Has(m, Button2), Has(m, Button3));
    match f
    case Shift => case Ctrl => case Meta => case Alt => case Button1 => case Button2 => case Button3 =>
  }

  lemma WordOfBits(m: Mask)
    ensures ModifiersField(m) ==
      0x40 * Has(m, Shift) + 0x80 * Has(m, Ctrl) + 0x100 * Has(m, Meta) + 0x200 * Has(m, Alt)
      + 0x400 * Has(m, Button1) + 0x800 * Has(m, Button2) + 0x1000 * Has(m, Button3)
  {
  }

  function Has(m: Mask, f: Flag): (b: int)
    ensures 0 <= b <= 1
  {
    if f in m then 1 else 0
  }

  lemma BitsOfWord(a: int, b: int, c: int, d: int, e: int, f: int, g: int)
    requires 0 <= a <= 1 && 0 <= b <= 1 && 0 <= c <= 1 && 0 <= d <= 1 && 0 <= e <= 1 && 0 <= f <= 1 && 0 <= g <= 1
    ensures var word := 0x40 * a + 0x80 * b + 0x100 * c + 0x200 * d + 0x400 * e + 0x800 * f + 0x1000 * g;
      && word / 0x40 % 2 == a && word / 0x80 % 2 == b && word / 0x100 % 2 == c && word / 0x200 % 2 == d
      && word / 0x400 % 2 == e && word / 0x800 % 2 == f && word / 0x1000 % 2 == g
  {
    var word := 0x40 * a + 0x80 * b + 0x100 * c + 0x200 * d + 0x400 * e + 0x800 * f + 0x1000 * g;
    assert word / 0x1000 == g;
    assert word / 0x800 == f + 2 * g;
    assert word / 0x400 == e + 2 * (f + 2 * g);
    assert word / 0x200 == d + 2 * (e + 2 * (f + 2 * g));
    assert word / 0x100 == c + 2 * (d + 2 * (e + 2 * (f + 2 * g)));
    assert word / 0x80 == b + 2 * (c + 2 * (d + 2 * (e + 2 * (f + 2 * g))));
    assert word / 0x40 == a + 2 * (b + 2 * (c + 2 * (d + 2 * (e + 2 * (f + 2 * g)))));
  }

  const VK_SHIFT: i32 := 16
  const VK_CONTROL: i32 := 17
  const VK_ALT: i32 := 18
  const VK_META: i32 := 157

  datatype Button = Left | Middle | Right {
    function Number(): i32 {
      match this case Left => 1 case Middle => 2 case Right => 3
    }

    function Bit(): Flag {
      match this case Left => Button1 case Middle => Button2 case Right => Button3
    }
  }

  function ButtonFromNumber(n: i32): Option<Button> {
    if n == 1 then Some(Left) else if n == 2 then Some(Middle) else if n == 3 then Some(Right) else None
  }

  /** `modifier_mask_for_vk`: what a key contributes while it is held (nothing for an ordinary key). */
  function KeyBit(code: i32): Mask {
    if code == VK_SHIFT then {Shift}
    else if code == VK_CONTROL then {Ctrl}
    else if code == VK_ALT then {Alt}
    else if code == VK_META then {Meta}
    else {}
  }

  // ---- State and events ----

  datatype Event =
    | PointerMove(x: u32, y: u32)
    | PointerDown(x: u32, y: u32, button: Button)
    | PointerUp(x: u32, y: u32, button: Button)
    | Scroll(x: u32, y: u32, ticks: i32)
    | KeyDown(code: i32)
    | KeyUp(code: i32)
    | Text(ch: char)
    | Focus(gained: bool)
    | Resize(width: u32, height: u32)

  datatype Press = Press(x: i32, y: i32, button: Button)

  datatype State = State(
    modifiers: Mask, buttons: Mask, pointerX: i32, pointerY: i32, pressOrigin: Option<Press>, clickSlop: u32)
  {
    function Held(): Mask { modifiers + buttons }

    function At(x: u32, y: u32): State { this.(pointerX := AsI32(x), pointerY := AsI32(y)) }
  }

  function Fresh(slop: u32): State { State({}, {}, 0, 0, None, slop) }

  function MouseRecord(s: State, id: i32, button: i32, wheel: i32): EventRecord {
    EventRecord(id, s.pointerX, s.pointerY, button, 0, CHAR_UNDEFINED, ModifiersField(s.Held()), wheel)
  }

  function KeyRecord(s: State, id: i32, code: i32, ch: u32): EventRecord {
    EventRecord(id, s.pointerX, s.pointerY, 0, code, ch, ModifiersField(s.Held()), 0)
  }

  function OtherRecord(s: State, id: i32, x: i32, y: i32): EventRecord {
    EventRecord(id, x, y, 0, 0, CHAR_UNDEFINED, ModifiersField(s.Held()), 0)
  }

  // ---- Translation ----

  /** The larger of the two axis distances, as the code computes it on `i32`. */
  function Travelled(p: Press, x: i32, y: i32): u32 {
    Max(UnsignedAbs(WrappingSub(p.x, x)), UnsignedAbs(WrappingSub(p.y, y)))
  }

  function Clicks(s: State, x: u32, y: u32, button: Button): bool {
    && s.pressOrigin.Some?
    && s.pressOrigin.value.button == button
    && Travelled(s.pressOrigin.value, AsI32(x), AsI32(y)) <= s.clickSlop
  }

  /** Releases one button if it is held. */
  function ReleaseButton(s: State, b: Button): (State, seq<EventRecord>) {
    if b.Bit() in s.buttons then
      var s' := s.(buttons := s.buttons - {b.Bit()});
      (s', [MouseRecord(s', MOUSE_RELEASED, b.Number(), 0)])
    else (s, [])
  }

  /** Releases one modifier key if it is held. */
  function ReleaseKey(s: State, code: i32): (State, seq<EventRecord>) {
    if !(KeyBit(code) !! s.modifiers) then
      var s' := s.(modifiers := s.modifiers - KeyBit(code));
      (s', [KeyRecord(s', KEY_RELEASED, code, CHAR_UNDEFINED)])
    else (s, [])
  }

  function ReleaseButtons(s: State, bs: seq<Button>): (State, seq<EventRecord>) {
    if bs == [] then (s, [])
    else
      var (s1, out) := ReleaseButtons(s, bs[..|bs| - 1]);
      var (s2, last) := ReleaseButton(s1, bs[|bs| - 1]);
      (s2, out + last)
  }

  function ReleaseKeys(s: State, codes: seq<i32>): (State, seq<EventRecord>) {
    if codes == [] then (s, [])
    else
      var (s1, out) := ReleaseKeys(s, codes[..|codes| - 1]);
      var (s2, last) := ReleaseKey(s1, codes[|codes| - 1]);
      (s2, out + last)
  }

  const ALL_BUTTONS: seq<Button> := [Left, Middle, Right]
  const ALL_KEYS: seq<i32> := [VK_SHIFT, VK_CONTROL, VK_ALT, VK_META]

  function ReleaseAll(s: State): (State, seq<EventRecord>) {
    var (s1, mouse) := ReleaseButtons(s, ALL_BUTTONS);
    var (s2, keys) := ReleaseKeys(s1, ALL_KEYS);
    (s2.(pressOrigin := None), mouse + keys)
  }

  function Translate(s: State, e: Event): (State, seq<EventRecord>) {
    match e
    case PointerMove(x, y) =>
      var s' := s.At(x, y);
      (s', [MouseRecord(s', if s.buttons != {} then MOUSE_DRAGGED else MOUSE_MOVED, 0, 0)])
    case PointerDown(x, y, button) =>
      var s' := s.At(x, y).(buttons := s.buttons + {button.Bit()}, pressOrigin := Some(Press(AsI32(x), AsI32(y), button)));
      (s', [MouseRecord(s', MOUSE_PRESSED, button.Number(), 0)])
    case PointerUp(x, y, button) =>
      var s' := s.At(x, y).(buttons := s.buttons - {button.Bit()}, pressOrigin := None);
      (s', [MouseRecord(s', MOUSE_RELEASED, button.Number(), 0)]
           + if Clicks(s, x, y, button) then [MouseRecord(s', MOUSE_CLICKED, button.Number(), 0)] else [])
    case Scroll(x, y, ticks) =>
      var s' := s.At(x, y);
      (s', [MouseRecord(s', MOUSE_WHEEL, 0, ticks)])
    case KeyDown(code) =>
      var s' := s.(modifiers := s.modifiers + KeyBit(code));
      (s', [KeyRecord(s', KEY_PRESSED, code, CHAR_UNDEFINED)])
    case KeyUp(code) =>
      var s' := s.(modifiers := s.modifiers - KeyBit(code));
      (s', [KeyRecord(s', KEY_RELEASED, code, CHAR_UNDEFINED)])
    case Text(ch) => (s, [KeyRecord(s, KEY_TYPED, 0, ch as int)])
    case Focus(gained) =>
      if gained then (s, [OtherRecord(s, FOCUS_GAINED, 0, 0)])
      else
        var (s', out) := ReleaseAll(s);
        (s', out + [OtherRecord(s', FOCUS_LOST, 0, 0)])
    case Resize(w, h) => (s, [OtherRecord(s, COMPONENT_RESIZED, AsI32(w), AsI32(h))])
  }

  function TypeStr(s: State, text: string): (out: seq<EventRecord>)
    ensures |out| == |text|
  {
    seq(|text|, i requires 0 <= i < |text| => KeyRecord(s, KEY_TYPED, 0, text[i] as int))
  }

  datatype Phase = Down | Move | Up

  /** A pointer event in surface coordinates; outside the drawn desktop only a drag is an event. */
  function PointerFromSurface(s: State, v: Viewports.Viewport, x: Viewports.Coord, y: Viewports.Coord,
                              phase: Phase, button: Button): (State, seq<EventRecord>)
  {
    var mapped :=
      if s.buttons != {} || phase == Up then Some(v.MapPointerClamped(x, y)) else v.MapPointer(x, y);
    if mapped.None? then (s, [])
    else Translate(s, match phase
      case Down => PointerDown(mapped.value.0, mapped.value.1, button)
      case Move => PointerMove(mapped.value.0, mapped.value.1)
      case Up => PointerUp(mapped.value.0, mapped.value.1, button))
  }

  // ---- Runs ----

  /** Everything a session may ask of the translator, `reset` aside. */
  datatype Input =
    | Translated(e: Event)
    | Typed(text: string)
    | ReleasedAll
    | FromSurface(v: Viewports.Viewport, x: Viewports.Coord, y: Viewports.Coord, phase: Phase, button: Button)

  function Step(s: State, i: Input): (State, seq<EventRecord>) {
    match i
    case Translated(e) => Translate(s, e)
    case Typed(text) => (s, TypeStr(s, text))
    case ReleasedAll => ReleaseAll(s)
    case FromSurface(v, x, y, phase, button) => PointerFromSurface(s, v, x, y, phase, button)
  }

  function Run(s: State, inputs: seq<Input>): (State, seq<EventRecord>) {
    if inputs == [] then (s, [])
    else
      var (s1, out) := Run(s, inputs[..|inputs| - 1]);
      var (s2, last) := Step(s1, inputs[|inputs| - 1]);
      (s2, out + last)
  }

  // ---- The observer ----

  /** One record, seen from outside: a press sets its bit, a release clears it. */
  function Observe(held: Mask, r: EventRecord): Mask {
    var button := ButtonFromNumber(r.button);
    if r.id == MOUSE_PRESSED && button.Some? then held + {button.value.Bit()}
    else if r.id == MOUSE_RELEASED && button.Some? then held - {button.value.Bit()}
    else if r.id == KEY_PRESSED then held + KeyBit(r.keyCode)
    else if r.id == KEY_RELEASED then held - KeyBit(r.keyCode)
    else held
  }

  function ObserveAll(held: Mask, rs: seq<EventRecord>): Mask {
    if rs == [] then held else Observe(ObserveAll(held, rs[..|rs| - 1]), rs[|rs| - 1])
  }

  /** Every record carries exactly what the observer holds after seeing it. */
  ghost predicate Explained(held: Mask, rs: seq<EventRecord>) {
    forall i | 0 <= i < |rs| :: rs[i].modifiers == ModifiersField(ObserveAll(held, rs[..i + 1]))
  }

  lemma {:induction false} ObserveConcat(held: Mask, a: seq<EventRecord>, b: seq<EventRecord>)
    ensures ObserveAll(held, a + b) == ObserveAll(ObserveAll(held, a), b)
  {
    if b == [] {
      assert a + b == a;
    } else {
      ObserveConcat(held, a, b[..|b| - 1]);
      assert (a + b)[..|a + b| - 1] == a + b[..|b| - 1];
    }
  }

  lemma ExplainedConcat(held: Mask, a: seq<EventRecord>, b: seq<EventRecord>)
    requires Explained(held, a) && Explained(ObserveAll(held, a), b)
    ensures Explained(held, a + b)
  {
    forall i | 0 <= i < |a + b| ensures (a + b)[i].modifiers == ModifiersField(ObserveAll(held, (a + b)[..i + 1])) {
      if i < |a| {
        assert (a + b)[..i + 1] == a[..i + 1];
      } else {
        ObserveConcat(held, a, b[..i - |a| + 1]);
        assert (a + b)[..i + 1] == a + b[..i - |a| + 1];
      }
    }
  }

  /** The two masks never hold a bit of the other, and an open press is a held button. */
  ghost predicate Sane(s: State) {
    && MasksSane(s)
    && (s.pressOrigin.Some? ==> s.pressOrigin.value.button.Bit() in s.buttons)
  }

  /** What one piece of output must do to the observer: end where the state is, step by step. */
  ghost predicate Faithful(s: State, s': State, out: seq<EventRecord>) {
    && Explained(s.Held(), out)
    && ObserveAll(s.Held(), out) == s'.Held()
  }

  lemma FaithfulConcat(s: State, s1: State, s2: State, a: seq<EventRecord>, b: seq<EventRecord>)
    requires Faithful(s, s1, a) && Faithful(s1, s2, b)
    ensures Faithful(s, s2, a + b)
  {
    ExplainedConcat(s.Held(), a, b);
    ObserveConcat(s.Held(), a, b);
  }

  /** A single record that carries the new state's mask. */
  lemma FaithfulOne(s: State, s': State, r: EventRecord)
    requires Observe(s.Held(), r) == s'.Held() && r.modifiers == ModifiersField(s'.Held())
    ensures Faithful(s, s', [r])
  {
    assert [r][..1] == [r] && [r][..0] == [];
  }

  lemma FaithfulNone(s: State, s': State)
    requires s'.Held() == s.Held()
    ensures Faithful(s, s', [])
  {
  }

  ghost predicate MasksSane(s: State) { s.buttons <= BUTTON_FLAGS && s.modifiers <= KEY_FLAGS }

  lemma ReleaseButtonFaithful(s: State, b: Button)
    requires MasksSane(s)
    ensures var (s', out) := ReleaseButton(s, b);
      && MasksSane(s') && Faithful(s, s', out) && s'.buttons == s.buttons - {b.Bit()} && s'.modifiers == s.modifiers
  {
    var (s', out) := ReleaseButton(s, b);
    if out == [] {
      FaithfulNone(s, s');
    } else {
      FaithfulOne(s, s', out[0]);
    }
  }

  lemma ReleaseKeyFaithful(s: State, code: i32)
    requires MasksSane(s)
    ensures var (s', out) := ReleaseKey(s, code);
      && MasksSane(s') && Faithful(s, s', out) && s'.modifiers == s.modifiers - KeyBit(code) && s'.buttons == s.buttons
  {
    var (s', out) := ReleaseKey(s, code);
    if out == [] {
      FaithfulNone(s, s');
    } else {
      FaithfulOne(s, s', out[0]);
    }
  }

  function ButtonBits(bs: seq<Button>): Mask { set b | b in bs :: b.Bit() }

  function KeyBits(codes: seq<i32>): Mask { set code, f | code in codes && f in KeyBit(code) :: f }

  lemma {:induction false} ReleaseButtonsFaithful(s: State, bs: seq<Button>)
    requires MasksSane(s)
    ensures var (s', out) := ReleaseButtons(s, bs);
      && MasksSane(s') && Faithful(s, s', out) && s'.buttons == s.buttons - ButtonBits(bs) && s'.modifiers == s.modifiers
  {
    if bs == [] {
      FaithfulNone(s, s);
    } else {
      ReleaseButtonsFaithful(s, bs[..|bs| - 1]);
      var (s1, out) := ReleaseButtons(s, bs[..|bs| - 1]);
      ReleaseButtonFaithful(s1, bs[|bs| - 1]);
      var (s2, last) := ReleaseButton(s1, bs[|bs| - 1]);
      FaithfulConcat(s, s1, s2, out, last);
    }
  }

  lemma {:induction false} ReleaseKeysFaithful(s: State, codes: seq<i32>)
    requires MasksSane(s)
    ensures var (s', out) := ReleaseKeys(s, codes);
      && MasksSane(s') && Faithful(s, s', out) && s'.modifiers == s.modifiers - KeyBits(codes) && s'.buttons == s.buttons
  {
    if codes == [] {
      FaithfulNone(s, s);
    } else {
      ReleaseKeysFaithful(s, codes[..|codes| - 1]);
      var (s1, out) := ReleaseKeys(s, codes[..|codes| - 1]);
      ReleaseKeyFaithful(s1, codes[|codes| - 1]);
      var (s2, last) := ReleaseKey(s1, codes[|codes| - 1]);
      FaithfulConcat(s, s1, s2, out, last);
    }
  }

  lemma NothingLeft()
    ensures BUTTON_FLAGS <= ButtonBits(ALL_BUTTONS) && KEY_FLAGS <= KeyBits(ALL_KEYS)
  {
    assert ALL_BUTTONS[0] == Left && ALL_BUTTONS[1] == Middle && ALL_BUTTONS[2] == Right;
    assert Left in ALL_BUTTONS && Middle in ALL_BUTTONS && Right in ALL_BUTTONS;
    assert ALL_KEYS[0] == VK_SHIFT && ALL_KEYS[1] == VK_CONTROL && ALL_KEYS[2] == VK_ALT && ALL_KEYS[3] == VK_META;
    assert VK_SHIFT in ALL_KEYS && VK_CONTROL in ALL_KEYS && VK_ALT in ALL_KEYS && VK_META in ALL_KEYS;
    assert Shift in KeyBit(VK_SHIFT) && Ctrl in KeyBit(VK_CONTROL) && Alt in KeyBit(VK_ALT) && Meta in KeyBit(VK_META);
  }

  /** `release_all` leaves nothing held, and its records say so. */
  lemma ReleaseAllFaithful(s: State)
    requires MasksSane(s)
    ensures var (s', out) := ReleaseAll(s);
      Sane(s') && Faithful(s, s', out) && s'.Held() == {} && s'.buttons == {} && s'.pressOrigin == None
  {
    ReleaseButtonsFaithful(s, ALL_BUTTONS);
    var (s1, mouse) := ReleaseButtons(s, ALL_BUTTONS);
    ReleaseKeysFaithful(s1, ALL_KEYS);
    var (s2, keys) := ReleaseKeys(s1, ALL_KEYS);
    FaithfulConcat(s, s1, s2, mouse, keys);
    NothingLeft();
    var s3 := s2.(pressOrigin := None);
    assert s3.Held() == s2.Held();
  }

  lemma PointerUpFaithful(s: State, x: u32, y: u32, b: Button)
    requires Sane(s)
    ensures var (s', out) := Translate(s, PointerUp(x, y, b)); Sane(s') && Faithful(s, s', out)
  {
    var (s', out) := Translate(s, PointerUp(x, y, b));
    FaithfulOne(s, s', out[0]);
    if Clicks(s, x, y, b) {
      FaithfulOne(s', s', out[1]);
      FaithfulConcat(s, s', s', [out[0]], [out[1]]);
      assert out == [out[0]] + [out[1]];
    } else {
      assert out == [out[0]];
    }
  }

  lemma FocusLostFaithful(s: State)
    requires Sane(s)
    ensures var (s', out) := Translate(s, Focus(false)); Sane(s') && Faithful(s, s', out)
  {
    ReleaseAllFaithful(s);
    ReportLost(s, ReleaseAll(s).0, ReleaseAll(s).1);
  }

  lemma ReportLost(s: State, s1: State, released: seq<EventRecord>)
    requires Faithful(s, s1, released)
    ensures Faithful(s, s1, released + [OtherRecord(s1, FOCUS_LOST, 0, 0)])
  {
    var lost := OtherRecord(s1, FOCUS_LOST, 0, 0);
    FaithfulOne(s1, s1, lost);
    FaithfulConcat(s, s1, s1, released, [lost]);
  }

  lemma TranslateFaithful(s: State, e: Event)
    requires Sane(s)
    ensures var (s', out) := Translate(s, e); Sane(s') && Faithful(s, s', out)
  {
    match e
    case PointerUp(x, y, b) => PointerUpFaithful(s, x, y, b);
    case Focus(gained) =>
      if gained { FaithfulOne(s, s, OtherRecord(s, FOCUS_GAINED, 0, 0)); } else { FocusLostFaithful(s); }
    case PointerDown(_, _, b) =>
        FaithfulOne(s, Translate(s, e).0, Translate(s, e).1[0]);
    case KeyDown(code) =>
        FaithfulOne(s, Translate(s, e).0, Translate(s, e).1[0]);
    case KeyUp(code) =>
        FaithfulOne(s, Translate(s, e).0, Translate(s, e).1[0]);
    case _ => FaithfulOne(s, Translate(s, e).0, Translate(s, e).1[0]);
  }

  lemma {:induction false} TypeStrFaithful(s: State, text: string)
    ensures Faithful(s, s, TypeStr(s, text))
  {
    if text == "" {
      FaithfulNone(s, s);
    } else {
      var init := text[..|text| - 1];
      TypeStrFaithful(s, init);
      var last := KeyRecord(s, KEY_TYPED, 0, text[|text| - 1] as int);
      FaithfulOne(s, s, last);
      FaithfulConcat(s, s, s, TypeStr(s, init), [last]);
      assert TypeStr(s, text) == TypeStr(s, init) + [last];
    }
  }

  lemma StepFaithful(s: State, i: Input)
    requires Sane(s)
    ensures var (s', out) := Step(s, i); Sane(s') && Faithful(s, s', out)
  {
    match i
    case Translated(e) => TranslateFaithful(s, e);
    case Typed(text) => TypeStrFaithful(s, text);
    case ReleasedAll => ReleaseAllFaithful(s);
    case FromSurface(v, x, y, phase, button) =>
      var mapped :=
        if s.buttons != {} || phase == Up then Some(v.MapPointerClamped(x, y)) else v.MapPointer(x, y);
      if mapped.None? {
        FaithfulNone(s, s);
      } else {
        TranslateFaithful(s, match phase
          case Down => PointerDown(mapped.value.0, mapped.value.1, button)
          case Move => PointerMove(mapped.value.0, mapped.value.1)
          case Up => PointerUp(mapped.value.0, mapped.value.1, button));
      }
  }

  /**
    The trace determines the state: from a fresh translator, for every run, each record's
    `modifiers` is what an observer of the ids, buttons and key codes alone computes up to it, and
    the observer ends with the translator's own mask.
    */
  lemma {:induction false} TraceDeterminesState(slop: u32, inputs: seq<Input>)
    ensures var (s, trace) := Run(Fresh(slop), inputs);
      Sane(s) && Explained({}, trace) && ObserveAll({}, trace) == s.Held()
  {
    if inputs == [] {
      FaithfulNone(Fresh(slop), Fresh(slop));
    } else {
      var init := inputs[..|inputs| - 1];
      TraceDeterminesState(slop, init);
      var (s1, out) := Run(Fresh(slop), init);
      StepFaithful(s1, inputs[|inputs| - 1]);
      var (s2, last) := Step(s1, inputs[|inputs| - 1]);
      assert Fresh(slop).Held() == {};
      FaithfulConcat(Fresh(slop), s1, s2, out, last);
    }
  }

  /** Losing focus, or releasing everything, leaves the observer with nothing held. */
  lemma NothingHeldAfterRelease(slop: u32, inputs: seq<Input>, last: Input)
    requires last == ReleasedAll || last == Translated(Focus(false))
    ensures var (s, trace) := Run(Fresh(slop), inputs + [last]);
      s.Held() == {} && ObserveAll({}, trace) == {} && s.pressOrigin == None
  {
    assert (inputs + [last])[..|inputs|] == inputs;
    TraceDeterminesState(slop, inputs);
    LastReleases(Run(Fresh(slop), inputs).0, last);
    TraceDeterminesState(slop, inputs + [last]);
  }

  lemma LastReleases(s: State, last: Input)
    requires MasksSane(s) && (last == ReleasedAll || last == Translated(Focus(false)))
    ensures Step(s, last).0.Held() == {} && Step(s, last).0.pressOrigin == None
  {
    ReleaseAllFaithful(s);
  }

  // ---- How many records a release emits ----

  function Count(rs: seq<EventRecord>, id: i32, button: i32, keyCode: i32): nat {
    if rs == [] then 0
    else
      Count(rs[..|rs| - 1], id, button, keyCode)
      + var r := rs[|rs| - 1]; if r.id == id && r.button == button && r.keyCode == keyCode then 1 else 0
  }

  /** The records `release_all` emits for what is held, in their order. */
  function ReleaseNumbers(buttons: Mask): seq<i32> {
    (if Button1 in buttons then [1] else [])
    + (if Button2 in buttons then [2] else [])
    + (if Button3 in buttons then [3] else [])
  }

  function ReleaseCodes(modifiers: Mask): seq<i32> {
    (if Shift in modifiers then [VK_SHIFT] else [])
    + (if Ctrl in modifiers then [VK_CONTROL] else [])
    + (if Alt in modifiers then [VK_ALT] else [])
    + (if Meta in modifiers then [VK_META] else [])
  }

  function ButtonNumbers(rs: seq<EventRecord>): seq<i32> { seq(|rs|, i requires 0 <= i < |rs| => rs[i].button) }

  function KeyCodes(rs: seq<EventRecord>): seq<i32> { seq(|rs|, i requires 0 <= i < |rs| => rs[i].keyCode) }

  lemma ReleaseButtonsUnrolled(s: State)
    ensures var (s1, o1) := ReleaseButton(s, Left);
      var (s2, o2) := ReleaseButton(s1, Middle);
      var (s3, o3) := ReleaseButton(s2, Right);
      ReleaseButtons(s, ALL_BUTTONS) == (s3, o1 + o2 + o3)
  {
    assert ALL_BUTTONS[..2] == [Left, Middle] && [Left, Middle][..1] == [Left] && [Left][..0] == [];
    var (s1, o1) := ReleaseButton(s, Left);
    assert [] + o1 == o1;
    assert ReleaseButtons(s, [Left]) == (s1, o1);
  }

  lemma ReleaseKeysUnrolled(s: State)
    ensures var (s1, o1) := ReleaseKey(s, VK_SHIFT);
      var (s2, o2) := ReleaseKey(s1, VK_CONTROL);
      var (s3, o3) := ReleaseKey(s2, VK_ALT);
      var (s4, o4) := ReleaseKey(s3, VK_META);
      ReleaseKeys(s, ALL_KEYS) == (s4, o1 + o2 + o3 + o4)
  {
    assert ALL_KEYS[..3] == [VK_SHIFT, VK_CONTROL, VK_ALT] && ALL_KEYS[..3][..2] == [VK_SHIFT, VK_CONTROL];
    assert [VK_SHIFT, VK_CONTROL][..1] == [VK_SHIFT] && [VK_SHIFT][..0] == [];
    var (s1, o1) := ReleaseKey(s, VK_SHIFT);
    assert [] + o1 == o1;
    assert ReleaseKeys(s, [VK_SHIFT]) == (s1, o1);
    var (s2, o2) := ReleaseKey(s1, VK_CONTROL);
    assert ReleaseKeys(s, [VK_SHIFT, VK_CONTROL]) == (s2, o1 + o2);
  }

  /** One release per held button: exactly the held ones, each once, in the fixed order. */
  lemma OneReleasePerButton(s: State)
    ensures var out := ReleaseButtons(s, ALL_BUTTONS).1;
      ButtonNumbers(out) == ReleaseNumbers(s.buttons)
      && forall r | r in out :: r.id == MOUSE_RELEASED && r.keyCode == 0
  {
    ReleaseButtonsUnrolled(s);
  }

  /** What releasing one key does: it clears the bit, and reports the code when it was set. */
  lemma ReleaseKeyShape(s: State, code: i32, f: Flag)
    requires KeyBit(code) == {f}
    ensures var (s', out) := ReleaseKey(s, code);
      && s'.modifiers == s.modifiers - {f}
      && KeyCodes(out) == (if f in s.modifiers then [code] else [])
      && (forall r | r in out :: r.id == KEY_RELEASED)
  {
  }

  /** One release per held modifier key. */
  lemma OneReleasePerKey(s: State)
    ensures var out := ReleaseKeys(s, ALL_KEYS).1;
      KeyCodes(out) == ReleaseCodes(s.modifiers) && forall r | r in out :: r.id == KEY_RELEASED
  {
    ReleaseKeysUnrolled(s);
    var (s1, o1) := ReleaseKey(s, VK_SHIFT);
    var (s2, o2) := ReleaseKey(s1, VK_CONTROL);
    var (s3, o3) := ReleaseKey(s2, VK_ALT);
    var (s4, o4) := ReleaseKey(s3, VK_META);
    ReleaseKeyShape(s, VK_SHIFT, Shift);
    ReleaseKeyShape(s1, VK_CONTROL, Ctrl);
    ReleaseKeyShape(s2, VK_ALT, Alt);
    ReleaseKeyShape(s3, VK_META, Meta);
    KeyCodesConcat(o1, o2);
    KeyCodesConcat(o1 + o2, o3);
    KeyCodesConcat(o1 + o2 + o3, o4);
  }

  lemma KeyCodesConcat(a: seq<EventRecord>, b: seq<EventRecord>)
    ensures KeyCodes(a + b) == KeyCodes(a) + KeyCodes(b)
  {
  }

  // ---- Clicks ----

  /** The press a trace leaves open: its latest press, if no release follows. */
  function OpenPress(rs: seq<EventRecord>): Option<Press> {
    if rs == [] then None
    else
      var r := rs[|rs| - 1];
      var button := ButtonFromNumber(r.button);
      if r.id == MOUSE_PRESSED && button.Some? then Some(Press(r.x, r.y, button.value))
      else if r.id == MOUSE_RELEASED then None
      else OpenPress(rs[..|rs| - 1])
  }

  /** The open press is a record of the trace with no press and no release after it. */
  lemma {:induction false} OpenPressIsLatest(rs: seq<EventRecord>) returns (j: nat)
    requires OpenPress(rs).Some?
    ensures j < |rs| && rs[j].id == MOUSE_PRESSED
    ensures OpenPress(rs) == Some(Press(rs[j].x, rs[j].y, OpenPress(rs).value.button))
    ensures rs[j].button == OpenPress(rs).value.button.Number()
    ensures forall k | j < k < |rs| ::
      rs[k].id != MOUSE_RELEASED && (rs[k].id == MOUSE_PRESSED ==> ButtonFromNumber(rs[k].button).None?)
  {
    var r := rs[|rs| - 1];
    if r.id == MOUSE_PRESSED && ButtonFromNumber(r.button).Some? {
      j := |rs| - 1;
    } else {
      j := OpenPressIsLatest(rs[..|rs| - 1]);
    }
  }

  lemma {:induction false} OpenPressConcat(a: seq<EventRecord>, b: seq<EventRecord>)
    ensures OpenPress(a + b) ==
      if (exists r | r in b :: r.id == MOUSE_RELEASED || (r.id == MOUSE_PRESSED && ButtonFromNumber(r.button).Some?))
      then OpenPress(b) else OpenPress(a)
  {
    if b == [] {
      assert a + b == a;
    } else {
      OpenPressConcat(a, b[..|b| - 1]);
      assert (a + b)[..|a + b| - 1] == a + b[..|b| - 1];
      assert b == b[..|b| - 1] + [b[|b| - 1]];
    }
  }

  /** A click record at index `i` is accounted for by the records before it. */
  ghost predicate ClickJustified(trace: seq<EventRecord>, i: nat, slop: u32)
    requires i < |trace|
  {
    && 0 < i
    && trace[i - 1].id == MOUSE_RELEASED
    && trace[i - 1].button == trace[i].button
    && trace[i - 1].x == trace[i].x && trace[i - 1].y == trace[i].y
    && OpenPress(trace[..i - 1]).Some?
    && OpenPress(trace[..i - 1]).value.button.Number() == trace[i].button
    && Travelled(OpenPress(trace[..i - 1]).value, trace[i].x, trace[i].y) <= slop
  }

  ghost predicate ClicksJustified(trace: seq<EventRecord>, slop: u32) {
    forall i: nat | i < |trace| && trace[i].id == MOUSE_CLICKED :: ClickJustified(trace, i, slop)
  }

  /** How a step's output relates to clicks: none, or one right after its release. */
  ghost predicate StepClicks(s: State, out: seq<EventRecord>) {
    forall i: nat | i < |out| && out[i].id == MOUSE_CLICKED ::
      && i == 1 && out[0].id == MOUSE_RELEASED && out[0].button == out[1].button
      && out[0].x == out[1].x && out[0].y == out[1].y
      && s.pressOrigin.Some? && s.pressOrigin.value.button.Number() == out[1].button
      && Travelled(s.pressOrigin.value, out[1].x, out[1].y) <= s.clickSlop
  }

  /** What a step does to the open press, seen from its output alone. */
  ghost predicate StepPress(s: State, s': State, out: seq<EventRecord>) {
    && s'.clickSlop == s.clickSlop
    && s'.pressOrigin ==
       if (exists r | r in out :: r.id == MOUSE_RELEASED || (r.id == MOUSE_PRESSED && ButtonFromNumber(r.button).Some?))
       then OpenPress(out) else s.pressOrigin
  }

  lemma {:induction false} OpenPressOfReleases(rs: seq<EventRecord>)
    requires forall r | r in rs :: r.id == MOUSE_RELEASED || r.id == KEY_RELEASED || r.id == FOCUS_LOST
    ensures OpenPress(rs) == None
  {
    if rs != [] { OpenPressOfReleases(rs[..|rs| - 1]); }
  }

  lemma ReleaseAllPress(s: State)
    requires Sane(s)
    ensures var (s', out) := ReleaseAll(s);
      && StepPress(s, s', out)
      && (forall r | r in out :: r.id == MOUSE_RELEASED || r.id == KEY_RELEASED)
  {
    ReleaseButtonsFaithful(s, ALL_BUTTONS);
    var (s1, mouse) := ReleaseButtons(s, ALL_BUTTONS);
    var (s2, keys) := ReleaseKeys(s1, ALL_KEYS);
    OneReleasePerButton(s);
    OneReleasePerKey(s1);
    ReleasesKeepSlop(s);
    OpenPressOfReleases(mouse + keys);
    if s.pressOrigin.Some? {
      assert |ReleaseNumbers(s.buttons)| > 0 by {
        match s.pressOrigin.value.button case Left => case Middle => case Right =>
      }
      assert |ButtonNumbers(mouse)| == |mouse|;
      assert mouse[0] in mouse + keys;
    }
  }

  lemma ReleasesKeepSlop(s: State)
    ensures ReleaseAll(s).0.clickSlop == s.clickSlop
  {
    ReleaseButtonsUnrolled(s);
    ReleaseKeysUnrolled(ReleaseButtons(s, ALL_BUTTONS).0);
  }

  lemma TranslatePress(s: State, e: Event)
    requires Sane(s)
    ensures var (s', out) := Translate(s, e); StepPress(s, s', out) && StepClicks(s, out)
  {
    var (s', out) := Translate(s, e);
    match e
    case PointerDown(x, y, b) => assert out[0] in out;
    case PointerUp(x, y, b) =>
      assert out[0] in out;
      assert out[..1][..0] == [];
    case Focus(gained) =>
      if gained {
        assert out == [out[0]];
      } else {
        ReleaseAllPress(s);
        var (s1, released) := ReleaseAll(s);
        OpenPressOfReleases(released);
        OpenPressOfReleases(out);
        assert forall r | r in released :: r in out;
      }
    case _ => assert out == [out[0]];
  }

  lemma StepPresses(s: State, i: Input)
    requires Sane(s)
    ensures var (s', out) := Step(s, i); StepPress(s, s', out) && StepClicks(s, out)
  {
    match i
    case Translated(e) => TranslatePress(s, e);
    case Typed(text) =>
    case ReleasedAll => ReleaseAllPress(s);
    case FromSurface(v, x, y, phase, button) =>
      var mapped :=
        if s.buttons != {} || phase == Up then Some(v.MapPointerClamped(x, y)) else v.MapPointer(x, y);
      if mapped.Some? {
        TranslatePress(s, match phase
          case Down => PointerDown(mapped.value.0, mapped.value.1, button)
          case Move => PointerMove(mapped.value.0, mapped.value.1)
          case Up => PointerUp(mapped.value.0, mapped.value.1, button));
      }
  }

  lemma ClicksAppend(trace: seq<EventRecord>, s: State, out: seq<EventRecord>)
    requires ClicksJustified(trace, s.clickSlop) && OpenPress(trace) == s.pressOrigin && StepClicks(s, out)
    ensures ClicksJustified(trace + out, s.clickSlop)
  {
    var all := trace + out;
    forall i: nat | i < |all| && all[i].id == MOUSE_CLICKED ensures ClickJustified(all, i, s.clickSlop) {
      if i < |trace| {
        assert ClickJustified(trace, i, s.clickSlop);
        assert all[..i - 1] == trace[..i - 1];
      } else {
        assert out[i - |trace|].id == MOUSE_CLICKED;
        assert all[..i - 1] == trace;
      }
    }
  }

  /**
    Over every run, each MOUSE_CLICKED directly follows the MOUSE_RELEASED of the same button at the
    same position, and the latest press, not yet released, was of that button and within the slop.
    The translator's remembered press is exactly that open press of the trace.
    */
  lemma {:induction false} EveryClickIsJustified(slop: u32, inputs: seq<Input>)
    ensures var (s, trace) := Run(Fresh(slop), inputs);
      ClicksJustified(trace, slop) && s.pressOrigin == OpenPress(trace) && s.clickSlop == slop
  {
    if inputs != [] {
      var init := inputs[..|inputs| - 1];
      EveryClickIsJustified(slop, init);
      TraceDeterminesState(slop, init);
      var (s1, out) := Run(Fresh(slop), init);
      StepPresses(s1, inputs[|inputs| - 1]);
      var (s2, last) := Step(s1, inputs[|inputs| - 1]);
      ClicksAppend(out, s1, last);
      OpenPressConcat(out, last);
    }
  }

  /** For desktop coordinates below 2^31 the distance is the true one, on both axes. */
  lemma TravelledIsDistance(p: Press, x: i32, y: i32, slop: u32)
    requires 0 <= p.x && 0 <= p.y && 0 <= x && 0 <= y
    ensures Travelled(p, x, y) <= slop <==> p.x - x <= slop && x - p.x <= slop && p.y - y <= slop && y - p.y <= slop
  {
  }

  /** A button release clicks exactly when the trace's open press is of that button and near. */
  lemma ReleaseClicksExactly(slop: u32, inputs: seq<Input>, x: u32, y: u32, b: Button)
    ensures var (s, trace) := Run(Fresh(slop), inputs);
      |Translate(s, PointerUp(x, y, b)).1| == 2 <==>
        && OpenPress(trace).Some? && OpenPress(trace).value.button == b
        && Travelled(OpenPress(trace).value, AsI32(x), AsI32(y)) <= slop
  {
    EveryClickIsJustified(slop, inputs);
  }

  /** Clicks never exceed presses, button by button. */
  ghost predicate ClicksPaidFor(trace: seq<EventRecord>, b: Button) {
    Count(trace, MOUSE_CLICKED, b.Number(), 0)
    + (if OpenPress(trace).Some? && OpenPress(trace).value.button == b then 1 else 0)
    <= Count(trace, MOUSE_PRESSED, b.Number(), 0)
  }

  lemma PrefixJustified(trace: seq<EventRecord>, slop: u32, n: nat)
    requires ClicksJustified(trace, slop) && n <= |trace|
    ensures ClicksJustified(trace[..n], slop)
  {
    var front := trace[..n];
    forall i: nat | i < |front| && front[i].id == MOUSE_CLICKED ensures ClickJustified(front, i, slop) {
      assert ClickJustified(trace, i, slop);
      assert front[..i - 1] == trace[..i - 1];
    }
  }

  /** Reading a trace record by record: a justified click spends the press its release closed. */
  lemma {:induction false} JustifiedClicksArePaidFor(trace: seq<EventRecord>, slop: u32, b: Button)
    requires ClicksJustified(trace, slop) && MouseHasNoKey(trace)
    ensures ClicksPaidFor(trace, b)
    decreases |trace|
  {
    if trace != [] {
      var n := |trace| - 1;
      var front := trace[..n];
      PrefixJustified(trace, slop, n);
      JustifiedClicksArePaidFor(front, slop, b);
      if trace[n].id == MOUSE_CLICKED {
        assert ClickJustified(trace, n, slop);
        var before := trace[..n - 1];
        assert front[..n - 1] == before;
        PrefixJustified(trace, slop, n - 1);
        JustifiedClicksArePaidFor(before, slop, b);
      }
    }
  }

  ghost predicate MouseHasNoKey(rs: seq<EventRecord>) {
    forall r | r in rs :: r.id == MOUSE_PRESSED || r.id == MOUSE_CLICKED || r.id == MOUSE_RELEASED ==> r.keyCode == 0
  }

  lemma ReleaseAllNoKey(s: State)
    ensures MouseHasNoKey(ReleaseAll(s).1)
  {
    OneReleasePerButton(s);
    OneReleasePerKey(ReleaseButtons(s, ALL_BUTTONS).0);
  }

  lemma {:induction false} MouseRecordsHaveNoKey(s: State, inputs: seq<Input>)
    ensures MouseHasNoKey(Run(s, inputs).1)
  {
    if inputs != [] {
      MouseRecordsHaveNoKey(s, inputs[..|inputs| - 1]);
      ReleaseAllNoKey(Run(s, inputs[..|inputs| - 1]).0);
    }
  }

  lemma ClicksNeverExceedPresses(slop: u32, inputs: seq<Input>, b: Button)
    ensures var trace := Run(Fresh(slop), inputs).1;
      Count(trace, MOUSE_CLICKED, b.Number(), 0) <= Count(trace, MOUSE_PRESSED, b.Number(), 0)
  {
    EveryClickIsJustified(slop, inputs);
    MouseRecordsHaveNoKey(Fresh(slop), inputs);
    JustifiedClicksArePaidFor(Run(Fresh(slop), inputs).1, slop, b);
  }

  /** A move is a drag exactly when the trace so far leaves some button held. */
  lemma MoveIsDragWhenHeld(slop: u32, inputs: seq<Input>, x: u32, y: u32)
    ensures var (s, trace) := Run(Fresh(slop), inputs);
      var out := Translate(s, PointerMove(x, y)).1;
      && |out| == 1
      && out[0].id == (if ObserveAll({}, trace) * BUTTON_FLAGS != {} then MOUSE_DRAGGED else MOUSE_MOVED)
      && out[0].x == AsI32(x) && out[0].y == AsI32(y)
  {
    TraceDeterminesState(slop, inputs);
    var s := Run(Fresh(slop), inputs).0;
    assert s.Held() * BUTTON_FLAGS == s.buttons;
  }

  // ---- The translator itself ----

  class AwtInputTranslator {
    var modifiers: Mask
    var buttons: Mask
    var pointerX: i32
    var pointerY: i32
    var pressOrigin: Option<Press>
    var clickSlop: u32

    function Value(): State
      reads this
    {
      State(modifiers, buttons, pointerX, pointerY, pressOrigin, clickSlop)
    }

    constructor (slop: u32)
      ensures Value() == Fresh(slop)
    {
      modifiers, buttons, pointerX, pointerY, pressOrigin, clickSlop := {}, {}, 0, 0, None, slop;
    }

    method Emit(id: i32, button: i32, wheel: i32) returns (r: EventRecord)
      ensures r == MouseRecord(Value(), id, button, wheel)
    {
      r := MouseRecord(Value(), id, button, wheel);
    }

    method MoveTo(x: u32, y: u32)
      modifies this`pointerX, this`pointerY
      ensures Value() == old(Value()).At(x, y)
    {
      pointerX, pointerY := AsI32(x), AsI32(y);
    }

    method ReleaseHeldButtons() returns (out: seq<EventRecord>)
      modifies this`buttons
      ensures (Value(), out) == ReleaseButtons(old(Value()), ALL_BUTTONS)
    {
      out := [];
      for i := 0 to |ALL_BUTTONS|
        invariant (Value(), out) == ReleaseButtons(old(Value()), ALL_BUTTONS[..i])
      {
        assert ALL_BUTTONS[..i + 1][..i] == ALL_BUTTONS[..i];
        var b := ALL_BUTTONS[i];
        if b.Bit() in buttons {
          buttons := buttons - {b.Bit()};
          var r := Emit(MOUSE_RELEASED, b.Number(), 0);
          out := out + [r];
        } else {
          assert out + [] == out;
        }
      }
      assert ALL_BUTTONS[..|ALL_BUTTONS|] == ALL_BUTTONS;
    }

    method ReleaseHeldKeys() returns (out: seq<EventRecord>)
      modifies this`modifiers
      ensures (Value(), out) == ReleaseKeys(old(Value()), ALL_KEYS)
    {
      out := [];
      for i := 0 to |ALL_KEYS|
        invariant (Value(), out) == ReleaseKeys(old(Value()), ALL_KEYS[..i])
      {
        assert ALL_KEYS[..i + 1][..i] == ALL_KEYS[..i];
        var code := ALL_KEYS[i];
        if !(KeyBit(code) !! modifiers) {
          modifiers := modifiers - KeyBit(code);
          out := out + [KeyRecord(Value(), KEY_RELEASED, code, CHAR_UNDEFINED)];
        } else {
          assert out + [] == out;
        }
      }
      assert ALL_KEYS[..|ALL_KEYS|] == ALL_KEYS;
    }

    method ReleaseEverything() returns (out: seq<EventRecord>)
      modifies this
      ensures (Value(), out) == ReleaseAll(old(Value()))
    {
      out := ReleaseHeldButtons();
      var keys := ReleaseHeldKeys();
      pressOrigin := None;
      out := out + keys;
    }

    method TranslateEvent(e: Event) returns (out: seq<EventRecord>)
      modifies this
      ensures (Value(), out) == Translate(old(Value()), e)
    {
      match e
      case PointerMove(x, y) =>
        MoveTo(x, y);
        var r := Emit(if buttons != {} then MOUSE_DRAGGED else MOUSE_MOVED, 0, 0);
        out := [r];
      case PointerDown(x, y, button) =>
        MoveTo(x, y);
        buttons := buttons + {button.Bit()};
        pressOrigin := Some(Press(AsI32(x), AsI32(y), button));
        var r := Emit(MOUSE_PRESSED, button.Number(), 0);
        out := [r];
      case PointerUp(x, y, button) =>
        MoveTo(x, y);
        buttons := buttons - {button.Bit()};
        var origin := pressOrigin;
        pressOrigin := None;
        var r := Emit(MOUSE_RELEASED, button.Number(), 0);
        out := [r];
        if origin.Some? && origin.value.button == button && Travelled(origin.value, AsI32(x), AsI32(y)) <= clickSlop {
          r := Emit(MOUSE_CLICKED, button.Number(), 0);
          out := out + [r];
        } else {
          assert out + [] == out;
        }
      case Scroll(x, y, ticks) =>
        MoveTo(x, y);
        var r := Emit(MOUSE_WHEEL, 0, ticks);
        out := [r];
      case KeyDown(code) =>
        modifiers := modifiers + KeyBit(code);
        out := [KeyRecord(Value(), KEY_PRESSED, code, CHAR_UNDEFINED)];
      case KeyUp(code) =>
        modifiers := modifiers - KeyBit(code);
        out := [KeyRecord(Value(), KEY_RELEASED, code, CHAR_UNDEFINED)];
      case Text(ch) => out := [KeyRecord(Value(), KEY_TYPED, 0, ch as int)];
      case Focus(gained) =>
        out := [];
        if !gained {
          out := ReleaseEverything();
        }
        var r := OtherRecord(Value(), if gained then FOCUS_GAINED else FOCUS_LOST, 0, 0);
        assert [] + [r] == [r];
        out := out + [r];
      case Resize(w, h) => out := [OtherRecord(Value(), COMPONENT_RESIZED, AsI32(w), AsI32(h))];
    }

    method TypeText(text: string) returns (out: seq<EventRecord>)
      ensures out == TypeStr(Value(), text)
    {
      out := [];
      for i := 0 to |text|
        invariant out == TypeStr(Value(), text)[..i]
      {
        out := out + [KeyRecord(Value(), KEY_TYPED, 0, text[i] as int)];
      }
    }

    /** While a button is held the pointer is clamped; otherwise a miss is no event at all. */
    method PointerFrom(v: Viewports.Viewport, x: Viewports.Coord, y: Viewports.Coord, phase: Phase, button: Button)
      returns (out: seq<EventRecord>)
      modifies this
      ensures (Value(), out) == PointerFromSurface(old(Value()), v, x, y, phase, button)
    {
      var dragging := buttons != {} || phase == Up;
      var mapped := if dragging then Some(v.MapPointerClamped(x, y)) else v.MapPointer(x, y);
      if mapped.None? {
        return [];
      }
      var (px, py) := mapped.value;
      match phase
      case Down => out := TranslateEvent(PointerDown(px, py, button));
      case Move => out := TranslateEvent(PointerMove(px, py));
      case Up => out := TranslateEvent(PointerUp(px, py, button));
    }

    method Reset()
      modifies this
      ensures Value() == Fresh(old(clickSlop))
    {
      modifiers, buttons, pointerX, pointerY, pressOrigin := {}, {}, 0, 0, None;
    }
  }
}
