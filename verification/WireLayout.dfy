/**
  Where each field lies in the two wire formats (`launch/awt.rs`), byte for byte, as the reader on the
  other side of the pipe sees it.
  */
module WireLayout {
  import opened Words
  import opened Wrappers
  import opened Geometry
  import opened LittleEndian
  import opened AwtFrames
  import FrameCodec
  import EventCodec

  /** The byte at a place, as a number. */
  function At(b: seq<u8>, i: nat): int
    requires i < |b|
  {
    b[i]
  }

  /** The bytes at `at` are the 32-bit word `v`, least significant first. */
  ghost predicate Word(b: seq<u8>, at: nat, v: int) {
    at + 4 <= |b| && v == At(b, at) + 0x100 * At(b, at + 1) + 0x1_0000 * At(b, at + 2) + 0x100_0000 * At(b, at + 3)
  }

  ghost predicate HalfWord(b: seq<u8>, at: nat, v: int) {
    at + 2 <= |b| && v == At(b, at) + 0x100 * At(b, at + 1)
  }

  /** The same for a signed word: two's complement. */
  ghost predicate SignedWord(b: seq<u8>, at: nat, v: int) {
    Word(b, at, if v < 0 then v + 0x1_0000_0000 else v)
  }

  // ---- frames ----

  lemma SplitWord(b: seq<u8>, at: nat, v: u32)
    requires at + 4 <= |b|
    requires b[at] == ByteOf(v, 0) && b[at + 1] == ByteOf(v, 1) && b[at + 2] == ByteOf(v, 2) && b[at + 3] == ByteOf(v, 3)
    ensures Word(b, at, v)
  {
    SplitJoin32(v);
  }

  lemma EncodedHasFields(f: AwtFrame)
    requires f.Valid()
    ensures FrameCodec.HasFields(f, FrameCodec.Encoded(f))
  {
    var b := FrameCodec.Encoded(f);
    FrameCodec.ValidFitsWire(f);
    forall i | 0 <= i < 28 ensures b[i] == FrameCodec.HeaderByte(f, i) {}
    assert FrameCodec.HasHeader(f, b);
    FrameCodec.HeaderFields(f, b);
  }

  /** The fixed words: magic, version, format code, sequence number and payload length. */
  lemma FrameWords(f: AwtFrame)
    requires f.Valid()
    ensures var b := FrameCodec.Encoded(f);
      && |b| == 32 + 4 * |f.pixels|
      && Word(b, 0, 0x5243_4146) && HalfWord(b, 4, 1)
      && HalfWord(b, 6, match f.format case IntArgb => 0 case IntRgb => 1)
      && Word(b, 8, f.seqNo) && Word(b, 24, 4 * |f.pixels|)
  {
    EncodedHasFields(f);
  }

  /** The flags word says whether the whole desktop is painted. */
  lemma FrameFlags(f: AwtFrame)
    ensures Word(FrameCodec.Encoded(f), 28, if f.damage == Rect(0, 0, f.width, f.height) then 1 else 0)
  {
    var b := FrameCodec.Encoded(f);
    forall i | 28 <= i < 32 ensures b[i] == FrameCodec.HeaderByte(f, i) {}
    SplitWord(b, 28, if f.IsFull() then 1 else 0);
  }

  /** The sizes and the damaged rectangle, as 16-bit words. */
  lemma FrameSizes(f: AwtFrame)
    requires f.Valid()
    ensures var b := FrameCodec.Encoded(f);
      && HalfWord(b, 12, f.width) && HalfWord(b, 14, f.height)
      && HalfWord(b, 16, f.damage.x) && HalfWord(b, 18, f.damage.y)
      && HalfWord(b, 20, f.damage.width) && HalfWord(b, 22, f.damage.height)
  {
    EncodedHasFields(f);
  }

  lemma WordAt(ws: seq<u32>, i: nat)
    requires i < |ws|
    ensures Word(WordsToBytes(ws), 4 * i, ws[i])
  {
    WordByte(ws, i, 0);
    WordByte(ws, i, 1);
    WordByte(ws, i, 2);
    WordByte(ws, i, 3);
    SplitWord(WordsToBytes(ws), 4 * i, ws[i]);
  }

  lemma WordBehind(front: seq<u8>, b: seq<u8>, at: nat, v: u32)
    requires Word(b, at, v)
    ensures Word(front + b, |front| + at, v)
  {
  }

  /** The pixels follow the header, one word each, in order. */
  lemma FramePayload(f: AwtFrame, i: nat)
    requires i < |f.pixels|
    ensures Word(FrameCodec.Encoded(f), 32 + 4 * i, f.pixels[i])
  {
    WordAt(f.pixels, i);
    WordBehind(FrameCodec.Header(f), WordsToBytes(f.pixels), 4 * i, f.pixels[i]);
  }

  // ---- events ----

  /** A record is eight words: id, x, y, button, key code, character, modifiers and wheel. */
  lemma RecordLayout(r: EventCodec.EventRecord)
    ensures var b := EventCodec.EncodedRecord(r);
      && |b| == 32
      && SignedWord(b, 0, r.id) && SignedWord(b, 4, r.x) && SignedWord(b, 8, r.y) && SignedWord(b, 12, r.button)
      && SignedWord(b, 16, r.keyCode) && Word(b, 20, r.keyChar) && SignedWord(b, 24, r.modifiers) && SignedWord(b, 28, r.wheel)
  {
    WordAt(EventCodec.Fields(r), 0);
    WordAt(EventCodec.Fields(r), 1);
    WordAt(EventCodec.Fields(r), 2);
    WordAt(EventCodec.Fields(r), 3);
    WordAt(EventCodec.Fields(r), 4);
    WordAt(EventCodec.Fields(r), 5);
    WordAt(EventCodec.Fields(r), 6);
    WordAt(EventCodec.Fields(r), 7);
  }

  /** A batch is its records one behind the other. */
  lemma {:induction false} BatchLayout(rs: seq<EventCodec.EventRecord>, i: nat, j: nat)
    requires i < |rs| && j < 32
    ensures EventCodec.EncodedBatch(rs)[32 * i + j] == EventCodec.EncodedRecord(rs[i])[j]
  {
    var n := |rs| - 1;
    assert EventCodec.EncodedBatch(rs) == EventCodec.EncodedBatch(rs[..n]) + EventCodec.EncodedRecord(rs[n]);
    if i < n { BatchLayout(rs[..n], i, j); }
  }

  // ---- what is refused, and why ----

  /** A desktop side is 1 to 8192 pixels. */
  lemma SidesExactly(w: u32, h: u32)
    ensures ValidDims(w, h) <==> 1 <= w <= 8192 && 1 <= h <= 8192
    ensures w == 0 || h == 0 ==> ValidateDims(w, h) == Some(InvalidSize)
    ensures w > 0 && h > 0 && (w > 8192 || h > 8192) ==> ValidateDims(w, h) == Some(SizeOverLimit)
  {
  }

  /** A frame is built as asked for, or refused for the first of these that holds: size, damage, payload. */
  lemma FrameIsBuilt(seqNo: u32, w: u32, h: u32, damage: Rect, pixels: seq<u32>)
    ensures var r := Partial(seqNo, w, h, damage, pixels);
      var empty := damage.width == 0 || damage.height == 0;
      var inside := damage.x + damage.width <= w && damage.y + damage.height <= h;
      var sized := 1 <= w <= 8192 && 1 <= h <= 8192;
      && (!sized ==> r == Failure(if w == 0 || h == 0 then InvalidSize else SizeOverLimit))
      && (sized && empty ==> r == Failure(EmptyDamage))
      && (sized && !empty && !inside ==> r == Failure(DamageOutside))
      && (sized && !empty && inside && |pixels| != damage.width * damage.height ==> r == Failure(PayloadMismatch))
      && (sized && !empty && inside && |pixels| == damage.width * damage.height ==>
            r == Success(AwtFrame(seqNo, w, h, IntArgb, damage, pixels)))
  {
    SidesExactly(w, h);
  }

  /** A word read at a place is the number its bytes write. */
  lemma ReadsWord(b: seq<u8>, at: nat, v: u32)
    requires at + 4 <= |b|
    ensures Word(b, at, v) <==> U32At(b, at) == v
  {
  }

  lemma ReadsHalf(b: seq<u8>, at: nat, v: u16)
    requires at + 2 <= |b|
    ensures HalfWord(b, at, v) <==> U16At(b, at) == v
  {
  }

  /** A buffer is refused for the first of these: too short, another magic, another version, an unknown format. */
  lemma HeaderIsChecked(b: seq<u8>)
    ensures |b| < 32 ==> FrameCodec.Decoded(b) == Failure(Truncated)
    ensures |b| >= 32 && !Word(b, 0, 0x5243_4146) ==> FrameCodec.Decoded(b) == Failure(BadMagic)
    ensures Word(b, 0, 0x5243_4146) && |b| >= 32 && !HalfWord(b, 4, 1) ==> FrameCodec.Decoded(b) == Failure(BadVersion)
    ensures Word(b, 0, 0x5243_4146) && |b| >= 32 && HalfWord(b, 4, 1) && !HalfWord(b, 6, 0) && !HalfWord(b, 6, 1) ==>
      FrameCodec.Decoded(b) == Failure(BadFormat)
  {
    if |b| >= 32 {
      ReadsWord(b, 0, 0x5243_4146);
      ReadsHalf(b, 4, 1);
      ReadsHalf(b, 6, 0);
      ReadsHalf(b, 6, 1);
    }
  }

  /** A sound header with a payload longer than the rest of the buffer, or not of whole pixels. */
  lemma PayloadIsChecked(b: seq<u8>, payload: u32)
    requires |b| >= 32 && Word(b, 0, 0x5243_4146) && HalfWord(b, 4, 1) && (HalfWord(b, 6, 0) || HalfWord(b, 6, 1))
    requires Word(b, 24, payload)
    ensures payload > |b| - 32 ==> FrameCodec.Decoded(b) == Failure(PayloadTruncated)
    ensures payload <= |b| - 32 && payload % 4 != 0 ==> FrameCodec.Decoded(b) == Failure(PayloadUnaligned)
  {
    ReadsWord(b, 0, 0x5243_4146);
    ReadsHalf(b, 4, 1);
    ReadsHalf(b, 6, U16At(b, 6));
    ReadsWord(b, 24, payload);
  }

  /** A record of fewer than 32 bytes and a batch that is not whole records are refused. */
  lemma EventsAreChecked(b: seq<u8>)
    ensures |b| < 32 <==> EventCodec.DecodedRecord(b) == Failure(EventCodec.RecordTruncated)
    ensures |b| % 32 != 0 <==> EventCodec.DecodedBatch(b) == Failure(EventCodec.BatchUnaligned)
  {
  }
}
