/** The wire format of `AwtFrame`: a 32-byte header and the payload. */
module FrameCodec {
  import opened Words
  import opened Wrappers
  import opened Geometry
  import opened AwtFrames
  import opened LittleEndian

  const FRAME_MAGIC: u32 := 0x5243_4146
  const FRAME_VERSION: u16 := 1
  const FRAME_HEADER_LEN: nat := 32

  function FormatCode(f: PixelFormat): u16 { if f == IntArgb then 0 else 1 }

  function FormatFromCode(code: u16): Option<PixelFormat> {
    if code == 0 then Some(IntArgb) else if code == 1 then Some(IntRgb) else None
  }

  /** Byte `i` of the header; the 32-bit dimensions are truncated to 16 bits as the wire demands. */
  function HeaderByte(f: AwtFrame, i: nat): u8
    requires i < FRAME_HEADER_LEN
  {
    if i < 4 then ByteOf(FRAME_MAGIC, i)
    else if i < 6 then ByteOf(FRAME_VERSION, i - 4)
    else if i < 8 then ByteOf(FormatCode(f.format), i - 6)
    else if i < 12 then ByteOf(f.seqNo, i - 8)
    else if i < 14 then ByteOf(LowU16(f.width), i - 12)
    else if i < 16 then ByteOf(LowU16(f.height), i - 14)
    else if i < 18 then ByteOf(LowU16(f.damage.x), i - 16)
    else if i < 20 then ByteOf(LowU16(f.damage.y), i - 18)
    else if i < 22 then ByteOf(LowU16(f.damage.width), i - 20)
    else if i < 24 then ByteOf(LowU16(f.damage.height), i - 22)
    else if i < 28 then ByteOf((|f.pixels| * 4) % 0x1_0000_0000, i - 24)
    else ByteOf(if f.IsFull() then 1 else 0, i - 28)
  }

  function HeaderPrefix(f: AwtFrame, n: nat): (h: seq<u8>)
    requires n <= FRAME_HEADER_LEN
    ensures |h| == n
  {
    seq(n, i requires 0 <= i < n => HeaderByte(f, i))
  }

  function Header(f: AwtFrame): seq<u8> { HeaderPrefix(f, FRAME_HEADER_LEN) }

  function Encoded(f: AwtFrame): (b: seq<u8>)
    ensures |b| == FRAME_HEADER_LEN + 4 * |f.pixels|
  {
    Header(f) + WordsToBytes(f.pixels)
  }

  function Decoded(b: seq<u8>): Result<AwtFrame, FrameError> {
    if |b| < FRAME_HEADER_LEN then Failure(Truncated)
    else if U32At(b, 0) != FRAME_MAGIC then Failure(BadMagic)
    else if U16At(b, 4) != FRAME_VERSION then Failure(BadVersion)
    else if FormatFromCode(U16At(b, 6)).None? then Failure(BadFormat)
    else
      var payload := U32At(b, 24);
      if payload > |b| - FRAME_HEADER_LEN then Failure(PayloadTruncated)
      else if payload % 4 != 0 then Failure(PayloadUnaligned)
      else
        var damage := Rect(U16At(b, 16), U16At(b, 18), U16At(b, 20), U16At(b, 22));
        var pixels := BytesToWords(b[FRAME_HEADER_LEN..FRAME_HEADER_LEN + payload]);
        match Partial(U32At(b, 8), U16At(b, 12), U16At(b, 14), damage, pixels)
        case Failure(e) => Failure(e)
        case Success(f) => Success(f.(format := FormatFromCode(U16At(b, 6)).value))
  }

  // ---- The loops ----

  method Encode(f: AwtFrame) returns (out: seq<u8>)
    ensures out == Encoded(f)
  {
    out := [];
    out := out + Le32(FRAME_MAGIC);
    assert out == HeaderPrefix(f, 4);
    out := out + Le16(FRAME_VERSION);
    assert out == HeaderPrefix(f, 6);
    out := out + Le16(FormatCode(f.format));
    assert out == HeaderPrefix(f, 8);
    out := out + Le32(f.seqNo);
    assert out == HeaderPrefix(f, 12);
    out := out + Le16(LowU16(f.width));
    assert out == HeaderPrefix(f, 14);
    out := out + Le16(LowU16(f.height));
    assert out == HeaderPrefix(f, 16);
    out := out + Le16(LowU16(f.damage.x));
    assert out == HeaderPrefix(f, 18);
    out := out + Le16(LowU16(f.damage.y));
    assert out == HeaderPrefix(f, 20);
    out := out + Le16(LowU16(f.damage.width));
    assert out == HeaderPrefix(f, 22);
    out := out + Le16(LowU16(f.damage.height));
    assert out == HeaderPrefix(f, 24);
    out := out + Le32((|f.pixels| * 4) % 0x1_0000_0000);
    assert out == HeaderPrefix(f, 28);
    out := out + Le32(if f.IsFull() then 1 else 0);
    assert out == HeaderPrefix(f, 32);
    out := AppendWords(out, f.pixels);
  }

  method Decode(b: seq<u8>) returns (r: Result<AwtFrame, FrameError>)
    ensures r == Decoded(b)
  {
    if |b| < FRAME_HEADER_LEN { return Failure(Truncated); }
    if U32At(b, 0) != FRAME_MAGIC { return Failure(BadMagic); }
    if U16At(b, 4) != FRAME_VERSION { return Failure(BadVersion); }
    var format := FormatFromCode(U16At(b, 6));
    if format.None? { return Failure(BadFormat); }
    var payload := U32At(b, 24);
    if payload > |b| - FRAME_HEADER_LEN { return Failure(PayloadTruncated); }
    if payload % 4 != 0 { return Failure(PayloadUnaligned); }
    var pixels := ReadWords(b[FRAME_HEADER_LEN..FRAME_HEADER_LEN + payload]);
    var damage := Rect(U16At(b, 16), U16At(b, 18), U16At(b, 20), U16At(b, 22));
    var f := Partial(U32At(b, 8), U16At(b, 12), U16At(b, 14), damage, pixels);
    if f.Failure? { return Failure(f.error); }
    r := Success(f.value.(format := format.value));
  }

  // ---- Round trips ----

  /** Every byte of `enc` opens `b`, except that the flags word (28..32) may hold anything. */
  ghost predicate OpensUpToFlags(enc: seq<u8>, b: seq<u8>) {
    |enc| <= |b| && forall i | 0 <= i < |enc| && !(28 <= i < 32) :: b[i] == enc[i]
  }

  lemma AreaBound(r: Rect, w: u32, h: u32)
    requires ValidDims(w, h) && r.FitsIn(w, h)
    ensures r.x <= MAX_CANVAS_DIM && r.y <= MAX_CANVAS_DIM && r.width <= MAX_CANVAS_DIM && r.height <= MAX_CANVAS_DIM
    ensures r.Area() <= MAX_CANVAS_DIM * MAX_CANVAS_DIM
  {
    MulMono(r.width, MAX_CANVAS_DIM, r.height);
    MulMono(r.height, MAX_CANVAS_DIM, MAX_CANVAS_DIM);
  }

  predicate Has32(b: seq<u8>, o: nat, v: u32)
    requires o + 4 <= |b|
  {
    b[o] == ByteOf(v, 0) && b[o + 1] == ByteOf(v, 1) && b[o + 2] == ByteOf(v, 2) && b[o + 3] == ByteOf(v, 3)
  }

  predicate Has16(b: seq<u8>, o: nat, v: u16)
    requires o + 2 <= |b|
  {
    b[o] == ByteOf(v, 0) && b[o + 1] == ByteOf(v, 1)
  }

  lemma ReadField32(b: seq<u8>, o: nat, v: u32)
    requires o + 4 <= |b|
    ensures U32At(b, o) == v <==> Has32(b, o, v)
  {
    SplitJoin32(v);
    JoinSplit32(b[o], b[o + 1], b[o + 2], b[o + 3]);
  }

  lemma ReadField16(b: seq<u8>, o: nat, v: u16)
    requires o + 2 <= |b|
    ensures U16At(b, o) == v <==> Has16(b, o, v)
  {
    assert v == v % 0x100 + 0x100 * (v / 0x100);
  }

  lemma ReadSize16(b: seq<u8>, o: nat, v: u32)
    requires o + 2 <= |b| && v < 0x1_0000
    ensures U16At(b, o) == v <==> Has16(b, o, LowU16(v))
  {
    ReadField16(b, o, v);
  }

  /** The fields of `f` are what the decoder reads out of `b`. */
  ghost predicate HasFields(f: AwtFrame, b: seq<u8>) {
    |b| >= FRAME_HEADER_LEN && ReadsWords(f, b) && ReadsSizes(f, b) && ReadsDamage(f, b)
  }

  ghost predicate ReadsWords(f: AwtFrame, b: seq<u8>)
    requires |b| >= FRAME_HEADER_LEN
  {
    && U32At(b, 0) == FRAME_MAGIC && U32At(b, 8) == f.seqNo
    && U32At(b, 24) == 4 * |f.pixels|
  }

  ghost predicate ReadsSizes(f: AwtFrame, b: seq<u8>)
    requires |b| >= FRAME_HEADER_LEN
  {
    && U16At(b, 4) == FRAME_VERSION && U16At(b, 6) == FormatCode(f.format)
    && U16At(b, 12) == f.width && U16At(b, 14) == f.height
  }

  ghost predicate ReadsDamage(f: AwtFrame, b: seq<u8>)
    requires |b| >= FRAME_HEADER_LEN
  {
    && U16At(b, 16) == f.damage.x && U16At(b, 18) == f.damage.y
    && U16At(b, 20) == f.damage.width && U16At(b, 22) == f.damage.height
  }

  /** The same three groups as bytes. */
  ghost predicate HoldsWords(f: AwtFrame, b: seq<u8>)
    requires |b| >= FRAME_HEADER_LEN
  {
    Has32(b, 0, FRAME_MAGIC) && Has32(b, 8, f.seqNo) && Has32(b, 24, (|f.pixels| * 4) % 0x1_0000_0000)
  }

  ghost predicate HoldsSizes(f: AwtFrame, b: seq<u8>)
    requires |b| >= FRAME_HEADER_LEN
  {
    && Has16(b, 4, FRAME_VERSION) && Has16(b, 6, FormatCode(f.format))
    && Has16(b, 12, LowU16(f.width)) && Has16(b, 14, LowU16(f.height))
  }

  ghost predicate HoldsDamage(f: AwtFrame, b: seq<u8>)
    requires |b| >= FRAME_HEADER_LEN
  {
    && Has16(b, 16, LowU16(f.damage.x)) && Has16(b, 18, LowU16(f.damage.y))
    && Has16(b, 20, LowU16(f.damage.width)) && Has16(b, 22, LowU16(f.damage.height))
  }

  lemma WordsAgree(f: AwtFrame, b: seq<u8>)
    requires |b| >= FRAME_HEADER_LEN && FitsWire(f)
    ensures HoldsWords(f, b) <==> ReadsWords(f, b)
  {
    ReadField32(b, 0, FRAME_MAGIC);
    ReadField32(b, 8, f.seqNo);
    ReadField32(b, 24, 4 * |f.pixels|);
  }

  lemma SizesAgree(f: AwtFrame, b: seq<u8>)
    requires |b| >= FRAME_HEADER_LEN && FitsWire(f)
    ensures HoldsSizes(f, b) <==> ReadsSizes(f, b)
  {
    ReadField16(b, 4, FRAME_VERSION);
    ReadField16(b, 6, FormatCode(f.format));
    ReadSize16(b, 12, f.width);
    ReadSize16(b, 14, f.height);
  }

  lemma DamageAgrees(f: AwtFrame, b: seq<u8>)
    requires |b| >= FRAME_HEADER_LEN && FitsWire(f)
    ensures HoldsDamage(f, b) <==> ReadsDamage(f, b)
  {
    ReadSize16(b, 16, f.damage.x);
    ReadSize16(b, 18, f.damage.y);
    ReadSize16(b, 20, f.damage.width);
    ReadSize16(b, 22, f.damage.height);
  }

  /** The header of `f` opens `b`, the flags word aside. */
  ghost predicate HasHeader(f: AwtFrame, b: seq<u8>) {
    |b| >= FRAME_HEADER_LEN && forall i | 0 <= i < 28 :: b[i] == HeaderByte(f, i)
  }

  lemma HeaderByFields(f: AwtFrame, b: seq<u8>)
    ensures HasHeader(f, b) <==>
      |b| >= FRAME_HEADER_LEN && HoldsWords(f, b) && HoldsSizes(f, b) && HoldsDamage(f, b)
  {
    if |b| >= FRAME_HEADER_LEN && HoldsWords(f, b) && HoldsSizes(f, b) && HoldsDamage(f, b) {
      forall i | 0 <= i < 28 ensures b[i] == HeaderByte(f, i) {}
    }
  }

  /** Nothing a valid frame holds is truncated on the wire. */
  ghost predicate FitsWire(f: AwtFrame) {
    && f.width < 0x1_0000 && f.height < 0x1_0000
    && f.damage.x < 0x1_0000 && f.damage.y < 0x1_0000 && f.damage.width < 0x1_0000 && f.damage.height < 0x1_0000
    && 4 * |f.pixels| < 0x1_0000_0000
  }

  lemma ValidFitsWire(f: AwtFrame)
    requires f.Valid()
    ensures FitsWire(f)
  {
    AreaBound(f.damage, f.width, f.height);
  }

  /** The header bytes of a frame and the fields read from them determine each other. */
  lemma HeaderFields(f: AwtFrame, b: seq<u8>)
    requires FitsWire(f)
    ensures HasHeader(f, b) <==> HasFields(f, b)
  {
    HeaderByFields(f, b);
    if |b| >= FRAME_HEADER_LEN {
      WordsAgree(f, b);
      SizesAgree(f, b);
      DamageAgrees(f, b);
    }
  }

  /** The payload read back from a buffer that opens with an encoded frame. */
  lemma PayloadOfEncoded(f: AwtFrame, b: seq<u8>)
    requires OpensUpToFlags(Encoded(f), b)
    ensures b[FRAME_HEADER_LEN..FRAME_HEADER_LEN + 4 * |f.pixels|] == WordsToBytes(f.pixels)
    ensures HasHeader(f, b)
  {
    forall i | 0 <= i < 28 ensures b[i] == HeaderByte(f, i) {
      assert Encoded(f)[i] == Header(f)[i];
    }
    forall i | 0 <= i < 4 * |f.pixels| ensures b[FRAME_HEADER_LEN + i] == WordsToBytes(f.pixels)[i] {
      assert Encoded(f)[FRAME_HEADER_LEN + i] == WordsToBytes(f.pixels)[i];
    }
  }

  /** Whatever opens with an encoded frame, up to the flags word, decodes to that frame. */
  lemma DecodeOfEncoded(f: AwtFrame, b: seq<u8>)
    requires f.Valid() && OpensUpToFlags(Encoded(f), b)
    ensures Decoded(b) == Success(f)
  {
    PayloadOfEncoded(f, b);
    ValidFitsWire(f);
    HeaderFields(f, b);
    WordsRoundTrip(f.pixels);
  }

  lemma OpensFromParts(f: AwtFrame, b: seq<u8>)
    requires HasHeader(f, b) && FRAME_HEADER_LEN + 4 * |f.pixels| <= |b|
    requires b[FRAME_HEADER_LEN..FRAME_HEADER_LEN + 4 * |f.pixels|] == WordsToBytes(f.pixels)
    ensures OpensUpToFlags(Encoded(f), b)
  {
    forall i | 0 <= i < |Encoded(f)| && !(28 <= i < 32) ensures b[i] == Encoded(f)[i] {
      if i < 28 {
        assert Encoded(f)[i] == HeaderByte(f, i);
      } else {
        assert b[FRAME_HEADER_LEN..FRAME_HEADER_LEN + 4 * |f.pixels|][i - FRAME_HEADER_LEN] == b[i];
      }
    }
  }

  /** What an accepted buffer says about the frame it decodes to. */
  lemma DecodedParts(b: seq<u8>, f: AwtFrame)
    requires Decoded(b) == Success(f)
    ensures f.Valid() && HasFields(f, b) && FRAME_HEADER_LEN + 4 * |f.pixels| <= |b|
    ensures f.pixels == BytesToWords(b[FRAME_HEADER_LEN..FRAME_HEADER_LEN + 4 * |f.pixels|])
  {
  }

  /** Whatever decodes is the opening of the buffer, byte for byte outside the flags word. */
  lemma EncodedOfDecode(b: seq<u8>, f: AwtFrame)
    requires Decoded(b) == Success(f)
    ensures f.Valid() && OpensUpToFlags(Encoded(f), b)
  {
    DecodedParts(b, f);
    BytesRoundTrip(b[FRAME_HEADER_LEN..FRAME_HEADER_LEN + 4 * |f.pixels|]);
    ValidFitsWire(f);
    HeaderFields(f, b);
    OpensFromParts(f, b);
  }

  /** The codec is self-delimiting: trailing bytes are ignored. */
  lemma FrameRoundTrip(f: AwtFrame, trailing: seq<u8>)
    requires f.Valid()
    ensures Decoded(Encoded(f) + trailing) == Success(f)
  {
    DecodeOfEncoded(f, Encoded(f) + trailing);
  }

  /** Exactly the buffers that open with some valid frame's encoding are accepted. */
  lemma AcceptedExactly(b: seq<u8>)
    ensures Decoded(b).Success? <==> exists f: AwtFrame :: f.Valid() && OpensUpToFlags(Encoded(f), b)
  {
    if Decoded(b).Success? {
      EncodedOfDecode(b, Decoded(b).value);
    }
    if f: AwtFrame :| f.Valid() && OpensUpToFlags(Encoded(f), b) {
      DecodeOfEncoded(f, b);
    }
  }

  /** No encoding opens another: a stream of frames splits in one way only. */
  lemma EncodingIsPrefixFree(f: AwtFrame, s: seq<u8>, g: AwtFrame, t: seq<u8>)
    requires f.Valid() && g.Valid() && Encoded(f) + s == Encoded(g) + t
    ensures f == g && s == t
  {
    FrameRoundTrip(f, s);
    FrameRoundTrip(g, t);
    assert s == (Encoded(f) + s)[|Encoded(f)|..] && t == (Encoded(g) + t)[|Encoded(g)|..];
  }
}
