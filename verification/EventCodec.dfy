/** The 32-byte records that carry input events to the JVM side. */
module EventCodec {
  import opened Words
  import opened Wrappers
  import opened LittleEndian

  const EVENT_RECORD_LEN: nat := 32

  datatype EventRecord = EventRecord(
    id: i32, x: i32, y: i32, button: i32, keyCode: i32, keyChar: u32, modifiers: i32, wheel: i32)

  datatype RecordError = RecordTruncated | BatchUnaligned

  /** The eight 32-bit words of a record, in field order. */
  function Fields(r: EventRecord): (ws: seq<u32>)
    ensures |ws| == 8
  {
    [AsU32(r.id), AsU32(r.x), AsU32(r.y), AsU32(r.button), AsU32(r.keyCode), r.keyChar, AsU32(r.modifiers), AsU32(r.wheel)]
  }

  function FromFields(ws: seq<u32>): EventRecord
    requires |ws| == 8
  {
    EventRecord(AsI32(ws[0]), AsI32(ws[1]), AsI32(ws[2]), AsI32(ws[3]), AsI32(ws[4]), ws[5], AsI32(ws[6]), AsI32(ws[7]))
  }

  function EncodedRecord(r: EventRecord): (b: seq<u8>)
    ensures |b| == EVENT_RECORD_LEN
  {
    WordsToBytes(Fields(r))
  }

  function DecodedRecord(b: seq<u8>): Result<EventRecord, RecordError> {
    if |b| < EVENT_RECORD_LEN then Failure(RecordTruncated)
    else Success(Record(b[..EVENT_RECORD_LEN]))
  }

  function Record(b: seq<u8>): EventRecord
    requires |b| == EVENT_RECORD_LEN
  {
    FromFields(BytesToWords(b))
  }

  function EncodedBatch(rs: seq<EventRecord>): (b: seq<u8>)
    ensures |b| == 32 * |rs|
  {
    if rs == [] then [] else EncodedBatch(rs[..|rs| - 1]) + EncodedRecord(rs[|rs| - 1])
  }

  function DecodedBatch(b: seq<u8>): Result<seq<EventRecord>, RecordError> {
    if |b| % 32 != 0 then Failure(BatchUnaligned)
    else Success(Records(b, |b| / 32))
  }

  /** The `n` records of a buffer. */
  function Records(b: seq<u8>, n: nat): (rs: seq<EventRecord>)
    requires |b| == 32 * n
    ensures |rs| == n
  {
    if n == 0 then [] else Records(b[..32 * (n - 1)], n - 1) + [Record(b[32 * (n - 1)..])]
  }

  lemma FieldsRoundTrip(r: EventRecord, ws: seq<u32>)
    requires |ws| == 8
    ensures FromFields(Fields(r)) == r && Fields(FromFields(ws)) == ws
  {
  }

  /** One record survives the wire, whatever follows it. */
  lemma RecordRoundTrip(r: EventRecord, trailing: seq<u8>)
    ensures DecodedRecord(EncodedRecord(r) + trailing) == Success(r)
  {
    assert (EncodedRecord(r) + trailing)[..EVENT_RECORD_LEN] == EncodedRecord(r);
    RecordOfEncoded(r);
  }

  lemma RecordOfEncoded(r: EventRecord)
    ensures Record(EncodedRecord(r)) == r
  {
    WordsRoundTrip(Fields(r));
    FieldsRoundTrip(r, Fields(r));
  }

  lemma RecordsAppend(b: seq<u8>, n: nat, last: seq<u8>)
    requires |b| == 32 * n && |last| == EVENT_RECORD_LEN
    ensures Records(b + last, n + 1) == Records(b, n) + [Record(last)]
  {
    assert (b + last)[..32 * n] == b && (b + last)[32 * n..] == last;
  }

  lemma EncodedAppend(rs: seq<EventRecord>, last: EventRecord)
    ensures EncodedBatch(rs + [last]) == EncodedBatch(rs) + EncodedRecord(last)
  {
    assert (rs + [last])[..|rs|] == rs;
  }

  /** A record in front of the wire form: appending to the batch appends to what is decoded. */
  lemma AppendRoundTrip(b: seq<u8>, rs: seq<EventRecord>, enc: seq<u8>, last: EventRecord)
    requires |b| == 32 * |rs| && |enc| == EVENT_RECORD_LEN
    requires Records(b, |rs|) == rs && Record(enc) == last
    ensures Records(b + enc, |rs| + 1) == rs + [last]
  {
    RecordsAppend(b, |rs|, enc);
  }

  lemma {:induction false} RecordsOfEncoded(rs: seq<EventRecord>)
    ensures Records(EncodedBatch(rs), |rs|) == rs
  {
    if rs != [] {
      var init, last := rs[..|rs| - 1], rs[|rs| - 1];
      assert rs == init + [last];
      RecordsOfEncoded(init);
      RecordOfEncoded(last);
      EncodedAppend(init, last);
      AppendRoundTrip(EncodedBatch(init), init, EncodedRecord(last), last);
    }
  }

  lemma ButLastRecord(b: seq<u8>, n: nat) returns (init: seq<u8>, last: seq<u8>)
    requires |b| == 32 * n + 32
    ensures b == init + last && |init| == 32 * n && |last| == EVENT_RECORD_LEN
  {
    init, last := b[..32 * n], b[32 * n..];
  }

  lemma {:induction false} EncodedOfRecords(b: seq<u8>, n: nat)
    requires |b| == 32 * n
    ensures EncodedBatch(Records(b, n)) == b
    decreases n
  {
    if n > 0 {
      var init, last := ButLastRecord(b, n - 1);
      EncodedOfRecords(init, n - 1);
      RecordBytesRoundTrip(last);
      RecordsAppend(init, n - 1, last);
      EncodedAppend(Records(init, n - 1), Record(last));
    }
  }

  lemma RecordBytesRoundTrip(b: seq<u8>)
    requires |b| == EVENT_RECORD_LEN
    ensures EncodedRecord(Record(b)) == b
  {
    BytesRoundTrip(b);
    FieldsRoundTrip(Record(b), BytesToWords(b));
  }

  /** A batch decodes to the records that were encoded. */
  lemma BatchRoundTrip(rs: seq<EventRecord>)
    ensures DecodedBatch(EncodedBatch(rs)) == Success(rs)
  {
    var n := |rs|;
    assert (32 * n) % 32 == 0 && (32 * n) / 32 == n;
    RecordsOfEncoded(rs);
  }

  /** A buffer is accepted exactly when it is whole records, and it is then the encoding of the result. */
  lemma BatchBytesRoundTrip(b: seq<u8>)
    ensures DecodedBatch(b).Success? <==> |b| % 32 == 0
    ensures DecodedBatch(b).Success? ==> EncodedBatch(DecodedBatch(b).value) == b
  {
    if |b| % 32 == 0 {
      EncodedOfRecords(b, |b| / 32);
    }
  }

  method EncodeBatch(rs: seq<EventRecord>) returns (out: seq<u8>)
    ensures out == EncodedBatch(rs)
  {
    out := [];
    for i := 0 to |rs|
      invariant out == EncodedBatch(rs[..i])
    {
      assert rs[..i + 1][..i] == rs[..i];
      out := out + EncodedRecord(rs[i]);
    }
    assert rs[..|rs|] == rs;
  }

  lemma NextChunk(b: seq<u8>, i: nat)
    requires 32 * i + 32 <= |b|
    ensures var chunk := b[32 * i..32 * i + EVENT_RECORD_LEN];
      chunk[..EVENT_RECORD_LEN] == chunk && b[..32 * (i + 1)] == b[..32 * i] + chunk
  {
  }

  method DecodeRecords(b: seq<u8>, n: nat) returns (rs: seq<EventRecord>)
    requires |b| == 32 * n
    ensures rs == Records(b, n)
  {
    rs := [];
    for i := 0 to n
      invariant rs == Records(b[..32 * i], i)
    {
      var o := 32 * i;
      var chunk := b[o..o + EVENT_RECORD_LEN];
      NextChunk(b, i);
      RecordsAppend(b[..o], i, chunk);
      var one := DecodedRecord(chunk);
      rs := rs + [one.value];
    }
    assert b[..32 * n] == b;
  }

  method DecodeBatch(b: seq<u8>) returns (r: Result<seq<EventRecord>, RecordError>)
    ensures r == DecodedBatch(b)
  {
    if |b| % 32 != 0 {
      return Failure(BatchUnaligned);
    }
    var n := |b| / 32;
    var rs := DecodeRecords(b, n);
    r := Success(rs);
  }
}
