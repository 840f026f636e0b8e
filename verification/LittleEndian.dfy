/** Little-endian words in byte sequences. */
module LittleEndian {
  import opened Words

  /** Byte `k` of a word, least significant first. */
  function ByteOf(v: u32, k: int): u8
    requires 0 <= k < 4
  {
    match k
    case 0 => v % 0x100
    case 1 => v / 0x100 % 0x100
    case 2 => v / 0x1_0000 % 0x100
    case 3 => v / 0x100_0000
  }

  function Le16(v: u16): seq<u8> { [ByteOf(v, 0), ByteOf(v, 1)] }

  function Le32(v: u32): seq<u8> { [ByteOf(v, 0), ByteOf(v, 1), ByteOf(v, 2), ByteOf(v, 3)] }

  function Join16(b0: u8, b1: u8): u16 { b0 + 0x100 * b1 }

  function Join32(b0: u8, b1: u8, b2: u8, b3: u8): u32 { b0 + 0x100 * b1 + 0x1_0000 * b2 + 0x100_0000 * b3 }

  function U16At(b: seq<u8>, o: nat): u16
    requires o + 2 <= |b|
  {
    Join16(b[o], b[o + 1])
  }

  function U32At(b: seq<u8>, o: nat): u32
    requires o + 4 <= |b|
  {
    Join32(b[o], b[o + 1], b[o + 2], b[o + 3])
  }

  /** Splitting a word into bytes and joining them again are inverse to each other. */
  lemma SplitJoin32(v: u32)
    ensures Join32(ByteOf(v, 0), ByteOf(v, 1), ByteOf(v, 2), ByteOf(v, 3)) == v
  {
    var a, b := v / 0x100, v / 0x1_0000;
    assert a / 0x100 == b && b / 0x100 == v / 0x100_0000;
    assert v == 0x100 * a + v % 0x100 && a == 0x100 * b + a % 0x100 && b == 0x100 * (b / 0x100) + b % 0x100;
  }

  lemma JoinSplit32(b0: u8, b1: u8, b2: u8, b3: u8)
    ensures var v := Join32(b0, b1, b2, b3);
      ByteOf(v, 0) == b0 && ByteOf(v, 1) == b1 && ByteOf(v, 2) == b2 && ByteOf(v, 3) == b3
  {
    var v := Join32(b0, b1, b2, b3);
    var w := b1 + 0x100 * (b2 + 0x100 * b3);
    assert v == b0 + 0x100 * w;
    assert v / 0x100 == w && w / 0x100 == b2 + 0x100 * b3;
    assert v / 0x1_0000 == b2 + 0x100 * b3 && v / 0x100_0000 == b3;
  }

  // ---- Sequences of words ----

  function WordsToBytes(ws: seq<u32>): (b: seq<u8>)
    ensures |b| == 4 * |ws|
  {
    seq(4 * |ws|, j requires 0 <= j < 4 * |ws| => ByteOf(ws[j / 4], j % 4))
  }

  function BytesToWords(b: seq<u8>): (ws: seq<u32>)
    requires |b| % 4 == 0
    ensures |ws| == |b| / 4
  {
    seq(|b| / 4, i requires 0 <= i < |b| / 4 => U32At(b, 4 * i))
  }

  lemma WordByte(ws: seq<u32>, i: nat, k: nat)
    requires i < |ws| && k < 4
    ensures WordsToBytes(ws)[4 * i + k] == ByteOf(ws[i], k)
  {
  }

  lemma WordBack(ws: seq<u32>, b: seq<u8>, i: nat)
    requires b == WordsToBytes(ws) && i < |ws|
    ensures U32At(b, 4 * i) == ws[i]
  {
    WordByte(ws, i, 0);
    WordByte(ws, i, 1);
    WordByte(ws, i, 2);
    WordByte(ws, i, 3);
    SplitJoin32(ws[i]);
  }

  lemma WordsRoundTrip(ws: seq<u32>)
    ensures BytesToWords(WordsToBytes(ws)) == ws
  {
    var b := WordsToBytes(ws);
    forall i | 0 <= i < |ws| ensures BytesToWords(b)[i] == ws[i] { WordBack(ws, b, i); }
  }

  lemma BytesRoundTrip(b: seq<u8>)
    requires |b| % 4 == 0
    ensures WordsToBytes(BytesToWords(b)) == b
  {
    forall j | 0 <= j < |b| ensures WordsToBytes(BytesToWords(b))[j] == b[j] {
      var o := 4 * (j / 4);
      JoinSplit32(b[o], b[o + 1], b[o + 2], b[o + 3]);
    }
  }

  lemma WordsToBytesConcat(a: seq<u32>, b: seq<u32>)
    ensures WordsToBytes(a + b) == WordsToBytes(a) + WordsToBytes(b)
  {
    forall j | 0 <= j < 4 * |a + b| ensures WordsToBytes(a + b)[j] == (WordsToBytes(a) + WordsToBytes(b))[j] {
      assert j >= 4 * |a| ==> (j - 4 * |a|) / 4 == j / 4 - |a| && (j - 4 * |a|) % 4 == j % 4;
    }
  }

  /** The word loop of an encoder. */
  method AppendWords(out: seq<u8>, ws: seq<u32>) returns (res: seq<u8>)
    ensures res == out + WordsToBytes(ws)
  {
    res := out;
    for i := 0 to |ws|
      invariant res == out + WordsToBytes(ws[..i])
    {
      WordsToBytesConcat(ws[..i], [ws[i]]);
      assert ws[..i + 1] == ws[..i] + [ws[i]];
      assert WordsToBytes([ws[i]]) == Le32(ws[i]);
      res := res + Le32(ws[i]);
    }
    assert ws[..|ws|] == ws;
  }

  /** The `chunks(4)` loop of a decoder. */
  method ReadWords(b: seq<u8>) returns (ws: seq<u32>)
    requires |b| % 4 == 0
    ensures ws == BytesToWords(b)
  {
    ws := [];
    var o := 0;
    while o < |b|
      invariant 0 <= o <= |b| && o % 4 == 0
      invariant ws == BytesToWords(b)[..o / 4]
    {
      ws := ws + [U32At(b, o)];
      o := o + 4;
    }
  }
}
