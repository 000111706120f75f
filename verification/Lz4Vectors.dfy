/** The numbers of the stream's format, and a few streams byte by byte. */
module Lz4Vectors {
  import opened Bytes
  import opened Lz4AnyBlocks
  import opened Lz4Block
  import opened Lz4Frames
  import opened Lz4Ring

  /** A record's length is two bytes, the low one first; 2072 is the most there can be. */
  lemma BodyByItsLength(data: seq<byte>, pos: nat)
    requires pos < |data|
    ensures |data| - pos < 2 ==> BodyAt(data, pos) == None
    ensures |data| - pos >= 2 ==>
      var n := data[pos] as nat + 256 * (data[pos + 1] as nat);
      BodyAt(data, pos) == if n > 2072 || n > |data| - pos - 2 then None else Some(data[pos + 2..pos + 2 + n])
  {
  }

  lemma LengthField(n: nat)
    requires n < 65536
    ensures Header(n) == [(n % 256) as byte, (n / 256) as byte] && U16(Header(n)[0], Header(n)[1]) == n
  {
  }

  /** A record of more than 2072 bytes is corrupt framing, whatever it holds. */
  lemma TooLongARecord(body: seq<byte>)
    requires |body| == 2073
    ensures DecodeStream([25, 8] + body) == Err(Framing)
  {
    BodyByItsLength([25, 8] + body, 0);
  }

  lemma LongestRecord(body: seq<byte>, history: seq<byte>)
    requires |body| == 2072
    ensures BodyAt([24, 8] + body, 0) == Some(body)
    ensures StepAt([24, 8] + body, 0, history) != Throw(Framing)
  {
    hide Decode;
    BodyByItsLength([24, 8] + body, 0);
    assert ([24, 8] + body)[2..2074] == body;
  }

  /** A block decodes to at most 2048 bytes. */
  lemma BlocksAreBounded(history: seq<byte>, b: seq<byte>)
    ensures Decode(history, LiteralBlock(b), BLOCK_SIZE) == if |b| <= 2048 then Some(b) else None
  {
    hide Parse, LiteralBlock, Sequences;
    LiteralBlockParses(b);
    SequencesUnfold(history, LiteralBlock(b), 0, |history| + BLOCK_SIZE);
    if |b| <= 2048 {
      LiteralBlockDecodes(history, b, BLOCK_SIZE);
    }
  }

  /** A length above 14: bytes of 255, and a smaller one. */
  lemma LengthBytes()
    ensures ExtraBytes(0) == [0] && ExtraBytes(254) == [254]
    ensures ExtraBytes(255) == [255, 0] && ExtraBytes(600) == [255, 255, 90]
  {
    assert ExtraBytes(345) == [255] + ExtraBytes(90);
  }

  /** Blocks of 2048 bytes, 128 to a lap; the encoder is shown the last 65536 bytes before each. */
  lemma CallByTheNumbers(x: seq<byte>, k: nat)
    requires 2048 * k < |x|
    ensures var c := CallAt(x, k);
      && c.block == x[2048 * k..Min(2048 * k + 2048, |x|)]
      && (c.contiguous <==> k % 128 != 0)
      && |c.window| == Min(2048 * k, 65536)
      && forall i :: 0 <= i < |c.window| ==> c.window[i] == x[2048 * k - |c.window| + i]
  {
  }

  lemma HowManyBlocks(n: nat)
    ensures 2048 * Blocks(n) >= n && (n > 0 ==> 2048 * (Blocks(n) - 1) < n) && (n == 0 ==> Blocks(n) == 0)
  {
  }

  /** A ring offset is below 262144, and goes back to 0 as soon as it would reach that. */
  lemma RingByTheNumbers(offset: nat, n: nat)
    ensures Advance(offset, n) == if offset + n < 262144 then offset + n else 0
    ensures RING_BYTES == 262144 + 2048
  {
  }

  // ----- streams of one record

  /** Two literals and a match of offset 2, then five literals. */
  const PAIRS: seq<byte> := [32, 65, 66, 2, 0, 80, 1, 2, 3, 4, 5]

  /** One literal and a match of length 8, then five literals. */
  const RUN: seq<byte> := [20, 65, 1, 0, 80, 1, 2, 3, 4, 5]

  lemma PairsParse()
    ensures Parse(PAIRS, 0) == Some(Match(1, 2, 2, 4, 5)) && Parse(PAIRS, 5) == Some(Last(6, 5))
  {
  }

  lemma RunParses()
    ensures Parse(RUN, 0) == Some(Match(1, 1, 1, 8, 4)) && Parse(RUN, 4) == Some(Last(5, 5))
  {
  }

  lemma PairRepeats()
    ensures Repeat([65, 66], 2, 4) == [65, 66, 65, 66, 65, 66]
  {
    hide Repeat;
    RepeatUnfold([65, 66], 2, 4);
    assert CopyOne([65, 66], 2) == [65, 66, 65];
    RepeatUnfold([65, 66, 65], 2, 3);
    assert CopyOne([65, 66, 65], 2) == [65, 66, 65, 66];
    RepeatUnfold([65, 66, 65, 66], 2, 2);
    assert CopyOne([65, 66, 65, 66], 2) == [65, 66, 65, 66, 65];
    RepeatUnfold([65, 66, 65, 66, 65], 2, 1);
    assert CopyOne([65, 66, 65, 66, 65], 2) == [65, 66, 65, 66, 65, 66];
    RepeatUnfold([65, 66, 65, 66, 65, 66], 2, 0);
  }

  lemma PairsDecode()
    ensures Decode([], PAIRS, BLOCK_SIZE) == Some([65, 66, 65, 66, 65, 66, 1, 2, 3, 4, 5])
  {
    hide Parse, Repeat, Sequences;
    PairsParse();
    SequencesUnfold([], PAIRS, 0, BLOCK_SIZE);
    assert [] + PAIRS[1..3] == [65, 66];
    PairRepeats();
    SequencesUnfold([65, 66, 65, 66, 65, 66], PAIRS, 5, BLOCK_SIZE);
    assert PAIRS[6..11] == [1, 2, 3, 4, 5];
    assert [65, 66, 65, 66, 65, 66] + PAIRS[6..11] == [65, 66, 65, 66, 65, 66, 1, 2, 3, 4, 5];
  }

  lemma RunDecodes()
    ensures Decode([], RUN, BLOCK_SIZE) == Some([65, 65, 65, 65, 65, 65, 65, 65, 65, 1, 2, 3, 4, 5])
  {
    hide Parse, Repeat, Sequences;
    RunParses();
    SequencesUnfold([], RUN, 0, BLOCK_SIZE);
    assert [] + RUN[1..2] == [65];
    var h := [65, 65, 65, 65, 65, 65, 65, 65, 65];
    SameByteRepeats([65], h);
    SequencesUnfold(h, RUN, 4, BLOCK_SIZE);
    assert RUN[5..10] == [1, 2, 3, 4, 5];
    assert h + RUN[5..10] == [65, 65, 65, 65, 65, 65, 65, 65, 65, 1, 2, 3, 4, 5];
  }

  lemma {:induction false} SameByteRepeats(h: seq<byte>, r: seq<byte>)
    requires 0 < |h| <= |r| && forall k :: 0 <= k < |r| ==> r[k] == 65 && (k < |h| ==> h[k] == 65)
    ensures Repeat(h, 1, |r| - |h|) == r
    decreases |r| - |h|
  {
    RepeatUnfold(h, 1, |r| - |h|);
    if |h| == |r| {
    } else {
      hide Repeat;
      SameByteRepeats(CopyOne(h, 1), r);
    }
  }

  lemma OneRecordStream(c: seq<byte>, b: seq<byte>)
    requires 0 < |c| <= 255 && Decode([], c, BLOCK_SIZE) == Some(b) && b != []
    ensures DecodeStream([|c| as byte, 0] + c) == Ok(b)
  {
    hide Decode, StepAt, DecodeFrom;
    var data := [|c| as byte, 0] + c;
    assert data == Header(|c|) + c && data[0..2 + |c|] == data;
    StepReadsRecord(data, 0, c, [], b);
    DecodeFromUnfold(data, 0, []);
    assert [] + b == b;
    AtTheEnd(data, b);
    DecodeFromUnfold(data, |data|, b);
  }

  lemma StreamOfPairs()
    ensures DecodeStream([11, 0, 32, 65, 66, 2, 0, 80, 1, 2, 3, 4, 5]) == Ok([65, 66, 65, 66, 65, 66, 1, 2, 3, 4, 5])
  {
    hide Decode, DecodeStream;
    PairsDecode();
    OneRecordStream(PAIRS, [65, 66, 65, 66, 65, 66, 1, 2, 3, 4, 5]);
    assert [11, 0] + PAIRS == [11, 0, 32, 65, 66, 2, 0, 80, 1, 2, 3, 4, 5];
  }

  lemma StreamOfARun()
    ensures DecodeStream([10, 0, 20, 65, 1, 0, 80, 1, 2, 3, 4, 5]) == Ok([65, 65, 65, 65, 65, 65, 65, 65, 65, 1, 2, 3, 4, 5])
  {
    hide Decode, DecodeStream;
    RunDecodes();
    OneRecordStream(RUN, [65, 65, 65, 65, 65, 65, 65, 65, 65, 1, 2, 3, 4, 5]);
    assert [10, 0] + RUN == [10, 0, 20, 65, 1, 0, 80, 1, 2, 3, 4, 5];
  }

  /** Half a length, a length past the end, a block that says nothing, and one that stops in the middle. */
  lemma StreamsInError()
    ensures DecodeStream([1]) == Err(Framing) && DecodeStream([2, 0, 16]) == Err(Framing)
    ensures DecodeStream([1, 0, 0]) == Err(BadBlock) && DecodeStream([1, 0, 16]) == Err(BadBlock)
  {
    hide Sequences, Parse;
    BodyByItsLength([1, 0, 0], 0);
    BodyByItsLength([1, 0, 16], 0);
    EmptyAndCutBlocks();
    assert [1, 0, 0][2..3] == [0] && [1, 0, 16][2..3] == [16];
    BodyByItsLength([1], 0);
    BodyByItsLength([2, 0, 16], 0);
  }

  lemma EmptyAndCutBlocks()
    ensures Decode([], [0], BLOCK_SIZE) == Some([]) && Decode([], [16], BLOCK_SIZE) == None
  {
    SequencesUnfold([], [0], 0, BLOCK_SIZE);
    SequencesUnfold([], [16], 0, BLOCK_SIZE);
    assert [] + [0][1..1] == [];
  }

  lemma OneByteIsStored()
    ensures Record(LiteralEncoder, [7], 0) == Some([2, 0, 16, 7])
  {
    hide Window;
    var calls := Calls([7], 1);
    assert BlockStart(1, 0) == 0 && BlockStart(1, 1) == 1;
    assert calls[0].block == [7][0..1] == [7];
    assert LiteralBlock([7]) == [16] + [7] == [16, 7];
    assert LiteralEncoder(calls) == [16, 7];
    assert Header(2) + [16, 7] == [2, 0, 16, 7];
  }

  /** Compressing one byte with the encoder of literals, and back. */
  lemma OneByteThereAndBack()
    ensures CompressStream(LiteralEncoder, [7]) == Some([2, 0, 16, 7]) && DecodeStream([2, 0, 16, 7]) == Ok([7])
  {
    hide DecodeStream, Record;
    OneRecordDecodes();
    OneByteIsStored();
    assert Blocks(1) == 1;
    assert Records(LiteralEncoder, [7], 0) == Some([]);
    assert [] + [2, 0, 16, 7] == [2, 0, 16, 7];
  }
}
