/** The framed stream, free of buffers: a record per block, its 2-byte length and then its body. */
module Lz4Frames {
  import opened Bytes
  import opened Lz4Block
  import opened Lz4Memory
  import opened Lz4Ring

  /**
   * Why a call throws: the framing is corrupt, the block decoder refuses a block, a file cannot be read, or the encoder
   * fails.
   */
  datatype Cause = Framing | BadBlock | IoError | NotEncoded

  // ----- decoding, each block against the whole output before it

  datatype Step = End | Throw(cause: Cause) | Block(bytes: seq<byte>, next: nat)

  /** The body of the record at `pos`, or nothing when the framing is corrupt. */
  function BodyAt(data: seq<byte>, pos: nat): (r: Option<seq<byte>>)
    requires pos < |data|
    ensures r.Some? ==> |r.value| <= MAX_COMPRESSED && pos + 2 + |r.value| <= |data|
  {
    if |data| - pos < 2 then None
    else
      var n := U16(data[pos], data[pos + 1]);
      if n > MAX_COMPRESSED || n > |data| - pos - 2 then None else Some(data[pos + 2..pos + 2 + n])
  }

  /** The record at `pos`, decoded after `history`. An empty block is refused like a malformed one. */
  function StepAt(data: seq<byte>, pos: nat, history: seq<byte>): (r: Step)
    requires pos <= |data|
    ensures r.Block? ==> 0 < |r.bytes| <= BLOCK_SIZE && pos < r.next <= |data|
  {
    if pos == |data| then End
    else
      match BodyAt(data, pos)
      case None => Throw(Framing)
      case Some(c) =>
        var b := Decode(history, c, BLOCK_SIZE);
        if b.None? || b.value == [] then Throw(BadBlock) else Block(b.value, pos + 2 + |c|)
  }

  /** Everything from `pos` on appended to `history`, or the first error met. */
  function DecodeFrom(data: seq<byte>, pos: nat, history: seq<byte>): Result<seq<byte>, Cause>
    requires pos <= |data|
    decreases |data| - pos
  {
    match StepAt(data, pos, history)
    case End => Ok(history)
    case Throw(cause) => Err(cause)
    case Block(b, next) => DecodeFrom(data, next, history + b)
  }

  function DecodeStream(data: seq<byte>): Result<seq<byte>, Cause> {
    DecodeFrom(data, 0, [])
  }

  /** A run that succeeds only ever adds to its output, and every block adds something. */
  lemma {:induction false} DecodeFromGrows(data: seq<byte>, pos: nat, history: seq<byte>)
    requires pos <= |data| && DecodeFrom(data, pos, history).Ok?
    ensures history <= DecodeFrom(data, pos, history).value
    ensures DecodeFrom(data, pos, history).value == history <==> pos == |data|
    decreases |data| - pos
  {
    hide Decode, BodyAt;
    var step := StepAt(data, pos, history);
    if !step.Block? {
    } else {
      DecodeFromGrows(data, step.next, history + step.bytes);
    }
  }

  /** A block that starts with a match of offset 1, and has five literals after it. */
  const EARLY_MATCH: seq<byte> := [0, 1, 0, 80, 1, 2, 3, 4, 5]

  lemma EarlyMatchParses()
    ensures Parse(EARLY_MATCH, 0) == Some(Match(1, 0, 1, 4, 3))
    ensures Parse(EARLY_MATCH, 3) == Some(Last(4, 5))
  {
  }

  lemma EarlyMatchRepeats()
    ensures Repeat([7], 1, 4) == [7, 7, 7, 7, 7]
  {
    RepeatUnfold([7], 1, 4);
    RepeatUnfold([7, 7], 1, 3);
    RepeatUnfold([7, 7, 7], 1, 2);
    RepeatUnfold([7, 7, 7, 7], 1, 1);
    RepeatUnfold([7, 7, 7, 7, 7], 1, 0);
  }

  /** How the block fares after one older byte and after none. */
  lemma EarlyMatchDecodes()
    ensures Decode([7], EARLY_MATCH, BLOCK_SIZE) == Some([7, 7, 7, 7, 1, 2, 3, 4, 5])
    ensures Decode([], EARLY_MATCH, BLOCK_SIZE) == None
  {
    hide Parse, Repeat, Sequences;
    var src := EARLY_MATCH;
    EarlyMatchParses();
    EarlyMatchRepeats();
    SequencesUnfold([7], src, 0, 1 + BLOCK_SIZE);
    assert [7] + src[1..1] == [7];
    SequencesUnfold([7, 7, 7, 7, 7], src, 3, 1 + BLOCK_SIZE);
    assert [7, 7, 7, 7, 7] + src[4..9] == [7, 7, 7, 7, 7, 1, 2, 3, 4, 5];
    SequencesUnfold([], src, 0, BLOCK_SIZE);
  }

  /** A block that reaches behind the beginning is refused there, and takes a byte before the beginning to decode. */
  lemma OlderBytesCanRescueAMatch()
    ensures BodyAt([9, 0] + EARLY_MATCH, 0) == Some(EARLY_MATCH)
    ensures DecodeStream([9, 0] + EARLY_MATCH) == Err(BadBlock)
    ensures Fits(1, EARLY_MATCH, BLOCK_SIZE) && !Fits(0, EARLY_MATCH, BLOCK_SIZE)
  {
    hide Decode, DecodedSize;
    EarlyMatchDecodes();
    DecodeSize([7], EARLY_MATCH, BLOCK_SIZE);
    DecodeSize([], EARLY_MATCH, BLOCK_SIZE);
    assert ([9, 0] + EARLY_MATCH)[2..11] == EARLY_MATCH;
  }

  // ----- encoding, with LZ4's match search as a parameter

  /** What one call shows the encoder: the block, whether it continues the last one in memory, and the last 64 KB. */
  datatype Call = Call(block: seq<byte>, contiguous: bool, window: seq<byte>)

  /** An encoder's output is a function of all it has been shown since its reset; nothing stands for a failure. */
  type Encoder = seq<Call> -> seq<byte>

  function Window(history: seq<byte>): seq<byte> {
    history[|history| - Min(|history|, WINDOW)..]
  }

  /** The last 65536 bytes, or all there are. */
  lemma WindowByTheByte(history: seq<byte>)
    ensures var w := Window(history);
      |w| == Min(|history|, 65536) && forall i :: 0 <= i < |w| ==> w[i] == history[|history| - |w| + i]
  {
  }

  function Blocks(n: nat): nat {
    (n + BLOCK_SIZE - 1) / BLOCK_SIZE
  }

  /** Where block `k` of `n` bytes starts. */
  function BlockStart(n: nat, k: nat): nat {
    Min(BLOCK_SIZE * k, n)
  }

  /** Call `k` on `x`: a lap of the ring is 128 blocks, and its first block is not next to the one before. */
  function CallAt(x: seq<byte>, k: nat): Call {
    var from, to := BlockStart(|x|, k), BlockStart(|x|, k + 1);
    Call(x[from..to], k % 128 != 0, Window(x[..from]))
  }

  function Calls(x: seq<byte>, k: nat): seq<Call> {
    seq(k, (i: nat) => CallAt(x, i))
  }

  function Header(n: nat): (r: seq<byte>)
    requires n <= MAX_OFFSET
    ensures |r| == 2 && U16(r[0], r[1]) == n
  {
    [(n % 256) as byte, (n / 256) as byte]
  }

  /** The record of block `k`, or nothing when the encoder fails. */
  function Record(enc: Encoder, x: seq<byte>, k: nat): (r: Option<seq<byte>>)
    ensures r.Some? ==> |r.value| > 2
  {
    var c := enc(Calls(x, k + 1));
    if 0 < |c| <= MAX_COMPRESSED then Some(Header(|c|) + c) else None
  }

  /** The records of the first `k` blocks. */
  function Records(enc: Encoder, x: seq<byte>, k: nat): Option<seq<byte>> {
    if k == 0 then Some([])
    else
      match Records(enc, x, k - 1)
      case None => None
      case Some(s) =>
        match Record(enc, x, k - 1)
        case None => None
        case Some(r) => Some(s + r)
  }

  function CompressStream(enc: Encoder, x: seq<byte>): Option<seq<byte>> {
    Records(enc, x, Blocks(|x|))
  }

  lemma BlocksCover(n: nat, k: nat)
    requires k <= Blocks(n)
    ensures BlockStart(n, k) == n <==> k == Blocks(n)
    ensures k < Blocks(n) ==> BlockStart(n, k) == BLOCK_SIZE * k && BlockStart(n, k) / BLOCK_SIZE == k
  {
  }

  /** A failed record fails the whole. */
  lemma RecordFails(enc: Encoder, x: seq<byte>, k: nat)
    requires k < Blocks(|x|) && Record(enc, x, k) == None
    ensures CompressStream(enc, x) == None
  {
    hide Record;
    if CompressStream(enc, x).Some? {
      RecordsArePrefixes(enc, x, k + 1, Blocks(|x|));
    }
  }

  // ----- the round trip

  /** The last block of `calls` is encoded within the bound, and decodes against the bytes the encoder was shown. */
  ghost predicate FaithfulOn(enc: Encoder, calls: seq<Call>) {
    |calls| > 0 ==>
      var last := calls[|calls| - 1];
      0 < |last.block| <= BLOCK_SIZE ==>
        0 < |enc(calls)| <= MAX_COMPRESSED && Decode(last.window, enc(calls), BLOCK_SIZE) == Some(last.block)
  }

  /** What any LZ4 encoder promises. */
  ghost predicate Faithful(enc: Encoder) {
    forall calls: seq<Call> :: FaithfulOn(enc, calls)
  }

  function LiteralEncoder(calls: seq<Call>): seq<byte> {
    if |calls| == 0 then [] else LiteralBlock(calls[|calls| - 1].block)
  }

  /** An encoder that stores every block as literals keeps that promise. */
  lemma LiteralsAreFaithful()
    ensures Faithful(LiteralEncoder)
  {
    hide LiteralBlock, Decode;
    forall calls: seq<Call>
      ensures FaithfulOn(LiteralEncoder, calls)
    {
      if |calls| > 0 && 0 < |calls[|calls| - 1].block| <= BLOCK_SIZE {
        LiteralBlockDecodes(calls[|calls| - 1].window, calls[|calls| - 1].block, BLOCK_SIZE);
      }
    }
  }

  lemma {:induction false} RecordsArePrefixes(enc: Encoder, x: seq<byte>, j: nat, k: nat)
    requires j <= k && Records(enc, x, k).Some?
    ensures Records(enc, x, j).Some? && Records(enc, x, j).value <= Records(enc, x, k).value
    decreases k
  {
    if j == k {
    } else {
      RecordsArePrefixes(enc, x, j, k - 1);
    }
  }

  lemma StepReadsRecord(data: seq<byte>, pos: nat, c: seq<byte>, history: seq<byte>, block: seq<byte>)
    requires 0 < |c| <= MAX_COMPRESSED && pos + 2 + |c| <= |data|
    requires data[pos..pos + 2 + |c|] == Header(|c|) + c
    requires Decode(history, c, BLOCK_SIZE) == Some(block) && block != []
    ensures StepAt(data, pos, history) == Block(block, pos + 2 + |c|)
  {
    hide Decode;
    var r := data[pos..pos + 2 + |c|];
    assert r[0] == data[pos] && r[1] == data[pos + 1];
    assert data[pos + 2..pos + 2 + |c|] == r[2..] == c;
  }

  lemma AtTheEnd(data: seq<byte>, history: seq<byte>)
    ensures StepAt(data, |data|, history) == End
  {
  }

  /** A stream of one record, a literal. */
  lemma OneRecordDecodes()
    ensures DecodeStream([2, 0, 16, 7]) == Ok([7])
  {
    hide Decode, StepAt;
    var data: seq<byte>, block: seq<byte> := [2, 0, 16, 7], [7];
    LiteralBlockDecodes([], block, BLOCK_SIZE);
    assert LiteralBlock(block) == [16] + block == [16, 7];
    assert data == Header(2) + [16, 7] && data[0..4] == data;
    StepReadsRecord(data, 0, [16, 7], [], block);
    AtTheEnd(data, block);
    assert [] + block == block;
    assert DecodeFrom(data, 4, block) == Ok(block);
  }
}
