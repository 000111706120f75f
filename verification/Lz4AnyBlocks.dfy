/** The stream an encoder puts out for blocks of any sizes: 2048 bytes each, or fewer where a read fell short. */
module Lz4AnyBlocks {
  import opened Bytes
  import opened Lz4Block
  import opened Lz4Frames
  import opened Lz4Ring

  ghost predicate Sized(blocks: seq<seq<byte>>) {
    forall k :: 0 <= k < |blocks| ==> 0 < |blocks[k]| <= BLOCK_SIZE
  }

  /** Where in the ring the next block goes. */
  function RingOffset(blocks: seq<seq<byte>>): nat {
    if blocks == [] then 0 else Advance(RingOffset(blocks[..|blocks| - 1]), |blocks[|blocks| - 1]|)
  }

  /** What the encoder is shown with the last of the blocks: the start of a lap does not continue what came before. */
  function LastCall(blocks: seq<seq<byte>>): Call
    requires blocks != []
  {
    var before := blocks[..|blocks| - 1];
    Call(blocks[|blocks| - 1], RingOffset(before) > 0, Window(Concat(before)))
  }

  function Shows(blocks: seq<seq<byte>>): (calls: seq<Call>)
    ensures |calls| == |blocks|
  {
    if blocks == [] then [] else Shows(blocks[..|blocks| - 1]) + [LastCall(blocks)]
  }

  /** The record of a body, or nothing when the encoder has failed. */
  function RecordOf(c: seq<byte>): Option<seq<byte>> {
    if 0 < |c| <= MAX_COMPRESSED then Some(Header(|c|) + c) else None
  }

  function LastRecord(enc: Encoder, blocks: seq<seq<byte>>): Option<seq<byte>> {
    RecordOf(enc(Shows(blocks)))
  }

  function StreamOf(enc: Encoder, blocks: seq<seq<byte>>): Option<seq<byte>> {
    if blocks == [] then Some([]) else Followed(StreamOf(enc, blocks[..|blocks| - 1]), LastRecord(enc, blocks))
  }

  function Followed(s: Option<seq<byte>>, r: Option<seq<byte>>): Option<seq<byte>> {
    if s.None? || r.None? then None else Some(s.value + r.value)
  }

  lemma OneMoreBlock(enc: Encoder, blocks: seq<seq<byte>>, block: seq<byte>)
    ensures var more := blocks + [block];
      && Concat(more) == Concat(blocks) + block && RingOffset(more) == Advance(RingOffset(blocks), |block|)
      && Shows(more) == Shows(blocks) + [Call(block, RingOffset(blocks) > 0, Window(Concat(blocks)))]
      && (Sized(blocks) && 0 < |block| <= BLOCK_SIZE ==> Sized(more))
      && StreamOf(enc, more) == Followed(StreamOf(enc, blocks), LastRecord(enc, more))
  {
    hide Window, Advance;
    var more := blocks + [block];
    assert more[..|more| - 1] == blocks;
  }

  // ----- whole blocks of 2048 bytes

  /** The first `k` blocks of `x`. */
  function Cut(x: seq<byte>, k: nat): seq<seq<byte>> {
    seq(k, (i: nat) => x[BlockStart(|x|, i)..BlockStart(|x|, i + 1)])
  }

  lemma CutOneMore(x: seq<byte>, k: nat)
    ensures Cut(x, k + 1) == Cut(x, k) + [x[BlockStart(|x|, k)..BlockStart(|x|, k + 1)]]
  {
  }

  function LapPlace(k: nat): nat {
    BLOCK_SIZE * (k % 128)
  }

  /** The first `k` blocks cover the beginning of `x`, a lap is 128 of them, and they show the encoder what the format says. */
  ghost predicate Uniform(enc: Encoder, x: seq<byte>, k: nat) {
    var blocks := Cut(x, k);
    && Concat(blocks) == x[..BlockStart(|x|, k)] && Sized(blocks)
    && (k < Blocks(|x|) ==> RingOffset(blocks) == LapPlace(k))
    && Shows(blocks) == Calls(x, k) && StreamOf(enc, blocks) == Records(enc, x, k)
  }

  lemma {:induction false} CutIsUniform(enc: Encoder, x: seq<byte>, k: nat)
    requires k <= Blocks(|x|)
    ensures Uniform(enc, x, k)
    ensures k > 0 ==> LastRecord(enc, Cut(x, k)) == Record(enc, x, k - 1)
  {
    hide Uniform;
    if k == 0 {
      NothingCut(enc, x);
    } else {
      CutIsUniform(enc, x, k - 1);
      OneMoreCut(enc, x, k - 1);
    }
  }

  lemma NothingCut(enc: Encoder, x: seq<byte>)
    ensures Uniform(enc, x, 0)
  {
    assert Cut(x, 0) == [];
  }

  lemma OneMoreCut(enc: Encoder, x: seq<byte>, k: nat)
    requires k < Blocks(|x|) && Uniform(enc, x, k)
    ensures Uniform(enc, x, k + 1) && LastRecord(enc, Cut(x, k + 1)) == Record(enc, x, k)
  {
    hide Advance, Calls, Window, Record, Records, Blocks, Shows, RingOffset, StreamOf, Cut, Followed, Concat, LapPlace, BlockStart;
    var from, to := BlockStart(|x|, k), BlockStart(|x|, k + 1);
    UniformStep(enc, x, k);
    CutOneMore(x, k);
    OneMoreBlock(enc, Cut(x, k), x[from..to]);
    assert x[..from] + x[from..to] == x[..to];
  }

  lemma UniformStep(enc: Encoder, x: seq<byte>, k: nat)
    requires k < Blocks(|x|)
    ensures var from, to := BlockStart(|x|, k), BlockStart(|x|, k + 1);
      && 0 < to - from <= BLOCK_SIZE && to <= |x|
      && Calls(x, k + 1) == Calls(x, k) + [Call(x[from..to], LapPlace(k) > 0, Window(x[..from]))]
      && Record(enc, x, k) == RecordOf(enc(Calls(x, k + 1)))
      && Records(enc, x, k + 1) == Followed(Records(enc, x, k), Record(enc, x, k))
      && (k + 1 < Blocks(|x|) ==> Advance(LapPlace(k), to - from) == LapPlace(k + 1))
  {
    hide Window, Advance;
    BlocksCover(|x|, k);
    BlocksCover(|x|, k + 1);
    AdvanceByBlocks(BLOCK_SIZE * k, BlockStart(|x|, k + 1) - BlockStart(|x|, k));
    assert Calls(x, k + 1) == Calls(x, k) + [CallAt(x, k)];
  }

  // ----- decoding it

  /** What follows a stream that decodes is decoded after it. */
  lemma {:induction false} DecodesOn(data: seq<byte>, more: seq<byte>, pos: nat, history: seq<byte>)
    requires pos <= |data| && DecodeFrom(data, pos, history).Ok?
    ensures DecodeFrom(data + more, pos, history) == DecodeFrom(data + more, |data|, DecodeFrom(data, pos, history).value)
    decreases |data| - pos
  {
    hide Decode, DecodeFrom, StepAt;
    DecodeFromUnfold(data, pos, history);
    var step := StepAt(data, pos, history);
    if pos == |data| {
      AtTheEnd(data, history);
    } else {
      StepDoesNotLookAhead(data, more, pos, history);
      DecodeFromUnfold(data + more, pos, history);
      DecodesOn(data, more, step.next, history + step.bytes);
    }
  }

  lemma DecodeFromUnfold(data: seq<byte>, pos: nat, history: seq<byte>)
    requires pos <= |data|
    ensures var step := StepAt(data, pos, history);
      DecodeFrom(data, pos, history) ==
        if step.End? then Ok(history) else if step.Throw? then Err(step.cause)
        else DecodeFrom(data, step.next, history + step.bytes)
    ensures StepAt(data, pos, history).End? <==> pos == |data|
  {
    hide BodyAt, Decode;
  }

  lemma StepDoesNotLookAhead(data: seq<byte>, more: seq<byte>, pos: nat, history: seq<byte>)
    requires pos < |data| && StepAt(data, pos, history).Block?
    ensures StepAt(data + more, pos, history) == StepAt(data, pos, history)
  {
    hide Decode;
    var n := |BodyAt(data, pos).value|;
    assert (data + more)[pos + 2..pos + 2 + n] == data[pos + 2..pos + 2 + n];
  }

  /** Blocks of any sizes from 1 to 2048 are encoded without failure, and decode to what they were cut from. */
  lemma {:induction false} AnyRoundTrip(enc: Encoder, blocks: seq<seq<byte>>)
    requires Faithful(enc) && Sized(blocks)
    ensures StreamOf(enc, blocks).Some? && DecodeStream(StreamOf(enc, blocks).value) == Ok(Concat(blocks))
    decreases |blocks|
  {
    if blocks == [] {
    } else {
      var before, block := blocks[..|blocks| - 1], blocks[|blocks| - 1];
      AnyRoundTrip(enc, before);
      LastDecodes(enc, blocks);
      var c, s := enc(Shows(blocks)), StreamOf(enc, before).value;
      Appended(s, Concat(before), c, block);
      assert LastRecord(enc, blocks) == Some(Header(|c|) + c);
    }
  }

  /** The last body decodes to the last block against everything before it. */
  lemma LastDecodes(enc: Encoder, blocks: seq<seq<byte>>)
    requires Faithful(enc) && Sized(blocks) && blocks != []
    ensures var c := enc(Shows(blocks));
      0 < |c| <= MAX_COMPRESSED && Decode(Concat(blocks[..|blocks| - 1]), c, BLOCK_SIZE) == Some(blocks[|blocks| - 1])
  {
    hide Decode;
    var history, c := Concat(blocks[..|blocks| - 1]), enc(Shows(blocks));
    assert FaithfulOn(enc, Shows(blocks));
    assert Shows(blocks)[|blocks| - 1] == LastCall(blocks);
    var older := history[..|history| - |Window(history)|];
    assert history == older + Window(history);
    DecodeAfterOlder(older, Window(history), c, BLOCK_SIZE);
  }

  lemma Appended(s: seq<byte>, history: seq<byte>, c: seq<byte>, block: seq<byte>)
    requires DecodeStream(s) == Ok(history) && 0 < |c| <= MAX_COMPRESSED
    requires Decode(history, c, BLOCK_SIZE) == Some(block) && block != []
    ensures DecodeStream(s + (Header(|c|) + c)) == Ok(history + block)
  {
    hide Decode, StepAt, DecodeFrom;
    var record := Header(|c|) + c;
    var data := s + record;
    DecodesOn(s, record, 0, []);
    assert data[|s|..|s| + 2 + |c|] == record;
    StepReadsRecord(data, |s|, c, history, block);
    DecodeFromUnfold(data, |s|, history);
    AtTheEnd(data, history + block);
    DecodeFromUnfold(data, |data|, history + block);
  }

  /** Decompressing what a faithful encoder compressed gives the input back, across any number of ring wraps. */
  lemma RoundTrip(enc: Encoder, x: seq<byte>)
    requires Faithful(enc)
    ensures CompressStream(enc, x).Some?
    ensures DecodeStream(CompressStream(enc, x).value) == Ok(x)
  {
    hide Faithful, DecodeFrom, StreamOf, Records;
    CutIsUniform(enc, x, Blocks(|x|));
    BlocksCover(|x|, Blocks(|x|));
    AnyRoundTrip(enc, Cut(x, Blocks(|x|)));
    assert x[..|x|] == x;
  }
}
