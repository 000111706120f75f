/** Using a compressor or a decompressor again, after runs that may have failed or been left half-way. */
module Lz4Resets {
  import opened Bytes
  import opened Lz4Block
  import opened Lz4CompressBase
  import opened Lz4CompressStreams
  import opened Lz4DecodeBase
  import opened Lz4DecompressData
  import opened Lz4Frames
  import opened Lz4Iterator
  import opened Lz4Outcomes
  import opened Lz4Ring
  import opened Lz4Source
  import opened Xxh32

  /**
   * In whatever state a run has left it, a reset decompressor comes to what a fresh one comes to, output and error alike,
   * if and only if no record is rescued by the `older` bytes it can still reach.
   */
  method DecompressAgain(d: LZ4DecompressData, data: seq<byte>, seed: word)
    returns (r: Result<seq<byte>, Cause>, out: seq<byte>, digest: word, ghost older: nat)
    requires d !in d.base.Repr() && d.base.Intact()
    modifies d.Repr()
    ensures older == old(d.base.stream.spans.prefix.Size())
    ensures EndedWith(r, out) == Decoded(data) <==> !RescuedFrom(data, 0, [], older)
    ensures DecodeStream(data) != Err(BadBlock) ==> r == DecodeStream(data)
    ensures ComesTo(data, older, true, r, out)
    ensures r.Ok? ==> digest == XXH32(seed, out)
    ensures d.base.Intact()
  {
    hide Decoded, DecodeStream, RescuedFrom, XXH32, DecodeBase.Valid, DecodeBase.Intact;
    older := d.base.stream.spans.prefix.Size();
    d.Reset(data, seed);
    r, out, digest := DecompressAll(d);
    AcceptedAsByAFreshOne(data, older, r, out);
  }

  /** In whatever state a run has left it, a reset compressor emits what a fresh one emits. */
  method CompressAgain(c: LZ4CompressData, data: seq<byte>, seed: word) returns (r: Option<seq<byte>>, digest: word)
    requires c !in c.base.Repr() && c.base.Intact()
    modifies c.Repr()
    ensures r == CompressStream(c.base.stream.enc, data)
    ensures r.Some? ==> digest == XXH32(seed, data)
    ensures c.base.Intact()
  {
    hide CompressStream, XXH32, CompressBase.Valid, CompressBase.Intact;
    c.Reset(data, seed);
    r, digest := CompressAll(c);
  }

  /** One run of several on the same decompressor. */
  datatype Turn = Turn(r: Result<seq<byte>, Cause>, out: seq<byte>, digest: word)

  ghost predicate Right(turn: Turn, data: seq<byte>, seed: word, older: nat) {
    ComesTo(data, older, true, turn.r, turn.out) && (turn.r.Ok? ==> turn.digest == XXH32(seed, turn.out))
  }

  method OneTurn(d: LZ4DecompressData, data: seq<byte>, seed: word) returns (turn: Turn, ghost older: nat)
    requires d !in d.base.Repr() && d.base.Intact()
    modifies d.Repr()
    ensures Right(turn, data, seed, older) && d.base.Intact()
    ensures DecodeStream(data) != Err(BadBlock) ==> turn.r == DecodeStream(data)
  {
    hide ComesTo, XXH32, DecodeBase.Valid, DecodeBase.Intact;
    var r, out, digest;
    r, out, digest, older := DecompressAgain(d, data, seed);
    turn := Turn(r, out, digest);
  }

  /**
   * One decompressor on any streams, one after the other, whatever the earlier ones came to: the first as on a fresh one,
   * and each as on a fresh one if and only if the bytes left to reach rescue no record of it.
   */
  method DecompressInTurn(streams: seq<seq<byte>>, seed: word) returns (turns: seq<Turn>, ghost olders: seq<nat>)
    requires |streams| > 0
    ensures |turns| == |olders| == |streams| && olders[0] == 0
    ensures forall k :: 0 <= k < |streams| ==> Right(turns[k], streams[k], seed, olders[k])
    ensures turns[0].r == DecodeStream(streams[0])
    ensures forall k :: 0 <= k < |streams| && DecodeStream(streams[k]) != Err(BadBlock) ==> turns[k].r == DecodeStream(streams[k])
  {
    hide Right, ComesTo, DecodeStream, XXH32, DecodeBase.Valid, DecodeBase.Intact;
    var d := new LZ4DecompressData(streams[0], seed);
    var r, out, digest := DecompressAll(d);
    turns, olders := [Turn(r, out, digest)], [0];
    IsRight(turns[0], streams[0], seed, 0);
    AcceptedAsByAFreshOne(streams[0], 0, r, out);
    for k := 1 to |streams|
      invariant fresh(d.Repr()) && d !in d.base.Repr() && d.base.Intact()
      invariant |turns| == |olders| == k && olders[0] == 0
      invariant forall j :: 0 <= j < k ==> Right(turns[j], streams[j], seed, olders[j])
      invariant turns[0].r == DecodeStream(streams[0])
      invariant forall j :: 0 <= j < k && DecodeStream(streams[j]) != Err(BadBlock) ==> turns[j].r == DecodeStream(streams[j])
    {
      var turn;
      ghost var older;
      turn, older := OneTurn(d, streams[k], seed);
      turns, olders := turns + [turn], olders + [older];
    }
  }

  lemma IsRight(turn: Turn, data: seq<byte>, seed: word, older: nat)
    requires ComesTo(data, older, true, turn.r, turn.out) && (turn.r.Ok? ==> turn.digest == XXH32(seed, turn.out))
    ensures Right(turn, data, seed, older)
  {
  }

  /** One compressor on any inputs, one after the other, whatever the earlier ones came to: each as on a fresh one. */
  method CompressInTurn(enc: Encoder, inputs: seq<seq<byte>>, seed: word) returns (results: seq<Option<seq<byte>>>, digests: seq<word>)
    ensures |results| == |digests| == |inputs|
    ensures forall k :: 0 <= k < |inputs| ==>
      results[k] == CompressStream(enc, inputs[k]) && (results[k].Some? ==> digests[k] == XXH32(seed, inputs[k]))
  {
    hide CompressStream, XXH32, CompressBase.Valid, CompressBase.Intact;
    var c := new LZ4CompressData(enc, [], seed);
    results, digests := [], [];
    for k := 0 to |inputs|
      invariant fresh(c.Repr()) && c !in c.base.Repr() && c.base.Intact() && c.base.stream.enc == enc
      invariant |results| == |digests| == k
      invariant forall j :: 0 <= j < k ==>
        results[j] == CompressStream(enc, inputs[j]) && (results[j].Some? ==> digests[j] == XXH32(seed, inputs[j]))
    {
      var r, digest := CompressAgain(c, inputs[k], seed);
      results, digests := results + [r], digests + [digest];
    }
  }

  // ----- after a run read in pieces, which may have failed or been left half-way

  method ReadThenDecompress(first: seq<byte>, sizes: seq<nat>, second: seq<byte>, seed: word)
    returns (pieces: seq<seq<byte>>, turn: Turn, ghost older: nat)
    requires forall k :: 0 <= k < |sizes| ==> sizes[k] > 0
    ensures Concat(pieces) <= Decoding(first).bytes && EmptyAtTheEnd(pieces, Decoding(first))
    ensures Right(turn, second, seed, older)
  {
    hide Decoding, EmptyAtTheEnd, Right, ComesTo, XXH32, Source.Ready, DecodeBase.Intact;
    var s := FreshDecompressor(first, seed);
    var fault;
    pieces, fault := ReadPieces(s, Decoding(first), sizes);
    turn, older := OneTurn(s.dd, second, seed);
  }

  method ReadThenCompress(enc: Encoder, first: seq<byte>, sizes: seq<nat>, second: seq<byte>, seed: word)
    returns (pieces: seq<seq<byte>>, r: Option<seq<byte>>, digest: word)
    requires forall k :: 0 <= k < |sizes| ==> sizes[k] > 0
    ensures Concat(pieces) <= Encoding(enc, first).bytes && EmptyAtTheEnd(pieces, Encoding(enc, first))
    ensures r == CompressStream(enc, second) && (r.Some? ==> digest == XXH32(seed, second))
  {
    hide Encoding, EmptyAtTheEnd, CompressStream, XXH32, Source.Ready, CompressBase.Intact;
    var s := FreshCompressor(enc, first, seed);
    var fault;
    pieces, fault := ReadPieces(s, Encoding(enc, first), sizes);
    r, digest := CompressAgain(s.cd, second, seed);
  }

  /** Read in pieces, stopped anywhere, reset, and read in pieces again, on a stream a fresh one accepts. */
  method ReadThenRead(first: seq<byte>, sizes: seq<nat>, second: seq<byte>, sizes': seq<nat>, seed: word)
    returns (pieces: seq<seq<byte>>, again: seq<seq<byte>>)
    requires forall k :: 0 <= k < |sizes| ==> sizes[k] > 0
    requires (forall k :: 0 <= k < |sizes'| ==> sizes'[k] > 0) && DecodeStream(second).Ok?
    ensures Concat(pieces) <= Decoding(first).bytes && EmptyAtTheEnd(pieces, Decoding(first))
    ensures |again| == |sizes'| && Concat(again) <= DecodeStream(second).value && EmptyAtTheEnd(again, Decoding(second))
  {
    hide EmptyAtTheEnd, Source.Ready, DecodeBase.Intact, DecodeFrom, DecodedFrom, RescuedFrom;
    var s := FreshDecompressor(first, seed);
    var fault;
    pieces, fault := ReadPieces(s, Decoding(first), sizes);
    OnlyRefusalsAreRescued(second, 0, [], s.dd.base.stream.spans.prefix.Size());
    DecodedIsTheStream(second, 0, []);
    var t := UsedDecompressor(s.dd, second, seed);
    again, fault := ReadPieces(t, Decoding(second), sizes');
  }

  // ----- what a reset decompressor takes that a fresh one refuses

  /** After any run that has put something out, some stream that a fresh one refuses at once gets past its first record. */
  method AcceptsAfterAReset(d: LZ4DecompressData, seed: word) returns (refused: seq<byte>, it: Result<seq<byte>, Cause>)
    requires d !in d.base.Repr() && d.base.Valid() && d.base.plain != []
    modifies d.Repr()
    ensures Decoded(refused) == Outcome([], Some(BadBlock))
    ensures it.Ok? && it.value != []
  {
    hide DecodeBase.Valid, DecodeBase.Intact, Rescued, RescuedFrom, Decoded, StepAt;
    refused := [9, 0] + EARLY_MATCH;
    d.base.WhatAResetLeaves();
    EarlyMatchIsRescued();
    MoreRescues(refused, 1, d.base.stream.spans.prefix.Size());
    d.Reset(refused, seed);
    it := d.Init();
  }

  lemma MoreRescues(data: seq<byte>, a: nat, b: nat)
    requires a <= b && Rescued(data, 0, [], a)
    ensures Rescued(data, 0, [], b)
  {
    hide BodyAt, Decode, SizeFrom;
    MoreReach(a, b, BodyAt(data, 0).value, 0, BLOCK_SIZE);
  }

  /** A run on one record, a reset, and a stream that a fresh decompressor refuses. */
  method ResetAcceptsRefused(seed: word) returns (first: Result<seq<byte>, Cause>, refused: seq<byte>, it: Result<seq<byte>, Cause>)
    ensures first == Ok([7]) && DecodeStream(refused) == Err(BadBlock) && it.Ok? && it.value != []
  {
    hide ComesTo, Decoded, RescuedFrom, DecodeBase.Valid, DecodeBase.Intact, DecodeFrom, DecodedFrom;
    OneRecordDecodes();
    var data: seq<byte>, out, digest := [2, 0, 16, 7], [], 0;
    var d := new LZ4DecompressData(data, seed);
    first, out, digest := DecompressAll(d);
    AcceptedAsByAFreshOne(data, 0, first, out);
    refused, it := AcceptsAfterAReset(d, seed);
    RefusedAtOnce(refused);
  }

  lemma RefusedAtOnce(data: seq<byte>)
    requires Decoded(data) == Outcome([], Some(BadBlock))
    ensures DecodeStream(data) == Err(BadBlock)
  {
    hide DecodeFrom, DecodedFrom;
    DecodedIsTheStream(data, 0, []);
  }
}
