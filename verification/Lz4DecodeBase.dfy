/** What the two streaming decoders share: the ring, the record buffer, the running digest, and one block's decoding. */
module Lz4DecodeBase {
  import opened Bytes
  import opened Lz4Block
  import opened Lz4Decoder
  import opened Lz4Frames
  import opened Lz4Memory
  import opened Lz4Ring
  import opened Xxh32
  import opened Xxh32Chunks
  import opened Xxh32Stream

  /**
   * Decodes one block at `offset` of the ring; `next` is where the one after it goes. The codec may reach `older` bytes
   * from before the history; how much it decodes depends on that, and what it decodes does not, if the history is enough.
   */
  method RingDecode(stream: StreamDecode, ring: array<byte>, offset: nat, src: seq<byte>, ghost history: seq<byte>, ghost older: nat)
    returns (n: int, next: nat)
    requires Laps(stream.spans, ring, offset, |history|) && stream.spans.Facing(ring, offset).Holds(history)
    requires stream.spans.Facing(ring, offset).Exact(|history| + older)
    modifies stream, ring
    ensures n <= BLOCK_SIZE && offset + n <= ring.Length
    ensures var size := DecodedSize(|history| + older, src, BLOCK_SIZE); if size.Some? then n == size.value else n < 0
    ensures var decoded := Decode(history, src, BLOCK_SIZE);
      decoded.Some? ==> n == |decoded.value| && ring[offset..offset + n] == decoded.value
    ensures n > 0 ==>
      && next == Advance(offset, n) && Laps(stream.spans, ring, next, |history| + n)
      && stream.spans.Facing(ring, next).Holds(history + ring[offset..offset + n])
      && stream.spans.Facing(ring, next).Exact(|history| + n + older)
    ensures n <= 0 ==> stream.spans.prefix == old(stream.spans.prefix)
    ensures OnlyIn(old(stream.spans), ring) ==> OnlyIn(stream.spans, ring)
    ensures stream.spans.InBounds()
  {
    hide Spans.Holds, Spans.HeldIn, Spans.Clear, Spans.Exact, Decode, DecodedSize;
    NextBlockIsClear(stream.spans, ring, offset, |history|);
    ghost var spans := stream.spans;
    ExactSize(spans.Facing(ring, offset), |history| + older, src, BLOCK_SIZE);
    next := offset;
    n := stream.DecompressSafeContinue(src, ring, offset, BLOCK_SIZE, history);
    if n > 0 {
      LapsGoOn(spans, ring, offset, |history|, n, older);
      HistoryGoesOn(spans, ring, offset, |history|, n, history + ring[offset..offset + n]);
      next := Advance(offset, n);
    }
  }

  class DecodeBase {
    var size: nat
    var offset: nat
    const cmpBuf: array<byte>
    const buffer: array<byte>
    const xxh: State
    const stream: StreamDecode

    ghost var seed: word
    ghost var plain: seq<byte>   // all that has been decoded since the last reset
    ghost var older: nat         // how much it could reach of what it had decoded before that

    ghost function Repr(): set<object> {
      {this, cmpBuf, buffer, stream} + xxh.Repr()
    }

    /** What holds after an error as well. */
    ghost predicate Intact()
      reads Repr()
      ensures Intact() ==> cmpBuf.Length == MAX_COMPRESSED && stream.spans.InBounds()
    {
      && cmpBuf.Length == MAX_COMPRESSED && buffer.Length == RING_BYTES
      && cmpBuf != buffer && xxh.mem != cmpBuf && xxh.mem != buffer
      && xxh.Valid()
      && RingOnly()
    }

    ghost predicate RingOnly()
      reads stream
    {
      stream.spans.InBounds() && OnlyIn(stream.spans, buffer)
    }

    ghost predicate Valid()
      reads Repr()
      ensures Valid() ==> Intact()
    {
      && Intact()
      && Remembers(plain)
      && Represents(xxh.Abs(), seed, plain)
      && size == |plain|
    }

    /** The ring still holds what the next block may need of `history`. */
    ghost predicate Remembers(history: seq<byte>)
      requires RingOnly()
      reads this`offset, this`older, stream, buffer
    {
      && Laps(stream.spans, buffer, offset, |history|)
      && var f := stream.spans.Facing(buffer, offset);
        f.Holds(history) && f.Exact(|history| + older)
    }

    constructor (seed: word)
      ensures Valid() && fresh(Repr())
      ensures this.seed == seed && plain == [] && older == 0
    {
      hide Laps, Represents, Fresh, WellFormed, Spans.Holds, Spans.Exact;
      size, offset := 0, 0;
      cmpBuf := new byte[MAX_COMPRESSED];
      buffer := new byte[RING_BYTES];
      xxh := new State(seed);
      stream := new StreamDecode();
      this.seed, plain, older := seed, [], 0;
      new;
      FreshRepresentsNothing(seed);
      LapsBegin(stream.spans, buffer);
    }

    /** `_reset`: the decoder's own history is not cleared, and what it decoded last can still be reached. */
    method Reset(seed: word)
      requires Intact()
      modifies Repr()
      ensures Valid() && this.seed == seed && plain == [] && stream.spans == old(stream.spans)
      ensures older == old(stream.spans.prefix.Size())
    {
      hide Laps, Represents, Fresh, WellFormed, Spans.Holds, Spans.Exact;
      size, offset := 0, 0;
      xxh.Reset(seed);
      this.seed, plain, older := seed, [], stream.spans.prefix.Size();
      FreshRepresentsNothing(seed);
      LapsBegin(stream.spans, buffer);
    }

    /** What a reset will leave to reach: the current lap, or the whole last one right after a wrap. */
    lemma WhatAResetLeaves()
      requires Valid()
      ensures offset > 0 ==> stream.spans.prefix.Size() == offset
      ensures plain != [] ==> stream.spans.prefix.Size() > 0
    {
      hide Represents, WellFormed;
      if offset == 0 {
        ReachesTheHistory(stream.spans.Facing(buffer, offset), plain);
      }
    }

    /** Puts (a part of) a record body into `cmpBuf`. */
    method Load(at: nat, s: seq<byte>)
      requires Valid() && at + |s| <= cmpBuf.Length
      modifies cmpBuf
      ensures Valid() && cmpBuf[..at + |s|] == old(cmpBuf[..at]) + s
      ensures forall k :: at + |s| <= k < cmpBuf.Length ==> cmpBuf[k] == old(cmpBuf[k])
    {
      hide Remembers, Represents, WellFormed;
      Store(cmpBuf, at, s);
    }

    /** Decodes the record body in `cmpBuf` at the ring's offset, and moves the offset on. */
    method DecodeIntoRing(cmpBytes: nat) returns (n: int)
      requires Intact() && Remembers(plain) && cmpBytes <= MAX_COMPRESSED
      modifies this`offset, buffer, stream
      ensures Intact() && xxh.Abs() == old(xxh.Abs()) && n <= BLOCK_SIZE
      ensures var decoded := Decode(plain, old(cmpBuf[..cmpBytes]), BLOCK_SIZE);
        decoded.Some? ==> n == |decoded.value| && buffer[old(offset)..old(offset) + n] == decoded.value
      ensures n > 0 <==> Fits(|plain| + older, old(cmpBuf[..cmpBytes]), BLOCK_SIZE)
      ensures n > 0 ==> old(offset) + n <= buffer.Length && Remembers(plain + buffer[old(offset)..old(offset) + n])
    {
      hide Laps, Spans.Holds, Spans.HeldIn, Spans.Exact, Decode;
      n, offset := RingDecode(stream, buffer, offset, cmpBuf[..cmpBytes], plain, older);
    }

    /** One record: the block, which goes into the digest too, or the decoder's refusal. */
    method DecodeRecord(cmpBytes: nat) returns (r: Result<seq<byte>, Cause>)
      requires Valid() && cmpBytes <= MAX_COMPRESSED
      modifies Repr() - {cmpBuf}
      ensures var decoded := Decode(old(plain), old(cmpBuf[..cmpBytes]), BLOCK_SIZE);
        decoded.Some? && decoded.value != [] ==> r == Ok(decoded.value)
      ensures r.Ok? <==> Fits(|old(plain)| + older, old(cmpBuf[..cmpBytes]), BLOCK_SIZE)
      ensures r.Ok? ==> Valid() && 0 < |r.value| <= BLOCK_SIZE && plain == old(plain) + r.value
      ensures r.Err? ==> Intact() && r.cause == BadBlock && plain == old(plain)
      ensures seed == old(seed) && older == old(older)
    {
      hide Represents, WellFormed, Remembers, Decode, Updated;
      var decPtr := offset;
      ghost var st := xxh.Abs();
      var n := DecodeIntoRing(cmpBytes);
      if n <= 0 {
        return Err(BadBlock);
      }
      var block := buffer[decPtr..decPtr + n];
      var host: Host, kernel: Kernel := *, *;
      xxh.Update(host, kernel, block);
      UpdateAppends(st, seed, plain, block);
      size := size + n;
      plain := plain + block;
      r := Ok(block);
    }

    /** The running digest: XXH32 of everything decoded, however it was cut into blocks. */
    method GetDigest() returns (h: word)
      requires Valid()
      ensures h == XXH32(seed, plain)
    {
      hide Represents, XXH32, Digest, Remembers;
      var host: Host := *;
      h := xxh.DigestAs(host);
      DigestIsOneShot(xxh.Abs(), seed, plain);
    }
  }
}
