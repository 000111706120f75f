/** `decompress_lz4`: headers first, then the blocks, the first 256 KB straight into one buffer and the rest through a ring. */
module Lz4DecompressOneShot {
  import opened Bytes
  import opened Lz4Block
  import opened Lz4Decoder
  import opened Lz4DecodeBase
  import opened Lz4DecompressData
  import opened Lz4Frames
  import opened Lz4Memory
  import opened Lz4Ring
  import opened Xxh32

  const RESERVE_RATIO: nat := 16

  /** How many records are framed correctly before the end or the first framing error. */
  function Framed(data: seq<byte>, pos: nat): nat
    requires pos <= |data|
    decreases |data| - pos
  {
    if pos == |data| then 0
    else
      match BodyAt(data, pos)
      case None => 0
      case Some(c) => 1 + Framed(data, pos + 2 + |c|)
  }

  predicate EndsBadly(data: seq<byte>, pos: nat)
    requires pos <= |data|
    decreases |data| - pos
  {
    pos < |data| && match BodyAt(data, pos) case None => true case Some(c) => EndsBadly(data, pos + 2 + |c|)
  }

  /** The first pass: the block headers only. */
  method WalkHeaders(data: seq<byte>) returns (blocks: nat, framingError: bool)
    ensures blocks == Framed(data, 0) && framingError == EndsBadly(data, 0)
  {
    var pos := 0;
    blocks, framingError := 0, false;
    while pos < |data|
      invariant pos <= |data|
      invariant blocks + Framed(data, pos) == Framed(data, 0)
      invariant EndsBadly(data, pos) == EndsBadly(data, 0)
    {
      if |data| - pos < 2 {
        framingError := true;
        break;
      }
      var cmpBytes := U16(data[pos], data[pos + 1]);
      if cmpBytes > MAX_COMPRESSED || cmpBytes > |data| - pos - 2 {
        framingError := true;
        break;
      }
      pos := pos + 2 + cmpBytes;
      blocks := blocks + 1;
    }
  }

  /** The body the first pass has already found to be framed correctly. */
  method BodyOf(data: seq<byte>, pos: nat) returns (src: seq<byte>)
    requires pos <= |data| && Framed(data, pos) > 0
    ensures pos < |data| && pos + 2 + |src| <= |data|
    ensures BodyAt(data, pos) == Some(src)
    ensures Framed(data, pos) == 1 + Framed(data, pos + 2 + |src|) && EndsBadly(data, pos) == EndsBadly(data, pos + 2 + |src|)
  {
    var cmpBytes := U16(data[pos], data[pos + 1]);
    src := data[pos + 2..pos + 2 + cmpBytes];
  }

  /** Once no framed record is left, the stream ends well or with the framing error. */
  lemma NothingLeft(data: seq<byte>, pos: nat, history: seq<byte>)
    requires pos <= |data| && Framed(data, pos) == 0
    ensures DecodeFrom(data, pos, history) == if EndsBadly(data, pos) then Err(Framing) else Ok(history)
  {
  }

  /** A framed record's block is the next step of the stream; its refusal is the stream's error. */
  lemma RecordSteps(data: seq<byte>, pos: nat, history: seq<byte>, c: seq<byte>)
    requires pos < |data| && BodyAt(data, pos) == Some(c)
    ensures var b := Decode(history, c, BLOCK_SIZE);
      DecodeFrom(data, pos, history) ==
        if b.None? || b.value == [] then Err(BadBlock) else DecodeFrom(data, pos + 2 + |c|, history + b.value)
  {
    hide Decode, BodyAt;
  }

  /** Decodes one block at `out[total..]`. */
  method FlatDecode(stream: StreamDecode, out: array<byte>, total: nat, src: seq<byte>) returns (n: int)
    requires Flat(stream.spans, out, total) && total + BLOCK_SIZE <= out.Length
    requires stream.spans.Facing(out, total).Holds(out[..total])
    modifies stream, out
    ensures n <= BLOCK_SIZE
    ensures var decoded := Decode(old(out[..total]), src, BLOCK_SIZE);
      if decoded.Some? then n == |decoded.value| && out[..total + n] == old(out[..total]) + decoded.value else n < 0
    ensures n > 0 ==>
      Flat(stream.spans, out, total + n) && stream.spans.Facing(out, total + n).Holds(out[..total + n])
  {
    hide Spans.Holds, Spans.HeldIn, Decode;
    ghost var before := out[..total];
    n := stream.DecompressSafeContinue(src, out, total, BLOCK_SIZE, out[..total]);
    assert out[..total] == before;
    if n >= 0 {
      assert out[..total + n] == out[..total] + out[total..total + n];
    }
  }

  /** The contiguous phase: until the output reaches the size at which the classes' ring wraps. */
  method DecodeFlat(data: seq<byte>, blocks: nat, out: array<byte>, stream: StreamDecode)
    returns (ok: bool, b: nat, pos: nat, total: nat)
    requires blocks == Framed(data, 0) && out.Length == Min(blocks * BLOCK_SIZE, RING_BYTES)
    requires stream.spans == Spans(NO_SPAN, NO_SPAN)
    modifies stream, out
    ensures !ok ==> DecodeStream(data) == Err(BadBlock)
    ensures ok ==> b <= blocks && pos <= |data| && Framed(data, pos) == blocks - b && EndsBadly(data, pos) == EndsBadly(data, 0)
    ensures ok ==> total <= out.Length && total < 264192 && (b < blocks ==> total >= 262144)
    ensures ok ==> DecodeStream(data) == DecodeFrom(data, pos, out[..total])
    ensures ok ==> Flat(stream.spans, out, total) && stream.spans.Facing(out, total).Holds(out[..total])
  {
    hide Spans.Holds, Flat, Decode, BodyAt, DecodeFrom, Framed, EndsBadly;
    ok, b, pos, total := true, 0, 0, 0;
    FlatBegins(out);
    assert out[..0] == [];
    while b < blocks && total < WRAP_SIZE
      invariant b <= blocks && pos <= |data| && Framed(data, pos) == blocks - b && EndsBadly(data, pos) == EndsBadly(data, 0)
      invariant total <= b * BLOCK_SIZE && total <= out.Length && total < RING_BYTES
      invariant DecodeStream(data) == DecodeFrom(data, pos, out[..total])
      invariant Flat(stream.spans, out, total) && stream.spans.Facing(out, total).Holds(out[..total])
    {
      var src := BodyOf(data, pos);
      RecordSteps(data, pos, out[..total], src);
      var n := FlatDecode(stream, out, total, src);
      if n <= 0 {
        return false, b, pos, total;
      }
      total := total + n;
      pos := pos + 2 + |src|;
      b := b + 1;
    }
  }

  /** The rest of the stream through a ring, exactly as the classes do, appended to `spill`. */
  method DecodeRing(data: seq<byte>, blocks: nat, b0: nat, pos0: nat, stream: StreamDecode, ring: array<byte>, spill0: seq<byte>)
    returns (ok: bool, spill: seq<byte>)
    requires b0 <= blocks && pos0 <= |data| && Framed(data, pos0) == blocks - b0
    requires Laps(stream.spans, ring, 0, |spill0|)
    requires stream.spans.Facing(ring, 0).Holds(spill0) && stream.spans.Facing(ring, 0).Exact(|spill0|)
    modifies stream, ring
    ensures DecodeFrom(data, pos0, spill0) ==
      if !ok then Err(BadBlock) else if EndsBadly(data, pos0) then Err(Framing) else Ok(spill)
    ensures |spill0| <= |spill|
  {
    hide Laps, Spans.Holds, Spans.Exact, Decode, DecodedSize, BodyAt, DecodeFrom, Framed, EndsBadly;
    spill := spill0;
    var b: nat, pos: nat, roff: nat := b0, pos0, 0;
    while b < blocks
      invariant b <= blocks && pos <= |data| && Framed(data, pos) == blocks - b && EndsBadly(data, pos) == EndsBadly(data, pos0)
      invariant DecodeFrom(data, pos0, spill0) == DecodeFrom(data, pos, spill) && |spill0| <= |spill|
      invariant stream.spans.InBounds() && Laps(stream.spans, ring, roff, |spill|)
      invariant stream.spans.Facing(ring, roff).InBounds()
      invariant stream.spans.Facing(ring, roff).Holds(spill) && stream.spans.Facing(ring, roff).Exact(|spill|)
    {
      var src := BodyOf(data, pos);
      RecordSteps(data, pos, spill, src);
      DecodeSize(spill, src, BLOCK_SIZE);
      var n, next := RingDecode(stream, ring, roff, src, spill, 0);
      if n <= 0 {
        return false, spill;
      }
      spill := spill + ring[roff..roff + n];
      pos := pos + 2 + |src|;
      roff := next;
      b := b + 1;
    }
    NothingLeft(data, pos, spill);
    ok := true;
  }

  /** `decompress_lz4`; `reserved` is the most it sets aside before it has decoded anything that fills it. */
  method DecompressLz4(compressed: seq<byte>) returns (r: Result<seq<byte>, Cause>, reserved: nat)
    ensures r == DecodeStream(compressed)
    ensures reserved <= Max(264192, 16 * |compressed|) && reserved >= Min(2048 * Framed(compressed, 0), 264192)
    ensures r.Ok? && |r.value| >= 264192 ==> reserved >= Min(2048 * Framed(compressed, 0), 16 * |compressed|)
  {
    hide Spans.Holds, Spans.Exact, Laps, Flat, DecodeStream, Framed, EndsBadly;
    var blocks, framingError := WalkHeaders(compressed);
    var capacity := Min(blocks * BLOCK_SIZE, RING_BYTES);
    var out := new byte[capacity];
    reserved := capacity;
    var stream := new StreamDecode();
    var ok, b, pos, total := DecodeFlat(compressed, blocks, out, stream);
    if !ok {
      return Err(BadBlock), reserved;
    }
    var spill := [];
    if b < blocks {
      reserved := Max(reserved, Max(total, Min(blocks * BLOCK_SIZE, RESERVE_RATIO * |compressed|)));
      spill := out[..total];
      var ring := new byte[RING_BYTES];
      FlatThenLaps(stream.spans, out, total, ring, spill);
      ok, spill := DecodeRing(compressed, blocks, b, pos, stream, ring, spill);
      if !ok {
        return Err(BadBlock), reserved;
      }
    } else {
      NothingLeft(compressed, pos, out[..total]);
    }
    if framingError {
      return Err(Framing), reserved;
    }
    if spill != [] {
      return Ok(spill), reserved;
    }
    r := Ok(out[..total]);
  }

  /** The one-shot and a full run of the class agree on every byte string: the same bytes, or the same cause. */
  method BothDecompress(data: seq<byte>, seed: word) returns (one: Result<seq<byte>, Cause>, run: Result<seq<byte>, Cause>)
    ensures one == run
  {
    var reserved;
    one, reserved := DecompressLz4(data);
    var d := new LZ4DecompressData(data, seed);
    var out, digest;
    run, out, digest := DecompressAll(d);
  }
}
