/** `compress_lz4`: the first 256 KB straight from the caller's buffer, the rest through a ring. */
module Lz4CompressOneShot {
  import opened Bytes
  import opened Lz4AnyBlocks
  import opened Lz4CompressStreams
  import opened Lz4DecompressData
  import opened Lz4DecompressOneShot
  import opened Lz4Encoder
  import opened Lz4Frames
  import opened Lz4Memory
  import opened Lz4Ring
  import opened Xxh32
  import opened Xxh32Stream

  const RECORD_ROOM: nat := 2 + MAX_COMPRESSED

  /** The records of the first `k` blocks are in `out`, which has room for all of them. */
  ghost predicate Emitted(enc: Encoder, x: seq<byte>, k: nat, out: seq<byte>, o: nat) {
    && k <= Blocks(|x|) && |out| == Blocks(|x|) * 2074 && o <= k * RECORD_ROOM
    && Records(enc, x, k) == Some(out[..o])
  }

  /** Puts the length in front of a body of `n` bytes already at `out[o + 2..]`. */
  method PutHeader(out: array<byte>, o: nat, n: nat)
    requires o + 2 + n <= out.Length && n <= MAX_COMPRESSED
    modifies out
    ensures out[..o + 2 + n] == old(out[..o]) + (Header(n) + old(out[o + 2..o + 2 + n]))
  {
    ghost var body := out[o + 2..o + 2 + n];
    var header := Header(n);
    out[o] := header[0];
    out[o + 1] := header[1];
    assert out[o + 2..o + 2 + n] == body;
    assert out[o..o + 2] == header;
  }

  lemma OneMoreEmitted(enc: Encoder, x: seq<byte>, k: nat, out: seq<byte>, o: nat, out': seq<byte>, n: nat)
    requires Emitted(enc, x, k, out, o) && k < Blocks(|x|) && |out'| == |out|
    requires var c := enc(Calls(x, k + 1)); 0 < n == |c| <= MAX_COMPRESSED && out'[..o + 2 + n] == out[..o] + (Header(n) + c)
    ensures Emitted(enc, x, k + 1, out', o + 2 + n)
  {
  }

  lemma OneMoreCall(x: seq<byte>, k: nat)
    requires k < Blocks(|x|)
    ensures Calls(x, k + 1) == Calls(x, k) + [CallAt(x, k)]
  {
  }

  /** One block straight from the input. */
  method FlatBlock(stream: StreamEncode, input: array<byte>, off: nat, len: nat, out: array<byte>, o: nat, ghost k: nat)
    returns (n: nat)
    requires input != out && k < Blocks(input.Length) && k < 128
    requires off == BlockStart(input.Length, k) < input.Length && off + len == BlockStart(input.Length, k + 1)
    requires Flat(stream.spans, input, off) && stream.spans.Facing(input, off).Holds(input[..off])
    requires stream.calls == Calls(input[..], k)
    requires Emitted(stream.enc, input[..], k, out[..], o)
    modifies stream, out
    ensures Flat(stream.spans, input, off + len) && stream.spans.Facing(input, off + len).Holds(input[..off + len])
    ensures stream.calls == Calls(input[..], k + 1)
    ensures if n == 0 then Record(stream.enc, input[..], k) == None
            else Emitted(stream.enc, input[..], k + 1, out[..], o + 2 + n)
  {
    hide Spans.Holds, Spans.HeldIn, Visible, Calls, Emitted, Flat;
    ghost var x, before := input[..], out[..];
    assert x[..off] == input[..off];
    RoomForARecord(stream.enc, x, k, before, o);
    FlatSees(stream.spans, input, off, len);
    OneMoreCall(x, k);
    n := stream.CompressFastContinue(input, off, len, out, o + 2, MAX_COMPRESSED);
    if n > 0 {
      assert out[..o] == before[..o];
      PutHeader(out, o, n);
      OneMoreEmitted(stream.enc, x, k, before, o, out[..], n);
    }
    FlatIsHeld(stream.spans, input, off + len);
    assert input[..] == x;
  }

  lemma RoomForARecord(enc: Encoder, x: seq<byte>, k: nat, out: seq<byte>, o: nat)
    requires Emitted(enc, x, k, out, o) && k < Blocks(|x|)
    ensures o + RECORD_ROOM <= |out|
  {
  }

  /** In one piece, the encoder sees the last 64 KB of all before the block, and the block goes on from it. */
  lemma FlatSees(spans: Spans, input: array<byte>, off: nat, len: nat)
    requires Flat(spans, input, off) && off + len <= input.Length && 0 < len
    requires spans.Facing(input, off).Holds(input[..off])
    ensures Visible(spans.Facing(input, off)) == Window(input[..off])
    ensures spans.Contiguous(input, off) <==> off > 0
    ensures Flat(spans.Facing(input, off).Extended(len), input, off + len)
    ensures spans.Facing(input, off).Extended(len).Facing(input, off + len).Holds(input[..off + len])
  {
    hide Visible, Window, Spans.HeldIn;
    VisibleIsTheWindow(spans.Facing(input, off), input[..off]);
    FlatHolds(input, off + len);
  }

  /** One piece holds all of itself. */
  lemma FlatHolds(input: array<byte>, end: nat)
    requires end <= input.Length
    ensures Spans(Span(input, 0, end), NO_SPAN).Holds(input[..end])
  {
    var s := Spans(Span(input, 0, end), NO_SPAN);
    forall d | 1 <= d <= Min(end, WINDOW)
      ensures s.BackIn(input[..], [], d) == input[..end][end - d]
    {
    }
  }

  lemma FlatIsHeld(spans: Spans, input: array<byte>, end: nat)
    requires Flat(spans, input, end)
    ensures spans.Facing(input, end).Holds(input[..end])
  {
    hide Spans.Holds;
    FlatHolds(input, end);
  }

  /** The encoder is set for block `k` of `x` at `roff` of the ring, and holds nothing of `out`. */
  ghost predicate Set(stream: StreamEncode, ring: array<byte>, roff: nat, x: seq<byte>, k: nat, out: array<byte>)
    reads stream, ring, stream.spans.prefix.buf, stream.spans.ext.buf
  {
    SetBefore(stream, ring, ring[..], roff, x, k, out)
  }

  /** It was, when the ring held `before`. */
  ghost predicate SetBefore(stream: StreamEncode, ring: array<byte>, before: seq<byte>, roff: nat, x: seq<byte>, k: nat, out: array<byte>)
    reads stream, ring, stream.spans.prefix.buf, stream.spans.ext.buf
  {
    var history := x[..BlockStart(|x|, k)];
    && |before| == ring.Length && stream.calls == Calls(x, k)
    && (k < Blocks(|x|) ==> roff == BLOCK_SIZE * (k % 128))
    && Laps(stream.spans, ring, roff, |history|)
    && stream.spans.prefix.buf != out && stream.spans.ext.buf != out
    && HeldBefore(stream.spans.Facing(ring, roff), ring, before, history)
    && stream.spans.Facing(ring, roff).Exact(|history|)
  }

  /** One block copied into the ring and compressed to `out[o + 2..]`. */
  method CopyAndEncode(stream: StreamEncode, ring: array<byte>, roff: nat, input: array<byte>, off: nat, len: nat,
                       out: array<byte>, o: nat, ghost k: nat)
    returns (n: nat, next: nat)
    requires ring != out && input != out && input != ring && k < Blocks(input.Length) && o + RECORD_ROOM <= out.Length
    requires off == BlockStart(input.Length, k) && off + len == BlockStart(input.Length, k + 1)
    requires Set(stream, ring, roff, input[..], k, out)
    modifies stream, ring, out
    ensures Set(stream, ring, next, input[..], k + 1, out)
    ensures var c := stream.enc(Calls(input[..], k + 1));
      if 0 < |c| <= MAX_COMPRESSED then n == |c| && out[o + 2..o + 2 + n] == c else n == 0
    ensures out[..o] == old(out[..o])
  {
    hide SetBefore, Calls, Blocks;
    ghost var x, before, emitted := input[..], ring[..], out[..o];
    BlocksCover(|x|, k);
    BlocksCover(|x|, k + 1);
    CopyIn(stream, ring, roff, input, off, len, out, k);
    n, next := EncodeSet(stream, ring, before, roff, len, out, o, x, k);
    assert out[..o] == emitted;
    assert input[..] == x;
  }

  /** The block's bytes go to the ring's offset, which touches nothing the encoder may reach. */
  method CopyIn(stream: StreamEncode, ring: array<byte>, roff: nat, input: array<byte>, off: nat, len: nat, out: array<byte>, ghost k: nat)
    requires ring != out && input != ring && k < Blocks(input.Length) && 0 < len <= BLOCK_SIZE
    requires off == BlockStart(input.Length, k) && off + len == BlockStart(input.Length, k + 1)
    requires Set(stream, ring, roff, input[..], k, out)
    modifies ring
    ensures SetBefore(stream, ring, old(ring[..]), roff, input[..], k, out)
    ensures roff + BLOCK_SIZE <= ring.Length && ring[roff..roff + len] == input[off..off + len]
    ensures forall i :: 0 <= i < ring.Length && !(roff <= i < roff + BLOCK_SIZE) ==> ring[i] == old(ring[i])
  {
    hide Spans.HeldIn, Spans.Exact, Calls, Laps, Blocks;
    LapsLeaveRoom(stream.spans, ring, roff, off);
    ghost var x := input[..];
    var block := input[off..off + len];
    Store(ring, roff, block);
    assert ring[roff..roff + len] == block;
    assert input[..] == x;
  }

  /** The block just put there is compressed to `out[o + 2..]`. */
  method EncodeSet(stream: StreamEncode, ring: array<byte>, ghost before: seq<byte>, roff: nat, len: nat, out: array<byte>, o: nat,
                   ghost x: seq<byte>, ghost k: nat)
    returns (n: nat, next: nat)
    requires ring != out && k < Blocks(|x|) && o + RECORD_ROOM <= out.Length && 0 < len <= BLOCK_SIZE
    requires SetBefore(stream, ring, before, roff, x, k, out) && roff + BLOCK_SIZE <= ring.Length
    requires BlockStart(|x|, k) + len == BlockStart(|x|, k + 1) && ring[roff..roff + len] == x[BlockStart(|x|, k)..BlockStart(|x|, k + 1)]
    requires forall i :: 0 <= i < ring.Length && !(roff <= i < roff + BLOCK_SIZE) ==> ring[i] == before[i]
    modifies stream, out
    ensures Set(stream, ring, next, x, k + 1, out)
    ensures var c := stream.enc(Calls(x, k + 1));
      if 0 < |c| <= MAX_COMPRESSED then n == |c| && out[o + 2..o + 2 + n] == c else n == 0
    ensures forall i :: 0 <= i < o ==> out[i] == old(out[i])
  {
    hide Spans.HeldIn, Spans.Exact, HeldBefore, Visible, Calls, Laps, Advance, Blocks, Window;
    ghost var from := BlockStart(|x|, k);
    BlocksCover(|x|, k);
    BlocksCover(|x|, k + 1);
    OneMoreCall(x, k);
    AdvanceByBlocks(from, len);
    assert x[..from] + x[from..from + len] == x[..from + len];
    n, next := RingEncode(stream, ring, roff, len, out, o + 2, MAX_COMPRESSED, before, x[..from]);
  }

  /** One block through the ring. */
  method RingBlock(stream: StreamEncode, ring: array<byte>, roff: nat, input: array<byte>, off: nat, len: nat,
                   out: array<byte>, o: nat, ghost k: nat)
    returns (n: nat, next: nat)
    requires ring != out && input != out && input != ring && k < Blocks(input.Length)
    requires off == BlockStart(input.Length, k) && off + len == BlockStart(input.Length, k + 1)
    requires Set(stream, ring, roff, input[..], k, out) && Emitted(stream.enc, input[..], k, out[..], o)
    modifies stream, ring, out
    ensures Set(stream, ring, next, input[..], k + 1, out)
    ensures if n == 0 then Record(stream.enc, input[..], k) == None
            else Emitted(stream.enc, input[..], k + 1, out[..], o + 2 + n)
  {
    hide Calls, Emitted, Blocks, Laps, Spans.HeldIn, Spans.Exact;
    ghost var x, emitted := input[..], out[..];
    RoomForARecord(stream.enc, x, k, emitted, o);
    n, next := CopyAndEncode(stream, ring, roff, input, off, len, out, o, k);
    assert input[..] == x;
    if n > 0 {
      PutHeader(out, o, n);
      OneMoreEmitted(stream.enc, x, k, emitted, o, out[..], n);
    }
  }

  lemma NothingEmitted(enc: Encoder, x: seq<byte>, out: seq<byte>)
    requires |out| == Blocks(|x|) * RECORD_ROOM
    ensures Emitted(enc, x, 0, out, 0) && Calls(x, 0) == []
  {
  }

  lemma AllEmitted(enc: Encoder, x: seq<byte>, k: nat, out: seq<byte>, o: nat)
    requires Emitted(enc, x, k, out, o) && BlockStart(|x|, k) == |x|
    ensures o <= |out| && CompressStream(enc, x) == Some(out[..o])
  {
  }

  /** From the caller's buffer to the ring, when the classes' ring wraps: block 128. */
  lemma FlatThenSet(stream: StreamEncode, input: array<byte>, ring: array<byte>, k: nat, out: array<byte>)
    requires k < Blocks(input.Length) && BlockStart(input.Length, k) == WRAP_SIZE && ring.Length == RING_BYTES
    requires out != input && out != ring && ring != input
    requires Flat(stream.spans, input, WRAP_SIZE) && stream.spans.Facing(input, WRAP_SIZE).Holds(input[..WRAP_SIZE])
    requires stream.calls == Calls(input[..], k)
    ensures Set(stream, ring, 0, input[..], k, out)
  {
    assert input[..][..WRAP_SIZE] == input[..WRAP_SIZE];
    FlatThenLaps(stream.spans, input, WRAP_SIZE, ring, input[..WRAP_SIZE]);
    FlatIsOnlyThere(stream.spans, input, WRAP_SIZE);
  }

  lemma FlatIsOnlyThere(spans: Spans, input: array<byte>, off: nat)
    requires Flat(spans, input, off) && off > 0
    ensures spans.prefix.buf == input && spans.ext.buf == null
  {
  }

  /** The blocks within the first 256 KB. */
  method CompressFlat(stream: StreamEncode, input: array<byte>, out: array<byte>)
    returns (ok: bool, off: nat, o: nat, ghost k: nat)
    requires input != out && out.Length == Blocks(input.Length) * RECORD_ROOM
    requires stream.spans == Spans(NO_SPAN, NO_SPAN) && stream.calls == []
    modifies stream, out
    ensures !ok ==> CompressStream(stream.enc, input[..]) == None
    ensures ok ==>
      && off == BlockStart(input.Length, k) && (off == input.Length || off == WRAP_SIZE)
      && Flat(stream.spans, input, off) && stream.spans.Facing(input, off).Holds(input[..off])
      && stream.calls == Calls(input[..], k) && Emitted(stream.enc, input[..], k, out[..], o)
  {
    hide Spans.Holds, Calls, Emitted, Flat, CompressStream;
    ok, off, o, k := true, 0, 0, 0;
    ghost var x := input[..];
    FlatBegins(input);
    NothingEmitted(stream.enc, x, out[..]);
    assert input[..0] == [];
    while off < input.Length && off < WRAP_SIZE
      invariant k <= Blocks(input.Length) && off == BlockStart(input.Length, k) <= WRAP_SIZE && input[..] == x
      invariant Flat(stream.spans, input, off) && stream.spans.Facing(input, off).Holds(input[..off])
      invariant stream.calls == Calls(x, k) && Emitted(stream.enc, x, k, out[..], o)
      decreases input.Length - off
    {
      var len := Min(BLOCK_SIZE, input.Length - off);
      var n := FlatBlock(stream, input, off, len, out, o, k);
      if n == 0 {
        RecordFails(stream.enc, x, k);
        return false, off, o, k;
      }
      o := o + 2 + n;
      off := off + len;
      k := k + 1;
    }
  }

  /** The blocks after them. */
  method CompressRing(stream: StreamEncode, input: array<byte>, ring: array<byte>, out: array<byte>, off0: nat, o0: nat, ghost k0: nat)
    returns (ok: bool, o: nat)
    requires ring != out && input != out && input != ring && k0 <= Blocks(input.Length)
    requires off0 == BlockStart(input.Length, k0)
    requires Set(stream, ring, 0, input[..], k0, out) && Emitted(stream.enc, input[..], k0, out[..], o0)
    modifies stream, ring, out
    ensures if ok then o <= out.Length && CompressStream(stream.enc, input[..]) == Some(out[..o])
            else CompressStream(stream.enc, input[..]) == None
  {
    hide Set, Emitted, CompressStream;
    var off: nat, roff: nat := off0, 0;
    o := o0;
    ghost var k: nat, x: seq<byte> := k0, input[..];
    while off < input.Length
      invariant k <= Blocks(input.Length) && off == BlockStart(input.Length, k) && input[..] == x
      invariant Set(stream, ring, roff, x, k, out) && Emitted(stream.enc, x, k, out[..], o)
      decreases input.Length - off
    {
      var len := Min(BLOCK_SIZE, input.Length - off);
      var n, next := RingBlock(stream, ring, roff, input, off, len, out, o, k);
      if n == 0 {
        RecordFails(stream.enc, x, k);
        return false, o;
      }
      o := o + 2 + n;
      off := off + len;
      roff := next;
      k := k + 1;
    }
    AllEmitted(stream.enc, x, k, out[..], o);
    assert out[..][..o] == out[..o];
    ok := true;
  }

  /** `compress_lz4`, on the thread's encoder, whatever that has compressed before. */
  method CompressLz4(stream: StreamEncode, uncompressed: array<byte>) returns (r: Option<seq<byte>>)
    modifies stream
    ensures r == CompressStream(stream.enc, uncompressed[..])
  {
    hide Set, Emitted, CompressStream, Flat, Spans.Holds, Calls;
    var n := uncompressed.Length;
    if n == 0 {
      NothingToCompress(stream.enc);
      assert uncompressed[..] == [];
      return Some([]);
    }
    var blocks := (n + BLOCK_SIZE - 1) / BLOCK_SIZE;
    var out := new byte[blocks * RECORD_ROOM];
    stream.ResetStream();
    ghost var k;
    var ok, off, o;
    ok, off, o, k := CompressFlat(stream, uncompressed, out);
    if !ok {
      return None;
    }
    if off < n {
      var ring := new byte[RING_BYTES];
      BlocksCover(n, k);
      FlatThenSet(stream, uncompressed, ring, k, out);
      ok, o := CompressRing(stream, uncompressed, ring, out, off, o, k);
      if !ok {
        return None;
      }
    } else {
      AllEmitted(stream.enc, uncompressed[..], k, out[..], o);
      assert out[..][..o] == out[..o];
    }
    r := Some(out[..o]);
  }

  lemma NothingToCompress(enc: Encoder)
    ensures CompressStream(enc, []) == Some([])
  {
  }

  /** The one-shot emits what a full run of the class emits, for every input and every encoder. */
  method BothCompress(enc: Encoder, x: array<byte>, seed: word) returns (one: Option<seq<byte>>, run: Option<seq<byte>>)
    ensures one == run
  {
    hide CompressStream;
    var stream := new StreamEncode(enc);
    one := CompressLz4(stream, x);
    var c := new LZ4CompressData(enc, x[..], seed);
    var digest;
    run, digest := CompressAll(c);
  }

  /** Compressing and decompressing gives the input back, and the two digests agree with the one-shot XXH32 of it. */
  method ThereAndBack(enc: Encoder, x: array<byte>, seed: word)
    returns (back: Result<seq<byte>, Cause>, there: word, andBack: word)
    requires Faithful(enc)
    ensures back == Ok(x[..]) && there == andBack == XXH32(seed, x[..])
  {
    hide CompressStream, DecodeStream, XXH32;
    RoundTrip(enc, x[..]);
    var stream := new StreamEncode(enc);
    var one := CompressLz4(stream, x);
    var reserved;
    back, reserved := DecompressLz4(one.value);
    var c := new LZ4CompressData(enc, x[..], seed);
    var run;
    run, there := CompressAll(c);
    var d := new LZ4DecompressData(run.value, seed);
    var again, out;
    again, out, andBack := DecompressAll(d);
  }
}
