/** The ring a stream's blocks go through: 256 KB, plus room for one more block before it wraps. */
module Lz4Ring {
  import opened Bytes
  import opened Lz4Memory

  const BLOCK_SIZE: nat := 2048
  const RING_BYTES: nat := 264192
  const WRAP_SIZE: nat := RING_BYTES - BLOCK_SIZE

  /** LZ4_COMPRESSBOUND of a block: the most one compresses to. */
  const MAX_COMPRESSED: nat := 2072

  /** Where the block after one of `n` bytes at `offset` goes. */
  function Advance(offset: nat, n: nat): nat {
    if offset + n >= WRAP_SIZE then 0 else offset + n
  }

  /**
   * A codec whose next block goes to `offset` of the ring, after `length` bytes: it extends the current lap from its
   * start, and whatever it needs from before the lap ends past WRAP_SIZE or lies in another buffer.
   */
  ghost predicate Laps(spans: Spans, ring: array<byte>, offset: nat, length: nat)
    ensures Laps(spans, ring, offset, length) ==>
      ring.Length == RING_BYTES && offset < WRAP_SIZE && spans.InBounds() && spans.Facing(ring, offset).InBounds()
  {
    && ring.Length == RING_BYTES && offset < WRAP_SIZE && spans.InBounds()
    && var f := spans.Facing(ring, offset);
      f.prefix == Span(ring, 0, offset) && (f.ext.buf == ring && length > offset ==> f.ext.end >= WRAP_SIZE)
  }

  /** Writing a block never touches the 64 KB a codec may reach. */
  lemma NextBlockIsClear(spans: Spans, ring: array<byte>, offset: nat, length: nat)
    requires Laps(spans, ring, offset, length)
    ensures spans.Facing(ring, offset).InBounds()
    ensures spans.Facing(ring, offset).Clear(length, offset + BLOCK_SIZE)
  {
  }

  lemma LapsLeaveRoom(spans: Spans, ring: array<byte>, offset: nat, length: nat)
    requires Laps(spans, ring, offset, length)
    ensures offset + BLOCK_SIZE <= ring.Length
  {
  }

  /**
   * After a block of `n` bytes the codec is set for the next one, past a wrap too; and however much it reached, with
   * `older` bytes from before the history, it reaches that and the block.
   */
  lemma LapsGoOn(spans: Spans, ring: array<byte>, offset: nat, length: nat, n: nat, older: nat)
    requires Laps(spans, ring, offset, length) && 0 < n <= BLOCK_SIZE
    ensures var t := spans.Facing(ring, offset).Extended(n);
      && Laps(t, ring, Advance(offset, n), length + n)
      && (spans.Facing(ring, offset).Exact(length + older) ==> t.Facing(ring, Advance(offset, n)).Exact(length + n + older))
  {
  }

  /** A codec that moves away from a segment long enough for its window finds the same history behind it. */
  lemma MovingAwayKeeps(t: Spans, buf: array<byte>, at: nat, history: seq<byte>)
    requires t.InBounds() && at <= buf.Length && !t.Contiguous(buf, at)
    requires t.Holds(history) && Min(|history|, WINDOW) <= t.prefix.Size()
    ensures t.Facing(buf, at).InBounds() && t.Facing(buf, at).Holds(history)
  {
    var u := t.Facing(buf, at);
    var c := Content(t.prefix.buf);
    forall d | 1 <= d <= Min(|history|, WINDOW)
      ensures u.BackIn(Content(buf), c, d) == history[|history| - d]
    {
      assert t.BackIn(c, Content(t.ext.buf), d) == history[|history| - d];
    }
  }

  /** The history a codec holds at the end of a block it still holds at the start of the next, past a wrap too. */
  lemma HistoryGoesOn(spans: Spans, ring: array<byte>, offset: nat, length: nat, n: nat, history: seq<byte>)
    requires Laps(spans, ring, offset, length) && 0 < n <= BLOCK_SIZE
    requires spans.Facing(ring, offset).Extended(n).Holds(history)
    ensures var t := spans.Facing(ring, offset).Extended(n);
      t.Facing(ring, Advance(offset, n)).InBounds() && t.Facing(ring, Advance(offset, n)).Holds(history)
  {
    if offset + n >= WRAP_SIZE {
      MovingAwayKeeps(spans.Facing(ring, offset).Extended(n), ring, 0, history);
    }
  }

  /** A codec is always set for the ring's start with no history, whatever it was shown before. */
  lemma LapsBegin(spans: Spans, ring: array<byte>)
    requires ring.Length == RING_BYTES && spans.InBounds()
    ensures Laps(spans, ring, 0, 0) && spans.Facing(ring, 0).Holds([])
    ensures spans.Facing(ring, 0).Reach() == spans.prefix.Size() && spans.Facing(ring, 0).Exact(spans.prefix.Size())
  {
  }

  /** The segments of a codec that has only ever been shown `ring`. */
  ghost predicate OnlyIn(spans: Spans, ring: array<byte>) {
    && (spans.prefix.buf == null || spans.prefix.buf == ring)
    && (spans.ext.buf == null || spans.ext.buf == ring)
  }

  /** The segments of a codec that has only been shown `out[..total]`, in one piece. */
  ghost predicate Flat(spans: Spans, out: array<byte>, total: nat)
    ensures Flat(spans, out, total) ==> spans.InBounds() && total <= out.Length && spans.Facing(out, total).InBounds()
  {
    total <= out.Length && spans.InBounds() && spans.Facing(out, total) == Spans(Span(out, 0, total), NO_SPAN)
  }

  lemma FlatBegins(out: array<byte>)
    ensures Flat(Spans(NO_SPAN, NO_SPAN), out, 0) && Spans(NO_SPAN, NO_SPAN).Facing(out, 0).Holds([])
  {
  }

  /** Leaving the flat buffer for the start of a ring, with the window full. */
  lemma FlatThenLaps(spans: Spans, out: array<byte>, total: nat, ring: array<byte>, history: seq<byte>)
    requires Flat(spans, out, total) && |history| == total >= WRAP_SIZE && spans.Facing(out, total).Holds(history)
    requires ring.Length == RING_BYTES && ring != out
    ensures Laps(spans, ring, 0, total) && spans.Facing(ring, 0).Holds(history) && spans.Facing(ring, 0).Exact(total)
  {
    MovingAwayKeeps(spans, ring, 0, history);
  }

  /** A lap is 128 whole blocks: after `length` bytes, all whole blocks, and one more block, the ring is where it should be. */
  lemma AdvanceByBlocks(length: nat, len: nat)
    requires length % BLOCK_SIZE == 0 && 0 < len <= BLOCK_SIZE
    ensures var k := length / BLOCK_SIZE;
      && (BLOCK_SIZE * (k % 128) > 0 <==> k % 128 != 0)
      && ((length + len) % BLOCK_SIZE == 0 ==>
            Advance(BLOCK_SIZE * (k % 128), len) == BLOCK_SIZE * ((length + len) / BLOCK_SIZE % 128))
  {
    var k := length / BLOCK_SIZE;
    assert length == BLOCK_SIZE * k;
    if k % 128 == 127 {
      assert (k + 1) % 128 == 0;
    } else {
      assert (k + 1) % 128 == k % 128 + 1;
    }
  }
}
