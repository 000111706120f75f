/** The streaming block encoder: LZ4's match search as a parameter, shown exactly what lies in memory at each call. */
module Lz4Encoder {
  import opened Bytes
  import opened Lz4Frames
  import opened Lz4Memory
  import opened Lz4Ring

  function BytesOf(s: Span): (r: seq<byte>)
    requires s.InBounds()
    reads s.buf
    ensures |r| == s.Size()
  {
    if s.buf == null then [] else s.buf[s.start..s.end]
  }

  /** The last 64 KB the segments hold. */
  function Visible(s: Spans): seq<byte>
    requires s.InBounds()
    reads s.prefix.buf, s.ext.buf
  {
    Window(BytesOf(s.ext) + BytesOf(s.prefix))
  }

  /** A byte that lies `d` back in the segments' bytes, put one after the other, is the one found at that distance. */
  lemma ByteBack(s: Spans, d: nat)
    requires s.InBounds() && 1 <= d <= s.Reach()
    ensures var all := BytesOf(s.ext) + BytesOf(s.prefix);
      |all| == s.Reach() && all[|all| - d] == s.BackIn(Content(s.prefix.buf), Content(s.ext.buf), d)
  {
  }

  /** What is visible is the last 65536 bytes in reach, each at its distance. */
  lemma VisibleByTheByte(s: Spans)
    requires s.InBounds()
    ensures var w, p, e := Visible(s), Content(s.prefix.buf), Content(s.ext.buf);
      |w| == Min(s.Reach(), 65536) && forall d :: 1 <= d <= |w| ==> w[|w| - d] == s.BackIn(p, e, d)
  {
    hide BytesOf, Spans.BackIn;
    var all := BytesOf(s.ext) + BytesOf(s.prefix);
    ByteBackSize(s);
    var w := Visible(s);
    WindowByTheByte(all);
    forall d | 1 <= d <= |w|
      ensures w[|w| - d] == s.BackIn(Content(s.prefix.buf), Content(s.ext.buf), d)
    {
      ByteBack(s, d);
      assert w[|w| - d] == all[|all| - d];
    }
  }

  lemma VisibleIsTheWindow(s: Spans, history: seq<byte>)
    requires s.InBounds() && s.Holds(history) && s.Exact(|history|)
    ensures Visible(s) == Window(history)
  {
    hide BytesOf, Spans.BackIn;
    var all, m := BytesOf(s.ext) + BytesOf(s.prefix), Min(|history|, WINDOW);
    ReachesTheHistory(s, history);
    ByteBackSize(s);
    assert Visible(s) == all[|all| - m..];
    forall i | 0 <= i < m
      ensures Visible(s)[i] == Window(history)[i]
    {
      ByteBack(s, m - i);
    }
  }

  lemma ByteBackSize(s: Spans)
    requires s.InBounds()
    ensures |BytesOf(s.ext) + BytesOf(s.prefix)| == s.Reach()
  {
  }

  class StreamEncode {
    const enc: Encoder
    var spans: Spans
    var calls: seq<Call>   // all the encoder has been shown since its reset: what its output may depend on

    constructor (enc: Encoder)
      ensures this.enc == enc && spans == Spans(NO_SPAN, NO_SPAN) && calls == []
    {
      this.enc, spans, calls := enc, Spans(NO_SPAN, NO_SPAN), [];
    }

    /** `LZ4_resetStream`: a fresh table, and no memory of earlier blocks. */
    method ResetStream()
      modifies this
      ensures spans == Spans(NO_SPAN, NO_SPAN) && calls == []
    {
      spans, calls := Spans(NO_SPAN, NO_SPAN), [];
    }

    /** `LZ4_compress_fast_continue`: the compressed size, written at `dst[dstAt..]`, or 0. */
    method CompressFastContinue(src: array<byte>, at: nat, len: nat, dst: array<byte>, dstAt: nat, capacity: nat) returns (n: nat)
      requires spans.InBounds() && at + len <= src.Length && dstAt + capacity <= dst.Length && dst != src
      modifies this, dst
      ensures spans == old(spans).Facing(src, at).Extended(len)
      ensures calls == old(calls) + [Call(src[at..at + len], old(spans).Contiguous(src, at), old(Visible(spans.Facing(src, at))))]
      ensures var w, f := calls[|old(calls)|].window, old(spans).Facing(src, at);
        var p, e := old(Content(spans.Facing(src, at).prefix.buf)), old(Content(spans.Facing(src, at).ext.buf));
        |w| == Min(f.Reach(), 65536) && forall d :: 1 <= d <= |w| ==> w[|w| - d] == f.BackIn(p, e, d)
      ensures if 0 < |enc(calls)| <= capacity then n == |enc(calls)| && dst[dstAt..dstAt + n] == enc(calls) else n == 0
      ensures forall k :: 0 <= k < dst.Length && !(dstAt <= k < dstAt + capacity) ==> dst[k] == old(dst[k])
    {
      hide Visible;
      var facing := spans.Facing(src, at);
      VisibleByTheByte(facing);
      var block := src[at..at + len];
      calls := calls + [Call(block, spans.Contiguous(src, at), Visible(facing))];
      spans := facing.Extended(len);
      assert src[at..at + len] == block;
      var c := enc(calls);
      if |c| == 0 || |c| > capacity {
        return 0;
      }
      forall k | 0 <= k < |c| {
        dst[dstAt + k] := c[k];
      }
      n := |c|;
      assert src[at..at + len] == block;
    }
  }

  /** A codec goes on from where it is exactly when the ring has not just wrapped. */
  lemma ContiguousInALap(spans: Spans, ring: array<byte>, offset: nat, length: nat)
    requires Laps(spans, ring, offset, length)
    ensures spans.Contiguous(ring, offset) <==> offset > 0
    ensures spans.Facing(ring, offset).prefix == Span(ring, 0, offset)
  {
  }

  /** What `history`'s 64 KB look like to the segments `f` when the ring held `before`. */
  ghost predicate HeldBefore(f: Spans, ring: array<byte>, before: seq<byte>, history: seq<byte>)
    requires f.InBounds() && f.prefix.buf == ring && |before| == ring.Length
    reads f.ext.buf
  {
    f.HeldIn(before, if f.ext.buf == ring then before else Content(f.ext.buf), history)
  }

  /** With only the block's room changed in the ring, the encoder sees the last 64 KB, and will after the block too. */
  lemma BlockIsClearOfTheWindow(spans: Spans, ring: array<byte>, offset: nat, len: nat, before: seq<byte>, history: seq<byte>)
    requires Laps(spans, ring, offset, |history|) && 0 < len <= BLOCK_SIZE
    requires |before| == ring.Length && forall k :: 0 <= k < ring.Length && !(offset <= k < offset + BLOCK_SIZE) ==> ring[k] == before[k]
    requires HeldBefore(spans.Facing(ring, offset), ring, before, history) && spans.Facing(ring, offset).Exact(|history|)
    ensures var f := spans.Facing(ring, offset);
      Visible(f) == Window(history) && (spans.Contiguous(ring, offset) <==> offset > 0)
    ensures var t, next := spans.Facing(ring, offset).Extended(len), Advance(offset, len);
      && Laps(t, ring, next, |history| + len)
      && HeldBefore(t.Facing(ring, next), ring, ring[..], history + ring[offset..offset + len])
      && t.Facing(ring, next).Exact(|history| + len)
  {
    hide Spans.HeldIn, Spans.Clear, Spans.Exact, Laps, Visible;
    var f := spans.Facing(ring, offset);
    var e := if f.ext.buf == ring then before else Content(f.ext.buf);
    NextBlockIsClear(spans, ring, offset, |history|);
    ContiguousInALap(spans, ring, offset, |history|);
    LapsGoOn(spans, ring, offset, |history|, len, 0);
    WritingKeeps(f, before, e, ring[..], Content(f.ext.buf), history, 0, offset + BLOCK_SIZE);
    WritingKeeps(f, before, e, ring[..], Content(f.ext.buf), history, len, offset + BLOCK_SIZE);
    assert history + ring[offset..offset] == history;
    assert f.Extended(0) == f;
    VisibleIsTheWindow(f, history);
    HistoryGoesOn(spans, ring, offset, |history|, len, history + ring[offset..offset + len]);
  }

  /** Compresses the block just put at `offset` of the ring, which held `before` until then. */
  method RingEncode(stream: StreamEncode, ring: array<byte>, offset: nat, len: nat, dst: array<byte>, dstAt: nat, capacity: nat,
                    ghost before: seq<byte>, ghost history: seq<byte>)
    returns (n: nat, next: nat)
    requires Laps(stream.spans, ring, offset, |history|) && 0 < len <= BLOCK_SIZE
    requires dst != ring && dstAt + capacity <= dst.Length
    requires dst != stream.spans.prefix.buf && dst != stream.spans.ext.buf
    requires |before| == ring.Length && forall k :: 0 <= k < ring.Length && !(offset <= k < offset + BLOCK_SIZE) ==> ring[k] == before[k]
    requires var f := stream.spans.Facing(ring, offset); HeldBefore(f, ring, before, history) && f.Exact(|history|)
    modifies stream, dst
    ensures var block := ring[offset..offset + len];
      && stream.calls == old(stream.calls) + [Call(block, offset > 0, Window(history))]
      && next == Advance(offset, len) && Laps(stream.spans, ring, next, |history| + len)
      && HeldBefore(stream.spans.Facing(ring, next), ring, ring[..], history + block)
      && stream.spans.Facing(ring, next).Exact(|history| + len)
    ensures var w := stream.calls[|old(stream.calls)|].window;
      |w| == Min(|history|, 65536) && forall i :: 0 <= i < |w| ==> w[i] == history[|history| - |w| + i]
    ensures var c := stream.enc(stream.calls);
      if 0 < |c| <= capacity then n == |c| && dst[dstAt..dstAt + n] == c else n == 0
    ensures forall k :: 0 <= k < dst.Length && !(dstAt <= k < dstAt + capacity) ==> dst[k] == old(dst[k])
    ensures stream.spans == old(stream.spans).Facing(ring, offset).Extended(len)
  {
    hide Spans.Holds, HeldBefore, Spans.Clear, Spans.Exact, Laps, Visible, Window;
    BlockIsClearOfTheWindow(stream.spans, ring, offset, len, before, history);
    ghost var block := ring[offset..offset + len];
    WindowByTheByte(history);
    next := Advance(offset, len);
    n := stream.CompressFastContinue(ring, offset, len, dst, dstAt, capacity);
    assert ring[offset..offset + len] == block;
  }
}
