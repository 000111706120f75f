/**
 * What a streaming codec can reach in memory: the segment it is extending and, when the caller moved to another place,
 * the one before it. A byte of history is found by its distance back, in the segment first and in the older one after.
 */
module Lz4Memory {
  import opened Bytes

  /** The history a codec may use: 64 KB. A match reaches back at most 65535. */
  const WINDOW: nat := 65536

  ghost function Content(buf: array?<byte>): seq<byte>
    reads buf
  {
    if buf == null then [] else buf[..]
  }

  /** `buf[start..end]`; no buffer, no bytes. */
  datatype Span = Span(buf: array?<byte>, start: nat, end: nat) {
    predicate InBounds() {
      start <= end <= if buf == null then 0 else buf.Length
    }

    function Size(): nat
      requires InBounds()
    {
      end - start
    }
  }

  const NO_SPAN := Span(null, 0, 0)

  datatype Spans = Spans(prefix: Span, ext: Span) {
    predicate InBounds() {
      prefix.InBounds() && ext.InBounds()
    }

    function Reach(): nat
      requires InBounds()
    {
      prefix.Size() + ext.Size()
    }

    /** The next block starts where the last one ended. */
    predicate Contiguous(buf: array<byte>, at: nat) {
      prefix.start < prefix.end == at && prefix.buf == buf
    }

    /** The segments as a block at `at` sees them: a block elsewhere turns the last segment into the external one. */
    function Facing(buf: array<byte>, at: nat): Spans {
      if Contiguous(buf, at) then this else Spans(Span(buf, at, at), prefix)
    }

    function Extended(n: nat): Spans {
      Spans(prefix.(end := prefix.end + n), ext)
    }

    /** The byte `d` back from the end of the segment being extended. */
    function Back(d: nat): (b: byte)
      requires InBounds() && 1 <= d <= Reach()
      reads prefix.buf, ext.buf
      ensures b == BackIn(Content(prefix.buf), Content(ext.buf), d)
    {
      if d <= prefix.Size() then prefix.buf[prefix.end - d] else ext.buf[ext.end + prefix.Size() - d]
    }

    /** The same byte when the buffers' contents are `p` and `e`. */
    ghost function BackIn(p: seq<byte>, e: seq<byte>, d: nat): byte
      requires InBounds() && prefix.end <= |p| && ext.end <= |e| && 1 <= d <= Reach()
    {
      if d <= prefix.Size() then p[prefix.end - d] else e[ext.end + prefix.Size() - d]
    }

    /** Memory still holds the last 64 KB of `history`, byte for byte at its distance. */
    ghost predicate Holds(history: seq<byte>)
      requires InBounds()
      reads prefix.buf, ext.buf
    {
      HeldIn(Content(prefix.buf), Content(ext.buf), history)
    }

    /** The same, of buffers with the contents `p` and `e`. */
    ghost predicate HeldIn(p: seq<byte>, e: seq<byte>, history: seq<byte>)
      requires InBounds() && prefix.end <= |p| && ext.end <= |e|
    {
      && Min(|history|, WINDOW) <= Reach()
      && forall d :: 1 <= d <= Min(|history|, WINDOW) ==> BackIn(p, e, d) == history[|history| - d]
    }

    /** Where the external part of that history shares the buffer, it lies at or after `limit`, the end of what may be written. */
    ghost predicate Clear(length: nat, limit: nat)
      requires InBounds()
    {
      && prefix.buf != null && prefix.end <= limit <= prefix.buf.Length
      && (ext.buf == prefix.buf && Min(length, WINDOW) > prefix.Size() ==>
            limit + Min(length, WINDOW) <= ext.end + prefix.Size())
    }

    /** The codec reaches nothing else: it can tell where the history begins, unless that is out of its window. */
    ghost predicate Exact(length: nat)
      requires InBounds()
    {
      Reach() == length || (Reach() >= WINDOW && length >= WINDOW)
    }
  }

  /**
   * Writing on from the segment's end, and anything up to `limit`, leaves the history in place and adds what was
   * written: `p` and `e` are the buffers' contents before, `p'` and `e'` after.
   */
  lemma WritingKeeps(s: Spans, p: seq<byte>, e: seq<byte>, p': seq<byte>, e': seq<byte>, history: seq<byte>, n: nat, limit: nat)
    requires s.InBounds() && s.Clear(|history|, limit) && s.prefix.end + n <= limit
    requires |p| == |p'| == s.prefix.buf.Length && |e| == |e'| && (if s.ext.buf == null then e == [] else |e| == s.ext.buf.Length)
    requires s.HeldIn(p, e, history)
    requires forall k :: 0 <= k < |p| && !(s.prefix.end <= k < limit) ==> p'[k] == p[k]
    requires if s.ext.buf == s.prefix.buf then e == p && e' == p' else e' == e
    ensures s.Extended(n).HeldIn(p', e', history + p'[s.prefix.end..s.prefix.end + n])
  {
    var t, h := s.Extended(n), history + p'[s.prefix.end..s.prefix.end + n];
    forall d | 1 <= d <= Min(|h|, WINDOW)
      ensures t.BackIn(p', e', d) == h[|h| - d]
    {
      if d > n {
        assert s.BackIn(p, e, d - n) == history[|history| - (d - n)];
      }
    }
  }

  lemma ExtendedIsClear(s: Spans, length: nat, n: nat, limit: nat)
    requires s.InBounds() && s.Clear(length, limit) && s.prefix.end + n <= limit
    ensures s.Extended(n).InBounds() && s.Extended(n).Clear(length + n, limit)
    ensures s.Exact(length) ==> s.Extended(n).Exact(length + n)
  {
  }

  lemma ReachesTheHistory(s: Spans, history: seq<byte>)
    requires s.InBounds() && s.Holds(history)
    ensures Min(|history|, WINDOW) <= s.Reach()
  {
  }

  lemma FindsTheByte(s: Spans, history: seq<byte>, d: nat)
    requires s.InBounds() && s.Holds(history) && 1 <= d <= Min(|history|, WINDOW)
    ensures d <= s.Reach() && s.Back(d) == history[|history| - d]
  {
  }

  lemma StaysInTheBuffer(s: Spans, length: nat, limit: nat)
    requires s.InBounds() && s.Clear(length, limit)
    ensures s.prefix.buf != null && s.prefix.end <= limit <= s.prefix.buf.Length
  {
  }
}
