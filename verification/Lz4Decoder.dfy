/** The streaming block decoder: writes into the caller's memory and reads its matches back from there. */
module Lz4Decoder {
  import opened Bytes
  import opened Lz4Block
  import opened Lz4Memory

  class StreamDecode {
    var spans: Spans

    /** `LZ4_setStreamDecode` with no dictionary. */
    constructor ()
      ensures spans == Spans(NO_SPAN, NO_SPAN)
    {
      spans := Spans(NO_SPAN, NO_SPAN);
    }

    /**
     * `LZ4_decompress_safe_continue`: the bytes decoded at `dst[at..]`, at most `room` of them, or a negative number.
     * The bytes after them, up to `at + room`, may be written too.
     */
    method DecompressSafeContinue(src: seq<byte>, dst: array<byte>, at: nat, room: nat, ghost history: seq<byte>)
      returns (n: int)
      requires at + room <= dst.Length && spans.InBounds()
      requires spans.Facing(dst, at).Holds(history) && spans.Facing(dst, at).Clear(|history|, at + room)
      modifies this, dst
      ensures n <= room
      ensures var size := DecodedSize(old(spans).Facing(dst, at).Reach(), src, room);
        if size.Some? then n == size.value else n < 0
      ensures var decoded := Decode(history, src, room);
        decoded.Some? || old(spans).Facing(dst, at).Exact(|history|) ==>
          (if decoded.Some? then n == |decoded.value| && dst[at..at + n] == decoded.value else n < 0)
      ensures n <= 0 ==> spans == Spans(old(spans).prefix, old(spans).Facing(dst, at).ext)
      ensures n > 0 ==> spans == old(spans).Facing(dst, at).Extended(n)
      ensures n > 0 ==> spans.Holds(history + dst[at..at + n])
      ensures forall k :: 0 <= k < dst.Length && !(at <= k < at + room) ==> dst[k] == old(dst[k])
    {
      hide Spans.Holds, Spans.HeldIn, Spans.Clear, Spans.Exact, Sequences, SizeFrom;
      var facing := spans.Facing(dst, at);
      spans := Spans(spans.prefix, facing.ext);
      assert facing.Holds(history);
      ghost var h;
      var ok, total;
      DecodeSize(history, src, room);
      if facing.Exact(|history|) {
        ExactSize(facing, |history|, src, room);
      }
      ok, total, h := DecodeBlock(src, dst, facing, at + room, history);
      if !ok {
        return -1;
      }
      assert h == history + dst[at..at + total];
      if total > 0 {
        spans := facing.Extended(total);
      }
      return total;
    }
  }

  /** A codec that reaches nothing older takes what the history takes. */
  lemma ExactSize(s: Spans, length: nat, src: seq<byte>, room: nat)
    requires s.InBounds() && s.Exact(length)
    ensures DecodedSize(s.Reach(), src, room) == DecodedSize(length, src, room)
  {
    hide SizeFrom;
    MoreReach(Min(s.Reach(), length), Max(s.Reach(), length), src, 0, room);
  }

  // ----- what every byte written keeps

  /** A block about to be decoded: memory as it is, the segments it faces, the history, and the end of its room. */
  datatype Start = Start(memory: seq<byte>, facing: Spans, history: seq<byte>, limit: nat)

  /** `s` is where the segments have got to with `h` decoded: all of it is in place, and nothing outside the room changed. */
  ghost predicate Going(start: Start, dst: array<byte>, s: Spans, h: seq<byte>)
    reads dst, s.ext.buf
    ensures Going(start, dst, s, h) ==>
      && s.InBounds() && s.prefix.buf == dst && start.facing.InBounds() && start.history <= h
      && start.facing.prefix.end <= s.prefix.end <= start.limit <= dst.Length
      && s == start.facing.Extended(s.prefix.end - start.facing.prefix.end)
      && |h| == |start.history| + (s.prefix.end - start.facing.prefix.end)
      && Min(|h|, WINDOW) <= s.Reach()
  {
    && start.facing.InBounds() && start.history <= h
    && s == start.facing.Extended(|h| - |start.history|) && s.InBounds() && s.prefix.buf == dst
    && s.Clear(|h|, start.limit) && s.Holds(h)
    && |start.memory| == dst.Length
    && dst[start.facing.prefix.end..s.prefix.end] == h[|start.history|..]
    && forall k :: 0 <= k < dst.Length && !(start.facing.prefix.end <= k < start.limit) ==> dst[k] == start.memory[k]
  }

  lemma GoingBegins(start: Start, dst: array<byte>)
    requires start.facing.InBounds() && start.facing.prefix.buf == dst && start.memory == dst[..]
    requires start.facing.Holds(start.history) && start.facing.Clear(|start.history|, start.limit)
    ensures Going(start, dst, start.facing, start.history)
  {
    hide Spans.HeldIn;
  }

  lemma GoingFinds(start: Start, dst: array<byte>, s: Spans, h: seq<byte>, d: nat)
    requires Going(start, dst, s, h) && 1 <= d <= Min(|h|, WINDOW)
    ensures s.Back(d) == h[|h| - d]
  {
    FindsTheByte(s, h, d);
  }

  lemma GoingEnds(start: Start, dst: array<byte>, s: Spans, h: seq<byte>)
    requires Going(start, dst, s, h)
    ensures s.Holds(h) && h == start.history + dst[start.facing.prefix.end..s.prefix.end]
    ensures |start.memory| == dst.Length
    ensures forall k :: 0 <= k < dst.Length && !(start.facing.prefix.end <= k < start.limit) ==> dst[k] == start.memory[k]
  {
    hide Spans.HeldIn, Spans.Clear;
  }

  method PutByte(b: byte, dst: array<byte>, s: Spans, ghost start: Start, ghost h: seq<byte>) returns (t: Spans)
    requires Going(start, dst, s, h) && s.prefix.end < start.limit
    modifies dst
    ensures t == s.Extended(1) && Going(start, dst, t, h + [b])
  {
    hide Spans.HeldIn, Spans.Clear;
    StaysInTheBuffer(s, |h|, start.limit);
    ghost var p, e, at := Content(s.prefix.buf), Content(s.ext.buf), start.facing.prefix.end;
    dst[s.prefix.end] := b;
    t := s.Extended(1);
    assert dst[s.prefix.end..s.prefix.end + 1] == [b];
    assert dst[at..t.prefix.end] == p[at..s.prefix.end] + [b];
    WritingKeeps(s, p, e, Content(s.prefix.buf), Content(s.ext.buf), h, 1, start.limit);
    ExtendedIsClear(s, |h|, 1, start.limit);
  }

  method CopyLiterals(literals: seq<byte>, dst: array<byte>, s: Spans, ghost start: Start, ghost h: seq<byte>) returns (t: Spans)
    requires Going(start, dst, s, h) && s.prefix.end + |literals| <= start.limit
    modifies dst
    ensures t == s.Extended(|literals|) && Going(start, dst, t, h + literals)
  {
    hide Going;
    t := s;
    assert h + literals[..0] == h;
    for n := 0 to |literals|
      invariant t == s.Extended(n) && Going(start, dst, t, h + literals[..n])
    {
      assert (h + literals[..n]) + [literals[n]] == h + literals[..n + 1];
      t := PutByte(literals[n], dst, t, start, h + literals[..n]);
    }
    assert literals[..|literals|] == literals;
  }

  /** Byte by byte, so that a match may reach into its own output and across the end of the external segment. */
  method CopyMatch(offset: nat, length: nat, dst: array<byte>, s: Spans, ghost start: Start, ghost h: seq<byte>)
    returns (t: Spans, ghost g: seq<byte>)
    requires Going(start, dst, s, h) && s.prefix.end + length <= start.limit
    requires 0 < offset <= Min(s.Reach(), MAX_OFFSET)
    modifies dst
    ensures t == s.Extended(length) && |g| == |h| + length && Going(start, dst, t, g)
    ensures offset <= |h| ==> g == Repeat(h, offset, length)
    ensures offset <= |h| ==> forall k :: |h| <= k < |g| ==> g[k] == g[k - offset]
    ensures t.prefix.end <= dst.Length && dst[start.facing.prefix.end..t.prefix.end] == g[|start.history|..]
  {
    hide Going, Repeat;
    t, g := s, h;
    if offset <= |h| {
      RepeatUnfold(h, offset, length);
    }
    for n := 0 to length
      invariant t == s.Extended(n) && |g| == |h| + n && Going(start, dst, t, g)
      invariant offset <= |h| ==> Repeat(h, offset, length) == Repeat(g, offset, length - n)
      invariant offset <= |h| ==> forall k :: |h| <= k < |g| ==> g[k] == g[k - offset]
    {
      var b := t.Back(offset);
      if offset <= |h| {
        GoingFinds(start, dst, t, g, offset);
        RepeatUnfold(g, offset, length - n);
      }
      t := PutByte(b, dst, t, start, g);
      g := g + [b];
    }
    if offset <= |h| {
      RepeatUnfold(g, offset, 0);
    }
    GoingEnds(start, dst, t, g);
    assert g == start.history + g[|start.history|..];
  }

  /** The literals and the match of one sequence. */
  method CopySequence(src: seq<byte>, q: Sequence, dst: array<byte>, s: Spans, limit: nat, ghost start: Start, ghost h: seq<byte>)
    returns (ok: bool, t: Spans, ghost g: seq<byte>)
    requires q.from + q.literals <= |src| && (q.Match? ==> q.offset <= MAX_OFFSET)
    requires Going(start, dst, s, h) && limit == start.limit
    modifies dst
    ensures ok == Fitting(s.Reach(), q, limit - s.prefix.end)
    ensures ok ==> t == s.Extended(Growth(q)) && Going(start, dst, t, g)
    ensures Apply(h, src, q, |h| + (limit - s.prefix.end)).Some? ==> ok && g == Apply(h, src, q, |h| + (limit - s.prefix.end)).value
    ensures !ok ==> forall k :: 0 <= k < dst.Length && !(start.facing.prefix.end <= k < start.limit) ==> dst[k] == old(dst[k])
  {
    hide Going, Repeat;
    if s.prefix.end + q.literals > limit {
      return false, s, h;
    }
    GoingEnds(start, dst, s, h);
    t := CopyLiterals(src[q.from..q.from + q.literals], dst, s, start, h);
    g := h + src[q.from..q.from + q.literals];
    GoingEnds(start, dst, t, g);
    if q.Last? {
      return true, t, g;
    }
    if q.offset == 0 || q.offset > t.Reach() || t.prefix.end + q.length > limit {
      return false, t, g;
    }
    t, g := CopyMatch(q.offset, q.length, dst, t, start, g);
    return true, t, g;
  }

  // ----- a whole block

  /** Decodes one block at the end of the segment `facing` extends, within `limit`; `h` is the history it leaves. */
  method DecodeBlock(src: seq<byte>, dst: array<byte>, facing: Spans, limit: nat, ghost history: seq<byte>)
    returns (ok: bool, total: nat, ghost h: seq<byte>)
    requires facing.InBounds() && facing.prefix.buf == dst
    requires facing.Holds(history) && facing.Clear(|history|, limit)
    modifies dst
    ensures var wanted := Sequences(history, src, 0, |history| + (limit - facing.prefix.end));
      wanted.Some? ==> ok && h == wanted.value
    ensures DecodedSize(facing.Reach(), src, limit - facing.prefix.end) == if ok then Some(total) else None
    ensures ok ==>
      && facing.prefix.end + total <= limit <= dst.Length
      && h == history + dst[facing.prefix.end..facing.prefix.end + total] && facing.Extended(total).Holds(h)
    ensures forall k :: 0 <= k < dst.Length && !(facing.prefix.end <= k < limit) ==> dst[k] == old(dst[k])
  {
    hide Parse, OnCourse, Growth, Going, Apply, Sequences, Spans.Holds, Spans.HeldIn, Spans.Clear;
    ghost var start := Start(dst[..], facing, history, limit);
    GoingBegins(start, dst);
    var at, room := facing.prefix.end, limit - facing.prefix.end;
    CourseBegins(src, history, facing.Reach(), room);
    var s, i := facing, 0;
    h := history;
    ghost var strayed := false;   // a match has reached behind the history, into whatever memory holds there
    while true
      invariant i <= |src| && Going(start, dst, s, h)
      invariant OnCourse(src, i, history, h, facing.Reach(), room, strayed)
      decreases |src| - i
    {
      GoingEnds(start, dst, s, h);
      var next := Parse(src, i);
      if next.None? {
        CourseStops(src, i, history, h, facing.Reach(), room, strayed);
        return false, 0, h;
      }
      ghost var before := h;
      ok, s, h := CopySequence(src, next.value, dst, s, limit, start, h);
      if !ok {
        CourseStops(src, i, history, before, facing.Reach(), room, strayed);
        return false, 0, h;
      }
      GoingEnds(start, dst, s, h);
      CourseGoesOn(src, i, history, before, facing.Reach(), room, strayed, h);
      strayed := strayed || Apply(before, src, next.value, |history| + room).None?;
      if next.value.Last? {
        return true, s.prefix.end - at, h;
      }
      i := next.value.next;
    }
  }

  /**
   * With `h` decoded and the rest of `src` from `i` on to come, a decoder that reached `reach` bytes at the start is on
   * its way to the block's size, and to what the format makes of it unless a match has strayed behind the history.
   */
  ghost predicate OnCourse(src: seq<byte>, i: nat, history: seq<byte>, h: seq<byte>, reach: nat, room: nat, strayed: bool) {
    && |history| <= |h| <= |history| + room
    && var n, limit := |h| - |history|, |history| + room;
      && Sequences(history, src, 0, limit) == (if strayed then None else Sequences(h, src, i, limit))
      && DecodedSize(reach, src, room) == Longer(n, SizeFrom(reach + n, src, i, room - n))
  }

  lemma CourseBegins(src: seq<byte>, history: seq<byte>, reach: nat, room: nat)
    ensures OnCourse(src, 0, history, history, reach, room, false)
  {
  }

  lemma CourseStops(src: seq<byte>, i: nat, history: seq<byte>, h: seq<byte>, reach: nat, room: nat, strayed: bool)
    requires OnCourse(src, i, history, h, reach, room, strayed)
    requires var n := |h| - |history|; Parse(src, i).Some? ==>
      !Fitting(reach + n, Parse(src, i).value, room - n) && Apply(h, src, Parse(src, i).value, |history| + room).None?
    ensures Sequences(history, src, 0, |history| + room) == None && DecodedSize(reach, src, room) == None
  {
    hide Parse, Apply, Fitting, Sequences, SizeFrom, DecodedSize;
    var n := |h| - |history|;
    SequencesUnfold(h, src, i, |history| + room);
    SizeFromUnfold(reach + n, src, i, room - n);
  }

  lemma CourseGoesOn(src: seq<byte>, i: nat, history: seq<byte>, h: seq<byte>, reach: nat, room: nat, strayed: bool, g: seq<byte>)
    requires OnCourse(src, i, history, h, reach, room, strayed) && Parse(src, i).Some?
    requires var q, n := Parse(src, i).value, |h| - |history|;
      && Fitting(reach + n, q, room - n) && |g| == |h| + Growth(q)
      && (Apply(h, src, q, |history| + room).Some? ==> g == Apply(h, src, q, |history| + room).value)
    ensures var q, limit := Parse(src, i).value, |history| + room;
      if q.Last? then
        && DecodedSize(reach, src, room) == Some(|g| - |history|)
        && (Sequences(history, src, 0, limit).Some? ==> Sequences(history, src, 0, limit) == Some(g))
      else OnCourse(src, q.next, history, g, reach, room, strayed || Apply(h, src, q, limit).None?)
  {
    hide Parse, Apply, Sequences, SizeFrom, DecodedSize, Growth, Fitting, Longer;
    SequencesUnfold(h, src, i, |history| + room);
    SizeGoesOn(DecodedSize(reach, src, room), |h| - |history|, reach, src, i, room);
    FittingLeavesRoom(reach + |h| - |history|, Parse(src, i).value, room - (|h| - |history|));
  }

  lemma FittingLeavesRoom(reach: nat, q: Sequence, room: nat)
    requires Fitting(reach, q, room)
    ensures Growth(q) <= room
  {
  }

  lemma SizeGoesOn(size: Option<nat>, n: nat, reach: nat, src: seq<byte>, i: nat, room: nat)
    requires n <= room && size == Longer(n, SizeFrom(reach + n, src, i, room - n))
    requires Parse(src, i).Some? && Fitting(reach + n, Parse(src, i).value, room - n)
    ensures var q := Parse(src, i).value; var m := n + Growth(q);
      m <= room && size == if q.Last? then Some(m) else Longer(m, SizeFrom(reach + m, src, q.next, room - m))
  {
    hide Parse, SizeFrom, Growth;
    SizeFromUnfold(reach + n, src, i, room - n);
    var m := n + Growth(Parse(src, i).value);
    assert reach + n + Growth(Parse(src, i).value) == reach + m;
  }
}
