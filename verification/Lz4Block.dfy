/** One LZ4 block, decoded against the output that precedes it (LZ4 Block Format Description, "Compressed block format"). */
module Lz4Block {
  import opened Bytes

  const MIN_MATCH: nat := 4
  const MAX_OFFSET: nat := 65535

  /** Two bytes as a little-endian number. */
  function U16(lo: byte, hi: byte): (n: nat)
    ensures n <= MAX_OFFSET
  {
    lo as nat + 256 * (hi as nat)
  }

  datatype Count = Count(value: nat, next: nat)

  /** A length that starts in a token's nibble: 15 is continued in the bytes at `i`, each 255 by one more. */
  function Length(src: seq<byte>, i: nat, nibble: nat): (r: Option<Count>)
    ensures r.Some? ==> i <= r.value.next && (i <= |src| ==> r.value.next <= |src|)
  {
    if nibble < 15 then Some(Count(nibble, i)) else Continued(src, i, nibble)
  }

  function Continued(src: seq<byte>, i: nat, sum: nat): (r: Option<Count>)
    ensures r.Some? ==> i < r.value.next <= |src|
    decreases |src| - i
  {
    if i >= |src| then None
    else if src[i] == 255 then Continued(src, i + 1, sum + 255)
    else Some(Count(sum + src[i] as nat, i + 1))
  }

  /** A sequence of a block: literals at `from`, then a match, except that the last sequence has none. */
  datatype Sequence =
    | Last(from: nat, literals: nat)
    | Match(from: nat, literals: nat, offset: nat, length: nat, next: nat)

  /** The sequence that starts at `i`. A block stops right after the literals of its last sequence. */
  function Parse(src: seq<byte>, i: nat): (r: Option<Sequence>)
    ensures r.Some? ==> r.value.from + r.value.literals <= |src|
    ensures r.Some? && r.value.Match? ==> i < r.value.next <= |src| && r.value.length >= MIN_MATCH && r.value.offset <= MAX_OFFSET
  {
    if i >= |src| then None
    else
      match Length(src, i + 1, src[i] as nat / 16)
      case None => None
      case Some(Count(literals, from)) =>
        var q := from + literals;
        if q > |src| then None
        else if q == |src| then Some(Last(from, literals))
        else if q + 2 > |src| then None
        else
          match Length(src, q + 2, src[i] as nat % 16)
          case None => None
          case Some(Count(extra, next)) =>
            Some(Match(from, literals, U16(src[q], src[q + 1]), extra + MIN_MATCH, next))
  }

  function CopyOne(h: seq<byte>, offset: nat): (r: seq<byte>)
    requires 0 < offset <= |h|
    ensures |r| == |h| + 1 && h <= r
  {
    h + [h[|h| - offset]]
  }

  /** A match copy: `len` bytes, each the one `offset` back, so that it may reach into its own output. */
  function Repeat(h: seq<byte>, offset: nat, len: nat): (r: seq<byte>)
    requires 0 < offset <= |h|
    ensures |r| == |h| + len && h <= r
    decreases len
  {
    if len == 0 then h else Repeat(CopyOne(h, offset), offset, len - 1)
  }

  /** One sequence appended to `h`, which may grow to `limit`; a match reaches back over `h` and no further. */
  function Apply(h: seq<byte>, src: seq<byte>, q: Sequence, limit: nat): (r: Option<seq<byte>>)
    requires q.from + q.literals <= |src|
    ensures r.Some? ==> h <= r.value && |r.value| <= limit
  {
    var h1 := h + src[q.from..q.from + q.literals];
    if |h1| > limit then None
    else if q.Last? then Some(h1)
    else if q.offset == 0 || q.offset > |h1| || |h1| + q.length > limit then None
    else Some(Repeat(h1, q.offset, q.length))
  }

  /** The sequences of `src` from `i` on, appended to `h`. */
  function Sequences(h: seq<byte>, src: seq<byte>, i: nat, limit: nat): (r: Option<seq<byte>>)
    ensures r.Some? ==> h <= r.value && |r.value| <= limit
    decreases |src| - i
  {
    match Parse(src, i)
    case None => None
    case Some(q) =>
      match Apply(h, src, q, limit)
      case None => None
      case Some(g) => if q.Last? then Some(g) else Sequences(g, src, q.next, limit)
  }

  /** The at most `room` bytes a block decodes to after `history`, or None when the block is malformed. */
  function Decode(history: seq<byte>, src: seq<byte>, room: nat): (r: Option<seq<byte>>)
    ensures r.Some? ==> |r.value| <= room
  {
    match Sequences(history, src, 0, |history| + room)
    case None => None
    case Some(h) => Some(h[|history|..])
  }

  lemma SequencesUnfold(h: seq<byte>, src: seq<byte>, i: nat, limit: nat)
    ensures var q := Parse(src, i);
      Sequences(h, src, i, limit) ==
        if q.None? then None
        else
          var g := Apply(h, src, q.value, limit);
          if g.None? || q.value.Last? then g else Sequences(g.value, src, q.value.next, limit)
  {
  }

  lemma RepeatUnfold(h: seq<byte>, offset: nat, len: nat)
    requires 0 < offset <= |h|
    ensures Repeat(h, offset, len) == if len == 0 then h else Repeat(CopyOne(h, offset), offset, len - 1)
  {
  }

  // ----- older bytes in front of a history change nothing that succeeds

  lemma {:induction false} RepeatAfterOlder(g: seq<byte>, h: seq<byte>, offset: nat, len: nat)
    requires 0 < offset <= |h|
    ensures Repeat(g + h, offset, len) == g + Repeat(h, offset, len)
    decreases len
  {
    hide CopyOne, Repeat;
    RepeatUnfold(g + h, offset, len);
    RepeatUnfold(h, offset, len);
    if len == 0 {
    } else {
      CopyOneAfterOlder(g, h, offset);
      RepeatAfterOlder(g, CopyOne(h, offset), offset, len - 1);
    }
  }

  lemma CopyOneAfterOlder(g: seq<byte>, h: seq<byte>, offset: nat)
    requires 0 < offset <= |h|
    ensures CopyOne(g + h, offset) == g + CopyOne(h, offset)
  {
  }

  lemma ApplyAfterOlder(g: seq<byte>, h: seq<byte>, src: seq<byte>, q: Sequence, limit: nat)
    requires q.from + q.literals <= |src| && Apply(h, src, q, limit).Some?
    ensures Apply(g + h, src, q, |g| + limit) == Some(g + Apply(h, src, q, limit).value)
  {
    hide Repeat;
    var literals := src[q.from..q.from + q.literals];
    assert (g + h) + literals == g + (h + literals);
    if q.Match? {
      RepeatAfterOlder(g, h + literals, q.offset, q.length);
    }
  }

  lemma {:induction false} SequencesAfterOlder(g: seq<byte>, h: seq<byte>, src: seq<byte>, i: nat, limit: nat)
    requires Sequences(h, src, i, limit).Some?
    ensures Sequences(g + h, src, i, |g| + limit) == Some(g + Sequences(h, src, i, limit).value)
    decreases |src| - i
  {
    hide Parse, Apply;
    var q := Parse(src, i).value;
    ApplyAfterOlder(g, h, src, q, limit);
    if q.Last? {
    } else {
      SequencesAfterOlder(g, Apply(h, src, q, limit).value, src, q.next, limit);
    }
  }

  /** A block that decodes against a history decodes to the same bytes with anything put before that history. */
  lemma DecodeAfterOlder(g: seq<byte>, history: seq<byte>, src: seq<byte>, room: nat)
    requires Decode(history, src, room).Some?
    ensures Decode(g + history, src, room) == Decode(history, src, room)
  {
    hide Sequences;
    SequencesAfterOlder(g, history, src, 0, |history| + room);
    var h := Sequences(history, src, 0, |history| + room).value;
    assert (g + h)[|g + history|..] == h[|history|..];
  }

  // ----- how much a block decodes to, which depends on how many bytes lie before it and not on what they are

  function Growth(q: Sequence): nat {
    if q.Last? then q.literals else q.literals + q.length
  }

  /** With `reach` bytes behind and `room` ahead, the sequence can be applied. */
  predicate Fitting(reach: nat, q: Sequence, room: nat) {
    Growth(q) <= room && (q.Match? ==> 0 < q.offset <= reach + q.literals)
  }

  function Longer(n: nat, size: Option<nat>): Option<nat> {
    if size.None? then None else Some(n + size.value)
  }

  /** How much the sequences of `src` from `i` on add, or None when one of them cannot be applied. */
  function SizeFrom(reach: nat, src: seq<byte>, i: nat, room: nat): (r: Option<nat>)
    ensures r.Some? ==> r.value <= room
    decreases |src| - i
  {
    match Parse(src, i)
    case None => None
    case Some(q) =>
      if !Fitting(reach, q, room) then None
      else if q.Last? then Some(Growth(q))
      else Longer(Growth(q), SizeFrom(reach + Growth(q), src, q.next, room - Growth(q)))
  }

  /** The size of a block decoded with `reach` bytes before it. */
  function DecodedSize(reach: nat, src: seq<byte>, room: nat): (r: Option<nat>)
    ensures r.Some? ==> r.value <= room
  {
    SizeFrom(reach, src, 0, room)
  }

  /** A decoder that reaches `reach` bytes takes the block: it is well-formed, and not empty. */
  predicate Fits(reach: nat, src: seq<byte>, room: nat) {
    var size := DecodedSize(reach, src, room);
    size.Some? && size.value > 0
  }

  lemma SizeFromUnfold(reach: nat, src: seq<byte>, i: nat, room: nat)
    ensures var q := Parse(src, i);
      SizeFrom(reach, src, i, room) ==
        if q.None? || !Fitting(reach, q.value, room) then None
        else if q.value.Last? then Some(Growth(q.value))
        else Longer(Growth(q.value), SizeFrom(reach + Growth(q.value), src, q.value.next, room - Growth(q.value)))
  {
  }

  lemma ApplyFits(h: seq<byte>, src: seq<byte>, q: Sequence, limit: nat)
    requires q.from + q.literals <= |src| && |h| <= limit
    ensures var g := Apply(h, src, q, limit);
      g.Some? == Fitting(|h|, q, limit - |h|) && (g.Some? ==> |g.value| == |h| + Growth(q))
  {
  }

  lemma {:induction false} SequencesSize(h: seq<byte>, src: seq<byte>, i: nat, limit: nat)
    requires |h| <= limit
    ensures var g, size := Sequences(h, src, i, limit), SizeFrom(|h|, src, i, limit - |h|);
      g.Some? == size.Some? && (g.Some? ==> |g.value| == |h| + size.value)
    decreases |src| - i
  {
    hide Parse, Apply, Fitting;
    var q := Parse(src, i);
    if q.None? {
    } else {
      ApplyFits(h, src, q.value, limit);
      var g := Apply(h, src, q.value, limit);
      if g.Some? && q.value.Match? {
        SequencesSize(g.value, src, q.value.next, limit);
      }
    }
  }

  /** A block decodes if and only if it has a size, and to that many bytes. */
  lemma DecodeSize(history: seq<byte>, src: seq<byte>, room: nat)
    ensures var decoded, size := Decode(history, src, room), DecodedSize(|history|, src, room);
      decoded.Some? == size.Some? && (decoded.Some? ==> |decoded.value| == size.value)
  {
    hide Sequences, SizeFrom;
    SequencesSize(history, src, 0, |history| + room);
  }

  /** More bytes behind a block change nothing that succeeds, and nothing at all beyond the largest offset. */
  lemma {:induction false} MoreReach(a: nat, b: nat, src: seq<byte>, i: nat, room: nat)
    requires a <= b
    ensures SizeFrom(a, src, i, room).Some? || a >= MAX_OFFSET ==> SizeFrom(b, src, i, room) == SizeFrom(a, src, i, room)
    decreases |src| - i
  {
    var q := Parse(src, i);
    if q.None? {
    } else if Fitting(a, q.value, room) && q.value.Match? {
      var n := Growth(q.value);
      hide Parse, Growth, Fitting;
      MoreReach(a + n, b + n, src, q.value.next, room - n);
    }
  }

  // ----- a block of literals only

  function ExtraBytes(n: nat): (r: seq<byte>)
    ensures |r| == n / 255 + 1
  {
    if n < 255 then [n as byte] else [255] + ExtraBytes(n - 255)
  }

  /** The block that stores `b` as the literals of its one sequence. */
  function LiteralBlock(b: seq<byte>): seq<byte> {
    if |b| < 15 then [(16 * |b|) as byte] + b else [240] + ExtraBytes(|b| - 15) + b
  }

  lemma {:induction false} ContinuedReadsExtraBytes(pre: seq<byte>, n: nat, post: seq<byte>, sum: nat)
    decreases n
    ensures Continued(pre + ExtraBytes(n) + post, |pre|, sum) == Some(Count(sum + n, |pre| + n / 255 + 1))
  {
    var s := pre + ExtraBytes(n) + post;
    if n < 255 {
    } else {
      assert s == (pre + [255]) + ExtraBytes(n - 255) + post;
      ContinuedReadsExtraBytes(pre + [255], n - 255, post, sum + 255);
    }
  }

  lemma LiteralBlockParses(b: seq<byte>)
    ensures var src := LiteralBlock(b);
      && |b| <= |src| <= |b| + |b| / 255 + 2
      && Parse(src, 0) == Some(Last(|src| - |b|, |b|))
      && src[|src| - |b|..] == b
  {
    var src := LiteralBlock(b);
    if |b| < 15 {
      assert src[0] as nat / 16 == |b|;
    } else {
      ContinuedReadsExtraBytes([240], |b| - 15, b, 15);
      assert src[0] as nat / 16 == 15;
    }
  }

  /** A literal block decodes to its contents after any history: 2048 bytes take at most 2058. */
  lemma LiteralBlockDecodes(history: seq<byte>, b: seq<byte>, room: nat)
    requires |b| <= room
    ensures Decode(history, LiteralBlock(b), room) == Some(b)
    ensures |b| <= |LiteralBlock(b)| <= |b| + |b| / 255 + 2
  {
    hide Parse, LiteralBlock;
    LiteralBlockParses(b);
    var src := LiteralBlock(b);
    assert src[|src| - |b|..|src|] == b;
    assert (history + b)[|history|..] == b;
  }
}
