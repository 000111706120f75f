/**
 * LZ4 blocks from the writing side: what the bytes of a block say, and that decoding follows it to the letter (LZ4 Block
 * Format Description, "Compressed block format").
 */
module Lz4Written {
  import opened Bytes
  import opened Lz4Block
  import opened Lz4Decoder
  import opened Lz4Memory

  // ----- a match, without copying byte by byte

  function PeriodByte(h: seq<byte>, offset: nat, k: nat): byte
    requires 0 < offset <= |h|
  {
    h[|h| - offset + k % offset]
  }

  /** `h` and then `len` bytes more: the last `offset` bytes of `h`, over and over. */
  function Periodic(h: seq<byte>, offset: nat, len: nat): (r: seq<byte>)
    requires 0 < offset <= |h|
    ensures |r| == |h| + len && h <= r
  {
    h + seq(len, (k: nat) => PeriodByte(h, offset, k))
  }

  lemma {:induction false} RepeatIsPeriodic(h: seq<byte>, offset: nat, len: nat)
    requires 0 < offset <= |h|
    ensures Repeat(h, offset, len) == Periodic(h, offset, len)
    decreases len
  {
    hide Repeat, Periodic;
    RepeatUnfold(h, offset, len);
    if len == 0 {
      PeriodicOfNothing(h, offset);
    } else {
      RepeatIsPeriodic(CopyOne(h, offset), offset, len - 1);
      PeriodicOneMore(h, offset, len);
    }
  }

  lemma PeriodicOfNothing(h: seq<byte>, offset: nat)
    requires 0 < offset <= |h|
    ensures Periodic(h, offset, 0) == h
  {
  }

  lemma PeriodicOneMore(h: seq<byte>, offset: nat, len: nat)
    requires 0 < offset <= |h| && 0 < len
    ensures Periodic(CopyOne(h, offset), offset, len - 1) == Periodic(h, offset, len)
  {
    hide PeriodByte;
    var g := CopyOne(h, offset);
    PeriodStarts(h, offset);
    forall k: nat | 0 < k < len
      ensures PeriodByte(g, offset, k - 1) == PeriodByte(h, offset, k)
    {
      PeriodGoesOn(h, offset, k);
    }
    assert Periodic(g, offset, len - 1)[|h|] == Periodic(h, offset, len)[|h|];
  }

  lemma PeriodStarts(h: seq<byte>, offset: nat)
    requires 0 < offset <= |h|
    ensures CopyOne(h, offset) == h + [PeriodByte(h, offset, 0)]
  {
  }

  lemma PeriodGoesOn(h: seq<byte>, offset: nat, k: nat)
    requires 0 < offset <= |h| && 0 < k
    ensures PeriodByte(CopyOne(h, offset), offset, k - 1) == PeriodByte(h, offset, k)
  {
    NextInPeriod(k, offset);
  }

  lemma NextInPeriod(k: nat, offset: nat)
    requires 0 < k && 0 < offset
    ensures k % offset == if (k - 1) % offset == offset - 1 then 0 else (k - 1) % offset + 1
  {
    var q, r := (k - 1) / offset, (k - 1) % offset;
    assert k - 1 == q * offset + r;
    if r == offset - 1 {
      assert k == (q + 1) * offset;
      Remainder(k, q + 1, 0, offset);
    } else {
      Remainder(k, q, r + 1, offset);
    }
  }

  lemma Remainder(k: nat, q: nat, r: nat, offset: nat)
    requires k == q * offset + r && r < offset
    ensures k % offset == r
  {
    var p, m := k / offset, k % offset;
    assert k == p * offset + m;
    MultiplesAreApart(p, q, offset);
    MultiplesAreApart(q, p, offset);
  }

  lemma {:induction false} MultiplesAreApart(p: nat, q: nat, offset: nat)
    ensures p < q ==> p * offset + offset <= q * offset
    decreases q
  {
    if p >= q {
    } else {
      MultiplesAreApart(p, q - 1, offset);
      assert q * offset == (q - 1) * offset + offset;
    }
  }

  /** Every byte of a match is the one `offset` before it, also where that lies within the match. */
  lemma EachByteIsOneBack(h: seq<byte>, offset: nat, len: nat, k: nat)
    requires 0 < offset <= |h| && |h| <= k < |h| + len
    ensures Repeat(h, offset, len)[k] == Repeat(h, offset, len)[k - offset]
  {
    hide Repeat;
    RepeatIsPeriodic(h, offset, len);
    PeriodIsOffset(k - |h|, offset);
  }

  lemma PeriodIsOffset(i: nat, offset: nat)
    requires 0 < offset
    ensures if i < offset then i % offset == i else (i - offset) % offset == i % offset
  {
    if i >= offset {
      Remainder(i, (i - offset) / offset + 1, (i - offset) % offset, offset);
    } else {
      Remainder(i, 0, i, offset);
    }
  }

  /** That says all of it. */
  lemma {:induction false} MatchIsDetermined(h: seq<byte>, offset: nat, r: seq<byte>)
    requires 0 < offset <= |h| && h <= r && forall k :: |h| <= k < |r| ==> r[k] == r[k - offset]
    ensures r == Repeat(h, offset, |r| - |h|)
    decreases |r| - |h|
  {
    hide Repeat;
    RepeatUnfold(h, offset, |r| - |h|);
    if |r| == |h| {
    } else {
      assert r[|h|] == h[|h| - offset];
      MatchIsDetermined(CopyOne(h, offset), offset, r);
    }
  }

  // ----- writing a block

  /** Literals, and then a match. */
  datatype Item = Item(literals: seq<byte>, offset: nat, length: nat) {
    predicate Legal() {
      offset <= 65535 && 4 <= length
    }

    function Size(): nat {
      |literals| + length
    }
  }

  function Nibble(n: nat): nat {
    if n < 15 then n else 15
  }

  /** A length that does not fit its half of the token goes on: 255, 255, ... and a byte less than 255. */
  function Extra(n: nat): seq<byte> {
    if n < 15 then [] else ExtraBytes(n - 15)
  }

  function Token(literals: nat, low: nat): byte
    requires low < 16
  {
    (16 * Nibble(literals) + low) as byte
  }

  function WriteItem(it: Item): (r: seq<byte>)
    requires it.Legal()
    ensures |r| >= 3
  {
    [Token(|it.literals|, Nibble(it.length - 4))] + Extra(|it.literals|) + it.literals
    + [(it.offset % 256) as byte, (it.offset / 256) as byte] + Extra(it.length - 4)
  }

  /** The last literals; the lower half of their token says nothing. */
  function WriteLast(literals: seq<byte>, low: nat): seq<byte>
    requires low < 16
  {
    [Token(|literals|, low)] + Extra(|literals|) + literals
  }

  ghost predicate AllLegal(items: seq<Item>) {
    forall k :: 0 <= k < |items| ==> items[k].Legal()
  }

  function WriteBlock(items: seq<Item>, last: seq<byte>, low: nat): seq<byte>
    requires AllLegal(items) && low < 16
  {
    if items == [] then WriteLast(last, low) else WriteItem(items[0]) + WriteBlock(items[1..], last, low)
  }

  // ----- reading is the inverse of writing, both ways

  lemma {:induction false} ContinuedWasExtra(src: seq<byte>, i: nat, sum: nat)
    requires Continued(src, i, sum).Some?
    ensures var c := Continued(src, i, sum).value; c.value >= sum && src[i..c.next] == ExtraBytes(c.value - sum)
    decreases |src| - i
  {
    var c := Continued(src, i, sum).value;
    if src[i] != 255 {
    } else {
      ContinuedWasExtra(src, i + 1, sum + 255);
      assert src[i..c.next] == [255] + src[i + 1..c.next];
    }
  }

  lemma LengthWasExtra(src: seq<byte>, i: nat, nibble: nat)
    requires nibble < 16 && i <= |src| && Length(src, i, nibble).Some?
    ensures var c := Length(src, i, nibble).value; nibble == Nibble(c.value) && src[i..c.next] == Extra(c.value)
  {
    if nibble == 15 {
      ContinuedWasExtra(src, i, 15);
    }
  }

  lemma LengthReadsExtra(pre: seq<byte>, n: nat, post: seq<byte>)
    ensures Length(pre + Extra(n) + post, |pre|, Nibble(n)) == Some(Count(n, |pre| + |Extra(n)|))
  {
    if n >= 15 {
      ContinuedReadsExtraBytes(pre, n - 15, post, 15);
    }
  }

  lemma TokenHalves(literals: nat, low: nat)
    requires low < 16
    ensures Token(literals, low) as nat / 16 == Nibble(literals) && Token(literals, low) as nat % 16 == low
  {
  }

  /** What was written as a sequence is read as one. */
  lemma ParseReadsItem(pre: seq<byte>, it: Item, post: seq<byte>)
    requires it.Legal()
    ensures var src, from := pre + WriteItem(it) + post, |pre| + 1 + |Extra(|it.literals|)|;
      && Parse(src, |pre|) == Some(Match(from, |it.literals|, it.offset, it.length, |pre| + |WriteItem(it)|))
      && from + |it.literals| <= |src| && src[from..from + |it.literals|] == it.literals
  {
    hide Length, Extra, Token, Nibble;
    var lits, low := |it.literals|, Nibble(it.length - 4);
    NibbleIsSmall(it.length - 4);
    var token, offset := [Token(lits, low)], [(it.offset % 256) as byte, (it.offset / 256) as byte];
    var src := pre + WriteItem(it) + post;
    var from := |pre| + 1 + |Extra(lits)|;
    var q := from + lits;
    TokenHalves(lits, low);
    assert src == (pre + token) + Extra(lits) + (it.literals + offset + Extra(it.length - 4) + post);
    LengthReadsExtra(pre + token, lits, it.literals + offset + Extra(it.length - 4) + post);
    assert src == (pre + token + Extra(lits) + it.literals + offset) + Extra(it.length - 4) + post;
    LengthReadsExtra(pre + token + Extra(lits) + it.literals + offset, it.length - 4, post);
    assert src[q] == offset[0] && src[q + 1] == offset[1] && src[|pre|] == token[0];
    assert src[from..q] == it.literals;
  }

  lemma NibbleIsSmall(n: nat)
    ensures Nibble(n) < 16
  {
  }

  lemma ParseReadsLast(pre: seq<byte>, last: seq<byte>, low: nat)
    requires low < 16
    ensures var src, from := pre + WriteLast(last, low), |pre| + 1 + |Extra(|last|)|;
      Parse(src, |pre|) == Some(Last(from, |last|)) && from + |last| == |src| && src[from..] == last
  {
    hide Length, Extra, Token, Nibble;
    var token := [Token(|last|, low)];
    TokenHalves(|last|, low);
    var src := pre + WriteLast(last, low);
    assert src == (pre + token) + Extra(|last|) + last;
    LengthReadsExtra(pre + token, |last|, last);
    assert src[|pre|] == token[0];
  }

  /** What is read as a sequence was written as that one. */
  lemma ParsedWasWritten(src: seq<byte>, i: nat)
    requires Parse(src, i).Some?
    ensures i < |src|
    ensures match Parse(src, i).value
      case Last(from, n) => from + n == |src| && src[i..] == WriteLast(src[from..], src[i] as nat % 16)
      case Match(from, n, offset, length, next) =>
        offset <= 65535 && 4 <= length && src[i..next] == WriteItem(Item(src[from..from + n], offset, length))
  {
    hide Length, Extra, Nibble;
    var t := src[i] as nat;
    var literals := Length(src, i + 1, t / 16).value;
    LengthWasExtra(src, i + 1, t / 16);
    var q := literals.next + literals.value;
    assert src[i..literals.next] == [src[i]] + src[i + 1..literals.next];
    if q == |src| {
      assert src[i..] == src[i..literals.next] + src[literals.next..];
    } else {
      var extra := Length(src, q + 2, t % 16).value;
      LengthWasExtra(src, q + 2, t % 16);
      assert src[q..q + 2] == [src[q], src[q + 1]];
      assert src[i..extra.next] == src[i..literals.next] + src[literals.next..q] + src[q..q + 2] + src[q + 2..extra.next];
    }
  }

  // ----- what a block says

  /** With `n` bytes before it, every match of the block reaches back over what is there. */
  predicate Reaches(n: nat, items: seq<Item>)
    decreases |items|
  {
    items == [] || (0 < items[0].offset <= n + |items[0].literals| && Reaches(n + items[0].Size(), items[1..]))
  }

  function SaidSize(items: seq<Item>, last: seq<byte>): nat {
    if items == [] then |last| else items[0].Size() + SaidSize(items[1..], last)
  }

  /** `h`, and then what the block says: literals as they stand, and matches as the bytes they reach back to. */
  function Said(h: seq<byte>, items: seq<Item>, last: seq<byte>): (r: seq<byte>)
    requires Reaches(|h|, items)
    ensures h <= r && |r| == |h| + SaidSize(items, last)
    decreases |items|
  {
    if items == [] then h + last
    else Said(Periodic(h + items[0].literals, items[0].offset, items[0].length), items[1..], last)
  }

  /** The sequences written from `|pre|` on are applied one after the other, or refused for their offsets or their size. */
  lemma {:induction false} SequencesFollow(pre: seq<byte>, h: seq<byte>, items: seq<Item>, last: seq<byte>, low: nat, limit: nat)
    requires AllLegal(items) && low < 16 && |h| <= limit
    ensures Sequences(h, pre + WriteBlock(items, last, low), |pre|, limit) ==
      if Reaches(|h|, items) && |h| + SaidSize(items, last) <= limit then Some(Said(h, items, last)) else None
    decreases |items|
  {
    hide Parse, Sequences, WriteItem, WriteLast, Periodic, Repeat;
    var src := pre + WriteBlock(items, last, low);
    SequencesUnfold(h, src, |pre|, limit);
    if items == [] {
      ParseReadsLast(pre, last, low);
      assert src[|src| - |last|..|src|] == last;
    } else {
      var it, post := items[0], WriteBlock(items[1..], last, low);
      assert src == pre + WriteItem(it) + post;
      ParseReadsItem(pre, it, post);
      if 0 < it.offset <= |h| + |it.literals| && |h| + it.Size() <= limit {
        RepeatIsPeriodic(h + it.literals, it.offset, it.length);
        SequencesFollow(pre + WriteItem(it), Periodic(h + it.literals, it.offset, it.length), items[1..], last, low, limit);
      }
    }
  }

  /** A written block decodes to what it says, if it fits and its matches reach no further back than what there is. */
  lemma DecodesToWhatItSays(history: seq<byte>, items: seq<Item>, last: seq<byte>, low: nat, room: nat)
    requires AllLegal(items) && low < 16
    ensures Decode(history, WriteBlock(items, last, low), room) ==
      if Reaches(|history|, items) && SaidSize(items, last) <= room then Some(Said(history, items, last)[|history|..]) else None
  {
    hide Sequences, WriteBlock;
    SequencesFollow([], history, items, last, low, |history| + room);
    assert [] + WriteBlock(items, last, low) == WriteBlock(items, last, low);
  }

  /** `src` from `i` on was written as `items` and `last`. */
  ghost predicate WrittenFrom(src: seq<byte>, i: nat, items: seq<Item>, last: seq<byte>, low: nat) {
    i <= |src| && AllLegal(items) && low < 16 && src[i..] == WriteBlock(items, last, low)
  }

  /** Nothing decodes that was not written so. */
  lemma {:induction false} OnlyWrittenBlocksDecode(h: seq<byte>, src: seq<byte>, i: nat, limit: nat)
    requires Sequences(h, src, i, limit).Some?
    ensures exists items, last, low :: WrittenFrom(src, i, items, last, low)
    decreases |src| - i
  {
    hide Parse, Apply, WriteItem, WriteLast;
    var q := Parse(src, i).value;
    ParsedWasWritten(src, i);
    if q.Last? {
      assert WrittenFrom(src, i, [], src[q.from..], src[i] as nat % 16);
    } else {
      OnlyWrittenBlocksDecode(Apply(h, src, q, limit).value, src, q.next, limit);
      var items, last, low :| WrittenFrom(src, q.next, items, last, low);
      var it := Item(src[q.from..q.from + q.literals], q.offset, q.length);
      OneMoreWritten(src, i, q.next, it, items, last, low);
    }
  }

  lemma OneMoreWritten(src: seq<byte>, i: nat, next: nat, it: Item, items: seq<Item>, last: seq<byte>, low: nat)
    requires i <= next <= |src| && it.Legal() && src[i..next] == WriteItem(it) && WrittenFrom(src, next, items, last, low)
    ensures WrittenFrom(src, i, [it] + items, last, low)
  {
    hide WriteItem, WriteLast;
    assert src[i..] == src[i..next] + src[next..];
    assert ([it] + items)[1..] == items;
  }

  /** Exactly the blocks that are written this way, fit, and reach back no further decode, and to exactly what they say. */
  lemma DecodesExactlyWhatIsWritten(history: seq<byte>, src: seq<byte>, room: nat, b: seq<byte>)
    ensures Decode(history, src, room) == Some(b) <==>
      exists items, last, low :: WrittenFrom(src, 0, items, last, low) && Reaches(|history|, items)
        && SaidSize(items, last) <= room && Said(history, items, last) == history + b
  {
    hide Sequences, WriteBlock, Reaches, SaidSize;
    assert src[0..] == src;
    if Decode(history, src, room) == Some(b) {
      OnlyWrittenBlocksDecode(history, src, 0, |history| + room);
      var items, last, low :| WrittenFrom(src, 0, items, last, low);
      DecodesToWhatItSays(history, items, last, low, room);
    }
    forall items, last, low | WrittenFrom(src, 0, items, last, low) && Reaches(|history|, items)
        && SaidSize(items, last) <= room && Said(history, items, last) == history + b
      ensures Decode(history, src, room) == Some(b)
    {
      DecodesToWhatItSays(history, items, last, low, room);
    }
  }

  /** The decoder leaves in memory what a written block says, whatever lies around it. */
  method DecodesInPlace(stream: StreamDecode, items: seq<Item>, last: seq<byte>, low: nat, dst: array<byte>, at: nat, room: nat,
                        ghost history: seq<byte>)
    returns (n: int)
    requires AllLegal(items) && low < 16
    requires at + room <= dst.Length && stream.spans.InBounds()
    requires stream.spans.Facing(dst, at).Holds(history) && stream.spans.Facing(dst, at).Clear(|history|, at + room)
    requires Reaches(|history|, items) && SaidSize(items, last) <= room
    modifies stream, dst
    ensures n == SaidSize(items, last) && history + dst[at..at + n] == Said(history, items, last)
    ensures forall k :: 0 <= k < dst.Length && !(at <= k < at + room) ==> dst[k] == old(dst[k])
  {
    hide Decode, DecodedSize, Spans.Holds, Spans.Clear, Spans.Exact, WriteBlock, Said, Reaches, SaidSize;
    DecodesToWhatItSays(history, items, last, low, room);
    n := stream.DecompressSafeContinue(WriteBlock(items, last, low), dst, at, room, history);
  }
}
