/** Compressing in memory in 16 KB slices: what deflate is handed, and when it is told to finish. */
module DeflateCompress {
  import opened Bytes
  import DeflateDecompress
  import Zlib

  const BLOCK: nat := 16384

  datatype Flush = NoFlush | Finish

  /** A compressor fed byte by byte; its output, and what finishing adds to it, wait until there is room. */
  datatype Deflater<!S> = Deflater(start: S, step: (S, byte) -> (S, seq<byte>), finish: S -> seq<byte>)

  /** All that is still to come out of a compressor in state `s` that takes `ahead` and then finishes. */
  function Rest<S>(m: Deflater<S>, s: S, finished: bool, ahead: seq<byte>): seq<byte>
    decreases |ahead|
  {
    if finished then []
    else if ahead == [] then m.finish(s)
    else
      var (next, out) := m.step(s, ahead[0]);
      out + Rest(m, next, false, ahead[1..])
  }

  /** The whole stream: every byte once and in order, and then the end. */
  function Compressed<S>(m: Deflater<S>, data: seq<byte>): seq<byte> {
    Rest(m, m.start, false, data)
  }

  /** Fed the first `k` bytes one after the other: where that leaves the compressor, and what it has put out. */
  datatype Fed<S> = Fed(state: S, out: seq<byte>)

  function FedSoFar<S>(m: Deflater<S>, data: seq<byte>, k: nat): Fed<S>
    requires k <= |data|
  {
    if k == 0 then Fed(m.start, [])
    else
      var before := FedSoFar(m, data, k - 1);
      var (next, out) := m.step(before.state, data[k - 1]);
      Fed(next, before.out + out)
  }

  lemma {:induction false} RestIsWhatFollows<S>(m: Deflater<S>, data: seq<byte>, k: nat)
    requires k <= |data|
    ensures var f := FedSoFar(m, data, k); Compressed(m, data) == f.out + Rest(m, f.state, false, data[k..])
    decreases k
  {
    if k == 0 {
      assert data[0..] == data;
      assert [] + Rest(m, m.start, false, data) == Rest(m, m.start, false, data);
    } else {
      RestIsWhatFollows(m, data, k - 1);
      var before := FedSoFar(m, data, k - 1);
      var (next, out) := m.step(before.state, data[k - 1]);
      assert data[k - 1..] == [data[k - 1]] + data[k..];
      RestOfMore(m, before.state, data[k - 1], data[k..]);
      assert before.out + (out + Rest(m, next, false, data[k..])) == (before.out + out) + Rest(m, next, false, data[k..]);
    }
  }

  /** The stream is what the steps over all the bytes put out, one after the other, and then the end from where they lead. */
  lemma CompressedIsStepsThenEnd<S>(m: Deflater<S>, data: seq<byte>)
    ensures var f := FedSoFar(m, data, |data|); Compressed(m, data) == f.out + m.finish(f.state)
  {
    hide FedSoFar, Compressed;
    RestIsWhatFollows(m, data, |data|);
    assert data[|data|..] == [];
  }

  lemma RestOfMore<S>(m: Deflater<S>, s: S, b: byte, ahead: seq<byte>)
    ensures var (next, out) := m.step(s, b);
      Rest(m, s, false, [b] + ahead) == out + Rest(m, next, false, ahead)
  {
    assert ([b] + ahead)[1..] == ahead;
  }

  lemma OneMore(before: seq<byte>, rest: seq<byte>, end: seq<byte>)
    requires rest != []
    ensures (before + [rest[0]]) + (rest[1..] + end) == before + (rest + end)
  {
  }

  class ZStream<S> {
    const m: Deflater<S>
    var state: S
    var pending: seq<byte>
    var finished: bool
    var nextIn: seq<byte>

    constructor (m: Deflater<S>)
      ensures this.m == m && state == m.start && pending == [] && !finished && nextIn == []
    {
      this.m, state, pending, finished, nextIn := m, m.start, [], false, [];
    }

    method SetInput(input: seq<byte>)
      modifies this`nextIn
      ensures nextIn == input
    {
      nextIn := input;
    }

    /** All that is still to come out, with `later` the input it has not been given yet. */
    ghost function ToCome(later: seq<byte>): seq<byte>
      reads this
    {
      pending + NotYetOut(later)
    }

    ghost function NotYetOut(later: seq<byte>): seq<byte>
      reads this`state, this`finished, this`nextIn
    {
      Rest(m, state, finished, nextIn + later)
    }

    method EmitOne(dst: array<byte>, at: nat, n: nat, ghost later: seq<byte>)
      requires pending != [] && at + n < dst.Length
      modifies this`pending, dst
      ensures dst[at..at + n + 1] + ToCome(later) == old(dst[at..at + n] + ToCome(later))
      ensures |pending| == |old(pending)| - 1
    {
      hide Rest;
      ghost var before, rest, end := dst[at..at + n], pending, NotYetOut(later);
      dst[at + n] := pending[0];
      pending := pending[1..];
      assert dst[at..at + n + 1] == before + [rest[0]];
      OneMore(before, rest, end);
    }

    method TakeByte(ghost later: seq<byte>)
      requires pending == [] && !finished && nextIn != []
      modifies this`state, this`pending, this`nextIn
      ensures nextIn == old(nextIn)[1..] && ToCome(later) == old(ToCome(later))
    {
      RestOfMore(m, state, nextIn[0], nextIn[1..] + later);
      assert nextIn + later == [nextIn[0]] + (nextIn[1..] + later);
      assert ToCome(later) == NotYetOut(later);
      var (next, out) := m.step(state, nextIn[0]);
      state, pending, nextIn := next, out, nextIn[1..];
    }

    method PutEnd(ghost later: seq<byte>)
      requires pending == [] && !finished && nextIn == [] && later == []
      modifies this`pending, this`finished
      ensures finished && ToCome(later) == old(ToCome(later))
    {
      pending, finished := m.finish(state), true;
    }

    /**
     * `deflate` into `dst[at..at + room]`. It returns with room left only when it has taken all input and, if told to
     * finish, has put out the end; with none left it may have taken further input or not.
     */
    method Deflate(dst: array<byte>, at: nat, room: nat, flush: Flush, ghost later: seq<byte>) returns (written: nat)
      requires at + room <= dst.Length && (flush == Finish ==> later == []) && (finished ==> nextIn == [])
      modifies this, dst
      ensures written <= room && old(ToCome(later)) == dst[at..at + written] + ToCome(later)
      ensures written < room ==> pending == [] && nextIn == [] && (flush == Finish ==> finished)
      ensures (finished ==> nextIn == []) && (finished && !old(finished) ==> flush == Finish)
      ensures old(finished) ==> finished
      ensures |nextIn| < |old(nextIn)| || (|nextIn| == |old(nextIn)| && finished && !old(finished))
        || (|nextIn| == |old(nextIn)| && finished == old(finished) && |pending| + written == |old(pending)|)
    {
      hide NotYetOut, ToCome;
      written := 0;
      assert dst[at..at] + ToCome(later) == ToCome(later);
      while true
        invariant written <= room && old(ToCome(later)) == dst[at..at + written] + ToCome(later)
        invariant (finished ==> nextIn == []) && (finished && !old(finished) ==> flush == Finish)
        invariant old(finished) ==> finished
        invariant |nextIn| < |old(nextIn)| || (|nextIn| == |old(nextIn)| && finished && !old(finished))
          || (|nextIn| == |old(nextIn)| && finished == old(finished) && |pending| + written == |old(pending)|)
        decreases |nextIn|, !finished, |pending|
      {
        var stop: bool := *;
        if written == room && (pending != [] || stop) {
          return;
        } else if pending != [] {
          EmitOne(dst, at, written, later);
          written := written + 1;
        } else if nextIn != [] {
          TakeByte(later);
        } else if flush == Finish && !finished {
          PutEnd(later);
        } else {
          return;
        }
      }
    }
  }

  /** One run of calls to `deflate` over one slice of the input. */
  datatype Hand = Hand(slice: seq<byte>, flush: Flush)

  function HandAt(data: seq<byte>, offset: nat): Hand
    requires offset <= |data|
  {
    var size := Min(|data| - offset, BLOCK);
    Hand(data[offset..offset + size], if |data| - offset > BLOCK then NoFlush else Finish)
  }

  /** What is handed over from `offset` on; at an offset equal to the size there is still one call, with nothing. */
  function Handed(data: seq<byte>, offset: nat): seq<Hand>
    decreases |data| + BLOCK - Min(offset, |data| + BLOCK)
  {
    if offset > |data| then [] else [HandAt(data, offset)] + Handed(data, offset + BLOCK)
  }

  lemma HandedStep(data: seq<byte>, offset: nat)
    requires offset <= |data|
    ensures Handed(data, offset) == [HandAt(data, offset)] + Handed(data, offset + BLOCK)
    ensures HandAt(data, offset) ==
      Hand(data[offset..offset + Min(|data| - offset, BLOCK)], if |data| - offset > BLOCK then NoFlush else Finish)
    ensures HandAt(data, offset).slice + data[Min(offset + BLOCK, |data|)..] == data[Min(offset, |data|)..]
    ensures forall before :: (before + [HandAt(data, offset)]) + Handed(data, offset + BLOCK) == before + Handed(data, offset)
  {
  }

  function Slices(hands: seq<Hand>): seq<byte> {
    if hands == [] then [] else hands[0].slice + Slices(hands[1..])
  }

  lemma {:induction false} EveryByteOnceInOrder(data: seq<byte>, offset: nat)
    ensures Slices(Handed(data, offset)) == data[Min(offset, |data|)..]
    decreases |data| + BLOCK - Min(offset, |data| + BLOCK)
  {
    if offset > |data| {
    } else {
      EveryByteOnceInOrder(data, offset + BLOCK);
      assert Handed(data, offset)[1..] == Handed(data, offset + BLOCK);
      var cut := offset + Min(|data| - offset, BLOCK);
      assert Min(offset + BLOCK, |data|) == cut;
      assert data[offset..cut] + data[cut..] == data[offset..];
    }
  }

  lemma {:induction false} HandedAt(data: seq<byte>, offset: nat, i: nat)
    requires offset <= |data|
    ensures |Handed(data, offset)| == (|data| - offset) / BLOCK + 1
    ensures i < |Handed(data, offset)| ==> Handed(data, offset)[i] == HandAt(data, offset + i * BLOCK)
    decreases |data| - offset
  {
    if offset + BLOCK <= |data| {
      HandedAt(data, offset + BLOCK, if i == 0 then 0 else i - 1);
      assert (|data| - offset) / BLOCK == (|data| - offset - BLOCK) / BLOCK + 1;
    } else {
      assert Handed(data, offset + BLOCK) == [];
    }
  }

  /**
   * Finishing starts with the last slice that has data and goes on to the end. That is one call, or two for a size that
   * is a positive multiple of 16 KB; the second of the two hands over nothing.
   */
  lemma FinishFromTheLastSliceOn(data: seq<byte>, i: nat)
    requires i < |Handed(data, 0)|
    ensures var hand := Handed(data, 0)[i];
      && |Handed(data, 0)| == |data| / 16384 + 1 && i * 16384 <= |data|
      && hand.slice == data[i * 16384..Min((i + 1) * 16384, |data|)]
      && (hand.flush == Finish <==> (i + 1) * 16384 >= |data|)
      && (hand.flush == NoFlush ==> |hand.slice| == 16384 && i + 1 < |Handed(data, 0)|)
      && (i + 2 < |Handed(data, 0)| ==> hand.flush == NoFlush)
      && (i + 2 == |Handed(data, 0)| ==> (hand.flush == Finish <==> |data| % 16384 == 0))
      && (hand.slice == [] <==> i * 16384 == |data|)
  {
    HandedAt(data, 0, i);
    assert |data| == |data| / BLOCK * BLOCK + |data| % BLOCK;
  }

  /** Compressing in memory, a 16 KB slice of the input at a time. */
  class DeflateCompressData<S> {
    const data: seq<byte>
    const strm: ZStream<S>
    const cmpBuf: array<byte>
    var dataOffset: nat
    var ended: bool   // DeflateState::END

    ghost var out: seq<byte>
    ghost var handed: seq<Hand>

    ghost function Repr(): set<object> {
      {this, strm, cmpBuf}
    }

    /** Between calls nothing waits, all input up to `dataOffset` is taken, and the end is out once all input is. */
    ghost predicate Valid()
      reads this, strm
    {
      && cmpBuf.Length == BLOCK
      && strm.pending == [] && strm.nextIn == []
      && (strm.finished ==> dataOffset >= |data|)
      && (dataOffset > |data| ==> strm.finished)
      && out + Rest(strm.m, strm.state, strm.finished, Ahead()) == Compressed(strm.m, data)
      && handed + Handed(data, dataOffset) == Handed(data, 0)
    }

    ghost function Ahead(): seq<byte>
      reads this
    {
      data[Min(dataOffset, |data|)..]
    }

    /** The constructor and the set-up part of `init`. */
    constructor (m: Deflater<S>, data: seq<byte>)
      ensures Valid() && fresh(Repr()) && strm.m == m && this.data == data && dataOffset == 0 && !ended
      ensures out == [] && handed == []
    {
      this.data, dataOffset, ended, out, handed := data, 0, false, [], [];
      strm := new ZStream(m);
      cmpBuf := new byte[BLOCK];
      new;
      assert data[0..] == data;
    }

    /** Once the end of the stream is out, a call returns nothing more. */
    method Next() returns (piece: seq<byte>)
      requires Valid() && !ended
      modifies Repr()
      ensures Valid() && out == old(out) + piece && (old(strm.finished) ==> piece == [])
      ensures
        if old(dataOffset) > |data| then ended && dataOffset == old(dataOffset) && piece == [] && handed == old(handed)
        else !ended && dataOffset == old(dataOffset) + 16384 && handed == old(handed) + [HandAt(data, old(dataOffset))]
    {
      if dataOffset > |data| {
        ended := true;
        return [];
      }
      hide Rest, Compressed, Handed, HandAt;
      var remaining := |data| - dataOffset;
      var availIn, flush := remaining, Finish;
      if remaining > BLOCK {
        availIn, flush := BLOCK, NoFlush;
      }
      HandedStep(data, dataOffset);
      var slice := data[dataOffset..dataOffset + availIn];
      ghost var later := data[Min(dataOffset + BLOCK, |data|)..];
      assert Hand(slice, flush) == HandAt(data, dataOffset);
      strm.SetInput(slice);
      piece := Drain(flush, later);
      handed := handed + [Hand(slice, flush)];
      dataOffset := dataOffset + BLOCK;
    }

    /** Deflates the slice just set, until `deflate` leaves room; `later` is the input after it. */
    method Drain(flush: Flush, ghost later: seq<byte>) returns (result: seq<byte>)
      requires cmpBuf.Length == BLOCK && strm.pending == []
      requires (flush == Finish ==> later == []) && (strm.finished ==> strm.nextIn == [])
      modifies this`out, strm, cmpBuf
      ensures out == old(out) + result && strm.pending == [] && strm.nextIn == []
      ensures out + Rest(strm.m, strm.state, strm.finished, later) == old(out + strm.NotYetOut(later))
      ensures strm.finished == (old(strm.finished) || flush == Finish)
      ensures old(strm.finished) ==> result == []
    {
      hide Rest;
      result := [];
      var more := true;
      while more
        invariant out == old(out) + result
        invariant out + strm.ToCome(later) == old(out + strm.NotYetOut(later))
        invariant (strm.finished ==> strm.nextIn == []) && (old(strm.finished) ==> strm.finished)
        invariant strm.finished && !old(strm.finished) ==> flush == Finish
        invariant old(strm.finished) ==> result == [] && strm.pending == []
        invariant !more ==> strm.pending == [] && strm.nextIn == [] && (flush == Finish ==> strm.finished)
        decreases |strm.nextIn|, !strm.finished, |strm.pending|, more
      {
        ghost var before, toCome := out, strm.ToCome(later);
        var written := strm.Deflate(cmpBuf, 0, BLOCK, flush, later);
        assert cmpBuf[0..0 + written] == cmpBuf[..written];
        result := result + cmpBuf[..written];
        out := out + cmpBuf[..written];
        assert before + toCome == (before + cmpBuf[..written]) + strm.ToCome(later);
        more := written == BLOCK;
      }
      assert strm.nextIn + later == later;
    }
  }

  /** `compress_deflate`, with what its calls to `deflate` were given. */
  method CompressDeflate<S>(m: Deflater<S>, data: seq<byte>) returns (r: seq<byte>, ghost handed: seq<Hand>)
    ensures r == Compressed(m, data)
    ensures var f := FedSoFar(m, data, |data|); r == f.out + m.finish(f.state)
    ensures handed == Handed(data, 0)
  {
    hide FedSoFar;
    CompressedIsStepsThenEnd(m, data);
    var d := new DeflateCompressData(m, data);
    r := [];
    var it := d.Next();
    while !d.ended
      invariant fresh(d.Repr()) && d.strm.m == m && d.data == data
      invariant d.Valid() && d.out == r + it && (d.ended ==> d.dataOffset > |data| && it == [])
      decreases |data| + 2 * BLOCK - Min(d.dataOffset, |data| + BLOCK), !d.ended
    {
      r := r + it;
      it := d.Next();
    }
    assert d.out == r;
    handed := d.handed;
  }

  /**
   * Compressing and decompressing gives the input back, when the two machines are inverse to each other on it as a
   * whole: neither the 16 KB slices nor the sizes of the output buffers matter.
   */
  method ThereAndBack<S, T>(c: Deflater<S>, d: Zlib.Machine<T>, data: seq<byte>) returns (back: Result<seq<byte>, int>)
    requires Zlib.Meaning(d, Compressed(c, data)) == Ok(data)
    ensures back == Ok(data)
  {
    hide Compressed, Zlib.Meaning;
    ghost var handed;
    var compressed, capacity;
    compressed, handed := CompressDeflate(c, data);
    back, capacity := DeflateDecompress.DecompressDeflate(d, compressed);
  }

  // ----- a small compressor, as an example: every byte twice, and at the end a mark and the last byte

  const MARKING: Deflater<byte> := Deflater(0, (last: byte, b: byte) => (b, [b, b]), (last: byte) => [255, last])

  lemma MarkingGives()
    ensures Compressed(MARKING, []) == [255, 0] && Compressed(MARKING, [1, 2]) == [1, 1, 2, 2, 255, 2]
  {
    assert Rest(MARKING, 2, false, []) == [255, 2];
    assert [2][1..] == [] && [1, 2][1..] == [2];
    assert Rest(MARKING, 1, false, [2]) == [2, 2] + [255, 2];
    assert Rest(MARKING, 0, false, [1, 2]) == [1, 1] + ([2, 2] + [255, 2]);
  }
}
