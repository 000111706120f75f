/** The two ways to decompress a deflate stream: `decompress_deflate`, and the class that works in 16 KB steps. */
module DeflateDecompress {
  import opened Bytes
  import opened Zlib

  const BLOCK: nat := 16384

  /** `avail_in` and `avail_out` are 32 bits wide. */
  const STEP: nat := 0x4000_0000

  /**
   * A machine that has put out `out` of what `input` decodes to, has `pending` waiting and `ahead` to come, is on its
   * way to the same end.
   */
  ghost predicate OnTrack<S>(m: Machine<S>, input: seq<byte>, s: S, status: Status, pending: seq<byte>, ahead: seq<byte>, out: seq<byte>) {
    var whole, rest := Feed(m, m.start, Running, input), Feed(m, s, status, ahead);
    rest.status == whole.status && whole.out == out + pending + rest.out
  }

  lemma StaysOnTrack<S>(m: Machine<S>, input: seq<byte>, s: S, status: Status, pending: seq<byte>, ahead: seq<byte>, out: seq<byte>,
                        taken: seq<byte>, ahead': seq<byte>, written: seq<byte>, pending': seq<byte>)
    requires OnTrack(m, input, s, status, pending, ahead, out) && ahead == taken + ahead'
    requires pending + Feed(m, s, status, taken).out == written + pending'
    ensures var r := Feed(m, s, status, taken);
      OnTrack(m, input, r.state, r.status, pending', ahead', out + written)
  {
    hide Feed;
    FeedSplit(m, s, status, taken, ahead');
    var r := Feed(m, s, status, taken);
    var t := Feed(m, r.state, r.status, ahead');
    assert out + pending + (r.out + t.out) == out + (pending + r.out) + t.out;
    assert out + (written + pending') + t.out == (out + written) + pending' + t.out;
  }

  lemma StartsOnTrack<S>(m: Machine<S>, input: seq<byte>)
    ensures OnTrack(m, input, m.start, Running, [], input, [])
  {
    var whole := Feed(m, m.start, Running, input);
    assert [] + [] + whole.out == whole.out;
  }

  /** Over, or out of input with nothing waiting: `out` is all there is. */
  lemma Arrived<S>(m: Machine<S>, input: seq<byte>, s: S, status: Status, ahead: seq<byte>, out: seq<byte>)
    requires OnTrack(m, input, s, status, [], ahead, out) && (status.Running? ==> ahead == [])
    ensures Meaning(m, input) == if status.Failed? then Err(status.code) else Ok(out)
  {
    var rest := Feed(m, s, status, ahead);
    assert out + [] + rest.out == out;
  }

  lemma NeverPastTheEnd<S>(m: Machine<S>, input: seq<byte>, s: S, status: Status, pending: seq<byte>, ahead: seq<byte>, out: seq<byte>)
    requires OnTrack(m, input, s, status, pending, ahead, out)
    ensures |out| <= |Feed(m, m.start, Running, input).out|
  {
  }

  /** One call to `inflate`, with `later` the input it has not been given yet. */
  method TrackedInflate<S>(strm: ZStream<S>, dst: array<byte>, at: nat, room: nat,
                           ghost input: seq<byte>, ghost later: seq<byte>, ghost out: seq<byte>)
    returns (ret: int, written: nat)
    requires at + room <= dst.Length
    requires OnTrack(strm.m, input, strm.state, strm.status, strm.pending, strm.nextIn + later, out)
    modifies strm, dst
    ensures written <= room && |strm.nextIn| <= |old(strm.nextIn)|
    ensures OnTrack(strm.m, input, strm.state, strm.status, strm.pending, strm.nextIn + later, out + dst[at..at + written])
    ensures Fails(ret) ==> Meaning(strm.m, input) == Err(ret)
    ensures ret == Z_STREAM_END ==> strm.status.Ended? && strm.pending == []
    ensures !Fails(ret) && written < room ==>
      strm.pending == [] && !strm.status.Failed? && (strm.status.Running? ==> strm.nextIn == [])
    ensures written < room && strm.status.Ended? ==> ret == Z_STREAM_END
    ensures |strm.nextIn| == |old(strm.nextIn)| ==> |strm.pending| + written == |old(strm.pending)|
    ensures forall k :: 0 <= k < dst.Length && !(at <= k < at + room) ==> dst[k] == old(dst[k])
  {
    hide Feed, OnTrack, Meaning;
    ghost var given, waiting, s, status := strm.nextIn, strm.pending, strm.state, strm.status;
    ret, written := strm.Inflate(dst, at, room);
    ghost var taken := given[..|given| - |strm.nextIn|];
    assert given + later == taken + (strm.nextIn + later);
    StaysOnTrack(strm.m, input, s, status, waiting, given + later, out,
                 taken, strm.nextIn + later, dst[at..at + written], strm.pending);
    if Fails(ret) {
      assert strm.pending == [];
      Arrived(strm.m, input, strm.state, strm.status, strm.nextIn + later, out + dst[at..at + written]);
    }
    if taken == [] {
      NothingFed(strm.m, s, status);
    }
  }

  lemma Joined(a: array<byte>, i: nat, j: nat, k: nat)
    requires i <= j <= k <= a.Length
    ensures a[i..k] == a[i..j] + a[j..k]
  {
  }

  lemma NothingFed<S>(m: Machine<S>, s: S, status: Status)
    ensures Feed(m, s, status, []).out == []
  {
  }

  /** One inflate stream over a whole input, read out in pieces. */
  class Inflater<S> {
    const input: seq<byte>
    const strm: ZStream<S>
    var inPos: nat    // `in`
    var left: nat
    var finished: bool

    ghost var out: seq<byte>   // all that has been read out

    ghost predicate Valid()
      reads this, strm
    {
      && inPos + left == |input|
      && OnTrack(strm.m, input, strm.state, strm.status, strm.pending, strm.nextIn + input[inPos..], out)
      && (finished ==> strm.pending == [] && !strm.status.Failed? && (strm.status.Running? ==> strm.nextIn == [] && left == 0))
    }

    constructor (m: Machine<S>, input: seq<byte>)
      ensures Valid() && fresh(strm) && strm.m == m && this.input == input && out == [] && !finished
    {
      this.input, inPos, left, finished, out := input, 0, |input|, false, [];
      strm := new ZStream(m);
      new;
      StartsOnTrack(m, input);
      assert [] + input[0..] == input;
    }

    /** Decodes into `dst[at..at + capacity]` until it is full or the stream is done. */
    method Read(dst: array<byte>, at: nat, capacity: nat) returns (r: Result<nat, int>)
      requires Valid() && at + capacity <= dst.Length
      modifies this, strm, dst
      ensures match r
        case Ok(total) =>
          && Valid() && total <= capacity && (total == capacity || finished)
          && out == old(out) + dst[at..at + total]
        case Err(code) => Meaning(strm.m, input) == Err(code)
      ensures forall k :: 0 <= k < dst.Length && !(at <= k < at + capacity) ==> dst[k] == old(dst[k])
    {
      hide Feed, OnTrack, Meaning;
      var total: nat := 0;
      while total < capacity && !finished
        invariant Valid() && total <= capacity
        invariant out == old(out) + dst[at..at + total]
        invariant forall k :: 0 <= k < dst.Length && !(at <= k < at + capacity) ==> dst[k] == old(dst[k])
        decreases Unfed(), capacity - total, !finished
      {
        ghost var before := dst[at..at + total];
        var written := Pass(dst, at + total, capacity - total);
        if written.Err? {
          return Err(written.cause);
        }
        assert dst[at..at + total] == before;
        Joined(dst, at, at + total, at + total + written.value);
        total := total + written.value;
      }
      r := Ok(total);
    }

    /** The input the machine has not taken. */
    ghost function Unfed(): nat
      reads this, strm
    {
      |strm.nextIn| + left
    }

    /** One turn of the loop: it fills its room, takes further input, or finishes. */
    method Pass(dst: array<byte>, at: nat, capacity: nat) returns (r: Result<nat, int>)
      requires Valid() && !finished && 0 < capacity && at + capacity <= dst.Length
      modifies this, strm, dst
      ensures match r
        case Ok(written) =>
          && Valid() && written <= capacity && out == old(out) + dst[at..at + written]
          && Unfed() <= old(Unfed()) && (written == Min(capacity, 0x4000_0000) || finished || Unfed() < old(Unfed()))
        case Err(code) => Meaning(strm.m, input) == Err(code)
      ensures forall k :: 0 <= k < dst.Length && !(at <= k < at + capacity) ==> dst[k] == old(dst[k])
    {
      hide Feed, OnTrack, Meaning;
      if strm.nextIn == [] && left != 0 {
        Refill();
      }
      var room := Min(capacity, STEP);
      var ret, written := TrackedInflate(strm, dst, at, room, input, input[inPos..], out);
      if Fails(ret) {
        return Err(ret);
      }
      out := out + dst[at..at + written];
      if ret == Z_STREAM_END || (room - written != 0 && strm.nextIn == [] && left == 0) {
        finished := true;
      }
      r := Ok(written);
    }

    /** The next slice of the input. */
    method Refill()
      requires Valid() && !finished && strm.nextIn == [] && left != 0
      modifies this`inPos, this`left, strm`nextIn
      ensures Valid() && strm.nextIn != [] && Unfed() == old(Unfed())
    {
      hide Feed, OnTrack;
      var n := Min(left, STEP);
      ghost var rest := input[inPos..];
      assert [] + rest == rest;
      strm.SetInput(input[inPos..inPos + n]);
      inPos, left := inPos + n, left - n;
      assert strm.nextIn + input[inPos..] == rest;
    }
  }

  /** `result.resize` to twice its size. */
  method Doubled(a: array<byte>) returns (b: array<byte>)
    ensures fresh(b) && b.Length == 2 * a.Length && b[..a.Length] == a[..]
  {
    b := new byte[2 * a.Length](i => 0);
    forall k | 0 <= k < a.Length {
      b[k] := a[k];
    }
  }

  lemma DoneMeans<S>(inflater: Inflater<S>)
    requires inflater.Valid() && inflater.finished
    ensures Meaning(inflater.strm.m, inflater.input) == Ok(inflater.out)
  {
    hide Feed, OnTrack, Meaning;
    var z := inflater.strm;
    if z.status.Running? {
      assert z.nextIn + inflater.input[inflater.inPos..] == [];
    }
    Arrived(z.m, inflater.input, z.state, z.status, z.nextIn + inflater.input[inflater.inPos..], inflater.out);
  }

  /** Fills the rest of `result`, of which `used` bytes are the output so far, or finishes. */
  method ReadOn<S>(inflater: Inflater<S>, result: array<byte>, used: nat) returns (n: Result<nat, int>)
    requires inflater.Valid() && used <= result.Length && result[..used] == inflater.out
    modifies inflater, inflater.strm, result
    ensures match n
      case Ok(more) =>
        && inflater.Valid() && used + more <= result.Length && (used + more == result.Length || inflater.finished)
        && result[..used + more] == inflater.out
      case Err(code) => Meaning(inflater.strm.m, inflater.input) == Err(code)
  {
    hide Feed, OnTrack, Meaning, Inflater.Valid;
    ghost var before := result[..used];
    n := inflater.Read(result, used, result.Length - used);
    if n.Ok? {
      Joined(result, 0, used, used + n.value);
      assert result[..used] == before;
    }
  }

  /** The rest of a stream whose first bytes are `head`, straight into a result that doubles when it fills. */
  method DecodeRest<S>(inflater: Inflater<S>, head: seq<byte>, initial: nat) returns (r: Result<seq<byte>, int>, capacity: nat)
    requires inflater.Valid() && inflater.out == head && |head| <= initial && 0 < initial
    modifies inflater, inflater.strm
    ensures r == Meaning(inflater.strm.m, inflater.input)
    ensures r.Ok? ==> capacity <= Max(initial, 2 * |r.value|)
    ensures capacity >= initial && (r.Ok? ==> capacity >= |r.value|)
    ensures capacity <= Max(initial, 2 * |Feed(inflater.strm.m, inflater.strm.m.start, Running, inflater.input).out|)
  {
    hide Feed, OnTrack, Meaning, Inflater.Valid;
    var result := new byte[initial](i => 0);
    var used := |head|;
    forall k | 0 <= k < used {
      result[k] := head[k];
    }
    ghost var most := |Feed(inflater.strm.m, inflater.strm.m.start, Running, inflater.input).out|;
    NeverPast(inflater);
    while !inflater.finished
      invariant inflater.Valid() && fresh(result) && used <= result.Length && result[..used] == inflater.out
      invariant initial <= result.Length <= Max(initial, 2 * used) && used <= most
      decreases most - used, !inflater.finished
    {
      if used == result.Length {
        result := Doubled(result);
      }
      var n := ReadOn(inflater, result, used);
      if n.Err? {
        return Err(n.cause), result.Length;
      }
      used := used + n.value;
      NeverPast(inflater);
    }
    DoneMeans(inflater);
    r := Ok(result[..used]);
    capacity := result.Length;
  }

  /** `decompress_deflate`, and the size its result buffer has reached. */
  method DecompressDeflate<S>(m: Machine<S>, compressed: seq<byte>) returns (r: Result<seq<byte>, int>, capacity: nat)
    ensures r == Meaning(m, compressed)
    ensures r.Ok? ==> capacity <= Max(Max(|compressed|, 32768), 2 * |r.value|)
    ensures capacity == 0 || capacity >= Max(|compressed|, 32768)
    ensures r.Ok? && |r.value| > 16384 ==> capacity >= |r.value|
    ensures capacity <= Max(Max(|compressed|, 32768), 2 * |Feed(m, m.start, Running, compressed).out|)
  {
    hide Feed, OnTrack, Meaning;
    var inflater := new Inflater(m, compressed);
    var head := new byte[BLOCK];
    var first := inflater.Read(head, 0, BLOCK);
    if first.Err? {
      return Err(first.cause), 0;
    }
    assert inflater.out == head[..first.value];
    if inflater.finished {
      DoneMeans(inflater);
      return Ok(head[..first.value]), 0;
    }
    r, capacity := DecodeRest(inflater, head[..first.value], Max(|compressed|, 2 * BLOCK));
  }

  lemma NeverPast<S>(inflater: Inflater<S>)
    requires inflater.Valid()
    ensures |inflater.out| <= |Feed(inflater.strm.m, inflater.strm.m.start, Running, inflater.input).out|
  {
    hide Feed, OnTrack;
    var z := inflater.strm;
    NeverPastTheEnd(z.m, inflater.input, z.state, z.status, z.pending, z.nextIn + inflater.input[inflater.inPos..], inflater.out);
  }

  /** Decompressing in memory, a 16 KB slice of the input at a time. */
  class DeflateDecompressData<S> {
    const data: seq<byte>
    const strm: ZStream<S>
    const buffer: array<byte>
    var dataOffset: nat
    var ended: bool   // DeflateState::END

    ghost var out: seq<byte>

    ghost function Repr(): set<object> {
      {this, strm, buffer}
    }

    /** Between calls nothing waits, and all input up to `dataOffset` has been taken, or the stream is over. */
    ghost predicate Valid()
      reads this, strm
    {
      && buffer.Length == BLOCK
      && strm.pending == [] && !strm.status.Failed?
      && OnTrack(strm.m, data, strm.state, strm.status, [], Ahead(), out)
    }

    ghost function Ahead(): seq<byte>
      reads this
    {
      data[Min(dataOffset, |data|)..]
    }

    /** The constructor and the set-up part of `init`. */
    constructor (m: Machine<S>, data: seq<byte>)
      ensures Valid() && fresh(Repr()) && strm.m == m && this.data == data && dataOffset == 0 && !ended && out == []
    {
      this.data, dataOffset, ended, out := data, 0, false, [];
      strm := new ZStream(m);
      buffer := new byte[BLOCK];
      new;
      StartsOnTrack(m, data);
      assert data[0..] == data;
    }

    method Next() returns (r: Result<seq<byte>, int>)
      requires Valid() && !ended
      modifies Repr()
      ensures match r
        case Ok(piece) => Valid() && out == old(out) + piece
        case Err(code) => Meaning(strm.m, data) == Err(code)
      ensures r.Ok? ==>
        if old(dataOffset) > |data| then ended && dataOffset == old(dataOffset) && r == Ok([])
        else !ended && dataOffset == old(dataOffset) + 16384
    {
      hide Feed, OnTrack, Meaning;
      if dataOffset > |data| {
        ended := true;
        return Ok([]);
      }
      var availIn := Min(|data| - dataOffset, BLOCK);
      assert data[dataOffset..dataOffset + availIn] + data[dataOffset + availIn..] == Ahead();
      strm.SetInput(data[dataOffset..dataOffset + availIn]);
      r := Drain(data[dataOffset + availIn..]);
      dataOffset := dataOffset + BLOCK;
    }

    /** Inflates the slice just set, until `inflate` leaves room; `later` is the input after it. */
    method Drain(ghost later: seq<byte>) returns (r: Result<seq<byte>, int>)
      requires buffer.Length == BLOCK
      requires OnTrack(strm.m, data, strm.state, strm.status, strm.pending, strm.nextIn + later, out)
      modifies this`out, strm, buffer
      ensures match r
        case Ok(piece) =>
          && out == old(out) + piece && strm.pending == [] && !strm.status.Failed?
          && OnTrack(strm.m, data, strm.state, strm.status, [], later, out)
        case Err(code) => Meaning(strm.m, data) == Err(code)
    {
      hide Feed, OnTrack, Meaning;
      var result := [];
      var more := true;
      while more
        invariant OnTrack(strm.m, data, strm.state, strm.status, strm.pending, strm.nextIn + later, out)
        invariant out == old(out) + result
        invariant !more ==> strm.pending == [] && !strm.status.Failed? && (strm.status.Running? ==> strm.nextIn == [])
        decreases |strm.nextIn|, |strm.pending|, more
      {
        var ret, written := TrackedInflate(strm, buffer, 0, BLOCK, data, later, out);
        if Fails(ret) {
          return Err(ret);
        }
        assert buffer[0..0 + written] == buffer[..written];
        result := result + buffer[..written];
        out := out + buffer[..written];
        more := written == BLOCK;
      }
      if strm.status.Running? {
        assert strm.nextIn + later == later;
      } else {
        OverIgnores(strm.m, data, strm.state, strm.status, strm.nextIn + later, later, out);
      }
      r := Ok(result);
    }
  }

  /** Once a stream is over, what follows does not matter. */
  lemma OverIgnores<S>(m: Machine<S>, input: seq<byte>, s: S, status: Status, ahead: seq<byte>, ahead': seq<byte>, out: seq<byte>)
    requires !status.Running? && OnTrack(m, input, s, status, [], ahead, out)
    ensures OnTrack(m, input, s, status, [], ahead', out)
  {
  }

  /** The driving loop, `for (auto it = d.begin(); it; ++it)`. */
  method DecompressAll<S>(m: Machine<S>, data: seq<byte>) returns (r: Result<seq<byte>, int>)
    ensures r == Meaning(m, data)
  {
    hide Feed, OnTrack, Meaning;
    var d := new DeflateDecompressData(m, data);
    var out := [];
    var it := d.Next();
    while it.Ok? && !d.ended
      invariant fresh(d.Repr()) && d.strm.m == m && d.data == data
      invariant match it
        case Ok(piece) => d.Valid() && d.out == out + piece && (d.ended ==> d.dataOffset > |data| && piece == [])
        case Err(code) => Meaning(m, data) == Err(code)
      decreases if it.Err? then 0 else |data| + 2 * BLOCK - Min(d.dataOffset, |data| + BLOCK), !d.ended
    {
      out := out + it.value;
      it := d.Next();
    }
    if it.Err? {
      return Err(it.cause);
    }
    assert d.out == out;
    assert d.Ahead() == [];
    Arrived(m, data, d.strm.state, d.strm.status, d.Ahead(), out);
    r := Ok(out);
  }

  /** However the output was cut up and the buffers grew, both give what the stream means. */
  method BothInflate<S>(m: Machine<S>, data: seq<byte>) returns (one: Result<seq<byte>, int>, run: Result<seq<byte>, int>)
    ensures one == run
  {
    hide Meaning;
    var capacity;
    one, capacity := DecompressDeflate(m, data);
    run := DecompressAll(m, data);
  }
}
