/** What is known of zlib's inflate: a machine fed byte by byte, whose output waits until there is room for it. */
module Zlib {
  import opened Bytes

  const Z_OK := 0
  const Z_STREAM_END := 1
  const Z_NEED_DICT := 2
  const Z_BUF_ERROR := -5

  /** The return codes for which the callers throw. */
  predicate Fails(ret: int) {
    (ret < 0 && ret != Z_BUF_ERROR) || ret == Z_NEED_DICT
  }

  /** A damaged stream (-3) or a missing dictionary (2) is a failure; running out of room or input (-5) is not. */
  lemma FailsByTheNumbers(ret: int)
    ensures Fails(ret) <==> (ret < 0 && ret != -5) || ret == 2
  {
  }

  type Fault = code: int | Fails(code) witness -3

  datatype Status = Running | Ended | Failed(code: Fault)

  datatype Move<S> = Move(next: S, out: seq<byte>, status: Status)

  datatype Machine<!S> = Machine(start: S, step: (S, byte) -> Move<S>)

  datatype Run<S> = Run(state: S, status: Status, out: seq<byte>)

  /** The machine fed `input`, or as much of it as it takes before it ends or fails. */
  function Feed<S>(m: Machine<S>, s: S, status: Status, input: seq<byte>): Run<S>
    decreases |input|
  {
    if !status.Running? || input == [] then Run(s, status, [])
    else
      var move := m.step(s, input[0]);
      var rest := Feed(m, move.next, move.status, input[1..]);
      Run(rest.state, rest.status, move.out + rest.out)
  }

  /** What a whole input decodes to: bytes after the end are ignored, and an unfinished stream gives what there is. */
  function Meaning<S>(m: Machine<S>, input: seq<byte>): Result<seq<byte>, int> {
    var r := Feed(m, m.start, Running, input);
    if r.status.Failed? then Err(r.status.code) else Ok(r.out)
  }

  lemma {:induction false} FeedSplit<S>(m: Machine<S>, s: S, status: Status, a: seq<byte>, b: seq<byte>)
    ensures var r := Feed(m, s, status, a);
      var t := Feed(m, r.state, r.status, b);
      Feed(m, s, status, a + b) == Run(t.state, t.status, r.out + t.out)
    decreases |a|
  {
    if a == [] {
      assert a + b == b;
      var t := Feed(m, s, status, b);
      assert [] + t.out == t.out;
    } else if !status.Running? {
    } else {
      var move := m.step(s, a[0]);
      FeedSplit(m, move.next, move.status, a[1..], b);
      assert (a + b)[1..] == a[1..] + b;
      var r := Feed(m, move.next, move.status, a[1..]);
      var t := Feed(m, r.state, r.status, b);
      assert move.out + (r.out + t.out) == (move.out + r.out) + t.out;
    }
  }

  /** One more byte. */
  lemma FeedOneMore<S>(m: Machine<S>, s: S, status: Status, input: seq<byte>, k: nat)
    requires k < |input| && Feed(m, s, status, input[..k]).status.Running?
    ensures var r := Feed(m, s, status, input[..k]);
      var move := m.step(r.state, input[k]);
      Feed(m, s, status, input[..k + 1]) == Run(move.next, move.status, r.out + move.out)
  {
    var r := Feed(m, s, status, input[..k]);
    FeedSplit(m, s, status, input[..k], [input[k]]);
    assert input[..k + 1] == input[..k] + [input[k]];
    var move := m.step(r.state, input[k]);
    var none := Feed(m, move.next, move.status, [input[k]][1..]);
    assert move.out + none.out == move.out;
  }

  /** Fed the first `k` bytes one after the other, as far as it takes them. */
  function FedSoFar<S>(m: Machine<S>, input: seq<byte>, k: nat): Run<S>
    requires k <= |input|
  {
    if k == 0 then Run(m.start, Running, [])
    else
      var before := FedSoFar(m, input, k - 1);
      if !before.status.Running? then before
      else
        var move := m.step(before.state, input[k - 1]);
        Run(move.next, move.status, before.out + move.out)
  }

  lemma {:induction false} FeedIsStepByStep<S>(m: Machine<S>, input: seq<byte>, k: nat)
    requires k <= |input|
    ensures Feed(m, m.start, Running, input[..k]) == FedSoFar(m, input, k)
  {
    if k == 0 {
    } else {
      FeedIsStepByStep(m, input, k - 1);
      if FedSoFar(m, input, k - 1).status.Running? {
        hide Feed;
        FeedOneMore(m, m.start, Running, input, k - 1);
      } else {
        assert input[..k] == input[..k - 1] + [input[k - 1]];
        FeedSplit(m, m.start, Running, input[..k - 1], [input[k - 1]]);
        var r := Feed(m, m.start, Running, input[..k - 1]);
        assert r.out + [] == r.out;
      }
    }
  }

  /** What an input means is what the steps over its bytes put out, up to the end or the fault, which is reported. */
  lemma MeaningIsStepByStep<S>(m: Machine<S>, input: seq<byte>)
    ensures var r := FedSoFar(m, input, |input|);
      Meaning(m, input) == if r.status.Failed? then Err(r.status.code) else Ok(r.out)
  {
    hide Feed, FedSoFar;
    FeedIsStepByStep(m, input, |input|);
    assert input[..|input|] == input;
  }

  /** A `z_stream` set up for inflating, and the input it has been given but not taken yet. */
  class ZStream<S> {
    const m: Machine<S>
    var state: S
    var status: Status
    var pending: seq<byte>
    var nextIn: seq<byte>

    /** `inflateInit2`. */
    constructor (m: Machine<S>)
      ensures this.m == m && state == m.start && status == Running && pending == [] && nextIn == []
    {
      this.m, state, status, pending, nextIn := m, m.start, Running, [], [];
    }

    method SetInput(input: seq<byte>)
      modifies this`nextIn
      ensures nextIn == input
    {
      nextIn := input;
    }

    method EmitOne(dst: array<byte>, at: nat, n: nat)
      requires pending != [] && at + n < dst.Length
      modifies this`pending, dst
      ensures dst[at..at + n + 1] + pending == old(dst[at..at + n] + pending) && |pending| < |old(pending)|
      ensures forall k :: 0 <= k < dst.Length && k != at + n ==> dst[k] == old(dst[k])
    {
      ghost var before, rest := dst[at..at + n], pending;
      dst[at + n] := pending[0];
      pending := pending[1..];
      assert dst[at..at + n + 1] == before + [rest[0]];
      assert before + rest == (before + [rest[0]]) + rest[1..];
    }

    /**
     * `inflate` with no flush, into `dst[at..at + room]`. It returns with room left only when the input is spent or the
     * stream is over; with none left it may have taken further input or not, and may report the end, or not yet.
     */
    method Inflate(dst: array<byte>, at: nat, room: nat) returns (ret: int, written: nat)
      requires at + room <= dst.Length
      modifies this, dst
      ensures written <= room
      ensures |nextIn| <= |old(nextIn)| && nextIn == old(nextIn)[|old(nextIn)| - |nextIn|..]
      ensures var taken := old(nextIn)[..|old(nextIn)| - |nextIn|];
        var r := Feed(m, old(state), old(status), taken);
        state == r.state && status == r.status && old(pending) + r.out == dst[at..at + written] + pending
      ensures ret == Z_STREAM_END ==> status.Ended? && pending == []
      ensures Fails(ret) ==> pending == [] && status == Failed(ret)
      ensures written < room ==>
        && pending == [] && (status.Running? ==> nextIn == [])
        && (status.Ended? ==> ret == Z_STREAM_END) && (status.Failed? ==> ret == status.code)
      ensures forall k :: 0 <= k < dst.Length && !(at <= k < at + room) ==> dst[k] == old(dst[k])
    {
      hide Feed;
      ghost var input, k := nextIn, 0;
      ghost var r, done := Run(state, status, []), [];
      FedNothing(m, state, status, input);
      ret, written := Z_OK, 0;
      while true
        invariant written <= room && k <= |input| && nextIn == input[k..]
        invariant r == Feed(m, old(state), old(status), input[..k]) && state == r.state && status == r.status
        invariant done == dst[at..at + written] && old(pending) + r.out == done + pending
        invariant forall k :: 0 <= k < dst.Length && !(at <= k < at + room) ==> dst[k] == old(dst[k])
        decreases |nextIn|, |pending|
      {
        var stop: bool := *;
        if pending != [] {
          if written == room {
            return Z_OK, written;
          }
          EmitOne(dst, at, written);
          written := written + 1;
          done := dst[at..at + written];
        } else if written == room && stop {
          return Z_OK, written;
        } else if !status.Running? {
          return if status.Ended? then Z_STREAM_END else status.code, written;
        } else if nextIn == [] {
          return if stop then Z_OK else Z_BUF_ERROR, written;
        } else {
          FeedOneMore(m, old(state), old(status), input, k);
          ghost var before := r.out;
          assert done + [] == done;
          r := TakeByte(r);
          assert old(pending) + r.out == (old(pending) + before) + pending;
          k := k + 1;
        }
      }
    }

    method TakeByte(ghost r: Run<S>) returns (ghost t: Run<S>)
      requires pending == [] && nextIn != []
      modifies this
      ensures var move := m.step(old(state), old(nextIn)[0]);
        && t == Run(move.next, move.status, r.out + move.out)
        && state == move.next && status == move.status && pending == move.out && nextIn == old(nextIn)[1..]
    {
      var move := m.step(state, nextIn[0]);
      state, status, pending, nextIn := move.next, move.status, move.out, nextIn[1..];
      t := Run(move.next, move.status, r.out + move.out);
    }
  }

  lemma FedNothing<S>(m: Machine<S>, s: S, status: Status, input: seq<byte>)
    ensures Feed(m, s, status, input[..0]) == Run(s, status, [])
  {
  }

  // ----- a small machine, as an example: every byte twice, up to a 0; a 255 is a fault

  const DOUBLING: Machine<()> := Machine((), (s: (), b: byte) =>
    if b == 0 then Move((), [], Ended) else if b == 255 then Move((), [], Failed(-3)) else Move((), [b, b], Running))

  lemma DoublingMeans()
    ensures Meaning(DOUBLING, [1, 2]) == Ok([1, 1, 2, 2]) && Meaning(DOUBLING, [1, 0, 2, 255]) == Ok([1, 1])
    ensures Meaning(DOUBLING, [1, 255, 2]) == Err(-3) && Meaning(DOUBLING, []) == Ok([])
  {
    assert [1, 1] + [2, 2] == [1, 1, 2, 2] && [1, 1] + [] == [1, 1];
    assert [1, 2][1..] == [2] && [2][1..] == [];
    assert Feed(DOUBLING, (), Running, [2]) == Run((), Running, [2, 2] + []);
    assert Feed(DOUBLING, (), Running, [1, 2]) == Run((), Running, [1, 1] + [2, 2]);
    assert [1, 0, 2, 255][1..] == [0, 2, 255];
    assert Feed(DOUBLING, (), Running, [0, 2, 255]) == Run((), Ended, [] + []);
    assert Feed(DOUBLING, (), Running, [1, 0, 2, 255]) == Run((), Ended, [1, 1] + []);
    assert [1, 255, 2][1..] == [255, 2];
    assert Feed(DOUBLING, (), Running, [255, 2]) == Run((), Failed(-3), [] + []);
  }
}
