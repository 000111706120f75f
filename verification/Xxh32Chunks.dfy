/** Streaming equals one shot: any chunking of a message, on any kernel and byte order, gives its XXH32. */
module Xxh32Chunks {
  import opened Bytes
  import opened Xxh32
  import opened Xxh32Stream
  import Xxh32Sensitivity

  /** The lanes, started from `v`, cover exactly the whole stripes of `s`; the carry holds the remainder. */
  ghost predicate Covers(st: Snapshot, v: seq<word>, s: seq<byte>)
    ensures Covers(st, v, s) ==> WellFormed(st) && |v| == 4
  {
    && WellFormed(st) && |v| == 4
    && st.v == Absorb(v, s, |s| / 16)
    && st.memsize == |s| % 16
    && st.mem[..st.memsize] == s[|s| - st.memsize..]
  }

  /** The counter holds the length modulo 2^32; the flag is set exactly when the true length is at least 16. */
  ghost predicate Counts(totalLen: nat, largeLen: bool, length: nat) {
    && totalLen == length % 0x1_0000_0000
    && (largeLen <==> length >= 16)
  }

  /** `st` is what the bytes `s` leave behind. */
  ghost predicate Represents(st: Snapshot, seed: word, s: seq<byte>) {
    Covers(st, InitLanes(seed), s) && Counts(st.totalLen, st.largeLen, |s|)
  }

  lemma {:induction false} LaneOfPrefix(v: word, a: seq<byte>, b: seq<byte>, j: nat, n: nat)
    requires j < 4 && 16 * n <= |a|
    ensures Lane(v, a + b, j, n) == Lane(v, a, j, n)
  {
    hide Round, Word;
    if n == 0 {
    } else {
      LaneOfPrefix(v, a, b, j, n - 1);
      WordOfPrefix(a, b, 16 * (n - 1) + 4 * j);
    }
  }

  lemma WordOfPrefix(a: seq<byte>, b: seq<byte>, i: nat)
    requires i + 4 <= |a|
    ensures Word(a + b, i) == Word(a, i)
  {
    hide Widen, Join;
  }

  lemma {:induction false} LaneSplit(v: word, s: seq<byte>, j: nat, k: nat, n: nat)
    requires j < 4 && 16 * (k + n) <= |s|
    ensures Lane(v, s, j, k + n) == Lane(Lane(v, s, j, k), s[16 * k..], j, n)
  {
    hide Round, Word;
    if n == 0 {
    } else {
      LaneSplit(v, s, j, k, n - 1);
      WordInSuffix(s, 16 * k, 16 * (n - 1) + 4 * j);
    }
  }

  lemma AbsorbOfPrefix(v: seq<word>, a: seq<byte>, b: seq<byte>, n: nat)
    requires |v| == 4 && 16 * n <= |a|
    ensures Absorb(v, a + b, n) == Absorb(v, a, n)
  {
    hide Lane;
    LaneOfPrefix(v[0], a, b, 0, n);
    LaneOfPrefix(v[1], a, b, 1, n);
    LaneOfPrefix(v[2], a, b, 2, n);
    LaneOfPrefix(v[3], a, b, 3, n);
  }

  lemma AbsorbSplit(v: seq<word>, s: seq<byte>, k: nat, n: nat)
    requires |v| == 4 && 16 * (k + n) <= |s|
    ensures Absorb(v, s, k + n) == Absorb(Absorb(v, s, k), s[16 * k..], n)
  {
    hide Lane;
    LaneSplit(v[0], s, 0, k, n);
    LaneSplit(v[1], s, 1, k, n);
    LaneSplit(v[2], s, 2, k, n);
    LaneSplit(v[3], s, 3, k, n);
  }

  lemma CountedCounts(st: Snapshot, length: nat, more: nat)
    requires Counts(st.totalLen, st.largeLen, length)
    ensures Counts(Counted(st, more).totalLen, Counted(st, more).largeLen, length + more)
  {
  }

  lemma CountedCovers(st: Snapshot, v: seq<word>, s: seq<byte>, more: nat)
    requires Covers(st, v, s)
    ensures Covers(Counted(st, more), v, s)
  {
  }

  /** Too short to complete a stripe: the carry takes it all. */
  lemma CarriedCovers(st: Snapshot, v: seq<word>, s: seq<byte>, input: seq<byte>)
    requires Covers(st, v, s) && st.memsize + |input| < 16
    ensures Covers(Carried(st, input), v, s + input)
  {
    hide Absorb;
    var t, size := s + input, st.memsize + |input|;
    AbsorbOfPrefix(v, s, input, |s| / 16);
    assert |t| / 16 == |s| / 16;
    assert t[|t| - size..] == st.mem[..st.memsize] + input;
    assert Carried(st, input).mem[..size] == st.mem[..st.memsize] + input;
  }

  /** With the lanes at stripe boundary `k` of `t`, draining the rest covers `t`. */
  lemma DrainedCovers(st: Snapshot, v: seq<word>, t: seq<byte>, k: nat)
    requires WellFormed(st) && |v| == 4 && 16 * k <= |t| && st.v == Absorb(v, t, k)
    ensures Covers(Drained(st, t[16 * k..]), v, t)
  {
    hide Absorb;
    var rest := t[16 * k..];
    AbsorbSplit(v, t, k, |rest| / 16);
    assert k + |rest| / 16 == |t| / 16;
    assert rest[16 * (|rest| / 16)..] == t[|t| - |t| % 16..];
  }

  lemma ToppedUpReachesTheBoundary(st: Snapshot, v: seq<word>, s: seq<byte>, input: seq<byte>)
    requires Covers(st, v, s) && st.memsize > 0 && st.memsize + |input| >= 16
    ensures var k := |s| / 16 + 1;
      && ToppedUp(st, input).v == Absorb(v, s + input, k)
      && (s + input)[16 * k..] == input[16 - st.memsize..]
  {
    hide Absorb;
    var t, k, take := s + input, |s| / 16, 16 - st.memsize;
    var mem := Overwrite(st.mem, st.memsize, input[..take]);
    assert t[16 * k..] == mem + input[take..];
    AbsorbOfPrefix(v, s, input, k);
    AbsorbSplit(v, t, k, 1);
    AbsorbOfPrefix(st.v, mem, input[take..], 1);
  }

  lemma FilledCovers(st: Snapshot, v: seq<word>, s: seq<byte>, input: seq<byte>)
    requires Covers(st, v, s) && st.memsize + |input| >= 16
    ensures Covers(Filled(st, input), v, s + input)
  {
    hide Absorb, Drained, ToppedUp;
    var k := |s| / 16;
    if st.memsize == 0 {
      AbsorbOfPrefix(v, s, input, k);
      assert (s + input)[16 * k..] == input;
      DrainedCovers(st, v, s + input, k);
    } else {
      ToppedUpReachesTheBoundary(st, v, s, input);
      DrainedCovers(ToppedUp(st, input), v, s + input, k + 1);
    }
  }

  /** The whole-state invariant of a run: one more update, of any length and content, appends its bytes. */
  lemma UpdateAppends(st: Snapshot, seed: word, s: seq<byte>, input: seq<byte>)
    requires Represents(st, seed, s)
    ensures Represents(Updated(st, input), seed, s + input)
  {
    hide Covers, Counts, Counted, Carried, Filled;
    var v, st1 := InitLanes(seed), Counted(st, |input|);
    CountedCounts(st, |s|, |input|);
    CountedCovers(st, v, s, |input|);
    if st1.memsize + |input| < 16 {
      CarriedCovers(st1, v, s, input);
    } else {
      FilledCovers(st1, v, s, input);
    }
  }

  lemma {:induction false} TailOfSuffix(h: word, s: seq<byte>, k: nat, i: nat)
    requires k + i <= |s|
    ensures Tail(h, s[k..], i) == Tail(h, s, k + i)
    decreases |s| - i
  {
    hide TailWord, Word;
    if k + i + 4 <= |s| {
      WordInSuffix(s, k, i);
      TailOfSuffix(TailWord(h, Word(s, k + i)), s, k, i + 4);
    } else {
      TailBytesOfSuffix(h, s, k, i);
    }
  }

  lemma {:induction false} TailBytesOfSuffix(h: word, s: seq<byte>, k: nat, i: nat)
    requires k + i <= |s|
    ensures TailBytes(h, s[k..], i) == TailBytes(h, s, k + i)
    decreases |s| - i
  {
    hide TailByte, Widen;
    if k + i == |s| {
    } else {
      TailBytesOfSuffix(TailByte(h, Widen(s[k + i])), s, k, i + 1);
    }
  }

  lemma WrapTwice(n: nat)
    ensures Wrap(n % 0x1_0000_0000) == Wrap(n)
  {
  }

  lemma SeedLane(seed: word, s: seq<byte>)
    ensures Absorb(InitLanes(seed), s, 0)[2] == seed
  {
  }

  lemma DigestIsOneShot(st: Snapshot, seed: word, s: seq<byte>)
    requires Represents(st, seed, s)
    ensures Digest(st) == XXH32(seed, s)
  {
    hide Absorb, InitLanes, Merge, Tail, Avalanche, Plus, Wrap;
    TailOfSuffix(Start(seed, s), s, 16 * (|s| / 16), 0);
    WrapTwice(|s|);
    SeedLane(seed, s);
  }

  ghost function UpdatedByAll(st: Snapshot, chunks: seq<seq<byte>>): (r: Snapshot)
    requires WellFormed(st)
    ensures WellFormed(r)
  {
    if |chunks| == 0 then st
    else Updated(UpdatedByAll(st, chunks[..|chunks| - 1]), chunks[|chunks| - 1])
  }

  lemma FreshRepresentsNothing(seed: word)
    ensures Represents(Fresh(seed), seed, [])
  {
    AbsorbNothing(InitLanes(seed), []);
  }

  lemma {:induction false} ChunksAppend(seed: word, chunks: seq<seq<byte>>)
    ensures Represents(UpdatedByAll(Fresh(seed), chunks), seed, Concat(chunks))
  {
    if |chunks| == 0 {
      FreshRepresentsNothing(seed);
    } else {
      var before := chunks[..|chunks| - 1];
      ChunksAppend(seed, before);
      UpdateAppends(UpdatedByAll(Fresh(seed), before), seed, Concat(before), chunks[|chunks| - 1]);
    }
  }

  /** Reset, any updates, digest: the one-shot XXH32 of the concatenation. */
  lemma StreamingIsOneShot(seed: word, chunks: seq<seq<byte>>)
    ensures Digest(UpdatedByAll(Fresh(seed), chunks)) == XXH32(seed, Concat(chunks))
  {
    ChunksAppend(seed, chunks);
    DigestIsOneShot(UpdatedByAll(Fresh(seed), chunks), seed, Concat(chunks));
  }

  /** Two messages that differ in one byte never share a digest, however either was cut up. */
  lemma OneByteChangesEveryRun(seed: word, a: seq<seq<byte>>, b: seq<seq<byte>>, i: nat)
    requires Xxh32Sensitivity.DifferOnlyAt(Concat(a), Concat(b), i)
    ensures Digest(UpdatedByAll(Fresh(seed), a)) != Digest(UpdatedByAll(Fresh(seed), b))
  {
    StreamingIsOneShot(seed, a);
    StreamingIsOneShot(seed, b);
    Xxh32Sensitivity.OneByteChangesTheDigest(seed, Concat(a), Concat(b), i);
  }

  /** A whole run, each update on whichever kernel the host picks for it. */
  method HashChunks(host: Host, kernelOf: nat -> Kernel, seed: word, chunks: seq<seq<byte>>) returns (h: word)
    ensures h == XXH32(seed, Concat(chunks))
  {
    var state := new State(seed);
    for n := 0 to |chunks|
      invariant fresh(state.Repr()) && state.Valid()
      invariant state.Abs() == UpdatedByAll(Fresh(seed), chunks[..n])
    {
      assert chunks[..n + 1][..n] == chunks[..n];
      state.Update(host, kernelOf(n), chunks[n]);
    }
    assert chunks[..|chunks|] == chunks;
    StreamingIsOneShot(seed, chunks);
    h := state.DigestAs(host);
  }

  /** From any state, with any input, on any hosts: either kernel leaves the same whole state. */
  method BothKernels(host: Host, host': Host, a: State, b: State, input: seq<byte>)
    requires a.Valid() && b.Valid() && a.Repr() !! b.Repr() && a.Abs() == b.Abs()
    modifies a.Repr(), b.Repr()
    ensures a.Valid() && b.Valid() && a.Abs() == b.Abs()
  {
    a.Update(host, Pinned, input);
    b.Update(host', Plain, input);
  }
}
