/** The streaming XXH32: a 16-byte carry, four lanes, a wrapping length and a sticky flag for "16 bytes or more". */
module Xxh32Stream {
  import opened Bytes
  import opened Xxh32

  // ----- reading a word on either byte order

  /** The byte order in which a machine reads an integer out of memory. */
  datatype Host = LittleEndian | BigEndian

  /** The two ways to run an update, `update_pinned` and `update_start`. */
  datatype Kernel = Pinned | Plain

  function Bswap32(x: word): word {
    (x >> 24) | ((x >> 8) & 0x0000FF00) | ((x << 8) & 0x00FF0000) | (x << 24)
  }

  function Load32(host: Host, s: seq<byte>, i: nat): word
    requires i + 4 <= |s|
  {
    match host
    case LittleEndian => Join(Widen(s[i]), Widen(s[i + 1]), Widen(s[i + 2]), Widen(s[i + 3]))
    case BigEndian => Join(Widen(s[i + 3]), Widen(s[i + 2]), Widen(s[i + 1]), Widen(s[i]))
  }

  lemma SwapReversesJoin(b0: word, b1: word, b2: word, b3: word)
    requires b0 < 0x100 && b1 < 0x100 && b2 < 0x100 && b3 < 0x100
    ensures Bswap32(Join(b3, b2, b1, b0)) == Join(b0, b1, b2, b3)
  {
  }

  /** The little-endian word at `i`, whatever the host's byte order. */
  function Read32LE(host: Host, s: seq<byte>, i: nat): (w: word)
    requires i + 4 <= |s|
    ensures w == Word(s, i)
  {
    hide Widen, Join, Bswap32;
    var w := Load32(host, s, i);
    if host == BigEndian then
      WidenIsSmall(s[i]);
      WidenIsSmall(s[i + 1]);
      WidenIsSmall(s[i + 2]);
      WidenIsSmall(s[i + 3]);
      SwapReversesJoin(Widen(s[i]), Widen(s[i + 1]), Widen(s[i + 2]), Widen(s[i + 3]));
      Bswap32(w)
    else
      w
  }

  // ----- what an update does to the whole state, stale carry bytes included

  datatype Snapshot = Snapshot(totalLen: nat, largeLen: bool, v: seq<word>, mem: seq<byte>, memsize: nat)

  ghost predicate WellFormed(st: Snapshot) {
    |st.v| == 4 && |st.mem| == 16 && st.memsize < 16 && st.totalLen < 0x1_0000_0000
  }

  function Overwrite(mem: seq<byte>, at: nat, s: seq<byte>): (r: seq<byte>)
    requires at + |s| <= |mem|
    ensures |r| == |mem|
  {
    mem[..at] + s + mem[at + |s|..]
  }

  ghost function Fresh(seed: word): Snapshot {
    Snapshot(0, false, InitLanes(seed), seq(16, _ => 0), 0)
  }

  ghost function Counted(st: Snapshot, len: nat): (r: Snapshot)
    ensures WellFormed(st) ==> WellFormed(r)
    ensures r.memsize == st.memsize
  {
    var total := (st.totalLen + len) % 0x1_0000_0000;
    st.(totalLen := total, largeLen := st.largeLen || len >= 16 || total >= 16)
  }

  ghost function Carried(st: Snapshot, input: seq<byte>): (r: Snapshot)
    requires WellFormed(st) && st.memsize + |input| < 16
    ensures WellFormed(r) && r.totalLen == st.totalLen && r.largeLen == st.largeLen
  {
    st.(mem := Overwrite(st.mem, st.memsize, input), memsize := st.memsize + |input|)
  }

  ghost function Drained(st: Snapshot, rest: seq<byte>): (r: Snapshot)
    requires WellFormed(st)
    ensures WellFormed(r) && r.totalLen == st.totalLen && r.largeLen == st.largeLen
  {
    var n := |rest| / 16;
    st.(v := Absorb(st.v, rest, n), mem := Overwrite(st.mem, 0, rest[16 * n..]), memsize := |rest| % 16)
  }

  ghost function ToppedUp(st: Snapshot, input: seq<byte>): (r: Snapshot)
    requires WellFormed(st) && st.memsize + |input| >= 16
    ensures WellFormed(r) && r.totalLen == st.totalLen && r.largeLen == st.largeLen
  {
    var mem := Overwrite(st.mem, st.memsize, input[..16 - st.memsize]);
    st.(mem := mem, v := Absorb(st.v, mem, 1), memsize := 0)
  }

  ghost function Filled(st: Snapshot, input: seq<byte>): (r: Snapshot)
    requires WellFormed(st) && st.memsize + |input| >= 16
    ensures WellFormed(r) && r.totalLen == st.totalLen && r.largeLen == st.largeLen
  {
    if st.memsize == 0 then Drained(st, input) else Drained(ToppedUp(st, input), input[16 - st.memsize..])
  }

  ghost function Updated(st: Snapshot, input: seq<byte>): (r: Snapshot)
    requires WellFormed(st)
    ensures WellFormed(r)
  {
    var st1 := Counted(st, |input|);
    if st.memsize + |input| < 16 then Carried(st1, input) else Filled(st1, input)
  }

  ghost function Digest(st: Snapshot): word
    requires WellFormed(st)
  {
    var start := if st.largeLen then Merge(st.v) else st.v[2] + PRIME32_5;
    Avalanche(Tail(Plus(start, Wrap(st.totalLen)), st.mem[..st.memsize], 0))
  }

  // ----- fixed-size copies

  method Store(dst: array<byte>, at: nat, s: seq<byte>)
    requires at + |s| <= dst.Length
    modifies dst
    ensures dst[..] == Overwrite(old(dst[..]), at, s)
  {
    forall k | 0 <= k < |s| {
      dst[at + k] := s[k];
    }
  }

  /** One move of `w` bytes at the front and one up to the end, both read before either is written. */
  method MoveTwice(dst: array<byte>, at: nat, s: seq<byte>, w: nat)
    requires w <= |s| <= 2 * w && at + |s| <= dst.Length
    modifies dst
    ensures dst[..] == Overwrite(old(dst[..]), at, s)
  {
    hide Overwrite;
    var a, b := s[..w], s[|s| - w..];
    Store(dst, at, a);
    Store(dst, at + |s| - w, b);
    OverlappingMoves(old(dst[..]), at, s, w);
  }

  /** Fewer than 16 bytes by fixed-size copies, two of them overlapping: still exactly `n` bytes. */
  method CopySmall(dst: array<byte>, at: nat, src: seq<byte>, from: nat, n: nat)
    requires n < 16 && at + n <= dst.Length && from + n <= |src|
    modifies dst
    ensures dst[..] == Overwrite(old(dst[..]), at, src[from..from + n])
  {
    hide Overwrite;
    ghost var mem, s := dst[..], src[from..from + n];
    if n >= 8 {
      MoveTwice(dst, at, src[from..from + n], 8);
    } else if n >= 4 {
      MoveTwice(dst, at, src[from..from + n], 4);
    } else if n != 0 {
      var a, b, c := src[from], src[from + n / 2], src[from + n - 1];
      dst[at] := a;
      dst[at + n / 2] := b;
      dst[at + n - 1] := c;
      assert dst[..] == mem[at := a][at + n / 2 := b][at + n - 1 := c];
      ThreeBytes(mem, at, s);
    } else {
      assert s == [];
      NoBytes(mem, at);
    }
  }

  /** Two moves of `w` bytes, from the front and up to the end, cover up to `2 * w` bytes. */
  lemma OverlappingMoves(mem: seq<byte>, at: nat, s: seq<byte>, w: nat)
    requires w <= |s| <= 2 * w && at + |s| <= |mem|
    ensures Overwrite(Overwrite(mem, at, s[..w]), at + |s| - w, s[|s| - w..]) == Overwrite(mem, at, s)
  {
  }

  lemma ThreeBytes(mem: seq<byte>, at: nat, s: seq<byte>)
    requires 1 <= |s| <= 3 && at + |s| <= |mem|
    ensures mem[at := s[0]][at + |s| / 2 := s[|s| / 2]][at + |s| - 1 := s[|s| - 1]] == Overwrite(mem, at, s)
  {
  }

  lemma NoBytes(mem: seq<byte>, at: nat)
    requires at <= |mem|
    ensures Overwrite(mem, at, []) == mem
  {
  }

  /** The lanes after the stripes at `from`, `from + 16`, ... up to and including `limit`. */
  method BlocksGeneric(host: Host, v: array<word>, src: seq<byte>, from: nat, limit: nat) returns (p: nat)
    requires v.Length == 4 && from <= limit && limit + 16 <= |src|
    modifies v
    ensures limit < p <= limit + 16 && (p - from) % 16 == 0
    ensures v[..] == Absorb(old(v[..]), src[from..], (p - from) / 16)
  {
    hide *;
    var v1, v2, v3, v4 := v[0], v[1], v[2], v[3];
    p := from;
    ghost var n := 0;
    AbsorbNothing(v[..], src[from..]);
    var more := true;
    while more
      invariant p == from + 16 * n && from <= p <= limit + 16
      invariant more ==> p <= limit
      invariant !more ==> p > limit
      invariant [v1, v2, v3, v4] == Absorb(old(v[..]), src[from..], n)
      invariant v[..] == old(v[..])
      decreases limit + 16 - p
    {
      AbsorbOneMore(old(v[..]), src, from, n);
      v1 := Round(v1, Read32LE(host, src, p));
      v2 := Round(v2, Read32LE(host, src, p + 4));
      v3 := Round(v3, Read32LE(host, src, p + 8));
      v4 := Round(v4, Read32LE(host, src, p + 12));
      p := p + 16;
      n := n + 1;
      more := p <= limit;
    }
    v[0], v[1], v[2], v[3] := v1, v2, v3, v4;
    assert v[..] == [v1, v2, v3, v4];
  }

  /** The stripe loop of the plain update: the read position moves lane by lane. */
  method BlocksStart(host: Host, v: array<word>, src: seq<byte>, from: nat, limit: nat) returns (p: nat)
    requires v.Length == 4 && from <= limit && limit + 16 <= |src|
    modifies v
    ensures limit < p <= limit + 16 && (p - from) % 16 == 0
    ensures v[..] == Absorb(old(v[..]), src[from..], (p - from) / 16)
  {
    hide *;
    var v1, v2, v3, v4 := v[0], v[1], v[2], v[3];
    p := from;
    ghost var n := 0;
    AbsorbNothing(v[..], src[from..]);
    var more := true;
    while more
      invariant p == from + 16 * n && from <= p <= limit + 16
      invariant more ==> p <= limit
      invariant !more ==> p > limit
      invariant [v1, v2, v3, v4] == Absorb(old(v[..]), src[from..], n)
      invariant v[..] == old(v[..])
      decreases limit + 16 - p
    {
      AbsorbOneMore(old(v[..]), src, from, n);
      v1 := Round(v1, Read32LE(host, src, p));
      p := p + 4;
      v2 := Round(v2, Read32LE(host, src, p));
      p := p + 4;
      v3 := Round(v3, Read32LE(host, src, p));
      p := p + 4;
      v4 := Round(v4, Read32LE(host, src, p));
      p := p + 4;
      n := n + 1;
      more := p <= limit;
    }
    v[0], v[1], v[2], v[3] := v1, v2, v3, v4;
    assert v[..] == [v1, v2, v3, v4];
  }

  lemma AbsorbNothing(v: seq<word>, s: seq<byte>)
    requires |v| == 4
    ensures Absorb(v, s, 0) == v
  {
  }

  lemma OneStripe(v: seq<word>, s: seq<byte>)
    requires |v| == 4 && 16 <= |s|
    ensures Absorb(v, s, 1) ==
      [Round(v[0], Word(s, 0)), Round(v[1], Word(s, 4)), Round(v[2], Word(s, 8)), Round(v[3], Word(s, 12))]
  {
    hide *;
    AbsorbNothing(v, s);
    AbsorbOneMore(v, s, 0, 0);
    assert s[0..] == s;
  }

  /** The carried stripe of the plain update, on the stored lanes. */
  method StripeStart(host: Host, v: array<word>, m: seq<byte>)
    requires v.Length == 4 && |m| == 16
    modifies v
    ensures v[..] == Absorb(old(v[..]), m, 1)
  {
    hide *;
    v[0] := Round(v[0], Read32LE(host, m, 0));
    v[1] := Round(v[1], Read32LE(host, m, 4));
    v[2] := Round(v[2], Read32LE(host, m, 8));
    v[3] := Round(v[3], Read32LE(host, m, 12));
    OneStripe(old(v[..]), m);
  }

  /** One more stripe of the bytes from `from` on. */
  lemma AbsorbOneMore(v: seq<word>, src: seq<byte>, from: nat, n: nat)
    requires |v| == 4 && from + 16 * n + 16 <= |src|
    ensures var p := from + 16 * n; var u := Absorb(v, src[from..], n);
      Absorb(v, src[from..], n + 1) ==
      [Round(u[0], Word(src, p)), Round(u[1], Word(src, p + 4)), Round(u[2], Word(src, p + 8)), Round(u[3], Word(src, p + 12))]
  {
    hide Round, Word;
    WordInSuffix(src, from, 16 * n);
    WordInSuffix(src, from, 16 * n + 4);
    WordInSuffix(src, from, 16 * n + 8);
    WordInSuffix(src, from, 16 * n + 12);
  }

  lemma WordInSuffix(s: seq<byte>, from: nat, i: nat)
    requires from + i + 4 <= |s|
    ensures Word(s[from..], i) == Word(s, from + i)
  {
    hide Widen, Join;
  }

  /** The stripes from `from` on, up to the last whole one, if there is one. */
  method RunStripes(host: Host, kernel: Kernel, v: array<word>, input: seq<byte>, from: nat) returns (p: nat)
    requires v.Length == 4 && from <= |input|
    modifies v
    ensures p == from + 16 * (|input[from..]| / 16)
    ensures v[..] == Absorb(old(v[..]), input[from..], |input[from..]| / 16)
  {
    hide Absorb;
    p := from;
    var rest := |input| - from;
    if rest < 16 {
      AbsorbNothing(v[..], input[from..]);
    } else if kernel == Plain {
      p := BlocksStart(host, v, input, from, from + (rest - 16));
    } else {
      p := BlocksGeneric(host, v, input, from, from + (rest - 16));
    }
  }

  // ----- the streaming state

  class State {
    var totalLen: nat
    var largeLen: bool
    const v: array<word>
    const mem: array<byte>
    var memsize: nat

    ghost function Repr(): set<object> {
      {this, v, mem}
    }

    ghost predicate Valid()
      reads Repr()
    {
      v.Length == 4 && mem.Length == 16 && WellFormed(Abs())
    }

    ghost function Abs(): Snapshot
      reads Repr()
    {
      Snapshot(totalLen, largeLen, v[..], mem[..], memsize)
    }

    constructor (seed: word)
      ensures Valid() && fresh(Repr())
      ensures Abs() == Fresh(seed)
    {
      v := new word[4];
      mem := new byte[16];
      totalLen, largeLen, memsize := 0, false, 0;
      new;
      Reset(seed);
    }

    method Reset(seed: word)
      requires v.Length == 4 && mem.Length == 16
      modifies Repr()
      ensures Valid() && Abs() == Fresh(seed)
    {
      totalLen, largeLen := 0, false;
      v[0] := seed + PRIME32_1 + PRIME32_2;
      v[1] := seed + PRIME32_2;
      v[2] := seed + 0;
      v[3] := seed - PRIME32_1;
      forall k | 0 <= k < 16 {
        mem[k] := 0;
      }
      memsize := 0;
      assert v[..] == InitLanes(seed);
      assert mem[..] == seq(16, _ => 0);
    }

    /** Completes the carried stripe from the head of the input and runs it. */
    method TopUp(host: Host, kernel: Kernel, input: seq<byte>) returns (take: nat)
      requires Valid() && 0 < memsize && memsize + |input| >= 16
      modifies Repr()
      ensures Valid() && take == 16 - old(memsize)
      ensures Abs() == ToppedUp(old(Abs()), input)
    {
      hide Absorb, Overwrite;
      take := 16 - memsize;
      if kernel == Plain {
        Store(mem, memsize, input[..take]);
        StripeStart(host, v, mem[..]);
      } else {
        CopySmall(mem, memsize, input, 0, take);
        assert mem[..][0..] == mem[..];
        var _ := BlocksGeneric(host, v, mem[..], 0, 0);
      }
      memsize := 0;
    }

    /** Runs the whole stripes from `from` on and carries what is left. */
    method Drain(host: Host, kernel: Kernel, input: seq<byte>, from: nat)
      requires Valid() && memsize == 0 && from <= |input|
      modifies Repr()
      ensures Valid() && Abs() == Drained(old(Abs()), input[from..])
    {
      hide Absorb, Overwrite;
      var p := RunStripes(host, kernel, v, input, from);
      var rest := |input| - p;
      NoBytes(mem[..], 0);
      if rest != 0 {
        if kernel == Plain {
          Store(mem, 0, input[p..p + rest]);
        } else {
          CopySmall(mem, 0, input, p, rest);
        }
        memsize := rest;
      }
      assert input[from..][p - from..] == input[p..p + rest];
    }

    /** `update_pinned` copies by fixed sizes and pins the lanes; `update_start` copies exactly and leaves them be. */
    method RunKernel(host: Host, kernel: Kernel, input: seq<byte>)
      requires Valid() && memsize + |input| >= 16
      modifies Repr()
      ensures Valid() && Abs() == Filled(old(Abs()), input)
    {
      hide Drained;
      if memsize != 0 {
        var take := TopUp(host, kernel, input);
        Drain(host, kernel, input, take);
      } else {
        assert input[0..] == input;
        Drain(host, kernel, input, 0);
      }
    }

    /** `XXH32_update_as`: count the bytes, then carry them or run one of the two kernels. */
    method Update(host: Host, kernel: Kernel, input: seq<byte>)
      requires Valid()
      modifies Repr()
      ensures Valid() && Abs() == Updated(old(Abs()), input)
    {
      hide Filled, Overwrite;
      totalLen := (totalLen + |input|) % 0x1_0000_0000;
      if |input| >= 16 || totalLen >= 16 {
        largeLen := true;
      }
      assert Abs() == Counted(old(Abs()), |input|);
      if memsize + |input| < 16 {
        assert input[0..|input|] == input;
        CopySmall(mem, memsize, input, 0, |input|);
        memsize := memsize + |input|;
      } else {
        RunKernel(host, kernel, input);
      }
    }

    method DigestAs(host: Host) returns (h: word)
      requires Valid()
      ensures h == Digest(Abs())
    {
      hide Absorb, Lane, Merge, TailWord, TailByte, Word, Widen, Wrap, Plus;
      if largeLen {
        h := Merge(v[..]);
      } else {
        h := v[2] + PRIME32_5;
      }
      h := Plus(h, Wrap(totalLen));
      ghost var h0 := h;
      var carried := mem[..memsize];
      var p := 0;
      while p + 4 <= memsize
        invariant p <= memsize
        invariant Tail(h, carried, p) == Tail(h0, carried, 0)
      {
        h := TailWord(h, Read32LE(host, carried, p));
        p := p + 4;
      }
      while p < memsize
        invariant p <= memsize < p + 4
        invariant TailBytes(h, carried, p) == Tail(h0, carried, 0)
      {
        h := TailByte(h, Widen(carried[p]));
        p := p + 1;
      }
      h := Avalanche(h);
    }
  }
}
