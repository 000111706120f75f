/** XXH32 as the xxHash specification defines it (XXH32 algorithm description, steps 1 to 6), in one shot. */
module Xxh32 {
  import opened Bytes

  type word = bv32

  const PRIME32_1: word := 0x9E3779B1
  const PRIME32_2: word := 0x85EBCA77
  const PRIME32_5: word := 0x165667B1

  // Products by the five primes. The constant stands in the body so that the solver multiplies by a numeral.
  function Times1(x: word): word { x * 0x9E3779B1 }
  function Times2(x: word): word { x * 0x85EBCA77 }
  function Times3(x: word): word { x * 0xC2B2AE3D }
  function Times4(x: word): word { x * 0x27D4EB2F }
  function Times5(x: word): word { x * 0x165667B1 }

  function Plus(x: word, y: word): word { x + y }

  function Rotl(x: word, r: word): word
    requires 0 < r < 32
  {
    (x << r) | (x >> (32 - r))
  }

  /** A length as the 32-bit counter holds it. */
  function Wrap(n: nat): word {
    (n % 0x1_0000_0000) as word
  }

  predicate Odd(n: nat) {
    n % 2 == 1
  }

  function FromBits(b7: bool, b6: bool, b5: bool, b4: bool, b3: bool, b2: bool, b1: bool, b0: bool): word {
    (if b7 then 0x80 else 0) | (if b6 then 0x40 else 0) | (if b5 then 0x20 else 0) | (if b4 then 0x10 else 0) |
    (if b3 then 0x08 else 0) | (if b2 then 0x04 else 0) | (if b1 then 0x02 else 0) | (if b0 then 0x01 else 0)
  }

  /** A byte promoted to 32 bits, bit by bit: the solver is slow on conversions from int to bit-vectors. */
  function Widen(b: byte): word {
    var n0 := b as nat;
    var n1, n2, n3, n4, n5, n6, n7 := n0 / 2, n0 / 2 / 2, n0 / 2 / 2 / 2, n0 / 2 / 2 / 2 / 2,
      n0 / 2 / 2 / 2 / 2 / 2, n0 / 2 / 2 / 2 / 2 / 2 / 2, n0 / 2 / 2 / 2 / 2 / 2 / 2 / 2;
    FromBits(Odd(n7), Odd(n6), Odd(n5), Odd(n4), Odd(n3), Odd(n2), Odd(n1), Odd(n0))
  }

  function Join(w0: word, w1: word, w2: word, w3: word): word {
    w0 | (w1 << 8) | (w2 << 16) | (w3 << 24)
  }

  /** The four bytes of `s` at `i` as a little-endian integer. */
  function Word(s: seq<byte>, i: nat): word
    requires i + 4 <= |s|
  {
    Join(Widen(s[i]), Widen(s[i + 1]), Widen(s[i + 2]), Widen(s[i + 3]))
  }

  function Round(acc: word, input: word): word {
    Times1(Rotl(acc + Times2(input), 13))
  }

  /** Lane `j` after `n` whole 16-byte stripes of `s`, started from `v`. */
  function Lane(v: word, s: seq<byte>, j: nat, n: nat): word
    requires j < 4 && 16 * n <= |s|
  {
    if n == 0 then v else Round(Lane(v, s, j, n - 1), Word(s, 16 * (n - 1) + 4 * j))
  }

  function Absorb(v: seq<word>, s: seq<byte>, n: nat): (r: seq<word>)
    requires |v| == 4 && 16 * n <= |s|
    ensures |r| == 4
  {
    [Lane(v[0], s, 0, n), Lane(v[1], s, 1, n), Lane(v[2], s, 2, n), Lane(v[3], s, 3, n)]
  }

  function InitLanes(seed: word): (r: seq<word>)
    ensures |r| == 4
  {
    [FirstLane(seed), SecondLane(seed), seed, LastLane(seed)]
  }

  function FirstLane(seed: word): word { seed + PRIME32_1 + PRIME32_2 }
  function SecondLane(seed: word): word { seed + PRIME32_2 }
  function LastLane(seed: word): word { seed - PRIME32_1 }

  function Merge(v: seq<word>): word
    requires |v| == 4
  {
    Plus(Plus(Plus(Rotl(v[0], 1), Rotl(v[1], 7)), Rotl(v[2], 12)), Rotl(v[3], 18))
  }

  function TailWord(h: word, w: word): word {
    Times4(Rotl(h + Times3(w), 17))
  }

  function TailByte(h: word, w: word): word {
    Times1(Rotl(h + Times5(w), 11))
  }

  function TailBytes(h: word, s: seq<byte>, i: nat): word
    requires i <= |s|
    decreases |s| - i
  {
    if i == |s| then h else TailBytes(TailByte(h, Widen(s[i])), s, i + 1)
  }

  /** What is left after the stripes: whole words, then single bytes. */
  function Tail(h: word, s: seq<byte>, i: nat): word
    requires i <= |s|
    decreases |s| - i
  {
    if i + 4 <= |s| then Tail(TailWord(h, Word(s, i)), s, i + 4) else TailBytes(h, s, i)
  }

  function Fold15(h: word): word { h ^ (h >> 15) }
  function Fold13(h: word): word { h ^ (h >> 13) }
  function Fold16(h: word): word { h ^ (h >> 16) }

  function Avalanche(h: word): word {
    Fold16(Times3(Fold13(Times2(Fold15(h)))))
  }

  /** The accumulator before the tail: the merged lanes, or the seed alone for a short input, plus the length. */
  function Start(seed: word, s: seq<byte>): word {
    Plus(if |s| >= 16 then Merge(Absorb(InitLanes(seed), s, |s| / 16)) else seed + PRIME32_5, Wrap(|s|))
  }

  function XXH32(seed: word, s: seq<byte>): word {
    Avalanche(Tail(Start(seed, s), s, 16 * (|s| / 16)))
  }

  lemma WidenIsSmall(b: byte)
    ensures Widen(b) < 0x100
  {
  }
}
