/** The words of XXH32 as numbers: how a length wraps, which word four bytes are, and where the lanes start. */
module Xxh32Numbers {
  import opened Bytes
  import opened Xxh32
  import opened Xxh32Sensitivity
  import opened Xxh32Stream

  function Num(x: word): nat {
    x as nat
  }

  // ----- a word built bit by bit

  function Push(x: word, b: bool): word {
    (x << 1) | (if b then 1 else 0)
  }

  lemma HalfIsSmall(x: word)
    requires x as nat < 0x8000_0000
    ensures x < 0x8000_0000
  {
  }

  lemma ShiftedIn0(x: word)
    requires x < 0x8000_0000
    ensures (x << 1) as nat == 2 * (x as nat)
  {
  }

  lemma ShiftedIn1(x: word)
    requires x < 0x8000_0000
    ensures ((x << 1) | 1) as nat == 2 * (x as nat) + 1
  {
  }

  lemma PushDoubles(x: word, b: bool)
    requires x as nat < 0x8000_0000
    ensures Push(x, b) as nat == 2 * (x as nat) + if b then 1 else 0
  {
    HalfIsSmall(x);
    if b {
      ShiftedIn1(x);
    } else {
      ShiftedIn0(x);
      assert (x << 1) | 0 == x << 1;
    }
  }

  function OfNat(n: nat): word {
    if n == 0 then 0 else Push(OfNat(n / 2), n % 2 == 1)
  }

  lemma {:induction false} OfNatIsTheNumber(n: nat)
    requires n < 0x1_0000_0000
    ensures OfNat(n) as nat == n
  {
    if n == 0 {
    } else {
      hide Push;
      OfNatIsTheNumber(n / 2);
      PushDoubles(OfNat(n / 2), n % 2 == 1);
    }
  }

  lemma ThereAndBack(w: word)
    ensures (w as nat) as word == w
  {
  }

  lemma CastIsTheNumber(n: nat)
    requires n < 0x1_0000_0000
    ensures (n as word) as nat == n
  {
    hide OfNat;
    OfNatIsTheNumber(n);
    ThereAndBack(OfNat(n));
  }

  /** A length is counted modulo 2^32, and not sooner. */
  lemma WrapIsModulo(n: nat)
    ensures Num(Wrap(n)) == Wrap(n) as nat == n % 0x1_0000_0000
  {
    CastIsTheNumber(n % 0x1_0000_0000);
  }

  // ----- bytes and words

  function PushByte(x: word, b: byte): word {
    Above(x, Widen(b))
  }

  function Above(x: word, w: word): word {
    (x << 8) | w
  }

  lemma EightPushes(x: word, b7: bool, b6: bool, b5: bool, b4: bool, b3: bool, b2: bool, b1: bool, b0: bool)
    ensures Above(x, FromBits(b7, b6, b5, b4, b3, b2, b1, b0)) ==
      Push(Push(Push(Push(Push(Push(Push(Push(x, b7), b6), b5), b4), b3), b2), b1), b0)
  {
  }

  /** One more digit of a number that goes on after what `x` is a multiple of. */
  lemma PushHalf(x: word, above: nat, n: nat)
    requires Num(x) == above + n / 2 < 0x8000_0000
    ensures Num(Push(x, Odd(n))) == 2 * above + n
  {
    hide Push;
    PushDoubles(x, Odd(n));
  }

  function EightBits(x: word, n: nat): word {
    var h1 := n / 2;
    var h2 := h1 / 2;
    var h3 := h2 / 2;
    var h4 := h3 / 2;
    var h5 := h4 / 2;
    var h6 := h5 / 2;
    var h7 := h6 / 2;
    Push(Push(Push(Push(Push(Push(Push(Push(x, Odd(h7)), Odd(h6)), Odd(h5)), Odd(h4)), Odd(h3)), Odd(h2)), Odd(h1)), Odd(n))
  }

  lemma PushByteIsEightBits(x: word, b: byte)
    ensures PushByte(x, b) == EightBits(x, b as nat)
  {
    hide Push, FromBits, Odd, Above;
    var n := b as nat;
    EightPushes(x, Odd(n / 2 / 2 / 2 / 2 / 2 / 2 / 2), Odd(n / 2 / 2 / 2 / 2 / 2 / 2), Odd(n / 2 / 2 / 2 / 2 / 2),
      Odd(n / 2 / 2 / 2 / 2), Odd(n / 2 / 2 / 2), Odd(n / 2 / 2), Odd(n / 2), Odd(n));
  }

  lemma EightBitsIsTheNumber(x: word, n: nat)
    requires Num(x) < 0x100_0000 && n < 256
    ensures Num(EightBits(x, n)) == 256 * Num(x) + n
  {
    hide Push, Odd, Num;
    var above := Num(x);
    var h1 := n / 2;
    var h2 := h1 / 2;
    var h3 := h2 / 2;
    var h4 := h3 / 2;
    var h5 := h4 / 2;
    var h6 := h5 / 2;
    var h7 := h6 / 2;
    PushHalf(x, above, h7);
    var p := Push(x, Odd(h7));
    PushHalf(p, 2 * above, h6);
    p := Push(p, Odd(h6));
    PushHalf(p, 4 * above, h5);
    p := Push(p, Odd(h5));
    PushHalf(p, 8 * above, h4);
    p := Push(p, Odd(h4));
    PushHalf(p, 16 * above, h3);
    p := Push(p, Odd(h3));
    PushHalf(p, 32 * above, h2);
    p := Push(p, Odd(h2));
    PushHalf(p, 64 * above, h1);
    p := Push(p, Odd(h1));
    PushHalf(p, 128 * above, n);
  }

  lemma PushByteIsTheNumber(x: word, b: byte)
    requires Num(x) < 0x100_0000
    ensures Num(PushByte(x, b)) == 256 * Num(x) + b as nat
  {
    hide PushByte, EightBits, Num;
    PushByteIsEightBits(x, b);
    EightBitsIsTheNumber(x, b as nat);
  }

  lemma ZeroIsZero()
    ensures Num(0) == 0
  {
  }

  lemma NothingAbove(b: byte)
    ensures PushByte(0, b) == Widen(b)
  {
    hide Widen;
  }

  /** A byte keeps its value. */
  lemma WidenIsTheByte(b: byte)
    ensures Num(Widen(b)) == b as nat
  {
    hide Widen, PushByte, Num;
    ZeroIsZero();
    NothingAbove(b);
    PushByteIsTheNumber(0, b);
  }

  lemma JoinInSteps(w0: word, w1: word, w2: word, w3: word)
    ensures Join(w0, w1, w2, w3) == (((((w3 << 8) | w2) << 8) | w1) << 8) | w0
  {
  }

  lemma AboveAboveAbove(w0: word, w1: word, w2: word, w3: word)
    ensures Above(Above(Above(w3, w2), w1), w0) == (((((w3 << 8) | w2) << 8) | w1) << 8) | w0
  {
  }

  lemma JoinPushes(w0: word, w1: word, w2: word, w3: word)
    ensures Join(w0, w1, w2, w3) == Above(Above(Above(w3, w2), w1), w0)
  {
    hide Join, Above;
    JoinInSteps(w0, w1, w2, w3);
    AboveAboveAbove(w0, w1, w2, w3);
  }

  /** Four bytes are read with the low one first. */
  lemma WordIsLittleEndian(s: seq<byte>, i: nat)
    requires i + 4 <= |s|
    ensures Num(Word(s, i)) ==
      s[i] as nat + 256 * (s[i + 1] as nat) + 65536 * (s[i + 2] as nat) + 16777216 * (s[i + 3] as nat)
  {
    hide Widen, Join, Above, Num;
    JoinPushes(Widen(s[i]), Widen(s[i + 1]), Widen(s[i + 2]), Widen(s[i + 3]));
    WidenIsTheByte(s[i + 3]);
    var x3 := Widen(s[i + 3]);
    var x2 := PushByte(x3, s[i + 2]);
    var x1 := PushByte(x2, s[i + 1]);
    PushByteIsTheNumber(x3, s[i + 2]);
    PushByteIsTheNumber(x2, s[i + 1]);
    PushByteIsTheNumber(x1, s[i]);
  }

  // ----- the lanes

  lemma FirstStart(seed: word)
    ensures FirstLane(seed) == Plus(seed, 0x24234428)
  {
  }

  lemma SecondStart(seed: word)
    ensures SecondLane(seed) == Plus(seed, 0x85EBCA77)
  {
  }

  lemma LastStart(seed: word)
    ensures LastLane(seed) == Plus(seed, 0x61C8864F)
  {
  }

  lemma PlusNothing(x: word)
    ensures Plus(x, 0) == x && Plus(0, x) == x
  {
  }

  /** Every lane starts from the seed, and from its own number. */
  lemma LanesStartFromTheSeed(seed: word)
    ensures InitLanes(seed) == [Plus(seed, 0x24234428), Plus(seed, 0x85EBCA77), Plus(seed, 0), Plus(seed, 0x61C8864F)]
  {
    hide FirstLane, SecondLane, LastLane, Plus;
    FirstStart(seed);
    SecondStart(seed);
    LastStart(seed);
    PlusNothing(seed);
  }

  lemma LanesDifferByTheSeed(seed: word, j: nat)
    requires j < 4
    ensures Minus(InitLanes(seed)[j], InitLanes(0)[j]) == seed
    ensures InitLanes(0) == [0x24234428, 0x85EBCA77, 0, 0x61C8864F]
  {
    hide InitLanes, Plus, Minus;
    LanesStartFromTheSeed(seed);
    LanesStartFromTheSeed(0);
    PlusNothing(0x24234428);
    PlusNothing(0x85EBCA77);
    PlusNothing(0);
    PlusNothing(0x61C8864F);
    PlusInvertible(seed, InitLanes(0)[j]);
  }

  /** So does the state after a reset, whatever it was. */
  method ResetStartsFromTheSeed(state: State, seed: word)
    requires state.v.Length == 4 && state.mem.Length == 16
    modifies state.Repr()
    ensures state.v[..] == [Plus(seed, 0x24234428), Plus(seed, 0x85EBCA77), Plus(seed, 0), Plus(seed, 0x61C8864F)]
    ensures state.totalLen == 0 && !state.largeLen && state.memsize == 0
  {
    hide InitLanes, Plus;
    LanesStartFromTheSeed(seed);
    state.Reset(seed);
  }
}
