/** Changing one byte of an input changes its XXH32: every step is a bijection of the accumulator. */
module Xxh32Sensitivity {
  import opened Bytes
  import opened Xxh32

  // Products by the inverses of the primes modulo 2^32.
  function Undo1(x: word): word { x * 0x0E8B2F51 }
  function Undo2(x: word): word { x * 0xB6C92F47 }
  function Undo3(x: word): word { x * 0xA89ED915 }
  function Undo4(x: word): word { x * 0xA0FE3BCF }
  function Undo5(x: word): word { x * 0xAE398151 }

  lemma TimesInvertible(x: word)
    ensures Undo1(Times1(x)) == x
    ensures Undo2(Times2(x)) == x
    ensures Undo3(Times3(x)) == x
    ensures Undo4(Times4(x)) == x
    ensures Undo5(Times5(x)) == x
  {
    assert Undo1(x * 0x9E3779B1) == x;
    assert Undo2(x * 0x85EBCA77) == x;
    assert Undo3(x * 0xC2B2AE3D) == x;
    assert Undo4(x * 0x27D4EB2F) == x;
    assert Undo5(x * 0x165667B1) == x;
  }

  /** The rotations XXH32 uses lose nothing. */
  lemma RotlInjective(x: word, y: word, r: word)
    requires r == 13 || r == 17 || r == 11 || r == 1 || r == 7 || r == 12 || r == 18
    requires Rotl(x, r) == Rotl(y, r)
    ensures x == y
  {
  }

  lemma CancelLeft(a: word, x: word, y: word)
    requires a + x == a + y
    ensures x == y
  {
  }

  lemma FromBitsInjective(
    a7: bool, a6: bool, a5: bool, a4: bool, a3: bool, a2: bool, a1: bool, a0: bool,
    b7: bool, b6: bool, b5: bool, b4: bool, b3: bool, b2: bool, b1: bool, b0: bool)
    requires FromBits(a7, a6, a5, a4, a3, a2, a1, a0) == FromBits(b7, b6, b5, b4, b3, b2, b1, b0)
    ensures a7 == b7 && a6 == b6 && a5 == b5 && a4 == b4 && a3 == b3 && a2 == b2 && a1 == b1 && a0 == b0
  {
  }

  lemma HalfAndParity(a: nat, b: nat)
    requires a / 2 == b / 2 && Odd(a) == Odd(b)
    ensures a == b
  {
  }

  lemma CancelRight(a: word, x: word, y: word)
    requires x + a == y + a
    ensures x == y
  {
  }

  function Minus(x: word, y: word): word { x - y }

  lemma PlusInvertible(x: word, y: word)
    ensures Minus(Plus(x, y), x) == y
    ensures Minus(Plus(x, y), y) == x
  {
    assert Minus(x + y, x) == y;
    assert Minus(x + y, y) == x;
  }

  lemma PlusInjective(x: word, y: word, x': word, y': word)
    requires Plus(x, y) == Plus(x', y')
    ensures x == x' <==> y == y'
  {
    hide Plus, Minus;
    PlusInvertible(x, y);
    PlusInvertible(x', y');
  }

  lemma WidenInjective(a: byte, b: byte)
    requires Widen(a) == Widen(b)
    ensures a == b
  {
    hide FromBits, Odd;
    var n0 := a as nat;
    var n1 := n0 / 2;
    var n2 := n1 / 2;
    var n3 := n2 / 2;
    var n4 := n3 / 2;
    var n5 := n4 / 2;
    var n6 := n5 / 2;
    var n7 := n6 / 2;
    var m0 := b as nat;
    var m1 := m0 / 2;
    var m2 := m1 / 2;
    var m3 := m2 / 2;
    var m4 := m3 / 2;
    var m5 := m4 / 2;
    var m6 := m5 / 2;
    var m7 := m6 / 2;
    FromBitsInjective(Odd(n7), Odd(n6), Odd(n5), Odd(n4), Odd(n3), Odd(n2), Odd(n1), Odd(n0),
                      Odd(m7), Odd(m6), Odd(m5), Odd(m4), Odd(m3), Odd(m2), Odd(m1), Odd(m0));
    HalfAndParity(n7, m7);
    HalfAndParity(n6, m6);
    HalfAndParity(n5, m5);
    HalfAndParity(n4, m4);
    HalfAndParity(n3, m3);
    HalfAndParity(n2, m2);
    HalfAndParity(n1, m1);
    HalfAndParity(n0, m0);
  }

  lemma JoinInjective(a0: word, a1: word, a2: word, a3: word, b0: word, b1: word, b2: word, b3: word)
    requires a0 < 0x100 && a1 < 0x100 && a2 < 0x100 && a3 < 0x100
    requires b0 < 0x100 && b1 < 0x100 && b2 < 0x100 && b3 < 0x100
    requires Join(a0, a1, a2, a3) == Join(b0, b1, b2, b3)
    ensures a0 == b0 && a1 == b1 && a2 == b2 && a3 == b3
  {
  }

  lemma WordInjective(s: seq<byte>, t: seq<byte>, i: nat)
    requires i + 4 <= |s| && i + 4 <= |t|
    requires Word(s, i) == Word(t, i)
    ensures forall k :: i <= k < i + 4 ==> s[k] == t[k]
  {
    hide Widen, Join;
    WidenIsSmall(s[i]);
    WidenIsSmall(s[i + 1]);
    WidenIsSmall(s[i + 2]);
    WidenIsSmall(s[i + 3]);
    WidenIsSmall(t[i]);
    WidenIsSmall(t[i + 1]);
    WidenIsSmall(t[i + 2]);
    WidenIsSmall(t[i + 3]);
    JoinInjective(Widen(s[i]), Widen(s[i + 1]), Widen(s[i + 2]), Widen(s[i + 3]),
                  Widen(t[i]), Widen(t[i + 1]), Widen(t[i + 2]), Widen(t[i + 3]));
    WidenInjective(s[i], t[i]);
    WidenInjective(s[i + 1], t[i + 1]);
    WidenInjective(s[i + 2], t[i + 2]);
    WidenInjective(s[i + 3], t[i + 3]);
  }

  lemma RoundSum(a: word, b: word, w: word, u: word)
    requires Round(a, w) == Round(b, u)
    ensures a + Times2(w) == b + Times2(u)
  {
    hide Times2;
    var s, t := a + Times2(w), b + Times2(u);
    TimesInvertible(Rotl(s, 13));
    TimesInvertible(Rotl(t, 13));
    RotlInjective(s, t, 13);
  }

  lemma TailWordSum(a: word, b: word, w: word, u: word)
    requires TailWord(a, w) == TailWord(b, u)
    ensures a + Times3(w) == b + Times3(u)
  {
    hide Times3;
    var s, t := a + Times3(w), b + Times3(u);
    TimesInvertible(Rotl(s, 17));
    TimesInvertible(Rotl(t, 17));
    RotlInjective(s, t, 17);
  }

  lemma TailByteSum(a: word, b: word, w: word, u: word)
    requires TailByte(a, w) == TailByte(b, u)
    ensures a + Times5(w) == b + Times5(u)
  {
    hide Times5;
    var s, t := a + Times5(w), b + Times5(u);
    TimesInvertible(Rotl(s, 11));
    TimesInvertible(Rotl(t, 11));
    RotlInjective(s, t, 11);
  }

  function Unfold15(g: word): word { g ^ (g >> 15) ^ (g >> 30) }
  function Unfold13(g: word): word { g ^ (g >> 13) ^ (g >> 26) }
  function Unfold16(g: word): word { g ^ (g >> 16) }

  lemma FoldInvertible(h: word)
    ensures Unfold15(Fold15(h)) == h
    ensures Unfold13(Fold13(h)) == h
    ensures Unfold16(Fold16(h)) == h
  {
    assert Unfold15(h ^ (h >> 15)) == h;
    assert Unfold13(h ^ (h >> 13)) == h;
    assert Unfold16(h ^ (h >> 16)) == h;
  }

  lemma RoundAccumulatorInjective(a: word, b: word, w: word)
    requires Round(a, w) == Round(b, w)
    ensures a == b
  {
    RoundSum(a, b, w, w);
    CancelRight(Times2(w), a, b);
  }

  lemma RoundInputInjective(a: word, w: word, u: word)
    requires Round(a, w) == Round(a, u)
    ensures w == u
  {
    RoundSum(a, a, w, u);
    CancelLeft(a, Times2(w), Times2(u));
    TimesInvertible(w);
    TimesInvertible(u);
  }

  lemma TailWordAccumulatorInjective(a: word, b: word, w: word)
    requires TailWord(a, w) == TailWord(b, w)
    ensures a == b
  {
    TailWordSum(a, b, w, w);
    CancelRight(Times3(w), a, b);
  }

  lemma TailWordInputInjective(a: word, w: word, u: word)
    requires TailWord(a, w) == TailWord(a, u)
    ensures w == u
  {
    TailWordSum(a, a, w, u);
    CancelLeft(a, Times3(w), Times3(u));
    TimesInvertible(w);
    TimesInvertible(u);
  }

  lemma TailByteAccumulatorInjective(a: word, b: word, w: word)
    requires TailByte(a, w) == TailByte(b, w)
    ensures a == b
  {
    TailByteSum(a, b, w, w);
    CancelRight(Times5(w), a, b);
  }

  lemma TailByteInputInjective(a: word, w: word, u: word)
    requires TailByte(a, w) == TailByte(a, u)
    ensures w == u
  {
    TailByteSum(a, a, w, u);
    CancelLeft(a, Times5(w), Times5(u));
    TimesInvertible(w);
    TimesInvertible(u);
  }

  lemma AvalancheInjective(a: word, b: word)
    requires Avalanche(a) == Avalanche(b)
    ensures a == b
  {
    hide Fold15, Fold13, Fold16, Unfold15, Unfold13, Unfold16, Times2, Times3, Undo2, Undo3;
    var a1, b1 := Fold15(a), Fold15(b);
    var a2, b2 := Fold13(Times2(a1)), Fold13(Times2(b1));
    FoldInvertible(Times3(a2));
    FoldInvertible(Times3(b2));
    TimesInvertible(a2);
    TimesInvertible(b2);
    FoldInvertible(Times2(a1));
    FoldInvertible(Times2(b1));
    TimesInvertible(a1);
    TimesInvertible(b1);
    FoldInvertible(a);
    FoldInvertible(b);
  }

  // ----- one changed byte, followed to the digest

  /** `s` and `t` have the same length and differ at index `i` and nowhere else. */
  ghost predicate DifferOnlyAt(s: seq<byte>, t: seq<byte>, i: nat) {
    |s| == |t| && i < |s| && s[i] != t[i] && forall k :: 0 <= k < |s| && k != i ==> s[k] == t[k]
  }

  /** A lane that does not read index `i` is the same in both; the one that reads it differs from there on. */
  lemma {:induction false} LaneFollowsTheByte(v: word, s: seq<byte>, t: seq<byte>, i: nat, j: nat, n: nat)
    requires DifferOnlyAt(s, t, i) && j < 4 && 16 * n <= |s|
    ensures Lane(v, s, j, n) == Lane(v, t, j, n) <==> !(i < 16 * n && i % 16 / 4 == j)
  {
    hide Round, Word;
    if n == 0 {
    } else {
      LaneFollowsTheByte(v, s, t, i, j, n - 1);
      var p := 16 * (n - 1) + 4 * j;
      var a, b := Lane(v, s, j, n - 1), Lane(v, t, j, n - 1);
      if p <= i < p + 4 {
        WordFollowsTheByte(s, t, i, p);
        if Lane(v, s, j, n) == Lane(v, t, j, n) {
          RoundInputInjective(a, Word(s, p), Word(t, p));
        }
      } else {
        WordFollowsTheByte(s, t, i, p);
        if Lane(v, s, j, n) == Lane(v, t, j, n) {
          RoundAccumulatorInjective(a, b, Word(s, p));
        }
      }
    }
  }

  lemma WordFollowsTheByte(s: seq<byte>, t: seq<byte>, i: nat, p: nat)
    requires DifferOnlyAt(s, t, i) && p + 4 <= |s|
    ensures Word(s, p) == Word(t, p) <==> !(p <= i < p + 4)
  {
    hide Widen, Join;
    if Word(s, p) == Word(t, p) && p <= i < p + 4 {
      WordInjective(s, t, p);
    }
  }

  /** Only one lane differs at the merge, so the sums differ. */
  lemma MergeFollowsTheLane(v: seq<word>, u: seq<word>, j: nat)
    requires |v| == 4 && |u| == 4 && j < 4
    requires v[j] != u[j] && forall k :: 0 <= k < 4 && k != j ==> v[k] == u[k]
    ensures Merge(v) != Merge(u)
  {
    hide Rotl, Plus;
    var ab, ab' := Plus(Rotl(v[0], 1), Rotl(v[1], 7)), Plus(Rotl(u[0], 1), Rotl(u[1], 7));
    var abc, abc' := Plus(ab, Rotl(v[2], 12)), Plus(ab', Rotl(u[2], 12));
    if Merge(v) == Merge(u) {
      PlusInjective(abc, Rotl(v[3], 18), abc', Rotl(u[3], 18));
      if j == 3 {
        RotlInjective(v[3], u[3], 18);
      } else {
        PlusInjective(ab, Rotl(v[2], 12), ab', Rotl(u[2], 12));
        if j == 2 {
          RotlInjective(v[2], u[2], 12);
        } else {
          PlusInjective(Rotl(v[0], 1), Rotl(v[1], 7), Rotl(u[0], 1), Rotl(u[1], 7));
          if j == 1 {
            RotlInjective(v[1], u[1], 7);
          } else {
            RotlInjective(v[0], u[0], 1);
          }
        }
      }
    }
  }

  lemma {:induction false} TailFollowsTheAccumulator(g: word, h: word, s: seq<byte>, i: nat)
    requires i <= |s|
    ensures Tail(g, s, i) == Tail(h, s, i) <==> g == h
    decreases |s| - i
  {
    hide TailWord, Word;
    if i + 4 <= |s| {
      TailFollowsTheAccumulator(TailWord(g, Word(s, i)), TailWord(h, Word(s, i)), s, i + 4);
      if TailWord(g, Word(s, i)) == TailWord(h, Word(s, i)) {
        TailWordAccumulatorInjective(g, h, Word(s, i));
      }
    } else {
      TailBytesFollowTheAccumulator(g, h, s, i);
    }
  }

  lemma {:induction false} TailBytesFollowTheAccumulator(g: word, h: word, s: seq<byte>, i: nat)
    requires i <= |s|
    ensures TailBytes(g, s, i) == TailBytes(h, s, i) <==> g == h
    decreases |s| - i
  {
    hide TailByte, Widen;
    if i == |s| {
    } else {
      TailBytesFollowTheAccumulator(TailByte(g, Widen(s[i])), TailByte(h, Widen(s[i])), s, i + 1);
      if TailByte(g, Widen(s[i])) == TailByte(h, Widen(s[i])) {
        TailByteAccumulatorInjective(g, h, Widen(s[i]));
      }
    }
  }

  lemma TailUnfold(h: word, s: seq<byte>, p: nat)
    requires p <= |s|
    ensures Tail(h, s, p) == if p + 4 <= |s| then Tail(TailWord(h, Word(s, p)), s, p + 4) else TailBytes(h, s, p)
  {
  }

  lemma {:induction false} TailFollowsTheByte(h: word, s: seq<byte>, t: seq<byte>, i: nat, p: nat)
    requires DifferOnlyAt(s, t, i) && p <= i
    ensures Tail(h, s, p) != Tail(h, t, p)
    decreases |s| - p
  {
    hide Tail, TailBytes, TailWord, Word;
    TailUnfold(h, s, p);
    TailUnfold(h, t, p);
    if p + 4 <= |s| {
      WordFollowsTheByte(s, t, i, p);
      var g, g' := TailWord(h, Word(s, p)), TailWord(h, Word(t, p));
      if i < p + 4 {
        if g == g' {
          TailWordInputInjective(h, Word(s, p), Word(t, p));
        }
        TailIgnoresThePast(g', s, t, p + 4);
        TailFollowsTheAccumulator(g, g', s, p + 4);
      } else {
        TailFollowsTheByte(g, s, t, i, p + 4);
      }
    } else {
      TailBytesFollowTheByte(h, s, t, i, p);
    }
  }

  lemma {:induction false} TailBytesFollowTheByte(h: word, s: seq<byte>, t: seq<byte>, i: nat, p: nat)
    requires DifferOnlyAt(s, t, i) && p <= i
    ensures TailBytes(h, s, p) != TailBytes(h, t, p)
    decreases |s| - p
  {
    hide TailByte, Widen;
    var g, g' := TailByte(h, Widen(s[p])), TailByte(h, Widen(t[p]));
    if p == i {
      if g == g' {
        TailByteInputInjective(h, Widen(s[p]), Widen(t[p]));
        WidenInjective(s[p], t[p]);
      }
      TailBytesIgnoreThePast(g', s, t, p + 1);
      TailBytesFollowTheAccumulator(g, g', s, p + 1);
    } else {
      TailBytesFollowTheByte(g, s, t, i, p + 1);
    }
  }

  lemma WordIsLocal(s: seq<byte>, t: seq<byte>, p: nat)
    requires p + 4 <= |s| && p + 4 <= |t| && forall k :: p <= k < p + 4 ==> s[k] == t[k]
    ensures Word(s, p) == Word(t, p)
  {
  }

  lemma {:induction false} TailIgnoresThePast(h: word, s: seq<byte>, t: seq<byte>, p: nat)
    requires |s| == |t| && p <= |s| && forall k :: p <= k < |s| ==> s[k] == t[k]
    ensures Tail(h, s, p) == Tail(h, t, p)
    decreases |s| - p
  {
    hide TailWord, Word;
    if p + 4 <= |s| {
      WordIsLocal(s, t, p);
      TailIgnoresThePast(TailWord(h, Word(s, p)), s, t, p + 4);
    } else {
      TailBytesIgnoreThePast(h, s, t, p);
    }
  }

  lemma {:induction false} TailBytesIgnoreThePast(h: word, s: seq<byte>, t: seq<byte>, p: nat)
    requires |s| == |t| && p <= |s| && forall k :: p <= k < |s| ==> s[k] == t[k]
    ensures TailBytes(h, s, p) == TailBytes(h, t, p)
    decreases |s| - p
  {
    hide TailByte, Widen;
    if p == |s| {
    } else {
      TailBytesIgnoreThePast(TailByte(h, Widen(s[p])), s, t, p + 1);
    }
  }

  lemma StartFollowsTheByte(seed: word, s: seq<byte>, t: seq<byte>, i: nat)
    requires DifferOnlyAt(s, t, i)
    ensures Start(seed, s) == Start(seed, t) <==> i >= 16 * (|s| / 16)
  {
    hide Merge, Lane, Wrap, Plus;
    var n := |s| / 16;
    var v := InitLanes(seed);
    LaneFollowsTheByte(v[0], s, t, i, 0, n);
    LaneFollowsTheByte(v[1], s, t, i, 1, n);
    LaneFollowsTheByte(v[2], s, t, i, 2, n);
    LaneFollowsTheByte(v[3], s, t, i, 3, n);
    if i < 16 * n {
      MergeFollowsTheLane(Absorb(v, s, n), Absorb(v, t, n), i % 16 / 4);
      if Start(seed, s) == Start(seed, t) {
        PlusInjective(Merge(Absorb(v, s, n)), Wrap(|s|), Merge(Absorb(v, t, n)), Wrap(|s|));
      }
    }
  }

  /** No change of a single byte, in an input of any length and at any seed, keeps the digest. */
  lemma OneByteChangesTheDigest(seed: word, s: seq<byte>, t: seq<byte>, i: nat)
    requires DifferOnlyAt(s, t, i)
    ensures XXH32(seed, s) != XXH32(seed, t)
  {
    hide Start, Tail, Avalanche;
    var p := 16 * (|s| / 16);
    var g, h := Start(seed, s), Start(seed, t);
    StartFollowsTheByte(seed, s, t, i);
    if i < p {
      TailFollowsTheAccumulator(g, h, s, p);
      TailIgnoresThePast(h, s, t, p);
    } else {
      TailFollowsTheByte(g, s, t, i, p);
    }
    if Avalanche(Tail(g, s, p)) == Avalanche(Tail(h, t, p)) {
      AvalancheInjective(Tail(g, s, p), Tail(h, t, p));
    }
  }
}
