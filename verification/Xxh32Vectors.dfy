/** Published digests, which pin the specification down. */
module Xxh32Vectors {
  import opened Bytes
  import opened Xxh32
  import opened Xxh32Numbers

  /** The empty input at seeds 0 and 0x9E3779B1. */
  lemma DigestOfEmpty()
    ensures XXH32(0, []) == 0x02CC5D05
    ensures XXH32(0x9E3779B1, []) == 0x36B78AE7
  {
  }

  /** "Nobody inspects the spammish repetition": two stripes, one word and three bytes. */
  ghost predicate Reads(s: seq<byte>) {
    && |s| == 39
    && s[0] == 78 && s[1] == 111 && s[2] == 98 && s[3] == 111
    && s[4] == 100 && s[5] == 121 && s[6] == 32 && s[7] == 105
    && s[8] == 110 && s[9] == 115 && s[10] == 112 && s[11] == 101
    && s[12] == 99 && s[13] == 116 && s[14] == 115 && s[15] == 32
    && s[16] == 116 && s[17] == 104 && s[18] == 101 && s[19] == 32
    && s[20] == 115 && s[21] == 112 && s[22] == 97 && s[23] == 109
    && s[24] == 109 && s[25] == 105 && s[26] == 115 && s[27] == 104
    && s[28] == 32 && s[29] == 114 && s[30] == 101 && s[31] == 112
    && s[32] == 101 && s[33] == 116 && s[34] == 105 && s[35] == 116
    && s[36] == 105 && s[37] == 111 && s[38] == 110
  }

  /** A word is what its number, as a length, wraps to. */
  lemma LengthOf(w: word, n: nat)
    requires w as nat == n
    ensures Wrap(n) == w
  {
    ThereAndBack(w);
  }

  lemma ByteIs(b: byte, w: word)
    requires w as nat == b as nat
    ensures Widen(b) == w
  {
    hide Widen, Wrap;
    WidenIsTheByte(b);
    LengthOf(w, b as nat);
    LengthOf(Widen(b), b as nat);
  }

  lemma Letters()
    ensures Widen(32) == 0x20
    ensures Widen(78) == 0x4E
    ensures Widen(97) == 0x61
    ensures Widen(98) == 0x62
    ensures Widen(99) == 0x63
    ensures Widen(100) == 0x64
    ensures Widen(101) == 0x65
    ensures Widen(104) == 0x68
    ensures Widen(105) == 0x69
    ensures Widen(109) == 0x6D
    ensures Widen(110) == 0x6E
    ensures Widen(111) == 0x6F
    ensures Widen(112) == 0x70
    ensures Widen(114) == 0x72
    ensures Widen(115) == 0x73
    ensures Widen(116) == 0x74
    ensures Widen(121) == 0x79
  {
    hide Widen;
    ByteIs(32, 0x20);
    ByteIs(78, 0x4E);
    ByteIs(97, 0x61);
    ByteIs(98, 0x62);
    ByteIs(99, 0x63);
    ByteIs(100, 0x64);
    ByteIs(101, 0x65);
    ByteIs(104, 0x68);
    ByteIs(105, 0x69);
    ByteIs(109, 0x6D);
    ByteIs(110, 0x6E);
    ByteIs(111, 0x6F);
    ByteIs(112, 0x70);
    ByteIs(114, 0x72);
    ByteIs(115, 0x73);
    ByteIs(116, 0x74);
    ByteIs(121, 0x79);
  }

  lemma Joins()
    ensures Join(0x4E, 0x6F, 0x62, 0x6F) == 0x6F626F4E
    ensures Join(0x64, 0x79, 0x20, 0x69) == 0x69207964
    ensures Join(0x6E, 0x73, 0x70, 0x65) == 0x6570736E
    ensures Join(0x63, 0x74, 0x73, 0x20) == 0x20737463
    ensures Join(0x74, 0x68, 0x65, 0x20) == 0x20656874
    ensures Join(0x73, 0x70, 0x61, 0x6D) == 0x6D617073
    ensures Join(0x6D, 0x69, 0x73, 0x68) == 0x6873696D
    ensures Join(0x20, 0x72, 0x65, 0x70) == 0x70657220
    ensures Join(0x65, 0x74, 0x69, 0x74) == 0x74697465
  {
  }

  lemma Words(s: seq<byte>)
    requires Reads(s)
    ensures Word(s, 0) == 0x6F626F4E
    ensures Word(s, 4) == 0x69207964
    ensures Word(s, 8) == 0x6570736E
    ensures Word(s, 12) == 0x20737463
    ensures Word(s, 16) == 0x20656874
    ensures Word(s, 20) == 0x6D617073
    ensures Word(s, 24) == 0x6873696D
    ensures Word(s, 28) == 0x70657220
    ensures Word(s, 32) == 0x74697465
  {
    hide Widen, Join;
    Letters();
    Joins();
  }

  lemma Rounds()
    ensures Round(0x24234428, 0x6F626F4E) == 0x046A700A
    ensures Round(0x85EBCA77, 0x69207964) == 0xBFADF8E3
    ensures Round(0x00000000, 0x6570736E) == 0x5B32B4AA
    ensures Round(0x61C8864F, 0x20737463) == 0x137E5555
    ensures Round(0x046A700A, 0x20656874) == 0x719A836E
    ensures Round(0xBFADF8E3, 0x6D617073) == 0x514C1DE8
    ensures Round(0x5B32B4AA, 0x6873696D) == 0x97FA4BA2
    ensures Round(0x137E5555, 0x70657220) == 0x242A97A2
  {
  }

  lemma TwoStripes(v: word, s: seq<byte>, j: nat)
    requires j < 4 && 32 <= |s|
    ensures Lane(v, s, j, 2) == Round(Round(v, Word(s, 4 * j)), Word(s, 16 + 4 * j))
  {
    hide Round, Word;
    assert Lane(v, s, j, 1) == Round(v, Word(s, 4 * j));
  }

  lemma Lanes(s: seq<byte>)
    requires Reads(s)
    ensures Absorb(InitLanes(0), s, 2) == [0x719A836E, 0x514C1DE8, 0x97FA4BA2, 0x242A97A2]
  {
    hide Round, Word, Lane;
    Words(s);
    Rounds();
    TwoStripes(0x24234428, s, 0);
    TwoStripes(0x85EBCA77, s, 1);
    TwoStripes(0x00000000, s, 2);
    TwoStripes(0x61C8864F, s, 3);
  }

  lemma Merged()
    ensures Merge([0x719A836E, 0x514C1DE8, 0x97FA4BA2, 0x242A97A2]) == 0x8C86B52D
  {
  }

  lemma Numbers()
    ensures (15 as word) as nat == 15 && (16 as word) as nat == 16 && (39 as word) as nat == 39
  {
  }

  lemma SmallLengths()
    ensures Wrap(15) == 15 && Wrap(16) == 16 && Wrap(39) == 39
  {
    hide Wrap;
    Numbers();
    LengthOf(15, 15);
    LengthOf(16, 16);
    LengthOf(39, 39);
  }

  lemma LengthsAdded()
    ensures Plus(0x8C86B52D, 39) == 0x8C86B554 && Plus(0x9074D31B, 16) == 0x9074D32B && Plus(1 + PRIME32_5, 15) == 0x165667C1
  {
  }

  lemma Tails()
    ensures TailWord(0x8C86B554, 0x74697465) == 0x09B51544
    ensures TailByte(0x09B51544, 0x00000069) == 0xCDEFD3C9
    ensures TailByte(0xCDEFD3C9, 0x0000006F) == 0x3852087B
    ensures TailByte(0x3852087B, 0x0000006E) == 0xB3A7011B
  {
  }

  lemma TailOfASentence(s: seq<byte>)
    requires Reads(s)
    ensures Avalanche(Tail(0x8C86B554, s, 32)) == 0xE2293B2F
  {
    hide Word, Widen, TailWord, TailByte;
    Words(s);
    Letters();
    Tails();
    assert TailBytes(0x3852087B, s, 38) == 0xB3A7011B;
    assert TailBytes(0xCDEFD3C9, s, 37) == 0xB3A7011B;
  }

  lemma DigestOfASentence(s: seq<byte>)
    requires Reads(s)
    ensures XXH32(0, s) == 0xE2293B2F
  {
    hide Absorb, Merge, Tail, Avalanche, Plus, Wrap;
    Lanes(s);
    Merged();
    SmallLengths();
    LengthsAdded();
    TailOfASentence(s);
  }

  // ----- zeros at seed 1: sixteen bytes are a stripe, and fifteen are not

  ghost predicate Zeros(s: seq<byte>, n: nat) {
    |s| == n && forall k :: 0 <= k < n ==> s[k] == 0
  }

  lemma ZeroWord(s: seq<byte>, n: nat, i: nat)
    requires Zeros(s, n) && i + 4 <= n
    ensures Word(s, i) == 0
  {
    hide Widen;
    ByteIs(0, 0x00);
  }

  lemma ZeroByte()
    ensures Widen(0) == 0
  {
    hide Widen;
    ByteIs(0, 0x00);
  }

  lemma ZeroRounds()
    ensures Round(0x24234429, 0) == 0x82ACA344 && Round(0x85EBCA78, 0) == 0x7D2EE7AD
    ensures Round(1, 0) == 0xEF362000 && Round(0x61C88650, 0) == 0xE9B86469
  {
  }

  lemma LanesAtOne()
    ensures FirstLane(1) == 0x24234429 && SecondLane(1) == 0x85EBCA78 && LastLane(1) == 0x61C88650
  {
  }

  lemma ZeroLane(v: word, s: seq<byte>, j: nat)
    requires Zeros(s, 16) && j < 4
    ensures Lane(v, s, j, 1) == Round(v, 0)
  {
    hide Round, Word;
    ZeroWord(s, 16, 4 * j);
  }

  lemma ZeroMerge()
    ensures Merge([0x82ACA344, 0x7D2EE7AD, 0xEF362000, 0xE9B86469]) == 0x9074D31B
  {
  }

  lemma ZeroMix()
    ensures Avalanche(0x9074D32B) == 0x2DDF560E
  {
  }

  lemma DigestOfSixteenZeros(s: seq<byte>)
    requires Zeros(s, 16)
    ensures XXH32(1, s) == 0x2DDF560E
  {
    hide Round, Lane, Merge, Avalanche, Plus, Wrap, FirstLane, SecondLane, LastLane, TailWord, TailByte;
    ZeroRounds();
    LanesAtOne();
    ZeroLane(0x24234429, s, 0);
    ZeroLane(0x85EBCA78, s, 1);
    ZeroLane(1, s, 2);
    ZeroLane(0x61C88650, s, 3);
    ZeroMerge();
    SmallLengths();
    LengthsAdded();
    ZeroMix();
    assert Tail(0x9074D32B, s, 16) == 0x9074D32B;
  }

  lemma ZeroTails()
    ensures TailWord(0x165667C1, 0) == 0xCA581794 && TailWord(0xCA581794, 0) == 0xC5DFDC50 && TailWord(0xC5DFDC50, 0) == 0x041CFD11
    ensures TailByte(0x041CFD11, 0) == 0x3EFD3E20 && TailByte(0x3EFD3E20, 0) == 0x87A11AC7 && TailByte(0x87A11AC7, 0) == 0xF5B37B2D
  {
  }

  lemma FifteenMix()
    ensures Avalanche(0xF5B37B2D) == 0x634FA414
  {
  }

  lemma TailOfZeros(s: seq<byte>)
    requires Zeros(s, 15)
    ensures Tail(0x165667C1, s, 0) == 0xF5B37B2D
  {
    hide Word, Widen, TailWord, TailByte, Avalanche, Plus, Wrap;
    ZeroTails();
    ZeroByte();
    ZeroWord(s, 15, 0);
    ZeroWord(s, 15, 4);
    ZeroWord(s, 15, 8);
    assert TailBytes(0x87A11AC7, s, 14) == 0xF5B37B2D;
    assert TailBytes(0x3EFD3E20, s, 13) == 0xF5B37B2D;
    assert Tail(0x041CFD11, s, 12) == 0xF5B37B2D;
    assert Tail(0xC5DFDC50, s, 8) == 0xF5B37B2D;
    assert Tail(0xCA581794, s, 4) == 0xF5B37B2D;
  }

  lemma DigestOfFifteenZeros(s: seq<byte>)
    requires Zeros(s, 15)
    ensures XXH32(1, s) == 0x634FA414
  {
    hide Tail, Avalanche, Plus, Wrap;
    SmallLengths();
    LengthsAdded();
    FifteenMix();
    TailOfZeros(s);
  }
}
