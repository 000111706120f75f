/** Reading what a stream gives in pieces of the caller's sizes, from any of the four classes. */
module Lz4Iterator {
  import opened Bytes
  import opened FileRead
  import opened Lz4CompressBase
  import opened Lz4CompressStreams
  import opened Lz4DecodeBase
  import opened Lz4DecompressData
  import opened Lz4DecompressFile
  import opened Lz4Frames
  import opened Lz4Outcomes
  import opened Lz4Source
  import opened Xxh32
  import opened Xxh32Stream

  class Iterator {
    const obj: Source
    var current: seq<byte>
    var offset: nat

    ghost const repr: set<object>    // all that `obj` consists of
    ghost const whole: Course       // what the stream comes to
    ghost var delivered: seq<byte>   // the pieces handed out so far, put together
    ghost var over: bool             // the end has been reported, and will not be again

    ghost function Repr(): set<object> {
      {this} + repr
    }

    /** Blocks are handed out whole and in order: what is left of the current one is all that is pending. */
    ghost predicate Valid()
      reads Repr()
    {
      && this !in repr && repr == obj.Repr()
      && offset <= |current| && (over ==> offset == |current|)
      && delivered + current[offset..] <= whole.bytes && UpToItsEnd()
      && obj.Stands(repr, over, delivered + current[offset..], whole)
    }

    /** What is left of the current block ends where a block of the stream ends, and not before. */
    ghost predicate UpToItsEnd()
      requires offset <= |current|
      reads this
    {
      var end := |delivered| + |current| - offset;
      && (offset < |current| ==> end in whole.ends)
      && forall e :: |delivered| < e < end ==> e !in whole.ends
    }

    /** `begin()`, with the first block that `init` has returned. */
    constructor (obj: Source, str: seq<byte>, ghost whole: Course)
      requires obj.Stands(obj.Repr(), false, str, whole) && (str == [] || whole.IsNext([], str))
      ensures Valid() && this.obj == obj && repr == obj.Repr() && this.whole == whole && delivered == [] && !over && fresh(this)
    {
      hide Source.Stands, Source.FitIn;
      this.obj, current, offset, repr, this.whole, delivered, over := obj, str, 0, obj.Repr(), whole, [], false;
      new;
      assert delivered + current[offset..] == str == [] + str;
    }

    /** Fewer bytes than asked for, but 0 only at the end of the stream. */
    method Read(buf: array<byte>, bufSize: nat) returns (r: Result<nat, Cause>)
      requires Valid() && bufSize <= buf.Length && buf !in Repr()
      modifies Repr(), buf
      ensures !old(over) ==>
        match r
        case Ok(n) =>
          && Valid() && (over ==> n == 0 && obj.EndsOnce(whole)) && (n == 0 < bufSize && obj.EndsOnce(whole) ==> over)
          && n <= bufSize && delivered == old(delivered) + buf[..n] && delivered <= whole.bytes
          && (n == 0 <==> bufSize == 0 || whole.Is(old(delivered), None))
          && n == Min(bufSize, if old(offset < |current|) then old(|current| - offset) else |current|)
          && whole.Reaches(|old(delivered)|, |delivered|, bufSize)
        case Err(cause) => whole.Is(old(delivered), Some(cause))
      ensures old(over) && bufSize > 0 ==> r != Ok(0)
      ensures obj.FitIn(repr)
    {
      hide Source.Stands, Source.FitIn, Source.EndsOnce;
      var resSize := |current| - offset;
      if resSize == 0 {
        var fault := Advance();
        if fault.Some? {
          return Err(fault.value);
        }
        resSize := |current|;
      }
      var n: nat := Min(resSize, bufSize);
      HandOut(buf, n);
      r := Ok(n);
    }

    /** One read into a buffer of its own. */
    method ReadPiece(size: nat) returns (r: Result<seq<byte>, Cause>)
      requires Valid() && !over && size > 0
      modifies Repr()
      ensures match r
        case Ok(piece) =>
          && Valid() && (over ==> obj.DecompressFile? && piece == [])
          && |piece| <= size && delivered == old(delivered) + piece && delivered <= whole.bytes
          && (piece == [] <==> whole.Is(old(delivered), None))
          && whole.Reaches(|old(delivered)|, |delivered|, size)
        case Err(cause) => whole.Is(old(delivered), Some(cause))
      ensures obj.FitIn(repr)
    {
      hide Source.Stands, Source.FitIn, Source.Repr, Valid;
      var buf := new byte[size];
      var n := Read(buf, size);
      if n.Err? {
        return Err(n.cause);
      }
      r := Ok(buf[..n.value]);
    }

    /** Copies the next `n` bytes of the current block. */
    method HandOut(buf: array<byte>, n: nat)
      requires offset + n <= |current| && n <= buf.Length && buf !in Repr() && this !in repr
      modifies this`offset, this`delivered, buf
      ensures offset == old(offset) + n && delivered == old(delivered) + buf[..n]
      ensures current == old(current) && (old(Valid()) ==> Valid())
      ensures old(obj.FitIn(repr)) ==> obj.FitIn(repr)
    {
      hide Source.Stands, Source.FitIn, Source.EndsOnce, Source.Repr;
      var piece := current[offset..offset + n];
      Store(buf, 0, piece);
      assert buf[..n] == piece;
      assert delivered + current[offset..] == (delivered + piece) + current[offset + n..];
      offset := offset + n;
      delivered := delivered + piece;
    }

    /** Replaces the current block, which has been handed out, with the next; an empty one only at the end. */
    method Advance() returns (fault: Option<Cause>)
      requires Valid() && offset == |current|
      modifies Repr()
      ensures delivered == old(delivered) && (fault.None? ==> offset == 0)
      ensures !old(over) && fault.None? ==>
        Valid() && (current == [] <==> whole.Is(delivered, None)) && (over <==> current == [] && obj.EndsOnce(whole))
      ensures !old(over) && fault.Some? ==> whole.Is(delivered, fault)
      ensures old(over) && fault.None? ==> current != []
      ensures obj.FitIn(repr)
    {
      hide Source.Stands, Source.FitIn, Source.EndsOnce;
      assert delivered + current[offset..] == delivered;
      var next := obj.Next(over, delivered, whole);
      if next.Err? {
        return Some(next.cause);
      }
      over := next.value == [] && obj.EndsOnce(whole);
      current, offset := next.value, 0;
      assert current[offset..] == current;
      fault := None;
    }
  }

  /** `begin()` on an object that has just been set up or reset. */
  method Begin(s: Source, ghost whole: Course) returns (r: Result<Iterator, Cause>)
    requires s.Ready(whole)
    modifies s.Repr()
    ensures match r
      case Ok(it) =>
        it.Valid() && it.obj == s && it.repr == s.Repr() && it.whole == whole && it.delivered == [] && !it.over && fresh(it)
      case Err(cause) => whole.Is([], Some(cause))
    ensures s.FitIn(s.Repr())
  {
    hide Source.Stands, Source.FitIn, Source.Ready;
    var first := s.First(whole);
    if first.Err? {
      return Err(first.cause);
    }
    assert [] + first.value == first.value;
    var it := new Iterator(s, first.value, whole);
    r := Ok(it);
  }

  /** Every piece is as long as its size allows, but none goes beyond the end of a block. */
  ghost predicate WellCut(pieces: seq<seq<byte>>, sizes: seq<nat>, whole: Course) {
    |pieces| <= |sizes| && forall k :: 0 <= k < |pieces| ==> CutAt(pieces, sizes, k, whole)
  }

  ghost predicate CutAt(pieces: seq<seq<byte>>, sizes: seq<nat>, k: nat, whole: Course)
    requires k < |pieces| <= |sizes|
  {
    var before := |Concat(pieces[..k])|;
    whole.Reaches(before, before + |pieces[k]|, sizes[k])
  }

  lemma OneMoreCut(pieces: seq<seq<byte>>, sizes: seq<nat>, piece: seq<byte>, whole: Course)
    requires WellCut(pieces, sizes, whole) && |pieces| < |sizes|
    requires whole.Reaches(|Concat(pieces)|, |Concat(pieces)| + |piece|, sizes[|pieces|])
    ensures WellCut(pieces + [piece], sizes, whole)
  {
    hide CutAt;
    forall k | 0 <= k < |pieces + [piece]|
      ensures CutAt(pieces + [piece], sizes, k, whole)
    {
      StaysCut(pieces, sizes, piece, k, whole);
    }
  }

  lemma StaysCut(pieces: seq<seq<byte>>, sizes: seq<nat>, piece: seq<byte>, k: nat, whole: Course)
    requires k <= |pieces| < |sizes|
    requires if k < |pieces| then CutAt(pieces, sizes, k, whole)
             else whole.Reaches(|Concat(pieces)|, |Concat(pieces)| + |piece|, sizes[|pieces|])
    ensures CutAt(pieces + [piece], sizes, k, whole)
  {
    hide Course.Reaches, Concat;
    assert (pieces + [piece])[..k] == pieces[..k];
    assert pieces[..|pieces|] == pieces;
  }

  /** Exactly the pieces handed out once the stream has ended are empty. */
  ghost predicate EmptyAtTheEnd(pieces: seq<seq<byte>>, whole: Course) {
    forall k :: 0 <= k < |pieces| ==> (pieces[k] == [] <==> whole.Is(Concat(pieces[..k]), None))
  }

  lemma OneMorePiece(pieces: seq<seq<byte>>, piece: seq<byte>, whole: Course)
    requires EmptyAtTheEnd(pieces, whole) && (piece == [] <==> whole.Is(Concat(pieces), None))
    ensures EmptyAtTheEnd(pieces + [piece], whole) && Concat(pieces + [piece]) == Concat(pieces) + piece
  {
    var more := pieces + [piece];
    assert more[..|pieces|] == pieces;
    forall k | 0 <= k < |more|
      ensures more[k] == [] <==> whole.Is(Concat(more[..k]), None)
    {
      assert k < |pieces| ==> more[..k] == pieces[..k];
    }
  }

  /**
   * Any sequence of positive sizes, on any of the four classes: the pieces make up a prefix of what the stream comes to,
   * an empty one marks its end, and an error comes after all that precedes it. A file decompressor is not read past its
   * end.
   */
  method ReadPieces(s: Source, ghost whole: Course, sizes: seq<nat>) returns (pieces: seq<seq<byte>>, fault: Option<Cause>)
    requires s.Ready(whole) && forall k :: 0 <= k < |sizes| ==> sizes[k] > 0
    modifies s.Repr()
    ensures Concat(pieces) <= whole.bytes && EmptyAtTheEnd(pieces, whole)
    ensures fault.Some? ==> whole.Is(Concat(pieces), fault)
    ensures fault.None? ==> |pieces| == |sizes| || (s.DecompressFile? && whole.Is(Concat(pieces), None))
    ensures WellCut(pieces, sizes, whole)
    ensures s.FitIn(s.Repr())
  {
    hide Source.Stands, Source.FitIn, Source.Ready, Source.Repr, EmptyAtTheEnd, WellCut, Course.Reaches, Iterator.Valid;
    pieces, fault := [], None;
    NoPieces(whole, sizes);
    var begun := Begin(s, whole);
    if begun.Err? {
      return pieces, Some(begun.cause);
    }
    var it := begun.value;
    for k := 0 to |sizes|
      invariant |pieces| == k && fresh(it) && it.obj == s && it.repr == s.Repr() && it.whole == whole && it.Valid() && !it.over
      invariant s.FitIn(s.Repr())
      invariant it.delivered == Concat(pieces) && Concat(pieces) <= whole.bytes && EmptyAtTheEnd(pieces, whole)
      invariant WellCut(pieces, sizes, whole)
    {
      var piece := it.ReadPiece(sizes[k]);
      if piece.Err? {
        return pieces, Some(piece.cause);
      }
      OneMorePiece(pieces, piece.value, whole);
      OneMoreCut(pieces, sizes, piece.value, whole);
      pieces := pieces + [piece.value];
      if piece.value == [] && s.DecompressFile? {
        return;
      }
    }
  }

  /**
   * Once all has been delivered a read returns 0, and a second one does so again if and only if it is not a file
   * decompressor's whose file held something.
   */
  method ReadAgainAtTheEnd(it: Iterator, buf: array<byte>) returns (first: Result<nat, Cause>, second: Result<nat, Cause>)
    requires it.Valid() && !it.over && buf !in it.Repr() && buf.Length > 0
    requires it.whole.Is(it.delivered, None)
    modifies it.Repr(), buf
    ensures first == Ok(0) && (second == Ok(0) <==> !(it.obj.DecompressFile? && it.whole.bytes != []))
  {
    hide Source.Stands, Source.FitIn, Source.Repr, Iterator.Valid;
    first := it.Read(buf, buf.Length);
    assert it.delivered + buf[..0] == it.delivered;
    second := it.Read(buf, buf.Length);
  }

  lemma NoPieces(whole: Course, sizes: seq<nat>)
    ensures EmptyAtTheEnd([], whole) && WellCut([], sizes, whole)
  {
  }

  // ----- streams to read from

  method FreshDecompressor(data: seq<byte>, seed: word) returns (s: Source)
    ensures s.DecompressData? && s.Ready(Decoding(data)) && fresh(s.Repr())
  {
    hide DecodeBase.Valid, DecodeBase.Intact, Decoding, RescuedFrom;
    OnlyRefusalsAreRescued(data, 0, [], 0);
    var d := new LZ4DecompressData(data, seed);
    s := DecompressData(d);
  }

  /** One that has been used before is read like a fresh one on every stream of which no record is rescued. */
  method UsedDecompressor(d: LZ4DecompressData, data: seq<byte>, seed: word) returns (s: Source)
    requires d !in d.base.Repr() && d.base.Intact()
    requires !RescuedFrom(data, 0, [], d.base.stream.spans.prefix.Size())
    modifies d.Repr()
    ensures s == DecompressData(d) && s.Ready(Decoding(data))
  {
    hide DecodeBase.Valid, DecodeBase.Intact, Decoding, RescuedFrom;
    d.Reset(data, seed);
    s := DecompressData(d);
  }

  method FreshFileDecompressor(content: seq<byte>, schedule: seq<Event>, seed: word) returns (s: Source)
    requires Clean(schedule)
    ensures s.Ready(Decoding(content)) && fresh(s.Repr())
  {
    hide DecodeBase.Valid, DecodeBase.Intact, Decoding, RescuedFrom;
    OnlyRefusalsAreRescued(content, 0, [], 0);
    var fd := new Descriptor(content, schedule);
    var d := new LZ4DecompressFile(fd, -1, seed);
    assert d.file.Unread() == content;
    s := DecompressFile(d);
  }

  method FreshCompressor(enc: Encoder, x: seq<byte>, seed: word) returns (s: Source)
    ensures s.CompressData? && s.cd.base.stream.enc == enc && s.Ready(Encoding(enc, x)) && fresh(s.Repr())
  {
    hide CompressBase.Valid, CompressBase.Intact, Encoding;
    var c := new LZ4CompressData(enc, x, seed);
    s := CompressData(c);
  }

  method UsedCompressor(c: LZ4CompressData, x: seq<byte>, seed: word) returns (s: Source)
    requires c !in c.base.Repr() && c.base.Intact()
    modifies c.Repr()
    ensures s == CompressData(c) && s.Ready(Encoding(c.base.stream.enc, x))
  {
    hide CompressBase.Valid, CompressBase.Intact, Encoding;
    c.Reset(x, seed);
    s := CompressData(c);
  }

  method FreshFileCompressor(enc: Encoder, content: seq<byte>, schedule: seq<Event>, seed: word) returns (s: Source)
    requires Clean(schedule)
    ensures s.Ready(Encoding(enc, content)) && fresh(s.Repr())
  {
    hide CompressBase.Valid, CompressBase.Intact, Encoding, LZ4CompressFile.Valid, Clean;
    var fd := new Descriptor(content, schedule);
    var c := new LZ4CompressFile(enc, fd, -1, seed);
    assert c.file.Unread() == content;
    s := CompressFile(c);
  }
}
