/** The four streaming classes behind one interface: a first call, further calls, and nothing at the end. */
module Lz4Source {
  import opened Bytes
  import opened FileRead
  import opened Lz4CompressBase
  import opened Lz4CompressStreams
  import opened Lz4DecodeBase
  import opened Lz4DecompressData
  import opened Lz4DecompressFile
  import opened Lz4File
  import opened Lz4Frames
  import opened Lz4Outcomes

  // ----- each class has given `given` of what its stream comes to

  ghost predicate DecodesData(d: LZ4DecompressData, given: seq<byte>, whole: Course)
    reads d.Repr()
  {
    && d.Valid() && d.base.plain == given 
    && whole.GoesOn(given, DecodedFrom(d.data, d.dataOffset, given), EndsFrom(d.data, d.dataOffset, given))
    && !RescuedFrom(d.data, d.dataOffset, given, d.base.older)
  }

  ghost predicate DecodesFile(d: LZ4DecompressFile, given: seq<byte>, whole: Course)
    reads d.Repr()
  {
    && d.Valid() && d.clean && d.base.plain == given && (given == [] <==> d.taken == 0)
    && whole.GoesOn(given, DecodedFrom(d.stream, d.taken, given), EndsFrom(d.stream, d.taken, given))
    && !RescuedFrom(d.stream, d.taken, given, d.base.older)
  }

  /** The first `k` records of `x` are out. */
  ghost predicate Emits(enc: Encoder, x: seq<byte>, k: nat, given: seq<byte>, whole: Course) {
    && k <= Blocks(|x|) && Records(enc, x, k) == Some(given)
    && whole.GoesOn(given, EmittedFrom(enc, x, k, given), RecordEnds(enc, x, k, |given|))
  }

  ghost predicate EncodesData(c: LZ4CompressData, given: seq<byte>, whole: Course)
    reads c.Repr()
  {
    c.Valid() && Emits(c.base.stream.enc, c.data, |c.base.blocks|, given, whole)
  }

  ghost predicate EncodesFile(c: LZ4CompressFile, given: seq<byte>, whole: Course)
    reads c.Repr()
  {
    c.Valid() && c.clean && Emits(c.base.stream.enc, c.stream, |c.base.blocks|, given, whole)
  }

  // ----- each class just set up or reset

  ghost predicate ReadyForData(d: LZ4DecompressData, whole: Course)
    reads d.Repr()
  {
    && d !in d.base.Repr() && d.base.Valid() && d.base.plain == []
    && Decoding(d.data) == whole && !RescuedFrom(d.data, 0, [], d.base.older)
  }

  ghost predicate ReadyForFile(d: LZ4DecompressFile, whole: Course)
    reads d.Repr()
  {
    && d.Separate() && d.base.Valid() && d.file.Valid() && d.base.plain == [] && Clean(d.file.fd.schedule)
    && Decoding(d.file.Unread()) == whole && !RescuedFrom(d.file.Unread(), 0, [], d.base.older)
  }

  ghost predicate ReadyToEncode(c: LZ4CompressData, whole: Course)
    reads c.Repr()
  {
    c !in c.base.Repr() && c.base.Valid() && c.base.blocks == [] && Encoding(c.base.stream.enc, c.data) == whole
  }

  ghost predicate ReadyToEncodeFile(c: LZ4CompressFile, whole: Course)
    reads c.Repr()
  {
    c.Valid() && c.clean && c.base.blocks == [] && Encoding(c.base.stream.enc, c.stream) == whole
  }

  // ----- the first call

  method FirstDecodedData(d: LZ4DecompressData, ghost whole: Course) returns (r: Result<seq<byte>, Cause>)
    requires ReadyForData(d, whole)
    modifies d.Repr()
    ensures Gives(r, [], whole) && (r.Ok? ==> DecodesData(d, r.value, whole)) && d.base.Intact()
  {
    hide DecodeBase.Valid, DecodeBase.Intact, StepAt, Rescued, RescuedFrom, DecodedFrom, EndsFrom, Course.GoesOn;
    DecodingBegins(d.data);
    DecodingStep(d.data, 0, [], whole);
    NotRescuedStep(d.data, 0, [], d.base.older);
    r := d.Init();
    assert r.Ok? ==> [] + r.value == r.value;
  }

  method FirstDecodedFile(d: LZ4DecompressFile, ghost whole: Course) returns (r: Result<seq<byte>, Cause>)
    requires ReadyForFile(d, whole)
    modifies d.Repr()
    ensures Gives(r, [], whole) && (r.Ok? ==> DecodesFile(d, r.value, whole)) && d.base.Intact()
  {
    hide DecodeBase.Valid, DecodeBase.Intact, StepAt, Rescued, RescuedFrom, DecodedFrom, EndsFrom, Course.GoesOn, LZ4File.Unread;
    DecodingBegins(d.file.Unread());
    DecodingStep(d.file.Unread(), 0, [], whole);
    NotRescuedStep(d.file.Unread(), 0, [], d.base.older);
    r := d.Init();
    assert r.Ok? ==> [] + r.value == r.value;
  }

  lemma NothingEmitted(enc: Encoder, x: seq<byte>, whole: Course)
    requires Encoding(enc, x) == whole
    ensures BlockStart(|x|, 0) == 0 && Emits(enc, x, 0, [], whole)
  {
  }

  method FirstEncodedData(c: LZ4CompressData, ghost whole: Course) returns (r: Option<seq<byte>>)
    requires ReadyToEncode(c, whole)
    modifies c.Repr()
    ensures Gives(Piece(r), [], whole) && (r.Some? ==> EncodesData(c, r.value, whole)) && c.base.Intact()
  {
    hide CompressBase.Valid, CompressBase.Intact, Record, Records, EmittedFrom, Emitted, RecordEnds, Course.GoesOn, Blocks;
    NothingEmitted(c.base.stream.enc, c.data, whole);
    EmittingStep(c.base.stream.enc, c.data, 0, [], whole);
    BlocksCover(|c.data|, 0);
    r := c.Init();
    assert r.Some? ==> [] + r.value == r.value;
  }

  // ----- a further call

  method NextDecodedData(d: LZ4DecompressData, ghost given: seq<byte>, ghost whole: Course) returns (r: Result<seq<byte>, Cause>)
    requires DecodesData(d, given, whole)
    modifies d.Repr()
    ensures Gives(r, given, whole) && (r.Ok? ==> DecodesData(d, given + r.value, whole))
    ensures d !in d.base.Repr() && d.base.Intact()
  {
    hide DecodeBase.Valid, DecodeBase.Intact, StepAt, Rescued, RescuedFrom, DecodedFrom, EndsFrom, Course.GoesOn;
    DecodingStep(d.data, d.dataOffset, given, whole);
    NotRescuedStep(d.data, d.dataOffset, given, d.base.older);
    r := d.Next();
    assert given + [] == given;
  }

  /** The end of a file that held something is reported once. */
  method NextDecodedFile(d: LZ4DecompressFile, ghost over: bool, ghost given: seq<byte>, ghost whole: Course)
    returns (r: Result<seq<byte>, Cause>)
    requires if over then d.Ended() else DecodesFile(d, given, whole)
    modifies d.Repr()
    ensures !over ==> Gives(r, given, whole)
    ensures !over && r.Ok? ==> if r.value == [] && whole.bytes != [] then d.Ended() else DecodesFile(d, given + r.value, whole)
    ensures over ==> r != Ok([])
    ensures d.Separate() && d.base.Intact()
  {
    hide DecodeBase.Valid, DecodeBase.Intact, StepAt, Rescued, RescuedFrom, DecodedFrom, EndsFrom, Course.GoesOn;
    if !over {
      DecodingStep(d.stream, d.taken, given, whole);
      NotRescuedStep(d.stream, d.taken, given, d.base.older);
    }
    r := d.Next();
    assert given + [] == given;
  }

  method NextEncodedData(c: LZ4CompressData, ghost given: seq<byte>, ghost whole: Course) returns (r: Option<seq<byte>>)
    requires EncodesData(c, given, whole)
    modifies c.Repr()
    ensures Gives(Piece(r), given, whole) && (r.Some? ==> EncodesData(c, given + r.value, whole))
    ensures c !in c.base.Repr() && c.base.Intact()
  {
    hide CompressBase.Valid, CompressBase.Intact, Record, Records, EmittedFrom, RecordEnds, Course.GoesOn, Blocks;
    ghost var k := |c.base.blocks|;
    EmittingStep(c.base.stream.enc, c.data, k, given, whole);
    BlocksCover(|c.data|, k);
    r := c.Next();
    assert given + [] == given;
  }

  method NextEncodedFile(c: LZ4CompressFile, ghost given: seq<byte>, ghost whole: Course) returns (r: Option<seq<byte>>)
    requires EncodesFile(c, given, whole)
    modifies c.Repr()
    ensures Gives(Piece(r), given, whole) && (r.Some? ==> EncodesFile(c, given + r.value, whole)) && c.base.Intact()
  {
    hide CompressBase.Valid, CompressBase.Intact, Record, Records, EmittedFrom, RecordEnds, Course.GoesOn, Blocks;
    ghost var k := |c.base.blocks|;
    EmittingStep(c.base.stream.enc, c.stream, k, given, whole);
    BlocksCover(|c.stream|, k);
    r := c.Next();
    assert given + [] == given;
  }

  // ----- the interface

  datatype Source =
    | DecompressData(dd: LZ4DecompressData)
    | DecompressFile(df: LZ4DecompressFile)
    | CompressData(cd: LZ4CompressData)
    | CompressFile(cf: LZ4CompressFile)
  {
    ghost function Repr(): set<object> {
      match this
      case DecompressData(d) => d.Repr()
      case DecompressFile(d) => d.Repr()
      case CompressData(c) => c.Repr()
      case CompressFile(c) => c.Repr()
    }

    /** Just set up or reset, with a stream that comes to `whole`. */
    ghost predicate Ready(whole: Course)
      reads Repr()
    {
      match this
      case DecompressData(d) => ReadyForData(d, whole)
      case DecompressFile(d) => ReadyForFile(d, whole)
      case CompressData(c) => ReadyToEncode(c, whole)
      case CompressFile(c) => ReadyToEncodeFile(c, whole)
    }

    /** Its calls have returned `given` so far, and its stream comes to `whole`. */
    ghost predicate At(given: seq<byte>, whole: Course)
      reads Repr()
    {
      match this
      case DecompressData(d) => DecodesData(d, given, whole)
      case DecompressFile(d) => DecodesFile(d, given, whole)
      case CompressData(c) => EncodesData(c, given, whole)
      case CompressFile(c) => EncodesFile(c, given, whole)
    }

    /** The same, or, when it is `over`, a file decompressor that has reported the end of a file that held something. */
    ghost predicate Stands(repr: set<object>, over: bool, given: seq<byte>, whole: Course)
      reads repr
      ensures Stands(repr, over, given, whole) ==> repr == Repr() && FitIn(repr)
    {
      repr == Repr() && if over then DecompressFile? && df.Ended() else At(given, whole)
    }

    /** It can be reset, whatever its calls have come to. */
    ghost predicate FitIn(repr: set<object>)
      reads repr
    {
      repr == Repr() &&
      match this
      case DecompressData(d) => d !in d.base.Repr() && d.base.Intact()
      case DecompressFile(d) => d.Separate() && d.base.Intact()
      case CompressData(c) => c !in c.base.Repr() && c.base.Intact()
      case CompressFile(c) => c.base.Intact()
    }

    /** The end is not reported again. */
    ghost predicate EndsOnce(whole: Course) {
      DecompressFile? && whole.bytes != []
    }

    /** `_init`. */
    method First(ghost whole: Course) returns (r: Result<seq<byte>, Cause>)
      requires Ready(whole)
      modifies Repr()
      ensures Gives(r, [], whole) && (r.Ok? ==> Stands(Repr(), false, r.value, whole)) && FitIn(Repr())
    {
      hide DecodesData, DecodesFile, EncodesData, Gives, Encoding, DecodeBase.Valid, CompressBase.Valid;
      match this
      case DecompressData(d) =>
        r := FirstDecodedData(d, whole);
      case DecompressFile(d) =>
        r := FirstDecodedFile(d, whole);
      case CompressData(c) =>
        var piece := FirstEncodedData(c, whole);
        r := Piece(piece);
      case CompressFile(c) =>
        NothingEmitted(c.base.stream.enc, c.stream, whole);
        var piece := NextEncodedFile(c, [], whole);
        assert piece.Some? ==> [] + piece.value == piece.value;
        r := Piece(piece);
    }

    /** `_next`. */
    method Next(ghost over: bool, ghost given: seq<byte>, ghost whole: Course) returns (r: Result<seq<byte>, Cause>)
      requires Stands(Repr(), over, given, whole)
      modifies Repr()
      ensures !over ==> Gives(r, given, whole) && (r.Ok? ==> Stands(Repr(), r.value == [] && EndsOnce(whole), given + r.value, whole))
      ensures over ==> r != Ok([])
      ensures FitIn(Repr())
    {
      hide DecodesData, DecodesFile, EncodesData, EncodesFile, Gives, DecodeBase.Valid;
      match this
      case DecompressData(d) =>
        r := NextDecodedData(d, given, whole);
      case DecompressFile(d) =>
        r := NextDecodedFile(d, over, given, whole);
      case CompressData(c) =>
        var piece := NextEncodedData(c, given, whole);
        r := Piece(piece);
      case CompressFile(c) =>
        var piece := NextEncodedFile(c, given, whole);
        r := Piece(piece);
    }
  }
}
