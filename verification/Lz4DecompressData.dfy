/** Decompressing a stream that lies in memory, block by block. */
module Lz4DecompressData {
  import opened Bytes
  import opened Lz4Block
  import opened Lz4DecodeBase
  import opened Lz4Frames
  import opened Lz4Outcomes
  import opened Lz4Ring
  import opened Xxh32

  class LZ4DecompressData {
    const base: DecodeBase
    var data: seq<byte>
    var dataOffset: nat

    ghost function Repr(): set<object> {
      {this} + base.Repr()
    }

    ghost predicate Valid()
      reads Repr()
      ensures Valid() ==> this !in base.Repr() && base.Valid() && dataOffset <= |data|
    {
      this !in base.Repr() && base.Valid() && dataOffset <= |data|
    }

    constructor (data: seq<byte>, seed: word)
      ensures Valid() && fresh(Repr())
      ensures this.data == data && base.seed == seed && base.plain == [] && base.older == 0
    {
      hide DecodeBase.Valid, DecodeBase.Intact;
      this.data, dataOffset := data, 0;
      base := new DecodeBase(seed);
    }

    method Reset(data: seq<byte>, seed: word)
      requires this !in base.Repr() && base.Intact()
      modifies Repr()
      ensures base.Valid() && this.data == data && base.seed == seed && base.plain == []
      ensures base.older == old(base.stream.spans.prefix.Size())
    {
      base.Reset(seed);
      this.data := data;
    }

    /** The first block. */
    method Init() returns (r: Result<seq<byte>, Cause>)
      requires this !in base.Repr() && base.Valid()
      modifies Repr()
      ensures Answers(data, 0, old(base.plain), base.older, r, dataOffset)
      ensures r.Ok? ==> Valid() && base.plain == old(base.plain) + r.value && (r.value == [] <==> dataOffset == 0)
      ensures r.Err? ==> base.Intact()
      ensures data == old(data) && base.seed == old(base.seed) && base.older == old(base.older)
    {
      hide DecodeBase.Valid, DecodeBase.Intact;
      dataOffset := 0;
      r := Next();
    }

    /** The stream's next step, unless older bytes rescue the record. */
    method Next() returns (r: Result<seq<byte>, Cause>)
      requires Valid()
      modifies Repr()
      ensures old(dataOffset) <= |data| && Answers(data, old(dataOffset), old(base.plain), base.older, r, dataOffset)
      ensures r == Returned(StepAt(data, old(dataOffset), old(base.plain))) <==>
        !Rescued(data, old(dataOffset), old(base.plain), base.older)
      ensures r.Ok? ==> Valid() && base.plain == old(base.plain) + r.value
      ensures r.Ok? ==> old(dataOffset) <= dataOffset && (r.value == [] <==> dataOffset == old(dataOffset))
      ensures r.Err? ==> base.Intact()
      ensures data == old(data) && base.seed == old(base.seed) && base.older == old(base.older)
    {
      hide Decode, BodyAt, DecodedSize, DecodeBase.Valid, DecodeBase.Intact;
      NoRescueOfTheRest(data, dataOffset, base.plain, base.older);
      if dataOffset >= |data| {
        return Ok([]);
      }
      var record := ReadRecord();
      if record.Err? {
        return Err(record.cause);
      }
      r := base.DecodeRecord(record.value);
    }

    /** Takes the next record's body into the record buffer. */
    method ReadRecord() returns (r: Result<nat, Cause>)
      requires Valid() && dataOffset < |data|
      modifies this`dataOffset, base.cmpBuf
      ensures Valid() && base.plain == old(base.plain)
      ensures match BodyAt(data, old(dataOffset))
        case None => r == Err(Framing)
        case Some(c) =>
          r == Ok(|c|) && base.cmpBuf[..|c|] == c && dataOffset == old(dataOffset) + 2 + |c|
    {
      hide DecodeBase.Valid, DecodeBase.Intact;
      if 2 > |data| - dataOffset {
        return Err(Framing);
      }
      var cmpBytes := U16(data[dataOffset], data[dataOffset + 1]);
      dataOffset := dataOffset + 2;
      if cmpBytes > base.cmpBuf.Length || cmpBytes > |data| - dataOffset {
        return Err(Framing);
      }
      base.Load(0, data[dataOffset..dataOffset + cmpBytes]);
      dataOffset := dataOffset + cmpBytes;
      r := Ok(cmpBytes);
    }
  }

  /** A record that decodes, or one whose framing is corrupt, is not rescued; whether a refused one is depends on its size. */
  lemma NoRescueOfTheRest(data: seq<byte>, pos: nat, history: seq<byte>, older: nat)
    requires pos <= |data|
    ensures pos < |data| && BodyAt(data, pos).Some? ==>
      var c := BodyAt(data, pos).value;
      var b := Decode(history, c, BLOCK_SIZE);
      && (Rescued(data, pos, history, older) <==> (b.None? || b.value == []) && Fits(|history| + older, c, BLOCK_SIZE))
      && (b.Some? && b.value != [] ==> Fits(|history| + older, c, BLOCK_SIZE))
  {
    hide Decode, BodyAt, SizeFrom;
    if pos < |data| && BodyAt(data, pos).Some? {
      var c := BodyAt(data, pos).value;
      DecodeSize(history, c, BLOCK_SIZE);
      MoreReach(|history|, |history| + older, c, 0, BLOCK_SIZE);
    }
  }

  /**
   * The driving loop, `for (auto it = d.begin(); it; ++it)`, on a decompressor that has just been set up or reset; `out`
   * is what it has appended when it ends or throws. It is what a fresh one appends, and the same error, if and only if
   * no record is rescued.
   */
  method DecompressAll(d: LZ4DecompressData) returns (r: Result<seq<byte>, Cause>, out: seq<byte>, digest: word)
    requires d !in d.base.Repr() && d.base.Valid() && d.base.plain == []
    modifies d.Repr()
    ensures ComesTo(old(d.data), old(d.base.older), true, r, out)
    ensures r.Ok? ==> digest == XXH32(old(d.base.seed), out)
    ensures d.base.Intact() && (r.Ok? ==> d.base.Valid() && d.base.plain == out && d.base.older == old(d.base.older))
  {
    hide ComesTo, RunsAs, Answers, Rescued, RescuedFrom, Decoded, XXH32, DecodeBase.Valid, DecodeBase.Intact;
    digest := 0;
    ghost var data, older := d.data, d.base.older;
    NothingAppended(data);
    ghost var rescued := Rescued(data, 0, [], older);
    var it := d.Init();
    RunBegins(data, older, it, d.dataOffset);
    out := [];
    while it.Ok? && it.value != []
      invariant d.data == data && d.base.seed == old(d.base.seed) && d.base.older == older
      invariant if it.Ok? then d.Valid() && d.base.plain == out + it.value else d.base.Intact()
      invariant RunsAs(data, d.dataOffset, out, it, older, rescued)
      invariant !RescuedFrom(data, 0, [], older) ==> out <= Decoded(data).bytes
      decreases if it.Err? then 0 else |data| - d.dataOffset + (if it.value == [] then 1 else 2)
    {
      ghost var pos, before, last := d.dataOffset, out, it;
      RunIsOnTheWay(data, pos, before, last, older, rescued);
      out := out + it.value;
      it := d.Next();
      RunGoesOn(data, pos, before, last, older, rescued, it, d.dataOffset);
      rescued := rescued || Rescued(data, pos, out, older);
    }
    RunEnds(data, d.dataOffset, out, it, older, rescued, true);
    if it.Err? {
      return Err(it.cause), out, digest;
    }
    assert out + it.value == out;
    r := Ok(out);
    digest := d.base.GetDigest();
  }
}
