/** The two streaming compressors, over memory and over a file, and their driving loops. */
module Lz4CompressStreams {
  import opened Bytes
  import opened FileRead
  import opened Lz4AnyBlocks
  import opened Lz4CompressBase
  import opened Lz4File
  import opened Lz4Frames
  import opened Lz4Ring
  import opened Xxh32

  class LZ4CompressData {
    const base: CompressBase
    var data: seq<byte>
    var dataOffset: nat

    ghost function Repr(): set<object> {
      {this} + base.Repr()
    }

    ghost predicate Valid()
      reads Repr()
    {
      && this !in base.Repr() && base.Valid()
      && |base.blocks| <= Blocks(|data|) && base.blocks == Cut(data, |base.blocks|)
      && dataOffset == BlockStart(|data|, |base.blocks|)
    }

    constructor (enc: Encoder, data: seq<byte>, seed: word)
      ensures this !in base.Repr() && base.Valid() && fresh(Repr())
      ensures this.data == data && dataOffset == 0 && base.stream.enc == enc && base.seed == seed && base.blocks == []
    {
      hide CompressBase.Valid, CompressBase.Intact;
      this.data, dataOffset := data, 0;
      base := new CompressBase(enc, seed);
    }

    method Reset(data: seq<byte>, seed: word)
      requires this !in base.Repr() && base.Intact()
      modifies Repr()
      ensures base.Valid() && this.data == data && base.seed == seed && base.blocks == []
    {
      hide CompressBase.Valid, CompressBase.Intact;
      base.Reset(seed);
      this.data := data;
    }

    lemma AllIsOut()
      requires Valid() && dataOffset == |data|
      ensures base.Valid() && base.Plain() == data
      ensures CompressStream(base.stream.enc, data).Some? && base.size == |CompressStream(base.stream.enc, data).value|
    {
      hide CompressBase.Valid, CompressBase.Intact, Cut, StreamOf, Records;
      BlocksCover(|data|, |base.blocks|);
      CutIsUniform(base.stream.enc, data, |base.blocks|);
      base.SizeIsTheOutput();
    }

    /** The first record. */
    method Init() returns (r: Option<seq<byte>>)
      requires this !in base.Repr() && base.Valid() && base.blocks == []
      modifies Repr()
      ensures data == old(data) && base.seed == old(base.seed)
      ensures r == if data == [] then Some([]) else Record(base.stream.enc, data, 0)
      ensures r.Some? ==> Valid() && dataOffset == BlockStart(|data|, 1) && |base.blocks| == Min(1, Blocks(|data|))
      ensures base.Intact()
    {
      hide CompressBase.Valid, CompressBase.Intact, Record;
      assert base.blocks == Cut(data, 0);
      BlocksCover(|data|, 0);
      dataOffset := 0;
      r := Next();
    }

    /** The next block's record, nothing at the end, or the encoder's failure. */
    method Next() returns (r: Option<seq<byte>>)
      requires Valid()
      modifies Repr()
      ensures data == old(data) && base.seed == old(base.seed)
      ensures r == if old(dataOffset) == |data| then Some([]) else Record(base.stream.enc, data, old(dataOffset) / BLOCK_SIZE)
      ensures r.Some? ==> Valid() && dataOffset == Min(old(dataOffset) + BLOCK_SIZE, |data|)
      ensures r.Some? ==> |base.blocks| == Min(|old(base.blocks)| + 1, Blocks(|data|))
      ensures base.Intact()
    {
      hide CompressBase.Valid, CompressBase.Intact, Record, LastRecord, Cut, Blocks;
      ghost var k := |base.blocks|;
      BlocksCover(|data|, k);
      if k < Blocks(|data|) {
        NextCut(base.stream.enc, data, k);
      }
      if dataOffset >= |data| {
        return Some([]);
      }
      var inpBytes := if dataOffset + BLOCK_SIZE > |data| then |data| - dataOffset else BLOCK_SIZE;
      var block := data[dataOffset..dataOffset + inpBytes];
      dataOffset := dataOffset + inpBytes;
      r := base.TakeBlock(block);
    }
  }

  /** Block `k` of `x` after the ones before it. */
  lemma NextCut(enc: Encoder, x: seq<byte>, k: nat)
    requires k < Blocks(|x|)
    ensures var from, to := BlockStart(|x|, k), BlockStart(|x|, k + 1);
      && from < to == Min(from + BLOCK_SIZE, |x|) && from / BLOCK_SIZE == k && to - from <= BLOCK_SIZE
      && |Cut(x, k)| == k && Cut(x, k) + [x[from..to]] == Cut(x, k + 1)
      && LastRecord(enc, Cut(x, k + 1)) == Record(enc, x, k)
      && Concat(Cut(x, k)) == x[..from] && Concat(Cut(x, k + 1)) == x[..to]
  {
    BlocksCover(|x|, k);
    BlocksCover(|x|, k + 1);
    CutOneMore(x, k);
    CutIsUniform(enc, x, k);
    CutIsUniform(enc, x, k + 1);
  }

  class LZ4CompressFile {
    const base: CompressBase
    const file: LZ4File

    ghost var stream: seq<byte>   // the file's contents, as far as the budget goes
    ghost var clean: bool         // no read fails

    ghost function Repr(): set<object> {
      {this, file, file.fd} + base.Repr()
    }

    /** What has been read is the stream's beginning; when no read fails it is in whole blocks, and the rest is to come. */
    ghost predicate Valid()
      reads Repr()
    {
      && this !in base.Repr() && file !in base.Repr() && file.fd !in base.Repr()
      && base.Valid() && file.Valid() && file.blockSize == BLOCK_SIZE
      && base.Plain() + file.Unread() <= stream
      && (clean ==> Follows())
    }

    ghost predicate Follows()
      requires file.Valid()
      reads this, base, file, file.fd
    {
      var k := |base.blocks|;
      && Clean(file.fd.schedule) && k <= Blocks(|stream|) && base.blocks == Cut(stream, k)
      && file.Unread() == stream[BlockStart(|stream|, k)..]
    }

    constructor (enc: Encoder, fd: Descriptor, nbytes: int, seed: word)
      requires fd.Valid() && -1 <= nbytes
      ensures Valid() && fresh(Repr() - {fd}) && file.fd == fd && stream == file.Unread() && clean == Clean(fd.schedule)
      ensures stream == WithinBudget(fd.content[fd.pos..], nbytes)
      ensures file.blockSize == 2048 && file.nbytes == nbytes && fd.pos == old(fd.pos) && fd.schedule == old(fd.schedule)
      ensures base.stream.enc == enc && base.seed == seed && base.blocks == []
    {
      hide CompressBase.Valid, CompressBase.Intact, Clean, WithinBudget;
      base := new CompressBase(enc, seed);
      file := new LZ4File(fd, BLOCK_SIZE, nbytes);
      new;
      stream, clean := file.Unread(), Clean(fd.schedule);
      assert base.blocks == Cut(stream, 0);
      assert [] + stream == stream;
    }

    /**
     * The next block's record, nothing at the end or when a read fails, or the encoder's failure. After a read that
     * failed in mid-block the next block starts where that one ended.
     */
    method Next() returns (r: Option<seq<byte>>)
      requires Valid()
      modifies Repr()
      ensures stream == old(stream) && clean == old(clean) && base.seed == old(base.seed)
      ensures r == Some([]) <==> old(file.Unread()) == [] || FailsFirst(old(file.fd.schedule))
      ensures r == Some([]) ==> base.blocks == old(base.blocks)
      ensures r != Some([]) ==>
        && |base.blocks| == |old(base.blocks)| + 1 && base.blocks == old(base.blocks) + [base.blocks[|old(base.blocks)|]]
        && file.Valid() && base.Plain() + file.Unread() <= stream && r == LastRecord(base.stream.enc, base.blocks)
      ensures clean ==>
        var k := |old(base.blocks)|;
        r == if k == Blocks(|stream|) then Some([]) else Record(base.stream.enc, stream, k)
      ensures r.Some? ==> Valid() && (clean ==> |base.blocks| == Min(|old(base.blocks)| + 1, Blocks(|stream|)))
      ensures base.Intact() && Sized(base.blocks)
    {
      hide CompressBase.Valid, CompressBase.Intact, Valid, Record, LastRecord, Cut, Blocks, Clean, FailsFirst, LZ4File.Unread, Concat;
      ghost var k := |base.blocks|;
      if clean {
        InWholeBlocks();
        if k < Blocks(|stream|) {
          NextCut(base.stream.enc, stream, k);
        }
      }
      r := Take();
    }

    lemma InWholeBlocks()
      requires Valid() && clean
      ensures |base.blocks| <= Blocks(|stream|) && (file.Unread() == [] <==> |base.blocks| == Blocks(|stream|))
      ensures base.blocks == Cut(stream, |base.blocks|) && Clean(file.fd.schedule) && !FailsFirst(file.fd.schedule)
    {
      hide CompressBase.Valid, CompressBase.Intact, Cut, Blocks, Clean, FailsFirst, LZ4File.Unread;
      BlocksCover(|stream|, |base.blocks|);
      CleanDoesNotFail(file.fd.schedule);
    }

    /** The block itself: what was read, and its record. */
    method Take() returns (r: Option<seq<byte>>)
      requires Valid()
      modifies Repr()
      ensures stream == old(stream) && clean == old(clean) && base.seed == old(base.seed)
      ensures r == Some([]) <==> old(file.Unread()) == [] || FailsFirst(old(file.fd.schedule))
      ensures r == Some([]) ==> base.blocks == old(base.blocks)
      ensures r != Some([]) ==>
        && |base.blocks| == |old(base.blocks)| + 1 && base.blocks == old(base.blocks) + [base.blocks[|old(base.blocks)|]]
        && file.Valid() && base.Plain() + file.Unread() <= stream && r == LastRecord(base.stream.enc, base.blocks)
      ensures clean && r != Some([]) ==> base.blocks == Cut(stream, |old(base.blocks)| + 1)
      ensures r.Some? ==> Valid()
      ensures base.Intact() && Sized(base.blocks)
    {
      hide CompressBase.Valid, CompressBase.Intact, LastRecord, Cut, Blocks, Clean, FailsFirst, LZ4File.Unread, Concat;
      ghost var k, rest, plain, was := |base.blocks|, file.Unread(), base.Plain(), base.blocks;
      if clean {
        BlocksCover(|stream|, k);
        if k < Blocks(|stream|) {
          NextCut(base.stream.enc, stream, k);
          NextOfRest(stream, BlockStart(|stream|, k), BlockStart(|stream|, k + 1));
        }
      }
      r := base.TakeFrom(file);
      if r == Some([]) {
        StillWithin(plain, file.Unread(), rest, stream);
      } else {
        ghost var s := base.blocks[k];
        OneMoreBlock(base.stream.enc, was, s);
        NextTo(plain, s, file.Unread());
        StillWithin(plain, s + file.Unread(), rest, stream);
      }
    }
  }

  lemma NextTo(a: seq<byte>, b: seq<byte>, c: seq<byte>)
    ensures a + (b + c) == (a + b) + c
  {
  }

  lemma NextOfRest(x: seq<byte>, from: nat, to: nat)
    requires from <= to <= |x| && to == Min(from + BLOCK_SIZE, |x|)
    ensures x[from..][..Min(BLOCK_SIZE, |x[from..]|)] == x[from..to] && x[from..][to - from..] == x[to..]
  {
  }

  lemma StillWithin(plain: seq<byte>, now: seq<byte>, rest: seq<byte>, stream: seq<byte>)
    requires plain + rest <= stream && now <= rest
    ensures plain + now <= stream
  {
  }

  /** The driving loop on a compressor that has just been set up or reset. */
  method CompressAll(c: LZ4CompressData) returns (r: Option<seq<byte>>, digest: word)
    requires c !in c.base.Repr() && c.base.Valid() && c.base.blocks == []
    modifies c.Repr()
    ensures r == CompressStream(c.base.stream.enc, old(c.data))
    ensures r.Some? ==> digest == XXH32(old(c.base.seed), old(c.data)) && c.base.size == |r.value|
    ensures c.base.Intact()
  {
    hide CompressBase.Valid, CompressBase.Intact, LZ4CompressData.Valid, Record, XXH32;
    digest := 0;
    ghost var enc, data, k := c.base.stream.enc, c.data, 0;
    var it := c.Init();
    var out := [];
    while it.Some? && it.value != []
      invariant c.data == data && c.base.seed == old(c.base.seed) && k <= Blocks(|data|)
      invariant Records(enc, data, k) == Some(out)
      invariant it == if BlockStart(|data|, k) == |data| then Some([]) else Record(enc, data, k)
      invariant it.Some? ==> c.Valid() && c.dataOffset == BlockStart(|data|, k + 1)
      invariant c.base.Intact()
      decreases Blocks(|data|) - k
    {
      BlocksCover(|data|, k);
      BlocksCover(|data|, k + 1);
      out := out + it.value;
      it := c.Next();
      k := k + 1;
    }
    BlocksCover(|data|, k);
    if it.None? {
      RecordFails(enc, data, k);
      return None, digest;
    }
    c.AllIsOut();
    r := Some(out);
    digest := c.base.GetDigest();
  }

  lemma NothingOut(enc: Encoder, x: seq<byte>)
    ensures StreamOf(enc, []) == Some([]) == Records(enc, x, 0) && Concat([]) == []
  {
  }

  /** One more block's record is out. */
  lemma BlockGoesOut(enc: Encoder, before: seq<seq<byte>>, blocks: seq<seq<byte>>, out: seq<byte>, record: seq<byte>)
    requires |blocks| == |before| + 1 && blocks == before + [blocks[|before|]] && Sized(blocks)
    requires StreamOf(enc, before) == Some(out) && LastRecord(enc, blocks) == Some(record)
    ensures StreamOf(enc, blocks) == Some(out + record) && |Concat(blocks)| > |Concat(before)|
  {
    hide Shows, RingOffset;
    OneMoreBlock(enc, before, blocks[|before|]);
  }

  lemma RecordGoesOut(enc: Encoder, x: seq<byte>, k: nat, out: seq<byte>, record: seq<byte>)
    requires Records(enc, x, k) == Some(out) && Record(enc, x, k) == Some(record)
    ensures Records(enc, x, k + 1) == Some(out + record)
  {
    hide Record;
  }

  lemma BlockFails(enc: Encoder, before: seq<seq<byte>>, blocks: seq<seq<byte>>)
    requires |blocks| == |before| + 1 && blocks == before + [blocks[|before|]] && LastRecord(enc, blocks) == None
    ensures StreamOf(enc, blocks) == None
  {
    hide Shows, RingOffset;
    OneMoreBlock(enc, before, blocks[|before|]);
  }

  /**
   * The same loop over a file. Whatever the reads do, what comes out is the stream of the blocks that were read, in order
   * and from the beginning; and when none fails, the bytes are those of the same data in memory.
   */
  method CompressAllOf(c: LZ4CompressFile) returns (r: Option<seq<byte>>, digest: word)
    requires c.Valid() && c.base.blocks == []
    modifies c.Repr()
    ensures c.stream == old(c.stream) && c.clean == old(c.clean)
    ensures r == StreamOf(c.base.stream.enc, c.base.blocks) && Sized(c.base.blocks)
    ensures r.Some? ==> Concat(c.base.blocks) <= c.stream
    ensures c.clean ==> r == CompressStream(c.base.stream.enc, c.stream)
    ensures c.clean && r.Some? ==> Concat(c.base.blocks) == c.stream
    ensures r.Some? ==> digest == XXH32(old(c.base.seed), Concat(c.base.blocks)) && c.base.size == |r.value|
    ensures c.base.Intact()
  {
    hide CompressBase.Valid, CompressBase.Intact, Record, LastRecord, XXH32, LZ4File.Unread, Cut, Blocks, Shows, Concat, StreamOf;
    hide Clean, FailsFirst, Records;
    digest := 0;
    ghost var enc, data := c.base.stream.enc, c.stream;
    ghost var before := c.base.blocks;   // whose records are in `out`
    NothingOut(enc, data);
    var it := c.Next();
    var out := [];
    while it.Some? && it.value != []
      invariant c.stream == data && c.clean == old(c.clean) && c.base.seed == old(c.base.seed)
      invariant StreamOf(enc, before) == Some(out) && (c.clean ==> |before| <= Blocks(|data|))
      invariant it == Some([]) ==> c.base.blocks == before
      invariant it != Some([]) ==> |c.base.blocks| == |before| + 1 && c.base.blocks == before + [c.base.blocks[|before|]]
      invariant it != Some([]) ==> it == LastRecord(enc, c.base.blocks)
      invariant c.clean ==> it == if |before| == Blocks(|data|) then Some([]) else Record(enc, data, |before|)
      invariant c.clean ==> Records(enc, data, |before|) == Some(out)
      invariant c.base.Intact() && Sized(c.base.blocks) && (it.Some? ==> c.Valid()) && |Concat(before)| <= |data|
      decreases |data| - |Concat(before)|, it.Some? && it.value != []
    {
      BlockGoesOut(enc, before, c.base.blocks, out, it.value);
      if c.clean {
        RecordGoesOut(enc, data, |before|, out, it.value);
      }
      out := out + it.value;
      before := c.base.blocks;
      it := c.Next();
    }
    if it.None? {
      BlockFails(enc, before, c.base.blocks);
      if c.clean {
        RecordFails(enc, data, |before|);
      }
      return None, digest;
    }
    c.base.SizeIsTheOutput();
    if c.clean {
      CutIsUniform(enc, data, |before|);
      BlocksCover(|data|, |before|);
    }
    r := Some(out);
    digest := c.base.GetDigest();
  }

  /** Whatever the reads do short of failing, a file within its budget compresses as the same bytes in memory do. */
  method FileCompressesAsData(enc: Encoder, content: seq<byte>, schedule: seq<Event>, nbytes: int, seed: word)
    returns (fromFile: Option<seq<byte>>, fromData: Option<seq<byte>>)
    requires Clean(schedule) && -1 <= nbytes
    ensures fromFile == fromData
      == CompressStream(enc, if nbytes == -1 then content else content[..Min(nbytes, |content|)])
  {
    hide CompressBase.Valid, CompressBase.Intact, CompressStream;
    var fd := new Descriptor(content, schedule);
    var file := new LZ4CompressFile(enc, fd, nbytes, seed);
    var budget := if nbytes == -1 then content else content[..Min(nbytes, |content|)];
    assert file.stream == budget;
    var digest;
    fromFile, digest := CompressAllOf(file);
    var c := new LZ4CompressData(enc, budget, seed);
    fromData, digest := CompressAll(c);
  }

  /**
   * A file compressor takes a failed read for the end of the file: the first piece is empty if and only if there is
   * nothing to read within the budget or the first read fails, after any number of interruptions.
   */
  method FirstPieceOf(enc: Encoder, fd: Descriptor, nbytes: int, seed: word) returns (piece: Option<seq<byte>>)
    requires fd.Valid() && -1 <= nbytes
    modifies fd
    ensures piece == Some([]) <==> old(fd.pos) == |fd.content| || nbytes == 0 || FailsFirst(old(fd.schedule))
  {
    hide CompressBase.Valid, CompressBase.Intact, Record;
    var c := new LZ4CompressFile(enc, fd, nbytes, seed);
    piece := c.Next();
  }

  /** A file of one byte whose first read fails compresses, without an error, to what an empty file does. */
  method FailedReadLooksLikeTheEnd(enc: Encoder, seed: word) returns (failing: Option<seq<byte>>, empty: Option<seq<byte>>)
    ensures failing == empty == Some([])
  {
    var fd := new Descriptor([7], [Failed]);
    failing := FirstPieceOf(enc, fd, -1, seed);
    var none := new Descriptor([], []);
    empty := FirstPieceOf(enc, none, -1, seed);
  }

  /**
   * Whatever the reads do, the compressed file decodes to what was read of it: a beginning, and all of it when no read
   * fails. The digest is that of the same bytes.
   */
  method FileDecodesToWhatWasRead(enc: Encoder, fd: Descriptor, nbytes: int, seed: word)
    returns (r: Option<seq<byte>>, digest: word, ghost read: seq<byte>)
    requires Faithful(enc) && fd.Valid() && -1 <= nbytes
    modifies fd
    ensures r.Some? && DecodeStream(r.value) == Ok(read) && digest == XXH32(seed, read)
    ensures read <= WithinBudget(fd.content[old(fd.pos)..], nbytes)
    ensures Clean(old(fd.schedule)) ==> read == WithinBudget(fd.content[old(fd.pos)..], nbytes)
  {
    hide CompressBase.Valid, CompressBase.Intact, Faithful, DecodeStream, CompressStream, StreamOf, XXH32, WithinBudget, Clean;
    var c := new LZ4CompressFile(enc, fd, nbytes, seed);
    r, digest := CompressAllOf(c);
    read := Concat(c.base.blocks);
    AnyRoundTrip(enc, c.base.blocks);
  }
}
