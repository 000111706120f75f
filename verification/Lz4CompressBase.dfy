/** What the two streaming compressors share: the ring, the running digest, and one block's record. */
module Lz4CompressBase {
  import opened Bytes
  import opened FileRead
  import opened Lz4AnyBlocks
  import opened Lz4Encoder
  import opened Lz4File
  import opened Lz4Frames
  import opened Lz4Memory
  import opened Lz4Ring
  import opened Xxh32
  import opened Xxh32Chunks
  import opened Xxh32Stream

  /** `HeldBefore` of a codec that has only been shown the ring. */
  ghost predicate HeldInRing(f: Spans, ring: array<byte>, contents: seq<byte>, history: seq<byte>)
    requires f.InBounds() && f.prefix.buf == ring && |contents| == ring.Length && (f.ext.buf == null || f.ext.buf == ring)
  {
    f.HeldIn(contents, if f.ext.buf == null then [] else contents, history)
  }

  lemma OnlyTheRing(f: Spans, ring: array<byte>, contents: seq<byte>, history: seq<byte>)
    requires f.InBounds() && f.prefix.buf == ring && |contents| == ring.Length && (f.ext.buf == null || f.ext.buf == ring)
    ensures HeldBefore(f, ring, contents, history) == HeldInRing(f, ring, contents, history)
  {
  }

  class CompressBase {
    var size: nat
    var offset: nat
    const cmpBuf: array<byte>
    const buffer: array<byte>
    const xxh: State
    const stream: StreamEncode

    ghost var seed: word
    ghost var blocks: seq<seq<byte>>   // all that has been compressed since the last reset

    ghost function Repr(): set<object> {
      {this, cmpBuf, buffer, stream} + xxh.Repr()
    }

    /** What holds after an error as well. */
    ghost predicate Intact()
      reads Repr()
      ensures Intact() ==> cmpBuf.Length == MAX_COMPRESSED && buffer.Length == RING_BYTES
    {
      && cmpBuf.Length == MAX_COMPRESSED && buffer.Length == RING_BYTES
      && cmpBuf != buffer && xxh.mem != cmpBuf && xxh.mem != buffer
      && xxh.Valid()
      && RingOnly()
    }

    ghost predicate RingOnly()
      reads stream
    {
      stream.spans.InBounds() && OnlyIn(stream.spans, buffer)
    }

    ghost function Plain(): seq<byte>
      reads this`blocks
    {
      Concat(blocks)
    }

    /** The ring, when its contents were `ring`, held what the encoder may reach of `plain`. */
    ghost predicate Remembers(ring: seq<byte>, plain: seq<byte>)
      requires RingOnly() && |ring| == buffer.Length
      reads this`offset, stream
    {
      && Laps(stream.spans, buffer, offset, |plain|)
      && HeldInRing(stream.spans.Facing(buffer, offset), buffer, ring, plain)
      && stream.spans.Facing(buffer, offset).Exact(|plain|)
    }

    /** The encoder was shown all the blocks, laid out in laps of the ring. */
    ghost predicate Shown()
      reads this`offset, this`blocks, stream
    {
      Sized(blocks) && stream.calls == Shows(blocks) && offset == RingOffset(blocks)
    }

    /** The digest has taken all of `taken`, and the size is that of its records. */
    ghost predicate Accounts(taken: seq<seq<byte>>)
      reads this`size, this`seed, xxh.Repr()
      ensures Accounts(taken) ==> xxh.Valid()
    {
      && xxh.Valid() && Represents(xxh.Abs(), seed, Concat(taken))
      && StreamOf(stream.enc, taken).Some? && size == |StreamOf(stream.enc, taken).value|
    }

    ghost predicate Valid()
      reads Repr()
      ensures Valid() ==> Intact() && Sized(blocks)
    {
      Intact() && Remembers(buffer[..], Plain()) && Shown() && Accounts(blocks)
    }

    constructor (enc: Encoder, seed: word)
      ensures Valid() && fresh(Repr())
      ensures stream.enc == enc && this.seed == seed && blocks == []
    {
      hide Represents, Fresh, WellFormed, Remembers, Shown, Accounts;
      size, offset := 0, 0;
      cmpBuf := new byte[MAX_COMPRESSED];
      buffer := new byte[RING_BYTES];
      xxh := new State(seed);
      stream := new StreamEncode(enc);
      this.seed, blocks := seed, [];
      new;
      NothingYet();
    }

    lemma NothingYet()
      requires Intact() && size == offset == 0 && blocks == [] && xxh.Abs() == Fresh(seed)
      requires stream.spans == Spans(NO_SPAN, NO_SPAN) && stream.calls == []
      ensures Valid()
    {
      hide Laps, Represents, Fresh, WellFormed, Spans.HeldIn;
      FreshRepresentsNothing(seed);
      LapsBegin(stream.spans, buffer);
    }

    /** `_reset` and `LZ4_resetStream`: everything is as it was to begin with. */
    method Reset(seed: word)
      requires Intact()
      modifies Repr()
      ensures Valid() && this.seed == seed && blocks == []
    {
      hide Represents, Fresh, WellFormed, Remembers, Shown, Accounts;
      size, offset := 0, 0;
      xxh.Reset(seed);
      stream.ResetStream();
      this.seed, blocks := seed, [];
      NothingYet();
    }

    /** The block just put at the ring's offset, which held `before` until then, compressed into `cmpBuf`. */
    method EncodeFromRing(len: nat, ghost before: seq<byte>) returns (n: nat)
      requires Intact() && |before| == buffer.Length && Remembers(before, Plain()) && Shown() && 0 < len <= BLOCK_SIZE
      requires forall k :: 0 <= k < buffer.Length && !(offset <= k < offset + BLOCK_SIZE) ==> buffer[k] == before[k]
      modifies this`offset, this`blocks, stream, cmpBuf
      ensures Intact() && Remembers(buffer[..], Plain()) && Shown()
      ensures old(offset) + len <= buffer.Length && blocks == old(blocks) + [buffer[old(offset)..old(offset) + len]]
      ensures var c := stream.enc(Shows(blocks)); if 0 < |c| <= MAX_COMPRESSED then n == |c| && cmpBuf[..n] == c else n == 0
    {
      hide Laps, Spans.Holds, HeldBefore, HeldInRing, Spans.Exact, Shows, RingOffset, Advance, Window, Concat;
      ghost var block, from, plain := buffer[offset..offset + len], offset, Plain();
      OneMoreBlock(stream.enc, blocks, block);
      OnlyTheRing(stream.spans.Facing(buffer, offset), buffer, before, plain);
      n, offset := RingEncode(stream, buffer, offset, len, cmpBuf, 0, cmpBuf.Length, before, plain);
      assert buffer[from..from + len] == block;
      blocks := blocks + [block];
      OnlyTheRing(stream.spans.Facing(buffer, offset), buffer, buffer[..], plain + block);
    }

    /** One block: its record, or the encoder's failure. The block goes into the digest too. */
    method CompressBlock(len: nat, ghost before: seq<byte>) returns (r: Option<seq<byte>>)
      requires Intact() && |before| == buffer.Length && Remembers(before, Plain()) && Shown() && Accounts(blocks)
      requires 0 < len <= BLOCK_SIZE
      requires forall k :: 0 <= k < buffer.Length && !(offset <= k < offset + BLOCK_SIZE) ==> buffer[k] == before[k]
      modifies Repr() - {buffer}
      ensures old(offset) + len <= buffer.Length && blocks == old(blocks) + [buffer[old(offset)..old(offset) + len]]
      ensures r == LastRecord(stream.enc, blocks)
      ensures if r.Some? then Valid() else Intact()
      ensures seed == old(seed)
    {
      hide Remembers, Shown, Accounts, Shows;
      var inpPtr := offset;
      ghost var past := blocks;
      var cmpBytes := EncodeFromRing(len, before);
      var block := buffer[inpPtr..inpPtr + len];
      if cmpBytes == 0 {
        return None;
      }
      r := Some(Header(cmpBytes) + cmpBuf[..cmpBytes]);
      Account(past, block, cmpBytes);
    }

    /** Takes a block that is encoded in `cmpBytes` bytes into the digest and the size. */
    method Account(ghost past: seq<seq<byte>>, block: seq<byte>, cmpBytes: nat)
      requires Accounts(past) && blocks == past + [block]
      requires var c := stream.enc(Shows(blocks)); cmpBytes == |c| && 0 < |c| <= MAX_COMPRESSED
      modifies this`size, xxh.Repr()
      ensures Accounts(blocks)
    {
      hide Represents, WellFormed, Updated, Shows, RingOffset, Concat, StreamOf;
      ghost var st := xxh.Abs();
      OneMoreBlock(stream.enc, past, block);
      var host: Host, kernel: Kernel := *, *;
      xxh.Update(host, kernel, block);
      UpdateAppends(st, seed, Concat(past), block);
      size := size + 2 + cmpBytes;
    }

    /** A block copied from memory. */
    method TakeBlock(s: seq<byte>) returns (r: Option<seq<byte>>)
      requires Valid() && 0 < |s| <= BLOCK_SIZE
      modifies Repr()
      ensures blocks == old(blocks) + [s] && r == LastRecord(stream.enc, blocks)
      ensures if r.Some? then Valid() else Intact()
      ensures seed == old(seed)
    {
      hide Remembers, Shown, Accounts, LastRecord;
      ghost var before := buffer[..];
      HasRoom();
      Store(buffer, offset, s);
      assert buffer[offset..offset + |s|] == s;
      r := CompressBlock(|s|, before);
    }

    /** A block read from a file; nothing when the file, or the budget, is exhausted, and when the read fails. */
    method TakeFrom(file: LZ4File) returns (r: Option<seq<byte>>)
      requires Valid() && file.Valid() && file.blockSize == BLOCK_SIZE && file !in Repr() && file.fd !in Repr()
      modifies Repr(), file, file.fd
      ensures file.Valid() && (file.nbytes == -1 <==> old(file.nbytes) == -1)
      ensures r == Some([]) <==> old(file.Unread()) == [] || FailsFirst(old(file.fd.schedule))
      ensures r == Some([]) ==> blocks == old(blocks) && file.Unread() <= old(file.Unread())
      ensures Sized(blocks)
      ensures r != Some([]) ==>
        && |blocks| == |old(blocks)| + 1 && blocks == old(blocks) + [blocks[|old(blocks)|]]
        && var s := blocks[|old(blocks)|];
          0 < |s| <= BLOCK_SIZE && s + file.Unread() <= old(file.Unread()) && r == LastRecord(stream.enc, blocks)
      ensures Clean(old(file.fd.schedule)) ==>
        var s := old(file.Unread())[..Min(BLOCK_SIZE, |old(file.Unread())|)];
        && Clean(file.fd.schedule) && file.Unread() == old(file.Unread())[|s|..]
        && blocks == if s == [] then old(blocks) else old(blocks) + [s]
      ensures if r.Some? then Valid() else Intact()
      ensures seed == old(seed)
    {
      hide Remembers, Shown, Accounts, LastRecord, LZ4File.Unread, Clean, FailsFirst;
      ghost var before := buffer[..];
      HasRoom();
      var inpBytes := file.ReadBlock(buffer, offset);
      if inpBytes <= 0 {
        assert buffer[..] == before;
        return Some([]);
      }
      r := CompressBlock(inpBytes, before);
      RecordIsNotEmpty(stream.enc, blocks);
    }

    lemma RecordIsNotEmpty(enc: Encoder, blocks: seq<seq<byte>>)
      ensures LastRecord(enc, blocks) != Some([])
    {
    }

    /** The running digest: XXH32 of everything compressed, however it was cut into blocks. */
    method GetDigest() returns (h: word)
      requires Valid()
      ensures h == XXH32(seed, Plain())
    {
      hide Represents, XXH32, Digest, Remembers, Shown, StreamOf;
      var host: Host := *;
      h := xxh.DigestAs(host);
      DigestIsOneShot(xxh.Abs(), seed, Plain());
    }

    /** `size()`: how much has been put out. */
    lemma SizeIsTheOutput()
      requires Valid()
      ensures StreamOf(stream.enc, blocks).Some? && size == |StreamOf(stream.enc, blocks).value|
    {
    }

    lemma HasRoom()
      requires Valid()
      ensures offset + BLOCK_SIZE <= buffer.Length
    {
    }
  }
}
