# Compressors: what the streaming code keeps

A Dafny model of the C++ library `compressors`, of what its own code does around zlib and LZ4. Three components hold the
state, and all three are loops over buffers with a simple meaning behind them.

**The framed LZ4 stream.** A stream is a row of records, each a 2-byte length and an LZ4 block of at most 2048 decoded
bytes. `Lz4Frames` defines the format without any buffer: `DecodeStream` decodes each block against the *whole* output
before it, and `CompressStream` is the records of an encoder that is shown each block, whether it lies next to the last
one in memory, and the last 64 KB. Everything else is proved equal to one of the two:

- the `*Data` classes over a ring of 256 KB + 2 KB (`Lz4DecompressData`, `Lz4CompressStreams`),
- the `*File` classes, whose reads cut records anywhere (`Lz4DecompressFile`, `Lz4CompressStreams`),
- the one-shots, which use one flat buffer for the first 256 KB and a ring after it (`Lz4DecompressOneShot`,
  `Lz4CompressOneShot`).

`Lz4AnyBlocks` extends the compressed format to blocks of any size, which is what a file gives when reads fall short, and
holds the round trip. `Lz4Source` puts the four classes behind their common interface, `Lz4Iterator` reads any of them in pieces, and
`Lz4Resets` uses one object again and again. `Lz4Outcomes` says what a stream comes to when it fails (all that precedes
the first error, and that error) and what changes when a decoder can reach bytes older than its stream: a refused record
that fits with them is *rescued*, and nothing else is different.

`Lz4Written` describes blocks from the writing side and proves that decoding is exactly its inverse; `Lz4Vectors` states the
format's numbers and decodes a few streams byte by byte.

The LZ4 decoder is written out (`Lz4Block` as a function, `Lz4Decoder` as an in-place method that reads its matches back
out of the caller's memory through two segments). LZ4's match search is a parameter, `Encoder`: any function of all it
has been shown. Only the round trip asks more of it (`Faithful`), and an encoder that stores literals is shown to meet that.
The heart is `Lz4Ring`: the room for the next block never touches the history a match can reach, in a lap and past a wrap.
Hence a match offset of up to 65535 finds its byte; one before the stream's start is refused by ring and format alike.

**Streaming XXH32.** `Xxh32` is the one-shot of the xxHash specification (XXH32 algorithm description, steps 1 to 6),
pinned down by three published digests and two of zeros (`Xxh32Vectors`), and by the numbers its words, lengths and lanes
stand for (`Xxh32Numbers`). `Xxh32Stream` is the streaming state as the source keeps it: 16-byte carry, four
lanes, a length that wraps at 2^32 with a sticky flag, fixed-size overlapping copies, two kernels, two byte orders.
`Xxh32Chunks` proves that any chunking gives the one-shot, and `Xxh32Sensitivity` that no change of one byte keeps the digest.
The LZ4 classes feed every block to this state, so the digests on both sides of a round trip agree.

**The deflate drivers.** zlib is a machine fed byte by byte whose output waits for room (`Zlib` for inflate; the machine
in `DeflateCompress` for deflate). When a call with no output room left returns, and whether it has taken more input, is
left open, so the proofs hold for every such library. The refill and drain loops are proved against the meaning of the
whole input.

Errors are values. `Cause` separates corrupt framing, a refused block and a failed read. A file is a byte sequence
delivered by an arbitrary schedule of short reads, interruptions and failures. A choice the caller does not see (host
byte order, kernel) is arbitrary.

## Model

| member | source | states |
|---|---|---|
| `Lz4Block.DecodeAfterOlder` | compressor_lz4.h:285-288 | A block that decodes against a history decodes to the same bytes with anything put in front of that history; this is why an uncleared decoder still decodes what a fresh one accepts, and why 64 KB of history suffice |
| `Lz4Block.DecodeSize` | compressor_lz4.cc:185-188 | Whether a block decodes, and to how many bytes, depends on how many bytes lie before it and not on what they are |
| `Lz4Block.MoreReach` | compressor_lz4.h:285-288 | More bytes to reach change nothing that succeeds, and nothing at all once 65535 can be reached |
| `Lz4Written.RepeatIsPeriodic` | compressor_lz4.cc:185 | A match is the last `offset` bytes over and over, without copying byte by byte |
| `Lz4Written.EachByteIsOneBack` | compressor_lz4.cc:185 | Every byte of a match is the one `offset` before it, within the match too |
| `Lz4Written.MatchIsDetermined` | compressor_lz4.cc:185 | Nothing but the match has that property |
| `Lz4Written.ParseReadsItem` | compressor_lz4.cc:185 | For every literal count, offset and match length, reading a written sequence gives it back |
| `Lz4Written.ParsedWasWritten` | compressor_lz4.cc:185 | What is read as a sequence was written as that one |
| `Lz4Written.DecodesToWhatItSays` | compressor_lz4.cc:185 | A written block decodes to its literals and matches, if and only if they fit and reach back no further than what there is |
| `Lz4Written.DecodesExactlyWhatIsWritten` | compressor_lz4.cc:185 | A block decodes if and only if it was written this way, and to exactly what it says |
| `Lz4Written.DecodesInPlace` | compressor_lz4.cc:185 | The in-place decoder leaves in memory what a written block says |
| `Lz4Block.LiteralBlockDecodes` | compressor_lz4.h:69 | A block stored as literals decodes to its contents after any history and stays within the record bound, so the encoder contract is not vacuous |
| `Lz4Memory.WritingKeeps` | compressor_lz4.cc:184-194 | Writing on from the end of a segment, and scribbling up to the end of the room, keeps the last 64 KB readable through the two segments and adds what was written |
| `Lz4Decoder.StreamDecode.constructor` | compressor_lz4.cc:553-554 | A decoder that has been shown nothing |
| `Lz4Decoder.StreamDecode.DecompressSafeContinue` | compressor_lz4.cc:185 | How much comes out, or refusal, is settled by how much the segments hold, for every block; what the history accepts decodes to the same bytes as against the whole history; nothing outside the room changes |
| `Lz4Decoder.PutByte` | compressor_lz4.cc:185 | A byte written at the end of the segment keeps all that is decoded readable, and everything outside the room as it was |
| `Lz4Decoder.DecodeBlock` | compressor_lz4.cc:185 | All sequences of a block, in place: success and size exactly as the bytes in reach allow, and exactly the history that the block format defines if it defines one |
| `Lz4Decoder.CopySequence` | compressor_lz4.cc:185 | One sequence in place: refused exactly when it passes the room or reaches behind all the segments hold |
| `Lz4Decoder.CopyMatch` | compressor_lz4.cc:185 | A match copied byte by byte, possibly out of the older segment or out of its own output: every byte is the one `offset` before it, and memory holds them |
| `Lz4Ring.NextBlockIsClear` | compressor_lz4.h:68-70 | Whatever the ring offset, the 2048 bytes about to be written miss every byte of the 64 KB a codec may still reach |
| `Lz4Ring.LapsGoOn` | compressor_lz4.cc:190-194 | The ring invariant survives a block of any size from 1 to 2048, past a wrap too, and so does knowing how much can be reached, older bytes included |
| `Lz4Ring.HistoryGoesOn` | compressor_lz4.cc:190-194 | History held at the end of a block is held at the start of the next one, past a wrap too |
| `Lz4Ring.MovingAwayKeeps` | compressor_lz4.cc:436-444 | A codec that moves to other memory finds its full window behind it |
| `Lz4Ring.LapsBegin` | compressor_lz4.h:117-121 | Offset 0 with no history is a legal start whatever the codec was shown before; it then reaches its last segment |
| `Lz4Ring.FlatThenLaps` | compressor_lz4.cc:572-577 | Leaving the flat buffer for the start of a ring, once 256 KB are out, keeps the history and its extent |
| `Lz4Ring.AdvanceByBlocks` | compressor_lz4.cc:112-116 | A lap is 128 whole blocks: the ring wraps exactly at each multiple |
| `Lz4Vectors.RingByTheNumbers` | compressor_lz4.cc:112-116 | The ring offset stays below 262144 and goes to 0 instead |
| `Lz4DecodeBase.RingDecode` | compressor_lz4.cc:578-588 | One block decoded at a ring offset: what the unbounded history accepts decodes to the same, success and size are settled by how much can be reached, and the ring is ready for the next |
| `Lz4DecodeBase.DecodeBase.constructor` | compressor_lz4.h:124-129 | The invariant that ties ring, size and digest to all that has been decoded, with a decoder that knows of nothing older |
| `Lz4DecodeBase.DecodeBase.Reset` | compressor_lz4.h:117-121 | From any state, also after an error, the invariant holds for an empty run; the decoder keeps its segments, and the last one counts as older bytes in reach |
| `Lz4DecodeBase.DecodeBase.WhatAResetLeaves` | compressor_lz4.h:117-121 | That is the current lap, or right after a wrap the whole last one; never nothing once something was decoded |
| `Lz4DecodeBase.DecodeBase.DecodeIntoRing` | compressor_lz4.cc:184-194 | The loaded record goes to the ring's offset and the ring then holds the longer history |
| `Lz4DecodeBase.DecodeBase.DecodeRecord` | compressor_lz4.cc:184-203 | A block comes out if and only if the record fits the history and the older bytes in reach; it is the block the format calls for if there is one, and goes to output, size and digest together |
| `Lz4DecodeBase.DecodeBase.GetDigest` | compressor_lz4.h:213-215 | The digest is the one-shot XXH32 of everything decoded so far |
| `Lz4DecompressData.LZ4DecompressData.constructor` | compressor_lz4.cc:132-135 | A fresh decompressor over the whole input |
| `Lz4DecompressData.LZ4DecompressData.Reset` | compressor_lz4.h:285-288 | From any state a reset one starts on new data with an empty output, the last segment still in reach |
| `Lz4DecompressData.LZ4DecompressData.Init` | compressor_lz4.cc:144-155 | The first step of the stream, unless older bytes rescue the record |
| `Lz4DecompressData.LZ4DecompressData.Next` | compressor_lz4.cc:158-204 | Each call returns the stream's next step (end, the block, or the error with its cause) if and only if older bytes do not rescue the record; if they do, some block |
| `Lz4DecompressData.LZ4DecompressData.ReadRecord` | compressor_lz4.cc:168-182 | Exactly the record body at the offset, or a framing error when the length passes the bound or the data |
| `Lz4Vectors.BodyByItsLength` | compressor_lz4.cc:168-182 | A length is two bytes, low one first; a record is framed if and only if it is at most 2072 and the data go that far |
| `Lz4Vectors.TooLongARecord` | compressor_lz4.cc:176-179 | A record of 2073 bytes is corrupt framing, whatever it holds |
| `Lz4Vectors.BlocksAreBounded` | compressor_lz4.cc:185 | A block of 2048 bytes is taken and one of 2049 is refused |
| `Lz4DecompressData.DecompressAll` | compressor_lz4.h:180-203 | For every byte string, what is appended and how it ends is as for decoding each block against the unbounded history if and only if no record is rescued, which on a fresh object none is; the digest is XXH32 of the output; either way the object is fit for a reset |
| `Lz4Frames.DecodeFromGrows` | compressor_lz4.cc:186-188 | A run that succeeds only adds to its output, and adds nothing exactly at the end, because an empty block is refused |
| `Lz4Frames.OlderBytesCanRescueAMatch` | compressor_lz4.h:285-288 | A concrete stream that a fresh decoder refuses at its first record, and whose record fits with one older byte |
| `Lz4Outcomes.NothingToRescue` | compressor_lz4.h:285-288 | With nothing older in reach, or a whole window of newer bytes, no record is rescued |
| `Lz4Outcomes.OnlyRefusalsAreRescued` | compressor_lz4.h:285-288 | Streams a fresh decoder accepts, and streams whose framing ends badly, are never touched by older bytes |
| `Lz4Outcomes.AgreesUnlessRescued` | compressor_lz4.h:285-288 | A call of a decoder with older bytes in reach agrees with a fresh one's if and only if its record is not rescued |
| `Lz4Outcomes.RunEnds` | compressor_lz4.h:285-288 | A whole run does, output and error alike, if and only if no record of the stream is rescued |
| `Lz4DecompressOneShot.WalkHeaders` | compressor_lz4.cc:530-548 | The first pass counts the well-framed records and knows whether the framing then ends badly |
| `Lz4DecompressOneShot.BodyOf` | compressor_lz4.cc:567-570 | The second pass reads each counted record again, in bounds |
| `Lz4DecompressOneShot.RecordSteps` | compressor_lz4.cc:556-562 | A well-framed record's block is the stream's next step, and its refusal the stream's error |
| `Lz4DecompressOneShot.NothingLeft` | compressor_lz4.cc:590-592 | A framing error found early and reported last is the error the classes meet at that place |
| `Lz4DecompressOneShot.FlatDecode` | compressor_lz4.cc:556-562 | One block in the flat buffer equals the block against all output before it |
| `Lz4DecompressOneShot.DecodeFlat` | compressor_lz4.cc:564-571 | The contiguous phase has 2048 bytes of room at each decode and ends with the stream unfinished as soon as 262144 bytes are out |
| `Lz4DecompressOneShot.DecodeRing` | compressor_lz4.cc:576-592 | The ring phase finishes the stream as the format says, framing error last |
| `Lz4DecompressOneShot.DecompressLz4` | compressor_lz4.cc:524-597 | On every byte string, the result or the cause of decoding each block against the unbounded history; what is reserved up front is at most max(264192, 16 times the input), and no less than the contiguous phase and a long output call for |
| `Lz4DecompressOneShot.BothDecompress` | compressor_lz4.cc:434-444 | The one-shot and a full run of the class agree on every byte string, bytes and causes |
| `FileRead.Descriptor.SysRead` | compressor_io.h:66 | What one system read may do: fail, be interrupted, or deliver some of the next bytes; 0 only at the end of the file |
| `FileRead.Descriptor.Read` | compressor_io.h:59-84 | On every schedule without a failure, exactly the next min(nbyte, rest) bytes; -1 exactly when something is asked for and the first read that is not interrupted fails |
| `Lz4File.LZ4File.GetReadSize` | compressor_lz4.h:352-366 | The budget is never over-requested |
| `Lz4File.ReadLeaves` | compressor_lz4.h:352-366 | What a read leaves to come, and that a short read takes from the end of the budget |
| `Lz4File.LZ4File.ReadBlock` | compressor_lz4.h:352-366 | On every schedule, what is delivered followed by what is left is a beginning of what there was, and all of it when there is no budget; without a failure, a full block except at the end; nothing exactly at the end or when the first read fails |
| `Lz4DecompressFile.LZ4DecompressFile.constructor` | compressor_lz4.cc:289-295 | A fresh file decompressor |
| `Lz4DecompressFile.LZ4DecompressFile.TakeLength` | compressor_lz4.cc:343-355 | A length field cut by a read boundary is put together exactly, on every schedule; without a failing read it is a framing error exactly when the file ends in it |
| `Lz4DecompressFile.LZ4DecompressFile.TakeBody` | compressor_lz4.cc:362-373 | A body is taken exactly, on every schedule; without a failing read it fails exactly when the rest of the file is too short |
| `Lz4DecompressFile.LZ4DecompressFile.TakeRest` | compressor_lz4.cc:365-369 | The rest of a cut body follows what was loaded, and the next record follows it |
| `Lz4DecompressFile.LZ4DecompressFile.TakeCutBody` | compressor_lz4.cc:363-369 | For a body cut by a read boundary one further read always suffices |
| `Lz4DecompressFile.LZ4DecompressFile.TakeRecord` | compressor_lz4.cc:333-373 | The record that lies next in the file, wherever the reads cut it; the end only when nothing is left; or an error, which without a failing read is the framing error there |
| `Lz4DecompressFile.LZ4DecompressFile.Init` | compressor_lz4.cc:305-324 | The first step of the stream in the file, with the same guarantees as any further call |
| `Lz4DecompressFile.LZ4DecompressFile.HasMore` | compressor_lz4.cc:333-341 | Whether anything is left to take, after one more read when the last one is spent |
| `Lz4DecompressFile.LZ4DecompressFile.TakeStale` | compressor_lz4.cc:343-373 | After the end `data_size - data_offset` wraps to more than any record needs; the length and the body are what the read buffer still holds behind the spent bytes, as far as it goes |
| `Lz4DecompressFile.LZ4DecompressFile.TakeNext` | compressor_lz4.cc:333-373 | On every schedule a record taken is the one at the stream's place; past the end a record or an error, never the end |
| `Lz4DecompressFile.LZ4DecompressFile.Next` | compressor_lz4.cc:327-395 | On every schedule a block returned is the stream's next (unless older bytes rescue the record), and so is the end when there is no budget; a failing read can only add errors or, with a budget, an early end. A call past the end of a file that held something never reports the end again |
| `Lz4DecompressFile.CallPastTheEnd` | compressor_lz4.cc:333-341 | A call after the one that reported the end reports it again if and only if the file held nothing within the budget |
| `Lz4DecompressFile.EndReportedOnce` | compressor_lz4.cc:333-341 | On a file of one record it does not |
| `Lz4DecompressFile.DecompressAllOf` | compressor_lz4.cc:305-395 | For every schedule on which no read fails, the output, cause and digest of the file's bytes within the budget, if and only if no record is rescued; when reads fail, the output is still a beginning of that, and without a budget a reported end is the real one |
| `Lz4DecompressFile.FileDecodesAsData` | compressor_lz4.cc:158-395 | The file class and the data class agree on verdict, bytes and digest, whatever the reads do short of failing |
| `Lz4Encoder.VisibleIsTheWindow` | compressor_lz4.cc:436-444 | That is the last 65536 bytes of the input, or all there are |
| `Lz4Encoder.VisibleByTheByte` | compressor_lz4.cc:107 | What memory shows the encoder is the last 65536 bytes in reach, each at its distance |
| `Lz4Encoder.StreamEncode.CompressFastContinue` | compressor_lz4.cc:107 | The encoder is shown the block, whether it continues the last one, and the last 65536 bytes memory really holds, each at its distance; its output is written in the room or refused |
| `Lz4Encoder.BlockIsClearOfTheWindow` | compressor_lz4.cc:94-116 | A block copied into the ring leaves the encoder's window unoverwritten, and contiguity is lost exactly at the wrap |
| `Lz4Encoder.RingEncode` | compressor_lz4.cc:509-517 | One block of the ring shows the encoder min(65536, length so far) bytes, and they are the last of the unbounded input, one by one |
| `Lz4Frames.WindowByTheByte` | compressor_lz4.cc:436-444 | The window of an input, byte by byte |
| `Lz4CompressBase.CompressBase.constructor` | compressor_lz4.h:124-129 | The invariant that ties ring, calls, size and digest to all that has been compressed |
| `Lz4CompressBase.CompressBase.Reset` | compressor_lz4.h:261-265 | From any state, also after an error, everything is as at the start |
| `Lz4CompressBase.CompressBase.EncodeFromRing` | compressor_lz4.cc:107-116 | The calls so far are the ones the format prescribes for the blocks so far, whatever their sizes |
| `Lz4Vectors.CallByTheNumbers` | compressor_lz4.cc:94-107 | Call k is shown bytes 2048 k to 2048 k + 2047, contiguous unless k is a multiple of 128, and the last 65536 bytes before, each in its place |
| `Lz4CompressBase.CompressBase.CompressBlock` | compressor_lz4.cc:107-128 | The block's record, with its length in two bytes that never truncate, or the encoder's failure; the digest takes the block |
| `Lz4CompressBase.CompressBase.Account` | compressor_lz4.cc:118-126 | A block taken into digest and size keeps both equal to those of all input so far |
| `Lz4CompressBase.CompressBase.TakeBlock` | compressor_lz4.cc:94-128 | The same for a block copied from memory |
| `Lz4CompressBase.CompressBase.TakeFrom` | compressor_lz4.cc:247-276 | The same for a block read from a file, also after a read that fell short; nothing exactly when file or budget is exhausted or the first read fails |
| `Lz4CompressBase.CompressBase.GetDigest` | compressor_lz4.h:213-215 | The digest is the one-shot XXH32 of everything compressed so far |
| `Lz4CompressBase.CompressBase.SizeIsTheOutput` | compressor_lz4.h:209-211 | The size is the length of all records put out |
| `Lz4CompressStreams.LZ4CompressData.Reset` | compressor_lz4.h:261-265 | From any state a reset compressor starts as a fresh one |
| `Lz4CompressStreams.LZ4CompressData.Init` | compressor_lz4.cc:70-81 | The first record, or nothing for no input |
| `Lz4CompressStreams.LZ4CompressData.Next` | compressor_lz4.cc:84-129 | Call k returns record k of the stream, nothing at the end, or the failure |
| `Lz4CompressStreams.LZ4CompressFile.constructor` | compressor_lz4.cc:213-216 | A fresh file compressor over what the budget leaves of the file |
| `Lz4CompressStreams.LZ4CompressFile.Next` | compressor_lz4.cc:241-277 | On every schedule the record of the bytes read next, in order; without a failing read call k returns record k of the file's bytes within the budget; nothing exactly at their end or when the first read fails |
| `Lz4CompressStreams.CompressAll` | compressor_lz4.h:201-207 | A full run emits the stream the format defines, for every encoder; digest and size are those of input and output; either way the object is fit for a reset |
| `Lz4CompressStreams.CompressAllOf` | compressor_lz4.cc:241-277 | The same for a file: on every schedule the stream of the blocks that were read, which are a beginning of the file; when no read fails, the stream of all of it |
| `Lz4CompressStreams.FileDecodesToWhatWasRead` | compressor_lz4.cc:241-277 | Whatever the reads do, the compressed file decodes to what was read: a beginning of the file within the budget, and all of it when no read fails; the digest agrees |
| `Lz4CompressStreams.FirstPieceOf` | compressor_lz4.cc:249-253 | The first piece is empty if and only if there is nothing to read within the budget or the first read fails |
| `Lz4CompressStreams.FailedReadLooksLikeTheEnd` | compressor_lz4.cc:249-253 | A file of one byte whose first read fails compresses, without an error, to what an empty file does |
| `Lz4CompressStreams.FileCompressesAsData` | compressor_lz4.cc:241-277 | The file class emits what the data class emits for the first min(budget, size) bytes |
| `Lz4AnyBlocks.OneMoreBlock` | compressor_lz4.cc:107-126 | What one more block of any size adds to the calls, the ring offset and the stream |
| `Lz4AnyBlocks.CutIsUniform` | compressor_lz4.cc:94-116 | Whole blocks of 2048 bytes make laps of 128, and give the calls and records of the format |
| `Lz4AnyBlocks.LastDecodes` | compressor_lz4.cc:158-204 | A record decodes to its block against all output before it, not only the 64 KB the encoder saw |
| `Lz4AnyBlocks.Appended` | compressor_lz4.cc:122-128 | Parsing a record at the end of a stream that decodes undoes writing it |
| `Lz4AnyBlocks.AnyRoundTrip` | compressor_lz4.cc:241-395 | Blocks of any sizes from 1 to 2048 are encoded without failure and decode to what they were cut from, across any number of wraps |
| `Lz4AnyBlocks.RoundTrip` | compressor_lz4.cc:472-597 | Decoding what a faithful encoder compressed gives back every input, and compressing never fails |
| `Lz4Frames.RecordFails` | compressor_lz4.cc:108-110 | One refused block fails the whole |
| `Lz4Frames.LiteralsAreFaithful` | compressor_lz4.h:69 | The promise asked of the encoder can be kept |
| `Lz4CompressOneShot.PutHeader` | compressor_lz4.cc:494-496 | The length goes in front of the body already written, and nothing before it changes |
| `Lz4CompressOneShot.FlatSees` | compressor_lz4.cc:441-442 | Compressing straight from the caller's buffer shows the encoder the same window and contiguity as the ring does |
| `Lz4CompressOneShot.FlatBlock` | compressor_lz4.cc:501-505 | One block of the flat phase emits the next record, or its failure |
| `Lz4CompressOneShot.CopyIn` | compressor_lz4.cc:510-511 | Copying a block into the ring overwrites nothing the encoder may reach |
| `Lz4CompressOneShot.CopyAndEncode` | compressor_lz4.cc:510-517 | One block of the ring phase shows the encoder the prescribed call and leaves earlier output alone |
| `Lz4CompressOneShot.RingBlock` | compressor_lz4.cc:509-518 | It emits the next record, or its failure |
| `Lz4CompressOneShot.FlatThenSet` | compressor_lz4.cc:506-508 | The switch to the ring falls on block 128, where the classes' ring wraps, with the window still readable in the caller's buffer |
| `Lz4CompressOneShot.CompressFlat` | compressor_lz4.cc:499-505 | The flat phase ends with the input or with block 128, all records so far emitted |
| `Lz4CompressOneShot.CompressRing` | compressor_lz4.cc:506-519 | The ring phase finishes the stream |
| `Lz4CompressOneShot.CompressLz4` | compressor_lz4.cc:472-521 | The stream the format defines, for every input and encoder, whatever the thread's encoder compressed before; the scratch buffer is always large enough |
| `Lz4CompressOneShot.BothCompress` | compressor_lz4.cc:434-444 | The one-shot emits byte for byte what the class emits |
| `Lz4CompressOneShot.ThereAndBack` | compressor_lz4.cc:472-597 | Compressing and decompressing returns the input, and the digests on both sides are the one-shot XXH32 of it |
| `Lz4Outcomes.DecodedIsTheStream` | compressor_lz4.cc:158-204 | The output up to the first error and that error, for every byte string, agree with the stream's result |
| `Lz4Outcomes.EmittedIsTheStream` | compressor_lz4.cc:84-129 | The same for the records up to the encoder's first failure |
| `Lz4Outcomes.DecodingStep` | compressor_lz4.cc:158-204 | A step of the stream is its next block, neither more nor less, its end, or its error |
| `Lz4Source.NextDecodedData` | compressor_lz4.h:113-115 | A decompressor's further call gives the next block, nothing only at the end, or the error after all that precedes it |
| `Lz4Source.NextDecodedFile` | compressor_lz4.cc:327-395 | The same for a file; after the end of a file that held something, a call never gives nothing again |
| `Lz4Source.NextEncodedData` | compressor_lz4.h:113-115 | The same for a compressor's records |
| `Lz4Source.NextEncodedFile` | compressor_lz4.cc:241-277 | The same for a file compressor's records |
| `Lz4Source.Source.First` | compressor_lz4.h:109-111 | `_init` of any of the four classes gives the first block of what its stream comes to, and leaves an object fit for a reset, also when it throws |
| `Lz4Source.Source.Next` | compressor_lz4.h:113-115 | `_next` of any of the four classes, with the same |
| `Lz4Iterator.Begin` | compressor_lz4.h:201-203 | The iterator of any of the four classes, fresh or reset, starts with the first block, nothing delivered; the object is fit for a reset either way |
| `Lz4Iterator.Iterator.Read` | compressor_lz4.h:184-198 | A piece is min(buffer size, what is left of the current block, or of the next when nothing is) bytes, which continue the delivered ones; for a positive size it is empty exactly when the stream is exhausted; an error comes when all before it is delivered; the object stays fit for a reset |
| `Lz4Iterator.ReadPieces` | compressor_lz4.h:184-198 | For any positive sizes, on any of the four classes and on every input, valid or not, the pieces concatenate to a prefix of the block concatenation up to the first error; each runs to the end of its buffer or of a block and never across one; exactly those after the end are empty; the object is fit for a reset |
| `Lz4Iterator.ReadAgainAtTheEnd` | compressor_lz4.h:184-198 | A second read at the end returns 0 again if and only if it is not a file decompressor's whose file held something |
| `Lz4Iterator.UsedDecompressor` | compressor_lz4.h:285-288 | A used decompressor, reset, is read like a fresh one on every stream of which no record is rescued |
| `Lz4Iterator.UsedCompressor` | compressor_lz4.h:261-265 | A used compressor, reset, is read like a fresh one |
| `Lz4Resets.DecompressAgain` | compressor_lz4.h:285-288 | In whatever state a run has left it, a reset decompressor comes to what a fresh one comes to, output and error alike, if and only if no record is rescued by what it can still reach |
| `Lz4Resets.CompressAgain` | compressor_lz4.h:261-265 | In whatever state a run has left it, a reset compressor emits what a fresh one emits |
| `Lz4Resets.DecompressInTurn` | compressor_lz4.h:285-288 | One decompressor on any streams in turn, failed ones included: each as on a fresh one if and only if no record of it is rescued, and so whenever a fresh one does not refuse a block |
| `Lz4Resets.CompressInTurn` | compressor_lz4.h:261-265 | One compressor on any inputs in turn, failed runs included: each as on a fresh one |
| `Lz4Resets.ReadThenDecompress` | compressor_lz4.h:184-198 | The same after a run read in pieces that failed or was left half-way |
| `Lz4Resets.ReadThenCompress` | compressor_lz4.h:184-198 | After such a run a reset compressor emits what a fresh one emits |
| `Lz4Resets.ReadThenRead` | compressor_lz4.h:184-198 | After such a run a reset decompressor is read in pieces like a fresh one on every stream a fresh one accepts |
| `Lz4Resets.AcceptsAfterAReset` | compressor_lz4.h:285-288 | After any run that has put something out, a reset decompressor takes the first record of a stream that a fresh one refuses there |
| `Lz4Resets.ResetAcceptsRefused` | compressor_lz4.h:285-288 | The same after a run on one concrete record |
| `Xxh32Stream.Read32LE` | xxh32_stream.h:76-106 | The little-endian word on a host of either byte order |
| `Xxh32Numbers.WrapIsModulo` | xxh32_stream.h:307 | A length counts modulo 2^32, and not sooner |
| `Xxh32Numbers.WordIsLittleEndian` | xxh32_stream.h:97-106 | The number four bytes make, low one first |
| `Xxh32Numbers.LanesDifferByTheSeed` | xxh32_stream.h:202-205 | Every lane starts from its own number plus the seed, for every seed |
| `Xxh32Numbers.ResetStartsFromTheSeed` | xxh32_stream.h:198-209 | So do the lanes of a reset state |
| `Xxh32Stream.CopySmall` | xxh32_stream.h:111-130 | Overlapping fixed-size moves equal an exact copy of n bytes for every n below 16, and touch nothing else |
| `Xxh32Stream.BlocksGeneric` | xxh32_stream.h:152-171 | The lanes after all whole stripes up to the limit |
| `Xxh32Stream.BlocksStart` | xxh32_stream.h:274-287 | The same for the plain kernel's loop |
| `Xxh32Stream.StripeStart` | xxh32_stream.h:262-272 | The carried stripe on the stored lanes |
| `Xxh32Stream.State.Reset` | xxh32_stream.h:198-209 | From any state, the state of no input |
| `Xxh32Stream.State.TopUp` | xxh32_stream.h:231-241 | The carry is completed and absorbed, on either kernel |
| `Xxh32Stream.State.Drain` | xxh32_stream.h:243-251 | Whole stripes are absorbed and the remainder carried, stale carry bytes kept, on either kernel |
| `Xxh32Stream.State.RunKernel` | xxh32_stream.h:225-292 | Both kernels leave the same whole state on both byte orders |
| `Xxh32Stream.State.Update` | xxh32_stream.h:300-330 | The whole state after an update of any length, the wrapping counter and the sticky flag included |
| `Xxh32Stream.State.DigestAs` | xxh32_stream.h:335-369 | The digest loops compute the tail and the mix of the specification over the carry |
| `Xxh32Chunks.BothKernels` | xxh32_stream.h:300-330 | Two equal states stay equal when one runs the pinned kernel and the other the plain one, on any hosts |
| `Xxh32Chunks.CountedCounts` | xxh32_stream.h:307-310 | The flag is set exactly when the true length is at least 16, though the counter wraps |
| `Xxh32Chunks.FilledCovers` | xxh32_stream.h:225-253 | After a kernel the lanes cover exactly the whole stripes of all input and the carry holds the rest |
| `Xxh32Chunks.UpdateAppends` | xxh32_stream.h:300-330 | An update of any length, empty or past 4 GiB, turns the state of a message into the state of the longer one |
| `Xxh32Chunks.DigestIsOneShot` | xxh32_stream.h:335-369 | The digest of such a state is the one-shot XXH32 of the message |
| `Xxh32Chunks.StreamingIsOneShot` | xxh32_stream.h:198-369 | For every seed and every split of a message, reset, updates and digest give the one-shot |
| `Xxh32Chunks.HashChunks` | xxh32_stream.h:198-369 | A whole run, each update on any kernel, on any host, gives the one-shot |
| `Xxh32Chunks.OneByteChangesEveryRun` | xxh32_stream.h:198-369 | Two messages that differ in one byte have different digests, however each was cut up |
| `Xxh32Sensitivity.LaneFollowsTheByte` | xxh32_stream.h:161-168 | A changed byte changes its own lane and no other |
| `Xxh32Sensitivity.MergeFollowsTheLane` | xxh32_stream.h:341-342 | One changed lane changes the merge |
| `Xxh32Sensitivity.TailFollowsTheAccumulator` | xxh32_stream.h:352-361 | The tail is injective in the accumulator |
| `Xxh32Sensitivity.TailFollowsTheByte` | xxh32_stream.h:352-361 | A changed tail byte changes the tail |
| `Xxh32Sensitivity.AvalancheInjective` | xxh32_stream.h:363-368 | The final mix is injective |
| `Xxh32Sensitivity.OneByteChangesTheDigest` | test/test_xxh32.cc:38-57 | No change of a single byte, in an input of any length and at any seed, keeps the digest |
| `Zlib.FeedSplit` | compressor_deflate.cc:466-490 | Feeding input in slices is feeding it whole |
| `Zlib.MeaningIsStepByStep` | compressor_deflate.cc:466-490 | The meaning of an input is what the steps over its bytes put out, up to the end or the fault |
| `Zlib.FailsByTheNumbers` | compressor_deflate.cc:478-482 | The return codes for which the callers throw |
| `Zlib.ZStream.Inflate` | compressor_deflate.cc:478 | What is assumed of inflate: input is taken in order, output waits for room, and room is left only when the input is spent or the stream is over |
| `DeflateDecompress.TrackedInflate` | compressor_deflate.cc:475-483 | One inflate call keeps output, waiting output and input still to come on the way to the whole input's meaning |
| `DeflateDecompress.Inflater.constructor` | compressor_deflate.cc:446-451 | An inflater that has read out nothing |
| `DeflateDecompress.Inflater.Pass` | compressor_deflate.cc:468-487 | Each turn fills its room, takes further input, or finishes |
| `DeflateDecompress.Inflater.Refill` | compressor_deflate.cc:469-475 | The next slice of input, none lost or repeated |
| `DeflateDecompress.Inflater.Read` | compressor_deflate.cc:465-490 | It terminates, and returns the next bytes of the output: all that fit, or fewer only when done |
| `DeflateDecompress.DoneMeans` | compressor_deflate.cc:484-486 | When it is done, what was read out is the meaning of the whole input |
| `DeflateDecompress.DecodeRest` | compressor_deflate.cc:507-521 | The growing result is the meaning, never overrun, and on every run, damaged ones too, at most max(initial size, twice what the input decodes to) |
| `DeflateDecompress.DecompressDeflate` | compressor_deflate.cc:496-521 | The meaning of the whole input: complete, truncated, with trailing bytes, or damaged with its code; the result buffer starts at max(input, 32768) bytes and stays within that or twice what the input decodes to, on every run |
| `DeflateDecompress.DeflateDecompressData.Next` | compressor_deflate.cc:208-243 | Each call appends the output of one 16 KB slice; the end comes once the offset has passed the size |
| `DeflateDecompress.DeflateDecompressData.Drain` | compressor_deflate.cc:228-240 | The inner loop ends with nothing waiting and the slice taken, or the stream over |
| `DeflateDecompress.DecompressAll` | compressor_deflate.cc:208-243 | A full run gives the meaning of the whole input |
| `DeflateDecompress.BothInflate` | compressor_deflate.h:418-421 | The one-shot and a full run agree on every input, codes included |
| `DeflateCompress.ZStream.Deflate` | compressor_deflate.cc:147 | What is assumed of deflate, and that one call moves output to the buffer without changing what is to come in all |
| `DeflateCompress.CompressedIsStepsThenEnd` | compressor_deflate.cc:140-153 | The stream is what the steps over all the bytes put out, one after the other, and then the end from where they lead |
| `DeflateCompress.EveryByteOnceInOrder` | compressor_deflate.cc:132-142 | The slices handed over concatenate to the input |
| `DeflateCompress.FinishFromTheLastSliceOn` | compressor_deflate.cc:136-142 | Slice i is bytes 16384 i to 16384 i + 16383; no-flush before the last slice with data and finish from it on; one call more, with nothing, exactly for sizes that are positive multiples of 16384 |
| `DeflateCompress.DeflateCompressData.Next` | compressor_deflate.cc:121-156 | Each call hands over the next slice with its flush, appends that slice's output, and returns nothing once the end is out |
| `DeflateCompress.DeflateCompressData.Drain` | compressor_deflate.cc:144-153 | The inner loop ends with the slice taken and nothing waiting |
| `DeflateCompress.CompressDeflate` | compressor_deflate.h:406-415 | The result is the outputs of the steps over the whole input followed by the end, whatever the slices and buffers; deflate was handed exactly the slices above |
| `DeflateCompress.ThereAndBack` | compressor_deflate.h:406-421 | Where inflating undoes deflating as a whole, the two drivers undo each other |

## Findings

Where the code does not do what its interface suggests, the model keeps the code and the exact condition is proved.

- The end of a compressed file is reported once. At the end `LZ4DecompressFile::next` leaves `data_offset` at the end of
  the last read while `data_size` is 0; a further call computes a difference that wraps, and takes leftover memory for a
  record. It reports the end again if and only if the file held no bytes within the budget
  (`Lz4DecompressFile.CallPastTheEnd`, with a one-record file in `EndReportedOnce`). So a second `read` of the iterator
  at the end returns 0 for the other three classes and for an empty file only (`Lz4Iterator.ReadAgainAtTheEnd`).
- `LZ4CompressFile::next` takes a failed read for the end of the file: it reports the end if and only if nothing is left
  within the budget or the first read that is not interrupted fails (`Lz4CompressStreams.FirstPieceOf`,
  `FailedReadLooksLikeTheEnd`). What has come out by then still decodes to the beginning of the file that was read
  (`FileDecodesToWhatWasRead`).
- `LZ4DecompressData::reset` leaves the decoder's history in place. A reset object comes to what a fresh one comes to if
  and only if no record that the new stream's history refuses fits that history and the older bytes still in reach: the
  last lap of the ring (`Lz4Resets.DecompressAgain`, with the condition in `Lz4Outcomes.RescuedFrom`). Streams a fresh
  object accepts, streams whose framing ends badly, and records after 64 KB of new output are never affected. After any
  run that put something out there is a stream that a fresh object refuses at once and a reset one does not
  (`Lz4Resets.AcceptsAfterAReset`, with a concrete run in `ResetAcceptsRefused`).

## Left out

- compressor_zstd.cc and compressor_zstd.h: one library call per function and a size check.
- The inside of the libraries: LZ4's match search, zlib's state. The encoder is a parameter; zlib is a machine over bytes.
- Lz4Decoder.StreamDecode.DecompressSafeContinue: follows the block format, so it accepts blocks whose last literals are shorter than LZ4's own end-of-block rules want and refuses offset 0; every equality between the implementations is about the same decoder. It writes only what it decodes, though its contract allows writing anywhere in the 2048 bytes of room, and nothing is said about reads past the source.
- Lz4DecompressFile.LZ4DecompressFile.Next: says of a call past the end that it takes leftover bytes and does not report the end; calls after that one are not part of this model. On a schedule with a failing read it does not say which of the possible errors is returned.
- Lz4File.LZ4File.constructor: a negative budget other than -1 is not part of this model.
- Lz4DecodeBase.DecodeBase.DecodeRecord: of a record that older bytes rescue says that a block comes out, not which bytes; the older ones may be overwritten while it is decoded.
- Xxh32Stream.State.Update: a null input pointer, for which the source returns at once.
- Zlib.ZStream.Inflate: return codes other than success, end, need-dictionary, buffer error and the stream's fault.
- DeflateCompress.DeflateCompressData.Next: a null data pointer, for which `init` allocates no buffer and returns before the first slice; the return code of deflate is not looked at, as in the source.
- `DeflateCompressData::next(input, size, flush)`, the gzip flag, a failing `inflateInit2` and its raw-deflate fallback.
- `DeflateCompressFile` and `DeflateDecompressFile`: seeks, file sizes and zlib return codes around the same loops.
- The 2-byte LZ4 length on a big-endian host: the source copies it in host order; the model is little-endian.
- Opening, closing and seeking files, descriptor ownership, and `reset` of the two LZ4 file classes, which differs from the modelled ones by the descriptor only; `reset` of the deflate classes, after which `init` sets the zlib stream up again.
- Copies of an iterator, and deflate's iterator, where an empty block does not mean the end.
- Allocation: lazily made buffers, thread-local scratch and encoder, `bad_alloc`. Fresh arrays stand for them; the growth of `spill` past its reservation is a sequence.
- `compress_lz4_block`, `decompress_lz4_block`, `lz4_block_bound`: single library calls.
- `pin`, forced inlining and the length at which AArch64 switches kernels: every update may run on either kernel.
- The text and source location of exceptions.
