/** Decompressing a stream from a file, whose reads of 2074 bytes cut records anywhere. */
module Lz4DecompressFile {
  import opened Bytes
  import opened FileRead
  import opened Lz4Block
  import opened Lz4DecodeBase
  import opened Lz4DecompressData
  import opened Lz4File
  import opened Lz4Frames
  import opened Lz4Outcomes
  import opened Lz4Ring
  import opened Xxh32

  /** LZ4_MAX_CMP_SIZE: a length field and the largest body. */
  const MAX_RECORD: nat := MAX_COMPRESSED + 2

  /** How many values a `size_t` has. */
  const SIZE_RANGE: nat := 0x1_0000_0000_0000_0000

  class LZ4DecompressFile {
    const base: DecodeBase
    const file: LZ4File
    const data: array<byte>
    var dataSize: int
    var dataOffset: nat

    ghost var stream: seq<byte>   // the file's contents, as far as the budget goes
    ghost var taken: nat          // how much of it has been consumed
    ghost var clean: bool         // no read fails
    ghost var lossless: bool      // or a failed read takes nothing off the budget, because there is none

    ghost function Repr(): set<object> {
      {this, file, file.fd, data} + base.Repr()
    }

    ghost predicate Separate()
      reads base
    {
      && this !in base.Repr() && file !in base.Repr() && file.fd !in base.Repr() && data !in base.Repr()
      && data.Length == MAX_RECORD == file.blockSize
    }

    /** What of the stream is still to come: the rest of the last read, then the file. */
    ghost function Pending(): seq<byte>
      requires dataOffset <= dataSize <= data.Length && file.Valid()
      reads this, data, file, file.fd
    {
      data[dataOffset..dataSize] + file.Unread()
    }

    ghost predicate Reading()
      reads this, data, file, file.fd
      ensures Reading() ==> file.Valid() && dataOffset <= dataSize <= data.Length && Kept()
    {
      && file.Valid() && dataOffset <= dataSize <= data.Length && data.Length == MAX_RECORD == file.blockSize
      && Kept()
    }

    /** What `clean` and `lossless` say. */
    ghost predicate Kept()
      reads this`clean, this`lossless, file, file.fd
      ensures Kept() && clean ==> lossless
    {
      && (clean ==> Clean(file.fd.schedule) && lossless)
      && (lossless ==> Clean(file.fd.schedule) || file.nbytes == -1)
    }

    /** `now` is all of `rest`, or, when a failed read has cost some of the budget, a beginning of it. */
    ghost predicate Begins(now: seq<byte>, rest: seq<byte>)
      reads this`lossless
    {
      now <= rest && (lossless ==> now == rest)
    }

    /** What is to come is the rest of the stream; some of it has been taken exactly when `dataOffset` says so. */
    ghost predicate Tracks()
      requires Reading()
      reads this, data, file, file.fd
    {
      taken <= |stream| && Begins(Pending(), stream[taken..]) && (dataOffset == 0 <==> taken == 0)
    }

    ghost predicate Valid()
      reads Repr()
      ensures Valid() ==> taken <= |stream| && Separate() && base.Valid() && dataOffset <= dataSize
    {
      Separate() && base.Valid() && Reading() && Tracks()
    }

    /** The file has ended, but `data_offset` still says that the last read ended further on. */
    ghost predicate Spent()
      reads this
    {
      dataSize == 0 < dataOffset <= MAX_RECORD == data.Length
    }

    ghost predicate Ended()
      reads Repr()
      ensures Ended() ==> dataSize < dataOffset
    {
      Separate() && base.Valid() && file.Valid() && Spent()
    }

    constructor (fd: Descriptor, nbytes: int, seed: word)
      requires fd.Valid() && -1 <= nbytes
      ensures Separate() && base.Valid() && file.Valid() && fresh(Repr() - {fd}) && file.fd == fd && file.nbytes == nbytes
      ensures base.seed == seed && base.plain == [] && base.older == 0 && dataSize == -1 && dataOffset == 0
      ensures file.blockSize == 2074 == data.Length
    {
      hide DecodeBase.Valid, DecodeBase.Intact;
      base := new DecodeBase(seed);
      file := new LZ4File(fd, MAX_RECORD, nbytes);
      data := new byte[MAX_RECORD];
      dataSize, dataOffset := -1, 0;
    }

    /** The next block of the file over the spent one. */
    method ReadMore()
      requires file.Valid() && data.Length == MAX_RECORD == file.blockSize
      requires Kept()
      modifies this`dataSize, file, file.fd, data
      ensures file.Valid() && -1 <= dataSize <= data.Length
      ensures Kept()
      ensures dataSize >= 0 ==> Begins(data[..dataSize] + file.Unread(), old(file.Unread()))
      ensures dataSize == 0 ==> old(file.Unread()) == []
      ensures clean ==> dataSize == Min(MAX_RECORD, |old(file.Unread())|)
    {
      dataSize := file.ReadBlock(data, 0);
      if dataSize >= 0 {
        assert data[0..dataSize] == data[..dataSize];
      }
    }

    /** The length field, put together from two reads when one of them ends inside it. */
    method TakeLength() returns (r: Result<nat, Cause>)
      requires Reading() && dataOffset < dataSize
      modifies this`dataSize, this`dataOffset, file, file.fd, data
      ensures r.Err? ==> r.cause == Framing
      ensures r.Ok? ==> Reading() && dataOffset > 0 && r.value <= MAX_OFFSET
      ensures r.Ok? ==>
        var rest := old(Pending());
        |rest| >= 2 && r.value == U16(rest[0], rest[1]) && Begins(Pending(), rest[2..])
      ensures clean ==> (r.Ok? <==> |old(Pending())| >= 2)
    {
      hide LZ4File.Unread, Clean;
      ghost var tail := file.Unread();
      var lo := data[dataOffset];
      if 2 > dataSize - dataOffset {
        dataOffset := 1;
        ReadMore();
        if dataSize < dataOffset {
          return Err(Framing);
        }
        Skip(data[..dataSize], file.Unread(), tail, 1);
        return Ok(U16(lo, data[0]));
      }
      r := Ok(U16(lo, data[dataOffset + 1]));
      dataOffset := dataOffset + 2;
    }

    /** A body of `n` bytes into the record buffer; when the read ends inside it, one further read always suffices. */
    method TakeBody(n: nat) returns (ok: bool)
      requires Separate() && base.Valid() && Reading() && dataOffset > 0 && n <= MAX_COMPRESSED
      modifies this`dataSize, this`dataOffset, file, file.fd, data, base.cmpBuf
      ensures base.Valid() && base.plain == old(base.plain)
      ensures ok ==> Reading() && dataOffset > 0
      ensures ok ==>
        var rest := old(Pending());
        n <= |rest| && base.cmpBuf[..n] == rest[..n] && Begins(Pending(), rest[n..])
      ensures clean ==> ok == (n <= |old(Pending())|)
    {
      hide DecodeBase.Valid, DecodeBase.Intact, LZ4File.Unread, Clean;
      if n <= dataSize - dataOffset {
        base.Load(0, data[dataOffset..dataOffset + n]);
        dataOffset := dataOffset + n;
        return true;
      }
      ok := TakeCutBody(n);
    }

    /** The first block. */
    method Init() returns (r: Result<seq<byte>, Cause>)
      requires Separate() && base.Valid() && file.Valid()
      modifies Repr()
      ensures stream == old(file.Unread()) && clean == Clean(old(file.fd.schedule)) && lossless == (clean || old(file.nbytes) == -1)
      ensures Gets(0, old(base.plain), r)
      ensures r.Ok? ==> base.Valid() && base.plain == old(base.plain) + r.value
      ensures r.Err? ==> base.Intact()
      ensures r.Ok? ==> Valid() && (r.value == [] ==> taken == 0) && (r.value == [] && lossless ==> stream == [])
      ensures base.seed == old(base.seed) && base.older == old(base.older)
    {
      hide DecodeBase.Valid, DecodeBase.Intact, StepAt, Gets, Valid, Ended, Clean, LZ4File.Unread;
      var ok := ReadFirst();
      if !ok {
        NothingRead(base.plain);
        return Err(IoError);
      }
      r := Next();
    }

    /** The first block of the file. */
    method ReadFirst() returns (ok: bool)
      requires Separate() && base.Valid() && file.Valid()
      modifies this, file, file.fd, data
      ensures stream == old(file.Unread()) && clean == Clean(old(file.fd.schedule)) && lossless == (clean || old(file.nbytes) == -1)
      ensures base.Valid() && (clean ==> ok) && (ok ==> Valid() && taken == 0)
    {
      hide DecodeBase.Valid, DecodeBase.Intact, Kept, Clean, LZ4File.Unread, Begins, Tracks;
      Watch();
      ReadMore();
      if dataSize < 0 {
        return false;
      }
      dataOffset := 0;
      TracksFromTheStart();
      ok := true;
    }

    /** Sets down what the coming run is about. */
    ghost method Watch()
      requires file.Valid()
      modifies this`stream, this`taken, this`clean, this`lossless
      ensures stream == file.Unread() && taken == 0 && clean == Clean(file.fd.schedule) && lossless == (clean || file.nbytes == -1)
      ensures Kept()
    {
      stream, taken, clean := file.Unread(), 0, Clean(file.fd.schedule);
      lossless := clean || file.nbytes == -1;
    }

    lemma TracksFromTheStart()
      requires Reading() && dataOffset == taken == 0 && Begins(data[..dataSize] + file.Unread(), stream)
      ensures Tracks()
    {
      assert stream[0..] == stream;
    }

    lemma NothingRead(given: seq<byte>)
      requires !clean
      ensures Gets(0, given, Err(IoError))
    {
    }

    /** No failed read can have made `r` what it is. */
    ghost predicate Certain(r: Result<seq<byte>, Cause>)
      reads this
    {
      clean || (r.Ok? && (r.value != [] || lossless))
    }

    /**
     * What a call at `pos` of the stream returns: the stream's next step, unless older bytes rescue the record. On a
     * schedule with a failing read it may instead report an error, or, when there is a budget, an early end.
     */
    ghost predicate Gets(pos: nat, given: seq<byte>, r: Result<seq<byte>, Cause>)
      reads this, base
    {
      && pos <= |stream|
      && (Certain(r) || r == Err(BadBlock) ==> Answers(stream, pos, given, base.older, r, taken))
      && (!Certain(r) ==> r == Ok([]) || (r.Err? && r.cause != NotEncoded))
    }

    lemma CertainAnswers(pos: nat, given: seq<byte>, r: Result<seq<byte>, Cause>)
      requires Gets(pos, given, r) && Certain(r)
      ensures pos <= |stream| && Answers(stream, pos, given, base.older, r, taken)
    {
    }

    /**
     * The next block, or nothing at the end. A further call finds the last read spent, and returns nothing again, only
     * when nothing was ever taken; else it takes stale bytes for a record.
     */
    method Next() returns (r: Result<seq<byte>, Cause>)
      requires Valid() || Ended()
      modifies Repr()
      ensures old(Ended()) ==> r != Ok([])
      ensures !old(Ended()) ==> Gets(old(taken), old(base.plain), r)
      ensures r.Ok? ==> base.Valid() && base.plain == old(base.plain) + r.value
      ensures r.Err? ==> base.Intact()
      ensures r.Ok? && !old(Ended()) ==> if r.value == [] && taken != 0 then Ended() else Valid()
      ensures r == Ok([]) && lossless ==> taken == |stream|
      ensures stream == old(stream) && clean == old(clean) && lossless == old(lossless)
      ensures r.Ok? && !old(Ended()) ==> old(taken) <= taken <= |stream| && (r.value == [] <==> taken == old(taken))
      ensures base.seed == old(base.seed) && base.older == old(base.older)
    {
      hide DecodeBase.Valid, DecodeBase.Intact, Decode, BodyAt, DecodedSize, Reading, Tracks;
      if !Ended() {
        NoRescueOfTheRest(stream, taken, base.plain, base.older);
      }
      var record := TakeNext();
      if record.Err? {
        return Err(record.cause);
      }
      if record.value.None? {
        return Ok([]);
      }
      r := base.DecodeRecord(record.value.value);
    }

    /** The next record of the stream, or a stale one when the last read is spent. */
    method TakeNext() returns (r: Result<Option<nat>, Cause>)
      requires Valid() || Ended()
      modifies this`taken, this`dataSize, this`dataOffset, file, file.fd, data, base.cmpBuf
      ensures base.Valid() && base.plain == old(base.plain)
      ensures r.Ok? && r.value.Some? ==> r.value.value <= MAX_COMPRESSED
      ensures r.Err? ==> r.cause == Framing || r.cause == IoError
      ensures old(Ended()) ==> r != Ok(None)
      ensures r.Ok? && !old(Ended()) ==> if r.value == None && taken != 0 then Ended() else Reading() && Tracks()
      ensures r.Ok? && !old(Ended()) ==> old(taken) <= taken <= |stream| && (r.value == None <==> taken == old(taken))
      ensures r == Ok(None) && lossless ==> taken == |stream|
      ensures !old(Ended()) && r.Ok? && r.value.Some? ==>
        && old(taken) < |stream| && BodyAt(stream, old(taken)).Some?
        && var c := BodyAt(stream, old(taken)).value;
          r.value == Some(|c|) && base.cmpBuf[..|c|] == c && taken == old(taken) + 2 + |c|
      ensures !old(Ended()) && clean ==>
        if old(taken) == |stream| then r == Ok(None)
        else if BodyAt(stream, old(taken)).None? then r == Err(Framing)
        else r == Ok(Some(|BodyAt(stream, old(taken)).value|))
    {
      hide DecodeBase.Valid, DecodeBase.Intact, BodyAt;
      if dataOffset > dataSize {
        var stale := TakeStale();
        return if stale.Err? then Err(stale.cause) else Ok(Some(stale.value));
      }
      BodyOfSuffix(stream, taken, Pending());
      r := TakeRecord();
      if r.Ok? && r.value.Some? {
        taken := taken + 2 + r.value.value;
      }
    }

    /** The next record's body into the record buffer, and its length; nothing at the end. */
    method TakeRecord() returns (r: Result<Option<nat>, Cause>)
      requires Separate() && base.Valid() && Reading()
      modifies this`dataSize, this`dataOffset, file, file.fd, data, base.cmpBuf
      ensures base.Valid() && base.plain == old(base.plain)
      ensures r.Err? ==> r.cause == Framing || r.cause == IoError
      ensures r == Ok(None) ==> AtTheEnd(old(dataOffset)) && old(Pending()) == []
      ensures r.Ok? && r.value.Some? ==>
        var rest := old(Pending());
        && Reading() && dataOffset > 0 && rest != [] && BodyAt(rest, 0).Some?
        && var c := BodyAt(rest, 0).value;
          r.value == Some(|c|) && base.cmpBuf[..|c|] == c && Begins(Pending(), rest[2 + |c|..])
      ensures clean ==>
        var rest := old(Pending());
        if rest == [] then r == Ok(None)
        else if BodyAt(rest, 0).None? then r == Err(Framing)
        else r == Ok(Some(|BodyAt(rest, 0).value|))
    {
      hide DecodeBase.Valid, DecodeBase.Intact, BodyAt, Pending, Reading;
      ghost var rest0 := Pending();
      var more := HasMore();
      if more.Err? {
        return Err(more.cause);
      }
      if !more.value {
        return Ok(None);
      }
      ghost var rest := Pending();
      BodyInTwoSteps(rest);
      if rest0 != [] {
        BodyOfSuffix(rest0, 0, rest);
      }
      var length := TakeLength();
      if length.Err? {
        return Err(length.cause);
      }
      var n := length.value;
      if n > base.cmpBuf.Length {
        return Err(Framing);
      }
      var ok := TakeBody(n);
      if !ok {
        return Err(Framing);
      }
      r := Ok(Some(n));
    }

    /** Whether there is more to take, after a further read when the last one is spent. */
    method HasMore() returns (r: Result<bool, Cause>)
      requires Separate() && base.Valid() && Reading()
      modifies this`dataSize, this`dataOffset, file, file.fd, data
      ensures base.Valid() && base.plain == old(base.plain) && base.cmpBuf[..] == old(base.cmpBuf[..])
      ensures r.Err? ==> r.cause == IoError && !clean
      ensures r == Ok(true) ==> Reading() && dataOffset < dataSize && Pending() != [] && Begins(Pending(), old(Pending()))
      ensures r == Ok(false) ==> AtTheEnd(old(dataOffset)) && old(Pending()) == []
    {
      hide DecodeBase.Valid, DecodeBase.Intact, Pending;
      if dataOffset == dataSize {
        PendingIsUnread();
        ReadMore();
        if dataSize < 0 {
          return Err(IoError);
        }
        if dataSize == 0 {
          return Ok(false);
        }
        dataOffset := 0;
        PendingFromTheStart();
      }
      PendingIsNotOver();
      r := Ok(true);
    }

    /** The last read found nothing, and `data_offset` is still what it was before. */
    ghost predicate AtTheEnd(offset: nat)
      reads this, file, file.fd
    {
      && dataSize == 0 && dataOffset == offset && file.Valid()
      && Kept() && file.Unread() == []
    }

    /** A byte of the read buffer, or of whatever memory follows it. */
    method StaleByte(k: nat) returns (b: byte)
      ensures k < data.Length ==> b == data[k]
    {
      b := *;
      if k < data.Length {
        b := data[k];
      }
    }

    /**
     * A record taken after the end: `data_size - data_offset` wraps around to more than any record needs, so that the
     * length and the body are what earlier reads, or other memory, have left behind the spent bytes.
     */
    method TakeStale() returns (r: Result<nat, Cause>)
      requires Separate() && base.Valid() && Spent()
      modifies this`dataOffset, base.cmpBuf
      ensures base.Valid() && base.plain == old(base.plain)
      ensures r.Ok? ==> r.value <= MAX_COMPRESSED
      ensures r.Err? ==> r.cause == Framing
      ensures (dataSize - old(dataOffset)) % 0x1_0000_0000_0000_0000 >= 2 + 65535
      ensures var p := old(dataOffset); p + 1 < data.Length ==>
        var n := U16(data[p], data[p + 1]);
        && r == (if n > MAX_COMPRESSED then Err(Framing) else Ok(n))
        && (n <= MAX_COMPRESSED ==> forall k :: 0 <= k < n && p + 2 + k < data.Length ==> base.cmpBuf[k] == data[p + 2 + k])
      ensures r.Ok? ==> dataOffset == old(dataOffset) + 2 + r.value
    {
      hide DecodeBase.Valid, DecodeBase.Intact;
      WrapsAround(dataOffset);
      var n := StaleLength(dataOffset);
      dataOffset := dataOffset + 2;
      if n > base.cmpBuf.Length {
        return Err(Framing);
      }
      LoadStale(dataOffset, n);
      dataOffset := dataOffset + n;
      r := Ok(n);
    }

    method LoadStale(at: nat, n: nat)
      requires Separate() && base.Valid() && n <= MAX_COMPRESSED
      modifies base.cmpBuf
      ensures base.Valid()
      ensures forall k :: 0 <= k < n && at + k < data.Length ==> base.cmpBuf[k] == data[at + k]
    {
      hide DecodeBase.Valid, DecodeBase.Intact;
      var body := StaleBytes(at, n);
      base.Load(0, body);
      assert base.cmpBuf[..n] == body;
      forall k | 0 <= k < n
        ensures base.cmpBuf[k] == body[k]
      {
        assert base.cmpBuf[..n][k] == body[k];
      }
    }

    method StaleLength(at: nat) returns (n: nat)
      ensures n <= MAX_OFFSET && (at + 1 < data.Length ==> n == U16(data[at], data[at + 1]))
    {
      var lo := StaleByte(at);
      var hi := StaleByte(at + 1);
      n := U16(lo, hi);
    }

    method StaleBytes(at: nat, n: nat) returns (body: seq<byte>)
      ensures |body| == n && forall k :: 0 <= k < n && at + k < data.Length ==> body[k] == data[at + k]
    {
      body := [];
      while |body| < n
        invariant |body| <= n
        invariant forall k :: 0 <= k < |body| && at + k < data.Length ==> body[k] == data[at + k]
      {
        var b := StaleByte(at + |body|);
        body := body + [b];
      }
    }

    lemma PendingIsUnread()
      requires Reading() && dataOffset == dataSize
      ensures Pending() == file.Unread()
    {
    }

    lemma PendingFromTheStart()
      requires Reading() && dataOffset == 0
      ensures Pending() == data[..dataSize] + file.Unread()
    {
    }

    lemma PendingIsNotOver()
      requires Reading() && dataOffset < dataSize
      ensures Pending() != []
    {
    }

    method TakeCutBody(n: nat) returns (ok: bool)
      requires Separate() && base.Valid() && Reading() && dataSize - dataOffset < n <= MAX_COMPRESSED
      modifies this`dataSize, this`dataOffset, file, file.fd, data, base.cmpBuf
      ensures base.Valid() && base.plain == old(base.plain)
      ensures ok ==> Reading() && dataOffset > 0
      ensures ok ==>
        var rest := old(Pending());
        n <= |rest| && base.cmpBuf[..n] == rest[..n] && Begins(Pending(), rest[n..])
      ensures clean ==> ok == (n <= |old(Pending())|)
    {
      hide DecodeBase.Valid, DecodeBase.Intact, LZ4File.Unread, Clean;
      var first := data[dataOffset..dataSize];
      ghost var tail := file.Unread();
      base.Load(0, first);
      dataOffset := n - |first|;
      ok := TakeRest(|first|);
      if ok {
        CutInTwo(first, tail, n);
      }
    }

    /** The other part of a body, `dataOffset` bytes, after the `at` bytes already in the record buffer. */
    method TakeRest(at: nat) returns (ok: bool)
      requires Separate() && base.Valid() && file.Valid()
      requires Kept()
      requires 0 < dataOffset && at + dataOffset <= MAX_COMPRESSED
      modifies this`dataSize, file, file.fd, data, base.cmpBuf
      ensures base.Valid() && base.plain == old(base.plain)
      ensures ok ==> Reading()
      ensures clean ==> ok == (dataOffset <= |old(file.Unread())|)
      ensures ok ==>
        && dataOffset <= |old(file.Unread())|
        && base.cmpBuf[..at + dataOffset] == old(base.cmpBuf[..at]) + old(file.Unread())[..dataOffset]
        && Begins(Pending(), old(file.Unread())[dataOffset..])
    {
      hide DecodeBase.Valid, DecodeBase.Intact, LZ4File.Unread, Clean;
      ghost var tail := file.Unread();
      ReadMore();
      if dataSize < dataOffset {
        return false;
      }
      Skip(data[..dataSize], file.Unread(), tail, dataOffset);
      base.Load(at, data[..dataOffset]);
      ok := true;
    }

    lemma Skip(read: seq<byte>, now: seq<byte>, rest: seq<byte>, n: nat)
      requires n <= |read| && Begins(read + now, rest)
      ensures n <= |rest| && read[..n] == rest[..n] && Begins(read[n..] + now, rest[n..])
    {
      assert read + now == read[..n] + (read[n..] + now);
    }
  }

  /** The record that lies next in a beginning of the rest of the stream is the stream's. */
  lemma BodyOfSuffix(stream: seq<byte>, pos: nat, rest: seq<byte>)
    requires pos <= |stream| && rest <= stream[pos..]
    ensures rest != [] && BodyAt(rest, 0).Some? ==>
      && BodyAt(stream, pos) == BodyAt(rest, 0)
      && var n := 2 + |BodyAt(rest, 0).value|; pos + n <= |stream| && rest[n..] <= stream[pos + n..]
    ensures rest == stream[pos..] && rest != [] ==>
      && BodyAt(stream, pos) == BodyAt(rest, 0)
      && (BodyAt(rest, 0).Some? ==> var n := 2 + |BodyAt(rest, 0).value|; rest[n..] == stream[pos + n..])
  {
    if rest != [] && BodyAt(rest, 0).Some? {
      var n := |BodyAt(rest, 0).value|;
      assert rest[2..2 + n] == stream[pos..][2..2 + n] == stream[pos + 2..pos + 2 + n];
    }
  }

  /** A record read in two steps: its length, then that many bytes of what follows. */
  lemma BodyInTwoSteps(rest: seq<byte>)
    requires rest != []
    ensures |rest| < 2 ==> BodyAt(rest, 0) == None
    ensures |rest| >= 2 ==>
      var n, after := U16(rest[0], rest[1]), rest[2..];
      if n > MAX_COMPRESSED || n > |after| then BodyAt(rest, 0) == None
      else BodyAt(rest, 0) == Some(after[..n]) && after[n..] == rest[2 + n..]
  {
    if |rest| >= 2 && U16(rest[0], rest[1]) <= |rest| - 2 {
      assert rest[2..2 + U16(rest[0], rest[1])] == rest[2..][..U16(rest[0], rest[1])];
    }
  }

  lemma WrapsAround(offset: nat)
    requires 0 < offset <= MAX_RECORD
    ensures (0 - offset) % SIZE_RANGE == SIZE_RANGE - offset >= 2 + MAX_OFFSET
  {
  }

  lemma CutInTwo(first: seq<byte>, tail: seq<byte>, n: nat)
    requires |first| <= n <= |first| + |tail|
    ensures (first + tail)[..n] == first + tail[..n - |first|]
    ensures (first + tail)[n..] == tail[n - |first|..]
  {
  }

  /**
   * The driving loop on a decompressor that has just been set up or reset; `out` is what it has appended when it ends or
   * throws. For every schedule of short reads and interruptions on which no read fails it ends as the stream in the file
   * does, unless older bytes rescue a record. When reads do fail, what it appends is still a beginning of that, and an
   * end it reports is the stream's when there is no budget.
   */
  method DecompressAllOf(d: LZ4DecompressFile) returns (r: Result<seq<byte>, Cause>, out: seq<byte>, digest: word)
    requires d.Separate() && d.base.Valid() && d.file.Valid() && d.base.plain == []
    modifies d.Repr()
    ensures d.stream == old(d.file.Unread()) && d.clean == Clean(old(d.file.fd.schedule))
    ensures d.lossless == (d.clean || old(d.file.nbytes) == -1)
    ensures ComesTo(d.stream, old(d.base.older), d.clean || (r.Ok? && d.lossless), r, out)
    ensures r.Ok? ==> digest == XXH32(old(d.base.seed), out)
    ensures r.Ok? && d.lossless ==> if d.stream == [] then d.Valid() else d.Ended()
    ensures d.base.Intact()
  {
    hide ComesTo, Answers, RunsAs, Rescued, RescuedFrom, Decoded, XXH32, DecodeBase.Valid, DecodeBase.Intact;
    hide LZ4File.Unread, Clean, LZ4DecompressFile.Valid, LZ4DecompressFile.Ended, LZ4DecompressFile.Gets;
    digest := 0;
    ghost var data, older := d.file.Unread(), d.base.older;
    NothingAppended(data);
    ghost var rescued := Rescued(data, 0, [], older);
    var it := d.Init();
    if d.Certain(it) {
      d.CertainAnswers(0, [], it);
      RunBegins(data, older, it, d.taken);
    }
    out := [];
    while it.Ok? && it.value != []
      invariant d.stream == data && d.clean == Clean(old(d.file.fd.schedule)) && d.lossless == (d.clean || old(d.file.nbytes) == -1)
      invariant d.base.seed == old(d.base.seed) && d.base.older == older
      invariant if it.Ok? then d.base.Valid() && d.base.plain == out + it.value else d.base.Intact()
      invariant it.Ok? ==> if it.value == [] && d.taken != 0 then d.Ended() else d.Valid()
      invariant it.Ok? ==> d.taken <= |data| && (it.value == [] && d.lossless ==> d.taken == |data|)
      invariant d.Certain(it) ==> RunsAs(data, d.taken, out, it, older, rescued)
      invariant !RescuedFrom(data, 0, [], older) ==> out <= Decoded(data).bytes
      decreases if it.Err? then 0 else |data| - d.taken + (if it.value == [] then 1 else 2)
    {
      ghost var pos, before, last := d.taken, out, it;
      RunIsOnTheWay(data, pos, before, last, older, rescued);
      out := out + it.value;
      it := d.Next();
      if d.Certain(it) {
        d.CertainAnswers(pos, out, it);
        RunGoesOn(data, pos, before, last, older, rescued, it, d.taken);
      }
      rescued := rescued || Rescued(data, pos, out, older);
    }
    RunEnds(data, d.taken, out, it, older, rescued, d.Certain(it));
    if it.Err? {
      return Err(it.cause), out, digest;
    }
    assert out + it.value == out;
    r := Ok(out);
    digest := d.base.GetDigest();
  }

  /** Whatever the reads do short of failing, a file decodes as the same bytes in memory do. */
  method FileDecodesAsData(content: seq<byte>, schedule: seq<Event>, seed: word)
    returns (fromFile: Result<seq<byte>, Cause>, fromData: Result<seq<byte>, Cause>, fileDigest: word, dataDigest: word)
    requires Clean(schedule)
    ensures fromFile == fromData && (fromFile.Ok? ==> fileDigest == dataDigest)
  {
    hide DecodeBase.Valid, DecodeBase.Intact, DecodeStream, XXH32;
    var fd := new Descriptor(content, schedule);
    var file := new LZ4DecompressFile(fd, -1, seed);
    assert file.file.Unread() == content;
    var out;
    fromFile, out, fileDigest := DecompressAllOf(file);
    var d := new LZ4DecompressData(content, seed);
    fromData, out, dataDigest := DecompressAll(d);
  }

  /**
   * A call after the one that reported the end: it reports the end again if and only if the file held nothing within
   * the budget.
   */
  method CallPastTheEnd(fd: Descriptor, nbytes: int, seed: word)
    returns (whole: Result<seq<byte>, Cause>, again: Result<seq<byte>, Cause>, ghost stream: seq<byte>)
    requires fd.Valid() && -1 <= nbytes && Clean(fd.schedule)
    modifies fd
    ensures stream == WithinBudget(fd.content[old(fd.pos)..], nbytes)
    ensures whole == DecodeStream(stream)
    ensures whole.Ok? ==> (again == Ok([]) <==> stream == [])
  {
    hide DecodeBase.Valid, DecodeBase.Intact, DecodeStream, XXH32;
    var d := new LZ4DecompressFile(fd, nbytes, seed);
    stream := d.file.Unread();
    var out, digest;
    whole, out, digest := DecompressAllOf(d);
    again := Ok([]);
    if whole.Ok? {
      again := d.Next();
    }
  }

  /** A file of one record: the end is reported once, and not again. */
  method EndReportedOnce(schedule: seq<Event>, seed: word) returns (whole: Result<seq<byte>, Cause>, again: Result<seq<byte>, Cause>)
    requires Clean(schedule)
    ensures whole == Ok([7]) && again != Ok([])
  {
    hide DecodeStream;
    OneRecordDecodes();
    var fd := new Descriptor([2, 0, 16, 7], schedule);
    ghost var stream;
    whole, again, stream := CallPastTheEnd(fd, -1, seed);
    assert stream == fd.content;
  }
}
