/** What a stream comes to as far as it goes: all its blocks up to the end or the first error, and that error. */
module Lz4Outcomes {
  import opened Bytes
  import opened Lz4Block
  import opened Lz4Frames
  import opened Lz4Ring

  datatype Outcome = Outcome(bytes: seq<byte>, fault: Option<Cause>)

  function DecodedFrom(data: seq<byte>, pos: nat, history: seq<byte>): Outcome
    requires pos <= |data|
    decreases |data| - pos
  {
    match StepAt(data, pos, history)
    case End => Outcome(history, None)
    case Throw(cause) => Outcome(history, Some(cause))
    case Block(b, next) => DecodedFrom(data, next, history + b)
  }

  /** The outcome of decompressing `data`. */
  function Decoded(data: seq<byte>): Outcome {
    DecodedFrom(data, 0, [])
  }

  function EmittedFrom(enc: Encoder, x: seq<byte>, k: nat, out: seq<byte>): Outcome
    requires k <= Blocks(|x|)
    decreases Blocks(|x|) - k
  {
    if k == Blocks(|x|) then Outcome(out, None)
    else
      match Record(enc, x, k)
      case None => Outcome(out, Some(NotEncoded))
      case Some(r) => EmittedFrom(enc, x, k + 1, out + r)
  }

  /** The outcome of compressing `x`. */
  function Emitted(enc: Encoder, x: seq<byte>): Outcome {
    EmittedFrom(enc, x, 0, [])
  }

  /** It is the stream's result when there is no error, and names the error when there is one. */
  lemma {:induction false} DecodedIsTheStream(data: seq<byte>, pos: nat, history: seq<byte>)
    requires pos <= |data|
    ensures var whole := DecodedFrom(data, pos, history);
      && history <= whole.bytes
      && DecodeFrom(data, pos, history) == if whole.fault.None? then Ok(whole.bytes) else Err(whole.fault.value)
    decreases |data| - pos
  {
    hide Decode, BodyAt;
    var step := StepAt(data, pos, history);
    if !step.Block? {
    } else {
      DecodedIsTheStream(data, step.next, history + step.bytes);
    }
  }

  lemma {:induction false} EmittedIsTheStream(enc: Encoder, x: seq<byte>, k: nat, out: seq<byte>)
    requires k <= Blocks(|x|) && Records(enc, x, k) == Some(out)
    ensures var whole := EmittedFrom(enc, x, k, out);
      && out <= whole.bytes
      && CompressStream(enc, x) == if whole.fault.None? then Some(whole.bytes) else None
    decreases Blocks(|x|) - k
  {
    hide Record;
    if k == Blocks(|x|) {
    } else if Record(enc, x, k).None? {
      RecordFails(enc, x, k);
    } else {
      EmittedIsTheStream(enc, x, k + 1, out + Record(enc, x, k).value);
    }
  }

  // ----- call by call: what comes out, and where its blocks end

  /** Where the blocks decoded from `pos` on end, counted in bytes of output. */
  function EndsFrom(data: seq<byte>, pos: nat, history: seq<byte>): (ends: set<nat>)
    requires pos <= |data|
    ensures forall e <- ends :: e > |history|
    decreases |data| - pos
  {
    match StepAt(data, pos, history)
    case End => {}
    case Throw(_) => {}
    case Block(b, next) => {|history| + |b|} + EndsFrom(data, next, history + b)
  }

  /** Where the records of `x` from `k` on end, after `n` bytes. */
  function RecordEnds(enc: Encoder, x: seq<byte>, k: nat, n: nat): (ends: set<nat>)
    requires k <= Blocks(|x|)
    ensures forall e <- ends :: e > n
    decreases Blocks(|x|) - k
  {
    if k == Blocks(|x|) then {}
    else
      match Record(enc, x, k)
      case None => {}
      case Some(r) => {n + |r|} + RecordEnds(enc, x, k + 1, n + |r|)
  }

  /** A stream's outcome, and where its blocks end. */
  datatype Course = Course(bytes: seq<byte>, fault: Option<Cause>, ends: set<nat>) {
    predicate Is(bytes: seq<byte>, fault: Option<Cause>) {
      this.bytes == bytes && this.fault == fault
    }

    /** It goes on like this after `given`. */
    ghost predicate GoesOn(given: seq<byte>, rest: Outcome, restEnds: set<nat>) {
      Is(rest.bytes, rest.fault) && forall e :: e > |given| ==> (e in restEnds <==> e in ends)
    }

    /** The block after `given` is `b`, neither more nor less. */
    ghost predicate IsNext(given: seq<byte>, b: seq<byte>) {
      given + b <= bytes && |given + b| in ends && forall e :: |given| < e < |given + b| ==> e !in ends
    }

    /** A piece from `from` to `to` runs as far as `size` allows, but not beyond the end of a block. */
    ghost predicate Reaches(from: nat, to: nat, size: nat) {
      && from <= to <= from + size && (from < to < from + size ==> to in ends)
      && forall e :: from < e < to ==> e !in ends
    }
  }

  /** The course of decompressing `data`. */
  function Decoding(data: seq<byte>): Course {
    Course(Decoded(data).bytes, Decoded(data).fault, EndsFrom(data, 0, []))
  }

  /** The course of compressing `x`. */
  function Encoding(enc: Encoder, x: seq<byte>): Course {
    Course(Emitted(enc, x).bytes, Emitted(enc, x).fault, RecordEnds(enc, x, 0, 0))
  }

  lemma DecodingBegins(data: seq<byte>)
    ensures Decoding(data).GoesOn([], DecodedFrom(data, 0, []), EndsFrom(data, 0, []))
  {
  }

  /** What one call on a stream returns, after `given`: the next block, and nothing only at the end. */
  ghost predicate Gives(r: Result<seq<byte>, Cause>, given: seq<byte>, whole: Course) {
    if r.Err? then whole.Is(given, Some(r.cause))
    else if r.value == [] then whole.Is(given, None)
    else whole.IsNext(given, r.value)
  }

  /** What a decompressor's call returns for a step of the stream. */
  function Returned(step: Step): Result<seq<byte>, Cause> {
    match step
    case End => Ok([])
    case Throw(cause) => Err(cause)
    case Block(b, _) => Ok(b)
  }

  /** What a compressor's call returns for a record, or for the encoder's failure. */
  function Piece(record: Option<seq<byte>>): Result<seq<byte>, Cause> {
    match record
    case None => Err(NotEncoded)
    case Some(r) => Ok(r)
  }

  lemma DecodingStep(data: seq<byte>, pos: nat, given: seq<byte>, whole: Course)
    requires pos <= |data| && whole.GoesOn(given, DecodedFrom(data, pos, given), EndsFrom(data, pos, given))
    ensures var step := StepAt(data, pos, given);
      && Gives(Returned(step), given, whole)
      && (step.Block? ==>
            var more := given + step.bytes; whole.GoesOn(more, DecodedFrom(data, step.next, more), EndsFrom(data, step.next, more)))
  {
    hide BodyAt, Decode;
    var step := StepAt(data, pos, given);
    if step.Block? {
      DecodedIsTheStream(data, step.next, given + step.bytes);
      assert |given + step.bytes| in EndsFrom(data, pos, given);
    }
  }

  lemma EmittingStep(enc: Encoder, x: seq<byte>, k: nat, given: seq<byte>, whole: Course)
    requires k <= Blocks(|x|) && Records(enc, x, k) == Some(given)
    requires whole.GoesOn(given, EmittedFrom(enc, x, k, given), RecordEnds(enc, x, k, |given|))
    ensures var piece := if k == Blocks(|x|) then Some([]) else Record(enc, x, k);
      && Gives(Piece(piece), given, whole)
      && (k < Blocks(|x|) && piece.Some? ==>
            var more := given + piece.value;
            && Records(enc, x, k + 1) == Some(more)
            && whole.GoesOn(more, EmittedFrom(enc, x, k + 1, more), RecordEnds(enc, x, k + 1, |more|)))
  {
    hide Record;
    if k < Blocks(|x|) && Record(enc, x, k).Some? {
      var more := given + Record(enc, x, k).value;
      EmittedIsTheStream(enc, x, k + 1, more);
      assert |more| in RecordEnds(enc, x, k, |given|);
    }
  }

  // ----- a decoder that can reach older bytes

  /** The record at `pos` is refused after `history`, but fits when `older` more bytes can be reached. */
  predicate Rescued(data: seq<byte>, pos: nat, history: seq<byte>, older: nat)
    requires pos <= |data|
  {
    StepAt(data, pos, history) == Throw(BadBlock) && Fits(|history| + older, BodyAt(data, pos).value, BLOCK_SIZE)
  }

  /** That happens to the record at which decoding from `pos` on fails. */
  predicate RescuedFrom(data: seq<byte>, pos: nat, history: seq<byte>, older: nat)
    requires pos <= |data|
    decreases |data| - pos
  {
    match StepAt(data, pos, history)
    case End => false
    case Throw(_) => Rescued(data, pos, history, older)
    case Block(b, next) => RescuedFrom(data, next, history + b, older)
  }

  /** With nothing older, or a whole window of newer bytes, no record is rescued. */
  lemma NothingToRescue(data: seq<byte>, pos: nat, history: seq<byte>, older: nat)
    requires pos <= |data| && (older == 0 || |history| >= MAX_OFFSET)
    ensures !Rescued(data, pos, history, older)
  {
    hide DecodedSize, Decode, BodyAt;
    if StepAt(data, pos, history) == Throw(BadBlock) {
      var c := BodyAt(data, pos).value;
      DecodeSize(history, c, BLOCK_SIZE);
      SameReach(|history|, |history| + older, c);
    }
  }

  lemma SameReach(a: nat, b: nat, c: seq<byte>)
    requires a == b || MAX_OFFSET <= a <= b
    ensures DecodedSize(a, c, BLOCK_SIZE) == DecodedSize(b, c, BLOCK_SIZE)
  {
    hide SizeFrom;
    if a < b {
      MoreReach(a, b, c, 0, BLOCK_SIZE);
    }
  }

  /** A fresh decoder is never rescued, and neither is a stream it accepts, or one whose framing ends badly. */
  lemma {:induction false} OnlyRefusalsAreRescued(data: seq<byte>, pos: nat, history: seq<byte>, older: nat)
    requires pos <= |data|
    ensures RescuedFrom(data, pos, history, older) ==> older > 0 && DecodedFrom(data, pos, history).fault == Some(BadBlock)
    decreases |data| - pos
  {
    hide StepAt, Rescued;
    if older == 0 {
      NothingToRescue(data, pos, history, older);
    }
    var step := StepAt(data, pos, history);
    if Rescued(data, pos, history, older) {
      RescuedIsRefused(data, pos, history, older);
    } else if step.Block? {
      OnlyRefusalsAreRescued(data, step.next, history + step.bytes, older);
    }
  }

  lemma RescuedIsRefused(data: seq<byte>, pos: nat, history: seq<byte>, older: nat)
    requires pos <= |data| && Rescued(data, pos, history, older)
    ensures StepAt(data, pos, history) == Throw(BadBlock)
  {
  }

  /**
   * What a call on the record at `pos` returns when `older` bytes can be reached, and where it leaves the stream: the
   * stream's step, unless the record is rescued. Then it is some block.
   */
  ghost predicate Answers(data: seq<byte>, pos: nat, given: seq<byte>, older: nat, r: Result<seq<byte>, Cause>, after: nat)
    requires pos <= |data|
  {
    var step := StepAt(data, pos, given);
    if Rescued(data, pos, given, older) then r.Ok? && r.value != []
    else r == Returned(step) && (step.Block? ==> after == step.next)
  }

  /** A run on which no record is rescued is a fresh one's, call by call. */
  lemma NotRescuedStep(data: seq<byte>, pos: nat, given: seq<byte>, older: nat)
    requires pos <= |data| && !RescuedFrom(data, pos, given, older)
    ensures !Rescued(data, pos, given, older)
    ensures var step := StepAt(data, pos, given); step.Block? ==> !RescuedFrom(data, step.next, given + step.bytes, older)
  {
    hide StepAt, Rescued;
    if Rescued(data, pos, given, older) {
      RescuedIsRefused(data, pos, given, older);
    }
  }

  /** Reaching older bytes makes a difference to a call if and only if its record is rescued. */
  lemma AgreesUnlessRescued(data: seq<byte>, pos: nat, given: seq<byte>, older: nat, r: Result<seq<byte>, Cause>, after: nat)
    requires pos <= |data| && Answers(data, pos, given, older, r, after)
    ensures r == Returned(StepAt(data, pos, given)) <==> !Rescued(data, pos, given, older)
  {
    hide BodyAt, Decode, Fits;
  }

  /** A first record that reaches one byte behind the beginning is rescued by one older byte. */
  lemma EarlyMatchIsRescued()
    ensures Rescued([9, 0] + EARLY_MATCH, 0, [], 1) && RescuedFrom([9, 0] + EARLY_MATCH, 0, [], 1)
    ensures Decoded([9, 0] + EARLY_MATCH) == Outcome([], Some(BadBlock))
  {
    hide Decode, DecodedSize, BodyAt;
    EarlyMatchDecodes();
    OlderBytesCanRescueAMatch();
  }

  // ----- whole runs of such a decoder

  /** What a run has come to that returned `r` at the end and `out` before. */
  function EndedWith(r: Result<seq<byte>, Cause>, out: seq<byte>): Outcome {
    Outcome(out, if r.Ok? then None else Some(r.cause))
  }

  /**
   * A run that has appended `out`, has been returned `it` since, and stands at `pos`, is on the way to what a fresh one
   * comes to, unless a record has been rescued: then it is already past that.
   */
  ghost predicate RunsAs(data: seq<byte>, pos: nat, out: seq<byte>, it: Result<seq<byte>, Cause>, older: nat, rescued: bool) {
    var whole, rescue := Decoded(data), RescuedFrom(data, 0, [], older);
    if rescued then rescue && |whole.bytes| < |out| + (if it.Ok? then |it.value| else 0)
    else if it.Ok? && it.value != [] then
      && pos <= |data| && DecodedFrom(data, pos, out + it.value) == whole
      && RescuedFrom(data, pos, out + it.value, older) == rescue
    else whole == EndedWith(it, out) && !rescue
  }

  lemma RunBegins(data: seq<byte>, older: nat, it: Result<seq<byte>, Cause>, pos: nat)
    requires Answers(data, 0, [], older, it, pos)
    ensures RunsAs(data, pos, [], it, older, Rescued(data, 0, [], older))
  {
    hide StepAt, Rescued;
    if Rescued(data, 0, [], older) {
      RescuedIsRefused(data, 0, [], older);
    } else if it.Ok? && it.value != [] {
      assert [] + it.value == it.value;
    }
  }

  lemma RunGoesOn(data: seq<byte>, pos: nat, out: seq<byte>, it: Result<seq<byte>, Cause>, older: nat, rescued: bool,
                  next: Result<seq<byte>, Cause>, after: nat)
    requires RunsAs(data, pos, out, it, older, rescued) && it.Ok? && it.value != [] && pos <= |data|
    requires !rescued ==> Answers(data, pos, out + it.value, older, next, after)
    ensures RunsAs(data, after, out + it.value, next, older, rescued || Rescued(data, pos, out + it.value, older))
  {
    hide StepAt, Rescued;
    if !rescued && Rescued(data, pos, out + it.value, older) {
      RescuedIsRefused(data, pos, out + it.value, older);
    }
  }

  /** What it has appended and been returned so far is a beginning of what a fresh one appends. */
  lemma RunIsOnTheWay(data: seq<byte>, pos: nat, out: seq<byte>, it: Result<seq<byte>, Cause>, older: nat, rescued: bool)
    requires RunsAs(data, pos, out, it, older, rescued) && it.Ok? && it.value != []
    ensures !RescuedFrom(data, 0, [], older) ==> out + it.value <= Decoded(data).bytes
  {
    hide RescuedFrom, DecodeFrom, StepAt;
    if !rescued {
      DecodedIsTheStream(data, pos, out + it.value);
    }
  }

  /**
   * What a whole run on `data` comes to, with `older` bytes to reach besides: what a fresh one comes to if and only if no
   * record is rescued. If a failed read may have made it end where it does, it has still appended a beginning of that.
   */
  ghost predicate ComesTo(data: seq<byte>, older: nat, certain: bool, r: Result<seq<byte>, Cause>, out: seq<byte>) {
    var rescue := RescuedFrom(data, 0, [], older);
    && (certain ==> (EndedWith(r, out) == Decoded(data) <==> !rescue))
    && (certain && !rescue ==> r == DecodeStream(data))
    && (!rescue ==> out <= Decoded(data).bytes)
    && (rescue ==> older > 0 && DecodeStream(data) == Err(BadBlock))
    && (r.Ok? ==> r.value == out)
  }

  /** Every stream a fresh one accepts comes to the same, and so does one whose framing ends badly. */
  lemma AcceptedAsByAFreshOne(data: seq<byte>, older: nat, r: Result<seq<byte>, Cause>, out: seq<byte>)
    requires ComesTo(data, older, true, r, out)
    ensures DecodeStream(data) != Err(BadBlock) || older == 0 ==> r == DecodeStream(data)
    ensures r.Ok? ==> r.value == out
  {
    hide RescuedFrom, DecodeFrom;
  }

  lemma RunEnds(data: seq<byte>, pos: nat, out: seq<byte>, it: Result<seq<byte>, Cause>, older: nat, rescued: bool, certain: bool)
    requires certain ==> RunsAs(data, pos, out, it, older, rescued) && (it.Ok? ==> it.value == [])
    requires !RescuedFrom(data, 0, [], older) ==> out <= Decoded(data).bytes
    ensures ComesTo(data, older, certain, if it.Ok? then Ok(out) else it, out)
  {
    hide DecodedFrom, DecodeFrom, RescuedFrom;
    DecodedIsTheStream(data, 0, []);
    OnlyRefusalsAreRescued(data, 0, [], older);
  }

  lemma NothingAppended(data: seq<byte>)
    ensures [] <= Decoded(data).bytes
  {
  }
}
