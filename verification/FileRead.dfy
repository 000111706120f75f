/** Reading a file through a descriptor that may deliver less than asked for, be interrupted, or fail. */
module FileRead {
  import opened Bytes

  /** What the next `::read` does: an EINTR, another error, or at most `limit + 1` bytes. */
  datatype Event = Interrupted | Failed | Delivers(limit: nat)

  /** A schedule on which no read fails. An interrupted read is not a failed one. */
  ghost predicate Clean(schedule: seq<Event>) {
    forall k :: 0 <= k < |schedule| ==> !schedule[k].Failed?
  }

  /** A schedule on which the next read, once no longer interrupted, fails. */
  ghost predicate FailsFirst(schedule: seq<Event>) {
    schedule != [] && (schedule[0].Failed? || (schedule[0].Interrupted? && FailsFirst(schedule[1..])))
  }

  lemma {:induction false} CleanDoesNotFail(schedule: seq<Event>)
    requires Clean(schedule)
    ensures !FailsFirst(schedule)
  {
    if schedule == [] {
    } else {
      CleanDoesNotFail(schedule[1..]);
    }
  }

  class Descriptor {
    const content: seq<byte>
    var pos: nat
    var schedule: seq<Event>   // what the coming reads do; after that they deliver all they are asked for

    ghost predicate Valid()
      reads this
    {
      pos <= |content|
    }

    ghost function Rest(): seq<byte>
      requires Valid()
      reads this
    {
      content[pos..]
    }

    constructor (content: seq<byte>, schedule: seq<Event>)
      ensures Valid() && this.content == content && pos == 0 && this.schedule == schedule
    {
      this.content, pos, this.schedule := content, 0, schedule;
    }

    /** The bytes from `from` on are now at `dst[at..]`. */
    ghost predicate Delivered(dst: array<byte>, at: nat, from: nat, n: nat)
      reads dst
    {
      at + n <= dst.Length && from + n <= |content| && forall k :: at <= k < at + n ==> dst[k] == content[from + (k - at)]
    }

    /** `::read`: -1, with EINTR or not, 0 at the end of the file only, or how many bytes were delivered. */
    method SysRead(dst: array<byte>, at: nat, nbyte: nat) returns (c: int, interrupted: bool)
      requires Valid() && 0 < nbyte && at + nbyte <= dst.Length
      modifies this, dst
      ensures Valid() && -1 <= c <= nbyte
      ensures schedule == if old(schedule) == [] then [] else old(schedule)[1..]
      ensures c == -1 ==> pos == old(pos) && old(schedule) != [] && old(schedule)[0] == if interrupted then Interrupted else Failed
      ensures c >= 0 ==> old(schedule) == [] || old(schedule)[0].Delivers?
      ensures c >= 0 ==> pos == old(pos) + c && (c == 0 <==> old(pos) == |content|) && Delivered(dst, at, old(pos), c)
      ensures forall k :: 0 <= k < dst.Length && !(at <= k < at + c) ==> dst[k] == old(dst[k])
    {
      interrupted := false;
      var most := nbyte;
      if schedule != [] {
        var e := schedule[0];
        schedule := schedule[1..];
        if !e.Delivers? {
          return -1, e.Interrupted?;
        }
        most := Min(nbyte, e.limit + 1);
      }
      c := Min(most, |content| - pos);
      forall k | 0 <= k < c {
        dst[at + k] := content[pos + k];
      }
      pos := pos + c;
    }

    /** `compressors::detail::read`: retries on EINTR and loops over short reads, so that a full block is returned. */
    method Read(dst: array<byte>, at: nat, nbyte: nat) returns (r: int)
      requires Valid() && at + nbyte <= dst.Length
      modifies this, dst
      ensures Valid() && -1 <= r <= nbyte
      ensures r == -1 ==> pos == old(pos)
      ensures r >= 0 ==> pos == old(pos) + r && Delivered(dst, at, old(pos), r)
      ensures r == -1 <==> nbyte > 0 && FailsFirst(old(schedule))
      ensures r == 0 ==> nbyte == 0 || old(pos) == |content|
      ensures Clean(old(schedule)) ==> r == Min(nbyte, |content| - old(pos)) && Clean(schedule)
      ensures forall k :: 0 <= k < dst.Length && !(at <= k < at + r) ==> dst[k] == old(dst[k])
    {
      var p: nat, left: nat := at, nbyte;
      while left != 0
        invariant Valid() && at <= p && p + left == at + nbyte && pos == old(pos) + (p - at)
        invariant Delivered(dst, at, old(pos), p - at)
        invariant Clean(old(schedule)) ==> Clean(schedule)
        invariant if p == at then FailsFirst(schedule) == FailsFirst(old(schedule)) else !FailsFirst(old(schedule))
        invariant forall k :: 0 <= k < dst.Length && !(at <= k < p) ==> dst[k] == old(dst[k])
        decreases |schedule|, left
      {
        var c, interrupted := SysRead(dst, p, left);
        if c == -1 {
          if interrupted {
            continue;
          }
          return if p == at then -1 else p - at;
        }
        if c == 0 {
          break;
        }
        p := p + c;
        if c == left {
          break;
        }
        left := left - c;
      }
      r := p - at;
    }
  }
}
