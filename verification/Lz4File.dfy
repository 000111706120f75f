/** The part of a file an LZ4 stream is read from, a block at a time and within a budget. */
module Lz4File {
  import opened Bytes
  import opened FileRead

  /** As much of what is left of a file as the budget allows. */
  function WithinBudget(rest: seq<byte>, nbytes: int): (r: seq<byte>)
    requires -1 <= nbytes
    ensures r <= rest && (nbytes == -1 ==> r == rest)
  {
    if nbytes == -1 then rest else rest[..Min(nbytes, |rest|)]
  }

  /** A read that asked for `size` bytes and delivered `n` leaves a beginning of what there was, or all of it. */
  lemma ReadLeaves(rest: seq<byte>, nbytes: int, size: nat, n: nat)
    requires -1 <= nbytes && n <= size && n <= |rest| && (nbytes == -1 || size <= nbytes)
    ensures var before, after := WithinBudget(rest, nbytes), WithinBudget(rest[n..], if nbytes == -1 then -1 else nbytes - size);
      && n <= |before| && rest[..n] == before[..n] && rest[..n] + after <= before
      && (nbytes == -1 || n == size || n == |rest| ==> rest[..n] + after == before && after == before[n..])
  {
  }

  lemma EmptyBudget(rest: seq<byte>, nbytes: int)
    requires -1 <= nbytes
    ensures |WithinBudget(rest, nbytes)| == if nbytes == -1 then |rest| else Min(nbytes, |rest|)
    ensures forall less :: -1 < less <= nbytes ==> WithinBudget(rest, less) <= WithinBudget(rest, nbytes)
  {
  }

  class LZ4File {
    const fd: Descriptor
    const blockSize: nat
    var nbytes: int   // how much may still be asked for; -1 for no limit

    ghost predicate Valid()
      reads this, fd
    {
      fd.Valid() && -1 <= nbytes
    }

    /** What a run of reads without an error still delivers: the file's rest, as far as the budget goes. */
    ghost function Unread(): seq<byte>
      requires Valid()
      reads this, fd
    {
      WithinBudget(fd.content[fd.pos..], nbytes)
    }

    constructor (fd: Descriptor, blockSize: nat, nbytes: int)
      requires fd.Valid() && -1 <= nbytes
      ensures Valid() && this.fd == fd && this.blockSize == blockSize && this.nbytes == nbytes
    {
      this.fd, this.blockSize, this.nbytes := fd, blockSize, nbytes;
    }

    method GetReadSize() returns (size: nat)
      requires Valid()
      modifies this
      ensures Valid() && size == if old(nbytes) == -1 then blockSize else Min(old(nbytes), blockSize)
      ensures nbytes == if old(nbytes) == -1 then -1 else old(nbytes) - size
    {
      if nbytes == -1 {
        return blockSize;
      }
      size := if nbytes > blockSize then blockSize else nbytes;
      nbytes := nbytes - size;
    }

    /** One block into `dst[at..]`: the next bytes, as many as the block holds unless the end or the budget comes first. */
    method ReadBlock(dst: array<byte>, at: nat) returns (r: int)
      requires Valid() && at + blockSize <= dst.Length
      modifies this, fd, dst
      ensures Valid() && -1 <= r <= blockSize
      ensures r >= 0 ==> r <= |old(Unread())| && dst[at..at + r] == old(Unread())[..r] && fd.pos == old(fd.pos) + r
      ensures r >= 0 ==> dst[at..at + r] + Unread() <= old(Unread())
      ensures r >= 0 && nbytes == -1 ==> dst[at..at + r] + Unread() == old(Unread())
      ensures r == 0 < blockSize ==> old(Unread()) == []
      ensures r == -1 ==> fd.pos == old(fd.pos) && Unread() <= old(Unread())
      ensures nbytes == if old(nbytes) == -1 then -1 else old(nbytes) - Min(old(nbytes), blockSize)
      ensures blockSize > 0 ==> (r <= 0 <==> old(Unread()) == [] || FailsFirst(old(fd.schedule)))
      ensures Clean(old(fd.schedule)) ==>
        && r == Min(blockSize, |old(Unread())|) && dst[at..at + r] == old(Unread())[..r] && Unread() == old(Unread())[r..]
        && Clean(fd.schedule)
      ensures forall k :: 0 <= k < dst.Length && !(at <= k < at + r) ==> dst[k] == old(dst[k])
    {
      hide WithinBudget, Clean, FailsFirst;
      ghost var rest, budget := fd.content[fd.pos..], nbytes;
      var size := GetReadSize();
      r := fd.Read(dst, at, size);
      if r >= 0 {
        assert dst[at..at + r] == rest[..r];
        assert fd.content[fd.pos..] == rest[r..];
        ReadLeaves(rest, budget, size, r);
      }
      EmptyBudget(rest, budget);
      EmptyBudget(rest, nbytes);
    }
  }
}
