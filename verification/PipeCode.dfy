/** The loops of pipewrite and piperead between two sleeps (kernel/pipe.c), on the buffer in the pipe page. */
module PipeCode {
  import opened Blocks
  import opened Values
  import opened Pipe

  /** How a stretch of pipewrite under the lock ends. */
  datatype WriteEnd = Done | MustSleep | Abort

  class Buffer {
    const data: array<byte>
    var nread: nat
    var nwrite: nat
    var readopen: bool
    var writeopen: bool

    ghost function R(): Ring
      reads this, data
    {
      Ring(data[..], nread, nwrite)
    }

    /** pipealloc */
    constructor ()
      ensures fresh(data) && Holds(R(), []) && readopen && writeopen
    {
      data := new byte[PIPESIZE](_ => 0);
      nread, nwrite, readopen, writeopen := 0, 0, true, true;
    }

    /** Store src from index i on. At byte k, killed[k] is what killed() answers and copied[k] whether copyin succeeds.
        The stretch ends at byte j: given up, at the full pipe, or done, because all is stored or copyin failed. */
    method Write(src: seq<byte>, i: nat, killed: seq<bool>, copied: seq<bool>, ghost q: seq<byte>)
      returns (end: WriteEnd, j: nat)
      requires i <= |src| == |killed| == |copied| && Holds(R(), q)
      modifies this`nwrite, data
      ensures i <= j <= |src| && Holds(R(), q + src[i..j])
      ensures (i < j ==> readopen) && forall k :: i <= k < j ==> !killed[k] && copied[k]
      ensures end.Abort? ==> j < |src| && (!readopen || killed[j])
      ensures end.MustSleep? ==> j < |src| && readopen && !killed[j] && IsFull(R())
      ensures end.Done? ==> j == |src| || (readopen && !killed[j] && !IsFull(R()) && !copied[j])
    {
      hide Holds;
      j := i;
      assert src[i..i] == [] && q + [] == q;
      while j < |src|
        invariant i <= j <= |src| && Holds(R(), q + src[i..j]) && nread == old(nread)
        invariant (i < j ==> readopen) && forall k :: i <= k < j ==> !killed[k] && copied[k]
      {
        if !readopen || killed[j] {
          return Abort, j;
        }
        if nwrite == (nread + PIPESIZE) % TWO32 {
          return MustSleep, j;
        }
        if !copied[j] {
          break;
        }
        Bounds(R(), q + src[i..j]);
        PutHolds(R(), q + src[i..j], src[j]);
        ghost var r := R();
        data[nwrite % PIPESIZE] := src[j];
        nwrite := Inc(nwrite);
        assert R() == Put(r, src[j]);
        assert q + src[i..j] + [src[j]] == q + src[i..j + 1];
        j := j + 1;
      }
      end := Done;
    }

    /** Take up to n bytes out; copied[k] says whether copyout of byte k succeeds. All that are there and asked for,
        unless copyout fails: then the byte it failed on is gone from the pipe as well. */
    method Read(n: nat, copied: seq<bool>, ghost q: seq<byte>) returns (got: seq<byte>)
      requires Holds(R(), q) && |copied| == n
      modifies `nread
      ensures |got| <= n && got <= q && forall k :: 0 <= k < |got| ==> copied[k]
      ensures |got| == n || |got| == |q| || !copied[|got|]
      ensures Holds(R(), q[if |got| < n && |got| < |q| then |got| + 1 else |got|..])
    {
      hide Holds;
      got := [];
      assert q[0..] == q;
      while |got| < n
        invariant |got| <= n && |got| <= |q| && got == q[..|got|] && Holds(R(), q[|got|..])
        invariant forall k :: 0 <= k < |got| ==> copied[k]
      {
        Bounds(R(), q[|got|..]);
        Counts(R(), q[|got|..]);
        if nread == nwrite {
          return;
        }
        DropHolds(R(), q[|got|..]);
        assert q[|got|..][1..] == q[|got| + 1..] && q[..|got| + 1] == q[..|got|] + [q[|got|]];
        var ch := data[nread % PIPESIZE];
        nread := Inc(nread);
        if !copied[|got|] {
          return;
        }
        got := got + [ch];
      }
    }
  }

  lemma Bounds(r: Ring, q: seq<byte>)
    requires Holds(r, q)
    ensures Sized(r)
  {
  }
}
