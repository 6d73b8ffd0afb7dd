/** Writes from user memory that cannot be read to the end (kernel/fs.c:516-531). The copy fails in the middle of a
    block: the bytes before the fault are in the cached block, but they are not counted and the block is not logged. */
module FsTorn {
  import opened Blocks
  import opened Values
  import opened Params
  import opened FsModel
  import opened FsWrite

  function Min(a: nat, b: nat): nat {
    if a < b then a else b
  }

  /** A write of n bytes at off, of which the first `avail` can be read, stops after r of them: the next block's worth
      is not all there. */
  predicate FaultAt(off: nat, n: nat, r: nat, avail: nat) {
    r < n && r <= avail < r + Min(n - r, BSIZE - (off + r) % BSIZE) && (r == 0 || (off + r) % BSIZE == 0)
  }

  /** How one pass of writei's loop ends. */
  datatype PassEnd = NoBlock | Faulted | Written

  /** p is m with `bytes` copied into the block of position `at` of file i, and that is not logged. */
  ghost predicate Patched(sb: Super, m: FsState, p: FsState, i: nat, at: nat, bytes: seq<byte>) {
    && Ok(sb, m, {}) && i in m.inodes && at < MAXFILE * BSIZE && at % BSIZE + |bytes| <= BSIZE
    && var a := BlockOf(sb, m.disk, m.inodes[i], at / BSIZE);
      0 < a < sb.size && p == m.(disk := m.disk[a := Patch(m.disk[a], at % BSIZE, bytes)])
  }

  /** Why a write of src at off from s stopped after r bytes: no block for the next one, or the copy failed. v is what
      it reports, and u what the cache shows. */
  ghost predicate Stopped(sb: Super, s: FsState, v: FsState, u: FsState, i: nat, off: nat, src: seq<byte>, r: nat,
                          avail: nat)
    requires Ok(sb, s, {}) && Ok(sb, v, {}) && i in s.inodes && i in v.inodes && r < |src| && avail <= |src|
    requires off + |src| <= MAXFILE * BSIZE
  {
    if BlockOf(sb, v.disk, v.inodes[i], (off + r) / BSIZE) == 0 then
      && u == v && Full(sb, v.disk) && s.inodes[i].size <= off + r && EndBlock(off, r) <= (off + r) / BSIZE
      && BlockOf(sb, s.disk, s.inodes[i], (off + r) / BSIZE) == 0
    else
      FaultAt(off, |src|, r, avail) && Patched(sb, v, u, i, off + r, src[r..avail])
  }

  /** The blocks that a write which stopped after r of n bytes has logged end at hi: with the last one written to, or
      with one more that was new and then not written to. */
  ghost predicate LoggedTo(sb: Super, s: FsState, v: FsState, i: nat, off: nat, r: nat, n: nat, hi: nat)
    requires Ok(sb, s, {}) && Ok(sb, v, {}) && i in s.inodes && i in v.inodes && r <= n && off + n <= MAXFILE * BSIZE
  {
    if r < n && BlockOf(sb, v.disk, v.inodes[i], (off + r) / BSIZE) != 0
      && BlockOf(sb, s.disk, s.inodes[i], (off + r) / BSIZE) == 0
    then hi == (off + r) / BSIZE + 1 && EndBlock(off, r) <= (off + r) / BSIZE && s.inodes[i].size <= off + r
    else hi == EndBlock(off, r)
  }

  lemma PatchedFacts(sb: Super, m: FsState, p: FsState, i: nat, at: nat, bytes: seq<byte>)
    requires Patched(sb, m, p, i, at, bytes)
    ensures Ok(sb, p, {}) && SameAddrs(sb, m.disk, p.disk, m.inodes)
    ensures BytesWritten(sb, m.disk, m.inodes, p.disk, p.inodes, i, at, bytes)
    ensures forall b: nat :: b < sb.datastart ==> p.disk[b] == m.disk[b]
  {
    hide Owned, Marked, SameAddrs, BytesWritten, Patch;
    PatchBytes(sb, m.disk, m.inodes, m.owner, i, at, bytes);
    BlockInRange(sb, m.disk, m.inodes, m.owner, {}, i, at / BSIZE);
  }

  /** A copy that fails after bmap has found or made the block. */
  lemma ChunkFaults(sb: Super, s: FsState, m: FsState, i: nat, off: nat, bytes: seq<byte>, a: nat)
    requires off < MAXFILE * BSIZE && off % BSIZE + |bytes| <= BSIZE && a != 0 && Mapped(sb, s, m, i, off / BSIZE, a)
    ensures a < |m.disk| && Patched(sb, m, m.(disk := m.disk[a := Patch(m.disk[a], off % BSIZE, bytes)]), i, off, bytes)
    ensures ChunkWritten(sb, s, m, i, off, [], true)
    ensures if BlockOf(sb, s.disk, s.inodes[i], off / BSIZE) == 0 then ChunkLogged(sb, s, m, i, off / BSIZE, true)
      else m == s
  {
    hide Owned, Marked, Used, SameBytes, BytesWritten, FileByte;
    SameIsNoBytes(sb, s.disk, s.inodes, m.disk, m.inodes, i, off);
  }

  /** Only past the end of the file is a block new. */
  lemma NewBehind(sb: Super, s: FsState, t: FsState, i: nat, off: nat, done: seq<byte>, at: nat)
    requires Progress(sb, s, t, i, off, done) && Holeless(sb, s) && at < MAXFILE * BSIZE
    requires BlockOf(sb, t.disk, t.inodes[i], at / BSIZE) == 0
    ensures i in s.inodes && s.inodes[i].size <= at
  {
    hide Owned, Marked, BytesWritten, Covered;
    var bn := at / BSIZE;
    assert HoleFree(sb, s.disk, s.inodes[i]);
    assert Addr(sb, s.disk, s.inodes, Slot(i, bn)) == BlockOf(sb, s.disk, s.inodes[i], bn);
    assert Addr(sb, t.disk, t.inodes, Slot(i, bn)) == BlockOf(sb, t.disk, t.inodes[i], bn);
    assert bn * BSIZE <= at;
  }

  /** Blocks from hi on are as before the write. */
  lemma NotYet(sb: Super, s: FsState, t: FsState, i: nat, lo: nat, hi: nat)
    requires LogExact(sb, s, t, i, lo, hi) && hi < MAXFILE && Grew(sb, s.disk, s.inodes, t.disk, t.inodes, i)
    ensures BlockOf(sb, t.disk, t.inodes[i], hi) == BlockOf(sb, s.disk, s.inodes[i], hi)
  {
    hide Owned, Marked, ChunkLogs;
    var q := Slot(i, hi);
    assert Addr(sb, s.disk, s.inodes, q) == BlockOf(sb, s.disk, s.inodes[i], hi);
    assert Addr(sb, t.disk, t.inodes, q) == BlockOf(sb, t.disk, t.inodes[i], hi);
    SlotOwns(sb, s, q);
    SlotOwns(sb, t, q);
  }

  /** The loop ends for want of a block. */
  lemma FullStops(sb: Super, s: FsState, t: FsState, v: FsState, i: nat, off: nat, src: seq<byte>, tot: nat, avail: nat,
                  bytes: seq<byte>)
    requires tot < |src| && avail <= |src| && Progress(sb, s, v, i, off, src[..tot]) && Holeless(sb, s)
    requires off + |src| <= MAXFILE * BSIZE && EndBlock(off, tot) == (off + tot) / BSIZE
    requires ChunkWritten(sb, t, v, i, off + tot, bytes, false)
    ensures i in s.inodes && i in v.inodes && Stopped(sb, s, v, v, i, off, src, tot, avail)
    ensures LoggedTo(sb, s, v, i, off, tot, |src|, EndBlock(off, tot))
  {
    hide Owned, Marked, BytesWritten, Covered, Holeless, Full;
    MissingBlock(sb, s, t, v, i, off, src[..tot], off + tot, bytes);
    var q := Slot(i, (off + tot) / BSIZE);
    assert Addr(sb, s.disk, s.inodes, q) == BlockOf(sb, s.disk, s.inodes[i], q.pos);
    assert Addr(sb, v.disk, v.inodes, q) == BlockOf(sb, v.disk, v.inodes[i], q.pos);
  }

  /** The loop ends because the copy has failed. */
  lemma FaultStops(sb: Super, s: FsState, t: FsState, v: FsState, u: FsState, i: nat, off: nat, src: seq<byte>,
                   tot: nat, avail: nat, hi: nat)
    requires off + |src| <= MAXFILE * BSIZE && avail <= |src| && FaultAt(off, |src|, tot, avail)
    requires Progress(sb, s, t, i, off, src[..tot]) && LogExact(sb, s, t, i, off / BSIZE, hi) && Holeless(sb, s)
    requires hi == EndBlock(off, tot) == (off + tot) / BSIZE
    requires ChunkWritten(sb, t, v, i, off + tot, [], true) && Patched(sb, v, u, i, off + tot, src[tot..avail])
    requires if BlockOf(sb, t.disk, t.inodes[i], hi) == 0 then ChunkLogged(sb, t, v, i, hi, true) else v == t
    ensures i in s.inodes && i in v.inodes && Progress(sb, s, v, i, off, src[..tot])
    ensures var e := hi + One(BlockOf(sb, t.disk, t.inodes[i], hi) == 0);
      LogExact(sb, s, v, i, off / BSIZE, e) && LoggedTo(sb, s, v, i, off, tot, |src|, e)
    ensures Stopped(sb, s, v, u, i, off, src, tot, avail)
  {
    hide Owned, Marked, BytesWritten, Covered, Holeless, LogExact, ChunkLogged, Progress, Full, BlockOf, Grew;
    ProgressFacts(sb, s, t, i, off, src[..tot]);
    ChunkFacts(sb, t, v, i, off + tot, [], true);
    NotYet(sb, s, t, i, off / BSIZE, hi);
    if BlockOf(sb, t.disk, t.inodes[i], hi) == 0 {
      LogStep(sb, s, t, v, i, off / BSIZE, hi, true);
      NewBehind(sb, s, t, i, off, src[..tot], off + tot);
    }
    ProgressStep(sb, s, t, v, i, off, src[..tot], [], true);
    assert src[..tot] + [] == src[..tot];
    ProgressFacts(sb, s, v, i, off, src[..tot]);
  }

  // ----- the end of writei -----

  ghost function EndState(sb: Super, t: FsState, i: nat, end: nat): (u: FsState)
    requires Ok(sb, t, {}) && i in t.inodes && end <= MAXFILE * BSIZE
    ensures WriteEnd(sb, t, u, i, end)
  {
    ResizeKeeps(sb, t, i, Max(t.inodes[i].size, end));
    var n1 := WithSize(t.inodes, i, Max(t.inodes[i].size, end));
    FsState(Updated(sb, FsState(t.disk, n1, t.owner, t.logged), i), n1, t.owner, t.logged + {IBlock(sb, i)})
  }

  lemma EndKeeps(sb: Super, t: FsState, i: nat, end: nat)
    requires Ok(sb, t, {}) && i in t.inodes && end <= MAXFILE * BSIZE
    ensures var v := EndState(sb, t, i, end);
      && Ok(sb, v, {}) && v.inodes.Keys == t.inodes.Keys && Within(t, v) && (Full(sb, t.disk) ==> Full(sb, v.disk))
      && forall bn: nat :: bn < MAXFILE ==> BlockOf(sb, v.disk, v.inodes[i], bn) == BlockOf(sb, t.disk, t.inodes[i], bn)
  {
    hide Owned, Marked, Used, PutInode, SameBytes, Full, Addr;
    var v := EndState(sb, t, i, end);
    ResizeKeeps(sb, t, i, Max(t.inodes[i].size, end));
    var r := FsState(t.disk, v.inodes, t.owner, t.logged);
    UpdateStores(sb, r, i);
    UpdateKeepsFull(sb, r, i);
    IBlockRange(sb, i);
    forall bn: nat | bn < MAXFILE
      ensures BlockOf(sb, v.disk, v.inodes[i], bn) == BlockOf(sb, t.disk, t.inodes[i], bn)
    {
      SameBlockOf(sb, r.disk, v.disk, v.inodes, i, bn);
      SizeApart(sb, t, r, i, bn);
    }
  }

  lemma SizeApart(sb: Super, t: FsState, r: FsState, i: nat, bn: nat)
    requires Ok(sb, t, {}) && i in t.inodes && bn < MAXFILE && Ok(sb, r, {}) && r.disk == t.disk
    requires i in r.inodes && r.inodes[i].addrs == t.inodes[i].addrs
    ensures BlockOf(sb, r.disk, r.inodes[i], bn) == BlockOf(sb, t.disk, t.inodes[i], bn)
  {
    hide Owned, Marked;
  }

  /** Setting the size and writing the inode back has nothing to do with the block. */
  lemma PatchedEnds(sb: Super, m: FsState, p: FsState, u: FsState, i: nat, at: nat, bytes: seq<byte>, end: nat)
    requires Patched(sb, m, p, i, at, bytes) && end <= MAXFILE * BSIZE && Ok(sb, p, {}) && WriteEnd(sb, p, u, i, end)
    ensures Patched(sb, EndState(sb, m, i, end), u, i, at, bytes)
  {
    hide Owned, Marked, Used, Patch, PutInode, BlockOf;
    EndKeeps(sb, m, i, end);
    IBlockRange(sb, i);
    BlockInRange(sb, m.disk, m.inodes, m.owner, {}, i, at / BSIZE);
  }

  /** What the loop left is a file system on which writei can finish. */
  lemma LoopLeaves(sb: Super, s: FsState, t: FsState, p: FsState, i: nat, off: nat, src: seq<byte>, tot: nat,
                   avail: nat)
    requires Ok(sb, s, {}) && Ok(sb, t, {}) && i in s.inodes && i in t.inodes
    requires tot <= avail <= |src| && off + |src| <= MAXFILE * BSIZE
    requires if tot < |src| then Stopped(sb, s, t, p, i, off, src, tot, avail) else p == t
    ensures Ok(sb, p, {}) && i in p.inodes
  {
    hide Owned, Marked, BlockOf, SameAddrs, BytesWritten, Full;
    if tot < |src| && BlockOf(sb, t.disk, t.inodes[i], (off + tot) / BSIZE) != 0 {
      PatchedFacts(sb, t, p, i, off + tot, src[tot..avail]);
    }
  }

  /** The end of writei does to the file system it reports what it does to the cache. */
  lemma EndsStopped(sb: Super, s: FsState, t: FsState, p: FsState, u: FsState, i: nat, off: nat, src: seq<byte>,
                    tot: nat, avail: nat, hi: nat)
    requires Ok(sb, s, {}) && Ok(sb, t, {}) && Ok(sb, p, {}) && i in s.inodes && i in t.inodes && i in p.inodes
    requires tot <= avail <= |src| && off + |src| <= MAXFILE * BSIZE
    requires if tot < |src| then Stopped(sb, s, t, p, i, off, src, tot, avail) else p == t
    requires WriteEnd(sb, p, u, i, off + tot) && LoggedTo(sb, s, t, i, off, tot, |src|, hi)
    ensures var v := EndState(sb, t, i, off + tot);
      && Ok(sb, v, {}) && i in v.inodes && v.owner == u.owner && v.inodes == u.inodes && v.logged == u.logged
      && LoggedTo(sb, s, v, i, off, tot, |src|, hi)
      && if tot < |src| then Stopped(sb, s, v, u, i, off, src, tot, avail) else u == v
  {
    hide Owned, Marked, Used, BlockOf, Full, Updated, Patch, Within;
    EndKeeps(sb, t, i, off + tot);
    if tot < |src| && BlockOf(sb, t.disk, t.inodes[i], (off + tot) / BSIZE) != 0 {
      PatchedEnds(sb, t, p, u, i, off + tot, src[tot..avail], off + tot);
    }
  }

  lemma StoppedValid(sb: Super, s: FsState, v: FsState, u: FsState, i: nat, off: nat, src: seq<byte>, r: nat,
                     avail: nat)
    requires Ok(sb, s, {}) && Ok(sb, v, {}) && i in s.inodes && i in v.inodes
    requires r <= avail <= |src| && off + |src| <= MAXFILE * BSIZE
    requires if r < |src| then Stopped(sb, s, v, u, i, off, src, r, avail) else u == v
    requires Holeless(sb, v) && Stored(sb, v)
    ensures Ok(sb, u, {}) && Holeless(sb, u) && Stored(sb, u)
  {
    hide Owned, Marked, BlockOf, Full, Holeless, Stored;
    if r < |src| && BlockOf(sb, v.disk, v.inodes[i], (off + r) / BSIZE) != 0 {
      PatchedValid(sb, v, u, i, off + r, src[r..avail]);
    }
  }

  lemma FewPasses(sb: Super, s: FsState, t: FsState, i: nat, off: nat, r: nat, n: nat, hi: nat)
    requires Ok(sb, s, {}) && Ok(sb, t, {}) && i in s.inodes && i in t.inodes && r <= n && off + n <= MAXFILE * BSIZE
    requires LoggedTo(sb, s, t, i, off, r, n, hi) && n <= 3 * BSIZE
    ensures hi - off / BSIZE <= 3 + One(off % BSIZE != 0)
  {
    hide Owned, Marked, BlockOf;
    PassCount(off, r);
    if r < n {
      PassCount(off, r + 1);
    }
  }

  // ----- what the cache shows -----

  lemma PatchedInodes(sb: Super, v: FsState, u: FsState, i: nat, at: nat, bytes: seq<byte>)
    requires Patched(sb, v, u, i, at, bytes)
    ensures forall j: nat :: j < sb.ninodes ==> OnDisk(sb, u.disk, j) == OnDisk(sb, v.disk, j)
  {
    hide Owned, Marked, BytesWritten, BlockOf, Patch, ReadInode;
    PatchedFacts(sb, v, u, i, at, bytes);
    forall j: nat | j < sb.ninodes
      ensures OnDisk(sb, u.disk, j) == OnDisk(sb, v.disk, j)
    {
      IBlockRange(sb, j);
    }
  }

  /** The file system is sound with those bytes in the block. */
  lemma PatchedValid(sb: Super, v: FsState, u: FsState, i: nat, at: nat, bytes: seq<byte>)
    requires Patched(sb, v, u, i, at, bytes) && Holeless(sb, v) && Stored(sb, v)
    ensures Ok(sb, u, {}) && Holeless(sb, u) && Stored(sb, u)
  {
    hide Owned, Marked, BytesWritten, BlockOf, Patch, Addr, OnDisk;
    PatchedFacts(sb, v, u, i, at, bytes);
    PatchedInodes(sb, v, u, i, at, bytes);
    forall j, bn: nat | j in u.inodes && bn < MAXFILE && bn * BSIZE < u.inodes[j].size
      ensures BlockOf(sb, u.disk, u.inodes[j], bn) != 0
    {
      assert HoleFree(sb, v.disk, v.inodes[j]);
      SameBlockOf(sb, v.disk, u.disk, v.inodes, j, bn);
    }
  }

  /** Exactly the bytes before the fault show, in that file, as far as they lie below its size. */
  lemma TornContent(sb: Super, v: FsState, u: FsState, i: nat, at: nat, bytes: seq<byte>)
    requires Patched(sb, v, u, i, at, bytes)
    ensures Ok(sb, u, {}) && u.inodes == v.inodes
    ensures |Content(sb, u.disk, u.inodes, i)| == |Content(sb, v.disk, v.inodes, i)|
    ensures forall x: nat :: x < |Content(sb, v.disk, v.inodes, i)| ==>
      Content(sb, u.disk, u.inodes, i)[x] ==
        if at <= x < at + |bytes| then bytes[x - at] else Content(sb, v.disk, v.inodes, i)[x]
    ensures forall j :: j in v.inodes && j != i ==>
      Content(sb, u.disk, u.inodes, j) == Content(sb, v.disk, v.inodes, j)
  {
    hide Owned, Marked, BlockOf, Patch, FileByte;
    PatchedFacts(sb, v, u, i, at, bytes);
  }

  /** So the file reads as reported exactly if those bytes were there before or lie behind its end. */
  lemma TornExactly(sb: Super, v: FsState, u: FsState, i: nat, at: nat, bytes: seq<byte>)
    requires Patched(sb, v, u, i, at, bytes)
    ensures Ok(sb, u, {}) && i in u.inodes
    ensures Content(sb, u.disk, u.inodes, i) == Content(sb, v.disk, v.inodes, i) <==>
      forall k: nat :: k < |bytes| && at + k < v.inodes[i].size ==>
        bytes[k] == Content(sb, v.disk, v.inodes, i)[at + k]
  {
    hide Owned, Marked, BlockOf, Patch, FileByte;
    TornContent(sb, v, u, i, at, bytes);
    var c, d := Content(sb, v.disk, v.inodes, i), Content(sb, u.disk, u.inodes, i);
    if c == d {
      forall k: nat | k < |bytes| && at + k < v.inodes[i].size
        ensures bytes[k] == c[at + k]
      {
        assert d[at + k] == bytes[at + k - at];
      }
    } else {
      var x: nat :| x < |c| && c[x] != d[x];
      assert bytes[x - at] != c[at + (x - at)];
    }
  }

  // ----- one transaction -----

  /** A block of the file from hi on is not among those the write has logged. */
  lemma NotLogged(sb: Super, s: FsState, v: FsState, i: nat, lo: nat, hi: nat, bn: nat)
    requires Ok(sb, v, {}) && i in v.inodes && hi <= bn < MAXFILE
    ensures BlockOf(sb, v.disk, v.inodes[i], bn) !in WriteLogs(sb, s, v, i, lo, hi)
  {
    hide Owned, Marked, BitmapsOf, BlockOf;
    SlotOwns(sb, v, Slot(i, bn));
    assert Addr(sb, v.disk, v.inodes, Slot(i, bn)) == BlockOf(sb, v.disk, v.inodes[i], bn);
    BitmapsInRange(sb, v, NewBlocks(s, v));
    DataInRange(sb, v, v.owner.Keys);
    IBlockRange(sb, i);
  }

  lemma IsLogged(sb: Super, s: FsState, v: FsState, i: nat, lo: nat, hi: nat, bn: nat)
    requires Ok(sb, v, {}) && i in v.inodes && lo <= bn < hi && bn < MAXFILE
    requires BlockOf(sb, v.disk, v.inodes[i], bn) != 0
    ensures BlockOf(sb, v.disk, v.inodes[i], bn) in WriteLogs(sb, s, v, i, lo, hi)
  {
    hide Owned, Marked, BitmapsOf, BlockOf;
    SlotOwns(sb, v, Slot(i, bn));
    assert Addr(sb, v.disk, v.inodes, Slot(i, bn)) == BlockOf(sb, v.disk, v.inodes[i], bn);
  }

  /** What the commit of a write that stopped after r bytes puts on disk: the block that the copy failed in only if it
      was new, and so logged. */
  ghost function Committed(sb: Super, s: FsState, v: FsState, u: FsState, i: nat, bn: nat): (c: FsState)
    requires Ok(sb, s, {}) && Ok(sb, v, {}) && i in s.inodes && i in v.inodes && bn < MAXFILE
  {
    if BlockOf(sb, s.disk, s.inodes[i], bn) == 0 && BlockOf(sb, v.disk, v.inodes[i], bn) != 0 then u else v
  }

  /** From s a transaction has written the first r bytes: c is what it commits and u what the cache shows. That is the
      same in all blocks that were logged, and everywhere unless the copy failed in a block that was there before. */
  ghost predicate CommitOf(sb: Super, s: FsState, c: FsState, u: FsState, i: nat, off: nat, src: seq<byte>, r: nat,
                          avail: nat)
    requires Ok(sb, s, {}) && i in s.inodes && off <= s.inodes[i].size && r <= avail <= |src|
  {
    && Wrote(sb, s, c, i, off, src[..r]) && Stored(sb, c) && Within(s, c) && c.logged == u.logged
    && |u.disk| == |c.disk| && (forall b: nat :: b < |c.disk| && b in u.logged ==> c.disk[b] == u.disk[b])
    && if r < |src| && (off + r) / BSIZE < MAXFILE && BlockOf(sb, s.disk, s.inodes[i], (off + r) / BSIZE) != 0
       then FaultAt(off, |src|, r, avail) && Patched(sb, c, u, i, off + r, src[r..avail])
       else c == u
  }

  /** Bytes behind the end of the file do not show. */
  lemma TornBehind(sb: Super, s: FsState, v: FsState, u: FsState, i: nat, off: nat, done: seq<byte>, bytes: seq<byte>)
    requires Ok(sb, s, {}) && i in s.inodes && off <= s.inodes[i].size <= off + |done| && Stored(sb, s)
    requires Wrote(sb, s, v, i, off, done) && Patched(sb, v, u, i, off + |done|, bytes)
    ensures Wrote(sb, s, u, i, off, done) && Stored(sb, u)
  {
    hide Owned, Marked, BlockOf, Patch, FileByte, Content, OnDisk, Holeless, Stored;
    WroteValid(sb, s, v, i, off, done);
    PatchedValid(sb, v, u, i, off + |done|, bytes);
    PatchedInodes(sb, v, u, i, off + |done|, bytes);
    TornContent(sb, v, u, i, off + |done|, bytes);
    var c, d := Content(sb, v.disk, v.inodes, i), Content(sb, u.disk, u.inodes, i);
    assert |c| == off + |done|;
    assert d == c;
  }

  /** What is committed is the write as reported, by blocks that were logged, and the cache has the same in those. */
  lemma CommittedStep(sb: Super, s: FsState, v: FsState, u: FsState, i: nat, off: nat, src: seq<byte>, r: nat,
                      avail: nat, hi: nat)
    requires Ok(sb, s, {}) && i in s.inodes && off <= s.inodes[i].size && Stored(sb, s) && s.logged == {}
    requires r < |src| && r <= avail <= |src| && off + |src| <= MAXFILE * BSIZE && Ok(sb, v, {}) && i in v.inodes
    requires Wrote(sb, s, v, i, off, src[..r]) && Stopped(sb, s, v, u, i, off, src, r, avail)
    requires LoggedTo(sb, s, v, i, off, r, |src|, hi) && Within(s, v)
    requires v.logged == WriteLogs(sb, s, v, i, off / BSIZE, hi)
    ensures CommitOf(sb, s, Committed(sb, s, v, u, i, (off + r) / BSIZE), u, i, off, src, r, avail)
  {
    hide Owned, Marked, BlockOf, Patch, Wrote, Stored, WriteLogs, Full, Splice;
    var bn := (off + r) / BSIZE;
    WroteValid(sb, s, v, i, off, src[..r]);
    if BlockOf(sb, v.disk, v.inodes[i], bn) != 0 {
      if BlockOf(sb, s.disk, s.inodes[i], bn) == 0 {
        IsLogged(sb, s, v, i, off / BSIZE, hi, bn);
        TornBehind(sb, s, v, u, i, off, src[..r], src[r..avail]);
      } else {
        NotLogged(sb, s, v, i, off / BSIZE, hi, bn);
      }
    }
  }

  /** Why a transaction wrote r bytes of n and no more. */
  ghost predicate StopCause(sb: Super, u: FsState, i: nat, off: nat, n: nat, r: nat, avail: nat)
    requires Ok(sb, u, {}) && i in u.inodes && r < n && off + n <= MAXFILE * BSIZE
  {
    if BlockOf(sb, u.disk, u.inodes[i], (off + r) / BSIZE) == 0
    then Full(sb, u.disk) && EndBlock(off, r) <= (off + r) / BSIZE
    else FaultAt(off, n, r, avail)
  }

  /** If all can be read, only a full disk stops a write. */
  lemma NoFault(sb: Super, s: FsState, u: FsState, i: nat, off: nat, n: nat, r: nat, hi: nat)
    requires Ok(sb, s, {}) && Ok(sb, u, {}) && i in s.inodes && i in u.inodes && r <= n && off + n <= MAXFILE * BSIZE
    requires LoggedTo(sb, s, u, i, off, r, n, hi) && (r < n ==> StopCause(sb, u, i, off, n, r, n))
    ensures hi == EndBlock(off, r) && (r < n ==> Full(sb, u.disk) && EndBlock(off, r) <= (off + r) / BSIZE)
  {
    hide Owned, Marked, BlockOf, Full;
  }

  /** The cache has the blocks that writei reports where it reports them. */
  lemma StoppedBlocks(sb: Super, s: FsState, v: FsState, u: FsState, i: nat, off: nat, src: seq<byte>, r: nat,
                      avail: nat, hi: nat)
    requires Ok(sb, s, {}) && Ok(sb, v, {}) && Ok(sb, u, {}) && i in s.inodes && i in v.inodes && u.inodes == v.inodes
    requires r < |src| && r <= avail <= |src| && off + |src| <= MAXFILE * BSIZE
    requires Stopped(sb, s, v, u, i, off, src, r, avail) && LoggedTo(sb, s, v, i, off, r, |src|, hi)
    ensures LoggedTo(sb, s, u, i, off, r, |src|, hi) && StopCause(sb, u, i, off, |src|, r, avail)
  {
    hide Owned, Marked, BlockOf, Full, Patch;
    var bn := (off + r) / BSIZE;
    if BlockOf(sb, v.disk, v.inodes[i], bn) != 0 {
      PatchedFacts(sb, v, u, i, off + r, src[r..avail]);
      SameBlockOf(sb, v.disk, u.disk, v.inodes, i, bn);
    }
  }

  /** The transaction of a chunk, from a log that was empty. */
  lemma TxnEnds(sb: Super, s: FsState, v: FsState, c: FsState, u: FsState, i: nat, off: nat, src: seq<byte>, r: nat,
                avail: nat, hi: nat)
    requires Ok(sb, s, {}) && i in s.inodes && off <= s.inodes[i].size && Stored(sb, s) && s.logged == {}
    requires r <= avail <= |src| && off + |src| <= MAXFILE * BSIZE && Ok(sb, v, {}) && Ok(sb, u, {}) && i in v.inodes
    requires Wrote(sb, s, v, i, off, src[..r]) && u.inodes == v.inodes && u.owner == v.owner && u.logged == v.logged
    requires if r < |src| then Stopped(sb, s, v, u, i, off, src, r, avail) else u == v
    requires LoggedTo(sb, s, v, i, off, r, |src|, hi) && Within(s, v)
    requires v.logged == WriteLogs(sb, s, v, i, off / BSIZE, hi)
    requires c == if r < |src| then Committed(sb, s, v, u, i, (off + r) / BSIZE) else v
    ensures CommitOf(sb, s, c, u, i, off, src, r, avail) && LoggedTo(sb, s, u, i, off, r, |src|, hi)
    ensures if r == |src| then c == u else StopCause(sb, u, i, off, |src|, r, avail)
  {
    hide Owned, Marked, BlockOf, Full, Wrote, Stored, WriteLogs, Stopped, LoggedTo, Committed, StopCause;
    if r < |src| {
      CommittedStep(sb, s, v, u, i, off, src, r, avail, hi);
      StoppedBlocks(sb, s, v, u, i, off, src, r, avail, hi);
    } else {
      WroteValid(sb, s, v, i, off, src[..r]);
    }
  }

  lemma LoggedFrom(sb: Super, s: FsState, u: FsState, i: nat, off: nat, r: nat, n: nat, hi: nat, logged: set<nat>)
    requires Ok(sb, s, {}) && Ok(sb, u, {}) && i in s.inodes && i in u.inodes && r <= n && off + n <= MAXFILE * BSIZE
    requires LoggedTo(sb, s.(logged := logged), u, i, off, r, n, hi)
    ensures LoggedTo(sb, s, u, i, off, r, n, hi)
  {
    hide Owned, Marked, BlockOf;
  }

  /** A commit is a step from the file system before it, whatever the log held then. */
  lemma CommitIsStep(sb: Super, s: FsState, c: FsState, u: FsState, i: nat, off: nat, src: seq<byte>, r: nat,
                     avail: nat)
    requires Ok(sb, s, {}) && i in s.inodes && off <= s.inodes[i].size && r <= avail <= |src| && s.logged == {}
    requires CommitOf(sb, s, c, u, i, off, src, r, avail) && |u.logged| <= MAXOPBLOCKS
    requires forall b :: b in u.logged ==> sb.inodestart <= b < sb.size
    ensures Ok(sb, c, {}) && c.logged == u.logged && TxnStep(sb, s, c, u.logged)
  {
    hide Owned, Marked, Holeless, Content, Splice, OnDisk, Stored;
  }

  /** After a transaction of filewrite the file reads as reported, its first r bytes spliced in and nothing else,
      exactly if the bytes that were read before the fault and not counted are behind its end or what was there
      before. */
  lemma ReadsAsReported(sb: Super, s: FsState, c: FsState, u: FsState, i: nat, off: nat, src: seq<byte>, r: nat,
                        avail: nat)
    requires Ok(sb, s, {}) && Holeless(sb, s) && i in s.inodes && off <= s.inodes[i].size && r <= avail <= |src|
    requires CommitOf(sb, s, c, u, i, off, src, r, avail)
    ensures Ok(sb, u, {}) && i in u.inodes
    ensures Content(sb, u.disk, u.inodes, i) == Splice(Content(sb, s.disk, s.inodes, i), off, src[..r]) <==>
      forall k: nat :: r <= k < avail && off + k < s.inodes[i].size ==>
        src[k] == Content(sb, s.disk, s.inodes, i)[off + k]
  {
    hide Owned, Marked, HoleFree, BlockOf, Patch, FileByte, OnDisk, OtherInodesKept, Patched, Stored, Content, Splice;
    var was, bn := Content(sb, s.disk, s.inodes, i), (off + r) / BSIZE;
    if r < |src| && bn < MAXFILE && BlockOf(sb, s.disk, s.inodes[i], bn) != 0 {
      TornExactly(sb, c, u, i, off + r, src[r..avail]);
      SpliceTail(was, off, src, r, avail, s.inodes[i].size, c.inodes[i].size);
    } else if r < avail {
      NoneBehind(sb, s, i, off + r);
    }
  }

  /** A file ends before the first block that it does not have. */
  lemma NoneBehind(sb: Super, s: FsState, i: nat, at: nat)
    requires Ok(sb, s, {}) && Holeless(sb, s) && i in s.inodes
    requires at / BSIZE < MAXFILE ==> BlockOf(sb, s.disk, s.inodes[i], at / BSIZE) == 0
    ensures s.inodes[i].size <= at
  {
    hide Owned, Marked, BlockOf;
    assert HoleFree(sb, s.disk, s.inodes[i]);
    assert at / BSIZE * BSIZE <= at;
  }

  lemma SpliceTail(c: seq<byte>, off: nat, src: seq<byte>, r: nat, avail: nat, size: nat, now: nat)
    requires off <= |c| == size && r <= avail <= |src| && now == |Splice(c, off, src[..r])|
    ensures (forall k: nat :: k < |src[r..avail]| && off + r + k < now ==>
        src[r..avail][k] == Splice(c, off, src[..r])[off + r + k]) <==>
      forall k: nat :: r <= k < avail && off + k < size ==> src[k] == c[off + k]
  {
    var d := Splice(c, off, src[..r]);
    assert forall x: nat :: off + r <= x < now ==> x < size && d[x] == c[x];
    if forall k: nat :: k < |src[r..avail]| && off + r + k < now ==> src[r..avail][k] == d[off + r + k] {
      forall k: nat | r <= k < avail && off + k < size
        ensures src[k] == c[off + k]
      {
        assert src[r..avail][k - r] == d[off + r + (k - r)];
      }
    }
  }

  /** Of two bytes for the front of a file, only one of which can be read, none is reported, but one shows. */
  lemma TornBy(sb: Super, s: FsState, c: FsState, u: FsState, i: nat, src: seq<byte>, r: int)
    requires Ok(sb, s, {}) && Holeless(sb, s) && Stored(sb, s) && i in s.inodes && s.inodes[i].size > 0 && |src| == 2
    requires 0 <= r <= 1 && CommitOf(sb, s.(logged := {}), c, u, i, 0, src, r, 1)
    requires src[0] != Content(sb, s.disk, s.inodes, i)[0]
    ensures r == 0 && Ok(sb, c, {}) && i in c.inodes && Ok(sb, u, {}) && i in u.inodes && |u.disk| == |c.disk|
    ensures Content(sb, c.disk, c.inodes, i) == Content(sb, s.disk, s.inodes, i)
    ensures Content(sb, u.disk, u.inodes, i) != Content(sb, s.disk, s.inodes, i)
    ensures forall b: nat :: b < |c.disk| && b in u.logged ==> u.disk[b] == c.disk[b]
  {
    hide Owned, Marked, HoleFree, BlockOf, Patch, FileByte, OnDisk, OtherInodesKept, Patched, Stored;
    PositionMapped(sb, s, i, 0);
    SpliceNothing(Content(sb, s.disk, s.inodes, i), 0);
    assert src[..0] == [];
    TornContent(sb, c, u, i, 0, src[0..1]);
  }

  // ----- several transactions -----

  /** The cache shows what the last transaction committed, and at most the bytes before a fault besides, in a block that
      it did not log. */
  ghost predicate Shows(sb: Super, x: Stop, u: FsState, i: nat, off: nat, src: seq<byte>, avail: nat) {
    && |u.disk| == |x.state.disk| && (forall b: nat :: b < |u.disk| && b in x.logged ==> u.disk[b] == x.state.disk[b])
    && (x.state == u
        || (x.done <= avail < |src| && Patched(sb, x.state, u, i, off + x.done, src[x.done..avail])))
  }

  /** Nothing more of what is left could be written at off, of which the first `avail` bytes can be read: the next chunk
      would run past the largest file, or there is no block for it and none is free, or the bytes up to the end of the
      block cannot all be read. */
  ghost predicate Blocked(sb: Super, u: FsState, i: nat, off: nat, left: nat, avail: int)
    requires Ok(sb, u, {}) && i in u.inodes
  {
    || off + Min(left, 3 * BSIZE) > MAXFILE * BSIZE
    || (off / BSIZE < MAXFILE && BlockOf(sb, u.disk, u.inodes[i], off / BSIZE) == 0 && Full(sb, u.disk))
    || avail < Min(left, BSIZE - off % BSIZE)
  }

  lemma BlockedBy(sb: Super, u: FsState, i: nat, off: nat, left: nat, n: nat, r: nat, avail: nat)
    requires Ok(sb, u, {}) && i in u.inodes && r < n <= left && off + n <= MAXFILE * BSIZE
    requires StopCause(sb, u, i, off, n, r, Min(n, avail))
    ensures Blocked(sb, u, i, off + r, left - r, avail - r)
  {
    hide Owned, Marked, BlockOf, Full;
  }

  lemma BlockedAtMost(sb: Super, u: FsState, i: nat, off: nat, left: nat, avail: int)
    requires Ok(sb, u, {}) && i in u.inodes && off + Min(left, 3 * BSIZE) > MAXFILE * BSIZE
    ensures Blocked(sb, u, i, off, left, avail)
  {
    hide Owned, Marked;
  }

  lemma ShowsAll(sb: Super, x: Stop, u: FsState, i: nat, off: nat, src: seq<byte>, avail: nat)
    requires x.state == u
    ensures Shows(sb, x, u, i, off, src, avail)
  {
  }

  lemma CommitFacts(sb: Super, s: FsState, c: FsState, u: FsState, i: nat, off: nat, src: seq<byte>, r: nat, avail: nat,
                    logged: set<nat>)
    requires Ok(sb, s, {}) && i in s.inodes && off <= s.inodes[i].size && r <= avail <= |src|
    requires CommitOf(sb, s.(logged := logged), c, u, i, off, src, r, avail)
    ensures Wrote(sb, s, c, i, off, src[..r]) && Stored(sb, c)
  {
    hide Owned, Marked, Holeless, Splice, OnDisk, Stored, FileByte, OtherInodesKept;
  }

  lemma PartOfPart(src: seq<byte>, w: nat, n: nat, a: nat, b: nat)
    requires w + n <= |src| && a <= b <= n
    ensures src[w..w + n][a..b] == src[w + a..w + b]
  {
    var part := src[w..w + n];
    forall k | a <= k < b
      ensures part[k] == src[w + k]
    {
    }
    assert |part[a..b]| == |src[w + a..w + b]|;
  }

  lemma CommitShows(sb: Super, s: FsState, c: FsState, u: FsState, i: nat, off: nat, src: seq<byte>, w: nat, n1: nat,
                    r: nat, avail: nat)
    requires w <= avail <= |src| && w + n1 <= |src| && r <= Min(n1, avail - w)
    requires Ok(sb, s, {}) && i in s.inodes && off + w <= s.inodes[i].size
    requires CommitOf(sb, s, c, u, i, off + w, src[w..w + n1], r, Min(n1, avail - w))
    ensures Shows(sb, Stop(c, u.logged, w + r), u, i, off, src, avail)
  {
    hide Owned, Marked, Holeless, Splice, OnDisk, Stored, Wrote, Patched;
    if c != u {
      PartOfPart(src, w, n1, r, avail - w);
    }
  }

  /** One more transaction of filewrite, of n1 bytes from w on. */
  lemma ChunkCommitted(sb: Super, s: FsState, t: FsState, c: FsState, u: FsState, i: nat, off: nat, src: seq<byte>,
                       w: nat, n1: nat, r: int, avail: nat, stops: seq<Stop>)
    requires stops != [] && stops[|stops| - 1].state == t && stops[|stops| - 1].done == w == (|stops| - 1) * 3 * BSIZE
    requires w <= avail <= |src| && w + n1 <= |src| && c.logged == u.logged
    requires -1 <= r <= Min(n1, avail - w) && (r == -1 ==> u == t.(logged := {}) && c == u)
    requires Ok(sb, t, {}) && i in t.inodes && off + w <= t.inodes[i].size
    requires r >= 0 ==>
      CommitOf(sb, t.(logged := {}), c, u, i, off + w, src[w..w + n1], r, Min(n1, avail - w))
    requires Ok(sb, s, {}) && i in s.inodes && off <= s.inodes[i].size
    requires Journal(sb, s, i, off, src, stops) && WroteSoFar(sb, s, t, i, off, src[..w]) && Stored(sb, t)
    requires Ok(sb, c, {}) && TxnStep(sb, t, c, u.logged)
    ensures var now := if r > 0 then w + r else w;
      var x := Stop(c, u.logged, now);
      && Journal(sb, s, i, off, src, stops + [x]) && Shows(sb, x, u, i, off, src, avail)
      && WroteSoFar(sb, s, c, i, off, src[..now])
  {
    hide Owned, Marked, Journal, TxnStep, WroteSoFar, Wrote, Stored, Holeless, CommitOf, Shows;
    if r >= 0 {
      CommitFacts(sb, t, c, u, i, off + w, src[w..w + n1], r, Min(n1, avail - w), {});
      CommitShows(sb, t.(logged := {}), c, u, i, off, src, w, n1, r, avail);
    } else {
      StoredRelogged(sb, t, {});
      ShowsAll(sb, Stop(c, u.logged, w), u, i, off, src, avail);
    }
    StopMore(sb, s, t, c, i, off, src, w, n1, r, stops);
  }
}
