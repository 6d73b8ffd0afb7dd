/** What a run of block-sized chunks does to a file and to the transaction (kernel/fs.c writei, kernel/file.c
    filewrite): the bytes written so far, and the blocks handed to log_write. */
module FsWrite {
  import opened Blocks
  import opened FsModel
  import opened Values
  import opened Params

  /** One pass of writei's loop: bmap, then copy `bytes` into the block; `ok` is false if the disk was full. */
  ghost predicate ChunkWritten(sb: Super, s: FsState, t: FsState, i: nat, off: nat, bytes: seq<byte>, ok: bool) {
    && Ok(sb, s, {}) && Ok(sb, t, {}) && off < MAXFILE * BSIZE
    && Grew(sb, s.disk, s.inodes, t.disk, t.inodes, i)
    && (forall b: nat :: b < sb.bmapstart ==> t.disk[b] == s.disk[b])
    && BytesWritten(sb, s.disk, s.inodes, t.disk, t.inodes, i, off, if ok then bytes else [])
    && (ok <==> BlockOf(sb, t.disk, t.inodes[i], off / BSIZE) != 0)
    && (!ok ==> Full(sb, t.disk))
  }

  /** What that pass hands to log_write. */
  ghost predicate ChunkLogged(sb: Super, s: FsState, t: FsState, i: nat, bn: nat, ok: bool)
    requires Ok(sb, s, {}) && Ok(sb, t, {}) && Grew(sb, s.disk, s.inodes, t.disk, t.inodes, i) && bn < MAXFILE
  {
    var a := BlockOf(sb, t.disk, t.inodes[i], bn);
    && a < sb.size && (ok <==> a != 0)
    && (bn < NDIRECT ==> t.inodes[i].addrs[NDIRECT] == s.inodes[i].addrs[NDIRECT])
    && MapOwners(s, t, i, bn, s.inodes[i].addrs[NDIRECT], t.inodes[i].addrs[NDIRECT],
      BlockOf(sb, s.disk, s.inodes[i], bn), a)
    && t.logged == s.logged
                   + MapLogs(sb, bn, s.inodes[i].addrs[NDIRECT], t.inodes[i].addrs[NDIRECT],
                     BlockOf(sb, s.disk, s.inodes[i], bn), a)
                   + (if ok then {a} else {})
  }

  lemma GrewAfterWrite(sb: Super, d0: Disk, n0: Inodes, d1: Disk, n1: Inodes, d2: Disk, i: nat)
    requires Grew(sb, d0, n0, d1, n1, i) && SameAddrs(sb, d1, d2, n1)
    ensures Grew(sb, d0, n0, d2, n1, i)
  {
    forall s | IsSlot(n0, s) && (s.inum != i || Addr(sb, d0, n0, s) != 0)
      ensures Addr(sb, d2, n1, s) == Addr(sb, d0, n0, s)
    {
      assert Addr(sb, d2, n1, s) == Addr(sb, d1, n1, s);
    }
  }

  lemma BytesAfterSame(sb: Super, d0: Disk, n0: Inodes, d1: Disk, n1: Inodes, d2: Disk, n2: Inodes, i: nat,
                       off: nat, bytes: seq<byte>)
    requires SameBytes(sb, d0, n0, d1, n1) && BytesWritten(sb, d1, n1, d2, n2, i, off, bytes)
    ensures BytesWritten(sb, d0, n0, d2, n2, i, off, bytes)
  {
    forall j, x: nat | j in n0 && x < MAXFILE * BSIZE
      ensures FileByte(sb, d2, n2, j, x) ==
              if j == i && off <= x < off + |bytes| then bytes[x - off] else FileByte(sb, d0, n0, j, x)
    {
      assert FileByte(sb, d1, n1, j, x) == FileByte(sb, d0, n0, j, x);
    }
  }

  lemma SameIsNoBytes(sb: Super, d0: Disk, n0: Inodes, d1: Disk, n1: Inodes, i: nat, off: nat)
    requires SameBytes(sb, d0, n0, d1, n1)
    ensures BytesWritten(sb, d0, n0, d1, n1, i, off, [])
  {
  }

  lemma ChunkFails(sb: Super, s: FsState, m: FsState, i: nat, off: nat, bytes: seq<byte>)
    requires off < MAXFILE * BSIZE && Mapped(sb, s, m, i, off / BSIZE, 0)
    ensures ChunkWritten(sb, s, m, i, off, bytes, false) && ChunkLogged(sb, s, m, i, off / BSIZE, false)
  {
    hide Owned, Marked, Used, SameBytes, BytesWritten, FileByte;
    SameIsNoBytes(sb, s.disk, s.inodes, m.disk, m.inodes, i, off);
  }

  lemma ChunkSucceeds(sb: Super, s: FsState, m: FsState, i: nat, off: nat, bytes: seq<byte>, a: nat)
    requires off < MAXFILE * BSIZE && off % BSIZE + |bytes| <= BSIZE && a != 0 && Mapped(sb, s, m, i, off / BSIZE, a)
    ensures a < |m.disk|
    ensures var t := FsState(m.disk[a := Patch(m.disk[a], off % BSIZE, bytes)], m.inodes, m.owner, m.logged + {a});
            ChunkWritten(sb, s, t, i, off, bytes, true) && ChunkLogged(sb, s, t, i, off / BSIZE, true)
  {
    hide Owned, Marked, Used, SameBytes, BytesWritten, FileByte, SameAddrs;
    PatchBytes(sb, m.disk, m.inodes, m.owner, i, off, bytes);
    var d2 := m.disk[a := Patch(m.disk[a], off % BSIZE, bytes)];
    GrewAfterWrite(sb, s.disk, s.inodes, m.disk, m.inodes, d2, i);
    BytesAfterSame(sb, s.disk, s.inodes, m.disk, m.inodes, d2, m.inodes, i, off, bytes);
    BlockInRange(sb, m.disk, m.inodes, m.owner, {}, i, off / BSIZE);
    SameBlockOf(sb, m.disk, d2, m.inodes, i, off / BSIZE);
  }

  lemma SameBlockOf(sb: Super, d0: Disk, d1: Disk, inodes: Inodes, i: nat, bn: nat)
    requires SameAddrs(sb, d0, d1, inodes) && i in inodes && bn < MAXFILE
    ensures BlockOf(sb, d1, inodes[i], bn) == BlockOf(sb, d0, inodes[i], bn)
  {
    assert Addr(sb, d1, inodes, Slot(i, bn)) == Addr(sb, d0, inodes, Slot(i, bn));
  }

  // ----- several chunks -----

  /** Since s, `done` has been written to file i at `off`, and nothing else. */
  ghost predicate Progress(sb: Super, s: FsState, t: FsState, i: nat, off: nat, done: seq<byte>) {
    && Ok(sb, s, {}) && Ok(sb, t, {}) && off + |done| <= MAXFILE * BSIZE
    && Grew(sb, s.disk, s.inodes, t.disk, t.inodes, i)
    && (forall b: nat :: b < sb.bmapstart ==> t.disk[b] == s.disk[b])
    && BytesWritten(sb, s.disk, s.inodes, t.disk, t.inodes, i, off, done)
    && Covered(sb, t, i, off, off + |done|)
  }

  /** Every byte position of the range has a block. */
  ghost predicate Covered(sb: Super, t: FsState, i: nat, lo: nat, hi: nat)
    requires Ok(sb, t, {}) && i in t.inodes && hi <= MAXFILE * BSIZE
  {
    forall x: nat :: lo <= x < hi ==> BlockOf(sb, t.disk, t.inodes[i], x / BSIZE) != 0
  }

  lemma ProgressFacts(sb: Super, s: FsState, t: FsState, i: nat, off: nat, done: seq<byte>)
    requires Progress(sb, s, t, i, off, done)
    ensures Ok(sb, s, {}) && Ok(sb, t, {}) && Grew(sb, s.disk, s.inodes, t.disk, t.inodes, i)
    ensures i in s.inodes && i in t.inodes && t.inodes[i].size == s.inodes[i].size
  {
    hide Owned, Marked, BytesWritten, Covered;
  }

  lemma ChunkFacts(sb: Super, s: FsState, t: FsState, i: nat, off: nat, bytes: seq<byte>, ok: bool)
    requires ChunkWritten(sb, s, t, i, off, bytes, ok)
    ensures Ok(sb, t, {}) && Grew(sb, s.disk, s.inodes, t.disk, t.inodes, i)
    ensures !ok ==> Full(sb, t.disk)
  {
    hide Owned, Marked, BytesWritten;
  }

  lemma ProgressStarts(sb: Super, s: FsState, i: nat, off: nat)
    requires Ok(sb, s, {}) && i in s.inodes && off <= MAXFILE * BSIZE
    ensures Progress(sb, s, s, i, off, [])
  {
  }

  lemma BytesTrans(sb: Super, s: FsState, t: FsState, u: FsState, i: nat, off: nat, done: seq<byte>, bytes: seq<byte>)
    requires BytesWritten(sb, s.disk, s.inodes, t.disk, t.inodes, i, off, done)
    requires BytesWritten(sb, t.disk, t.inodes, u.disk, u.inodes, i, off + |done|, bytes)
    ensures BytesWritten(sb, s.disk, s.inodes, u.disk, u.inodes, i, off, done + bytes)
  {
    hide FileByte;
    forall j, x: nat | j in s.inodes && x < MAXFILE * BSIZE
      ensures FileByte(sb, u.disk, u.inodes, j, x) ==
              if j == i && off <= x < off + |done + bytes| then (done + bytes)[x - off]
                else FileByte(sb, s.disk, s.inodes, j, x)
    {
      assert FileByte(sb, t.disk, t.inodes, j, x) ==
             if j == i && off <= x < off + |done| then done[x - off] else FileByte(sb, s.disk, s.inodes, j, x);
    }
  }

  lemma CoveredGrows(sb: Super, t: FsState, u: FsState, i: nat, lo: nat, mid: nat, hi: nat)
    requires Ok(sb, t, {}) && Ok(sb, u, {}) && Grew(sb, t.disk, t.inodes, u.disk, u.inodes, i)
    requires mid <= hi <= MAXFILE * BSIZE && Covered(sb, t, i, lo, mid)
    requires mid < hi ==> hi <= (mid / BSIZE + 1) * BSIZE && BlockOf(sb, u.disk, u.inodes[i], mid / BSIZE) != 0
    ensures Covered(sb, u, i, lo, hi)
  {
    hide Owned, Marked;
    forall x: nat | lo <= x < hi
      ensures BlockOf(sb, u.disk, u.inodes[i], x / BSIZE) != 0
    {
      if x < mid {
        assert Addr(sb, t.disk, t.inodes, Slot(i, x / BSIZE)) == BlockOf(sb, t.disk, t.inodes[i], x / BSIZE);
        assert Addr(sb, u.disk, u.inodes, Slot(i, x / BSIZE)) == BlockOf(sb, u.disk, u.inodes[i], x / BSIZE);
      } else {
        assert x / BSIZE == mid / BSIZE;
      }
    }
  }

  lemma ProgressStep(sb: Super, s: FsState, t: FsState, u: FsState, i: nat, off: nat, done: seq<byte>,
                     bytes: seq<byte>, ok: bool)
    requires Progress(sb, s, t, i, off, done)
    requires ChunkWritten(sb, t, u, i, off + |done|, bytes, ok)
    requires (off + |done|) % BSIZE + |bytes| <= BSIZE && off + |done| + |bytes| <= MAXFILE * BSIZE
    ensures Progress(sb, s, u, i, off, if ok then done + bytes else done)
  {
    hide Owned, Marked, Used, BytesWritten, FileByte, Covered, Grew;
    GrewTrans(sb, s.disk, s.inodes, t.disk, t.inodes, u.disk, u.inodes, i);
    var now := if ok then bytes else [];
    BytesTrans(sb, s, t, u, i, off, done, now);
    CoveredGrows(sb, t, u, i, off, off + |done|, off + |done| + |now|);
    assert done + [] == done;
  }

  // ----- the end of writei: the size, then iupdate -----

  function WithSize(inodes: Inodes, i: nat, size: nat): (r: Inodes)
    requires i in inodes
  {
    inodes[i := inodes[i].(size := size)]
  }

  /** The size field takes no part in addresses. */
  lemma ResizeKeeps(sb: Super, t: FsState, i: nat, size: nat)
    requires Ok(sb, t, {}) && i in t.inodes && size <= MAXFILE * BSIZE
    ensures var n1 := WithSize(t.inodes, i, size);
            && Inv(sb, t.disk, n1, t.owner, {}) && SameBytes(sb, t.disk, t.inodes, t.disk, n1)
            && forall s :: IsSlot(t.inodes, s) ==> Addr(sb, t.disk, n1, s) == Addr(sb, t.disk, t.inodes, s)
  {
    var n1 := WithSize(t.inodes, i, size);
    forall s | IsSlot(t.inodes, s)
      ensures Addr(sb, t.disk, n1, s) == Addr(sb, t.disk, t.inodes, s)
    {
    }
    forall j, x: nat | j in t.inodes && x < MAXFILE * BSIZE
      ensures FileByte(sb, t.disk, n1, j, x) == FileByte(sb, t.disk, t.inodes, j, x)
    {
      assert BlockOf(sb, t.disk, n1[j], x / BSIZE) == BlockOf(sb, t.disk, t.inodes[j], x / BSIZE);
    }
  }

  ghost predicate Holeless(sb: Super, s: FsState)
    requires Ok(sb, s, {})
  {
    forall j :: j in s.inodes ==> HoleFree(sb, s.disk, s.inodes[j])
  }

  /** Every inode's place on disk holds it. */
  ghost predicate Stored(sb: Super, s: FsState)
    requires Ok(sb, s, {})
  {
    forall j :: j in s.inodes ==> OnDisk(sb, s.disk, j) == s.inodes[j]
  }

  lemma StoredAfter(sb: Super, s: FsState, u: FsState, i: nat)
    requires Ok(sb, s, {}) && Ok(sb, u, {}) && Stored(sb, s) && i in u.inodes && u.inodes.Keys == s.inodes.Keys
    requires forall j :: j in s.inodes && j != i ==> u.inodes[j] == s.inodes[j]
    requires OnDisk(sb, u.disk, i) == u.inodes[i] && OtherInodesKept(sb, s.disk, u.disk, i)
    ensures Stored(sb, u)
  {
    hide Owned, Marked, OnDisk;
  }

  lemma StoredRelogged(sb: Super, s: FsState, logged: set<nat>)
    requires Ok(sb, s, {}) && Stored(sb, s)
    ensures Ok(sb, s.(logged := logged), {}) && Stored(sb, s.(logged := logged))
  {
    hide Owned, Marked, OnDisk;
  }

  function Max(a: nat, b: nat): nat {
    if a >= b then a else b
  }

  /** The file system after writei returns |done|: size set, inode written back. */
  ghost predicate WriteEnd(sb: Super, t: FsState, u: FsState, i: nat, end: nat)
    requires Ok(sb, t, {}) && i in t.inodes && end <= MAXFILE * BSIZE
  {
    var n1 := WithSize(t.inodes, i, Max(t.inodes[i].size, end));
    var r := FsState(t.disk, n1, t.owner, t.logged);
    && Ok(sb, r, {})
    && u == FsState(Updated(sb, r, i), n1, t.owner, t.logged + {IBlock(sb, i)})
  }

  /** What writei promises: the file's bytes, everybody else's bytes, and the inode on disk. */
  ghost predicate Wrote(sb: Super, s: FsState, u: FsState, i: nat, off: nat, done: seq<byte>)
    requires Ok(sb, s, {}) && i in s.inodes && off <= s.inodes[i].size
  {
    && Ok(sb, u, {}) && Holeless(sb, u) && u.inodes.Keys == s.inodes.Keys && u.inodes[i].type_ == s.inodes[i].type_
    && Content(sb, u.disk, u.inodes, i) == Splice(Content(sb, s.disk, s.inodes, i), off, done)
    && (forall j :: j in s.inodes && j != i ==>
          u.inodes[j] == s.inodes[j] && Content(sb, u.disk, u.inodes, j) == Content(sb, s.disk, s.inodes, j))
    && OnDisk(sb, u.disk, i) == u.inodes[i] && OtherInodesKept(sb, s.disk, u.disk, i)
  }

  lemma EndBytes(sb: Super, s: FsState, t: FsState, u: FsState, i: nat, off: nat, done: seq<byte>)
    requires Progress(sb, s, t, i, off, done) && WriteEnd(sb, t, u, i, off + |done|)
    ensures Ok(sb, u, {}) && BytesWritten(sb, s.disk, s.inodes, u.disk, u.inodes, i, off, done)
    ensures forall q :: IsSlot(t.inodes, q) ==> Addr(sb, u.disk, u.inodes, q) == Addr(sb, t.disk, t.inodes, q)
    ensures OnDisk(sb, u.disk, i) == u.inodes[i] && OtherInodesKept(sb, t.disk, u.disk, i)
  {
    hide Owned, Marked, Used, FileByte, Updated, Addr, OnDisk, OtherInodesKept;
    ResizeKeeps(sb, t, i, Max(t.inodes[i].size, off + |done|));
    var r := FsState(t.disk, u.inodes, t.owner, t.logged);
    UpdateStores(sb, r, i);
    forall j, x: nat | j in s.inodes && x < MAXFILE * BSIZE
      ensures FileByte(sb, u.disk, u.inodes, j, x) ==
              if j == i && off <= x < off + |done| then done[x - off] else FileByte(sb, s.disk, s.inodes, j, x)
    {
      assert FileByte(sb, u.disk, u.inodes, j, x) == FileByte(sb, r.disk, r.inodes, j, x) ==
        FileByte(sb, t.disk, t.inodes, j, x);
    }
    forall q | IsSlot(t.inodes, q)
      ensures Addr(sb, u.disk, u.inodes, q) == Addr(sb, t.disk, t.inodes, q)
    {
      assert Addr(sb, u.disk, u.inodes, q) == Addr(sb, r.disk, r.inodes, q);
    }
  }

  lemma OtherInodesTrans(sb: Super, s: FsState, t: FsState, u: FsState, i: nat)
    requires ValidSuper(sb) && |s.disk| == |t.disk| == |u.disk| == sb.size
    requires forall b: nat :: b < sb.bmapstart ==> t.disk[b] == s.disk[b]
    requires OtherInodesKept(sb, t.disk, u.disk, i)
    ensures OtherInodesKept(sb, s.disk, u.disk, i)
  {
    forall j: nat | j < sb.ninodes && j != i
      ensures OnDisk(sb, u.disk, j) == OnDisk(sb, s.disk, j)
    {
      IBlockRange(sb, j);
      assert OnDisk(sb, u.disk, j) == OnDisk(sb, t.disk, j);
    }
  }

  /** No holes before, no holes after: positions below the new size are below the old one or were just written. */
  lemma EndHoleless(sb: Super, s: FsState, t: FsState, u: FsState, i: nat, off: nat, done: seq<byte>)
    requires Progress(sb, s, t, i, off, done) && WriteEnd(sb, t, u, i, off + |done|) && Ok(sb, u, {})
    requires off <= s.inodes[i].size && Holeless(sb, s)
    requires forall q :: IsSlot(t.inodes, q) ==> Addr(sb, u.disk, u.inodes, q) == Addr(sb, t.disk, t.inodes, q)
    ensures Holeless(sb, u)
  {
    hide Owned, Marked, Used, FileByte, Updated, BytesWritten;
    forall j, bn: nat | j in u.inodes && bn < MAXFILE && bn * BSIZE < u.inodes[j].size
      ensures BlockOf(sb, u.disk, u.inodes[j], bn) != 0
    {
      var q := Slot(j, bn);
      assert Addr(sb, u.disk, u.inodes, q) == BlockOf(sb, u.disk, u.inodes[j], bn);
      assert Addr(sb, t.disk, t.inodes, q) == BlockOf(sb, t.disk, t.inodes[j], bn);
      assert Addr(sb, s.disk, s.inodes, q) == BlockOf(sb, s.disk, s.inodes[j], bn);
      if j == i && bn * BSIZE >= s.inodes[i].size {
        var x := bn * BSIZE;
        assert off <= x < off + |done| && x / BSIZE == bn;
      }
    }
  }

  lemma EndContent(sb: Super, s: FsState, u: FsState, i: nat, off: nat, done: seq<byte>)
    requires Ok(sb, s, {}) && Ok(sb, u, {}) && i in s.inodes && off <= s.inodes[i].size
    requires BytesWritten(sb, s.disk, s.inodes, u.disk, u.inodes, i, off, done)
    requires u.inodes[i].size == Max(s.inodes[i].size, off + |done|)
    ensures Content(sb, u.disk, u.inodes, i) == Splice(Content(sb, s.disk, s.inodes, i), off, done)
    ensures forall j :: j in s.inodes && j != i && u.inodes[j] == s.inodes[j] ==>
              Content(sb, u.disk, u.inodes, j) == Content(sb, s.disk, s.inodes, j)
  {
    hide Owned, Marked, FileByte;
  }

  /** Putting it together. */
  lemma WriteEnds(sb: Super, s: FsState, t: FsState, u: FsState, i: nat, off: nat, done: seq<byte>)
    requires Progress(sb, s, t, i, off, done) && WriteEnd(sb, t, u, i, off + |done|)
    requires off <= s.inodes[i].size && Holeless(sb, s)
    ensures Wrote(sb, s, u, i, off, done)
  {
    hide Owned, Marked, Used, FileByte, Updated, BytesWritten, OnDisk, OtherInodesKept, Addr, Content, Splice;
    hide Covered, Holeless;
    EndBytes(sb, s, t, u, i, off, done);
    EndHoleless(sb, s, t, u, i, off, done);
    EndContent(sb, s, u, i, off, done);
    OtherInodesTrans(sb, s, t, u, i);
  }

  // ----- which blocks one transaction touches -----

  function If(c: bool, s: set<nat>): (r: set<nat>) {
    if c then s else {}
  }

  /** Blocks owned in t that nobody owned in s. */
  ghost function NewBlocks(s: FsState, t: FsState): (r: set<nat>) {
    set b | b in t.owner && b !in s.owner
  }

  /** The disk blocks of blocks [lo, hi) of file i. */
  ghost function FileBlocks(t: FsState, i: nat, lo: nat, hi: nat): (r: set<nat>) {
    set b | b in t.owner && t.owner[b].inum == i && lo <= t.owner[b].pos < hi
  }

  /** The file's indirect block, if it has one. */
  ghost function IndirectBlock(t: FsState, i: nat): (r: set<nat>) {
    set b | b in t.owner && t.owner[b] == Slot(i, IND)
  }

  /** The indirect block is new, or lists a new block. */
  ghost predicate IndirectChanged(s: FsState, t: FsState) {
    exists b :: b in NewBlocks(s, t) && t.owner[b].pos >= NDIRECT
  }

  ghost function IndirectLogged(s: FsState, t: FsState, i: nat): (r: set<nat>) {
    If(IndirectChanged(s, t), IndirectBlock(t, i))
  }

  /** The bitmap blocks with the bits of these blocks. */
  ghost function BitmapsOf(sb: Super, bs: set<nat>): (r: set<nat>) {
    set b | b in bs :: sb.bmapstart + b / BPB
  }

  /** Everything handed to log_write while blocks [lo, hi) of file i are written, from s to t. */
  ghost function ChunkLogs(sb: Super, s: FsState, t: FsState, i: nat, lo: nat, hi: nat): (r: set<nat>) {
    FileBlocks(t, i, lo, hi) + BitmapsOf(sb, NewBlocks(s, t)) + IndirectLogged(s, t, i)
  }

  /** Nobody lost a block, and new blocks went to the written part of file i or became its indirect block. */
  ghost predicate OwnersGrew(s: FsState, t: FsState, i: nat, lo: nat, hi: nat) {
    && (forall b :: b in s.owner ==> b in t.owner && t.owner[b] == s.owner[b])
    && (forall b :: b in NewBlocks(s, t) ==>
      t.owner[b].inum == i && (lo <= t.owner[b].pos < hi || t.owner[b].pos == IND))
  }

  /** After writing blocks [lo, hi): exactly what has been logged, and to whom the new blocks went. */
  ghost predicate LogExact(sb: Super, s: FsState, t: FsState, i: nat, lo: nat, hi: nat) {
    && Ok(sb, s, {}) && Ok(sb, t, {}) && i in s.inodes && i in t.inodes && lo <= hi <= MAXFILE
    && (forall bn: nat :: lo <= bn < hi ==> BlockOf(sb, t.disk, t.inodes[i], bn) != 0)
    && OwnersGrew(s, t, i, lo, hi)
    && t.logged == s.logged + ChunkLogs(sb, s, t, i, lo, hi)
  }

  lemma LogStarts(sb: Super, s: FsState, i: nat, lo: nat)
    requires Ok(sb, s, {}) && i in s.inodes && lo <= MAXFILE
    ensures LogExact(sb, s, s, i, lo, lo)
  {
  }

  /** The blocks one pass can take: `a` for file block bn and `ind` for the list of blocks. */
  datatype Pass = Pass(bn: nat, a: nat, ind: nat, isNew: bool, indNew: bool, ok: bool)

  /** The pass as ownership and log entries alone. */
  ghost predicate PassDone(sb: Super, t: FsState, u: FsState, i: nat, p: Pass) {
    && (p.ok ==> p.a in u.owner && u.owner[p.a] == Slot(i, p.bn))
    && (forall b :: b in u.owner && u.owner[b] == Slot(i, p.bn) ==> p.ok && b == p.a)
    && (p.isNew ==> p.ok && p.a !in t.owner && (p.bn >= NDIRECT ==> p.ind in u.owner && u.owner[p.ind] == Slot(i, IND)))
    && (p.indNew ==> p.ind !in t.owner && p.ind in u.owner && u.owner[p.ind] == Slot(i, IND))
    && (forall b :: b in u.owner <==> b in t.owner || (p.indNew && b == p.ind) || (p.isNew && b == p.a))
    && (forall b :: b in t.owner ==> u.owner[b] == t.owner[b])
    && (forall b :: b in u.owner && u.owner[b] == Slot(i, IND) ==> b == p.ind)
    && u.logged == t.logged
                   + If(p.indNew, {sb.bmapstart + p.ind / BPB, p.ind})
                   + If(p.isNew, {sb.bmapstart + p.a / BPB, p.a} + If(p.bn >= NDIRECT, {p.ind}))
                   + If(p.ok, {p.a})
  }

  /** A slot holds a block exactly if it owns it. */
  lemma SlotOwns(sb: Super, u: FsState, slot: Slot)
    requires Ok(sb, u, {}) && IsSlot(u.inodes, slot)
    ensures var a := Addr(sb, u.disk, u.inodes, slot);
            && (a != 0 ==> a in u.owner && u.owner[a] == slot)
            && forall b :: b in u.owner && u.owner[b] == slot ==> b == a && a != 0
  {
    hide Marked;
    ZeroNotOwned(sb, u);
  }

  lemma PassOf(sb: Super, t: FsState, u: FsState, i: nat, bn: nat, ok: bool) returns (p: Pass)
    requires Ok(sb, t, {}) && Ok(sb, u, {}) && Grew(sb, t.disk, t.inodes, u.disk, u.inodes, i) && bn < MAXFILE
    requires ChunkLogged(sb, t, u, i, bn, ok)
    ensures p.bn == bn && p.ok == ok && PassDone(sb, t, u, i, p)
  {
    hide Marked, Owned, Grew;
    GrewKeys(sb, t, u, i);
    var a, ind := BlockOf(sb, u.disk, u.inodes[i], bn), u.inodes[i].addrs[NDIRECT];
    var ind0 := t.inodes[i].addrs[NDIRECT];
    p := Pass(bn, a, ind, BlockOf(sb, t.disk, t.inodes[i], bn) == 0 && a != 0, ind0 == 0 && ind != 0, ok);
    SlotOwns(sb, u, Slot(i, bn));
    SlotOwns(sb, u, Slot(i, IND));
    assert Addr(sb, u.disk, u.inodes, Slot(i, bn)) == a && Addr(sb, u.disk, u.inodes, Slot(i, IND)) == ind;
  }

  lemma GrewKeys(sb: Super, t: FsState, u: FsState, i: nat)
    requires Grew(sb, t.disk, t.inodes, u.disk, u.inodes, i)
    ensures i in t.inodes && i in u.inodes
  {
  }

  lemma PassNew(sb: Super, s: FsState, t: FsState, u: FsState, i: nat, lo: nat, p: Pass)
    requires OwnersGrew(s, t, i, lo, p.bn) && PassDone(sb, t, u, i, p) && lo <= p.bn < MAXFILE
    ensures NewBlocks(s, u) == NewBlocks(s, t) + If(p.indNew, {p.ind}) + If(p.isNew, {p.a})
  {
  }

  lemma PassOwners(sb: Super, s: FsState, t: FsState, u: FsState, i: nat, lo: nat, p: Pass)
    requires OwnersGrew(s, t, i, lo, p.bn) && PassDone(sb, t, u, i, p) && lo <= p.bn < MAXFILE
    ensures OwnersGrew(s, u, i, lo, p.bn + One(p.ok))
  {
    PassNew(sb, s, t, u, i, lo, p);
    forall b | b in NewBlocks(s, u)
      ensures u.owner[b].inum == i && (lo <= u.owner[b].pos < p.bn + One(p.ok) || u.owner[b].pos == IND)
    {
      if b in NewBlocks(s, t) { assert u.owner[b] == t.owner[b]; }
    }
  }

  lemma PassFile(sb: Super, t: FsState, u: FsState, i: nat, lo: nat, p: Pass)
    requires PassDone(sb, t, u, i, p) && lo <= p.bn < MAXFILE
    ensures FileBlocks(u, i, lo, p.bn + One(p.ok)) == FileBlocks(t, i, lo, p.bn) + If(p.ok, {p.a})
  {
    var f, g := FileBlocks(t, i, lo, p.bn) + If(p.ok, {p.a}), FileBlocks(u, i, lo, p.bn + One(p.ok));
    forall b | b in g
      ensures b in f
    {
      if u.owner[b].pos == p.bn { assert u.owner[b] == Slot(i, p.bn); }
    }
    forall b | b in f
      ensures b in g
    {
    }
  }

  lemma PassIndirect(sb: Super, s: FsState, t: FsState, u: FsState, i: nat, lo: nat, p: Pass)
    requires OwnersGrew(s, t, i, lo, p.bn) && PassDone(sb, t, u, i, p) && lo <= p.bn < MAXFILE
    ensures IndirectChanged(s, u) <==> IndirectChanged(s, t) || p.indNew || (p.isNew && p.bn >= NDIRECT)
    ensures IndirectLogged(s, u, i) == IndirectLogged(s, t, i) + If(p.indNew || (p.isNew && p.bn >= NDIRECT), {p.ind})
  {
    PassNew(sb, s, t, u, i, lo, p);
  }

  lemma BitmapsAdd(sb: Super, bs: set<nat>, b: nat)
    ensures BitmapsOf(sb, bs + {b}) == BitmapsOf(sb, bs) + {sb.bmapstart + b / BPB}
  {
    assert b in bs + {b};
  }

  lemma BitmapsAddIf(sb: Super, bs: set<nat>, c: bool, b: nat)
    ensures BitmapsOf(sb, bs + If(c, {b})) == BitmapsOf(sb, bs) + If(c, {sb.bmapstart + b / BPB})
  {
    BitmapsAdd(sb, bs, b);
    assert bs + {} == bs;
  }

  lemma PassCovered(sb: Super, t: FsState, u: FsState, i: nat, lo: nat, hi: nat, ok: bool)
    requires Ok(sb, t, {}) && Ok(sb, u, {}) && Grew(sb, t.disk, t.inodes, u.disk, u.inodes, i) && lo <= hi < MAXFILE
    requires ChunkLogged(sb, t, u, i, hi, ok)
    requires forall bn: nat :: lo <= bn < hi ==> BlockOf(sb, t.disk, t.inodes[i], bn) != 0
    ensures forall bn: nat :: lo <= bn < hi + One(ok) ==> BlockOf(sb, u.disk, u.inodes[i], bn) != 0
  {
    hide Owned, Marked, MapOwners;
    forall bn: nat | lo <= bn < hi
      ensures BlockOf(sb, u.disk, u.inodes[i], bn) != 0
    {
      assert Addr(sb, t.disk, t.inodes, Slot(i, bn)) == BlockOf(sb, t.disk, t.inodes[i], bn);
      assert Addr(sb, u.disk, u.inodes, Slot(i, bn)) == BlockOf(sb, u.disk, u.inodes[i], bn);
    }
  }

  lemma PassLogs(sb: Super, s: FsState, t: FsState, u: FsState, i: nat, lo: nat, p: Pass)
    requires OwnersGrew(s, t, i, lo, p.bn) && PassDone(sb, t, u, i, p) && lo <= p.bn < MAXFILE
    requires t.logged == s.logged + ChunkLogs(sb, s, t, i, lo, p.bn)
    ensures u.logged == s.logged + ChunkLogs(sb, s, u, i, lo, p.bn + One(p.ok))
  {
    hide OwnersGrew, IndirectLogged, NewBlocks, FileBlocks, BitmapsOf;
    PassNew(sb, s, t, u, i, lo, p);
    PassFile(sb, t, u, i, lo, p);
    PassIndirect(sb, s, t, u, i, lo, p);
    BitmapsAddIf(sb, NewBlocks(s, t), p.indNew, p.ind);
    BitmapsAddIf(sb, NewBlocks(s, t) + If(p.indNew, {p.ind}), p.isNew, p.a);
  }

  /** One more pass. */
  lemma LogStep(sb: Super, s: FsState, t: FsState, u: FsState, i: nat, lo: nat, hi: nat, ok: bool)
    requires LogExact(sb, s, t, i, lo, hi) && hi < MAXFILE
    requires Ok(sb, u, {}) && Grew(sb, t.disk, t.inodes, u.disk, u.inodes, i) && ChunkLogged(sb, t, u, i, hi, ok)
    ensures LogExact(sb, s, u, i, lo, hi + One(ok))
  {
    hide Owned, Marked, ChunkLogs, OwnersGrew, PassDone, ChunkLogged;
    var p := PassOf(sb, t, u, i, hi, ok);
    PassOwners(sb, s, t, u, i, lo, p);
    PassLogs(sb, s, t, u, i, lo, p);
    PassCovered(sb, t, u, i, lo, hi, ok);
  }

  /** Only past the old end of the file can a block be missing. */
  lemma MissingBlock(sb: Super, s: FsState, t: FsState, u: FsState, i: nat, off: nat, done: seq<byte>, at: nat,
                     bytes: seq<byte>)
    requires Progress(sb, s, u, i, off, done) && ChunkWritten(sb, t, u, i, at, bytes, false) && Holeless(sb, s)
    ensures i in s.inodes && s.inodes[i].size <= at
  {
    hide Owned, Marked, BytesWritten, Covered;
    var bn := at / BSIZE;
    assert HoleFree(sb, s.disk, s.inodes[i]);
    assert Addr(sb, s.disk, s.inodes, Slot(i, bn)) == BlockOf(sb, s.disk, s.inodes[i], bn);
    assert Addr(sb, u.disk, u.inodes, Slot(i, bn)) == BlockOf(sb, u.disk, u.inodes[i], bn);
    assert bn * BSIZE <= at;
  }

  /** A write that starts inside a block starts in one that the file already has. */
  lemma FirstBlockExists(sb: Super, s: FsState, i: nat, off: nat)
    requires Ok(sb, s, {}) && Holeless(sb, s) && i in s.inodes && off <= s.inodes[i].size && off % BSIZE != 0
    ensures off / BSIZE < MAXFILE && BlockOf(sb, s.disk, s.inodes[i], off / BSIZE) != 0
  {
    assert off / BSIZE * BSIZE < off;
    assert HoleFree(sb, s.disk, s.inodes[i]);
  }

  // ----- how many they are -----

  /** One past the last file block of a write of r bytes at off. */
  function EndBlock(off: nat, r: nat): (e: nat)
    ensures off / BSIZE <= e
  {
    if r == 0 then off / BSIZE else (off + r - 1) / BSIZE + 1
  }

  /** The passes a write of up to three blocks can take. */
  lemma PassCount(off: nat, r: nat)
    requires r <= 3 * BSIZE
    ensures EndBlock(off, r) - off / BSIZE <= 3 + One(off % BSIZE != 0)
  {
  }

  /** Everything writei hands to log_write. */
  ghost function WriteLogs(sb: Super, s: FsState, t: FsState, i: nat, lo: nat, hi: nat): (r: set<nat>) {
    ChunkLogs(sb, s, t, i, lo, hi) + {IBlock(sb, i)}
  }

  lemma {:induction false} BitmapsFew(sb: Super, bs: set<nat>)
    ensures |BitmapsOf(sb, bs)| <= |bs|
    decreases |bs|
  {
    if bs != {} {
      var b :| b in bs;
      BitmapsFew(sb, bs - {b});
      BitmapsAdd(sb, bs - {b}, b);
      assert bs - {b} + {b} == bs;
    }
  }

  /** Mapped file blocks lie in as many disk blocks. */
  lemma {:induction false} FileBlocksCount(sb: Super, t: FsState, i: nat, lo: nat, hi: nat)
    requires Ok(sb, t, {}) && i in t.inodes && lo <= hi <= MAXFILE
    requires forall bn: nat :: lo <= bn < hi ==> BlockOf(sb, t.disk, t.inodes[i], bn) != 0
    ensures |FileBlocks(t, i, lo, hi)| == hi - lo
    decreases hi
  {
    hide Owned, Marked;
    if lo == hi {
      assert FileBlocks(t, i, lo, hi) == {};
    } else {
      FileBlocksCount(sb, t, i, lo, hi - 1);
      var a := BlockOf(sb, t.disk, t.inodes[i], hi - 1);
      SlotOwns(sb, t, Slot(i, hi - 1));
      assert Addr(sb, t.disk, t.inodes, Slot(i, hi - 1)) == a;
      assert FileBlocks(t, i, lo, hi) == FileBlocks(t, i, lo, hi - 1) + {a};
    }
  }

  lemma IndirectCount(sb: Super, t: FsState, i: nat)
    requires Ok(sb, t, {}) && i in t.inodes
    ensures IndirectBlock(t, i) == If(t.inodes[i].addrs[NDIRECT] != 0, {t.inodes[i].addrs[NDIRECT]})
  {
    hide Used;
    assert Addr(sb, t.disk, t.inodes, Slot(i, IND)) == t.inodes[i].addrs[NDIRECT];
    assert 0 !in t.owner;
  }

  /** A file with a block beyond the direct ones has an indirect block. */
  lemma IndirectThere(sb: Super, t: FsState, i: nat, b: nat)
    requires Ok(sb, t, {}) && i in t.inodes && b in t.owner && t.owner[b].inum == i && t.owner[b].pos >= NDIRECT
    ensures t.inodes[i].addrs[NDIRECT] != 0
  {
    hide Used;
    assert Addr(sb, t.disk, t.inodes, t.owner[b]) == b;
  }

  lemma IndirectLoggedCount(sb: Super, s: FsState, t: FsState, i: nat, lo: nat, hi: nat)
    requires LogExact(sb, s, t, i, lo, hi)
    ensures |IndirectLogged(s, t, i)| == One(IndirectChanged(s, t))
  {
    hide Owned, Marked;
    IndirectCount(sb, t, i);
    if IndirectChanged(s, t) {
      var b :| b in NewBlocks(s, t) && t.owner[b].pos >= NDIRECT;
      IndirectThere(sb, t, i, b);
    }
  }

  lemma BitmapsInRange(sb: Super, t: FsState, bs: set<nat>)
    requires Ok(sb, t, {}) && bs <= t.owner.Keys
    ensures forall c :: c in BitmapsOf(sb, bs) ==> sb.bmapstart <= c < sb.datastart
  {
    hide Owned, Used;
    forall c | c in BitmapsOf(sb, bs)
      ensures sb.bmapstart <= c < sb.datastart
    {
      var b :| b in bs && c == sb.bmapstart + b / BPB;
      assert c == BBlock(sb, b);
    }
  }

  lemma DataInRange(sb: Super, t: FsState, bs: set<nat>)
    requires Ok(sb, t, {}) && bs <= t.owner.Keys
    ensures forall b :: b in bs ==> sb.datastart <= b
  {
    hide Owned, Used;
  }

  lemma AddUp(data: set<nat>, bitmaps: set<nat>, ind: set<nat>, x: nat, lo: nat, hi: nat)
    requires (forall b :: b in data ==> hi <= b) && (forall b :: b in ind ==> hi <= b)
    requires (forall b :: b in bitmaps ==> lo <= b < hi) && x < lo <= hi
    requires data !! ind
    ensures |data + bitmaps + ind + {x}| == |data| + |bitmaps| + |ind| + 1
  {
    assert data !! bitmaps;
    assert data + bitmaps !! ind;
    assert data + bitmaps + ind !! {x};
  }

  /** The four kinds of block are different blocks, so they add up: data, bitmap, indirect, inode. */
  lemma LogCount(sb: Super, s: FsState, t: FsState, i: nat, lo: nat, hi: nat)
    requires LogExact(sb, s, t, i, lo, hi)
    ensures |WriteLogs(sb, s, t, i, lo, hi)| ==
      hi - lo + |BitmapsOf(sb, NewBlocks(s, t))| + One(IndirectChanged(s, t)) + 1
  {
    hide Owned, Marked, BitmapsOf, IndirectChanged, OwnersGrew;
    FileBlocksCount(sb, t, i, lo, hi);
    IndirectLoggedCount(sb, s, t, i, lo, hi);
    IBlockRange(sb, i);
    var data, bitmaps, ind := FileBlocks(t, i, lo, hi), BitmapsOf(sb, NewBlocks(s, t)), IndirectLogged(s, t, i);
    BitmapsInRange(sb, t, NewBlocks(s, t));
    DataInRange(sb, t, data);
    DataInRange(sb, t, ind);
    AddUp(data, bitmaps, ind, IBlock(sb, i), sb.bmapstart, sb.datastart);
  }

  /** New blocks: the written ones that were not there, and perhaps the indirect block. */
  lemma NewCount(sb: Super, s: FsState, t: FsState, i: nat, off: nat, hi: nat)
    requires LogExact(sb, s, t, i, off / BSIZE, hi) && Holeless(sb, s) && off <= s.inodes[i].size
    ensures |NewBlocks(s, t)| <= Less(hi - off / BSIZE, One(off % BSIZE != 0)) + One(IndirectChanged(s, t))
  {
    hide Marked, Used, Holeless;
    var lo := off / BSIZE;
    var from := if lo < hi then lo + One(off % BSIZE != 0) else lo;
    if off % BSIZE != 0 {
      FirstBlockExists(sb, s, i, off);
      assert Addr(sb, s.disk, s.inodes, Slot(i, lo)) == BlockOf(sb, s.disk, s.inodes[i], lo);
    }
    FileBlocksCount(sb, t, i, from, hi);
    IndirectLoggedCount(sb, s, t, i, lo, hi);
    NewPlaces(sb, s, t, i, lo, hi, off % BSIZE != 0);
    SubsetSize(NewBlocks(s, t), FileBlocks(t, i, from, hi) + IndirectLogged(s, t, i));
  }

  function Less(a: nat, b: nat): nat {
    if a < b then 0 else a - b
  }

  lemma NewPlaces(sb: Super, s: FsState, t: FsState, i: nat, lo: nat, hi: nat, skip: bool)
    requires LogExact(sb, s, t, i, lo, hi)
    requires skip ==> lo < MAXFILE && BlockOf(sb, s.disk, s.inodes[i], lo) != 0
    ensures NewBlocks(s, t) <= FileBlocks(t, i, if lo < hi then lo + One(skip) else lo, hi) + IndirectLogged(s, t, i)
  {
    hide Owned, Marked, BlockOf, ChunkLogs;
    if skip && lo < hi {
      SlotOwns(sb, s, Slot(i, lo));
      SlotOwns(sb, t, Slot(i, lo));
      assert Addr(sb, s.disk, s.inodes, Slot(i, lo)) == BlockOf(sb, s.disk, s.inodes[i], lo);
    }
    forall b | b in NewBlocks(s, t)
      ensures b in FileBlocks(t, i, if lo < hi then lo + One(skip) else lo, hi) + IndirectLogged(s, t, i)
    {
      if t.owner[b].pos == IND { assert IndirectChanged(s, t); }
    }
  }

  /** What was logged fits a transaction's reservation; it fills it exactly when four blocks were written and four
      different bitmap blocks had bits set. */
  ghost predicate LogsFit(sb: Super, s: FsState, t: FsState, i: nat, lo: nat, hi: nat) {
    && |WriteLogs(sb, s, t, i, lo, hi)| <= MAXOPBLOCKS
    && (|WriteLogs(sb, s, t, i, lo, hi)| == MAXOPBLOCKS <==> hi - lo == 4 && |BitmapsOf(sb, NewBlocks(s, t))| == 4)
  }

  /** A chunk of filewrite fits one transaction: the file has no holes, so a write that starts inside a block does
      not have to allocate it. */
  lemma TransactionFits(sb: Super, s: FsState, t: FsState, i: nat, off: nat, hi: nat)
    requires LogExact(sb, s, t, i, off / BSIZE, hi) && Holeless(sb, s) && off <= s.inodes[i].size
    requires hi - off / BSIZE <= 3 + One(off % BSIZE != 0)
    ensures LogsFit(sb, s, t, i, off / BSIZE, hi)
  {
    hide Owned, Marked, Used, Holeless, WriteLogs, BitmapsOf, NewBlocks;
    LogCount(sb, s, t, i, off / BSIZE, hi);
    NewCount(sb, s, t, i, off, hi);
    BitmapsFew(sb, NewBlocks(s, t));
  }

  /** iupdate adds the inode's block, and owners stay. */
  lemma LogEnds(sb: Super, s: FsState, t: FsState, u: FsState, i: nat, lo: nat, hi: nat)
    requires LogExact(sb, s, t, i, lo, hi) && u.owner == t.owner && u.logged == t.logged + {IBlock(sb, i)}
    ensures OwnersGrew(s, u, i, lo, hi) && WriteLogs(sb, s, u, i, lo, hi) == WriteLogs(sb, s, t, i, lo, hi)
    ensures u.logged == s.logged + WriteLogs(sb, s, u, i, lo, hi)
    ensures LogsFit(sb, s, t, i, lo, hi) ==> LogsFit(sb, s, u, i, lo, hi)
  {
    hide Owned, Marked, BitmapsOf;
    assert NewBlocks(s, u) == NewBlocks(s, t) && IndirectChanged(s, u) == IndirectChanged(s, t);
  }

  /** All of it is inode blocks, bitmap blocks and data blocks. */
  lemma LogsInRange(sb: Super, s: FsState, t: FsState, i: nat, lo: nat, hi: nat)
    requires LogExact(sb, s, t, i, lo, hi)
    ensures forall b :: b in WriteLogs(sb, s, t, i, lo, hi) ==> sb.inodestart <= b < sb.size
  {
    hide Owned, Used, BitmapsOf, OwnersGrew, BlockOf;
    BitmapsInRange(sb, t, NewBlocks(s, t));
    IBlockRange(sb, i);
  }

  /** Only owners matter for which blocks are new. */
  lemma NewSame(s: FsState, e: FsState, v: FsState, u: FsState)
    requires s.owner == e.owner && u.owner == v.owner
    ensures NewBlocks(s, u) == NewBlocks(e, v)
  {
  }

  lemma WroteValid(sb: Super, s: FsState, u: FsState, i: nat, off: nat, done: seq<byte>)
    requires Ok(sb, s, {}) && i in s.inodes && off <= s.inodes[i].size && Wrote(sb, s, u, i, off, done) && Stored(sb, s)
    ensures Ok(sb, u, {}) && Holeless(sb, u) && Stored(sb, u) && u.inodes.Keys == s.inodes.Keys
  {
    hide Owned, Marked, Content, OnDisk, Holeless;
    StoredAfter(sb, s, u, i);
  }

  lemma UpdateKeepsFull(sb: Super, s: FsState, i: nat)
    requires Ok(sb, s, {}) && i in s.inodes
    ensures |Updated(sb, s, i)| == sb.size
    ensures Full(sb, s.disk) ==> Full(sb, Updated(sb, s, i))
  {
    hide Owned, Marked, Used;
    IBlockRange(sb, i);
    FullStays(sb, s.disk, Updated(sb, s, i));
  }

  // ----- several transactions -----

  lemma SpliceNothing(c: seq<byte>, off: nat)
    requires off <= |c|
    ensures Splice(c, off, []) == c
  {
  }

  lemma SpliceMore(c: seq<byte>, off: nat, a: seq<byte>, b: seq<byte>)
    requires off <= |c|
    ensures off + |a| <= |Splice(c, off, a)|
    ensures Splice(Splice(c, off, a), off + |a|, b) == Splice(c, off, a + b)
  {
  }

  /** What earlier transactions wrote, plus what one more wrote. */
  ghost predicate WroteSoFar(sb: Super, s: FsState, t: FsState, i: nat, off: nat, done: seq<byte>)
    requires Ok(sb, s, {}) && i in s.inodes && off <= s.inodes[i].size
  {
    && Ok(sb, t, {}) && Holeless(sb, t) && t.inodes.Keys == s.inodes.Keys
    && Content(sb, t.disk, t.inodes, i) == Splice(Content(sb, s.disk, s.inodes, i), off, done)
    && forall j :: j in s.inodes && j != i ==> Content(sb, t.disk, t.inodes, j) == Content(sb, s.disk, s.inodes, j)
  }

  lemma WroteStarts(sb: Super, s: FsState, i: nat, off: nat)
    requires Ok(sb, s, {}) && Holeless(sb, s) && i in s.inodes && off <= s.inodes[i].size
    ensures WroteSoFar(sb, s, s, i, off, [])
  {
    SpliceNothing(Content(sb, s.disk, s.inodes, i), off);
  }

  lemma WroteFacts(sb: Super, s: FsState, t: FsState, i: nat, off: nat, done: seq<byte>)
    requires Ok(sb, s, {}) && i in s.inodes && off <= s.inodes[i].size && WroteSoFar(sb, s, t, i, off, done)
    ensures Ok(sb, t, {}) && Holeless(sb, t) && i in t.inodes && off + |done| <= t.inodes[i].size <= MAXFILE * BSIZE
  {
  }

  /** A new transaction starts with an empty log. */
  lemma WroteRelogged(sb: Super, s: FsState, t: FsState, i: nat, off: nat, done: seq<byte>, logged: set<nat>)
    requires Ok(sb, s, {}) && i in s.inodes && off <= s.inodes[i].size && WroteSoFar(sb, s, t, i, off, done)
    ensures WroteSoFar(sb, s, t.(logged := logged), i, off, done)
  {
  }

  lemma WroteMore(sb: Super, s: FsState, t: FsState, u: FsState, i: nat, off: nat, done: seq<byte>, bytes: seq<byte>)
    requires Ok(sb, s, {}) && i in s.inodes && off <= s.inodes[i].size && WroteSoFar(sb, s, t, i, off, done)
    requires off + |done| <= t.inodes[i].size && Wrote(sb, t, u, i, off + |done|, bytes)
    ensures WroteSoFar(sb, s, u, i, off, done + bytes)
  {
    hide Owned, Marked, Holeless, Splice, OnDisk, OtherInodesKept, FileByte;
    SpliceMore(Content(sb, s.disk, s.inodes, i), off, done, bytes);
    forall j | j in s.inodes && j != i
      ensures Content(sb, u.disk, u.inodes, j) == Content(sb, s.disk, s.inodes, j)
    {
      assert Content(sb, t.disk, t.inodes, j) == Content(sb, s.disk, s.inodes, j);
    }
  }

  /** What one transaction may do: change blocks it has logged, at most MAXOPBLOCKS of them, none before the inodes. */
  ghost predicate TxnStep(sb: Super, s: FsState, t: FsState, logged: set<nat>) {
    && |s.disk| == |t.disk| == sb.size && |logged| <= MAXOPBLOCKS
    && (forall b :: b in logged ==> sb.inodestart <= b < sb.size)
    && forall b: nat :: b < sb.size && b !in logged ==> t.disk[b] == s.disk[b]
  }

  /** The file system after a transaction of filewrite, the blocks it logged, and how many bytes are written by then. */
  datatype Stop = Stop(state: FsState, logged: set<nat>, done: nat)

  ghost predicate StopOk(sb: Super, s: FsState, i: nat, off: nat, src: seq<byte>, x: Stop)
    requires Ok(sb, s, {}) && i in s.inodes && off <= s.inodes[i].size
  {
    x.done <= |src| && WroteSoFar(sb, s, x.state, i, off, src[..x.done]) && Stored(sb, x.state)
  }

  /** The stops of filewrite from s on: each leaves a sound file system whose file holds the first bytes of src, three
      blocks more each time until the last, and each comes from the one before by one transaction. */
  ghost predicate Journal(sb: Super, s: FsState, i: nat, off: nat, src: seq<byte>, stops: seq<Stop>)
    requires Ok(sb, s, {}) && i in s.inodes && off <= s.inodes[i].size
  {
    && stops != [] && stops[0] == Stop(s, {}, 0)
    && (forall k :: 0 <= k < |stops| ==> StopOk(sb, s, i, off, src, stops[k]))
    && (forall k :: 0 < k < |stops| ==> TxnStep(sb, stops[k - 1].state, stops[k].state, stops[k].logged))
    && (forall k :: 0 <= k < |stops| - 1 ==> stops[k].done == k * 3 * BSIZE)
  }

  lemma JournalStarts(sb: Super, s: FsState, i: nat, off: nat, src: seq<byte>)
    requires Ok(sb, s, {}) && Holeless(sb, s) && Stored(sb, s) && i in s.inodes && off <= s.inodes[i].size
    ensures Journal(sb, s, i, off, src, [Stop(s, {}, 0)])
  {
    hide WroteSoFar, Stored, Holeless, Owned, Marked;
    WroteStarts(sb, s, i, off);
    assert src[..0] == [];
  }

  lemma JournalMore(sb: Super, s: FsState, i: nat, off: nat, src: seq<byte>, stops: seq<Stop>, x: Stop)
    requires Ok(sb, s, {}) && i in s.inodes && off <= s.inodes[i].size && Journal(sb, s, i, off, src, stops)
    requires StopOk(sb, s, i, off, src, x) && TxnStep(sb, stops[|stops| - 1].state, x.state, x.logged)
    requires stops[|stops| - 1].done == (|stops| - 1) * 3 * BSIZE
    ensures Journal(sb, s, i, off, src, stops + [x])
  {
    hide StopOk, TxnStep, Owned, Marked;
    var more := stops + [x];
    forall k | 0 < k < |more|
      ensures TxnStep(sb, more[k - 1].state, more[k].state, more[k].logged)
    {
      if k < |stops| { assert more[k] == stops[k]; }
    }
  }

  /** One more transaction, of n1 bytes from w on: r of them were written, or the request was refused. */
  lemma StopMore(sb: Super, s: FsState, t: FsState, u: FsState, i: nat, off: nat, src: seq<byte>, w: nat, n1: nat,
                 r: int, stops: seq<Stop>)
    requires Ok(sb, s, {}) && i in s.inodes && off <= s.inodes[i].size && Journal(sb, s, i, off, src, stops)
    requires stops[|stops| - 1].state == t && stops[|stops| - 1].done == w == (|stops| - 1) * 3 * BSIZE
    requires w + n1 <= |src| && -1 <= r <= n1 && Ok(sb, u, {}) && Stored(sb, u) && TxnStep(sb, t, u, u.logged)
    requires WroteSoFar(sb, s, t, i, off, src[..w])
    requires r == -1 ==> u == t.(logged := u.logged)
    requires r >= 0 ==> off + w <= t.inodes[i].size && Wrote(sb, t, u, i, off + w, src[w..w + n1][..r])
    ensures i in u.inodes && var now := if r > 0 then w + r else w;
      && WroteSoFar(sb, s, u, i, off, src[..now]) && Journal(sb, s, i, off, src, stops + [Stop(u, u.logged, now)])
  {
    hide Owned, Marked, Journal, TxnStep, WroteSoFar, Wrote, Stored, Holeless;
    if r >= 0 {
      WroteMore(sb, s, t, u, i, off, src[..w], src[w..w + n1][..r]);
      assert src[..w] + src[w..w + n1][..r] == src[..w + r];
    } else {
      WroteRelogged(sb, s, t, i, off, src[..w], u.logged);
    }
    WroteFacts(sb, s, u, i, off, src[..if r > 0 then w + r else w]);
    JournalMore(sb, s, i, off, src, stops, Stop(u, u.logged, if r > 0 then w + r else w));
  }

  // ----- reading -----

  /** Every position inside a hole-free file has a block. */
  lemma PositionMapped(sb: Super, s: FsState, i: nat, off: nat)
    requires Ok(sb, s, {}) && Holeless(sb, s) && i in s.inodes && off < s.inodes[i].size
    ensures off / BSIZE < MAXFILE && BlockOf(sb, s.disk, s.inodes[i], off / BSIZE) != 0
  {
    assert off / BSIZE * BSIZE <= off;
    assert HoleFree(sb, s.disk, s.inodes[i]);
  }

  lemma ByteRead(sb: Super, s: FsState, i: nat, off: nat, x: nat)
    requires Ok(sb, s, {}) && i in s.inodes && off <= x < s.inodes[i].size && off % BSIZE + (x - off) < BSIZE
    requires off / BSIZE < MAXFILE && 0 < BlockOf(sb, s.disk, s.inodes[i], off / BSIZE) < sb.size
    ensures Content(sb, s.disk, s.inodes, i)[x] ==
      s.disk[BlockOf(sb, s.disk, s.inodes[i], off / BSIZE)][off % BSIZE + (x - off)]
  {
    hide Owned, Marked, BlockOf;
    assert x / BSIZE == off / BSIZE && x % BSIZE == off % BSIZE + (x - off);
  }

  /** A stretch of contents inside one block is that stretch of the block. */
  lemma BlockReads(sb: Super, s: FsState, i: nat, off: nat, m: nat)
    requires Ok(sb, s, {}) && Holeless(sb, s) && i in s.inodes && 0 < m && off + m <= s.inodes[i].size
    requires off % BSIZE + m <= BSIZE
    ensures off / BSIZE < MAXFILE && BlockOf(sb, s.disk, s.inodes[i], off / BSIZE) < sb.size
    ensures s.disk[BlockOf(sb, s.disk, s.inodes[i], off / BSIZE)][off % BSIZE..off % BSIZE + m]
            == Content(sb, s.disk, s.inodes, i)[off..off + m]
  {
    hide Owned, Marked, HoleFree, BlockOf, FileByte, Content;
    PositionMapped(sb, s, i, off);
    BlockInRange(sb, s.disk, s.inodes, s.owner, {}, i, off / BSIZE);
    var b, c := s.disk[BlockOf(sb, s.disk, s.inodes[i], off / BSIZE)], Content(sb, s.disk, s.inodes, i);
    forall x | off <= x < off + m
      ensures c[x] == b[off % BSIZE + (x - off)]
    {
      ByteRead(sb, s, i, off, x);
    }
  }

  /** The file up to a chunk, and the first k bytes of the chunk. */
  lemma Joined(c: seq<byte>, off: nat, tot: nat, m: nat, k: nat)
    requires off + tot + m <= |c| && k <= m
    ensures c[off..off + tot] + c[off + tot..off + tot + m][..k] == c[off..off + tot + k]
    ensures c[off + tot..off + tot + m][..m] == c[off + tot..off + tot + m]
  {
    var piece := c[off + tot..off + tot + m];
    forall x | 0 <= x < k
      ensures piece[..k][x] == c[off + tot + x]
    {
    }
  }
}
