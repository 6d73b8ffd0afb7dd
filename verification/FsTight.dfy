/** A disk on which one chunk of filewrite (kernel/file.c) logs MAXOPBLOCKS blocks: the reservation of begin_op
    cannot be smaller. Only four blocks are free, one under each bitmap block, and the write that takes them starts
    inside the last direct block of its file. */
module FsTight {
  import opened Blocks
  import opened FsModel
  import opened FsWrite
  import opened FsTorn
  import opened FsCode
  import opened Params

  /** The layout that mkfs computes for 24577 blocks, 130336 inodes and a log of 30. */
  const SB: Super := Super(24577, 130336, 32, 8179, 8183)

  const WRITER: nat := 1
  const OFFSET: nat := 11 * BSIZE + 1

  function FreeBlocks(): set<nat> {
    {8183, 16383, 24575, 24576}
  }

  predicate Held(b: nat) {
    8183 < b < 24575 && b != 16383
  }

  /** The writer owns the twelve blocks after the first free one; every later block is the only one of its file. */
  ghost function Owner(): (o: map<nat, Slot>) {
    map b: nat | 8183 < b < 24575 && Held(b) :: if b <= 8195 then Slot(WRITER, b - 8184) else Slot(b - 8183, 0)
  }

  function Zeros(n: nat): (s: seq<nat>)
    ensures |s| == n && forall k :: 0 <= k < n ==> s[k] == 0
  {
    seq(n, _ => 0)
  }

  function Direct(): (s: seq<nat>)
    ensures |s| == NDIRECT && forall k :: 0 <= k < NDIRECT ==> s[k] == 8184 + k
  {
    seq(NDIRECT, k => 8184 + k)
  }

  function FileInode(j: nat): (ino: Inode)
    ensures |ino.addrs| == NDIRECT + 1
  {
    if j == WRITER then Inode(2, 0, 0, 1, OFFSET, Direct() + [0])
    else Inode(2, 0, 0, 1, BSIZE, [8183 + j] + Zeros(NDIRECT))
  }

  predicate IsFile(j: nat) {
    j == WRITER || (Held(8183 + j) && j > 12)
  }

  function Files(): (n: Inodes) {
    map j: nat | j < 16392 && IsFile(j) :: FileInode(j)
  }

  function Ones(): (b: Block) {
    seq(BSIZE, _ => 255)
  }

  lemma {:induction false} OnesBits(n: nat, k: nat)
    requires k < n
    ensures Pow2(n) >= 1 && BitOf(Pow2(n) - 1, k)
  {
    if n > 1 {
      OnesBits(n - 1, if k > 0 then k - 1 else 0);
      assert (Pow2(n) - 1) / 2 == Pow2(n - 1) - 1;
    }
  }

  lemma OnesSet(i: nat)
    requires i < BPB
    ensures BitAt(Ones(), i)
  {
    OnesBits(8, i % 8);
    assert Pow2(8) == 256;
  }

  function InodeFor(j: nat): (ino: Inode)
    ensures |ino.addrs| == NDIRECT + 1
  {
    if IsFile(j) then FileInode(j) else Inode(0, 0, 0, 0, 0, Zeros(NDIRECT + 1))
  }

  lemma InodeFits(j: nat)
    ensures Storable(InodeFor(j))
  {
  }

  /** Block m of the inodes, its first k inodes filled in. */
  function InodeBlock(m: nat, k: nat): (b: Block)
    requires k <= IPB
  {
    if k == 0 then ZeroBlock()
    else
      InodeFits(IPB * m + k - 1);
      PutInode(InodeBlock(m, k - 1), k - 1, InodeFor(IPB * m + k - 1))
  }

  lemma {:induction false} InodeBlockAt(m: nat, k: nat, i: nat)
    requires i < k <= IPB
    ensures ReadInode(InodeBlock(m, k), i) == InodeFor(IPB * m + i)
  {
    hide PutInode, ReadInode, InodeFor;
    InodeFits(IPB * m + k - 1);
    InodeRoundTrip(InodeBlock(m, k - 1), k - 1, InodeFor(IPB * m + k - 1));
    if i < k - 1 {
      InodeBlockAt(m, k - 1, i);
    }
  }

  function BlockAt(b: nat): (x: Block) {
    if 32 <= b < 8179 then InodeBlock(b - 32, IPB) else Ones()
  }

  /** A disk with these inodes and every bit of the bitmap set. */
  function Taken(): (d: Disk)
    ensures |d| == SB.size
  {
    seq(SB.size, b requires 0 <= b => BlockAt(b))
  }

  /** All blocks in use but four. */
  function Image(): (d: Disk)
    ensures |d| == SB.size
  {
    ClearUsed(SB, ClearUsed(SB, ClearUsed(SB, ClearUsed(SB, Taken(), 8183), 16383), 24575), 24576)
  }

  lemma ImageUsed(b: nat)
    requires b < SB.size
    ensures Used(SB, Image(), b) <==> b !in FreeBlocks()
  {
    hide ClearUsed, BitAt, ClearBit;
    var d1 := ClearUsed(SB, Taken(), 8183);
    var d2 := ClearUsed(SB, d1, 16383);
    var d3 := ClearUsed(SB, d2, 24575);
    OnesSet(b % BPB);
    assert Used(SB, Taken(), b);
    ClearUsedFrame(SB, Taken(), 8183);
    ClearUsedFrame(SB, d1, 16383);
    ClearUsedFrame(SB, d2, 24575);
    ClearUsedFrame(SB, d3, 24576);
  }

  lemma ClearKeeps(d: Disk, b: nat, c: nat)
    requires |d| == SB.size && b < SB.size && c < 8179
    ensures ClearUsed(SB, d, b)[c] == d[c]
  {
  }

  lemma ImageInodes(j: nat)
    requires j in Files()
    ensures OnDisk(SB, Image(), j) == Files()[j]
  {
    hide ClearUsed, InodeBlock, ReadInode;
    var ib := IBlock(SB, j);
    assert 32 <= ib < 8179 && ib - 32 == j / IPB;
    var d1 := ClearUsed(SB, Taken(), 8183);
    var d2 := ClearUsed(SB, d1, 16383);
    var d3 := ClearUsed(SB, d2, 24575);
    ClearKeeps(Taken(), 8183, ib);
    ClearKeeps(d1, 16383, ib);
    ClearKeeps(d2, 24575, ib);
    ClearKeeps(d3, 24576, ib);
    InodeBlockAt(j / IPB, IPB, j % IPB);
    assert IPB * (j / IPB) + j % IPB == j;
  }

  lemma FilesShaped(disk: Disk)
    requires |disk| == SB.size
    ensures Shaped(SB, disk, Files())
  {
    forall j | j in Files()
      ensures j < SB.ninodes && ValidInode(SB, Files()[j])
    {
    }
  }

  /** No file has an indirect block, so the addresses are the direct ones. */
  lemma FileAddr(disk: Disk, s: Slot)
    requires |disk| == SB.size && Shaped(SB, disk, Files()) && IsSlot(Files(), s)
    ensures Addr(SB, disk, Files(), s) ==
            if s.inum == WRITER && s.pos < NDIRECT then 8184 + s.pos
            else if s.inum != WRITER && s.pos == 0 then 8183 + s.inum else 0
  {
    assert FileInode(s.inum).addrs[NDIRECT] == 0;
  }

  lemma FilesOwned(disk: Disk)
    requires |disk| == SB.size && Shaped(SB, disk, Files())
    ensures Owned(SB, disk, Files(), Owner())
  {
    hide Addr;
    forall s | IsSlot(Files(), s) && Addr(SB, disk, Files(), s) != 0
      ensures Addr(SB, disk, Files(), s) in Owner() && Owner()[Addr(SB, disk, Files(), s)] == s
    {
      FileAddr(disk, s);
    }
    forall b | b in Owner()
      ensures IsSlot(Files(), Owner()[b]) && Addr(SB, disk, Files(), Owner()[b]) == b
    {
      var s := Owner()[b];
      assert s.inum in Files();
      FileAddr(disk, s);
    }
  }

  lemma ImageMarked()
    ensures Marked(SB, Image(), Owner(), {})
  {
    hide Used, Image;
    forall b: nat | b < SB.size
      ensures Used(SB, Image(), b) <==> b < SB.datastart || b in Owner()
    {
      ImageUsed(b);
    }
  }

  lemma ImageOk()
    ensures Inv(SB, Image(), Files(), Owner(), {})
    ensures forall j :: j in Files() ==> HoleFree(SB, Image(), Files()[j]) && OnDisk(SB, Image(), j) == Files()[j]
  {
    hide Owned, Marked, Image, OnDisk;
    FilesShaped(Image());
    FilesOwned(Image());
    ImageMarked();
    forall j | j in Files()
      ensures HoleFree(SB, Image(), Files()[j]) && OnDisk(SB, Image(), j) == Files()[j]
    {
      ImageInodes(j);
      forall bn: nat | bn < MAXFILE && bn * BSIZE < Files()[j].size
        ensures BlockOf(SB, Image(), Files()[j], bn) != 0
      {
        assert bn < NDIRECT;
      }
    }
  }

  // ----- the write -----

  ghost function Before(): (s: FsState) {
    FsState(Image(), Files(), Owner(), {})
  }

  /** Which blocks can be new. */
  lemma NewWasFree(u: FsState)
    requires Ok(SB, u, {})
    ensures NewBlocks(Before(), u) <= FreeBlocks()
  {
    hide Owned, Used, Image;
    forall b | b in NewBlocks(Before(), u)
      ensures b in FreeBlocks()
    {
      assert !Held(b);
    }
  }

  /** Two new blocks cannot fill the same slot. */
  lemma NewApart(u: FsState, b: nat, c: nat)
    requires Ok(SB, u, {}) && b in u.owner && c in u.owner && u.owner[b] == u.owner[c]
    ensures b == c
  {
    hide Marked;
  }

  /** A write that stopped early left one of the four blocks free. */
  lemma NotShort(u: FsState, r: nat)
    requires Ok(SB, u, {}) && r <= 3 * BSIZE && OwnersGrew(Before(), u, WRITER, OFFSET / BSIZE, EndBlock(OFFSET, r))
    requires r < 3 * BSIZE ==> Full(SB, u.disk) && EndBlock(OFFSET, r) <= (OFFSET + r) / BSIZE
    ensures r == 3 * BSIZE
  {
    hide Owned, Marked, Image, NewBlocks;
    if r < 3 * BSIZE {
      FreeIsNew(u, 8183, EndBlock(OFFSET, r));
      FreeIsNew(u, 16383, EndBlock(OFFSET, r));
      FreeIsNew(u, 24575, EndBlock(OFFSET, r));
      FreeIsNew(u, 24576, EndBlock(OFFSET, r));
      SlotsApart(u);
      assert false;
    }
  }

  /** On a full disk a block that was free is now the writer's. */
  lemma FreeIsNew(u: FsState, b: nat, hi: nat)
    requires Ok(SB, u, {}) && OwnersGrew(Before(), u, WRITER, 11, hi) && Full(SB, u.disk) && b in FreeBlocks()
    ensures b in u.owner && u.owner[b].inum == WRITER && (12 <= u.owner[b].pos < hi || u.owner[b].pos == IND)
  {
    hide Owned, Image;
    assert Used(SB, u.disk, b) && b in NewBlocks(Before(), u);
    assert 8195 in Owner() && u.owner[8195] == Slot(WRITER, 11);
    if u.owner[b].pos == 11 { NewApart(u, b, 8195); }
  }

  lemma SlotsApart(u: FsState)
    requires Ok(SB, u, {})
    ensures forall b, c ::
      b in FreeBlocks() && c in FreeBlocks() && b in u.owner && c in u.owner && u.owner[b] == u.owner[c] ==> b == c
  {
    hide Marked;
  }

  /** After the whole write, blocks 12, 13 and 14 and the indirect block are new. */
  lemma AllTaken(u: FsState)
    requires Ok(SB, u, {}) && Holeless(SB, u) && WRITER in u.inodes && u.inodes[WRITER].size == OFFSET + 3 * BSIZE
    requires OwnersGrew(Before(), u, WRITER, 11, 15)
    ensures NewBlocks(Before(), u) == FreeBlocks()
  {
    hide Owned, Marked, Image;
    assert HoleFree(SB, u.disk, u.inodes[WRITER]);
    var a12 := NewAt(u, 12);
    var a13 := NewAt(u, 13);
    var a14 := NewAt(u, 14);
    var ind := NewAt(u, IND);
    NewWasFree(u);
  }

  /** What a slot that was empty holds now. */
  lemma NewAt(u: FsState, pos: nat) returns (a: nat)
    requires Ok(SB, u, {}) && WRITER in u.inodes && NDIRECT <= pos <= IND
    requires Addr(SB, u.disk, u.inodes, Slot(WRITER, pos)) != 0 && OwnersGrew(Before(), u, WRITER, 11, 15)
    ensures a in NewBlocks(Before(), u) && u.owner[a] == Slot(WRITER, pos)
  {
    hide Marked, Image;
    a := Addr(SB, u.disk, u.inodes, Slot(WRITER, pos));
  }

  lemma NoBitmaps()
    ensures BitmapsOf(SB, {}) == {}
  {
  }

  lemma FourBitmaps()
    ensures |BitmapsOf(SB, FreeBlocks())| == 4
  {
    hide BitmapsOf;
    NoBitmaps();
    BitmapsAdd(SB, {}, 8183);
    BitmapsAdd(SB, {} + {8183}, 16383);
    BitmapsAdd(SB, {} + {8183} + {16383}, 24575);
    BitmapsAdd(SB, {} + {8183} + {16383} + {24575}, 24576);
    assert {} + {8183} + {16383} + {24575} + {24576} == FreeBlocks();
    assert BitmapsOf(SB, FreeBlocks()) == {} + {8179} + {8180} + {8181} + {8182};
  }

  /** The reservation is used up: three blocks' worth of bytes log ten blocks. */
  method FillReservation() returns (fs: FileSystem, r: int)
    ensures fresh(fs) && r == 3 * BSIZE && |fs.logged| == MAXOPBLOCKS
  {
    hide Inv, HoleFree, Image, Files, Owner, OwnersGrew, NewBlocks, BitmapsOf, Full, Content, OtherInodesKept, OnDisk;
    hide CommitOf, LoggedTo, StopCause, Wrote;
    ImageOk();
    WriterThere();
    fs := new FileSystem(SB, Image(), Files(), Owner());
    assert fs.State() == Before();
    var chunk := seq(3 * BSIZE, _ => 0);
    ghost var c, hi;
    r, c, hi := fs.Transaction(WRITER, chunk, OFFSET, |chunk|);
    assert Before().(logged := {}) == Before();
    CommitFacts(SB, Before(), c, fs.State(), WRITER, OFFSET, chunk, r, |chunk|, {});
    NoFault(SB, Before(), fs.State(), WRITER, OFFSET, |chunk|, r, hi);
    NotShort(fs.State(), r);
    WriteSize(c, chunk[..r]);
    AllTaken(fs.State());
    FourBitmaps();
  }

  lemma WriterThere()
    ensures WRITER in Files() && Files()[WRITER].size == OFFSET
  {
  }

  lemma WriteSize(u: FsState, done: seq<byte>)
    requires Ok(SB, Before(), {}) && WRITER in Files() && Files()[WRITER].size == OFFSET
    requires Wrote(SB, Before(), u, WRITER, OFFSET, done) && |done| == 3 * BSIZE
    ensures WRITER in u.inodes && u.inodes[WRITER].size == OFFSET + 3 * BSIZE
  {
    hide Owned, Marked, Image, Files, FileByte, OnDisk, OtherInodesKept, Holeless;
    assert |Content(SB, u.disk, u.inodes, WRITER)| == |Splice(Content(SB, Image(), Files(), WRITER), OFFSET, done)|;
  }
}
