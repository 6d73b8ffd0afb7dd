/** Blocks, inodes and who owns what (kernel/fs.c, kernel/fs.h): the free bitmap, direct and indirect
    addresses, and the invariant that every allocated block is a metadata block or belongs to exactly one
    place of one inode. */
module FsModel {
  import opened Blocks

  const NDIRECT: nat := 12
  const NINDIRECT: nat := 256
  const MAXFILE: nat := 268
  const IPB: nat := 16
  /** The slot of an inode that holds its indirect block; slots below it are file blocks. */
  const IND: nat := 268

  /** Blocks [0, datastart) are metadata; inode blocks come before the bitmap. */
  datatype Super = Super(size: nat, ninodes: nat, inodestart: nat, bmapstart: nat, datastart: nat)

  ghost predicate ValidSuper(sb: Super) {
    && 0 < sb.inodestart
    && sb.inodestart + sb.ninodes / IPB < sb.bmapstart
    && sb.bmapstart + sb.size / BPB < sb.datastart <= sb.size < 0x8000_0000
  }

  type ushort = x: nat | x < 0x1_0000

  /** An inode: in memory `struct inode`, on disk `struct dinode`. */
  datatype Inode = Inode(type_: ushort, major: ushort, minor: ushort, nlink: ushort, size: nat, addrs: seq<nat>)

  type Disk = seq<Block>
  type Inodes = map<nat, Inode>

  datatype Slot = Slot(inum: nat, pos: nat)

  ghost predicate ValidInode(sb: Super, ino: Inode) {
    && |ino.addrs| == NDIRECT + 1
    && ino.size <= MAXFILE * BSIZE
    && forall k :: 0 <= k <= NDIRECT ==> ino.addrs[k] < sb.size
  }

  ghost predicate Shaped(sb: Super, disk: Disk, inodes: Inodes) {
    && ValidSuper(sb)
    && |disk| == sb.size
    && forall i :: i in inodes ==> i < sb.ninodes && ValidInode(sb, inodes[i])
  }

  ghost predicate IsSlot(inodes: Inodes, s: Slot) {
    s.inum in inodes && s.pos <= IND
  }

  /** The disk address recorded for file block bn, 0 if there is none. */
  function BlockOf(sb: Super, disk: Disk, ino: Inode, bn: nat): (a: nat)
    requires ValidInode(sb, ino) && |disk| == sb.size && bn < MAXFILE
  {
    if bn < NDIRECT then ino.addrs[bn]
    else if ino.addrs[NDIRECT] == 0 then 0
    else WordAt(disk[ino.addrs[NDIRECT]], bn - NDIRECT)
  }

  /** The disk address recorded in a slot, 0 if there is none. */
  function Addr(sb: Super, disk: Disk, inodes: Inodes, s: Slot): (a: nat)
    requires Shaped(sb, disk, inodes) && IsSlot(inodes, s)
  {
    if s.pos == IND then inodes[s.inum].addrs[NDIRECT] else BlockOf(sb, disk, inodes[s.inum], s.pos)
  }

  // ----- the bitmap -----

  /** The bitmap block with the bit of block b. */
  function BBlock(sb: Super, b: nat): (bb: nat)
    requires ValidSuper(sb) && b < sb.size
    ensures sb.bmapstart <= bb < sb.datastart
  {
    assert b / BPB <= sb.size / BPB;
    sb.bmapstart + b / BPB
  }

  predicate Used(sb: Super, disk: Disk, b: nat)
    requires ValidSuper(sb) && |disk| == sb.size && b < sb.size
  {
    BitAt(disk[BBlock(sb, b)], b % BPB)
  }

  function SetUsed(sb: Super, disk: Disk, b: nat): (d: Disk)
    requires ValidSuper(sb) && |disk| == sb.size && b < sb.size
    ensures |d| == sb.size
  {
    disk[BBlock(sb, b) := SetBit(disk[BBlock(sb, b)], b % BPB)]
  }

  function ClearUsed(sb: Super, disk: Disk, b: nat): (d: Disk)
    requires ValidSuper(sb) && |disk| == sb.size && b < sb.size
    ensures |d| == sb.size
  {
    disk[BBlock(sb, b) := ClearBit(disk[BBlock(sb, b)], b % BPB)]
  }

  lemma SetUsedFrame(sb: Super, disk: Disk, b: nat)
    requires ValidSuper(sb) && |disk| == sb.size && b < sb.size
    ensures forall c: nat :: c < sb.size ==> Used(sb, SetUsed(sb, disk, b), c) == (c == b || Used(sb, disk, c))
  {
    forall c: nat | c < sb.size
      ensures Used(sb, SetUsed(sb, disk, b), c) == (c == b || Used(sb, disk, c))
    {
      if BBlock(sb, b) == BBlock(sb, c) {
        SetBitFrame(disk[BBlock(sb, b)], b % BPB, c % BPB);
      }
    }
  }

  lemma ClearUsedFrame(sb: Super, disk: Disk, b: nat)
    requires ValidSuper(sb) && |disk| == sb.size && b < sb.size
    ensures forall c: nat :: c < sb.size ==> Used(sb, ClearUsed(sb, disk, b), c) == (c != b && Used(sb, disk, c))
  {
    forall c: nat | c < sb.size
      ensures Used(sb, ClearUsed(sb, disk, b), c) == (c != b && Used(sb, disk, c))
    {
      if BBlock(sb, b) == BBlock(sb, c) {
        ClearBitFrame(disk[BBlock(sb, b)], b % BPB, c % BPB);
      }
    }
  }

  /** Writing a block outside the bitmap leaves the bitmap alone. */
  lemma UsedElsewhere(sb: Super, disk: Disk, a: nat, data: Block)
    requires ValidSuper(sb) && |disk| == sb.size && a < sb.size
    requires !(sb.bmapstart <= a < sb.datastart)
    ensures forall c: nat :: c < sb.size ==> Used(sb, disk[a := data], c) == Used(sb, disk, c)
  {
  }

  // ----- ownership -----

  /** The owner map inverts the address of every filled slot. */
  ghost predicate Owned(sb: Super, disk: Disk, inodes: Inodes, owner: map<nat, Slot>)
    requires Shaped(sb, disk, inodes)
  {
    && (forall s :: IsSlot(inodes, s) && Addr(sb, disk, inodes, s) != 0 ==>
          Addr(sb, disk, inodes, s) in owner && owner[Addr(sb, disk, inodes, s)] == s)
    && (forall b :: b in owner ==> IsSlot(inodes, owner[b]) && Addr(sb, disk, inodes, owner[b]) == b)
  }

  /** The bitmap marks metadata, owned blocks, and `limbo`: blocks allocated but not yet recorded anywhere. */
  ghost predicate Marked(sb: Super, disk: Disk, owner: map<nat, Slot>, limbo: set<nat>)
    requires ValidSuper(sb) && |disk| == sb.size
  {
    && (forall b: nat :: b < sb.size ==> (Used(sb, disk, b) <==> b < sb.datastart || b in owner || b in limbo))
    && (forall b :: b in owner ==> sb.datastart <= b < sb.size && b !in limbo)
    && (forall b :: b in limbo ==> sb.datastart <= b < sb.size)
  }

  ghost predicate Inv(sb: Super, disk: Disk, inodes: Inodes, owner: map<nat, Slot>, limbo: set<nat>) {
    && Shaped(sb, disk, inodes)
    && Owned(sb, disk, inodes, owner)
    && Marked(sb, disk, owner, limbo)
  }

  /** The invariant without the owner map: the bitmap marks exactly the metadata and the blocks recorded in some
      slot, and no block is recorded in two slots. */
  lemma OwnershipIsPartition(sb: Super, disk: Disk, inodes: Inodes, owner: map<nat, Slot>, b: nat, s: Slot, t: Slot)
    requires Inv(sb, disk, inodes, owner, {}) && b < sb.size
    ensures Used(sb, disk, b) <==>
            b < sb.datastart || exists s :: IsSlot(inodes, s) && Addr(sb, disk, inodes, s) == b
    ensures IsSlot(inodes, s) && IsSlot(inodes, t) && s != t && Addr(sb, disk, inodes, s) != 0 ==>
              Addr(sb, disk, inodes, s) != Addr(sb, disk, inodes, t)
  {
    assert b in owner ==> Addr(sb, disk, inodes, owner[b]) == b;
  }

  ghost predicate SameAddrs(sb: Super, d0: Disk, d1: Disk, inodes: Inodes) {
    && Shaped(sb, d0, inodes) && Shaped(sb, d1, inodes)
    && forall s :: IsSlot(inodes, s) ==> Addr(sb, d1, inodes, s) == Addr(sb, d0, inodes, s)
  }

  /** From (d0, n0) to (d1, n1): at most the given slot, empty before, has been filled. */
  ghost predicate Fills(sb: Super, d0: Disk, n0: Inodes, d1: Disk, n1: Inodes, slot: Slot) {
    && Shaped(sb, d0, n0) && Shaped(sb, d1, n1)
    && SameButAddrs(n0, n1, slot.inum)
    && forall s :: IsSlot(n0, s) && (s != slot || Addr(sb, d0, n0, s) != 0) ==>
      Addr(sb, d1, n1, s) == Addr(sb, d0, n0, s)
  }

  lemma FillsNothing(sb: Super, d: Disk, n: Inodes, slot: Slot)
    requires Shaped(sb, d, n) && slot.inum in n
    ensures Fills(sb, d, n, d, n, slot)
  {
  }

  lemma SameAddrsTrans(sb: Super, d0: Disk, d1: Disk, d2: Disk, inodes: Inodes)
    requires SameAddrs(sb, d0, d1, inodes) && SameAddrs(sb, d1, d2, inodes)
    ensures SameAddrs(sb, d0, d2, inodes)
  {
    forall s | IsSlot(inodes, s)
      ensures Addr(sb, d2, inodes, s) == Addr(sb, d0, inodes, s)
    {
      assert Addr(sb, d1, inodes, s) == Addr(sb, d0, inodes, s);
    }
  }

  lemma FillsAfter(sb: Super, d0: Disk, d1: Disk, n0: Inodes, d2: Disk, n2: Inodes, slot: Slot)
    requires SameAddrs(sb, d0, d1, n0) && Fills(sb, d1, n0, d2, n2, slot)
    ensures Fills(sb, d0, n0, d2, n2, slot)
  {
    forall s | IsSlot(n0, s) && (s != slot || Addr(sb, d0, n0, s) != 0)
      ensures Addr(sb, d2, n2, s) == Addr(sb, d0, n0, s)
    {
      assert Addr(sb, d1, n0, s) == Addr(sb, d0, n0, s);
    }
  }

  /** How an address responds to a block write elsewhere. */
  lemma AddrAfterBlock(sb: Super, disk: Disk, inodes: Inodes, a: nat, data: Block, s: Slot)
    requires Shaped(sb, disk, inodes) && a < sb.size && IsSlot(inodes, s)
    requires a != 0 && (s.pos < NDIRECT || s.pos == IND || inodes[s.inum].addrs[NDIRECT] != a)
    ensures Addr(sb, disk[a := data], inodes, s) == Addr(sb, disk, inodes, s)
  {
  }

  /** Same addresses and same bitmap: the invariant carries over. */
  lemma SameKeeps(sb: Super, disk: Disk, disk': Disk, inodes: Inodes, owner: map<nat, Slot>, limbo: set<nat>)
    requires Inv(sb, disk, inodes, owner, limbo) && SameAddrs(sb, disk, disk', inodes)
    requires forall c: nat :: c < sb.size ==> Used(sb, disk', c) == Used(sb, disk, c)
    ensures Inv(sb, disk', inodes, owner, limbo)
  {
  }

  /** A block that is not an indirect block may change freely. */
  lemma DataWriteKeeps(sb: Super, disk: Disk, inodes: Inodes, owner: map<nat, Slot>, limbo: set<nat>, a: nat,
                       data: Block)
    requires Inv(sb, disk, inodes, owner, limbo) && 0 < a < sb.size && !(sb.bmapstart <= a < sb.datastart)
    requires a in owner ==> owner[a].pos != IND
    ensures Inv(sb, disk[a := data], inodes, owner, limbo)
    ensures SameAddrs(sb, disk, disk[a := data], inodes)
  {
    UsedElsewhere(sb, disk, a, data);
    forall s | IsSlot(inodes, s)
      ensures Addr(sb, disk[a := data], inodes, s) == Addr(sb, disk, inodes, s)
    {
      assert Addr(sb, disk, inodes, Slot(s.inum, IND)) == inodes[s.inum].addrs[NDIRECT];
      AddrAfterBlock(sb, disk, inodes, a, data, s);
    }
    SameKeeps(sb, disk, disk[a := data], inodes, owner, limbo);
  }

  lemma BitmapWriteAddrs(sb: Super, disk: Disk, inodes: Inodes, owner: map<nat, Slot>, limbo: set<nat>, bb: nat,
                         data: Block)
    requires Inv(sb, disk, inodes, owner, limbo) && sb.bmapstart <= bb < sb.datastart
    ensures SameAddrs(sb, disk, disk[bb := data], inodes)
  {
    forall s | IsSlot(inodes, s)
      ensures Addr(sb, disk[bb := data], inodes, s) == Addr(sb, disk, inodes, s)
    {
      assert Addr(sb, disk, inodes, Slot(s.inum, IND)) == inodes[s.inum].addrs[NDIRECT];
      AddrAfterBlock(sb, disk, inodes, bb, data, s);
    }
  }

  /** balloc moves a free block into limbo. */
  lemma AllocKeeps(sb: Super, disk: Disk, inodes: Inodes, owner: map<nat, Slot>, limbo: set<nat>, b: nat)
    requires Inv(sb, disk, inodes, owner, limbo) && b < sb.size && !Used(sb, disk, b)
    ensures sb.datastart <= b && b !in owner && b !in limbo
    ensures Inv(sb, SetUsed(sb, disk, b), inodes, owner, limbo + {b})
    ensures SameAddrs(sb, disk, SetUsed(sb, disk, b), inodes)
  {
    SetUsedFrame(sb, disk, b);
    BitmapWriteAddrs(sb, disk, inodes, owner, limbo, BBlock(sb, b), SetBit(disk[BBlock(sb, b)], b % BPB));
  }

  /** bfree of a block in limbo frees it. */
  lemma FreeKeeps(sb: Super, disk: Disk, inodes: Inodes, owner: map<nat, Slot>, limbo: set<nat>, b: nat)
    requires Inv(sb, disk, inodes, owner, limbo) && b in limbo
    ensures b < sb.size && Inv(sb, ClearUsed(sb, disk, b), inodes, owner, limbo - {b})
    ensures SameAddrs(sb, disk, ClearUsed(sb, disk, b), inodes)
  {
    ClearUsedFrame(sb, disk, b);
    BitmapWriteAddrs(sb, disk, inodes, owner, limbo, BBlock(sb, b), ClearBit(disk[BBlock(sb, b)], b % BPB));
  }

  /** A block allocated by balloc: marked in the bitmap and zeroed. */
  function Allocated(sb: Super, disk: Disk, b: nat): (d: Disk)
    requires ValidSuper(sb) && |disk| == sb.size && b < sb.size
    ensures |d| == sb.size
  {
    SetUsed(sb, disk, b)[b := ZeroBlock()]
  }

  lemma BallocKeeps(sb: Super, disk: Disk, inodes: Inodes, owner: map<nat, Slot>, limbo: set<nat>, b: nat)
    requires Inv(sb, disk, inodes, owner, limbo) && b < sb.size && !Used(sb, disk, b)
    ensures sb.datastart <= b && b !in owner && b !in limbo
    ensures Inv(sb, Allocated(sb, disk, b), inodes, owner, limbo + {b})
    ensures SameAddrs(sb, disk, Allocated(sb, disk, b), inodes)
    ensures DataKept(sb, disk, owner, Allocated(sb, disk, b))
  {
    hide Owned, Used, BitAt;
    AllocKeeps(sb, disk, inodes, owner, limbo, b);
    var d := SetUsed(sb, disk, b);
    DataWriteKeeps(sb, d, inodes, owner, limbo + {b}, b, ZeroBlock());
    SameAddrsTrans(sb, disk, d, Allocated(sb, disk, b), inodes);
  }

  function WithAddr(ino: Inode, k: nat, a: nat): (r: Inode)
    requires k < |ino.addrs|
  {
    ino.(addrs := ino.addrs[k := a])
  }

  /** The slot that ip->addrs[k] is. */
  function AddrSlot(i: nat, k: nat): (s: Slot) {
    Slot(i, if k == NDIRECT then IND else k)
  }

  /** ip->addrs[k] = b for an empty slot; a new indirect block must be zeroed. */
  lemma RecordDirect(sb: Super, disk: Disk, inodes: Inodes, owner: map<nat, Slot>, limbo: set<nat>, i: nat, k: nat,
                     b: nat)
    requires Inv(sb, disk, inodes, owner, limbo) && i in inodes && k <= NDIRECT && b in limbo
    requires inodes[i].addrs[k] == 0 && (k == NDIRECT ==> disk[b] == ZeroBlock())
    ensures var inodes' := inodes[i := WithAddr(inodes[i], k, b)];
            && Inv(sb, disk, inodes', owner[b := AddrSlot(i, k)], limbo - {b})
            && Fills(sb, disk, inodes, disk, inodes', AddrSlot(i, k))
  {
    var slot := AddrSlot(i, k);
    var inodes' := inodes[i := WithAddr(inodes[i], k, b)];
    forall s | IsSlot(inodes, s) && s != slot
      ensures Addr(sb, disk, inodes', s) == Addr(sb, disk, inodes, s)
    {
      if s.inum == i && k == NDIRECT && NDIRECT <= s.pos < IND {
        ZeroWord(s.pos - NDIRECT);
      }
    }
    assert Addr(sb, disk, inodes', slot) == b;
    RecordedInv(sb, disk, disk, inodes, inodes', owner, limbo, slot, b);
  }

  /** a[k] = b in an indirect block whose entry k is empty. */
  lemma RecordIndirect(sb: Super, disk: Disk, inodes: Inodes, owner: map<nat, Slot>, limbo: set<nat>, i: nat,
                       k: nat, b: nat)
    requires Inv(sb, disk, inodes, owner, limbo) && i in inodes && k < NINDIRECT && b in limbo
    requires inodes[i].addrs[NDIRECT] != 0 && WordAt(disk[inodes[i].addrs[NDIRECT]], k) == 0
    ensures var ind := inodes[i].addrs[NDIRECT];
            var disk' := disk[ind := PutWord(disk[ind], k, b)];
            && Inv(sb, disk', inodes, owner[b := Slot(i, NDIRECT + k)], limbo - {b})
            && Fills(sb, disk, inodes, disk', inodes, Slot(i, NDIRECT + k))
            && sb.datastart <= ind && ind in owner && owner[ind] == Slot(i, IND)
  {
    var ind := inodes[i].addrs[NDIRECT];
    assert Addr(sb, disk, inodes, Slot(i, IND)) == ind;
    var disk' := disk[ind := PutWord(disk[ind], k, b)];
    var slot := Slot(i, NDIRECT + k);
    PutWordFrame(disk[ind], k, b);
    UsedElsewhere(sb, disk, ind, PutWord(disk[ind], k, b));
    forall s | IsSlot(inodes, s) && s != slot
      ensures Addr(sb, disk', inodes, s) == Addr(sb, disk, inodes, s)
    {
      assert Addr(sb, disk, inodes, Slot(s.inum, IND)) == inodes[s.inum].addrs[NDIRECT];
      if s.inum != i || s.pos < NDIRECT || s.pos == IND {
        AddrAfterBlock(sb, disk, inodes, ind, PutWord(disk[ind], k, b), s);
      }
    }
    assert Addr(sb, disk', inodes, slot) == b;
    RecordedInv(sb, disk, disk', inodes, inodes, owner, limbo, slot, b);
  }

  /** Recording a limbo block in one empty slot, everything else unchanged. */
  lemma RecordedInv(sb: Super, disk: Disk, disk': Disk, inodes: Inodes, inodes': Inodes, owner: map<nat, Slot>,
                    limbo: set<nat>, slot: Slot, b: nat)
    requires Inv(sb, disk, inodes, owner, limbo) && Shaped(sb, disk', inodes') && b in limbo
    requires inodes'.Keys == inodes.Keys
    requires IsSlot(inodes, slot) && Addr(sb, disk, inodes, slot) == 0 && Addr(sb, disk', inodes', slot) == b
    requires forall s :: IsSlot(inodes, s) && s != slot ==> Addr(sb, disk', inodes', s) == Addr(sb, disk, inodes, s)
    requires forall c: nat :: c < sb.size ==> Used(sb, disk', c) == Used(sb, disk, c)
    ensures Inv(sb, disk', inodes', owner[b := slot], limbo - {b})
  {
    hide Addr, Used;
    var owner' := owner[b := slot];
    assert b !in owner && b != 0;
    forall s | IsSlot(inodes', s) && Addr(sb, disk', inodes', s) != 0
      ensures Addr(sb, disk', inodes', s) in owner' && owner'[Addr(sb, disk', inodes', s)] == s
    {
      if s != slot {
        assert Addr(sb, disk, inodes, s) in owner;
      }
    }
    forall c | c in owner'
      ensures IsSlot(inodes', owner'[c]) && Addr(sb, disk', inodes', owner'[c]) == c
    {
      if c != b {
        assert owner[c] != slot;
      }
    }
  }

  // ----- packing inodes into inode blocks -----

  function IBlock(sb: Super, i: nat): (ib: nat) {
    sb.inodestart + i / IPB
  }

  ghost predicate Storable(ino: Inode) {
    && |ino.addrs| == NDIRECT + 1 && ino.size < 0x1_0000_0000
    && forall k :: 0 <= k <= NDIRECT ==> ino.addrs[k] < 0x1_0000_0000
  }

  /** struct dinode as sixteen words: two pairs of shorts, the size, the addresses. */
  function InodeWords(ino: Inode): (ws: seq<nat>)
    requires Storable(ino)
    ensures |ws| == 16 && forall j :: 0 <= j < 16 ==> ws[j] < 0x1_0000_0000
  {
    [ino.type_ + 0x1_0000 * ino.major, ino.minor + 0x1_0000 * ino.nlink, ino.size] + ino.addrs
  }

  function WordsAt(b: Block, base: nat, n: nat): (ws: seq<nat>)
    requires base + n <= WORDS
    ensures |ws| == n && forall j :: 0 <= j < n ==> ws[j] == WordAt(b, base + j)
  {
    if n == 0 then [] else WordsAt(b, base, n - 1) + [WordAt(b, base + n - 1)]
  }

  function ReadInode(b: Block, k: nat): (ino: Inode)
    requires k < IPB
  {
    var w0, w1 := WordAt(b, 16 * k), WordAt(b, 16 * k + 1);
    Inode(w0 % 0x1_0000, w0 / 0x1_0000, w1 % 0x1_0000, w1 / 0x1_0000, WordAt(b, 16 * k + 2),
      WordsAt(b, 16 * k + 3, NDIRECT + 1))
  }

  function PutWords(b: Block, base: nat, ws: seq<nat>): (r: Block)
    requires base + |ws| <= WORDS && forall j :: 0 <= j < |ws| ==> ws[j] < 0x1_0000_0000
    decreases |ws|
  {
    if ws == [] then b else PutWord(PutWords(b, base, ws[..|ws| - 1]), base + |ws| - 1, ws[|ws| - 1])
  }

  lemma {:induction false} PutWordsFrame(b: Block, base: nat, ws: seq<nat>)
    requires base + |ws| <= WORDS && forall j :: 0 <= j < |ws| ==> ws[j] < 0x1_0000_0000
    ensures forall j: nat :: j < WORDS ==>
              WordAt(PutWords(b, base, ws), j) == if base <= j < base + |ws| then ws[j - base] else WordAt(b, j)
    decreases |ws|
  {
    if ws != [] {
      PutWordsFrame(b, base, ws[..|ws| - 1]);
      PutWordFrame(PutWords(b, base, ws[..|ws| - 1]), base + |ws| - 1, ws[|ws| - 1]);
    }
  }

  function PutInode(b: Block, k: nat, ino: Inode): (r: Block)
    requires k < IPB && Storable(ino)
  {
    PutWords(b, 16 * k, InodeWords(ino))
  }

  lemma SplitPair(lo: ushort, hi: ushort)
    ensures (lo + 0x1_0000 * hi) % 0x1_0000 == lo && (lo + 0x1_0000 * hi) / 0x1_0000 == hi
  {
  }

  lemma ReadBack(b: Block, k: nat, ino: Inode)
    requires k < IPB && Storable(ino) && WordsAt(b, 16 * k, 16) == InodeWords(ino)
    ensures ReadInode(b, k) == ino
  {
    var ws := WordsAt(b, 16 * k, 16);
    SplitPair(ino.type_, ino.major);
    SplitPair(ino.minor, ino.nlink);
    assert ws[0] == WordAt(b, 16 * k) && ws[1] == WordAt(b, 16 * k + 1) && ws[2] == WordAt(b, 16 * k + 2);
    assert WordsAt(b, 16 * k + 3, NDIRECT + 1) == ws[3..];
  }

  lemma ReadSame(b: Block, c: Block, k: nat)
    requires k < IPB && forall j :: 16 * k <= j < 16 * k + 16 ==> WordAt(b, j) == WordAt(c, j)
    ensures ReadInode(b, k) == ReadInode(c, k)
  {
    assert WordsAt(b, 16 * k + 3, NDIRECT + 1) == WordsAt(c, 16 * k + 3, NDIRECT + 1);
  }

  /** iupdate then ilock gives the same inode back, and the other fifteen inodes of the block are untouched. */
  lemma InodeRoundTrip(b: Block, k: nat, ino: Inode)
    requires k < IPB && Storable(ino)
    ensures ReadInode(PutInode(b, k, ino), k) == ino
    ensures forall j: nat :: j < IPB && j != k ==> ReadInode(PutInode(b, k, ino), j) == ReadInode(b, j)
  {
    hide InodeWords, WordAt, PutWords, ReadInode, Storable;
    PutWordsFrame(b, 16 * k, InodeWords(ino));
    assert WordsAt(PutInode(b, k, ino), 16 * k, 16) == InodeWords(ino);
    ReadBack(PutInode(b, k, ino), k, ino);
    forall j: nat | j < IPB && j != k
      ensures ReadInode(PutInode(b, k, ino), j) == ReadInode(b, j)
    {
      ReadSame(PutInode(b, k, ino), b, j);
    }
  }

  // ----- file contents -----

  /** Every block below the file's size has an address. */
  ghost predicate HoleFree(sb: Super, disk: Disk, ino: Inode)
    requires ValidInode(sb, ino) && |disk| == sb.size
  {
    forall bn: nat :: bn < MAXFILE && bn * BSIZE < ino.size ==> BlockOf(sb, disk, ino, bn) != 0
  }

  /** Byte x of file j, as the disk has it: 0 where no block is recorded. */
  function FileByte(sb: Super, disk: Disk, inodes: Inodes, j: nat, x: nat): (c: byte)
    requires Shaped(sb, disk, inodes) && j in inodes && x < MAXFILE * BSIZE
  {
    var a := BlockOf(sb, disk, inodes[j], x / BSIZE);
    if a == 0 || a >= sb.size then 0 else disk[a][x % BSIZE]
  }

  /** The contents of file j, up to its size. */
  function Content(sb: Super, disk: Disk, inodes: Inodes, j: nat): (bytes: seq<byte>)
    requires Shaped(sb, disk, inodes) && j in inodes
    ensures |bytes| == inodes[j].size
  {
    seq(inodes[j].size, x requires 0 <= x < inodes[j].size => FileByte(sb, disk, inodes, j, x))
  }

  /** `bytes` written over `c` at `off`, extending it if they run past the end. */
  function Splice(c: seq<byte>, off: nat, bytes: seq<byte>): (r: seq<byte>)
    requires off <= |c|
  {
    c[..off] + bytes + (if off + |bytes| < |c| then c[off + |bytes|..] else [])
  }

  /** Block contents with `bytes` copied in at `at`. */
  function Patch(b: Block, at: nat, bytes: seq<byte>): (r: Block)
    requires at + |bytes| <= BSIZE
    ensures forall k :: 0 <= k < BSIZE ==> r[k] == if at <= k < at + |bytes| then bytes[k - at] else b[k]
  {
    b[..at] + bytes + b[at + |bytes|..]
  }

  /** Owned addresses are in range, so contents are always readable. */
  lemma BlockInRange(sb: Super, disk: Disk, inodes: Inodes, owner: map<nat, Slot>, limbo: set<nat>, i: nat, bn: nat)
    requires Inv(sb, disk, inodes, owner, limbo) && i in inodes && bn < MAXFILE
    ensures BlockOf(sb, disk, inodes[i], bn) < sb.size
    ensures BlockOf(sb, disk, inodes[i], bn) != 0 ==>
              && BlockOf(sb, disk, inodes[i], bn) in owner
              && owner[BlockOf(sb, disk, inodes[i], bn)] == Slot(i, bn)
              && BlockOf(sb, disk, inodes[i], bn) >= sb.datastart
  {
    assert Addr(sb, disk, inodes, Slot(i, bn)) == BlockOf(sb, disk, inodes[i], bn);
  }

  // ----- growing a file -----

  function SansAddrs(ino: Inode): (r: Inode) {
    Inode(ino.type_, ino.major, ino.minor, ino.nlink, ino.size, [])
  }

  /** Inodes differ only in the addresses of inode i. */
  ghost predicate SameButAddrs(n0: Inodes, n1: Inodes, i: nat) {
    && n1.Keys == n0.Keys
    && i in n0 && SansAddrs(n1[i]) == SansAddrs(n0[i])
    && forall j :: j in n0 && j != i ==> n1[j] == n0[j]
  }

  /** From (d0, n0) to (d1, n1): inode i may have filled empty slots; every recorded address and every other
      inode's addresses stand. */
  ghost predicate Grew(sb: Super, d0: Disk, n0: Inodes, d1: Disk, n1: Inodes, i: nat) {
    && Shaped(sb, d0, n0) && Shaped(sb, d1, n1)
    && SameButAddrs(n0, n1, i)
    && forall s :: IsSlot(n0, s) && (s.inum != i || Addr(sb, d0, n0, s) != 0) ==>
      Addr(sb, d1, n1, s) == Addr(sb, d0, n0, s)
  }

  /** Blocks outside the bitmap that were metadata or held file data are as before. */
  ghost predicate DataKept(sb: Super, d0: Disk, o0: map<nat, Slot>, d1: Disk)
    requires ValidSuper(sb) && |d0| == |d1| == sb.size
  {
    && (forall b: nat :: b < sb.bmapstart ==> d1[b] == d0[b])
    && (forall b: nat :: b < sb.size && b in o0 && o0[b].pos != IND ==> d1[b] == d0[b])
  }

  /** Allocating a block straight into ip->addrs[k]. */
  lemma AllocDirect(sb: Super, disk: Disk, inodes: Inodes, owner: map<nat, Slot>, i: nat, k: nat, b: nat)
    requires Inv(sb, disk, inodes, owner, {}) && i in inodes && k <= NDIRECT && inodes[i].addrs[k] == 0
    requires b < sb.size && !Used(sb, disk, b)
    ensures var d1, n1 := Allocated(sb, disk, b), inodes[i := WithAddr(inodes[i], k, b)];
            && b !in owner && sb.datastart <= b
            && Inv(sb, d1, n1, owner[b := AddrSlot(i, k)], {})
            && Fills(sb, disk, inodes, d1, n1, AddrSlot(i, k)) && DataKept(sb, disk, owner, d1)
  {
    hide Owned, Marked, Used, BitAt;
    BallocKeeps(sb, disk, inodes, owner, {}, b);
    var d := Allocated(sb, disk, b);
    RecordDirect(sb, d, inodes, owner, {} + {b}, i, k, b);
    assert {} + {b} - {b} == {};
    FillsAfter(sb, disk, d, inodes, d, inodes[i := WithAddr(inodes[i], k, b)], AddrSlot(i, k));
  }

  lemma DataKeptIndirect(sb: Super, d0: Disk, o0: map<nat, Slot>, d1: Disk, ind: nat, data: Block)
    requires ValidSuper(sb) && |d0| == |d1| == sb.size && DataKept(sb, d0, o0, d1)
    requires sb.datastart <= ind < sb.size && ind in o0 && o0[ind].pos == IND
    ensures DataKept(sb, d0, o0, d1[ind := data])
  {
  }

  lemma EntryEmpty(sb: Super, d0: Disk, d1: Disk, inodes: Inodes, i: nat, k: nat)
    requires SameAddrs(sb, d0, d1, inodes) && i in inodes && k < NINDIRECT && inodes[i].addrs[NDIRECT] != 0
    ensures WordAt(d1[inodes[i].addrs[NDIRECT]], k) == WordAt(d0[inodes[i].addrs[NDIRECT]], k)
  {
    assert Addr(sb, d1, inodes, Slot(i, NDIRECT + k)) == Addr(sb, d0, inodes, Slot(i, NDIRECT + k));
  }

  /** Allocating a block into an empty entry of the indirect block. */
  lemma AllocIndirect(sb: Super, disk: Disk, inodes: Inodes, owner: map<nat, Slot>, i: nat, k: nat, b: nat)
    requires Inv(sb, disk, inodes, owner, {}) && i in inodes && k < NINDIRECT && inodes[i].addrs[NDIRECT] != 0
    requires WordAt(disk[inodes[i].addrs[NDIRECT]], k) == 0
    requires b < sb.size && !Used(sb, disk, b)
    ensures var ind := inodes[i].addrs[NDIRECT];
            var d := Allocated(sb, disk, b);
            var d1 := d[ind := PutWord(d[ind], k, b)];
            && b !in owner && sb.datastart <= b && ind != b
            && Inv(sb, d1, inodes, owner[b := Slot(i, NDIRECT + k)], {})
            && Fills(sb, disk, inodes, d1, inodes, Slot(i, NDIRECT + k)) && DataKept(sb, disk, owner, d1)
  {
    hide Owned, Marked, PutWord, WordAt, Used, SetUsed;
    var ind := inodes[i].addrs[NDIRECT];
    var d := Allocated(sb, disk, b);
    BallocKeeps(sb, disk, inodes, owner, {}, b);
    EntryEmpty(sb, disk, d, inodes, i, k);
    RecordIndirect(sb, d, inodes, owner, {} + {b}, i, k, b);
    assert {} + {b} - {b} == {};
    DataKeptIndirect(sb, disk, owner, d, ind, PutWord(d[ind], k, b));
    FillsAfter(sb, disk, d, inodes, d[ind := PutWord(d[ind], k, b)], inodes, Slot(i, NDIRECT + k));
  }

  // ----- what allocation and data writes do to file contents -----

  /** All files read the same, byte for byte. */
  ghost predicate SameBytes(sb: Super, d0: Disk, n0: Inodes, d1: Disk, n1: Inodes) {
    && Shaped(sb, d0, n0) && Shaped(sb, d1, n1) && n1.Keys == n0.Keys
    && forall j, x: nat :: j in n0 && x < MAXFILE * BSIZE ==> FileByte(sb, d1, n1, j, x) == FileByte(sb, d0, n0, j, x)
  }

  /** Recording a zeroed block shows through as the zeroes that were there before. */
  lemma FillBytes(sb: Super, d0: Disk, n0: Inodes, o0: map<nat, Slot>, d1: Disk, n1: Inodes, slot: Slot)
    requires Inv(sb, d0, n0, o0, {}) && Fills(sb, d0, n0, d1, n1, slot) && DataKept(sb, d0, o0, d1)
    requires IsSlot(n0, slot)
    requires Addr(sb, d0, n0, slot) == 0 && Addr(sb, d1, n1, slot) != 0 ==>
               Addr(sb, d1, n1, slot) < sb.size && d1[Addr(sb, d1, n1, slot)] == ZeroBlock()
    ensures SameBytes(sb, d0, n0, d1, n1)
  {
    hide Used, WordAt;
    forall j, x: nat | j in n0 && x < MAXFILE * BSIZE
      ensures FileByte(sb, d1, n1, j, x) == FileByte(sb, d0, n0, j, x)
    {
      var s := Slot(j, x / BSIZE);
      assert Addr(sb, d0, n0, s) == BlockOf(sb, d0, n0[j], x / BSIZE);
      assert Addr(sb, d1, n1, s) == BlockOf(sb, d1, n1[j], x / BSIZE);
    }
  }

  lemma SameBytesTrans(sb: Super, d0: Disk, n0: Inodes, d1: Disk, n1: Inodes, d2: Disk, n2: Inodes)
    requires SameBytes(sb, d0, n0, d1, n1) && SameBytes(sb, d1, n1, d2, n2)
    ensures SameBytes(sb, d0, n0, d2, n2)
  {
    forall j, x: nat | j in n0 && x < MAXFILE * BSIZE
      ensures FileByte(sb, d2, n2, j, x) == FileByte(sb, d0, n0, j, x)
    {
      assert FileByte(sb, d1, n1, j, x) == FileByte(sb, d0, n0, j, x);
    }
  }

  /** Bytes [from, from + |bytes|) of file i now read `bytes`; everything else in every file reads as before. */
  ghost predicate BytesWritten(sb: Super, d0: Disk, n0: Inodes, d1: Disk, n1: Inodes, i: nat, from: nat,
                               bytes: seq<byte>) {
    && Shaped(sb, d0, n0) && Shaped(sb, d1, n1) && n1.Keys == n0.Keys
    && forall j, x: nat :: j in n0 && x < MAXFILE * BSIZE ==>
         FileByte(sb, d1, n1, j, x) ==
         if j == i && from <= x < from + |bytes| then bytes[x - from] else FileByte(sb, d0, n0, j, x)
  }

  /** Copying into the block of one file position changes just those bytes of that file. */
  lemma PatchBytes(sb: Super, disk: Disk, inodes: Inodes, owner: map<nat, Slot>, i: nat, off: nat, bytes: seq<byte>)
    requires Inv(sb, disk, inodes, owner, {}) && i in inodes && off < MAXFILE * BSIZE && off % BSIZE + |bytes| <= BSIZE
    requires BlockOf(sb, disk, inodes[i], off / BSIZE) != 0
    ensures var a := BlockOf(sb, disk, inodes[i], off / BSIZE);
            && a < sb.size
            && var d1 := disk[a := Patch(disk[a], off % BSIZE, bytes)];
               && Inv(sb, d1, inodes, owner, {}) && SameAddrs(sb, disk, d1, inodes)
               && BytesWritten(sb, disk, inodes, d1, inodes, i, off, bytes)
  {
    var a := BlockOf(sb, disk, inodes[i], off / BSIZE);
    BlockInRange(sb, disk, inodes, owner, {}, i, off / BSIZE);
    var d1 := disk[a := Patch(disk[a], off % BSIZE, bytes)];
    DataWriteKeeps(sb, disk, inodes, owner, {}, a, Patch(disk[a], off % BSIZE, bytes));
    forall j, x: nat | j in inodes && x < MAXFILE * BSIZE
      ensures FileByte(sb, d1, inodes, j, x) ==
              if j == i && off <= x < off + |bytes| then bytes[x - off] else FileByte(sb, disk, inodes, j, x)
    {
      PatchByte(sb, disk, d1, inodes, owner, i, off, bytes, j, x);
    }
  }

  lemma PatchByte(sb: Super, disk: Disk, d1: Disk, inodes: Inodes, owner: map<nat, Slot>, i: nat, off: nat,
                  bytes: seq<byte>, j: nat, x: nat)
    requires Inv(sb, disk, inodes, owner, {}) && i in inodes && off < MAXFILE * BSIZE && off % BSIZE + |bytes| <= BSIZE
    requires BlockOf(sb, disk, inodes[i], off / BSIZE) != 0 && BlockOf(sb, disk, inodes[i], off / BSIZE) < sb.size
    requires var a := BlockOf(sb, disk, inodes[i], off / BSIZE); d1 == disk[a := Patch(disk[a], off % BSIZE, bytes)]
    requires SameAddrs(sb, disk, d1, inodes) && j in inodes && x < MAXFILE * BSIZE
    ensures FileByte(sb, d1, inodes, j, x) ==
            if j == i && off <= x < off + |bytes| then bytes[x - off] else FileByte(sb, disk, inodes, j, x)
  {
    hide Marked, WordAt, Used;
    var s, t := Slot(j, x / BSIZE), Slot(i, off / BSIZE);
    assert Addr(sb, disk, inodes, s) == BlockOf(sb, disk, inodes[j], x / BSIZE);
    assert Addr(sb, disk, inodes, t) == BlockOf(sb, disk, inodes[i], off / BSIZE);
    assert Addr(sb, d1, inodes, s) == BlockOf(sb, d1, inodes[j], x / BSIZE);
  }

  // ----- bmap, as a relation between file system states -----

  /** The file system between two statements; `logged` is what the current transaction has handed to log_write. */
  datatype FsState = FsState(disk: Disk, inodes: Inodes, owner: map<nat, Slot>, logged: set<nat>)

  ghost predicate Ok(sb: Super, s: FsState, limbo: set<nat>) {
    Inv(sb, s.disk, s.inodes, s.owner, limbo)
  }

  lemma ZeroNotOwned(sb: Super, s: FsState)
    requires Ok(sb, s, {})
    ensures 0 !in s.owner
  {
  }

  /** From s to t, only blocks that were handed to log_write have changed. */
  ghost predicate Within(s: FsState, t: FsState) {
    && s.logged <= t.logged && |t.disk| == |s.disk|
    && forall b: nat :: b < |s.disk| && b !in t.logged ==> t.disk[b] == s.disk[b]
  }

  lemma WithinSelf(s: FsState)
    ensures Within(s, s)
  {
  }

  lemma WithinOn(s: FsState, t: FsState, u: FsState)
    requires Within(s, t) && Within(t, u)
    ensures Within(s, u)
  {
  }

  ghost predicate Full(sb: Super, disk: Disk)
    requires ValidSuper(sb) && |disk| == sb.size
  {
    forall c: nat :: c < sb.size ==> Used(sb, disk, c)
  }

  lemma FullStays(sb: Super, d0: Disk, d1: Disk)
    requires ValidSuper(sb) && |d0| == |d1| == sb.size
    requires forall b: nat :: sb.bmapstart <= b < sb.datastart ==> d1[b] == d0[b]
    ensures Full(sb, d0) ==> Full(sb, d1)
  {
    if Full(sb, d0) {
      forall c: nat | c < sb.size
        ensures Used(sb, d1, c)
      {
        assert Used(sb, d0, c) && d1[BBlock(sb, c)] == d0[BBlock(sb, c)];
      }
    }
  }

  /** The log entries made when block b is allocated. */
  ghost function AllocLogs(sb: Super, b: nat): (s: set<nat>)
    requires ValidSuper(sb) && b < sb.size
  {
    {BBlock(sb, b), b}
  }

  /** A step of bmap that fills `slot` with `addr`, or finds it filled already, or finds the disk full. */
  ghost predicate Filled(sb: Super, s: FsState, t: FsState, slot: Slot, addr: nat, extra: set<nat>) {
    && Ok(sb, s, {}) && Ok(sb, t, {}) && IsSlot(s.inodes, slot)
    && Fills(sb, s.disk, s.inodes, t.disk, t.inodes, slot) && DataKept(sb, s.disk, s.owner, t.disk)
    && Addr(sb, t.disk, t.inodes, slot) == addr < sb.size
    && var before := Addr(sb, s.disk, s.inodes, slot);
       && (before != 0 || addr == 0 ==> t == s)
       && (addr == 0 ==> Full(sb, t.disk))
       && (before == 0 && addr != 0 ==>
             && t.logged == s.logged + AllocLogs(sb, addr) + extra
             && t.disk[addr] == ZeroBlock() && addr !in s.owner && t.owner == s.owner[addr := slot])
  }

  /** The blocks bmap hands to log_write, given what was and is recorded. */
  ghost function MapLogs(sb: Super, bn: nat, ind0: nat, ind: nat, a0: nat, a: nat): (s: set<nat>)
    requires ValidSuper(sb) && ind < sb.size && a < sb.size
  {
    (if ind0 == 0 && ind != 0 then AllocLogs(sb, ind) else {})
    + (if a0 == 0 && a != 0 then AllocLogs(sb, a) + (if bn >= NDIRECT then {ind} else {}) else {})
  }

  /** What bmap(ip, bn) does to the shape of things. */
  ghost predicate MapShape(sb: Super, s: FsState, t: FsState, i: nat, bn: nat, addr: nat) {
    && Ok(sb, s, {}) && Ok(sb, t, {}) && bn < MAXFILE
    && Grew(sb, s.disk, s.inodes, t.disk, t.inodes, i)
    && addr == BlockOf(sb, t.disk, t.inodes[i], bn) < sb.size
    && (forall b: nat :: b < sb.bmapstart ==> t.disk[b] == s.disk[b])
    && (BlockOf(sb, s.disk, s.inodes[i], bn) != 0 ==> t == s)
    && (addr == 0 ==> Full(sb, t.disk))
  }

  /** The owner map once a slot that held `before` holds `now`. */
  ghost function Adopted(owner: map<nat, Slot>, slot: Slot, before: nat, now: nat): (o: map<nat, Slot>) {
    if before == 0 && now != 0 then owner[now := slot] else owner
  }

  /** From s to t, bmap(ip, bn) can have given the inode an indirect block and given bn the block `a`: blocks that
      nobody owned. */
  ghost predicate MapOwners(s: FsState, t: FsState, i: nat, bn: nat, ind0: nat, ind: nat, a0: nat, a: nat) {
    && (ind0 == 0 && ind != 0 ==> ind !in s.owner)
    && (a0 == 0 && a != 0 ==> a !in s.owner && (ind0 == 0 ==> a != ind))
    && t.owner == Adopted(Adopted(s.owner, Slot(i, IND), ind0, ind), Slot(i, bn), a0, a)
  }

  /** What it hands to log_write, and who owns what then. */
  ghost predicate MapLogged(sb: Super, s: FsState, t: FsState, i: nat, bn: nat, addr: nat)
    requires MapShape(sb, s, t, i, bn, addr)
  {
    && (bn < NDIRECT ==> t.inodes[i].addrs[NDIRECT] == s.inodes[i].addrs[NDIRECT])
    && MapOwners(s, t, i, bn, s.inodes[i].addrs[NDIRECT], t.inodes[i].addrs[NDIRECT],
      BlockOf(sb, s.disk, s.inodes[i], bn), addr)
    && t.logged == s.logged + MapLogs(sb, bn, s.inodes[i].addrs[NDIRECT], t.inodes[i].addrs[NDIRECT],
                                      BlockOf(sb, s.disk, s.inodes[i], bn), addr)
  }

  ghost predicate Mapped(sb: Super, s: FsState, t: FsState, i: nat, bn: nat, addr: nat) {
    && MapShape(sb, s, t, i, bn, addr) && MapLogged(sb, s, t, i, bn, addr)
    && SameBytes(sb, s.disk, s.inodes, t.disk, t.inodes)
  }

  lemma FillsGrows(sb: Super, d0: Disk, n0: Inodes, d1: Disk, n1: Inodes, slot: Slot)
    requires Fills(sb, d0, n0, d1, n1, slot)
    ensures Grew(sb, d0, n0, d1, n1, slot.inum)
  {
  }

  lemma GrewTrans(sb: Super, d0: Disk, n0: Inodes, d1: Disk, n1: Inodes, d2: Disk, n2: Inodes, i: nat)
    requires Grew(sb, d0, n0, d1, n1, i) && Grew(sb, d1, n1, d2, n2, i)
    ensures Grew(sb, d0, n0, d2, n2, i)
  {
    forall s | IsSlot(n0, s) && (s.inum != i || Addr(sb, d0, n0, s) != 0)
      ensures Addr(sb, d2, n2, s) == Addr(sb, d0, n0, s)
    {
      assert Addr(sb, d1, n1, s) == Addr(sb, d0, n0, s);
    }
  }

  lemma FilledOk(sb: Super, s: FsState, t: FsState, slot: Slot, addr: nat, extra: set<nat>)
    requires Filled(sb, s, t, slot, addr, extra)
    ensures Ok(sb, t, {}) && slot.inum in t.inodes
    ensures slot.pos == IND ==> t.inodes[slot.inum].addrs[NDIRECT] == addr
  {
  }

  /** bmap of a direct block. */
  lemma MapDirect(sb: Super, s: FsState, t: FsState, i: nat, bn: nat, addr: nat)
    requires bn < NDIRECT && Filled(sb, s, t, Slot(i, bn), addr, {})
    ensures Mapped(sb, s, t, i, bn, addr)
  {
    hide Owned, Marked, Used, SameBytes, Grew;
    FillsGrows(sb, s.disk, s.inodes, t.disk, t.inodes, Slot(i, bn));
    assert SameButAddrs(s.inodes, t.inodes, i);
    FillBytes(sb, s.disk, s.inodes, s.owner, t.disk, t.inodes, Slot(i, bn));
    assert Addr(sb, t.disk, t.inodes, Slot(i, IND)) == Addr(sb, s.disk, s.inodes, Slot(i, IND));
    assert Addr(sb, t.disk, t.inodes, Slot(i, bn)) == BlockOf(sb, t.disk, t.inodes[i], bn);
    assert Addr(sb, s.disk, s.inodes, Slot(i, bn)) == BlockOf(sb, s.disk, s.inodes[i], bn);
  }

  /** bmap that finds no room for the indirect block. */
  lemma MapNoIndirect(sb: Super, s: FsState, t: FsState, i: nat, bn: nat)
    requires NDIRECT <= bn < MAXFILE && Filled(sb, s, t, Slot(i, IND), 0, {})
    ensures Mapped(sb, s, t, i, bn, 0)
  {
    assert Addr(sb, t.disk, t.inodes, Slot(i, IND)) == t.inodes[i].addrs[NDIRECT];
  }

  /** bmap through the indirect block. */
  lemma MapIndirect(sb: Super, s: FsState, m: FsState, t: FsState, i: nat, bn: nat, addr: nat)
    requires NDIRECT <= bn < MAXFILE && i in m.inodes && |m.inodes[i].addrs| == NDIRECT + 1
    requires Filled(sb, s, m, Slot(i, IND), m.inodes[i].addrs[NDIRECT], {}) && m.inodes[i].addrs[NDIRECT] != 0
    requires Filled(sb, m, t, Slot(i, bn), addr, {m.inodes[i].addrs[NDIRECT]})
    ensures Mapped(sb, s, t, i, bn, addr)
  {
    hide Owned, Marked, Used, SameBytes, Grew, Fills;
    FillsGrows(sb, s.disk, s.inodes, m.disk, m.inodes, Slot(i, IND));
    FillsGrows(sb, m.disk, m.inodes, t.disk, t.inodes, Slot(i, bn));
    GrewTrans(sb, s.disk, s.inodes, m.disk, m.inodes, t.disk, t.inodes, i);
    FillBytes(sb, s.disk, s.inodes, s.owner, m.disk, m.inodes, Slot(i, IND));
    FillBytes(sb, m.disk, m.inodes, m.owner, t.disk, t.inodes, Slot(i, bn));
    SameBytesTrans(sb, s.disk, s.inodes, m.disk, m.inodes, t.disk, t.inodes);
    MapIndirectAddrs(sb, s, m, t, i, bn, addr);
  }

  lemma MapIndirectAddrs(sb: Super, s: FsState, m: FsState, t: FsState, i: nat, bn: nat, addr: nat)
    requires NDIRECT <= bn < MAXFILE && i in m.inodes && |m.inodes[i].addrs| == NDIRECT + 1
    requires Filled(sb, s, m, Slot(i, IND), m.inodes[i].addrs[NDIRECT], {}) && m.inodes[i].addrs[NDIRECT] != 0
    requires Filled(sb, m, t, Slot(i, bn), addr, {m.inodes[i].addrs[NDIRECT]})
    ensures i in s.inodes && i in t.inodes && t.inodes[i].addrs[NDIRECT] == m.inodes[i].addrs[NDIRECT]
    ensures BlockOf(sb, t.disk, t.inodes[i], bn) == addr
    ensures BlockOf(sb, m.disk, m.inodes[i], bn) == BlockOf(sb, s.disk, s.inodes[i], bn)
    ensures s.inodes[i].addrs[NDIRECT] == 0 ==> BlockOf(sb, s.disk, s.inodes[i], bn) == 0
    ensures s.inodes[i].addrs[NDIRECT] != 0 ==> m == s
  {
    hide Owned, Marked, Used;
    assert Addr(sb, t.disk, t.inodes, Slot(i, IND)) == Addr(sb, m.disk, m.inodes, Slot(i, IND));
    assert Addr(sb, t.disk, t.inodes, Slot(i, bn)) == BlockOf(sb, t.disk, t.inodes[i], bn);
    assert Addr(sb, s.disk, s.inodes, Slot(i, bn)) == Addr(sb, m.disk, m.inodes, Slot(i, bn));
    assert Addr(sb, s.disk, s.inodes, Slot(i, IND)) == s.inodes[i].addrs[NDIRECT];
  }

  // ----- iupdate -----

  lemma IBlockRange(sb: Super, i: nat)
    requires ValidSuper(sb) && i < sb.ninodes
    ensures 0 < IBlock(sb, i) < sb.bmapstart
  {
    assert i / IPB <= sb.ninodes / IPB;
  }

  /** Metadata blocks before the bitmap hold no file data and no addresses. */
  lemma MetaWrite(sb: Super, s: FsState, a: nat, data: Block)
    requires Ok(sb, s, {}) && 0 < a < sb.bmapstart
    ensures Inv(sb, s.disk[a := data], s.inodes, s.owner, {})
    ensures SameAddrs(sb, s.disk, s.disk[a := data], s.inodes)
    ensures SameBytes(sb, s.disk, s.inodes, s.disk[a := data], s.inodes)
  {
    var d1 := s.disk[a := data];
    DataWriteKeeps(sb, s.disk, s.inodes, s.owner, {}, a, data);
    forall j, x: nat | j in s.inodes && x < MAXFILE * BSIZE
      ensures FileByte(sb, d1, s.inodes, j, x) == FileByte(sb, s.disk, s.inodes, j, x)
    {
      assert Addr(sb, s.disk, s.inodes, Slot(j, x / BSIZE)) == BlockOf(sb, s.disk, s.inodes[j], x / BSIZE);
      assert Addr(sb, d1, s.inodes, Slot(j, x / BSIZE)) == BlockOf(sb, d1, s.inodes[j], x / BSIZE);
    }
  }

  /** The on-disk copy of inode j. */
  function OnDisk(sb: Super, disk: Disk, j: nat): (ino: Inode)
    requires ValidSuper(sb) && |disk| == sb.size && j < sb.ninodes
  {
    IBlockRange(sb, j);
    ReadInode(disk[IBlock(sb, j)], j % IPB)
  }

  /** Only inode i's on-disk copy may differ. */
  ghost predicate OtherInodesKept(sb: Super, d0: Disk, d1: Disk, i: nat)
    requires ValidSuper(sb) && |d0| == |d1| == sb.size
  {
    forall j: nat :: j < sb.ninodes && j != i ==> OnDisk(sb, d1, j) == OnDisk(sb, d0, j)
  }

  function Updated(sb: Super, s: FsState, i: nat): (disk: Disk)
    requires Ok(sb, s, {}) && i in s.inodes
  {
    IBlockRange(sb, i);
    s.disk[IBlock(sb, i) := PutInode(s.disk[IBlock(sb, i)], i % IPB, s.inodes[i])]
  }

  lemma UpdateStores(sb: Super, s: FsState, i: nat)
    requires Ok(sb, s, {}) && i in s.inodes
    ensures |Updated(sb, s, i)| == sb.size
    ensures OnDisk(sb, Updated(sb, s, i), i) == s.inodes[i]
    ensures OtherInodesKept(sb, s.disk, Updated(sb, s, i), i)
    ensures Inv(sb, Updated(sb, s, i), s.inodes, s.owner, {})
    ensures SameAddrs(sb, s.disk, Updated(sb, s, i), s.inodes)
    ensures SameBytes(sb, s.disk, s.inodes, Updated(sb, s, i), s.inodes)
  {
    hide PutInode, ReadInode, SameBytes, SameAddrs;
    var ib := IBlock(sb, i);
    IBlockRange(sb, i);
    var data := PutInode(s.disk[ib], i % IPB, s.inodes[i]);
    InodeRoundTrip(s.disk[ib], i % IPB, s.inodes[i]);
    MetaWrite(sb, s, ib, data);
    forall j: nat | j < sb.ninodes && j != i
      ensures OnDisk(sb, Updated(sb, s, i), j) == OnDisk(sb, s.disk, j)
    {
      IBlockRange(sb, j);
      if IBlock(sb, j) == ib {
        assert j / IPB == i / IPB && j % IPB != i % IPB;
      }
    }
  }
}
