/** The formats on disk, byte by byte (kernel/fs.h, kernel/log.c): where the fields are that the other modules read. */
module DiskFormat {
  import opened Blocks
  import opened FsModel
  import opened Dir
  import Log

  /** Two and four bytes, low byte first. */
  function U16(b: seq<byte>, o: nat): (w: nat)
    requires o + 2 <= |b|
  {
    var b0: int, b1: int := b[o], b[o + 1];
    b0 + 0x100 * b1
  }

  function U32(b: seq<byte>, o: nat): (w: nat)
    requires o + 4 <= |b|
  {
    U16(b, o) + 0x1_0000 * U16(b, o + 2)
  }

  lemma WordBytes(b: Block, i: nat)
    requires i < WORDS
    ensures WordAt(b, i) == U32(b, 4 * i)
    ensures WordAt(b, i) % 0x1_0000 == U16(b, 4 * i) && WordAt(b, i) / 0x1_0000 == U16(b, 4 * i + 2)
  {
  }

  /** struct dinode: type, major, minor, nlink, size and addrs at 0, 2, 4, 6, 8 and 12 of its 64 bytes. */
  lemma DinodeLayout(b: Block, k: nat, j: nat)
    requires k < 16 && j < 13
    ensures var ino := ReadInode(b, k);
      && ino.type_ == U16(b, 64 * k) && ino.major == U16(b, 64 * k + 2) && ino.minor == U16(b, 64 * k + 4)
      && ino.nlink == U16(b, 64 * k + 6) && ino.size == U32(b, 64 * k + 8)
      && |ino.addrs| == 13 && ino.addrs[j] == U32(b, 64 * k + 12 + 4 * j)
  {
    hide WordAt, U16, U32;
    WordBytes(b, 16 * k);
    WordBytes(b, 16 * k + 1);
    WordBytes(b, 16 * k + 2);
    WordBytes(b, 16 * k + 3 + j);
  }

  /** Inode i is in block inodestart + i / 16, at place i % 16. */
  lemma InodePlace(sb: Super, disk: Disk, i: nat)
    requires ValidSuper(sb) && |disk| == sb.size && i < sb.ninodes
    ensures sb.inodestart + i / 16 < |disk| && OnDisk(sb, disk, i) == ReadInode(disk[sb.inodestart + i / 16], i % 16)
  {
    hide ReadInode;
    IBlockRange(sb, i);
  }

  /** The bit of block b: bit b % 8 of byte b / 8 % 1024 of block bmapstart + b / 8192. */
  lemma BitmapPlace(sb: Super, disk: Disk, b: nat)
    requires ValidSuper(sb) && |disk| == sb.size && b < sb.size
    ensures sb.bmapstart + b / 8192 < |disk|
    ensures FsModel.Used(sb, disk, b) <==> Bit(disk[sb.bmapstart + b / 8192][b / 8 % 1024], b % 8)
  {
    hide BitOf, Bit;
    var bb := BBlock(sb, b);
    ByteOf(b);
    BitIs(disk[bb][b / 8 % 1024], b % 8);
  }

  lemma ByteOf(b: nat)
    ensures b % 8192 / 8 == b / 8 % 1024 && b % 8192 % 8 == b % 8
  {
    var q, r := b / 8192, b % 8192;
    assert b == 8 * (1024 * q + r / 8) + r % 8;
  }

  /** Bit k of a byte. */
  predicate Bit(x: byte, k: nat)
    requires k < 8
  {
    x / [1, 2, 4, 8, 16, 32, 64, 128][k] % 2 == 1
  }

  lemma BitIs(x: byte, k: nat)
    requires k < 8
    ensures BitOf(x, k) == Bit(x, k)
  {
  }

  /** Block bn of a file: one of the first twelve addresses, or a word of the block that the thirteenth names. */
  lemma IndirectPlace(sb: Super, disk: Disk, ino: Inode, bn: nat)
    requires ValidInode(sb, ino) && |disk| == sb.size && bn < 12 + 256
    ensures BlockOf(sb, disk, ino, bn) ==
      if bn < 12 then ino.addrs[bn] else if ino.addrs[12] == 0 then 0 else U32(disk[ino.addrs[12]], 4 * (bn - 12))
  {
    hide WordAt, U32;
    if bn >= 12 && ino.addrs[12] != 0 {
      WordBytes(disk[ino.addrs[12]], bn - 12);
    }
  }

  /** Byte x of a file without holes is byte x % 1024 of its block x / 1024. */
  lemma FilePlace(sb: Super, disk: Disk, inodes: Inodes, owner: map<nat, Slot>, j: nat, x: nat)
    requires Inv(sb, disk, inodes, owner, {}) && j in inodes && HoleFree(sb, disk, inodes[j]) && x < inodes[j].size
    ensures x / 1024 < MAXFILE && 0 < BlockOf(sb, disk, inodes[j], x / 1024) < sb.size
    ensures Content(sb, disk, inodes, j)[x] == disk[BlockOf(sb, disk, inodes[j], x / 1024)][x % 1024]
  {
    hide Owned, Marked, BlockOf;
    assert x / 1024 * BSIZE <= x;
    BlockInRange(sb, disk, inodes, owner, {}, j, x / 1024);
  }

  /** struct dirent: the inode number in two bytes, then the name, up to a NUL or all of its fourteen bytes. */
  lemma DirentLayout(e: seq<byte>, n: Name)
    requires |e| == 16 && (forall i :: 0 <= i < |n| ==> n[i] != 0) && |n| <= 14
    requires e[2..2 + |n|] == n && (|n| < 14 ==> e[2 + |n|] == 0)
    ensures EntryOf(e).inum == U16(e, 0) && EntryOf(e).name == n
  {
    NameUpto(e[2..], n);
  }

  lemma {:induction false} NameUpto(s: seq<byte>, n: Name)
    requires |n| <= |s| && s[..|n|] == n && (forall i :: 0 <= i < |n| ==> n[i] != 0) && (|n| < |s| ==> s[|n|] == 0)
    ensures Upto(s) == n
    decreases |n|
  {
    if n != [] {
      assert s[0] == n[0] && s[1..][..|n| - 1] == n[1..];
      NameUpto(s[1..], n[1..]);
    }
  }

  /** struct logheader: the number of blocks in four bytes, then their home blocks. */
  lemma LogHeaderLayout(h: Block, i: nat)
    requires Log.HeaderCount(h) <= 30 && i < |Log.HeaderHomes(h)|
    ensures |Log.HeaderHomes(h)| == Log.HeaderCount(h) == U32(h, 0) && Log.HeaderHomes(h)[i] == U32(h, 4 + 4 * i)
  {
    hide WordAt, U32;
    WordBytes(h, 0);
    WordBytes(h, 1 + i);
  }
}
