/** Disk blocks as arrays of bytes, and the views the kernel takes of them:
    little-endian 32-bit words (log header, indirect blocks, on-disk inodes)
    and single bits (the free bitmap). */
module Blocks {

  const BSIZE: nat := 1024
  const WORDS: nat := 256 // uint words in a block
  const BPB: nat := 8192  // bitmap bits in a block

  type byte = x: nat | x < 256
  type uint32 = x: nat | x < 0x1_0000_0000
  type Block = s: seq<byte> | |s| == BSIZE witness seq(BSIZE, _ => 0)

  function ZeroBlock(): (b: Block)
    ensures forall i :: 0 <= i < BSIZE ==> b[i] == 0
  {
    seq(BSIZE, _ => 0)
  }

  function WordAt(b: Block, i: nat): (w: uint32)
    requires i < WORDS
  {
    var b0: int, b1: int, b2: int, b3: int := b[4 * i], b[4 * i + 1], b[4 * i + 2], b[4 * i + 3];
    b0 + 0x100 * b1 + 0x1_0000 * b2 + 0x100_0000 * b3
  }

  function PutWord(b: Block, i: nat, w: uint32): (r: Block)
    requires i < WORDS
  {
    b[4 * i := w % 0x100]
    [4 * i + 1 := w / 0x100 % 0x100]
    [4 * i + 2 := w / 0x1_0000 % 0x100]
    [4 * i + 3 := w / 0x100_0000]
  }

  /** A word written is the word read back, and no other word of the block moves. */
  lemma PutWordFrame(b: Block, i: nat, w: uint32)
    requires i < WORDS
    ensures WordAt(PutWord(b, i, w), i) == w
    ensures forall j: nat :: j < WORDS && j != i ==> WordAt(PutWord(b, i, w), j) == WordAt(b, j)
  {
    assert w / 0x100 / 0x100 == w / 0x1_0000 && w / 0x1_0000 / 0x100 == w / 0x100_0000;
    forall j: nat | j < WORDS && j != i
      ensures WordAt(PutWord(b, i, w), j) == WordAt(b, j)
    {
    }
  }

  lemma ZeroWord(i: nat)
    requires i < WORDS
    ensures WordAt(ZeroBlock(), i) == 0
  {
  }

  // ----- bits -----

  function Pow2(k: nat): (p: nat) {
    if k == 0 then 1 else 2 * Pow2(k - 1)
  }

  predicate BitOf(x: nat, k: nat) {
    if k == 0 then x % 2 == 1 else BitOf(x / 2, k - 1)
  }

  predicate BitAt(b: Block, i: nat)
    requires i < BPB
  {
    BitOf(b[i / 8], i % 8)
  }

  /** data[i/8] |= 1 << (i % 8) */
  function SetBit(b: Block, i: nat): (r: Block)
    requires i < BPB
  {
    if BitAt(b, i) then b
    else
      BitFits(b[i / 8], i % 8, 8);
      assert Pow2(8) == 256;
      b[i / 8 := b[i / 8] + Pow2(i % 8)]
  }

  /** data[i/8] &= ~(1 << (i % 8)) */
  function ClearBit(b: Block, i: nat): (r: Block)
    requires i < BPB
  {
    if !BitAt(b, i) then b
    else
      SubBit(b[i / 8], i % 8);
      b[i / 8 := b[i / 8] - Pow2(i % 8)]
  }

  lemma {:induction false} AddBit(x: nat, k: nat, j: nat)
    requires !BitOf(x, k)
    ensures BitOf(x + Pow2(k), j) == (j == k || BitOf(x, j))
  {
    if k == 0 {
      assert (x + 1) / 2 == x / 2;
    } else {
      assert (x + Pow2(k)) / 2 == x / 2 + Pow2(k - 1) && (x + Pow2(k)) % 2 == x % 2;
      if j > 0 {
        AddBit(x / 2, k - 1, j - 1);
      }
    }
  }

  lemma {:induction false} SubBit(x: nat, k: nat)
    requires BitOf(x, k)
    ensures x >= Pow2(k) && !BitOf(x - Pow2(k), k)
  {
    if k == 0 {
      assert (x - 1) % 2 == 0;
    } else {
      SubBit(x / 2, k - 1);
      assert (x - Pow2(k)) / 2 == x / 2 - Pow2(k - 1);
    }
  }

  lemma {:induction false} BitFits(x: nat, k: nat, m: nat)
    requires k < m && x < Pow2(m) && !BitOf(x, k)
    ensures x + Pow2(k) < Pow2(m)
  {
    assert Pow2(m) == 2 * Pow2(m - 1);
    if k == 0 {
      assert Pow2(k) == 1;
    } else {
      assert Pow2(k) == 2 * Pow2(k - 1);
      BitFits(x / 2, k - 1, m - 1);
    }
  }

  lemma SetBitByte(x: byte, k: nat)
    requires k < 8 && !BitOf(x, k)
    ensures x + Pow2(k) < 256
    ensures forall j: nat :: BitOf(x + Pow2(k), j) == (j == k || BitOf(x, j))
  {
    assert Pow2(8) == 256;
    BitFits(x, k, 8);
    forall j: nat
      ensures BitOf(x + Pow2(k), j) == (j == k || BitOf(x, j))
    {
      AddBit(x, k, j);
    }
  }

  lemma ClearBitByte(x: byte, k: nat)
    requires k < 8 && BitOf(x, k)
    ensures x - Pow2(k) >= 0
    ensures forall j: nat :: BitOf(x - Pow2(k), j) == (j != k && BitOf(x, j))
  {
    SubBit(x, k);
    forall j: nat
      ensures BitOf(x - Pow2(k), j) == (j != k && BitOf(x, j))
    {
      AddBit(x - Pow2(k), k, j);
    }
  }

  lemma SetBitFrame(b: Block, i: nat, j: nat)
    requires i < BPB && j < BPB
    ensures BitAt(SetBit(b, i), j) == (j == i || BitAt(b, j))
  {
    if !BitAt(b, i) {
      SetBitByte(b[i / 8], i % 8);
    }
  }

  lemma ClearBitFrame(b: Block, i: nat, j: nat)
    requires i < BPB && j < BPB
    ensures BitAt(ClearBit(b, i), j) == (j != i && BitAt(b, j))
  {
    if BitAt(b, i) {
      ClearBitByte(b[i / 8], i % 8);
    }
  }
}
