/** The code of kernel/fs.c over blocks seen through the buffer cache, inside a transaction: the allocator,
    bmap, itrunc, readi, writei and filewrite (kernel/file.c). */
module FsCode {
  import opened Blocks
  import opened Values
  import opened FsModel
  import opened FsWrite
  import opened FsTorn
  import opened FsTrunc
  import opened Params

  /** `disk` is the logical contents of every block; `inodes` the in-memory inodes. `owner` says which slot
      records each data block, and `logged` collects the blocks handed to log_write. */
  class FileSystem {
    const sb: Super
    var disk: Disk
    var inodes: Inodes
    ghost var owner: map<nat, Slot>
    ghost var logged: set<nat>

    ghost function State(): (s: FsState)
      reads this
    {
      FsState(disk, inodes, owner, logged)
    }

    /** At operation boundaries nothing is in limbo, files have no holes, and inodes are on disk as in memory. */
    ghost predicate Valid()
      reads this
    {
      Ok(sb, State(), {}) && Holeless(sb, State()) && Stored(sb, State())
    }

    constructor (sb: Super, image: Disk, inodes: Inodes, ghost owner: map<nat, Slot>)
      requires Inv(sb, image, inodes, owner, {})
      requires forall i :: i in inodes ==> HoleFree(sb, image, inodes[i]) && OnDisk(sb, image, i) == inodes[i]
      ensures Valid() && this.sb == sb && disk == image && this.inodes == inodes && this.owner == owner && logged == {}
    {
      this.sb, disk, this.inodes, this.owner, logged := sb, image, inodes, owner, {};
    }

    /** log_write of a block with new contents. */
    method LogWrite(b: nat, data: Block)
      requires b < |disk|
      modifies this`disk, this`logged
      ensures disk == old(disk)[b := data] && logged == old(logged) + {b}
    {
      disk := disk[b := data];
      logged := logged + {b};
    }

    /** balloc's inner loop: the first clear bit of one bitmap block, or BPB. */
    method FindClear(base: nat) returns (bi: nat)
      requires ValidSuper(sb) && |disk| == sb.size && base < sb.size && base % BPB == 0
      ensures bi <= BPB && forall k: nat :: base <= k < base + bi && k < sb.size ==> Used(sb, disk, k)
      ensures bi < BPB && base + bi < sb.size ==> !Used(sb, disk, base + bi)
    {
      bi := 0;
      while bi < BPB && base + bi < sb.size
        invariant bi <= BPB && forall k: nat :: base <= k < base + bi && k < sb.size ==> Used(sb, disk, k)
      {
        assert (base + bi) / BPB == base / BPB && (base + bi) % BPB == bi;
        if !BitAt(disk[BBlock(sb, base)], bi) { return; }
        bi := bi + 1;
      }
    }

    /** balloc's search: the lowest free block, or sb.size. */
    method FindFree() returns (b: nat)
      requires ValidSuper(sb) && |disk| == sb.size
      ensures b <= sb.size && forall c: nat :: c < b ==> Used(sb, disk, c)
      ensures b < sb.size ==> !Used(sb, disk, b)
    {
      hide Used;
      var base := 0;
      while base < sb.size
        invariant base % BPB == 0
        invariant forall c: nat :: c < base && c < sb.size ==> Used(sb, disk, c)
      {
        var bi := FindClear(base);
        if bi < BPB && base + bi < sb.size { return base + bi; }
        base := base + BPB;
      }
      return sb.size;
    }

    /** balloc: the lowest free block, marked and zeroed; 0 only if every block is in use. */
    method Balloc(ghost limbo: set<nat>) returns (b: nat)
      requires Ok(sb, State(), limbo)
      modifies this`disk, this`logged
      ensures b == 0 ==> State() == old(State()) && Full(sb, disk)
      ensures b != 0 ==>
                && sb.datastart <= b < sb.size && !Used(sb, old(disk), b)
                && (forall c: nat :: c < b ==> Used(sb, old(disk), c))
                && disk == Allocated(sb, old(disk), b)
                && logged == old(logged) + AllocLogs(sb, b)
                && Ok(sb, State(), limbo + {b})
      ensures Within(old(State()), State())
    {
      hide Owned, Marked, BitAt, SetBit;
      b := FindFree();
      if b == sb.size { return 0; }
      BallocKeeps(sb, disk, inodes, owner, limbo, b);
      var bb := BBlock(sb, b);
      LogWrite(bb, SetBit(disk[bb], b % BPB));
      LogWrite(b, ZeroBlock());
    }

    /** bfree; the result says whether the "freeing free block" panic was hit. */
    method Bfree(b: nat) returns (panic: bool)
      requires ValidSuper(sb) && |disk| == sb.size && b < sb.size
      modifies this`disk, this`logged
      ensures panic == !Used(sb, old(disk), b)
      ensures panic ==> State() == old(State())
      ensures !panic ==> disk == ClearUsed(sb, old(disk), b) && logged == old(logged) + {BBlock(sb, b)}
    {
      var bb := BBlock(sb, b);
      if !BitAt(disk[bb], b % BPB) { return true; }
      LogWrite(bb, ClearBit(disk[bb], b % BPB));
      return false;
    }

    // ----- bmap -----

    /** bmap for a direct block, or for the indirect block itself: ip->addrs[k], allocated if missing. */
    method AddrOrAlloc(i: nat, k: nat) returns (addr: nat)
      requires Ok(sb, State(), {}) && i in inodes && k <= NDIRECT
      modifies this`disk, this`logged, this`inodes, this`owner
      ensures Filled(sb, old(State()), State(), AddrSlot(i, k), addr, {}) && Within(old(State()), State())
    {
      hide Fills, Used;
      FillsNothing(sb, disk, inodes, AddrSlot(i, k));
      addr := inodes[i].addrs[k];
      if addr == 0 {
        ghost var d0 := disk;
        addr := Balloc({});
        if addr == 0 { return; }
        AllocDirect(sb, d0, inodes, owner, i, k, addr);
        inodes := inodes[i := WithAddr(inodes[i], k, addr)];
        owner := owner[addr := AddrSlot(i, k)];
      }
    }

    /** bmap's last part: entry k of the loaded indirect block, allocated if missing. */
    method EntryOrAlloc(i: nat, k: nat) returns (addr: nat)
      requires Ok(sb, State(), {}) && i in inodes && k < NINDIRECT && inodes[i].addrs[NDIRECT] != 0
      modifies this`disk, this`logged, this`owner
      ensures Filled(sb, old(State()), State(), Slot(i, NDIRECT + k), addr, {inodes[i].addrs[NDIRECT]})
      ensures Within(old(State()), State())
    {
      hide Fills, Used;
      FillsNothing(sb, disk, inodes, Slot(i, NDIRECT + k));
      var ind := inodes[i].addrs[NDIRECT];
      addr := WordAt(disk[ind], k);
      if addr == 0 {
        ghost var d0 := disk;
        addr := Balloc({});
        if addr != 0 {
          AllocIndirect(sb, d0, inodes, owner, i, k, addr);
          owner := owner[addr := Slot(i, NDIRECT + k)];
          PutWordFrame(disk[ind], k, addr);
          LogWrite(ind, PutWord(disk[ind], k, addr));
        }
      }
    }

    /** bmap: the address of file block bn, allocated if missing; 0 only if the disk is full. */
    method Bmap(i: nat, bn: nat) returns (addr: nat)
      requires Ok(sb, State(), {}) && i in inodes && bn < MAXFILE
      modifies this`disk, this`logged, this`inodes, this`owner
      ensures Mapped(sb, old(State()), State(), i, bn, addr) && Within(old(State()), State())
    {
      hide Filled, Mapped, Owned, Marked, Within;
      ghost var s := State();
      if bn < NDIRECT {
        addr := AddrOrAlloc(i, bn);
        MapDirect(sb, s, State(), i, bn, addr);
        return;
      }
      var ind := AddrOrAlloc(i, NDIRECT);
      if ind == 0 {
        MapNoIndirect(sb, s, State(), i, bn);
        return 0;
      }
      ghost var m := State();
      FilledOk(sb, s, m, Slot(i, IND), ind, {});
      addr := EntryOrAlloc(i, bn - NDIRECT);
      WithinOn(s, m, State());
      MapIndirect(sb, s, m, State(), i, bn, addr);
    }
  
    // ----- itrunc -----

    /** One pass of itrunc's first loop: free ip->addrs[k] if it is set, and clear it. */
    method FreeDirect(i: nat, k: nat)
      requires Ok(sb, State(), {}) && i in inodes && k < NDIRECT
      modifies this`disk, this`logged, this`inodes, this`owner
      ensures Ok(sb, State(), {}) && OnlyBitmap(sb, old(disk), disk)
      ensures inodes == old(inodes)[i := WithAddr(old(inodes)[i], k, 0)]
      ensures owner == old(owner) - {old(inodes[i].addrs[k])}
      ensures FreesLogged(sb, old(State()), State(), old(owner).Keys - owner.Keys)
    {
      hide Used, Owned, Marked, FreesLogged;
      var b := inodes[i].addrs[k];
      ghost var s := State();
      if b != 0 {
        FreeDirectStep(sb, State(), i, k);
        SlotOwns(sb, s, Slot(i, k));
        var panic := Bfree(b);
        assert !panic;
        inodes := inodes[i := WithAddr(inodes[i], k, 0)];
        owner := owner - {b};
        FreesOne(sb, s, State(), b);
        assert s.owner.Keys - owner.Keys == {b};
      } else {
        ZeroNotOwned(sb, State());
        assert owner - {0} == owner;
        assert inodes[i].addrs[k := 0] == inodes[i].addrs;
        assert WithAddr(inodes[i], k, 0) == inodes[i];
        FreesNone(sb, s, s);
        assert owner.Keys - owner.Keys == {};
      }
    }

    /** itrunc's first loop: free the direct blocks. */
    method TruncDirect(i: nat)
      requires Ok(sb, State(), {}) && i in inodes
      modifies this`disk, this`logged, this`inodes, this`owner
      ensures Ok(sb, State(), {}) && OnlyBitmap(sb, old(disk), disk) && SameButAddrs(old(inodes), inodes, i)
      ensures forall k :: 0 <= k < NDIRECT ==> inodes[i].addrs[k] == 0
      ensures inodes[i].addrs[NDIRECT] == old(inodes[i].addrs[NDIRECT])
      ensures Emptied(old(owner), owner, i, NDIRECT)
      ensures FreesLogged(sb, old(State()), State(), old(owner).Keys - owner.Keys)
    {
      hide Used, Owned, Marked, Emptied, FreesLogged;
      ghost var s := State();
      EmptiedStarts(owner, i);
      FreesNone(sb, s, s);
      assert owner.Keys - owner.Keys == {};
      var k := 0;
      while k < NDIRECT
        invariant 0 <= k <= NDIRECT && Ok(sb, State(), {}) && OnlyBitmap(sb, s.disk, disk)
        invariant SameButAddrs(s.inodes, inodes, i)
        invariant forall j :: 0 <= j < k ==> inodes[i].addrs[j] == 0
        invariant forall j :: k <= j <= NDIRECT ==> inodes[i].addrs[j] == s.inodes[i].addrs[j]
        invariant Emptied(s.owner, owner, i, k) && owner.Keys <= s.owner.Keys
        invariant FreesLogged(sb, s, State(), s.owner.Keys - owner.Keys)
      {
        EmptiedNext(sb, State(), s.owner, i, k);
        ghost var t := State();
        FreeDirect(i, k);
        FreesOn(sb, s, t, State());
        k := k + 1;
      }
    }

    /** itrunc's second part: free what the indirect block lists, then the indirect block. */
    method TruncIndirect(i: nat)
      requires Ok(sb, State(), {}) && i in inodes && inodes[i].addrs[NDIRECT] != 0
      modifies this`disk, this`logged, this`inodes, this`owner
      ensures Ok(sb, State(), {}) && OnlyBitmap(sb, old(disk), disk)
      ensures inodes == old(inodes)[i := WithAddr(old(inodes)[i], NDIRECT, 0)]
      ensures forall b :: b in owner <==> b in old(owner) && !(old(owner)[b].inum == i && old(owner)[b].pos >= NDIRECT)
      ensures forall b :: b in owner ==> owner[b] == old(owner)[b]
      ensures FreesLogged(sb, old(State()), State(), old(owner).Keys - owner.Keys)
    {
      hide Used, Owned, Marked, Freeing, Entries, EntriesBelow, FreesLogged;
      ghost var s := State();
      var ind := inodes[i].addrs[NDIRECT];
      var a := disk[ind];
      FreeingStarts(sb, s, i);
      IndirectOwns(sb, disk, inodes, owner, i);
      EntriesAll(a);
      FreesNone(sb, s, s.(owner := s.owner - ({ind} + Entries(disk[ind], 0))));
      owner := owner - ({ind} + Entries(disk[ind], 0));
      var j := 0;
      while j < NINDIRECT
        invariant 0 <= j <= NINDIRECT && Freeing(sb, s, State(), i, j)
        invariant |disk| == sb.size && inodes == s.inodes && owner == s.owner - ({ind} + Entries(s.disk[ind], 0))
        invariant FreesLogged(sb, s, State(), EntriesBelow(a, j))
      {
        FreeingStep(sb, s, State(), i, j);
        ghost var t := State();
        EntriesMore(a, j);
        if WordAt(a, j) != 0 {
          var panic := Bfree(WordAt(a, j));
          assert !panic;
          FreesOne(sb, t, State(), WordAt(a, j));
          FreesMore(sb, s, t, State(), EntriesBelow(a, j), {WordAt(a, j)});
        }
        assert EntriesBelow(a, j) + {} == EntriesBelow(a, j);
        j := j + 1;
      }
      FreeingEnds(sb, s, State(), i);
      ghost var t := State();
      var panic := Bfree(ind);
      assert !panic;
      inodes := inodes[i := WithAddr(inodes[i], NDIRECT, 0)];
      FreesOne(sb, t, State(), ind);
      FreesMore(sb, s, t, State(), Entries(a, 0), {ind});
      assert s.owner.Keys - owner.Keys == Entries(a, 0) + {ind};
    }

    /** All of itrunc's frees. */
    method TruncBlocks(i: nat)
      requires Ok(sb, State(), {}) && i in inodes
      modifies this`disk, this`logged, this`inodes, this`owner
      ensures Ok(sb, State(), {}) && OnlyBitmap(sb, old(disk), disk) && SameButAddrs(old(inodes), inodes, i)
      ensures forall k :: 0 <= k <= NDIRECT ==> inodes[i].addrs[k] == 0
      ensures Emptied(old(owner), owner, i, IND + 1)
      ensures FreesLogged(sb, old(State()), State(), BlocksOf(old(State()), i))
    {
      hide Used, Owned, Marked, Emptied, FreesLogged;
      ghost var s := State();
      TruncDirect(i);
      ghost var m := State();
      if inodes[i].addrs[NDIRECT] != 0 {
        TruncIndirect(i);
      } else {
        NoIndirect(sb, m, i);
        FreesNone(sb, m, m);
        assert owner.Keys - owner.Keys == {};
      }
      EmptiedAll(sb, s, m, State(), i);
      FreesMore(sb, s, m, State(), s.owner.Keys - m.owner.Keys, m.owner.Keys - owner.Keys);
      EmptiedKeys(sb, s, m, State(), i);
    }

    /** itrunc: exactly the inode's blocks become free, its size 0; the "freeing free block" panic cannot happen. */
    method Itrunc(i: nat)
      requires Valid() && i in inodes
      modifies this`disk, this`logged, this`inodes, this`owner
      ensures Valid() && Truncated(sb, old(State()), State(), i) && Within(old(State()), State())
      ensures logged == old(logged) + BitmapsOf(sb, BlocksOf(old(State()), i)) + {IBlock(sb, i)}
    {
      hide Stored, Used, Owned, Marked, Updated, Truncated, SameBytes, Holeless, Emptied, BitmapsOf;
      ghost var s := State();
      TruncBlocks(i);
      ghost var t := State();
      ResizeKeeps(sb, t, i, 0);
      inodes := inodes[i := inodes[i].(size := 0)];
      Iupdate(i);
      TruncEnds(sb, s, t, State(), i);
      TruncatedValid(sb, s, State(), i);
    }

    // ----- readi -----

    /** readi to memory that can take `room` bytes: the file's bytes from `off`, cut at the end of file. If there is not
        room for all of them, -1, although what there is room for has been stored. Nothing changes on disk. */
    method Readi(i: nat, off: nat, n: nat, room: nat) returns (tot: int, data: seq<byte>)
      requires Valid() && i in inodes && off < TWO32 && n < TWO32
      modifies this`disk, this`logged, this`inodes, this`owner
      ensures State() == old(State())
      ensures var want := if off > inodes[i].size || off + n >= TWO32 then 0 else Min(n, inodes[i].size - off);
        && tot == (if room < want then -1 else want)
        && data == if want == 0 then [] else Content(sb, disk, inodes, i)[off..off + Min(want, room)]
    {
      hide Owned, Marked, Stored, Holeless, Content, ValidSuper, ValidInode;
      tot, data := 0, [];
      if off > inodes[i].size || (off + n) % TWO32 < off { return; }
      var want := if off + n > inodes[i].size then inodes[i].size - off else n;
      ghost var s, file := State(), Content(sb, disk, inodes, i);
      while tot < want
        invariant 0 <= tot <= want && tot <= room && State() == s
        invariant data == file[off..off + tot]
      {
        var m := Min(want - tot, BSIZE - (off + tot) % BSIZE);
        var piece := ReadChunk(i, off + tot, m);
        if room < tot + m {
          Joined(file, off, tot, m, room - tot);
          data := data + piece[..room - tot];
          return -1, data;
        }
        Joined(file, off, tot, m, m);
        data := data + piece;
        tot := tot + m;
      }
    }

    /** One pass of readi's loop, within one block. */
    method ReadChunk(i: nat, off: nat, m: nat) returns (piece: seq<byte>)
      requires Valid() && i in inodes && off + m <= inodes[i].size && 0 < m && off % BSIZE + m <= BSIZE
      modifies this`disk, this`logged, this`inodes, this`owner
      ensures State() == old(State())
      ensures piece == Content(sb, disk, inodes, i)[off..off + m]
    {
      hide Stored, Owned, Marked;
      PositionMapped(sb, State(), i, off);
      var addr := Bmap(i, off / BSIZE);
      piece := disk[addr][off % BSIZE..off % BSIZE + m];
      BlockReads(sb, State(), i, off, m);
    }

    // ----- writei and filewrite -----

    method Iupdate(i: nat)
      requires Ok(sb, State(), {}) && i in inodes
      modifies this`disk, this`logged
      ensures disk == Updated(sb, old(State()), i) && logged == old(logged) + {IBlock(sb, i)}
      ensures Within(old(State()), State())
    {
      IBlockRange(sb, i);
      var ib := IBlock(sb, i);
      LogWrite(ib, PutInode(disk[ib], i % IPB, inodes[i]));
    }

    /** One pass of writei's loop, where the first `avail` of the bytes can be read. v is the state without what a copy
        that failed has left in the block. */
    method WriteChunk(i: nat, off: nat, bytes: seq<byte>, avail: nat) returns (end: PassEnd, ghost v: FsState)
      requires Ok(sb, State(), {}) && i in inodes && off < MAXFILE * BSIZE && off % BSIZE + |bytes| <= BSIZE
      requires avail <= |bytes|
      modifies this`disk, this`logged, this`inodes, this`owner
      ensures Within(old(State()), v) && (end.Faulted? || end.Written? ==> (avail == |bytes| <==> end.Written?))
      ensures !end.Faulted? ==> v == State() && ChunkWritten(sb, old(State()), v, i, off, bytes, end.Written?)
      ensures !end.Faulted? ==> ChunkLogged(sb, old(State()), v, i, off / BSIZE, end.Written?)
      ensures end.Faulted? ==>
        && Patched(sb, v, State(), i, off, bytes[..avail])
        && ChunkWritten(sb, old(State()), v, i, off, [], true)
        && if BlockOf(sb, old(disk), old(inodes[i]), off / BSIZE) == 0
           then ChunkLogged(sb, old(State()), v, i, off / BSIZE, true) else v == old(State())
    {
      hide Mapped, Owned, Marked, ChunkWritten, ChunkLogged, Full, Patched;
      ghost var s := State();
      var addr := Bmap(i, off / BSIZE);
      v := State();
      if addr == 0 {
        ChunkFails(sb, s, v, i, off, bytes);
        return NoBlock, v;
      }
      if avail < |bytes| {
        ChunkFaults(sb, s, v, i, off, bytes[..avail], addr);
        disk := disk[addr := Patch(disk[addr], off % BSIZE, bytes[..avail])];
        return Faulted, v;
      }
      ChunkSucceeds(sb, s, v, i, off, bytes, addr);
      LogWrite(addr, Patch(disk[addr], off % BSIZE, bytes));
      WithinOn(s, v, State());
      return Written, State();
    }

    /** writei's loop: bytes go in block by block until all are written, the disk is full or the copy fails. v is the
        state without what a copy that failed has left in its block, and hi one past the last block that was logged. */
    method WriteLoop(i: nat, src: seq<byte>, off: nat, avail: nat) returns (tot: nat, ghost v: FsState, ghost hi: nat)
      requires Valid() && i in inodes && off <= inodes[i].size && off + |src| <= MAXFILE * BSIZE && avail <= |src|
      modifies this`disk, this`logged, this`inodes, this`owner
      ensures tot <= avail && Progress(sb, old(State()), v, i, off, src[..tot])
      ensures tot == |src| ==> v == State()
      ensures tot < |src| ==> Stopped(sb, old(State()), v, State(), i, off, src, tot, avail)
      ensures LogExact(sb, old(State()), v, i, off / BSIZE, hi) && Within(old(State()), v)
      ensures LoggedTo(sb, old(State()), v, i, off, tot, |src|, hi)
    {
      hide Stored, Progress, LogExact, ChunkWritten, ChunkLogged, Owned, Marked, Full, Grew, Within;
      hide Patched, BlockOf, Stopped;
      tot := 0;
      ghost var s := State();
      v, hi := s, off / BSIZE;
      ProgressStarts(sb, s, i, off);
      LogStarts(sb, s, i, hi);
      WithinSelf(s);
      while tot < |src|
        invariant 0 <= tot <= avail && v == State()
        invariant Progress(sb, s, v, i, off, src[..tot]) && Within(s, v)
        invariant hi == EndBlock(off, tot) && LogExact(sb, s, v, i, off / BSIZE, hi)
        invariant tot == |src| || hi == (off + tot) / BSIZE
        invariant tot == 0 || tot == |src| || (off + tot) % BSIZE == 0
      {
        var m := Min(|src| - tot, BSIZE - (off + tot) % BSIZE);
        ghost var t := State();
        ProgressFacts(sb, s, t, i, off, src[..tot]);
        var end;
        end, v := WriteChunk(i, off + tot, src[tot..tot + m], Min(m, avail - tot));
        WithinOn(s, t, v);
        if end.Faulted? {
          assert src[tot..tot + m][..avail - tot] == src[tot..avail];
          FaultStops(sb, s, t, v, State(), i, off, src, tot, avail, hi);
          hi := hi + One(BlockOf(sb, t.disk, t.inodes[i], hi) == 0);
          break;
        }
        ProgressStep(sb, s, t, v, i, off, src[..tot], src[tot..tot + m], end.Written?);
        ChunkFacts(sb, t, v, i, off + tot, src[tot..tot + m], end.Written?);
        LogStep(sb, s, t, v, i, off / BSIZE, hi, end.Written?);
        if end.NoBlock? {
          FullStops(sb, s, t, v, i, off, src, tot, avail, src[tot..tot + m]);
          break;
        }
        assert src[..tot] + src[tot..tot + m] == src[..tot + m];
        hi := hi + 1;
        tot := tot + m;
      }
    }

    /** writei's last part: extend the size if the write ran past it, then iupdate. */
    method SetSize(i: nat, end: nat)
      requires Ok(sb, State(), {}) && i in inodes && end <= MAXFILE * BSIZE
      modifies this`disk, this`logged, this`inodes
      ensures WriteEnd(sb, old(State()), State(), i, end) && Within(old(State()), State())
      ensures |disk| == sb.size && (Full(sb, old(disk)) ==> Full(sb, disk))
    {
      hide Owned, Marked, Used, SameBytes, Updated, Full;
      ghost var t := State();
      ResizeKeeps(sb, t, i, Max(inodes[i].size, end));
      if end > inodes[i].size {
        inodes := inodes[i := inodes[i].(size := end)];
      } else {
        assert WithSize(t.inodes, i, t.inodes[i].size) == t.inodes;
      }
      UpdateKeepsFull(sb, State(), i);
      Iupdate(i);
    }

    /** writei, where the first `avail` bytes of src can be read. -1 changes nothing; otherwise the first r bytes have
        been spliced in at `off`, fewer than asked only past the end of the file on a full disk or where the copy
        failed. v is the file system the call reports: in the cache the bytes before the fault show as well. What is
        logged is exactly the blocks of the file from off / BSIZE to hi, the bitmap blocks of the blocks taken, the
        indirect block if it changed, and the inode's block: for a request of up to three blocks at most MAXOPBLOCKS of
        them, and that many only when four new blocks have their bits in four bitmap blocks. */
    method Writei(i: nat, src: seq<byte>, off: nat, avail: nat) returns (r: int, ghost v: FsState, ghost hi: nat)
      requires Valid() && i in inodes && off < TWO32 && |src| < TWO32 && avail <= |src|
      modifies this`disk, this`logged, this`inodes, this`owner
      ensures Valid()
      ensures r == -1 <==> off > old(inodes[i].size) || off + |src| > MAXFILE * BSIZE
      ensures r == -1 ==> State() == old(State()) && v == State()
      ensures r != -1 ==> 0 <= r <= avail && Wrote(sb, old(State()), v, i, off, src[..r])
      ensures r == |src| ==> v == State()
      ensures 0 <= r < |src| ==> Stopped(sb, old(State()), v, State(), i, off, src, r, avail)
      ensures v.owner == owner && v.inodes == inodes && v.logged == logged && Within(old(State()), v)
      ensures forall b :: b in logged && b !in old(logged) ==> sb.inodestart <= b < sb.size
      ensures r >= 0 ==> LoggedTo(sb, old(State()), v, i, off, r, |src|, hi)
      ensures r >= 0 ==> OwnersGrew(old(State()), v, i, off / BSIZE, hi)
      ensures r >= 0 ==> logged == old(logged) + WriteLogs(sb, old(State()), v, i, off / BSIZE, hi)
      ensures r >= 0 && |src| <= 3 * BSIZE ==> LogsFit(sb, old(State()), v, i, off / BSIZE, hi)
    {
      hide Stored, Progress, LogExact, Owned, Marked, Used, Grew, Updated, Wrote, Full, Holeless, ChunkLogs, WriteLogs;
      hide OwnersGrew, LogsFit, Within, LoggedTo, Stopped;
      WithinSelf(State());
      v, hi := State(), 0;
      var n := |src|;
      if off > inodes[i].size || (off + n) % TWO32 < off { return -1, v, hi; }
      if off + n > MAXFILE * BSIZE { return -1, v, hi; }
      ghost var s := State();
      var tot;
      tot, v, hi := WriteLoop(i, src, off, avail);
      ghost var t, p := v, State();
      ghost var lo := off / BSIZE;
      ProgressFacts(sb, s, t, i, off, src[..tot]);
      if n <= 3 * BSIZE {
        FewPasses(sb, s, t, i, off, tot, n, hi);
        TransactionFits(sb, s, t, i, off, hi);
      }
      LoopLeaves(sb, s, t, p, i, off, src, tot, avail);
      SetSize(i, off + tot);
      v := EndState(sb, t, i, off + tot);
      EndsStopped(sb, s, t, p, State(), i, off, src, tot, avail, hi);
      WriteEnds(sb, s, t, v, i, off, src[..tot]);
      WroteValid(sb, s, v, i, off, src[..tot]);
      StoppedValid(sb, s, v, State(), i, off, src, tot, avail);
      LogEnds(sb, s, t, v, i, lo, hi);
      LogsInRange(sb, s, t, i, lo, hi);
      EndKeeps(sb, t, i, off + tot);
      WithinOn(s, t, v);
      return tot, v, hi;
    }

    /** One chunk of filewrite: begin_op, writei, end_op. c is what the transaction commits, and hi one past the last
        block of the file that it logged. */
    method Transaction(i: nat, chunk: seq<byte>, off: nat, avail: nat)
      returns (r: int, ghost c: FsState, ghost hi: nat)
      requires Valid() && i in inodes && off < TWO32 && |chunk| <= 3 * BSIZE && avail <= |chunk|
      modifies this`disk, this`logged, this`inodes, this`owner
      ensures Valid() && inodes.Keys == old(inodes.Keys) && |logged| <= MAXOPBLOCKS
      ensures Ok(sb, c, {}) && c.logged == logged && TxnStep(sb, old(State()), c, logged)
      ensures r == -1 <==> off > old(inodes[i].size) || off + |chunk| > MAXFILE * BSIZE
      ensures r == -1 ==> State() == old(State()).(logged := {}) && c == State()
      ensures r != -1 ==>
        0 <= r <= avail && CommitOf(sb, old(State()).(logged := {}), c, State(), i, off, chunk, r, avail)
      ensures r == |chunk| ==> c == State()
      ensures 0 <= r < |chunk| ==> StopCause(sb, State(), i, off, |chunk|, r, avail)
      ensures r >= 0 ==> OwnersGrew(old(State()), State(), i, off / BSIZE, hi)
      ensures r >= 0 ==> LoggedTo(sb, old(State()), State(), i, off, r, |chunk|, hi)
      ensures r >= 0 ==> (|logged| == MAXOPBLOCKS <==>
        hi - off / BSIZE == 4 && |BitmapsOf(sb, NewBlocks(old(State()), State()))| == 4)
    {
      hide Stored, Owned, Marked, HoleFree, Full, OnDisk, OtherInodesKept, Splice, FileByte, ChunkLogs, NewBlocks;
      hide BitmapsOf, Stopped, LoggedTo, CommitOf, StopCause, Wrote, Within;
      ghost var s := State();
      StoredRelogged(sb, s, {});
      logged := {};
      ghost var e := State();
      r, c, hi := Writei(i, chunk, off, avail);
      if r >= 0 {
        ghost var v := c;
        WroteValid(sb, e, v, i, off, chunk[..r]);
        c := if r < |chunk| then Committed(sb, e, v, State(), i, (off + r) / BSIZE) else v;
        TxnEnds(sb, e, v, c, State(), i, off, chunk, r, avail, hi);
        CommitIsStep(sb, e, c, State(), i, off, chunk, r, avail);
        NewSame(s, e, v, State());
        LoggedFrom(sb, s, State(), i, off, r, |chunk|, hi, {});
      }
    }

    /** filewrite on an inode, where the first `avail` bytes of src can be read: chunks of at most three blocks, each a
        transaction of its own. Returns n if everything was written and -1 otherwise; either way the file holds the
        bytes written so far, the offset has moved past them, and no transaction exceeded the log's reservation. stops
        is the file system that each transaction commits. */
    method Filewrite(i: nat, src: seq<byte>, foff: nat, avail: nat) returns (ret: int, off: nat, ghost stops: seq<Stop>)
      requires Valid() && i in inodes && foff < TWO32 && |src| < 0x8000_0000 && avail <= |src|
      modifies this`disk, this`logged, this`inodes, this`owner
      ensures Valid()
      ensures foff <= off <= foff + avail && ret == if off == foff + |src| then |src| else -1
      ensures foff <= old(inodes[i].size) ==> Journal(sb, old(State()), i, foff, src, stops)
      ensures foff <= old(inodes[i].size) ==>
        stops[|stops| - 1].done == off - foff && Shows(sb, stops[|stops| - 1], State(), i, foff, src, avail)
      ensures foff > old(inodes[i].size) ==> off == foff && disk == old(disk) && inodes == old(inodes)
      ensures ret == -1 && foff <= old(inodes[i].size) ==>
        i in inodes && Blocked(sb, State(), i, off, foff + |src| - off, avail - (off - foff))
      ensures forall k :: 0 <= k < |stops| ==> |stops[k].logged| <= MAXOPBLOCKS
    {
      hide Stored, Inv, Holeless, Full, WroteSoFar, Wrote, OwnersGrew, NewBlocks, BitmapsOf, EndBlock, Journal, TxnStep;
      hide CommitOf, LoggedTo, Shows, StopCause, BlockOf, Blocked;
      var max := (MAXOPBLOCKS - 1 - 1 - 2) / 2 * BSIZE;
      var w := 0;
      off := foff;
      ghost var s := State();
      stops := [Stop(s, {}, 0)];
      ghost var inside := foff <= inodes[i].size;
      if inside {
        WroteStarts(sb, s, i, foff);
        JournalStarts(sb, s, i, foff, src);
        ShowsAll(sb, stops[0], s, i, foff, src, avail);
      }
      while w < |src|
        invariant Valid() && i in inodes && w <= avail && off == foff + w
        invariant inside ==> WroteSoFar(sb, s, State(), i, foff, src[..w]) && Journal(sb, s, i, foff, src, stops)
        invariant stops != [] && (inside ==> stops[|stops| - 1].state == State() && stops[|stops| - 1].done == w)
        invariant inside ==> Shows(sb, stops[|stops| - 1], State(), i, foff, src, avail)
        invariant w == |src| || w == (|stops| - 1) * max
        invariant !inside ==> w == 0 && disk == s.disk && inodes == s.inodes
        invariant forall k :: 0 <= k < |stops| ==> |stops[k].logged| <= MAXOPBLOCKS
      {
        if inside { WroteFacts(sb, s, State(), i, foff, src[..w]); }
        var n1 := Min(|src| - w, max);
        ghost var t, was := State(), stops;
        var r;
        ghost var c, hi;
        r, c, hi := Transaction(i, src[w..w + n1], off, Min(n1, avail - w));
        if inside { ChunkCommitted(sb, s, t, c, State(), i, foff, src, w, n1, r, avail, was); }
        stops := was + [Stop(c, logged, if r > 0 then w + r else w)];
        if r > 0 {
          off := off + r;
        }
        if r != n1 {
          if inside && r >= 0 {
            BlockedBy(sb, State(), i, foff + w, |src| - w, n1, r, avail - w);
          } else if inside {
            BlockedAtMost(sb, State(), i, foff + w, |src| - w, avail - w);
          }
          break;
        }
        w := w + r;
      }
      ret := if w == |src| then |src| else -1;
    }
  }

  /** In every file system and for every file that is not empty there is a write that reports no byte written and
      changes what is read from the file, in a block that is not logged. */
  method TornWrite(fs: FileSystem, i: nat) returns (r: int, ghost c: FsState)
    requires fs.Valid() && i in fs.inodes && fs.inodes[i].size > 0
    modifies fs
    ensures fs.Valid() && i in fs.inodes && r == 0 && Ok(fs.sb, c, {}) && i in c.inodes
    ensures Content(fs.sb, fs.disk, fs.inodes, i) != old(Content(fs.sb, fs.disk, fs.inodes, i))
    ensures Content(fs.sb, c.disk, c.inodes, i) == old(Content(fs.sb, fs.disk, fs.inodes, i))
    ensures TxnStep(fs.sb, old(fs.State()), c, fs.logged) && |fs.disk| == |c.disk|
    ensures forall b: nat :: b < |c.disk| && b in fs.logged ==> fs.disk[b] == c.disk[b]
  {
    hide Inv, Holeless, Stored, Content, Full, TxnStep, OwnersGrew, LoggedTo, BitmapsOf, NewBlocks, CommitOf, StopCause;
    ghost var s := fs.State();
    var tot, first := fs.Readi(i, 0, 1, 1);
    var src := [if first[0] == 0 then 1 else 0, 0];
    ghost var hi;
    r, c, hi := fs.Transaction(i, src, 0, 1);
    TornBy(fs.sb, s, c, fs.State(), i, src, r);
  }
}
