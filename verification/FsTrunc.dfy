/** Discarding a file (kernel/fs.c itrunc): its blocks leave their slots for limbo, and from limbo go free. */
module FsTrunc {
  import opened Blocks
  import opened FsModel
  import opened FsWrite

  /** Some recorded blocks are struck from their slots; the bitmap still marks them. */
  lemma Detached(sb: Super, disk: Disk, inodes: Inodes, inodes': Inodes, owner: map<nat, Slot>, limbo: set<nat>,
                 gone: set<nat>)
    requires Inv(sb, disk, inodes, owner, limbo) && Shaped(sb, disk, inodes') && inodes'.Keys == inodes.Keys
    requires forall b :: b in gone ==> b in owner
    requires forall s :: IsSlot(inodes, s) ==>
               Addr(sb, disk, inodes', s) == if Addr(sb, disk, inodes, s) in gone then 0 else Addr(sb, disk, inodes, s)
    ensures Inv(sb, disk, inodes', owner - gone, limbo + gone)
  {
    hide Addr, Used;
    var owner' := owner - gone;
    forall s | IsSlot(inodes', s) && Addr(sb, disk, inodes', s) != 0
      ensures Addr(sb, disk, inodes', s) in owner' && owner'[Addr(sb, disk, inodes', s)] == s
    {
      assert Addr(sb, disk, inodes, s) == Addr(sb, disk, inodes', s);
    }
    forall b | b in owner'
      ensures IsSlot(inodes', owner'[b]) && Addr(sb, disk, inodes', owner'[b]) == b
    {
      assert Addr(sb, disk, inodes, owner[b]) == b;
    }
  }

  lemma DetachDirect(sb: Super, disk: Disk, inodes: Inodes, owner: map<nat, Slot>, i: nat, k: nat)
    requires Inv(sb, disk, inodes, owner, {}) && i in inodes && k < NDIRECT && inodes[i].addrs[k] != 0
    ensures var b := inodes[i].addrs[k];
            && b in owner && owner[b] == Slot(i, k)
            && Inv(sb, disk, inodes[i := WithAddr(inodes[i], k, 0)], owner - {b}, {b})
  {
    hide Used, Marked;
    var b := inodes[i].addrs[k];
    assert Addr(sb, disk, inodes, Slot(i, k)) == b;
    var inodes' := inodes[i := WithAddr(inodes[i], k, 0)];
    forall s | IsSlot(inodes, s)
      ensures Addr(sb, disk, inodes', s) == if Addr(sb, disk, inodes, s) in {b} then 0 else Addr(sb, disk, inodes, s)
    {
    }
    Detached(sb, disk, inodes, inodes', owner, {}, {b});
    assert {} + {b} == {b};
  }

  /** The nonzero entries of an indirect block from position j on. */
  ghost function Entries(ind: Block, j: nat): (s: set<nat>)
    requires j <= NINDIRECT
  {
    set k: nat | j <= k < NINDIRECT && WordAt(ind, k) != 0 :: WordAt(ind, k)
  }

  lemma EntryOwned(sb: Super, disk: Disk, inodes: Inodes, owner: map<nat, Slot>, i: nat, k: nat)
    requires Inv(sb, disk, inodes, owner, {}) && i in inodes && k < NINDIRECT
    requires inodes[i].addrs[NDIRECT] != 0 && WordAt(disk[inodes[i].addrs[NDIRECT]], k) != 0
    ensures var a := WordAt(disk[inodes[i].addrs[NDIRECT]], k);
            a in owner && owner[a] == Slot(i, NDIRECT + k) && a < sb.size
  {
    assert Addr(sb, disk, inodes, Slot(i, NDIRECT + k)) == WordAt(disk[inodes[i].addrs[NDIRECT]], k);
  }

  /** An indirect block and its entries are exactly what the inode records beyond its direct blocks. */
  lemma IndirectOwns(sb: Super, disk: Disk, inodes: Inodes, owner: map<nat, Slot>, i: nat)
    requires Inv(sb, disk, inodes, owner, {}) && i in inodes && inodes[i].addrs[NDIRECT] != 0
    ensures var ind := inodes[i].addrs[NDIRECT];
            var gone := {ind} + Entries(disk[ind], 0);
            && ind in owner && owner[ind] == Slot(i, IND)
            && forall b :: b in gone <==> b in owner && owner[b].inum == i && owner[b].pos >= NDIRECT
  {
    hide Used;
    var ind := inodes[i].addrs[NDIRECT];
    var gone := {ind} + Entries(disk[ind], 0);
    assert Addr(sb, disk, inodes, Slot(i, IND)) == ind;
    forall b | b in gone
      ensures b in owner && owner[b].inum == i && owner[b].pos >= NDIRECT
    {
      if b != ind {
        var k: nat :| k < NINDIRECT && WordAt(disk[ind], k) != 0 && b == WordAt(disk[ind], k);
        EntryOwned(sb, disk, inodes, owner, i, k);
      }
    }
    forall b | b in owner && owner[b].inum == i && owner[b].pos >= NDIRECT
      ensures b in gone
    {
      assert Addr(sb, disk, inodes, owner[b]) == b;
      if owner[b].pos != IND {
        assert WordAt(disk[ind], owner[b].pos - NDIRECT) == b;
      }
    }
  }

  lemma DetachIndirect(sb: Super, disk: Disk, inodes: Inodes, owner: map<nat, Slot>, i: nat)
    requires Inv(sb, disk, inodes, owner, {}) && i in inodes && inodes[i].addrs[NDIRECT] != 0
    ensures var ind := inodes[i].addrs[NDIRECT];
            var gone := {ind} + Entries(disk[ind], 0);
            Inv(sb, disk, inodes[i := WithAddr(inodes[i], NDIRECT, 0)], owner - gone, gone)
  {
    hide Used, Marked, Entries;
    var ind := inodes[i].addrs[NDIRECT];
    var gone := {ind} + Entries(disk[ind], 0);
    IndirectOwns(sb, disk, inodes, owner, i);
    var inodes' := inodes[i := WithAddr(inodes[i], NDIRECT, 0)];
    forall s | IsSlot(inodes, s)
      ensures Addr(sb, disk, inodes', s) == if Addr(sb, disk, inodes, s) in gone then 0 else Addr(sb, disk, inodes, s)
    {
      if Addr(sb, disk, inodes, s) != 0 {
        assert Addr(sb, disk, inodes, s) in owner && owner[Addr(sb, disk, inodes, s)] == s;
      }
    }
    Detached(sb, disk, inodes, inodes', owner, {}, gone);
    assert {} + gone == gone;
  }

  /** Entries are distinct blocks, so freeing one takes exactly it out of the remaining set. */
  lemma NextEntry(sb: Super, disk: Disk, inodes: Inodes, owner: map<nat, Slot>, i: nat, j: nat)
    requires Inv(sb, disk, inodes, owner, {}) && i in inodes && inodes[i].addrs[NDIRECT] != 0 && j < NINDIRECT
    ensures var ind := inodes[i].addrs[NDIRECT];
            var b := disk[ind];
            if WordAt(b, j) == 0 then Entries(b, j) == Entries(b, j + 1)
            else && WordAt(b, j) in Entries(b, j) && WordAt(b, j) < sb.size
                 && {ind} + Entries(b, j) - {WordAt(b, j)} == {ind} + Entries(b, j + 1)
  {
    var ind := inodes[i].addrs[NDIRECT];
    var b := disk[ind];
    assert Addr(sb, disk, inodes, Slot(i, IND)) == ind;
    if WordAt(b, j) != 0 {
      EntryOwned(sb, disk, inodes, owner, i, j);
      forall k: nat | j < k < NINDIRECT && WordAt(b, k) != 0
        ensures WordAt(b, k) != WordAt(b, j)
      {
        EntryOwned(sb, disk, inodes, owner, i, k);
      }
    }
  }

  // ----- the end of itrunc -----

  /** Only bitmap blocks differ. */
  ghost predicate OnlyBitmap(sb: Super, d0: Disk, d1: Disk) {
    && ValidSuper(sb) && |d0| == |d1| == sb.size
    && forall b: nat :: b < sb.size && !(sb.bmapstart <= b < sb.datastart) ==> d1[b] == d0[b]
  }

  /** From s to t the blocks `gone` have been freed: nothing but logged blocks has changed, and exactly their bitmap
      blocks have been logged. */
  ghost predicate FreesLogged(sb: Super, s: FsState, t: FsState, gone: set<nat>) {
    Within(s, t) && t.logged == s.logged + BitmapsOf(sb, gone)
  }

  lemma FreesNone(sb: Super, s: FsState, t: FsState)
    requires t.disk == s.disk && t.logged == s.logged
    ensures FreesLogged(sb, s, t, {})
  {
    assert BitmapsOf(sb, {}) == {};
  }

  lemma FreesOne(sb: Super, s: FsState, t: FsState, b: nat)
    requires ValidSuper(sb) && |s.disk| == sb.size && b < sb.size
    requires t.disk == ClearUsed(sb, s.disk, b) && t.logged == s.logged + {BBlock(sb, b)}
    ensures FreesLogged(sb, s, t, {b})
  {
    BitmapsAdd(sb, {}, b);
    assert {} + {b} == {b} && BitmapsOf(sb, {}) == {};
  }

  lemma FreesMore(sb: Super, s: FsState, t: FsState, u: FsState, a: set<nat>, b: set<nat>)
    requires FreesLogged(sb, s, t, a) && FreesLogged(sb, t, u, b)
    ensures FreesLogged(sb, s, u, a + b)
  {
    BitmapsBoth(sb, a, b);
  }

  lemma FreesOn(sb: Super, s: FsState, t: FsState, u: FsState)
    requires FreesLogged(sb, s, t, s.owner.Keys - t.owner.Keys) && FreesLogged(sb, t, u, t.owner.Keys - u.owner.Keys)
    requires u.owner.Keys <= t.owner.Keys <= s.owner.Keys
    ensures FreesLogged(sb, s, u, s.owner.Keys - u.owner.Keys)
  {
    hide FreesLogged;
    FreesMore(sb, s, t, u, s.owner.Keys - t.owner.Keys, t.owner.Keys - u.owner.Keys);
    assert s.owner.Keys - t.owner.Keys + (t.owner.Keys - u.owner.Keys) == s.owner.Keys - u.owner.Keys;
  }

  lemma BitmapsBoth(sb: Super, a: set<nat>, b: set<nat>)
    ensures BitmapsOf(sb, a + b) == BitmapsOf(sb, a) + BitmapsOf(sb, b)
  {
    forall c | c in BitmapsOf(sb, a) + BitmapsOf(sb, b)
      ensures c in BitmapsOf(sb, a + b)
    {
      if c in BitmapsOf(sb, a) {
        var x :| x in a && c == sb.bmapstart + x / BPB;
        assert x in a + b;
      } else {
        var x :| x in b && c == sb.bmapstart + x / BPB;
        assert x in a + b;
      }
    }
  }

  /** All blocks of file i. */
  ghost function BlocksOf(s: FsState, i: nat): (bs: set<nat>) {
    set b | b in s.owner && s.owner[b].inum == i
  }

  /** Exactly inode i's blocks have been freed, and no other file reads differently. */
  ghost predicate Truncated(sb: Super, s: FsState, u: FsState, i: nat)
    requires Ok(sb, s, {}) && i in s.inodes
  {
    && Ok(sb, u, {}) && Holeless(sb, u) && u.inodes.Keys == s.inodes.Keys
    && u.inodes[i] == s.inodes[i].(size := 0, addrs := u.inodes[i].addrs)
    && (forall k :: 0 <= k <= NDIRECT ==> u.inodes[i].addrs[k] == 0)
    && (forall c: nat :: c < sb.size ==>
      (Used(sb, u.disk, c) <==> Used(sb, s.disk, c) && !(c in s.owner && s.owner[c].inum == i)))
    && (forall j :: j in s.inodes && j != i ==>
          u.inodes[j] == s.inodes[j] && Content(sb, u.disk, u.inodes, j) == Content(sb, s.disk, s.inodes, j))
    && OnDisk(sb, u.disk, i) == u.inodes[i] && OtherInodesKept(sb, s.disk, u.disk, i)
  }

  /** Owners that remain after inode i's slots below `upTo` have been emptied. */
  ghost predicate Emptied(o0: map<nat, Slot>, o1: map<nat, Slot>, i: nat, upTo: nat) {
    && (forall b :: b in o1 <==> b in o0 && !(o0[b].inum == i && o0[b].pos < upTo))
    && (forall b :: b in o1 ==> o1[b] == o0[b])
  }

  lemma BitmapOnlyReads(sb: Super, s: FsState, t: FsState, i: nat, j: nat)
    requires Ok(sb, s, {}) && Ok(sb, t, {}) && OnlyBitmap(sb, s.disk, t.disk)
    requires i in s.inodes && j in s.inodes && j in t.inodes && t.inodes[j] == s.inodes[j]
    ensures Content(sb, t.disk, t.inodes, j) == Content(sb, s.disk, s.inodes, j)
    ensures HoleFree(sb, s.disk, s.inodes[j]) ==> HoleFree(sb, t.disk, t.inodes[j])
  {
    forall bn: nat | bn < MAXFILE
      ensures BlockOf(sb, t.disk, t.inodes[j], bn) == BlockOf(sb, s.disk, s.inodes[j], bn)
    {
      assert Addr(sb, s.disk, s.inodes, Slot(j, IND)) == s.inodes[j].addrs[NDIRECT];
    }
    forall x: nat | x < s.inodes[j].size
      ensures FileByte(sb, t.disk, t.inodes, j, x) == FileByte(sb, s.disk, s.inodes, j, x)
    {
      assert Addr(sb, s.disk, s.inodes, Slot(j, x / BSIZE)) == BlockOf(sb, s.disk, s.inodes[j], x / BSIZE);
    }
  }

  /** The state after the loops, then size 0 and iupdate. */
  lemma TruncEnds(sb: Super, s: FsState, t: FsState, u: FsState, i: nat)
    requires Ok(sb, s, {}) && Holeless(sb, s) && i in s.inodes && Ok(sb, t, {}) && OnlyBitmap(sb, s.disk, t.disk)
    requires SameButAddrs(s.inodes, t.inodes, i) && (forall k :: 0 <= k <= NDIRECT ==> t.inodes[i].addrs[k] == 0)
    requires Emptied(s.owner, t.owner, i, IND + 1)
    requires var r := FsState(t.disk, WithSize(t.inodes, i, 0), t.owner, t.logged);
             Ok(sb, r, {}) && u == FsState(Updated(sb, r, i), r.inodes, r.owner, r.logged + {IBlock(sb, i)})
    ensures Truncated(sb, s, u, i)
  {
    hide Owned, FileByte, Updated, OnDisk, OtherInodesKept, Content, Used;
    var r := FsState(t.disk, u.inodes, t.owner, t.logged);
    UpdateStores(sb, r, i);
    forall j | j in s.inodes && j != i
      ensures u.inodes[j] == s.inodes[j] && Content(sb, u.disk, u.inodes, j) == Content(sb, s.disk, s.inodes, j)
      ensures HoleFree(sb, u.disk, u.inodes[j])
    {
      assert HoleFree(sb, s.disk, s.inodes[j]);
      BitmapOnlyReads(sb, s, r, i, j);
      UpdateReads(sb, r, i, j);
    }
    assert HoleFree(sb, u.disk, u.inodes[i]);
    OtherInodesTrans(sb, s, t, u, i);
    OwnersAreSlots(sb, s);
  }

  lemma OwnersAreSlots(sb: Super, s: FsState)
    requires Ok(sb, s, {})
    ensures forall b :: b in s.owner ==> s.owner[b].pos <= IND
  {
  }

  lemma UpdateReads(sb: Super, r: FsState, i: nat, j: nat)
    requires Ok(sb, r, {}) && i in r.inodes && j in r.inodes
    requires SameAddrs(sb, r.disk, Updated(sb, r, i), r.inodes)
    requires SameBytes(sb, r.disk, r.inodes, Updated(sb, r, i), r.inodes)
    ensures Content(sb, Updated(sb, r, i), r.inodes, j) == Content(sb, r.disk, r.inodes, j)
    ensures HoleFree(sb, r.disk, r.inodes[j]) ==> HoleFree(sb, Updated(sb, r, i), r.inodes[j])
  {
    hide Owned, Marked, Updated, FileByte;
    forall bn: nat | bn < MAXFILE
      ensures BlockOf(sb, Updated(sb, r, i), r.inodes[j], bn) == BlockOf(sb, r.disk, r.inodes[j], bn)
    {
      SameBlockOf(sb, r.disk, Updated(sb, r, i), r.inodes, j, bn);
    }
  }

  // ----- the loops -----

  /** Freeing ip->addrs[k] and clearing it. */
  lemma FreeDirectStep(sb: Super, s: FsState, i: nat, k: nat)
    requires Ok(sb, s, {}) && i in s.inodes && k < NDIRECT && s.inodes[i].addrs[k] != 0
    ensures var b := s.inodes[i].addrs[k];
            && b < sb.size && Used(sb, s.disk, b)
            && Inv(sb, ClearUsed(sb, s.disk, b), s.inodes[i := WithAddr(s.inodes[i], k, 0)], s.owner - {b}, {})
            && OnlyBitmap(sb, s.disk, ClearUsed(sb, s.disk, b))
  {
    hide Owned;
    var b := s.inodes[i].addrs[k];
    DetachDirect(sb, s.disk, s.inodes, s.owner, i, k);
    FreeKeeps(sb, s.disk, s.inodes[i := WithAddr(s.inodes[i], k, 0)], s.owner - {b}, {b}, b);
    assert {b} - {b} == {};
  }

  /** A direct slot's owner entry is gone once its address is struck, and absent if it had none. */
  lemma EmptiedNext(sb: Super, s: FsState, o0: map<nat, Slot>, i: nat, k: nat)
    requires Ok(sb, s, {}) && i in s.inodes && k < NDIRECT && Emptied(o0, s.owner, i, k)
    ensures Emptied(o0, s.owner - {s.inodes[i].addrs[k]}, i, k + 1)
  {
    hide Used;
    forall b | b in s.owner
      ensures s.owner[b] == Slot(i, k) <==> b == s.inodes[i].addrs[k]
    {
      assert Addr(sb, s.disk, s.inodes, s.owner[b]) == b;
      assert Addr(sb, s.disk, s.inodes, Slot(i, k)) == s.inodes[i].addrs[k];
    }
  }

  /** The state while the entries of the indirect block are being freed: the inode still points at it, but in
      the accounting it is detached, with entries from j on still to be freed. */
  ghost predicate Freeing(sb: Super, s: FsState, t: FsState, i: nat, j: nat)
    requires Ok(sb, s, {}) && i in s.inodes && s.inodes[i].addrs[NDIRECT] != 0 && j <= NINDIRECT
  {
    var ind := s.inodes[i].addrs[NDIRECT];
    && t.inodes == s.inodes && OnlyBitmap(sb, s.disk, t.disk)
    && Inv(sb, t.disk, s.inodes[i := WithAddr(s.inodes[i], NDIRECT, 0)], t.owner, {ind} + Entries(s.disk[ind], j))
    && t.owner == s.owner - ({ind} + Entries(s.disk[ind], 0))
  }

  /** The entries before position j. */
  ghost function EntriesBelow(ind: Block, j: nat): (s: set<nat>)
    requires j <= NINDIRECT
  {
    set k: nat | k < j && WordAt(ind, k) != 0 :: WordAt(ind, k)
  }

  lemma EntriesMore(ind: Block, j: nat)
    requires j < NINDIRECT
    ensures EntriesBelow(ind, j + 1) == EntriesBelow(ind, j) + if WordAt(ind, j) != 0 then {WordAt(ind, j)} else {}
  {
    hide WordAt;
  }

  lemma EntriesAll(ind: Block)
    ensures EntriesBelow(ind, NINDIRECT) == Entries(ind, 0) && EntriesBelow(ind, 0) == {}
  {
  }

  lemma FreeingStarts(sb: Super, s: FsState, i: nat)
    requires Ok(sb, s, {}) && i in s.inodes && s.inodes[i].addrs[NDIRECT] != 0
    ensures var ind := s.inodes[i].addrs[NDIRECT];
            Freeing(sb, s, s.(owner := s.owner - ({ind} + Entries(s.disk[ind], 0))), i, 0)
  {
    hide Owned, Marked, Entries;
    DetachIndirect(sb, s.disk, s.inodes, s.owner, i);
  }

  lemma FreeingStep(sb: Super, s: FsState, t: FsState, i: nat, j: nat)
    requires Ok(sb, s, {}) && i in s.inodes && s.inodes[i].addrs[NDIRECT] != 0 && j < NINDIRECT
    requires Freeing(sb, s, t, i, j)
    ensures var ind := s.inodes[i].addrs[NDIRECT]; var a := WordAt(s.disk[ind], j);
            && t.disk[ind] == s.disk[ind]
            && if a == 0 then Freeing(sb, s, t, i, j + 1)
               else && a < sb.size && Used(sb, t.disk, a)
                    && Freeing(sb, s, t.(disk := ClearUsed(sb, t.disk, a)), i, j + 1)
                    && forall l :: Freeing(sb, s, FsState(ClearUsed(sb, t.disk, a), t.inodes, t.owner, l), i, j + 1)
  {
    hide Owned, Entries;
    var ind := s.inodes[i].addrs[NDIRECT];
    var a := WordAt(s.disk[ind], j);
    var g := s.inodes[i := WithAddr(s.inodes[i], NDIRECT, 0)];
    assert ind in {ind} + Entries(s.disk[ind], j);
    NextEntry(sb, s.disk, s.inodes, s.owner, i, j);
    if a != 0 {
      FreeKeeps(sb, t.disk, g, t.owner, {ind} + Entries(s.disk[ind], j), a);
    }
  }

  /** Freeing the indirect block itself, and clearing it in the inode. */
  lemma FreeingEnds(sb: Super, s: FsState, t: FsState, i: nat)
    requires Ok(sb, s, {}) && i in s.inodes && s.inodes[i].addrs[NDIRECT] != 0 && Freeing(sb, s, t, i, NINDIRECT)
    ensures var ind := s.inodes[i].addrs[NDIRECT];
            && ind < sb.size && Used(sb, t.disk, ind)
            && Inv(sb, ClearUsed(sb, t.disk, ind), s.inodes[i := WithAddr(s.inodes[i], NDIRECT, 0)], t.owner, {})
            && OnlyBitmap(sb, s.disk, ClearUsed(sb, t.disk, ind))
            && forall b :: b in t.owner <==> b in s.owner && !(s.owner[b].inum == i && s.owner[b].pos >= NDIRECT)
  {
    hide Owned;
    var ind := s.inodes[i].addrs[NDIRECT];
    assert Entries(s.disk[ind], NINDIRECT) == {};
    assert {ind} + {} == {ind};
    IndirectOwns(sb, s.disk, s.inodes, s.owner, i);
    FreeKeeps(sb, t.disk, s.inodes[i := WithAddr(s.inodes[i], NDIRECT, 0)], t.owner, {ind}, ind);
    assert {ind} - {ind} == {};
  }

  lemma NoIndirect(sb: Super, s: FsState, i: nat)
    requires Ok(sb, s, {}) && i in s.inodes && s.inodes[i].addrs[NDIRECT] == 0
    ensures forall b :: b in s.owner ==> !(s.owner[b].inum == i && s.owner[b].pos >= NDIRECT)
  {
    hide Used;
    forall b | b in s.owner
      ensures !(s.owner[b].inum == i && s.owner[b].pos >= NDIRECT)
    {
      assert Addr(sb, s.disk, s.inodes, s.owner[b]) == b;
    }
  }

  lemma EmptiedStarts(o: map<nat, Slot>, i: nat)
    ensures Emptied(o, o, i, 0)
  {
  }

  /** Direct slots emptied, then the rest. */
  lemma EmptiedAll(sb: Super, s: FsState, m: FsState, t: FsState, i: nat)
    requires Ok(sb, s, {}) && OnlyBitmap(sb, s.disk, m.disk) && Emptied(s.owner, m.owner, i, NDIRECT)
    requires OnlyBitmap(sb, m.disk, t.disk)
    requires forall b :: b in t.owner <==> b in m.owner && !(m.owner[b].inum == i && m.owner[b].pos >= NDIRECT)
    requires forall b :: b in t.owner ==> t.owner[b] == m.owner[b]
    ensures Emptied(s.owner, t.owner, i, IND + 1) && OnlyBitmap(sb, s.disk, t.disk)
  {
    OwnersAreSlots(sb, s);
  }

  /** What is gone is what the inode had. */
  lemma EmptiedKeys(sb: Super, s: FsState, m: FsState, t: FsState, i: nat)
    requires Ok(sb, s, {}) && Emptied(s.owner, m.owner, i, NDIRECT) && Emptied(s.owner, t.owner, i, IND + 1)
    requires t.owner.Keys <= m.owner.Keys
    ensures (s.owner.Keys - m.owner.Keys) + (m.owner.Keys - t.owner.Keys) == BlocksOf(s, i)
  {
    OwnersAreSlots(sb, s);
  }

  lemma TruncatedValid(sb: Super, s: FsState, u: FsState, i: nat)
    requires Ok(sb, s, {}) && i in s.inodes && Truncated(sb, s, u, i) && Stored(sb, s)
    ensures Ok(sb, u, {}) && Holeless(sb, u) && Stored(sb, u)
  {
    hide Owned, Marked, Content, OnDisk, Holeless, Used;
    StoredAfter(sb, s, u, i);
  }
}
