/** filewrite over the log (kernel/file.c, kernel/log.c): power may fail at any disk write of any of its transactions,
    and again during recovery. What is on disk then is a sound file system in which a whole number of transactions
    happened. */
module FsCrash {
  import opened Blocks
  import opened Params
  import opened Log
  import opened FsModel
  import opened FsWrite

  /** The log lies before the inodes and has room for an operation. */
  ghost predicate LogFits(l: Layout, sb: Super) {
    && ValidLayout(l) && ValidSuper(sb) && l.total == sb.size
    && l.start + l.size <= sb.inodestart && MAXOPBLOCKS < l.size
  }

  /** Outside the log, the physical disk is the file system's. */
  ghost predicate Carries(l: Layout, d: DiskState, disk: Disk) {
    |d| == |disk| == l.total && forall b: nat :: b < l.total && !InLog(l, b) ==> d[b] == disk[b]
  }

  /** The commit of a transaction: it lists each block that was logged once, with its contents at the end. */
  ghost predicate Commits(t: Txn, x: Stop) {
    && |t.homes| == |x.logged| && (forall b :: b in t.homes <==> b in x.logged)
    && (forall b :: b in t.homes ==> b < |x.state.disk| && b in t.cached && t.cached[b] == x.state.disk[b])
    && t.at <= 2 * |t.homes| + 2
  }

  lemma CommitsValid(l: Layout, sb: Super, s: FsState, t: Txn, x: Stop)
    requires LogFits(l, sb) && TxnStep(sb, s, x.state, x.logged) && Commits(t, x)
    ensures ValidTxn(l, t)
  {
    forall i | 0 <= i < |t.homes|
      ensures t.homes[i] < l.total && !InLog(l, t.homes[i])
    {
      assert t.homes[i] in t.homes;
    }
  }

  /** One transaction, whole or cut anywhere, recovered from as often as it takes. */
  lemma TxnCarries(l: Layout, sb: Super, d: DiskState, s: FsState, t: Txn, x: Stop)
    requires LogFits(l, sb) && TxnStep(sb, s, x.state, x.logged) && Commits(t, x)
    requires Clean(l, d) && Carries(l, d, s.disk)
    ensures ValidTxn(l, t) && Carries(l, RunTxn(l, d, t), if Durable(t) then x.state.disk else s.disk)
  {
    hide RunTxn, ValidTxn, Clean;
    CommitsValid(l, sb, s, t, x);
    RunTxnHome(l, d, t);
  }

  /** The first transactions of filewrite, all completed. */
  ghost predicate Completed(ts: seq<Txn>, stops: seq<Stop>) {
    |ts| < |stops| && forall k :: 0 <= k < |ts| ==> !ts[k].crash && Commits(ts[k], stops[k + 1])
  }

  lemma {:induction false} CompletedCarries(l: Layout, sb: Super, d: DiskState, ts: seq<Txn>, stops: seq<Stop>)
    requires LogFits(l, sb) && Completed(ts, stops) && Clean(l, d) && Carries(l, d, stops[0].state.disk)
    requires forall k :: 0 < k < |stops| ==> TxnStep(sb, stops[k - 1].state, stops[k].state, stops[k].logged)
    ensures forall k :: 0 <= k < |ts| ==> ValidTxn(l, ts[k])
    ensures Carries(l, RunAll(l, d, ts), stops[|ts|].state.disk)
    decreases |ts|
  {
    hide RunTxn, ValidTxn, Clean, Commits, TxnStep, Carries, LogFits;
    if ts != [] {
      var n := |ts| - 1;
      CompletedCarries(l, sb, d, ts[..n], stops);
      assert Commits(ts[n], stops[n + 1]);
      assert TxnStep(sb, stops[n + 1 - 1].state, stops[n + 1].state, stops[n + 1].logged);
      TxnCarries(l, sb, RunAll(l, d, ts[..n]), stops[n].state, ts[n], stops[n + 1]);
      assert forall k :: 0 <= k < n ==> ts[k] == ts[..n][k];
    }
  }

  // ----- the file system depends only on blocks behind the log -----

  ghost predicate SameBehind(sb: Super, d0: Disk, d1: Disk) {
    |d0| == |d1| == sb.size && forall b: nat :: sb.inodestart <= b < sb.size ==> d1[b] == d0[b]
  }

  lemma AddrBehind(sb: Super, d: Disk, inodes: Inodes, owner: map<nat, Slot>, d1: Disk, s: Slot)
    requires Inv(sb, d, inodes, owner, {}) && SameBehind(sb, d, d1) && IsSlot(inodes, s)
    ensures Shaped(sb, d1, inodes) && Addr(sb, d1, inodes, s) == Addr(sb, d, inodes, s)
  {
    hide Used;
    var ind := inodes[s.inum].addrs[NDIRECT];
    assert Addr(sb, d, inodes, Slot(s.inum, IND)) == ind;
  }

  lemma InvBehind(sb: Super, d: Disk, inodes: Inodes, owner: map<nat, Slot>, d1: Disk)
    requires Inv(sb, d, inodes, owner, {}) && SameBehind(sb, d, d1)
    ensures Inv(sb, d1, inodes, owner, {})
  {
    hide Addr;
    forall s | IsSlot(inodes, s)
      ensures Addr(sb, d1, inodes, s) == Addr(sb, d, inodes, s)
    {
      AddrBehind(sb, d, inodes, owner, d1, s);
    }
    forall b: nat | b < sb.size
      ensures Used(sb, d1, b) == Used(sb, d, b)
    {
      assert sb.inodestart <= BBlock(sb, b);
    }
  }

  lemma ContentBehind(sb: Super, d: Disk, inodes: Inodes, owner: map<nat, Slot>, d1: Disk, j: nat)
    requires Inv(sb, d, inodes, owner, {}) && Inv(sb, d1, inodes, owner, {}) && SameBehind(sb, d, d1) && j in inodes
    ensures Content(sb, d1, inodes, j) == Content(sb, d, inodes, j)
    ensures HoleFree(sb, d, inodes[j]) ==> HoleFree(sb, d1, inodes[j])
    ensures OnDisk(sb, d1, j) == OnDisk(sb, d, j)
  {
    hide Used, BlockOf;
    forall bn: nat | bn < MAXFILE
      ensures BlockOf(sb, d1, inodes[j], bn) == BlockOf(sb, d, inodes[j], bn)
      ensures BlockOf(sb, d, inodes[j], bn) == 0 || sb.inodestart <= BlockOf(sb, d, inodes[j], bn) < sb.size
    {
      AddrBehind(sb, d, inodes, owner, d1, Slot(j, bn));
      assert Addr(sb, d, inodes, Slot(j, bn)) == BlockOf(sb, d, inodes[j], bn);
    }
    forall x | 0 <= x < inodes[j].size
      ensures FileByte(sb, d1, inodes, j, x) == FileByte(sb, d, inodes, j, x)
    {
      assert x / BSIZE < MAXFILE;
    }
    IBlockRange(sb, j);
  }

  // ----- the theorem -----

  /** Disk d is a sound file system with these inodes: nothing in limbo, no holes, and the inodes are on it. */
  ghost predicate Sound(sb: Super, d: Disk, inodes: Inodes, owner: map<nat, Slot>) {
    && Inv(sb, d, inodes, owner, {})
    && forall j :: j in inodes ==> HoleFree(sb, d, inodes[j]) && OnDisk(sb, d, j) == inodes[j]
  }

  /** On disk d file i is the one in s with `done` spliced in at off, and every other file is as in s. */
  ghost predicate HoldsFiles(sb: Super, d: Disk, inodes: Inodes, s: FsState, i: nat, off: nat, done: seq<byte>)
    requires Ok(sb, s, {}) && i in s.inodes && off <= s.inodes[i].size && Shaped(sb, d, inodes)
  {
    && inodes.Keys == s.inodes.Keys
    && Content(sb, d, inodes, i) == Splice(Content(sb, s.disk, s.inodes, i), off, done)
    && forall j :: j in s.inodes && j != i ==> Content(sb, d, inodes, j) == Content(sb, s.disk, s.inodes, j)
  }

  /** Disk d is a sound file system as of stop x, with the bytes of src that were written by then. */
  ghost predicate Survives(sb: Super, d: Disk, x: Stop, s: FsState, i: nat, off: nat, src: seq<byte>)
    requires Ok(sb, s, {}) && i in s.inodes && off <= s.inodes[i].size
  {
    && Sound(sb, d, x.state.inodes, x.state.owner)
    && x.done <= |src| && HoldsFiles(sb, d, x.state.inodes, s, i, off, src[..x.done])
  }

  lemma StopBehind(sb: Super, s: FsState, i: nat, off: nat, src: seq<byte>, x: Stop, d: Disk)
    requires Ok(sb, s, {}) && i in s.inodes && off <= s.inodes[i].size && StopOk(sb, s, i, off, src, x)
    requires SameBehind(sb, x.state.disk, d)
    ensures Survives(sb, d, x, s, i, off, src)
  {
    hide Owned, Marked, HoleFree, Content, OnDisk, SameBehind, Splice;
    var t := x.state;
    InvBehind(sb, t.disk, t.inodes, t.owner, d);
    forall j | j in t.inodes
      ensures HoleFree(sb, d, t.inodes[j]) && OnDisk(sb, d, j) == t.inodes[j]
      ensures Content(sb, d, t.inodes, j) == Content(sb, t.disk, t.inodes, j)
    {
      ContentBehind(sb, t.disk, t.inodes, t.owner, d, j);
    }
  }

  lemma CarriedBehind(l: Layout, sb: Super, d: DiskState, disk: Disk)
    requires LogFits(l, sb) && Carries(l, d, disk)
    ensures SameBehind(sb, disk, d)
  {
  }

  /** filewrite is cut during its transaction after the first |ts|, anywhere in its commit t, and recovery is cut any
      number of times before it succeeds. Then the disk is a sound file system in which exactly the transactions whose
      header was written have happened: the file holds the first bytes of src up to there, and no other file has
      changed. */
  lemma FilewriteCrashSafe(l: Layout, sb: Super, d: DiskState, s: FsState, i: nat, off: nat, src: seq<byte>,
                           stops: seq<Stop>, ts: seq<Txn>, t: Txn)
    requires LogFits(l, sb) && Ok(sb, s, {}) && i in s.inodes && off <= s.inodes[i].size
    requires Journal(sb, s, i, off, src, stops) && Clean(l, d) && Carries(l, d, s.disk)
    requires |ts| + 1 < |stops| && Completed(ts, stops) && Commits(t, stops[|ts| + 1]) && t.crash
    ensures ValidTxn(l, t) && forall k :: 0 <= k < |ts| ==> ValidTxn(l, ts[k])
    ensures var x := stops[if t.at > |t.homes| then |ts| + 1 else |ts|];
      Survives(sb, RunTxn(l, RunAll(l, d, ts), t), x, s, i, off, src)
  {
    hide RunTxn, ValidTxn, Clean, Commits, TxnStep, Carries, StopOk, LogFits, Owned, Marked;
    hide Survives, SameBehind;
    var n := |ts|;
    CompletedCarries(l, sb, d, ts, stops);
    assert TxnStep(sb, stops[n + 1 - 1].state, stops[n + 1].state, stops[n + 1].logged);
    TxnCarries(l, sb, RunAll(l, d, ts), stops[n].state, t, stops[n + 1]);
    var x := stops[if t.at > |t.homes| then n + 1 else n];
    CarriedBehind(l, sb, RunTxn(l, RunAll(l, d, ts), t), x.state.disk);
    StopBehind(sb, s, i, off, src, x, RunTxn(l, RunAll(l, d, ts), t));
  }
}
