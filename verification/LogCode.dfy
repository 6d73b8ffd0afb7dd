/** The code of kernel/log.c: the shared `log` structure, its loops over the header, and the
    order in which it writes the disk. The methods are proved to perform exactly the writes that
    module Log reasons about and exactly the header changes that module GroupCommit reasons about. */
module LogCode {
  import opened Blocks
  import opened Log
  import GC = GroupCommit
  import opened Params

  /** `pinned` holds the buffers that log_write has pinned, the only cached blocks whose contents
      may differ from the disk; `history` lists the disk after every write so far. */
  class LogDevice {
    const l: Layout
    var disk: DiskState
    var pinned: map<nat, Block>
    var n: nat
    var block: array<nat>
    var outstanding: nat
    var committing: bool
    ghost var history: seq<DiskState>

    ghost predicate Valid()
      reads this, block
    {
      && ValidLayout(l)
      && |disk| == l.total
      && block.Length == LOGSIZE
      && n <= LOGSIZE
      && ValidHomes(l, block[..n])
      && (forall b :: b in pinned ==> b < l.total && !InLog(l, b))
      && (forall b :: b in block[..n] ==> b in pinned)
    }

    ghost function Header(): (s: GC.LogState)
      reads this, block
      requires n <= block.Length
    {
      GC.LogState(l.size, block[..n], outstanding, committing)
    }

    constructor (l: Layout, image: DiskState)
      requires ValidDisk(l, image)
      ensures Valid() && fresh(block)
      ensures this.l == l && disk == image && pinned == map[] && n == 0 && history == []
      ensures outstanding == 0 && !committing
    {
      this.l := l;
      disk, pinned, n := image, map[], 0;
      block := new nat[LOGSIZE];
      outstanding, committing := 0, false;
      history := [];
    }

    /** bread: the cached contents of a block. */
    method Bread(b: nat) returns (data: Block)
      requires b < |disk|
      ensures data == if b in pinned then pinned[b] else disk[b]
    {
      if b in pinned { data := pinned[b]; } else { data := disk[b]; }
    }

    /** bwrite: one atomic block write. */
    method Bwrite(b: nat, data: Block)
      requires b < |disk|
      modifies this`disk, this`history
      ensures disk == old(disk)[b := data] && history == old(history) + [disk]
    {
      disk := disk[b := data];
      history := history + [disk];
    }

    method ReadHead()
      requires Valid() && ValidDisk(l, disk) && pinned == map[]
      modifies this`n, block
      ensures n <= LOGSIZE && block[..n] == HeaderHomes(disk[l.start])
    {
      var head := Bread(l.start);
      n := HeaderCount(head);
      var i := 0;
      while i < n
        invariant 0 <= i <= n == HeaderCount(disk[l.start])
        invariant block[..i] == HeaderHomes(disk[l.start])[..i]
      {
        block[i] := WordAt(head, 1 + i);
        i := i + 1;
      }
    }

    method WriteHead()
      requires |disk| == l.total && block.Length == LOGSIZE && n <= LOGSIZE
      requires ValidLayout(l) && ValidHomes(l, block[..n]) && l.start !in pinned
      modifies this`disk, this`history
      ensures disk == WithHeader(l, old(disk), block[..n])
      ensures history == old(history) + [disk]
    {
      var buf := Bread(l.start);
      ghost var was := buf;
      buf := PutWord(buf, 0, n);
      var i := 0;
      while i < n
        invariant 0 <= i <= n
        invariant buf == PutHomes(was, block[..n], i)
        invariant disk == old(disk) && history == old(history)
      {
        buf := PutWord(buf, 1 + i, block[i]);
        i := i + 1;
      }
      Bwrite(l.start, buf);
    }

    method WriteLog()
      requires Valid()
      modifies this`disk, this`history
      ensures Valid()
      ensures disk == Logged(l, old(disk), block[..n], pinned, n)
      ensures history == old(history) + LogTrace(l, old(disk), block[..n], pinned, n)
    {
      var tail := 0;
      while tail < n
        invariant 0 <= tail <= n && |disk| == l.total
        invariant disk == Logged(l, old(disk), block[..n], pinned, tail)
        invariant history == old(history) + LogTrace(l, old(disk), block[..n], pinned, tail)
      {
        assert block[tail] in block[..n];
        var from := Bread(block[tail]);
        Bwrite(l.start + tail + 1, from);
        tail := tail + 1;
      }
    }

    method InstallTrans(recovering: bool)
      requires |disk| == l.total && block.Length == LOGSIZE && n <= LOGSIZE
      requires ValidLayout(l) && ValidHomes(l, block[..n])
      requires forall b :: b in pinned ==> b < l.total && !InLog(l, b)
      modifies this`disk, this`history, this`pinned
      ensures disk == Installed(l, old(disk), block[..n], n)
      ensures pinned == if recovering then old(pinned) else old(pinned) - (set b | b in block[..n])
      ensures history == old(history) + InstallTrace(l, old(disk), block[..n], n)
    {
      var tail := 0;
      while tail < n
        invariant 0 <= tail <= n && |disk| == l.total
        invariant disk == Installed(l, old(disk), block[..n], tail)
        invariant pinned == if recovering then old(pinned) else old(pinned) - (set b | b in block[..tail])
        invariant history == old(history) + InstallTrace(l, old(disk), block[..n], tail)
      {
        assert block[tail] == block[..n][tail];
        var lbuf := Bread(l.start + tail + 1);
        Bwrite(block[tail], lbuf);
        if !recovering {
          pinned := pinned - {block[tail]};
        }
        assert block[..tail + 1] == block[..tail] + [block[tail]];
        tail := tail + 1;
      }
    }

    /** recover_from_log: the n+1 writes of RecoveryTrace, ending in a recovered disk. */
    method RecoverFromLog()
      requires Valid() && ValidDisk(l, disk) && pinned == map[]
      modifies this, block
      ensures block == old(block) && Valid() && n == 0 && pinned == map[]
      ensures outstanding == old(outstanding) && committing == old(committing)
      ensures disk == Recovered(l, old(disk)) && Clean(l, disk)
      ensures history == old(history) + RecoveryTrace(l, old(disk))
    {
      RecoveredHome(l, disk);
      ReadHead();
      InstallTrans(true);
      n := 0;
      WriteHead();
      assert block[..0] == [];
    }

    /** commit: the 2n+2 writes of CommitTrace; nothing at all for an empty transaction. */
    method Commit()
      requires Valid()
      modifies this`disk, this`history, this`pinned, this`n
      ensures Valid() && n == 0
      ensures pinned == old(pinned) - (set b | b in old(block[..n]))
      ensures old(n) == 0 ==> disk == old(disk) && history == old(history)
      ensures old(n) > 0 ==>
                && disk == CommitWrites(l, old(disk), old(block[..n]), old(pinned), 2 * old(n) + 2)
                && history == old(history) + CommitTrace(l, old(disk), old(block[..n]), old(pinned))
    {
      hide LogTrace, InstallTrace, Logged, Installed, PutHeader;
      assert block[..0] == [];
      if n > 0 {
        WriteLog();
        WriteHead();
        InstallTrans(false);
        n := 0;
        WriteHead();
      }
    }

    // ----- critical sections of the group-commit protocol -----

    /** One pass of begin_op's loop; false means the caller sleeps. */
    method TryBeginOp() returns (ok: bool)
      requires Valid()
      modifies this`outstanding
      ensures ok == GC.MayBegin(old(Header()))
      ensures ok <==> !old(committing) && n + (old(outstanding) + 1) * 10 <= 30
      ensures outstanding == if ok then old(outstanding) + 1 else old(outstanding)
      ensures Header() == if ok then GC.Begin(old(Header())) else old(Header())
    {
      if committing {
        ok := false;
      } else if n + (outstanding + 1) * MAXOPBLOCKS > LOGSIZE {
        ok := false;
      } else {
        outstanding := outstanding + 1;
        ok := true;
      }
    }

    /** end_op up to its first release; panics if a commit is running. */
    method EndOp() returns (panic: bool, doCommit: bool)
      requires Valid() && outstanding >= 1
      modifies this`outstanding, this`committing
      ensures panic == old(committing) && outstanding == old(outstanding) - 1
      ensures !panic ==> (doCommit <==> committing) && (committing <==> old(outstanding) == 1)
      ensures !panic ==> Header() == GC.End(old(Header())) && doCommit == committing
    {
      doCommit := false;
      outstanding := outstanding - 1;
      if committing { return true, false; }
      panic := false;
      if outstanding == 0 {
        doCommit := true;
        committing := true;
      }
    }

    /** log_write: record the block, absorbing repeats, and pin its buffer with the caller's data. */
    method LogWrite(b: nat, data: Block) returns (panic: bool)
      requires Valid() && b < l.total && !InLog(l, b)
      modifies this`n, this`pinned, block
      ensures Valid()
      ensures panic == GC.WritePanics(old(Header()))
      ensures panic <==> old(n) >= 30 || old(n) >= l.size - 1 || outstanding < 1
      ensures !panic ==> block[..n] == if b in old(block[..n]) then old(block[..n]) else old(block[..n]) + [b]
      ensures panic ==> Header() == old(Header()) && pinned == old(pinned)
      ensures !panic ==> Header() == GC.Write(old(Header()), b) && pinned == old(pinned)[b := data]
    {
      if n >= LOGSIZE || n >= l.size - 1 || outstanding < 1 { return true; }
      panic := false;
      var i := 0;
      while i < n
        invariant 0 <= i <= n && b !in block[..i]
      {
        if block[i] == b { break; }
        i := i + 1;
      }
      ghost var lh := block[..n];
      block[i] := b;
      pinned := pinned[b := data];
      if i == n {
        n := n + 1;
        assert block[..n] == lh + [b];
      } else {
        assert block[..n] == lh;
      }
    }
  }
}
