/** Group commit (kernel/log.c: begin_op, end_op, log_write): any interleaving of file-system
    operations over the shared in-memory log header. Each critical section under log.lock is one step. */
module GroupCommit {
  import opened Params

  /** The fields of `struct log` that the protocol turns on; lh is lh.block[0..lh.n]. */
  datatype LogState = LogState(size: nat, lh: seq<nat>, outstanding: nat, committing: bool)

  // ----- the critical sections -----

  /** begin_op's test: sleep while a commit runs or the reservation would not fit. */
  predicate MayBegin(s: LogState) {
    !s.committing && |s.lh| + (s.outstanding + 1) * MAXOPBLOCKS <= LOGSIZE
  }

  function Begin(s: LogState): (t: LogState) {
    s.(outstanding := s.outstanding + 1)
  }

  /** end_op's first section: the last operation out starts a commit. */
  function End(s: LogState): (t: LogState)
    requires s.outstanding >= 1
  {
    s.(outstanding := s.outstanding - 1, committing := s.outstanding == 1)
  }

  /** log_write's two panics, tested before absorption. */
  predicate WritePanics(s: LogState) {
    |s.lh| >= LOGSIZE || |s.lh| >= s.size - 1 || s.outstanding < 1
  }

  function Write(s: LogState, b: nat): (t: LogState) {
    if b in s.lh then s else s.(lh := s.lh + [b])
  }

  // ----- the system -----

  /** An operation between its begin_op and end_op: the epoch it began in and how many blocks it added. */
  datatype Op = Op(id: nat, epoch: nat, added: nat)

  datatype WriteRecord = WriteRecord(op: nat, block: nat, epoch: nat)

  /** The committer's place in end_op: commit() reads the header until it empties it. */
  datatype Committer = Idle | Committing(snapshot: seq<nat>) | Emptied

  /** `writes`, `commits`, `begun` and `ended` record the past: which operation wrote what while how many
      commits had been taken, the blocks of each commit, and every operation's epochs. */
  datatype Sys = Sys(
    log: LogState, ops: seq<Op>, committer: Committer,
    writes: seq<WriteRecord>, commits: seq<seq<nat>>,
    begun: map<nat, nat>, ended: map<nat, nat>, panicked: bool)

  ghost predicate Init(s: Sys, size: nat) {
    s == Sys(LogState(size, [], 0, false), [], Idle, [], [], map[], map[], false)
  }

  ghost predicate BeginStep(s: Sys, t: Sys, id: nat) {
    && !s.panicked && id !in s.begun && MayBegin(s.log)
    && t == s.(log := Begin(s.log), ops := s.ops + [Op(id, |s.commits|, 0)],
               begun := s.begun[id := |s.commits|])
  }

  /** An outstanding operation writes a block; it adds at most MAXOPBLOCKS new ones over its life. */
  ghost predicate WriteStep(s: Sys, t: Sys, i: nat, b: nat) {
    && !s.panicked && i < |s.ops|
    && (b !in s.log.lh ==> s.ops[i].added < MAXOPBLOCKS)
    && if WritePanics(s.log) then t == s.(panicked := true)
       else t == s.(log := Write(s.log, b),
                    ops := if b in s.log.lh then s.ops else s.ops[i := s.ops[i].(added := s.ops[i].added + 1)],
                    writes := s.writes + [WriteRecord(s.ops[i].id, b, |s.commits|)])
  }

  ghost predicate EndStep(s: Sys, t: Sys, i: nat) {
    && !s.panicked && i < |s.ops| && s.log.outstanding >= 1
    && if s.log.committing then t == s.(panicked := true)
       else t == s.(log := End(s.log), ops := s.ops[..i] + s.ops[i + 1..],
                    committer := if s.log.outstanding == 1 then Committing(s.log.lh) else s.committer,
                    ended := s.ended[s.ops[i].id := |s.commits|])
  }

  /** commit() has put lh on disk and emptied it. */
  ghost predicate CommitStep(s: Sys, t: Sys) {
    && !s.panicked && s.committer.Committing?
    && t == s.(log := s.log.(lh := []), committer := Emptied, commits := s.commits + [s.log.lh])
  }

  /** end_op's last section. */
  ghost predicate FinishStep(s: Sys, t: Sys) {
    && !s.panicked && s.committer.Emptied?
    && t == s.(log := s.log.(committing := false), committer := Idle)
  }

  datatype Step = SBegin(id: nat) | SWrite(i: nat, b: nat) | SEnd(i: nat) | SCommit | SFinish

  ghost predicate NextBy(s: Sys, t: Sys, step: Step) {
    match step
    case SBegin(id) => BeginStep(s, t, id)
    case SWrite(i, b) => WriteStep(s, t, i, b)
    case SEnd(i) => EndStep(s, t, i)
    case SCommit => CommitStep(s, t)
    case SFinish => FinishStep(s, t)
  }

  ghost predicate Next(s: Sys, t: Sys) {
    exists step :: NextBy(s, t, step)
  }

  ghost predicate IsRun(run: seq<Sys>, size: nat) {
    && run != []
    && Init(run[0], size)
    && forall k :: 0 <= k < |run| - 1 ==> Next(run[k], run[k + 1])
  }

  // ----- the invariant -----

  /** Space promised to outstanding operations and not yet used. */
  function Reserved(ops: seq<Op>): (r: int) {
    if ops == [] then 0 else MAXOPBLOCKS - ops[0].added + Reserved(ops[1..])
  }

  lemma {:induction false} ReservedConcat(a: seq<Op>, b: seq<Op>)
    ensures Reserved(a + b) == Reserved(a) + Reserved(b)
  {
    if a == [] {
      assert a + b == b;
    } else {
      assert (a + b)[1..] == a[1..] + b;
      ReservedConcat(a[1..], b);
    }
  }

  lemma ReservedAt(ops: seq<Op>, i: nat)
    requires i < |ops|
    ensures Reserved(ops) == Reserved(ops[..i]) + (MAXOPBLOCKS - ops[i].added) + Reserved(ops[i + 1..])
  {
    assert ops == ops[..i] + ops[i..];
    ReservedConcat(ops[..i], ops[i..]);
    assert ops[i..][1..] == ops[i + 1..];
  }

  lemma {:induction false} ReservedBounds(ops: seq<Op>)
    requires forall i :: 0 <= i < |ops| ==> ops[i].added <= MAXOPBLOCKS
    ensures 0 <= Reserved(ops) <= |ops| * MAXOPBLOCKS
  {
    if ops != [] {
      ReservedBounds(ops[1..]);
    }
  }

  ghost predicate Distinct(s: seq<nat>) {
    forall i, j :: 0 <= i < j < |s| ==> s[i] != s[j]
  }

  /** Reservations hold, commits exclude operations, the header has no duplicates. */
  ghost predicate SpaceInv(s: Sys) {
    && s.log.outstanding == |s.ops|
    && (forall i :: 0 <= i < |s.ops| ==> s.ops[i].added <= MAXOPBLOCKS)
    && |s.log.lh| + Reserved(s.ops) <= LOGSIZE
    && Distinct(s.log.lh)
    && (s.log.committing <==> !s.committer.Idle?)
    && (s.log.committing ==> s.log.outstanding == 0)
    && (s.committer.Committing? ==> s.log.lh == s.committer.snapshot)
    && (s.committer.Emptied? ==> s.log.lh == [])
  }

  /** The commit a write made in epoch e belongs to: a past one, or the one being gathered. */
  ghost function CommitOf(s: Sys, e: nat): (blocks: seq<nat>)
    requires e <= |s.commits|
  {
    if e < |s.commits| then s.commits[e] else s.log.lh
  }

  /** Block b was written in epoch e. */
  ghost predicate Written(s: Sys, e: nat, b: nat) {
    exists k :: 0 <= k < |s.writes| && s.writes[k].epoch == e && s.writes[k].block == b
  }

  /** Every write is in the commit of the epoch it was made in, and commits hold nothing else. */
  ghost predicate EpochInv(s: Sys) {
    && (forall k :: 0 <= k < |s.writes| ==>
          && s.writes[k].epoch <= |s.commits|
          && s.writes[k].op in s.begun && s.begun[s.writes[k].op] == s.writes[k].epoch
          && s.writes[k].block in CommitOf(s, s.writes[k].epoch))
    && (forall e: nat, b :: e <= |s.commits| && b in CommitOf(s, e) ==> Written(s, e, b))
  }

  /** An operation ends in the epoch it began in; while it is outstanding that epoch is the current one. */
  ghost predicate OpInv(s: Sys) {
    && (forall i :: 0 <= i < |s.ops| ==>
          s.ops[i].id in s.begun && s.begun[s.ops[i].id] == s.ops[i].epoch == |s.commits|)
    && (forall id :: id in s.ended ==> id in s.begun && s.ended[id] == s.begun[id])
    && (s.committer.Emptied? ==> s.ops == [])
  }

  ghost predicate Inv(s: Sys) {
    SpaceInv(s) && EpochInv(s) && OpInv(s)
  }

  lemma SpaceBegin(s: Sys, t: Sys, id: nat)
    requires SpaceInv(s) && BeginStep(s, t, id)
    ensures SpaceInv(t)
  {
    ReservedBounds(s.ops);
    ReservedConcat(s.ops, [Op(id, |s.commits|, 0)]);
    assert Reserved([Op(id, |s.commits|, 0)]) == MAXOPBLOCKS;
  }

  lemma SpaceWrite(s: Sys, t: Sys, i: nat, b: nat)
    requires SpaceInv(s) && WriteStep(s, t, i, b)
    ensures SpaceInv(t)
  {
    if !WritePanics(s.log) && b !in s.log.lh {
      ReservedAt(s.ops, i);
      ReservedAt(t.ops, i);
      assert t.ops[..i] == s.ops[..i] && t.ops[i + 1..] == s.ops[i + 1..];
    }
  }

  lemma SpaceEnd(s: Sys, t: Sys, i: nat)
    requires SpaceInv(s) && EndStep(s, t, i)
    ensures SpaceInv(t)
  {
    if !s.log.committing {
      ReservedAt(s.ops, i);
      ReservedConcat(s.ops[..i], s.ops[i + 1..]);
    }
  }

  lemma SpaceStep(s: Sys, t: Sys, step: Step)
    requires SpaceInv(s) && NextBy(s, t, step)
    ensures SpaceInv(t)
  {
    match step
    case SBegin(id) => SpaceBegin(s, t, id);
    case SWrite(i, b) => SpaceWrite(s, t, i, b);
    case SEnd(i) => SpaceEnd(s, t, i);
    case SCommit => assert s.ops == [];
    case SFinish =>
  }

  /** Steps that keep the past and the current header keep EpochInv. */
  lemma EpochSame(s: Sys, t: Sys)
    requires EpochInv(s) && t.writes == s.writes && t.commits == s.commits && t.log.lh == s.log.lh
    requires forall id :: id in s.begun ==> id in t.begun && t.begun[id] == s.begun[id]
    ensures EpochInv(t)
  {
    assert forall e: nat :: e <= |s.commits| ==> CommitOf(t, e) == CommitOf(s, e);
    forall e: nat, b | e <= |t.commits| && b in CommitOf(t, e)
      ensures Written(t, e, b)
    {
      assert Written(s, e, b);
    }
  }

  lemma EpochStep(s: Sys, t: Sys, step: Step)
    requires Inv(s) && NextBy(s, t, step)
    ensures EpochInv(t)
  {
    if step.SWrite? && !WritePanics(s.log) {
      EpochWrite(s, t, step.i, step.b);
    } else if step.SCommit? {
      assert forall e: nat :: e <= |s.commits| ==> CommitOf(t, e) == CommitOf(s, e);
      assert CommitOf(t, |t.commits|) == [];
      forall e: nat, b | e <= |t.commits| && b in CommitOf(t, e)
        ensures Written(t, e, b)
      {
        assert Written(s, e, b);
      }
    } else {
      EpochSame(s, t);
    }
  }

  lemma EpochWrite(s: Sys, t: Sys, i: nat, b: nat)
    requires Inv(s) && WriteStep(s, t, i, b) && !WritePanics(s.log)
    ensures EpochInv(t)
  {
    var now := |s.commits|;
    assert forall e: nat :: e < now ==> CommitOf(t, e) == CommitOf(s, e);
    assert b in CommitOf(t, now);
    forall e: nat, c | e <= now && c in CommitOf(t, e)
      ensures Written(t, e, c)
    {
      if e == now && c == b {
        assert t.writes[|s.writes|].block == b;
      } else {
        assert Written(s, e, c);
        var k :| 0 <= k < |s.writes| && s.writes[k].epoch == e && s.writes[k].block == c;
        assert t.writes[k] == s.writes[k];
      }
    }
  }

  lemma OpStep(s: Sys, t: Sys, step: Step)
    requires Inv(s) && NextBy(s, t, step)
    ensures OpInv(t)
  {
  }

  /** What holds in every state of every run. */
  lemma {:induction false} RunInv(run: seq<Sys>, size: nat, k: nat)
    requires IsRun(run, size) && k < |run|
    ensures Inv(run[k]) && run[k].log.size == size
  {
    if k > 0 {
      RunInv(run, size, k - 1);
      assert Next(run[k - 1], run[k]);
      var step :| NextBy(run[k - 1], run[k], step);
      SpaceStep(run[k - 1], run[k], step);
      EpochStep(run[k - 1], run[k], step);
      OpStep(run[k - 1], run[k], step);
    }
  }

  // ----- the promises -----

  /** Never more operations or blocks than the log holds, no duplicate blocks, and while a
      commit runs no operation is active and the header is the one the commit started from. */
  lemma GroupCommitSafe(run: seq<Sys>, size: nat, k: nat)
    requires IsRun(run, size) && k < |run|
    ensures var s := run[k];
            && |s.log.lh| + Reserved(s.ops) <= LOGSIZE
            && Distinct(s.log.lh)
            && (s.log.committing ==> s.ops == [] && s.log.outstanding == 0)
            && (s.committer.Committing? ==> s.log.lh == s.committer.snapshot)
  {
    RunInv(run, size, k);
  }

  /** end_op's panic is unreachable: an operation that ends never finds a commit running. */
  lemma EndNeverPanics(run: seq<Sys>, size: nat, k: nat, i: nat, t: Sys)
    requires IsRun(run, size) && k < |run| && EndStep(run[k], t, i)
    ensures !t.panicked
  {
    RunInv(run, size, k);
  }

  /** All writes of one operation are in one commit, which is the commit of the epoch it began and ended in;
      a finished commit holds exactly the blocks written in its epoch. */
  lemma OneCommitPerOp(run: seq<Sys>, size: nat, k: nat, e: nat, b: nat)
    requires IsRun(run, size) && k < |run| && e < |run[k].commits|
    ensures var s := run[k];
            && (b in s.commits[e] <==>
                exists w :: 0 <= w < |s.writes| && s.writes[w].block == b && s.writes[w].op in s.begun &&
                  s.begun[s.writes[w].op] == e)
            && (forall id :: id in s.ended ==> id in s.begun && s.ended[id] == s.begun[id])
  {
    RunInv(run, size, k);
    var s := run[k];
    assert CommitOf(s, e) == s.commits[e];
    if b in s.commits[e] {
      assert Written(s, e, b);
    }
  }

  // ----- the size guard of log_write -----

  /** In state s, some operation still within its budget would panic by logging a new block. */
  ghost predicate NewBlockPanics(s: Sys) {
    !s.panicked && exists i :: 0 <= i < |s.ops| && s.ops[i].added < MAXOPBLOCKS && WritePanics(s.log)
  }

  /** With room for LOGSIZE copies after the header, a reserved new block never trips the guard. */
  lemma ReservationSuffices(run: seq<Sys>, size: nat, k: nat)
    requires IsRun(run, size) && k < |run| && size > LOGSIZE
    ensures !NewBlockPanics(run[k])
  {
    RunInv(run, size, k);
    var s := run[k];
    if i :| 0 <= i < |s.ops| && s.ops[i].added < MAXOPBLOCKS {
      ReservedAt(s.ops, i);
      ReservedBounds(s.ops[..i]);
      ReservedBounds(s.ops[i + 1..]);
    }
  }

  /** Three operations have begun and blocks 0..m have been logged, ten by each in turn. */
  ghost function Filled(size: nat, m: nat): (s: Sys)
    requires m <= LOGSIZE
  {
    Sys(LogState(size, seq(m, x => x), 3, false),
        [Op(0, 0, if m <= 10 then m else 10),
         Op(1, 0, if m <= 10 then 0 else if m <= 20 then m - 10 else 10),
         Op(2, 0, if m <= 20 then 0 else m - 20)],
        Idle,
        seq(m, x requires 0 <= x => WriteRecord(x / 10, x, 0)), [],
        map[0 := 0, 1 := 0, 2 := 0], map[], false)
  }

  ghost function FillRun(size: nat, m: nat): (run: seq<Sys>)
    requires m <= LOGSIZE && m + 1 <= size
    ensures IsRun(run, size) && run[|run| - 1] == Filled(size, m)
  {
    if m == 0 then
      var s0 := Sys(LogState(size, [], 0, false), [], Idle, [], [], map[], map[], false);
      var s1 := Sys(LogState(size, [], 1, false), [Op(0, 0, 0)], Idle, [], [], map[0 := 0], map[], false);
      var s2 := Sys(LogState(size, [], 2, false), [Op(0, 0, 0), Op(1, 0, 0)], Idle, [], [], map[0 := 0, 1 := 0], map[],
        false);
      assert NextBy(s0, s1, SBegin(0));
      assert NextBy(s1, s2, SBegin(1));
      assert NextBy(s2, Filled(size, 0), SBegin(2));
      [s0, s1, s2, Filled(size, 0)]
    else
      var run := FillRun(size, m - 1);
      FillNext(size, m - 1);
      run + [Filled(size, m)]
  }

  lemma FillNext(size: nat, m: nat)
    requires m < LOGSIZE && m + 1 < size
    ensures Next(Filled(size, m), Filled(size, m + 1))
  {
    var s, t := Filled(size, m), Filled(size, m + 1);
    assert m !in s.log.lh;
    assert t.log.lh == s.log.lh + [m];
    assert t.writes == s.writes + [WriteRecord(m / 10, m, 0)];
    assert NextBy(s, t, SWrite(m / 10, m));
  }

  /** The exact condition on the log's size under which the "too big a transaction" panic cannot hit an
      operation that logs a new block within its reservation: strictly more than LOGSIZE blocks, header
      included. The image mkfs makes has exactly LOGSIZE, so the panic can be reached there. */
  lemma SizeGuardExact(size: nat)
    requires size >= 1
    ensures (forall run, k: nat :: IsRun(run, size) && k < |run| ==> !NewBlockPanics(run[k])) <==> size > LOGSIZE
  {
    if size > LOGSIZE {
      forall run, k: nat | IsRun(run, size) && k < |run|
        ensures !NewBlockPanics(run[k])
      {
        ReservationSuffices(run, size, k);
      }
    } else {
      var m := size - 1;
      var run := FillRun(size, m);
      var s := run[|run| - 1];
      assert s.ops[2].added < MAXOPBLOCKS && WritePanics(s.log);
      assert NewBlockPanics(run[|run| - 1]);
    }
  }

  lemma HeaderGrows(s: Sys, t: Sys, step: Step)
    requires NextBy(s, t, step)
    ensures t.log.lh == s.log.lh || t.log.lh == [] || |t.log.lh| < s.log.size
  {
  }

  lemma {:induction false} HeaderFits(run: seq<Sys>, size: nat, k: nat)
    requires IsRun(run, size) && k < |run|
    ensures |run[k].log.lh| < size || run[k].log.lh == []
  {
    hide Inv, NextBy;
    if k > 0 {
      HeaderFits(run, size, k - 1);
      RunInv(run, size, k - 1);
      assert Next(run[k - 1], run[k]);
      var step :| NextBy(run[k - 1], run[k], step);
      HeaderGrows(run[k - 1], run[k], step);
    }
  }

  /** When log_write panics: on an image with room for LOGSIZE blocks besides the header, exactly when the log holds
      LOGSIZE blocks. Then no operation has anything left of its reservation and the block is in the log already, so a
      write that only has to be absorbed is safe as long as any operation could still add a block. */
  lemma WritePanicsExactly(run: seq<Sys>, size: nat, k: nat, i: nat, b: nat, t: Sys)
    requires IsRun(run, size) && k < |run| && WriteStep(run[k], t, i, b)
    ensures t.panicked <==> |run[k].log.lh| == LOGSIZE || |run[k].log.lh| == size - 1 || size == 0
    ensures size > LOGSIZE && t.panicked ==> Reserved(run[k].ops) == 0 && b in run[k].log.lh
    ensures size > LOGSIZE && Reserved(run[k].ops) > 0 ==> !t.panicked
  {
    hide IsRun, EpochInv, OpInv;
    RunInv(run, size, k);
    HeaderFits(run, size, k);
    var s := run[k];
    ReservedBounds(s.ops);
    if b !in s.log.lh {
      ReservedAt(s.ops, i);
      ReservedBounds(s.ops[..i]);
      ReservedBounds(s.ops[i + 1..]);
    }
  }

  /** A write of a block that is in the log already, by an outstanding operation, which panics: the guard comes before
      absorption. */
  ghost predicate AbsorbPanics(run: seq<Sys>, size: nat, i: nat, b: nat, t: Sys) {
    IsRun(run, size) && b in run[|run| - 1].log.lh && WriteStep(run[|run| - 1], t, i, b) && t.panicked
  }

  /** That can happen on every image whose log can hold a block at all. */
  lemma AbsorptionCanPanic(size: nat)
    ensures (exists run, i: nat, b, t :: AbsorbPanics(run, size, i, b, t)) <==> size >= 2
  {
    if size >= 2 {
      var m := if size <= LOGSIZE then size - 1 else LOGSIZE;
      var run := FillRun(size, m);
      var s := run[|run| - 1];
      assert s.log.lh[0] == 0;
      assert AbsorbPanics(run, size, 0, 0, s.(panicked := true));
    }
    forall run, i: nat, b, t | AbsorbPanics(run, size, i, b, t)
      ensures size >= 2
    {
      HeaderFits(run, size, |run| - 1);
    }
  }
}
