/** Deadlock (kernel/proc.c): the order in which wait_lock and the processes' locks are taken never lets CPUs wait for
    each other in a circle. */
module ProcLocks {
  import opened Values
  import opened Proc
  import opened ProcKin

  /** A step by which a CPU gets on with what it is doing: not a timer interrupt, and not a wakeup or kill that some
      other code happens to issue. */
  predicate Own(step: Step) {
    match step
    case Sched(a) => !a.Wake?
    case Running(a) => !a.Yield? && !a.Kill?
    case _ => true
  }

  ghost predicate CanMove(s: State, c: nat) {
    exists t, step :: Own(step) && NextBy(s, t, c, step)
  }

  /** CPU c has something to do: a process to attend to, or one to pick. */
  ghost predicate Busy(s: State, c: nat)
    requires c < |s.cores|
  {
    !s.cores[c].ctx.Idle? || exists i :: 0 <= i < |s.slots| && s.slots[i].state.RUNNABLE?
  }

  /** The lock that CPU c must have for its next step is held by CPU d. A scheduler needs each slot's lock in turn. */
  ghost predicate WaitsFor(s: State, c: nat, d: nat) {
    c < |s.cores| && d < |s.cores| &&
    match s.cores[c].ctx
    case Idle => exists i :: 0 <= i < |s.slots| && s.slots[i].lock == Cpu(d)
    case Thread(p) => p < |s.slots| && Spins(s, p, d)
    case _ => false
  }

  predicate Spins(s: State, p: nat, d: nat)
    requires p < |s.slots|
  {
    match s.slots[p].pc
    case ForkParent(_) => s.waitLock == Cpu(d)
    case ForkGo(np) => np < |s.slots| && s.slots[np].lock == Cpu(d)
    case ExitLock => s.waitLock == Cpu(d)
    case ExitWakeInit(_, j) => j < |s.slots| && j != p && s.slots[j].lock == Cpu(d)
    case ExitWakeParent(j) => j < |s.slots| && j != p && s.slots[j].lock == Cpu(d)
    case WaitLock => s.waitLock == Cpu(d)
    case WaitScan(i, _) => i < |s.slots| && s.slots[i].parent == Some(p) && s.slots[i].lock == Cpu(d)
    case _ => false
  }

  /** CPU c can move, or is behind at most n others of which the last can. */
  ghost predicate Free(s: State, c: nat, n: nat)
    decreases n
  {
    CanMove(s, c) || (n > 0 && exists d :: WaitsFor(s, c, d) && Free(s, d, n - 1))
  }

  // ----- two more things that every step keeps -----

  /** A slot that allocproc has locked is locked by the CPU whose process is in fork with it. */
  predicate HeldOk(s: State, np: nat)
    requires np < |s.slots|
  {
    var x := s.slots[np];
    x.state.USED? && x.lock.Cpu? ==>
      x.lock.c < |s.cores| && s.cores[x.lock.c].ctx.Thread? &&
      var q := s.cores[x.lock.c].ctx.p;
      q < |s.slots| && s.slots[q].pc == ForkHold(np)
  }

  /** wait's scan stays in the table. */
  predicate ScanOk(s: State, p: nat)
    requires p < |s.slots|
  {
    s.slots[p].pc.WaitScan? ==> s.slots[p].pc.i <= |s.slots|
  }

  ghost predicate Locks(s: State) {
    forall p: nat :: p < |s.slots| ==> HeldOk(s, p) && ScanOk(s, p)
  }

  lemma SchedLocks(s: State, c: nat, step: SchedStep)
    requires Inv(s) && Locks(s) && SchedEnabled(s, c, step)
    ensures Locks(SchedDo(s, c, step))
  {
    hide Kin, OneForker;
    var t := SchedDo(s, c, step);
    CoreAt(s, c);
    forall p: nat | p < |t.slots|
      ensures HeldOk(t, p) && ScanOk(t, p)
    {
      assert HeldOk(s, p) && ScanOk(s, p);
    }
  }

  lemma RunLocks(s: State, c: nat, p: nat, step: RunStep)
    requires Inv(s) && Locks(s) && RunEnabled(s, c, p, step)
    ensures Locks(RunDo(s, c, p, step))
  {
    hide Kin, OneForker;
    var t := RunDo(s, c, p, step);
    CoreAt(s, c);
    forall q: nat | q < |t.slots|
      ensures HeldOk(t, q) && ScanOk(t, q)
    {
      assert HeldOk(s, q) && ScanOk(s, q);
    }
  }

  /** A step that lets every forker be, and newly locks no slot that it leaves USED. */
  lemma HeldStays(s: State, t: State, q: nat)
    requires |t.slots| == |s.slots| && t.cores == s.cores && q < |s.slots| && HeldOk(s, q)
    requires t.slots[q].state.USED? && t.slots[q].lock.Cpu? ==>
      s.slots[q].state.USED? && s.slots[q].lock == t.slots[q].lock
    requires forall z :: 0 <= z < |s.slots| && s.slots[z].pc == ForkHold(q) ==> t.slots[z].pc == s.slots[z].pc
    ensures HeldOk(t, q)
  {
  }

  lemma ForkLocks(s: State, c: nat, p: nat, step: ForkStep)
    requires Inv(s) && Locks(s) && ForkEnabled(s, c, p, step)
    ensures Locks(ForkDo(s, c, p, step))
  {
    hide Inv, HeldOk, ForkDo;
    var t, np := ForkDo(s, c, p, step), Forked(s, p, step);
    NewHeld(s, c, p, step);
    ForkEffect(s, c, p, step, p);
    forall q: nat | q < |t.slots|
      ensures HeldOk(t, q) && ScanOk(t, q)
    {
      assert HeldOk(s, q) && ScanOk(s, q);
      ForkEffect(s, c, p, step, q);
      if q != np {
        forall z: nat | z < |s.slots| && s.slots[z].pc == ForkHold(q)
          ensures t.slots[z].pc == s.slots[z].pc
        {
          ForkEffect(s, c, p, step, z);
        }
        HeldStays(s, t, q);
      }
    }
  }

  /** The slot that fork is about. */
  lemma NewHeld(s: State, c: nat, p: nat, step: ForkStep)
    requires Inv(s) && ForkEnabled(s, c, p, step)
    ensures var np := Forked(s, p, step);
      np < |s.slots| && np != p && s.slots[np].pc.Saved? && HeldOk(ForkDo(s, c, p, step), np)
  {
    hide Kin, OneForker;
    CoreAt(s, c);
    KnownAt(s, Forked(s, p, step));
  }

  lemma ExitLocks(s: State, c: nat, p: nat, step: ExitStep)
    requires Inv(s) && Locks(s) && ExitEnabled(s, c, p, step)
    ensures Locks(ExitDo(s, c, p, step))
  {
    hide Kin, OneForker, HeldOk, ExitDo;
    var t := ExitDo(s, c, p, step);
    ExitEffect(s, c, p, step, p);
    forall q: nat | q < |t.slots|
      ensures HeldOk(t, q) && ScanOk(t, q)
    {
      ExitEffect(s, c, p, step, q);
      assert HeldOk(s, q) && ScanOk(s, q);
      forall z: nat | z < |s.slots|
        ensures s.slots[z].pc.ForkHold? ==> t.slots[z].pc == s.slots[z].pc
      {
        ExitEffect(s, c, p, step, z);
      }
      ExitSelf(s, c, p, step);
      HeldStays(s, t, q);
    }
  }

  lemma ExitSelf(s: State, c: nat, p: nat, step: ExitStep)
    requires Inv(s) && ExitEnabled(s, c, p, step)
    ensures var x := ExitDo(s, c, p, step).slots[p]; !x.state.USED? && !x.pc.WaitScan?
  {
    hide Kin, OneForker;
    CoreAt(s, c);
  }

  lemma WaitLocks(s: State, c: nat, p: nat, step: WaitStep)
    requires Inv(s) && Locks(s) && WaitEnabled(s, c, p, step)
    ensures Locks(WaitDo(s, c, p, step))
  {
    hide Kin, OneForker, HeldOk;
    var t := WaitDo(s, c, p, step);
    CoreAt(s, c);
    if step.Reap? {
      KnownAt(s, s.slots[p].pc.i);
    }
    forall q: nat | q < |t.slots|
      ensures HeldOk(t, q) && ScanOk(t, q)
    {
      assert HeldOk(s, q) && ScanOk(s, q);
      HeldStays(s, t, q);
    }
  }

  lemma NextLocks(s: State, t: State, c: nat, step: Step)
    requires Inv(s) && Locks(s) && NextBy(s, t, c, step)
    ensures Locks(t)
  {
    hide Inv, Locks;
    match step
    case Sched(a) => SchedLocks(s, c, a);
    case Running(a) => RunLocks(s, c, s.cores[c].ctx.p, a);
    case Fork(a) => ForkLocks(s, c, s.cores[c].ctx.p, a);
    case Exit(a) => ExitLocks(s, c, s.cores[c].ctx.p, a);
    case Wait(a) => WaitLocks(s, c, s.cores[c].ctx.p, a);
  }

  lemma {:induction false} RunKeepsLocks(run: seq<State>, n: nat)
    requires IsRun(run) && n < |run|
    ensures Locks(run[n])
  {
    hide Inv, NextBy;
    if n > 0 {
      RunKeepsLocks(run, n - 1);
      RunInv(run, n - 1);
      assert Steps(run[n - 1], run[n - 1 + 1]);
      var c, step :| NextBy(run[n - 1], run[n], c, step);
      NextLocks(run[n - 1], run[n], c, step);
    }
  }

  // ----- who can move -----

  lemma SchedMoves(s: State, c: nat, step: SchedStep)
    requires SchedEnabled(s, c, step) && !step.Wake?
    ensures CanMove(s, c) && forall n: nat :: Free(s, c, n)
  {
    assert NextBy(s, SchedDo(s, c, step), c, Sched(step));
  }

  lemma RunMoves(s: State, c: nat, p: nat, step: RunStep)
    requires RunEnabled(s, c, p, step) && !step.Yield? && !step.Kill?
    ensures CanMove(s, c) && forall n: nat :: Free(s, c, n)
  {
    assert NextBy(s, RunDo(s, c, p, step), c, Running(step));
  }

  lemma ForkMoves(s: State, c: nat, p: nat, step: ForkStep)
    requires ForkEnabled(s, c, p, step)
    ensures CanMove(s, c) && forall n: nat :: Free(s, c, n)
  {
    assert NextBy(s, ForkDo(s, c, p, step), c, Fork(step));
  }

  lemma ExitMoves(s: State, c: nat, p: nat, step: ExitStep)
    requires ExitEnabled(s, c, p, step)
    ensures CanMove(s, c) && forall n: nat :: Free(s, c, n)
  {
    assert NextBy(s, ExitDo(s, c, p, step), c, Exit(step));
  }

  lemma WaitMoves(s: State, c: nat, p: nat, step: WaitStep)
    requires WaitEnabled(s, c, p, step)
    ensures CanMove(s, c) && forall n: nat :: Free(s, c, n)
  {
    assert NextBy(s, WaitDo(s, c, p, step), c, Wait(step));
  }

  lemma Behind(s: State, c: nat, d: nat, n: nat)
    requires WaitsFor(s, c, d) && Free(s, d, n)
    ensures Free(s, c, n + 1)
  {
  }

  /** The holder of a process's lock needs no other lock. */
  lemma HolderMoves(s: State, j: nat, e: nat)
    requires Inv(s) && Locks(s) && j < |s.slots| && s.slots[j].lock == Cpu(e)
    ensures e < |s.cores| && Free(s, e, 0)
  {
    hide Kin, OneForker, CanMove, Free;
    KnownAt(s, j);
    assert HeldOk(s, j);
    var x := s.slots[j];
    if x.cpu.Nobody? {
      ForkMoves(s, e, s.cores[e].ctx.p, Copied);
    } else if s.cores[e].ctx.Go? {
      SchedMoves(s, e, Enter);
    } else if s.cores[e].ctx.Back? {
      SchedMoves(s, e, Leave);
    } else if x.pc.Saved? {
      RunMoves(s, e, j, Resume);
    } else if x.pc.Switching? {
      RunMoves(s, e, j, Swtch);
    } else if x.pc.WaitSleep? {
      WaitMoves(s, e, j, Doze);
    } else {
      ExitMoves(s, e, j, Unlock);
    }
  }

  /** CPU c spins for the lock of slot j, if anyone holds it. */
  lemma SlotLock(s: State, c: nat, j: nat)
    requires Inv(s) && Locks(s) && j < |s.slots| && s.slots[j].lock.Cpu?
    requires WaitsFor(s, c, s.slots[j].lock.c)
    ensures Free(s, c, 1)
  {
    hide Inv, Locks, WaitsFor, CanMove, Free;
    HolderMoves(s, j, s.slots[j].lock.c);
    Behind(s, c, s.slots[j].lock.c, 0);
  }

  /** A process in wakeup, called by exit. */
  lemma WakerFree(s: State, c: nat, p: nat)
    requires Inv(s) && Locks(s) && OnThread(s, c, p) && (s.slots[p].pc.ExitWakeInit? || s.slots[p].pc.ExitWakeParent?)
    ensures Free(s, c, 1)
  {
    hide Inv, Locks, CanMove, Free;
    var j := s.slots[p].pc.j;
    if MayWake(s, p, j) {
      ExitMoves(s, c, p, WakeNext);
    } else {
      HolderThere(s, j);
      SlotLock(s, c, j);
    }
  }

  lemma HolderThere(s: State, j: nat)
    requires Inv(s) && Locks(s) && j < |s.slots| && s.slots[j].lock.Cpu?
    ensures s.slots[j].lock.c < |s.cores|
  {
    HolderMoves(s, j, s.slots[j].lock.c);
  }

  /** A process in wait's scan. */
  lemma ScannerFree(s: State, c: nat, p: nat)
    requires Inv(s) && Locks(s) && OnThread(s, c, p) && s.slots[p].pc.WaitScan?
    ensures Free(s, c, 1)
  {
    hide Kin, OneForker, CanMove, Free;
    var x, i := s.slots[p], s.slots[p].pc.i;
    assert ScanOk(s, p);
    CoreAt(s, c);
    if i == |s.slots| {
      WaitMoves(s, c, p, if x.pc.havekids then Block else GiveUp);
    } else if s.slots[i].parent != Some(p) {
      WaitMoves(s, c, p, Next);
    } else if s.slots[i].lock.Cpu? {
      HolderThere(s, i);
      SlotLock(s, c, i);
    } else {
      WaitMoves(s, c, p, if s.slots[i].state.ZOMBIE? then Reap else Next);
    }
  }

  /** The holder of wait_lock waits for nothing but the lock of one process. */
  lemma WaitHolderFree(s: State, d: nat)
    requires Inv(s) && Locks(s) && s.waitLock == Cpu(d)
    ensures d < |s.cores| && Free(s, d, 1)
  {
    hide Kin, OneForker, Locks, CanMove, Free;
    Basics(s);
    var q := s.cores[d].ctx.p;
    CoreAt(s, d);
    match s.slots[q].pc
    case ExitReparent(_) => ExitMoves(s, d, q, Scan);
    case ExitFinal => ExitMoves(s, d, q, BecomeZombie);
    case ExitRelease => ExitMoves(s, d, q, Unlock);
    case WaitScan(_, _) => ScannerFree(s, d, q);
    case _ => WakerFree(s, d, q);
  }

  /** A process that needs wait_lock. */
  lemma WaitLockFree(s: State, c: nat, p: nat)
    requires Inv(s) && Locks(s) && OnThread(s, c, p)
    requires s.slots[p].pc.ExitLock? || s.slots[p].pc.WaitLock? || (s.slots[p].pc.ForkParent? && Known(s, p))
    ensures Free(s, c, 2)
  {
    hide Inv, Locks, CanMove, Free;
    if s.waitLock.Cpu? {
      WaitHolderFree(s, s.waitLock.c);
      Behind(s, c, s.waitLock.c, 1);
    } else if s.slots[p].pc.ExitLock? {
      ExitMoves(s, c, p, Acquire);
    } else if s.slots[p].pc.WaitLock? {
      WaitMoves(s, c, p, Lock);
    } else {
      ForkMoves(s, c, p, SetParent);
    }
  }

  lemma Longer(s: State, c: nat)
    requires Free(s, c, 1)
    ensures Free(s, c, 2)
  {
    if !CanMove(s, c) {
      var d :| WaitsFor(s, c, d) && Free(s, d, 0);
      assert Free(s, d, 1);
    }
  }

  /** Every thread that a CPU runs. */
  lemma ThreadFree(s: State, c: nat, p: nat)
    requires Inv(s) && Locks(s) && OnThread(s, c, p)
    ensures Free(s, c, 2)
  {
    hide Kin, OneForker, Locks, CanMove, Free;
    CoreAt(s, c);
    match s.slots[p].pc
    case Run => WaitMoves(s, c, p, Start);
    case Switching(_) => RunMoves(s, c, p, Swtch);
    case Saved(_) => RunMoves(s, c, p, Resume);
    case ForkHold(_) => ForkMoves(s, c, p, Copied);
    case ForkGo(_) => ForkMoves(s, c, p, MakeRunnable);
    case WaitSleep => WaitMoves(s, c, p, Doze);
    case ForkParent(_) => WaitLockFree(s, c, p);
    case ExitLock => WaitLockFree(s, c, p);
    case WaitLock => WaitLockFree(s, c, p);
    case _ =>
      WaitHolderFree(s, c);
      Longer(s, c);
  }

  /** Every scheduler that could pick a process. */
  lemma IdleFree(s: State, c: nat, i: nat)
    requires Inv(s) && Locks(s) && c < |s.cores| && s.cores[c].ctx.Idle? && i < |s.slots| && s.slots[i].state.RUNNABLE?
    ensures Free(s, c, 2)
  {
    hide Inv, Locks, CanMove, Free;
    if s.slots[i].lock.Nobody? {
      SchedMoves(s, c, Take(i));
    } else {
      HolderThere(s, i);
      SlotLock(s, c, i);
      Longer(s, c);
    }
  }

  /** In every state of every run, a CPU with something to do can do it, or waits for a lock whose holder can go on, or
      for wait_lock whose holder waits for a lock whose holder can go on: so nobody waits in a circle. */
  lemma NoDeadlock(run: seq<State>, n: nat, c: nat)
    requires IsRun(run) && n < |run| && c < |run[n].cores| && Busy(run[n], c)
    ensures Free(run[n], c, 2)
  {
    hide Inv, Locks, IsRun, CanMove, Free;
    RunInv(run, n);
    RunKeepsLocks(run, n);
    var s := run[n];
    match s.cores[c].ctx
    case Idle =>
      var i :| 0 <= i < |s.slots| && s.slots[i].state.RUNNABLE?;
      IdleFree(s, c, i);
    case Go(_) => SchedMoves(s, c, Enter);
    case Back(p) =>
      InTable(s, c);
      SchedMoves(s, c, Leave);
    case Thread(p) =>
      InTable(s, c);
      ThreadFree(s, c, p);
  }

  lemma InTable(s: State, c: nat)
    requires Inv(s) && c < |s.cores| && !s.cores[c].ctx.Idle?
    ensures s.cores[c].ctx.p < |s.slots|
  {
    CoreAt(s, c);
  }
}
