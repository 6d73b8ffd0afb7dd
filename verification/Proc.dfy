/** Processes, CPUs and the locks between them (kernel/proc.c): several CPUs step through scheduler, sched, yield,
    sleep, wakeup, fork, exit and wait over one process table. A section that runs under one lock is one step;
    p->lock is held over several steps where the code hands it across swtch. */
module Proc {
  import opened Values

  datatype ProcState = UNUSED | USED | SLEEPING | RUNNABLE | RUNNING | ZOMBIE

  /** Where the timer can make a process yield: anywhere outside the modelled calls, and inside them between two
      locks. */
  datatype Spot = AtRun | AtForkParent(np: nat) | AtForkGo(np: nat) | AtExit | AtWait

  /** Where a process resumes after swtch: in yield, in a sleep on some event, in wait's sleep, at its start in forkret,
      or, after exit, nowhere. */
  datatype Kont = KYield(at: Spot) | KSleep | KWait | KFork | KExit

  /** Where a process's kernel thread is. Run stands for all code that holds none of the modelled locks. */
  datatype PC =
    | Run | Switching(k: Kont) | Saved(k: Kont)
    | ForkHold(np: nat) | ForkParent(np: nat) | ForkGo(np: nat)
    | ExitLock | ExitReparent(i: nat) | ExitWakeInit(i: nat, j: nat) | ExitWakeParent(j: nat) | ExitFinal | ExitRelease
    | WaitLock | WaitScan(i: nat, havekids: bool) | WaitSleep

  /** What a process sleeps on: the slot of a process, in wait, or some other event. */
  datatype Chan = Null | Proc(p: nat) | Event(e: nat)

  datatype Holder = Nobody | Cpu(c: nat)

  /** A slot of the process table. The cpu field is not in the program: it names the CPU whose scheduler picked the
      process and has not yet let go of it. */
  datatype Slot = Slot(state: ProcState, lock: Holder, chan: Chan, killed: bool, parent: Option<nat>, pc: PC,
    cpu: Holder)

  /** What a CPU executes: its scheduler between processes, just before or just after swtch, or a process's thread on
      that process's kernel stack. */
  datatype Context = Idle | Go(p: nat) | Back(p: nat) | Thread(p: nat)

  datatype Core = Core(ctx: Context, proc: Option<nat>)

  /** exits and reaps count, per slot, how often a process in it has exited and has been reaped. */
  datatype State = State(slots: seq<Slot>, cores: seq<Core>, waitLock: Holder, init: nat, exits: seq<nat>,
    reaps: seq<nat>)

  /** scheduler: pick a process, switch to it, and let go of it when it has switched back; and wakeup of an event by any
      code on this CPU. */
  datatype SchedStep = Take(i: nat) | Enter | Leave | Wake(i: nat, e: nat)
  /** sched with its callers yield and sleep, and kill. */
  datatype RunStep = Resume | Yield | Sleep(e: nat) | Swtch | Kill(i: nat)
  datatype ForkStep = Alloc(np: nat) | Fail | Copied | SetParent | MakeRunnable
  datatype ExitStep = Begin | Acquire | Scan | WakeNext | BecomeZombie | Unlock
  datatype WaitStep = Start | Lock | Next | Reap | Fault | GiveUp | Block | Doze

  datatype Step = Sched(s: SchedStep) | Running(r: RunStep) | Fork(f: ForkStep) | Exit(x: ExitStep) | Wait(w: WaitStep)

  function FreeSlot(): Slot {
    Slot(UNUSED, Nobody, Null, false, None, Saved(KFork), Nobody)
  }

  function Put(s: State, p: nat, x: Slot): (t: State)
    requires p < |s.slots|
  {
    s.(slots := s.slots[p := x])
  }

  function SetCore(s: State, c: nat, x: Core): (t: State)
    requires c < |s.cores|
  {
    s.(cores := s.cores[c := x])
  }

  function At(s: State, p: nat, pc: PC): (t: State)
    requires p < |s.slots|
  {
    Put(s, p, s.slots[p].(pc := pc))
  }

  /** One round of wakeup(chan) for slot x. */
  function Woken(x: Slot, chan: Chan): (y: Slot) {
    if x.state.SLEEPING? && x.chan == chan then x.(state := RUNNABLE) else x
  }

  /** CPU c runs the thread of the process in slot p. */
  predicate OnThread(s: State, c: nat, p: nat) {
    c < |s.cores| && s.cores[c].ctx == Thread(p) && p < |s.slots|
  }

  // ----- scheduler -----

  predicate SchedEnabled(s: State, c: nat, step: SchedStep) {
    c < |s.cores| &&
    match step
    case Take(i) => s.cores[c].ctx.Idle? && i < |s.slots| && s.slots[i].lock.Nobody? && s.slots[i].state.RUNNABLE?
    case Enter => s.cores[c].ctx.Go?
    case Leave => s.cores[c].ctx.Back? && s.cores[c].ctx.p < |s.slots|
    case Wake(i, _) => i < |s.slots| && s.slots[i].lock.Nobody?
  }

  function SchedDo(s: State, c: nat, step: SchedStep): (t: State)
    requires SchedEnabled(s, c, step)
  {
    match step
    case Take(i) =>
      SetCore(Put(s, i, s.slots[i].(lock := Cpu(c), state := RUNNING, cpu := Cpu(c))), c, Core(Go(i), Some(i)))
    case Enter => SetCore(s, c, s.cores[c].(ctx := Thread(s.cores[c].ctx.p)))
    case Leave =>
      var i := s.cores[c].ctx.p;
      SetCore(Put(s, i, s.slots[i].(lock := Nobody, cpu := Nobody)), c, Core(Idle, None))
    case Wake(i, e) => Put(s, i, Woken(s.slots[i], Event(e)))
  }

  // ----- sched, yield, sleep, kill -----

  function SpotPc(at: Spot): (pc: PC) {
    match at
    case AtRun => Run
    case AtForkParent(np) => ForkParent(np)
    case AtForkGo(np) => ForkGo(np)
    case AtExit => ExitLock
    case AtWait => WaitLock
  }

  /** Where interrupts are on: the process holds no spinlock. */
  predicate Interruptible(pc: PC) {
    pc.Run? || pc.ForkParent? || pc.ForkGo? || pc.ExitLock? || pc.WaitLock?
  }

  function SpotOf(pc: PC): (at: Spot)
    requires Interruptible(pc)
    ensures SpotPc(at) == pc
  {
    match pc
    case ForkParent(np) => AtForkParent(np)
    case ForkGo(np) => AtForkGo(np)
    case ExitLock => AtExit
    case WaitLock => AtWait
    case _ => AtRun
  }

  /** Where a process is, or was when it had to yield. */
  function Place(pc: PC): (q: PC) {
    if pc.Switching? && pc.k.KYield? then SpotPc(pc.k.at)
    else if pc.Saved? && pc.k.KYield? then SpotPc(pc.k.at)
    else pc
  }

  predicate RunEnabled(s: State, c: nat, p: nat, step: RunStep) {
    OnThread(s, c, p) &&
    var x := s.slots[p];
    match step
    case Resume => x.pc.Saved? && !x.pc.k.KExit?
    case Yield => Interruptible(x.pc) && x.lock.Nobody?
    case Sleep(_) => x.pc.Run? && x.lock.Nobody?
    case Swtch => x.pc.Switching?
    case Kill(i) => x.pc.Run? && i < |s.slots| && s.slots[i].lock.Nobody?
  }

  function RunDo(s: State, c: nat, p: nat, step: RunStep): (t: State)
    requires RunEnabled(s, c, p, step)
  {
    var x := s.slots[p];
    match step
    case Resume =>
      var y := if x.pc.k.KSleep? || x.pc.k.KWait? then x.(chan := Null) else x;
      var pc := if x.pc.k.KWait? then WaitLock else if x.pc.k.KYield? then SpotPc(x.pc.k.at) else Run;
      Put(s, p, y.(lock := Nobody, pc := pc))
    case Yield => Put(s, p, x.(lock := Cpu(c), state := RUNNABLE, pc := Switching(KYield(SpotOf(x.pc)))))
    case Sleep(e) => Put(s, p, x.(lock := Cpu(c), chan := Event(e), state := SLEEPING, pc := Switching(KSleep)))
    case Swtch => SetCore(At(s, p, Saved(x.pc.k)), c, s.cores[c].(ctx := Back(p)))
    case Kill(i) =>
      var y := s.slots[i];
      Put(s, i, y.(killed := true, state := if y.state.SLEEPING? then RUNNABLE else y.state))
  }

  // ----- fork -----

  predicate ForkEnabled(s: State, c: nat, p: nat, step: ForkStep) {
    OnThread(s, c, p) &&
    var x := s.slots[p];
    match step
    case Alloc(np) => x.pc.Run? && np < |s.slots| && np != p && s.slots[np].lock.Nobody? && s.slots[np].state.UNUSED?
    case Fail => x.pc.ForkHold? && x.pc.np < |s.slots|
    case Copied => x.pc.ForkHold? && x.pc.np < |s.slots|
    case SetParent => x.pc.ForkParent? && x.pc.np < |s.slots| && s.waitLock.Nobody?
    case MakeRunnable => x.pc.ForkGo? && x.pc.np < |s.slots| && s.slots[x.pc.np].lock.Nobody?
  }

  function ForkDo(s: State, c: nat, p: nat, step: ForkStep): (t: State)
    requires ForkEnabled(s, c, p, step)
  {
    var pc := s.slots[p].pc;
    match step
    case Alloc(np) => At(Put(s, np, FreeSlot().(state := USED, lock := Cpu(c))), p, ForkHold(np))
    case Fail => At(Put(s, pc.np, FreeSlot()), p, Run)
    case Copied => At(Put(s, pc.np, s.slots[pc.np].(lock := Nobody)), p, ForkParent(pc.np))
    case SetParent => At(Put(s, pc.np, s.slots[pc.np].(parent := Some(p))), p, ForkGo(pc.np))
    case MakeRunnable => At(Put(s, pc.np, s.slots[pc.np].(state := RUNNABLE)), p, Run)
  }

  // ----- exit -----

  /** wakeup skips the caller and takes each other slot's lock in turn. */
  predicate MayWake(s: State, p: nat, j: nat) {
    j < |s.slots| && j != p ==> s.slots[j].lock.Nobody?
  }

  function WakeSlot(s: State, p: nat, j: nat, chan: Chan): (t: State)
    requires p < |s.slots|
  {
    if j < |s.slots| && j != p then Put(s, j, Woken(s.slots[j], chan)) else s
  }

  predicate ExitEnabled(s: State, c: nat, p: nat, step: ExitStep) {
    OnThread(s, c, p) &&
    var x := s.slots[p];
    match step
    case Begin => x.pc.Run? && p != s.init
    case Acquire => x.pc.ExitLock? && s.waitLock.Nobody?
    case Scan => x.pc.ExitReparent?
    case WakeNext => (x.pc.ExitWakeInit? || x.pc.ExitWakeParent?) && MayWake(s, p, x.pc.j)
    case BecomeZombie => x.pc.ExitFinal? && x.lock.Nobody? && p < |s.exits|
    case Unlock => x.pc.ExitRelease?
  }

  function ExitDo(s: State, c: nat, p: nat, step: ExitStep): (t: State)
    requires ExitEnabled(s, c, p, step)
  {
    var x := s.slots[p];
    match step
    case Begin => At(s, p, ExitLock)
    case Acquire => At(s, p, ExitReparent(0)).(waitLock := Cpu(c))
    case Scan =>
      var i := x.pc.i;
      if i >= |s.slots| then At(s, p, ExitWakeParent(0))
      else if s.slots[i].parent == Some(p) then
        At(Put(s, i, s.slots[i].(parent := Some(s.init))), p, ExitWakeInit(i, 0))
      else At(s, p, ExitReparent(i + 1))
    case WakeNext =>
      var j := x.pc.j;
      if x.pc.ExitWakeInit? then
        At(WakeSlot(s, p, j, Proc(s.init)), p, if j < |s.slots| then ExitWakeInit(x.pc.i, j + 1)
          else ExitReparent(x.pc.i + 1))
      else
        At(if x.parent.Some? then WakeSlot(s, p, j, Proc(x.parent.value)) else s, p,
           if j < |s.slots| then ExitWakeParent(j + 1) else ExitFinal)
    case BecomeZombie =>
      Put(s, p, x.(lock := Cpu(c), state := ZOMBIE, pc := ExitRelease)).(exits := s.exits[p := s.exits[p] + 1])
    case Unlock => At(s, p, Switching(KExit)).(waitLock := Nobody)
  }

  // ----- wait -----

  predicate IsZombieChild(s: State, p: nat, i: nat) {
    i < |s.slots| && s.slots[i].parent == Some(p) && s.slots[i].lock.Nobody? && s.slots[i].state.ZOMBIE?
  }

  predicate WaitEnabled(s: State, c: nat, p: nat, step: WaitStep) {
    OnThread(s, c, p) &&
    var x := s.slots[p];
    match step
    case Start => x.pc.Run?
    case Lock => x.pc.WaitLock? && s.waitLock.Nobody?
    case Next => x.pc.WaitScan? && x.pc.i < |s.slots|
      && (s.slots[x.pc.i].parent == Some(p) ==> s.slots[x.pc.i].lock.Nobody? && !s.slots[x.pc.i].state.ZOMBIE?)
    case Reap => x.pc.WaitScan? && x.pc.i < |s.reaps| && IsZombieChild(s, p, x.pc.i)
    case Fault => x.pc.WaitScan? && IsZombieChild(s, p, x.pc.i)
    case GiveUp => x.pc.WaitScan? && x.pc.i == |s.slots| && (!x.pc.havekids || (x.lock.Nobody? && x.killed))
    case Block => x.pc.WaitScan? && x.pc.i == |s.slots| && x.pc.havekids && x.lock.Nobody?
    case Doze => x.pc.WaitSleep?
  }

  function WaitDo(s: State, c: nat, p: nat, step: WaitStep): (t: State)
    requires WaitEnabled(s, c, p, step)
  {
    var x := s.slots[p];
    match step
    case Start => At(s, p, WaitLock)
    case Lock => At(s, p, WaitScan(0, false)).(waitLock := Cpu(c))
    case Next => At(s, p, WaitScan(x.pc.i + 1, x.pc.havekids || s.slots[x.pc.i].parent == Some(p)))
    case Reap =>
      At(Put(s, x.pc.i, FreeSlot()), p, Run).(waitLock := Nobody, reaps := s.reaps[x.pc.i := s.reaps[x.pc.i] + 1])
    case Fault => At(s, p, Run).(waitLock := Nobody)
    case GiveUp => At(s, p, Run).(waitLock := Nobody)
    case Block => Put(s, p, x.(lock := Cpu(c), pc := WaitSleep)).(waitLock := Nobody)
    case Doze => Put(s, p, x.(chan := Proc(p), state := SLEEPING, pc := Switching(KWait)))
  }

  // ----- runs -----

  predicate NextBy(s: State, t: State, c: nat, step: Step) {
    match step
    case Sched(a) => SchedEnabled(s, c, a) && t == SchedDo(s, c, a)
    case Running(a) =>
      c < |s.cores| && s.cores[c].ctx.Thread? && RunEnabled(s, c, s.cores[c].ctx.p, a)
      && t == RunDo(s, c, s.cores[c].ctx.p, a)
    case Fork(a) =>
      c < |s.cores| && s.cores[c].ctx.Thread? && ForkEnabled(s, c, s.cores[c].ctx.p, a)
      && t == ForkDo(s, c, s.cores[c].ctx.p, a)
    case Exit(a) =>
      c < |s.cores| && s.cores[c].ctx.Thread? && ExitEnabled(s, c, s.cores[c].ctx.p, a)
      && t == ExitDo(s, c, s.cores[c].ctx.p, a)
    case Wait(a) =>
      c < |s.cores| && s.cores[c].ctx.Thread? && WaitEnabled(s, c, s.cores[c].ctx.p, a)
      && t == WaitDo(s, c, s.cores[c].ctx.p, a)
  }

  /** userinit has made the first process; every CPU is in its scheduler. */
  ghost predicate Initial(s: State) {
    && s.init < |s.slots| == |s.exits| == |s.reaps| && s.waitLock.Nobody?
    && (forall c :: 0 <= c < |s.cores| ==> s.cores[c] == Core(Idle, None))
    && (forall p :: 0 <= p < |s.slots| ==> s.exits[p] == s.reaps[p] == 0)
    && (forall p :: 0 <= p < |s.slots| ==>
      s.slots[p] == if p == s.init then FreeSlot().(state := RUNNABLE) else FreeSlot())
  }

  // ----- invariant: who is where -----

  predicate HoldsWait(pc: PC) {
    pc.ExitReparent? || pc.ExitWakeInit? || pc.ExitWakeParent? || pc.ExitFinal? || pc.ExitRelease? || pc.WaitScan?
  }

  function StateAt(k: Kont): ProcState {
    match k
    case KYield(_) => RUNNABLE
    case KSleep => SLEEPING
    case KWait => SLEEPING
    case KFork => RUNNABLE
    case KExit => ZOMBIE
  }

  /** CPU c and the process it is engaged with agree about each other. */
  predicate CoreOk(s: State, c: nat)
    requires c < |s.cores|
  {
    var x := s.cores[c];
    if x.ctx.Idle? then x.proc.None?
    else x.ctx.p < |s.slots| && x.proc == Some(x.ctx.p) && s.slots[x.ctx.p].cpu == Cpu(c)
  }

  /** Picked, and about to be switched to. */
  predicate GoOk(x: Slot, c: nat) {
    x.lock == Cpu(c) && x.state.RUNNING? && x.pc.Saved? && !x.pc.k.KExit?
  }

  /** Just switched away from. */
  predicate BackOk(x: Slot, c: nat) {
    x.lock == Cpu(c) && x.pc.Saved? && x.state == StateAt(x.pc.k) && !x.pc.k.KFork?
  }

  /** A slot no CPU is engaged with. */
  predicate RestOk(x: Slot) {
    && x.pc.Saved? && !x.state.RUNNING?
    && (x.state.RUNNABLE? || x.state.SLEEPING? ==> !x.pc.k.KExit? && x.lock.Nobody?)
    && (x.state.ZOMBIE? ==> x.pc.k.KExit? && x.lock.Nobody?)
    && (x.state.UNUSED? ==> x.pc.k.KFork? && x.parent.None? && x.lock.Nobody?)
    && (x.state.USED? ==> x.pc.k.KFork?)
  }

  /** A slot whose thread runs on CPU c. */
  predicate ThreadOk(x: Slot, c: nat) {
    match x.pc
    case Saved(k) => x.lock == Cpu(c) && x.state.RUNNING? && !k.KExit?
    case Switching(k) => x.lock == Cpu(c) && x.state == StateAt(k) && !k.KFork?
    case WaitSleep => x.lock == Cpu(c) && x.state.RUNNING?
    case ExitRelease => x.lock == Cpu(c) && x.state.ZOMBIE?
    case _ => x.lock.Nobody? && x.state.RUNNING?
  }

  /** p->lock is held around swtch, and free while the process rests or runs. */
  predicate SlotOk(s: State, p: nat)
    requires p < |s.slots|
  {
    var x := s.slots[p];
    match x.cpu
    case Nobody => RestOk(x)
    case Cpu(c) =>
      c < |s.cores| &&
      match s.cores[c].ctx
      case Idle => false
      case Go(q) => q == p && GoOk(x, c)
      case Back(q) => q == p && BackOk(x, c)
      case Thread(q) => q == p && ThreadOk(x, c) && (HoldsWait(x.pc) <==> s.waitLock == Cpu(c))
  }

  predicate WaitLockOk(s: State) {
    s.waitLock.Cpu? ==>
      var c := s.waitLock.c;
      c < |s.cores| && s.cores[c].ctx.Thread? && s.cores[c].ctx.p < |s.slots| && HoldsWait(s.slots[s.cores[c].ctx.p].pc)
  }

  predicate ForkOkay(s: State, p: nat)
    requires p < |s.slots|
  {
    var x := s.slots[p];
    Forks(x.pc) ==>
      var pc := Place(x.pc);
      && pc.np < |s.slots| && pc.np != p && pc.np != s.init
      && s.slots[pc.np].state.USED? && s.slots[pc.np].cpu.Nobody?
      && s.slots[pc.np].lock == (if pc.ForkHold? then x.cpu else Nobody)
      && s.slots[pc.np].parent == (if pc.ForkGo? then Some(p) else None)
  }

  predicate Forks(pc: PC) {
    Place(pc).ForkHold? || Place(pc).ForkParent? || Place(pc).ForkGo?
  }

  predicate Forking(x: Slot, np: nat) {
    Forks(x.pc) && Place(x.pc).np == np
  }

  ghost predicate OneForker(s: State) {
    forall p, p', np ::
      0 <= p < |s.slots| && 0 <= p' < |s.slots| && Forking(s.slots[p], np) && Forking(s.slots[p'], np) ==>
      p == p'
  }

  predicate Exiting(pc: PC) {
    || Place(pc).ExitLock? || pc.ExitReparent? || pc.ExitWakeInit? || pc.ExitWakeParent? || pc.ExitFinal?
    || pc.ExitRelease? || pc == Switching(KExit) || pc == Saved(KExit)
  }

  /** init is always there, has no parent and never exits. */
  predicate InitOk(s: State) {
    s.init < |s.slots| &&
    var x := s.slots[s.init];
    !x.state.UNUSED? && !x.state.USED? && !x.state.ZOMBIE? && x.parent.None? && !Exiting(x.pc)
  }

  ghost predicate Whereabouts(s: State) {
    && (forall c: nat :: c < |s.cores| ==> CoreOk(s, c))
    && (forall p: nat :: p < |s.slots| ==> SlotOk(s, p))
    && (forall p: nat :: p < |s.slots| ==> ForkOkay(s, p))
    && WaitLockOk(s) && OneForker(s) && InitOk(s)
  }

  predicate Known(s: State, p: nat)
    requires p < |s.slots|
  {
    SlotOk(s, p) && ForkOkay(s, p)
  }

  lemma KnownAt(s: State, p: nat)
    requires Whereabouts(s) && p < |s.slots|
    ensures Known(s, p)
  {
    assert SlotOk(s, p) && ForkOkay(s, p);
  }

  /** What a step of exit does to slot q: to its own slot, the place; to another, waking it or giving it to init. */
  lemma ExitEffect(s: State, c: nat, p: nat, step: ExitStep, q: nat)
    requires ExitEnabled(s, c, p, step) && q < |s.slots|
    ensures var t := ExitDo(s, c, p, step);
      && |t.slots| == |s.slots| && t.cores == s.cores && t.init == s.init
      && t.slots[q].cpu == s.slots[q].cpu
      && if q == p then !Forks(t.slots[q].pc)
         else
           && t.slots[q].pc == s.slots[q].pc && t.slots[q].lock == s.slots[q].lock && t.slots[q].chan == s.slots[q].chan
           && (t.slots[q].state == s.slots[q].state
               || (s.slots[q].state.SLEEPING? && t.slots[q].state.RUNNABLE? && s.slots[q].lock.Nobody?))
           && (t.slots[q].parent == s.slots[q].parent
               || (s.slots[q].parent == Some(p) && t.slots[q].parent == Some(s.init)))
  {
  }

  lemma CoreAt(s: State, c: nat)
    requires Whereabouts(s) && c < |s.cores|
    ensures CoreOk(s, c)
    ensures !s.cores[c].ctx.Idle? ==> Known(s, s.cores[c].ctx.p)
  {
    hide OneForker;
    assert CoreOk(s, c);
    if !s.cores[c].ctx.Idle? {
      KnownAt(s, s.cores[c].ctx.p);
    }
  }

  lemma Basics(s: State)
    requires Whereabouts(s)
    ensures WaitLockOk(s) && InitOk(s)
    ensures s.waitLock.Cpu? ==> Known(s, s.cores[s.waitLock.c].ctx.p)
  {
    if s.waitLock.Cpu? {
      CoreAt(s, s.waitLock.c);
    }
  }

  function Forked(s: State, p: nat, step: ForkStep): (np: nat)
    requires p < |s.slots|
    requires (step.Alloc? || s.slots[p].pc.ForkHold? || s.slots[p].pc.ForkParent? || s.slots[p].pc.ForkGo?)
  {
    if step.Alloc? then step.np else s.slots[p].pc.np
  }

  /** A step of fork touches only the place of the forking process and the new slot. */
  lemma ForkEffect(s: State, c: nat, p: nat, step: ForkStep, q: nat)
    requires ForkEnabled(s, c, p, step) && q < |s.slots| && Forked(s, p, step) != p
    ensures var t, np := ForkDo(s, c, p, step), Forked(s, p, step);
      && |t.slots| == |s.slots| && t.cores == s.cores && t.init == s.init && t.waitLock == s.waitLock
      && (q != np ==> t.slots[q] == s.slots[q].(pc := t.slots[q].pc) && (q != p ==> t.slots[q].pc == s.slots[q].pc))
      && match step
         case Alloc(_) => t.slots[np] == FreeSlot().(state := USED, lock := Cpu(c)) && t.slots[p].pc == ForkHold(np)
         case Fail => t.slots[np] == FreeSlot() && t.slots[p].pc == Run
         case Copied => t.slots[np] == s.slots[np].(lock := Nobody) && t.slots[p].pc == ForkParent(np)
         case SetParent => t.slots[np] == s.slots[np].(parent := Some(p)) && t.slots[p].pc == ForkGo(np)
         case MakeRunnable => t.slots[np] == s.slots[np].(state := RUNNABLE) && t.slots[p].pc == Run
  {
  }

  /** Only the holder of wait_lock is at a place that holds it. */
  lemma WaitOthers(s: State, c: nat, q: nat)
    requires Whereabouts(s) && c < |s.cores| && q < |s.slots|
    ensures s.waitLock == Cpu(c) ==> s.cores[c].ctx.Thread? && (HoldsWait(s.slots[q].pc) ==> s.cores[c].ctx.p == q)
    ensures s.waitLock.Nobody? ==> !HoldsWait(s.slots[q].pc)
  {
    CoreAt(s, c);
    KnownAt(s, q);
  }

  lemma ExitOwnSlot(s: State, c: nat, p: nat, step: ExitStep)
    requires ExitEnabled(s, c, p, step) && CoreOk(s, c) && SlotOk(s, p)
    ensures |ExitDo(s, c, p, step).slots| == |s.slots| && SlotOk(ExitDo(s, c, p, step), p)
  {
  }

  lemma ExitOtherSlot(s: State, c: nat, p: nat, step: ExitStep, q: nat)
    requires ExitEnabled(s, c, p, step) && q < |s.slots| && q != p && CoreOk(s, c) && SlotOk(s, q) && SlotOk(s, p)
    requires s.waitLock.Nobody? ==> !HoldsWait(s.slots[q].pc)
    ensures |ExitDo(s, c, p, step).slots| == |s.slots| && SlotOk(ExitDo(s, c, p, step), q)
  {
    hide ExitDo;
    ExitEffect(s, c, p, step, q);
    ExitWaitLock(s, c, p, step);
  }

  lemma ExitWaitLock(s: State, c: nat, p: nat, step: ExitStep)
    requires ExitEnabled(s, c, p, step)
    ensures ExitDo(s, c, p, step).waitLock
      == if step.Acquire? then Cpu(c) else if step.Unlock? then Nobody else s.waitLock
  {
  }

  lemma SameForker(s: State, p: nat, q: nat, np: nat)
    requires Whereabouts(s) && p < |s.slots| && q < |s.slots| && Forking(s.slots[p], np) && Forking(s.slots[q], np)
    ensures p == q
  {
  }

  lemma SchedCores(s: State, c: nat, step: SchedStep, d: nat)
    requires SchedEnabled(s, c, step) && Whereabouts(s) && d < |s.cores|
    ensures |SchedDo(s, c, step).cores| == |s.cores| && CoreOk(SchedDo(s, c, step), d)
  {
    hide Whereabouts, OneForker;
    CoreAt(s, c);
    CoreAt(s, d);
    match step
    case Take(i) => KnownAt(s, i);
    case Enter =>
    case Leave =>
    case Wake(i, _) => KnownAt(s, i);
  }

  lemma SchedSlots(s: State, c: nat, step: SchedStep, q: nat)
    requires SchedEnabled(s, c, step) && Whereabouts(s) && q < |s.slots|
    ensures |SchedDo(s, c, step).slots| == |s.slots| && SlotOk(SchedDo(s, c, step), q)
  {
    hide Whereabouts, OneForker, InitOk;
    CoreAt(s, c);
    Basics(s);
    KnownAt(s, q);
    match step
    case Take(i) => KnownAt(s, i);
    case Enter =>
    case Leave =>
    case Wake(i, _) => KnownAt(s, i);
  }

  lemma SchedForks(s: State, c: nat, step: SchedStep, q: nat)
    requires SchedEnabled(s, c, step) && Whereabouts(s) && q < |s.slots|
    ensures |SchedDo(s, c, step).slots| == |s.slots| && ForkOkay(SchedDo(s, c, step), q)
  {
    hide Whereabouts, OneForker, WaitLockOk, HoldsWait, Exiting, StateAt;
    CoreAt(s, c);
    Basics(s);
    KnownAt(s, q);
    match step
    case Take(i) => KnownAt(s, i);
    case Enter =>
    case Leave =>
    case Wake(i, _) => KnownAt(s, i);
  }

  lemma SchedBasics(s: State, c: nat, step: SchedStep)
    requires SchedEnabled(s, c, step) && Whereabouts(s)
    ensures WaitLockOk(SchedDo(s, c, step)) && InitOk(SchedDo(s, c, step))
  {
    hide Whereabouts, OneForker;
    CoreAt(s, c);
    Basics(s);
    KnownAt(s, s.init);
    match step
    case Take(i) => KnownAt(s, i);
    case Enter =>
    case Leave =>
    case Wake(i, _) => KnownAt(s, i);
  }

  lemma SchedForkers(s: State, c: nat, step: SchedStep)
    requires SchedEnabled(s, c, step) && Whereabouts(s)
    ensures OneForker(SchedDo(s, c, step))
  {
    hide Whereabouts;
    var t := SchedDo(s, c, step);
    forall a, b, np | 0 <= a < |t.slots| && 0 <= b < |t.slots| && Forking(t.slots[a], np) && Forking(t.slots[b], np)
      ensures a == b
    {
      SameForker(s, a, b, np);
    }
  }

  lemma SchedKeeps(s: State, c: nat, step: SchedStep)
    requires SchedEnabled(s, c, step) && Whereabouts(s)
    ensures Whereabouts(SchedDo(s, c, step))
  {
    hide CoreOk, SlotOk, ForkOkay, OneForker, WaitLockOk, SchedDo;
    var t := SchedDo(s, c, step);
    SchedBasics(s, c, step);
    SchedForkers(s, c, step);
    forall d: nat | d < |t.cores|
      ensures CoreOk(t, d)
    {
      SchedCores(s, c, step, if d < |s.cores| then d else c);
    }
    forall q: nat | q < |t.slots|
      ensures SlotOk(t, q) && ForkOkay(t, q)
    {
      SchedSlots(s, c, step, if q < |s.slots| then q else s.init);
      SchedForks(s, c, step, if q < |s.slots| then q else s.init);
    }
  }

  lemma RunCores(s: State, c: nat, p: nat, step: RunStep, d: nat)
    requires RunEnabled(s, c, p, step) && Whereabouts(s) && d < |s.cores|
    ensures |RunDo(s, c, p, step).cores| == |s.cores| && CoreOk(RunDo(s, c, p, step), d)
  {
    hide Whereabouts, OneForker;
    CoreAt(s, c);
    CoreAt(s, d);
    match step
    case Resume =>
    case Yield =>
    case Sleep(_) =>
    case Swtch =>
    case Kill(i) => KnownAt(s, i);
  }

  lemma RunSlots(s: State, c: nat, p: nat, step: RunStep, q: nat)
    requires RunEnabled(s, c, p, step) && Whereabouts(s) && q < |s.slots|
    ensures |RunDo(s, c, p, step).slots| == |s.slots| && SlotOk(RunDo(s, c, p, step), q)
  {
    hide Whereabouts, OneForker, InitOk;
    CoreAt(s, c);
    Basics(s);
    KnownAt(s, q);
    match step
    case Resume =>
    case Yield =>
    case Sleep(_) =>
    case Swtch =>
    case Kill(i) => KnownAt(s, i);
  }

  lemma RunForks(s: State, c: nat, p: nat, step: RunStep, q: nat)
    requires RunEnabled(s, c, p, step) && Whereabouts(s) && q < |s.slots|
    ensures |RunDo(s, c, p, step).slots| == |s.slots| && ForkOkay(RunDo(s, c, p, step), q)
  {
    hide Whereabouts, OneForker, WaitLockOk, HoldsWait, Exiting, StateAt;
    CoreAt(s, c);
    Basics(s);
    KnownAt(s, q);
    match step
    case Resume =>
    case Yield =>
    case Sleep(_) =>
    case Swtch =>
    case Kill(i) => KnownAt(s, i);
  }

  lemma RunBasics(s: State, c: nat, p: nat, step: RunStep)
    requires RunEnabled(s, c, p, step) && Whereabouts(s)
    ensures WaitLockOk(RunDo(s, c, p, step)) && InitOk(RunDo(s, c, p, step))
  {
    hide Whereabouts, OneForker;
    CoreAt(s, c);
    Basics(s);
    KnownAt(s, s.init);
    match step
    case Resume =>
    case Yield =>
    case Sleep(_) =>
    case Swtch =>
    case Kill(i) => KnownAt(s, i);
  }

  lemma RunForkers(s: State, c: nat, p: nat, step: RunStep)
    requires RunEnabled(s, c, p, step) && Whereabouts(s)
    ensures OneForker(RunDo(s, c, p, step))
  {
    hide Whereabouts;
    var t := RunDo(s, c, p, step);
    forall a, b, np | 0 <= a < |t.slots| && 0 <= b < |t.slots| && Forking(t.slots[a], np) && Forking(t.slots[b], np)
      ensures a == b
    {
      SameForker(s, a, b, np);
    }
  }

  lemma RunKeeps(s: State, c: nat, p: nat, step: RunStep)
    requires RunEnabled(s, c, p, step) && Whereabouts(s)
    ensures Whereabouts(RunDo(s, c, p, step))
  {
    hide CoreOk, SlotOk, ForkOkay, OneForker, WaitLockOk, RunDo;
    var t := RunDo(s, c, p, step);
    RunBasics(s, c, p, step);
    RunForkers(s, c, p, step);
    forall d: nat | d < |t.cores|
      ensures CoreOk(t, d)
    {
      RunCores(s, c, p, step, if d < |s.cores| then d else c);
    }
    forall q: nat | q < |t.slots|
      ensures SlotOk(t, q) && ForkOkay(t, q)
    {
      RunSlots(s, c, p, step, if q < |s.slots| then q else s.init);
      RunForks(s, c, p, step, if q < |s.slots| then q else s.init);
    }
  }

  lemma ForkCores(s: State, c: nat, p: nat, step: ForkStep, d: nat)
    requires ForkEnabled(s, c, p, step) && Whereabouts(s) && d < |s.cores|
    ensures |ForkDo(s, c, p, step).cores| == |s.cores| && CoreOk(ForkDo(s, c, p, step), d)
  {
    hide Whereabouts, OneForker;
    CoreAt(s, c);
    CoreAt(s, d);
    match step
    case Alloc(np) => KnownAt(s, np);
    case Fail => KnownAt(s, s.slots[p].pc.np);
    case Copied => KnownAt(s, s.slots[p].pc.np);
    case SetParent => KnownAt(s, s.slots[p].pc.np);
    case MakeRunnable => KnownAt(s, s.slots[p].pc.np);
  }

  lemma ForkSlots(s: State, c: nat, p: nat, step: ForkStep, q: nat)
    requires ForkEnabled(s, c, p, step) && Whereabouts(s) && q < |s.slots|
    ensures |ForkDo(s, c, p, step).slots| == |s.slots| && SlotOk(ForkDo(s, c, p, step), q)
  {
    hide Whereabouts, OneForker, InitOk;
    CoreAt(s, c);
    Basics(s);
    KnownAt(s, q);
    match step
    case Alloc(np) => KnownAt(s, np);
    case Fail => KnownAt(s, s.slots[p].pc.np);
    case Copied => KnownAt(s, s.slots[p].pc.np);
    case SetParent => KnownAt(s, s.slots[p].pc.np);
    case MakeRunnable => KnownAt(s, s.slots[p].pc.np);
  }

  lemma ForkForks(s: State, c: nat, p: nat, step: ForkStep, q: nat)
    requires ForkEnabled(s, c, p, step) && Whereabouts(s) && q < |s.slots|
    ensures |ForkDo(s, c, p, step).slots| == |s.slots| && ForkOkay(ForkDo(s, c, p, step), q)
  {
    hide Whereabouts, OneForker, WaitLockOk, HoldsWait, Exiting, StateAt, ForkDo;
    CoreAt(s, c);
    Basics(s);
    KnownAt(s, q);
    var np := Forked(s, p, step);
    KnownAt(s, np);
    ForkEffect(s, c, p, step, q);
    var x := s.slots[q];
    if Forks(x.pc) {
      ForkEffect(s, c, p, step, Place(x.pc).np);
      if q != p && Place(x.pc).np == np && Forking(s.slots[p], np) {
        SameForker(s, p, q, np);
      }
    }
    ForkEffect(s, c, p, step, np);
  }

  lemma ForkBasics(s: State, c: nat, p: nat, step: ForkStep)
    requires ForkEnabled(s, c, p, step) && Whereabouts(s)
    ensures WaitLockOk(ForkDo(s, c, p, step)) && InitOk(ForkDo(s, c, p, step))
  {
    hide Whereabouts, OneForker, ForkDo;
    CoreAt(s, c);
    Basics(s);
    KnownAt(s, s.init);
    KnownAt(s, Forked(s, p, step));
    KnownAt(s, p);
    ForkEffect(s, c, p, step, s.init);
    if s.waitLock.Cpu? {
      ForkEffect(s, c, p, step, s.cores[s.waitLock.c].ctx.p);
    }
  }

  lemma ForkForkers(s: State, c: nat, p: nat, step: ForkStep)
    requires ForkEnabled(s, c, p, step) && Whereabouts(s)
    ensures OneForker(ForkDo(s, c, p, step))
  {
    hide Whereabouts, SlotOk, CoreOk;
    var t := ForkDo(s, c, p, step);
    forall a, b, np | 0 <= a < |t.slots| && 0 <= b < |t.slots| && Forking(t.slots[a], np) && Forking(t.slots[b], np)
      ensures a == b
    {
      KnownAt(s, a);
      KnownAt(s, b);
      if Forking(s.slots[a], np) && Forking(s.slots[b], np) {
        SameForker(s, a, b, np);
      }
    }
  }

  lemma ForkKeeps(s: State, c: nat, p: nat, step: ForkStep)
    requires ForkEnabled(s, c, p, step) && Whereabouts(s)
    ensures Whereabouts(ForkDo(s, c, p, step))
  {
    hide CoreOk, SlotOk, ForkOkay, OneForker, WaitLockOk, ForkDo;
    var t := ForkDo(s, c, p, step);
    ForkBasics(s, c, p, step);
    ForkForkers(s, c, p, step);
    forall d: nat | d < |t.cores|
      ensures CoreOk(t, d)
    {
      ForkCores(s, c, p, step, if d < |s.cores| then d else c);
    }
    forall q: nat | q < |t.slots|
      ensures SlotOk(t, q) && ForkOkay(t, q)
    {
      ForkSlots(s, c, p, step, if q < |s.slots| then q else s.init);
      ForkForks(s, c, p, step, if q < |s.slots| then q else s.init);
    }
  }

  lemma ExitCores(s: State, c: nat, p: nat, step: ExitStep, d: nat)
    requires ExitEnabled(s, c, p, step) && Whereabouts(s) && d < |s.cores|
    ensures |ExitDo(s, c, p, step).cores| == |s.cores| && CoreOk(ExitDo(s, c, p, step), d)
  {
    hide Whereabouts, OneForker;
    CoreAt(s, c);
    CoreAt(s, d);
    match step
    case Begin =>
    case Acquire =>
    case Scan => if s.slots[p].pc.i < |s.slots| { KnownAt(s, s.slots[p].pc.i); }
    case WakeNext => if s.slots[p].pc.j < |s.slots| { KnownAt(s, s.slots[p].pc.j); }
    case BecomeZombie =>
    case Unlock =>
  }

  lemma ExitSlots(s: State, c: nat, p: nat, step: ExitStep, q: nat)
    requires ExitEnabled(s, c, p, step) && Whereabouts(s) && q < |s.slots|
    ensures |ExitDo(s, c, p, step).slots| == |s.slots| && SlotOk(ExitDo(s, c, p, step), q)
  {
    hide Whereabouts, OneForker, InitOk, ForkOkay, WaitLockOk;
    CoreAt(s, c);
    KnownAt(s, q);
    WaitOthers(s, c, q);
    if q == p {
      ExitOwnSlot(s, c, p, step);
    } else {
      ExitOtherSlot(s, c, p, step, q);
    }
  }

  lemma ExitForks(s: State, c: nat, p: nat, step: ExitStep, q: nat)
    requires ExitEnabled(s, c, p, step) && Whereabouts(s) && q < |s.slots|
    ensures |ExitDo(s, c, p, step).slots| == |s.slots| && ForkOkay(ExitDo(s, c, p, step), q)
  {
    hide Whereabouts, OneForker, WaitLockOk, HoldsWait, Exiting, StateAt, InitOk, ExitDo;
    CoreAt(s, c);
    KnownAt(s, q);
    var x := s.slots[q];
    ExitEffect(s, c, p, step, q);
    if Forks(x.pc) {
      ExitEffect(s, c, p, step, Place(x.pc).np);
    }
  }

  lemma ExitBasics(s: State, c: nat, p: nat, step: ExitStep)
    requires ExitEnabled(s, c, p, step) && Whereabouts(s)
    ensures WaitLockOk(ExitDo(s, c, p, step)) && InitOk(ExitDo(s, c, p, step))
  {
    hide Whereabouts, OneForker;
    CoreAt(s, c);
    Basics(s);
    KnownAt(s, s.init);
    match step
    case Begin =>
    case Acquire =>
    case Scan => if s.slots[p].pc.i < |s.slots| { KnownAt(s, s.slots[p].pc.i); }
    case WakeNext => if s.slots[p].pc.j < |s.slots| { KnownAt(s, s.slots[p].pc.j); }
    case BecomeZombie =>
    case Unlock =>
  }

  lemma ExitForkers(s: State, c: nat, p: nat, step: ExitStep)
    requires ExitEnabled(s, c, p, step) && Whereabouts(s)
    ensures OneForker(ExitDo(s, c, p, step))
  {
    hide Whereabouts, ExitDo, Place;
    var t := ExitDo(s, c, p, step);
    ExitEffect(s, c, p, step, p);
    forall a, b, np | 0 <= a < |t.slots| && 0 <= b < |t.slots| && Forking(t.slots[a], np) && Forking(t.slots[b], np)
      ensures a == b
    {
      ExitEffect(s, c, p, step, a);
      ExitEffect(s, c, p, step, b);
      SameForker(s, a, b, np);
    }
  }

  lemma ExitKeeps(s: State, c: nat, p: nat, step: ExitStep)
    requires ExitEnabled(s, c, p, step) && Whereabouts(s)
    ensures Whereabouts(ExitDo(s, c, p, step))
  {
    hide CoreOk, SlotOk, ForkOkay, OneForker, WaitLockOk, ExitDo;
    var t := ExitDo(s, c, p, step);
    ExitBasics(s, c, p, step);
    ExitForkers(s, c, p, step);
    forall d: nat | d < |t.cores|
      ensures CoreOk(t, d)
    {
      ExitCores(s, c, p, step, if d < |s.cores| then d else c);
    }
    forall q: nat | q < |t.slots|
      ensures SlotOk(t, q) && ForkOkay(t, q)
    {
      ExitSlots(s, c, p, step, if q < |s.slots| then q else s.init);
      ExitForks(s, c, p, step, if q < |s.slots| then q else s.init);
    }
  }

  lemma WaitCores(s: State, c: nat, p: nat, step: WaitStep, d: nat)
    requires WaitEnabled(s, c, p, step) && Whereabouts(s) && d < |s.cores|
    ensures |WaitDo(s, c, p, step).cores| == |s.cores| && CoreOk(WaitDo(s, c, p, step), d)
  {
    hide Whereabouts, OneForker;
    CoreAt(s, c);
    CoreAt(s, d);
    match step
    case Start =>
    case Lock =>
    case Next =>
    case Reap => KnownAt(s, s.slots[p].pc.i);
    case Fault =>
    case GiveUp =>
    case Block =>
    case Doze =>
  }

  lemma WaitSlots(s: State, c: nat, p: nat, step: WaitStep, q: nat)
    requires WaitEnabled(s, c, p, step) && Whereabouts(s) && q < |s.slots|
    ensures |WaitDo(s, c, p, step).slots| == |s.slots| && SlotOk(WaitDo(s, c, p, step), q)
  {
    hide Whereabouts, OneForker, InitOk;
    CoreAt(s, c);
    Basics(s);
    KnownAt(s, q);
    match step
    case Start =>
    case Lock =>
    case Next =>
    case Reap => KnownAt(s, s.slots[p].pc.i);
    case Fault =>
    case GiveUp =>
    case Block =>
    case Doze =>
  }

  lemma WaitForks(s: State, c: nat, p: nat, step: WaitStep, q: nat)
    requires WaitEnabled(s, c, p, step) && Whereabouts(s) && q < |s.slots|
    ensures |WaitDo(s, c, p, step).slots| == |s.slots| && ForkOkay(WaitDo(s, c, p, step), q)
  {
    hide Whereabouts, OneForker, WaitLockOk, HoldsWait, Exiting, StateAt;
    CoreAt(s, c);
    Basics(s);
    KnownAt(s, q);
    match step
    case Start =>
    case Lock =>
    case Next =>
    case Reap => KnownAt(s, s.slots[p].pc.i);
    case Fault =>
    case GiveUp =>
    case Block =>
    case Doze =>
  }

  lemma WaitBasics(s: State, c: nat, p: nat, step: WaitStep)
    requires WaitEnabled(s, c, p, step) && Whereabouts(s)
    ensures WaitLockOk(WaitDo(s, c, p, step)) && InitOk(WaitDo(s, c, p, step))
  {
    hide Whereabouts, OneForker;
    CoreAt(s, c);
    Basics(s);
    KnownAt(s, s.init);
    match step
    case Start =>
    case Lock =>
    case Next =>
    case Reap => KnownAt(s, s.slots[p].pc.i);
    case Fault =>
    case GiveUp =>
    case Block =>
    case Doze =>
  }

  lemma WaitForkers(s: State, c: nat, p: nat, step: WaitStep)
    requires WaitEnabled(s, c, p, step) && Whereabouts(s)
    ensures OneForker(WaitDo(s, c, p, step))
  {
    hide Whereabouts;
    var t := WaitDo(s, c, p, step);
    forall a, b, np | 0 <= a < |t.slots| && 0 <= b < |t.slots| && Forking(t.slots[a], np) && Forking(t.slots[b], np)
      ensures a == b
    {
      SameForker(s, a, b, np);
    }
  }

  lemma WaitKeeps(s: State, c: nat, p: nat, step: WaitStep)
    requires WaitEnabled(s, c, p, step) && Whereabouts(s)
    ensures Whereabouts(WaitDo(s, c, p, step))
  {
    hide CoreOk, SlotOk, ForkOkay, OneForker, WaitLockOk, WaitDo;
    var t := WaitDo(s, c, p, step);
    WaitBasics(s, c, p, step);
    WaitForkers(s, c, p, step);
    forall d: nat | d < |t.cores|
      ensures CoreOk(t, d)
    {
      WaitCores(s, c, p, step, if d < |s.cores| then d else c);
    }
    forall q: nat | q < |t.slots|
      ensures SlotOk(t, q) && ForkOkay(t, q)
    {
      WaitSlots(s, c, p, step, if q < |s.slots| then q else s.init);
      WaitForks(s, c, p, step, if q < |s.slots| then q else s.init);
    }
  }
}
