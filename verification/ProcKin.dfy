/** Parents and children (kernel/proc.c: fork, reparent, exit, wait): no exit is lost, and each is reaped once, by the
    process that is the parent then. */
module ProcKin {
  import opened Proc
  import opened Values

  datatype Kind = Empty | New | Live | Dead

  /** How far a process is in exit or in wait's scan of the table. */
  datatype Stage =
    | Quiet | Reparenting(i: nat) | WakingInit(i: nat, j: nat) | WakingParent(j: nat) | Final | Gone
    | Scanning(i: nat, havekids: bool)

  /** What matters of a slot here. Blocked: asleep in wait, or past the point of no return to that sleep. */
  datatype View = View(kind: Kind, parent: Option<nat>, stage: Stage, blocked: bool)

  function KindOf(st: ProcState): Kind {
    match st
    case UNUSED => Empty
    case USED => New
    case ZOMBIE => Dead
    case _ => Live
  }

  function StageOf(pc: PC): Stage {
    match pc
    case ExitReparent(i) => Reparenting(i)
    case ExitWakeInit(i, j) => WakingInit(i, j)
    case ExitWakeParent(j) => WakingParent(j)
    case ExitFinal => Final
    case ExitRelease => Gone
    case Switching(k) => if k.KExit? then Gone else Quiet
    case Saved(k) => if k.KExit? then Gone else Quiet
    case WaitScan(i, h) => Scanning(i, h)
    case _ => Quiet
  }

  predicate Blocked(x: Slot) {
    x.pc.WaitSleep? || (x.state.SLEEPING? && (x.pc == Switching(KWait) || x.pc == Saved(KWait)))
  }

  function ViewOf(x: Slot): View {
    View(KindOf(x.state), x.parent, StageOf(x.pc), Blocked(x))
  }

  function Views(s: State): (v: seq<View>)
    ensures |v| == |s.slots|
  {
    seq(|s.slots|, i requires 0 <= i < |s.slots| => ViewOf(s.slots[i]))
  }

  // ----- the invariant -----

  /** A process that may have the process in slot i as its child. */
  predicate MayParent(x: View, i: nat) {
    x.kind.Live? &&
    match x.stage
    case Reparenting(l) => l <= i
    case WakingInit(l, _) => l < i
    case WakingParent(_) => false
    case Final => false
    case Gone => false
    case _ => true
  }

  /** A parent is alive and has not yet given this child away. Everyone who runs or has exited, except init, has one. */
  predicate ChildOk(v: seq<View>, init: nat, i: nat)
    requires i < |v|
  {
    && (v[i].parent.Some? ==> v[i].parent.value < |v| && v[i].parent.value != i && MayParent(v[v[i].parent.value], i))
    && (v[i].kind.Live? || v[i].kind.Dead? ==> i == init || v[i].parent.Some?)
    && (v[i].kind.Empty? ==> v[i].parent.None?)
  }

  /** Some process is about to wake init. */
  ghost predicate InitCall(v: seq<View>, init: nat) {
    exists q :: 0 <= q < |v| && v[q].stage.WakingInit? && v[q].stage.j <= init
  }

  /** A zombie's parent is not asleep in wait, unless it is init and is about to be woken. */
  ghost predicate ZombieOk(v: seq<View>, init: nat, i: nat)
    requires i < |v|
  {
    v[i].kind.Dead? && v[i].parent.Some? && v[i].parent.value < |v| && v[v[i].parent.value].blocked ==>
      v[i].parent.value == init && InitCall(v, init)
  }

  /** A process that is about to become a zombie has woken its parent. */
  predicate WakeOk(v: seq<View>, q: nat)
    requires q < |v|
  {
    v[q].parent.Some? && v[q].parent.value < |v| ==>
      && (v[q].stage.WakingParent? && v[q].parent.value < v[q].stage.j ==> !v[v[q].parent.value].blocked)
      && (v[q].stage.Final? ==> !v[v[q].parent.value].blocked)
  }

  /** wait has seen the child in slot j, and it was no zombie. */
  predicate ScanOk(v: seq<View>, p: nat, j: nat)
    requires p < |v| && j < |v|
  {
    v[p].stage.Scanning? && j < v[p].stage.i && v[j].parent == Some(p) ==> !v[j].kind.Dead? && v[p].stage.havekids
  }

  predicate HoldsStage(g: Stage) {
    g.Reparenting? || g.WakingInit? || g.WakingParent? || g.Final? || g.Scanning?
  }

  /** Of the processes in these stages, which hold wait_lock, there is at most one. */
  ghost predicate OneHolder(v: seq<View>) {
    forall p, q :: 0 <= p < |v| && 0 <= q < |v| && HoldsStage(v[p].stage) && HoldsStage(v[q].stage) ==> p == q
  }

  ghost predicate Kin(v: seq<View>, init: nat) {
    && init < |v| && v[init].kind.Live? && v[init].parent.None?
    && (forall i: nat :: i < |v| ==> ChildOk(v, init, i))
    && (forall i: nat :: i < |v| ==> ZombieOk(v, init, i))
    && (forall q: nat :: q < |v| ==> WakeOk(v, q))
    && (forall p: nat, j: nat :: p < |v| && j < |v| ==> ScanOk(v, p, j))
  }

  // ----- steps that only wake -----

  lemma KinUnblock(v: seq<View>, w: seq<View>, init: nat)
    requires Kin(v, init) && |w| == |v|
    requires forall q :: 0 <= q < |v| ==> w[q] == v[q].(blocked := w[q].blocked) && (w[q].blocked ==> v[q].blocked)
    ensures Kin(w, init)
  {
    forall i: nat | i < |w|
      ensures ChildOk(w, init, i) && ZombieOk(w, init, i) && WakeOk(w, i)
    {
      assert ChildOk(v, init, i) && ZombieOk(v, init, i) && WakeOk(v, i);
      if InitCall(v, init) {
        var q :| 0 <= q < |v| && v[q].stage.WakingInit? && v[q].stage.j <= init;
        assert w[q].stage == v[q].stage;
      }
    }
    forall p: nat, j: nat | p < |w| && j < |w|
      ensures ScanOk(w, p, j)
    {
      assert ScanOk(v, p, j);
    }
  }

  // ----- fork -----

  lemma KinFork(v: seq<View>, w: seq<View>, init: nat, np: nat, p: nat)
    requires Kin(v, init) && OneHolder(v) && |w| == |v| && np < |v| && p < |v| && np != p && np != init
    requires forall q :: 0 <= q < |v| && q != np ==> w[q] == v[q]
    requires v[p].kind.Live? && v[p].stage.Quiet? && v[np].stage.Quiet? && w[np].stage.Quiet? && !w[np].blocked
    requires (v[np].kind.New? || v[np].kind.Empty?) && !w[np].kind.Dead?
    requires w[np].kind.Empty? ==> w[np].parent.None?
    requires w[np].parent == v[np].parent || w[np].parent.None? || w[np].parent == Some(p)
    requires w[np].kind.Live? ==> w[np].parent.Some?
    requires w[np].parent != v[np].parent && w[np].parent.Some? ==> forall q :: 0 <= q < |v| ==> !HoldsStage(v[q].stage)
    ensures Kin(w, init)
  {
    forall i: nat | i < |w|
      ensures ChildOk(w, init, i) && ZombieOk(w, init, i) && WakeOk(w, i)
    {
      assert ChildOk(v, init, i) && ZombieOk(v, init, i) && WakeOk(v, i);
      if InitCall(v, init) {
        var q :| 0 <= q < |v| && v[q].stage.WakingInit? && v[q].stage.j <= init;
        assert w[q].stage == v[q].stage;
      }
    }
    forall a: nat, j: nat | a < |w| && j < |w|
      ensures ScanOk(w, a, j)
    {
      assert ScanOk(v, a, j);
    }
  }

  // ----- exit and wait: the caller holds wait_lock -----

  /** The caller p moves to another stage; nothing else changes, except that some sleepers may have been woken. */
  ghost predicate Moved(v: seq<View>, w: seq<View>, p: nat, g: Stage) {
    && |w| == |v| && p < |v| && w[p] == v[p].(stage := g)
    && forall q :: 0 <= q < |v| && q != p ==> w[q] == v[q].(blocked := w[q].blocked) && (w[q].blocked ==> v[q].blocked)
  }

  /** No one else is in a stage that holds wait_lock. */
  ghost predicate Alone(v: seq<View>, p: nat) {
    forall q :: 0 <= q < |v| && HoldsStage(v[q].stage) ==> q == p
  }

  predicate Exits(g: Stage) {
    !g.Quiet? && !g.Scanning?
  }

  /** Entering, leaving or moving on in a stage. */
  lemma KinMoved(v: seq<View>, w: seq<View>, init: nat, p: nat, g: Stage)
    requires Kin(v, init) && Moved(v, w, p, g) && Alone(v, p) && !v[p].blocked
    requires forall i :: 0 <= i < |v| && v[i].parent == Some(p) ==> MayParent(w[p], i)
    requires v[p].stage.WakingInit? && v[p].stage.j <= init ==> (g.WakingInit? && g.j <= init) || !w[init].blocked
    requires WakeOk(w, p)
    requires forall j: nat :: j < |w| ==> ScanOk(w, p, j)
    ensures Kin(w, init)
  {
    forall i: nat | i < |w|
      ensures ChildOk(w, init, i) && ZombieOk(w, init, i) && WakeOk(w, i)
    {
      assert ChildOk(v, init, i) && ZombieOk(v, init, i) && WakeOk(v, i);
      if InitCall(v, init) && g.WakingInit? && g.j <= init {
        assert w[p].stage.WakingInit?;
      }
    }
    forall a: nat, j: nat | a < |w| && j < |w|
      ensures ScanOk(w, a, j)
    {
      assert ScanOk(v, a, j);
    }
  }

  /** reparent gives the child in slot i to init, which will be woken. */
  lemma KinReparent(v: seq<View>, w: seq<View>, init: nat, p: nat, i: nat)
    requires Kin(v, init) && Alone(v, p) && p < |v| && i < |v| && p != i && v[p].stage == Reparenting(i)
    requires v[i].parent == Some(p) && !Exits(v[init].stage)
    requires w == v[i := v[i].(parent := Some(init))][p := v[p].(stage := WakingInit(i, 0))]
    ensures Kin(w, init)
  {
    assert ChildOk(v, init, i);
    assert i != init && p != init;
    assert w[p].stage.WakingInit? && w[p].stage.j <= init;
    forall k: nat | k < |w|
      ensures ChildOk(w, init, k) && ZombieOk(w, init, k) && WakeOk(w, k)
    {
      assert ChildOk(v, init, k) && ZombieOk(v, init, k) && WakeOk(v, k);
    }
    forall a: nat, j: nat | a < |w| && j < |w|
      ensures ScanOk(w, a, j)
    {
      assert ScanOk(v, a, j);
    }
  }

  lemma KinZombie(v: seq<View>, w: seq<View>, init: nat, p: nat)
    requires Kin(v, init) && Alone(v, p) && p < |v| && p != init && v[p].stage.Final? && !v[p].blocked
    requires v[p].kind.Live?
    requires w == v[p := v[p].(kind := Dead, stage := Gone)]
    ensures Kin(w, init)
  {
    forall k: nat | k < |w|
      ensures ChildOk(w, init, k) && ZombieOk(w, init, k) && WakeOk(w, k)
    {
      assert ChildOk(v, init, k) && ZombieOk(v, init, k) && WakeOk(v, k);
      if InitCall(v, init) {
        var q :| 0 <= q < |v| && v[q].stage.WakingInit? && v[q].stage.j <= init;
        assert q == p;
      }
    }
    forall a: nat, j: nat | a < |w| && j < |w|
      ensures ScanOk(w, a, j)
    {
      assert ScanOk(v, a, j);
    }
  }

  lemma KinReap(v: seq<View>, w: seq<View>, init: nat, p: nat, i: nat)
    requires Kin(v, init) && Alone(v, p) && p < |v| && i < |v| && i != p && v[p].stage.Scanning? && !v[p].blocked
    requires v[i].kind.Dead? && v[i].parent == Some(p)
    requires w == v[i := View(Empty, None, Quiet, false)][p := v[p].(stage := Quiet)]
    ensures Kin(w, init)
  {
    assert i != init;
    forall k: nat | k < |w|
      ensures ChildOk(w, init, k) && ZombieOk(w, init, k) && WakeOk(w, k)
    {
      assert ChildOk(v, init, k) && ZombieOk(v, init, k) && WakeOk(v, k);
      if InitCall(v, init) {
        var q :| 0 <= q < |v| && v[q].stage.WakingInit? && v[q].stage.j <= init;
        assert q == p;
      }
    }
    forall a: nat, j: nat | a < |w| && j < |w|
      ensures ScanOk(w, a, j)
    {
      assert ScanOk(v, a, j);
    }
  }

  /** wait goes to sleep only when it has seen that no child is a zombie. */
  lemma KinBlock(v: seq<View>, w: seq<View>, init: nat, p: nat)
    requires Kin(v, init) && Alone(v, p) && p < |v| && v[p].stage.Scanning? && v[p].stage.i == |v|
    requires w == v[p := v[p].(stage := Quiet, blocked := true)]
    ensures Kin(w, init)
  {
    forall k: nat | k < |w|
      ensures ChildOk(w, init, k) && ZombieOk(w, init, k) && WakeOk(w, k)
    {
      assert ChildOk(v, init, k) && ZombieOk(v, init, k) && WakeOk(v, k) && ScanOk(v, p, k);
      if InitCall(v, init) {
        var q :| 0 <= q < |v| && v[q].stage.WakingInit? && v[q].stage.j <= init;
        assert q == p;
      }
    }
    forall a: nat, j: nat | a < |w| && j < |w|
      ensures ScanOk(w, a, j)
    {
      assert ScanOk(v, a, j);
    }
  }

  // ----- the whole machine -----

  /** A process asleep in wait sleeps on its own slot. */
  predicate ChanOk(s: State, p: nat)
    requires p < |s.slots|
  {
    var x := s.slots[p];
    x.state.SLEEPING? && (x.pc == Switching(KWait) || x.pc == Saved(KWait)) ==> x.chan == Proc(p)
  }

  /** Every exit from a slot has been reaped, except the one whose zombie is still there. */
  predicate CountOk(s: State, p: nat)
    requires p < |s.slots| && p < |s.exits| && p < |s.reaps|
  {
    s.exits[p] == s.reaps[p] + if s.slots[p].state.ZOMBIE? then 1 else 0
  }

  ghost predicate Inv(s: State) {
    && Whereabouts(s) && Kin(Views(s), s.init) && |s.slots| == |s.exits| == |s.reaps|
    && forall p: nat :: p < |s.slots| ==> ChanOk(s, p) && CountOk(s, p)
  }

  lemma InitialInv(s: State)
    requires Initial(s)
    ensures Inv(s)
  {
  }

  lemma ViewsAlone(s: State, c: nat, p: nat)
    requires Whereabouts(s) && OnThread(s, c, p) && s.waitLock == Cpu(c)
    ensures Alone(Views(s), p)
  {
    hide Whereabouts;
    forall q: nat | q < |s.slots| && HoldsStage(Views(s)[q].stage)
      ensures q == p
    {
      WaitOthers(s, c, q);
    }
  }

  lemma ViewsNone(s: State, c: nat)
    requires Whereabouts(s) && s.waitLock.Nobody? && c < |s.cores|
    ensures forall q :: 0 <= q < |s.slots| ==> !HoldsStage(Views(s)[q].stage)
  {
    hide Whereabouts;
    forall q: nat | q < |s.slots|
      ensures !HoldsStage(Views(s)[q].stage)
    {
      WaitOthers(s, c, q);
    }
  }

  lemma ViewsOne(s: State)
    requires Whereabouts(s)
    ensures OneHolder(Views(s))
  {
    hide Whereabouts;
    Basics(s);
    forall p: nat, q: nat | p < |s.slots| && q < |s.slots| && HoldsStage(Views(s)[p].stage) &&
      HoldsStage(Views(s)[q].stage)
      ensures p == q
    {
      HolderIs(s, p);
      HolderIs(s, q);
    }
  }

  lemma HolderIs(s: State, p: nat)
    requires Whereabouts(s) && p < |s.slots| && HoldsWait(s.slots[p].pc)
    ensures s.waitLock.Cpu? && s.waitLock.c < |s.cores| && s.cores[s.waitLock.c].ctx == Thread(p)
  {
    KnownAt(s, p);
  }

  // ----- each step keeps it -----

  lemma SchedKin(s: State, c: nat, step: SchedStep)
    requires Inv(s) && SchedEnabled(s, c, step)
    ensures Inv(SchedDo(s, c, step))
  {
    hide Whereabouts, Kin;
    var t := SchedDo(s, c, step);
    SchedKeeps(s, c, step);
    CoreAt(s, c);
    forall q: nat | q < |s.slots|
      ensures ViewOf(t.slots[q]) == ViewOf(s.slots[q]).(blocked := Blocked(t.slots[q]))
        && (Blocked(t.slots[q]) ==> Blocked(s.slots[q])) && ChanOk(t, q) && CountOk(t, q)
    {
      KnownAt(s, q);
      assert ChanOk(s, q) && CountOk(s, q);
    }
    KinUnblock(Views(s), Views(t), s.init);
  }

  lemma RunKin(s: State, c: nat, p: nat, step: RunStep)
    requires Inv(s) && RunEnabled(s, c, p, step)
    ensures Inv(RunDo(s, c, p, step))
  {
    hide Whereabouts, Kin;
    var t := RunDo(s, c, p, step);
    RunKeeps(s, c, p, step);
    CoreAt(s, c);
    forall q: nat | q < |s.slots|
      ensures ViewOf(t.slots[q]) == ViewOf(s.slots[q]).(blocked := Blocked(t.slots[q]))
        && (Blocked(t.slots[q]) ==> Blocked(s.slots[q])) && ChanOk(t, q) && CountOk(t, q)
    {
      KnownAt(s, q);
      assert ChanOk(s, q) && CountOk(s, q);
    }
    KinUnblock(Views(s), Views(t), s.init);
  }

  lemma ForkKin(s: State, c: nat, p: nat, step: ForkStep)
    requires Inv(s) && ForkEnabled(s, c, p, step)
    ensures Inv(ForkDo(s, c, p, step))
  {
    hide Whereabouts, Kin, ForkDo, ViewOf;
    var t, np := ForkDo(s, c, p, step), Forked(s, p, step);
    ForkKeeps(s, c, p, step);
    CoreAt(s, c);
    KnownAt(s, np);
    ForkEffect(s, c, p, step, p);
    ForkCounts(s, c, p, step);
    forall q: nat | q < |s.slots|
      ensures ChanOk(t, q) && CountOk(t, q)
    {
      ForkEffect(s, c, p, step, q);
      assert ChanOk(s, q) && CountOk(s, q);
    }
    ForkViews(s, c, p, step);
  }

  /** The forking process and its child, before and after a step of fork. */
  lemma ForkPair(s: State, c: nat, p: nat, step: ForkStep)
    requires Inv(s) && ForkEnabled(s, c, p, step)
    ensures var t, np := ForkDo(s, c, p, step), Forked(s, p, step);
      && np < |s.slots| == |t.slots| && np != p && np != s.init
      && var v, w := ViewOf(s.slots[np]), ViewOf(t.slots[np]);
      && ViewOf(s.slots[p]).kind.Live? && ViewOf(s.slots[p]).stage.Quiet?
      && v.stage.Quiet? && w.stage.Quiet? && !w.blocked && (v.kind.New? || v.kind.Empty?) && !w.kind.Dead?
      && (w.kind.Empty? ==> w.parent.None?) && (w.kind.Live? ==> w.parent.Some?)
      && (w.parent == v.parent || w.parent.None? || (w.parent == Some(p) && step.SetParent?))
  {
    hide Whereabouts, Kin, ForkDo, ChanOk, CountOk;
    CoreAt(s, c);
    KnownAt(s, Forked(s, p, step));
    Basics(s);
    ForkEffect(s, c, p, step, Forked(s, p, step));
  }

  lemma ForkOthers(s: State, c: nat, p: nat, step: ForkStep, q: nat)
    requires ForkEnabled(s, c, p, step) && Forked(s, p, step) != p && q < |s.slots| && q != Forked(s, p, step)
    ensures |ForkDo(s, c, p, step).slots| == |s.slots| && ViewOf(ForkDo(s, c, p, step).slots[q]) == ViewOf(s.slots[q])
  {
    hide ForkDo;
    ForkEffect(s, c, p, step, q);
  }

  lemma ForkViews(s: State, c: nat, p: nat, step: ForkStep)
    requires Inv(s) && ForkEnabled(s, c, p, step)
    ensures Kin(Views(ForkDo(s, c, p, step)), s.init)
  {
    hide Whereabouts, Kin, ForkDo, ChanOk, CountOk, ViewOf;
    var t, np := ForkDo(s, c, p, step), Forked(s, p, step);
    ViewsOne(s);
    if s.waitLock.Nobody? {
      ViewsNone(s, c);
    }
    ForkPair(s, c, p, step);
    forall q: nat | q < |s.slots| && q != np
      ensures ViewOf(t.slots[q]) == ViewOf(s.slots[q])
    {
      ForkOthers(s, c, p, step, q);
    }
    KinFork(Views(s), Views(t), s.init, np, p);
  }

  lemma ForkCounts(s: State, c: nat, p: nat, step: ForkStep)
    requires ForkEnabled(s, c, p, step)
    ensures ForkDo(s, c, p, step).exits == s.exits && ForkDo(s, c, p, step).reaps == s.reaps
  {
  }

  /** Being at a place that holds wait_lock. */
  lemma Holding(s: State, c: nat, p: nat)
    requires Whereabouts(s) && OnThread(s, c, p) && HoldsWait(s.slots[p].pc)
    ensures s.waitLock == Cpu(c) && Alone(Views(s), p) && !Blocked(s.slots[p])
    ensures !s.slots[p].pc.ExitRelease? ==> s.slots[p].state.RUNNING? && s.slots[p].lock.Nobody?
  {
    hide Whereabouts;
    CoreAt(s, c);
    ViewsAlone(s, c, p);
  }

  /** A process asleep in wait whose lock is free is on its channel, so wakeup reaches it. */
  lemma WakeReaches(s: State, j: nat)
    requires Whereabouts(s) && j < |s.slots| && ChanOk(s, j) && s.slots[j].lock.Nobody?
    ensures !Blocked(Woken(s.slots[j], Proc(j)))
  {
    KnownAt(s, j);
  }

  /** Slots other than the caller's: woken at most, or given to init. */
  lemma ExitViews(s: State, c: nat, p: nat, step: ExitStep, q: nat)
    requires Inv(s) && ExitEnabled(s, c, p, step) && q < |s.slots| && q != p
    ensures var t := ExitDo(s, c, p, step);
      && |t.slots| == |t.exits| == |t.reaps| == |s.slots| && t.init == s.init
      && ViewOf(t.slots[q]) == ViewOf(s.slots[q]).(blocked := Blocked(t.slots[q]), parent := t.slots[q].parent)
      && (Blocked(t.slots[q]) ==> Blocked(s.slots[q])) && ChanOk(t, q) && CountOk(t, q)
  {
    hide Whereabouts, Kin;
    assert ChanOk(s, q) && CountOk(s, q);
    ExitEffect(s, c, p, step, q);
  }

  /** No process is its own parent. */
  lemma NotOwnParent(s: State, p: nat)
    requires Inv(s) && p < |s.slots|
    ensures s.slots[p].parent != Some(p)
    ensures s.slots[p].parent.Some? ==> s.slots[p].parent.value < |s.slots|
    ensures ViewOf(s.slots[p]).kind.Live? ==> p == s.init || s.slots[p].parent.Some?
  {
    hide Whereabouts;
    assert ChildOk(Views(s), s.init, p);
  }

  lemma OwnCounts(s: State, c: nat, p: nat)
    requires Inv(s) && OnThread(s, c, p)
    ensures |s.slots| == |s.exits| == |s.reaps| && ChanOk(s, p) && CountOk(s, p) && CoreOk(s, c) && Known(s, p)
  {
    hide Whereabouts, Kin;
    CoreAt(s, c);
  }

  lemma ExitOwn(s: State, c: nat, p: nat, step: ExitStep)
    requires Inv(s) && ExitEnabled(s, c, p, step)
    ensures var t := ExitDo(s, c, p, step);
      |t.slots| == |t.exits| == |t.reaps| == |s.slots| && t.init == s.init && ChanOk(t, p) && CountOk(t, p)
      && ViewOf(t.slots[p]) == ViewOf(s.slots[p]).(stage := StageOf(t.slots[p].pc), kind := KindOf(t.slots[p].state))
  {
    hide Inv, Whereabouts, Kin, ExitDo, ChanOk, CountOk, ViewOf, StageOf, KindOf;
    ExitOwnCounts(s, c, p, step);
    ExitOwnView(s, c, p, step);
  }

  lemma ExitOwnCounts(s: State, c: nat, p: nat, step: ExitStep)
    requires Inv(s) && ExitEnabled(s, c, p, step)
    ensures var t := ExitDo(s, c, p, step);
      |t.slots| == |t.exits| == |t.reaps| == |s.slots| && t.init == s.init && ChanOk(t, p) && CountOk(t, p)
  {
    hide Inv, Whereabouts, Kin, Woken;
    NotOwnParent(s, p);
    OwnCounts(s, c, p);
  }

  lemma ExitOwnView(s: State, c: nat, p: nat, step: ExitStep)
    requires Inv(s) && ExitEnabled(s, c, p, step)
    ensures var t := ExitDo(s, c, p, step);
      |t.slots| == |s.slots|
      && ViewOf(t.slots[p]) == ViewOf(s.slots[p]).(stage := StageOf(t.slots[p].pc), kind := KindOf(t.slots[p].state))
  {
    hide Inv, Whereabouts, Kin, Woken, StageOf, KindOf;
    NotOwnParent(s, p);
  }

  lemma ExitKin(s: State, c: nat, p: nat, step: ExitStep)
    requires Inv(s) && ExitEnabled(s, c, p, step)
    ensures Inv(ExitDo(s, c, p, step))
  {
    hide Whereabouts, Kin, ExitDo, ViewOf;
    var t := ExitDo(s, c, p, step);
    ExitKeeps(s, c, p, step);
    ExitOwn(s, c, p, step);
    forall q: nat | q < |s.slots| && q != p
      ensures ChanOk(t, q) && CountOk(t, q)
    {
      ExitViews(s, c, p, step, q);
    }
    match step
    case Begin => ExitPlain(s, c, p, step);
    case Unlock => ExitPlain(s, c, p, step);
    case Acquire => ExitAcquire(s, c, p);
    case Scan => ExitScan(s, c, p);
    case WakeNext => ExitWake(s, c, p);
    case BecomeZombie => ExitZombie(s, c, p);
  }

  lemma ExitPlain(s: State, c: nat, p: nat, step: ExitStep)
    requires Inv(s) && ExitEnabled(s, c, p, step) && (step.Begin? || step.Unlock?)
    ensures Kin(Views(ExitDo(s, c, p, step)), s.init)
  {
    hide Whereabouts, Kin;
    CoreAt(s, c);
    assert Views(ExitDo(s, c, p, step)) == Views(s);
  }

  lemma ExitAcquire(s: State, c: nat, p: nat)
    requires Inv(s) && ExitEnabled(s, c, p, Acquire)
    ensures Kin(Views(ExitDo(s, c, p, Acquire)), s.init)
  {
    hide Whereabouts, Kin;
    var t := ExitDo(s, c, p, Acquire);
    CoreAt(s, c);
    ViewsNone(s, c);
    LiveChildren(Views(s), s.init, p);
    KinMoved(Views(s), Views(t), s.init, p, Reparenting(0));
  }

  /** While a process is not exiting it may have any children; while it reparents, those it has not come to. */
  lemma LiveChildren(v: seq<View>, init: nat, p: nat)
    requires Kin(v, init) && p < |v|
    ensures forall i :: 0 <= i < |v| && v[i].parent == Some(p) ==> MayParent(v[p], i)
  {
    forall i: nat | i < |v| && v[i].parent == Some(p)
      ensures MayParent(v[p], i)
    {
      assert ChildOk(v, init, i);
    }
  }

  lemma ExitScan(s: State, c: nat, p: nat)
    requires Inv(s) && ExitEnabled(s, c, p, Scan)
    ensures Kin(Views(ExitDo(s, c, p, Scan)), s.init)
  {
    hide Whereabouts, Kin;
    var t, i := ExitDo(s, c, p, Scan), s.slots[p].pc.i;
    Holding(s, c, p);
    LiveChildren(Views(s), s.init, p);
    if i < |s.slots| && s.slots[i].parent == Some(p) {
      NotOwnParent(s, p);
      Basics(s);
      KinReparent(Views(s), Views(t), s.init, p, i);
    } else {
      KinMoved(Views(s), Views(t), s.init, p, StageOf(t.slots[p].pc));
    }
  }

  lemma ExitWake(s: State, c: nat, p: nat)
    requires Inv(s) && ExitEnabled(s, c, p, WakeNext)
    ensures Kin(Views(ExitDo(s, c, p, WakeNext)), s.init)
  {
    hide Whereabouts, Kin;
    if s.slots[p].pc.ExitWakeInit? {
      ExitWakeInitKin(s, c, p);
    } else {
      ExitWakeParentKin(s, c, p);
    }
  }

  lemma ExitWakeInitKin(s: State, c: nat, p: nat)
    requires Inv(s) && ExitEnabled(s, c, p, WakeNext) && s.slots[p].pc.ExitWakeInit?
    ensures Kin(Views(ExitDo(s, c, p, WakeNext)), s.init)
  {
    hide Whereabouts, Kin;
    var t, j := ExitDo(s, c, p, WakeNext), s.slots[p].pc.j;
    Holding(s, c, p);
    LiveChildren(Views(s), s.init, p);
    Basics(s);
    if j < |s.slots| && j != p {
      WakeReaches(s, j);
    }
    KinMoved(Views(s), Views(t), s.init, p, StageOf(t.slots[p].pc));
  }

  lemma ExitWakeParentKin(s: State, c: nat, p: nat)
    requires Inv(s) && ExitEnabled(s, c, p, WakeNext) && s.slots[p].pc.ExitWakeParent?
    ensures Kin(Views(ExitDo(s, c, p, WakeNext)), s.init)
  {
    hide Whereabouts, Kin;
    var t, j := ExitDo(s, c, p, WakeNext), s.slots[p].pc.j;
    Holding(s, c, p);
    LiveChildren(Views(s), s.init, p);
    NotOwnParent(s, p);
    if j < |s.slots| && j != p {
      WakeReaches(s, j);
    }
    WokenParent(s, p);
    KinMoved(Views(s), Views(t), s.init, p, StageOf(t.slots[p].pc));
  }

  lemma WokenParent(s: State, p: nat)
    requires Inv(s) && p < |s.slots|
    ensures WakeOk(Views(s), p)
  {
    hide Whereabouts;
  }

  lemma ExitZombie(s: State, c: nat, p: nat)
    requires Inv(s) && ExitEnabled(s, c, p, BecomeZombie)
    ensures Kin(Views(ExitDo(s, c, p, BecomeZombie)), s.init)
  {
    hide Whereabouts, Kin;
    Holding(s, c, p);
    Basics(s);
    KinZombie(Views(s), Views(ExitDo(s, c, p, BecomeZombie)), s.init, p);
  }

  // ----- wait -----

  lemma WaitCounts(s: State, c: nat, p: nat, step: WaitStep, q: nat)
    requires Inv(s) && WaitEnabled(s, c, p, step) && q < |s.slots|
    ensures var t := WaitDo(s, c, p, step);
      |t.slots| == |t.exits| == |t.reaps| == |s.slots| && t.init == s.init && ChanOk(t, q) && CountOk(t, q)
  {
    hide Whereabouts, Kin;
    CoreAt(s, c);
    assert ChanOk(s, q) && CountOk(s, q);
    if step.Reap? {
      NotOwnParent(s, p);
      assert CountOk(s, s.slots[p].pc.i);
    }
  }

  lemma WaitKin(s: State, c: nat, p: nat, step: WaitStep)
    requires Inv(s) && WaitEnabled(s, c, p, step)
    ensures Inv(WaitDo(s, c, p, step))
  {
    hide Whereabouts, Kin, WaitDo, ViewOf;
    var t := WaitDo(s, c, p, step);
    WaitKeeps(s, c, p, step);
    WaitCounts(s, c, p, step, p);
    forall q: nat | q < |s.slots|
      ensures ChanOk(t, q) && CountOk(t, q)
    {
      WaitCounts(s, c, p, step, q);
    }
    match step
    case Start => WaitPlain(s, c, p, step);
    case Doze => WaitPlain(s, c, p, step);
    case Lock => WaitLockKin(s, c, p);
    case Next => WaitNextKin(s, c, p);
    case Reap => WaitReapKin(s, c, p);
    case Fault => WaitLeaveKin(s, c, p, step);
    case GiveUp => WaitLeaveKin(s, c, p, step);
    case Block => WaitBlockKin(s, c, p);
  }

  lemma WaitPlain(s: State, c: nat, p: nat, step: WaitStep)
    requires Inv(s) && WaitEnabled(s, c, p, step) && (step.Start? || step.Doze?)
    ensures Kin(Views(WaitDo(s, c, p, step)), s.init)
  {
    hide Whereabouts, Kin;
    CoreAt(s, c);
    assert Views(WaitDo(s, c, p, step)) == Views(s);
  }

  lemma WaitLockKin(s: State, c: nat, p: nat)
    requires Inv(s) && WaitEnabled(s, c, p, Lock)
    ensures Kin(Views(WaitDo(s, c, p, Lock)), s.init)
  {
    hide Whereabouts, Kin;
    CoreAt(s, c);
    ViewsNone(s, c);
    LiveChildren(Views(s), s.init, p);
    KinMoved(Views(s), Views(WaitDo(s, c, p, Lock)), s.init, p, Scanning(0, false));
  }

  lemma WaitNextKin(s: State, c: nat, p: nat)
    requires Inv(s) && WaitEnabled(s, c, p, Next)
    ensures Kin(Views(WaitDo(s, c, p, Next)), s.init)
  {
    hide Whereabouts, Kin;
    var t := WaitDo(s, c, p, Next);
    Holding(s, c, p);
    LiveChildren(Views(s), s.init, p);
    forall j: nat | j < |s.slots|
      ensures ScanOk(Views(t), p, j)
    {
      ScanAt(s, p, j);
    }
    KinMoved(Views(s), Views(t), s.init, p, StageOf(t.slots[p].pc));
  }

  lemma ScanAt(s: State, p: nat, j: nat)
    requires Inv(s) && p < |s.slots| && j < |s.slots|
    ensures ScanOk(Views(s), p, j)
  {
    hide Whereabouts;
  }

  lemma WaitReapKin(s: State, c: nat, p: nat)
    requires Inv(s) && WaitEnabled(s, c, p, Reap)
    ensures Kin(Views(WaitDo(s, c, p, Reap)), s.init)
  {
    hide Whereabouts, Kin;
    Holding(s, c, p);
    NotOwnParent(s, p);
    KinReap(Views(s), Views(WaitDo(s, c, p, Reap)), s.init, p, s.slots[p].pc.i);
  }

  lemma WaitLeaveKin(s: State, c: nat, p: nat, step: WaitStep)
    requires Inv(s) && WaitEnabled(s, c, p, step) && (step.Fault? || step.GiveUp?)
    ensures Kin(Views(WaitDo(s, c, p, step)), s.init)
  {
    hide Whereabouts, Kin;
    Holding(s, c, p);
    LiveChildren(Views(s), s.init, p);
    KinMoved(Views(s), Views(WaitDo(s, c, p, step)), s.init, p, Quiet);
  }

  lemma WaitBlockKin(s: State, c: nat, p: nat)
    requires Inv(s) && WaitEnabled(s, c, p, Block)
    ensures Kin(Views(WaitDo(s, c, p, Block)), s.init)
  {
    hide Whereabouts, Kin;
    Holding(s, c, p);
    KinBlock(Views(s), Views(WaitDo(s, c, p, Block)), s.init, p);
  }

  // ----- every run -----

  lemma NextInv(s: State, t: State, c: nat, step: Step)
    requires Inv(s) && NextBy(s, t, c, step)
    ensures Inv(t)
  {
    hide Inv, SchedDo, RunDo, ForkDo, ExitDo, WaitDo;
    match step
    case Sched(a) => SchedKin(s, c, a);
    case Running(a) => RunKin(s, c, s.cores[c].ctx.p, a);
    case Fork(a) => ForkKin(s, c, s.cores[c].ctx.p, a);
    case Exit(a) => ExitKin(s, c, s.cores[c].ctx.p, a);
    case Wait(a) => WaitKin(s, c, s.cores[c].ctx.p, a);
  }

  ghost predicate Steps(s: State, t: State) {
    exists c, step :: NextBy(s, t, c, step)
  }

  ghost predicate IsRun(run: seq<State>) {
    run != [] && Initial(run[0]) && forall i :: 0 <= i < |run| - 1 ==> Steps(run[i], run[i + 1])
  }

  lemma {:induction false} RunInv(run: seq<State>, n: nat)
    requires IsRun(run) && n < |run|
    ensures Inv(run[n])
  {
    hide Inv, Initial, NextBy;
    if n == 0 {
      InitialInv(run[0]);
    } else {
      RunInv(run, n - 1);
      assert Steps(run[n - 1], run[n - 1 + 1]);
      var c, step :| NextBy(run[n - 1], run[n], c, step);
      NextInv(run[n - 1], run[n], c, step);
    }
  }

  // ----- what this means -----

  /** In every run, no two CPUs execute on the same kernel stack, the CPU on a process's stack is the one whose proc
      field names it, and a slot that is free or not yet started has no CPU on its stack. */
  lemma StackExclusive(run: seq<State>, n: nat, c: nat, d: nat, p: nat)
    requires IsRun(run) && n < |run| && c < |run[n].cores| && d < |run[n].cores|
    requires run[n].cores[c].ctx == Thread(p) && run[n].cores[d].ctx == Thread(p)
    ensures c == d && p < |run[n].slots| && run[n].cores[c].proc == Some(p)
    ensures !run[n].slots[p].state.UNUSED? && !run[n].slots[p].state.USED?
    ensures !run[n].slots[p].state.RUNNING? ==> run[n].slots[p].lock == Cpu(c)
  {
    hide Whereabouts, Kin, IsRun;
    RunInv(run, n);
    CoreAt(run[n], c);
    CoreAt(run[n], d);
  }

  /** In every run, while wait_lock is free, no process that sleeps in wait has a zombie child, and every zombie has a
      parent that is alive and can reap it. */
  lemma NoLostExit(run: seq<State>, n: nat, i: nat)
    requires IsRun(run) && n < |run| && i < |run[n].slots| && run[n].slots[i].state.ZOMBIE? && run[n].waitLock.Nobody?
    ensures run[n].slots[i].parent.Some? && run[n].slots[i].parent.value < |run[n].slots|
    ensures var x := run[n].slots[run[n].slots[i].parent.value];
      !Blocked(x) && !x.state.UNUSED? && !x.state.USED? && !x.state.ZOMBIE?
  {
    hide Whereabouts, IsRun;
    var s := run[n];
    RunInv(run, n);
    Basics(s);
    assert ChildOk(Views(s), s.init, i) && ZombieOk(Views(s), s.init, i);
    if InitCall(Views(s), s.init) {
      var q :| 0 <= q < |s.slots| && Views(s)[q].stage.WakingInit? && Views(s)[q].stage.j <= s.init;
      HolderIs(s, q);
    }
  }

  /** In every run, no free, unstarted or zombie slot is anyone's parent. */
  lemma ParentsAlive(run: seq<State>, n: nat, i: nat)
    requires IsRun(run) && n < |run| && i < |run[n].slots| && run[n].slots[i].parent.Some?
    ensures run[n].slots[i].parent.value < |run[n].slots|
    ensures KindOf(run[n].slots[run[n].slots[i].parent.value].state).Live?
  {
    hide Whereabouts, IsRun;
    RunInv(run, n);
    assert ChildOk(Views(run[n]), run[n].init, i);
  }

  /** In every run, each exit from a slot is reaped at most once, and exactly the present zombie is still to be
      reaped. */
  lemma ReapedOnce(run: seq<State>, n: nat, p: nat)
    requires IsRun(run) && n < |run| && p < |run[n].slots|
    ensures p < |run[n].exits| && p < |run[n].reaps|
    ensures run[n].exits[p] == run[n].reaps[p] + if run[n].slots[p].state.ZOMBIE? then 1 else 0
  {
    hide Whereabouts, IsRun, Kin;
    RunInv(run, n);
    assert CountOk(run[n], p);
  }

  lemma ZombieStays(s: State, t: State, c: nat, step: Step, i: nat)
    requires Inv(s) && NextBy(s, t, c, step) && !step.Wait? && i < |s.slots| && s.slots[i].state.ZOMBIE?
    ensures i < |t.slots| && t.slots[i].state.ZOMBIE?
  {
    hide Whereabouts, Kin, ForkDo, ExitDo;
    KnownAt(s, i);
    CoreAt(s, c);
    match step
    case Sched(a) =>
    case Running(a) =>
    case Fork(a) =>
      KnownAt(s, Forked(s, s.cores[c].ctx.p, a));
      ForkEffect(s, c, s.cores[c].ctx.p, a, i);
    case Exit(a) =>
      ExitEffect(s, c, s.cores[c].ctx.p, a, i);
      if i == s.cores[c].ctx.p {
        ExitOwnZombie(s, c, i, a);
      }
  }

  lemma ExitOwnZombie(s: State, c: nat, p: nat, step: ExitStep)
    requires ExitEnabled(s, c, p, step) && s.slots[p].state.ZOMBIE?
    ensures |ExitDo(s, c, p, step).slots| == |s.slots| && ExitDo(s, c, p, step).slots[p].state.ZOMBIE?
  {
  }

  /** A zombie leaves the table only when its parent of that moment reaps it, and no CPU is on its stack then. */
  lemma ReapedByParent(s: State, t: State, c: nat, step: Step, i: nat)
    requires Inv(s) && NextBy(s, t, c, step) && i < |s.slots| && s.slots[i].state.ZOMBIE? && i < |t.slots|
    requires !t.slots[i].state.ZOMBIE?
    ensures step == Wait(Reap) && c < |s.cores| && s.cores[c].ctx.Thread? && s.slots[i].parent == Some(s.cores[c].ctx.p)
    ensures t.slots[i].state.UNUSED?
    ensures forall d :: 0 <= d < |s.cores| ==> s.cores[d].ctx != Thread(i)
  {
    hide Whereabouts, Kin, SchedDo, RunDo, ForkDo, ExitDo;
    if !step.Wait? {
      ZombieStays(s, t, c, step, i);
    }
    KnownAt(s, i);
    CoreAt(s, c);
    forall d: nat | d < |s.cores|
      ensures s.cores[d].ctx != Thread(i)
    {
      CoreAt(s, d);
    }
  }

  /** wait reports that there are no children only if there are none. */
  lemma GiveUpHonest(s: State, c: nat, p: nat, i: nat)
    requires Inv(s) && WaitEnabled(s, c, p, GiveUp) && !s.slots[p].pc.havekids && i < |s.slots|
    ensures s.slots[i].parent != Some(p)
  {
    hide Whereabouts, Kin;
    ScanAt(s, p, i);
  }
}
