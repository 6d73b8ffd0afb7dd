/** Pipes (kernel/pipe.c): a ring of PIPESIZE bytes with 32-bit counters that wrap, and any number of readers and
    writers that sleep and wake each other under the pipe's lock. */
module Pipe {
  import opened Blocks
  import opened Values

  const PIPESIZE: nat := 512

  datatype Ring = Ring(data: seq<byte>, nread: nat, nwrite: nat)

  predicate Sized(r: Ring) {
    |r.data| == PIPESIZE && r.nread < TWO32 && r.nwrite < TWO32
  }

  function Inc(i: nat): (j: nat)
    requires i < TWO32
    ensures j < TWO32
  {
    (i + 1) % TWO32
  }

  predicate IsFull(r: Ring) {
    r.nwrite == (r.nread + PIPESIZE) % TWO32
  }

  predicate IsEmpty(r: Ring) {
    r.nread == r.nwrite
  }

  function Put(r: Ring, b: byte): (s: Ring)
    requires Sized(r)
  {
    r.(data := r.data[r.nwrite % PIPESIZE := b], nwrite := Inc(r.nwrite))
  }

  function Front(r: Ring): (b: byte)
    requires Sized(r)
  {
    r.data[r.nread % PIPESIZE]
  }

  function Drop(r: Ring): (s: Ring)
    requires Sized(r)
  {
    r.(nread := Inc(r.nread))
  }

  // ----- the bytes in the pipe -----

  /** q is what the pipe holds, oldest first. */
  ghost predicate Holds(r: Ring, q: seq<byte>) {
    && Sized(r) && |q| <= PIPESIZE && r.nwrite == (r.nread + |q|) % TWO32
    && forall k :: 0 <= k < |q| ==> r.data[(r.nread + k) % PIPESIZE] == q[k]
  }

  lemma Counts(r: Ring, q: seq<byte>)
    requires Holds(r, q)
    ensures IsEmpty(r) <==> q == []
    ensures IsFull(r) <==> |q| == PIPESIZE
    ensures |q| == (r.nwrite + TWO32 - r.nread) % TWO32
  {
  }

  lemma SlotOf(from: nat, k: nat)
    ensures ((from + k) % TWO32) % PIPESIZE == (from + k) % PIPESIZE
  {
  }

  lemma SlotsDiffer(from: nat, j: nat, k: nat)
    requires j < k < j + PIPESIZE
    ensures (from + j) % PIPESIZE != (from + k) % PIPESIZE
  {
  }

  lemma NextCount(from: nat, k: nat)
    ensures Inc((from + k) % TWO32) == (from + k + 1) % TWO32
  {
  }

  lemma PutHolds(r: Ring, q: seq<byte>, b: byte)
    requires Holds(r, q) && !IsFull(r)
    ensures Holds(Put(r, b), q + [b])
  {
    hide Inc, IsFull;
    assert |q| < PIPESIZE by {
      Counts(r, q);
    }
    SlotOf(r.nread, |q|);
    NextCount(r.nread, |q|);
    var s, q', at := Put(r, b), q + [b], (r.nread + |q|) % PIPESIZE;
    assert s.data == r.data[at := b];
    forall k | 0 <= k < |q'|
      ensures s.data[(s.nread + k) % PIPESIZE] == q'[k]
    {
      if k < |q| {
        SlotsDiffer(r.nread, k, |q|);
      }
    }
  }

  lemma DropHolds(r: Ring, q: seq<byte>)
    requires Holds(r, q) && !IsEmpty(r)
    ensures q != [] && Front(r) == q[0] && Holds(Drop(r), q[1..])
  {
    Counts(r, q);
    assert r.data[(r.nread + 0) % PIPESIZE] == q[0];
    var s := Drop(r);
    DropCount(r.nread, |q|);
    forall k | 0 <= k < |q| - 1
      ensures s.data[(s.nread + k) % PIPESIZE] == q[1..][k]
    {
      NextSlot(r.nread, k);
      assert q[1..][k] == q[k + 1];
    }
  }

  lemma NextSlot(from: nat, k: nat)
    requires from < TWO32
    ensures (Inc(from) + k) % PIPESIZE == (from + (k + 1)) % PIPESIZE
  {
    if from + 1 == TWO32 {
      assert TWO32 + k == PIPESIZE * 0x80_0000 + k;
    }
  }

  lemma DropCount(from: nat, n: nat)
    requires from < TWO32 && n > 0
    ensures (Inc(from) + (n - 1)) % TWO32 == (from + n) % TWO32
  {
  }

  // ----- readers and writers -----

  /** Waiting for the pipe's lock; in the loop, holding it; asleep. */
  datatype PC = Want | Loop | Asleep

  /** A thread in pipewrite has stored i bytes of src, and stored some since it last woke the readers if unsaid. A
      thread in piperead may still be waiting for data, or be copying its i-th of n bytes. */
  datatype Thread =
    | Idle
    | Writer(pc: PC, src: seq<byte>, i: nat, unsaid: bool)
    | Reader(pc: PC, n: nat, i: nat, copying: bool)

  /** stored and taken are all bytes ever put into and got out of the pipe. */
  datatype Sys = Sys(ring: Ring, readopen: bool, writeopen: bool, lock: Option<nat>, threads: seq<Thread>,
                     killed: seq<bool>, stored: seq<byte>, taken: seq<byte>)

  /** copied: copyin or copyout did not fail; sees: killed() was true, which a kill after the test does not change. */
  datatype Step =
    | StartWrite(src: seq<byte>) | StartRead(n: nat) | Acquire
    | WriteGo(copied: bool, sees: bool) | ReadGo(copied: bool, sees: bool)
    | CloseWrite | CloseRead | Kill

  function WithPc(x: Thread, pc: PC): (y: Thread) {
    match x
    case Idle => Idle
    case Writer(_, src, i, unsaid) => Writer(pc, src, i, unsaid)
    case Reader(_, n, i, copying) => Reader(pc, n, i, copying)
  }

  function WakeReader(x: Thread): (y: Thread) {
    if x.Reader? && x.pc.Asleep? then WithPc(x, Want) else x
  }

  function WakeWriter(x: Thread): (y: Thread) {
    if x.Writer? && x.pc.Asleep? then WithPc(x, Want) else x
  }

  /** wakeup(&pi->nread): sleeping readers want the lock again. */
  function WakeReaders(ts: seq<Thread>): (us: seq<Thread>)
    ensures |us| == |ts|
  {
    seq(|ts|, i requires 0 <= i < |ts| => WakeReader(ts[i]))
  }

  function WakeWriters(ts: seq<Thread>): (us: seq<Thread>)
    ensures |us| == |ts|
  {
    seq(|ts|, i requires 0 <= i < |ts| => WakeWriter(ts[i]))
  }

  predicate Enabled(s: Sys, t: nat, step: Step) {
    t < |s.threads| == |s.killed| && Sized(s.ring) &&
    var x := s.threads[t];
    match step
    case StartWrite(_) => x.Idle?
    case StartRead(_) => x.Idle?
    case Acquire => !x.Idle? && x.pc.Want? && s.lock.None?
    case WriteGo(_, sees) => x.Writer? && x.pc.Loop? && s.lock == Some(t) && (sees ==> s.killed[t])
    case ReadGo(_, sees) => x.Reader? && x.pc.Loop? && s.lock == Some(t) && (sees ==> s.killed[t])
    case CloseWrite => s.lock.None?
    case CloseRead => s.lock.None?
    case Kill => true
  }

  /** One round of pipewrite's loop, or its end. */
  function WriteStep(s: Sys, t: nat, copied: bool, sees: bool): (u: Sys)
    requires Enabled(s, t, WriteGo(copied, sees))
  {
    var x := s.threads[t];
    if x.i < |x.src| && (!s.readopen || sees) then
      s.(lock := None, threads := s.threads[t := Idle])
    else if x.i < |x.src| && IsFull(s.ring) then
      s.(lock := None, threads := WakeReaders(s.threads)[t := Writer(Asleep, x.src, x.i, false)])
    else if x.i < |x.src| && copied then
      s.(ring := Put(s.ring, x.src[x.i]), stored := s.stored + [x.src[x.i]],
         threads := s.threads[t := Writer(Loop, x.src, x.i + 1, true)])
    else s.(lock := None, threads := WakeReaders(s.threads)[t := Idle])
  }

  /** One round of piperead's loops, or its end. */
  function ReadStep(s: Sys, t: nat, copied: bool, sees: bool): (u: Sys)
    requires Enabled(s, t, ReadGo(copied, sees))
  {
    var x := s.threads[t];
    if !x.copying && IsEmpty(s.ring) && s.writeopen then
      if sees then s.(lock := None, threads := s.threads[t := Idle])
      else s.(lock := None, threads := s.threads[t := WithPc(x, Asleep)])
    else if x.i < x.n && !IsEmpty(s.ring) then
      var b := Front(s.ring);
      var v := s.(ring := Drop(s.ring), taken := s.taken + [b]);
      if copied then v.(threads := s.threads[t := Reader(Loop, x.n, x.i + 1, true)])
      else v.(lock := None, threads := WakeWriters(s.threads)[t := Idle])
    else s.(lock := None, threads := WakeWriters(s.threads)[t := Idle])
  }

  function Do(s: Sys, t: nat, step: Step): (u: Sys)
    requires Enabled(s, t, step)
  {
    var x := s.threads[t];
    match step
    case StartWrite(src) => s.(threads := s.threads[t := Writer(Want, src, 0, false)])
    case StartRead(n) => s.(threads := s.threads[t := Reader(Want, n, 0, false)])
    case Acquire => s.(lock := Some(t), threads := s.threads[t := WithPc(x, Loop)])
    case WriteGo(copied, sees) => WriteStep(s, t, copied, sees)
    case ReadGo(copied, sees) => ReadStep(s, t, copied, sees)
    case CloseWrite => s.(writeopen := false, threads := WakeReaders(s.threads))
    case CloseRead => s.(readopen := false, threads := WakeWriters(s.threads))
    case Kill =>
      s.(killed := s.killed[t := true], threads := if !x.Idle? && x.pc.Asleep? then s.threads[t := WithPc(x, Want)]
        else s.threads)
  }

  // ----- the invariant -----

  /** What has been taken is, in order, the beginning of what has been stored; the rest is in the ring. */
  ghost predicate InOrder(s: Sys) {
    |s.taken| <= |s.stored| && s.taken == s.stored[..|s.taken|] && Holds(s.ring, s.stored[|s.taken|..])
  }

  /** Exactly the holder of the lock is in its loop; a reader that is copying has it. */
  predicate Locked(s: Sys, t: nat)
    requires t < |s.threads|
  {
    var x := s.threads[t];
    && (!x.Idle? && x.pc.Loop? <==> s.lock == Some(t))
    && (x.Reader? && x.copying ==> s.lock == Some(t))
    && (x.Writer? && x.unsaid ==> s.lock == Some(t)) && (x.Writer? ==> x.i <= |x.src|)
  }

  /** A reader that is taking bytes out will wake the writers before it lets go of the lock. */
  ghost predicate Taking(s: Sys) {
    s.lock.Some? && s.lock.value < |s.threads| && s.threads[s.lock.value].Reader? && s.threads[s.lock.value].copying
  }

  ghost predicate Telling(s: Sys) {
    s.lock.Some? && s.lock.value < |s.threads| && s.threads[s.lock.value].Writer? && s.threads[s.lock.value].unsaid
  }

  /** A sleeping writer has reason to: the pipe is full and someone may still read. */
  ghost predicate WriterOk(s: Sys, t: nat)
    requires t < |s.threads|
  {
    s.threads[t].Writer? && s.threads[t].pc.Asleep? ==> s.readopen && (IsFull(s.ring) || Taking(s))
  }

  predicate Sleeping(s: Sys, t: nat)
    requires t < |s.threads|
  {
    s.threads[t].Reader? && s.threads[t].pc.Asleep?
  }

  /** Readers sleep only while someone may still write. */
  ghost predicate ReaderOk(s: Sys, t: nat)
    requires t < |s.threads|
  {
    Sleeping(s, t) ==> s.writeopen
  }

  /** A writer with bytes to tell about has put them into the pipe, for someone to read. */
  ghost predicate TellOk(s: Sys) {
    Telling(s) ==> !IsEmpty(s.ring) && s.readopen
  }

  ghost predicate Inv(s: Sys) {
    && InOrder(s) && |s.threads| == |s.killed| && (s.lock.Some? ==> s.lock.value < |s.threads|) && TellOk(s)
    && (forall t: nat :: t < |s.threads| ==> Locked(s, t) && WriterOk(s, t) && ReaderOk(s, t))
  }

  lemma WriteKeeps(s: Sys, t: nat, copied: bool, sees: bool)
    requires Inv(s) && Enabled(s, t, WriteGo(copied, sees))
    ensures Inv(WriteStep(s, t, copied, sees))
  {
    hide Holds;
    var x, u := s.threads[t], WriteStep(s, t, copied, sees);
    assert Locked(s, t);
    if x.i < |x.src| && s.readopen && !sees && !IsFull(s.ring) && copied {
      var q := s.stored[|s.taken|..];
      Counts(Put(s.ring, x.src[x.i]), q + [x.src[x.i]]) by { PutHolds(s.ring, q, x.src[x.i]); }
      PutHolds(s.ring, q, x.src[x.i]);
      assert u.stored[|u.taken|..] == q + [x.src[x.i]];
      assert u.stored[..|u.taken|] == s.stored[..|s.taken|];
    }
    forall j: nat | j < |u.threads|
      ensures Locked(u, j) && WriterOk(u, j) && ReaderOk(u, j)
    {
      assert Locked(s, j) && WriterOk(s, j) && ReaderOk(s, j);
    }
  }

  lemma ReadKeeps(s: Sys, t: nat, copied: bool, sees: bool)
    requires Inv(s) && Enabled(s, t, ReadGo(copied, sees))
    ensures Inv(ReadStep(s, t, copied, sees))
  {
    hide Holds, Front, Drop;
    var x, u := s.threads[t], ReadStep(s, t, copied, sees);
    assert Locked(s, t);
    if !(!x.copying && IsEmpty(s.ring) && s.writeopen) && x.i < x.n && !IsEmpty(s.ring) {
      var q := s.stored[|s.taken|..];
      DropHolds(s.ring, q);
      assert q[0] == s.stored[|s.taken|] && s.stored[|s.taken| + 1..] == q[1..];
      assert s.stored[..|s.taken| + 1] == s.stored[..|s.taken|] + [q[0]];
    }
    forall j: nat | j < |u.threads|
      ensures Locked(u, j) && WriterOk(u, j) && ReaderOk(u, j)
    {
      assert Locked(s, j) && WriterOk(s, j) && ReaderOk(s, j);
      ReadThread(s, t, copied, sees, j);
    }
  }

  lemma ReadThread(s: Sys, t: nat, copied: bool, sees: bool, j: nat)
    requires Inv(s) && Enabled(s, t, ReadGo(copied, sees)) && j < |s.threads|
    ensures var u := ReadStep(s, t, copied, sees);
      |u.threads| == |s.threads| && Locked(u, j) && WriterOk(u, j) && ReaderOk(u, j)
  {
    hide InOrder;
    assert Locked(s, t) && Locked(s, j) && WriterOk(s, j) && ReaderOk(s, j);
  }

  lemma OtherKeeps(s: Sys, t: nat, step: Step)
    requires Inv(s) && Enabled(s, t, step) && !step.WriteGo? && !step.ReadGo?
    ensures Inv(Do(s, t, step))
  {
    hide Holds;
    var u := Do(s, t, step);
    assert Locked(s, t);
    forall j: nat | j < |u.threads|
      ensures Locked(u, j) && WriterOk(u, j) && ReaderOk(u, j)
    {
      assert Locked(s, j) && WriterOk(s, j) && ReaderOk(s, j);
    }
  }

  lemma StepInv(s: Sys, t: nat, step: Step)
    requires Inv(s) && Enabled(s, t, step)
    ensures Inv(Do(s, t, step))
  {
    hide Inv;
    match step
    case WriteGo(copied, sees) => WriteKeeps(s, t, copied, sees);
    case ReadGo(copied, sees) => ReadKeeps(s, t, copied, sees);
    case _ => OtherKeeps(s, t, step);
  }

  // ----- every run -----

  ghost predicate Initial(s: Sys) {
    && Sized(s.ring) && s.ring.nread == s.ring.nwrite && s.readopen && s.writeopen && s.lock.None?
    && |s.threads| == |s.killed| && (forall t :: 0 <= t < |s.threads| ==> s.threads[t].Idle?)
    && s.stored == [] && s.taken == []
  }

  ghost predicate Steps(s: Sys, u: Sys) {
    exists t, step :: Enabled(s, t, step) && u == Do(s, t, step)
  }

  ghost predicate IsRun(run: seq<Sys>) {
    run != [] && Initial(run[0]) && forall i :: 0 <= i < |run| - 1 ==> Steps(run[i], run[i + 1])
  }

  lemma {:induction false} RunInv(run: seq<Sys>, n: nat)
    requires IsRun(run) && n < |run|
    ensures Inv(run[n])
  {
    hide Inv, Enabled, Do;
    if n == 0 {
      InitialInv(run[0]);
    } else {
      RunInv(run, n - 1);
      assert Steps(run[n - 1], run[n - 1 + 1]);
      var t, step :| Enabled(run[n - 1], t, step) && run[n] == Do(run[n - 1], t, step);
      StepInv(run[n - 1], t, step);
    }
  }

  lemma InitialInv(s: Sys)
    requires Initial(s)
    ensures Inv(s)
  {
  }

  /** In every run the bytes taken out are in order the first of those stored, and the difference of the counters modulo
      2^32 is the number of bytes in between, never more than PIPESIZE. */
  lemma FirstInFirstOut(run: seq<Sys>, n: nat)
    requires IsRun(run) && n < |run|
    ensures run[n].taken <= run[n].stored
    ensures (run[n].ring.nwrite + TWO32 - run[n].ring.nread) % TWO32 == |run[n].stored| - |run[n].taken| <= PIPESIZE
  {
    hide IsRun;
    RunInv(run, n);
    var s := run[n];
    Counts(s.ring, s.stored[|s.taken|..]);
  }

  /** In every run, while the lock is free, no writer sleeps when there is room or no one left to read. */
  lemma NoStuckWriter(run: seq<Sys>, n: nat, t: nat)
    requires IsRun(run) && n < |run| && run[n].lock.None? && t < |run[n].threads|
    requires run[n].threads[t].Writer? && run[n].threads[t].pc.Asleep?
    ensures IsFull(run[n].ring) && run[n].readopen
  {
    hide IsRun, InOrder;
    RunInv(run, n);
    assert WriterOk(run[n], t);
  }

  // ----- readers -----

  /** A reader sleeps although there is data or no one left to write, and no writer is about to wake it. */
  ghost predicate Stuck(s: Sys) {
    !Telling(s) && (!IsEmpty(s.ring) || !s.writeopen) && exists t: nat :: t < |s.threads| && Sleeping(s, t)
  }

  /** pipewrite's early return by a killed writer that has stored bytes since it last woke the readers, with a reader
      asleep. */
  ghost predicate Strands(s: Sys, t: nat, step: Step)
    requires Enabled(s, t, step)
  {
    step.WriteGo? && s.threads[t].i < |s.threads[t].src| && step.sees && s.threads[t].unsaid
    && exists j: nat :: j < |s.threads| && Sleeping(s, j)
  }

  /** pipewrite goes on, to store a byte or to wake the readers; piperead takes the last byte; the write end is
      closed; or the one reader asleep is killed. */
  ghost predicate Eases(s: Sys, t: nat, step: Step)
    requires Enabled(s, t, step)
  {
    var x := s.threads[t];
    match step
    case WriteGo(_, sees) => !(x.i < |x.src| && (!s.readopen || sees))
    case ReadGo(_, _) => x.i < x.n && Inc(s.ring.nread) == s.ring.nwrite
    case CloseWrite => true
    case Kill => forall j: nat :: j < |s.threads| && Sleeping(s, j) ==> j == t
    case _ => false
  }

  /** Does the step wake every sleeping reader? */
  predicate WakesAll(s: Sys, t: nat, step: Step)
    requires Enabled(s, t, step)
  {
    var x := s.threads[t];
    match step
    case WriteGo(copied, sees) => !(x.i < |x.src| && (!s.readopen || sees)) &&
      !(x.i < |x.src| && !IsFull(s.ring) && copied)
    case CloseWrite => true
    case _ => false
  }

  /** Does it put t itself to sleep, reading? */
  predicate Dozes(s: Sys, t: nat, step: Step)
    requires Enabled(s, t, step)
  {
    step.ReadGo? && !s.threads[t].copying && IsEmpty(s.ring) && s.writeopen && !step.sees
  }

  lemma SleepersAfter(s: Sys, t: nat, step: Step, j: nat)
    requires Inv(s) && Enabled(s, t, step) && j < |s.threads|
    ensures |Do(s, t, step).threads| == |s.threads|
    ensures Sleeping(Do(s, t, step), j) <==>
      (j == t && Dozes(s, t, step)) || (Sleeping(s, j) && !WakesAll(s, t, step) && !(step.Kill? && j == t))
  {
    hide InOrder, IsFull, Put, Front, Drop;
    assert Locked(s, t) && Locked(s, j);
  }

  lemma TellingAfter(s: Sys, t: nat, step: Step)
    requires Inv(s) && Enabled(s, t, step)
    ensures step.WriteGo? ==>
      (Telling(Do(s, t, step)) <==>
        s.threads[t].i < |s.threads[t].src| && s.readopen && !step.sees && !WakesAll(s, t, step))
    ensures !step.WriteGo? ==> (Telling(Do(s, t, step)) <==> Telling(s))
    ensures step.ReadGo? ==> !Telling(s)
    ensures step.WriteGo? ==> (Telling(s) <==> s.threads[t].unsaid)
  {
    hide InOrder, IsFull, Put, Front, Drop;
    assert Locked(s, t);
  }

  /** A reader gets stuck exactly when a killed writer leaves by the early return with bytes untold. */
  lemma StrandsExactly(s: Sys, t: nat, step: Step)
    requires Inv(s) && Enabled(s, t, step) && !Stuck(s)
    ensures Stuck(Do(s, t, step)) <==> Strands(s, t, step)
  {
    hide InOrder, IsFull, Put, Front, Sleeping, Telling;
    var u := Do(s, t, step);
    forall j: nat | j < |s.threads|
      ensures Sleeping(u, j) <==>
        (j == t && Dozes(s, t, step)) || (Sleeping(s, j) && !WakesAll(s, t, step) && !(step.Kill? && j == t))
    {
      SleepersAfter(s, t, step, j);
    }
    SleepersAfter(s, t, step, t);
    TellingAfter(s, t, step);
  }

  /** And it stays stuck until a step eases that. */
  lemma EasesExactly(s: Sys, t: nat, step: Step)
    requires Inv(s) && Enabled(s, t, step) && Stuck(s)
    ensures !Stuck(Do(s, t, step)) <==> Eases(s, t, step)
  {
    hide InOrder, IsFull, Put, Front, Sleeping, Telling;
    var u := Do(s, t, step);
    forall j: nat | j < |s.threads|
      ensures Sleeping(u, j) <==>
        (j == t && Dozes(s, t, step)) || (Sleeping(s, j) && !WakesAll(s, t, step) && !(step.Kill? && j == t))
    {
      SleepersAfter(s, t, step, j);
    }
    SleepersAfter(s, t, step, t);
    TellingAfter(s, t, step);
    var j: nat :| j < |s.threads| && Sleeping(s, j);
    assert ReaderOk(s, j);
  }

  ghost predicate Stranding(s: Sys, u: Sys) {
    exists t, step :: Enabled(s, t, step) && u == Do(s, t, step) && Strands(s, t, step)
  }

  ghost predicate Easing(s: Sys, u: Sys) {
    exists t, step :: Enabled(s, t, step) && u == Do(s, t, step) && Eases(s, t, step)
  }

  /** After k steps of the run readers were stranded, and by step n nothing has eased that. */
  ghost predicate Stranded(run: seq<Sys>, k: nat, n: nat)
    requires k < n < |run|
  {
    Stranding(run[k], run[k + 1]) && forall j :: k < j < n ==> !Easing(run[j], run[j + 1])
  }

  lemma StuckNext(s: Sys, u: Sys)
    requires Inv(s) && Steps(s, u)
    ensures Stuck(s) ==> (Stuck(u) <==> !Easing(s, u)) && !Stranding(s, u)
    ensures !Stuck(s) ==> (Stuck(u) <==> Stranding(s, u))
  {
    hide Inv, Enabled, Do, Stuck, Strands, Eases;
    forall t, step | Enabled(s, t, step) && u == Do(s, t, step)
      ensures !Stuck(s) ==> (Stuck(u) <==> Strands(s, t, step))
      ensures Stuck(s) ==> (!Stuck(u) <==> Eases(s, t, step)) && !Strands(s, t, step)
    {
      if Stuck(s) {
        EasesExactly(s, t, step);
        NotStuckYet(s, t, step);
      } else {
        StrandsExactly(s, t, step);
      }
    }
  }

  lemma NotStuckYet(s: Sys, t: nat, step: Step)
    requires Inv(s) && Enabled(s, t, step)
    ensures Strands(s, t, step) ==> !Stuck(s)
  {
    TellingAfter(s, t, step);
  }

  lemma {:induction false} StuckExactly(run: seq<Sys>, n: nat)
    requires IsRun(run) && n < |run|
    ensures Stuck(run[n]) <==> exists k: nat :: k < n && Stranded(run, k, n)
  {
    hide Steps, Inv, Stuck, Stranding, Easing;
    if n == 0 {
      NotStuckAtFirst(run[0]);
    } else {
      var m := n - 1;
      StuckExactly(run, m);
      RunInv(run, m);
      assert Steps(run[m], run[m + 1]);
      StuckNext(run[m], run[n]);
      if Stuck(run[n]) {
        if Stuck(run[m]) {
          var k: nat :| k < m && Stranded(run, k, m);
          assert Stranded(run, k, n);
        } else {
          assert Stranded(run, m, n);
        }
      }
      forall k: nat | k < n && Stranded(run, k, n)
        ensures Stuck(run[n])
      {
        if k < m { assert Stranded(run, k, m); }
      }
    }
  }

  lemma NotStuckAtFirst(s: Sys)
    requires Initial(s)
    ensures !Stuck(s)
  {
  }

  /** In every run, while the lock is free, a sleeping reader faces an empty pipe that someone may still write to:
      unless a killed writer left with bytes untold while a reader slept, and since then no writer went on, the pipe
      was not emptied, the write end was not closed, and the readers asleep were not killed. Exactly then it sleeps
      on. */
  lemma NoStuckReader(run: seq<Sys>, n: nat, t: nat)
    requires IsRun(run) && n < |run| && run[n].lock.None? && t < |run[n].threads| && Sleeping(run[n], t)
    ensures IsEmpty(run[n].ring) && run[n].writeopen <==> forall k: nat :: k < n ==> !Stranded(run, k, n)
  {
    hide IsRun, Stranded, Sleeping;
    StuckExactly(run, n);
  }

  // ----- it happens -----

  function Empty(): Ring {
    Ring(seq(PIPESIZE, _ => 0), 0, 0)
  }

  function Start(): Sys {
    Sys(Empty(), true, true, None, [Idle, Idle], [false, false], [], [])
  }

  function ReaderAsleep(): Sys {
    Start().(threads := [Reader(Asleep, 1, 0, false), Idle])
  }

  /** Thread 0 goes to sleep reading from the empty pipe. */
  lemma ReaderSleeps() returns (s1: Sys, s2: Sys)
    ensures Initial(Start()) && Steps(Start(), s1) && Steps(s1, s2) && Steps(s2, ReaderAsleep())
  {
    s1 := Do(Start(), 0, StartRead(1));
    s2 := Do(s1, 0, Acquire);
    var s3 := Do(s2, 0, ReadGo(true, false));
    assert s3.threads == [Reader(Asleep, 1, 0, false), Idle];
    assert s3 == ReaderAsleep();
  }

  function WriterIn(): Sys {
    ReaderAsleep().(lock := Some(1), threads := [Reader(Asleep, 1, 0, false), Writer(Loop, [7, 8], 0, false)])
  }

  /** Thread 1 starts to write two bytes. */
  lemma WriterStarts() returns (s: Sys)
    ensures Steps(ReaderAsleep(), s) && Steps(s, WriterIn())
  {
    s := Do(ReaderAsleep(), 1, StartWrite([7, 8]));
    assert s.threads == [Reader(Asleep, 1, 0, false), Writer(Want, [7, 8], 0, false)];
    var u := Do(s, 1, Acquire);
    assert u.threads == WriterIn().threads;
  }

  function OneStored(): Sys {
    WriterIn().(ring := Put(Empty(), 7), stored := [7], killed := [false, true],
                threads := [Reader(Asleep, 1, 0, false), Writer(Loop, [7, 8], 1, true)])
  }

  /** It stores the first and is killed. */
  lemma WriterKilled() returns (s: Sys)
    ensures Steps(WriterIn(), s) && Steps(s, OneStored())
  {
    s := Do(WriterIn(), 1, WriteGo(true, false));
    assert s.threads == OneStored().threads;
    var u := Do(s, 1, Kill);
    assert u.killed == [false, true];
  }

  /** A reader sleeps on the empty pipe; a writer stores the first of two bytes, is killed, and returns: then there is
      data and no one has woken the reader. */
  lemma KilledWriterStrandsReader() returns (run: seq<Sys>)
    ensures IsRun(run) && run[|run| - 1].lock.None? && Stuck(run[|run| - 1])
  {
    hide Put, Initial, Steps;
    var s1, s2 := ReaderSleeps();
    var s4 := WriterStarts();
    var s6 := WriterKilled();
    var s8 := ReaderForgotten();
    run := [Start(), s1, s2, ReaderAsleep(), s4, WriterIn(), s6, OneStored(), s8];
  }

  lemma ReaderForgotten() returns (s: Sys)
    ensures Steps(OneStored(), s) && s.lock.None? && Stuck(s)
  {
    s := Do(OneStored(), 1, WriteGo(true, true));
    assert Sleeping(s, 0);
  }
}
