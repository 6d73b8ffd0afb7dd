/** The driver's own code (kernel/virtio_disk.c): allocating and freeing descriptors, submitting, and the interrupt
    handler. */
module VirtioCode {
  import opened Virtio
  import opened Values

  class Driver {
    var desc: seq<Desc>
    var free: seq<bool>
    var ops: seq<Command>
    var info: seq<Info>
    var avail: seq<nat>
    var availIdx: nat
    var used: seq<nat>
    var usedIdx: nat
    var seen: nat
    var pending: set<nat>

    function S(): Disk
      reads this
    {
      Disk(desc, free, ops, info, avail, availIdx, used, usedIdx, seen, pending)
    }

    ghost predicate Valid()
      reads this
    {
      Sized(S()) && FreeEmpty(S())
    }

    /** virtio_disk_init's part: zeroed rings, all descriptors free. Runs start here. */
    constructor ()
      ensures Valid() && Initial(Sys(S(), map[], Lock.Free, 0, {}, None, [], []))
    {
      desc, free := seq(NUM, _ => Desc(Nowhere, 0, 0, 0)), seq(NUM, _ => true);
      ops, info := seq(NUM, _ => Command(false, 0)), seq(NUM, _ => Info(None, 0));
      avail, availIdx, used, usedIdx, seen, pending := seq(NUM, _ => 0), 0, seq(NUM, _ => 0), 0, 0, {};
    }

    method AllocDesc() returns (i: int)
      requires Valid()
      modifies `free
      ensures Sized(S())
      ensures if i == -1 then free == old(free) && LowestFree(old(free), 0) == NUM
        else i == LowestFree(old(free), 0) < NUM && free == old(free)[i := false]
    {
      i := 0;
      while i < NUM
        invariant 0 <= i <= NUM && free == old(free) && LowestFree(free, 0) == LowestFree(free, i)
      {
        if free[i] {
          free := free[i := false];
          return;
        }
        i := i + 1;
      }
      i := -1;
    }

    method FreeDesc(i: nat)
      requires Sized(S()) && i < NUM && !free[i]
      modifies this
      ensures S() == Virtio.FreeDesc(old(S()), i)
    {
      desc := desc[i := desc[i].(addr := Nowhere)];
      desc := desc[i := desc[i].(len := 0)];
      desc := desc[i := desc[i].(flags := 0)];
      desc := desc[i := desc[i].(next := 0)];
      free := free[i := true];
    }

    /** Free the three descriptors of the chain that starts at h. */
    method FreeChain(h: nat)
      requires Valid() && IsChain(S(), h)
      modifies this
      ensures Valid() && S() == FreedChain(old(S()), h)
    {
      FreedValid(S(), h);
      var i := h;
      ghost var n := 0;
      ghost var d1 := desc[h].next;
      ghost var d2 := desc[d1].next;
      while true
        invariant Sized(S()) && n <= 2 && i == [h, d1, d2][n]
        invariant S() == [old(S()), Virtio.FreeDesc(old(S()), h), Virtio.FreeDesc(Virtio.FreeDesc(old(S()), h), d1)][n]
        decreases 3 - n
      {
        var x := desc[i];
        FreeDesc(i);
        if HasNext(x) {
          i := x.next;
        } else {
          break;
        }
        n := n + 1;
      }
    }

    /** Take the three lowest free descriptors, or none. */
    method Alloc3Desc() returns (ok: bool, idx: seq<nat>)
      requires Valid()
      modifies this
      ensures ok <==> Triple(old(S())).2 < NUM
      ensures ok ==> idx == First(old(S()), 3) && InRange(idx) && S() == old(S()).(free := Marked(old(free), idx))
      ensures !ok ==> S() == old(S())
    {
      hide Triple, LowestFree;
      ghost var d := S();
      idx := [];
      while |idx| < 3
        invariant |idx| <= 3 && idx == First(d, |idx|) && InRange(idx) && S() == d.(free := Marked(d.free, idx))
        invariant Valid()
      {
        NextLowest(d, |idx|);
        var i := AllocDesc();
        if i < 0 {
          TripleShort(d, |idx|);
          var j := 0;
          while j < |idx|
            invariant 0 <= j <= |idx| && Sized(S())
            invariant S() == d.(free := Marked(d.free, idx[j..]))
          {
            MarkedRest(d, idx, j);
            FreeDesc(idx[j]);
            j := j + 1;
          }
          assert idx[|idx|..] == [];
          return false, [];
        }
        MarkedMore(d.free, idx, i);
        idx := idx + [i];
      }
      ok := true;
      TripleShort(d, 3);
    }

    /** Fill in the chain of a request, field by field. */
    method Format(h: nat, d1: nat, d2: nat, b: nat, cmd: Command)
      requires Sized(S()) && h < NUM && d1 < NUM && d2 < NUM && !free[h] && !free[d1] && !free[d2]
      modifies this
      ensures S() == Formatted(old(S()), h, d1, d2, b, cmd)
    {
      DescsFilled(desc, h, d1, d2, b, cmd.write);
      ops := ops[h := cmd];
      desc := desc[h := Desc(Op(h), 16, F_NEXT, d1)];
      desc := desc[d1 := Desc(Data(b), 1024, if cmd.write then 0 else F_WRITE, desc[d1].next)];
      desc := desc[d1 := desc[d1].(flags := desc[d1].flags + F_NEXT)];
      desc := desc[d1 := desc[d1].(next := d2)];
      info := info[h := info[h].(status := 0xff)];
      desc := desc[d2 := Desc(Status(h), 1, F_WRITE, 0)];
      pending := pending + {b};
      info := info[h := info[h].(b := Some(b))];
      avail := avail[availIdx % NUM := h];
    }

    /** Submit a request for buffer b, if there are descriptors for it: fill in the chain, then publish it. */
    method Submit(b: nat, write: bool, blockno: nat) returns (ok: bool, h: nat)
      requires Valid() && blockno < TWO32
      modifies this
      ensures Valid() && (ok <==> Triple(old(S())).2 < NUM) && (ok <==> ThreeFree(old(free)))
      ensures !ok ==> S() == old(S())
      ensures ok ==> h == Triple(old(S())).0 < NUM
      ensures ok ==> avail[old(availIdx) % NUM] == h && b in pending
      ensures ok ==> Interpret(S(), h) == Some(Job(write, blockno * 2 % 0x1_0000_0000, b, h))
      ensures ok ==> var (a, d1, d2) := Triple(old(S()));
        d1 < NUM && S() ==
          Formatted(old(S()), a, d1, d2, b, Command(write, SectorOf(blockno))).(availIdx := Inc(old(availIdx)))
    {
      hide Triple, LowestFree, Marked, FreeEmpty, Formatted, ThreeFree, Interpret;
      ghost var d := S();
      TripleExact(d);
      var idx;
      ok, idx := Alloc3Desc();
      if !ok {
        return false, 0;
      }
      ThreeMarked(d, idx);
      TripleFree(d);
      h := idx[0];
      var cmd := Command(write, SectorOf(blockno));
      FormattedMarked(d, h, idx[1], idx[2], b, cmd);
      FormattedValid(d, h, idx[1], idx[2], b, cmd);
      Format(h, idx[1], idx[2], b, cmd);
      FormattedJob(d, h, idx[1], idx[2], b, cmd);
      availIdx := Inc(availIdx);
    }

    /** Clear the flag of every buffer whose completion is in the used ring, up to one that the device reported as
        failed: that is the "virtio_disk_intr status" panic. */
    method Intr() returns (panic: bool)
      requires Valid() && Completions(S(), Unread(usedIdx, seen))
      modifies this
      ensures Valid() && (panic <==> FirstBad(old(S()), 0, Unread(usedIdx, old(seen))) < Unread(usedIdx, old(seen)))
      ensures var m := FirstBad(old(S()), 0, Unread(usedIdx, old(seen)));
        S() == old(S()).(seen := (old(seen) + m) % WRAP, pending := old(pending) - DoneBuffers(old(S()), m))
    {
      hide Unread, Inc, DoneBuffers, Completions;
      ghost var d, n := S(), Unread(usedIdx, seen);
      ghost var k := 0;
      assert DoneBuffers(d, 0) == {} by {
        NoneDone(d);
      }
      while seen != usedIdx
        invariant 0 <= k <= n && Valid() && seen == (d.seen + k) % WRAP && k + Unread(usedIdx, seen) == n
        invariant S() == d.(seen := seen, pending := d.pending - DoneBuffers(d, k))
        invariant FirstBad(d, 0, n) == FirstBad(d, k, n)
        decreases n - k
      {
        UnreadStep(S(), d.seen, k);
        EntryAt(d, k);
        var id := used[seen % NUM];
        if info[id].status != 0 {
          return true;
        }
        var b := info[id].b.value;
        DoneMore(d, k);
        pending := pending - {b};
        seen := Inc(seen);
        k := k + 1;
      }
      NoneUnread(S());
      panic := false;
    }
  }

  /** The first 512-byte sector of a block, in 32-bit arithmetic. */
  function SectorOf(blockno: nat): (sector: nat) {
    blockno * 2 % TWO32
  }

  // ----- allocating three -----

  lemma ThreeMarked(d: Disk, idx: seq<nat>)
    requires Sized(d) && idx == First(d, 3) && InRange(idx)
    ensures idx == [Triple(d).0, Triple(d).1, Triple(d).2] && Triple(d).0 < NUM && Triple(d).1 < NUM
    ensures Marked(d.free, idx) == d.free[idx[0] := false][idx[1] := false][idx[2] := false]
  {
    hide Triple;
    assert idx[0] == Triple(d).0 && idx[1] == Triple(d).1 && idx[2] == Triple(d).2;
    var r := d.free[idx[0] := false][idx[1] := false][idx[2] := false];
    forall i | 0 <= i < NUM
      ensures Marked(d.free, idx)[i] == r[i]
    {
    }
  }

  /** The first k of the descriptors in Triple. */
  function First(d: Disk, k: nat): (idx: seq<nat>)
    requires Sized(d) && k <= 3
    ensures |idx| == k
  {
    [Triple(d).0, Triple(d).1, Triple(d).2][..k]
  }

  predicate InRange(idx: seq<nat>) {
    forall i :: 0 <= i < |idx| ==> idx[i] < NUM
  }

  function Marked(free: seq<bool>, idx: seq<nat>): (r: seq<bool>)
    requires |free| == NUM && InRange(idx)
    ensures |r| == NUM
  {
    seq(NUM, i requires 0 <= i < NUM => free[i] && i !in idx)
  }

  lemma MarkedMore(free: seq<bool>, idx: seq<nat>, i: nat)
    requires |free| == NUM && InRange(idx) && i < NUM
    ensures Marked(free, idx + [i]) == Marked(free, idx)[i := false]
  {
  }

  lemma {:induction false} LowestFrom(free: seq<bool>, i: nat, k: nat)
    requires |free| == NUM && i <= k <= NUM && forall j :: i <= j < k ==> !free[j]
    ensures LowestFree(free, i) == LowestFree(free, k)
    decreases k - i
  {
    if i < k {
      LowestFrom(free, i + 1, k);
    }
  }

  lemma {:induction false} LowestSame(free: seq<bool>, r: seq<bool>, k: nat)
    requires |free| == |r| == NUM && k <= NUM && forall j :: k <= j < NUM ==> r[j] == free[j]
    ensures LowestFree(r, k) == LowestFree(free, k)
    decreases NUM - k
  {
    if k < NUM {
      LowestSame(free, r, k + 1);
    }
  }

  /** With the first k taken, the next one is the lowest that is left. */
  lemma NextLowest(d: Disk, k: nat)
    requires Sized(d) && k < 3 && InRange(First(d, k))
    ensures LowestFree(Marked(d.free, First(d, k)), 0) == [Triple(d).0, Triple(d).1, Triple(d).2][k]
    ensures [Triple(d).0, Triple(d).1, Triple(d).2][k] < NUM ==>
      First(d, k + 1) == First(d, k) + [[Triple(d).0, Triple(d).1, Triple(d).2][k]]
  {
    hide Marked, Triple, LowestFree;
    var f, r := First(d, k), Marked(d.free, First(d, k));
    TripleStep(d, k);
    if k > 0 {
      TakenBelow(d, k);
      LowestFrom(r, 0, f[k - 1] + 1);
      LowestSame(d.free, r, f[k - 1] + 1);
    } else {
      assert r == d.free by {
        NoneMarked(d.free);
      }
    }
  }

  lemma NoneMarked(free: seq<bool>)
    requires |free| == NUM
    ensures Marked(free, []) == free
  {
  }

  lemma TripleStep(d: Disk, k: nat)
    requires Sized(d) && k < 3 && InRange(First(d, k))
    ensures [Triple(d).0, Triple(d).1, Triple(d).2][k]
      == LowestFree(d.free, if k == 0 then 0 else First(d, k)[k - 1] + 1)
  {
    if k > 0 {
      assert First(d, k)[k - 1] < NUM;
    }
  }

  /** Up to the last one taken nothing is free any more; above it nothing has changed. */
  lemma TakenBelow(d: Disk, k: nat)
    requires Sized(d) && 0 < k < 3 && InRange(First(d, k))
    ensures var r, top := Marked(d.free, First(d, k)), First(d, k)[k - 1];
      (forall j :: 0 <= j < top + 1 ==> !r[j]) && forall j :: top + 1 <= j < NUM ==> r[j] == d.free[j]
  {
    var f := First(d, k);
    if k == 1 {
      assert f == [Triple(d).0];
    } else {
      assert f[0] == Triple(d).0;
      assert f == [Triple(d).0, Triple(d).1];
    }
  }

  lemma TripleShort(d: Disk, k: nat)
    requires Sized(d) && k <= 3 && InRange(First(d, k)) && (k < 3 ==> [Triple(d).0, Triple(d).1, Triple(d).2][k] == NUM)
    ensures Triple(d).2 < NUM <==> k == 3
  {
    if k == 3 {
      assert First(d, 3)[2] == Triple(d).2;
    }
  }

  lemma MarkedRest(d: Disk, idx: seq<nat>, j: nat)
    requires Sized(d) && FreeEmpty(d) && |idx| <= 3 && idx == First(d, |idx|) && InRange(idx) && j < |idx|
    ensures var s := d.(free := Marked(d.free, idx[j..]));
      Sized(s) && !s.free[idx[j]] && Virtio.FreeDesc(s, idx[j]) == d.(free := Marked(d.free, idx[j + 1..]))
  {
    hide First, Marked;
    TakenFree(d, idx, j);
    MarkedLess(d.free, idx, j);
    assert d.desc[idx[j] := EmptyDesc()] == d.desc;
  }

  lemma MarkedLess(free: seq<bool>, idx: seq<nat>, j: nat)
    requires |free| == NUM && InRange(idx) && j < |idx| && free[idx[j]] && idx[j] !in idx[j + 1..]
    ensures !Marked(free, idx[j..])[idx[j]] && Marked(free, idx[j..])[idx[j] := true] == Marked(free, idx[j + 1..])
  {
    assert idx[j..] == [idx[j]] + idx[j + 1..];
  }

  lemma TakenFree(d: Disk, idx: seq<nat>, j: nat)
    requires Sized(d) && |idx| <= 3 && idx == First(d, |idx|) && InRange(idx) && j < |idx|
    ensures d.free[idx[j]] && idx[j] !in idx[j + 1..]
  {
    assert idx[j] == [Triple(d).0, Triple(d).1, Triple(d).2][j];
    assert |idx| > 1 ==> idx[1] == Triple(d).1;
    assert |idx| > 2 ==> idx[2] == Triple(d).2;
    assert idx[0] == Triple(d).0;
  }

  // ----- filling them in and freeing them -----

  /** virtio_disk_rw's assignments to the three descriptors, field by field. */
  lemma DescsFilled(desc: seq<Desc>, h: nat, d1: nat, d2: nat, b: nat, write: bool)
    requires |desc| == NUM && h < NUM && d1 < NUM && d2 < NUM
    ensures var x := Desc(Op(h), 16, F_NEXT, d1);
            var e1 := desc[h := x];
            var e2 := e1[d1 := Desc(Data(b), 1024, if write then 0 else F_WRITE, e1[d1].next)];
            var e3 := e2[d1 := e2[d1].(flags := e2[d1].flags + F_NEXT)];
            var e4 := e3[d1 := e3[d1].(next := d2)];
            e4 == desc[h := x][d1 := Desc(Data(b), 1024, (if write then 0 else F_WRITE) + F_NEXT, d2)]
  {
  }

  /** The descriptors may be marked as taken beforehand. */
  /** The device finds the request in the chain. */
  lemma FormattedJob(d: Disk, h: nat, d1: nat, d2: nat, b: nat, cmd: Command)
    requires Sized(d) && h < NUM && d1 < NUM && d2 < NUM && h != d1 && h != d2 && d1 != d2
    ensures var e := Formatted(d, h, d1, d2, b, cmd);
      && Sized(e) && e.avail[d.availIdx % NUM] == h && b in e.pending
      && forall i :: Sized(e.(availIdx := i)) ==>
        Interpret(e.(availIdx := i), h) == Some(Job(cmd.write, cmd.sector, b, h))
  {
  }

  lemma FormattedMarked(d: Disk, h: nat, d1: nat, d2: nat, b: nat, cmd: Command)
    requires Sized(d) && h < NUM && d1 < NUM && d2 < NUM
    ensures var r := d.free[h := false][d1 := false][d2 := false];
            && !r[h] && !r[d1] && !r[d2]
            && Formatted(d.(free := r), h, d1, d2, b, cmd) == Formatted(d, h, d1, d2, b, cmd)
            && Formatted(d, h, d1, d2, b, cmd).availIdx == d.availIdx
  {
    var r := d.free[h := false][d1 := false][d2 := false];
    assert r[h := false][d1 := false][d2 := false] == r;
  }

  lemma FormattedValid(d: Disk, h: nat, d1: nat, d2: nat, b: nat, cmd: Command)
    requires Sized(d) && FreeEmpty(d) && h < NUM && d1 < NUM && d2 < NUM
    ensures Sized(Formatted(d, h, d1, d2, b, cmd)) && FreeEmpty(Formatted(d, h, d1, d2, b, cmd))
    ensures FreeEmpty(Formatted(d, h, d1, d2, b, cmd).(availIdx := Inc(d.availIdx)))
  {
  }

  lemma FreedValid(d: Disk, h: nat)
    requires Sized(d) && FreeEmpty(d) && h < NUM
    ensures Sized(FreedChain(d, h)) && FreeEmpty(FreedChain(d, h))
  {
  }

  // ----- completions -----

  /** How many entries of the used ring the driver has not seen, across wrap-around. */
  function Unread(usedIdx: nat, seen: nat): (n: nat)
    requires seen < WRAP
  {
    (usedIdx + WRAP - seen) % WRAP
  }

  /** Each of the first n unread entries is a request with a buffer. */
  ghost predicate Completions(d: Disk, n: nat)
    requires Sized(d)
  {
    forall k: nat :: k < n ==> Completion(d, k)
  }

  predicate Completion(d: Disk, k: nat)
    requires Sized(d)
  {
    var id := d.used[(d.seen + k) % NUM];
    id < NUM && d.info[id].b.Some?
  }

  /** The first of the unread entries from k on whose status is not 0, or n. */
  ghost function FirstBad(d: Disk, k: nat, n: nat): (m: nat)
    requires Sized(d) && k <= n
    ensures k <= m <= n
    decreases n - k
  {
    var id := d.used[(d.seen + k) % NUM];
    if k == n || (id < NUM && d.info[id].status != 0) then k else FirstBad(d, k + 1, n)
  }

  /** The buffers of the first n unread entries. */
  ghost function DoneBuffers(d: Disk, n: nat): (r: set<nat>)
    requires Sized(d)
  {
    if n == 0 then {}
    else
      var id := d.used[(d.seen + n - 1) % NUM];
      DoneBuffers(d, n - 1) + if id < NUM && d.info[id].b.Some? then {d.info[id].b.value} else {}
  }

  lemma NoneDone(d: Disk)
    requires Sized(d)
    ensures DoneBuffers(d, 0) == {}
  {
  }

  lemma DoneMore(d: Disk, k: nat)
    requires Sized(d) && Completion(d, k)
    ensures DoneBuffers(d, k + 1) == DoneBuffers(d, k) + {d.info[d.used[(d.seen + k) % NUM]].b.value}
  {
  }

  lemma NoneUnread(d: Disk)
    requires Sized(d) && d.seen == d.usedIdx
    ensures Unread(d.usedIdx, d.seen) == 0
  {
  }

  /** Seeing one more entry. */
  lemma UnreadStep(d: Disk, from: nat, k: nat)
    requires Sized(d) && d.seen != d.usedIdx && d.seen == (from + k) % WRAP
    ensures Unread(d.usedIdx, d.seen) > 0 && Unread(d.usedIdx, Inc(d.seen)) == Unread(d.usedIdx, d.seen) - 1
    ensures Inc(d.seen) == (from + k + 1) % WRAP
  {
  }

  lemma EntryAt(d: Disk, k: nat)
    requires Sized(d) && Completions(d, Unread(d.usedIdx, d.seen)) && k < Unread(d.usedIdx, d.seen)
    ensures Completion(d, k) && ((d.seen + k) % WRAP) % NUM == (d.seen + k) % NUM
  {
    SlotOf(d.seen, k);
  }

  /** Free descriptors are blank. */
  ghost predicate FreeEmpty(d: Disk)
    requires Sized(d)
  {
    forall i :: 0 <= i < NUM && d.free[i] ==> d.desc[i] == EmptyDesc()
  }

  /** Three different descriptors in use, linked, the last without a successor. */
  predicate IsChain(d: Disk, h: nat)
    requires Sized(d)
  {
    && h < NUM && HasNext(d.desc[h]) && d.desc[h].next < NUM
    && HasNext(d.desc[d.desc[h].next]) && d.desc[d.desc[h].next].next < NUM
    && var d1 := d.desc[h].next;
    var d2 := d.desc[d1].next;
    !HasNext(d.desc[d2]) && h != d1 && h != d2 && d1 != d2 && !d.free[h] && !d.free[d1] && !d.free[d2]
  }

  // ----- the driver is the machine's driver -----

  lemma EmptyStays(s: Sys, step: Step)
    requires Inv(s) && FreeEmpty(s.d) && Enabled(s, step)
    ensures Sized(Do(s, step).d) && FreeEmpty(Do(s, step).d)
  {
    hide Inv, FreedChain, Formatted, Triple, FreeEmpty;
    match step
    case Submit(b, cmd) =>
      var (h, d1, d2) := Triple(s.d);
      TripleFree(s.d);
      FormattedValid(s.d, h, d1, d2, b, cmd);
    case Finish(h) =>
      var d := s.d.(info := s.d.info[h := s.d.info[h].(b := None)]);
      SameDescs(s.d, d);
      FreedValid(d, h);
    case _ =>
      SameDescs(s.d, Do(s, step).d);
  }

  lemma SameDescs(d: Disk, e: Disk)
    requires Sized(d) && Sized(e) && FreeEmpty(d) && e.desc == d.desc && e.free == d.free
    ensures FreeEmpty(e)
  {
  }

  /** In every reachable state the driver's methods can be called: descriptors that are free are blank, the entries of
      the used ring that the interrupt handler has not seen are completed requests with their buffers, and a request
      that is finished still has its chain of three. */
  lemma {:induction false} RunValid(run: seq<Sys>, n: nat)
    requires IsRun(run) && n < |run|
    ensures Sized(run[n].d) && FreeEmpty(run[n].d) && Completions(run[n].d, Unread(run[n].d.usedIdx, run[n].d.seen))
    ensures forall h :: Enabled(run[n], Finish(h)) ==> IsChain(run[n].d, h)
  {
    hide Inv, Enabled, Do;
    RunInv(run, n);
    AllCompleted(run[n]);
    forall h | Enabled(run[n], Finish(h))
      ensures IsChain(run[n].d, h)
    {
      ChainThere(run[n], h);
    }
    if n > 0 {
      var s := run[n - 1];
      RunValid(run, n - 1);
      RunInv(run, n - 1);
      var step :| Enabled(s, step) && run[n - 1 + 1] == Do(s, step);
      EmptyStays(s, step);
    }
  }

  lemma UnreadIs(seen: nat, usedIdx: nat, n: nat)
    requires seen < WRAP && n < NUM && usedIdx == (seen + n) % WRAP
    ensures Unread(usedIdx, seen) == n
  {
  }

  lemma OneCompleted(s: Sys, k: nat)
    requires Sized(s.d) && Chains(s) && Holds(s, s.usedQ, InUsed)
    requires k < |s.usedQ| && s.d.used[(s.d.seen + k) % NUM] == s.usedQ[k]
    ensures Completion(s.d, k)
  {
    assert s.usedQ[k] in s.reqs;
    assert ChainOk(s.d, s.usedQ[k], s.reqs[s.usedQ[k]]);
  }

  lemma AllCompleted(s: Sys)
    requires Inv(s)
    ensures Sized(s.d) && Completions(s.d, Unread(s.d.usedIdx, s.d.seen))
  {
    hide Unread, HandsOk, SlotsOk, Disjoint, Buffers, AllOwned, Chains, Holds, Completion;
    UnreadIs(s.d.seen, s.d.usedIdx, |s.usedQ|);
    forall k: nat | k < Unread(s.d.usedIdx, s.d.seen)
      ensures Completion(s.d, k)
    {
      assert s.d.used[(s.d.seen + k) % NUM] == s.usedQ[k];
      OneCompleted(s, k);
    }
  }

  lemma ChainThere(s: Sys, h: nat)
    requires Inv(s) && Enabled(s, Finish(h))
    ensures IsChain(s.d, h)
  {
    hide RingsOk, SlotsOk, HandsOk, Disjoint, Buffers, AllOwned, StageOk;
    assert ChainOk(s.d, h, s.reqs[h]);
  }

  /** n rounds of virtio_disk_intr's loop, as steps of the machine. */
  ghost function Handled(s: Sys, n: nat): (t: Sys)
    decreases n
  {
    if n == 0 || !Enabled(s, IntrOne) then s else Handled(Do(s, IntrOne), n - 1)
  }

  lemma RoundTaken(s: Sys)
    requires Inv(s) && s.lock.Interrupt? && s.d.seen != s.d.usedIdx
    ensures Sized(s.d) && Completion(s.d, 0) && (Enabled(s, IntrOne) <==> !IntrPanics(s.d))
    ensures Enabled(s, IntrOne) ==> Inv(Do(s, IntrOne)) && Do(s, IntrOne).lock.Interrupt?
    ensures Enabled(s, IntrOne) ==> Do(s, IntrOne).d == s.d.(seen := Inc(s.d.seen),
                pending := s.d.pending - {s.d.info[s.d.used[s.d.seen % NUM]].b.value})
  {
    hide Inv;
    SizedIn(s);
    if Enabled(s, IntrOne) { StepInv(s, IntrOne); }
    AllCompleted(s);
    UnreadStep(s.d, s.d.seen, 0);
    EntryAt(s.d, 0);
  }

  /** The interrupt handler does to the driver's data what those steps do: it sees every entry up to one that failed,
      and clears the flag of each entry's own buffer. */
  lemma {:induction false} IntrIsSteps(s: Sys, n: nat)
    requires Inv(s) && s.lock.Interrupt? && n == Unread(s.d.usedIdx, s.d.seen)
    ensures Sized(s.d) && var m := FirstBad(s.d, 0, n);
      Handled(s, n).d == s.d.(seen := (s.d.seen + m) % WRAP, pending := s.d.pending - DoneBuffers(s.d, m))
    decreases n
  {
    hide Inv, DoneBuffers, Do, Enabled, Completion, Inc, FirstBad;
    SizedIn(s);
    NoneDone(s.d);
    if s.d.seen == s.d.usedIdx {
      NothingUnread(s.d, n);
    } else {
      RoundTaken(s);
      UnreadStep(s.d, s.d.seen, 0);
      if !Enabled(s, IntrOne) {
        FirstIsBad(s.d, n);
      } else {
        var e := Do(s, IntrOne).d;
        IntrIsSteps(Do(s, IntrOne), n - 1);
        BadFront(s.d, e, 0, n - 1);
        FirstIsGood(s.d, n);
        DoneFront(s.d, e, FirstBad(s.d, 0, n));
        SeenOn(s.d.seen, FirstBad(e, 0, n - 1));
      }
    }
  }

  lemma NothingUnread(d: Disk, n: nat)
    requires Sized(d) && n == Unread(d.usedIdx, d.seen) && d.seen == d.usedIdx
    ensures n == 0 && FirstBad(d, 0, n) == 0 && d.seen % WRAP == d.seen
  {
  }

  lemma FirstIsBad(d: Disk, n: nat)
    requires Sized(d) && IntrPanics(d)
    ensures FirstBad(d, 0, n) == 0 && d.seen % WRAP == d.seen
  {
  }

  lemma FirstIsGood(d: Disk, n: nat)
    requires Sized(d) && !IntrPanics(d) && n > 0
    ensures FirstBad(d, 0, n) == FirstBad(d, 1, n) > 0
  {
  }

  /** One entry further on, the first bad one is one nearer. */
  lemma {:induction false} BadFront(d: Disk, e: Disk, k: nat, n: nat)
    requires Sized(d) && e == d.(seen := Inc(d.seen), pending := e.pending) && k <= n
    ensures Sized(e) && FirstBad(d, k + 1, n + 1) == FirstBad(e, k, n) + 1
    decreases n - k
  {
    hide Inc;
    NextEntry(d.seen, k);
    if k < n {
      BadFront(d, e, k + 1, n);
    }
  }

  lemma SeenOn(seen: nat, m: nat)
    requires seen < WRAP
    ensures (Inc(seen) + m) % WRAP == (seen + (m + 1)) % WRAP
  {
  }

  lemma SizedIn(s: Sys)
    requires Inv(s)
    ensures Sized(s.d) && s.devAvail < WRAP
  {
  }

  /** The buffers of the unread entries, first entry first. */
  lemma {:induction false} DoneFront(d: Disk, e: Disk, n: nat)
    requires Sized(d) && e == d.(seen := Inc(d.seen), pending := e.pending) && n > 0 && Completion(d, 0)
    ensures Sized(e) && DoneBuffers(d, n) == {d.info[d.used[d.seen % NUM]].b.value} + DoneBuffers(e, n - 1)
  {
    hide Inc;
    if n > 1 {
      DoneFront(d, e, n - 1);
      NextEntry(d.seen, n - 2);
    }
  }

  /** Submitting a request is the machine's two steps. */
  lemma SubmitIsSteps(s: Sys, b: nat, cmd: Command)
    requires Inv(s) && Enabled(s, Submit(b, cmd))
    ensures var (h, d1, d2) := Triple(s.d);
            && h < NUM && d1 < NUM && Enabled(Do(s, Submit(b, cmd)), Publish)
            && Do(Do(s, Submit(b, cmd)), Publish).d == Formatted(s.d, h, d1, d2, b, cmd).(availIdx := Inc(s.d.availIdx))
  {
    hide Triple, Inv;
    TripleFree(s.d);
  }
}
