/** The virtio block driver and its device (kernel/virtio_disk.c; section 2.6 and section 5.2 of VIRTIO 1.1):
    requests are chains of three descriptors, handed to the device through the avail ring and back through the used
    ring. */
module Virtio {
  import opened Values

  const NUM: nat := 8
  const WRAP: nat := 0x1_0000
  const F_NEXT: nat := 1
  const F_WRITE: nat := 2

  /** What a descriptor points at: the command block of index i, the data of a buffer, or the status byte of index i. */
  datatype Addr = Nowhere | Op(i: nat) | Data(b: nat) | Status(i: nat)
  datatype Desc = Desc(addr: Addr, len: nat, flags: nat, next: nat)
  datatype Info = Info(b: Option<nat>, status: nat)
  datatype Command = Command(write: bool, sector: nat)

  /** The driver's data; avail and used are the rings shared with the device; pending holds the buffers whose disk
      flag is set. */
  datatype Disk = Disk(desc: seq<Desc>, free: seq<bool>, ops: seq<Command>, info: seq<Info>,
                       avail: seq<nat>, availIdx: nat, used: seq<nat>, usedIdx: nat, seen: nat, pending: set<nat>)

  predicate Sized(d: Disk) {
    |d.desc| == |d.free| == |d.ops| == |d.info| == |d.avail| == |d.used| == NUM
    && d.availIdx < WRAP && d.usedIdx < WRAP && d.seen < WRAP
  }

  function Inc(i: nat): (j: nat)
    requires i < WRAP
    ensures j < WRAP
  {
    (i + 1) % WRAP
  }

  // ----- descriptors -----

  function EmptyDesc(): Desc {
    Desc(Nowhere, 0, 0, 0)
  }

  /** Free descriptor i. */
  function FreeDesc(d: Disk, i: nat): (e: Disk)
    requires Sized(d) && i < NUM
  {
    d.(desc := d.desc[i := EmptyDesc()], free := d.free[i := true])
  }

  /** The lowest free descriptor from i on, or NUM. */
  function LowestFree(free: seq<bool>, i: nat): (k: nat)
    requires |free| == NUM && i <= NUM
    ensures i <= k <= NUM && (k < NUM ==> free[k]) && forall j :: i <= j < k ==> !free[j]
    decreases NUM - i
  {
    if i == NUM || free[i] then i else LowestFree(free, i + 1)
  }

  /** Fill in the three descriptors of a request, its command, its info entry and its avail ring slot. */
  function Formatted(d: Disk, h: nat, d1: nat, d2: nat, b: nat, cmd: Command): (e: Disk)
    requires Sized(d) && h < NUM && d1 < NUM && d2 < NUM
  {
    d.(desc := d.desc[h := Desc(Op(h), 16, F_NEXT, d1)]
                     [d1 := Desc(Data(b), 1024, (if cmd.write then 0 else F_WRITE) + F_NEXT, d2)]
                     [d2 := Desc(Status(h), 1, F_WRITE, 0)],
       free := d.free[h := false][d1 := false][d2 := false],
       ops := d.ops[h := cmd], info := d.info[h := Info(Some(b), 0xff)],
       pending := d.pending + {b}, avail := d.avail[d.availIdx % NUM := h])
  }

  predicate HasNext(x: Desc) {
    x.flags % 2 == 1
  }

  // ----- the machine -----

  /** How far a request has come: formatted by the driver, in the avail ring, taken by the device, written to the
      used ring by the device, published there, seen by the interrupt handler. */
  datatype Stage = AtDriver | InAvail | AtDevice | Written | InUsed | Seen

  /** report is the status the device has written, 0 for success; 0xff before that. */
  datatype Req = Req(d1: nat, d2: nat, b: nat, cmd: Command, report: nat, stage: Stage)

  datatype Lock = Free | Submitting(h: nat) | Interrupt

  /** reqs are the requests in virtio_disk_rw by their head descriptor; devAvail is how far the device has read the
      avail ring, device what it works on, writing the entry it has put into the used ring but not yet published.
      The queues are the unread parts of the two rings. */
  datatype Sys = Sys(d: Disk, reqs: map<nat, Req>, lock: Lock, devAvail: nat, device: set<nat>, writing: Option<nat>,
                     availQ: seq<nat>, usedQ: seq<nat>)

  datatype Step =
    | Submit(b: nat, cmd: Command) | Publish
    | DevTake | DevWrite(h: nat, report: nat) | DevPublish
    | IntrStart | IntrOne | IntrEnd
    | Finish(h: nat)

  /** The three descriptors alloc3_desc would take. */
  function Triple(d: Disk): (t: (nat, nat, nat))
    requires Sized(d)
  {
    var a := LowestFree(d.free, 0);
    var b := if a < NUM then LowestFree(d.free, a + 1) else NUM;
    var c := if b < NUM then LowestFree(d.free, b + 1) else NUM;
    (a, b, c)
  }

  /** The status byte the device finds at the end of the chain from h. */
  function StatusOf(d: Disk, h: nat): (i: nat)
    requires Sized(d)
  {
    var d1 := if h < NUM then d.desc[h].next else NUM;
    var d2 := if d1 < NUM then d.desc[d1].next else NUM;
    if d2 < NUM && d.desc[d2].addr.Status? then d.desc[d2].addr.i else NUM
  }

  function SetStage(s: Sys, h: nat, g: Stage): (t: Sys) {
    if h in s.reqs then s.(reqs := s.reqs[h := s.reqs[h].(stage := g)]) else s
  }

  function SetReport(s: Sys, h: nat, v: nat): (t: Sys) {
    if h in s.reqs then s.(reqs := s.reqs[h := s.reqs[h].(stage := Written, report := v)]) else s
  }

  /** The descriptors of a chain of three freed one after another. */
  function FreedChain(d: Disk, h: nat): (e: Disk)
    requires Sized(d) && h < NUM
  {
    var d1 := d.desc[h].next;
    var d2 := if d1 < NUM then d.desc[d1].next else NUM;
    var e := FreeDesc(d, h);
    if d1 < NUM && d2 < NUM then FreeDesc(FreeDesc(e, d1), d2) else e
  }

  /** virtio_disk_intr's panic: the next entry's status is not 0. */
  predicate IntrPanics(d: Disk)
    requires Sized(d)
  {
    var id := d.used[d.seen % NUM];
    id < NUM && d.info[id].status != 0
  }

  predicate Enabled(s: Sys, step: Step) {
    Sized(s.d) && s.devAvail < WRAP &&
    match step
    case Submit(b, _) => s.lock.Free? && Triple(s.d).2 < NUM && b !in s.d.pending && forall h :: h in s.reqs ==>
      s.reqs[h].b != b
    case Publish => s.lock.Submitting?
    case DevTake => s.devAvail != s.d.availIdx
    case DevWrite(h, _) => h in s.device && s.writing.None? && StatusOf(s.d, h) < NUM
    case DevPublish => s.writing.Some?
    case IntrStart => s.lock.Free?
    case IntrOne => s.lock.Interrupt? && s.d.seen != s.d.usedIdx && !IntrPanics(s.d)
    case IntrEnd => s.lock.Interrupt? && s.d.seen == s.d.usedIdx
    case Finish(h) => s.lock.Free? && h in s.reqs && h < NUM && s.reqs[h].b !in s.d.pending
  }

  function Do(s: Sys, step: Step): (t: Sys)
    requires Enabled(s, step)
  {
    match step
    case Submit(b, cmd) =>
      var (h, d1, d2) := Triple(s.d);
      s.(d := Formatted(s.d, h, d1, d2, b, cmd), reqs := s.reqs[h := Req(d1, d2, b, cmd, 0xff, AtDriver)],
        lock := Submitting(h))
    case Publish =>
      SetStage(s, s.lock.h, InAvail).(d := s.d.(availIdx := Inc(s.d.availIdx)), lock := Free,
        availQ := s.availQ + [s.lock.h])
    case DevTake =>
      var h := s.d.avail[s.devAvail % NUM];
      SetStage(s, h, AtDevice).(devAvail := Inc(s.devAvail), device := s.device + {h},
                                availQ := if s.availQ == [] then [] else s.availQ[1..])
    case DevWrite(h, v) =>
      var i := StatusOf(s.d, h);
      SetReport(s, h, v).(writing := Some(h),
        d := s.d.(info := s.d.info[i := s.d.info[i].(status := v)], used := s.d.used[s.d.usedIdx % NUM := h]))
    case DevPublish =>
      var h := s.writing.value;
      SetStage(s, h, InUsed).(writing := None, device := s.device - {h}, usedQ := s.usedQ + [h],
        d := s.d.(usedIdx := Inc(s.d.usedIdx)))
    case IntrStart => s.(lock := Interrupt)
    case IntrOne =>
      var id := s.d.used[s.d.seen % NUM];
      var d := s.d.(seen := Inc(s.d.seen),
                    pending := if id < NUM && s.d.info[id].b.Some? then s.d.pending - {s.d.info[id].b.value}
                      else s.d.pending);
      SetStage(s, id, Seen).(d := d, usedQ := if s.usedQ == [] then [] else s.usedQ[1..])
    case IntrEnd => s.(lock := Free)
    case Finish(h) =>
      s.(d := FreedChain(s.d.(info := s.d.info[h := s.d.info[h].(b := None)]), h), reqs := s.reqs - {h})
  }

  // ----- the invariant -----

  /** The chain of a request is in place, and says what the request asks for. */
  predicate ChainOk(d: Disk, h: nat, r: Req)
    requires Sized(d)
  {
    && h < NUM && r.d1 < NUM && r.d2 < NUM && h != r.d1 && h != r.d2 && r.d1 != r.d2
    && !d.free[h] && !d.free[r.d1] && !d.free[r.d2]
    && d.desc[h] == Desc(Op(h), 16, F_NEXT, r.d1) && d.ops[h] == r.cmd
    && d.desc[r.d1] == Desc(Data(r.b), 1024, (if r.cmd.write then 0 else F_WRITE) + F_NEXT, r.d2)
    && d.desc[r.d2] == Desc(Status(h), 1, F_WRITE, 0)
    && d.info[h].b == Some(r.b)
  }

  predicate StageOk(d: Disk, h: nat, r: Req)
    requires Sized(d) && h < NUM
  {
    && (r.b in d.pending <==> !r.stage.Seen?)
    && d.info[h].status == r.report && (r.stage.Seen? ==> r.report == 0)
  }

  predicate InChain(h: nat, r: Req, i: nat) {
    i == h || i == r.d1 || i == r.d2
  }

  ghost predicate Chains(s: Sys)
    requires Sized(s.d)
  {
    forall h :: h in s.reqs ==> h < NUM && ChainOk(s.d, h, s.reqs[h]) && StageOk(s.d, h, s.reqs[h])
  }

  /** No descriptor is in two chains. */
  ghost predicate Disjoint(s: Sys) {
    forall h, k, i :: h in s.reqs && k in s.reqs && InChain(h, s.reqs[h], i) && InChain(k, s.reqs[k], i) ==> h == k
  }

  /** No buffer is in two requests, and a set disk flag belongs to one. */
  ghost predicate Buffers(s: Sys) {
    && (forall h, k :: h in s.reqs && k in s.reqs && s.reqs[h].b == s.reqs[k].b ==> h == k)
    && (forall b :: b in s.d.pending ==> exists h :: h in s.reqs && s.reqs[h].b == b)
  }

  ghost predicate Owned(s: Sys, i: nat) {
    exists h :: h in s.reqs && InChain(h, s.reqs[h], i)
  }

  /** A descriptor that is not free is in a chain. */
  ghost predicate AllOwned(s: Sys)
    requires Sized(s.d)
  {
    forall i: nat :: i < NUM && !s.d.free[i] ==> Owned(s, i)
  }

  ghost predicate ReqsOk(s: Sys) {
    Sized(s.d) && s.devAvail < WRAP && Chains(s) && Disjoint(s) && Buffers(s) && AllOwned(s)
  }

  /** The unread part of a ring: entry k of the queue is k slots after index `from`, and `to` is just past the last. */
  ghost predicate RingOk(ring: seq<nat>, from: nat, to: nat, q: seq<nat>)
    requires |ring| == NUM
  {
    && |q| < NUM && to == (from + |q|) % WRAP
    && (forall k :: 0 <= k < |q| ==> ring[(from + k) % NUM] == q[k])
  }

  ghost predicate Holds(s: Sys, q: seq<nat>, g: Stage) {
    && (forall i, j :: 0 <= i < j < |q| ==> q[i] != q[j])
    && (forall i :: 0 <= i < |q| ==> q[i] in s.reqs && s.reqs[q[i]].stage == g)
    && (forall h :: h in s.reqs && s.reqs[h].stage == g ==> h in q)
  }

  ghost predicate RingsOk(s: Sys)
    requires Sized(s.d)
  {
    && RingOk(s.d.avail, s.devAvail, s.d.availIdx, s.availQ) && RingOk(s.d.used, s.d.seen, s.d.usedIdx, s.usedQ)
    && Holds(s, s.availQ, InAvail) && Holds(s, s.usedQ, InUsed)
  }

  /** The driver, between formatting and publishing, and the device, between writing and publishing, have the next
      slot of their ring to themselves. */
  ghost predicate SlotsOk(s: Sys)
    requires Sized(s.d)
  {
    && (s.writing.Some? ==> s.d.used[s.d.usedIdx % NUM] == s.writing.value)
    && (s.lock.Submitting? ==> s.d.avail[s.d.availIdx % NUM] == s.lock.h)
  }

  /** Who has which request in hand. */
  ghost predicate HandsOk(s: Sys) {
    && (forall h :: h in s.device <==> h in s.reqs && (s.reqs[h].stage.AtDevice? || s.reqs[h].stage.Written?))
    && (s.writing.Some? ==> s.writing.value in s.reqs && s.reqs[s.writing.value].stage.Written?)
    && (forall h :: h in s.reqs && s.reqs[h].stage.Written? ==> s.writing == Some(h))
    && (s.lock.Submitting? ==> s.lock.h in s.reqs && s.reqs[s.lock.h].stage.AtDriver?)
    && (forall h :: h in s.reqs && s.reqs[h].stage.AtDriver? ==> s.lock == Submitting(h))
  }

  ghost predicate Inv(s: Sys) {
    ReqsOk(s) && RingsOk(s) && SlotsOk(s) && HandsOk(s)
  }

  // ----- at most two requests at a time -----

  lemma {:induction false} QueueFits(q: seq<nat>, keys: set<nat>)
    requires (forall i, j :: 0 <= i < j < |q| ==> q[i] != q[j]) && forall i :: 0 <= i < |q| ==> q[i] in keys
    ensures |q| <= |keys|
  {
    if q != [] {
      QueueFits(q[1..], keys - {q[0]});
    }
  }

  function ChainSet(h: nat, r: Req): (c: set<nat>) {
    {h, r.d1, r.d2}
  }

  lemma ThreeOf(keys: set<nat>) returns (h: nat, k: nat, l: nat)
    requires |keys| > 2
    ensures h in keys && k in keys && l in keys && h != k && h != l && k != l
  {
    h :| h in keys;
    assert |keys - {h}| > 1;
    k :| k in keys - {h};
    assert |keys - {h} - {k}| > 0;
    l :| l in keys - {h} - {k};
  }

  /** Three chains would need nine descriptors. */
  lemma FewReqs(s: Sys)
    requires ReqsOk(s)
    ensures |s.reqs.Keys| <= 2
  {
    hide ReqsOk, ChainSet;
    if |s.reqs.Keys| > 2 {
      var h, k, l := ThreeOf(s.reqs.Keys);
      var a, b, c := ChainSet(h, s.reqs[h]), ChainSet(k, s.reqs[k]), ChainSet(l, s.reqs[l]);
      ChainApart(s, h, k);
      ChainApart(s, h, l);
      ChainApart(s, k, l);
      var all := {0, 1, 2, 3, 4, 5, 6, 7};
      ApartSize(a, b, c);
      SubsetSize(a + b + c, all);
    }
  }

  lemma ApartSize(a: set<nat>, b: set<nat>, c: set<nat>)
    requires a !! b && a !! c && b !! c && |a| == |b| == |c| == 3
    ensures |a + b + c| == 9
  {
    assert |a + b| == 6;
    assert (a + b) !! c;
  }

  lemma ChainApart(s: Sys, h: nat, k: nat)
    requires ReqsOk(s) && h in s.reqs && k in s.reqs && h != k
    ensures var a, b := ChainSet(h, s.reqs[h]), ChainSet(k, s.reqs[k]);
      a !! b && |a| == 3 && |b| == 3 && a <= {0, 1, 2, 3, 4, 5, 6, 7} && b <= {0, 1, 2, 3, 4, 5, 6, 7}
  {
    hide AllOwned, Buffers, StageOk;
    assert ChainOk(s.d, h, s.reqs[h]) && ChainOk(s.d, k, s.reqs[k]);
    var a, b := ChainSet(h, s.reqs[h]), ChainSet(k, s.reqs[k]);
    forall i | i in a
      ensures i !in b
    {
      NotShared(s, h, k, i);
    }
  }

  lemma NotShared(s: Sys, h: nat, k: nat, i: nat)
    requires Disjoint(s) && h in s.reqs && k in s.reqs && h != k && InChain(h, s.reqs[h], i)
    ensures !InChain(k, s.reqs[k], i)
  {
  }

  // ----- rings -----

  lemma SlotOf(from: nat, k: nat)
    ensures ((from + k) % WRAP) % NUM == (from + k) % NUM
  {
  }

  lemma NextEntry(from: nat, k: nat)
    requires from < WRAP
    ensures (Inc(from) + k) % NUM == (from + k + 1) % NUM
  {
    if from + 1 == WRAP {
      assert WRAP + k == NUM * 0x2000 + k;
    }
  }

  lemma SlotsDiffer(from: nat, j: nat, k: nat)
    requires j < k < j + NUM
    ensures (from + j) % NUM != (from + k) % NUM
  {
  }

  /** The slot at `to` is not in the queue, so it may be stored to. */
  lemma RingStore(ring: seq<nat>, from: nat, to: nat, q: seq<nat>, h: nat)
    requires |ring| == NUM && RingOk(ring, from, to, q)
    ensures RingOk(ring[to % NUM := h], from, to, q)
  {
    SlotOf(from, |q|);
    forall k | 0 <= k < |q|
      ensures ring[to % NUM := h][(from + k) % NUM] == q[k]
    {
      SlotsDiffer(from, k, |q|);
    }
  }

  lemma RingPush(ring: seq<nat>, from: nat, to: nat, q: seq<nat>)
    requires |ring| == NUM && RingOk(ring, from, to, q) && |q| + 1 < NUM && to < WRAP
    ensures RingOk(ring, from, Inc(to), q + [ring[to % NUM]])
  {
    SlotOf(from, |q|);
    var q' := q + [ring[to % NUM]];
    forall k | 0 <= k < |q'|
      ensures ring[(from + k) % NUM] == q'[k]
    {
    }
  }

  lemma RingPop(ring: seq<nat>, from: nat, to: nat, q: seq<nat>)
    requires |ring| == NUM && RingOk(ring, from, to, q) && from < WRAP && q != []
    ensures ring[from % NUM] == q[0] && RingOk(ring, Inc(from), to, q[1..])
  {
    assert ring[(from + 0) % NUM] == q[0];
    forall k | 0 <= k < |q| - 1
      ensures ring[(Inc(from) + k) % NUM] == q[1..][k]
    {
      NextEntry(from, k);
      assert ring[(from + (k + 1)) % NUM] == q[k + 1];
    }
  }

  /** The queue is empty exactly when the indices agree, even across wrap-around. */
  lemma RingEmpty(ring: seq<nat>, from: nat, to: nat, q: seq<nat>)
    requires |ring| == NUM && RingOk(ring, from, to, q) && from < WRAP
    ensures from == to <==> q == []
  {
  }

  // ----- steps that only move a request along -----

  /** The same requests, at most at other stages. */
  ghost predicate SameReqs(s: Sys, t: Sys) {
    && t.reqs.Keys == s.reqs.Keys
    && forall h :: h in s.reqs ==> t.reqs[h] == s.reqs[h].(stage := t.reqs[h].stage, report := t.reqs[h].report)
  }

  lemma MovedReqs(s: Sys, t: Sys)
    requires ReqsOk(s) && SameReqs(s, t) && Sized(t.d) && t.d.free == s.d.free && t.d.pending <= s.d.pending
    ensures Disjoint(t) && Buffers(t) && AllOwned(t)
  {
    hide Chains;
    forall i: nat | i < NUM && !t.d.free[i]
      ensures Owned(t, i)
    {
      assert Owned(s, i);
      var h :| h in s.reqs && InChain(h, s.reqs[h], i);
      assert InChain(h, t.reqs[h], i);
    }
    forall h, k, i | h in t.reqs && k in t.reqs && InChain(h, t.reqs[h], i) && InChain(k, t.reqs[k], i)
      ensures h == k
    {
      assert InChain(h, s.reqs[h], i) && InChain(k, s.reqs[k], i);
    }
    forall b | b in t.d.pending
      ensures exists h :: h in t.reqs && t.reqs[h].b == b
    {
      var h :| h in s.reqs && s.reqs[h].b == b;
      assert t.reqs[h].b == b;
    }
  }

  /** Entry h leaves the front of one queue or enters the back of another. */
  lemma QueueMoved(s: Sys, t: Sys, q: seq<nat>, g: Stage, h: nat, g': Stage)
    requires Holds(s, q, g) && h in s.reqs && SameReqs(s, t)
    requires forall k :: k in s.reqs ==> t.reqs[k].stage == if k == h then g' else s.reqs[k].stage
    requires s.reqs[h].stage != g'
    ensures g' != g && s.reqs[h].stage != g ==> Holds(t, q, g)
    ensures g' == g ==> Holds(t, q + [h], g)
    ensures g' != g && q != [] && q[0] == h ==> Holds(t, q[1..], g)
  {
    if g' == g {
      var q' := q + [h];
      forall k | k in t.reqs && t.reqs[k].stage == g
        ensures k in q'
      {
        if k != h {
          assert k in q;
        } else {
          assert q'[|q|] == h;
        }
      }
    } else if q != [] && q[0] == h {
      forall k | k in t.reqs && t.reqs[k].stage == g
        ensures k in q[1..]
      {
        assert k in q && k != q[0];
      }
    }
  }

  lemma Moved(s: Sys, h: nat, g: Stage)
    requires h in s.reqs
    ensures var t := SetStage(s, h, g);
      && SameReqs(s, t) && t.reqs[h].report == s.reqs[h].report
      && forall k :: k in s.reqs ==> t.reqs[k].stage == if k == h then g else s.reqs[k].stage
  {
  }

  lemma Reported(s: Sys, h: nat, v: nat)
    requires h in s.reqs
    ensures var t := SetReport(s, h, v);
      && SameReqs(s, t) && t.reqs[h].report == v
      && forall k :: k in s.reqs ==> t.reqs[k].stage == if k == h then Written else s.reqs[k].stage
  {
  }

  lemma PublishKeeps(s: Sys)
    requires Inv(s) && Enabled(s, Publish)
    ensures Inv(Do(s, Publish))
  {
    hide ReqsOk, RingOk, Holds, ChainOk;
    var t, h := Do(s, Publish), s.lock.h;
    Moved(s, h, InAvail);
    assert ReqsOk(t) by {
      StageMoved(s, t, h);
    }
    QueueMoved(s, t, s.availQ, InAvail, h, InAvail);
    QueueMoved(s, t, s.usedQ, InUsed, h, InAvail);
    assert |s.availQ| + 1 <= 2 by {
      FewReqs(t);
      HoldsFits(t, t.availQ, InAvail);
    }
    RingPush(s.d.avail, s.devAvail, s.d.availIdx, s.availQ);
  }

  lemma HoldsFits(s: Sys, q: seq<nat>, g: Stage)
    requires Holds(s, q, g)
    ensures |q| <= |s.reqs.Keys|
  {
    QueueFits(q, s.reqs.Keys);
  }

  /** Moving request h along without touching its chain, its status or its flag. */
  lemma StageMoved(s: Sys, t: Sys, h: nat)
    requires ReqsOk(s) && h in s.reqs && SameReqs(s, t) && Sized(t.d) && t.devAvail < WRAP
    requires forall k :: k in s.reqs && k != h ==> t.reqs[k] == s.reqs[k]
    requires t.d.desc == s.d.desc && t.d.free == s.d.free && t.d.ops == s.d.ops && t.d.info == s.d.info
    requires t.d.pending == s.d.pending
    requires StageOk(t.d, h, s.reqs[h]) ==> StageOk(t.d, h, t.reqs[h])
    ensures ReqsOk(t)
  {
    hide AllOwned, Disjoint, Buffers;
    MovedReqs(s, t);
    forall k | k in t.reqs
      ensures k < NUM && ChainOk(t.d, k, t.reqs[k]) && StageOk(t.d, k, t.reqs[k])
    {
      assert ChainOk(s.d, k, s.reqs[k]) && StageOk(s.d, k, s.reqs[k]);
    }
  }

  lemma DevTakeKeeps(s: Sys)
    requires Inv(s) && Enabled(s, DevTake)
    ensures Inv(Do(s, DevTake))
  {
    hide ReqsOk, RingOk, Holds, ChainOk;
    var t := Do(s, DevTake);
    RingEmpty(s.d.avail, s.devAvail, s.d.availIdx, s.availQ);
    RingPop(s.d.avail, s.devAvail, s.d.availIdx, s.availQ);
    var h := s.availQ[0];
    HeldAt(s, s.availQ, InAvail, 0);
    Moved(s, h, AtDevice);
    assert ReqsOk(t) by {
      StageMoved(s, t, h);
    }
    QueueMoved(s, t, s.availQ, InAvail, h, AtDevice);
    QueueMoved(s, t, s.usedQ, InUsed, h, AtDevice);
  }

  lemma HeldAt(s: Sys, q: seq<nat>, g: Stage, i: nat)
    requires Holds(s, q, g) && i < |q|
    ensures q[i] in s.reqs && s.reqs[q[i]].stage == g
  {
  }

  /** The chain the device follows leads to the status byte of its own request. */
  lemma ChainStatus(s: Sys, h: nat)
    requires ReqsOk(s) && h in s.reqs
    ensures h < NUM && StatusOf(s.d, h) == h
  {
    hide AllOwned, Disjoint, Buffers;
    assert ChainOk(s.d, h, s.reqs[h]);
  }

  lemma DevWriteKeeps(s: Sys, h: nat, v: nat)
    requires Inv(s) && Enabled(s, DevWrite(h, v))
    ensures Inv(Do(s, DevWrite(h, v)))
  {
    hide ReqsOk, RingOk, Holds, ChainOk, StageOk;
    var t := Do(s, DevWrite(h, v));
    ChainStatus(s, h);
    Reported(s, h, v);
    assert ReqsOk(t) by {
      StatusMoved(s, t, h, v);
    }
    QueueMoved(s, t, s.availQ, InAvail, h, Written);
    QueueMoved(s, t, s.usedQ, InUsed, h, Written);
    RingStore(s.d.used, s.d.seen, s.d.usedIdx, s.usedQ, h);
  }

  lemma StatusMoved(s: Sys, t: Sys, h: nat, v: nat)
    requires ReqsOk(s) && h in s.reqs && h < NUM && SameReqs(s, t) && Sized(t.d) && t.devAvail < WRAP
    requires forall k :: k in s.reqs && k != h ==> t.reqs[k] == s.reqs[k]
    requires t.d.desc == s.d.desc && t.d.free == s.d.free && t.d.ops == s.d.ops && t.d.pending == s.d.pending
    requires t.d.info == s.d.info[h := s.d.info[h].(status := v)]
    requires t.reqs[h].report == v && t.reqs[h].stage.Written? && !s.reqs[h].stage.Seen?
    ensures ReqsOk(t)
  {
    hide AllOwned, Disjoint, Buffers;
    MovedReqs(s, t);
    forall k | k in t.reqs
      ensures k < NUM && ChainOk(t.d, k, t.reqs[k]) && StageOk(t.d, k, t.reqs[k])
    {
      assert ChainOk(s.d, k, s.reqs[k]) && StageOk(s.d, k, s.reqs[k]);
    }
  }

  lemma DevPublishKeeps(s: Sys)
    requires Inv(s) && Enabled(s, DevPublish)
    ensures Inv(Do(s, DevPublish))
  {
    hide ReqsOk, RingOk, Holds, ChainOk;
    var t, h := Do(s, DevPublish), s.writing.value;
    Moved(s, h, InUsed);
    assert ReqsOk(t) by {
      StageMoved(s, t, h);
    }
    QueueMoved(s, t, s.availQ, InAvail, h, InUsed);
    QueueMoved(s, t, s.usedQ, InUsed, h, InUsed);
    assert |s.usedQ| + 1 <= 2 by {
      FewReqs(t);
      HoldsFits(t, t.usedQ, InUsed);
    }
    RingPush(s.d.used, s.d.seen, s.d.usedIdx, s.usedQ);
  }

  /** What the device makes of a chain, by sections 2.6.5 and 5.2.6 of the standard. */
  datatype Job = Job(write: bool, sector: nat, buffer: nat, status: nat)

  /** Flag 1 says that another descriptor follows, and flag 2 that the device writes: a header of 16 bytes that it
      reads, a block that it reads for a command to write and writes for one to read, and a byte of status that it
      writes. */
  function Interpret(d: Disk, h: nat): (job: Option<Job>)
    requires Sized(d) && h < NUM
  {
    var head := d.desc[h];
    if head.flags != 1 || !head.addr.Op? || head.len != 16 || head.next >= NUM || head.addr.i >= NUM then None
    else
      var cmd, data := d.ops[head.addr.i], d.desc[head.next];
      var flags := if cmd.write then 1 else 3;
      if data.flags != flags || !data.addr.Data? || data.len != 1024 || data.next >= NUM then None
      else
        var last := d.desc[data.next];
        if last.flags != 2 || !last.addr.Status? || last.len != 1 then None
        else Some(Job(cmd.write, cmd.sector, data.addr.b, last.addr.i))
  }

  /** In every run, what the device finds in the chain of a request is its command, its buffer and its status byte. */
  lemma DeviceSeesRequest(run: seq<Sys>, n: nat, h: nat)
    requires IsRun(run) && n < |run| && h in run[n].reqs
    ensures Sized(run[n].d) && h < NUM
    ensures var r := run[n].reqs[h]; Interpret(run[n].d, h) == Some(Job(r.cmd.write, r.cmd.sector, r.b, h))
  {
    hide Disjoint, Buffers, RingOk, Holds, AllOwned, IsRun;
    RunInv(run, n);
    assert ChainOk(run[n].d, h, run[n].reqs[h]);
  }

  /** The completion the interrupt handler looks at is a request the device has finished, its status what the device
      reported, and info names its buffer. So the handler goes on exactly if the device reported success. */
  lemma CompletionIsOwn(s: Sys)
    requires Inv(s) && s.lock.Interrupt? && s.d.seen != s.d.usedIdx
    ensures s.usedQ != []
    ensures var id := s.d.used[s.d.seen % NUM];
      id == s.usedQ[0] && id in s.reqs && id < NUM && s.reqs[id].stage.InUsed?
      && s.d.info[id] == Info(Some(s.reqs[id].b), s.reqs[id].report) && s.reqs[id].b in s.d.pending
      && (Enabled(s, IntrOne) <==> s.reqs[id].report == 0)
  {
    hide AllOwned, Disjoint, Buffers, RingOk, Holds;
    RingEmpty(s.d.used, s.d.seen, s.d.usedIdx, s.usedQ);
    RingPop(s.d.used, s.d.seen, s.d.usedIdx, s.usedQ);
    var id := s.usedQ[0];
    HeldAt(s, s.usedQ, InUsed, 0);
    assert ChainOk(s.d, id, s.reqs[id]) && StageOk(s.d, id, s.reqs[id]);
  }

  lemma IntrOneKeeps(s: Sys)
    requires Inv(s) && Enabled(s, IntrOne)
    ensures Inv(Do(s, IntrOne))
  {
    hide ReqsOk, RingOk, Holds, ChainOk, StageOk;
    var t := Do(s, IntrOne);
    CompletionIsOwn(s);
    RingPop(s.d.used, s.d.seen, s.d.usedIdx, s.usedQ);
    var h := s.usedQ[0];
    Moved(s, h, Seen);
    assert ReqsOk(t) by {
      SeenMoved(s, t, h);
    }
    QueueMoved(s, t, s.availQ, InAvail, h, Seen);
    QueueMoved(s, t, s.usedQ, InUsed, h, Seen);
  }

  lemma SeenMoved(s: Sys, t: Sys, h: nat)
    requires ReqsOk(s) && h in s.reqs && SameReqs(s, t) && Sized(t.d) && t.devAvail < WRAP
    requires forall k :: k in s.reqs && k != h ==> t.reqs[k] == s.reqs[k]
    requires t.d.desc == s.d.desc && t.d.free == s.d.free && t.d.ops == s.d.ops && t.d.info == s.d.info
    requires t.d.pending == s.d.pending - {s.reqs[h].b}
    requires t.reqs[h].stage.Seen? && t.reqs[h].report == s.reqs[h].report == 0 && s.reqs[h].stage.InUsed?
    ensures ReqsOk(t)
  {
    hide AllOwned, Disjoint;
    MovedReqs(s, t);
    forall k | k in t.reqs
      ensures k < NUM && ChainOk(t.d, k, t.reqs[k]) && StageOk(t.d, k, t.reqs[k])
    {
      assert ChainOk(s.d, k, s.reqs[k]) && StageOk(s.d, k, s.reqs[k]);
      assert s.reqs[k].b == s.reqs[h].b ==> k == h;
    }
  }

  // ----- submitting -----

  lemma TripleFree(d: Disk)
    requires Sized(d) && Triple(d).2 < NUM
    ensures var (h, d1, d2) := Triple(d); h < d1 < d2 < NUM && d.free[h] && d.free[d1] && d.free[d2]
  {
  }

  /** There is a triple exactly if three descriptors are free. */
  lemma TripleExact(d: Disk)
    requires Sized(d)
    ensures Triple(d).2 < NUM <==> ThreeFree(d.free)
  {
    if i, j, k :| 0 <= i < j < k < NUM && d.free[i] && d.free[j] && d.free[k] {
      var (a, b, c) := Triple(d);
      assert a <= i && b <= j && c <= k;
    }
  }

  predicate ThreeFree(free: seq<bool>)
    requires |free| == NUM
  {
    exists i, j, k :: 0 <= i < j < k < NUM && free[i] && free[j] && free[k]
  }

  /** A chain that a change of the disk does not reach. */
  lemma ChainFrame(d: Disk, e: Disk, k: nat, r: Req)
    requires Sized(d) && Sized(e) && ChainOk(d, k, r)
    requires forall i :: 0 <= i < NUM && InChain(k, r, i) ==> e.desc[i] == d.desc[i] && e.free[i] == d.free[i]
    requires e.ops[k] == d.ops[k] && e.info[k] == d.info[k]
    ensures ChainOk(e, k, r)
  {
    assert InChain(k, r, k) && InChain(k, r, r.d1) && InChain(k, r, r.d2);
  }

  lemma NewHead(s: Sys, h: nat)
    requires ReqsOk(s) && h < NUM && s.d.free[h]
    ensures h !in s.reqs && forall k :: k in s.reqs ==> !InChain(k, s.reqs[k], h)
  {
    hide AllOwned, Disjoint, Buffers, StageOk;
    forall k | k in s.reqs
      ensures k != h && !InChain(k, s.reqs[k], h)
    {
      assert ChainOk(s.d, k, s.reqs[k]);
    }
  }

  lemma SubmitChains(s: Sys, b: nat, cmd: Command)
    requires ReqsOk(s) && Enabled(s, Submit(b, cmd))
    ensures var t := Do(s, Submit(b, cmd)); Sized(t.d) && Chains(t) && Triple(s.d).0 !in s.reqs
  {
    hide AllOwned, Disjoint, Buffers, Triple, ChainOk;
    var t := Do(s, Submit(b, cmd));
    var (h, d1, d2) := Triple(s.d);
    TripleFree(s.d);
    NewHead(s, h);
    NewHead(s, d1);
    NewHead(s, d2);
    FormattedOk(s.d, h, d1, d2, b, cmd);
    forall k | k in t.reqs
      ensures k < NUM && ChainOk(t.d, k, t.reqs[k]) && StageOk(t.d, k, t.reqs[k])
    {
      if k != h {
        ChainFrame(s.d, t.d, k, s.reqs[k]);
        assert StageOk(s.d, k, s.reqs[k]);
      }
    }
  }

  lemma FormattedOk(d: Disk, h: nat, d1: nat, d2: nat, b: nat, cmd: Command)
    requires Sized(d) && h < d1 < d2 < NUM
    ensures ChainOk(Formatted(d, h, d1, d2, b, cmd), h, Req(d1, d2, b, cmd, 0xff, AtDriver))
  {
  }

  lemma SubmitOwners(s: Sys, b: nat, cmd: Command)
    requires ReqsOk(s) && Enabled(s, Submit(b, cmd)) && Sized(Do(s, Submit(b, cmd)).d)
    ensures var t := Do(s, Submit(b, cmd)); Disjoint(t) && AllOwned(t)
  {
    hide Buffers, Chains, Triple;
    var t := Do(s, Submit(b, cmd));
    var (h, d1, d2) := Triple(s.d);
    TripleFree(s.d);
    NewHead(s, h);
    NewHead(s, d1);
    NewHead(s, d2);
    assert AllOwned(t) by {
      hide Disjoint;
      forall i: nat | i < NUM && !t.d.free[i]
        ensures Owned(t, i)
      {
        SubmitOwned(s, t, h, i);
      }
    }
    hide AllOwned;
    forall x, k, i | x in t.reqs && k in t.reqs && InChain(x, t.reqs[x], i) && InChain(k, t.reqs[k], i)
      ensures x == k
    {
      if x != h && k != h {
        assert InChain(x, s.reqs[x], i) && InChain(k, s.reqs[k], i);
      }
    }
  }

  lemma SubmitOwned(s: Sys, t: Sys, h: nat, i: nat)
    requires h !in s.reqs && h in t.reqs && (forall k :: k in s.reqs ==> k in t.reqs && t.reqs[k] == s.reqs[k])
    requires Owned(s, i) || InChain(h, t.reqs[h], i)
    ensures Owned(t, i)
  {
    if Owned(s, i) {
      var k :| k in s.reqs && InChain(k, s.reqs[k], i);
      assert k in t.reqs && InChain(k, t.reqs[k], i);
    }
  }

  lemma SubmitBuffers(s: Sys, b: nat, cmd: Command)
    requires ReqsOk(s) && Enabled(s, Submit(b, cmd)) && Triple(s.d).0 !in s.reqs
    ensures Buffers(Do(s, Submit(b, cmd)))
  {
    hide AllOwned, Disjoint, Chains, Triple;
    var t, h := Do(s, Submit(b, cmd)), Triple(s.d).0;
    TripleFree(s.d);
    forall c | c in t.d.pending
      ensures exists k :: k in t.reqs && t.reqs[k].b == c
    {
      if c == b {
        assert t.reqs[h].b == c;
      } else {
        var k :| k in s.reqs && s.reqs[k].b == c;
        assert t.reqs[k].b == c;
      }
    }
  }

  lemma SubmitKeeps(s: Sys, b: nat, cmd: Command)
    requires Inv(s) && Enabled(s, Submit(b, cmd))
    ensures Inv(Do(s, Submit(b, cmd)))
  {
    hide Chains, Disjoint, Buffers, AllOwned, RingOk, Triple;
    var t, h := Do(s, Submit(b, cmd)), Triple(s.d).0;
    TripleFree(s.d);
    SubmitChains(s, b, cmd);
    SubmitOwners(s, b, cmd);
    SubmitBuffers(s, b, cmd);
    RingStore(s.d.avail, s.devAvail, s.d.availIdx, s.availQ, h);
  }

  // ----- finishing -----

  /** What is left of descriptor i after free_chain. */
  lemma FreedAt(d: Disk, h: nat, r: Req, i: nat)
    requires Sized(d) && ChainOk(d, h, r) && i < NUM
    ensures var e := FreedChain(d.(info := d.info[h := d.info[h].(b := None)]), h);
      && Sized(e) && e == d.(desc := e.desc, free := e.free, info := d.info[h := d.info[h].(b := None)])
      && e.free[i] == (d.free[i] || InChain(h, r, i)) && (!InChain(h, r, i) ==> e.desc[i] == d.desc[i])
  {
  }

  lemma FinishChains(s: Sys, h: nat)
    requires ReqsOk(s) && Enabled(s, Finish(h))
    ensures var t := Do(s, Finish(h)); Sized(t.d) && Chains(t)
  {
    hide AllOwned, Buffers, ChainOk, FreedChain;
    var t := Do(s, Finish(h));
    assert ChainOk(s.d, h, s.reqs[h]);
    FreedAt(s.d, h, s.reqs[h], h);
    forall k | k in t.reqs
      ensures k < NUM && ChainOk(t.d, k, t.reqs[k]) && StageOk(t.d, k, t.reqs[k])
    {
      var r := s.reqs[k];
      assert k < NUM && ChainOk(s.d, k, r) && StageOk(s.d, k, r);
      forall i | 0 <= i < NUM && InChain(k, r, i)
        ensures t.d.desc[i] == s.d.desc[i] && t.d.free[i] == s.d.free[i]
      {
        NotShared(s, k, h, i);
        FreedAt(s.d, h, s.reqs[h], i);
      }
      ChainFrame(s.d, t.d, k, r);
    }
  }

  lemma FinishOwners(s: Sys, h: nat)
    requires ReqsOk(s) && Enabled(s, Finish(h)) && Sized(Do(s, Finish(h)).d)
    ensures var t := Do(s, Finish(h)); Disjoint(t) && AllOwned(t)
  {
    hide Buffers, FreedChain, ChainOk;
    var t := Do(s, Finish(h));
    assert ChainOk(s.d, h, s.reqs[h]);
    assert AllOwned(t) by {
      hide Disjoint;
      forall i: nat | i < NUM && !t.d.free[i]
        ensures Owned(t, i)
      {
        FreedAt(s.d, h, s.reqs[h], i);
        OtherOwner(s, t, h, i);
      }
    }
    hide AllOwned;
    forall x, k, i | x in t.reqs && k in t.reqs && InChain(x, t.reqs[x], i) && InChain(k, t.reqs[k], i)
      ensures x == k
    {
      assert InChain(x, s.reqs[x], i) && InChain(k, s.reqs[k], i);
    }
  }

  lemma OtherOwner(s: Sys, t: Sys, h: nat, i: nat)
    requires h in s.reqs && t.reqs == s.reqs - {h} && Owned(s, i) && !InChain(h, s.reqs[h], i)
    ensures Owned(t, i)
  {
    var k :| k in s.reqs && InChain(k, s.reqs[k], i);
    assert k in t.reqs && InChain(k, t.reqs[k], i);
  }

  lemma FinishBuffers(s: Sys, h: nat)
    requires ReqsOk(s) && Enabled(s, Finish(h)) && h < NUM
    ensures Buffers(Do(s, Finish(h)))
  {
    hide AllOwned, Disjoint, FreedChain, ChainOk;
    var t := Do(s, Finish(h));
    assert ChainOk(s.d, h, s.reqs[h]);
    FreedAt(s.d, h, s.reqs[h], h);
    forall b | b in t.d.pending
      ensures exists k :: k in t.reqs && t.reqs[k].b == b
    {
      var k :| k in s.reqs && s.reqs[k].b == b;
      assert k in t.reqs && t.reqs[k].b == b;
    }
  }

  lemma FinishKeeps(s: Sys, h: nat)
    requires Inv(s) && Enabled(s, Finish(h))
    ensures Inv(Do(s, Finish(h)))
  {
    hide Disjoint, Buffers, AllOwned, RingOk, FreedChain, ChainOk, Holds, HandsOk;
    assert ChainOk(s.d, h, s.reqs[h]) && StageOk(s.d, h, s.reqs[h]);
    FreedAt(s.d, h, s.reqs[h], h);
    FinishChains(s, h);
    FinishOwners(s, h);
    FinishBuffers(s, h);
    SeenDropped(s, Do(s, Finish(h)), h);
  }

  /** A request that has been seen is in nobody's hands and in no ring. */
  lemma SeenDropped(s: Sys, t: Sys, h: nat)
    requires h in s.reqs && s.reqs[h].stage.Seen? && t.reqs == s.reqs - {h} && HandsOk(s)
    requires t.device == s.device && t.writing == s.writing && t.lock == s.lock
    ensures HandsOk(t)
    ensures forall q, g :: Holds(s, q, g) && !g.Seen? ==> Holds(t, q, g)
  {
  }

  // ----- every run -----

  ghost predicate Initial(s: Sys) {
    && Sized(s.d) && s.reqs == map[] && s.lock.Free? && s.device == {} && s.writing.None? && s.d.pending == {}
    && s.d.availIdx == s.devAvail == 0 && s.d.usedIdx == s.d.seen == 0 && s.availQ == [] && s.usedQ == []
    && forall i :: 0 <= i < NUM ==> s.d.free[i] && s.d.desc[i] == EmptyDesc()
  }

  lemma StepInv(s: Sys, step: Step)
    requires Inv(s) && Enabled(s, step)
    ensures Inv(Do(s, step))
  {
    match step
    case Submit(b, cmd) => SubmitKeeps(s, b, cmd);
    case Publish => PublishKeeps(s);
    case DevTake => DevTakeKeeps(s);
    case DevWrite(h, v) => DevWriteKeeps(s, h, v);
    case DevPublish => DevPublishKeeps(s);
    case IntrStart => LockOnly(s, Interrupt);
    case IntrOne => IntrOneKeeps(s);
    case IntrEnd => LockOnly(s, Free);
    case Finish(h) => FinishKeeps(s, h);
  }

  lemma LockOnly(s: Sys, l: Lock)
    requires Inv(s) && !s.lock.Submitting? && !l.Submitting?
    ensures Inv(s.(lock := l))
  {
    hide RingOk, ChainOk, StageOk;
    var t := s.(lock := l);
    MovedReqs(s, t);
    hide AllOwned, Buffers, Disjoint;
    assert Chains(t);
    assert Holds(t, t.availQ, InAvail) && Holds(t, t.usedQ, InUsed);
  }

  ghost predicate IsRun(run: seq<Sys>) {
    && run != [] && Initial(run[0])
    && forall i :: 0 <= i < |run| - 1 ==> exists step :: Enabled(run[i], step) && run[i + 1] == Do(run[i], step)
  }

  lemma {:induction false} RunInv(run: seq<Sys>, n: nat)
    requires IsRun(run) && n < |run|
    ensures Inv(run[n])
  {
    hide Inv, Do, Enabled, Initial;
    if n == 0 {
      InitialInv(run[0]);
    } else {
      RunInv(run, n - 1);
      var step :| Enabled(run[n - 1], step) && run[n - 1 + 1] == Do(run[n - 1], step);
      StepInv(run[n - 1], step);
    }
  }

  lemma InitialInv(s: Sys)
    requires Initial(s)
    ensures Inv(s)
  {
  }

  // ----- what this means -----

  /** In every run, two requests in flight share no descriptor and no buffer, and none of their descriptors is free. */
  lemma ChainsDisjoint(run: seq<Sys>, n: nat, h: nat, k: nat)
    requires IsRun(run) && n < |run| && h in run[n].reqs && k in run[n].reqs && h != k
    ensures ChainSet(h, run[n].reqs[h]) !! ChainSet(k, run[n].reqs[k]) && run[n].reqs[h].b != run[n].reqs[k].b
    ensures Sized(run[n].d) && forall i :: i in ChainSet(h, run[n].reqs[h]) ==> i < NUM && !run[n].d.free[i]
  {
    hide IsRun, RingsOk, AllOwned;
    RunInv(run, n);
    ChainApart(run[n], h, k);
    assert ChainOk(run[n].d, h, run[n].reqs[h]);
  }

  /** Whatever the driver and the device do, the part of the avail ring the device has not read, and the part of the
      used ring the driver has not read, stay as they were. */
  lemma UnreadKept(s: Sys, step: Step)
    requires Inv(s) && Enabled(s, step)
    ensures |Do(s, step).d.avail| == NUM && RingOk(Do(s, step).d.avail, s.devAvail, s.d.availIdx, s.availQ)
    ensures |Do(s, step).d.used| == NUM && RingOk(Do(s, step).d.used, s.d.seen, s.d.usedIdx, s.usedQ)
  {
    hide ReqsOk, HandsOk, SlotsOk, Holds, RingOk, Triple;
    match step
    case Submit(b, cmd) =>
      TripleFree(s.d);
      RingStore(s.d.avail, s.devAvail, s.d.availIdx, s.availQ, Triple(s.d).0);
    case DevWrite(h, _) =>
      RingStore(s.d.used, s.d.seen, s.d.usedIdx, s.usedQ, h);
    case _ =>
  }

  /** The device takes the published requests in order, each once. */
  lemma TakenOnce(s: Sys)
    requires Inv(s) && Enabled(s, DevTake)
    ensures s.availQ != [] && s.d.avail[s.devAvail % NUM] == s.availQ[0]
    ensures s.availQ[0] in s.reqs && s.reqs[s.availQ[0]].stage.InAvail? && s.availQ[0] !in s.device
    ensures Do(s, DevTake).availQ == s.availQ[1..]
  {
    hide ReqsOk, RingOk, Holds;
    RingEmpty(s.d.avail, s.devAvail, s.d.availIdx, s.availQ);
    RingPop(s.d.avail, s.devAvail, s.d.availIdx, s.availQ);
    HeldAt(s, s.availQ, InAvail, 0);
  }

  /** When a request finishes, its chain is three different descriptors, none of them free, that end after the
      third: the panics of free_desc cannot happen, and each descriptor is freed once. */
  lemma FreeNeverPanics(s: Sys, h: nat)
    requires Inv(s) && Enabled(s, Finish(h))
    ensures var r := s.reqs[h];
      && h < NUM && r.d1 < NUM && r.d2 < NUM && h != r.d1 && h != r.d2 && r.d1 != r.d2
      && !s.d.free[h] && !s.d.free[r.d1] && !s.d.free[r.d2]
      && HasNext(s.d.desc[h]) && s.d.desc[h].next == r.d1 && HasNext(s.d.desc[r.d1]) && s.d.desc[r.d1].next == r.d2
      && !HasNext(s.d.desc[r.d2]) && r.stage.Seen?
  {
    hide RingsOk, HandsOk, SlotsOk, AllOwned, Disjoint, Buffers;
    assert ChainOk(s.d, h, s.reqs[h]) && StageOk(s.d, h, s.reqs[h]);
  }

  /** A disk flag is cleared only for a request that the device has completed. */
  lemma ClearedWhenDone(s: Sys, step: Step, b: nat)
    requires Inv(s) && Enabled(s, step) && b in s.d.pending && b !in Do(s, step).d.pending
    ensures step.IntrOne? && s.usedQ != [] && s.usedQ[0] in s.reqs && s.reqs[s.usedQ[0]].b == b
    ensures s.usedQ[0] < NUM && s.d.info[s.usedQ[0]].status == 0
  {
    hide ReqsOk, RingsOk, HandsOk, SlotsOk;
    match step
    case IntrOne => CompletionIsOwn(s);
    case Finish(h) => FinishPending(s, h);
    case _ =>
  }

  lemma FinishPending(s: Sys, h: nat)
    requires Enabled(s, Finish(h))
    ensures Do(s, Finish(h)).d.pending == s.d.pending
  {
  }
}
