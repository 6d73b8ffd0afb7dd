/** The buffer cache (kernel/bio.c) under the log (kernel/log.c): any interleaving of threads that follow
    bread / change / log_write / brelse, with commits installing logged blocks. */
module BufferCache {
  import opened Blocks
  import opened Values

  const NBUF: nat := 30

  /** A disk block's name: device and block number. */
  datatype Key = Key(dev: nat, blockno: nat)

  datatype Buf = Buf(key: Key, valid: bool, refcnt: nat, data: Block)

  /** The buffers and their list, most recently released first. */
  datatype Cache = Cache(bufs: seq<Buf>, order: seq<nat>)

  ghost predicate Permutation(order: seq<nat>) {
    && |order| == NBUF
    && (forall k :: 0 <= k < NBUF ==> order[k] < NBUF)
    && (forall j, k :: 0 <= j < k < NBUF ==> order[j] != order[k])
    && (forall i: nat :: i < NBUF ==> Listed(order, i))
  }

  ghost predicate Listed(order: seq<nat>, i: nat) {
    exists p :: 0 <= p < |order| && order[p] == i
  }

  /** Where buffer i is in the list. */
  ghost function Pos(order: seq<nat>, i: nat): (p: nat)
    requires Permutation(order) && i < NBUF
    ensures p < NBUF && order[p] == i
  {
    assert Listed(order, i);
    var p :| 0 <= p < |order| && order[p] == i;
    p
  }

  ghost predicate Shaped(c: Cache) {
    |c.bufs| == NBUF && Permutation(c.order)
  }

  // ----- bget -----

  /** The first buffer in list order that holds the block, scanning from position k. */
  function Lookup(c: Cache, key: Key, k: nat): (r: Option<nat>)
    requires Shaped(c) && k <= NBUF
    ensures r.Some? ==> r.value < NBUF && c.bufs[r.value].key == key
    decreases NBUF - k
  {
    if k == NBUF then None
    else if c.bufs[c.order[k]].key == key then Some(c.order[k])
    else Lookup(c, key, k + 1)
  }

  /** The last buffer in list order that nobody refers to, among the first k. */
  function Victim(c: Cache, k: nat): (r: Option<nat>)
    requires Shaped(c) && k <= NBUF
    ensures r.Some? ==> r.value < NBUF && c.bufs[r.value].refcnt == 0
  {
    if k == 0 then None
    else if c.bufs[c.order[k - 1]].refcnt == 0 then Some(c.order[k - 1])
    else Victim(c, k - 1)
  }

  lemma {:induction false} LookupMisses(c: Cache, key: Key, k: nat, j: nat)
    requires Shaped(c) && k <= j < NBUF && Lookup(c, key, k).None?
    ensures c.bufs[c.order[j]].key != key
    decreases NBUF - k
  {
    if k < j {
      LookupMisses(c, key, k + 1, j);
    }
  }

  lemma {:induction false} VictimMisses(c: Cache, k: nat, j: nat)
    requires Shaped(c) && j < k <= NBUF && Victim(c, k).None?
    ensures c.bufs[c.order[j]].refcnt > 0
  {
    if j < k - 1 {
      VictimMisses(c, k - 1, j);
    }
  }

  /** No buffer is chosen exactly if none holds the block and all are in use. */
  lemma NoneChosen(c: Cache, key: Key)
    requires Shaped(c)
    ensures Lookup(c, key, 0).None? <==> forall i: nat :: i < NBUF ==> c.bufs[i].key != key
    ensures Victim(c, NBUF).None? <==> forall i: nat :: i < NBUF ==> c.bufs[i].refcnt > 0
  {
    hide Permutation;
    if Lookup(c, key, 0).None? {
      forall i: nat | i < NBUF
        ensures c.bufs[i].key != key
      {
        LookupMisses(c, key, 0, Pos(c.order, i));
      }
    }
    if Victim(c, NBUF).None? {
      forall i: nat | i < NBUF
        ensures c.bufs[i].refcnt > 0
      {
        VictimMisses(c, NBUF, Pos(c.order, i));
      }
    }
  }

  /** The victim is in the list, and everything after it is referred to. */
  lemma {:induction false} VictimLast(c: Cache, k: nat) returns (p: nat)
    requires Shaped(c) && k <= NBUF && Victim(c, k).Some?
    ensures p < k && c.order[p] == Victim(c, k).value
    ensures forall j :: p < j < k ==> c.bufs[c.order[j]].refcnt > 0
  {
    if c.bufs[c.order[k - 1]].refcnt == 0 {
      p := k - 1;
    } else {
      p := VictimLast(c, k - 1);
    }
  }

  /** bget up to the sleep lock: which buffer, if any, is chosen. */
  function Chosen(c: Cache, key: Key): (r: Option<nat>)
    requires Shaped(c)
    ensures r.Some? ==> r.value < NBUF
  {
    var hit := Lookup(c, key, 0);
    if hit.Some? then hit else Victim(c, NBUF)
  }

  function Get(c: Cache, key: Key): (d: Cache)
    requires Shaped(c) && Chosen(c, key).Some?
    ensures Shaped(d)
  {
    var i := Chosen(c, key).value;
    var b := c.bufs[i];
    c.(bufs := c.bufs[i := if Lookup(c, key, 0).Some? then b.(refcnt := b.refcnt + 1)
                           else Buf(key, false, 1, b.data)])
  }

  lemma GetChanges(c: Cache, key: Key)
    requires Shaped(c) && Chosen(c, key).Some?
    ensures var i := Chosen(c, key).value;
            Get(c, key).bufs[i] == if Lookup(c, key, 0).Some? then c.bufs[i].(refcnt := c.bufs[i].refcnt + 1)
                                   else Buf(key, false, 1, c.bufs[i].data)
  {
  }

  // ----- brelse -----

  /** Where the element at position k came from when the one at p moved to the front. */
  function Source(p: nat, k: nat): (from: nat) {
    if k == 0 then p else if k <= p then k - 1 else k
  }

  lemma MovedIsPermutation(order: seq<nat>, r: seq<nat>, p: nat)
    requires Permutation(order) && p < NBUF && |r| == NBUF
    requires forall k: nat :: k < NBUF ==> r[k] == order[Source(p, k)]
    ensures Permutation(r)
  {
    forall x: nat | x < NBUF
      ensures Listed(r, x)
    {
      var q := Pos(order, x);
      var q' := if q < p then q + 1 else if q == p then 0 else q;
      assert r[q'] == order[Source(p, q')];
    }
  }

  /** The list with buffer i at the front, the ones before it shifted down by one, the rest in place. */
  ghost function ToFront(order: seq<nat>, i: nat): (r: seq<nat>)
    requires Permutation(order) && i < NBUF
    ensures Permutation(r) && r[0] == i
  {
    var p := Pos(order, i);
    var r := seq(NBUF, k requires 0 <= k < NBUF => order[Source(p, k)]);
    MovedIsPermutation(order, r, p);
    r
  }

  ghost function Release(c: Cache, i: nat): (d: Cache)
    requires Shaped(c) && i < NBUF && c.bufs[i].refcnt > 0
  {
    var b := c.bufs[i].(refcnt := c.bufs[i].refcnt - 1);
    Cache(c.bufs[i := b], if b.refcnt == 0 then ToFront(c.order, i) else c.order)
  }

  // ----- the system -----

  /** What the threads are doing with one buffer: whether its sleep lock is held, how many threads have a
      reference but wait for that lock, how many have released it in brelse and not yet dropped their reference,
      whether the holder has changed it and not yet called log_write; and when it was last released. */
  datatype Use = Use(locked: bool, waiting: nat, leaving: nat, dirty: bool, stamp: nat)

  /** `disk` is what is on the disk; `log` the blocks of the current transaction not yet installed; `copies` the
      contents write_log has put in the log area; `view` what the last change to each block put there. */
  datatype Sys = Sys(
    cache: Cache, uses: seq<Use>, disk: map<Key, Block>, view: map<Key, Block>,
    log: set<Key>, copies: map<Key, Block>, committing: bool, clock: nat)

  ghost predicate Init(s: Sys) {
    && s.cache == Cache(seq(NBUF, _ => Buf(Key(0, 0), false, 0, ZeroBlock())),
                        seq(NBUF, k requires 0 <= k < NBUF => NBUF - 1 - k))
    && s.uses == seq(NBUF, i requires 0 <= i => Use(false, 0, 0, false, i))
    && s.view == s.disk && s.log == {} && s.copies == map[] && !s.committing && s.clock == NBUF
  }

  datatype Step =
    | SGet(key: Key)
    | SLock(i: nat)
    | SFill(i: nat)
    | SChange(i: nat, data: Block)
    | SLogWrite(i: nat)
    | SWrite(i: nat)
    | SUnlock(i: nat)
    | SRelease(i: nat)
    | SCopy(i: nat)
    | SInstall(i: nat)
    | SCommit(on: bool)

  ghost predicate Sized(s: Sys) {
    Shaped(s.cache) && |s.uses| == NBUF
  }

  /** The holder of a filled buffer. */
  ghost predicate Holds(s: Sys, i: nat)
    requires Sized(s)
  {
    i < NBUF && s.uses[i].locked && s.cache.bufs[i].valid
  }

  /** The system with buffer i and its use replaced. */
  ghost function Put(s: Sys, i: nat, b: Buf, u: Use): (t: Sys)
    requires Sized(s) && i < NBUF
    ensures Sized(t)
  {
    s.(cache := s.cache.(bufs := s.cache.bufs[i := b]), uses := s.uses[i := u])
  }

  /** bget's critical section; device numbers in use are not 0. */
  ghost predicate GetNext(s: Sys, t: Sys, key: Key)
    requires Sized(s)
  {
    && key.dev != 0 && key in s.disk && Chosen(s.cache, key).Some?
    && var i := Chosen(s.cache, key).value;
       t == Put(s, i, Get(s.cache, key).bufs[i], s.uses[i].(waiting := s.uses[i].waiting + 1))
  }

  ghost predicate NextBy(s: Sys, t: Sys, step: Step)
    requires Sized(s)
  {
    match step
    case SGet(key) => GetNext(s, t, key)
    case SLock(i) =>  // acquiresleep succeeds
      && i < NBUF && s.uses[i].waiting > 0 && !s.uses[i].locked
      && t == Put(s, i, s.cache.bufs[i], s.uses[i].(locked := true, waiting := s.uses[i].waiting - 1))
    case SFill(i) =>  // bread: virtio_disk_rw(b, 0)
      && i < NBUF && s.uses[i].locked && !s.cache.bufs[i].valid && s.cache.bufs[i].key in s.disk
      && var b := s.cache.bufs[i];
         t == Put(s, i, b.(valid := true, data := s.disk[b.key]), s.uses[i])
    case SChange(i, data) =>  // the holder modifies b->data; during a commit only log-area blocks change
      && Holds(s, i)
      && var b := s.cache.bufs[i];
         && (s.committing ==> b.key !in s.log)
         && t == Put(s, i, b.(data := data), s.uses[i].(dirty := true)).(view := s.view[b.key := data])
    case SLogWrite(i) =>  // log_write: pin unless already in the log
      && Holds(s, i) && !s.committing
      && var b := s.cache.bufs[i];
         t == Put(s, i, if b.key in s.log then b else b.(refcnt := b.refcnt + 1), s.uses[i].(dirty := false))
              .(log := s.log + {b.key})
    case SWrite(i) =>  // bwrite of a block that is not in the log (log copies and the header)
      && Holds(s, i) && s.cache.bufs[i].key !in s.log
      && var b := s.cache.bufs[i];
         t == Put(s, i, b, s.uses[i].(dirty := false)).(disk := s.disk[b.key := b.data])
    case SUnlock(i) =>  // brelse's releasesleep, once every change has been handed to log_write
      && i < NBUF && s.uses[i].locked && !s.uses[i].dirty
      && t == Put(s, i, s.cache.bufs[i], s.uses[i].(locked := false, leaving := s.uses[i].leaving + 1))
    case SRelease(i) =>  // brelse's critical section
      && i < NBUF && s.uses[i].leaving > 0 && s.cache.bufs[i].refcnt > 0
      && var c := Release(s.cache, i);
         t == s.(cache := c, clock := s.clock + 1,
                 uses := s.uses[i := s.uses[i].(leaving := s.uses[i].leaving - 1,
                                                stamp := if c.bufs[i].refcnt == 0 then s.clock else s.uses[i].stamp)])
    case SCopy(i) =>  // write_log copies the cached block into the log area
      && Holds(s, i) && s.committing && s.cache.bufs[i].key in s.log
      && t == s.(copies := s.copies[s.cache.bufs[i].key := s.cache.bufs[i].data])
    case SInstall(i) =>  // install_trans: copy from the log area, bwrite, bunpin
      && Holds(s, i) && s.committing && s.cache.bufs[i].refcnt > 0
      && var b := s.cache.bufs[i];
         && b.key in s.log && b.key in s.copies
         && t == Put(s, i, b.(data := s.copies[b.key], refcnt := b.refcnt - 1), s.uses[i])
                 .(disk := s.disk[b.key := s.copies[b.key]], log := s.log - {b.key}, copies := s.copies - {b.key})
    case SCommit(on) =>  // a commit starts when no operation is active and ends with an empty log
      && s.committing == !on
      && (if on then forall i: nat :: i < NBUF ==> !s.uses[i].dirty else s.log == {})
      && t == s.(committing := on)
  }

  ghost predicate Next(s: Sys, t: Sys)
    requires Sized(s)
  {
    exists step :: NextBy(s, t, step)
  }

  ghost predicate IsRun(run: seq<Sys>) {
    && run != []
    && Init(run[0])
    && (forall k :: 0 <= k < |run| ==> Sized(run[k]))
    && forall k :: 0 <= k < |run| - 1 ==> Next(run[k], run[k + 1])
  }

  // ----- invariants -----

  /** No block has two buffers. */
  ghost predicate Unique(c: Cache)
    requires Shaped(c)
  {
    forall i: nat, j: nat :: i < j < NBUF && c.bufs[i].key.dev != 0 ==> c.bufs[i].key != c.bufs[j].key
  }

  /** One buffer: a reference for the lock holder, one per waiter or leaver and one while its block is in the log;
      filled buffers hold the last contents given to their block. */
  ghost predicate BufInv(s: Sys, b: Buf, u: Use) {
    && b.refcnt == One(u.locked) + u.waiting + u.leaving + One(b.key in s.log)
    && (u.locked || u.waiting > 0 || u.leaving > 0 ==> b.key.dev != 0)
    && (u.dirty ==> u.locked && b.valid)
    && (b.valid ==> b.key.dev != 0 && b.key in s.view && b.data == s.view[b.key])
    && (u.dirty ==> s.committing ==> b.key !in s.log)
  }

  ghost predicate Resident(s: Sys, key: Key)
    requires Sized(s)
  {
    exists i: nat :: i < NBUF && s.cache.bufs[i].key == key && s.cache.bufs[i].valid
  }

  ghost predicate BeingChanged(s: Sys, key: Key)
    requires Sized(s)
  {
    exists i: nat :: i < NBUF && s.cache.bufs[i].key == key && s.uses[i].dirty
  }

  /** One block: if logged it is in the cache; if neither logged nor being changed the disk has its last contents. */
  ghost predicate KeyInv(s: Sys, key: Key)
    requires Sized(s) && s.view.Keys == s.disk.Keys
  {
    && (key in s.log ==> key.dev != 0 && Resident(s, key))
    && (key in s.copies ==> s.committing && key in s.log && key in s.view && s.copies[key] == s.view[key])
    && (key in s.disk && key !in s.log && !BeingChanged(s, key) ==> s.disk[key] == s.view[key])
  }

  /** The list is sorted by time of last release, most recent first. */
  ghost predicate Recency(s: Sys)
    requires Sized(s)
  {
    && (forall i: nat :: i < NBUF ==> s.uses[i].stamp < s.clock)
    && Sorted(s.cache.order, s.uses)
  }

  ghost predicate Sorted(order: seq<nat>, uses: seq<Use>)
    requires Permutation(order) && |uses| == NBUF
  {
    forall j, k :: 0 <= j < k < NBUF ==> uses[order[j]].stamp > uses[order[k]].stamp
  }

  lemma ToFrontSorted(order: seq<nat>, uses: seq<Use>, i: nat, u: Use)
    requires Permutation(order) && |uses| == NBUF && Sorted(order, uses) && i < NBUF
    requires forall j: nat :: j < NBUF ==> uses[j].stamp < u.stamp
    ensures Permutation(ToFront(order, i)) && Sorted(ToFront(order, i), uses[i := u])
  {
    var p := Pos(order, i);
    var r, v := ToFront(order, i), uses[i := u];
    forall j, k | 0 <= j < k < NBUF
      ensures v[r[j]].stamp > v[r[k]].stamp
    {
      assert r[k] == order[Source(p, k)] && r[j] == order[Source(p, j)];
    }
  }

  ghost predicate Inv(s: Sys) {
    && Sized(s) && Unique(s.cache) && Recency(s)
    && s.view.Keys == s.disk.Keys
    && (forall i: nat :: i < NBUF ==> BufInv(s, s.cache.bufs[i], s.uses[i]))
    && (forall key :: KeyInv(s, key))
  }

  lemma InitInv(s: Sys)
    requires Init(s)
    ensures Inv(s)
  {
    forall i: nat | i < NBUF
      ensures Listed(s.cache.order, i)
    {
      assert s.cache.order[NBUF - 1 - i] == i;
    }
  }

  /** Nothing but buffer i changes. */
  ghost predicate BufFrame(s: Sys, t: Sys, i: nat)
    requires Sized(s) && Sized(t) && i < NBUF
  {
    forall j: nat :: j < NBUF && j != i ==> t.cache.bufs[j] == s.cache.bufs[j] && t.uses[j] == s.uses[j]
  }

  /** Nothing but the named block changes. */
  ghost predicate KeyFrame(s: Sys, t: Sys, key: Key) {
    && t.committing == s.committing
    && forall k :: k != key ==>
         && (k in t.log <==> k in s.log)
         && (k in t.disk <==> k in s.disk) && (k in s.disk ==> t.disk[k] == s.disk[k])
         && (k in t.view <==> k in s.view) && (k in s.view ==> t.view[k] == s.view[k])
         && (k in t.copies <==> k in s.copies) && (k in s.copies ==> t.copies[k] == s.copies[k])
  }

  /** If a step touches only buffer i, which holds `key` before and after, the invariants of the
      other buffers and blocks carry over. */
  lemma FrameKeeps(s: Sys, t: Sys, i: nat, key: Key)
    requires Inv(s) && Sized(t) && i < NBUF && BufFrame(s, t, i) && KeyFrame(s, t, key)
    requires s.cache.bufs[i].key == t.cache.bufs[i].key == key && key.dev != 0
    requires t.view.Keys == t.disk.Keys
    ensures Unique(t.cache)
    ensures forall j: nat :: j < NBUF && j != i ==> BufInv(t, t.cache.bufs[j], t.uses[j])
    ensures forall k :: k != key ==> KeyInv(t, k)
  {
    assert forall j: nat :: j < NBUF ==> t.cache.bufs[j].key == s.cache.bufs[j].key;
    forall j: nat | j < NBUF && j != i
      ensures BufInv(t, t.cache.bufs[j], t.uses[j])
    {
      assert BufInv(s, s.cache.bufs[j], s.uses[j]);
      assert s.cache.bufs[j].key != key;
    }
    forall k | k != key
      ensures KeyInv(t, k)
    {
      assert KeyInv(s, k);
      OtherKey(s, t, i, key, k);
    }
  }

  lemma OtherKey(s: Sys, t: Sys, i: nat, key: Key, k: Key)
    requires Sized(s) && Sized(t) && i < NBUF && BufFrame(s, t, i) && KeyFrame(s, t, key) && k != key
    requires s.cache.bufs[i].key != k && t.cache.bufs[i].key != k
    ensures Resident(t, k) <==> Resident(s, k)
    ensures BeingChanged(t, k) <==> BeingChanged(s, k)
  {
    if Resident(s, k) {
      var j: nat :| j < NBUF && s.cache.bufs[j].key == k && s.cache.bufs[j].valid;
      assert t.cache.bufs[j].key == k;
    }
    if Resident(t, k) {
      var j: nat :| j < NBUF && t.cache.bufs[j].key == k && t.cache.bufs[j].valid;
      assert s.cache.bufs[j].key == k;
    }
    if BeingChanged(s, k) {
      var j: nat :| j < NBUF && s.cache.bufs[j].key == k && s.uses[j].dirty;
      assert t.cache.bufs[j].key == k;
    }
    if BeingChanged(t, k) {
      var j: nat :| j < NBUF && t.cache.bufs[j].key == k && t.uses[j].dirty;
      assert s.cache.bufs[j].key == k;
    }
  }

  /** The block of a buffer, when no other buffer has it: its flags are that buffer's. */
  lemma OwnKey(s: Sys, i: nat)
    requires Sized(s) && Unique(s.cache) && i < NBUF && s.cache.bufs[i].key.dev != 0
    ensures Resident(s, s.cache.bufs[i].key) <==> s.cache.bufs[i].valid
    ensures BeingChanged(s, s.cache.bufs[i].key) <==> s.uses[i].dirty
  {
  }

  ghost predicate IsHolderStep(step: Step) {
    !step.SGet? && !step.SCommit? && !step.SRelease?
  }

  lemma HolderBufFrame(s: Sys, t: Sys, step: Step)
    requires Inv(s) && NextBy(s, t, step) && Sized(t) && IsHolderStep(step)
    ensures step.i < NBUF && s.cache.bufs[step.i].key == t.cache.bufs[step.i].key
    ensures s.cache.bufs[step.i].key.dev != 0
    ensures BufFrame(s, t, step.i)
    ensures t.cache.order == s.cache.order && t.uses[step.i].stamp == s.uses[step.i].stamp && t.clock == s.clock
  {
    assert BufInv(s, s.cache.bufs[step.i], s.uses[step.i]);
  }

  lemma HolderKeyFrame(s: Sys, t: Sys, step: Step)
    requires Inv(s) && NextBy(s, t, step) && Sized(t) && IsHolderStep(step)
    ensures step.i < NBUF && KeyFrame(s, t, s.cache.bufs[step.i].key) && t.view.Keys == t.disk.Keys
  {
    assert BufInv(s, s.cache.bufs[step.i], s.uses[step.i]);
  }

  lemma SameRecency(s: Sys, t: Sys, i: nat)
    requires Sized(s) && Sized(t) && Recency(s) && i < NBUF && BufFrame(s, t, i)
    requires t.cache.order == s.cache.order && t.uses[i].stamp == s.uses[i].stamp && t.clock == s.clock
    ensures Recency(t)
  {
    assert forall j: nat :: j < NBUF ==> t.uses[j].stamp == s.uses[j].stamp;
  }

  /** What each holder step does to its own buffer. */
  lemma HolderOwn(s: Sys, t: Sys, step: Step)
    requires Inv(s) && NextBy(s, t, step) && Sized(t) && IsHolderStep(step)
    ensures step.i < NBUF && BufInv(t, t.cache.bufs[step.i], t.uses[step.i])
  {
    assert BufInv(s, s.cache.bufs[step.i], s.uses[step.i]);
    assert KeyInv(s, s.cache.bufs[step.i].key);
    OwnKey(s, step.i);
  }

  lemma HolderStep(s: Sys, t: Sys, step: Step)
    requires Inv(s) && NextBy(s, t, step) && Sized(t) && IsHolderStep(step)
    ensures Inv(t)
  {
    HolderBufFrame(s, t, step);
    HolderKeyFrame(s, t, step);
    SameRecency(s, t, step.i);
    FrameKeeps(s, t, step.i, s.cache.bufs[step.i].key);
    HolderKey(s, t, step);
    HolderOwn(s, t, step);
  }

  lemma HolderKey(s: Sys, t: Sys, step: Step)
    requires Inv(s) && NextBy(s, t, step) && Sized(t) && IsHolderStep(step)
    requires Unique(t.cache) && t.view.Keys == t.disk.Keys
    requires step.i < NBUF && s.cache.bufs[step.i].key == t.cache.bufs[step.i].key && s.cache.bufs[step.i].key.dev != 0
    ensures KeyInv(t, s.cache.bufs[step.i].key)
  {
    var i := step.i;
    OwnKey(s, i);
    OwnKey(t, i);
    assert BufInv(s, s.cache.bufs[i], s.uses[i]);
    assert KeyInv(s, s.cache.bufs[i].key);
  }

  lemma SameStamps(order: seq<nat>, uses: seq<Use>, uses': seq<Use>)
    requires Permutation(order) && |uses| == |uses'| == NBUF && Sorted(order, uses)
    requires forall i: nat :: i < NBUF ==> uses'[i].stamp == uses[i].stamp
    ensures Sorted(order, uses')
  {
  }

  lemma ReleaseOrder(s: Sys, t: Sys, i: nat)
    requires Sized(s) && Recency(s) && NextBy(s, t, SRelease(i))
    ensures Sized(t) && Recency(t)
  {
    hide ToFront, Sorted;
    if s.cache.bufs[i].refcnt == 1 {
      ToFrontSorted(s.cache.order, s.uses, i, s.uses[i].(leaving := s.uses[i].leaving - 1, stamp := s.clock));
    } else {
      SameStamps(s.cache.order, s.uses, t.uses);
    }
  }

  lemma ReleaseStep(s: Sys, t: Sys, i: nat)
    requires Inv(s) && NextBy(s, t, SRelease(i)) && Sized(t) && Recency(t)
    ensures Inv(t)
  {
    var key := s.cache.bufs[i].key;
    assert BufInv(s, s.cache.bufs[i], s.uses[i]) && KeyInv(s, key);
    OwnKey(s, i);
    assert BufFrame(s, t, i) && KeyFrame(s, t, key);
    FrameKeeps(s, t, i, key);
    OwnKey(t, i);
  }

  lemma ChosenFacts(s: Sys, key: Key)
    requires Inv(s) && Chosen(s.cache, key).Some? && key.dev != 0
    ensures var i := Chosen(s.cache, key).value;
            if Lookup(s.cache, key, 0).Some? then s.cache.bufs[i].key == key
            else Idle(s, i) && forall j: nat :: j < NBUF ==> s.cache.bufs[j].key != key
  {
    var i := Chosen(s.cache, key).value;
    assert BufInv(s, s.cache.bufs[i], s.uses[i]);
    if Lookup(s.cache, key, 0).None? {
      forall j: nat | j < NBUF
        ensures s.cache.bufs[j].key != key
      {
        LookupMisses(s.cache, key, 0, Pos(s.cache.order, j));
      }
    }
  }

  /** Nobody refers to buffer i. */
  ghost predicate Idle(s: Sys, i: nat)
    requires Sized(s)
  {
    && i < NBUF && s.cache.bufs[i].refcnt == 0 && s.cache.bufs[i].key !in s.log
    && !s.uses[i].locked && s.uses[i].waiting == 0 && s.uses[i].leaving == 0 && !s.uses[i].dirty
  }

  lemma HitStep(s: Sys, t: Sys, i: nat)
    requires Inv(s) && i < NBUF && s.cache.bufs[i].key.dev != 0
    requires var b, u := s.cache.bufs[i], s.uses[i];
             t == Put(s, i, b.(refcnt := b.refcnt + 1), u.(waiting := u.waiting + 1))
    ensures Inv(t)
  {
    var key := s.cache.bufs[i].key;
    assert BufInv(s, s.cache.bufs[i], s.uses[i]);
    assert KeyInv(s, key);
    OwnKey(s, i);
    assert BufFrame(s, t, i) && KeyFrame(s, t, key);
    FrameKeeps(s, t, i, key);
    OwnKey(t, i);
  }

  /** A buffer about to be recycled: its block is not being changed through another buffer. */
  lemma NotChanged(s: Sys, i: nat)
    requires Inv(s) && i < NBUF && !s.uses[i].dirty
    ensures !BeingChanged(s, s.cache.bufs[i].key)
  {
    assert forall j: nat :: j < NBUF ==> BufInv(s, s.cache.bufs[j], s.uses[j]);
  }

  ghost predicate Recycles(s: Sys, t: Sys, key: Key, i: nat) {
    && Sized(s) && Idle(s, i) && key.dev != 0 && key in s.disk
    && (forall j: nat :: j < NBUF ==> s.cache.bufs[j].key != key)
    && t == Put(s, i, Buf(key, false, 1, s.cache.bufs[i].data), s.uses[i].(waiting := 1))
  }

  lemma RecycleKey(s: Sys, t: Sys, key: Key, i: nat, k: Key)
    requires Inv(s) && Recycles(s, t, key, i)
    ensures KeyInv(t, k)
  {
    var was := s.cache.bufs[i].key;
    assert KeyInv(s, k);
    if k != key && k != was {
      assert BufFrame(s, t, i) && KeyFrame(s, t, key);
      OtherKey(s, t, i, key, k);
    } else if k == was {
      NotChanged(s, i);
    }
  }

  lemma RecycleShape(s: Sys, t: Sys, key: Key, i: nat)
    requires Inv(s) && Recycles(s, t, key, i)
    ensures Unique(t.cache) && Recency(t)
  {
    assert forall j: nat :: j < NBUF ==> t.uses[j].stamp == s.uses[j].stamp;
    assert Sorted(s.cache.order, s.uses);
  }

  lemma RecycleStep(s: Sys, t: Sys, key: Key, i: nat)
    requires Inv(s) && Recycles(s, t, key, i)
    ensures Inv(t)
  {
    RecycleShape(s, t, key, i);
    forall k
      ensures KeyInv(t, k)
    {
      RecycleKey(s, t, key, i, k);
    }
    assert KeyInv(s, key);
    forall j: nat | j < NBUF
      ensures BufInv(t, t.cache.bufs[j], t.uses[j])
    {
      assert BufInv(s, s.cache.bufs[j], s.uses[j]);
    }
  }

  /** bget's critical section is one of the two. */
  lemma GetIs(s: Sys, t: Sys, key: Key, i: nat)
    requires Sized(s) && GetNext(s, t, key) && i == Chosen(s.cache, key).value
    requires Lookup(s.cache, key, 0).None? ==> Idle(s, i) && forall j: nat :: j < NBUF ==> s.cache.bufs[j].key != key
    ensures if Lookup(s.cache, key, 0).None? then Recycles(s, t, key, i)
            else t == Put(s, i, s.cache.bufs[i].(refcnt := s.cache.bufs[i].refcnt + 1),
              s.uses[i].(waiting := s.uses[i].waiting + 1))
  {
    GetChanges(s.cache, key);
  }

  lemma GetStep(s: Sys, t: Sys, key: Key)
    requires Inv(s) && GetNext(s, t, key)
    ensures Inv(t)
  {
    ChosenFacts(s, key);
    var i := Chosen(s.cache, key).value;
    GetIs(s, t, key, i);
    if Lookup(s.cache, key, 0).None? {
      RecycleStep(s, t, key, i);
    } else {
      HitStep(s, t, i);
    }
  }

  lemma CommitStep(s: Sys, t: Sys, on: bool)
    requires Inv(s) && NextBy(s, t, SCommit(on))
    ensures Inv(t)
  {
    forall i: nat | i < NBUF
      ensures BufInv(t, t.cache.bufs[i], t.uses[i])
    {
      assert BufInv(s, s.cache.bufs[i], s.uses[i]);
    }
    forall k
      ensures KeyInv(t, k)
    {
      assert KeyInv(s, k);
    }
  }

  lemma StepInv(s: Sys, t: Sys, step: Step)
    requires Inv(s) && NextBy(s, t, step)
    ensures Inv(t)
  {
    match step
    case SGet(key) => GetStep(s, t, key);
    case SRelease(i) =>
      ReleaseOrder(s, t, i);
      ReleaseStep(s, t, i);
    case SCommit(on) => CommitStep(s, t, on);
    case _ => HolderStep(s, t, step);
  }

  lemma {:induction false} RunInv(run: seq<Sys>, k: nat)
    requires IsRun(run) && k < |run|
    ensures Inv(run[k])
  {
    if k == 0 {
      InitInv(run[0]);
    } else {
      RunInv(run, k - 1);
      assert Next(run[k - 1], run[k]);
      var step :| NextBy(run[k - 1], run[k], step);
      StepInv(run[k - 1], run[k], step);
    }
  }

  // ----- the promises -----

  /** In every state of every run: the list is a permutation of the buffers, no block has two buffers,
      references are accounted for, and a filled buffer that is neither locked nor logged equals its disk block. */
  lemma CacheAgreesWithDisk(run: seq<Sys>, k: nat, i: nat)
    requires IsRun(run) && k < |run| && i < NBUF
    ensures var s := run[k]; var b := s.cache.bufs[i]; var u := s.uses[i];
            && Permutation(s.cache.order)
            && (forall j: nat :: j < NBUF && j != i && b.key.dev != 0 ==> s.cache.bufs[j].key != b.key)
            && b.refcnt == One(u.locked) + u.waiting + u.leaving + One(b.key in s.log)
            && (b.valid && !u.locked && b.key !in s.log ==> b.key in s.disk && b.data == s.disk[b.key])
  {
    RunInv(run, k);
    var s := run[k];
    assert BufInv(s, s.cache.bufs[i], s.uses[i]) && KeyInv(s, s.cache.bufs[i].key);
    if s.cache.bufs[i].valid {
      OwnKey(s, i);
    }
  }

  /** A thread that holds a filled buffer sees the last contents anybody gave the block, whether they
      are on disk, in the log or only in the cache. */
  lemma ReadsSeeLastWrite(run: seq<Sys>, k: nat, i: nat)
    requires IsRun(run) && k < |run| && Holds(run[k], i)
    ensures var s := run[k]; var b := s.cache.bufs[i];
            b.key in s.view && b.data == s.view[b.key]
  {
    RunInv(run, k);
    assert BufInv(run[k], run[k].cache.bufs[i], run[k].uses[i]);
  }

  /** A block in the log is never evicted: bget cannot choose its buffer for another block. */
  lemma LoggedNeverEvicted(run: seq<Sys>, k: nat, key: Key, other: Key)
    requires IsRun(run) && k < |run| && key in run[k].log && other.dev != 0 && other != key
    requires Chosen(run[k].cache, other).Some?
    ensures Resident(run[k], key)
    ensures run[k].cache.bufs[Chosen(run[k].cache, other).value].key != key
  {
    RunInv(run, k);
    assert KeyInv(run[k], key);
    ChosenFacts(run[k], other);
  }

  lemma VictimOldest(c: Cache, uses: seq<Use>, j: nat)
    requires Shaped(c) && |uses| == NBUF && Sorted(c.order, uses)
    requires Victim(c, NBUF).Some? && j < NBUF && c.bufs[j].refcnt == 0
    ensures uses[Victim(c, NBUF).value].stamp <= uses[j].stamp
  {
    var v := Victim(c, NBUF).value;
    var p := VictimLast(c, NBUF);
    var q := Pos(c.order, j);
  }

  /** If a block is not cached and a buffer is unreferenced, bget recycles one: unreferenced and, among those, the one
      released longest ago. */
  lemma RecyclesLeastRecent(run: seq<Sys>, k: nat, key: Key, j: nat)
    requires IsRun(run) && k < |run| && forall i: nat :: i < NBUF ==> run[k].cache.bufs[i].key != key
    requires j < NBUF && run[k].cache.bufs[j].refcnt == 0
    ensures Chosen(run[k].cache, key).Some?
    ensures run[k].uses[Chosen(run[k].cache, key).value].stamp <= run[k].uses[j].stamp
    ensures run[k].cache.bufs[Chosen(run[k].cache, key).value].refcnt == 0
  {
    hide Lookup, Victim;
    RunInv(run, k);
    NoneChosen(run[k].cache, key);
    VictimOldest(run[k].cache, run[k].uses, j);
  }

  /** In every run, bget for a block of the disk can go on exactly if some buffer holds the block or some buffer is
      neither locked, nor waited for or being left, nor in the log: otherwise it panics. */
  lemma NoBuffersExactly(run: seq<Sys>, k: nat, key: Key)
    requires IsRun(run) && k < |run| && key.dev != 0 && key in run[k].disk
    ensures (exists t :: NextBy(run[k], t, SGet(key))) <==>
      exists i: nat :: i < NBUF && (run[k].cache.bufs[i].key == key || Unused(run[k], i))
  {
    hide Lookup, Victim;
    var s := run[k];
    RunInv(run, k);
    NoneChosen(s.cache, key);
    if i: nat :| i < NBUF && (s.cache.bufs[i].key == key || Unused(s, i)) {
      assert BufInv(s, s.cache.bufs[i], s.uses[i]);
      var c := Chosen(s.cache, key).value;
      var t := Put(s, c, Get(s.cache, key).bufs[c], s.uses[c].(waiting := s.uses[c].waiting + 1));
      assert NextBy(s, t, SGet(key));
    } else {
      forall i: nat | i < NBUF
        ensures s.cache.bufs[i].refcnt > 0 && s.cache.bufs[i].key != key
      {
        assert BufInv(s, s.cache.bufs[i], s.uses[i]) && !Unused(s, i);
      }
    }
  }

  ghost predicate Unused(s: Sys, i: nat)
    requires Sized(s) && i < NBUF
  {
    var u := s.uses[i];
    !u.locked && u.waiting == 0 && u.leaving == 0 && s.cache.bufs[i].key !in s.log
  }
}
