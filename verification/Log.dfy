/** The redo log (kernel/log.c): commit, installation and recovery as sequences
    of atomic single-block disk writes, with a crash possible between any two.

    Pure functions give the disk after each write. */
module Log {
  import opened Blocks
  import opened Params

  type DiskState = seq<Block>

  /** The log region is [start, start+size): one header block, then copies. */
  datatype Layout = Layout(start: nat, size: nat, total: nat)

  ghost predicate ValidLayout(l: Layout) {
    1 <= l.size && l.start + l.size <= l.total < 0x8000_0000
  }

  predicate InLog(l: Layout, b: nat) {
    l.start <= b < l.start + l.size
  }

  /** Block lists the log may hold: short enough, and every home outside the log. */
  ghost predicate ValidHomes(l: Layout, homes: seq<nat>) {
    && |homes| <= LOGSIZE
    && |homes| < l.size
    && forall i :: 0 <= i < |homes| ==> homes[i] < l.total && !InLog(l, homes[i])
  }

  // ----- the header block -----

  function HeaderCount(h: Block): (n: nat) {
    WordAt(h, 0)
  }

  function HeaderHomes(h: Block): (homes: seq<nat>)
    requires HeaderCount(h) <= LOGSIZE
  {
    seq(HeaderCount(h), i requires 0 <= i < HeaderCount(h) => WordAt(h, 1 + i))
  }

  /** write_head: the count and the first n slots are overwritten, the rest stays. */
  function PutHomes(h: Block, homes: seq<nat>, k: nat): (r: Block)
    requires k <= |homes| <= LOGSIZE
    requires forall i :: 0 <= i < |homes| ==> homes[i] < 0x8000_0000
  {
    if k == 0 then PutWord(h, 0, |homes|) else PutWord(PutHomes(h, homes, k - 1), k, homes[k - 1])
  }

  function PutHeader(h: Block, homes: seq<nat>): (r: Block)
    requires |homes| <= LOGSIZE
    requires forall i :: 0 <= i < |homes| ==> homes[i] < 0x8000_0000
  {
    PutHomes(h, homes, |homes|)
  }

  lemma {:induction false} PutHomesWords(h: Block, homes: seq<nat>, k: nat)
    requires k <= |homes| <= LOGSIZE
    requires forall i :: 0 <= i < |homes| ==> homes[i] < 0x8000_0000
    ensures WordAt(PutHomes(h, homes, k), 0) == |homes|
    ensures forall i :: 0 <= i < k ==> WordAt(PutHomes(h, homes, k), 1 + i) == homes[i]
  {
    if k == 0 {
      PutWordFrame(h, 0, |homes|);
    } else {
      PutHomesWords(h, homes, k - 1);
      PutWordFrame(PutHomes(h, homes, k - 1), k, homes[k - 1]);
    }
  }

  /** read_head after write_head yields the same list, whatever was there before. */
  lemma HeaderRoundTrip(h: Block, homes: seq<nat>)
    requires |homes| <= LOGSIZE
    requires forall i :: 0 <= i < |homes| ==> homes[i] < 0x8000_0000
    ensures HeaderCount(PutHeader(h, homes)) == |homes|
    ensures HeaderHomes(PutHeader(h, homes)) == homes
  {
    PutHomesWords(h, homes, |homes|);
  }

  // ----- disk states -----

  ghost predicate ValidDisk(l: Layout, d: DiskState) {
    && ValidLayout(l)
    && |d| == l.total
    && HeaderCount(d[l.start]) <= LOGSIZE
    && ValidHomes(l, HeaderHomes(d[l.start]))
  }

  /** No transaction is recorded in the header. */
  ghost predicate Clean(l: Layout, d: DiskState) {
    ValidDisk(l, d) && HeaderCount(d[l.start]) == 0
  }

  /** Two disks agree on every block outside the log. */
  ghost predicate SameHome(l: Layout, d: DiskState, e: DiskState) {
    && |d| == |e| == l.total
    && forall b :: 0 <= b < l.total && !InLog(l, b) ==> d[b] == e[b]
  }

  /** Outside the log, `e` is `d` with every listed block replaced by its new contents. */
  ghost predicate HomeUpdated(l: Layout, d: DiskState, e: DiskState, homes: seq<nat>, cached: map<nat, Block>) {
    && |d| == |e| == l.total
    && (forall b :: b in homes ==> b in cached)
    && forall b :: 0 <= b < l.total && !InLog(l, b) ==> e[b] == if b in homes then cached[b] else d[b]
  }

  // ----- the writes, one by one -----

  /** install_trans after k writes: log copy i has reached homes[i], in order. */
  function Installed(l: Layout, d: DiskState, homes: seq<nat>, k: nat): (e: DiskState)
    requires ValidLayout(l) && |d| == l.total && ValidHomes(l, homes) && k <= |homes|
    ensures |e| == l.total
  {
    if k == 0 then d
    else
      var e := Installed(l, d, homes, k - 1);
      e[homes[k - 1] := e[l.start + k]]
  }

  /** write_log after k writes. */
  function Logged(l: Layout, d: DiskState, homes: seq<nat>, cached: map<nat, Block>, k: nat): (e: DiskState)
    requires ValidLayout(l) && |d| == l.total && ValidHomes(l, homes) && k <= |homes|
    requires forall b :: b in homes ==> b in cached
    ensures |e| == l.total
  {
    if k == 0 then d
    else Logged(l, d, homes, cached, k - 1)[l.start + k := cached[homes[k - 1]]]
  }

  function WithHeader(l: Layout, d: DiskState, homes: seq<nat>): (e: DiskState)
    requires ValidLayout(l) && |d| == l.total && ValidHomes(l, homes)
  {
    d[l.start := PutHeader(d[l.start], homes)]
  }

  /** The disk after the first j of the n+1 writes of recover_from_log. */
  function RecoveryWrites(l: Layout, d: DiskState, j: nat): (e: DiskState)
    requires ValidDisk(l, d) && j <= HeaderCount(d[l.start]) + 1
    ensures |e| == l.total
  {
    var homes := HeaderHomes(d[l.start]);
    if j <= |homes| then Installed(l, d, homes, j)
    else WithHeader(l, Installed(l, d, homes, |homes|), [])
  }

  /** A whole, uninterrupted recovery. */
  function Recovered(l: Layout, d: DiskState): (e: DiskState)
    requires ValidDisk(l, d)
    ensures |e| == l.total
  {
    RecoveryWrites(l, d, HeaderCount(d[l.start]) + 1)
  }

  /** The disk right after the header write of a commit. */
  function Committed(l: Layout, d: DiskState, homes: seq<nat>, cached: map<nat, Block>): (c: DiskState)
    requires ValidLayout(l) && |d| == l.total && ValidHomes(l, homes)
    requires forall b :: b in homes ==> b in cached
    ensures |c| == l.total
  {
    WithHeader(l, Logged(l, d, homes, cached, |homes|), homes)
  }

  /** The disk after the first j of the 2n+2 writes of commit. */
  function CommitWrites(l: Layout, d: DiskState, homes: seq<nat>, cached: map<nat, Block>, j: nat): (e: DiskState)
    requires ValidLayout(l) && |d| == l.total && ValidHomes(l, homes) && j <= 2 * |homes| + 2
    requires forall b :: b in homes ==> b in cached
    ensures |e| == l.total
  {
    var n := |homes|;
    if j <= n then Logged(l, d, homes, cached, j)
    else
      var c := Committed(l, d, homes, cached);
      if j <= 2 * n + 1 then Installed(l, c, homes, j - n - 1)
      else WithHeader(l, Installed(l, c, homes, n), [])
  }

  // ----- the same writes as traces: the disk after each of them, in order -----

  function LogTrace(l: Layout, d: DiskState, homes: seq<nat>, cached: map<nat, Block>, k: nat): (t: seq<DiskState>)
    requires ValidLayout(l) && |d| == l.total && ValidHomes(l, homes) && k <= |homes|
    requires forall b :: b in homes ==> b in cached
    ensures |t| == k
  {
    if k == 0 then [] else LogTrace(l, d, homes, cached, k - 1) + [Logged(l, d, homes, cached, k)]
  }

  function InstallTrace(l: Layout, d: DiskState, homes: seq<nat>, k: nat): (t: seq<DiskState>)
    requires ValidLayout(l) && |d| == l.total && ValidHomes(l, homes) && k <= |homes|
    ensures |t| == k
  {
    if k == 0 then [] else InstallTrace(l, d, homes, k - 1) + [Installed(l, d, homes, k)]
  }

  function CommitTrace(l: Layout, d: DiskState, homes: seq<nat>, cached: map<nat, Block>): (t: seq<DiskState>)
    requires ValidLayout(l) && |d| == l.total && ValidHomes(l, homes)
    requires forall b :: b in homes ==> b in cached
    ensures |t| == 2 * |homes| + 2
  {
    var c := Committed(l, d, homes, cached);
    LogTrace(l, d, homes, cached, |homes|) + [c]
    + InstallTrace(l, c, homes, |homes|) + [WithHeader(l, Installed(l, c, homes, |homes|), [])]
  }

  function RecoveryTrace(l: Layout, d: DiskState): (t: seq<DiskState>)
    requires ValidDisk(l, d)
    ensures |t| == HeaderCount(d[l.start]) + 1
  {
    var homes := HeaderHomes(d[l.start]);
    InstallTrace(l, d, homes, |homes|) + [WithHeader(l, Installed(l, d, homes, |homes|), [])]
  }

  lemma {:induction false} LogTraceAt(l: Layout, d: DiskState, homes: seq<nat>, cached: map<nat, Block>, k: nat, j: nat)
    requires ValidLayout(l) && |d| == l.total && ValidHomes(l, homes) && 0 < j <= k <= |homes|
    requires forall b :: b in homes ==> b in cached
    ensures LogTrace(l, d, homes, cached, k)[j - 1] == Logged(l, d, homes, cached, j)
  {
    if j < k { LogTraceAt(l, d, homes, cached, k - 1, j); }
  }

  lemma {:induction false} InstallTraceAt(l: Layout, d: DiskState, homes: seq<nat>, k: nat, j: nat)
    requires ValidLayout(l) && |d| == l.total && ValidHomes(l, homes) && 0 < j <= k <= |homes|
    ensures InstallTrace(l, d, homes, k)[j - 1] == Installed(l, d, homes, j)
  {
    if j < k { InstallTraceAt(l, d, homes, k - 1, j); }
  }

  lemma TracesAreWrites(l: Layout, d: DiskState, homes: seq<nat>, cached: map<nat, Block>)
    requires ValidDisk(l, d) && ValidHomes(l, homes)
    requires forall b :: b in homes ==> b in cached
    ensures forall j :: 0 < j <= 2 * |homes| + 2 ==>
              CommitTrace(l, d, homes, cached)[j - 1] == CommitWrites(l, d, homes, cached, j)
    ensures forall j :: 0 < j <= HeaderCount(d[l.start]) + 1 ==> RecoveryTrace(l, d)[j - 1] == RecoveryWrites(l, d, j)
  {
    hide LogTrace, InstallTrace, Logged, WithHeader;
    var n := |homes|;
    forall j | 0 < j <= 2 * n + 2
      ensures CommitTrace(l, d, homes, cached)[j - 1] == CommitWrites(l, d, homes, cached, j)
    {
      if j <= n {
        LogTraceAt(l, d, homes, cached, n, j);
      } else if n + 1 < j <= 2 * n + 1 {
        InstallTraceAt(l, Committed(l, d, homes, cached), homes, n, j - n - 1);
      }
    }
    var found := HeaderHomes(d[l.start]);
    forall j | 0 < j <= |found| + 1
      ensures RecoveryTrace(l, d)[j - 1] == RecoveryWrites(l, d, j)
    {
      if j <= |found| { InstallTraceAt(l, d, found, |found|, j); }
    }
  }

  // ----- what the loops do to single blocks -----

  /** Index of the last occurrence of b, or -1. */
  ghost function LastAt(homes: seq<nat>, b: nat): (i: int)
    ensures -1 <= i < |homes|
    ensures i >= 0 ==> homes[i] == b
    ensures forall k :: i < k < |homes| ==> homes[k] != b
  {
    if homes == [] then -1
    else if homes[|homes| - 1] == b then |homes| - 1
    else LastAt(homes[..|homes| - 1], b)
  }

  /** Installation leaves the log region alone; a home block receives the log copy
      of its last listing among the installed ones. */
  lemma {:induction false} InstalledBlocks(l: Layout, d: DiskState, homes: seq<nat>, k: nat)
    requires ValidLayout(l) && |d| == l.total && ValidHomes(l, homes) && k <= |homes|
    ensures forall b :: 0 <= b < l.total && InLog(l, b) ==> Installed(l, d, homes, k)[b] == d[b]
    ensures forall b: nat {:trigger LastAt(homes[..k], b)} :: b < l.total && !InLog(l, b) ==>
              Installed(l, d, homes, k)[b] ==
              if LastAt(homes[..k], b) >= 0 then d[l.start + 1 + LastAt(homes[..k], b)] else d[b]
  {
    if k > 0 {
      InstalledBlocks(l, d, homes, k - 1);
      assert homes[..k][..k - 1] == homes[..k - 1];
    }
  }

  lemma {:induction false} LoggedBlocks(l: Layout, d: DiskState, homes: seq<nat>, cached: map<nat, Block>, k: nat)
    requires ValidLayout(l) && |d| == l.total && ValidHomes(l, homes) && k <= |homes|
    requires forall b :: b in homes ==> b in cached
    ensures SameHome(l, d, Logged(l, d, homes, cached, k))
    ensures Logged(l, d, homes, cached, k)[l.start] == d[l.start]
    ensures forall i :: 0 <= i < k ==> Logged(l, d, homes, cached, k)[l.start + 1 + i] == cached[homes[i]]
  {
    if k > 0 {
      LoggedBlocks(l, d, homes, cached, k - 1);
    }
  }

  /** Recovery read off the disk it starts from: what each home block ends up holding. */
  lemma RecoveredHome(l: Layout, d: DiskState)
    requires ValidDisk(l, d)
    ensures var homes := HeaderHomes(d[l.start]);
            forall b: nat {:trigger LastAt(homes, b)} :: b < l.total && !InLog(l, b) ==>
              Recovered(l, d)[b] == if LastAt(homes, b) >= 0 then d[l.start + 1 + LastAt(homes, b)] else d[b]
    ensures Clean(l, Recovered(l, d))
  {
    var homes := HeaderHomes(d[l.start]);
    InstalledBlocks(l, d, homes, |homes|);
    assert homes[..|homes|] == homes;
    HeaderRoundTrip(Installed(l, d, homes, |homes|)[l.start], []);
  }

  // ----- recovery is idempotent and restartable -----

  lemma CleanRecovers(l: Layout, d: DiskState)
    requires Clean(l, d)
    ensures SameHome(l, Recovered(l, d), d)
  {
    RecoveredHome(l, d);
    assert HeaderHomes(d[l.start]) == [];
    forall b: nat | b < l.total && !InLog(l, b)
      ensures Recovered(l, d)[b] == d[b]
    {
      assert LastAt([], b) == -1;
    }
  }

  lemma LastAtPrefix(homes: seq<nat>, j: nat, b: nat)
    requires j <= |homes|
    ensures LastAt(homes, b) < 0 ==> LastAt(homes[..j], b) < 0
  {
    var i := LastAt(homes[..j], b);
    assert i >= 0 ==> homes[i] == b;
  }

  lemma PartRecoveryRestartable(l: Layout, d: DiskState, j: nat)
    requires ValidDisk(l, d) && j <= HeaderCount(d[l.start])
    ensures var e := Installed(l, d, HeaderHomes(d[l.start]), j);
            ValidDisk(l, e) && SameHome(l, Recovered(l, e), Recovered(l, d))
  {
    hide Installed, Recovered, Clean, WordAt;
    var homes := HeaderHomes(d[l.start]);
    var e := Installed(l, d, homes, j);
    InstalledBlocks(l, d, homes, j);
    assert e[l.start] == d[l.start];
    RecoveredHome(l, d);
    RecoveredHome(l, e);
    forall b: nat | b < l.total && !InLog(l, b)
      ensures Recovered(l, e)[b] == Recovered(l, d)[b]
    {
      LastAtPrefix(homes, j, b);
    }
  }

  /** A crash after any number of recovery writes, then a full recovery, gives the same home blocks. */
  lemma RecoveryRestartable(l: Layout, d: DiskState, j: nat)
    requires ValidDisk(l, d) && j <= HeaderCount(d[l.start]) + 1
    ensures ValidDisk(l, RecoveryWrites(l, d, j))
    ensures SameHome(l, Recovered(l, RecoveryWrites(l, d, j)), Recovered(l, d))
  {
    if j <= HeaderCount(d[l.start]) {
      PartRecoveryRestartable(l, d, j);
    } else {
      RecoveredHome(l, d);
      CleanRecovers(l, Recovered(l, d));
    }
  }

  /** Recovery attempts that are each cut short: attempt i performs at most cuts[i] writes. */
  function CrashingRecoveries(l: Layout, d: DiskState, cuts: seq<nat>): (e: DiskState)
    requires ValidDisk(l, d)
    ensures ValidDisk(l, e)
    decreases |cuts|
  {
    if cuts == [] then d
    else
      var most := HeaderCount(d[l.start]) + 1;
      var j := if cuts[0] <= most then cuts[0] else most;
      RecoveryRestartable(l, d, j);
      CrashingRecoveries(l, RecoveryWrites(l, d, j), cuts[1..])
  }

  /** However often recovery is interrupted, and wherever, the final outcome is that of one recovery. */
  lemma {:induction false} RepeatedCrashes(l: Layout, d: DiskState, cuts: seq<nat>)
    requires ValidDisk(l, d)
    ensures SameHome(l, Recovered(l, CrashingRecoveries(l, d, cuts)), Recovered(l, d))
    decreases |cuts|
  {
    if cuts != [] {
      var most := HeaderCount(d[l.start]) + 1;
      var j := if cuts[0] <= most then cuts[0] else most;
      RecoveryRestartable(l, d, j);
      RepeatedCrashes(l, RecoveryWrites(l, d, j), cuts[1..]);
    }
  }

  // ----- commit is atomic -----

  lemma CommittedLastAt(homes: seq<nat>, b: nat)
    ensures (LastAt(homes, b) >= 0) == (b in homes)
  {
  }

  lemma CommittedDisk(l: Layout, d: DiskState, homes: seq<nat>, cached: map<nat, Block>)
    requires Clean(l, d) && ValidHomes(l, homes)
    requires forall b :: b in homes ==> b in cached
    ensures ValidDisk(l, Committed(l, d, homes, cached))
    ensures HeaderHomes(Committed(l, d, homes, cached)[l.start]) == homes
    ensures SameHome(l, d, Committed(l, d, homes, cached))
    ensures forall i :: 0 <= i < |homes| ==> Committed(l, d, homes, cached)[l.start + 1 + i] == cached[homes[i]]
  {
    LoggedBlocks(l, d, homes, cached, |homes|);
    HeaderRoundTrip(Logged(l, d, homes, cached, |homes|)[l.start], homes);
  }

  lemma CommittedRecovers(l: Layout, d: DiskState, homes: seq<nat>, cached: map<nat, Block>)
    requires Clean(l, d) && ValidHomes(l, homes)
    requires forall b :: b in homes ==> b in cached
    ensures ValidDisk(l, Committed(l, d, homes, cached))
    ensures HomeUpdated(l, d, Recovered(l, Committed(l, d, homes, cached)), homes, cached)
  {
    var c := Committed(l, d, homes, cached);
    CommittedDisk(l, d, homes, cached);
    RecoveredHome(l, c);
    forall b: nat | b < l.total && !InLog(l, b)
      ensures Recovered(l, c)[b] == if b in homes then cached[b] else d[b]
    {
      CommittedLastAt(homes, b);
    }
  }

  /** Once the header lists `homes` and the copies are in the log, recovery yields the new
      contents, however much of the installation happened. */
  lemma InstallingRecovers(l: Layout, d: DiskState, homes: seq<nat>, cached: map<nat, Block>, k: nat)
    requires Clean(l, d) && ValidHomes(l, homes) && k <= |homes|
    requires forall b :: b in homes ==> b in cached
    ensures var e := Installed(l, Committed(l, d, homes, cached), homes, k);
            ValidDisk(l, e) && HomeUpdated(l, d, Recovered(l, e), homes, cached)
  {
    CommittedDisk(l, d, homes, cached);
    CommittedRecovers(l, d, homes, cached);
    RecoveryRestartable(l, Committed(l, d, homes, cached), k);
  }

  /** Crash atomicity: a crash after j of the 2n+2 writes of commit, followed by recovery, leaves
      the home blocks as before the transaction exactly when the header write has not happened
      (j <= n), and as after it otherwise. */
  lemma CommitAtomic(l: Layout, d: DiskState, homes: seq<nat>, cached: map<nat, Block>, j: nat)
    requires Clean(l, d) && ValidHomes(l, homes) && j <= 2 * |homes| + 2
    requires forall b :: b in homes ==> b in cached
    ensures var e := CommitWrites(l, d, homes, cached, j);
            && ValidDisk(l, e)
            && (j <= |homes| ==> SameHome(l, d, Recovered(l, e)))
            && (j > |homes| ==> HomeUpdated(l, d, Recovered(l, e), homes, cached))
  {
    var n := |homes|;
    var e := CommitWrites(l, d, homes, cached, j);
    if j <= n {
      LoggedBlocks(l, d, homes, cached, j);
      CleanRecovers(l, e);
    } else if j <= 2 * n + 1 {
      InstallingRecovers(l, d, homes, cached, j - n - 1);
    } else {
      CommittedDisk(l, d, homes, cached);
      CommittedRecovers(l, d, homes, cached);
      RecoveryRestartable(l, Committed(l, d, homes, cached), n + 1);
    }
  }

  /** An undisturbed commit ends with a clean header and the new contents already at home. */
  lemma CommitCompletes(l: Layout, d: DiskState, homes: seq<nat>, cached: map<nat, Block>)
    requires Clean(l, d) && ValidHomes(l, homes)
    requires forall b :: b in homes ==> b in cached
    ensures var e := CommitWrites(l, d, homes, cached, 2 * |homes| + 2);
            Clean(l, e) && HomeUpdated(l, d, e, homes, cached)
  {
    CommittedDisk(l, d, homes, cached);
    CommittedRecovers(l, d, homes, cached);
    RecoveredHome(l, Committed(l, d, homes, cached));
  }

  // ----- whole runs -----

  /** One transaction: the blocks it logged and their cached contents; if `crash`, power fails after
      `at` of the commit's writes, and then again during each of a series of recoveries. */
  datatype Txn = Txn(homes: seq<nat>, cached: map<nat, Block>, crash: bool, at: nat, cuts: seq<nat>)

  ghost predicate ValidTxn(l: Layout, t: Txn) {
    && ValidHomes(l, t.homes)
    && (forall b :: b in t.homes ==> b in t.cached)
    && t.at <= 2 * |t.homes| + 2
  }

  /** The disk after the transaction, and after the recovery that finally succeeds if there was a crash. */
  ghost function RunTxn(l: Layout, d: DiskState, t: Txn): (e: DiskState)
    requires Clean(l, d) && ValidTxn(l, t)
    ensures Clean(l, e)
  {
    if t.homes == [] && !t.crash then d
    else if !t.crash then
      CommitCompletes(l, d, t.homes, t.cached);
      CommitWrites(l, d, t.homes, t.cached, 2 * |t.homes| + 2)
    else
      CommitAtomic(l, d, t.homes, t.cached, t.at);
      var s := CrashingRecoveries(l, CommitWrites(l, d, t.homes, t.cached, t.at), t.cuts);
      RecoveredHome(l, s);
      Recovered(l, s)
  }

  /** The disk after a run of transactions. */
  ghost function RunAll(l: Layout, d: DiskState, ts: seq<Txn>): (e: DiskState)
    requires Clean(l, d) && forall i :: 0 <= i < |ts| ==> ValidTxn(l, ts[i])
    ensures Clean(l, e)
    decreases |ts|
  {
    if ts == [] then d else RunTxn(l, RunAll(l, d, ts[..|ts| - 1]), ts[|ts| - 1])
  }

  /** Whether a transaction took effect: it finished, or failed only after its header write. */
  predicate Durable(t: Txn) {
    !t.crash || t.at > |t.homes|
  }

  /** What a user of the log believes block b holds: the contents given by the last durable
      transaction that listed it. */
  ghost function Believed(l: Layout, d: DiskState, ts: seq<Txn>, b: nat): (c: Block)
    requires |d| == l.total && b < l.total
    requires forall i :: 0 <= i < |ts| ==> ValidTxn(l, ts[i])
    decreases |ts|
  {
    if ts == [] then d[b]
    else
      var t := ts[|ts| - 1];
      assert ValidTxn(l, t);
      if Durable(t) && b in t.homes then t.cached[b] else Believed(l, d, ts[..|ts| - 1], b)
  }

  lemma RunTxnHome(l: Layout, d: DiskState, t: Txn)
    requires Clean(l, d) && ValidTxn(l, t)
    ensures if Durable(t) then HomeUpdated(l, d, RunTxn(l, d, t), t.homes, t.cached)
            else SameHome(l, d, RunTxn(l, d, t))
  {
    if !t.crash {
      CommitCompletes(l, d, t.homes, t.cached);
    } else {
      CommitAtomic(l, d, t.homes, t.cached, t.at);
      RepeatedCrashes(l, CommitWrites(l, d, t.homes, t.cached, t.at), t.cuts);
    }
  }

  /** Over every run of transactions, with crashes anywhere inside commits and inside any number of
      recoveries, the home blocks are exactly those of the durable transactions applied whole, in order. */
  lemma {:induction false} RunIsAtomic(l: Layout, d: DiskState, ts: seq<Txn>, b: nat)
    requires Clean(l, d) && forall i :: 0 <= i < |ts| ==> ValidTxn(l, ts[i])
    requires b < l.total && !InLog(l, b)
    ensures RunAll(l, d, ts)[b] == Believed(l, d, ts, b)
    decreases |ts|
  {
    if ts != [] {
      var pre := ts[..|ts| - 1];
      RunIsAtomic(l, d, pre, b);
      RunTxnHome(l, RunAll(l, d, pre), ts[|ts| - 1]);
    }
  }
}
