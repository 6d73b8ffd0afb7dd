/** What exec builds (kernel/exec.c): a new address space, its segments, and a stack holding the arguments. */
module ExecModel {
  import opened Blocks
  import opened Values
  import opened VmModel
  import opened VmSteps
  import opened VmSpec
  import opened VmFree
  import opened VmUser

  const MAXARG: nat := 32
  const ELF_PROG_LOAD: nat := 1

  datatype ProgramHeader = ProgramHeader(kind: nat, flags: nat, off: nat, vaddr: nat, filesz: nat, memsz: nat)

  /** A program header as read from the file: the read may come back short. */
  datatype HeaderRead = Short | Header(ph: ProgramHeader)

  function Flags2perm(flags: nat): (perm: nat)
    ensures perm in {0, PTE_W, PTE_X, PTE_W + PTE_X}
  {
    (if flags % 2 == 1 then PTE_X else 0) + (if flags / 2 % 2 == 1 then PTE_W else 0)
  }

  /** What readi returns for n bytes at off of a file with these contents. */
  function FileRead(file: seq<byte>, off: nat, n: nat): (r: seq<byte>)
    ensures |r| <= n
    ensures |r| == n && n > 0 ==> off + n <= |file| && r == file[off..off + n]
  {
    if off > |file| || off + n >= TWO32 then [] else if off + n <= |file| then file[off..off + n] else file[off..]
  }

  // ----- the address space under construction -----

  /** From s, with the trees s.roots, a new tree r with user pages below n has been built out of free pages. */
  ghost predicate Building(s: Vm, t: Vm, r: nat, n: nat) {
    && Inv(t) && r !in s.roots && t.roots == s.roots + {r}
    && FullSpace(t.mem, r, n)
    && Grows(s.(roots := t.roots), t, r, 0, n)
  }

  lemma BuildingSpans(s: Vm, t: Vm, r: nat, n: nat)
    requires Building(s, t, r, n)
    ensures r in t.roots && Spans(t.mem, r, n) && n < PHYSPAGES && FullSpace(t.mem, r, n)
  {
    hide Inv, Mapping;
    SpansBound(t, r, n);
  }

  lemma BuildingStart(s: Vm, t: Vm, r: nat, trampoline: nat, trapframe: nat)
    requires Inv(t) && NewSpace(s, t, r) && Mapping(t.mem, r) == KernelPages(trampoline, trapframe)
    ensures Building(s, t, r, 0)
  {
    hide Inv, Mapping, Grows;
  }

  lemma BuildingGrown(s: Vm, t: Vm, u: Vm, r: nat, n: nat, m: nat, xperm: nat)
    requires Building(s, t, r, n) && Inv(u) && u.roots == t.roots && n <= m
    requires Grown(t, u, r, n, Zeroed(m - n, xperm)) && m < PHYSPAGES
    ensures Building(s, u, r, m)
  {
    hide Inv, Mapping, Grows, HasPage, Zeroed, UserFlags, Removed, Grown, Spans;
    ZeroedAt(m - n, xperm, 0);
    GrownSpans(t, u, r, n, Zeroed(m - n, xperm));
    GrownKeys(t, u, r, n, m, xperm);
    GrowsOn(s.(roots := t.roots), t, u, r, 0, n, n, m);
    GrowsWide(s.(roots := t.roots), u, r, 0, if n == m then n else m, m);
  }

  lemma GrownKeys(t: Vm, u: Vm, r: nat, n: nat, m: nat, xperm: nat)
    requires FullSpace(t.mem, r, n) && n <= m < PHYSPAGES && Grown(t, u, r, n, Zeroed(m - n, xperm))
    ensures FullSpace(u.mem, r, m)
  {
    hide Mapping, Grows, HasPage, Zeroed, UserFlags;
    ZeroedAt(m - n, xperm, 0);
    var mt, mu := Mapping(t.mem, r), Mapping(u.mem, r);
    forall v: nat
      ensures v in mu <==> v < m || v == TRAMPOLINE || v == TRAPFRAME
    {
      assert v in mt <==> v in Removed(mu, n, m - n);
    }
  }

  lemma ZeroedAt(n: nat, xperm: nat, j: nat)
    ensures |Zeroed(n, xperm)| == n
    ensures j < n ==> Zeroed(n, xperm)[j].flags == UserFlags(xperm)
  {
  }

  lemma NewPageUser(t: Vm, u: Vm, r: nat, n: nat, m: nat, xperm: nat, v: nat)
    requires n <= v < m && Grown(t, u, r, n, Zeroed(m - n, xperm)) && xperm in {0, PTE_W, PTE_X, PTE_W + PTE_X}
    ensures v in Mapping(u.mem, r) && PteUser(Mapping(u.mem, r)[v])
  {
    hide Mapping, Grows, Spans, Removed, Zeroed;
    ZeroedAt(m - n, xperm, v - n);
    assert HasPage(u.mem, r, n + (v - n), Zeroed(m - n, xperm)[v - n]);
    UserBit(Mapping(u.mem, r)[v], xperm);
  }

  lemma UserBit(pte: nat, xperm: nat)
    requires xperm in {0, PTE_W, PTE_X, PTE_W + PTE_X} && PteFlags(pte) == UserFlags(xperm)
    ensures PteUser(pte)
  {
    hide PteUser, PteValid, PteLeaf;
    assert pte == MakePte(pte / 1024, UserFlags(xperm));
    MadePte(pte / 1024, UserFlags(xperm));
    UserFlagsUser(xperm);
  }

  lemma UserFlagsUser(xperm: nat)
    requires xperm in {0, PTE_W, PTE_X, PTE_W + PTE_X}
    ensures PteUser(UserFlags(xperm)) && UserFlags(xperm) < 1024
  {
  }

  lemma BuildingTables(s: Vm, t: Vm, u: Vm, r: nat, n: nat)
    requires Building(s, t, r, n) && Inv(u) && u.roots == t.roots && Mapping(u.mem, r).Keys == Mapping(t.mem, r).Keys
    requires Grows(t, u, r, 0, 0)
    ensures Building(s, u, r, n)
  {
    hide Inv, Mapping, Grows;
    GrowsOn(s.(roots := t.roots), t, u, r, 0, n, 0, 0);
  }

  /** Writing to the new tree's user memory keeps it the tree being built. */
  lemma BuildingWritten(s: Vm, t: Vm, u: Vm, r: nat, n: nat, a: nat, x: seq<byte>)
    requires Inv(s) && Building(s, t, r, n) && Inv(u) && UserWritten(t, u, r, a, x)
    ensures Building(s, u, r, n) && Mapping(u.mem, r) == Mapping(t.mem, r)
  {
    hide Mapping, SameTrees, ByteWritten, Translates, FreeListed, ReachedOwned, OwnedReached, Shaped;
    var s' := s.(roots := t.roots);
    NotOwnedYet(s, r);
    WrittenRoots(t, u, r, a, x);
    forall p | p in s'.own
      ensures PageGrows(s', u, r, 0, n, p)
    {
      assert PageGrows(s', t, r, 0, n, p);
      assert !(t.own[p].Owned? && t.own[p].root == r && t.own[p].pos.Leaf?) ==> KeptPage(t, u, p);
    }
  }

  /** Giving up on the new tree restores everything. */
  lemma BuildingUndone(s: Vm, t: Vm, u: Vm, r: nat, n: nat)
    requires Inv(s) && Building(s, t, r, n) && Reclaimed(t, u, r)
    ensures Restored(s, u)
  {
    hide Inv, Mapping, Grows, Reclaimed;
    NotOwnedYet(s, r);
    GrownReclaimed(s, t, u, r, 0, n);
  }

  // ----- bytes under writes -----

  lemma {:induction false} BytesKept(s: Vm, t: Vm, r: nat, a: nat, x: seq<byte>, b: nat, n: nat)
    requires UserWritten(s, t, r, a, x) && r in s.roots && TranslatesUpTo(s.mem, r, b, n)
    requires (b + n <= a || a + |x| <= b)
    ensures TranslatesUpTo(t.mem, r, b, n) && UserBytes(t.mem, r, b, n) == UserBytes(s.mem, r, b, n)
  {
    hide Mapping, Translates, UserByte;
    forall c | b <= c < b + n
      ensures Translates(t.mem, r, c) && UserByte(t.mem, r, c) == UserByte(s.mem, r, c)
    {
      assert ByteWritten(s, t, r, a, x, r, c);
    }
    SameBytes(s.mem, t.mem, r, b, n);
  }

  lemma {:induction false} SameBytes(mem: Memory, mem': Memory, r: nat, b: nat, n: nat)
    requires TranslatesUpTo(mem, r, b, n) && TranslatesUpTo(mem', r, b, n)
    requires forall c :: b <= c < b + n ==> UserByte(mem', r, c) == UserByte(mem, r, c)
    ensures UserBytes(mem', r, b, n) == UserBytes(mem, r, b, n)
  {
    hide Translates, UserByte;
    if n > 0 {
      SameBytes(mem, mem', r, b, n - 1);
    }
  }

  lemma BytesNow(s: Vm, t: Vm, r: nat, a: nat, x: seq<byte>)
    requires UserWritten(s, t, r, a, x) && r in s.roots && TranslatesUpTo(s.mem, r, a, |x|)
    ensures TranslatesUpTo(t.mem, r, a, |x|) && UserBytes(t.mem, r, a, |x|) == x
  {
    hide Mapping, Translates, UserByte;
    forall c | a <= c < a + |x|
      ensures Translates(t.mem, r, c) && UserByte(t.mem, r, c) == x[c - a]
    {
      assert ByteWritten(s, t, r, a, x, r, c);
    }
    BytesAre(t.mem, r, a, x, |x|);
  }

  lemma {:induction false} BytesAre(mem: Memory, r: nat, a: nat, x: seq<byte>, n: nat)
    requires TranslatesUpTo(mem, r, a, n) && n <= |x|
    requires forall c :: a <= c < a + n ==> UserByte(mem, r, c) == x[c - a]
    ensures UserBytes(mem, r, a, n) == x[..n]
  {
    hide Translates, UserByte;
    if n > 0 {
      BytesAre(mem, r, a, x, n - 1);
    }
  }

  /** Reclaiming one tree leaves the user memory of another as it was. */
  lemma OtherSpaceKept(s: Vm, t: Vm, r: nat, r': nat)
    requires Inv(s) && Reclaimed(s, t, r) && r' in s.roots && r' != r
    ensures Mapping(t.mem, r') == Mapping(s.mem, r')
    ensures forall a :: Translates(s.mem, r', a) ==> ByteStays(s.mem, t.mem, r', a)
  {
    hide Mapping, At, PteAt, Entry, Inv;
    forall p | p in s.own && TableOf(s.own[p], r')
      ensures t.mem[p] == s.mem[p]
    {
      assert Untouched(s, t, p);
    }
    forall q | IsPos(q)
      ensures At(t.mem, r', q) == At(s.mem, r', q) && (!q.Top? ==> PteAt(t.mem, r', q) == PteAt(s.mem, r', q))
    {
      TablesFix(s, t, r', q);
    }
    MappingSame(s.mem, t.mem, r');
    forall a | Translates(s.mem, r', a)
      ensures ByteStays(s.mem, t.mem, r', a)
    {
      UserFrame(s, r', a);
    }
  }

  ghost predicate ByteStays(mem: Memory, mem': Memory, r: nat, a: nat)
    requires Translates(mem, r, a)
  {
    Translates(mem', r, a) && UserByte(mem', r, a) == UserByte(mem, r, a)
  }

  // ----- the stack -----

  /** The string s with its NUL lies at address a. */
  ghost predicate StringAt(mem: Memory, r: nat, a: nat, s: seq<byte>) {
    TranslatesUpTo(mem, r, a, |s| + 1) && UserBytes(mem, r, a, |s| + 1) == s + [0]
  }

  /** The first |at| arguments lie between sp and top, each 16-byte aligned at its address in at. */
  ghost predicate ArgsPushed(mem: Memory, r: nat, sp: nat, top: nat, argv: seq<seq<byte>>, at: seq<nat>) {
    && |at| <= |argv|
    && forall i :: 0 <= i < |at| ==>
      sp <= at[i] && at[i] + |argv[i]| + 1 <= top && at[i] % 16 == 0 && StringAt(mem, r, at[i], argv[i])
  }

  lemma ArgsKept(s: Vm, t: Vm, r: nat, sp: nat, top: nat, argv: seq<seq<byte>>, at: seq<nat>, a: nat, x: seq<byte>)
    requires ArgsPushed(s.mem, r, sp, top, argv, at) && r in s.roots && UserWritten(s, t, r, a, x) && a + |x| <= sp
    ensures ArgsPushed(t.mem, r, sp, top, argv, at)
  {
    hide UserWritten, UserBytes, TranslatesUpTo;
    forall i | 0 <= i < |at|
      ensures StringAt(t.mem, r, at[i], argv[i])
    {
      assert StringAt(s.mem, r, at[i], argv[i]);
      BytesKept(s, t, r, a, x, at[i], |argv[i]| + 1);
    }
  }

  lemma ArgPushed(s: Vm, t: Vm, r: nat, sp: nat, sp': nat, top: nat, argv: seq<seq<byte>>, at: seq<nat>)
    requires ArgsPushed(s.mem, r, sp, top, argv, at) && r in s.roots && |at| < |argv| && sp <= top && sp' % 16 == 0
    requires sp' + |argv[|at|]| + 1 <= sp && TranslatesUpTo(s.mem, r, sp', |argv[|at|]| + 1)
    requires UserWritten(s, t, r, sp', argv[|at|] + [0])
    ensures ArgsPushed(t.mem, r, sp', top, argv, at + [sp'])
  {
    hide UserWritten, UserBytes, TranslatesUpTo, StringAt;
    ArgsKept(s, t, r, sp, top, argv, at, sp', argv[|at|] + [0]);
    assert StringAt(t.mem, r, sp', argv[|at|]) by {
      WrittenString(s, t, r, sp', argv[|at|]);
    }
  }

  lemma WrittenString(s: Vm, t: Vm, r: nat, a: nat, x: seq<byte>)
    requires r in s.roots && TranslatesUpTo(s.mem, r, a, |x| + 1) && UserWritten(s, t, r, a, x + [0])
    ensures StringAt(t.mem, r, a, x)
  {
    hide UserWritten, UserBytes, TranslatesUpTo;
    BytesNow(s, t, r, a, x + [0]);
  }

  // ----- 64-bit words in user memory -----

  /** Little-endian bytes of a 64-bit word. */
  function WordBytes(w: nat): (s: seq<byte>)
    requires w < WORD
    ensures |s| == 8
  {
    LeBytes(w % TWO32) + LeBytes(w / TWO32)
  }

  function LeBytes(w: uint32): (s: seq<byte>)
    ensures |s| == 4
  {
    [w % 0x100, w / 0x100 % 0x100, w / 0x1_0000 % 0x100, w / 0x100_0000]
  }

  function BytesWord(s: seq<byte>): (w: nat)
    requires |s| == 8
  {
    LeWord(s[..4]) + TWO32 * LeWord(s[4..])
  }

  function LeWord(s: seq<byte>): (w: nat)
    requires |s| == 4
  {
    var b0: int, b1: int, b2: int, b3: int := s[0], s[1], s[2], s[3];
    b0 + 0x100 * b1 + 0x1_0000 * b2 + 0x100_0000 * b3
  }

  lemma LeRoundTrip(w: uint32)
    ensures LeWord(LeBytes(w)) == w
  {
    assert w / 0x100 / 0x100 == w / 0x1_0000 && w / 0x1_0000 / 0x100 == w / 0x100_0000;
  }

  lemma WordRoundTrip(w: nat)
    requires w < WORD
    ensures BytesWord(WordBytes(w)) == w
  {
    LeRoundTrip(w % TWO32);
    LeRoundTrip(w / TWO32);
    assert WordBytes(w)[..4] == LeBytes(w % TWO32) && WordBytes(w)[4..] == LeBytes(w / TWO32);
  }

  function PointerBytes(ps: seq<nat>): (s: seq<byte>)
    requires forall i :: 0 <= i < |ps| ==> ps[i] < WORD
    ensures |s| == 8 * |ps|
  {
    if ps == [] then [] else PointerBytes(ps[..|ps| - 1]) + WordBytes(ps[|ps| - 1])
  }

  lemma {:induction false} PointerAt(ps: seq<nat>, i: nat)
    requires (forall j :: 0 <= j < |ps| ==> ps[j] < WORD) && i < |ps|
    ensures BytesWord(PointerBytes(ps)[8 * i..8 * i + 8]) == ps[i]
  {
    hide BytesWord, WordBytes;
    var n := |ps| - 1;
    var front := PointerBytes(ps[..n]);
    if i < n {
      PointerAt(ps[..n], i);
      assert PointerBytes(ps)[8 * i..8 * i + 8] == front[8 * i..8 * i + 8];
    } else {
      WordRoundTrip(ps[n]);
      assert PointerBytes(ps)[8 * n..8 * n + 8] == WordBytes(ps[n]);
    }
  }

  /** The user word at address a. */
  ghost predicate WordIs(mem: Memory, r: nat, a: nat, w: nat) {
    TranslatesUpTo(mem, r, a, 8) && BytesWord(UserBytes(mem, r, a, 8)) == w
  }

  lemma BytesSlice(mem: Memory, r: nat, a: nat, n: nat, i: nat, k: nat)
    requires TranslatesUpTo(mem, r, a, n) && i + k <= n
    ensures TranslatesUpTo(mem, r, a + i, k) && UserBytes(mem, r, a + i, k) == UserBytes(mem, r, a, n)[i..i + k]
  {
    hide UserBytes, Translates;
    BytesMore(mem, r, a, i, k);
    BytesMore(mem, r, a, i + k, n - i - k);
  }

  lemma PointersWritten(s: Vm, t: Vm, r: nat, a: nat, ps: seq<nat>, i: nat)
    requires (forall j :: 0 <= j < |ps| ==> ps[j] < WORD) && i < |ps| && r in s.roots
    requires TranslatesUpTo(s.mem, r, a, 8 * |ps|) && UserWritten(s, t, r, a, PointerBytes(ps))
    ensures WordIs(t.mem, r, a + 8 * i, ps[i])
  {
    hide UserWritten, UserBytes, BytesWord, PointerBytes, TranslatesUpTo;
    BytesNow(s, t, r, a, PointerBytes(ps));
    BytesSlice(t.mem, r, a, 8 * |ps|, 8 * i, 8);
    PointerAt(ps, i);
  }
}
