/** exec (kernel/exec.c): build a new address space beside the old one, then swap them, or undo everything. */
module ExecCode {
  import opened Blocks
  import opened Values
  import opened VmModel
  import opened VmSteps
  import opened VmSpec
  import opened VmFree
  import opened VmUser
  import opened ExecModel
  import opened ExecFile
  import opened VmCode

  /** Store a chunk at the start of the page at address a. */
  method LoadPage(k: Kernel, r: nat, a: nat, chunk: seq<byte>)
    requires k.Valid() && r in k.roots && a % PGSIZE == 0 && Translates(k.mem, r, a) && |chunk| <= PGSIZE
    modifies k
    ensures k.Valid() && r in k.roots && UserWritten(old(k.S()), k.S(), r, a, chunk)
  {
    hide Inv, Mapping, Translates, UserWritten, Patched, PteTarget;
    ghost var s0 := k.S();
    var pa := k.Walkaddr(r, a);
    assert pa != 0;  // "loadseg: address should exist"
    PageWritten(s0, r, a, chunk);
    k.mem := k.mem[pa := Patched(k.mem[pa], 0, chunk)];
    WrittenRoots(s0, k.S(), r, a, chunk);
  }

  /** Read sz bytes of the file from offset on into the mapped pages at va; w is what has been written there. */
  method Loadseg(k: Kernel, r: nat, va: nat, file: seq<byte>, offset: uint32, sz: uint32)
    returns (ok: bool, ghost w: seq<byte>)
    requires k.Valid() && r in k.roots && va % PGSIZE == 0 && TranslatesUpTo(k.mem, r, va, sz)
    modifies k
    ensures k.Valid() && UserWritten(old(k.S()), k.S(), r, va, w) && |w| <= sz
    ensures ok <==> Readable(file, offset, sz)
    ensures ok ==> |w| == sz && IsSegment(file, offset, w)
    ensures ok && 0 < sz && offset + sz < TWO32 ==> offset + sz <= |file| && w == file[offset..offset + sz]
  {
    hide Inv, Mapping, Translates, UserWritten, FileRead, PageReadable, IsSegment;
    ghost var s0, j := k.S(), 0;
    var i := 0;
    w := [];
    NoSegment(file, offset);
    NothingWritten(s0, r, va);
    while i < sz
      invariant k.Valid() && r in k.roots && i == j * PGSIZE && |w| == if i <= sz then i else sz
      invariant UserWritten(s0, k.S(), r, va, w) && IsSegment(file, offset, w)
      invariant forall l: nat :: l < j ==> PageReadable(file, offset, sz, l)
      invariant offset + sz < TWO32 && i > 0 ==> IsPart(file, offset, w)
    {
      ghost var s1 := k.S();
      WrittenTranslates(s0, s1, r, va, w, va + i);
      assert Translates(s0.mem, r, va + i);
      var n := if sz - i < PGSIZE then sz - i else PGSIZE;
      var chunk := FileRead(file, (offset + i) % TWO32, n);
      FileReadFull(file, (offset + i) % TWO32, n);
      LoadPage(k, r, va + i, chunk);
      WrittenMore(s0, s1, k.S(), r, va, w, chunk);
      ReadableIs(file, offset, sz, j, n, chunk);
      if |chunk| != n {
        w := w + chunk;
        return false, w;
      }
      SegmentMore(file, offset, w, chunk, j);
      if offset + sz < TWO32 {
        PartMore(file, offset, w, chunk);
      }
      w := w + chunk;
      i := i + PGSIZE;
      j := j + 1;
    }
    ok := true;
    AllReadable(file, offset, sz, j);
  }

  /** w is the beginning of the segment that lies at off. */
  ghost predicate IsSegment(file: seq<byte>, off: uint32, w: seq<byte>) {
    forall x :: 0 <= x < |w| ==> w[x] == SegmentByte(file, off, x)
  }

  lemma NoSegment(file: seq<byte>, off: uint32)
    ensures IsSegment(file, off, [])
  {
  }

  lemma ReadableIs(file: seq<byte>, off: uint32, sz: uint32, j: nat, n: nat, chunk: seq<byte>)
    requires j * PGSIZE < sz && n == (if sz - j * PGSIZE < PGSIZE then sz - j * PGSIZE else PGSIZE)
    requires chunk == FileRead(file, (off + j * PGSIZE) % TWO32, n)
    ensures PageReadable(file, off, sz, j) <==> |chunk| == n
  {
  }

  lemma AllReadable(file: seq<byte>, off: uint32, sz: uint32, j: nat)
    requires sz <= j * PGSIZE && forall l: nat :: l < j ==> PageReadable(file, off, sz, l)
    ensures Readable(file, off, sz)
  {
    hide PageReadable;
  }

  lemma SegmentMore(file: seq<byte>, off: uint32, w: seq<byte>, chunk: seq<byte>, j: nat)
    requires IsSegment(file, off, w) && |w| == j * PGSIZE && 0 < |chunk| <= PGSIZE
    requires var at := (off + j * PGSIZE) % TWO32; at + |chunk| <= |file| && chunk == file[at..at + |chunk|]
    ensures IsSegment(file, off, w + chunk)
  {
    forall x | |w| <= x < |w + chunk|
      ensures (w + chunk)[x] == SegmentByte(file, off, x)
    {
      assert x / PGSIZE == j && x % PGSIZE == x - |w|;
    }
  }

  /** w is the part of the file that starts at off. */
  predicate IsPart(file: seq<byte>, off: nat, w: seq<byte>) {
    off + |w| <= |file| && w == file[off..off + |w|]
  }

  lemma PartMore(file: seq<byte>, off: nat, w: seq<byte>, chunk: seq<byte>)
    requires (w != [] ==> IsPart(file, off, w)) && IsPart(file, off + |w|, chunk)
    ensures IsPart(file, off, w + chunk)
  {
    if w != [] {
      assert file[off..off + |w|] + file[off + |w|..off + |w| + |chunk|] == file[off..off + |w| + |chunk|];
    }
  }

  lemma FileReadFull(file: seq<byte>, off: nat, n: nat)
    ensures |FileRead(file, off, n)| <= n
    ensures |FileRead(file, off, n)| == n && n > 0 ==> off + n <= |file| && FileRead(file, off, n) == file[off..off + n]
  {
  }

  /** Map and load the segment of header j. */
  method LoadSegment(k: Kernel, r: nat, ghost s0: Vm, sz: nat, file: seq<byte>, ghost j: nat, ph: ProgramHeader,
                     ghost kernel: map<nat, nat>) returns (ok: bool, sz': nat)
    requires k.Valid() && Inv(s0) && Building(s0, k.S(), r, Pages(sz)) && HeaderOk(file)
    requires HeaderAt(file, j) == Header(ph) && ph.kind == ELF_PROG_LOAD
    requires ProgramOk(file, j) && sz == ProgramSize(file, j) && ProgramIn(k.mem, r, Pages(sz), file, j)
    requires Laid(Mapping(k.mem, r), Pages(sz), file, j, kernel)
    modifies k
    ensures k.Valid() && Building(s0, k.S(), r, Pages(sz'))
    ensures ok ==> ProgramOk(file, j + 1) && sz' == ProgramSize(file, j + 1)
    ensures ok ==> ProgramIn(k.mem, r, Pages(sz'), file, j + 1)
    ensures ok ==> Laid(Mapping(k.mem, r), Pages(sz'), file, j + 1, kernel)
    ensures ok ==> |k.free| + 3 * (Pages(sz') - Pages(sz)) >= |old(k.free)|
    ensures !ok && ProgramOk(file, j + 1) ==> |old(k.free)| < 3 * (Pages(ProgramSize(file, j + 1)) - Pages(sz))
  {
    hide Inv, Mapping, Building, Grown, Grows, UserWritten, Spans, Translates, HeaderAt, HeaderOk, ProgramIn;
    hide Readable, IsSegment, Laid;
    sz' := sz;
    if ph.memsz < ph.filesz || ph.vaddr + ph.memsz >= WORD || ph.vaddr % PGSIZE != 0 {
      return false, sz';
    }
    ghost var s1, perm := k.S(), Flags2perm(ph.flags);
    BuildingSpans(s0, s1, r, Pages(sz));
    var top := ph.vaddr + ph.memsz;
    var sz1 := k.Uvmalloc(r, sz, top, Flags2perm(ph.flags));
    ghost var s2 := k.S();
    if sz1 == 0 {
      BuildingNone(s0, s1, s2, r, sz, top, perm);
      return false, sz';
    }
    if top >= sz {
      SegmentMapped(s0, s1, s2, r, Pages(sz), Pages(top), file, j, kernel);
    } else {
      LaidSame(Mapping(k.mem, r), Pages(sz), file, j, kernel);
    }
    sz' := sz1;
    BuildingSpans(s0, s2, r, Pages(sz'));
    ProgramTranslates(k.mem, r, Pages(sz'), file, j, ph.vaddr, ph.filesz % TWO32);
    ghost var w;
    ok, w := Loadseg(k, r, ph.vaddr, file, ph.off % TWO32, ph.filesz % TWO32);
    BuildingWritten(s0, s2, k.S(), r, Pages(sz'), ph.vaddr, w);
    WrittenRoots(s2, k.S(), r, ph.vaddr, w);
    if ok {
      SegmentLoaded(s2, k.S(), r, Pages(sz'), file, j, w);
    }
  }

  /** What mapping a segment's pages does to the program. */
  lemma SegmentMapped(s0: Vm, s: Vm, t: Vm, r: nat, n: nat, m: nat, file: seq<byte>, j: nat, kernel: map<nat, nat>)
    requires Inv(s0) && Inv(s) && Inv(t) && Building(s0, s, r, n) && HeaderOk(file) && HeaderAt(file, j).Header?
    requires n == Pages(ProgramSize(file, j)) <= m && ProgramOk(file, j) && ProgramIn(s.mem, r, n, file, j)
    requires Laid(Mapping(s.mem, r), n, file, j, kernel) && t.roots == s.roots
    requires Grown(s, t, r, n, Zeroed(m - n, Flags2perm(HeaderAt(file, j).ph.flags)))
    ensures Building(s0, t, r, m) && ProgramIn(t.mem, r, m, file, j)
    ensures Laid(Mapping(t.mem, r), m, file, j + 1, kernel)
  {
    hide Inv, Mapping, Building, Grown, Grows, Spans, HeaderAt, HeaderOk, ProgramIn, ProgramOk, ProgramSize, Laid;
    var perm := Flags2perm(HeaderAt(file, j).ph.flags);
    BuildingSpans(s0, s, r, n);
    GrownSpans(s, t, r, n, Zeroed(m - n, perm));
    ZeroedAt(m - n, perm, 0);
    SpansBound(t, r, m);
    BuildingGrown(s0, s, t, r, n, m, perm);
    ProgramEnds(file, j);
    GrownProgram(s, t, r, n, m, perm, file, j);
    LaidGrown(s, t, r, n, m, file, j, kernel);
  }

  lemma ProgramEnds(file: seq<byte>, j: nat)
    requires HeaderOk(file)
    ensures ProgramSize(file, j) <= Pages(ProgramSize(file, j)) * PGSIZE
  {
    hide HeaderOk, ProgramSize;
  }

  lemma SegmentLoaded(s: Vm, t: Vm, r: nat, n: nat, file: seq<byte>, j: nat, w: seq<byte>)
    requires HeaderOk(file) && HeaderAt(file, j).Header? && HeaderAt(file, j).ph.kind == ELF_PROG_LOAD && r in s.roots
    requires var ph := HeaderAt(file, j).ph;
      |w| == ph.filesz % TWO32 && UserWritten(s, t, r, ph.vaddr, w) && IsSegment(file, ph.off % TWO32, w)
    requires ProgramIn(s.mem, r, n, file, j)
    ensures ProgramIn(t.mem, r, n, file, j + 1)
  {
    hide UserWritten, ProgramIn, HeaderAt, HeaderOk, SegmentByte;
    SegmentWritten(s, t, r, n, file, j, w);
  }

  /** uvmalloc failed, or was asked for nothing. */
  lemma BuildingNone(s: Vm, t: Vm, u: Vm, r: nat, sz: nat, top: nat, perm: nat)
    requires Building(s, t, r, Pages(sz)) && Inv(u) && u.roots == t.roots && sz <= top
    requires Mapping(u.mem, r) == Mapping(t.mem, r) && Grows(t, u, r, 0, 0)
    ensures Building(s, u, r, Pages(sz))
  {
    hide Building, Inv, Mapping, Grows;
    BuildingTables(s, t, u, r, Pages(sz));
  }

  /** Addresses inside the program translate. */
  lemma ProgramTranslates(mem: Memory, r: nat, n: nat, file: seq<byte>, j: nat, a: nat, len: nat)
    requires HeaderOk(file) && ProgramIn(mem, r, n, file, j) && (len > 0 ==> a + len <= n * PGSIZE)
    ensures TranslatesUpTo(mem, r, a, len)
  {
    hide Translates, UserByte, Loaded, HeaderOk;
    forall b | a <= b < a + len
      ensures Translates(mem, r, b)
    {
      assert ByteLoaded(mem, r, file, j, b);
    }
  }

  /** Load every loadable segment. */
  method LoadProgram(k: Kernel, r: nat, ghost s0: Vm, file: seq<byte>, ghost kernel: map<nat, nat>)
    returns (ok: bool, sz: nat)
    requires k.Valid() && Inv(s0) && Building(s0, k.S(), r, 0) && HeaderOk(file) && Mapping(k.mem, r) == kernel
    modifies k
    ensures k.Valid() && Building(s0, k.S(), r, Pages(sz))
    ensures ok ==> var n := HeaderCount(file);
      && ProgramOk(file, n) && sz == ProgramSize(file, n) && ProgramIn(k.mem, r, Pages(sz), file, n)
      && Laid(Mapping(k.mem, r), Pages(sz), file, n, kernel)
    ensures ok ==> |k.free| + 3 * Pages(sz) >= |old(k.free)|
    ensures !ok && ProgramOk(file, HeaderCount(file)) ==>
      |old(k.free)| < 3 * Pages(ProgramSize(file, HeaderCount(file)))
  {
    hide Inv, Building, HeaderAt, HeaderOk, ProgramIn, HeaderCount, SegmentOk, Mapping, Laid;
    sz := 0;
    NoProgram(k.mem, r, file);
    for i := 0 to HeaderCount(file)
      invariant k.Valid() && Building(s0, k.S(), r, Pages(sz)) && ProgramIn(k.mem, r, Pages(sz), file, i)
      invariant ProgramOk(file, i) && sz == ProgramSize(file, i) && |k.free| + 3 * Pages(sz) >= |old(k.free)|
      invariant Laid(Mapping(k.mem, r), Pages(sz), file, i, kernel)
    {
      if ProgramOk(file, HeaderCount(file)) { OkPrefix(file, i + 1, HeaderCount(file)); }
      var h := HeaderAt(file, i);
      if h.Short? {
        return false, sz;
      }
      if h.ph.kind == ELF_PROG_LOAD {
        ok, sz := LoadSegment(k, r, s0, sz, file, i, h.ph, kernel);
        if !ok {
          return false, sz;
        }
      } else {
        SkippedHeader(k.mem, r, Pages(sz), file, i);
        LaidSame(Mapping(k.mem, r), Pages(sz), file, i, kernel);
      }
    }
    ok := true;
  }

  lemma NoProgram(mem: Memory, r: nat, file: seq<byte>)
    requires HeaderOk(file)
    ensures ProgramIn(mem, r, 0, file, 0) && Laid(Mapping(mem, r), 0, file, 0, Mapping(mem, r))
  {
    hide Mapping, HeaderOk;
  }

  /** The stack pointer n bytes further down, and then down to a multiple of 16. */
  method Lower(sp: nat, n: nat) returns (sp': nat)
    requires sp % 16 == 0 && n <= sp
    ensures sp' == sp - Aligned(n) && sp' % 16 == 0 && sp' + n <= sp
  {
    AlignedDown(sp, n);
    sp' := sp - n;
    sp' := sp' - sp' % 16;
  }

  /** Push one argument string, if there is room for it above base. */
  method PushArg(k: Kernel, r: nat, sp: nat, base: nat, arg: seq<byte>) returns (ok: bool, sp': nat, ghost w: seq<byte>)
    requires k.Valid() && r in k.roots && |arg| < PGSIZE <= base <= sp <= base + PGSIZE && sp % 16 == 0
    requires TranslatesUpTo(k.mem, r, base, PGSIZE)
    modifies k
    ensures k.Valid() && r in k.roots && UserWritten(old(k.S()), k.S(), r, sp', w) && (w == [] || base <= sp')
    ensures ok <==> Aligned(|arg| + 1) <= sp - base
    ensures ok ==> w == arg + [0] && sp' == sp - Aligned(|arg| + 1) && sp' % 16 == 0
    ensures ok ==> base <= sp' && sp' + |w| <= sp && TranslatesUpTo(old(k.mem), r, sp', |w|)
  {
    hide Inv, UserWritten, Translates, Aligned;
    ghost var s0 := k.S();
    sp' := Lower(sp, |arg| + 1);
    if sp' < base {
      w := [];
      NothingWritten(s0, r, sp');
      return false, sp', w;
    }
    ghost var done;
    ok, done := k.Copyout(r, sp', arg + [0]);
    w := (arg + [0])[..done];
    WrittenRoots(s0, k.S(), r, sp', w);
  }

  /** What the arguments need of the new address space: its stack page is there. */
  ghost predicate StackPage(mem: Memory, r: nat, top: nat) {
    top % PGSIZE == 0 && 2 * PGSIZE <= top && TranslatesUpTo(mem, r, top - PGSIZE, PGSIZE)
  }

  /** Push the argument strings from the top of the stack page down. */
  method PushStrings(k: Kernel, r: nat, ghost s0: Vm, ghost n: nat, top: nat, argv: seq<seq<byte>>)
    returns (ok: bool, sp: nat, at: seq<nat>)
    requires k.Valid() && Inv(s0) && Building(s0, k.S(), r, n) && StackPage(k.mem, r, top)
    requires forall i :: 0 <= i < |argv| ==> |argv[i]| < PGSIZE
    modifies k
    ensures k.Valid() && Building(s0, k.S(), r, n) && Mapping(k.mem, r) == old(Mapping(k.mem, r))
    ensures k.free == old(k.free)
    ensures top - PGSIZE <= sp <= top && AllBelow(at, top) && KeptBelow(old(k.mem), k.mem, r, top - PGSIZE)
    ensures ok <==> |argv| <= MAXARG && StringsSize(argv, |argv|) <= PGSIZE
    ensures ok ==> |at| == |argv| && sp == top - StringsSize(argv, |argv|) && ArgsPushed(k.mem, r, sp, top, argv, at)
  {
    hide Inv, Mapping, Building, UserWritten, TranslatesUpTo, ArgsPushed, KeptBelow, Aligned;
    sp := top;
    at := [];
    ghost var m0 := k.mem;
    var base := sp - PGSIZE;
    BuildingRoot(s0, k.S(), r, n);
    NoArgs(k.mem, r, sp, top, argv);
    KeptSelf(k.mem, r, base);
    while |at| < |argv|
      invariant k.Valid() && Building(s0, k.S(), r, n) && r in k.roots && Mapping(k.mem, r) == old(Mapping(k.mem, r))
      invariant k.free == old(k.free) && KeptBelow(m0, k.mem, r, base) && TranslatesUpTo(k.mem, r, base, PGSIZE)
      invariant |at| <= |argv| && |at| <= MAXARG && base <= sp <= top && sp % 16 == 0 && AllBelow(at, top)
      invariant sp == top - StringsSize(argv, |at|) && ArgsPushed(k.mem, r, sp, top, argv, at)
    {
      StringsGrow(argv, |at| + 1, |argv|);
      if |at| >= MAXARG {
        return false, sp, at;
      }
      ghost var s1 := k.S();
      var pushed, sp' := false, 0;
      ghost var w;
      pushed, sp', w := PushArg(k, r, sp, base, argv[|at|]);
      BuildingWritten(s0, s1, k.S(), r, n, sp', w);
      WrittenAbove(s1, k.S(), r, sp', w, base);
      KeptTwice(m0, s1.mem, k.mem, r, base);
      WrittenRoots(s1, k.S(), r, sp', w);
      if !pushed {
        return false, sp, at;
      }
      StackStays(s1, k.S(), r, sp', w, base);
      ArgPushed(s1, k.S(), r, sp, sp', top, argv, at);
      sp := sp';
      at := at + [sp'];
    }
    ok := true;
  }

  lemma StackStays(s: Vm, t: Vm, r: nat, a: nat, x: seq<byte>, base: nat)
    requires UserWritten(s, t, r, a, x) && r in s.roots && TranslatesUpTo(s.mem, r, base, PGSIZE)
    ensures TranslatesUpTo(t.mem, r, base, PGSIZE)
  {
    hide UserWritten, Translates;
    forall b | base <= b < base + PGSIZE
      ensures Translates(t.mem, r, b)
    {
      WrittenTranslates(s, t, r, a, x, b);
    }
  }

  /** Push the array of pointers to the arguments that lie at `at`, NULL behind them. */
  method PushPointers(k: Kernel, r: nat, was: nat, top: nat, ghost argv: seq<seq<byte>>, at: seq<nat>)
    returns (ok: bool, sp: nat, ghost w: seq<byte>)
    requires k.Valid() && r in k.roots && StackPage(k.mem, r, top) && top - PGSIZE <= was <= top < WORD && was % 16 == 0
    requires |at| == |argv| < MAXARG && AllBelow(at, top) && ArgsPushed(k.mem, r, was, top, argv, at)
    modifies k
    ensures k.Valid() && UserWritten(old(k.S()), k.S(), r, sp, w) && (w == [] || top - PGSIZE <= sp)
    ensures ok <==> Aligned(8 * (|at| + 1)) <= was - (top - PGSIZE)
    ensures ok ==> StackBuilt(k.mem, r, sp, top, argv, at)
  {
    hide Inv, Mapping, UserWritten, Translates, ArgsPushed, PointerBytes, StackBuilt, Aligned;
    ghost var s1 := k.S();
    sp := Lower(was, (|at| + 1) * 8);
    if sp < top - PGSIZE {
      w := [];
      NothingWritten(s1, r, sp);
      return false, sp, w;
    }
    ghost var done;
    assert AllBelow(at + [0], top);
    ok, done := k.Copyout(r, sp, PointerBytes(at + [0]));
    w := PointerBytes(at + [0])[..done];
    if ok {
      StackDone(s1, k.S(), r, sp, was, top, argv, at);
    }
  }

  /** Push the arguments, then the array of pointers to them. With exactly MAXARG arguments the NULL behind the pointers
      would not fit the kernel's array; sys_exec does not let that happen. */
  method PushArgs(k: Kernel, r: nat, ghost s0: Vm, ghost n: nat, top: nat, argv: seq<seq<byte>>)
    returns (ok: bool, sp: nat, at: seq<nat>)
    requires k.Valid() && Inv(s0) && Building(s0, k.S(), r, n) && StackPage(k.mem, r, top) && top < WORD
    requires |argv| != MAXARG && forall i :: 0 <= i < |argv| ==> |argv[i]| < PGSIZE
    modifies k
    ensures k.Valid() && Building(s0, k.S(), r, n) && Mapping(k.mem, r) == old(Mapping(k.mem, r))
    ensures KeptBelow(old(k.mem), k.mem, r, top - PGSIZE)
    ensures ok <==> ArgsFit(argv)
    ensures ok ==> StackBuilt(k.mem, r, sp, top, argv, at)
  {
    hide Inv, Mapping, Building, UserWritten, Translates, ArgsPushed, StackBuilt, KeptBelow, StringsSize, Aligned;
    ghost var m0, base := k.mem, top - PGSIZE;
    ok, sp, at := PushStrings(k, r, s0, n, top, argv);
    if !ok {
      return;
    }
    ghost var s1 := k.S();
    BuildingRoot(s0, s1, r, n);
    StackKept(m0, k.mem, r, base);
    AlignedStrings(argv, |argv|);
    ghost var w;
    ok, sp, w := PushPointers(k, r, sp, top, argv, at);
    BuildingWritten(s0, s1, k.S(), r, n, sp, w);
    WrittenAbove(s1, k.S(), r, sp, w, base);
    KeptTwice(m0, s1.mem, k.mem, r, base);
  }

  lemma StackKept(mem: Memory, mem': Memory, r: nat, base: nat)
    requires TranslatesUpTo(mem, r, base, PGSIZE) && Mapping(mem', r) == Mapping(mem, r)
    ensures TranslatesUpTo(mem', r, base, PGSIZE)
  {
    hide Mapping;
    forall b | base <= b < base + PGSIZE
      ensures Translates(mem', r, b)
    {
      assert Translates(mem, r, b);
    }
  }

  lemma {:induction false} AlignedStrings(argv: seq<seq<byte>>, n: nat)
    requires n <= |argv|
    ensures StringsSize(argv, n) % 16 == 0
  {
    if n > 0 {
      AlignedStrings(argv, n - 1);
    }
  }

  predicate AllBelow(at: seq<nat>, top: nat) {
    forall i :: 0 <= i < |at| ==> at[i] < top
  }

  lemma BuildingRoot(s: Vm, t: Vm, r: nat, n: nat)
    requires Building(s, t, r, n)
    ensures r in t.roots
  {
  }

  lemma NoArgs(mem: Memory, r: nat, sp: nat, top: nat, argv: seq<seq<byte>>)
    ensures ArgsPushed(mem, r, sp, top, argv, [])
  {
  }

  /** The stack a new program starts on: sp is 16-byte aligned and points at the NULL-terminated array of pointers to
      its arguments, whose strings follow; all of it is in the page below top. */
  ghost predicate StackBuilt(mem: Memory, r: nat, sp: nat, top: nat, argv: seq<seq<byte>>, at: seq<nat>) {
    && |at| == |argv| && sp % 16 == 0 && top - PGSIZE <= sp && sp + 8 * (|argv| + 1) <= top
    && ArgsPushed(mem, r, sp + 8 * (|argv| + 1), top, argv, at)
    && (forall i :: 0 <= i < |at| ==> WordIs(mem, r, sp + 8 * i, at[i]))
    && WordIs(mem, r, sp + 8 * |at|, 0)
  }

  lemma StackDone(s: Vm, t: Vm, r: nat, low: nat, sp: nat, top: nat, argv: seq<seq<byte>>, at: seq<nat>)
    requires r in s.roots && ArgsPushed(s.mem, r, sp, top, argv, at) && |at| == |argv| && AllBelow(at, top)
    requires top < WORD
    requires low % 16 == 0 && top - PGSIZE <= low && low + 8 * (|at| + 1) <= sp <= top
    requires AllBelow(at + [0], WORD) && TranslatesUpTo(s.mem, r, low, 8 * (|at| + 1))
    requires UserWritten(s, t, r, low, PointerBytes(at + [0])[..8 * (|at| + 1)])
    ensures StackBuilt(t.mem, r, low, top, argv, at)
  {
    hide UserWritten, TranslatesUpTo, StringAt, PointerBytes, WordIs;
    var ps := at + [0];
    assert PointerBytes(ps)[..8 * (|at| + 1)] == PointerBytes(ps);
    ArgsKept(s, t, r, sp, top, argv, at, low, PointerBytes(ps));
    forall i | 0 <= i < |ps|
      ensures WordIs(t.mem, r, low + 8 * i, ps[i])
    {
      PointersWritten(s, t, r, low, ps, i);
    }
    forall i | 0 <= i < |at|
      ensures WordIs(t.mem, r, low + 8 * i, at[i])
    {
      assert ps[i] == at[i];
    }
    assert ps[|at|] == 0;
    assert ArgsPushed(t.mem, r, low + 8 * (|argv| + 1), top, argv, at);
  }

  /** No address of the page two below top is accessible to the user. */
  ghost predicate Guarded(mem: Memory, r: nat, top: nat) {
    forall a: nat :: top - 2 * PGSIZE <= a < top - PGSIZE ==> !Translates(mem, r, a)
  }

  lemma GuardMade(mem: Memory, mem': Memory, r: nat, v: nat)
    requires v in Mapping(mem, r) && Mapping(mem', r) == Mapping(mem, r)[v := ClearUser(Mapping(mem, r)[v])]
    ensures Guarded(mem', r, (v + 2) * PGSIZE)
  {
    hide Mapping, PteUser, ClearUser;
    ClearedUser(Mapping(mem, r)[v]);
    forall a | v * PGSIZE <= a < (v + 1) * PGSIZE
      ensures !Translates(mem', r, a)
    {
      assert a / PGSIZE == v;
    }
  }

  lemma GuardKept(mem: Memory, mem': Memory, r: nat, top: nat)
    requires Guarded(mem, r, top) && Mapping(mem', r) == Mapping(mem, r)
    ensures Guarded(mem', r, top)
  {
    hide Mapping;
    forall a: nat | top - 2 * PGSIZE <= a < top - PGSIZE
      ensures !Translates(mem', r, a)
    {
      assert !Translates(mem, r, a);
    }
  }

  /** Add two pages above the program, the lower of them out of the user's reach. */
  method AllocStack(k: Kernel, r: nat, ghost s0: Vm, sz: nat) returns (ok: bool, top: nat)
    requires k.Valid() && Inv(s0) && Building(s0, k.S(), r, Pages(sz))
    modifies k
    ensures k.Valid()
    ensures !ok ==> Building(s0, k.S(), r, Pages(sz)) && |old(k.free)| < 6
    ensures ok ==> top == PgRoundUp(sz) + 2 * PGSIZE < WORD && Building(s0, k.S(), r, Pages(top))
    ensures ok ==> Guarded(k.mem, r, top) && StackPage(k.mem, r, top)
    ensures ok ==> KeptBelow(old(k.mem), k.mem, r, PgRoundUp(sz))
    ensures ok ==> StackOn(old(Mapping(k.mem, r)), Mapping(k.mem, r), Pages(sz))
  {
    hide Inv, Mapping, Building, Grown, Grows, Spans, Guarded, KeptBelow, StackPage, StackOn;
    ghost var s1, n := k.S(), Pages(sz);
    var base := PgRoundUp(sz);
    assert Pages(base) == n && Pages(base + 2 * PGSIZE) == n + 2;
    BuildingSpans(s0, s1, r, n);
    var sz1 := k.Uvmalloc(r, base, base + 2 * PGSIZE, PTE_W);
    ghost var s2 := k.S();
    if sz1 == 0 {
      BuildingTables(s0, s1, s2, r, n);
      return false, 0;
    }
    top := sz1;
    GrownSpans(s1, s2, r, n, Zeroed(2, PTE_W));
    ZeroedAt(2, PTE_W, 0);
    SpansBound(s2, r, n + 2);
    BuildingGrown(s0, s1, s2, r, n, n + 2, PTE_W);
    BuildingSpans(s0, s2, r, n + 2);
    SpansAt(s2, r, n + 2, n);
    k.Uvmclear(r, top - 2 * PGSIZE);
    assert Mapping(k.mem, r).Keys == Mapping(s2.mem, r).Keys;
    BuildingTables(s0, s2, k.S(), r, n + 2);
    GuardMade(s2.mem, k.mem, r, n);
    StackMade(s1, s2, k.S(), r, n);
    ok := true;
  }

  /** A map with two more pages from n on: one that only the kernel can read and write, and one that the user can. */
  ghost predicate StackOn(m: map<nat, nat>, m': map<nat, nat>, n: nat) {
    && (forall v :: v in m ==> v in m' && m'[v] == m[v])
    && n in m' && PteFlags(m'[n]) == PTE_V + PTE_R + PTE_W
    && n + 1 in m' && PteFlags(m'[n + 1]) == PTE_V + PTE_R + PTE_W + PTE_U
  }

  lemma StackAdded(s: Vm, t: Vm, u: Vm, r: nat, n: nat)
    requires Grown(s, t, r, n, Zeroed(2, PTE_W)) && n in Mapping(t.mem, r)
    requires Mapping(u.mem, r) == Mapping(t.mem, r)[n := ClearUser(Mapping(t.mem, r)[n])]
    ensures StackOn(Mapping(s.mem, r), Mapping(u.mem, r), n)
  {
    hide Mapping, Grows, Spans, Zeroed, ClearUser, PteFlags;
    ZeroedAt(2, PTE_W, 0);
    ZeroedAt(2, PTE_W, 1);
    KeptOutside(Mapping(s.mem, r), Mapping(t.mem, r), n, 2);
    NotThere(Mapping(s.mem, r), Mapping(t.mem, r), n);
    assert HasPage(t.mem, r, n + 0, Zeroed(2, PTE_W)[0]) && HasPage(t.mem, r, n + 1, Zeroed(2, PTE_W)[1]);
    ClearedFlags(Mapping(t.mem, r)[n]);
  }

  lemma NotThere(m: map<nat, nat>, m': map<nat, nat>, n: nat)
    requires Removed(m', n, 2) == m
    ensures n !in m
  {
    assert n !in Removed(m', n, 2);
  }

  lemma ClearedFlags(pte: nat)
    requires PteFlags(pte) == UserFlags(PTE_W)
    ensures PteFlags(ClearUser(pte)) == PTE_V + PTE_R + PTE_W
  {
    var q := pte / 1024;
    assert pte == 1024 * q + 23;
    assert PteUser(pte) by {
      assert pte == 16 * (64 * q + 1) + 7;
    }
    assert ClearUser(pte) == 1024 * q + 7;
  }

  /** What growing and clearing leave as it was, and the stack page. */
  lemma StackMade(s: Vm, t: Vm, u: Vm, r: nat, n: nat)
    requires Inv(s) && Inv(t) && r in s.roots && r in t.roots && n + 2 < PHYSPAGES
    requires Grown(s, t, r, n, Zeroed(2, PTE_W))
    requires Grows(t, u, r, 0, 0) && n in Mapping(t.mem, r)
    requires Mapping(u.mem, r) == Mapping(t.mem, r)[n := ClearUser(Mapping(t.mem, r)[n])]
    ensures KeptBelow(s.mem, u.mem, r, n * PGSIZE) && StackPage(u.mem, r, (n + 2) * PGSIZE)
    ensures StackOn(Mapping(s.mem, r), Mapping(u.mem, r), n)
  {
    hide Inv, Mapping, Grows, Spans, Zeroed, HasPage, ClearUser, KeptBelow, PteUser, StackOn;
    StackAdded(s, t, u, r, n);
    ZeroedAt(2, PTE_W, 0);
    OldPages(s, t, r, n, 2);
    GrownBelow(s, t, r, n, n + 2, n);
    GrownBelow(t, u, r, 0, 0, n);
    KeptTwice(s.mem, t.mem, u.mem, r, n * PGSIZE);
    forall a | (n + 1) * PGSIZE <= a < (n + 2) * PGSIZE
      ensures Translates(u.mem, r, a)
    {
      NewByte(s, t, r, n, n + 2, PTE_W, a);
      assert a / PGSIZE == n + 1;
    }
  }

  /** Tree r replaces tree `was`: all pages of `was` are free, all pages of r were free, and every other page is as
      before. */
  ghost predicate Swapped(s: Vm, t: Vm, was: nat, r: nat) {
    && r !in s.roots && t.roots == s.roots - {was} + {r} && s.own.Keys == s.mem.Keys == t.own.Keys == t.mem.Keys
    && forall p :: p in s.own ==>
      if OwnedBy(s.own[p], was) then t.own[p].Free?
      else Untouched(s, t, p) || (s.own[p].Free? && OwnedBy(t.own[p], r))
  }

  lemma BuiltSwapped(s: Vm, t: Vm, u: Vm, was: nat, r: nat, n: nat)
    requires Inv(s) && was in s.roots && Building(s, t, r, n) && Reclaimed(t, u, was)
    ensures Swapped(s, u, was, r)
  {
    hide Mapping, Inv, FullSpace;
    NotOwnedYet(s, r);
    PagesListed(s);
    forall p | p in s.own
      ensures if OwnedBy(s.own[p], was) then u.own[p].Free?
        else Untouched(s, u, p) || (s.own[p].Free? && OwnedBy(u.own[p], r))
    {
      assert PageGrows(s.(roots := t.roots), t, r, 0, n, p);
      PageSwapped(s, t, u, was, r, n, p);
    }
  }

  lemma PageSwapped(s: Vm, t: Vm, u: Vm, was: nat, r: nat, n: nat, p: nat)
    requires p in s.own && p in t.own && p in u.own && p in s.mem && p in t.mem && p in u.mem && was != r
    requires PageGrows(s.(roots := t.roots), t, r, 0, n, p) && !OwnedBy(s.own[p], r)
    requires if OwnedBy(t.own[p], was) then u.own[p].Free? else Untouched(t, u, p)
    ensures if OwnedBy(s.own[p], was) then u.own[p].Free?
      else Untouched(s, u, p) || (s.own[p].Free? && OwnedBy(u.own[p], r))
  {
  }

  /** The old address space is still whole when it is given up. */
  lemma OldSpaceWhole(s: Vm, t: Vm, was: nat, r: nat, n: nat, m: nat)
    requires Inv(s) && was in s.roots && Building(s, t, r, n) && FullSpace(s.mem, was, m)
    ensures was in t.roots && was != r && FullSpace(t.mem, was, m)
  {
    hide Inv, Mapping, Grows, FullSpace;
    PagesListed(s);
    BuildingKeys(s, t, r, n);
    forall p | p in s.own && TableOf(s.own[p], was)
      ensures t.mem[p] == s.mem[p]
    {
      BuildingPage(s, t, r, n, p);
    }
    forall q | IsPos(q)
      ensures At(t.mem, was, q) == At(s.mem, was, q) && (!q.Top? ==> PteAt(t.mem, was, q) == PteAt(s.mem, was, q))
    {
      TablesFix(s, t, was, q);
    }
    MappingSame(s.mem, t.mem, was);
    FullSpaceSame(s.mem, t.mem, was, m);
  }

  lemma FullSpaceSame(mem: Memory, mem': Memory, r: nat, n: nat)
    requires FullSpace(mem, r, n) && Mapping(mem', r) == Mapping(mem, r)
    ensures FullSpace(mem', r, n)
  {
  }

  lemma BuildingKeys(s: Vm, t: Vm, r: nat, n: nat)
    requires Building(s, t, r, n)
    ensures t.mem.Keys == s.mem.Keys == t.own.Keys && t.roots == s.roots + {r} && r !in s.roots
  {
  }

  lemma BuildingPage(s: Vm, t: Vm, r: nat, n: nat, p: nat)
    requires Building(s, t, r, n) && p in s.own && s.own[p].Owned? && s.own[p].root in s.roots
    ensures p in s.mem && p in t.mem && t.mem[p] == s.mem[p]
  {
    hide Inv, FullSpace;
    assert PageGrows(s.(roots := t.roots), t, r, 0, n, p);
  }

  /** What the new program finds survives freeing the old address space. */
  lemma StackSurvives(s: Vm, t: Vm, was: nat, r: nat, sp: nat, top: nat, argv: seq<seq<byte>>, at: seq<nat>)
    requires Inv(s) && Reclaimed(s, t, was) && r in s.roots && r != was && StackBuilt(s.mem, r, sp, top, argv, at)
    ensures StackBuilt(t.mem, r, sp, top, argv, at) && Mapping(t.mem, r) == Mapping(s.mem, r)
  {
    hide Inv, Reclaimed, Mapping, BytesWord;
    OtherSpaceKept(s, t, was, r);
    forall i | 0 <= i < |at|
      ensures StringAt(t.mem, r, at[i], argv[i]) && WordIs(t.mem, r, sp + 8 * i, at[i])
    {
      assert StringAt(s.mem, r, at[i], argv[i]) && WordIs(s.mem, r, sp + 8 * i, at[i]);
      BytesStay(s.mem, t.mem, r, at[i], |argv[i]| + 1);
      BytesStay(s.mem, t.mem, r, sp + 8 * i, 8);
    }
    BytesStay(s.mem, t.mem, r, sp + 8 * |at|, 8);
  }

  lemma BytesStay(mem: Memory, mem': Memory, r: nat, a: nat, n: nat)
    requires TranslatesUpTo(mem, r, a, n)
    requires forall b :: Translates(mem, r, b) ==> ByteStays(mem, mem', r, b)
    ensures TranslatesUpTo(mem', r, a, n) && UserBytes(mem', r, a, n) == UserBytes(mem, r, a, n)
  {
    hide Translates, UserByte;
    forall c | a <= c < a + n
      ensures Translates(mem', r, c) && UserByte(mem', r, c) == UserByte(mem, r, c)
    {
      assert ByteStays(mem, mem', r, c);
    }
    SameBytes(mem, mem', r, a, n);
  }

  /** The program's bytes are in place as well. */
  lemma ProgramSurvives(s: Vm, t: Vm, was: nat, r: nat, n: nat, file: seq<byte>, j: nat)
    requires Inv(s) && Reclaimed(s, t, was) && r in s.roots && r != was
    requires HeaderOk(file) && ProgramIn(s.mem, r, n, file, j)
    ensures ProgramIn(t.mem, r, n, file, j)
  {
    hide Inv, Reclaimed, Mapping, HeaderOk, ProgramIn;
    OtherSpaceKept(s, t, was, r);
    ProgramKept(s.mem, t.mem, r, n, n * PGSIZE, file, j);
  }

  /** What exec needs to be able to go through: a program it accepts and arguments that fit one page. */
  ghost predicate Runnable(file: seq<byte>, argv: seq<seq<byte>>) {
    HeaderOk(file) && ProgramOk(file, HeaderCount(file)) && ArgsFit(argv)
  }

  /** Every page of a process has the flags it should have: the kernel's two, those of the program, the guard page and
      the stack. */
  ghost predicate MapsProgram(m: map<nat, nat>, file: seq<byte>, kernel: map<nat, nat>)
    requires HeaderOk(file)
  {
    var n := Pages(ProgramSize(file, HeaderCount(file)));
    && Laid(m, n, file, HeaderCount(file), kernel)
    && n in m && PteFlags(m[n]) == PTE_V + PTE_R + PTE_W
    && n + 1 in m && PteFlags(m[n + 1]) == PTE_V + PTE_R + PTE_W + PTE_U
  }

  lemma StackOnProgram(m: map<nat, nat>, m': map<nat, nat>, file: seq<byte>, kernel: map<nat, nat>)
    requires HeaderOk(file) && StackOn(m, m', Pages(ProgramSize(file, HeaderCount(file))))
    requires Laid(m, Pages(ProgramSize(file, HeaderCount(file))), file, HeaderCount(file), kernel)
    ensures MapsProgram(m', file, kernel)
  {
    hide PteFlags, HeaderOk, ProgramSize, HeaderCount, PageFlags;
    LaidOn(m, m', Pages(ProgramSize(file, HeaderCount(file))), file, HeaderCount(file), kernel);
  }

  /** The new address space: the program, byte by byte, below a guard page and a stack that holds the arguments. */
  ghost predicate Started(mem: Memory, r: nat, sz: nat, sp: nat, at: seq<nat>, file: seq<byte>, argv: seq<seq<byte>>,
                          kernel: map<nat, nat>)
    requires HeaderOk(file)
  {
    var n := HeaderCount(file);
    && sz == PgRoundUp(ProgramSize(file, n)) + 2 * PGSIZE && FullSpace(mem, r, Pages(sz))
    && MapsProgram(Mapping(mem, r), file, kernel)
    && ProgramIn(mem, r, Pages(ProgramSize(file, n)), file, n)
    && Guarded(mem, r, sz) && StackBuilt(mem, r, sp, sz, argv, at)
  }

  /** Build the new address space up to the arguments. */
  method Build(k: Kernel, r: nat, ghost s0: Vm, file: seq<byte>, argv: seq<seq<byte>>, ghost kernel: map<nat, nat>)
    returns (ok: bool, top: nat, sp: nat, at: seq<nat>)
    requires k.Valid() && Inv(s0) && Building(s0, k.S(), r, 0) && HeaderOk(file) && Mapping(k.mem, r) == kernel
    requires |argv| != MAXARG && forall i :: 0 <= i < |argv| ==> |argv[i]| < PGSIZE
    modifies k
    ensures k.Valid() && Building(s0, k.S(), r, Pages(top))
    ensures ok ==> Runnable(file, argv) && Started(k.mem, r, top, sp, at, file, argv, kernel)
    ensures !ok && Runnable(file, argv) ==> |old(k.free)| + 3 < PagesEnough(file)
  {
    hide Inv, Building, HeaderOk, ProgramOk, ProgramIn, HeaderCount, ArgsFit, Guarded, StackBuilt, StackPage;
    hide KeptBelow, FullSpace, Mapping, MapsProgram, Laid, StackOn;
    sp, at := 0, [];
    ok, top := LoadProgram(k, r, s0, file, kernel);
    if !ok {
      return;
    }
    ghost var m1, n, len := k.mem, Pages(top), HeaderCount(file);
    var stack;
    ok, stack := AllocStack(k, r, s0, top);
    if !ok {
      return;
    }
    StackOnProgram(Mapping(m1, r), Mapping(k.mem, r), file, kernel);
    ProgramKept(m1, k.mem, r, n, PgRoundUp(top), file, len);
    top := stack;
    ghost var m2 := k.mem;
    ok, sp, at := PushArgs(k, r, s0, Pages(top), top, argv);
    GuardKept(m2, k.mem, r, top);
    ProgramKept(m2, k.mem, r, n, top - PGSIZE, file, len);
    BuildingSpans(s0, k.S(), r, Pages(top));
  }

  /** Replace address space `was` (of wasSz bytes) by one that holds the program with its arguments; -1 if the
      program or the arguments are not acceptable or memory runs out, and then nothing has changed. */
  method Exec(k: Kernel, was: nat, wasSz: nat, trampoline: nat, trapframe: nat, file: seq<byte>, argv: seq<seq<byte>>)
    returns (argc: int, root: nat, sz: nat, sp: nat, at: seq<nat>)
    requires k.Valid() && was in k.roots && FullSpace(k.mem, was, Pages(wasSz))
    requires 0 < trampoline < MAXPPN && trapframe in k.own && k.own[trapframe].Held?
    requires |argv| != MAXARG && forall i :: 0 <= i < |argv| ==> |argv[i]| < PGSIZE
    modifies k
    ensures k.Valid() && (argc == -1 || argc == |argv|)
    ensures argc == -1 ==> Restored(old(k.S()), k.S()) && root == was && sz == wasSz
    ensures argc >= 0 ==> Swapped(old(k.S()), k.S(), was, root)
    ensures argc >= 0 ==> Runnable(file, argv)
    ensures argc >= 0 ==> Started(k.mem, root, sz, sp, at, file, argv, KernelPages(trampoline, trapframe))
    ensures Runnable(file, argv) && |old(k.free)| >= PagesEnough(file) ==> argc >= 0
  {
    hide Inv, Mapping, Building, Restored, Reclaimed, Guarded, StackBuilt, NewSpace, KernelPages, Swapped, FullSpace;
    hide HeaderOk, HeaderCount, ProgramOk, ArgsFit, ProgramIn, PagesEnough, MapsProgram;
    ghost var s0 := k.S();
    argc, root, sz, sp, at := -1, was, wasSz, 0, [];
    if !HeaderOk(file) {
      RestoredSelf(s0);
      return;
    }
    ThreePages(file);
    var r := k.ProcPagetable(trampoline, trapframe);
    if r == 0 {
      return;
    }
    BuildingStart(s0, k.S(), r, trampoline, trapframe);
    var ok, top, sp1, at1 := Build(k, r, s0, file, argv, KernelPages(trampoline, trapframe));
    ghost var s1 := k.S();
    BuildingSpans(s0, s1, r, Pages(top));
    if !ok {
      k.ProcFreepagetable(r, top);
      BuildingUndone(s0, s1, k.S(), r, Pages(top));
      return;
    }
    OldSpaceWhole(s0, s1, was, r, Pages(top), Pages(wasSz));
    k.ProcFreepagetable(was, wasSz);
    BuiltSwapped(s0, s1, k.S(), was, r, Pages(top));
    StackSurvives(s1, k.S(), was, r, sp1, top, argv, at1);
    ProgramSurvives(s1, k.S(), was, r, Pages(ProgramSize(file, HeaderCount(file))), file, HeaderCount(file));
    GuardKept(s1.mem, k.mem, r, top);
    FullSpaceSame(s1.mem, k.mem, r, Pages(top));
    argc, root, sz, sp, at := |argv|, r, top, sp1, at1;
  }

  lemma ThreePages(file: seq<byte>)
    requires HeaderOk(file)
    ensures PagesEnough(file) >= 3
  {
  }
}
