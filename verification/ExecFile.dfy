/** Programs as exec reads them (kernel/exec.c, kernel/elf.h): headers, segments, the memory image they describe,
    and the room the arguments take. */
module ExecFile {
  import opened Blocks
  import opened Values
  import opened VmModel
  import opened VmSteps
  import opened VmSpec
  import opened VmUser
  import opened ExecModel

  const ELF_MAGIC: nat := 0x464C_457F
  const ELFHDR: nat := 64
  const PROGHDR: nat := 56

  // ----- headers -----

  function Ushort(s: seq<byte>, i: nat): (w: nat)
    requires i + 2 <= |s|
  {
    var b0: int, b1: int := s[i], s[i + 1];
    b0 + 0x100 * b1
  }

  function Uint(s: seq<byte>, i: nat): (w: nat)
    requires i + 4 <= |s|
  {
    LeWord(s[i..i + 4])
  }

  function Ulong(s: seq<byte>, i: nat): (w: nat)
    requires i + 8 <= |s|
  {
    BytesWord(s[i..i + 8])
  }

  /** The file starts with an ELF header. */
  predicate HeaderOk(file: seq<byte>) {
    var h := FileRead(file, 0, ELFHDR);
    |h| == ELFHDR && Uint(h, 0) == ELF_MAGIC
  }

  function HeaderCount(file: seq<byte>): (n: nat)
    requires HeaderOk(file)
  {
    Ushort(FileRead(file, 0, ELFHDR), 56)
  }

  /** Program header i, at an offset that is cut to 32 bits. */
  function HeaderAt(file: seq<byte>, i: nat): (h: HeaderRead)
    requires HeaderOk(file)
  {
    var p := FileRead(file, (Ulong(FileRead(file, 0, ELFHDR), 32) + PROGHDR * i) % TWO32, PROGHDR);
    if |p| != PROGHDR then Short
    else Header(ProgramHeader(Uint(p, 0), Uint(p, 4), Ulong(p, 8), Ulong(p, 16), Ulong(p, 32), Ulong(p, 40)))
  }

  // ----- segments -----

  /** How much loadseg reads for the page that starts i bytes into a segment of sz bytes. */
  function PagePart(sz: nat, i: nat): (n: nat) {
    if i > sz then 0 else if sz - i < PGSIZE then sz - i else PGSIZE
  }

  predicate PageReadable(file: seq<byte>, off: uint32, sz: uint32, j: nat) {
    |FileRead(file, (off + j * PGSIZE) % TWO32, PagePart(sz, j * PGSIZE))| == PagePart(sz, j * PGSIZE)
  }

  /** Every page of the segment can be read in full. */
  ghost predicate Readable(file: seq<byte>, off: uint32, sz: uint32) {
    forall j: nat :: j * PGSIZE < sz ==> PageReadable(file, off, sz, j)
  }

  /** Byte x of a segment that lies at off in the file; the offset of each page is cut to 32 bits. */
  function SegmentByte(file: seq<byte>, off: uint32, x: nat): (b: byte) {
    var i := (off + x / PGSIZE * PGSIZE) % TWO32 + x % PGSIZE;
    if i < |file| then file[i] else 0
  }

  /** Without that cut it is simply the part of the file from off on. */
  lemma SegmentIsPart(file: seq<byte>, off: uint32, sz: uint32, x: nat)
    requires Readable(file, off, sz) && x < sz && off + sz < TWO32
    ensures off + x < |file| && SegmentByte(file, off, x) == file[off + x]
  {
    var j := x / PGSIZE;
    assert j * PGSIZE <= x < j * PGSIZE + PGSIZE;
    assert PageReadable(file, off, sz, j);
  }

  predicate Covers(ph: ProgramHeader, a: nat) {
    ph.kind == ELF_PROG_LOAD && ph.vaddr <= a < ph.vaddr + ph.filesz % TWO32
  }

  /** The byte at address a once the first n headers have been dealt with: later segments overwrite earlier ones, and
      what no segment covers is zero. */
  function Loaded(file: seq<byte>, n: nat, a: nat): (b: byte)
    requires HeaderOk(file)
  {
    if n == 0 then 0
    else
      match HeaderAt(file, n - 1)
      case Short => 0
      case Header(ph) => if Covers(ph, a) then SegmentByte(file, ph.off % TWO32, a - ph.vaddr)
        else Loaded(file, n - 1, a)
  }

  /** The size of the program so far. */
  function ProgramSize(file: seq<byte>, n: nat): (sz: nat)
    requires HeaderOk(file)
  {
    if n == 0 then 0
    else
      var sz := ProgramSize(file, n - 1);
      match HeaderAt(file, n - 1)
      case Short => sz
      case Header(ph) => if ph.kind == ELF_PROG_LOAD && ph.vaddr + ph.memsz > sz then ph.vaddr + ph.memsz else sz
  }

  ghost predicate SegmentOk(file: seq<byte>, ph: ProgramHeader) {
    && ph.filesz <= ph.memsz && ph.vaddr + ph.memsz < WORD && ph.vaddr % PGSIZE == 0
    && Readable(file, ph.off % TWO32, ph.filesz % TWO32)
  }

  /** exec accepts the first n headers. A segment that leaves the size at 0 is refused, because uvmalloc answers 0. */
  ghost predicate ProgramOk(file: seq<byte>, n: nat)
    requires HeaderOk(file)
  {
    n == 0 || (ProgramOk(file, n - 1) && HeaderGood(file, n - 1))
  }

  ghost predicate HeaderGood(file: seq<byte>, i: nat)
    requires HeaderOk(file)
  {
    match HeaderAt(file, i)
    case Short => false
    case Header(ph) => ph.kind == ELF_PROG_LOAD ==> SegmentOk(file, ph) && ProgramSize(file, i + 1) != 0
  }

  lemma {:induction false} OkPrefix(file: seq<byte>, k: nat, n: nat)
    requires HeaderOk(file) && k <= n && ProgramOk(file, n)
    ensures ProgramOk(file, k) && ProgramSize(file, k) <= ProgramSize(file, n)
    decreases n
  {
    if k < n {
      OkPrefix(file, k, n - 1);
    }
  }

  /** A program that starts with an empty segment at address 0 is refused, whatever follows. */
  lemma EmptyFirstRefused(file: seq<byte>, n: nat)
    requires HeaderOk(file) && n > 0 && HeaderAt(file, 0).Header?
    requires var ph := HeaderAt(file, 0).ph; ph.kind == ELF_PROG_LOAD && ph.vaddr == ph.memsz == 0
    ensures !ProgramOk(file, n)
  {
    hide HeaderAt, HeaderOk, SegmentOk;
    if ProgramOk(file, n) {
      OkPrefix(file, 1, n);
    }
  }

  /** Segments do not reach beyond the size. */
  lemma {:induction false} LoadedBeyond(file: seq<byte>, n: nat, a: nat)
    requires HeaderOk(file) && ProgramOk(file, n) && a >= ProgramSize(file, n)
    ensures Loaded(file, n, a) == 0
  {
    hide HeaderAt, Readable;
    if n > 0 {
      LoadedBeyond(file, n - 1, a);
    }
  }

  // ----- the image in memory -----

  /** The first n pages of tree r hold the program as the first k headers describe it. */
  ghost predicate ProgramIn(mem: Memory, r: nat, n: nat, file: seq<byte>, k: nat)
    requires HeaderOk(file)
  {
    forall a: nat :: a < n * PGSIZE ==> ByteLoaded(mem, r, file, k, a)
  }

  ghost predicate ByteLoaded(mem: Memory, r: nat, file: seq<byte>, k: nat, a: nat)
    requires HeaderOk(file)
  {
    Translates(mem, r, a) && UserByte(mem, r, a) == Loaded(file, k, a)
  }

  /** Below address b, everything in tree r is as it was. */
  ghost predicate KeptBelow(mem: Memory, mem': Memory, r: nat, b: nat) {
    forall a: nat :: a < b && Translates(mem, r, a) ==> ByteStays(mem, mem', r, a)
  }

  lemma ProgramKept(mem: Memory, mem': Memory, r: nat, n: nat, b: nat, file: seq<byte>, k: nat)
    requires HeaderOk(file) && ProgramIn(mem, r, n, file, k) && KeptBelow(mem, mem', r, b) && n * PGSIZE <= b
    ensures ProgramIn(mem', r, n, file, k)
  {
    hide Translates, UserByte, Loaded, HeaderOk;
    forall a: nat | a < n * PGSIZE
      ensures ByteLoaded(mem', r, file, k, a)
    {
      assert ByteLoaded(mem, r, file, k, a);
      assert ByteStays(mem, mem', r, a);
    }
  }

  lemma KeptTwice(m0: Memory, m1: Memory, m2: Memory, r: nat, b: nat)
    requires KeptBelow(m0, m1, r, b) && KeptBelow(m1, m2, r, b)
    ensures KeptBelow(m0, m2, r, b)
  {
    hide Translates, UserByte;
    forall a: nat | a < b && Translates(m0, r, a)
      ensures ByteStays(m0, m2, r, a)
    {
      assert ByteStays(m0, m1, r, a) && ByteStays(m1, m2, r, a);
    }
  }

  lemma KeptSelf(mem: Memory, r: nat, b: nat)
    ensures KeptBelow(mem, mem, r, b)
  {
    hide Translates, UserByte;
  }

  /** Writing at or above b keeps what is below. */
  lemma WrittenAbove(s: Vm, t: Vm, r: nat, a: nat, x: seq<byte>, b: nat)
    requires UserWritten(s, t, r, a, x) && r in s.roots && (x == [] || b <= a)
    ensures KeptBelow(s.mem, t.mem, r, b)
  {
    hide Translates, UserByte, Mapping, SameTrees;
    forall c: nat | c < b && Translates(s.mem, r, c)
      ensures ByteStays(s.mem, t.mem, r, c)
    {
      assert ByteWritten(s, t, r, a, x, r, c);
    }
  }

  /** While a tree grows, pages whose entry does not change keep their bytes. */
  lemma GrownBelow(s: Vm, t: Vm, r: nat, lo: nat, hi: nat, n: nat)
    requires Inv(s) && r in s.roots && Grows(s, t, r, lo, hi) && n <= TRAPFRAME
    requires forall v: nat :: v < n && v in Mapping(s.mem, r) ==>
      v in Mapping(t.mem, r) && Mapping(t.mem, r)[v] == Mapping(s.mem, r)[v]
    ensures KeptBelow(s.mem, t.mem, r, n * PGSIZE)
  {
    hide Inv, Mapping, Grows, PteUser, PteTarget, PteFlags;
    forall a: nat | a < n * PGSIZE && Translates(s.mem, r, a)
      ensures ByteStays(s.mem, t.mem, r, a)
    {
      var v := a / PGSIZE;
      UserFrame(s, r, a);
      var p := PteTarget(Mapping(s.mem, r)[v]);
      PageStays(s, t, r, lo, hi, v, Frame(PteFlags(Mapping(s.mem, r)[v]), s.mem[p]));
    }
  }

  /** Zeroed pages on top belong to the image as well. */
  lemma GrownProgram(s: Vm, t: Vm, r: nat, n: nat, m: nat, xperm: nat, file: seq<byte>, k: nat)
    requires Inv(s) && r in s.roots && n <= m < PHYSPAGES && xperm in {0, PTE_W, PTE_X, PTE_W + PTE_X}
    requires Grown(s, t, r, n, Zeroed(m - n, xperm))
    requires HeaderOk(file) && ProgramIn(s.mem, r, n, file, k) && ProgramOk(file, k)
    requires ProgramSize(file, k) <= n * PGSIZE
    ensures ProgramIn(t.mem, r, m, file, k)
  {
    hide Inv, Mapping, Grows, Spans, ZeroPage, Zeroed, HeaderOk, ProgramOk, Loaded, ProgramSize, HasPage;
    hide Translates, UserByte;
    ZeroedAt(m - n, xperm, 0);
    OldPages(s, t, r, n, m - n);
    GrownBelow(s, t, r, n, m, n);
    ProgramKept(s.mem, t.mem, r, n, n * PGSIZE, file, k);
    forall a: nat | n * PGSIZE <= a < m * PGSIZE
      ensures ByteLoaded(t.mem, r, file, k, a)
    {
      NewByte(s, t, r, n, m, xperm, a);
      LoadedBeyond(file, k, a);
    }
  }

  lemma OldPages(s: Vm, t: Vm, r: nat, n: nat, k: nat)
    requires Removed(Mapping(t.mem, r), n, k) == Mapping(s.mem, r)
    ensures forall v: nat :: v < n && v in Mapping(s.mem, r) ==>
      v in Mapping(t.mem, r) && Mapping(t.mem, r)[v] == Mapping(s.mem, r)[v]
  {
    hide Mapping;
    forall v: nat | v < n && v in Mapping(s.mem, r)
      ensures v in Mapping(t.mem, r) && Mapping(t.mem, r)[v] == Mapping(s.mem, r)[v]
    {
      assert v in Removed(Mapping(t.mem, r), n, k);
    }
  }

  lemma NewByte(s: Vm, t: Vm, r: nat, n: nat, m: nat, xperm: nat, a: nat)
    requires n * PGSIZE <= a < m * PGSIZE && m < PHYSPAGES && xperm in {0, PTE_W, PTE_X, PTE_W + PTE_X}
    requires n <= m && Grown(s, t, r, n, Zeroed(m - n, xperm))
    ensures Translates(t.mem, r, a) && UserByte(t.mem, r, a) == 0
  {
    hide Mapping, Grows, Spans, Removed, PteUser;
    var v := a / PGSIZE;
    assert n <= v < m;
    NewPageUser(s, t, r, n, m, xperm, v);
    assert HasPage(t.mem, r, n + (v - n), Zeroed(m - n, xperm)[v - n]);
  }

  /** The segment of header k has been written. */
  lemma SegmentWritten(s: Vm, t: Vm, r: nat, n: nat, file: seq<byte>, k: nat, w: seq<byte>)
    requires HeaderOk(file) && HeaderAt(file, k).Header? && HeaderAt(file, k).ph.kind == ELF_PROG_LOAD && r in s.roots
    requires var ph := HeaderAt(file, k).ph;
      && |w| == ph.filesz % TWO32 && UserWritten(s, t, r, ph.vaddr, w)
      && forall x :: 0 <= x < |w| ==> w[x] == SegmentByte(file, ph.off % TWO32, x)
    requires ProgramIn(s.mem, r, n, file, k)
    ensures ProgramIn(t.mem, r, n, file, k + 1)
  {
    hide Translates, UserByte, Mapping, SameTrees, HeaderAt, HeaderOk, SegmentByte;
    var ph, next := HeaderAt(file, k).ph, k + 1;
    forall a: nat | a < n * PGSIZE
      ensures ByteLoaded(t.mem, r, file, next, a)
    {
      assert ByteLoaded(s.mem, r, file, k, a);
      assert ByteWritten(s, t, r, ph.vaddr, w, r, a);
    }
  }

  /** A header that is not loaded changes nothing. */
  lemma SkippedHeader(mem: Memory, r: nat, n: nat, file: seq<byte>, k: nat)
    requires HeaderOk(file) && HeaderAt(file, k).Header? && HeaderAt(file, k).ph.kind != ELF_PROG_LOAD
    requires ProgramIn(mem, r, n, file, k)
    ensures ProgramIn(mem, r, n, file, k + 1) && ProgramSize(file, k + 1) == ProgramSize(file, k)
  {
    hide Translates, UserByte, HeaderAt, HeaderOk;
    var next := k + 1;
    forall a: nat | a < n * PGSIZE
      ensures ByteLoaded(mem, r, file, next, a)
    {
      assert ByteLoaded(mem, r, file, k, a);
    }
  }

  // ----- permissions -----

  /** The flags of user page v after the first k headers: those of the header that made the program reach it. */
  function PageFlags(file: seq<byte>, k: nat, v: nat): (flags: nat)
    requires HeaderOk(file)
  {
    if k == 0 then 0
    else if v < Pages(ProgramSize(file, k - 1)) then PageFlags(file, k - 1, v)
    else
      match HeaderAt(file, k - 1)
      case Short => 0
      case Header(ph) => UserFlags(Flags2perm(ph.flags))
  }

  /** The map of a process: the kernel's two pages, and n pages with the flags that the first k headers give them. */
  ghost predicate Laid(m: map<nat, nat>, n: nat, file: seq<byte>, k: nat, kernel: map<nat, nat>)
    requires HeaderOk(file)
  {
    && (forall v :: v in kernel && v >= TRAPFRAME ==> v in m && m[v] == kernel[v])
    && forall v: nat :: v < n ==> v in m && PteFlags(m[v]) == PageFlags(file, k, v)
  }

  /** Pages that the program had before keep their flags. */
  lemma LaidSame(m: map<nat, nat>, n: nat, file: seq<byte>, k: nat, kernel: map<nat, nat>)
    requires HeaderOk(file) && Laid(m, n, file, k, kernel) && n <= Pages(ProgramSize(file, k))
    ensures Laid(m, n, file, k + 1, kernel)
  {
    hide HeaderAt, HeaderOk, PteFlags, ProgramSize;
    var next := k + 1;
    forall v: nat | v < n
      ensures v in m && PteFlags(m[v]) == PageFlags(file, next, v)
    {
    }
  }

  lemma LaidOn(m: map<nat, nat>, m': map<nat, nat>, n: nat, file: seq<byte>, k: nat, kernel: map<nat, nat>)
    requires HeaderOk(file) && Laid(m, n, file, k, kernel)
    requires forall v :: v in m && (v < n || v >= TRAPFRAME) ==> v in m' && m'[v] == m[v]
    ensures Laid(m', n, file, k, kernel)
  {
    hide HeaderOk, PteFlags, PageFlags;
  }

  /** The pages that a segment adds have its flags. */
  lemma LaidGrown(s: Vm, t: Vm, r: nat, n: nat, m: nat, file: seq<byte>, k: nat, kernel: map<nat, nat>)
    requires HeaderOk(file) && HeaderAt(file, k).Header? && n == Pages(ProgramSize(file, k)) <= m < PHYSPAGES
    requires Laid(Mapping(s.mem, r), n, file, k, kernel)
    requires Grown(s, t, r, n, Zeroed(m - n, Flags2perm(HeaderAt(file, k).ph.flags)))
    ensures Laid(Mapping(t.mem, r), m, file, k + 1, kernel)
  {
    hide HeaderAt, HeaderOk, PteFlags, ProgramSize, Mapping, Grows, Spans, Zeroed, Flags2perm;
    var perm, next := Flags2perm(HeaderAt(file, k).ph.flags), k + 1;
    ZeroedAt(m - n, perm, 0);
    KeptOutside(Mapping(s.mem, r), Mapping(t.mem, r), n, m - n);
    forall v: nat | v < m
      ensures v in Mapping(t.mem, r) && PteFlags(Mapping(t.mem, r)[v]) == PageFlags(file, next, v)
    {
      if v >= n {
        ZeroedAt(m - n, perm, v - n);
        assert HasPage(t.mem, r, n + (v - n), Zeroed(m - n, perm)[v - n]);
      }
    }
  }

  lemma KeptOutside(m: map<nat, nat>, m': map<nat, nat>, n: nat, k: nat)
    requires Removed(m', n, k) == m
    ensures forall v :: v in m ==> v in m' && m'[v] == m[v]
  {
    forall v | v in m
      ensures v in m' && m'[v] == m[v]
    {
      assert v in Removed(m', n, k);
    }
  }

  // ----- arguments -----

  /** A size rounded up to the alignment of the stack pointer. */
  function Aligned(n: nat): (m: nat) {
    (n + 15) / 16 * 16
  }

  /** What the first n strings take on the stack. */
  function StringsSize(argv: seq<seq<byte>>, n: nat): (s: nat)
    requires n <= |argv|
  {
    if n == 0 then 0 else StringsSize(argv, n - 1) + Aligned(|argv[n - 1]| + 1)
  }

  /** The strings and the array of pointers to them fit the stack's one page. */
  predicate ArgsFit(argv: seq<seq<byte>>) {
    |argv| < MAXARG && StringsSize(argv, |argv|) + Aligned(8 * (|argv| + 1)) <= PGSIZE
  }

  lemma {:induction false} StringsGrow(argv: seq<seq<byte>>, k: nat, n: nat)
    requires k <= n <= |argv|
    ensures StringsSize(argv, k) <= StringsSize(argv, n)
  {
    if k < n {
      StringsGrow(argv, k, n - 1);
    }
  }

  /** Going down n bytes and then to a multiple of 16, from a multiple of 16. */
  lemma AlignedDown(sp: nat, n: nat)
    requires sp % 16 == 0 && n <= sp
    ensures (sp - n) - (sp - n) % 16 == sp - Aligned(n) && Aligned(n) % 16 == 0 && n <= Aligned(n) < n + 16
  {
  }

  // ----- memory -----

  /** Free pages that are enough for exec: its page table with the two kernel pages, and every user page with its
      tables. */
  function PagesEnough(file: seq<byte>): (n: nat)
    requires HeaderOk(file)
  {
    3 + 3 * (Pages(ProgramSize(file, HeaderCount(file))) + 2)
  }
}
