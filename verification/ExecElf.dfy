/** ELF files from the other side (kernel/elf.h): how a program is laid out in a file, field by field, and where exec of
    that file puts its bytes. */
module ExecElf {
  import opened Blocks
  import opened Values
  import opened VmModel
  import opened VmSpec
  import opened VmFree
  import opened VmUser
  import opened VmCode
  import opened Sv39
  import opened ExecModel
  import opened ExecFile
  import opened ExecCode

  // ----- writing files -----

  /** w in n bytes, low byte first. */
  function Le(w: nat, n: nat): (s: seq<byte>)
    ensures |s| == n
  {
    if n == 0 then [] else [w % 0x100] + Le(w / 0x100, n - 1)
  }

  /** struct elfhdr, without its magic number. */
  datatype ElfHeader = ElfHeader(ident: seq<byte>, type_: nat, machine: nat, version: nat, entry: nat, phoff: nat,
    shoff: nat, flags: nat, ehsize: nat, phentsize: nat, phnum: nat, shentsize: nat, shnum: nat, shstrndx: nat)

  function ElfBytes(h: ElfHeader): (s: seq<byte>) {
    [0x7F, 0x45, 0x4C, 0x46] + h.ident + Le(h.type_, 2) + Le(h.machine, 2) + Le(h.version, 4) + Le(h.entry, 8)
    + Le(h.phoff, 8) + Le(h.shoff, 8) + Le(h.flags, 4) + Le(h.ehsize, 2) + Le(h.phentsize, 2) + Le(h.phnum, 2)
    + Le(h.shentsize, 2) + Le(h.shnum, 2) + Le(h.shstrndx, 2)
  }

  /** struct proghdr. */
  datatype Proghdr = Proghdr(kind: nat, flags: nat, off: nat, vaddr: nat, paddr: nat, filesz: nat, memsz: nat,
    align: nat)

  function ProgBytes(p: Proghdr): (s: seq<byte>)
    ensures |s| == 56
  {
    Le(p.kind, 4) + Le(p.flags, 4) + Le(p.off, 8) + Le(p.vaddr, 8) + Le(p.paddr, 8) + Le(p.filesz, 8) + Le(p.memsz, 8)
    + Le(p.align, 8)
  }

  predicate Fields(p: Proghdr) {
    && p.kind < TWO32 && p.flags < TWO32
    && p.off < WORD && p.vaddr < WORD && p.paddr < WORD && p.filesz < WORD && p.memsz < WORD && p.align < WORD
  }

  /** x stands in the file at offset i. */
  predicate Stands(file: seq<byte>, i: nat, x: seq<byte>) {
    i + |x| <= |file| && file[i..i + |x|] == x
  }

  /** A file with this header and these program headers. */
  ghost predicate IsElf(file: seq<byte>, h: ElfHeader, ps: seq<Proghdr>) {
    && |file| < TWO32 && |h.ident| == 12 && h.phoff < WORD && h.phnum == |ps| < 0x1_0000
    && Stands(file, 0, ElfBytes(h))
    && forall i :: 0 <= i < |ps| ==> Fields(ps[i]) && Stands(file, h.phoff + 56 * i, ProgBytes(ps[i]))
  }

  // ----- reading them -----

  lemma LeUint(w: nat)
    requires w < TWO32
    ensures LeWord(Le(w, 4)) == w
  {
    LeFour(w);
  }

  lemma LeHalves(w: nat)
    ensures Le(w, 8) == Le(w % TWO32, 4) + Le(w / TWO32, 4)
  {
    var w1 := w / 0x100;
    var w2 := w1 / 0x100;
    var w3 := w2 / 0x100;
    assert w3 / 0x100 == w / TWO32;
    assert Le(w, 8) == [w % 0x100] + Le(w1, 7) && Le(w1, 7) == [w1 % 0x100] + Le(w2, 6);
    assert Le(w2, 6) == [w2 % 0x100] + Le(w3, 5) && Le(w3, 5) == [w3 % 0x100] + Le(w3 / 0x100, 4);
    LowHalf(w);
  }

  lemma LowHalf(w: nat)
    ensures var w1 := w / 0x100; var w2 := w1 / 0x100; var w3 := w2 / 0x100;
      Le(w % TWO32, 4) == [w % 0x100, w1 % 0x100, w2 % 0x100, w3 % 0x100]
  {
    var v, q := w % TWO32, w / TWO32;
    var v1, v2, v3 := v / 0x100, v / 0x100 / 0x100, v / 0x100 / 0x100 / 0x100;
    Digit(v, 0x100_0000 * q);
    Digit(v1, 0x1_0000 * q);
    Digit(v2, 0x100 * q);
    Digit(v3, q);
    assert w == v + 0x100 * (0x100_0000 * q);
    LeFour(v);
  }

  lemma Digit(v: nat, c: nat)
    ensures (v + 0x100 * c) % 0x100 == v % 0x100 && (v + 0x100 * c) / 0x100 == v / 0x100 + c
  {
  }

  lemma LeFour(w: nat)
    ensures Le(w, 4) == [w % 0x100, w / 0x100 % 0x100, w / 0x100 / 0x100 % 0x100, w / 0x100 / 0x100 / 0x100 % 0x100]
  {
    var w1 := w / 0x100;
    var w2 := w1 / 0x100;
    var w3 := w2 / 0x100;
    assert Le(w, 4) == [w % 0x100] + Le(w1, 3) && Le(w1, 3) == [w1 % 0x100] + Le(w2, 2);
    assert Le(w2, 2) == [w2 % 0x100] + Le(w3, 1) && Le(w3, 1) == [w3 % 0x100] + Le(w3 / 0x100, 0);
  }

  lemma LeUlong(w: nat)
    requires w < WORD
    ensures BytesWord(Le(w, 8)) == w
  {
    hide Le, LeWord;
    LeHalves(w);
    LeUint(w % TWO32);
    LeUint(w / TWO32);
    assert Le(w, 8)[..4] == Le(w % TWO32, 4) && Le(w, 8)[4..] == Le(w / TWO32, 4);
  }

  lemma LeUshort(s: seq<byte>, i: nat, w: nat)
    requires Stands(s, i, Le(w, 2)) && w < 0x1_0000
    ensures Ushort(s, i) == w
  {
    assert Le(w, 2) == [w % 0x100] + Le(w / 0x100, 1);
    assert Le(w / 0x100, 1) == [w / 0x100 % 0x100] + Le(w / 0x100 / 0x100, 0);
    assert s[i] == s[i..i + 2][0] && s[i + 1] == s[i..i + 2][1];
  }

  lemma Middle(a: seq<byte>, x: seq<byte>, b: seq<byte>)
    ensures Stands(a + x + b, |a|, x)
  {
  }

  lemma ReadUint(s: seq<byte>, i: nat, w: nat)
    requires Stands(s, i, Le(w, 4)) && w < TWO32
    ensures Uint(s, i) == w
  {
    hide Le, LeWord;
    LeUint(w);
  }

  lemma ReadUlong(s: seq<byte>, i: nat, w: nat)
    requires Stands(s, i, Le(w, 8)) && w < WORD
    ensures Ulong(s, i) == w
  {
    hide Le, BytesWord;
    LeUlong(w);
  }

  lemma FourParts(a: seq<byte>, b: seq<byte>, c: seq<byte>, d: seq<byte>)
    ensures var s := a + b + c + d;
      Stands(s, 0, a) && Stands(s, |a|, b) && Stands(s, |a| + |b|, c) && Stands(s, |a| + |b| + |c|, d)
  {
    hide Stands;
    assert a + b + c + d == [] + a + (b + c + d) && a + b + c + d == a + b + (c + d);
    Middle([], a, b + c + d);
    Middle(a, b, c + d);
    Middle(a + b, c, d);
    Middle(a + b + c, d, []);
    assert (a + b + c) + d + [] == a + b + c + d;
  }

  /** The fields of a program header that exec uses, at the offsets it reads them from. */
  lemma ProgFields(p: Proghdr)
    requires Fields(p)
    ensures var s := ProgBytes(p);
      && Uint(s, 0) == p.kind && Uint(s, 4) == p.flags && Ulong(s, 8) == p.off && Ulong(s, 16) == p.vaddr
      && Ulong(s, 32) == p.filesz && Ulong(s, 40) == p.memsz
  {
    hide Le, Uint, Ulong, Stands;
    var s := ProgBytes(p);
    var x := Le(p.kind, 4) + Le(p.flags, 4) + Le(p.off, 8) + Le(p.vaddr, 8);
    var y := Le(p.paddr, 8) + Le(p.filesz, 8) + Le(p.memsz, 8) + Le(p.align, 8);
    assert s == x + y;
    FourParts(Le(p.kind, 4), Le(p.flags, 4), Le(p.off, 8), Le(p.vaddr, 8));
    FourParts(Le(p.paddr, 8), Le(p.filesz, 8), Le(p.memsz, 8), Le(p.align, 8));
    StandsIn(x, y, 0, Le(p.kind, 4));
    StandsIn(x, y, 4, Le(p.flags, 4));
    StandsIn(x, y, 8, Le(p.off, 8));
    StandsIn(x, y, 16, Le(p.vaddr, 8));
    StandsBehind(x, y, 8, Le(p.filesz, 8));
    StandsBehind(x, y, 16, Le(p.memsz, 8));
    ReadUint(s, 0, p.kind);
    ReadUint(s, 4, p.flags);
    ReadUlong(s, 8, p.off);
    ReadUlong(s, 16, p.vaddr);
    ReadUlong(s, 32, p.filesz);
    ReadUlong(s, 40, p.memsz);
  }

  lemma ElfFields(h: ElfHeader)
    requires |h.ident| == 12 && h.phoff < WORD && h.phnum < 0x1_0000
    ensures var s := ElfBytes(h);
      |s| == 64 && Uint(s, 0) == ELF_MAGIC && Ulong(s, 32) == h.phoff && Ushort(s, 56) == h.phnum
  {
    hide Le, Ulong, Ushort, Stands;
    var s, magic: seq<byte> := ElfBytes(h), [0x7F, 0x45, 0x4C, 0x46];
    var head := magic + h.ident + Le(h.type_, 2) + Le(h.machine, 2) + Le(h.version, 4) + Le(h.entry, 8);
    var mid := Le(h.shoff, 8) + Le(h.flags, 4) + Le(h.ehsize, 2) + Le(h.phentsize, 2);
    var tail := Le(h.shentsize, 2) + Le(h.shnum, 2) + Le(h.shstrndx, 2);
    assert |head| == 32 && |mid| == 16;
    assert s == head + Le(h.phoff, 8) + (mid + Le(h.phnum, 2) + tail);
    Middle(head, Le(h.phoff, 8), mid + Le(h.phnum, 2) + tail);
    assert s == (head + Le(h.phoff, 8) + mid) + Le(h.phnum, 2) + tail;
    Middle(head + Le(h.phoff, 8) + mid, Le(h.phnum, 2), tail);
    ReadUlong(s, 32, h.phoff);
    LeUshort(s, 56, h.phnum);
    assert s[0..4] == magic;
  }

  /** exec reads the headers that were written. */
  lemma HeadersRead(file: seq<byte>, h: ElfHeader, ps: seq<Proghdr>)
    requires IsElf(file, h, ps)
    ensures HeaderOk(file) && HeaderCount(file) == |ps|
    ensures forall i :: 0 <= i < |ps| ==>
      HeaderAt(file, i) ==
        Header(ProgramHeader(ps[i].kind, ps[i].flags, ps[i].off, ps[i].vaddr, ps[i].filesz, ps[i].memsz))
  {
    hide ElfBytes, ProgBytes, Uint, Ulong, Ushort, Fields;
    ElfFields(h);
    assert FileRead(file, 0, ELFHDR) == ElfBytes(h);
    forall i | 0 <= i < |ps|
      ensures HeaderAt(file, i) ==
        Header(ProgramHeader(ps[i].kind, ps[i].flags, ps[i].off, ps[i].vaddr, ps[i].filesz, ps[i].memsz))
    {
      ProgFields(ps[i]);
      assert FileRead(file, h.phoff + 56 * i, PROGHDR) == ProgBytes(ps[i]);
    }
  }

  // ----- programs -----

  /** A part of a program: its bytes, how much memory it takes from vaddr on, and its access rights. */
  datatype Segment = Segment(vaddr: nat, memsz: nat, flags: nat, paddr: nat, align: nat, data: seq<byte>)

  function DataBefore(segs: seq<Segment>, n: nat): (len: nat)
    requires n <= |segs|
  {
    if n == 0 then 0 else DataBefore(segs, n - 1) + |segs[n - 1].data|
  }

  function Datas(segs: seq<Segment>, n: nat): (s: seq<byte>)
    requires n <= |segs|
    ensures |s| == DataBefore(segs, n)
  {
    if n == 0 then [] else Datas(segs, n - 1) + segs[n - 1].data
  }

  /** The program header of segment i, whose data lie behind the headers and the data before it. */
  function HeadOf(segs: seq<Segment>, i: nat): (p: Proghdr)
    requires i < |segs|
  {
    var g := segs[i];
    Proghdr(1, g.flags, 64 + 56 * |segs| + DataBefore(segs, i), g.vaddr, g.paddr, |g.data|, g.memsz, g.align)
  }

  function Heads(segs: seq<Segment>): (ps: seq<Proghdr>)
    ensures |ps| == |segs| && forall i :: 0 <= i < |ps| ==> ps[i] == HeadOf(segs, i)
  {
    seq(|segs|, i requires 0 <= i < |segs| => HeadOf(segs, i))
  }

  function Table(ps: seq<Proghdr>, n: nat): (s: seq<byte>)
    requires n <= |ps|
    ensures |s| == 56 * n
  {
    if n == 0 then [] else Table(ps, n - 1) + ProgBytes(ps[n - 1])
  }

  /** The header of the file: h, with the place and number of the program headers filled in. */
  function FileHeader(h: ElfHeader, segs: seq<Segment>): ElfHeader {
    h.(phoff := 64, phnum := |segs|)
  }

  function Assemble(h: ElfHeader, segs: seq<Segment>): (file: seq<byte>) {
    ElfBytes(FileHeader(h, segs)) + Table(Heads(segs), |segs|) + Datas(segs, |segs|)
  }

  /** What fits the fields of an ELF file. */
  ghost predicate FitsElf(h: ElfHeader, segs: seq<Segment>) {
    && |h.ident| == 12 && |segs| < 0x1_0000 && 64 + 56 * |segs| + DataBefore(segs, |segs|) < TWO32
    && forall i :: 0 <= i < |segs| ==> SegmentFits(segs[i])
  }

  predicate SegmentFits(g: Segment) {
    g.vaddr < WORD && g.memsz < WORD && g.flags < TWO32 && g.paddr < WORD && g.align < WORD
  }

  lemma {:induction false} DataGrows(segs: seq<Segment>, i: nat, n: nat)
    requires i <= n <= |segs|
    ensures DataBefore(segs, i) <= DataBefore(segs, n)
    ensures i < n ==> DataBefore(segs, i) + |segs[i].data| <= DataBefore(segs, n)
    ensures i < n ==> Stands(Datas(segs, n), DataBefore(segs, i), segs[i].data)
  {
    if i < n - 1 {
      DataGrows(segs, i, n - 1);
      StandsIn(Datas(segs, n - 1), segs[n - 1].data, DataBefore(segs, i), segs[i].data);
    }
  }

  lemma StandsIn(s: seq<byte>, more: seq<byte>, i: nat, x: seq<byte>)
    requires Stands(s, i, x)
    ensures Stands(s + more, i, x)
  {
    assert (s + more)[i..i + |x|] == s[i..i + |x|];
  }

  lemma StandsBehind(pre: seq<byte>, s: seq<byte>, i: nat, x: seq<byte>)
    requires Stands(s, i, x)
    ensures Stands(pre + s, |pre| + i, x)
  {
    assert (pre + s)[|pre| + i..|pre| + i + |x|] == s[i..i + |x|];
  }

  lemma {:induction false} TableStands(ps: seq<Proghdr>, i: nat, n: nat)
    requires i < n <= |ps|
    ensures Stands(Table(ps, n), 56 * i, ProgBytes(ps[i]))
  {
    hide ProgBytes;
    if i < n - 1 {
      TableStands(ps, i, n - 1);
      StandsIn(Table(ps, n - 1), ProgBytes(ps[n - 1]), 56 * i, ProgBytes(ps[i]));
    }
  }

  lemma Assembled(h: ElfHeader, segs: seq<Segment>)
    requires FitsElf(h, segs)
    ensures IsElf(Assemble(h, segs), FileHeader(h, segs), Heads(segs))
    ensures forall i :: 0 <= i < |segs| ==> Stands(Assemble(h, segs), HeadOf(segs, i).off, segs[i].data)
  {
    hide ElfBytes, ProgBytes, Stands;
    var fh, ps, n := FileHeader(h, segs), Heads(segs), |segs|;
    var e, t, d := ElfBytes(fh), Table(ps, n), Datas(segs, n);
    ElfFields(fh);
    var file := Assemble(h, segs);
    StandsFront(e, t + d);
    assert file == e + (t + d) && file == (e + t) + d;
    forall i | 0 <= i < n
      ensures Fields(ps[i]) && Stands(file, fh.phoff + 56 * i, ProgBytes(ps[i]))
      ensures Stands(file, HeadOf(segs, i).off, segs[i].data)
    {
      TableStands(ps, i, n);
      StandsIn(t, d, 56 * i, ProgBytes(ps[i]));
      StandsBehind(e, t + d, 56 * i, ProgBytes(ps[i]));
      DataGrows(segs, i, n);
      StandsBehind(e + t, d, DataBefore(segs, i), segs[i].data);
      assert SegmentFits(segs[i]);
    }
  }

  lemma StandsFront(x: seq<byte>, more: seq<byte>)
    ensures Stands(x + more, 0, x)
  {
  }

  // ----- the program in memory -----

  /** Segment g has a byte for address a. */
  predicate HasByte(g: Segment, a: nat) {
    g.vaddr <= a < g.vaddr + |g.data|
  }

  /** The byte at a when the first n segments have been put in place, one over the other; zero where there is none. */
  function ByteAt(segs: seq<Segment>, n: nat, a: nat): (b: byte)
    requires n <= |segs|
  {
    if n == 0 then 0
    else if HasByte(segs[n - 1], a) then segs[n - 1].data[a - segs[n - 1].vaddr]
    else ByteAt(segs, n - 1, a)
  }

  /** Where the first n segments end. */
  function Top(segs: seq<Segment>, n: nat): (top: nat)
    requires n <= |segs|
  {
    if n == 0 then 0
    else
      var end := segs[n - 1].vaddr + segs[n - 1].memsz;
      if end > Top(segs, n - 1) then end else Top(segs, n - 1)
  }

  /** Segments exec accepts: their data fit them, they start on a page, they end below 2^64, and the first of them takes
      some memory. */
  ghost predicate Acceptable(segs: seq<Segment>, n: nat)
    requires n <= |segs|
  {
    forall i :: 0 <= i < n ==> Good(segs, i)
  }

  predicate Good(segs: seq<Segment>, i: nat)
    requires i < |segs|
  {
    var g := segs[i];
    |g.data| <= g.memsz && g.vaddr % 4096 == 0 && g.vaddr + g.memsz < WORD && Top(segs, i + 1) != 0
  }

  /** Everything of a segment's data can be read. */
  lemma DataReadable(file: seq<byte>, off: nat, data: seq<byte>)
    requires |file| < TWO32 && Stands(file, off, data)
    ensures Readable(file, off, |data|)
    ensures forall x :: 0 <= x < |data| ==> SegmentByte(file, off, x) == data[x]
  {
    hide Stands;
    InFile(file, off, data);
    forall j: nat | j * PGSIZE < |data|
      ensures PageReadable(file, off, |data|, j)
    {
      assert PagePart(|data|, j * PGSIZE) <= |data| - j * PGSIZE;
    }
    forall x | 0 <= x < |data|
      ensures SegmentByte(file, off, x) == data[x]
    {
      SegmentIsPart(file, off, |data|, x);
    }
  }

  lemma InFile(file: seq<byte>, off: nat, data: seq<byte>)
    requires Stands(file, off, data)
    ensures off + |data| <= |file| && forall x :: 0 <= x < |data| ==> file[off + x] == data[x]
  {
    forall x | 0 <= x < |data|
      ensures file[off + x] == data[x]
    {
      assert file[off..off + |data|][x] == data[x];
    }
  }

  /** What exec makes of the file is what the segments say. */
  lemma {:induction false} ReadsSegments(h: ElfHeader, segs: seq<Segment>, n: nat)
    requires FitsElf(h, segs) && n <= |segs|
    ensures var file := Assemble(h, segs);
      && HeaderOk(file) && HeaderCount(file) == |segs| && ProgramSize(file, n) == Top(segs, n)
      && (ProgramOk(file, n) <==> Acceptable(segs, n))
      && (forall a :: Loaded(file, n, a) == ByteAt(segs, n, a))
      && (forall v :: PageFlags(file, n, v) == FlagsOf(segs, n, v))
    decreases n
  {
    hide Assemble, HeaderOk, HeaderCount, HeaderAt, FitsElf, Stands, IsElf, Readable, SegmentByte, DataBefore;
    var file := Assemble(h, segs);
    Assembled(h, segs);
    HeadersRead(file, FileHeader(h, segs), Heads(segs));
    if n > 0 {
      var k := n - 1;
      ReadsSegments(h, segs, k);
      SmallOffsets(h, segs, k);
      DataReadable(file, HeadOf(segs, k).off, segs[k].data);
      HeaderIs(file, segs, k);
      assert ProgramSize(file, n) == Top(segs, n);
      assert HeaderGood(file, k) <==> Good(segs, k);
      AcceptableMore(segs, k);
    }
  }

  lemma AcceptableMore(segs: seq<Segment>, k: nat)
    requires k < |segs|
    ensures Acceptable(segs, k + 1) <==> Acceptable(segs, k) && Good(segs, k)
  {
    hide Good;
  }

  /** The flags of page v: those of the segment that made the program reach it. */
  function FlagsOf(segs: seq<Segment>, n: nat, v: nat): (flags: nat)
    requires n <= |segs|
  {
    if n == 0 then 0
    else if v < Pages(Top(segs, n - 1)) then FlagsOf(segs, n - 1, v)
    else UserFlags(Flags2perm(segs[n - 1].flags))
  }

  lemma SmallOffsets(h: ElfHeader, segs: seq<Segment>, i: nat)
    requires FitsElf(h, segs) && i < |segs|
    ensures HeadOf(segs, i).off + |segs[i].data| < TWO32 && |Assemble(h, segs)| < TWO32
  {
    hide ElfBytes, Stands, Datas;
    DataGrows(segs, i, |segs|);
    ElfFields(FileHeader(h, segs));
  }

  lemma HeaderIs(file: seq<byte>, segs: seq<Segment>, k: nat)
    requires HeaderOk(file) && k < |segs|
    requires var p := Heads(segs)[k];
      HeaderAt(file, k) == Header(ProgramHeader(p.kind, p.flags, p.off, p.vaddr, p.filesz, p.memsz))
    ensures var g := segs[k];
      HeaderAt(file, k) ==
        Header(ProgramHeader(ELF_PROG_LOAD, g.flags, HeadOf(segs, k).off, g.vaddr, |g.data|, g.memsz))
  {
  }

  /** A file with one segment, empty and at address 0, is refused. */
  lemma EmptyProgramRefused(h: ElfHeader)
    requires |h.ident| == 12
    ensures var file := Assemble(h, [Segment(0, 0, 0, 0, 0, [])]);
      HeaderOk(file) && HeaderCount(file) == 1 && !ProgramOk(file, 1)
  {
    hide Assemble, HeaderOk, HeaderCount, ProgramOk;
    var segs := [Segment(0, 0, 0, 0, 0, [])];
    assert DataBefore(segs, 1) == DataBefore(segs, 0) + 0;
    ReadsSegments(h, segs, 1);
    assert !Good(segs, 0);
  }

  // ----- exec of it -----

  /** No segment after j has a byte for a. */
  predicate LastWord(segs: seq<Segment>, j: nat, n: nat, a: nat)
    requires n <= |segs|
  {
    forall l :: j < l < n ==> !HasByte(segs[l], a)
  }

  lemma {:induction false} ByteOfLast(segs: seq<Segment>, j: nat, n: nat, a: nat)
    requires j < n <= |segs| && HasByte(segs[j], a) && LastWord(segs, j, n, a)
    ensures ByteAt(segs, n, a) == segs[j].data[a - segs[j].vaddr]
  {
    if j < n - 1 {
      ByteOfLast(segs, j, n - 1, a);
    }
  }

  lemma {:induction false} ByteOfNone(segs: seq<Segment>, n: nat, a: nat)
    requires n <= |segs| && NoByte(segs, n, a)
    ensures ByteAt(segs, n, a) == 0
  {
    if n > 0 {
      ByteOfNone(segs, n - 1, a);
    }
  }

  lemma {:induction false} TopGrows(segs: seq<Segment>, j: nat, n: nat)
    requires j <= n <= |segs|
    ensures Top(segs, j) <= Top(segs, n) && (j < n ==> segs[j].vaddr + segs[j].memsz <= Top(segs, n))
  {
    if j < n {
      TopGrows(segs, j, n - 1);
    }
  }

  lemma {:induction false} FlagsOfFirst(segs: seq<Segment>, j: nat, n: nat, v: nat)
    requires j < n <= |segs| && Pages(Top(segs, j)) <= v < Pages(Top(segs, j + 1))
    ensures FlagsOf(segs, n, v) == UserFlags(Flags2perm(segs[j].flags))
  {
    hide Flags2perm, UserFlags;
    if j < n - 1 {
      TopGrows(segs, j + 1, n - 1);
      FlagsOfFirst(segs, j, n - 1, v);
    }
  }

  /** The user's loads find the program: at every address the byte that the last segment with one there has for it, and
      zero where no segment has one. */
  ghost predicate LoadsProgram(mem: Memory, root: nat, segs: seq<Segment>) {
    && (forall j, a: nat :: Shows(segs, j, a) ==> Load(mem, root, a) == Some(segs[j].data[a - segs[j].vaddr]))
    && (forall a: nat :: a < Top(segs, |segs|) && NoByte(segs, |segs|, a) ==> Load(mem, root, a) == Some(0))
  }

  /** Segment j is the last one with a byte for a. */
  predicate Shows(segs: seq<Segment>, j: int, a: nat) {
    0 <= j < |segs| && HasByte(segs[j], a) && LastWord(segs, j, |segs|, a)
  }

  predicate NoByte(segs: seq<Segment>, n: nat, a: nat)
    requires n <= |segs|
  {
    forall j :: 0 <= j < n ==> !HasByte(segs[j], a)
  }

  /** The hardware lets the user read every page of the program, and write or execute it exactly if the segment that
      made the program reach it says so. */
  ghost predicate GivesRights(mem: Memory, root: nat, segs: seq<Segment>) {
    forall j, v: nat :: 0 <= j < |segs| && Pages(Top(segs, j)) <= v < Pages(Top(segs, j + 1)) ==>
      HasRights(Translate(mem, root, v * 4096, 2), segs[j].flags)
  }

  predicate HasRights(w: Walked, flags: nat) {
    w.Found? && R(w.pte) && U(w.pte) && (W(w.pte) <==> flags / 2 % 2 == 1) && (X(w.pte) <==> flags % 2 == 1)
  }

  lemma FlagBits(pte: nat, flags: nat)
    requires PteFlags(pte) == UserFlags(Flags2perm(flags))
    ensures R(pte) && U(pte) && (W(pte) <==> flags / 2 % 2 == 1) && (X(pte) <==> flags % 2 == 1)
  {
    hide R, W, X, U, PteFlags;
    LowBits(pte);
    UserBits();
  }

  lemma UserBits()
    ensures R(19) && U(19) && !W(19) && !X(19) && R(23) && U(23) && W(23) && !X(23)
    ensures R(27) && U(27) && !W(27) && X(27) && R(31) && U(31) && W(31) && X(31)
  {
  }

  /** A program that has been started is in memory as the hardware sees it. */
  lemma StartedRuns(s: Vm, root: nat, sz: nat, sp: nat, at: seq<nat>, h: ElfHeader, segs: seq<Segment>,
                    argv: seq<seq<byte>>, kernel: map<nat, nat>)
    requires FitsElf(h, segs) && Inv(s) && root in s.roots && HeaderOk(Assemble(h, segs))
    requires Started(s.mem, root, sz, sp, at, Assemble(h, segs), argv, kernel) && Acceptable(segs, |segs|)
    ensures LoadsProgram(s.mem, root, segs) && GivesRights(s.mem, root, segs)
  {
    hide FitsElf, Inv, Assemble, HeaderOk, HeaderCount, Guarded, StackBuilt, FullSpace, Load, Translate, Mapping;
    var file, n := Assemble(h, segs), |segs|;
    ReadsSegments(h, segs, n);
    forall a: nat | a < Top(segs, n)
      ensures Load(s.mem, root, a) == Some(ByteAt(segs, n, a))
    {
      ByteRuns(s, root, file, segs, kernel, a);
    }
    LoadsAll(s.mem, root, segs);
    forall j, v: nat | 0 <= j < n && Pages(Top(segs, j)) <= v < Pages(Top(segs, j + 1))
      ensures HasRights(Translate(s.mem, root, v * 4096, 2), segs[j].flags)
    {
      PageBelow(s.mem, root, sz, segs, j, v);
      PageRuns(s, root, file, segs, kernel, j, v);
    }
  }

  /** Every page of the program has the flags of some segment. */
  lemma {:induction false} FlagsOfSome(segs: seq<Segment>, n: nat, v: nat) returns (flags: nat)
    requires n <= |segs| && v < Pages(Top(segs, n))
    ensures FlagsOf(segs, n, v) == UserFlags(Flags2perm(flags))
  {
    hide Flags2perm, UserFlags;
    if v < Pages(Top(segs, n - 1)) {
      flags := FlagsOfSome(segs, n - 1, v);
    } else {
      flags := segs[n - 1].flags;
    }
  }

  lemma ByteRuns(s: Vm, root: nat, file: seq<byte>, segs: seq<Segment>, kernel: map<nat, nat>, a: nat)
    requires Inv(s) && root in s.roots && HeaderOk(file) && HeaderCount(file) == |segs| && a < Top(segs, |segs|)
    requires ProgramSize(file, |segs|) == Top(segs, |segs|) && Loaded(file, |segs|, a) == ByteAt(segs, |segs|, a)
    requires MapsProgram(Mapping(s.mem, root), file, kernel)
    requires ProgramIn(s.mem, root, Pages(Top(segs, |segs|)), file, |segs|)
    requires PageFlags(file, |segs|, a / PGSIZE) == FlagsOf(segs, |segs|, a / PGSIZE)
    ensures Load(s.mem, root, a) == Some(ByteAt(segs, |segs|, a))
  {
    hide Inv, HeaderOk, HeaderCount, Mapping, Load, Loaded, ByteAt, ProgramSize;
    hide FlagsOf, PageFlags, UserByte, Flags2perm;
    var v := a / PGSIZE;
    assert v < Pages(Top(segs, |segs|));
    assert ByteLoaded(s.mem, root, file, |segs|, a);
    var flags := FlagsOfSome(segs, |segs|, v);
    FlagBits(Mapping(s.mem, root)[v], flags);
    HardwareLoads(s, root, a);
  }

  lemma PageRuns(s: Vm, root: nat, file: seq<byte>, segs: seq<Segment>, kernel: map<nat, nat>, j: nat, v: nat)
    requires Inv(s) && root in s.roots && HeaderOk(file) && HeaderCount(file) == |segs|
    requires j < |segs| && Pages(Top(segs, j)) <= v < Pages(Top(segs, j + 1))
    requires ProgramSize(file, |segs|) == Top(segs, |segs|) && MapsProgram(Mapping(s.mem, root), file, kernel)
    requires PageFlags(file, |segs|, v) == FlagsOf(segs, |segs|, v) && v < TRAPFRAME
    ensures HasRights(Translate(s.mem, root, v * 4096, 2), segs[j].flags)
  {
    hide Inv, HeaderOk, HeaderCount, Mapping, Translate, ProgramSize, FlagsOf, PageFlags, Flags2perm, Top, R, W, X, U;
    TopGrows(segs, j + 1, |segs|);
    FlagsOfFirst(segs, j, |segs|, v);
    FlagBits(Mapping(s.mem, root)[v], segs[j].flags);
    HardwareAgrees(s, root, v * 4096);
  }

  /** Of an address space that is full up to n. */
  lemma PageBelow(mem: Memory, r: nat, sz: nat, segs: seq<Segment>, j: nat, v: nat)
    requires FullSpace(mem, r, Pages(sz)) && sz == PgRoundUp(Top(segs, |segs|)) + 2 * PGSIZE
    requires j < |segs| && v < Pages(Top(segs, j + 1))
    ensures v < TRAPFRAME
  {
    hide Mapping, Top;
    TopGrows(segs, j + 1, |segs|);
  }

  lemma LoadsAll(mem: Memory, root: nat, segs: seq<Segment>)
    requires Acceptable(segs, |segs|)
    requires forall a: nat :: a < Top(segs, |segs|) ==> Load(mem, root, a) == Some(ByteAt(segs, |segs|, a))
    ensures LoadsProgram(mem, root, segs)
  {
    hide Load, ByteAt, Top, LastWord, NoByte;
    forall j, a: nat | Shows(segs, j, a)
      ensures Load(mem, root, a) == Some(segs[j].data[a - segs[j].vaddr])
    {
      assert Good(segs, j);
      TopGrows(segs, j, |segs|);
      ByteOfLast(segs, j, |segs|, a);
    }
    forall a: nat | a < Top(segs, |segs|) && NoByte(segs, |segs|, a)
      ensures Load(mem, root, a) == Some(0)
    {
      ByteOfNone(segs, |segs|, a);
    }
  }

  lemma KernelMapped(s: Vm, root: nat, file: seq<byte>, trampoline: nat, trapframe: nat)
    requires Inv(s) && root in s.roots && HeaderOk(file) && trampoline < MAXPPN && trapframe < MAXPPN
    requires MapsProgram(Mapping(s.mem, root), file, KernelPages(trampoline, trapframe))
    ensures KernelReached(s.mem, root, trampoline, trapframe)
  {
    hide Inv, Mapping, Translate, HeaderOk, HeaderCount, ProgramSize, PageFlags;
    HardwareAgrees(s, root, 0x3F_FFFF_F000);
    HardwareAgrees(s, root, 0x3F_FFFF_E000);
    KernelEntries(trampoline, trapframe);
  }

  /** exec of a file that holds these segments. It goes through exactly for segments and arguments that it accepts,
      given enough free pages; then the user's loads find the segments' bytes where they belong, with the access rights
      they ask for, and the arguments on the stack. */
  method ExecSegments(k: Kernel, was: nat, wasSz: nat, trampoline: nat, trapframe: nat, h: ElfHeader,
                      segs: seq<Segment>, argv: seq<seq<byte>>)
    returns (argc: int, root: nat, sz: nat, sp: nat, at: seq<nat>)
    requires FitsElf(h, segs) && k.Valid() && was in k.roots && FullSpace(k.mem, was, Pages(wasSz))
    requires 0 < trampoline < MAXPPN && trapframe in k.own && k.own[trapframe].Held?
    requires |argv| != MAXARG && forall i :: 0 <= i < |argv| ==> |argv[i]| < PGSIZE
    modifies k
    ensures k.Valid() && (argc == -1 || argc == |argv|)
    ensures argc == -1 ==> Restored(old(k.S()), k.S()) && root == was && sz == wasSz
    ensures argc >= 0 ==> Acceptable(segs, |segs|) && ArgsFit(argv)
    ensures Acceptable(segs, |segs|) && ArgsFit(argv) && |old(k.free)| >= 9 + 3 * Pages(Top(segs, |segs|)) ==> argc >= 0
    ensures argc >= 0 ==> root in k.roots && sz == PgRoundUp(Top(segs, |segs|)) + 2 * PGSIZE
    ensures argc >= 0 ==> LoadsProgram(k.mem, root, segs) && GivesRights(k.mem, root, segs)
    ensures argc >= 0 ==> KernelReached(k.mem, root, trampoline, trapframe)
    ensures argc >= 0 ==> Guarded(k.mem, root, sz) && StackBuilt(k.mem, root, sp, sz, argv, at)
  {
    hide Inv, Mapping, FitsElf, HeaderOk, HeaderCount, Restored, Guarded, StackBuilt, LoadsProgram, GivesRights;
    hide KernelReached, Assemble, ProgramOk, Acceptable, ArgsFit, MapsProgram, ProgramIn, FullSpace;
    ReadsSegments(h, segs, |segs|);
    FrameBelow(k.S(), trapframe);
    var file := Assemble(h, segs);
    argc, root, sz, sp, at := Exec(k, was, wasSz, trampoline, trapframe, file, argv);
    if argc >= 0 {
      StartedRuns(k.S(), root, sz, sp, at, h, segs, argv, KernelPages(trampoline, trapframe));
      KernelMapped(k.S(), root, file, trampoline, trapframe);
    }
  }

  lemma FrameBelow(s: Vm, p: nat)
    requires Inv(s) && p in s.own
    ensures p < MAXPPN
  {
    hide Inv;
    PageRange(s, p);
  }
}
