/** What the hardware makes of a page table: the address translation of section 4.4 of the RISC-V Privileged
    Architecture manual 20211203, on the bytes of memory alone. The maps that the kernel's trees stand for are what it
    finds. */
module Sv39 {
  import opened Blocks
  import opened Values
  import opened VmModel
  import opened VmSteps
  import opened VmSpec
  import opened VmFree
  import opened VmUser

  /** The doubleword at offset o of a page, low byte first. */
  function Doubleword(p: PageData, o: nat): (w: nat)
    requires o + 8 <= 4096
  {
    var b0: int, b1: int, b2: int, b3: int := p[o], p[o + 1], p[o + 2], p[o + 3];
    var b4: int, b5: int, b6: int, b7: int := p[o + 4], p[o + 5], p[o + 6], p[o + 7];
    b0 + 0x100 * (b1 + 0x100 * (b2 + 0x100 * (b3 + 0x100 * (b4 + 0x100 * (b5 + 0x100 * (b6 + 0x100 * b7))))))
  }

  /** Nine bits of a virtual address: bits 38 to 30, 29 to 21 or 20 to 12. */
  function Vpn(va: nat, level: nat): (i: nat)
    requires level <= 2
    ensures i < 512
  {
    if level == 2 then va / 0x4000_0000 % 512
    else if level == 1 then va / 0x20_0000 % 512
    else va / 0x1000 % 512
  }

  predicate V(pte: nat) { pte % 2 == 1 }
  predicate R(pte: nat) { pte / 2 % 2 == 1 }
  predicate W(pte: nat) { pte / 4 % 2 == 1 }
  predicate X(pte: nat) { pte / 8 % 2 == 1 }
  predicate U(pte: nat) { pte / 16 % 2 == 1 }

  /** Bits 53 to 10. */
  function Ppn(pte: nat): (ppn: nat) {
    pte / 1024 % 0x1000_0000_0000
  }

  datatype Walked = Fault | Found(pte: nat, level: nat)

  /** The walk from the table in page `table`: an entry without V, or with W and not R, is a fault; one with R or X is a
      leaf; any other points at the table of the next level, which the last one must not. */
  function Translate(mem: Memory, table: nat, va: nat, level: nat): (w: Walked)
    requires level <= 2
    decreases level
  {
    if table !in mem then Fault
    else
      var pte := Doubleword(mem[table], 8 * Vpn(va, level));
      if !V(pte) || (!R(pte) && W(pte)) then Fault
      else if R(pte) || X(pte) then Found(pte, level)
      else if level == 0 then Fault
      else Translate(mem, Ppn(pte), va, level - 1)
  }

  /** A load by user code: it needs R and U. */
  function Load(mem: Memory, table: nat, va: nat): (b: Option<byte>) {
    match Translate(mem, table, va, 2)
    case Fault => None
    case Found(pte, level) =>
      if level == 0 && R(pte) && U(pte) && Ppn(pte) in mem then Some(mem[Ppn(pte)][va % 4096]) else None
  }

  // ----- the kernel's view is the hardware's -----

  lemma EntryIsDoubleword(p: PageData, i: nat)
    requires i < NPTE
    ensures Entry(p, i) == Doubleword(p, 8 * i)
  {
  }

  /** The three indices of an address are the digits of its page number. */
  lemma VpnDigits(va: nat)
    requires va < 0x80_0000_0000
    ensures var v := va / PGSIZE;
      v < NPTE * NPTE * NPTE && Vpn(va, 2) == PX2(v) && Vpn(va, 1) == PX1(v) && Vpn(va, 0) == PX0(v)
  {
    var v := va / PGSIZE;
    assert va / 0x4000_0000 == v / 0x4_0000 && va / 0x20_0000 == v / 512;
  }

  /** The bits of an entry that the kernel tests are the hardware's. */
  lemma Bits(pte: nat)
    ensures PteValid(pte) == V(pte) && PteUser(pte) == U(pte) && (PteLeaf(pte) <==> R(pte) || W(pte) || X(pte))
  {
    Halved(pte);
    ThreeBits(pte / 2);
  }

  lemma Halved(n: nat)
    ensures n / 4 == n / 2 / 2 && n / 8 == n / 2 / 4
  {
  }

  /** A number's last octal digit is 0 exactly if its last three bits are. */
  lemma ThreeBits(h: nat)
    ensures h % 8 != 0 <==> h % 2 == 1 || h / 2 % 2 == 1 || h / 4 % 2 == 1
  {
    assert h == 2 * (h / 2) + h % 2;
    assert h / 2 == 2 * (h / 4) + h / 2 % 2;
    assert h / 4 == 2 * (h / 8) + h / 4 % 2;
  }

  /** An entry of an upper table leads to the table below it, or nowhere. */
  lemma PointerStep(s: Vm, r: nat, va: nat, q: Pos, level: nat)
    requires Inv(s) && r in s.roots && 0 < level <= 2 && IsPos(q) && !q.Top? && IsTable(q) && Index(q) == Vpn(va, level)
    requires At(s.mem, r, Parent(q)) != 0 && At(s.mem, r, Parent(q)) in s.mem
    ensures if V(PteAt(s.mem, r, q)) then
        At(s.mem, r, q) != 0 && At(s.mem, r, q) in s.mem
        && Translate(s.mem, At(s.mem, r, Parent(q)), va, level) == Translate(s.mem, At(s.mem, r, q), va, level - 1)
      else
        At(s.mem, r, q) == 0 && Translate(s.mem, At(s.mem, r, Parent(q)), va, level) == Fault
  {
    hide PX0, PX1, PX2, Entry, Doubleword, FreeListed, OwnedReached, Parent, Index, Vpn;
    var t, pte := At(s.mem, r, Parent(q)), PteAt(s.mem, r, q);
    EntryIsDoubleword(s.mem[t], Index(q));
    Bits(pte);
    assert Fits(q, pte);
    if V(pte) {
      assert At(s.mem, r, q) in s.own;
      PointerBits(pte);
    }
  }

  /** An entry with V alone has no permissions, and its target is its Ppn. */
  lemma PointerBits(pte: nat)
    requires PteFlags(pte) == PTE_V && PteTarget(pte) < PHYSPAGES
    ensures !R(pte) && !W(pte) && !X(pte) && Ppn(pte) == PteTarget(pte)
  {
    assert pte == 1024 * (pte / 1024) + 1;
  }

  /** An entry of a bottom table is a leaf, or nothing. */
  lemma LeafStep(s: Vm, r: nat, va: nat, v: nat)
    requires Inv(s) && r in s.roots && v < NPTE * NPTE * NPTE && Index(Pos.Leaf(v)) == Vpn(va, 0)
    requires At(s.mem, r, Parent(Pos.Leaf(v))) != 0 && At(s.mem, r, Parent(Pos.Leaf(v))) in s.mem
    ensures var pte := PteAt(s.mem, r, Pos.Leaf(v));
      Translate(s.mem, At(s.mem, r, Parent(Pos.Leaf(v))), va, 0) ==
        if V(pte) && (R(pte) || !W(pte)) then Found(pte, 0) else Fault
  {
    hide PX0, PX1, PX2, Entry, Doubleword, FreeListed, OwnedReached, ReachedOwned, Parent, Index, Vpn;
    var q := Pos.Leaf(v);
    var t, pte := At(s.mem, r, Parent(q)), PteAt(s.mem, r, q);
    EntryIsDoubleword(s.mem[t], Index(q));
    Bits(pte);
    assert Fits(q, pte);
  }

  /** For every tree and every address, the hardware finds an entry exactly if the tree's map has one for the page, and
      then that one, at the bottom level; only entries that may be written and not read are faults to it. */
  lemma HardwareAgrees(s: Vm, r: nat, va: nat)
    requires Inv(s) && r in s.roots && va < 0x80_0000_0000
    ensures var m, v := Mapping(s.mem, r), va / PGSIZE;
      Translate(s.mem, r, va, 2) == if v in m && (R(m[v]) || !W(m[v])) then Found(m[v], 0) else Fault
  {
    hide Translate, At, PteAt, Vpn, V, R, W, X, PX0, PX1, PX2, Shaped, OwnedReached, ReachedOwned, FreeListed;
    var v := va / PGSIZE;
    VpnDigits(va);
    RootThere(s, r);
    PointerStep(s, r, va, Mid(PX2(v)), 2);
    if V(PteAt(s.mem, r, Mid(PX2(v)))) {
      PointerStep(s, r, va, Low(PX2(v), PX1(v)), 1);
      if V(PteAt(s.mem, r, Low(PX2(v), PX1(v)))) {
        LeafStep(s, r, va, v);
      }
    }
    Bits(PteAt(s.mem, r, Pos.Leaf(v)));
    NothingBelow(s.mem, r, v);
  }

  lemma RootThere(s: Vm, r: nat)
    requires Inv(s) && r in s.roots
    ensures At(s.mem, r, Top) == r && r in s.mem && r != 0
  {
  }

  lemma NothingBelow(mem: Memory, r: nat, v: nat)
    requires v < NPTE * NPTE * NPTE
    ensures At(mem, r, Mid(PX2(v))) == 0 ==> At(mem, r, Low(PX2(v), PX1(v))) == 0
    ensures At(mem, r, Low(PX2(v), PX1(v))) == 0 ==> PteAt(mem, r, Pos.Leaf(v)) == 0
  {
    hide PX0, PX1, PX2, Entry;
  }

  /** A user's load succeeds exactly if the kernel's walkaddr would and the page may be read; it gives that byte. */
  lemma HardwareLoads(s: Vm, r: nat, va: nat)
    requires Inv(s) && r in s.roots && va < MAXVPN * PGSIZE
    ensures Load(s.mem, r, va).Some? <==> Translates(s.mem, r, va) && R(Mapping(s.mem, r)[va / PGSIZE])
    ensures Load(s.mem, r, va).Some? ==> Load(s.mem, r, va) == Some(UserByte(s.mem, r, va))
  {
    hide Inv, Mapping, Translate, R, W, U;
    HardwareAgrees(s, r, va);
    if va / PGSIZE in Mapping(s.mem, r) {
      var pte := Mapping(s.mem, r)[va / PGSIZE];
      Bits(pte);
      if U(pte) {
        UserFrame(s, r, va);
        PageRange(s, PteTarget(pte));
      }
    }
  }

  /** The low bits of an entry are those of its flags. */
  lemma LowBits(pte: nat)
    ensures var f := PteFlags(pte); R(pte) == R(f) && W(pte) == W(f) && X(pte) == X(f) && U(pte) == U(f)
  {
    hide R, W, X, U;
    var q, f := pte / 1024, pte % 1024;
    assert pte == 1024 * q + f;
    LowR(q, f);
    LowW(q, f);
    LowX(q, f);
    LowU(q, f);
  }

  lemma LowR(q: nat, f: nat)
    ensures R(1024 * q + f) == R(f)
  {
    assert 1024 * q + f == 2 * (512 * q + f / 2) + f % 2;
  }

  lemma LowW(q: nat, f: nat)
    ensures W(1024 * q + f) == W(f)
  {
    assert 1024 * q + f == 4 * (256 * q + f / 4) + f % 4;
  }

  lemma LowX(q: nat, f: nat)
    ensures X(1024 * q + f) == X(f)
  {
    assert 1024 * q + f == 8 * (128 * q + f / 8) + f % 8;
  }

  lemma LowU(q: nat, f: nat)
    ensures U(1024 * q + f) == U(f)
  {
    assert 1024 * q + f == 16 * (64 * q + f / 16) + f % 16;
  }

  lemma KernelEntries(trampoline: nat, trapframe: nat)
    requires trampoline < MAXPPN && trapframe < MAXPPN
    ensures var m := KernelPages(trampoline, trapframe);
      && TRAMPOLINE in m && TRAPFRAME in m
      && Ppn(m[TRAMPOLINE]) == trampoline && R(m[TRAMPOLINE]) && !W(m[TRAMPOLINE]) && X(m[TRAMPOLINE])
      && !U(m[TRAMPOLINE]) && Ppn(m[TRAPFRAME]) == trapframe && R(m[TRAPFRAME]) && W(m[TRAPFRAME]) && !X(m[TRAPFRAME])
      && !U(m[TRAPFRAME])
  {
    hide R, W, X, U, Ppn, MakePte, PteFlags;
    LowBits(MakePte(trampoline, 11));
    LowBits(MakePte(trapframe, 7));
    MadePte(trampoline, 11);
    MadePte(trapframe, 7);
    PpnOf(trampoline, 11);
    PpnOf(trapframe, 7);
    SmallBits();
  }

  lemma PpnOf(pn: nat, flags: nat)
    requires pn < MAXPPN && flags < 1024
    ensures Ppn(MakePte(pn, flags)) == pn
  {
    hide PteFlags;
    MadePte(pn, flags);
  }

  lemma SmallBits()
    ensures R(11) && !W(11) && X(11) && !U(11) && R(7) && W(7) && !X(7) && !U(7)
  {
  }

  /** The trampoline and the trapframe are where the kernel looks for them, and out of the user's reach. */
  ghost predicate KernelReached(mem: Memory, root: nat, trampoline: nat, trapframe: nat) {
    var w, w' := Translate(mem, root, 0x3F_FFFF_F000, 2), Translate(mem, root, 0x3F_FFFF_E000, 2);
    && w.Found? && Ppn(w.pte) == trampoline && R(w.pte) && !W(w.pte) && X(w.pte) && !U(w.pte)
    && w'.Found? && Ppn(w'.pte) == trapframe && R(w'.pte) && W(w'.pte) && !X(w'.pte) && !U(w'.pte)
  }

  /** A new page table holds the two kernel pages of a process, and nothing below them. */
  lemma KernelTranslation(s: Vm, r: nat, trampoline: nat, trapframe: nat)
    requires Inv(s) && r in s.roots && 0 < trampoline < MAXPPN && 0 < trapframe < MAXPPN
    requires Mapping(s.mem, r) == KernelPages(trampoline, trapframe)
    ensures KernelReached(s.mem, r, trampoline, trapframe)
    ensures forall va :: 0 <= va < 0x3F_FFFF_E000 ==> Translate(s.mem, r, va, 2) == Fault
  {
    hide Inv, Mapping, Translate, MakePte, R, W, X, U, Ppn;
    HardwareAgrees(s, r, 0x3F_FFFF_F000);
    HardwareAgrees(s, r, 0x3F_FFFF_E000);
    KernelEntries(trampoline, trapframe);
    forall va | 0 <= va < 0x3F_FFFF_E000
      ensures Translate(s.mem, r, va, 2) == Fault
    {
      HardwareAgrees(s, r, va);
    }
  }
}
