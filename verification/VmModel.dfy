/** Physical pages and Sv39 page tables (kernel/vm.c, kernel/kalloc.c, kernel/riscv.h): three-level trees in physical
    memory, the partial map each of them stands for, and an account of every physical page. */
module VmModel {
  import opened Blocks

  const PGSIZE: nat := 4096
  const NPTE: nat := 512
  /** Virtual page numbers below MAXVPN are legal; the two highest are the trampoline and the trapframe. */
  const MAXVPN: nat := 0x400_0000
  const TRAMPOLINE: nat := 0x3FF_FFFF
  const TRAPFRAME: nat := 0x3FF_FFFE

  const PTE_V: nat := 1
  const PTE_R: nat := 2
  const PTE_W: nat := 4
  const PTE_X: nat := 8
  const PTE_U: nat := 16

  type PageData = s: seq<byte> | |s| == 4096 witness seq(4096, _ => 0)

  // ----- 64-bit words in a page -----

  function Half(p: PageData, i: nat): (w: nat)
    requires i < 1024
    ensures w < 0x1_0000_0000
  {
    var b0: int, b1: int, b2: int, b3: int := p[4 * i], p[4 * i + 1], p[4 * i + 2], p[4 * i + 3];
    b0 + 0x100 * b1 + 0x1_0000 * b2 + 0x100_0000 * b3
  }

  function PutHalf(p: PageData, i: nat, w: uint32): (r: PageData)
    requires i < 1024
  {
    p[4 * i := w % 0x100]
    [4 * i + 1 := w / 0x100 % 0x100]
    [4 * i + 2 := w / 0x1_0000 % 0x100]
    [4 * i + 3 := w / 0x100_0000]
  }

  lemma PutHalfFrame(p: PageData, i: nat, w: uint32)
    requires i < 1024
    ensures Half(PutHalf(p, i, w), i) == w
    ensures forall j: nat :: j < 1024 && j != i ==> Half(PutHalf(p, i, w), j) == Half(p, j)
  {
    assert w / 0x100 / 0x100 == w / 0x1_0000 && w / 0x1_0000 / 0x100 == w / 0x100_0000;
  }

  const WORD: nat := 0x1_0000_0000_0000_0000

  function Entry(p: PageData, i: nat): (w: nat)
    requires i < NPTE
    ensures w < WORD
  {
    Half(p, 2 * i) + 0x1_0000_0000 * Half(p, 2 * i + 1)
  }

  function PutEntry(p: PageData, i: nat, w: nat): (r: PageData)
    requires i < NPTE && w < WORD
  {
    PutHalf(PutHalf(p, 2 * i, w % 0x1_0000_0000), 2 * i + 1, w / 0x1_0000_0000)
  }

  lemma PutEntryFrame(p: PageData, i: nat, w: nat)
    requires i < NPTE && w < WORD
    ensures Entry(PutEntry(p, i, w), i) == w
    ensures forall j: nat :: j < NPTE && j != i ==> Entry(PutEntry(p, i, w), j) == Entry(p, j)
  {
    var lo, hi := w % 0x1_0000_0000, w / 0x1_0000_0000;
    PutHalfFrame(p, 2 * i, lo);
    PutHalfFrame(PutHalf(p, 2 * i, lo), 2 * i + 1, hi);
  }

  function ZeroPage(): (p: PageData)
    ensures forall i: nat :: i < NPTE ==> Entry(p, i) == 0
  {
    seq(4096, _ => 0)
  }

  // ----- page-table entries -----

  /** PA2PTE(pa) | flags for the page with number pn. */
  function MakePte(pn: nat, flags: nat): (pte: nat) {
    pn * 1024 + flags
  }

  /** The page a PTE points at (PTE2PA, as a page number). */
  function PteTarget(pte: nat): (pn: nat) {
    pte / 1024
  }

  function PteFlags(pte: nat): (flags: nat) {
    pte % 1024
  }

  predicate PteValid(pte: nat) {
    pte % 2 == 1
  }

  predicate PteUser(pte: nat) {
    pte / 16 % 2 == 1
  }

  /** Any of read, write, execute: a leaf, not a pointer to a lower table. */
  predicate PteLeaf(pte: nat) {
    pte / 2 % 8 != 0
  }

  /** perm | PTE_V */
  function OrValid(perm: nat): (flags: nat) {
    if perm % 2 == 1 then perm else perm + 1
  }

  lemma MadePte(pn: nat, flags: nat)
    requires flags < 1024
    ensures PteTarget(MakePte(pn, flags)) == pn && PteFlags(MakePte(pn, flags)) == flags
    ensures PteValid(MakePte(pn, flags)) == PteValid(flags)
    ensures PteLeaf(MakePte(pn, flags)) == PteLeaf(flags) && PteUser(MakePte(pn, flags)) == PteUser(flags)
  {
    hide PteLeaf, PteUser, PteValid;
    MadeValid(pn, flags);
    MadeLeaf(pn, flags);
    MadeUser(pn, flags);
  }

  lemma MadeValid(pn: nat, flags: nat)
    ensures PteValid(pn * 1024 + flags) == PteValid(flags)
  {
    var half, bit := flags / 2, flags % 2;
    assert pn * 1024 + flags == 2 * (pn * 512 + half) + bit;
  }

  lemma MadeLeaf(pn: nat, flags: nat)
    requires flags < 1024
    ensures PteLeaf(pn * 1024 + flags) == PteLeaf(flags)
  {
    var half, bit := flags / 2, flags % 2;
    assert (pn * 1024 + flags) / 2 == pn * 512 + half by {
      assert pn * 1024 + flags == 2 * (pn * 512 + half) + bit;
    }
  }

  lemma MadeUser(pn: nat, flags: nat)
    requires flags < 1024
    ensures PteUser(pn * 1024 + flags) == PteUser(flags)
  {
    var rest, low := flags / 16, flags % 16;
    assert (pn * 1024 + flags) / 16 == pn * 64 + rest by {
      assert pn * 1024 + flags == 16 * (pn * 64 + rest) + low;
    }
  }

  // ----- trees -----

  /** A place in a tree: the root table, a middle table, a bottom table, or the mapping of one virtual page. */
  datatype Pos = Top | Mid(i2: nat) | Low(j2: nat, j1: nat) | Leaf(vpn: nat)

  predicate IsPos(q: Pos) {
    match q
    case Top => true
    case Mid(i2) => i2 < NPTE
    case Low(j2, j1) => j2 < NPTE && j1 < NPTE
    case Leaf(v) => v < NPTE * NPTE * NPTE
  }

  predicate IsTable(q: Pos) {
    !q.Leaf?
  }

  function PX2(v: nat): nat { v / 0x4_0000 }
  function PX1(v: nat): nat { v / 512 % 512 }
  function PX0(v: nat): nat { v % 512 }

  /** The place that entry i of the table at q leads to. */
  function Child(q: Pos, i: nat): (c: Pos)
    requires IsPos(q) && IsTable(q) && i < NPTE
    ensures IsPos(c) && !c.Top?
  {
    match q
    case Top => Mid(i)
    case Mid(i2) => Low(i2, i)
    case Low(j2, j1) => Leaf(j2 * 0x4_0000 + j1 * 512 + i)
  }

  function Parent(q: Pos): (p: Pos)
    requires IsPos(q) && !q.Top?
    ensures IsPos(p) && IsTable(p)
  {
    match q
    case Mid(_) => Top
    case Low(j2, _) => Mid(j2)
    case Leaf(v) => Low(PX2(v), PX1(v))
  }

  function Index(q: Pos): (i: nat)
    requires IsPos(q) && !q.Top?
    ensures i < NPTE
  {
    match q
    case Mid(i2) => i2
    case Low(_, j1) => j1
    case Leaf(v) => PX0(v)
  }

  lemma Digits(a: nat, b: nat, c: nat)
    requires b < 512 && c < 512
    ensures var v := a * 0x4_0000 + b * 512 + c; PX2(v) == a && PX1(v) == b && PX0(v) == c
  {
    var v := a * 0x4_0000 + b * 512 + c;
    var u := a * 512 + b;
    assert v == 512 * u + c;
    assert v / 512 == u && v % 512 == c;
    assert u / 512 == a && u % 512 == b;
    assert v / 0x4_0000 == v / 512 / 512;
  }

  lemma ParentChild(q: Pos, i: nat)
    requires IsPos(q) && IsTable(q) && i < NPTE
    ensures Parent(Child(q, i)) == q && Index(Child(q, i)) == i
  {
    if q.Low? {
      Digits(q.j2, q.j1, i);
    }
  }

  lemma ChildParent(q: Pos)
    requires IsPos(q) && !q.Top?
    ensures Child(Parent(q), Index(q)) == q
  {
  }

  type Memory = map<nat, PageData>

  /** The page at place q of the tree rooted at r; 0 if there is none. */
  function At(mem: Memory, r: nat, q: Pos): (p: nat)
    requires IsPos(q)
    decreases match q case Top => 0 case Mid(_) => 1 case Low(_, _) => 2 case Leaf(_) => 3
  {
    if q.Top? then r
    else
      var pte := PteAt(mem, r, q);
      if PteValid(pte) then PteTarget(pte) else 0
  }

  /** The PTE that leads to place q; 0 if the tables above it are missing. */
  function PteAt(mem: Memory, r: nat, q: Pos): (pte: nat)
    requires IsPos(q) && !q.Top?
    decreases match q case Top => 0 case Mid(_) => 1 case Low(_, _) => 2 case Leaf(_) => 3, 0
  {
    var t := At(mem, r, Parent(q));
    if t == 0 || t !in mem then 0 else Entry(mem[t], Index(q))
  }

  // ----- the map a tree stands for -----

  /** The virtual pages mapped by the tree at r, each with its PTE. */
  ghost function Mapping(mem: Memory, r: nat): (m: map<nat, nat>) {
    map v: nat | v < NPTE * NPTE * NPTE && PteValid(PteAt(mem, r, Leaf(v))) :: PteAt(mem, r, Leaf(v))
  }

  // ----- every physical page has one owner -----

  datatype Owner = Free | Held | Owned(root: nat, pos: Pos)

  /** The trampoline and trapframe mappings point at pages the tree does not own. */
  predicate Owns(q: Pos) {
    !(q.Leaf? && (q.vpn == TRAMPOLINE || q.vpn == TRAPFRAME))
  }

  /** Physical memory, the head of the free list, and the account of pages: the free list in order, the owner of every
      page, and the roots of the trees in use. */
  datatype Vm = Vm(mem: Memory, head: nat, free: seq<nat>, own: map<nat, Owner>, roots: set<nat>)

  /** Whatever a tree reaches, it owns. */
  ghost predicate ReachedOwned(s: Vm) {
    forall r, q :: r in s.roots && IsPos(q) && Owns(q) && At(s.mem, r, q) != 0 ==>
      At(s.mem, r, q) in s.own && s.own[At(s.mem, r, q)] == Owned(r, q)
  }

  /** Whatever a tree owns, it reaches at that place. */
  ghost predicate OwnedReached(s: Vm) {
    forall p :: p in s.own && s.own[p].Owned? ==>
      s.own[p].root in s.roots && IsPos(s.own[p].pos) && Owns(s.own[p].pos)
      && At(s.mem, s.own[p].root, s.own[p].pos) == p
  }

  /** A PTE that may stand at place q: if valid it points somewhere, with no permissions if q is a table and with some
      if q is a leaf, and never with user access to the trampoline or the trapframe. */
  predicate Fits(q: Pos, pte: nat) {
    PteValid(pte) ==>
      PteTarget(pte) != 0 && if IsTable(q) then PteFlags(pte) == PTE_V else PteLeaf(pte) && (PteUser(pte) ==> Owns(q))
  }

  /** Valid entries of upper tables are pointers, those of bottom tables are leaves. */
  ghost predicate Shaped(s: Vm) {
    forall r, q :: r in s.roots && IsPos(q) && !q.Top? ==> Fits(q, PteAt(s.mem, r, q))
  }

  function NextFree(free: seq<nat>, i: nat): (p: nat)
    requires i <= |free|
  {
    if i < |free| then free[i] else 0
  }

  /** The free list starts at head and is linked through the first word of each free page, as an address. */
  ghost predicate Linked(s: Vm) {
    && s.head == NextFree(s.free, 0)
    && forall i :: 0 <= i < |s.free| ==>
      s.free[i] in s.mem && Entry(s.mem[s.free[i]], 0) == PGSIZE * NextFree(s.free, i + 1)
  }

  ghost predicate Distinct(free: seq<nat>) {
    forall i, j :: 0 <= i < j < |free| ==> free[i] != free[j]
  }

  ghost predicate OnList(free: seq<nat>, p: nat) {
    exists i :: 0 <= i < |free| && free[i] == p
  }

  ghost predicate FreeListed(s: Vm) {
    && Linked(s) && Distinct(s.free)
    && (forall i :: 0 <= i < |s.free| ==> s.free[i] in s.own && s.own[s.free[i]].Free?)
    && (forall p :: p in s.own && s.own[p].Free? ==> OnList(s.free, p))
  }

  /** The page frames up to PHYSTOP. */
  const PHYSPAGES: nat := 0x8_8000

  ghost predicate Bounded(s: Vm) {
    && s.own.Keys == s.mem.Keys
    && (forall p :: p in s.mem ==> 0 < p < PHYSPAGES)
    && (forall r :: r in s.roots ==> r in s.mem)
  }

  ghost predicate Inv(s: Vm) {
    Bounded(s) && FreeListed(s) && ReachedOwned(s) && OwnedReached(s) && Shaped(s)
  }

  // ----- stores -----

  /** q is c or lies below it. */
  predicate Under(q: Pos, c: Pos)
    requires IsPos(q)
    decreases Depth(q)
  {
    q == c || (!q.Top? && Under(Parent(q), c))
  }

  function Depth(q: Pos): nat {
    match q case Top => 0 case Mid(_) => 1 case Low(_, _) => 2 case Leaf(_) => 3
  }

  lemma {:induction false} UnderDepth(q: Pos, c: Pos)
    requires IsPos(q) && Under(q, c)
    ensures Depth(c) <= Depth(q)
    decreases Depth(q)
  {
    hide PX0, PX1, PX2;
    if q != c {
      UnderDepth(Parent(q), c);
    }
  }

  lemma NotUnderChild(q: Pos, i: nat)
    requires IsPos(q) && IsTable(q) && i < NPTE
    ensures !Under(q, Child(q, i))
  {
    if Under(q, Child(q, i)) {
      UnderDepth(q, Child(q, i));
    }
  }

  /** A store to a page that no tree uses as a table changes no tree. */
  lemma {:induction false} OffTreeStore(s: Vm, p: nat, data: PageData, r: nat, q: Pos)
    requires Inv(s) && p in s.mem && (s.own[p].Owned? ==> s.own[p].pos.Leaf?)
    requires r in s.roots && IsPos(q)
    ensures At(s.mem[p := data], r, q) == At(s.mem, r, q)
    ensures !q.Top? ==> PteAt(s.mem[p := data], r, q) == PteAt(s.mem, r, q)
    decreases Depth(q)
  {
    hide PX0, PX1, PX2, Entry, PutEntry;
    if !q.Top? {
      OffTreeStore(s, p, data, r, Parent(q));
    }
  }

  /** A store to entry i of the table at place q of tree r changes that tree at and below that entry only, and no other
      tree. */
  lemma {:induction false} TableStore(s: Vm, t: nat, i: nat, pte: nat, r: nat, q: Pos)
    requires Inv(s) && t in s.mem && s.own[t].Owned? && IsTable(s.own[t].pos) && i < NPTE && pte < WORD
    requires r in s.roots && IsPos(q)
    requires r == s.own[t].root ==> !Under(q, Child(s.own[t].pos, i))
    ensures var mem' := s.mem[t := PutEntry(s.mem[t], i, pte)];
      At(mem', r, q) == At(s.mem, r, q) && (!q.Top? ==> PteAt(mem', r, q) == PteAt(s.mem, r, q))
    decreases Depth(q)
  {
    hide PX0, PX1, PX2, Entry, PutEntry;
    if !q.Top? {
      TableStore(s, t, i, pte, r, Parent(q));
      PutEntryFrame(s.mem[t], i, pte);
      if At(s.mem, r, Parent(q)) == t {
        assert s.own[t] == Owned(r, Parent(q));
        ChildParent(q);
      }
    }
  }

  /** The entry stored to is what the tree then holds there. */
  lemma StoredEntry(s: Vm, t: nat, i: nat, pte: nat)
    requires Inv(s) && t in s.mem && s.own[t].Owned? && IsTable(s.own[t].pos) && i < NPTE && pte < WORD
    ensures var c := Child(s.own[t].pos, i);
      PteAt(s.mem[t := PutEntry(s.mem[t], i, pte)], s.own[t].root, c) == pte
  {
    hide PX0, PX1, PX2, Entry, PutEntry;
    var q := s.own[t].pos;
    ParentChild(q, i);
    PutEntryFrame(s.mem[t], i, pte);
    NotUnderChild(q, i);
    TableStore(s, t, i, pte, s.own[t].root, q);
  }

  // ----- how the account changes -----

  /** The tree at r is the same in both memories. */
  ghost predicate SameTree(mem: Memory, mem': Memory, r: nat) {
    forall q :: IsPos(q) ==>
      At(mem', r, q) == At(mem, r, q) && (!q.Top? ==> PteAt(mem', r, q) == PteAt(mem, r, q))
  }

  /** The tree at r is the same except for what is recorded at place c. */
  ghost predicate SameTreeBut(mem: Memory, mem': Memory, r: nat, c: Pos) {
    forall q :: IsPos(q) && q != c ==>
      At(mem', r, q) == At(mem, r, q) && (!q.Top? ==> PteAt(mem', r, q) == PteAt(mem, r, q))
  }

  ghost predicate SameTrees(s: Vm, t: Vm) {
    t.roots == s.roots && forall r :: r in s.roots ==> SameTree(s.mem, t.mem, r)
  }

  ghost predicate SameTreesBut(s: Vm, t: Vm, r: nat, c: Pos) {
    && t.roots == s.roots && r in s.roots && IsPos(c) && !c.Top?
    && SameTreeBut(s.mem, t.mem, r, c)
    && forall r' :: r' in s.roots && r' != r ==> SameTree(s.mem, t.mem, r')
  }

  lemma TreesKept(s: Vm, t: Vm)
    requires Inv(s) && SameTrees(s, t) && FreeListed(t) && t.own.Keys == t.mem.Keys == s.mem.Keys
    requires forall p :: p in s.own && (s.own[p].Owned? || t.own[p].Owned?) ==> t.own[p] == s.own[p]
    ensures Inv(t)
  {
    hide PX0, PX1, PX2, Entry, PutEntry, At, PteAt, Under, FreeListed, IsPos, Owns, Fits;
    assert ReachedOwned(t) by {
      forall r, q | r in t.roots && IsPos(q) && Owns(q) && At(t.mem, r, q) != 0
        ensures At(t.mem, r, q) in t.own && t.own[At(t.mem, r, q)] == Owned(r, q)
      {
        assert SameTree(s.mem, t.mem, r);
        assert At(t.mem, r, q) == At(s.mem, r, q);
      }
    }
    assert Shaped(t) by {
      forall r, q | r in t.roots && IsPos(q) && !q.Top?
        ensures Fits(q, PteAt(t.mem, r, q))
      {
        assert SameTree(s.mem, t.mem, r);
        assert PteAt(t.mem, r, q) == PteAt(s.mem, r, q);
      }
    }
    assert OwnedReached(t) by {
      forall p | p in t.own && t.own[p].Owned?
        ensures t.own[p].root in t.roots && IsPos(t.own[p].pos) && Owns(t.own[p].pos)
          && At(t.mem, t.own[p].root, t.own[p].pos) == p
      {
        assert SameTree(s.mem, t.mem, s.own[p].root);
      }
    }
  }

  /** Ownership follows a change at place c: what stood there is let go, what stands there now is owned. */
  ghost predicate OwnedAt(s: Vm, t: Vm, r: nat, c: Pos)
    requires s.own.Keys == t.own.Keys && IsPos(c)
  {
    var was, now := At(s.mem, r, c), At(t.mem, r, c);
    && (now != 0 && Owns(c) ==> now in t.own && t.own[now] == Owned(r, c) && (now == was || !s.own[now].Owned?))
    && (was != 0 && was != now && Owns(c) && was in t.own ==> !t.own[was].Owned?)
    && forall p :: p in s.own && (!Owns(c) || (p != was && p != now)) && (s.own[p].Owned? || t.own[p].Owned?) ==>
      t.own[p] == s.own[p]
  }

  lemma PlaceReached(s: Vm, t: Vm, r: nat, c: Pos)
    requires Inv(s) && SameTreesBut(s, t, r, c) && t.own.Keys == s.own.Keys && OwnedAt(s, t, r, c)
    ensures ReachedOwned(t)
  {
    hide PX0, PX1, PX2, Entry, PutEntry, At, PteAt, Under, FreeListed, IsPos, Owns, Shaped;
    forall r', q | r' in t.roots && IsPos(q) && Owns(q) && At(t.mem, r', q) != 0
      ensures At(t.mem, r', q) in t.own && t.own[At(t.mem, r', q)] == Owned(r', q)
    {
      if (r', q) != (r, c) {
        assert r' != r ==> SameTree(s.mem, t.mem, r');
        var p := At(s.mem, r', q);
        assert At(t.mem, r', q) == p && s.own[p] == Owned(r', q);
      }
    }
  }

  lemma PlaceOwned(s: Vm, t: Vm, r: nat, c: Pos)
    requires Inv(s) && SameTreesBut(s, t, r, c) && t.own.Keys == s.own.Keys && OwnedAt(s, t, r, c)
    ensures OwnedReached(t)
  {
    hide PX0, PX1, PX2, Entry, PutEntry, At, PteAt, Under, FreeListed, IsPos, Owns, Shaped;
    forall p | p in t.own && t.own[p].Owned?
      ensures t.own[p].root in t.roots && IsPos(t.own[p].pos) && Owns(t.own[p].pos)
        && At(t.mem, t.own[p].root, t.own[p].pos) == p
    {
      var was, now := At(s.mem, r, c), At(t.mem, r, c);
      if !(Owns(c) && (p == was || p == now)) {
        assert t.own[p] == s.own[p];
        var r', q := s.own[p].root, s.own[p].pos;
        assert r' != r ==> SameTree(s.mem, t.mem, r');
        assert (r', q) != (r, c);
      }
    }
  }

  lemma PlaceChanged(s: Vm, t: Vm, r: nat, c: Pos)
    requires Inv(s) && SameTreesBut(s, t, r, c) && FreeListed(t) && t.own.Keys == t.mem.Keys == s.mem.Keys
    requires OwnedAt(s, t, r, c)
    requires Fits(c, PteAt(t.mem, r, c))
    ensures Inv(t)
  {
    hide PX0, PX1, PX2, Entry, PutEntry, At, PteAt, Under, FreeListed, IsPos, Owns, OwnedAt, Fits;
    PlaceReached(s, t, r, c);
    PlaceOwned(s, t, r, c);
    forall r', q | r' in t.roots && IsPos(q) && !q.Top?
      ensures Fits(q, PteAt(t.mem, r', q))
    {
      if (r', q) != (r, c) {
        assert r' != r ==> SameTree(s.mem, t.mem, r');
        assert PteAt(t.mem, r', q) == PteAt(s.mem, r', q);
      }
    }
  }
}
