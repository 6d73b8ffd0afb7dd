/** Tearing down a tree whose leaves are gone: what is left is exactly its table pages. */
module VmFree {
  import opened Blocks
  import opened VmModel
  import opened VmSteps
  import opened VmSpec

  /** The entry i of the table at x is unused, or points at the table at the place below. */
  ghost predicate EntryFine(mem: Memory, at: map<Pos, nat>, x: Pos, i: nat)
    requires x in at && at[x] in mem && IsPos(x) && IsTable(x) && i < NPTE
  {
    var pte := Entry(mem[at[x]], i);
    PteValid(pte) ==> !x.Low? && PteFlags(pte) == PTE_V && Child(x, i) in at && at[Child(x, i)] == PteTarget(pte)
  }

  /** Somewhere strictly below q, this is the entry of q's table it lies under. */
  function Branch(x: Pos, q: Pos): (i: nat) {
    match x
    case Top => 0
    case Mid(i2) => i2
    case Low(j2, j1) => if q.Top? then j2 else j1
    case Leaf(_) => 0
  }

  ghost predicate Below(x: Pos, q: Pos) {
    IsPos(x) && IsTable(x) && (x == q || q.Top? || (q.Mid? && x.Low? && x.j2 == q.i2))
  }

  /** The tables of a dying tree at and below q, all in the caller's hands; each is pointed at by the one above it. */
  ghost predicate Dying(s: Vm, at: map<Pos, nat>, q: Pos) {
    && q in at
    && (forall x :: x in at ==> Below(x, q) && at[x] in s.own && at[x] in s.mem && s.own[at[x]].Held?)
    && (forall x, y :: x in at && y in at && x != y ==> at[x] != at[y])
    && (forall x, i :: x in at && 0 <= i < NPTE ==> EntryFine(s.mem, at, x, i))
    && (forall x :: x in at && x != q ==> Parent(x) in at && PteValid(Entry(s.mem[at[Parent(x)]], Index(x))))
  }

  ghost function Branched(at: map<Pos, nat>, q: Pos, i: nat): (sub: map<Pos, nat>) {
    map x | x in at && x != q && Branch(x, q) == i :: at[x]
  }

  lemma BranchRoot(s: Vm, at: map<Pos, nat>, q: Pos, x: Pos)
    requires Dying(s, at, q) && x in at && x != q
    ensures !q.Low? && Branch(x, q) < NPTE && IsPos(q)
    ensures Child(q, Branch(x, q)) in at && PteValid(Entry(s.mem[at[q]], Branch(x, q)))
  {
    hide Entry, EntryFine;
    assert Below(x, q) && Below(q, q);
    if q.Top? && x.Low? {
      assert Parent(x) == Mid(x.j2);
    }
  }

  lemma BranchDying(s: Vm, at: map<Pos, nat>, q: Pos, i: nat)
    requires Dying(s, at, q) && i < NPTE && PteValid(Entry(s.mem[at[q]], i))
    ensures IsPos(q) && IsTable(q) && !q.Low? && PteFlags(Entry(s.mem[at[q]], i)) == PTE_V
    ensures Dying(s, Branched(at, q, i), Child(q, i))
    ensures Branched(at, q, i)[Child(q, i)] == PteTarget(Entry(s.mem[at[q]], i))
  {
    hide Entry, PteFlags, PteTarget;
    assert Below(q, q) && EntryFine(s.mem, at, q, i);
    var c, sub := Child(q, i), Branched(at, q, i);
    forall x | x in sub
      ensures Below(x, c) && sub[x] in s.own && sub[x] in s.mem && s.own[sub[x]].Held?
    {
      assert Below(x, q);
    }
    forall x, j | x in sub && 0 <= j < NPTE
      ensures EntryFine(s.mem, sub, x, j)
    {
      assert Below(x, q) && EntryFine(s.mem, at, x, j);
    }
    forall x | x in sub && x != c
      ensures Parent(x) in sub && PteValid(Entry(s.mem[sub[Parent(x)]], Index(x)))
    {
      assert Below(x, q);
    }
  }

  ghost predicate Holds(at: map<Pos, nat>, p: nat) {
    exists x :: x in at && at[x] == p
  }

  /** After the first i entries of q's table: everything below them is free, the rest is as it was. */
  ghost predicate Progress(s: Vm, t: Vm, at: map<Pos, nat>, q: Pos, i: nat)
    requires Dying(s, at, q)
  {
    && SamePages(s, t)
    && (t.own[at[q]].Held? && forall j :: i <= j < NPTE ==> Entry(t.mem[at[q]], j) == Entry(s.mem[at[q]], j))
    && (forall x :: x in at && x != q ==> if Branch(x, q) < i then t.own[at[x]].Free? else
      t.own[at[x]].Held? && t.mem[at[x]] == s.mem[at[x]])
    && (forall p :: p in s.own && !Holds(at, p) ==> Untouched(s, t, p))
  }

  /** Page p has the same owner and, unless it is free, the same contents. */
  ghost predicate Untouched(s: Vm, t: Vm, p: nat)
    requires p in s.own && p in t.own && p in s.mem && p in t.mem
  {
    t.own[p] == s.own[p] && (s.own[p].Free? || t.mem[p] == s.mem[p])
  }

  /** All the pages of `at` are free, nothing else has changed hands. */
  ghost predicate AllFreed(s: Vm, t: Vm, at: map<Pos, nat>) {
    && SamePages(s, t)
    && forall p :: p in s.own ==> if Holds(at, p) then t.own[p].Free? else Untouched(s, t, p)
  }

  lemma ProgressDying(s: Vm, t: Vm, at: map<Pos, nat>, q: Pos, i: nat)
    requires Dying(s, at, q) && Progress(s, t, at, q, i) && i < NPTE && PteValid(Entry(t.mem[at[q]], i))
    ensures IsPos(q) && !q.Low? && IsTable(q) && PteFlags(Entry(t.mem[at[q]], i)) == PTE_V
    ensures Dying(t, Branched(at, q, i), Child(q, i))
    ensures Branched(at, q, i)[Child(q, i)] == PteTarget(Entry(t.mem[at[q]], i))
  {
    hide Entry, PteFlags, PteTarget;
    BranchDying(s, at, q, i);
    var c, sub := Child(q, i), Branched(at, q, i);
    forall x | x in sub
      ensures Below(x, c) && sub[x] in t.own && sub[x] in t.mem && t.own[sub[x]].Held? && t.mem[sub[x]] == s.mem[sub[x]]
    {
    }
    forall x, j | x in sub && 0 <= j < NPTE
      ensures EntryFine(t.mem, sub, x, j)
    {
      assert EntryFine(s.mem, sub, x, j);
    }
  }

  /** Which pages lie below entry i. */
  lemma BranchHolds(s: Vm, at: map<Pos, nat>, q: Pos, i: nat, x: Pos)
    requires Dying(s, at, q) && x in at
    ensures Holds(at, at[x]) && (Holds(Branched(at, q, i), at[x]) <==> x != q && Branch(x, q) == i)
  {
    hide Entry, EntryFine, Below;
    var sub := Branched(at, q, i);
    if Holds(sub, at[x]) {
      var y :| y in sub && sub[y] == at[x];
      assert y == x;
    }
    if x in sub {
      assert sub[x] == at[x];
    }
  }

  lemma BranchWithin(at: map<Pos, nat>, q: Pos, i: nat, p: nat)
    requires Holds(Branched(at, q, i), p)
    ensures Holds(at, p)
  {
    var y :| y in Branched(at, q, i) && Branched(at, q, i)[y] == p;
    assert at[y] == p;
  }

  /** Freeing what lies below entry i and clearing the entry. */
  lemma ProgressStep(s: Vm, t: Vm, u: Vm, u': Vm, at: map<Pos, nat>, q: Pos, i: nat)
    requires Dying(s, at, q) && Progress(s, t, at, q, i) && i < NPTE
    requires AllFreed(t, u, Branched(at, q, i))
    requires at[q] in u.mem && u' == u.(mem := u.mem[at[q] := PutEntry(u.mem[at[q]], i, 0)])
    ensures Progress(s, u', at, q, i + 1)
  {
    hide Entry, PutEntry, EntryFine, Below, Holds, Branched, Branch;
    var sub := Branched(at, q, i);
    BranchHolds(s, at, q, i, q);
    PutEntryFrame(u.mem[at[q]], i, 0);
    forall x | x in at && x != q
      ensures if Branch(x, q) < i + 1 then u'.own[at[x]].Free? else u'.own[at[x]].Held? && u'.mem[at[x]] == s.mem[at[x]]
    {
      BranchHolds(s, at, q, i, x);
      assert at[x] != at[q];
    }
    forall p | p in s.own && !Holds(at, p)
      ensures Untouched(s, u', p)
    {
      if Holds(sub, p) {
        BranchWithin(at, q, i, p);
      }
    }
  }

  /** An entry not in use has nothing below it. */
  lemma ProgressSkip(s: Vm, t: Vm, at: map<Pos, nat>, q: Pos, i: nat)
    requires Dying(s, at, q) && Progress(s, t, at, q, i) && i < NPTE && !PteValid(Entry(t.mem[at[q]], i))
    ensures Progress(s, t, at, q, i + 1)
  {
    hide Entry, EntryFine, Below, Holds;
    forall x | x in at && x != q && Branch(x, q) < i + 1
      ensures Branch(x, q) < i
    {
      BranchRoot(s, at, q, x);
    }
  }

  lemma ProgressDone(s: Vm, t: Vm, at: map<Pos, nat>, q: Pos)
    requires Dying(s, at, q) && Progress(s, t, at, q, NPTE) && PGSIZE * t.head < WORD
    ensures AllFreed(s, FreePage(t, at[q]), at)
  {
    hide Entry, PutEntry, EntryFine, Below, Filled, Holds, Branch;
    BranchHolds(s, at, q, 0, q);
    var u := FreePage(t, at[q]);
    forall p | p in s.own
      ensures if Holds(at, p) then u.own[p].Free? else Untouched(s, u, p)
    {
      if Holds(at, p) {
        var x := Holder(at, p);
        if x != q {
          BranchRoot(s, at, q, x);
        }
      }
    }
  }

  ghost function Holder(at: map<Pos, nat>, p: nat): (x: Pos)
    requires Holds(at, p)
    ensures x in at && at[x] == p
  {
    var x :| x in at && at[x] == p;
    x
  }

  // ----- a whole tree -----

  predicate OwnedBy(o: Owner, r: nat) {
    o.Owned? && o.root == r
  }

  ghost predicate OnePlace(s: Vm, r: nat) {
    forall p, p' :: p in s.own && p' in s.own && OwnedBy(s.own[p], r) && s.own[p] == s.own[p'] ==> p == p'
  }

  lemma PlacesDistinct(s: Vm, r: nat)
    requires Inv(s)
    ensures OnePlace(s, r)
  {
    hide At;
  }

  /** The pages of tree r by their place in it. */
  ghost function TreePages(s: Vm, r: nat): (at: map<Pos, nat>)
    requires OnePlace(s, r)
    ensures forall p :: p in s.own && OwnedBy(s.own[p], r) ==> s.own[p].pos in at && at[s.own[p].pos] == p
    ensures forall q :: q in at ==> at[q] in s.own && s.own[at[q]] == Owned(r, q)
  {
    map p | p in s.own && OwnedBy(s.own[p], r) :: s.own[p].pos := p
  }

  lemma TreeHolds(s: Vm, r: nat, p: nat)
    requires OnePlace(s, r) && p in s.own
    ensures Holds(TreePages(s, r), p) <==> OwnedBy(s.own[p], r)
  {
    var at := TreePages(s, r);
    if OwnedBy(s.own[p], r) {
      assert at[s.own[p].pos] == p;
    }
  }

  /** With no mappings left, the pages of a tree are its tables, each pointed at by the one above. */
  lemma TreeDying(s: Vm, r: nat)
    requires Inv(s) && r in s.roots && Mapping(s.mem, r) == map[]
    ensures OnePlace(s, r) && Dying(DropRoot(s, r), TreePages(s, r), Top) && TreePages(s, r)[Top] == r
  {
    hide Entry, Inv, Mapping, TreePages, EntryFine, At, PteAt, Below;
    PlacesDistinct(s, r);
    var at, t := TreePages(s, r), DropRoot(s, r);
    RootOwned(s, r);
    forall x | x in at
      ensures Below(x, Top) && IsPos(x) && IsTable(x) && at[x] in t.own && at[x] in t.mem && t.own[at[x]].Held?
    {
      TreeTable(s, r, at[x]);
    }
    forall x, i | x in at && 0 <= i < NPTE
      ensures EntryFine(t.mem, at, x, i)
    {
      TreeTable(s, r, at[x]);
      TreeEntry(s, r, x, i);
    }
    forall x | x in at && x != Top
      ensures Parent(x) in at && PteValid(Entry(t.mem[at[Parent(x)]], Index(x)))
    {
      TreeTable(s, r, at[x]);
      TreeParent(s, r, x);
    }
  }

  lemma TreeTable(s: Vm, r: nat, p: nat)
    requires Inv(s) && Mapping(s.mem, r) == map[] && p in s.own && OwnedBy(s.own[p], r)
    ensures p in s.mem && p != 0 && r in s.roots
    ensures IsPos(s.own[p].pos) && IsTable(s.own[p].pos) && Below(s.own[p].pos, Top)
    ensures At(s.mem, r, s.own[p].pos) == p
  {
    hide Entry, PteAt, At, ReachedOwned, FreeListed, Shaped, Mapping;
    if s.own[p].pos.Leaf? {
      OwnedMapped(s, r, p);
    }
  }

  lemma LeafMapped(mem: Memory, r: nat, v: nat)
    requires IsPos(Leaf(v)) && PteValid(PteAt(mem, r, Leaf(v)))
    ensures v in Mapping(mem, r)
  {
  }

  lemma TreeEntry(s: Vm, r: nat, x: Pos, i: nat)
    requires Inv(s) && OnePlace(s, r) && r in s.roots && Mapping(s.mem, r) == map[]
    requires x in TreePages(s, r) && TreePages(s, r)[x] in s.mem && Below(x, Top) && i < NPTE
    ensures EntryFine(s.mem, TreePages(s, r), x, i)
  {
    hide Entry, PteAt, PX0, PX1, PX2, Inv, PteFlags, PteTarget, Mapping;
    var t := TreePages(s, r)[x];
    EntryAt(s, t, i);
    var c := Child(x, i);
    if PteValid(Entry(s.mem[t], i)) {
      if x.Low? {
        LeafMapped(s.mem, r, c.vpn);
      } else {
        ValidOwned(s, r, c);
        ShapedAt(s, r, c);
      }
    }
  }

  lemma ShapedAt(s: Vm, r: nat, c: Pos)
    requires Inv(s) && r in s.roots && IsPos(c) && !c.Top?
    ensures Fits(c, PteAt(s.mem, r, c))
  {
    hide PteAt, At, Fits;
  }

  lemma TreeParent(s: Vm, r: nat, x: Pos)
    requires Inv(s) && OnePlace(s, r) && x in TreePages(s, r) && IsPos(x) && IsTable(x) && x != Top
    requires At(s.mem, r, x) == TreePages(s, r)[x] != 0 && r in s.roots
    ensures Parent(x) in TreePages(s, r) && TreePages(s, r)[Parent(x)] in s.mem
    ensures PteValid(Entry(s.mem[TreePages(s, r)[Parent(x)]], Index(x)))
  {
    hide Entry, PX0, PX1, PX2, FreeListed, Shaped, OwnedReached;
    var t := At(s.mem, r, Parent(x));
    assert t != 0 && t in s.mem;
    assert s.own[t] == Owned(r, Parent(x));
  }

  /** From s to t tree r is gone: its pages are free, and nothing else has changed hands. */
  ghost predicate Reclaimed(s: Vm, t: Vm, r: nat) {
    && t.roots == s.roots - {r} && s.own.Keys == s.mem.Keys == t.own.Keys == t.mem.Keys
    && forall p :: p in s.own ==> if OwnedBy(s.own[p], r) then t.own[p].Free? else Untouched(s, t, p)
  }

  lemma DyingReclaimed(s: Vm, t: Vm, r: nat)
    requires Inv(s) && OnePlace(s, r) && AllFreed(DropRoot(s, r), t, TreePages(s, r))
    ensures Reclaimed(s, t, r)
  {
    hide Inv, Holds, TreePages;
    PagesListed(s);
    forall p | p in s.own
      ensures if OwnedBy(s.own[p], r) then t.own[p].Free? else Untouched(s, t, p)
    {
      TreeHolds(s, r, p);
    }
  }

  /** From s to t nothing has changed hands: the same trees, the same free pages, and every page in use as it was. */
  ghost predicate Restored(s: Vm, t: Vm) {
    && t.roots == s.roots && t.own == s.own && s.mem.Keys == t.mem.Keys == s.own.Keys
    && forall p :: p in s.own ==> Untouched(s, t, p)
  }

  /** A tree made from free pages and then reclaimed leaves no trace. */
  lemma GrownReclaimed(s: Vm, t: Vm, u: Vm, r: nat, lo: nat, hi: nat)
    requires Grows(s.(roots := s.roots + {r}), t, r, lo, hi) && Reclaimed(t, u, r) && r !in s.roots
    requires forall p :: p in s.own ==> !OwnedBy(s.own[p], r)
    ensures Restored(s, u)
  {
    forall p | p in s.own
      ensures Untouched(s, u, p)
    {
      assert PageGrows(s.(roots := s.roots + {r}), t, r, lo, hi, p);
    }
  }

  /** Shrinking before reclaiming makes no difference. */
  lemma ShrunkReclaimed(s: Vm, t: Vm, u: Vm, r: nat, lo: nat, hi: nat)
    requires Shrinks(s, t, r, lo, hi, Free) && Reclaimed(t, u, r)
    ensures Reclaimed(s, u, r)
  {
  }

  lemma ProgressNone(s: Vm, at: map<Pos, nat>, q: Pos)
    requires Inv(s) && Dying(s, at, q)
    ensures Progress(s, s, at, q, 0)
  {
    hide Entry, EntryFine, Below, ReachedOwned, OwnedReached, FreeListed, Shaped;
  }

  lemma ProgressTable(s: Vm, t: Vm, at: map<Pos, nat>, q: Pos, i: nat)
    requires Dying(s, at, q) && Progress(s, t, at, q, i)
    ensures q in at && at[q] in t.own && at[q] in t.mem && t.own[at[q]].Held?
  {
  }

  lemma DeeperChild(q: Pos, i: nat)
    requires IsPos(q) && IsTable(q) && !q.Low? && i < NPTE
    ensures Depth(Child(q, i)) == Depth(q) + 1 <= 2
  {
  }

  lemma FreedElsewhere(s: Vm, t: Vm, u: Vm, at: map<Pos, nat>, q: Pos, i: nat)
    requires Dying(s, at, q) && Progress(s, t, at, q, i) && AllFreed(t, u, Branched(at, q, i))
    ensures q in at && at[q] in u.own && at[q] in u.mem && u.own[at[q]].Held?
  {
    hide Entry, EntryFine, Below, Branched, Holds;
    BranchHolds(s, at, q, i, q);
  }

  lemma DroppedKeeps(s: Vm, r: nat)
    ensures DropRoot(s, r).mem == s.mem && DropRoot(s, r).head == s.head && DropRoot(s, r).free == s.free
  {
  }

  lemma PointerNotLeaf(pte: nat)
    requires PteFlags(pte) == PTE_V
    ensures !PteLeaf(pte)
  {
    hide PteLeaf, PteValid, PteUser;
    var hi := pte / 1024;
    assert pte == MakePte(hi, PTE_V);
    MadePte(hi, PTE_V);
    NoLeafBits();
  }

  lemma NoLeafBits()
    ensures !PteLeaf(PTE_V)
  {
  }

  lemma LeafNotPointer(pte: nat)
    requires PteLeaf(pte)
    ensures PteFlags(pte) != PTE_V
  {
    if PteFlags(pte) == PTE_V {
      PointerNotLeaf(pte);
    }
  }

  // ----- process address spaces -----

  ghost function KernelPages(trampoline: nat, trapframe: nat): (m: map<nat, nat>) {
    map[TRAMPOLINE := MakePte(trampoline, PTE_V + PTE_R + PTE_X),
      TRAPFRAME := MakePte(trapframe, PTE_V + PTE_R + PTE_W)]
  }

  lemma SpecialPerms()
    ensures OrValid(PTE_R + PTE_X) == PTE_V + PTE_R + PTE_X && PteLeaf(PTE_V + PTE_R + PTE_X)
    ensures OrValid(PTE_R + PTE_W) == PTE_V + PTE_R + PTE_W && PteLeaf(PTE_V + PTE_R + PTE_W)
    ensures !PteUser(PTE_V + PTE_R + PTE_X) && !PteUser(PTE_V + PTE_R + PTE_W)
  {
  }

  /** The tree at r is new and made from pages that were free. */
  ghost predicate NewSpace(s: Vm, t: Vm, r: nat) {
    r !in s.roots && t.roots == s.roots + {r} && Grows(s.(roots := t.roots), t, r, 0, 0)
  }

  /** Tree r maps the user pages below n, the trampoline and the trapframe, and nothing else. */
  ghost predicate FullSpace(mem: Memory, r: nat, n: nat) {
    n < TRAPFRAME && forall v: nat :: v in Mapping(mem, r) <==> v < n || v == TRAMPOLINE || v == TRAPFRAME
  }

  lemma FullBound(s: Vm, r: nat, n: nat)
    requires FullSpace(s.mem, r, n)
    ensures Spans(s.mem, r, n)
  {
  }

  lemma GiveSpecial(s: Vm, r: nat, v: nat, pn: nat, k: nat)
    requires v in {TRAMPOLINE, TRAPFRAME} && k <= 1
    ensures Give(s, r, v, pn, k) == s
  {
    assert Give(s, r, v, pn, k).own == s.own;
  }

  /** The two kernel pages hang off the same table. */
  lemma SharedTables(s: Vm, r: nat)
    requires Inv(s) && r in s.roots && TRAMPOLINE in Mapping(s.mem, r)
    ensures HasTables(s.mem, r, TRAPFRAME)
  {
    hide Inv, Mapping, At, PteAt;
    MappedFound(s, r, TRAMPOLINE);
    assert PX2(TRAMPOLINE) == PX2(TRAPFRAME) && PX1(TRAMPOLINE) == PX1(TRAPFRAME);
  }

  lemma ShrunkSpecial(s: Vm, t: Vm, r: nat, v: nat)
    requires Inv(s) && !Owns(Leaf(v)) && Shrinks(s, t, r, v, v + 1, Held)
    ensures Shrinks(s, t, r, 0, 0, Free) && t.roots == s.roots
  {
    hide At, ReachedOwned, FreeListed, Shaped;
  }

  lemma RestoredSelf(s: Vm)
    requires Inv(s)
    ensures Restored(s, s)
  {
  }

  lemma NotOwnedYet(s: Vm, r: nat)
    requires Inv(s) && r !in s.roots
    ensures forall p :: p in s.own ==> !OwnedBy(s.own[p], r)
  {
  }
}
