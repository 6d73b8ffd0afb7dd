/** The single steps the kernel takes on physical pages and page tables, and what each of them keeps. */
module VmSteps {
  import opened Blocks
  import opened VmModel

  function Filled(b: byte): (p: PageData) {
    seq(4096, _ => b)
  }

  // ----- the free list -----

  /** Take the first free page, filled with junk. */
  function AllocPage(s: Vm): (t: Vm)
    requires s.free != []
  {
    var p := s.free[0];
    s.(mem := s.mem[p := Filled(5)], head := NextFree(s.free, 1), free := s.free[1..], own := s.own[p := Held])
  }

  /** Put page p at the front of the free list, filled with junk and linked to the rest. */
  function FreePage(s: Vm, p: nat): (t: Vm)
    requires PGSIZE * s.head < WORD
  {
    s.(mem := s.mem[p := PutEntry(Filled(1), 0, PGSIZE * s.head)],
       head := p, free := [p] + s.free, own := s.own[p := Free])
  }

  /** The list's head is its first page, and that page's first word is the address of the second. */
  lemma FirstLink(s: Vm)
    requires Inv(s)
    ensures s.head == 0 <==> s.free == []
    ensures s.free != [] ==> s.head == s.free[0] && s.head in s.mem
    ensures s.free != [] ==> Entry(s.mem[s.head], 0) / PGSIZE == NextFree(s.free, 1)
  {
    hide Entry, ReachedOwned, OwnedReached, Shaped;
    if s.free != [] {
      assert Entry(s.mem[s.free[0]], 0) == PGSIZE * NextFree(s.free, 0 + 1);
    }
  }

  lemma AllocKeeps(s: Vm)
    requires Inv(s) && s.free != []
    ensures Inv(AllocPage(s)) && SameTrees(s, AllocPage(s))
  {
    hide PX0, PX1, PX2, Entry, PutEntry, At, PteAt, Under, Owns;
    var t, p := AllocPage(s), s.free[0];
    AllocListed(s);
    forall r, q | r in s.roots && IsPos(q)
      ensures At(t.mem, r, q) == At(s.mem, r, q) && (!q.Top? ==> PteAt(t.mem, r, q) == PteAt(s.mem, r, q))
    {
      OffTreeStore(s, p, Filled(5), r, q);
    }
    TreesKept(s, t);
  }

  lemma AllocListed(s: Vm)
    requires Inv(s) && s.free != []
    ensures FreeListed(AllocPage(s)) && s.free[0] in s.mem
    ensures AllocPage(s).own.Keys == AllocPage(s).mem.Keys == s.mem.Keys
  {
    hide Entry, PutEntry, Inv, Linked, Filled, OnList;
    assert Bounded(s) && FreeListed(s) by {
      InvParts(s);
    }
    var t, p := AllocPage(s), s.free[0];
    AllocLinked(s);
    forall x | x in t.own && t.own[x].Free?
      ensures OnList(t.free, x)
    {
      ListTail(s.free, x);
    }
    forall i | 0 <= i < |t.free|
      ensures t.free[i] in t.own && t.own[t.free[i]].Free?
    {
      assert t.free[i] == s.free[i + 1] != p;
    }
  }

  lemma InvParts(s: Vm)
    requires Inv(s)
    ensures Bounded(s) && FreeListed(s) && ReachedOwned(s) && OwnedReached(s) && Shaped(s)
  {
  }

  lemma ListTail(free: seq<nat>, p: nat)
    requires free != [] && OnList(free, p) && p != free[0]
    ensures OnList(free[1..], p)
  {
    var i :| 0 <= i < |free| && free[i] == p;
    assert free[1..][i - 1] == p;
  }

  lemma AllocLinked(s: Vm)
    requires Linked(s) && Distinct(s.free) && s.free != []
    ensures Linked(AllocPage(s))
  {
    hide Entry, Filled;
    var t := AllocPage(s);
    forall i | 0 <= i < |t.free|
      ensures t.free[i] in t.mem && Entry(t.mem[t.free[i]], 0) == PGSIZE * NextFree(t.free, i + 1)
    {
      assert t.free[i] == s.free[i + 1] != s.free[0];
      assert NextFree(t.free, i + 1) == NextFree(s.free, i + 2);
    }
  }

  lemma FreeKeeps(s: Vm, p: nat)
    requires Inv(s) && p in s.own && s.own[p].Held?
    ensures PGSIZE * s.head < WORD && Inv(FreePage(s, p)) && SameTrees(s, FreePage(s, p))
  {
    hide PX0, PX1, PX2, Entry, PutEntry, At, PteAt, Under, Owns;
    FreedListed(s, p);
    var t := FreePage(s, p);
    forall r, q | r in s.roots && IsPos(q)
      ensures At(t.mem, r, q) == At(s.mem, r, q) && (!q.Top? ==> PteAt(t.mem, r, q) == PteAt(s.mem, r, q))
    {
      OffTreeStore(s, p, PutEntry(Filled(1), 0, PGSIZE * s.head), r, q);
    }
    TreesKept(s, t);
  }

  lemma FreedListed(s: Vm, p: nat)
    requires Inv(s) && p in s.own && s.own[p].Held?
    ensures PGSIZE * s.head < WORD && FreeListed(FreePage(s, p))
    ensures FreePage(s, p).own.Keys == FreePage(s, p).mem.Keys == s.mem.Keys
  {
    hide Entry, PutEntry, Inv, Filled, OnList;
    assert Bounded(s) && FreeListed(s) by {
      InvParts(s);
    }
    assert s.head < PHYSPAGES;
    var t := FreePage(s, p);
    FreedLinked(s, p);
    forall x | x in t.own && t.own[x].Free?
      ensures OnList(t.free, x)
    {
      ListHead(s.free, p, x);
    }
  }

  lemma ListHead(free: seq<nat>, p: nat, x: nat)
    requires x == p || OnList(free, x)
    ensures OnList([p] + free, x)
  {
    if x == p {
      assert ([p] + free)[0] == x;
    } else {
      var i :| 0 <= i < |free| && free[i] == x;
      assert ([p] + free)[i + 1] == x;
    }
  }

  lemma FreedLinked(s: Vm, p: nat)
    requires Linked(s) && PGSIZE * s.head < WORD && p in s.mem
    requires forall i :: 0 <= i < |s.free| ==> s.free[i] != p
    ensures Linked(FreePage(s, p))
  {
    hide Entry, PutEntry, Filled;
    var t := FreePage(s, p);
    PutEntryFrame(Filled(1), 0, PGSIZE * s.head);
    forall i | 0 <= i < |t.free|
      ensures t.free[i] in t.mem && Entry(t.mem[t.free[i]], 0) == PGSIZE * NextFree(t.free, i + 1)
    {
      assert NextFree(t.free, i + 1) == NextFree(s.free, i);
      if i > 0 {
        assert t.free[i] == s.free[i - 1] != p;
      }
    }
  }

  /** Changing no free page and freeing none leaves the free list alone. */
  lemma ListKept(s: Vm, t: Vm)
    requires FreeListed(s) && Bounded(s) && t.free == s.free && t.head == s.head
    requires t.mem.Keys == s.mem.Keys == t.own.Keys
    requires forall p :: p in s.own ==> t.own[p].Free? == s.own[p].Free?
    requires forall p :: p in s.own && s.own[p].Free? ==> t.mem[p] == s.mem[p]
    ensures FreeListed(t)
  {
    hide Entry;
  }

  // ----- contents -----

  /** Overwrite a page that is in someone's hands or is user memory. */
  function StorePage(s: Vm, p: nat, data: PageData): (t: Vm) {
    s.(mem := s.mem[p := data])
  }

  lemma StoreKeeps(s: Vm, p: nat, data: PageData)
    requires Inv(s) && p in s.own && !s.own[p].Free? && (s.own[p].Owned? ==> s.own[p].pos.Leaf?)
    ensures Inv(StorePage(s, p, data)) && SameTrees(s, StorePage(s, p, data))
  {
    hide PX0, PX1, PX2, Entry, PutEntry, At, PteAt, Under, Owns;
    var t := StorePage(s, p, data);
    ListKept(s, t);
    forall r, q | r in s.roots && IsPos(q)
      ensures At(t.mem, r, q) == At(s.mem, r, q) && (!q.Top? ==> PteAt(t.mem, r, q) == PteAt(s.mem, r, q))
    {
      OffTreeStore(s, p, data, r, q);
    }
    TreesKept(s, t);
  }

  // ----- table entries -----

  /** The state with entry i of table t set to pte, and these owners. */
  function SetEntry(s: Vm, t: nat, i: nat, pte: nat, own: map<nat, Owner>): (u: Vm)
    requires t in s.mem && i < NPTE && pte < WORD
  {
    s.(mem := s.mem[t := PutEntry(s.mem[t], i, pte)], own := own)
  }

  predicate IsTablePage(s: Vm, t: nat) {
    t in s.own && s.own[t].Owned? && IsPos(s.own[t].pos) && IsTable(s.own[t].pos)
  }

  lemma BelowAbsent(mem: Memory, r: nat, c: Pos, q: Pos)
    requires IsPos(c) && IsPos(q) && Under(q, c) && At(mem, r, c) == 0 && q != c
    ensures At(mem, r, q) == 0 && PteAt(mem, r, q) == 0
    decreases Depth(q)
  {
    hide PX0, PX1, PX2, Entry;
    if Parent(q) != c {
      BelowAbsent(mem, r, c, Parent(q));
    }
  }

  lemma BelowZero(mem: Memory, r: nat, c: Pos, q: Pos)
    requires IsPos(c) && IsPos(q) && Under(q, c) && q != c
    requires At(mem, r, c) in mem && mem[At(mem, r, c)] == ZeroPage()
    ensures At(mem, r, q) == 0 && PteAt(mem, r, q) == 0
    decreases Depth(q)
  {
    hide PX0, PX1, PX2, Entry;
    if Parent(q) == c {
      assert Entry(mem[At(mem, r, c)], Index(q)) == 0;
    } else {
      BelowZero(mem, r, c, Parent(q));
    }
  }

  /** Point entry i of table t at the zeroed page n, which becomes a table of the same tree. */
  function Install(s: Vm, t: nat, i: nat, n: nat): (u: Vm)
    requires IsTablePage(s, t) && t in s.mem && i < NPTE && n < PHYSPAGES
  {
    SetEntry(s, t, i, MakePte(n, PTE_V), s.own[n := Owned(s.own[t].root, Child(s.own[t].pos, i))])
  }

  lemma InstallKeeps(s: Vm, t: nat, i: nat, n: nat)
    requires Inv(s) && IsTablePage(s, t) && !s.own[t].pos.Low? && i < NPTE
    requires n in s.own && s.own[n].Held? && s.mem[n] == ZeroPage()
    requires !PteValid(Entry(s.mem[t], i))
    ensures var r, c := s.own[t].root, Child(s.own[t].pos, i);
      Inv(Install(s, t, i, n)) && SameTreesBut(s, Install(s, t, i, n), r, c) && At(Install(s, t, i, n).mem, r, c) == n
  {
    hide PX0, PX1, PX2, Entry, PutEntry, PteAt, Under, ZeroPage, Shaped;
    var r, c, u := s.own[t].root, Child(s.own[t].pos, i), Install(s, t, i, n);
    var pte := MakePte(n, PTE_V);
    MadePte(n, PTE_V);
    assert n != t;
    StoredEntry(s, t, i, pte);
    assert At(u.mem, r, c) == n;
    assert At(s.mem, r, c) == 0 by {
      ParentChild(s.own[t].pos, i);
      EntryAt(s, t, i);
    }
    InstallElsewhere(s, t, i, n);
    ListKept(s, u);
    PlaceChanged(s, u, r, c);
  }

  /** What stands in entry i of a table is the PTE of the place it leads to. */
  lemma EntryAt(s: Vm, t: nat, i: nat)
    requires Inv(s) && IsTablePage(s, t) && i < NPTE
    ensures PteAt(s.mem, s.own[t].root, Child(s.own[t].pos, i)) == Entry(s.mem[t], i)
  {
    hide PX0, PX1, PX2, Entry;
    ParentChild(s.own[t].pos, i);
  }

  lemma InstallElsewhere(s: Vm, t: nat, i: nat, n: nat)
    requires Inv(s) && IsTablePage(s, t) && !s.own[t].pos.Low? && i < NPTE
    requires n in s.own && s.own[n].Held? && s.mem[n] == ZeroPage()
    requires At(s.mem, s.own[t].root, Child(s.own[t].pos, i)) == 0
    requires At(Install(s, t, i, n).mem, s.own[t].root, Child(s.own[t].pos, i)) == n
    ensures SameTreesBut(s, Install(s, t, i, n), s.own[t].root, Child(s.own[t].pos, i))
  {
    hide PX0, PX1, PX2, Entry, PutEntry, At, PteAt, Under, ZeroPage, Shaped, FreeListed;
    var r, c, u := s.own[t].root, Child(s.own[t].pos, i), Install(s, t, i, n);
    var pte := MakePte(n, PTE_V);
    assert n != t && u.mem[n] == ZeroPage();
    forall r', q | r' in s.roots && IsPos(q) && (r' != r || q != c)
      ensures At(u.mem, r', q) == At(s.mem, r', q) && (!q.Top? ==> PteAt(u.mem, r', q) == PteAt(s.mem, r', q))
    {
      if r' == r && Under(q, c) {
        UnderBelow(q, c);
        BelowAbsent(s.mem, r, c, q);
        BelowZero(u.mem, r, c, q);
      } else {
        TableStore(s, t, i, pte, r', q);
      }
    }
  }

  lemma UnderBelow(q: Pos, c: Pos)
    requires IsPos(q) && Under(q, c) && !c.Top?
    ensures !q.Top?
  {
  }

  // ----- leaves -----

  /** Set entry i of bottom table t to pte; if the tree owns what it maps there, page p becomes that user page. */
  function SetLeaf(s: Vm, t: nat, i: nat, pte: nat): (u: Vm)
    requires IsTablePage(s, t) && t in s.mem && i < NPTE && pte < WORD
  {
    var c := Child(s.own[t].pos, i);
    SetEntry(s, t, i, pte, if Owns(c) then s.own[PteTarget(pte) := Owned(s.own[t].root, c)] else s.own)
  }

  /** Clear entry i of bottom table t; the page it mapped, if owned, is left in the caller's hands. */
  function ClearLeaf(s: Vm, t: nat, i: nat): (u: Vm)
    requires IsTablePage(s, t) && t in s.mem && i < NPTE
  {
    var c := Child(s.own[t].pos, i);
    SetEntry(s, t, i, 0, if Owns(c) then s.own[PteTarget(Entry(s.mem[t], i)) := Held] else s.own)
  }

  lemma LeafElsewhere(s: Vm, t: nat, i: nat, pte: nat, own: map<nat, Owner>)
    requires Inv(s) && IsTablePage(s, t) && s.own[t].pos.Low? && i < NPTE && pte < WORD
    ensures var u := SetEntry(s, t, i, pte, own);
      SameTreesBut(s, u, s.own[t].root, Child(s.own[t].pos, i))
      && PteAt(u.mem, s.own[t].root, Child(s.own[t].pos, i)) == pte
  {
    hide PX0, PX1, PX2, Entry, PutEntry, At, PteAt, ZeroPage, Shaped, FreeListed;
    var r, c, u := s.own[t].root, Child(s.own[t].pos, i), SetEntry(s, t, i, pte, own);
    StoredEntry(s, t, i, pte);
    forall r', q | r' in s.roots && IsPos(q) && (r' != r || q != c)
      ensures At(u.mem, r', q) == At(s.mem, r', q) && (!q.Top? ==> PteAt(u.mem, r', q) == PteAt(s.mem, r', q))
    {
      if r' == r && Under(q, c) {
        UnderDepth(Parent(q), c);
      }
      TableStore(s, t, i, pte, r', q);
    }
  }

  lemma SetLeafKeeps(s: Vm, t: nat, i: nat, pte: nat)
    requires Inv(s) && IsTablePage(s, t) && s.own[t].pos.Low? && i < NPTE && pte < WORD
    requires PteValid(pte) && PteTarget(pte) != 0 && PteLeaf(pte) && !PteValid(Entry(s.mem[t], i))
    requires if Owns(Child(s.own[t].pos, i)) then PteTarget(pte) in s.own && s.own[PteTarget(pte)].Held?
      else !PteUser(pte)
    ensures var r, c, u := s.own[t].root, Child(s.own[t].pos, i), SetLeaf(s, t, i, pte);
      Inv(u) && SameTreesBut(s, u, r, c) && PteAt(u.mem, r, c) == pte
  {
    hide PX0, PX1, PX2, Entry, PutEntry, PteAt, Under, ZeroPage, Shaped, Owns, IsPos;
    var r, c, u := s.own[t].root, Child(s.own[t].pos, i), SetLeaf(s, t, i, pte);
    LeafElsewhere(s, t, i, pte, u.own);
    EntryAt(s, t, i);
    assert At(s.mem, r, c) == 0;
    ListKept(s, u);
    PlaceChanged(s, u, r, c);
  }

  /** A valid PTE that the tree owns points at a page owned as that place. */
  lemma ValidOwned(s: Vm, r: nat, c: Pos)
    requires Inv(s) && r in s.roots && IsPos(c) && !c.Top? && Owns(c) && PteValid(PteAt(s.mem, r, c))
    ensures var p := PteTarget(PteAt(s.mem, r, c)); p in s.own && s.own[p] == Owned(r, c)
  {
    hide PX0, PX1, PX2, PteAt, Owns, PteTarget, PteFlags, PteLeaf, FreeListed, Bounded, OwnedReached, IsPos;
    assert Fits(c, PteAt(s.mem, r, c));
    assert At(s.mem, r, c) == PteTarget(PteAt(s.mem, r, c));
  }

  lemma ClearLeafKeeps(s: Vm, t: nat, i: nat)
    requires Inv(s) && IsTablePage(s, t) && s.own[t].pos.Low? && i < NPTE && PteValid(Entry(s.mem[t], i))
    ensures var r, c, u := s.own[t].root, Child(s.own[t].pos, i), ClearLeaf(s, t, i);
      Inv(u) && SameTreesBut(s, u, r, c) && PteAt(u.mem, r, c) == 0
      && (Owns(c) ==> PteTarget(Entry(s.mem[t], i)) in s.own && s.own[PteTarget(Entry(s.mem[t], i))] == Owned(r, c))
  {
    hide PX0, PX1, PX2, Entry, PutEntry, PteAt, Under, ZeroPage, Shaped, Owns, IsPos;
    var r, c, u := s.own[t].root, Child(s.own[t].pos, i), ClearLeaf(s, t, i);
    LeafElsewhere(s, t, i, 0, u.own);
    EntryAt(s, t, i);
    var was := PteTarget(Entry(s.mem[t], i));
    assert At(s.mem, r, c) == was && At(u.mem, r, c) == 0;
    assert Owns(c) ==> was in s.own && s.own[was] == Owned(r, c) by {
      if Owns(c) {
        ValidOwned(s, r, c);
      }
    }
    ListKept(s, u);
    hide At, ReachedOwned, OwnedReached, FreeListed;
    assert OwnedAt(s, u, r, c);
    PlaceChanged(s, u, r, c);
  }

  /** Change the flags of the valid leaf in entry i of bottom table t. */
  function Reflag(s: Vm, t: nat, i: nat, pte: nat): (u: Vm)
    requires IsTablePage(s, t) && t in s.mem && i < NPTE && pte < WORD
  {
    SetEntry(s, t, i, pte, s.own)
  }

  lemma ReflagKeeps(s: Vm, t: nat, i: nat, pte: nat)
    requires Inv(s) && IsTablePage(s, t) && s.own[t].pos.Low? && i < NPTE && pte < WORD
    requires PteValid(pte) && PteValid(Entry(s.mem[t], i)) && PteLeaf(pte)
    requires PteTarget(pte) == PteTarget(Entry(s.mem[t], i)) && (PteUser(pte) ==> PteUser(Entry(s.mem[t], i)))
    ensures var r, c, u := s.own[t].root, Child(s.own[t].pos, i), Reflag(s, t, i, pte);
      Inv(u) && SameTreesBut(s, u, r, c) && PteAt(u.mem, r, c) == pte
  {
    hide PX0, PX1, PX2, Entry, PutEntry, PteAt, Under, ZeroPage, Owns, IsPos, PteTarget, PteFlags, PteLeaf;
    var r, c, u := s.own[t].root, Child(s.own[t].pos, i), Reflag(s, t, i, pte);
    LeafElsewhere(s, t, i, pte, u.own);
    EntryAt(s, t, i);
    var was := PteTarget(pte);
    assert Fits(c, PteAt(s.mem, r, c));
    assert At(s.mem, r, c) == was == At(u.mem, r, c);
    assert Owns(c) ==> was in s.own && s.own[was] == Owned(r, c) by {
      if Owns(c) {
        ValidOwned(s, r, c);
      }
    }
    ListKept(s, u);
    hide At, ReachedOwned, OwnedReached, FreeListed;
    assert OwnedAt(s, u, r, c);
    PlaceChanged(s, u, r, c);
  }

  // ----- whole trees -----

  /** The zeroed page p becomes the root of an empty tree. */
  function AddRoot(s: Vm, p: nat): (t: Vm) {
    s.(own := s.own[p := Owned(p, Top)], roots := s.roots + {p})
  }

  lemma AddRootKeeps(s: Vm, p: nat)
    requires Inv(s) && p in s.own && s.own[p].Held? && s.mem[p] == ZeroPage()
    ensures Inv(AddRoot(s, p)) && Mapping(s.mem, p) == map[] && p !in s.roots
  {
    hide PX0, PX1, PX2, Entry, ZeroPage, PteAt, Under, Owns, FreeListed;
    var t := AddRoot(s, p);
    assert p !in s.roots by {
      if p in s.roots {
        assert At(s.mem, p, Top) == p;
        RootOwned(s, p);
      }
    }
    forall q | IsPos(q) && !q.Top?
      ensures At(s.mem, p, q) == 0 && PteAt(s.mem, p, q) == 0
    {
      UnderTop(q);
      BelowZero(s.mem, p, Top, q);
    }
    ListKept(s, t);
    hide At;
    assert At(s.mem, p, Top) == p && Owns(Top) by {
      TopAt(s.mem, p);
    }
    assert Shaped(t);
    assert ReachedOwned(t);
    assert OwnedReached(t);
  }

  lemma TopAt(mem: Memory, r: nat)
    ensures At(mem, r, Top) == r && Owns(Top)
  {
  }

  lemma RootOwned(s: Vm, r: nat)
    requires Inv(s) && r in s.roots
    ensures r in s.own && s.own[r] == Owned(r, Top)
  {
    assert At(s.mem, r, Top) == r && IsPos(Top) && Owns(Top);
  }

  lemma {:induction false} UnderTop(q: Pos)
    requires IsPos(q)
    ensures Under(q, Top)
    decreases Depth(q)
  {
    if !q.Top? {
      UnderTop(Parent(q));
    }
  }

  /** Tree r is given up: all its pages are in the caller's hands. */
  ghost function DropRoot(s: Vm, r: nat): (t: Vm) {
    s.(own := map p | p in s.own :: if s.own[p].Owned? && s.own[p].root == r then Held else s.own[p],
       roots := s.roots - {r})
  }

  lemma DropRootKeeps(s: Vm, r: nat)
    requires Inv(s) && r in s.roots
    ensures Inv(DropRoot(s, r))
  {
    hide PX0, PX1, PX2, Entry, At, PteAt, Owns, Fits, IsPos, Linked, OnList;
    var t := DropRoot(s, r);
    ListKept(s, t);
    hide FreeListed;
    forall p | p in t.own && t.own[p].Owned?
      ensures t.own[p] == s.own[p] && s.own[p].root != r
    {
    }
    forall r', q | r' in t.roots && IsPos(q) && Owns(q) && At(t.mem, r', q) != 0
      ensures At(t.mem, r', q) in t.own && t.own[At(t.mem, r', q)] == Owned(r', q)
    {
      assert s.own[At(s.mem, r', q)] == Owned(r', q);
    }
  }
}
