/** The kernel's physical page allocator and page-table code (kernel/kalloc.c, kernel/vm.c). */
module VmCode {
  import opened Blocks
  import opened VmModel
  import opened VmSteps
  import opened VmSpec
  import opened VmFree
  import opened VmUser

  class Kernel {
    var mem: Memory
    var freelist: nat
    ghost var free: seq<nat>
    ghost var own: map<nat, Owner>
    ghost var roots: set<nat>

    ghost function S(): Vm
      reads this
    {
      Vm(mem, freelist, free, own, roots)
    }

    ghost predicate Valid()
      reads this
    {
      Inv(S())
    }

    /** Before kinit every page is in the kernel's hands. */
    constructor (m: Memory)
      requires forall p :: p in m ==> 0 < p < PHYSPAGES
      ensures Valid() && roots == {} && mem == m && forall p :: p in m ==> p in own && own[p].Held?
    {
      mem := m;
      freelist := 0;
      free := [];
      own := map p | p in m :: Held;
      roots := {};
      new;
      assert S().free == [];
    }

    /** Free all whole pages between two physical addresses. */
    method Freerange(paStart: nat, paEnd: nat)
      requires Valid() && forall p :: Pages(paStart) <= p < paEnd / PGSIZE ==> p in own && own[p].Held?
      modifies this
      ensures Valid() && roots == old(roots) && own.Keys == old(own.Keys)
      ensures forall p :: p in own ==>
        own[p] == if Pages(paStart) <= p < paEnd / PGSIZE then Free else old(own[p])
    {
      hide Inv;
      var p := PgRoundUp(paStart);
      while p + PGSIZE <= paEnd
        invariant Valid() && roots == old(roots) && own.Keys == old(own.Keys) && p % PGSIZE == 0
        invariant PgRoundUp(paStart) <= p
        invariant p <= paEnd || p == PgRoundUp(paStart)
        invariant forall x :: x in own ==> own[x] == if Pages(paStart) <= x < p / PGSIZE then Free else old(own[x])
      {
        Kfree(p / PGSIZE);
        p := p + PGSIZE;
      }
      assert p / PGSIZE >= paEnd / PGSIZE;
    }

    method Kalloc() returns (p: nat)
      requires Valid()
      modifies this
      ensures Valid()
      ensures p == 0 <==> old(free) == []
      ensures p == 0 ==> S() == old(S())
      ensures p != 0 ==> p == old(free[0]) && S() == AllocPage(old(S()))
    {
      hide Inv, Entry, SameTrees, Filled, NextFree;
      p := freelist;
      FirstLink(S());
      if p != 0 {
        AllocKeeps(S());
        freelist := Entry(mem[p], 0) / PGSIZE;
        mem := mem[p := Filled(5)];
        free := free[1..];
        own := own[p := Held];
      }
    }

    method Kfree(p: nat)
      requires Valid() && p in own && own[p].Held?
      modifies this
      ensures Valid() && PGSIZE * old(freelist) < WORD && S() == FreePage(old(S()), p)
    {
      hide Entry, PutEntry, Inv, SameTrees;
      FreeKeeps(S(), p);
      mem := mem[p := PutEntry(Filled(1), 0, PGSIZE * freelist)];
      freelist := p;
      free := [p] + free;
      own := own[p := Free];
    }

    /** Allocate a zeroed table and point entry i of table t at it. */
    method NewTable(t: nat, i: nat) returns (n: nat)
      requires Valid() && IsTablePage(S(), t) && !own[t].pos.Low? && i < NPTE && !PteValid(Entry(mem[t], i))
      modifies this
      ensures Valid()
      ensures n == 0 ==> S() == old(S()) && free == []
      ensures n != 0 ==> n in own && own[n] == Owned(old(own[t].root), Child(old(own[t].pos), i))
      ensures n != 0 ==> |free| == |old(free)| - 1
      ensures var r := old(own[t].root);
        r in roots && Grows(old(S()), S(), r, 0, 0) && Mapping(mem, r) == old(Mapping(mem, r))
    {
      hide Inv, Entry, PutEntry, ZeroPage, SameTrees, SameTreesBut, Mapping;
      ghost var s0, r, c := S(), own[t].root, Child(own[t].pos, i);
      TableRoot(s0, t);
      n := Kalloc();
      if n == 0 {
        GrowsSelf(s0, r);
        return;
      }
      ghost var s1 := S();
      TablesNotFree(s0, t);
      AllocKeeps(s0);
      StoreKeeps(s1, n, ZeroPage());
      mem := mem[n := ZeroPage()];
      ghost var s2 := S();
      InstallKeeps(s2, t, i, n);
      mem := mem[t := PutEntry(mem[t], i, MakePte(n, PTE_V))];
      own := own[n := Owned(r, c)];
      NewTableMapping(s0, s1, s2, S(), r, c, t, i);
    }

    /** Find the PTE of virtual page va / PGSIZE, adding tables on the way if alloc. */
    method Walk(r: nat, va: nat, alloc: bool) returns (ok: bool, t: nat, i: nat)
      requires Valid() && r in roots && va < MAXVPN * PGSIZE
      modifies this
      ensures Valid()
      ensures ok ==> t in own && own[t] == Owned(r, Parent(Leaf(va / PGSIZE))) && i == Index(Leaf(va / PGSIZE))
      ensures !alloc ==> S() == old(S()) && (ok <==> HasTables(mem, r, va / PGSIZE))
      ensures old(HasTables(mem, r, va / PGSIZE)) ==> ok && S() == old(S())
      ensures |free| + 2 >= |old(free)| && (alloc && !ok ==> |old(free)| < 2)
      ensures Grows(old(S()), S(), r, 0, 0) && Mapping(mem, r) == old(Mapping(mem, r))
    {
      hide Inv, Entry, PutEntry, PX0, PX1, PX2, Mapping, Grows, At, PteAt;
      var v := va / PGSIZE;
      var level := 2;
      t := r;
      RootOwned(S(), r);
      GrowsSelf(S(), r);
      while level > 0
        invariant 0 <= level <= 2 && Valid() && r in roots
        invariant t in own && own[t] == Owned(r, PathPos(v, level))
        invariant !alloc || old(HasTables(mem, r, v)) ==> S() == old(S())
        invariant |free| + 2 - level >= |old(free)|
        invariant Grows(old(S()), S(), r, 0, 0) && Mapping(mem, r) == old(Mapping(mem, r))
      {
        ghost var s0 := S();
        i := PX(level, v);
        TablePage(s0, t);
        EntryAt(s0, t, i);
        PathStep(v, level);
        if PteValid(Entry(mem[t], i)) {
          ValidOwned(s0, r, PathPos(v, level - 1));
          t := PteTarget(Entry(mem[t], i));
        } else {
          PathAbsent(mem, r, v, level);
          if !alloc {
            return false, 0, 0;
          }
          var n := NewTable(t, i);
          GrowsTwice(old(S()), s0, S(), r, 0, 0);
          if n == 0 {
            return false, 0, 0;
          }
          t := n;
        }
        level := level - 1;
      }
      i := PX(0, v);
      TablePage(S(), t);
      ok := true;
    }

    /** Map virtual page v to frame pn. */
    method MapOne(r: nat, v: nat, pn: nat, flags: nat) returns (ok: bool)
      requires Valid() && r in roots && v < MAXVPN && 0 < pn < MAXPPN && flags < 1024
      requires PteValid(flags) && PteLeaf(flags) && v !in Mapping(mem, r)
      requires if Owns(Leaf(v)) then pn in own && own[pn].Held? else !PteUser(flags)
      modifies this
      ensures Valid()
      ensures ok ==> Mapping(mem, r) == old(Mapping(mem, r))[v := MakePte(pn, flags)]
      ensures ok ==> Grows(Give(old(S()), r, v, pn, 1), S(), r, 0, 0)
      ensures !ok ==> Mapping(mem, r) == old(Mapping(mem, r)) && Grows(old(S()), S(), r, 0, 0)
      ensures |free| + 2 >= |old(free)| && (!ok ==> |old(free)| < 2)
      ensures old(HasTables(mem, r, v)) ==> ok && free == old(free)
    {
      hide Inv, Entry, PutEntry, ZeroPage, SameTreeBut, Mapping, HasTables, At, PteAt, PX0, PX1, PX2, Owns, Grows;
      hide PteValid, PteLeaf, MakePte;
      ghost var s0 := S();
      var t, i;
      ok, t, i := Walk(r, v * PGSIZE, true);
      if ok {
        ghost var s1 := S();
        var pte := MakePte(pn, flags);
        MadePte(pn, flags);
        PteFits(pn, flags);
        TablePage(s1, t);
        EntryAt(s1, t, i);
        ChildParent(Leaf(v));
        NotMapped(mem, r, v);
        HeldKept(s0, s1, r, 0, 0);
        assert !PteValid(Entry(mem[t], i));  // "mappages: remap"
        SetLeafKeeps(s1, t, i, pte);
        mem := mem[t := PutEntry(mem[t], i, pte)];
        own := if Owns(Leaf(v)) then own[pn := Owned(r, Leaf(v))] else own;
        assert S() == SetLeaf(s1, t, i, pte);
        MappedGrows(s0, s1, t, i, pte, r, v);
        MappingLeaf(s1.mem, mem, r, v);
      }
    }

    /** Map the pages that [va, va+size) touches to consecutive frames from pa on; k of them are mapped, all unless
        memory runs out. */
    method Mappages(r: nat, va: nat, size: nat, pa: nat, perm: nat) returns (ok: bool, ghost k: nat)
      requires Valid() && r in roots && 0 < size && va + size <= MAXVPN * PGSIZE && perm < 1024
      requires PteLeaf(OrValid(perm)) && 0 < pa / PGSIZE && pa / PGSIZE + PageCount(va, size) <= MAXPPN
      requires forall v :: va / PGSIZE <= v < va / PGSIZE + PageCount(va, size) ==> v !in Mapping(mem, r)
      requires forall v :: va / PGSIZE <= v < va / PGSIZE + PageCount(va, size) ==>
        if Owns(Leaf(v)) then v + pa / PGSIZE - va / PGSIZE in own && own[v + pa / PGSIZE - va / PGSIZE].Held?
        else !PteUser(OrValid(perm))
      modifies this
      ensures Valid() && k <= PageCount(va, size) && (ok <==> k == PageCount(va, size))
      ensures |free| + 2 * k + 2 * (if ok then 0 else 1) >= |old(free)| && (!ok ==> |old(free)| < 2 * k + 2)
      ensures PageCount(va, size) == 1 && old(HasTables(mem, r, va / PGSIZE)) ==> ok && free == old(free)
      ensures Mapping(mem, r) == Inserted(old(Mapping(mem, r)), va / PGSIZE, pa / PGSIZE, k, OrValid(perm))
      ensures Grows(Give(old(S()), r, va / PGSIZE, pa / PGSIZE, k), S(), r, 0, 0)
    {
      hide Inv, Mapping, Owns, Grows, Give, PteLeaf, MakePte, HasTables;
      var a, last, frame := va / PGSIZE, (va + size - 1) / PGSIZE, pa / PGSIZE;
      ghost var s0 := S();
      k := 0;
      GiveNone(s0, r, a, frame);
      while true
        invariant Valid() && r in roots && k < PageCount(va, size) && (k == 0 ==> S() == s0)
        invariant a == va / PGSIZE + k && frame == pa / PGSIZE + k
        invariant Mapping(mem, r) == Inserted(Mapping(s0.mem, r), va / PGSIZE, pa / PGSIZE, k, OrValid(perm))
        invariant Grows(Give(s0, r, va / PGSIZE, pa / PGSIZE, k), S(), r, 0, 0) && |free| + 2 * k >= |s0.free|
        decreases last - a
      {
        ghost var s1 := S();
        InsertedAt(Mapping(s0.mem, r), va / PGSIZE, pa / PGSIZE, k, OrValid(perm), a);
        StillHeld(s0, s1, r, va / PGSIZE, pa / PGSIZE, k);
        ok := MapOne(r, a, frame, OrValid(perm));
        if !ok {
          GrowsTwice(Give(s0, r, va / PGSIZE, pa / PGSIZE, k), s1, S(), r, 0, 0);
          return;
        }
        GiveMore(s0, s1, S(), r, va / PGSIZE, pa / PGSIZE, k);
        GivenRoots(s0, S(), r, va / PGSIZE, pa / PGSIZE, k + 1);
        k := k + 1;
        if a == last {
          return;
        }
        a := a + 1;
        frame := frame + 1;
      }
    }

    /** Unmap virtual page v, freeing its frame if doFree. */
    method UnmapOne(r: nat, v: nat, doFree: bool)
      requires Valid() && r in roots && v < MAXVPN && v in Mapping(mem, r)
      requires doFree ==> Owns(Leaf(v))
      modifies this
      ensures Valid() && Mapping(mem, r) == old(Mapping(mem, r)) - {v}
      ensures Shrinks(old(S()), S(), r, v, v + 1, if doFree then Free else Held)
    {
      hide Inv, Entry, PutEntry, ZeroPage, SameTreeBut, Mapping, At, PteAt, PX0, PX1, PX2, Owns, Shrinks;
      ghost var s0 := S();
      var ok, t, i := Walk(r, v * PGSIZE, false);
      MappedFound(s0, r, v);
      TablePage(s0, t);
      EntryAt(s0, t, i);
      ChildParent(Leaf(v));
      var pte := Entry(mem[t], i);
      LeafNotPointer(pte);
      assert ok && PteValid(pte) && PteFlags(pte) != PTE_V;  // the three panics of uvmunmap
      ClearLeafKeeps(s0, t, i);
      mem := mem[t := PutEntry(mem[t], i, 0)];
      own := if Owns(Leaf(v)) then own[PteTarget(pte) := Held] else own;
      ghost var s1 := S();
      assert s1 == ClearLeaf(s0, t, i);
      ClearedShrinks(s0, t, i, r, v);
      MappingLeaf(s0.mem, s1.mem, r, v);
      if doFree {
        Kfree(PteTarget(pte));
        FreeKeeps(s1, PteTarget(pte));
        MappingSame(s1.mem, mem, r);
        FreedShrinks(s0, s1, PteTarget(pte), r, v);
      }
    }

    /** Unmap npages pages from va on, which must all be mapped. */
    method Uvmunmap(r: nat, va: nat, npages: nat, doFree: bool)
      requires Valid() && r in roots && va % PGSIZE == 0 && va / PGSIZE + npages <= MAXVPN
      requires forall v :: va / PGSIZE <= v < va / PGSIZE + npages ==>
        v in Mapping(mem, r) && (doFree ==> Owns(Leaf(v)))
      modifies this
      ensures Valid() && Mapping(mem, r) == Removed(old(Mapping(mem, r)), va / PGSIZE, npages)
      ensures Shrinks(old(S()), S(), r, va / PGSIZE, va / PGSIZE + npages, if doFree then Free else Held)
    {
      hide Inv, Mapping, Owns, Shrinks;
      ghost var s0, v0 := S(), va / PGSIZE;
      ghost var to := if doFree then Free else Held;
      ShrinksNone(s0, r, v0, to);
      var a := va;
      while a < va + npages * PGSIZE
        invariant Valid() && r in roots && a % PGSIZE == 0 && v0 <= a / PGSIZE <= v0 + npages
        invariant Mapping(mem, r) == Removed(Mapping(s0.mem, r), v0, a / PGSIZE - v0)
        invariant Shrinks(s0, S(), r, v0, a / PGSIZE, to)
      {
        ghost var s1 := S();
        UnmapOne(r, a / PGSIZE, doFree);
        ShrinksOn(s0, s1, S(), r, v0, a / PGSIZE, a / PGSIZE + 1, to);
        ShrinksRoots(s1, S(), r, a / PGSIZE, a / PGSIZE + 1, to);
        a := a + PGSIZE;
      }
    }

    method Uvmcreate() returns (r: nat)
      requires Valid()
      modifies this
      ensures Valid()
      ensures r == 0 ==> S() == old(S()) && free == []
      ensures r != 0 ==> r !in old(roots) && roots == old(roots) + {r} && Mapping(mem, r) == map[]
      ensures r != 0 ==> Grows(old(S()).(roots := roots), S(), r, 0, 0) && |free| == |old(free)| - 1
    {
      hide Inv, Mapping, SameTrees, ZeroPage, PutEntry, Entry;
      ghost var s0 := S();
      r := Kalloc();
      if r != 0 {
        AllocKeeps(s0);
        FirstFree(s0);
        StoreKeeps(S(), r, ZeroPage());
        mem := mem[r := ZeroPage()];
        AddRootKeeps(S(), r);
        own := own[r := Owned(r, Top)];
        roots := roots + {r};
      }
    }

    /** Free user pages to bring an address space from oldsz to newsz bytes; growing it is not an error. */
    method Uvmdealloc(r: nat, oldsz: nat, newsz: nat) returns (sz: nat)
      requires Valid() && r in roots && Pages(oldsz) <= TRAPFRAME
      requires forall v :: Pages(newsz) <= v < Pages(oldsz) ==> v in Mapping(mem, r)
      modifies this
      ensures Valid() && sz == if newsz < oldsz then newsz else oldsz
      ensures Mapping(mem, r) == Removed(old(Mapping(mem, r)), Pages(sz), Pages(oldsz) - Pages(sz))
      ensures Shrinks(old(S()), S(), r, Pages(sz), Pages(oldsz), Free)
    {
      hide Inv, Mapping, Shrinks;
      if newsz >= oldsz {
        ShrinksNone(S(), r, Pages(oldsz), Free);
        return oldsz;
      }
      if PgRoundUp(newsz) < PgRoundUp(oldsz) {
        var npages := (PgRoundUp(oldsz) - PgRoundUp(newsz)) / PGSIZE;
        Uvmunmap(r, PgRoundUp(newsz), npages, true);
      } else {
        ShrinksNone(S(), r, Pages(oldsz), Free);
      }
      return newsz;
    }

    /** Allocate a frame and fill it. */
    method KallocWith(data: PageData) returns (p: nat)
      requires Valid()
      modifies this
      ensures Valid()
      ensures p == 0 <==> old(free) == []
      ensures p == 0 ==> S() == old(S())
      ensures p != 0 ==> p == old(free[0]) && S() == StorePage(AllocPage(old(S())), p, data)
      ensures p != 0 ==> 0 < p < PHYSPAGES && p in own && own[p].Held? && p in old(own) && old(own[p]).Free?
      ensures old(own.Keys) == old(mem.Keys)
      ensures forall r :: r in roots ==> Mapping(mem, r) == old(Mapping(mem, r))
    {
      hide Inv, Mapping, SameTrees, Filled;
      ghost var s0 := S();
      PagesListed(s0);
      p := Kalloc();
      if p != 0 {
        AllocKeeps(s0);
        FirstFree(s0);
        PageRange(s0, p);
        StoreKeeps(S(), p, data);
        mem := mem[p := data];
        forall r | r in roots
          ensures Mapping(mem, r) == Mapping(s0.mem, r)
        {
          AllocMapping(s0, S(), r, data);
        }
      }
    }

    /** Allocate a frame with the given contents and map virtual page v to it. */
    method AllocMap(r: nat, v: nat, data: PageData, perm: nat) returns (ok: bool)
      requires Valid() && r in roots && v < TRAPFRAME && perm < 1024 && PteLeaf(OrValid(perm)) && v !in Mapping(mem, r)
      modifies this
      ensures Valid()
      ensures ok ==> v in Mapping(mem, r) && Mapping(mem, r) - {v} == old(Mapping(mem, r))
      ensures ok ==> HasPage(mem, r, v, Frame(OrValid(perm), data)) && Grows(old(S()), S(), r, v, v + 1)
      ensures !ok ==> Mapping(mem, r) == old(Mapping(mem, r)) && Grows(old(S()), S(), r, 0, 0) && |old(free)| < 3
      ensures ok ==> |free| + 3 >= |old(free)|
    {
      hide Inv, Mapping, Grows, SameTrees, Entry, PutEntry, PteLeaf, PteValid, PteTarget, PteFlags, MakePte, Filled;
      hide Give;
      ghost var s0 := S();
      var p := KallocWith(data);
      if p == 0 {
        GrowsSelf(s0, r);
        return false;
      }
      ghost var s1 := S();
      ghost var k;
      ok, k := Mappages(r, v * PGSIZE, PGSIZE, p * PGSIZE, perm);
      if ok {
        AllocMapGrows(s0, p, data, S(), r, v, v);
        MadePte(p, OrValid(perm));
      } else {
        GiveNoneHeld(s1, S(), r, v, p);
        ghost var s2 := S();
        FreeKeeps(s2, p);
        Kfree(p);
        AllocFreeGrows(s0, s1, s2, p, r);
        SameRoots(s1, s2, r, 0, 0);
        SameMapping(s2, S(), r);
      }
    }

    /** Grow an address space from oldsz to newsz bytes with zeroed pages. Returns newsz, or 0 if memory runs out; then
        every page taken for user memory has been given back. A page may need two tables besides itself, so three free
        pages for each are enough. */
    method Uvmalloc(r: nat, oldsz: nat, newsz: nat, xperm: nat) returns (sz: nat)
      requires Valid() && r in roots && Spans(mem, r, Pages(oldsz)) && xperm in {0, PTE_W, PTE_X, PTE_W + PTE_X}
      modifies this
      ensures Valid() && roots == old(roots)
      ensures newsz < oldsz ==> sz == oldsz && S() == old(S())
      ensures newsz >= oldsz ==> sz == newsz || sz == 0
      ensures newsz >= oldsz && sz == newsz && newsz > 0 ==>
        Grown(old(S()), S(), r, Pages(oldsz), Zeroed(Pages(newsz) - Pages(oldsz), xperm))
      ensures newsz >= oldsz && sz == 0 ==>
        Mapping(mem, r) == old(Mapping(mem, r)) && Grows(old(S()), S(), r, 0, 0)
      ensures newsz >= oldsz && sz == newsz ==> |free| + 3 * (Pages(newsz) - Pages(oldsz)) >= |old(free)|
      ensures newsz >= oldsz && sz != newsz ==> |old(free)| < 3 * (Pages(newsz) - Pages(oldsz))
    {
      hide Inv, Mapping, Grown, Grows, Spans, UserFlags, ZeroPage, Zeroed, HasPage, PteLeaf, OrValid;
      ghost var s0, n0, w := S(), Pages(oldsz), [];
      if newsz < oldsz {
        return oldsz;
      }
      var start := PgRoundUp(oldsz);
      var a := start;
      GrownNone(s0, r, n0);
      ZeroedMore(0, xperm);
      while a < newsz
        invariant Valid() && r in roots && roots == s0.roots && a == (n0 + |w|) * PGSIZE
        invariant w == [] || n0 + |w| <= Pages(newsz)
        invariant w == Zeroed(|w|, xperm) && Grown(s0, S(), r, n0, w) && |free| + 3 * |w| >= |s0.free|
      {
        ghost var s1 := S();
        var v := a / PGSIZE;
        GrownSpans(s0, s1, r, n0, w);
        SpansBound(s1, r, v);
        NextUnmapped(s1, r, v);
        LeafPerm(xperm);
        var ok := AllocMap(r, v, ZeroPage(), PTE_R + PTE_U + xperm);
        SameRoots(s1, S(), r, if ok then v else 0, if ok then v + 1 else 0);
        if !ok {
          GrownTables(s0, s1, S(), r, n0, w);
          ghost var s2 := S();
          GrownMapped(s0, s2, r, n0, w);
          var _ := Uvmdealloc(r, a, start);
          GrownUndone(s0, s2, S(), r, n0, w);
          SameRoots(s0, S(), r, 0, 0);
          return 0;
        }
        GrownMore(s0, s1, S(), r, n0, w, Frame(UserFlags(xperm), ZeroPage()));
        ZeroedMore(|w|, xperm);
        w := w + [Frame(UserFlags(xperm), ZeroPage())];
        a := a + PGSIZE;
      }
      assert |w| == Pages(newsz) - n0;
      if newsz == 0 {
        GrownZero(s0, S(), r, n0);
      }
      return newsz;
    }

    /** Give tree `to` a copy of page v of tree `from`, with the same flags. */
    method CopyPage(from: nat, to: nat, v: nat) returns (ok: bool)
      requires Valid() && from in roots && to in roots && v < TRAPFRAME
      requires v in Mapping(mem, from) && v !in Mapping(mem, to)
      modifies this
      ensures Valid()
      ensures ok ==> v in Mapping(mem, to) && Mapping(mem, to) - {v} == old(Mapping(mem, to))
      ensures ok ==> HasPage(mem, to, v, old(FrameAt(mem, from, v))) && Grows(old(S()), S(), to, v, v + 1)
      ensures !ok ==> Mapping(mem, to) == old(Mapping(mem, to)) && Grows(old(S()), S(), to, 0, 0) && |old(free)| < 3
      ensures ok ==> |free| + 3 >= |old(free)|
    {
      hide Inv, Mapping, Grows, FrameAt, PteLeaf, PteValid, PteFlags, PteTarget, Entry;
      ghost var s0 := S();
      var found, t, k := Walk(from, v * PGSIZE, false);
      MappedFound(s0, from, v);
      MappedEntry(s0, from, v, t, k);
      var pte := Entry(mem[t], k);
      assert found && PteValid(pte);  // the two panics of uvmcopy
      CopiedFlags(pte);
      ok := AllocMap(to, v, mem[PteTarget(pte)], PteFlags(pte));
    }

    /** Copy the first sz bytes' worth of pages of one address space into another, empty one; fails only if memory runs
        out. */
    method Uvmcopy(from: nat, to: nat, sz: nat) returns (ok: bool)
      requires Valid() && from in roots && to in roots && from != to
      requires Spans(mem, from, Pages(sz)) && Spans(mem, to, 0)
      modifies this
      ensures Valid() && roots == old(roots)
      ensures ok ==> Grown(old(S()), S(), to, 0, Image(old(mem), from, Pages(sz)))
      ensures !ok ==> Mapping(mem, to) == old(Mapping(mem, to)) && Grows(old(S()), S(), to, 0, 0)
      ensures !ok ==> |old(free)| < 3 * Pages(sz)
      ensures Mapping(mem, from) == old(Mapping(mem, from))
      ensures Image(mem, from, Pages(sz)) == Image(old(mem), from, Pages(sz))
    {
      hide Inv, Mapping, Grown, Grows, Spans, ZeroPage, FrameAt, HasPage, Image;
      ghost var s0, w := S(), [];
      var i := 0;
      GrownNone(s0, to, 0);
      ImageNone(s0.mem, from);
      SpansBound(s0, from, Pages(sz));
      while i < sz
        invariant Valid() && from in roots && to in roots && roots == s0.roots
        invariant i == |w| * PGSIZE && |w| <= Pages(sz)
        invariant w == Image(s0.mem, from, |w|) && Grown(s0, S(), to, 0, w) && |free| + 3 * |w| >= |s0.free|
      {
        ghost var s1, v := S(), |w|;
        GrownSpans(s0, s1, to, 0, w);
        SourceSame(s0, s1, from, to, v, Pages(sz));
        ImageAt(s0.mem, s1.mem, from, Pages(sz), v);
        SpansAt(s1, from, Pages(sz), v);
        NextUnmapped(s1, to, v);
        ok := CopyPage(from, to, i / PGSIZE);
        SameRoots(s1, S(), to, if ok then v else 0, if ok then v + 1 else 0);
        if !ok {
          GrownTables(s0, s1, S(), to, 0, w);
          ghost var s2 := S();
          GrownMapped(s0, s2, to, 0, w);
          Uvmunmap(to, 0, i / PGSIZE, true);
          GrownUndone(s0, s2, S(), to, 0, w);
          SameRoots(s0, S(), to, 0, 0);
          SourceSame(s0, S(), from, to, 0, Pages(sz));
          return;
        }
        GrownMore(s0, s1, S(), to, 0, w, FrameAt(s0.mem, from, v));
        ImageMore(s0.mem, from, v);
        w := w + [FrameAt(s0.mem, from, v)];
        i := i + PGSIZE;
      }
      GrownSpans(s0, S(), to, 0, w);
      SourceSame(s0, S(), from, to, |w|, Pages(sz));
      ok := true;
    }

    /** Free a table and, recursively, the tables below it, which hold no leaves. */
    method Freewalk(t: nat, ghost q: Pos, ghost at: map<Pos, nat>)
      requires Valid() && Dying(S(), at, q) && at[q] == t
      modifies this
      ensures Valid() && AllFreed(old(S()), S(), at)
      decreases 3 - Depth(q)
    {
      hide Inv, Entry, PutEntry, Dying, Progress, AllFreed, SameTrees, PteTarget, PteFlags;
      ghost var s0 := S();
      ProgressNone(s0, at, q);
      var i := 0;
      while i < 512
        invariant 0 <= i <= 512 && Valid() && Progress(s0, S(), at, q, i)
      {
        ghost var s1 := S();
        ProgressTable(s0, s1, at, q, i);
        var pte := Entry(mem[t], i);
        if PteValid(pte) {
          ProgressDying(s0, s1, at, q, i);
          PointerNotLeaf(pte);
        }
        assert PteValid(pte) ==> !PteLeaf(pte);  // "freewalk: leaf"
        if PteValid(pte) && !PteLeaf(pte) {
          DeeperChild(q, i);
          Freewalk(PteTarget(pte), Child(q, i), Branched(at, q, i));
          ghost var s2 := S();
          FreedElsewhere(s0, s1, s2, at, q, i);
          StoreKeeps(s2, t, PutEntry(mem[t], i, 0));
          mem := mem[t := PutEntry(mem[t], i, 0)];
          ProgressStep(s0, s1, s2, S(), at, q, i);
        } else {
          ProgressSkip(s0, s1, at, q, i);
        }
        i := i + 1;
      }
      ProgressTable(s0, S(), at, q, 512);
      FreeKeeps(S(), t);
      ProgressDone(s0, S(), at, q);
      Kfree(t);
    }

    /** Free the user memory of tree r and then its tables. */
    method Uvmfree(r: nat, sz: nat)
      requires Valid() && r in roots && Pages(sz) <= TRAPFRAME
      requires forall v: nat :: v in Mapping(mem, r) <==> v < Pages(sz)
      modifies this
      ensures Valid() && Reclaimed(old(S()), S(), r)
    {
      hide Inv, Mapping, Dying, AllFreed, TreePages, DropRoot, Reclaimed, Shrinks;
      ghost var s0 := S();
      if sz > 0 {
        Uvmunmap(r, 0, PgRoundUp(sz) / PGSIZE, true);
      } else {
        ShrinksNone(s0, r, 0, Free);
      }
      ghost var s1 := S();
      ShrinksRoots(s0, s1, r, 0, Pages(sz), Free);
      assert Mapping(mem, r) == map[];
      TreeDying(s1, r);
      DropRootKeeps(s1, r);
      ghost var dropped := DropRoot(s1, r);
      DroppedKeeps(s1, r);
      own := dropped.own;
      roots := dropped.roots;
      assert S() == dropped;
      Freewalk(r, Top, TreePages(s1, r));
      DyingReclaimed(s1, S(), r);
      ShrunkReclaimed(s0, s1, S(), r, 0, Pages(sz));
    }

    /** Map one of the two kernel pages every address space has. */
    method MapSpecial(r: nat, v: nat, pn: nat, perm: nat) returns (ok: bool)
      requires Valid() && r in roots && v in {TRAMPOLINE, TRAPFRAME} && v !in Mapping(mem, r)
      requires 0 < pn < MAXPPN && perm < 1024 && PteLeaf(OrValid(perm)) && !PteUser(OrValid(perm))
      modifies this
      ensures Valid() && roots == old(roots) && Grows(old(S()), S(), r, 0, 0)
      ensures Mapping(mem, r) == if ok then old(Mapping(mem, r))[v := MakePte(pn, OrValid(perm))]
        else old(Mapping(mem, r))
      ensures |free| + 2 >= |old(free)| && (!ok ==> |old(free)| < 2)
      ensures old(HasTables(mem, r, v)) ==> ok && free == old(free)
    {
      hide Inv, Mapping, Grows, PteLeaf, MakePte, HasTables;
      ghost var s0 := S();
      ghost var k;
      ok, k := Mappages(r, v * PGSIZE, PGSIZE, pn * PGSIZE, perm);
      GiveSpecial(s0, r, v, pn, k);
      SameRoots(s0, S(), r, 0, 0);
    }

    /** An address space with no user memory, for a process whose trapframe is the given page. */
    method ProcPagetable(trampoline: nat, trapframe: nat) returns (r: nat)
      requires Valid() && 0 < trampoline < MAXPPN && trapframe in own && own[trapframe].Held?
      modifies this
      ensures Valid()
      ensures r == 0 ==> Restored(old(S()), S())
      ensures r != 0 ==> NewSpace(old(S()), S(), r) && Mapping(mem, r) == KernelPages(trampoline, trapframe)
      ensures if r == 0 then |old(free)| < 3 else |free| + 3 >= |old(free)|
    {
      hide HasTables, Inv, Mapping, Grows, Reclaimed, MakePte, Restored;
      ghost var s0 := S();
      PageRange(s0, trapframe);
      r := Uvmcreate();
      if r == 0 {
        RestoredSelf(s0);
        return;
      }
      NotOwnedYet(s0, r);
      ghost var s1 := S();
      SpecialPerms();
      var ok := MapSpecial(r, TRAMPOLINE, trampoline, PTE_R + PTE_X);
      GrowsTwice(s0.(roots := roots), s1, S(), r, 0, 0);
      if !ok {
        ghost var s2 := S();
        Uvmfree(r, 0);
        GrownReclaimed(s0, s2, S(), r, 0, 0);
        return 0;
      }
      ghost var s2 := S();
      SharedTables(s2, r);
      ok := MapSpecial(r, TRAPFRAME, trapframe, PTE_R + PTE_W);
      GrowsTwice(s0.(roots := roots), s2, S(), r, 0, 0);
      assert ok;  // the tables are there, so the second failure that the code provides for cannot happen
    }

    /** Free an address space of sz bytes, with its tables. */
    method ProcFreepagetable(r: nat, sz: nat)
      requires Valid() && r in roots && FullSpace(mem, r, Pages(sz))
      modifies this
      ensures Valid() && Reclaimed(old(S()), S(), r)
    {
      hide Inv, Mapping, Reclaimed, Shrinks;
      ghost var s0 := S();
      FullBound(s0, r, Pages(sz));
      Uvmunmap(r, TRAMPOLINE * PGSIZE, 1, false);
      ghost var s1 := S();
      ShrunkSpecial(s0, s1, r, TRAMPOLINE);
      Uvmunmap(r, TRAPFRAME * PGSIZE, 1, false);
      ghost var s2 := S();
      ShrunkSpecial(s1, s2, r, TRAPFRAME);
      Uvmfree(r, sz);
      ShrunkReclaimed(s1, s2, S(), r, 0, 0);
      ShrunkReclaimed(s0, s1, S(), r, 0, 0);
    }

    /** The frame behind a user address, or 0. */
    method Walkaddr(r: nat, va: nat) returns (p: nat)
      requires Valid() && r in roots
      modifies this
      ensures S() == old(S())
      ensures p != 0 <==> Translates(mem, r, va)
      ensures p != 0 ==> p == PteTarget(Mapping(mem, r)[va / PGSIZE]) && p in mem
    {
      hide Inv, Mapping, Entry, At, PteAt, PteTarget, PteUser, PteValid;
      if va >= MAXVPN * PGSIZE {
        return 0;
      }
      ghost var v := va / PGSIZE;
      var ok, t, i := Walk(r, va, false);
      if !ok {
        NoTable(mem, r, v);
        return 0;
      }
      TablePage(S(), t);
      EntryAt(S(), t, i);
      ChildParent(Leaf(v));
      MappedIff(mem, r, v);
      var pte := Entry(mem[t], i);
      if !PteValid(pte) || !PteUser(pte) {
        return 0;
      }
      UserFrame(S(), r, va);
      return PteTarget(pte);
    }

    /** Copy len bytes from user address srcva; on failure, the bytes before the first page that does not translate. */
    method Copyin(r: nat, srcva: nat, len: nat) returns (ok: bool, dst: seq<byte>)
      requires Valid() && r in roots
      modifies this
      ensures S() == old(S())
      ensures |dst| <= len && TranslatesUpTo(mem, r, srcva, |dst|) && dst == UserBytes(mem, r, srcva, |dst|)
      ensures if ok then |dst| == len else |dst| < len && !Translates(mem, r, srcva + |dst|)
    {
      hide Inv, Mapping, Translates, PteTarget;
      dst := [];
      var left, va := len, srcva;
      while left > 0
        invariant S() == old(S()) && 0 <= left && |dst| + left == len && (left > 0 ==> va == srcva + |dst|)
        invariant TranslatesUpTo(mem, r, srcva, |dst|) && dst == UserBytes(mem, r, srcva, |dst|)
      {
        var va0 := va - va % PGSIZE;
        SamePage(mem, r, va0, va);
        var pa0 := Walkaddr(r, va0);
        if pa0 == 0 {
          return false, dst;
        }
        var n := PGSIZE - (va - va0);
        if n > left {
          n := left;
        }
        BytesInPage(S(), r, va, n);
        UpToMore(mem, r, srcva, |dst|, n);
        BytesMore(mem, r, srcva, |dst|, n);
        dst := dst + mem[pa0][va - va0..va - va0 + n];
        left := left - n;
        va := va0 + PGSIZE;
      }
      ok := true;
    }

    /** Copy src to user address dstva; on failure, the part before the first page that does not translate. */
    method Copyout(r: nat, dstva: nat, src: seq<byte>) returns (ok: bool, ghost done: nat)
      requires Valid() && r in roots
      modifies this
      ensures Valid() && done <= |src| && UserWritten(old(S()), S(), r, dstva, src[..done])
      ensures TranslatesUpTo(old(mem), r, dstva, done)
      ensures if ok then done == |src| else done < |src| && !Translates(old(mem), r, dstva + done)
    {
      hide Inv, Mapping, Translates, PteTarget, UserWritten, Patched;
      ghost var s0 := S();
      done := 0;
      var left, at, va := |src|, 0, dstva;
      NothingWritten(s0, r, dstva);
      assert src[..0] == [];
      while left > 0
        invariant Valid() && r in roots && 0 <= left && at + left == |src| && at == done
        invariant (left > 0 ==> va == dstva + at)
        invariant UserWritten(s0, S(), r, dstva, src[..at]) && TranslatesUpTo(s0.mem, r, dstva, at)
      {
        ghost var s1 := S();
        var va0 := va - va % PGSIZE;
        SamePage(mem, r, va0, va);
        WrittenTranslates(s0, s1, r, dstva, src[..at], va);
        var pa0 := Walkaddr(r, va0);
        if pa0 == 0 {
          return false, done;
        }
        var n := PGSIZE - (va - va0);
        if n > left {
          n := left;
        }
        PageWritten(s1, r, va, src[at..at + n]);
        BytesInPage(s1, r, va, n);
        mem := mem[pa0 := Patched(mem[pa0], va - va0, src[at..at + n])];
        WrittenMore(s0, s1, S(), r, dstva, src[..at], src[at..at + n]);
        assert src[..at] + src[at..at + n] == src[..at + n];
        WrittenUpTo(s0, s1, r, dstva, src[..at], va, n);
        UpToMore(s0.mem, r, dstva, at, n);
        WrittenRoots(s1, S(), r, va, src[at..at + n]);
        left := left - n;
        at := at + n;
        done := done + n;
        va := va0 + PGSIZE;
      }
      ok := true;
    }

    /** The bytes of a page from p on, up to a NUL or n of them. */
    method ScanPage(page: PageData, p: nat, n: nat) returns (found: bool, part: seq<byte>)
      requires p + n <= PGSIZE
      ensures |part| <= n && part == page[p..p + |part|]
      ensures if found then IsCString(part) else |part| == n && NoNul(part)
    {
      part := [];
      while |part| < n
        invariant |part| <= n && part == page[p..p + |part|] && NoNul(part)
      {
        var b := page[p + |part|];
        part := part + [b];
        if b == 0 {
          return true, part;
        }
      }
      found := false;
    }

    /** Copy a string of at most max bytes, with its NUL, from user address srcva; on failure, the bytes before the
        end of the mapped pages or of max. */
    method Copyinstr(r: nat, srcva: nat, max: nat) returns (ok: bool, dst: seq<byte>)
      requires Valid() && r in roots
      modifies this
      ensures S() == old(S())
      ensures |dst| <= max && TranslatesUpTo(mem, r, srcva, |dst|) && dst == UserBytes(mem, r, srcva, |dst|)
      ensures ok ==> IsCString(dst)
      ensures !ok ==> NoNul(dst) && (|dst| == max || !Translates(mem, r, srcva + |dst|))
    {
      hide Inv, Mapping, Translates, PteTarget, IsCString, NoNul, UserBytes;
      dst := [];
      NulMore(dst, dst);
      assert dst == UserBytes(mem, r, srcva, 0) by {
        BytesNone(mem, r, srcva);
      }
      ok := false;
      var left, va, part := max, srcva, [];
      while !ok && left > 0
        invariant S() == old(S()) && 0 <= left && |dst| + left == max && TranslatesUpTo(mem, r, srcva, |dst|)
        invariant dst == UserBytes(mem, r, srcva, |dst|)
        invariant !ok ==> NoNul(dst) && (left > 0 ==> va == srcva + |dst|)
        invariant ok ==> IsCString(dst)
        decreases !ok, left
      {
        var va0 := va - va % PGSIZE;
        SamePage(mem, r, va0, va);
        var pa0 := Walkaddr(r, va0);
        if pa0 == 0 {
          return;
        }
        var n := PGSIZE - (va - va0);
        if n > left {
          n := left;
        }
        ok, part := ScanPage(mem[pa0], va - va0, n);
        BytesInPage(S(), r, va, |part|);
        UpToMore(mem, r, srcva, |dst|, |part|);
        BytesMore(mem, r, srcva, |dst|, |part|);
        NulMore(dst, part);
        dst := dst + part;
        left := left - |part|;
        va := va0 + PGSIZE;
      }
    }

    /** Take user access away from a mapped page. */
    method Uvmclear(r: nat, va: nat)
      requires Valid() && r in roots && va < MAXVPN * PGSIZE && va / PGSIZE in Mapping(mem, r)
      modifies this
      ensures Valid() && own == old(own) && roots == old(roots)
      ensures Mapping(mem, r) == old(Mapping(mem, r))[va / PGSIZE := ClearUser(old(Mapping(mem, r)[va / PGSIZE]))]
      ensures Grows(old(S()), S(), r, 0, 0)
    {
      hide Inv, Mapping, Entry, PutEntry, At, PteAt, PteLeaf, SameTreeBut;
      ghost var s0, v := S(), va / PGSIZE;
      var ok, t, i := Walk(r, va, false);
      MappedFound(s0, r, v);
      assert ok;  // "uvmclear"
      TablePage(s0, t);
      EntryAt(s0, t, i);
      ChildParent(Leaf(v));
      var pte := Entry(mem[t], i);
      var pte' := ClearUser(pte);
      ClearedUser(pte);
      ReflagKeeps(s0, t, i, pte');
      mem := mem[t := PutEntry(mem[t], i, pte')];
      assert S() == Reflag(s0, t, i, pte');
      MappingLeaf(s0.mem, mem, r, v);
      ReflagGrows(s0, t, i, pte', r);
    }
  }
}
