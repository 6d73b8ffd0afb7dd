/** What operations on one address space may do to the map it stands for and to the account of pages. */
module VmSpec {
  import opened Blocks
  import opened VmModel
  import opened VmSteps
  import opened Values

  // ----- effect on the map -----

  lemma MappingSame(mem: Memory, mem': Memory, r: nat)
    requires SameTree(mem, mem', r)
    ensures Mapping(mem', r) == Mapping(mem, r)
  {
    hide PteAt, At;
    forall v: nat | v < NPTE * NPTE * NPTE
      ensures PteAt(mem', r, Leaf(v)) == PteAt(mem, r, Leaf(v))
    {
      assert IsPos(Leaf(v));
    }
  }

  lemma MappingTable(mem: Memory, mem': Memory, r: nat, c: Pos)
    requires SameTreeBut(mem, mem', r, c) && IsTable(c)
    ensures Mapping(mem', r) == Mapping(mem, r)
  {
    hide PteAt, At;
    forall v: nat | v < NPTE * NPTE * NPTE
      ensures PteAt(mem', r, Leaf(v)) == PteAt(mem, r, Leaf(v))
    {
      assert IsPos(Leaf(v));
    }
  }

  lemma MappingLeaf(mem: Memory, mem': Memory, r: nat, v: nat)
    requires IsPos(Leaf(v)) && SameTreeBut(mem, mem', r, Leaf(v))
    ensures var pte := PteAt(mem', r, Leaf(v));
      Mapping(mem', r) == if PteValid(pte) then Mapping(mem, r)[v := pte] else Mapping(mem, r) - {v}
  {
    hide PteAt, At;
    forall u: nat | u < NPTE * NPTE * NPTE && u != v
      ensures PteAt(mem', r, Leaf(u)) == PteAt(mem, r, Leaf(u))
    {
      assert IsPos(Leaf(u));
    }
  }

  // ----- effect on the account -----

  predicate TableOf(o: Owner, r: nat) {
    o.Owned? && o.root == r && IsTable(o.pos)
  }

  predicate UserOf(o: Owner, r: nat, lo: nat, hi: nat) {
    o.Owned? && o.root == r && o.pos.Leaf? && lo <= o.pos.vpn < hi
  }

  /** Page p keeps its owner, and its contents unless it is free or a table of tree r. */
  ghost predicate PageKept(s: Vm, t: Vm, r: nat, p: nat)
    requires p in s.own && p in t.own && p in s.mem && p in t.mem
  {
    t.own[p] == s.own[p] && (s.own[p].Free? || TableOf(s.own[p], r) || t.mem[p] == s.mem[p])
  }

  ghost predicate SamePages(s: Vm, t: Vm) {
    t.roots == s.roots && s.own.Keys == s.mem.Keys == t.own.Keys == t.mem.Keys
  }

  /** From s to t, tree r may take free pages as tables, and as user pages for [lo, hi); nothing else changes hands. */
  ghost predicate Grows(s: Vm, t: Vm, r: nat, lo: nat, hi: nat) {
    SamePages(s, t) && forall p :: p in s.own ==> PageGrows(s, t, r, lo, hi, p)
  }

  ghost predicate PageGrows(s: Vm, t: Vm, r: nat, lo: nat, hi: nat, p: nat)
    requires p in s.own && p in t.own && p in s.mem && p in t.mem
  {
    PageKept(s, t, r, p) || (s.own[p].Free? && (TableOf(t.own[p], r) || UserOf(t.own[p], r, lo, hi)))
  }

  /** From s to t, user pages of tree r in [lo, hi) may pass to owner o; nothing else changes hands. */
  ghost predicate Shrinks(s: Vm, t: Vm, r: nat, lo: nat, hi: nat, o: Owner) {
    && SamePages(s, t)
    && forall p :: p in s.own ==> PageKept(s, t, r, p) || (UserOf(s.own[p], r, lo, hi) && t.own[p] == o)
  }

  lemma GrowsTwice(s: Vm, t: Vm, u: Vm, r: nat, lo: nat, hi: nat)
    requires Grows(s, t, r, lo, hi) && Grows(t, u, r, lo, hi)
    ensures Grows(s, u, r, lo, hi)
  {
  }

  /** The table pages of a tree are all that its shape depends on. */
  lemma {:induction false} TablesFix(s: Vm, t: Vm, r: nat, q: Pos)
    requires Inv(s) && t.mem.Keys == s.mem.Keys && r in s.roots && IsPos(q)
    requires forall p :: p in s.own && TableOf(s.own[p], r) ==> t.mem[p] == s.mem[p]
    ensures At(t.mem, r, q) == At(s.mem, r, q) && (!q.Top? ==> PteAt(t.mem, r, q) == PteAt(s.mem, r, q))
    decreases Depth(q)
  {
    hide PX0, PX1, PX2, Entry, FreeListed, Shaped;
    if !q.Top? {
      TablesFix(s, t, r, Parent(q));
      var p := At(s.mem, r, Parent(q));
      assert Owns(Parent(q));
      if p != 0 {
        assert s.own[p] == Owned(r, Parent(q));
      }
    }
  }

  /** An operation on tree r leaves every other address space as it was. */
  lemma OthersSame(s: Vm, t: Vm, r: nat, r': nat, lo: nat, hi: nat)
    requires Inv(s) && (Grows(s, t, r, lo, hi) || Shrinks(s, t, r, lo, hi, Free)) && r' in s.roots && r' != r
    ensures SameTree(s.mem, t.mem, r') && Mapping(t.mem, r') == Mapping(s.mem, r')
    ensures forall p :: p in s.own && s.own[p].Owned? && s.own[p].root == r' ==>
      t.own[p] == s.own[p] && t.mem[p] == s.mem[p]
  {
    hide At, PteAt, Entry, Inv;
    forall q | IsPos(q)
      ensures At(t.mem, r', q) == At(s.mem, r', q) && (!q.Top? ==> PteAt(t.mem, r', q) == PteAt(s.mem, r', q))
    {
      TablesFix(s, t, r', q);
    }
    MappingSame(s.mem, t.mem, r');
  }

  lemma GrowsSelf(s: Vm, r: nat)
    requires Inv(s)
    ensures Grows(s, s, r, 0, 0)
  {
  }

  lemma TableRoot(s: Vm, t: nat)
    requires Inv(s) && IsTablePage(s, t)
    ensures t in s.mem && s.own[t].root in s.roots
  {
  }

  /** The page the allocator hands out is not one of a tree's. */
  lemma TablesNotFree(s: Vm, t: nat)
    requires Inv(s) && IsTablePage(s, t)
    ensures s.free != [] ==>
      s.free[0] != t && s.free[0] in s.own && s.own[s.free[0]].Free? && 0 < s.free[0] < PHYSPAGES
  {
  }

  /** Taking a free page, zeroing it and installing it as a table adds that table and maps nothing. */
  lemma NewTableMapping(s0: Vm, s1: Vm, s2: Vm, s3: Vm, r: nat, c: Pos, t: nat, i: nat)
    requires Inv(s0) && r in s0.roots && s0.free != [] && s1 == AllocPage(s0) && SameTrees(s0, s1)
    requires s2 == StorePage(s1, s0.free[0], ZeroPage()) && SameTrees(s1, s2)
    requires SameTreesBut(s2, s3, r, c) && IsTable(c)
    requires t in s0.mem && t in s0.own && TableOf(s0.own[t], r) && i < NPTE && s0.free[0] < PHYSPAGES
    requires s3 == SetEntry(s2, t, i, MakePte(s0.free[0], PTE_V), s2.own[s0.free[0] := Owned(r, c)])
    ensures Grows(s0, s3, r, 0, 0) && Mapping(s3.mem, r) == Mapping(s0.mem, r)
  {
    hide Entry, PutEntry, ZeroPage, Filled, ReachedOwned, OwnedReached, Shaped, Linked, OnList, At, PteAt;
    MappingSame(s0.mem, s1.mem, r);
    MappingSame(s1.mem, s2.mem, r);
    MappingTable(s2.mem, s3.mem, r, c);
  }

  /** A page that a tree uses, as a table or as user memory, has that one use: it is on no free list, and no tree
      reaches it by another way. */
  lemma OneUse(s: Vm, r: nat, q: Pos, r': nat, q': Pos)
    requires Inv(s) && r in s.roots && r' in s.roots && IsPos(q) && IsPos(q') && Owns(q) && Owns(q')
    requires At(s.mem, r, q) == At(s.mem, r', q') != 0
    ensures r == r' && q == q' && !OnList(s.free, At(s.mem, r, q)) && At(s.mem, r, q) in s.mem
  {
    hide At;
    var p := At(s.mem, r, q);
    assert s.own[p] == Owned(r, q) && s.own[p] == Owned(r', q');
  }

  /** Every page is on the free list, or in use at one place of one tree, or in the kernel's hands. */
  lemma PageAccounted(s: Vm, p: nat)
    requires Inv(s) && p in s.mem
    ensures OnList(s.free, p) || s.own[p].Held?
      || (s.own[p].root in s.roots && IsPos(s.own[p].pos) && At(s.mem, s.own[p].root, s.own[p].pos) == p)
    ensures OnList(s.free, p) ==> !s.own[p].Held? && forall r, q :: r in s.roots && IsPos(q) && Owns(q) ==>
      At(s.mem, r, q) != p
    ensures s.own[p].Held? ==> forall r, q :: r in s.roots && IsPos(q) && Owns(q) ==> At(s.mem, r, q) != p
  {
    hide At, Entry;
    forall r, q | r in s.roots && IsPos(q) && Owns(q) && At(s.mem, r, q) == p
      ensures s.own[p] == Owned(r, q)
    {
    }
  }

  // ----- ranges of pages -----

  /** The map with n consecutive virtual pages from v on mapped to consecutive frames from pn on. */
  ghost function Inserted(m: map<nat, nat>, v: nat, pn: nat, n: nat, flags: nat): (r: map<nat, nat>) {
    if n == 0 then m else Inserted(m, v, pn, n - 1, flags)[v + n - 1 := MakePte(pn + n - 1, flags)]
  }

  lemma {:induction false} InsertedAt(m: map<nat, nat>, v: nat, pn: nat, n: nat, flags: nat, u: nat)
    ensures var r := Inserted(m, v, pn, n, flags);
      && (u in r <==> u in m || v <= u < v + n)
      && (u in r ==> r[u] == if v <= u < v + n then MakePte(pn + u - v, flags) else m[u])
  {
    if n > 0 {
      InsertedAt(m, v, pn, n - 1, flags, u);
    }
  }

  ghost function Removed(m: map<nat, nat>, v: nat, n: nat): (r: map<nat, nat>) {
    map u | u in m && !(v <= u < v + n) :: m[u]
  }

  /** The account once frames pn .. pn+n, now in a caller's hands, count as tree r's user pages from v on. */
  ghost function Give(s: Vm, r: nat, v: nat, pn: nat, n: nat): (t: Vm) {
    s.(own := map p | p in s.own ::
      if pn <= p < pn + n && Owns(Leaf(v + p - pn)) then Owned(r, Leaf(v + p - pn)) else s.own[p])
  }

  lemma GiveMore(s0: Vm, s1: Vm, s2: Vm, r: nat, v: nat, pn: nat, k: nat)
    requires Grows(Give(s0, r, v, pn, k), s1, r, 0, 0)
    requires Grows(Give(s1, r, v + k, pn + k, 1), s2, r, 0, 0)
    requires Owns(Leaf(v + k)) ==> pn + k in s0.own && s0.own[pn + k].Held?
    ensures Grows(Give(s0, r, v, pn, k + 1), s2, r, 0, 0)
  {
    hide PageGrows, Owns;
    var g0, g1, g2 := Give(s0, r, v, pn, k), Give(s1, r, v + k, pn + k, 1), Give(s0, r, v, pn, k + 1);
    forall p | p in g2.own
      ensures PageGrows(g2, s2, r, 0, 0, p)
    {
      assert PageGrows(g0, s1, r, 0, 0, p) && PageGrows(g1, s2, r, 0, 0, p);
      PageMore(g0, s1, g1, s2, g2, r, p);
    }
  }

  lemma PageMore(g0: Vm, s1: Vm, g1: Vm, s2: Vm, g2: Vm, r: nat, p: nat)
    requires p in g0.own && p in s1.own && p in g1.own && p in s2.own && p in g2.own
    requires p in g0.mem && p in s1.mem && p in g1.mem && p in s2.mem && p in g2.mem
    requires PageGrows(g0, s1, r, 0, 0, p) && PageGrows(g1, s2, r, 0, 0, p)
    requires g0.mem[p] == g2.mem[p] && g1.mem[p] == s1.mem[p]
    requires (g2.own[p] == g0.own[p] && g1.own[p] == s1.own[p]) || (g0.own[p].Held? && g2.own[p] == g1.own[p])
    ensures PageGrows(g2, s2, r, 0, 0, p)
  {
  }

  lemma MappedPage(s0: Vm, s1: Vm, g: Vm, u: Vm, t: nat, r: nat, o: Owner, p: nat)
    requires p in s0.own && p in s1.own && p in g.own && p in u.own
    requires p in s0.mem && p in s1.mem && p in g.mem && p in u.mem
    requires PageGrows(s0, s1, r, 0, 0, p) && g.mem[p] == s0.mem[p]
    requires if p == t then TableOf(s1.own[p], r) else u.mem[p] == s1.mem[p]
    requires (s0.own[p].Held? && g.own[p] == u.own[p] == o) || (g.own[p] == s0.own[p] && u.own[p] == s1.own[p])
    ensures PageGrows(g, u, r, 0, 0, p)
  {
  }

  /** Mapping one more page after a walk. */
  lemma MappedGrows(s0: Vm, s1: Vm, t: nat, i: nat, pte: nat, r: nat, v: nat)
    requires Grows(s0, s1, r, 0, 0) && t in s1.own && t in s1.mem && TableOf(s1.own[t], r) && i < NPTE && pte < WORD
    requires IsPos(s1.own[t].pos) && Child(s1.own[t].pos, i) == Leaf(v)
    requires Owns(Leaf(v)) ==> PteTarget(pte) in s0.own && s0.own[PteTarget(pte)].Held?
    ensures Grows(Give(s0, r, v, PteTarget(pte), 1), SetLeaf(s1, t, i, pte), r, 0, 0)
  {
    hide PutEntry, PteTarget, Owns, PageGrows, Child, IsPos;
    var g, u := Give(s0, r, v, PteTarget(pte), 1), SetLeaf(s1, t, i, pte);
    forall p | p in g.own
      ensures PageGrows(g, u, r, 0, 0, p)
    {
      assert PageGrows(s0, s1, r, 0, 0, p);
      MappedPage(s0, s1, g, u, t, r, Owned(r, Leaf(v)), p);
    }
  }

  lemma ShrinksOn(s: Vm, t: Vm, u: Vm, r: nat, lo: nat, mid: nat, hi: nat, o: Owner)
    requires Shrinks(s, t, r, lo, mid, o) && Shrinks(t, u, r, mid, hi, o) && lo <= mid <= hi && !o.Owned?
    ensures Shrinks(s, u, r, lo, hi, o)
  {
  }

  // ----- address spaces -----

  /** Tree r maps exactly the user pages below n, besides perhaps the trampoline and the trapframe. */
  ghost predicate Spans(mem: Memory, r: nat, n: nat) {
    && (forall v :: v in Mapping(mem, r) ==> v < n || v == TRAMPOLINE || v == TRAPFRAME)
    && (forall v: nat :: v < n ==> v in Mapping(mem, r))
  }

  /** The frames of the first k pages. */
  ghost function Frames(m: map<nat, nat>, k: nat): (f: set<nat>)
    requires forall v: nat :: v < k ==> v in m
  {
    if k == 0 then {} else Frames(m, k - 1) + {PteTarget(m[k - 1])}
  }

  lemma {:induction false} FramesMany(s: Vm, r: nat, k: nat)
    requires Inv(s) && r in s.roots && k <= TRAPFRAME && forall v: nat :: v < k ==> v in Mapping(s.mem, r)
    ensures |Frames(Mapping(s.mem, r), k)| == k
    ensures forall p :: p in Frames(Mapping(s.mem, r), k) ==> p in s.own && UserOf(s.own[p], r, 0, k)
  {
    hide Inv, Mapping;
    if k > 0 {
      FramesMany(s, r, k - 1);
      LeafFrame(s, r, k - 1);
    }
  }

  lemma LeafFrame(s: Vm, r: nat, v: nat)
    requires Inv(s) && r in s.roots && v in Mapping(s.mem, r) && v != TRAMPOLINE && v != TRAPFRAME
    ensures var p := PteTarget(Mapping(s.mem, r)[v]); p in s.own && p in s.mem && s.own[p] == Owned(r, Leaf(v))
  {
    hide At, PteAt, PX0, PX1, PX2, FreeListed;
    ValidOwned(s, r, Leaf(v));
  }

  ghost function UpTo(n: nat): (f: set<nat>) {
    if n == 0 then {} else UpTo(n - 1) + {n - 1}
  }

  lemma {:induction false} UpToSize(n: nat)
    ensures |UpTo(n)| == n && forall p: nat :: p in UpTo(n) <==> p < n
  {
    if n > 0 {
      UpToSize(n - 1);
    }
  }

  /** An address space is smaller than physical memory, so it never reaches the trapframe page. */
  lemma SpansBound(s: Vm, r: nat, n: nat)
    requires Inv(s) && r in s.roots && Spans(s.mem, r, n)
    ensures n < PHYSPAGES
  {
    hide Mapping, Inv;
    if n >= PHYSPAGES {
      FramesMany(s, r, PHYSPAGES);
      var f := Frames(Mapping(s.mem, r), PHYSPAGES);
      var all := UpTo(PHYSPAGES);
      UpToSize(PHYSPAGES);
      forall p | p in f
        ensures p in all - {0}
      {
        PageRange(s, p);
      }
      SubsetSize(f, all - {0});
    }
  }

  lemma PageRange(s: Vm, p: nat)
    requires Inv(s) && p in s.own
    ensures p in s.mem && 0 < p < PHYSPAGES
  {
  }

  /** What a virtual page is mapped to: flags and contents. */
  datatype Frame = Frame(flags: nat, data: PageData)

  ghost predicate HasPage(mem: Memory, r: nat, v: nat, f: Frame) {
    && v in Mapping(mem, r) && PteFlags(Mapping(mem, r)[v]) == f.flags
    && PteTarget(Mapping(mem, r)[v]) in mem && mem[PteTarget(Mapping(mem, r)[v])] == f.data
  }

  /** A tree's user pages keep their contents while it grows. */
  lemma PageStays(s: Vm, t: Vm, r: nat, lo: nat, hi: nat, v: nat, f: Frame)
    requires Inv(s) && r in s.roots && Grows(s, t, r, lo, hi) && v < TRAPFRAME && HasPage(s.mem, r, v, f)
    requires v in Mapping(t.mem, r) && Mapping(t.mem, r)[v] == Mapping(s.mem, r)[v]
    ensures HasPage(t.mem, r, v, f)
  {
    hide Inv, Mapping;
    LeafFrame(s, r, v);
    assert PageGrows(s, t, r, lo, hi, PteTarget(Mapping(s.mem, r)[v]));
  }

  lemma GrowsWide(s: Vm, t: Vm, r: nat, lo: nat, hi: nat, hi': nat)
    requires Grows(s, t, r, lo, hi) && hi <= hi'
    ensures Grows(s, t, r, lo, hi')
  {
  }

  /** Taking a free page, filling it and mapping it grows the tree by one user page. */
  lemma AllocMapGrows(s1: Vm, p: nat, data: PageData, s2: Vm, r: nat, lo: nat, v: nat)
    requires s1.free != [] && p == s1.free[0] && p in s1.own && s1.own[p].Free? && p in s1.mem && Owns(Leaf(v))
    requires lo <= v
    requires SamePages(s1, s1) && Grows(Give(StorePage(AllocPage(s1), p, data), r, v, p, 1), s2, r, 0, 0)
    ensures Grows(s1, s2, r, lo, v + 1) && p in s2.mem && s2.mem[p] == data
  {
    hide Owns, Filled, PageGrows;
    var g := Give(StorePage(AllocPage(s1), p, data), r, v, p, 1);
    assert PageGrows(g, s2, r, 0, 0, p) && g.own[p] == Owned(r, Leaf(v)) && g.mem[p] == data;
    forall x | x in s1.own
      ensures PageGrows(s1, s2, r, lo, v + 1, x)
    {
      assert PageGrows(g, s2, r, 0, 0, x);
      GivenPage(s1, g, s2, r, lo, v, x, p);
    }
    GivenPage(s1, g, s2, r, lo, v, p, p);
  }

  lemma GivenPage(s1: Vm, g: Vm, s2: Vm, r: nat, lo: nat, v: nat, x: nat, p: nat)
    requires x in s1.own && x in s1.mem && x in g.own && x in g.mem && x in s2.own && x in s2.mem
    requires PageGrows(g, s2, r, 0, 0, x) && lo <= v && p in s1.own && s1.own[p].Free?
    requires if x == p then g.own[x] == Owned(r, Leaf(v)) else g.own[x] == s1.own[x] && g.mem[x] == s1.mem[x]
    ensures PageGrows(s1, s2, r, lo, v + 1, x) && (x == p ==> s2.own[x] == g.own[x] && s2.mem[x] == g.mem[x])
  {
  }

  /** Growing and then giving back all the new user pages leaves at most new tables. */
  lemma Undone(s0: Vm, s1: Vm, s2: Vm, r: nat, lo: nat, hi: nat)
    requires Grows(s0, s1, r, lo, hi) && Shrinks(s1, s2, r, lo, hi, Free) && Inv(s2) && hi <= TRAPFRAME
    requires forall v :: lo <= v < hi ==> v !in Mapping(s2.mem, r)
    requires forall p :: p in s0.own ==> !UserOf(s0.own[p], r, lo, hi)
    ensures Grows(s0, s2, r, 0, 0)
  {
    hide Inv, Mapping;
    forall p | p in s0.own
      ensures PageGrows(s0, s2, r, 0, 0, p)
    {
      assert PageGrows(s0, s1, r, lo, hi, p);
      if UserOf(s2.own[p], r, lo, hi) {
        OwnedMapped(s2, r, p);
      }
    }
  }

  lemma OwnedMapped(s: Vm, r: nat, p: nat)
    requires Inv(s) && p in s.own && s.own[p].Owned? && s.own[p].root == r && s.own[p].pos.Leaf?
    ensures s.own[p].pos.vpn in Mapping(s.mem, r) && r in s.roots && p in s.mem
    ensures PteTarget(Mapping(s.mem, r)[s.own[p].pos.vpn]) == p
  {
    hide PteAt, PX0, PX1, PX2, FreeListed, Shaped, ReachedOwned;
    assert IsPos(s.own[p].pos) && At(s.mem, r, s.own[p].pos) == p != 0;
  }

  // ----- growth -----

  function UserFlags(xperm: nat): nat {
    PTE_V + PTE_R + PTE_U + xperm
  }

  lemma LeafPerm(xperm: nat)
    requires xperm in {0, PTE_W, PTE_X, PTE_W + PTE_X}
    ensures PteLeaf(OrValid(PTE_R + PTE_U + xperm)) && PTE_R + PTE_U + xperm < 1024
    ensures OrValid(PTE_R + PTE_U + xperm) == UserFlags(xperm)
  {
  }

  /** n zeroed user pages. */
  function Zeroed(n: nat, xperm: nat): (w: seq<Frame>) {
    seq(n, _ => Frame(UserFlags(xperm), ZeroPage()))
  }

  lemma ZeroedMore(n: nat, xperm: nat)
    ensures Zeroed(n + 1, xperm) == Zeroed(n, xperm) + [Frame(UserFlags(xperm), ZeroPage())]
    ensures Zeroed(0, xperm) == []
  {
  }

  /** The first n pages of tree r. */
  ghost function Image(mem: Memory, r: nat, n: nat): (w: seq<Frame>) {
    seq(n, (v: nat) => FrameAt(mem, r, v))
  }

  ghost function FrameAt(mem: Memory, r: nat, v: nat): (f: Frame) {
    if v in Mapping(mem, r) && PteTarget(Mapping(mem, r)[v]) in mem then
      Frame(PteFlags(Mapping(mem, r)[v]), mem[PteTarget(Mapping(mem, r)[v])])
    else Frame(0, ZeroPage())
  }

  /** From s to t the user part of tree r grew from n pages by the pages w. */
  ghost predicate Grown(s: Vm, t: Vm, r: nat, n: nat, w: seq<Frame>) {
    && Removed(Mapping(t.mem, r), n, |w|) == Mapping(s.mem, r)
    && Spans(t.mem, r, n + |w|) && Grows(s, t, r, n, n + |w|)
    && forall j :: 0 <= j < |w| ==> HasPage(t.mem, r, n + j, w[j])
  }

  lemma GrownNone(s: Vm, r: nat, n: nat)
    requires Inv(s) && Spans(s.mem, r, n)
    ensures Grown(s, s, r, n, [])
  {
    hide Mapping;
  }

  lemma GrownZero(s: Vm, t: Vm, r: nat, n: nat)
    requires Grown(s, t, r, n, [])
    ensures Mapping(t.mem, r) == Mapping(s.mem, r) && Grows(s, t, r, 0, 0)
  {
    hide Mapping;
    assert Removed(Mapping(t.mem, r), n, 0) == Mapping(t.mem, r);
    forall p | p in s.own
      ensures PageGrows(s, t, r, 0, 0, p)
    {
      assert PageGrows(s, t, r, n, n, p);
    }
  }

  lemma GrownSpans(s: Vm, t: Vm, r: nat, n: nat, w: seq<Frame>)
    requires Grown(s, t, r, n, w)
    ensures Spans(t.mem, r, n + |w|) && Grows(s, t, r, n, n + |w|)
  {
  }

  lemma NextUnmapped(s: Vm, r: nat, n: nat)
    requires Spans(s.mem, r, n) && n < PHYSPAGES
    ensures n !in Mapping(s.mem, r)
  {
  }

  /** Adding tables alone keeps the growth so far. */
  lemma GrownTables(s: Vm, t: Vm, u: Vm, r: nat, n: nat, w: seq<Frame>)
    requires Inv(t) && r in t.roots && Grown(s, t, r, n, w) && n + |w| < PHYSPAGES
    requires Mapping(u.mem, r) == Mapping(t.mem, r) && Grows(t, u, r, 0, 0)
    ensures Grown(s, u, r, n, w)
  {
    hide Mapping, Inv, HasPage, PageGrows;
    forall j | 0 <= j < |w|
      ensures HasPage(u.mem, r, n + j, w[j])
    {
      HasMapped(t.mem, r, n + j, w[j]);
      PageStays(t, u, r, 0, 0, n + j, w[j]);
    }
    GrowsOn(s, t, u, r, n, n + |w|, 0, 0);
  }

  lemma HasMapped(mem: Memory, r: nat, v: nat, f: Frame)
    requires HasPage(mem, r, v, f)
    ensures v in Mapping(mem, r)
  {
  }

  lemma GrowsOn(s: Vm, t: Vm, u: Vm, r: nat, n: nat, m: nat, lo: nat, hi: nat)
    requires Grows(s, t, r, n, m) && Grows(t, u, r, lo, hi) && (lo == hi || (n <= lo && m <= hi))
    ensures Grows(s, u, r, n, if lo == hi then m else hi)
  {
    var top := if lo == hi then m else hi;
    forall p | p in s.own
      ensures PageGrows(s, u, r, n, top, p)
    {
      assert PageGrows(s, t, r, n, m, p) && PageGrows(t, u, r, lo, hi, p);
    }
  }

  lemma GrownMore(s: Vm, t: Vm, u: Vm, r: nat, n: nat, w: seq<Frame>, f: Frame)
    requires Inv(t) && r in t.roots && Grown(s, t, r, n, w) && n + |w| < PHYSPAGES
    requires var v := n + |w|;
      && v in Mapping(u.mem, r) && Mapping(u.mem, r) - {v} == Mapping(t.mem, r) && Grows(t, u, r, v, v + 1)
      && HasPage(u.mem, r, v, f)
    ensures Grown(s, u, r, n, w + [f])
  {
    hide Mapping, Inv, HasPage, PageGrows;
    var v := n + |w|;
    forall j | 0 <= j < |w + [f]|
      ensures HasPage(u.mem, r, n + j, (w + [f])[j])
    {
      if j < |w| {
        assert HasPage(t.mem, r, n + j, w[j]);
        HasMapped(t.mem, r, n + j, w[j]);
        assert n + j in Mapping(u.mem, r) - {v};
        PageStays(t, u, r, v, v + 1, n + j, w[j]);
      }
    }
    GrowsOn(s, t, u, r, n, v, v, v + 1);
    RemovedMore(Mapping(u.mem, r), Mapping(t.mem, r), n, v);
    SpansMore(t.mem, u.mem, r, v);
  }

  lemma RemovedMore(mu: map<nat, nat>, mt: map<nat, nat>, n: nat, m: nat)
    requires n <= m && mu - {m} == mt
    ensures Removed(mu, n, m + 1 - n) == Removed(mt, n, m - n)
  {
  }

  lemma SpansMore(mem: Memory, mem': Memory, r: nat, m: nat)
    requires Spans(mem, r, m) && m in Mapping(mem', r) && Mapping(mem', r) - {m} == Mapping(mem, r)
    ensures Spans(mem', r, m + 1)
  {
    hide Mapping;
    var a, b := Mapping(mem, r), Mapping(mem', r);
    forall v: nat | v < m + 1
      ensures v in b
    {
      if v < m {
        assert v in a;
      }
    }
    forall v | v in b
      ensures v < m + 1 || v == TRAMPOLINE || v == TRAPFRAME
    {
      if v != m {
        assert v in a;
      }
    }
  }

  lemma GrownMapped(s: Vm, t: Vm, r: nat, n: nat, w: seq<Frame>)
    requires Grown(s, t, r, n, w)
    ensures forall v :: n <= v < n + |w| ==> v in Mapping(t.mem, r)
  {
  }

  /** Taking all the new pages away again restores the map, and only tables have been gained. */
  lemma GrownUndone(s: Vm, t: Vm, u: Vm, r: nat, n: nat, w: seq<Frame>)
    requires Inv(s) && r in s.roots && Spans(s.mem, r, n) && Grown(s, t, r, n, w) && n + |w| < PHYSPAGES
    requires Inv(u) && Mapping(u.mem, r) == Removed(Mapping(t.mem, r), n, |w|) && Shrinks(t, u, r, n, n + |w|, Free)
    ensures Mapping(u.mem, r) == Mapping(s.mem, r) && Grows(s, u, r, 0, 0)
  {
    hide Mapping, Inv, HasPage;
    forall p | p in s.own
      ensures !UserOf(s.own[p], r, n, n + |w|)
    {
      if UserOf(s.own[p], r, n, n + |w|) {
        OwnedMapped(s, r, p);
      }
    }
    Undone(s, t, u, r, n, n + |w|);
  }

  function Pages(sz: nat): (n: nat) {
    (sz + PGSIZE - 1) / PGSIZE
  }

  function PgRoundUp(sz: nat): (a: nat) {
    Pages(sz) * PGSIZE
  }

  lemma SameMapping(s: Vm, t: Vm, r: nat)
    requires SameTrees(s, t) && r in s.roots
    ensures Mapping(t.mem, r) == Mapping(s.mem, r)
  {
    MappingSame(s.mem, t.mem, r);
  }

  lemma AllocMapping(s0: Vm, s1: Vm, r: nat, data: PageData)
    requires Inv(s0) && s0.free != [] && s1 == StorePage(AllocPage(s0), s0.free[0], data) && r in s0.roots
    requires SameTrees(s0, AllocPage(s0)) && SameTrees(AllocPage(s0), s1)
    ensures Mapping(s1.mem, r) == Mapping(s0.mem, r)
  {
    SameMapping(s0, AllocPage(s0), r);
    SameMapping(AllocPage(s0), s1, r);
  }

  lemma GiveNoneHeld(s1: Vm, s2: Vm, r: nat, v: nat, p: nat)
    requires Grows(Give(s1, r, v, p, 0), s2, r, 0, 0) && p in s1.own && s1.own[p].Held?
    ensures Grows(s1, s2, r, 0, 0) && p in s2.own && s2.own[p].Held?
  {
    assert Give(s1, r, v, p, 0).own == s1.own;
    HeldKept(s1, s2, r, 0, 0);
  }

  lemma AllocFreeGrows(s0: Vm, s1: Vm, s2: Vm, p: nat, r: nat)
    requires s0.free != [] && p == s0.free[0] && p in s0.own && s0.own[p].Free? && s0.own.Keys == s0.mem.Keys
    requires s1.own == s0.own[p := Held] && s1.roots == s0.roots && s1.mem.Keys == s0.mem.Keys
    requires forall x :: x in s0.mem && x != p ==> s1.mem[x] == s0.mem[x]
    requires Grows(s1, s2, r, 0, 0) && PGSIZE * s2.head < WORD
    ensures Grows(s0, FreePage(s2, p), r, 0, 0)
  {
    hide PutEntry, Filled;
    forall x | x in s0.own
      ensures PageGrows(s0, FreePage(s2, p), r, 0, 0, x)
    {
      assert PageGrows(s1, s2, r, 0, 0, x);
    }
  }

  /** Frame numbers fit the 44 bits a PTE has for them. */
  const MAXPPN: nat := 0x1000_0000_0000

  /** The number of pages that [va, va+size) touches. */
  function PageCount(va: nat, size: nat): (n: nat)
    requires size > 0
    ensures n > 0
  {
    (va + size - 1) / PGSIZE - va / PGSIZE + 1
  }

  lemma PteFits(pn: nat, flags: nat)
    requires pn < MAXPPN && flags < 1024
    ensures MakePte(pn, flags) < WORD
  {
  }

  lemma HeldKept(s: Vm, t: Vm, r: nat, lo: nat, hi: nat)
    requires Grows(s, t, r, lo, hi)
    ensures forall p :: p in s.own && s.own[p].Held? ==> p in t.own && t.own[p].Held? && t.mem[p] == s.mem[p]
  {
    forall p | p in s.own && s.own[p].Held?
      ensures p in t.own && t.own[p].Held? && t.mem[p] == s.mem[p]
    {
      assert PageGrows(s, t, r, lo, hi, p);
    }
  }

  /** A mapped page has a bottom table and a valid leaf there. */
  lemma MappedFound(s: Vm, r: nat, v: nat)
    requires Inv(s) && r in s.roots && v in Mapping(s.mem, r)
    ensures At(s.mem, r, Parent(Leaf(v))) != 0 && PteValid(PteAt(s.mem, r, Leaf(v)))
    ensures PteAt(s.mem, r, Leaf(v)) == Mapping(s.mem, r)[v] && PteLeaf(Mapping(s.mem, r)[v])
  {
    hide PX0, PX1, PX2, Entry, FreeListed, ReachedOwned, OwnedReached;
    assert Fits(Leaf(v), PteAt(s.mem, r, Leaf(v)));
  }

  lemma ClearedShrinks(s: Vm, t: nat, i: nat, r: nat, v: nat)
    requires Inv(s) && t in s.own && TableOf(s.own[t], r) && IsPos(s.own[t].pos) && i < NPTE
    requires Child(s.own[t].pos, i) == Leaf(v)
    requires Owns(Leaf(v)) ==>
      PteTarget(Entry(s.mem[t], i)) in s.own && s.own[PteTarget(Entry(s.mem[t], i))] == Owned(r, Leaf(v))
    ensures Shrinks(s, ClearLeaf(s, t, i), r, v, v + 1, Held)
  {
    hide PX0, PX1, PX2, Entry, PutEntry, Owns, PteTarget, ReachedOwned, OwnedReached, FreeListed, Shaped;
  }

  lemma FreedShrinks(s: Vm, s1: Vm, p: nat, r: nat, v: nat)
    requires Inv(s) && Shrinks(s, s1, r, v, v + 1, Held) && p in s.own && s.own[p] == Owned(r, Leaf(v))
    requires s1.own[p].Held? && PGSIZE * s1.head < WORD
    ensures Shrinks(s, FreePage(s1, p), r, v, v + 1, Free)
  {
    hide PutEntry, Filled, ReachedOwned, FreeListed, Shaped, At;
    forall p' | p' in s.own && UserOf(s.own[p'], r, v, v + 1)
      ensures p' == p
    {
      assert s.own[p'] == Owned(r, Leaf(v));
    }
  }

  lemma ShrinksNone(s: Vm, r: nat, v: nat, o: Owner)
    requires Inv(s)
    ensures Shrinks(s, s, r, v, v, o)
  {
  }

  lemma ShrinksRoots(s: Vm, t: Vm, r: nat, lo: nat, hi: nat, o: Owner)
    requires Shrinks(s, t, r, lo, hi, o)
    ensures t.roots == s.roots
  {
  }

  lemma PagesListed(s: Vm)
    requires Inv(s)
    ensures s.own.Keys == s.mem.Keys
  {
  }

  lemma FirstFree(s: Vm)
    requires Inv(s) && s.free != []
    ensures s.free[0] in s.own && s.own[s.free[0]].Free? && s.own.Keys == s.mem.Keys
  {
  }

  lemma NotMapped(mem: Memory, r: nat, v: nat)
    requires v < MAXVPN && v !in Mapping(mem, r)
    ensures !PteValid(PteAt(mem, r, Leaf(v)))
  {
  }

  lemma SameRoots(s: Vm, t: Vm, r: nat, lo: nat, hi: nat)
    requires Grows(s, t, r, lo, hi)
    ensures t.roots == s.roots
  {
  }

  lemma GivenRoots(s: Vm, t: Vm, r: nat, v: nat, pn: nat, n: nat)
    requires Grows(Give(s, r, v, pn, n), t, r, 0, 0)
    ensures t.roots == s.roots
  {
  }

  lemma GiveNone(s: Vm, r: nat, v: nat, pn: nat)
    requires Inv(s)
    ensures Grows(Give(s, r, v, pn, 0), s, r, 0, 0)
  {
    hide Entry, At, PteAt;
  }

  lemma StillHeld(s0: Vm, s1: Vm, r: nat, v: nat, pn: nat, k: nat)
    requires Grows(Give(s0, r, v, pn, k), s1, r, 0, 0)
    requires Owns(Leaf(v + k)) ==> pn + k in s0.own && s0.own[pn + k].Held?
    ensures Owns(Leaf(v + k)) ==> pn + k in s1.own && s1.own[pn + k].Held?
  {
  }

  /** The place whose table walk consults at the given level on the way to page v. */
  function PathPos(v: nat, level: nat): (q: Pos)
    requires level <= 2 && v < MAXVPN
    ensures IsPos(q) && IsTable(q)
  {
    if level == 2 then Top else if level == 1 then Mid(PX2(v)) else Low(PX2(v), PX1(v))
  }

  function PX(level: nat, v: nat): (i: nat)
    requires level <= 2 && v < MAXVPN
    ensures i < NPTE
  {
    if level == 2 then PX2(v) else if level == 1 then PX1(v) else PX0(v)
  }

  lemma PathStep(v: nat, level: nat)
    requires 0 < level <= 2 && v < MAXVPN
    ensures Child(PathPos(v, level), PX(level, v)) == PathPos(v, level - 1) && Owns(PathPos(v, level - 1))
    ensures !PathPos(v, level).Low? && !PathPos(v, level - 1).Top?
  {
  }

  /** The tables that lead to virtual page v exist. */
  ghost predicate HasTables(mem: Memory, r: nat, v: nat)
    requires v < MAXVPN
  {
    At(mem, r, Parent(Leaf(v))) != 0
  }

  lemma PathAbsent(mem: Memory, r: nat, v: nat, level: nat)
    requires 0 < level <= 2 && v < MAXVPN
    requires !PteValid(PteAt(mem, r, PathPos(v, level - 1)))
    ensures !HasTables(mem, r, v)
  {
    hide PX0, PX1, PX2, Entry;
    if level == 2 {
      BelowAbsent(mem, r, PathPos(v, 1), Parent(Leaf(v)));
    }
  }

  lemma TablePage(s: Vm, t: nat)
    requires Inv(s) && t in s.own && s.own[t].Owned?
    ensures t in s.mem && t != 0 && s.own[t].root in s.roots && IsPos(s.own[t].pos)
    ensures At(s.mem, s.own[t].root, s.own[t].pos) == t
  {
  }

  // ----- copying -----

  /** While tree `to` grows, tree `from` keeps its map and its pages. */
  lemma SourceSame(s: Vm, t: Vm, from: nat, to: nat, hi: nat, n: nat)
    requires Inv(s) && Grows(s, t, to, 0, hi) && from in s.roots && from != to && Spans(s.mem, from, n) && n < PHYSPAGES
    ensures Mapping(t.mem, from) == Mapping(s.mem, from) && Spans(t.mem, from, n)
    ensures Image(t.mem, from, n) == Image(s.mem, from, n)
  {
    hide Mapping, Inv, PteTarget, PteFlags, Grows;
    OthersSame(s, t, to, from, 0, hi);
    forall v: nat | v < n
      ensures FrameAt(t.mem, from, v) == FrameAt(s.mem, from, v)
    {
      LeafFrame(s, from, v);
      GrowsPages(s, t, to, 0, hi);
    }
  }

  lemma GrowsPages(s: Vm, t: Vm, r: nat, lo: nat, hi: nat)
    requires Grows(s, t, r, lo, hi)
    ensures SamePages(s, t)
  {
  }

  lemma SpansAt(s: Vm, r: nat, n: nat, v: nat)
    requires Spans(s.mem, r, n) && v < n
    ensures v in Mapping(s.mem, r)
  {
  }

  /** The entry that walk finds for a mapped user page. */
  lemma MappedEntry(s: Vm, r: nat, v: nat, t: nat, k: nat)
    requires Inv(s) && r in s.roots && v < TRAPFRAME && v in Mapping(s.mem, r)
    requires t in s.own && s.own[t] == Owned(r, Parent(Leaf(v))) && k == Index(Leaf(v))
    ensures t in s.mem && Entry(s.mem[t], k) == Mapping(s.mem, r)[v]
    ensures var pte := Mapping(s.mem, r)[v];
      PteValid(pte) && PteLeaf(pte) && PteTarget(pte) in s.mem
      && FrameAt(s.mem, r, v) == Frame(PteFlags(pte), s.mem[PteTarget(pte)])
  {
    hide PX0, PX1, PX2, Entry, At, PteAt, Inv, Mapping, PteTarget;
    TablePage(s, t);
    EntryAt(s, t, k);
    ChildParent(Leaf(v));
    MappedFound(s, r, v);
    LeafFrame(s, r, v);
  }

  /** A leaf's flags can be given to mappages as they are. */
  lemma CopiedFlags(pte: nat)
    requires PteValid(pte) && PteLeaf(pte)
    ensures PteFlags(pte) < 1024 && OrValid(PteFlags(pte)) == PteFlags(pte) && PteLeaf(PteFlags(pte))
  {
    assert MakePte(pte / 1024, pte % 1024) == pte;
    MadePte(pte / 1024, pte % 1024);
  }

  lemma ImageNone(mem: Memory, r: nat)
    ensures Image(mem, r, 0) == []
  {
  }

  lemma ImageMore(mem: Memory, r: nat, n: nat)
    ensures Image(mem, r, n + 1) == Image(mem, r, n) + [FrameAt(mem, r, n)]
  {
  }

  lemma ImageAt(mem: Memory, mem': Memory, r: nat, n: nat, v: nat)
    requires Image(mem, r, n) == Image(mem', r, n) && v < n
    ensures FrameAt(mem', r, v) == FrameAt(mem, r, v)
  {
    assert Image(mem, r, n)[v] == Image(mem', r, n)[v];
  }
}
