/** User memory as the kernel sees it: bytes at virtual addresses, translated one by one through the map. */
module VmUser {
  import opened Blocks
  import opened VmModel
  import opened VmSteps
  import opened VmSpec

  /** Address va of tree r is mapped and accessible to the user. */
  ghost predicate Translates(mem: Memory, r: nat, va: nat) {
    va / PGSIZE < MAXVPN && va / PGSIZE in Mapping(mem, r) && PteUser(Mapping(mem, r)[va / PGSIZE])
  }

  /** The byte at address va of tree r. */
  ghost function UserByte(mem: Memory, r: nat, va: nat): (b: byte)
    requires Translates(mem, r, va)
  {
    var p := PteTarget(Mapping(mem, r)[va / PGSIZE]);
    if p in mem then mem[p][va % PGSIZE] else 0
  }

  ghost predicate TranslatesUpTo(mem: Memory, r: nat, va: nat, n: nat) {
    forall a :: va <= a < va + n ==> Translates(mem, r, a)
  }

  /** The n bytes from va on. */
  ghost function UserBytes(mem: Memory, r: nat, va: nat, n: nat): (s: seq<byte>)
    requires TranslatesUpTo(mem, r, va, n)
    ensures |s| == n
  {
    if n == 0 then [] else UserBytes(mem, r, va, n - 1) + [UserByte(mem, r, va + n - 1)]
  }

  /** A user-accessible page is one the tree owns. */
  lemma UserFrame(s: Vm, r: nat, va: nat)
    requires Inv(s) && r in s.roots && Translates(s.mem, r, va)
    ensures var p := PteTarget(Mapping(s.mem, r)[va / PGSIZE]);
      p != 0 && p in s.mem && p in s.own && s.own[p] == Owned(r, Leaf(va / PGSIZE))
  {
    hide PX0, PX1, PX2, At, PteAt, Entry, FreeListed, ReachedOwned, OwnedReached, PteTarget, PteLeaf, PteFlags;
    var v := va / PGSIZE;
    assert Fits(Leaf(v), PteAt(s.mem, r, Leaf(v)));
    LeafFrame(s, r, v);
    PageRange(s, PteTarget(Mapping(s.mem, r)[v]));
  }

  /** Within a page all addresses translate alike. */
  lemma SamePage(mem: Memory, r: nat, a: nat, b: nat)
    requires a / PGSIZE == b / PGSIZE
    ensures Translates(mem, r, a) == Translates(mem, r, b)
  {
  }

  lemma UpToMore(mem: Memory, r: nat, va: nat, n: nat, k: nat)
    requires TranslatesUpTo(mem, r, va, n) && TranslatesUpTo(mem, r, va + n, k)
    ensures TranslatesUpTo(mem, r, va, n + k)
  {
    hide Translates;
  }

  lemma {:induction false} BytesMore(mem: Memory, r: nat, va: nat, n: nat, k: nat)
    requires TranslatesUpTo(mem, r, va, n) && TranslatesUpTo(mem, r, va + n, k) && TranslatesUpTo(mem, r, va, n + k)
    ensures UserBytes(mem, r, va, n + k) == UserBytes(mem, r, va, n) + UserBytes(mem, r, va + n, k)
  {
    hide Translates, UserByte;
    if k > 0 {
      BytesMore(mem, r, va, n, k - 1);
      var last := UserByte(mem, r, va + n + k - 1);
      assert UserBytes(mem, r, va, n + k) == UserBytes(mem, r, va, n + (k - 1)) + [last];
      assert UserBytes(mem, r, va + n, k) == UserBytes(mem, r, va + n, k - 1) + [last];
    }
  }

  /** Inside one page the bytes are a slice of the frame. */
  lemma {:induction false} BytesInPage(s: Vm, r: nat, va: nat, n: nat)
    requires Inv(s) && r in s.roots && Translates(s.mem, r, va) && va % PGSIZE + n <= PGSIZE
    ensures TranslatesUpTo(s.mem, r, va, n) && PteTarget(Mapping(s.mem, r)[va / PGSIZE]) in s.mem
    ensures UserBytes(s.mem, r, va, n)
      == s.mem[PteTarget(Mapping(s.mem, r)[va / PGSIZE])][va % PGSIZE..va % PGSIZE + n]
  {
    hide Inv, Mapping, PteTarget, PteUser;
    UserFrame(s, r, va);
    forall a | va <= a < va + n
      ensures Translates(s.mem, r, a)
    {
      assert a / PGSIZE == va / PGSIZE;
    }
    if n > 0 {
      BytesInPage(s, r, va, n - 1);
      var f, o := s.mem[PteTarget(Mapping(s.mem, r)[va / PGSIZE])], va % PGSIZE;
      assert (va + n - 1) / PGSIZE == va / PGSIZE && (va + n - 1) % PGSIZE == o + n - 1;
      assert UserBytes(s.mem, r, va, n) == UserBytes(s.mem, r, va, n - 1) + [f[o + n - 1]];
      assert f[o..o + n] == f[o..o + n - 1] + [f[o + n - 1]];
    }
  }

  predicate NoNul(s: seq<byte>) {
    forall i :: 0 <= i < |s| ==> s[i] != 0
  }

  /** A string with its terminating NUL. */
  predicate IsCString(s: seq<byte>) {
    s != [] && s[|s| - 1] == 0 && NoNul(s[..|s| - 1])
  }

  lemma NulMore(a: seq<byte>, b: seq<byte>)
    ensures NoNul([])
    ensures NoNul(a) && NoNul(b) ==> NoNul(a + b)
    ensures NoNul(a) && IsCString(b) ==> IsCString(a + b)
  {
    if b != [] {
      assert (a + b)[..|a + b| - 1] == a + b[..|b| - 1];
    }
  }

  lemma BytesNone(mem: Memory, r: nat, va: nat)
    ensures TranslatesUpTo(mem, r, va, 0) && UserBytes(mem, r, va, 0) == []
  {
  }

  // ----- writing -----

  /** From s to t the bytes x have been written from address a of tree r on; every other byte of every tree, every map
      and every owner is as before. */
  ghost predicate UserWritten(s: Vm, t: Vm, r: nat, a: nat, x: seq<byte>) {
    && t.own == s.own && t.free == s.free && SameTrees(s, t) && t.mem.Keys == s.mem.Keys
    && (forall r' :: r' in s.roots ==> Mapping(t.mem, r') == Mapping(s.mem, r'))
    && (forall p :: p in s.own && !(s.own[p].Owned? && s.own[p].root == r && s.own[p].pos.Leaf?) ==> KeptPage(s, t, p))
    && forall r', va :: r' in s.roots && Translates(s.mem, r', va) ==> ByteWritten(s, t, r, a, x, r', va)
  }

  ghost predicate KeptPage(s: Vm, t: Vm, p: nat) {
    p in s.mem && p in t.mem && t.mem[p] == s.mem[p]
  }

  ghost predicate ByteWritten(s: Vm, t: Vm, r: nat, a: nat, x: seq<byte>, r': nat, va: nat)
    requires Translates(s.mem, r', va)
  {
    && Translates(t.mem, r', va)
    && UserByte(t.mem, r', va) == if r' == r && a <= va < a + |x| then x[va - a] else UserByte(s.mem, r', va)
  }

  lemma NothingWritten(s: Vm, r: nat, a: nat)
    requires Inv(s)
    ensures UserWritten(s, s, r, a, [])
  {
    hide At, PteAt, Mapping;
  }

  lemma WrittenMore(s: Vm, t: Vm, u: Vm, r: nat, a: nat, x: seq<byte>, y: seq<byte>)
    requires UserWritten(s, t, r, a, x) && UserWritten(t, u, r, a + |x|, y)
    ensures UserWritten(s, u, r, a, x + y)
  {
    hide Mapping, Translates, UserByte, SameTree;
    forall r' | r' in s.roots
      ensures SameTree(s.mem, u.mem, r')
    {
      SameTreeTwice(s.mem, t.mem, u.mem, r');
    }
    forall p | p in s.own && !(s.own[p].Owned? && s.own[p].root == r && s.own[p].pos.Leaf?)
      ensures KeptPage(s, u, p)
    {
      assert KeptPage(s, t, p) && KeptPage(t, u, p);
    }
    forall r', va | r' in s.roots && Translates(s.mem, r', va)
      ensures ByteWritten(s, u, r, a, x + y, r', va)
    {
      assert ByteWritten(s, t, r, a, x, r', va);
      assert ByteWritten(t, u, r, a + |x|, y, r', va);
    }
  }

  lemma SameTreeTwice(a: Memory, b: Memory, c: Memory, r: nat)
    requires SameTree(a, b, r) && SameTree(b, c, r)
    ensures SameTree(a, c, r)
  {
    hide At, PteAt;
  }

  function Patched(d: PageData, off: nat, x: seq<byte>): (r: PageData)
    requires off + |x| <= PGSIZE
  {
    d[..off] + x + d[off + |x|..]
  }

  /** Writing x into the frame behind address a, within one page. */
  lemma PageWritten(s: Vm, r: nat, a: nat, x: seq<byte>)
    requires Inv(s) && r in s.roots && Translates(s.mem, r, a) && a % PGSIZE + |x| <= PGSIZE
    ensures var p := PteTarget(Mapping(s.mem, r)[a / PGSIZE]);
      p in s.mem && p in s.own
      && var t := StorePage(s, p, Patched(s.mem[p], a % PGSIZE, x));
      Inv(t) && UserWritten(s, t, r, a, x)
  {
    hide Inv, Mapping, SameTree, PteTarget, Patched;
    UserFrame(s, r, a);
    var p := PteTarget(Mapping(s.mem, r)[a / PGSIZE]);
    var t := StorePage(s, p, Patched(s.mem[p], a % PGSIZE, x));
    StoreKeeps(s, p, Patched(s.mem[p], a % PGSIZE, x));
    PagesListed(s);
    forall r' | r' in s.roots
      ensures Mapping(t.mem, r') == Mapping(s.mem, r')
    {
      SameMapping(s, t, r');
    }
    forall r', va | r' in s.roots && Translates(s.mem, r', va)
      ensures ByteWritten(s, t, r, a, x, r', va)
    {
      UserFrame(s, r', va);
      PatchedByte(s, p, r, a, x, r', va);
    }
  }

  lemma PatchedByte(s: Vm, p: nat, r: nat, a: nat, x: seq<byte>, r': nat, va: nat)
    requires a % PGSIZE + |x| <= PGSIZE && p in s.mem && p in s.own && s.own[p] == Owned(r, Leaf(a / PGSIZE))
    requires Translates(s.mem, r', va) && PteTarget(Mapping(s.mem, r')[va / PGSIZE]) in s.mem
    requires PteTarget(Mapping(s.mem, r')[va / PGSIZE]) in s.own
    requires s.own[PteTarget(Mapping(s.mem, r')[va / PGSIZE])] == Owned(r', Leaf(va / PGSIZE))
    requires Translates(s.mem, r, a) && PteTarget(Mapping(s.mem, r)[a / PGSIZE]) == p
    requires var t := StorePage(s, p, Patched(s.mem[p], a % PGSIZE, x)); Mapping(t.mem, r') == Mapping(s.mem, r')
    ensures ByteWritten(s, StorePage(s, p, Patched(s.mem[p], a % PGSIZE, x)), r, a, x, r', va)
  {
    hide Mapping, PteTarget, PteUser;
    var off, b := a % PGSIZE, va % PGSIZE;
    assert a == a / PGSIZE * PGSIZE + off && va == va / PGSIZE * PGSIZE + b;
    if r' == r && va / PGSIZE == a / PGSIZE {
      assert va - a == b - off;
    }
  }

  lemma WrittenTranslates(s: Vm, t: Vm, r: nat, a: nat, x: seq<byte>, va: nat)
    requires UserWritten(s, t, r, a, x) && r in s.roots
    ensures Translates(t.mem, r, va) == Translates(s.mem, r, va)
  {
    hide Mapping;
  }

  lemma WrittenUpTo(s: Vm, t: Vm, r: nat, a: nat, x: seq<byte>, va: nat, n: nat)
    requires UserWritten(s, t, r, a, x) && r in s.roots && TranslatesUpTo(t.mem, r, va, n)
    ensures TranslatesUpTo(s.mem, r, va, n)
  {
    hide Mapping, UserWritten;
    forall b | va <= b < va + n
      ensures Translates(s.mem, r, b)
    {
      WrittenTranslates(s, t, r, a, x, b);
    }
  }

  lemma WrittenRoots(s: Vm, t: Vm, r: nat, a: nat, x: seq<byte>)
    requires UserWritten(s, t, r, a, x)
    ensures t.roots == s.roots && t.own == s.own && t.free == s.free
  {
  }

  lemma NoTable(mem: Memory, r: nat, v: nat)
    requires v < MAXVPN && At(mem, r, Parent(Leaf(v))) == 0
    ensures v !in Mapping(mem, r)
  {
    hide PX0, PX1, PX2, Entry;
    BelowAbsent(mem, r, Parent(Leaf(v)), Leaf(v));
  }

  lemma MappedIff(mem: Memory, r: nat, v: nat)
    requires v < MAXVPN
    ensures v in Mapping(mem, r) <==> PteValid(PteAt(mem, r, Leaf(v)))
    ensures v in Mapping(mem, r) ==> Mapping(mem, r)[v] == PteAt(mem, r, Leaf(v))
  {
  }

  /** pte & ~PTE_U */
  function ClearUser(pte: nat): (pte': nat) {
    if PteUser(pte) then pte - PTE_U else pte
  }

  lemma ClearedUser(pte: nat)
    ensures var pte' := ClearUser(pte);
      !PteUser(pte') && PteTarget(pte') == PteTarget(pte) && PteValid(pte') == PteValid(pte) &&
        PteLeaf(pte') == PteLeaf(pte)
  {
    if PteUser(pte) {
      hide PteUser, PteValid, PteLeaf;
      var hi, f := pte / 1024, pte % 1024;
      assert pte == MakePte(hi, f);
      MadePte(hi, f);
      WithoutUser(f);
      MadePte(hi, f - 16);
      assert MakePte(hi, f - 16) == pte - 16;
    }
  }

  lemma WithoutUser(f: nat)
    requires PteUser(f)
    ensures f >= 16 && !PteUser(f - 16) && PteValid(f - 16) == PteValid(f) && PteLeaf(f - 16) == PteLeaf(f)
  {
    assert (f - 16) / 16 == f / 16 - 1;
    assert (f - 16) / 2 == f / 2 - 8;
  }

  lemma ReflagGrows(s: Vm, t: nat, i: nat, pte: nat, r: nat)
    requires Inv(s) && t in s.own && TableOf(s.own[t], r) && IsPos(s.own[t].pos) && i < NPTE && pte < WORD
    ensures Grows(s, Reflag(s, t, i, pte), r, 0, 0)
  {
    hide PutEntry, FreeListed, ReachedOwned, OwnedReached, Shaped;
  }
}
