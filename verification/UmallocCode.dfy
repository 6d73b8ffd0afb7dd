/** malloc and free on the headers in memory (user/umalloc.c). */
module UmallocCode {
  import opened Umalloc

  /** The block after index i around a ring of n. */
  function NextIndex(i: nat, n: nat): (j: nat)
    requires i < n
    ensures j < n
  {
    if i + 1 < n then i + 1 else 0
  }

  /** nunits in malloc: enough whole units for nbytes, and one for the header. */
  function UnitsFor(nbytes: nat): (n: nat)
    ensures 1 <= n && (n - 1) * HEADER >= nbytes && (n - 1) * HEADER < nbytes + HEADER
  {
    (nbytes + HEADER - 1) / HEADER + 1
  }

  datatype HeapState = HeapState(mem: Memory, freep: nat, brk: nat, bs: seq<Block>, live: map<nat, nat>,
    units: set<nat>)

  /** The headers in memory form the free list bs, and bs and the live blocks tile the units obtained so far. */
  ghost predicate Ok(h: HeapState) {
    && BASE < h.brk <= LIMIT && h.mem.Keys == h.units + {BASE} && (forall u :: u in h.units ==> BASE < u < h.brk)
    && (forall b :: b in h.live ==> b in h.units && h.mem[b].size == h.live[b])
    && Tiled(h.bs, h.live, h.units)
    && (h.freep == 0 ==> h.bs == [] && h.live == map[] && h.units == {})
    && (h.freep != 0 ==> FreeList(h.mem, h.bs) && OnList(h.bs, h.freep))
  }

  class Heap {
    var mem: Memory
    var freep: nat
    var brk: nat
    ghost var bs: seq<Block>
    ghost var live: map<nat, nat>
    ghost var units: set<nat>

    ghost function S(): HeapState
      reads this
    {
      HeapState(mem, freep, brk, bs, live, units)
    }

    ghost predicate Valid()
      reads this
    {
      Ok(S())
    }

    /** A process that has not allocated anything; its break is above its static data. */
    constructor (start: nat)
      requires BASE < start <= LIMIT
      ensures Valid() && live == map[] && units == {} && brk == start
    {
      mem := map[BASE := Header(0, 0)];
      freep := 0;
      brk := start;
      bs := [];
      live := map[];
      units := {};
    }

    /** The program itself may call sbrk between calls of the allocator. */
    method OtherSbrk(n: nat)
      requires Valid() && brk + n <= LIMIT
      modifies this
      ensures Valid() && live == old(live) && units == old(units) && bs == old(bs) && mem == old(mem)
    {
      brk := brk + n;
    }

    /** Walk from freep to the block behind which bp belongs. */
    method FindPlace(bp: nat) returns (p: nat, ghost cur: nat)
      requires freep != 0 && FreeList(mem, bs) && OnList(bs, freep) && BASE < bp && Without(bs, bp)
      ensures Position(bs, cur, bp) && p == bs[cur].addr
    {
      hide Seg, Gapped, Sized;
      p := freep;
      cur :| 0 <= cur < |bs| && bs[cur].addr == freep;
      ghost var k := FindPosition(bs, bp, |bs|);
      while true
        invariant 0 <= cur < |bs| && p == bs[cur].addr
        decreases if cur <= k then k - cur else |bs| - cur + k
      {
        SegAt(mem, bs, BASE, cur);
        NextAddr(bs, cur);
        if bp > p && bp < mem[p].ptr {
          break;
        }
        if p >= mem[p].ptr && (bp > p || bp < mem[p].ptr) {
          break;
        }
        p := mem[p].ptr;
        cur := NextIndex(cur, |bs|);
      }
    }

    /** Store the headers that put bp behind p, joining neighbours. */
    method Link(p: nat, bp: nat)
      requires p in mem && bp in mem && mem[p].ptr in mem && p != bp
      modifies `mem
      ensures mem == Freed(old(mem), p, bp)
    {
      var q := mem[p].ptr;
      if bp + mem[bp].size == q {
        mem := mem[bp := Header(mem[q].ptr, mem[bp].size + mem[q].size)];
      } else {
        mem := mem[bp := Header(q, mem[bp].size)];
      }
      if p + mem[p].size == bp {
        mem := mem[p := Header(mem[bp].ptr, mem[p].size + mem[bp].size)];
      } else {
        mem := mem[p := Header(bp, mem[p].size)];
      }
    }

    method Free(ap: nat)
      requires Valid() && 0 < ap && ap - 1 in live
      modifies this
      ensures Valid() && freep != 0 && brk == old(brk) && units == old(units) && live == old(live) - {ap - 1}
      ensures forall u: nat :: FreeUnit(bs, u) <==> old(FreeUnit(bs, u)) || Inside(Block(ap - 1, old(live[ap - 1])), u)
      ensures Contains(bs, Block(ap - 1, old(live[ap - 1])))
      ensures LiveKept(live, old(mem), mem)
    {
      hide Ok, Inserted, Freed, Contains, FreeUnit, LiveKept, Tiled;
      var bp := ap - 1;
      ghost var h := S();
      LiveFacts(h, bp);
      var p;
      ghost var k;
      p, k := FindPlace(bp);
      FreedOk(h, k, bp);
      Link(p, bp);
      freep := p;
      bs := Inserted(bs, k, Block(bp, live[bp]));
      live := live - {bp};
    }

    /** Take nunits units from the block at p, which follows prevp, and hand them out. */
    method Take(prevp: nat, p: nat, nunits: nat, ghost i: nat) returns (ap: nat)
      requires Valid() && freep != 0 && 1 <= i < |bs| && p == bs[i].addr && prevp == bs[i - 1].addr
      requires 0 < nunits <= bs[i].size
      modifies this
      ensures Valid() && freep != 0 && brk == old(brk) && units == old(units)
      ensures 0 < ap && ap - 1 !in old(live) && live == old(live)[ap - 1 := nunits]
      ensures LiveKept(old(live), old(mem), mem)
    {
      hide Ok, LiveKept, TakenState;
      ghost var h := S();
      TakeOk(h, i, nunits);
      var q := p;
      if mem[p].size == nunits {
        mem := mem[prevp := Header(mem[p].ptr, mem[prevp].size)];
      } else {
        mem := mem[p := Header(mem[p].ptr, mem[p].size - nunits)];
        q := p + mem[p].size;
        mem := mem[q := Header(mem[q].ptr, nunits)];
      }
      freep := prevp;
      bs := TakenBlocks(bs, i, nunits);
      live := live[q := nunits];
      assert S() == TakenState(h, i, nunits) by {
        TakenIs(h, i, nunits);
      }
      return q + 1;
    }

    /** Ask the kernel for nu more units, at least 4096, and add them to the free list. sbrk refuses if there is no room
        below the limit, and `refuses` says whether it does for another reason. */
    method Morecore(nu: nat, refuses: bool) returns (p: nat)
      requires Valid() && freep != 0 && nu * HEADER <= INTMAX
      modifies this
      ensures Valid() && freep != 0 && live == old(live)
      ensures LiveKept(live, old(mem), mem)
      ensures p == 0 <==> refuses || old(brk) + AtLeast(4096, nu) > LIMIT
      ensures p == 0 ==> S() == old(S())
      ensures p != 0 ==> p == freep && Grew(old(S()), S(), AtLeast(4096, nu))
      ensures p != 0 ==> Contains(bs, Block(old(brk), AtLeast(4096, nu)))
    {
      hide Ok, LiveKept, Contains, Range, FreeUnit;
      var n := if nu < 4096 then 4096 else nu;
      if refuses || brk + n > LIMIT {
        KeptSelf(S());
        return 0;
      }
      ghost var h := S();
      GrowOk(h, n);
      var hp := brk;
      brk := brk + n;
      mem := Extended(mem, hp, n);
      units := units + Range(hp, n);
      live := live[hp := n];
      assert S() == GrownState(h, n);
      ghost var g := S();
      Free(hp + 1);
      GrownKept(h, n, g, S());
      assert Contains(bs, Block(hp, n));
      assert live == old(live);
      return freep;
    }

    /** Look for nunits units, starting behind freep and asking for more memory once the whole ring has been seen. */
    method Search(nunits: nat, refuses: bool) returns (ap: nat)
      requires Valid() && freep != 0 && 0 < nunits && nunits * HEADER <= INTMAX
      modifies this
      ensures Valid()
      ensures ap == 0 <==> !old(HasSize(bs, nunits)) && (refuses || old(brk) + AtLeast(4096, nunits) > LIMIT)
      ensures ap == 0 ==> S() == old(S())
      ensures ap != 0 ==> ap - 1 !in old(live) && live == old(live)[ap - 1 := nunits]
      ensures ap != 0 ==> Grew(old(S()), S(), if old(HasSize(bs, nunits)) then 0 else AtLeast(4096, nunits))
      ensures LiveKept(old(live), old(mem), mem)
    {
      hide Ok, LiveKept, FreeList, Contains, HasSize, SmallTo;
      KeptSelf(S());
      var prevp := freep;
      ghost var f := FreepIndex(S());
      RingAt(S(), f);
      var p := mem[prevp].ptr;
      ghost var grown, off := false, 0;
      SmallNone(bs, f, nunits);
      while true
        invariant Valid() && freep != 0 && 0 <= f < |bs| && freep == bs[f].addr && 0 <= off < |bs|
        invariant p == bs[Around(f, off, |bs|)].addr && prevp == bs[Before(f, off, |bs|)].addr
        invariant SmallTo(bs, f, off, nunits)
        invariant live == old(live) && LiveKept(live, old(mem), mem)
        invariant !grown ==> S() == old(S())
        invariant grown ==> HasSize(bs, nunits) && !old(HasSize(bs, nunits))
        invariant grown ==> !refuses && old(brk) + AtLeast(4096, nunits) <= LIMIT
        invariant Grew(old(S()), S(), if grown then AtLeast(4096, nunits) else 0)
        decreases !grown, |bs| - off
      {
        ghost var i := Around(f, off, |bs|);
        RingAt(S(), i);
        if mem[p].size >= nunits {
          ghost var mem0 := mem;
          SizeAt(bs, i, nunits);
          ap := Take(prevp, p, nunits, i);
          KeptTwice(old(live), old(mem), mem0, mem);
          return;
        }
        if p == freep {
          AllSmall(S(), f, off, nunits);
          ghost var mem0 := mem;
          p := Morecore(nunits, refuses);
          KeptTwice(old(live), old(mem), mem0, mem);
          if p == 0 {
            return 0;
          }
          grown := true;
          f := FreepIndex(S());
          SizeFrom(bs, Block(old(brk), AtLeast(4096, nunits)), nunits);
          RingAt(S(), f);
          SmallNone(bs, f, nunits);
          off := 0;
        } else {
          SmallMore(bs, f, off, nunits);
          off := off + 1;
        }
        prevp := p;
        p := mem[p].ptr;
      }
    }

    /** Allocate at least nbytes bytes; 0 exactly if no free block is large enough and sbrk refuses, and then nothing
        has changed. Memory is asked for only if no free block is large enough, and lies at the old break. */
    method Malloc(nbytes: nat, refuses: bool) returns (ap: nat)
      requires Valid() && UnitsFor(nbytes) * HEADER <= INTMAX
      modifies this
      ensures Valid()
      ensures ap == 0 <==>
        !old(HasSize(bs, UnitsFor(nbytes))) && (refuses || old(brk) + AtLeast(4096, UnitsFor(nbytes)) > LIMIT)
      ensures ap == 0 ==> live == old(live) && brk == old(brk) && units == old(units)
      ensures ap != 0 ==> ap - 1 !in old(live) && live == old(live)[ap - 1 := UnitsFor(nbytes)]
      ensures ap != 0 ==>
        Grew(old(S()), S(), if old(HasSize(bs, UnitsFor(nbytes))) then 0 else AtLeast(4096, UnitsFor(nbytes)))
      ensures LiveKept(old(live), old(mem), mem)
    {
      hide Ok, LiveKept, FreeList;
      KeptSelf(S());
      if freep == 0 {
        FirstOk(S());
        mem := mem[BASE := Header(BASE, 0)];
        freep := BASE;
        bs := [Block(BASE, 0)];
      }
      ghost var mem0 := mem;
      ap := Search(UnitsFor(nbytes), refuses);
      KeptTwice(old(live), old(mem), mem0, mem);
    }
  }

  // ----- going round the ring -----

  /** off steps after the successor of index f, around a ring of n. */
  function Around(f: nat, off: nat, n: nat): (i: nat)
    requires f < n && off < n
    ensures i < n
  {
    if f + 1 + off < n then f + 1 + off else f + 1 + off - n
  }

  function Before(f: nat, off: nat, n: nat): (i: nat)
    requires f < n && off < n
    ensures i < n
  {
    if f + off < n then f + off else f + off - n
  }

  function AtLeast(least: nat, n: nat): nat {
    if n < least then least else n
  }

  /** From h to g the break has moved up by n units, and the heap has gained exactly those. */
  ghost predicate Grew(h: HeapState, g: HeapState, n: nat) {
    g.brk == h.brk + n && g.units == h.units + Range(h.brk, n)
  }

  ghost predicate HasSize(bs: seq<Block>, n: nat) {
    exists i :: 0 <= i < |bs| && bs[i].size >= n
  }

  /** The first `off` blocks from f on, around the ring, are smaller than n. */
  ghost predicate SmallTo(bs: seq<Block>, f: nat, off: nat, n: nat)
    requires f < |bs| && off <= |bs|
  {
    forall j :: 0 <= j < off ==> bs[Around(f, j, |bs|)].size < n
  }

  lemma SmallNone(bs: seq<Block>, f: nat, n: nat)
    requires f < |bs|
    ensures SmallTo(bs, f, 0, n)
  {
  }

  lemma SmallMore(bs: seq<Block>, f: nat, off: nat, n: nat)
    requires f < |bs| && off < |bs| && SmallTo(bs, f, off, n) && bs[Around(f, off, |bs|)].size < n
    ensures SmallTo(bs, f, off + 1, n)
  {
  }

  lemma SizeAt(bs: seq<Block>, i: nat, n: nat)
    requires i < |bs| && bs[i].size >= n
    ensures HasSize(bs, n)
  {
  }

  lemma SizeFrom(bs: seq<Block>, b: Block, n: nat)
    requires b.size >= n && Contains(bs, b)
    ensures HasSize(bs, n)
  {
    var j :| 0 <= j < |bs| && bs[j].addr <= b.addr && b.addr + b.size <= bs[j].addr + bs[j].size;
    assert bs[j].size >= n;
  }

  ghost function FreepIndex(h: HeapState): (f: nat)
    requires Ok(h) && h.freep != 0
    ensures f < |h.bs| && h.bs[f].addr == h.freep
  {
    var f :| 0 <= f < |h.bs| && h.bs[f].addr == h.freep;
    f
  }

  /** The header of block i: its size and the address of the next block; the first is base. */
  lemma RingAt(h: HeapState, i: nat)
    requires Ok(h) && h.freep != 0 && i < |h.bs|
    ensures h.bs[i].addr in h.mem && h.mem[h.bs[i].addr] == Header(h.bs[NextIndex(i, |h.bs|)].addr, h.bs[i].size)
    ensures h.bs[0].size == 0
    ensures forall j :: 0 <= j < |h.bs| && h.bs[j].addr == h.bs[i].addr ==> j == i
  {
    hide Seg, Gapped, Tiled;
    SegAt(h.mem, h.bs, BASE, i);
    NextAddr(h.bs, i);
    FreeDistinct(h.bs);
  }

  /** Back at freep, the whole ring has been seen. */
  lemma AllSmall(h: HeapState, f: nat, off: nat, n: nat)
    requires Ok(h) && h.freep != 0 && f < |h.bs| && off < |h.bs| && h.bs[Around(f, off, |h.bs|)].addr == h.bs[f].addr
    requires SmallTo(h.bs, f, off, n) && h.bs[f].size < n
    ensures !HasSize(h.bs, n)
  {
    hide Ok;
    RingAt(h, f);
    assert Around(f, off, |h.bs|) == f && off == |h.bs| - 1;
    forall i | 0 <= i < |h.bs|
      ensures h.bs[i].size < n
    {
      if i != f {
        var j := if i > f then i - f - 1 else i - f - 1 + |h.bs|;
        assert Around(f, j, |h.bs|) == i;
      }
    }
  }

  lemma KeptTwice(live: map<nat, nat>, a: Memory, b: Memory, c: Memory)
    requires LiveKept(live, a, b) && LiveKept(live, b, c)
    ensures LiveKept(live, a, c)
  {
    hide LiveUnit;
  }

  /** The first call makes base a ring of its own. */
  lemma FirstOk(h: HeapState)
    requires Ok(h) && h.freep == 0
    ensures h.bs == [] && BASE in h.mem
    ensures Ok(h.(mem := h.mem[BASE := Header(BASE, 0)], freep := BASE, bs := [Block(BASE, 0)]))
    ensures LiveKept(h.live, h.mem, h.mem[BASE := Header(BASE, 0)])
  {
    var bs := [Block(BASE, 0)];
    assert OnList(bs, BASE) by {
      assert bs[0].addr == BASE;
    }
    assert bs[1..] == [];
    assert FreeList(h.mem[BASE := Header(BASE, 0)], bs);
    assert Tiled(bs, h.live, h.units) by {
      forall u: nat
        ensures !FreeUnit(bs, u) && !LiveUnit(h.live, u)
      {
      }
    }
  }

  // ----- more memory -----

  function Range(lo: nat, n: nat): (r: set<nat>) {
    if n == 0 then {} else Range(lo, n - 1) + {lo + n - 1}
  }

  lemma {:induction false} RangeIs(lo: nat, n: nat)
    ensures forall u: nat :: u in Range(lo, n) <==> lo <= u < lo + n
  {
    if n > 0 {
      RangeIs(lo, n - 1);
    }
  }

  /** The memory once the units from hp on have been added, zeroed, with the size of the new block in its header. */
  function Extended(mem: Memory, hp: nat, n: nat): (mem': Memory) {
    map u | u in mem.Keys + Range(hp, n) :: if u == hp then Header(0, n) else if u in mem then mem[u] else Header(0, 0)
  }

  /** n units from the kernel, counted as handed out until they are freed into the list. */
  function GrownState(h: HeapState, n: nat): (g: HeapState) {
    h.(mem := Extended(h.mem, h.brk, n), brk := h.brk + n, units := h.units + Range(h.brk, n),
      live := h.live[h.brk := n])
  }

  lemma GrowOk(h: HeapState, n: nat)
    requires Ok(h) && h.freep != 0 && n > 0 && h.brk + n <= LIMIT
    ensures Ok(GrownState(h, n)) && h.brk !in h.live && LiveKept(h.live, h.mem, GrownState(h, n).mem)
  {
    hide Ok, FreeList, Tiled, OnList, LiveUnit;
    OkParts(h);
    RangeIs(h.brk, n);
    var g := GrownState(h, n);
    assert FreeList(g.mem, h.bs) by {
      ListInUnits(h);
      SegExtend(h.mem, g.mem, h.bs);
    }
    GrownTiled(h, n);
    LiveInUnits(h.bs, h.live, h.units);
    OkIntro(g);
  }

  lemma OkIntro(h: HeapState)
    requires Tiled(h.bs, h.live, h.units) && h.mem.Keys == h.units + {BASE} && BASE < h.brk <= LIMIT
    requires forall u :: u in h.units ==> BASE < u < h.brk
    requires forall b :: b in h.live ==> b in h.units && h.mem[b].size == h.live[b]
    requires h.freep != 0 && FreeList(h.mem, h.bs) && OnList(h.bs, h.freep)
    ensures Ok(h)
  {
  }

  /** Every free block lies below the break. */
  lemma ListInUnits(h: HeapState)
    requires Ok(h) && h.freep != 0
    ensures forall i :: 0 <= i < |h.bs| ==> h.bs[i].addr in h.mem && h.bs[i].addr + h.bs[i].size <= h.brk
  {
    hide Seg, Gapped;
    OnlyBaseEmpty(h.mem, h.bs);
    forall i: nat | i < |h.bs|
      ensures h.bs[i].addr in h.mem && h.bs[i].addr + h.bs[i].size <= h.brk
    {
      SegAt(h.mem, h.bs, BASE, i);
      if i > 0 {
        var last := h.bs[i].addr + h.bs[i].size - 1;
        assert h.bs[1..][i - 1] == h.bs[i];
        assert Inside(h.bs[i], last);
        assert FreeUnit(h.bs, last);
      }
    }
  }

  lemma {:induction false} SegExtendPart(mem: Memory, mem': Memory, bs: seq<Block>, next: nat)
    requires Seg(mem, bs, next)
    requires forall i :: 0 <= i < |bs| ==>
      bs[i].addr in mem && bs[i].addr in mem' && mem'[bs[i].addr] == mem[bs[i].addr]
    ensures Seg(mem', bs, next)
  {
    if bs != [] {
      assert mem'[bs[0].addr] == mem[bs[0].addr];
      forall i | 0 <= i < |bs[1..]|
        ensures bs[1..][i].addr in mem && bs[1..][i].addr in mem' && mem'[bs[1..][i].addr] == mem[bs[1..][i].addr]
      {
        assert bs[1..][i] == bs[i + 1];
      }
      SegExtendPart(mem, mem', bs[1..], next);
    }
  }

  lemma SegExtend(mem: Memory, mem': Memory, bs: seq<Block>)
    requires FreeList(mem, bs)
    requires forall i :: 0 <= i < |bs| ==>
      bs[i].addr in mem && bs[i].addr in mem' && mem'[bs[i].addr] == mem[bs[i].addr]
    ensures FreeList(mem', bs)
  {
    hide Seg, Gapped, Sized;
    SegExtendPart(mem, mem', bs, BASE);
  }

  lemma GrownTiled(h: HeapState, n: nat)
    requires Ok(h) && h.freep != 0 && n > 0
    ensures Tiled(h.bs, h.live[h.brk := n], h.units + Range(h.brk, n)) && h.brk !in h.live
  {
    hide FreeList, FreeUnit, LiveUnit;
    ListInUnits(h);
    RangeIs(h.brk, n);
    var live := h.live[h.brk := n];
    assert h.brk !in h.live;
    forall b | b in h.live
      ensures b + h.live[b] <= h.brk
    {
      LiveBelow(h, b);
    }
    forall u: nat
      ensures u in h.units + Range(h.brk, n) <==> FreeUnit(h.bs, u) || LiveUnit(live, u)
    {
      assert h.live == live - {h.brk};
      LiveWithout(live, h.brk, u);
    }
  }

  lemma LiveBelow(h: HeapState, b: nat)
    requires Ok(h) && b in h.live
    ensures b + h.live[b] <= h.brk
  {
    hide FreeList, FreeUnit;
    var last := b + h.live[b] - 1;
    assert Inside(Block(b, h.live[b]), last);
    assert LiveUnit(h.live, last);
  }

  lemma GrownKept(h: HeapState, n: nat, g: HeapState, k: HeapState)
    requires Ok(h) && g == GrownState(h, n) && h.brk !in h.live && LiveKept(h.live, h.mem, g.mem)
    requires k.live == g.live - {h.brk} && LiveKept(k.live, g.mem, k.mem)
    ensures k.live == h.live && LiveKept(h.live, h.mem, k.mem)
  {
    hide Ok, LiveUnit;
    assert k.live == h.live;
  }

  // ----- taking -----

  function TakenBlocks(bs: seq<Block>, i: nat, n: nat): (r: seq<Block>)
    requires i < |bs| && 0 < n <= bs[i].size
  {
    if n == bs[i].size then bs[..i] + bs[i + 1..] else bs[i := Block(bs[i].addr, bs[i].size - n)]
  }

  /** Where the handed-out block starts: the tail of block i. */
  function TakenAddr(bs: seq<Block>, i: nat, n: nat): (q: nat)
    requires i < |bs| && 0 < n <= bs[i].size
  {
    bs[i].addr + bs[i].size - n
  }

  function TakenState(h: HeapState, i: nat, n: nat): (g: HeapState)
    requires 1 <= i < |h.bs| && 0 < n <= h.bs[i].size && h.bs[i].addr in h.mem && h.bs[i - 1].addr in h.mem
    requires TakenAddr(h.bs, i, n) in h.mem
  {
    var x, p := h.bs[i], h.bs[i - 1].addr;
    var q := TakenAddr(h.bs, i, n);
    var mem := if n == x.size then h.mem[p := Header(h.mem[x.addr].ptr, h.mem[p].size)]
               else h.mem[x.addr := Header(h.mem[x.addr].ptr, x.size - n)][q := Header(h.mem[q].ptr, n)];
    h.(mem := mem, freep := p, bs := TakenBlocks(h.bs, i, n), live := h.live[q := n])
  }

  lemma TakenIs(h: HeapState, i: nat, n: nat)
    requires 1 <= i < |h.bs| && 0 < n <= h.bs[i].size && h.bs[i].addr in h.mem && h.bs[i - 1].addr in h.mem
    requires TakenAddr(h.bs, i, n) in h.mem
    ensures var x, p := h.bs[i], h.bs[i - 1].addr;
      var q := TakenAddr(h.bs, i, n);
      TakenState(h, i, n) == h.(mem := if n == x.size then h.mem[p := Header(h.mem[x.addr].ptr, h.mem[p].size)]
               else h.mem[x.addr := Header(h.mem[x.addr].ptr, x.size - n)][q := Header(h.mem[q].ptr, n)],
               freep := p, bs := TakenBlocks(h.bs, i, n), live := h.live[q := n])
  {
  }

  lemma TakeOk(h: HeapState, i: nat, n: nat)
    requires Ok(h) && h.freep != 0 && 1 <= i < |h.bs| && 0 < n <= h.bs[i].size
    ensures h.bs[i].addr in h.mem && h.bs[i - 1].addr in h.mem && TakenAddr(h.bs, i, n) in h.mem
    ensures h.mem[h.bs[i].addr].size == h.bs[i].size && TakenAddr(h.bs, i, n) !in h.live && h.bs[i - 1].addr != 0
    ensures Ok(TakenState(h, i, n)) && LiveKept(h.live, h.mem, TakenState(h, i, n).mem)
  {
    hide Ok, Seg, Gapped, Sized, FreeUnit, LiveUnit, Tiled, OnList;
    OkParts(h);
    SegAt(h.mem, h.bs, BASE, i);
    SegAt(h.mem, h.bs, BASE, i - 1);
    var x, q := h.bs[i], TakenAddr(h.bs, i, n);
    FreeInUnits(h, i, q);
    FreeInUnits(h, i, x.addr);
    var g := TakenState(h, i, n);
    TakenList(h, i, n);
    TakenFree(h, i, n);
    OnlyBaseEmpty(g.mem, g.bs);
    TakenTiled(h.bs, h.live, h.units, g.bs, Block(q, n));
    assert LiveKept(h.live, h.mem, g.mem) by {
      TakenUntouched(h, i, n);
    }
    assert OnList(g.bs, g.freep) by {
      PredStays(h.bs, i, n);
    }
    LiveInUnits(h.bs, h.live, h.units);
    OkIntro(g);
  }

  lemma FreeInUnits(h: HeapState, i: nat, u: nat)
    requires Ok(h) && i < |h.bs| && Inside(h.bs[i], u)
    ensures u in h.units && u in h.mem && !LiveUnit(h.live, u)
  {
    hide FreeList, LiveUnit;
    assert FreeUnit(h.bs, u);
    if LiveUnit(h.live, u) {
      LiveIsNotFree(h.bs, h.live, h.units, u);
    }
  }

  lemma LiveIsNotFree(bs: seq<Block>, live: map<nat, nat>, units: set<nat>, u: nat)
    requires Tiled(bs, live, units) && LiveUnit(live, u)
    ensures !FreeUnit(bs, u)
  {
    var b :| b in live && Inside(Block(b, live[b]), u);
    LiveNotFree(bs, live, units, b, u);
  }

  lemma TakenList(h: HeapState, i: nat, n: nat)
    requires h.freep != 0 && FreeList(h.mem, h.bs) && 1 <= i < |h.bs| && 0 < n <= h.bs[i].size
    requires h.bs[i].addr in h.mem && h.bs[i - 1].addr in h.mem && TakenAddr(h.bs, i, n) in h.mem
    ensures FreeList(TakenState(h, i, n).mem, TakenBlocks(h.bs, i, n))
  {
    hide FreeList, Seg, Gapped;
    if n == h.bs[i].size {
      TakeWhole(h.mem, h.bs, i);
    } else {
      TakeTail(h.mem, h.bs, i, n, h.mem[TakenAddr(h.bs, i, n)].ptr);
    }
  }

  lemma TakenFree(h: HeapState, i: nat, n: nat)
    requires FreeList(h.mem, h.bs) && i < |h.bs| && 0 < n <= h.bs[i].size
    ensures var r, t := TakenBlocks(h.bs, i, n), Block(TakenAddr(h.bs, i, n), n);
      forall u: nat :: (FreeUnit(h.bs, u) <==> FreeUnit(r, u) || Inside(t, u)) && !(FreeUnit(r, u) && Inside(t, u))
  {
    hide FreeUnit, Seg, Gapped;
    var r, t := TakenBlocks(h.bs, i, n), Block(TakenAddr(h.bs, i, n), n);
    forall u: nat
      ensures (FreeUnit(h.bs, u) <==> FreeUnit(r, u) || Inside(t, u)) && !(FreeUnit(r, u) && Inside(t, u))
    {
      TakenUnits(h.bs, i, n, u);
    }
  }

  lemma TakenUntouched(h: HeapState, i: nat, n: nat)
    requires Ok(h) && h.freep != 0 && 1 <= i < |h.bs| && 0 < n <= h.bs[i].size
    requires h.bs[i].addr in h.mem && h.bs[i - 1].addr in h.mem && TakenAddr(h.bs, i, n) in h.mem
    ensures LiveKept(h.live, h.mem, TakenState(h, i, n).mem)
  {
    hide Ok, FreeList, LiveUnit, FreeUnit, Tiled;
    OkParts(h);
    FreeInUnits(h, i, TakenAddr(h.bs, i, n));
    FreeInUnits(h, i, h.bs[i].addr);
    OnlyBaseEmpty(h.mem, h.bs);
    if h.bs[i - 1].size > 0 {
      FreeInUnits(h, i - 1, h.bs[i - 1].addr);
    }
    LiveInUnits(h.bs, h.live, h.units);
  }

  lemma PredStays(bs: seq<Block>, i: nat, n: nat)
    requires 1 <= i < |bs| && 0 < n <= bs[i].size
    ensures OnList(TakenBlocks(bs, i, n), bs[i - 1].addr)
  {
    assert TakenBlocks(bs, i, n)[i - 1] == bs[i - 1];
  }

  /** No unit of a live block has been stored to. */
  ghost predicate LiveKept(live: map<nat, nat>, mem: Memory, mem': Memory) {
    forall u :: LiveUnit(live, u) ==> u in mem && u in mem' && mem'[u] == mem[u]
  }

  lemma KeptSelf(h: HeapState)
    requires Ok(h)
    ensures LiveKept(h.live, h.mem, h.mem)
  {
    hide FreeList, LiveUnit, Tiled;
    LiveInUnits(h.bs, h.live, h.units);
  }

  lemma LiveFacts(h: HeapState, bp: nat)
    requires Ok(h) && bp in h.live
    ensures h.freep != 0 && FreeList(h.mem, h.bs) && OnList(h.bs, h.freep) && BASE < bp && Without(h.bs, bp)
    ensures bp in h.mem && h.mem[bp].size == h.live[bp]
  {
    hide Seg, Gapped;
    LiveApart(h.bs, h.live, h.units, bp);
    ApartWithout(h.bs, Block(bp, h.live[bp]));
  }

  function FreedState(h: HeapState, k: nat, bp: nat): (g: HeapState)
    requires k < |h.bs| && h.bs[k].addr in h.mem && bp in h.mem && h.mem[h.bs[k].addr].ptr in h.mem
    requires h.bs[k].addr != bp
    requires bp in h.live
  {
    h.(mem := Freed(h.mem, h.bs[k].addr, bp), freep := h.bs[k].addr, bs := Inserted(h.bs, k, Block(bp, h.live[bp])),
       live := h.live - {bp})
  }

  lemma FreedOk(h: HeapState, k: nat, bp: nat)
    requires Ok(h) && bp in h.live && Position(h.bs, k, bp)
    ensures h.bs[k].addr in h.mem && bp in h.mem && h.mem[h.bs[k].addr].ptr in h.mem && h.bs[k].addr != 0
    ensures Ok(FreedState(h, k, bp)) && LiveKept(h.live - {bp}, h.mem, FreedState(h, k, bp).mem)
    ensures var b, g := Block(bp, h.live[bp]), FreedState(h, k, bp);
      Contains(g.bs, b) && forall u: nat :: FreeUnit(g.bs, u) <==> FreeUnit(h.bs, u) || Inside(b, u)
  {
    hide Ok, Seg, Gapped, Sized, FreeUnit, LiveUnit, Inserted, Freed, AllApart, Tiled, Contains, OnList;
    var b := Block(bp, h.live[bp]);
    OkParts(h);
    LiveFacts(h, bp);
    LiveApart(h.bs, h.live, h.units, bp);
    FreedList(h.mem, h.bs, k, b);
    var g := FreedState(h, k, bp);
    InsertedContains(h.bs, k, b);
    InsertedKeepsPred(h.bs, k, b);
    forall u: nat
      ensures FreeUnit(g.bs, u) <==> FreeUnit(h.bs, u) || Inside(b, u)
    {
      FreedUnits(h.bs, k, b, u);
    }
    OnlyBaseEmpty(g.mem, g.bs);
    FreedTiled(h.bs, h.live, h.units, g.bs, bp);
    FreedElsewhere(h.mem, h.bs[k].addr, bp);
    assert LiveKept(g.live, h.mem, g.mem) by {
      OnlyBaseEmpty(h.mem, h.bs);
      LiveUntouched(h.bs, h.live, h.units, k, bp);
      LiveInUnits(g.bs, g.live, h.units);
    }
    OkFrom(h, g);
  }

  lemma OkParts(h: HeapState)
    requires Ok(h)
    ensures Tiled(h.bs, h.live, h.units) && h.mem.Keys == h.units + {BASE} && BASE < h.brk <= LIMIT
    ensures forall u :: u in h.units ==> BASE < u < h.brk
    ensures forall b :: b in h.live ==> b in h.units && h.mem[b].size == h.live[b] && BASE < b
    ensures h.freep != 0 ==> FreeList(h.mem, h.bs) && OnList(h.bs, h.freep)
  {
    hide Seg, Gapped, Tiled;
  }

  lemma FreedElsewhere(mem: Memory, p: nat, bp: nat)
    requires p in mem && bp in mem && mem[p].ptr in mem && p != bp
    ensures Freed(mem, p, bp).Keys == mem.Keys
    ensures forall u :: u in mem && u != p && u != bp ==> Freed(mem, p, bp)[u] == mem[u]
  {
  }

  lemma LiveInUnits(bs: seq<Block>, live: map<nat, nat>, units: set<nat>)
    requires Tiled(bs, live, units)
    ensures forall u :: LiveUnit(live, u) ==> u in units
    ensures forall b :: b in live ==> LiveUnit(live, b)
  {
    hide FreeUnit;
    forall b | b in live
      ensures LiveUnit(live, b)
    {
      assert Inside(Block(b, live[b]), b);
    }
  }

  /** The rest of the invariant carries over when live blocks keep their headers. */
  lemma OkFrom(h: HeapState, g: HeapState)
    requires Ok(h) && g.brk == h.brk && g.units == h.units && g.mem.Keys == h.mem.Keys && g.freep != 0
    requires Tiled(g.bs, g.live, g.units) && FreeList(g.mem, g.bs) && OnList(g.bs, g.freep)
    requires LiveKept(g.live, h.mem, g.mem) && forall b :: b in g.live ==> b in h.live && g.live[b] == h.live[b]
    ensures Ok(g)
  {
    hide Seg, Gapped, Tiled, LiveUnit;
    LiveInUnits(g.bs, g.live, g.units);
  }

  lemma ApartWithout(bs: seq<Block>, b: Block)
    requires bs != [] && bs[0] == Block(BASE, 0) && Sized(bs[1..]) && AllApart(bs, b) && b.size > 0 && BASE < b.addr
    ensures Without(bs, b.addr)
  {
    forall i | 0 <= i < |bs|
      ensures bs[i].addr != b.addr
    {
      assert Apart(b, bs[i]);
      if i > 0 {
        assert bs[i] == bs[1..][i - 1];
      }
    }
  }

  /** Only the list's base can be a block without units. */
  lemma OnlyBaseEmpty(mem: Memory, bs: seq<Block>)
    requires FreeList(mem, bs)
    ensures forall i :: 0 <= i < |bs| ==> bs[i].size > 0 || bs[i].addr <= BASE
  {
    forall i | 0 <= i < |bs|
      ensures bs[i].size > 0 || bs[i].addr <= BASE
    {
      if i > 0 {
        assert bs[i] == bs[1..][i - 1];
      }
    }
  }

  /** The headers free stores to belong to no other live block. */
  lemma LiveUntouched(bs: seq<Block>, live: map<nat, nat>, units: set<nat>, k: nat, bp: nat)
    requires Tiled(bs, live, units) && bp in live && k < |bs| && (bs[k].size > 0 || bs[k].addr <= BASE)
    requires forall u :: u in units ==> BASE < u
    ensures forall u :: u in units && LiveUnit(live - {bp}, u) ==> u != bp && u != bs[k].addr
  {
    forall u | u in units && LiveUnit(live - {bp}, u)
      ensures u != bp && u != bs[k].addr
    {
      var b :| b in live - {bp} && Inside(Block(b, (live - {bp})[b]), u);
      LiveNotFree(bs, live, units, b, u);
      assert Inside(Block(bp, live[bp]), bp);
      if u == bs[k].addr {
        assert Inside(bs[k], u);
      }
    }
  }

  lemma LiveApart(bs: seq<Block>, live: map<nat, nat>, units: set<nat>, b: nat)
    requires Tiled(bs, live, units) && b in live
    ensures live[b] > 0 && AllApart(bs, Block(b, live[b]))
  {
  }

  /** In address order, only the last block points back, to base. */
  lemma NextAddr(bs: seq<Block>, i: nat)
    requires Gapped(bs) && i < |bs| && bs[0].addr == BASE
    ensures Head(bs[i + 1..], BASE) == bs[NextIndex(i, |bs|)].addr
    ensures i + 1 < |bs| ==> bs[i].addr < Head(bs[i + 1..], BASE)
    ensures i + 1 == |bs| ==> Head(bs[i + 1..], BASE) == BASE <= bs[i].addr
  {
    if i + 1 < |bs| {
      GapAt(bs, i);
    } else if i > 0 {
      GappedOrder(bs, 0, i);
    }
  }
}
