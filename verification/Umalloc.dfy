/** The user-level allocator (user/umalloc.c): a circular list of free blocks in address order, linked through
    headers in the blocks themselves. Addresses and sizes are in units of one header, 16 bytes. */
module Umalloc {
  datatype Header = Header(ptr: nat, size: nat)
  datatype Block = Block(addr: nat, size: nat)

  type Memory = map<nat, Header>

  /** The static header `base`, which lies below the heap, and the end of the memory a process can have. */
  const BASE: nat := 1
  const LIMIT: nat := 0x1000_0000
  const HEADER: nat := 16
  const INTMAX: nat := 0x7FFF_FFFF

  // ----- list segments -----

  function Head(bs: seq<Block>, next: nat): nat {
    if bs == [] then next else bs[0].addr
  }

  /** The blocks bs are linked one after another, and the last one points at next. */
  ghost predicate Seg(mem: Memory, bs: seq<Block>, next: nat) {
    bs == [] ||
    (bs[0].addr in mem && mem[bs[0].addr] == Header(Head(bs[1..], next), bs[0].size) && Seg(mem, bs[1..], next))
  }

  lemma {:induction false} SegParts(mem: Memory, a: seq<Block>, b: seq<Block>, next: nat)
    ensures Seg(mem, a + b, next) <==> Seg(mem, a, Head(b, next)) && Seg(mem, b, next)
  {
    if a == [] {
      assert a + b == b;
    } else {
      assert (a + b)[1..] == a[1..] + b;
      assert Head(a[1..] + b, next) == Head(a[1..], Head(b, next));
      SegParts(mem, a[1..], b, next);
    }
  }

  /** What the header of block k holds. */
  lemma {:induction false} SegAt(mem: Memory, bs: seq<Block>, next: nat, k: nat)
    requires Seg(mem, bs, next) && k < |bs|
    ensures bs[k].addr in mem && mem[bs[k].addr] == Header(Head(bs[k + 1..], next), bs[k].size)
  {
    if k > 0 {
      SegAt(mem, bs[1..], next, k - 1);
      assert bs[1..][k - 1 + 1..] == bs[k + 1..];
    }
  }

  ghost predicate Without(bs: seq<Block>, p: nat) {
    forall i :: 0 <= i < |bs| ==> bs[i].addr != p
  }

  /** A store to a header that is not in the segment. */
  lemma {:induction false} SegFrame(mem: Memory, bs: seq<Block>, next: nat, p: nat, h: Header)
    requires Seg(mem, bs, next) && Without(bs, p)
    ensures Seg(mem[p := h], bs, next)
  {
    if bs != [] {
      SegFrame(mem, bs[1..], next, p, h);
    }
  }

  // ----- the free list -----

  /** In address order, starting at the empty block base, with at least one unit between two free blocks. */
  ghost predicate Gapped(bs: seq<Block>) {
    forall i :: 0 <= i < |bs| - 1 ==> bs[i].addr + bs[i].size < bs[i + 1].addr
  }

  ghost predicate Sized(bs: seq<Block>) {
    forall i :: 0 <= i < |bs| ==> bs[i].size > 0
  }

  ghost predicate FreeList(mem: Memory, bs: seq<Block>) {
    bs != [] && bs[0] == Block(BASE, 0) && Gapped(bs) && Sized(bs[1..]) && Seg(mem, bs, BASE)
  }

  lemma GapJoin(a: seq<Block>, b: seq<Block>)
    requires Gapped(a) && Gapped(b)
    requires a != [] && b != [] ==> a[|a| - 1].addr + a[|a| - 1].size < b[0].addr
    ensures Gapped(a + b)
  {
    var r := a + b;
    forall i | 0 <= i < |r| - 1
      ensures r[i].addr + r[i].size < r[i + 1].addr
    {
      if i + 1 < |a| {
        assert r[i] == a[i] && r[i + 1] == a[i + 1];
      } else if i >= |a| {
        assert r[i] == b[i - |a|] && r[i + 1] == b[i - |a| + 1];
      }
    }
  }

  lemma GapCut(bs: seq<Block>, i: nat, j: nat)
    requires Gapped(bs) && i <= j <= |bs|
    ensures Gapped(bs[i..j])
  {
    var r := bs[i..j];
    forall x | 0 <= x < |r| - 1
      ensures r[x].addr + r[x].size < r[x + 1].addr
    {
      assert r[x] == bs[i + x] && r[x + 1] == bs[i + x + 1];
    }
  }

  lemma {:induction false} GappedOrder(bs: seq<Block>, i: nat, j: nat)
    requires Gapped(bs) && i < j < |bs|
    ensures bs[i].addr + bs[i].size < bs[j].addr
    decreases j
  {
    if i + 1 < j {
      GappedOrder(bs, i, j - 1);
    }
  }

  lemma FreeDistinct(bs: seq<Block>)
    requires Gapped(bs)
    ensures forall i, j :: 0 <= i < j < |bs| ==> bs[i].addr != bs[j].addr
  {
    forall i: nat, j: nat | i < j < |bs|
      ensures bs[i].addr != bs[j].addr
    {
      GappedOrder(bs, i, j);
    }
  }

  predicate Inside(b: Block, u: nat) {
    b.addr <= u < b.addr + b.size
  }

  /** Unit u lies in a free block. */
  ghost predicate FreeUnit(bs: seq<Block>, u: nat) {
    exists i :: 0 <= i < |bs| && Inside(bs[i], u)
  }

  /** Unit u lies in a block that has been handed out. */
  ghost predicate LiveUnit(live: map<nat, nat>, u: nat) {
    exists b :: b in live && Inside(Block(b, live[b]), u)
  }

  predicate Apart(a: Block, b: Block) {
    a.addr + a.size <= b.addr || b.addr + b.size <= a.addr
  }

  /** The free blocks and the live blocks tile exactly the units obtained from sbrk. */
  ghost predicate Tiled(bs: seq<Block>, live: map<nat, nat>, units: set<nat>) {
    && (forall b :: b in live ==> live[b] > 0)
    && (forall b, b' :: b in live && b' in live && b != b' ==> Apart(Block(b, live[b]), Block(b', live[b'])))
    && (forall b, i :: b in live && 0 <= i < |bs| ==> Apart(Block(b, live[b]), bs[i]))
    && (forall u: nat :: u in units <==> FreeUnit(bs, u) || LiveUnit(live, u))
  }

  // ----- free -----

  /** bp belongs between block k and the block after it. */
  predicate Position(bs: seq<Block>, k: nat, bp: nat) {
    k < |bs| && bs[k].addr < bp && (k + 1 < |bs| ==> bp < bs[k + 1].addr)
  }

  /** The header stored at bp: joined to the block at q if that follows directly. */
  function JoinUp(mem: Memory, bp: nat, q: nat): (h: Header)
    requires bp in mem && q in mem
  {
    if bp + mem[bp].size == q then Header(mem[q].ptr, mem[bp].size + mem[q].size) else Header(q, mem[bp].size)
  }

  /** The memory after free has linked bp in behind p. */
  function Freed(mem: Memory, p: nat, bp: nat): (mem': Memory)
    requires p in mem && bp in mem && mem[p].ptr in mem && p != bp
  {
    var h := JoinUp(mem, bp, mem[p].ptr);
    mem[bp := h][p := if p + mem[p].size == bp then Header(h.ptr, mem[p].size + h.size) else Header(bp, mem[p].size)]
  }

  /** The part of the list from bp on. */
  function FromFreed(c: seq<Block>, b: Block): (r: seq<Block>)
    ensures r != [] && r[0].addr == b.addr
  {
    if c != [] && b.addr + b.size == c[0].addr then [Block(b.addr, b.size + c[0].size)] + c[1..] else [b] + c
  }

  /** The free list with block b inserted behind block k. */
  function Inserted(bs: seq<Block>, k: nat, b: Block): (r: seq<Block>)
    requires k < |bs|
  {
    var t := FromFreed(bs[k + 1..], b);
    if bs[k].addr + bs[k].size == b.addr then bs[..k] + [Block(bs[k].addr, bs[k].size + t[0].size)] + t[1..]
    else bs[..k] + [bs[k]] + t
  }

  ghost predicate AllApart(bs: seq<Block>, b: Block) {
    forall i :: 0 <= i < |bs| ==> Apart(b, bs[i])
  }

  lemma FromFreedLinked(mem: Memory, c: seq<Block>, b: Block, q: nat)
    requires Seg(mem, c, BASE) && q == Head(c, BASE) && q in mem && b.addr in mem && mem[b.addr].size == b.size
    requires b.addr + b.size != BASE && Without(c, b.addr)
    ensures Seg(mem[b.addr := JoinUp(mem, b.addr, q)], FromFreed(c, b), BASE)
  {
    var h := JoinUp(mem, b.addr, q);
    SegFrame(mem, c, BASE, b.addr, h);
    if c != [] && b.addr + b.size == c[0].addr {
      assert FromFreed(c, b)[1..] == c[1..];
    } else {
      assert FromFreed(c, b)[1..] == c;
    }
  }

  lemma FreedLinked(mem: Memory, bs: seq<Block>, k: nat, b: Block)
    requires FreeList(mem, bs) && Position(bs, k, b.addr) && AllApart(bs, b) && b.size > 0
    requires b.addr in mem && mem[b.addr].size == b.size
    ensures bs[k].addr in mem && mem[bs[k].addr].ptr in mem && mem[bs[k].addr].size == bs[k].size
    ensures Seg(Freed(mem, bs[k].addr, b.addr), Inserted(bs, k, b), BASE)
  {
    hide Seg, Gapped, FromFreed, AllApart;
    var a, p, c := bs[..k], bs[k], bs[k + 1..];
    assert Seg(mem, a, p.addr) && Seg(mem, c, BASE) by {
      assert bs == a + ([p] + c) && Head([p] + c, BASE) == p.addr;
      SegParts(mem, a, [p] + c, BASE);
      SegParts(mem, [p], c, BASE);
    }
    SegAt(mem, bs, BASE, k);
    SegAt(mem, bs, BASE, 0);
    if c != [] {
      SegAt(mem, bs, BASE, k + 1);
    }
    var q := Head(c, BASE);
    SidesDistinct(bs, k, b.addr);
    FromFreedLinked(mem, c, b, q);
    var h := JoinUp(mem, b.addr, q);
    SegFrame(mem, a, p.addr, b.addr, h);
    FromFreedAddrs(c, b, p.addr);
    LinkBehind(mem[b.addr := h], a, p, FromFreed(c, b), Freed(mem, p.addr, b.addr), b.addr);
  }

  lemma FromFreedAddrs(c: seq<Block>, b: Block, p: nat)
    requires Without(c, p) && b.addr != p
    ensures Without(FromFreed(c, b), p)
  {
  }

  /** The addresses before block k, behind it, at it, and bp are all different. */
  lemma SidesDistinct(bs: seq<Block>, k: nat, bp: nat)
    requires Gapped(bs) && Position(bs, k, bp)
    ensures Without(bs[..k], bs[k].addr) && Without(bs[..k], bp)
    ensures Without(bs[k + 1..], bs[k].addr) && Without(bs[k + 1..], bp)
  {
    forall i: nat | i < k
      ensures bs[i].addr < bs[k].addr
    {
      GappedOrder(bs, i, k);
    }
    var c := bs[k + 1..];
    forall i | 0 <= i < |c|
      ensures c[i].addr > bp
    {
      if i > 0 {
        GappedOrder(bs, k + 1, k + 1 + i);
      }
    }
  }

  /** Storing the header of p, with or without joining it to the freed block that starts t. */
  lemma LinkBehind(mem: Memory, a: seq<Block>, p: Block, t: seq<Block>, mem': Memory, bp: nat)
    requires Seg(mem, a, p.addr) && Seg(mem, t, BASE) && t != [] && t[0].addr == bp && p.addr in mem && bp in mem
    requires Without(a, p.addr) && Without(t, p.addr)
    requires mem' == mem[p.addr := if p.addr + p.size == bp then Header(mem[bp].ptr, p.size + mem[bp].size)
                                   else Header(bp, p.size)]
    ensures Seg(mem', if p.addr + p.size == bp then a + [Block(p.addr, p.size + t[0].size)] + t[1..]
      else a + [p] + t, BASE)
  {
    SegFrame(mem, a, p.addr, p.addr, mem'[p.addr]);
    SegFrame(mem, t, BASE, p.addr, mem'[p.addr]);
    SegAt(mem, t, BASE, 0);
    var m, r := if p.addr + p.size == bp then Block(p.addr, p.size + t[0].size) else p,
               if p.addr + p.size == bp then t[1..] else t;
    assert a + [m] + r == a + ([m] + r);
    assert ([m] + r)[1..] == r;
    SegParts(mem', a, [m] + r, BASE);
  }

  lemma FromFreedGapped(c: seq<Block>, b: Block)
    requires Gapped(c) && (c != [] ==> b.addr + b.size <= c[0].addr)
    ensures Gapped(FromFreed(c, b)) && (c == [] || b.addr + b.size < c[0].addr ==> FromFreed(c, b)[0] == b)
  {
    hide Gapped;
    if c != [] && b.addr + b.size == c[0].addr {
      GapCut(c, 1, |c|);
      assert c[1..|c|] == c[1..];
      if |c| > 1 {
        GapAt(c, 0);
      }
      SingleGapped(Block(b.addr, b.size + c[0].size));
      GapJoin([Block(b.addr, b.size + c[0].size)], c[1..]);
    } else {
      SingleGapped(b);
      GapJoin([b], c);
    }
  }

  lemma GapAt(bs: seq<Block>, i: nat)
    requires Gapped(bs) && i + 1 < |bs|
    ensures bs[i].addr + bs[i].size < bs[i + 1].addr
  {
  }

  lemma SingleGapped(b: Block)
    ensures Gapped([b])
  {
  }

  /** Inserting keeps a gap between any two free blocks: free blocks are maximal runs of free units. */
  lemma FreedGapped(bs: seq<Block>, k: nat, b: Block)
    requires Gapped(bs) && Position(bs, k, b.addr) && AllApart(bs, b) && b.size > 0
    ensures Gapped(Inserted(bs, k, b))
  {
    hide Gapped, AllApart;
    var a, p, c := bs[..k], bs[k], bs[k + 1..];
    var t := FromFreed(c, b);
    assert p.addr + p.size <= b.addr && (c != [] ==> b.addr + b.size <= c[0].addr) by {
      NextApart(bs, k, b);
    }
    GapCut(bs, 0, k);
    GapCut(bs, k + 1, |bs|);
    assert bs[0..k] == a && bs[k + 1..|bs|] == c;
    FromFreedGapped(c, b);
    if k > 0 {
      GapAt(bs, k - 1);
    }
    var low := p.addr + p.size == b.addr;
    var m, r := if low then Block(p.addr, p.size + t[0].size) else p, if low then t[1..] else t;
    SingleGapped(m);
    GapJoin(a, [m]);
    if low {
      GapCut(t, 1, |t|);
      assert t[1..|t|] == t[1..];
      if |t| > 1 {
        GapAt(t, 0);
      }
    }
    GapJoin(a + [m], r);
  }

  lemma NextApart(bs: seq<Block>, k: nat, b: Block)
    requires Position(bs, k, b.addr) && AllApart(bs, b) && b.size > 0
    ensures bs[k].addr + bs[k].size <= b.addr && (k + 1 < |bs| ==> b.addr + b.size <= bs[k + 1].addr)
  {
    assert Apart(b, bs[k]);
    if k + 1 < |bs| {
      assert Apart(b, bs[k + 1]);
    }
  }

  lemma FreedSized(bs: seq<Block>, k: nat, b: Block)
    requires k < |bs| && Sized(bs[1..]) && b.size > 0 && bs[0] == Block(BASE, 0) && BASE < b.addr
    ensures Inserted(bs, k, b) != [] && Inserted(bs, k, b)[0] == Block(BASE, 0) && Sized(Inserted(bs, k, b)[1..])
  {
    var c := bs[k + 1..];
    var t := FromFreed(c, b);
    assert Sized(c) by {
      forall i | 0 <= i < |c|
        ensures c[i].size > 0
      {
        assert c[i] == bs[1..][k + i];
      }
    }
    assert Sized(t);
    forall i | 0 <= i < |bs|
      ensures i > 0 ==> bs[i].size > 0
    {
      if i > 0 {
        assert bs[i] == bs[1..][i - 1];
      }
    }
  }

  // ----- which units are free -----

  lemma FreeJoin(a: seq<Block>, b: seq<Block>, u: nat)
    ensures FreeUnit(a + b, u) <==> FreeUnit(a, u) || FreeUnit(b, u)
  {
    if FreeUnit(a, u) {
      var i :| 0 <= i < |a| && Inside(a[i], u);
      assert (a + b)[i] == a[i];
    }
    if FreeUnit(b, u) {
      var i :| 0 <= i < |b| && Inside(b[i], u);
      assert (a + b)[|a| + i] == b[i];
    }
    if FreeUnit(a + b, u) {
      var i :| 0 <= i < |a + b| && Inside((a + b)[i], u);
      if i < |a| {
        assert Inside(a[i], u);
      } else {
        assert Inside(b[i - |a|], u);
      }
    }
  }

  lemma FreeSingle(b: Block, u: nat)
    ensures FreeUnit([b], u) <==> Inside(b, u)
  {
    if Inside(b, u) {
      assert Inside([b][0], u);
    }
  }

  lemma FromFreedUnits(c: seq<Block>, b: Block, u: nat)
    requires b.size > 0
    ensures FreeUnit(FromFreed(c, b), u) <==> FreeUnit(c, u) || Inside(b, u)
  {
    hide FreeUnit;
    if c != [] && b.addr + b.size == c[0].addr {
      assert c == [c[0]] + c[1..];
      FreeJoin([c[0]], c[1..], u);
      FreeSingle(c[0], u);
      var m := Block(b.addr, b.size + c[0].size);
      FreeJoin([m], c[1..], u);
      FreeSingle(m, u);
    } else {
      FreeJoin([b], c, u);
      FreeSingle(b, u);
    }
  }

  /** After free, the free units are those that were free and those of the freed block. */
  lemma FreedUnits(bs: seq<Block>, k: nat, b: Block, u: nat)
    requires k < |bs| && b.size > 0
    ensures FreeUnit(Inserted(bs, k, b), u) <==> FreeUnit(bs, u) || Inside(b, u)
  {
    hide FreeUnit;
    var a, p, c := bs[..k], bs[k], bs[k + 1..];
    var t := FromFreed(c, b);
    assert bs == a + [p] + c;
    FreeJoin(a + [p], c, u);
    FreeJoin(a, [p], u);
    FreeSingle(p, u);
    FromFreedUnits(c, b, u);
    if p.addr + p.size == b.addr {
      assert t == [t[0]] + t[1..];
      FreeJoin([t[0]], t[1..], u);
      FreeSingle(t[0], u);
      var m := Block(p.addr, p.size + t[0].size);
      FreeJoin(a + [m], t[1..], u);
      FreeJoin(a, [m], u);
      FreeSingle(m, u);
    } else {
      FreeJoin(a + [p], t, u);
    }
  }

  // ----- taking a block -----

  /** Unlink block i, whose predecessor then points at its successor. */
  lemma TakeWhole(mem: Memory, bs: seq<Block>, i: nat)
    requires FreeList(mem, bs) && 1 <= i < |bs|
    ensures bs[i - 1].addr in mem && bs[i].addr in mem
    ensures var mem' := mem[bs[i - 1].addr := Header(mem[bs[i].addr].ptr, mem[bs[i - 1].addr].size)];
      FreeList(mem', bs[..i] + bs[i + 1..])
  {
    hide Seg, Gapped;
    var a, p, x, c := bs[..i - 1], bs[i - 1], bs[i], bs[i + 1..];
    assert bs == a + ([p] + ([x] + c));
    SegParts(mem, a, [p] + ([x] + c), BASE);
    SegParts(mem, [p], [x] + c, BASE);
    SegParts(mem, [x], c, BASE);
    SegAt(mem, bs, BASE, i - 1);
    SegAt(mem, bs, BASE, i);
    var h := Header(mem[x.addr].ptr, mem[p.addr].size);
    PairDistinct(bs, i);
    SegFrame(mem, a, p.addr, p.addr, h);
    SegFrame(mem, c, BASE, p.addr, h);
    var mem' := mem[p.addr := h];
    assert Seg(mem', [p] + c, BASE) by {
      OneSeg(mem', p, c);
    }
    assert bs[..i] + c == a + ([p] + c);
    SegParts(mem', a, [p] + c, BASE);
    TakenGapped(bs, i);
    TakenSized(bs, i);
  }

  lemma TakenSized(bs: seq<Block>, i: nat)
    requires 1 <= i < |bs| && Sized(bs[1..])
    ensures Sized((bs[..i] + bs[i + 1..])[1..])
  {
    var r := (bs[..i] + bs[i + 1..])[1..];
    forall k | 0 <= k < |r|
      ensures r[k].size > 0
    {
      assert r[k] == if k < i - 1 then bs[1..][k] else bs[1..][k + 1];
    }
  }

  lemma OneSeg(mem: Memory, p: Block, c: seq<Block>)
    requires Seg(mem, c, BASE) && p.addr in mem && mem[p.addr] == Header(Head(c, BASE), p.size)
    ensures Seg(mem, [p] + c, BASE)
  {
    assert ([p] + c)[1..] == c;
  }

  lemma PairDistinct(bs: seq<Block>, i: nat)
    requires Gapped(bs) && 1 <= i < |bs|
    ensures Without(bs[..i - 1], bs[i - 1].addr) && Without(bs[i + 1..], bs[i - 1].addr)
  {
    forall k: nat | k < i - 1
      ensures bs[k].addr != bs[i - 1].addr
    {
      GappedOrder(bs, k, i - 1);
    }
    var c := bs[i + 1..];
    forall k | 0 <= k < |c|
      ensures c[k].addr != bs[i - 1].addr
    {
      GappedOrder(bs, i - 1, i + 1 + k);
    }
  }

  lemma TakenGapped(bs: seq<Block>, i: nat)
    requires Gapped(bs) && 1 <= i < |bs|
    ensures Gapped(bs[..i] + bs[i + 1..])
  {
    hide Gapped;
    GapCut(bs, 0, i);
    GapCut(bs, i + 1, |bs|);
    assert bs[0..i] == bs[..i] && bs[i + 1..|bs|] == bs[i + 1..];
    if i + 1 < |bs| {
      GappedOrder(bs, i - 1, i + 1);
    }
    GapJoin(bs[..i], bs[i + 1..]);
  }

  /** Cut n units off the end of block i. */
  lemma TakeTail(mem: Memory, bs: seq<Block>, i: nat, n: nat, stale: nat)
    requires FreeList(mem, bs) && 1 <= i < |bs| && 0 < n < bs[i].size
    ensures bs[i].addr in mem
    ensures var b := Block(bs[i].addr, bs[i].size - n);
      var mem' := mem[bs[i].addr := Header(mem[bs[i].addr].ptr, b.size)][b.addr + b.size := Header(stale, n)];
      FreeList(mem', bs[i := b])
  {
    hide Seg, Gapped;
    var a, x, c := bs[..i], bs[i], bs[i + 1..];
    var b := Block(x.addr, x.size - n);
    assert bs == a + ([x] + c) && bs[i := b] == a + ([b] + c);
    SegParts(mem, a, [x] + c, BASE);
    SegParts(mem, [x], c, BASE);
    SegAt(mem, bs, BASE, i);
    var h := Header(mem[x.addr].ptr, b.size);
    var tail := b.addr + b.size;
    TailApart(bs, i, n);
    SegFrame(mem, a, x.addr, x.addr, h);
    SegFrame(mem, c, BASE, x.addr, h);
    SegFrame(mem[x.addr := h], a, x.addr, tail, Header(stale, n));
    SegFrame(mem[x.addr := h], c, BASE, tail, Header(stale, n));
    var mem' := mem[x.addr := h][tail := Header(stale, n)];
    OneSeg(mem', b, c);
    SegParts(mem', a, [b] + c, BASE);
    CutGapped(bs, i, b);
    assert forall k :: 0 <= k < |bs| - 1 ==> bs[i := b][1..][k] == if k == i - 1 then b else bs[1..][k];
  }

  lemma TailApart(bs: seq<Block>, i: nat, n: nat)
    requires Gapped(bs) && 1 <= i < |bs| && 0 < n < bs[i].size
    ensures Without(bs[..i], bs[i].addr) && Without(bs[i + 1..], bs[i].addr)
    ensures Without(bs[..i], bs[i].addr + bs[i].size - n) && Without(bs[i + 1..], bs[i].addr + bs[i].size - n)
  {
    forall k: nat | k < i
      ensures bs[k].addr < bs[i].addr
    {
      GappedOrder(bs, k, i);
    }
    var c := bs[i + 1..];
    forall k | 0 <= k < |c|
      ensures c[k].addr > bs[i].addr + bs[i].size
    {
      GappedOrder(bs, i, i + 1 + k);
    }
  }

  lemma CutGapped(bs: seq<Block>, i: nat, b: Block)
    requires Gapped(bs) && i < |bs| && b.addr == bs[i].addr && b.size <= bs[i].size
    ensures Gapped(bs[i := b])
  {
    var r := bs[i := b];
    forall k | 0 <= k < |r| - 1
      ensures r[k].addr + r[k].size < r[k + 1].addr
    {
      GapAt(bs, k);
    }
  }

  /** Units free after block i, or its last n units, have been taken. */
  lemma TakenUnits(bs: seq<Block>, i: nat, n: nat, u: nat)
    requires Gapped(bs) && i < |bs| && 0 < n <= bs[i].size
    ensures var t := Block(bs[i].addr + bs[i].size - n, n);
      var r := if n == bs[i].size then bs[..i] + bs[i + 1..] else bs[i := Block(bs[i].addr, bs[i].size - n)];
      (FreeUnit(bs, u) <==> FreeUnit(r, u) || Inside(t, u)) && !(FreeUnit(r, u) && Inside(t, u))
  {
    hide FreeUnit, Gapped;
    var a, x, c := bs[..i], bs[i], bs[i + 1..];
    assert bs == a + [x] + c;
    FreeJoin(a + [x], c, u);
    FreeJoin(a, [x], u);
    FreeSingle(x, u);
    if FreeUnit(a, u) || FreeUnit(c, u) {
      OnlyIn(bs, i, u);
    }
    if n == x.size {
      FreeJoin(a, c, u);
    } else {
      var b := Block(x.addr, x.size - n);
      assert bs[i := b] == a + [b] + c;
      FreeJoin(a + [b], c, u);
      FreeJoin(a, [b], u);
      FreeSingle(b, u);
    }
  }

  lemma OnlyIn(bs: seq<Block>, i: nat, u: nat)
    requires Gapped(bs) && i < |bs| && (FreeUnit(bs[..i], u) || FreeUnit(bs[i + 1..], u))
    ensures !Inside(bs[i], u)
  {
    if FreeUnit(bs[..i], u) {
      var k :| 0 <= k < i && Inside(bs[..i][k], u);
      GappedOrder(bs, k, i);
    } else {
      var c := bs[i + 1..];
      var k :| 0 <= k < |c| && Inside(c[k], u);
      GappedOrder(bs, i, i + 1 + k);
    }
  }

  // ----- searching the ring -----

  ghost predicate OnList(bs: seq<Block>, p: nat) {
    exists i :: 0 <= i < |bs| && bs[i].addr == p
  }

  /** Every block above base has its place in the list. */
  lemma {:induction false} FindPosition(bs: seq<Block>, bp: nat, n: nat) returns (k: nat)
    requires 0 < n <= |bs| && bs[0].addr < bp && Without(bs, bp)
    requires n < |bs| ==> bp < bs[n].addr
    ensures Position(bs, k, bp)
    decreases n
  {
    if bs[n - 1].addr < bp {
      k := n - 1;
    } else {
      k := FindPosition(bs, bp, n - 1);
    }
  }

  /** One free block contains all of b. */
  ghost predicate Contains(bs: seq<Block>, b: Block) {
    exists j :: 0 <= j < |bs| && bs[j].addr <= b.addr && b.addr + b.size <= bs[j].addr + bs[j].size
  }

  lemma InsertedContains(bs: seq<Block>, k: nat, b: Block)
    requires k < |bs|
    ensures Contains(Inserted(bs, k, b), b)
  {
    var r := Inserted(bs, k, b);
    if bs[k].addr + bs[k].size == b.addr {
      assert r[k].addr == bs[k].addr && r[k].addr + r[k].size >= b.addr + b.size;
    } else {
      assert r[k + 1].addr == b.addr && r[k + 1].size >= b.size;
    }
  }

  lemma InsertedKeepsPred(bs: seq<Block>, k: nat, b: Block)
    requires k < |bs|
    ensures OnList(Inserted(bs, k, b), bs[k].addr)
  {
    assert Inserted(bs, k, b)[k].addr == bs[k].addr;
  }

  /** The whole effect of free on the list. */
  lemma FreedList(mem: Memory, bs: seq<Block>, k: nat, b: Block)
    requires FreeList(mem, bs) && Position(bs, k, b.addr) && AllApart(bs, b) && b.size > 0
    requires b.addr in mem && mem[b.addr].size == b.size
    ensures bs[k].addr in mem && mem[bs[k].addr].ptr in mem && mem[bs[k].addr].size == bs[k].size
    ensures FreeList(Freed(mem, bs[k].addr, b.addr), Inserted(bs, k, b))
  {
    hide Seg, Gapped, Sized, Inserted, Freed;
    FreedLinked(mem, bs, k, b);
    FreedGapped(bs, k, b);
    assert BASE < b.addr by {
      if k > 0 {
        GappedOrder(bs, 0, k);
      }
    }
    FreedSized(bs, k, b);
  }

  // ----- tiling -----

  lemma FreedTiled(bs: seq<Block>, live: map<nat, nat>, units: set<nat>, bs': seq<Block>, bp: nat)
    requires Tiled(bs, live, units) && bp in live
    requires forall u: nat :: FreeUnit(bs', u) <==> FreeUnit(bs, u) || Inside(Block(bp, live[bp]), u)
    requires forall i :: 0 <= i < |bs'| ==> bs'[i].size > 0 || bs'[i].addr <= BASE
    requires forall b :: b in live ==> BASE < b
    ensures Tiled(bs', live - {bp}, units)
  {
    hide FreeUnit, LiveUnit;
    var live' := live - {bp};
    forall b, i | b in live' && 0 <= i < |bs'|
      ensures Apart(Block(b, live'[b]), bs'[i])
    {
      if !Apart(Block(b, live[b]), bs'[i]) {
        Overlap(bs, live, units, bs', bp, b, i);
      }
    }
    forall u: nat
      ensures u in units <==> FreeUnit(bs', u) || LiveUnit(live', u)
    {
      LiveWithout(live, bp, u);
    }
  }

  lemma LiveWithout(live: map<nat, nat>, bp: nat, u: nat)
    requires bp in live
    ensures LiveUnit(live, u) <==> LiveUnit(live - {bp}, u) || Inside(Block(bp, live[bp]), u)
  {
    var live' := live - {bp};
    if LiveUnit(live, u) {
      var b :| b in live && Inside(Block(b, live[b]), u);
      if b != bp {
        assert b in live' && live'[b] == live[b];
      }
    }
    if LiveUnit(live', u) {
      var b :| b in live' && Inside(Block(b, live'[b]), u);
      assert b in live && live[b] == live'[b];
    }
  }

  lemma LiveNotFree(bs: seq<Block>, live: map<nat, nat>, units: set<nat>, b: nat, u: nat)
    requires Tiled(bs, live, units) && b in live && Inside(Block(b, live[b]), u)
    ensures !FreeUnit(bs, u) && forall b' :: b' in live && Inside(Block(b', live[b']), u) ==> b' == b
  {
    forall i | 0 <= i < |bs|
      ensures !Inside(bs[i], u)
    {
      assert Apart(Block(b, live[b]), bs[i]);
    }
    forall b' | b' in live && b' != b
      ensures !Inside(Block(b', live[b']), u)
    {
      assert Apart(Block(b, live[b]), Block(b', live[b']));
    }
  }

  /** A free block cannot meet a live one: a shared unit would have been free or freed. */
  lemma Overlap(bs: seq<Block>, live: map<nat, nat>, units: set<nat>, bs': seq<Block>, bp: nat, b: nat, i: nat)
    requires Tiled(bs, live, units) && bp in live && b in live && b != bp && i < |bs'|
    requires forall u: nat :: FreeUnit(bs', u) <==> FreeUnit(bs, u) || Inside(Block(bp, live[bp]), u)
    requires bs'[i].size > 0 || bs'[i].addr <= BASE
    requires BASE < b
    ensures Apart(Block(b, live[b]), bs'[i])
  {
    if !Apart(Block(b, live[b]), bs'[i]) {
      var u := if b < bs'[i].addr then bs'[i].addr else b;
      assert Inside(bs'[i], u) && Inside(Block(b, live[b]), u);
      LiveNotFree(bs, live, units, b, u);
    }
  }

  /** Handing out t, which was free, keeps the tiling. */
  lemma TakenTiled(bs: seq<Block>, live: map<nat, nat>, units: set<nat>, bs': seq<Block>, t: Block)
    requires Tiled(bs, live, units) && t.size > 0
    requires forall u: nat ::
      (FreeUnit(bs, u) <==> FreeUnit(bs', u) || Inside(t, u)) && !(FreeUnit(bs', u) && Inside(t, u))
    requires forall i :: 0 <= i < |bs'| ==> bs'[i].size > 0 || bs'[i].addr < t.addr
    requires forall b, i :: b in live && 0 <= i < |bs'| && bs'[i].size == 0 ==> bs'[i].addr < b
    ensures t.addr !in live && Tiled(bs', live[t.addr := t.size], units)
  {
    hide FreeUnit, LiveUnit;
    assert Inside(t, t.addr);
    assert t.addr !in live by {
      if t.addr in live {
        LiveNotFree(bs, live, units, t.addr, t.addr);
      }
    }
    var live' := live[t.addr := t.size];
    forall b | b in live
      ensures Apart(Block(b, live[b]), t)
    {
      TakenApart(bs, live, units, t, b);
    }
    forall b, i | b in live' && 0 <= i < |bs'|
      ensures Apart(Block(b, live'[b]), bs'[i])
    {
      FreeApart(bs, live, units, bs', t, b, i);
    }
    forall u: nat
      ensures u in units <==> FreeUnit(bs', u) || LiveUnit(live', u)
    {
      assert live == live' - {t.addr};
      LiveWithout(live', t.addr, u);
    }
  }

  lemma TakenApart(bs: seq<Block>, live: map<nat, nat>, units: set<nat>, t: Block, b: nat)
    requires Tiled(bs, live, units) && t.size > 0 && b in live
    requires forall u: nat :: Inside(t, u) ==> FreeUnit(bs, u)
    ensures Apart(Block(b, live[b]), t)
  {
    hide FreeUnit;
    if !Apart(Block(b, live[b]), t) {
      var u := if b < t.addr then t.addr else b;
      assert Inside(t, u);
      LiveNotFree(bs, live, units, b, u);
    }
  }

  lemma FreeApart(bs: seq<Block>, live: map<nat, nat>, units: set<nat>, bs': seq<Block>, t: Block, b: nat, i: nat)
    requires Tiled(bs, live, units) && t.size > 0 && i < |bs'| && (b in live || b == t.addr) && t.addr !in live
    requires forall u: nat ::
      (FreeUnit(bs, u) <==> FreeUnit(bs', u) || Inside(t, u)) && !(FreeUnit(bs', u) && Inside(t, u))
    requires bs'[i].size > 0 || (bs'[i].addr < t.addr && (b in live ==> bs'[i].addr < b))
    ensures Apart(Block(b, if b in live then live[b] else t.size), bs'[i])
  {
    var x := Block(b, if b in live then live[b] else t.size);
    if !Apart(x, bs'[i]) {
      var u := if b < bs'[i].addr then bs'[i].addr else b;
      assert Inside(bs'[i], u) && Inside(x, u);
      if b in live {
        LiveNotFree(bs, live, units, b, u);
      }
    }
  }

  /** Free blocks are maximal: the units just before and just behind one are not free. */
  lemma MaximalRun(mem: Memory, bs: seq<Block>, i: nat)
    requires FreeList(mem, bs) && 1 <= i < |bs|
    ensures bs[i].size > 0 && bs[i].addr > 0 && !FreeUnit(bs, bs[i].addr - 1) && !FreeUnit(bs, bs[i].addr + bs[i].size)
  {
    hide Seg, Gapped;
    assert bs[i] == bs[1..][i - 1];
    GappedOrder(bs, 0, i);
    forall j: nat | j < |bs|
      ensures !Inside(bs[j], bs[i].addr - 1) && !Inside(bs[j], bs[i].addr + bs[i].size)
    {
      if j < i {
        GappedOrder(bs, j, i);
      } else if i < j {
        GappedOrder(bs, i, j);
      }
    }
  }
}
