/** The code of kernel/bio.c: buffers on a circular doubly linked list whose links are changed in place.
    The methods are proved to do to the list and the counts what module BufferCache reasons about. */
module BioCode {
  import opened Blocks
  import opened BufferCache
  import opened Values

  /** The list head lives beside the NBUF buffers. */
  const HEAD: nat := NBUF

  /** The k-th node of the ring; the head stands before the first and after the last. */
  function At(order: seq<nat>, k: int): (b: nat)
    requires -1 <= k <= |order|
  {
    if k == -1 || k == |order| then HEAD else order[k]
  }

  ghost predicate Nodes(order: seq<nat>) {
    && (forall k :: 0 <= k < |order| ==> order[k] < NBUF)
    && (forall j, k :: 0 <= j < k < |order| ==> order[j] != order[k])
  }

  /** Following next from the head visits `order` and returns to the head; prev goes the other way. */
  ghost predicate Linked(next: seq<nat>, prev: seq<nat>, order: seq<nat>) {
    && |next| == |prev| == NBUF + 1
    && Nodes(order)
    && forall k :: -1 <= k < |order| ==>
      next[At(order, k)] == At(order, k + 1) && prev[At(order, k + 1)] == At(order, k)
  }

  lemma InsertFront(next: seq<nat>, prev: seq<nat>, order: seq<nat>, b: nat)
    requires Linked(next, prev, order) && b < NBUF && b !in order
    ensures next[HEAD] <= NBUF
    ensures Linked(next[b := next[HEAD]][HEAD := b], prev[b := HEAD][next[HEAD] := b], [b] + order)
  {
    assert next[At(order, -1)] == At(order, 0);
    var n, p, r := next[b := next[HEAD]][HEAD := b], prev[b := HEAD][next[HEAD] := b], [b] + order;
    forall k | -1 <= k < |r|
      ensures n[At(r, k)] == At(r, k + 1) && p[At(r, k + 1)] == At(r, k)
    {
      if k >= 0 {
        assert At(r, k + 1) == At(order, k);
        assert next[At(order, k - 1)] == At(order, k) && prev[At(order, k)] == At(order, k - 1);
      }
    }
  }

  lemma Unlink(next: seq<nat>, prev: seq<nat>, order: seq<nat>, p: nat)
    requires Linked(next, prev, order) && p < |order|
    ensures next[order[p]] <= NBUF && prev[order[p]] <= NBUF
    ensures var b := order[p];
            Linked(next[prev[b] := next[b]], prev[next[b] := prev[b]], order[..p] + order[p + 1..])
  {
    var b := order[p];
    assert At(order, p) == b;
    assert next[At(order, p)] == At(order, p + 1) && prev[At(order, p)] == At(order, p - 1) by {
      assert prev[At(order, p - 1 + 1)] == At(order, p - 1);
    }
    var n, q, r := next[prev[b] := next[b]], prev[next[b] := prev[b]], order[..p] + order[p + 1..];
    forall k | -1 <= k < |r|
      ensures n[At(r, k)] == At(r, k + 1) && q[At(r, k + 1)] == At(r, k)
    {
      if k < p - 1 {
        assert At(r, k) == At(order, k) && At(r, k + 1) == At(order, k + 1);
      } else if k == p - 1 {
        assert At(r, k) == At(order, p - 1) && At(r, k + 1) == At(order, p + 1);
      } else {
        assert At(r, k) == At(order, k + 1) && At(r, k + 1) == At(order, k + 2);
        assert next[At(order, k + 1)] == At(order, k + 2) && prev[At(order, k + 2)] == At(order, k + 1);
      }
    }
  }

  /** Every buffer that was released before the one at place p of the list is in use. */
  ghost predicate UsedBehind(bufs: seq<Buf>, order: seq<nat>, p: nat)
    requires |bufs| == NBUF && Permutation(order)
  {
    forall j :: p < j < NBUF ==> bufs[order[j]].refcnt > 0
  }

  lemma ToFrontIs(order: seq<nat>, i: nat)
    requires Permutation(order) && i < NBUF
    ensures ToFront(order, i) == [i] + (order[..Pos(order, i)] + order[Pos(order, i) + 1..])
  {
  }

  class Bcache {
    const buf: array<Buf>
    const next: array<nat>
    const prev: array<nat>
    ghost var order: seq<nat>

    ghost predicate Valid()
      reads this, buf, next, prev
    {
      && buf.Length == NBUF && next != prev
      && Permutation(order)
      && next.Length == prev.Length == NBUF + 1
      && Linked(next[..], prev[..], order)
    }

    ghost function Contents(): (c: Cache)
      reads this, buf, next, prev
      requires Valid()
      ensures Shaped(c)
    {
      Cache(buf[..], order)
    }

    /** binit: an empty ring, then each buffer in turn linked in behind the head. */
    constructor ()
      ensures Valid() && fresh(buf) && fresh(next) && fresh(prev)
      ensures order == seq(NBUF, k requires 0 <= k < NBUF => NBUF - 1 - k)
      ensures forall i :: 0 <= i < NBUF ==> buf[i] == Buf(Key(0, 0), false, 0, ZeroBlock())
    {
      buf := new Buf[NBUF](_ => Buf(Key(0, 0), false, 0, ZeroBlock()));
      next := new nat[NBUF + 1](_ => 0);
      prev := new nat[NBUF + 1](_ => 0);
      order := [];
      new;
      prev[HEAD] := HEAD;
      next[HEAD] := HEAD;
      var b := 0;
      while b < NBUF
        invariant 0 <= b <= NBUF && next != prev && next.Length == prev.Length == NBUF + 1
        invariant |order| == b && forall k :: 0 <= k < b ==> order[k] == b - 1 - k
        invariant Linked(next[..], prev[..], order)
        invariant forall i :: 0 <= i < NBUF ==> buf[i] == Buf(Key(0, 0), false, 0, ZeroBlock())
      {
        InsertFront(next[..], prev[..], order, b);
        Link(b);
        order := [b] + order;
        b := b + 1;
      }
      forall i: nat | i < NBUF
        ensures Listed(order, i)
      {
        assert order[NBUF - 1 - i] == i;
      }
    }

    /** The four assignments, shared by binit and brelse, that put b right behind the head. */
    method Link(b: nat)
      requires next != prev && next.Length == prev.Length == NBUF + 1 && b < NBUF && next[HEAD] <= NBUF
      modifies next, prev
      ensures next[..] == old(next[..])[b := old(next[HEAD])][HEAD := b]
      ensures prev[..] == old(prev[..])[b := HEAD][old(next[HEAD]) := b]
    {
      next[b] := next[HEAD];
      prev[b] := HEAD;
      prev[next[HEAD]] := b;
      next[HEAD] := b;
    }

    /** bget's first loop, forward from the head; HEAD if the block is not cached. */
    method FindCached(key: Key) returns (b: nat)
      requires Valid()
      ensures var hit := Lookup(Contents(), key, 0); b == if hit.Some? then hit.value else HEAD
    {
      ghost var c := Contents();
      b := next[HEAD];
      assert next[..][At(order, -1)] == At(order, 0);
      ghost var k := 0;
      while b != HEAD
        invariant 0 <= k <= NBUF && b == At(order, k)
        invariant Lookup(c, key, 0) == Lookup(c, key, k)
        decreases NBUF - k
      {
        if buf[b].key == key { return; }
        assert next[..][At(order, k)] == At(order, k + 1);
        b := next[b];
        k := k + 1;
      }
    }

    /** bget's second loop, backward from the head: the least recently released unused buffer, or HEAD. */
    method FindVictim() returns (b: nat)
      requires Valid()
      ensures var victim := Victim(Contents(), NBUF); b == if victim.Some? then victim.value else HEAD
    {
      ghost var c := Contents();
      b := prev[HEAD];
      assert prev[..][At(order, NBUF - 1 + 1)] == At(order, NBUF - 1);
      ghost var k := NBUF;
      while b != HEAD
        invariant 0 <= k <= NBUF && b == At(order, k - 1)
        invariant Victim(c, NBUF) == Victim(c, k)
        decreases k
      {
        if buf[b].refcnt == 0 { return; }
        assert prev[..][At(order, k - 2 + 1)] == At(order, k - 2);
        b := prev[b];
        k := k - 1;
      }
    }

    /** bget up to the sleep lock; -1 stands for the "no buffers" panic. */
    method Bget(dev: nat, blockno: nat) returns (i: int)
      requires Valid()
      modifies buf
      ensures Valid()
      ensures var chosen := Chosen(old(Contents()), Key(dev, blockno));
              if chosen.None? then i == -1 && Contents() == old(Contents())
              else i == chosen.value && Contents() == Get(old(Contents()), Key(dev, blockno))
      ensures i == -1 <==>
        forall b :: 0 <= b < NBUF ==> old(buf[b].refcnt) > 0 && old(buf[b].key) != Key(dev, blockno)
      ensures i != -1 ==> 0 <= i < NBUF && order == old(order)
      ensures forall b :: 0 <= b < NBUF && b != i ==> buf[b] == old(buf[b])
      ensures i != -1 && old(buf[i].key) == Key(dev, blockno) ==>
        buf[i] == old(buf[i]).(refcnt := old(buf[i].refcnt) + 1)
      ensures i != -1 && old(buf[i].key) != Key(dev, blockno) ==>
        && (forall b :: 0 <= b < NBUF ==> old(buf[b].key) != Key(dev, blockno))
        && old(buf[i].refcnt) == 0 && buf[i] == Buf(Key(dev, blockno), false, 1, old(buf[i].data))
        && exists p :: 0 <= p < NBUF && order[p] == i && UsedBehind(old(buf[..]), order, p)
    {
      hide Linked, Permutation, Lookup, Victim;
      var key := Key(dev, blockno);
      NoneChosen(Contents(), key);
      if Victim(Contents(), NBUF).Some? {
        ghost var p := VictimLast(Contents(), NBUF);
        assert UsedBehind(buf[..], order, p);
      }
      var b := FindCached(key);
      if b != HEAD {
        buf[b] := buf[b].(refcnt := buf[b].refcnt + 1);
        return b;
      }
      b := FindVictim();
      if b != HEAD {
        buf[b] := Buf(key, false, 1, buf[b].data);
        return b;
      }
      return -1;
    }

    /** brelse's six assignments: take b out of the ring and put it right behind the head. */
    method MoveToFront(b: nat)
      requires Valid() && b < NBUF
      modifies next, prev, this`order
      ensures Valid() && order == ToFront(old(order), b)
    {
      ghost var p := Pos(order, b);
      Unlink(next[..], prev[..], order, p);
      ghost var rest := order[..p] + order[p + 1..];
      prev[next[b]] := prev[b];
      next[prev[b]] := next[b];
      assert Linked(next[..], prev[..], rest);
      InsertFront(next[..], prev[..], rest, b);
      Link(b);
      ToFrontIs(order, b);
      order := ToFront(order, b);
    }

    /** brelse after the sleep lock is released: drop the reference, and on the last one relink to the front. */
    method Brelse(b: nat)
      requires Valid() && b < NBUF && buf[b].refcnt > 0
      modifies buf, next, prev, this`order
      ensures Valid() && Contents() == Release(old(Contents()), b)
    {
      buf[b] := buf[b].(refcnt := buf[b].refcnt - 1);
      if buf[b].refcnt == 0 {
        MoveToFront(b);
      }
    }

    method Bpin(b: nat)
      requires Valid() && b < NBUF
      modifies buf
      ensures Valid()
      ensures Contents() == old(Contents()).(bufs := old(buf[..])[b := old(buf[b]).(refcnt := old(buf[b].refcnt) + 1)])
    {
      buf[b] := buf[b].(refcnt := buf[b].refcnt + 1);
    }

    method Bunpin(b: nat)
      requires Valid() && b < NBUF && buf[b].refcnt > 0
      modifies buf
      ensures Valid()
      ensures Contents() == old(Contents()).(bufs := old(buf[..])[b := old(buf[b]).(refcnt := old(buf[b].refcnt) - 1)])
    {
      buf[b] := buf[b].(refcnt := buf[b].refcnt - 1);
    }
  }
}
