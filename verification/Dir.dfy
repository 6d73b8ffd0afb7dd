/** Directories as packed 16-byte entries (kernel/fs.c, kernel/fs.h), the map they stand for, and paths. */
module Dir {
  import opened Blocks
  import opened FsModel

  const DIRSIZ: nat := 14
  const DIRENT: nat := 16

  type Name = seq<byte>

  /** A C string: no NUL among its bytes. */
  predicate IsName(s: Name) {
    forall i :: 0 <= i < |s| ==> s[i] != 0
  }

  /** What a name counts for in a directory: its first DIRSIZ bytes. */
  function Cut(s: Name): (r: Name)
    ensures |r| <= DIRSIZ && r <= s
  {
    if |s| <= DIRSIZ then s else s[..DIRSIZ]
  }

  /** A name field up to its NUL, if it has one. */
  function Upto(s: seq<byte>): (r: Name)
    ensures |r| <= |s| && r <= s && IsName(r) && (|r| < |s| ==> s[|r|] == 0)
  {
    if s == [] || s[0] == 0 then [] else [s[0]] + Upto(s[1..])
  }

  /** A name field: the name, cut, padded with NULs. */
  function Padded(s: Name): (r: seq<byte>)
    ensures |r| == DIRSIZ
  {
    Cut(s) + seq(DIRSIZ - |Cut(s)|, _ => 0)
  }

  lemma {:induction false} UptoPad(s: Name, pad: seq<byte>)
    requires IsName(s) && forall i :: 0 <= i < |pad| ==> pad[i] == 0
    ensures Upto(s + pad) == s
    decreases |s|
  {
    if s != [] {
      assert (s + pad)[1..] == s[1..] + pad;
      UptoPad(s[1..], pad);
    } else {
      assert s + pad == pad;
    }
  }

  lemma PaddedName(s: Name)
    requires IsName(s)
    ensures Upto(Padded(s)) == Cut(s)
  {
    UptoPad(Cut(s), seq(DIRSIZ - |Cut(s)|, _ => 0));
  }

  // ----- entries -----

  datatype Entry = Entry(inum: nat, name: Name)

  function EntryOf(b: seq<byte>): (e: Entry)
    requires |b| == DIRENT
  {
    var b0: int, b1: int := b[0], b[1];
    Entry(b0 + 0x100 * b1, Upto(b[2..]))
  }

  function Packed(name: Name, inum: ushort): (b: seq<byte>)
    ensures |b| == DIRENT
  {
    [inum % 0x100, inum / 0x100] + Padded(name)
  }

  lemma PackedEntry(name: Name, inum: ushort)
    requires IsName(name)
    ensures EntryOf(Packed(name, inum)) == Entry(inum, Cut(name))
  {
    assert Packed(name, inum)[2..] == Padded(name);
    PaddedName(name);
  }

  /** Directory contents: whole entries. */
  predicate Whole(c: seq<byte>) {
    |c| % DIRENT == 0
  }

  function At(c: seq<byte>, k: nat): (e: Entry)
    requires DIRENT * k + DIRENT <= |c|
  {
    EntryOf(c[DIRENT * k..DIRENT * k + DIRENT])
  }

  predicate Used(c: seq<byte>, k: nat) {
    DIRENT * k + DIRENT <= |c| && At(c, k).inum != 0
  }

  /** No name stands in two used entries. */
  ghost predicate Unique(c: seq<byte>) {
    forall j: nat, k: nat :: Used(c, j) && Used(c, k) && At(c, j).name == At(c, k).name ==> j == k
  }

  ghost predicate IsDir(c: seq<byte>) {
    Whole(c) && Unique(c)
  }

  /** Name s stands in entry k. */
  predicate Stands(c: seq<byte>, k: nat, s: Name) {
    Used(c, k) && At(c, k).name == s
  }

  ghost predicate Has(c: seq<byte>, s: Name) {
    exists k: nat :: Stands(c, k, s)
  }

  /** The inode number a directory gives to a name, 0 if it has none. */
  ghost function Lookup(c: seq<byte>, s: Name): (inum: nat)
    ensures inum != 0 <==> Has(c, s)
  {
    if Has(c, s) then
      var k: nat :| Stands(c, k, s);
      At(c, k).inum
    else 0
  }

  lemma LookupAt(c: seq<byte>, k: nat, s: Name)
    requires Unique(c) && Stands(c, k, s)
    ensures Lookup(c, s) == At(c, k).inum
  {
  }

  // ----- adding an entry -----

  /** Slot k is free, or just past the end. */
  predicate Vacant(c: seq<byte>, k: nat) {
    DIRENT * k == |c| || (DIRENT * k + DIRENT <= |c| && At(c, k).inum == 0)
  }

  lemma SpliceLength(c: seq<byte>, off: nat, b: seq<byte>)
    requires off <= |c|
    ensures |Splice(c, off, b)| == if off + |b| <= |c| then |c| else off + |b|
  {
  }

  lemma SpliceMiddle(c: seq<byte>, off: nat, b: seq<byte>)
    requires off <= |c|
    ensures off + |b| <= |Splice(c, off, b)| && Splice(c, off, b)[off..off + |b|] == b
  {
  }

  lemma SpliceBefore(c: seq<byte>, off: nat, b: seq<byte>, i: nat, j: nat)
    requires i <= j <= off <= |c|
    ensures j <= |Splice(c, off, b)| && Splice(c, off, b)[i..j] == c[i..j]
  {
  }

  lemma SpliceBehind(c: seq<byte>, off: nat, b: seq<byte>, i: nat, j: nat)
    requires off + |b| <= i <= j <= |c|
    ensures j <= |Splice(c, off, b)| && Splice(c, off, b)[i..j] == c[i..j]
  {
  }

  lemma SpliceAt(c: seq<byte>, k: nat, b: seq<byte>, j: nat)
    requires Whole(c) && |b| == DIRENT && DIRENT * k <= |c| && (DIRENT * j + DIRENT <= |c| || j == k)
    ensures var d := Splice(c, DIRENT * k, b);
      |d| == (if DIRENT * k == |c| then |c| + DIRENT else |c|) && DIRENT * j + DIRENT <= |d|
      && At(d, j) == if j == k then EntryOf(b) else At(c, j)
  {
    hide Splice, EntryOf;
    SpliceLength(c, DIRENT * k, b);
    if j == k {
      SpliceMiddle(c, DIRENT * k, b);
    } else if j < k {
      assert DIRENT * j + DIRENT <= DIRENT * k;
      SpliceBefore(c, DIRENT * k, b, DIRENT * j, DIRENT * j + DIRENT);
    } else {
      assert DIRENT * k + DIRENT <= DIRENT * j;
      SpliceBehind(c, DIRENT * k, b, DIRENT * j, DIRENT * j + DIRENT);
    }
  }

  /** Writing a new name with a nonzero number into a vacant slot inserts it into the map and keeps names unique. */
  lemma Linked(c: seq<byte>, k: nat, name: Name, inum: ushort)
    requires IsDir(c) && Vacant(c, k) && IsName(name) && inum != 0 && !Has(c, Cut(name))
    ensures var d := Splice(c, DIRENT * k, Packed(name, inum));
      IsDir(d) && forall s :: Lookup(d, s) == if s == Cut(name) then inum else Lookup(c, s)
  {
    hide Lookup, Packed, Cut, EntryOf, Unique;
    var d := Splice(c, DIRENT * k, Packed(name, inum));
    PackedEntry(name, inum);
    SpliceAt(c, k, Packed(name, inum), k);
    forall j: nat | DIRENT * j + DIRENT <= |d|
      ensures At(d, j) == if j == k then Entry(inum, Cut(name)) else At(c, j)
      ensures j != k ==> DIRENT * j + DIRENT <= |c|
    {
      SpliceAt(c, k, Packed(name, inum), j);
    }
    LinkedMap(c, d, k, name, inum);
  }

  lemma LinkedMap(c: seq<byte>, d: seq<byte>, k: nat, name: Name, inum: ushort)
    requires IsDir(c) && Vacant(c, k) && inum != 0 && !Has(c, Cut(name)) && Whole(d)
    requires DIRENT * k + DIRENT <= |d| && |c| <= |d|
    requires forall j: nat :: DIRENT * j + DIRENT <= |d| && j != k ==>
      DIRENT * j + DIRENT <= |c| && At(d, j) == At(c, j)
    requires At(d, k) == Entry(inum, Cut(name))
    ensures IsDir(d) && forall s :: Lookup(d, s) == if s == Cut(name) then inum else Lookup(c, s)
  {
    hide At, Whole;
    forall j: nat, l: nat | Used(d, j) && Used(d, l) && At(d, j).name == At(d, l).name
      ensures j == l
    {
      NotStanding(c, j, Cut(name));
      NotStanding(c, l, Cut(name));
      if j != k && l != k {
        assert Used(c, j) && Used(c, l);
      }
    }
    forall s
      ensures Lookup(d, s) == if s == Cut(name) then inum else Lookup(c, s)
    {
      LinkedLookup(c, d, k, name, inum, s);
    }
  }

  lemma LinkedLookup(c: seq<byte>, d: seq<byte>, k: nat, name: Name, inum: ushort, s: Name)
    requires Unique(c) && Unique(d) && Vacant(c, k) && inum != 0 && !Has(c, Cut(name))
    requires DIRENT * k + DIRENT <= |d| && |c| <= |d|
    requires forall j: nat :: DIRENT * j + DIRENT <= |d| && j != k ==>
      DIRENT * j + DIRENT <= |c| && At(d, j) == At(c, j)
    requires At(d, k) == Entry(inum, Cut(name))
    ensures Lookup(d, s) == if s == Cut(name) then inum else Lookup(c, s)
  {
    hide At, Unique;
    if s == Cut(name) {
      LookupAt(d, k, s);
    } else {
      if Has(c, s) {
        var j: nat :| Stands(c, j, s);
        assert Stands(d, j, s);
      }
      if Has(d, s) {
        var j: nat :| Stands(d, j, s);
        assert j != k && Stands(c, j, s);
        LookupAt(d, j, s);
        LookupAt(c, j, s);
      }
    }
  }

  lemma NotStanding(c: seq<byte>, k: nat, s: Name)
    requires !Has(c, s)
    ensures !Stands(c, k, s)
  {
  }

  // ----- paths -----

  const SLASH: byte := 47

  function SkipSlashes(p: Name): (r: Name)
    ensures |r| <= |p| && (r != [] ==> r[0] != SLASH) && (p != [] && p[0] != SLASH ==> r == p)
  {
    if p != [] && p[0] == SLASH then SkipSlashes(p[1..]) else p
  }

  /** The first element of a path without leading slashes. */
  function Element(p: Name): (e: Name)
    ensures |e| <= |p| && (p != [] && p[0] != SLASH ==> e != [])
  {
    if p == [] || p[0] == SLASH then [] else [p[0]] + Element(p[1..])
  }

  lemma {:induction false} ElementPrefix(p: Name)
    ensures Element(p) == p[..|Element(p)|]
  {
    if p != [] && p[0] != SLASH {
      ElementPrefix(p[1..]);
    }
  }

  /** The slash-separated elements of a path. */
  function Elements(p: Name): (es: seq<Name>)
    decreases |p|
  {
    var q := SkipSlashes(p);
    if q == [] then [] else [Element(q)] + Elements(q[|Element(q)|..])
  }

  lemma SlashesFirst(p: Name)
    ensures Elements(SkipSlashes(p)) == Elements(p)
  {
  }

  predicate IsElement(e: Name) {
    e != [] && forall i :: 0 <= i < |e| ==> e[i] != SLASH
  }

  /** Slashes, an element, and the rest of a path. */
  function Path(es: seq<Name>, gaps: seq<nat>): (p: Name)
    requires |gaps| == |es| + 1
  {
    Slashes(gaps[0]) + if es == [] then [] else es[0] + Path(es[1..], gaps[1..])
  }

  function Slashes(n: nat): (s: Name) {
    seq(n, _ => SLASH)
  }

  lemma {:induction false} SkipAll(n: nat, p: Name)
    requires p == [] || p[0] != SLASH
    ensures SkipSlashes(Slashes(n) + p) == p
  {
    if n == 0 {
      assert Slashes(n) + p == p;
    } else {
      assert (Slashes(n) + p)[1..] == Slashes(n - 1) + p;
      SkipAll(n - 1, p);
    }
  }

  lemma {:induction false} ElementOf(e: Name, p: Name)
    requires (forall i :: 0 <= i < |e| ==> e[i] != SLASH) && (p == [] || p[0] == SLASH)
    ensures Element(e + p) == e
  {
    if e == [] {
      assert e + p == p;
    } else {
      assert (e + p)[1..] == e[1..] + p;
      ElementOf(e[1..], p);
    }
  }

  /** Elements joined by any positive number of slashes, with any number before and behind, are read back. */
  lemma {:induction false} ElementsOfPath(es: seq<Name>, gaps: seq<nat>)
    requires |gaps| == |es| + 1 && (forall i :: 0 <= i < |es| ==> IsElement(es[i])) && forall i :: 0 < i < |es| ==>
      gaps[i] > 0
    ensures Elements(Path(es, gaps)) == es
    decreases |es|
  {
    var p := Path(es, gaps);
    if es == [] {
      assert p == Slashes(gaps[0]) + [];
      SkipAll(gaps[0], []);
    } else {
      var rest := Path(es[1..], gaps[1..]);
      SkipAll(gaps[0], es[0] + rest);
      assert rest == [] || rest[0] == SLASH;
      ElementOf(es[0], rest);
      assert (es[0] + rest)[|es[0]|..] == rest;
      ElementsOfPath(es[1..], gaps[1..]);
    }
  }
}
