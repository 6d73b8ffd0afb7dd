/** Directory lookup and link, and path resolution (kernel/fs.c), over the file system's files. */
module DirCode {
  import opened Blocks
  import opened FsModel
  import opened FsWrite
  import opened FsTorn
  import opened FsCode
  import opened Dir

  const T_DIR: ushort := 1

  /** The bytes of a directory. */
  ghost function DirBytes(sb: Super, s: FsState, i: nat): (c: seq<byte>)
    requires Ok(sb, s, {}) && i in s.inodes
  {
    Content(sb, s.disk, s.inodes, i)
  }

  ghost function DirOf(fs: FileSystem, i: nat): (c: seq<byte>)
    requires fs.Valid() && i in fs.inodes
    reads fs
  {
    DirBytes(fs.sb, fs.State(), i)
  }

  /** strncmp(a, field, DIRSIZ) == 0, where field is the DIRSIZ bytes of an entry's name. */
  method SameName(a: Name, field: seq<byte>) returns (eq: bool)
    requires IsName(a) && |field| == DIRSIZ
    ensures eq <==> Cut(a) == Upto(field)
  {
    var i := 0;
    while i < DIRSIZ && i < |a| && a[i] == field[i]
      invariant 0 <= i <= DIRSIZ && i <= |a| && a[..i] == field[..i]
    {
      i := i + 1;
    }
    UptoLonger(field, i);
    if i == DIRSIZ {
      assert field[..i] == field && Cut(a) == a[..i];
      return true;
    }
    var p: byte := if i < |a| then a[i] else 0;
    eq := p == field[i];
    NamesDiffer(a, field, i);
  }

  lemma {:induction false} UptoLonger(field: seq<byte>, i: nat)
    requires i <= |field| && IsName(field[..i])
    ensures |Upto(field)| >= i && Upto(field)[..i] == field[..i]
    ensures i == |field| ==> Upto(field) == field
    ensures i < |field| && field[i] == 0 ==> Upto(field) == field[..i]
    ensures i < |field| && field[i] != 0 ==> |Upto(field)| > i && Upto(field)[i] == field[i]
  {
    if i > 0 {
      assert field[1..][..i - 1] == field[..i][1..];
      UptoLonger(field[1..], i - 1);
      assert field[..i] == [field[0]] + field[1..][..i - 1];
    }
  }

  lemma NamesDiffer(a: Name, field: seq<byte>, i: nat)
    requires IsName(a) && |field| == DIRSIZ && i < DIRSIZ && i <= |a| && a[..i] == field[..i]
    requires i < |a| ==> a[i] != field[i]
    ensures Cut(a) == Upto(field) <==> i == |a| && field[i] == 0
  {
    UptoLonger(field, i);
    if i == |a| {
      assert Cut(a) == a[..i];
    } else {
      assert Cut(a)[i] == a[i] != 0;
    }
  }

  /** Read entry k of a directory. */
  method ReadEntry(fs: FileSystem, dp: nat, off: nat, ghost k: nat) returns (de: seq<byte>)
    requires fs.Valid() && dp in fs.inodes && off == DIRENT * k && off + DIRENT <= fs.inodes[dp].size
    modifies fs
    ensures fs.State() == old(fs.State()) && |de| == DIRENT && EntryOf(de) == At(DirOf(fs, dp), k)
  {
    hide Stored, Ok, Holeless, EntryOf, Content;
    SizeBound(fs, dp);
    var tot;
    tot, de := fs.Readi(dp, off, DIRENT, DIRENT);
  }

  function InumField(de: seq<byte>): (n: nat)
    requires |de| == DIRENT
    ensures n == EntryOf(de).inum < 0x1_0000
  {
    var b0: int, b1: int := de[0], de[1];
    b0 + 0x100 * b1
  }

  /** Find a name; 0 if it is not there, else its inode number and the offset of its entry. */
  method Dirlookup(fs: FileSystem, dp: nat, name: Name) returns (inum: nat, poff: nat)
    requires fs.Valid() && dp in fs.inodes && fs.inodes[dp].type_ == T_DIR && IsName(name) && IsDir(DirOf(fs, dp))
    modifies fs
    ensures fs.State() == old(fs.State())
    ensures inum == Lookup(DirOf(fs, dp), Cut(name))
    ensures inum != 0 ==> exists k :: poff == DIRENT * k && Stands(DirOf(fs, dp), k, Cut(name))
  {
    hide Stored, Ok, Holeless, EntryOf, Unique, Content, InumField;
    ghost var c := DirOf(fs, dp);
    SizeBound(fs, dp);
    var off := 0;
    ghost var k := 0;
    while off < fs.inodes[dp].size
      invariant fs.State() == old(fs.State()) && off == DIRENT * k <= |c|
      invariant forall j :: 0 <= j < k ==> !Stands(c, j, Cut(name))
    {
      assert off + DIRENT <= |c|;
      var de := ReadEntry(fs, dp, off, k);
      if InumField(de) != 0 {
        var same := SameName(name, de[2..]);
        EntryName(de);
        if same {
          LookupAt(c, k, Cut(name));
          assert off == DIRENT * k && Stands(DirOf(fs, dp), k, Cut(name));
          return InumField(de), off;
        }
      }
      k := k + 1;
      off := off + DIRENT;
    }
    NoneStands(c, Cut(name), k);
    return 0, 0;
  }

  lemma NoneStands(c: seq<byte>, s: Name, n: nat)
    requires |c| <= DIRENT * n && forall j :: 0 <= j < n ==> !Stands(c, j, s)
    ensures !Has(c, s)
  {
    forall j: nat
      ensures !Stands(c, j, s)
    {
    }
  }

  lemma EntryName(b: seq<byte>)
    requires |b| == DIRENT
    ensures EntryOf(b).name == Upto(b[2..])
  {
  }

  /** The first unused entry, or the end of the directory. */
  method FindVacant(fs: FileSystem, dp: nat) returns (off: nat, ghost k: nat)
    requires fs.Valid() && dp in fs.inodes && IsDir(DirOf(fs, dp))
    modifies fs
    ensures fs.State() == old(fs.State()) && off == DIRENT * k && Vacant(DirOf(fs, dp), k) && off <= fs.inodes[dp].size
    ensures forall j: nat :: j < k ==> !Vacant(DirOf(fs, dp), j)
  {
    hide Stored, Ok, Holeless, EntryOf, Unique, Content, InumField;
    ghost var c := DirOf(fs, dp);
    SizeBound(fs, dp);
    off, k := 0, 0;
    while off < fs.inodes[dp].size
      invariant fs.State() == old(fs.State()) && off == DIRENT * k <= |c| && forall j: nat :: j < k ==> !Vacant(c, j)
    {
      assert off + DIRENT <= |c|;
      var de := ReadEntry(fs, dp, off, k);
      if InumField(de) == 0 {
        return;
      }
      k := k + 1;
      off := off + DIRENT;
    }
  }

  /** strncpy into a name field: copy up to the NUL, then pad. */
  method NameField(name: Name) returns (f: seq<byte>)
    ensures f == Padded(name)
  {
    f := [];
    while |f| < DIRSIZ && |f| < |name|
      invariant |f| <= DIRSIZ && |f| <= |name| && f == name[..|f|]
    {
      f := f + [name[|f|]];
    }
    assert f == Cut(name);
    ghost var n := |f|;
    while |f| < DIRSIZ
      invariant n <= |f| <= DIRSIZ && f == Cut(name) + seq(|f| - n, _ => 0)
    {
      f := f + [0];
    }
  }

  /** Every entry of the directory is in use. */
  ghost predicate NoVacancy(c: seq<byte>) {
    forall k: nat :: Vacant(c, k) ==> DIRENT * k == |c|
  }

  /** Add (name, inum). 0 if done; -1, with the directory as it was, if the name is there already, or if all entries
      are in use and the directory cannot grow. */
  method Dirlink(fs: FileSystem, dp: nat, name: Name, inum: ushort) returns (r: int)
    requires fs.Valid() && dp in fs.inodes && fs.inodes[dp].type_ == T_DIR && IsName(name) && inum != 0
    requires IsDir(DirOf(fs, dp))
    modifies fs
    ensures fs.Valid() && fs.inodes.Keys == old(fs.inodes.Keys) && (r == 0 || r == -1) && IsDir(DirOf(fs, dp))
    ensures r == 0 ==> forall s ::
      Lookup(DirOf(fs, dp), s) == if s == Cut(name) then inum else old(Lookup(DirOf(fs, dp), s))
    ensures r == -1 ==> DirOf(fs, dp) == old(DirOf(fs, dp))
    ensures old(Has(DirOf(fs, dp), Cut(name))) ==> r == -1
    ensures r == -1 && !old(Has(DirOf(fs, dp), Cut(name))) ==>
              && old(NoVacancy(DirOf(fs, dp)))
              && (Full(fs.sb, fs.disk) || |old(DirOf(fs, dp))| + DIRENT > MAXFILE * BSIZE)
    ensures forall j :: j in fs.inodes && j != dp ==> DirOf(fs, j) == old(DirOf(fs, j))
    ensures old(Tree(fs.sb, fs.State())) && inum in fs.inodes ==> Tree(fs.sb, fs.State())
  {
    hide Tree, Stored, Ok, Holeless, EntryOf, Unique, Content, Lookup, Packed, Has, OwnersGrew, WriteLogs, LogsFit;
    hide EndBlock, Full, Stopped, LoggedTo, Wrote, Within;
    ghost var c, s0 := DirOf(fs, dp), fs.State();
    var ip, _ := Dirlookup(fs, dp, name);
    if ip != 0 {
      return -1;
    }
    assert !Has(c, Cut(name)) by {
      NoEntry(c, Cut(name));
    }
    var off;
    ghost var k;
    off, k := FindVacant(fs, dp);
    var f := NameField(name);
    var de := [inum % 0x100, inum / 0x100] + f;
    PackedIs(name, inum, de);
    SizeBound(fs, dp);
    Linked(c, k, name, inum);
    ghost var s := fs.State();
    assert off % BSIZE + |de| <= BSIZE;
    var n;
    ghost var v, hi;
    n, v, hi := fs.Writei(dp, de, off, DIRENT);
    if n >= 0 {
      WroteFiles(fs.sb, s, v, dp, off, de[..n]);
      WholeEntry(fs.sb, s, v, fs.State(), dp, off, de, n);
    }
    assert de[..DIRENT] == de;
    if n != DIRENT {
      AtTheEnd(c, k);
      if n == 0 {
        assert de[..0] == [];
        SpliceNothing(c, off);
        TreeKept(fs.sb, s0, fs.State(), dp, Cut(name), inum);
      }
      return -1;
    }
    TreeKept(fs.sb, s0, fs.State(), dp, Cut(name), inum);
    return 0;
  }

  /** An entry lies in one block, so it is written whole or, for want of a block, not at all. */
  lemma WholeEntry(sb: Super, s: FsState, v: FsState, u: FsState, dp: nat, off: nat, de: seq<byte>, r: nat)
    requires Ok(sb, s, {}) && Ok(sb, v, {}) && dp in s.inodes && dp in v.inodes && r <= |de|
    requires off + |de| <= MAXFILE * BSIZE && off % BSIZE + |de| <= BSIZE
    requires r == |de| ==> u == v
    requires r < |de| ==> Stopped(sb, s, v, u, dp, off, de, r, |de|)
    ensures u == v && (r < |de| ==> r == 0 && Full(sb, u.disk) && s.inodes[dp].size <= off)
  {
    hide Ok, BlockOf, Full, Patched;
  }

  lemma AtTheEnd(c: seq<byte>, k: nat)
    requires Whole(c) && forall j: nat :: j < k ==> !Vacant(c, j)
    ensures DIRENT * k == |c| ==> NoVacancy(c)
  {
  }

  lemma NoEntry(c: seq<byte>, s: Name)
    requires Lookup(c, s) == 0
    ensures !Has(c, s)
  {
  }

  lemma PackedIs(name: Name, inum: ushort, de: seq<byte>)
    requires de == [inum % 0x100, inum / 0x100] + Padded(name)
    ensures de == Packed(name, inum) && |de| == DIRENT
  {
  }

  lemma WroteFiles(sb: Super, s: FsState, u: FsState, i: nat, off: nat, done: seq<byte>)
    requires Ok(sb, s, {}) && i in s.inodes && off <= s.inodes[i].size && Wrote(sb, s, u, i, off, done)
    ensures Ok(sb, u, {}) && u.inodes.Keys == s.inodes.Keys && SameTypes(s, u)
    ensures Content(sb, u.disk, u.inodes, i) == Splice(Content(sb, s.disk, s.inodes, i), off, done)
    ensures forall j :: j in s.inodes && j != i ==> Content(sb, u.disk, u.inodes, j) == Content(sb, s.disk, s.inodes, j)
  {
    hide Ok, Content, OnDisk, OtherInodesKept;
  }

  lemma SizeBound(fs: FileSystem, i: nat)
    requires fs.Valid() && i in fs.inodes
    ensures fs.inodes[i].size <= MAXFILE * BSIZE && |DirOf(fs, i)| == fs.inodes[i].size
  {
  }

  // ----- paths -----

  method PastSlashes(path: Name, i: nat) returns (j: nat)
    requires i <= |path|
    ensures i <= j <= |path| && path[j..] == SkipSlashes(path[i..])
  {
    j := i;
    while j < |path| && path[j] == SLASH
      invariant i <= j <= |path| && SkipSlashes(path[j..]) == SkipSlashes(path[i..])
    {
      assert path[j..][1..] == path[j + 1..];
      j := j + 1;
    }
  }

  method PastElement(path: Name, s: nat) returns (i: nat)
    requires s <= |path|
    ensures s <= i <= |path| && Element(path[s..]) == path[s..i]
  {
    hide Element;
    i := s;
    while i < |path| && path[i] != SLASH
      invariant s <= i <= |path| && Element(path[s..]) == path[s..i] + Element(path[i..])
    {
      ElementStep(path, s, i);
      i := i + 1;
    }
    ElementStop(path[i..]);
  }

  lemma ElementStep(path: Name, s: nat, i: nat)
    requires s <= i < |path| && path[i] != SLASH
    ensures path[s..i] + Element(path[i..]) == path[s..i + 1] + Element(path[i + 1..])
  {
    var p, e := path[i..], Element(path[i + 1..]);
    assert p[1..] == path[i + 1..];
    assert Element(p) == [path[i]] + e;
    hide Element;
    assert path[s..i + 1] == path[s..i] + [path[i]];
    assert path[s..i] + ([path[i]] + e) == path[s..i] + [path[i]] + e;
  }

  lemma ElementStop(p: Name)
    requires p == [] || p[0] == SLASH
    ensures Element(p) == []
  {
  }

  /** Split off the first element, cut to DIRSIZ bytes; false if there is none. */
  method Skipelem(path: Name) returns (ok: bool, name: Name, rest: Name)
    ensures ok <==> Elements(path) != []
    ensures ok ==> name == Cut(Elements(path)[0]) && Elements(rest) == Elements(path)[1..]
    ensures ok ==> (rest == [] <==> |Elements(path)| == 1)
  {
    hide SkipSlashes, Element;
    assert path[0..] == path;
    var s := PastSlashes(path, 0);
    if s == |path| {
      return false, [], [];
    }
    var i := PastElement(path, s);
    var len := i - s;
    name := if len >= DIRSIZ then path[s..s + DIRSIZ] else path[s..i];
    assert path[s..][|path[s..i]|..] == path[i..];
    var j := PastSlashes(path, i);
    rest := path[j..];
    SlashesFirst(path[i..]);
    NoElements(path[i..]);
    ok := true;
  }

  lemma NoElements(p: Name)
    ensures Elements(p) == [] <==> SkipSlashes(p) == []
  {
  }

  /** Every directory is one, and its entries name inodes that exist. */
  ghost predicate Tree(sb: Super, s: FsState)
    requires Ok(sb, s, {})
  {
    0 !in s.inodes && forall i :: IsDirectory(s, i) ==> TreeAt(sb, s, i)
  }

  ghost predicate TreeAt(sb: Super, s: FsState, i: nat)
    requires Ok(sb, s, {}) && i in s.inodes
  {
    IsDir(DirBytes(sb, s, i)) && forall n :: Lookup(DirBytes(sb, s, i), n) != 0 ==>
      Lookup(DirBytes(sb, s, i), n) in s.inodes
  }

  predicate IsDirectory(s: FsState, i: nat) {
    i in s.inodes && s.inodes[i].type_ == T_DIR
  }

  /** Looking up the elements one after another from inode ip; 0 if one is missing or is no directory. */
  ghost function Resolve(sb: Super, s: FsState, ip: nat, es: seq<Name>): (r: nat)
    requires Ok(sb, s, {})
    decreases |es|
  {
    if es == [] then ip
    else
      var next := NextOf(sb, s, ip, es[0]);
      if next == 0 then 0 else Resolve(sb, s, next, es[1..])
  }

  /** The inode that directory ip has for an element; 0 if none, or if ip is no directory. */
  ghost function NextOf(sb: Super, s: FsState, ip: nat, e: Name): (r: nat)
    requires Ok(sb, s, {})
  {
    if IsDirectory(s, ip) then Lookup(DirBytes(sb, s, ip), Cut(e)) else 0
  }

  lemma {:induction false} ResolveOn(sb: Super, s: FsState, ip: nat, es: seq<Name>, more: seq<Name>)
    requires Ok(sb, s, {}) && Resolve(sb, s, ip, es) != 0
    ensures Resolve(sb, s, ip, es + more) == Resolve(sb, s, Resolve(sb, s, ip, es), more)
    decreases |es|
  {
    hide Ok, NextOf;
    if es == [] {
      assert es + more == more;
    } else {
      var all, next := es + more, NextOf(sb, s, ip, es[0]);
      assert all[0] == es[0] && all[1..] == es[1..] + more;
      assert Resolve(sb, s, ip, es) == Resolve(sb, s, next, es[1..]);
      ResolveOn(sb, s, next, es[1..], more);
      assert Resolve(sb, s, ip, all) == Resolve(sb, s, next, all[1..]);
    }
  }

  /** One more element. */
  lemma ResolveNext(sb: Super, s: FsState, start: nat, es: seq<Name>, done: nat)
    requires Ok(sb, s, {}) && done < |es| && Resolve(sb, s, start, es[..done]) != 0
    ensures var ip := Resolve(sb, s, start, es[..done]);
      Resolve(sb, s, start, es[..done + 1]) == if IsDirectory(s, ip) then Lookup(DirBytes(sb, s, ip), Cut(es[done]))
        else 0
  {
    hide Ok, DirBytes, Lookup;
    var one: seq<Name> := [es[done]];
    assert es[..done + 1] == es[..done] + one;
    ResolveOn(sb, s, start, es[..done], one);
    assert one[1..] == [];
  }

  /** A path that breaks off leads nowhere. */
  lemma {:induction false} ResolveStops(sb: Super, s: FsState, start: nat, es: seq<Name>, n: nat)
    requires Ok(sb, s, {}) && n <= |es| && Resolve(sb, s, start, es[..n]) == 0 && start != 0
    ensures Resolve(sb, s, start, es) == 0
    decreases n
  {
    hide Ok, NextOf;
    if n > 0 {
      var next := NextOf(sb, s, start, es[0]);
      assert es[..n][1..] == es[1..][..n - 1];
      if next != 0 {
        ResolveStops(sb, s, next, es[1..], n - 1);
      }
    }
  }

  lemma {:induction false} ElementNames(p: Name)
    requires IsName(p)
    ensures forall i :: 0 <= i < |Elements(p)| ==> IsName(Elements(p)[i])
    decreases |p|
  {
    var q := SkipSlashes(p);
    SkipSuffix(p);
    if q != [] {
      ElementPrefix(q);
      ElementNames(q[|Element(q)|..]);
    }
  }

  lemma {:induction false} SkipSuffix(p: Name)
    ensures SkipSlashes(p) == p[|p| - |SkipSlashes(p)|..]
  {
    if p != [] && p[0] == SLASH {
      SkipSuffix(p[1..]);
    }
  }

  /** The inode a path leads to, from the root if its first character is '/' and from the current directory otherwise;
      with parent set, the directory that holds its last element, and that element's name. 0 if there is none. */
  method Namex(fs: FileSystem, path: Name, root: nat, cwd: nat, parent: bool) returns (r: nat, name: Name)
    requires fs.Valid() && Tree(fs.sb, fs.State()) && IsName(path) && root in fs.inodes && cwd in fs.inodes
    modifies fs
    ensures fs.State() == old(fs.State())
    ensures !parent && path[..Min(1, |path|)] == [0x2F] ==> r == Resolve(fs.sb, fs.State(), root, Elements(path))
    ensures !parent && path[..Min(1, |path|)] != [0x2F] ==> r == Resolve(fs.sb, fs.State(), cwd, Elements(path))
    ensures parent && Elements(path) == [] ==> r == 0
    ensures parent && Elements(path) != [] ==>
      var es, start := Elements(path), if path[0] == 0x2F then root else cwd;
      var p := Resolve(fs.sb, fs.State(), start, es[..|es| - 1]);
      r == (if IsDirectory(fs.State(), p) then p else 0) && (r != 0 ==> name == Cut(es[|es| - 1]))
  {
    hide Stored, Ok, Holeless, DirBytes, IsDir, Lookup, Elements, Resolve;
    ghost var es, s := Elements(path), fs.State();
    var ip := if path != [] && path[0] == SLASH then root else cwd;
    ghost var start, done := ip, 0;
    assert path != [] ==> path[..1] == [path[0]];
    NoElements([]);
    ElementNames(path);
    assert es[..0] == [] && es[0..] == es;
    ResolveNone(fs.sb, s, start);
    var rest := path;
    name := [];
    while true
      invariant fs.State() == s && fs.Valid()
      invariant 0 <= done <= |es| && Elements(rest) == es[done..] && ip in s.inodes && ip != 0
      invariant Resolve(fs.sb, s, start, es[..done]) == ip
      invariant parent ==> done < |es| || es == []
      decreases |es| - done
    {
      var ok, n, next := Skipelem(rest);
      if !ok {
        break;
      }
      name := n;
      assert Elements(next) == es[done + 1..];
      ResolveNext(fs.sb, s, start, es, done);
      if fs.inodes[ip].type_ != T_DIR {
        BrokenOff(fs.sb, s, start, es, done);
        return 0, name;
      }
      if parent && next == [] {
        return ip, name;
      }
      TreeFacts(fs.sb, s, ip);
      CutName(es[done]);
      var found, _ := Dirlookup(fs, ip, name);
      assert Cut(name) == Cut(es[done]);
      if found == 0 {
        BrokenOff(fs.sb, s, start, es, done);
        return 0, name;
      }
      rest, ip := next, found;
      done := done + 1;
    }
    if parent {
      return 0, name;
    }
    assert es[..done] == es;
    return ip, name;
  }

  lemma ResolveNone(sb: Super, s: FsState, ip: nat)
    requires Ok(sb, s, {})
    ensures Resolve(sb, s, ip, []) == ip
  {
  }

  ghost predicate SameTypes(s: FsState, u: FsState) {
    u.inodes.Keys == s.inodes.Keys && forall j :: j in s.inodes ==> u.inodes[j].type_ == s.inodes[j].type_
  }

  /** A directory that is as it was, or has got one more name for an inode that exists, leaves a tree a tree. */
  lemma TreeKept(sb: Super, s: FsState, u: FsState, dp: nat, nm: Name, inum: nat)
    requires Ok(sb, s, {}) && Ok(sb, u, {}) && SameTypes(s, u) && dp in s.inodes && IsDir(DirBytes(sb, u, dp))
    requires forall j :: j in s.inodes && j != dp ==> DirBytes(sb, u, j) == DirBytes(sb, s, j)
    requires DirBytes(sb, u, dp) == DirBytes(sb, s, dp)
      || forall n :: Lookup(DirBytes(sb, u, dp), n) == if n == nm then inum else Lookup(DirBytes(sb, s, dp), n)
    ensures Tree(sb, s) && inum in s.inodes ==> Tree(sb, u)
  {
    hide Ok, DirBytes, Lookup, IsDir;
    if Tree(sb, s) && inum in s.inodes {
      forall j | IsDirectory(u, j)
        ensures TreeAt(sb, u, j)
      {
        assert IsDirectory(s, j) && TreeAt(sb, s, j);
      }
    }
  }

  lemma TreeFacts(sb: Super, s: FsState, i: nat)
    requires Ok(sb, s, {}) && Tree(sb, s) && IsDirectory(s, i)
    ensures TreeAt(sb, s, i) && 0 !in s.inodes
  {
  }

  lemma CutName(e: Name)
    requires IsName(e)
    ensures IsName(Cut(e)) && Cut(Cut(e)) == Cut(e)
  {
  }

  /** If the next element cannot be reached, neither can the whole path nor its parent. */
  lemma BrokenOff(sb: Super, s: FsState, start: nat, es: seq<Name>, done: nat)
    requires Ok(sb, s, {}) && Tree(sb, s) && done < |es| && start != 0 && Resolve(sb, s, start, es[..done + 1]) == 0
    requires Resolve(sb, s, start, es[..done]) != 0
    ensures Resolve(sb, s, start, es) == 0
    ensures var p := Resolve(sb, s, start, es[..|es| - 1]);
      if done + 1 == |es| then p == Resolve(sb, s, start, es[..done]) else p == 0
  {
    hide Ok, Resolve, TreeAt;
    ResolveStops(sb, s, start, es, done + 1);
    if done + 1 < |es| {
      assert es[..|es| - 1][..done + 1] == es[..done + 1];
      ResolveStops(sb, s, start, es[..|es| - 1], done + 1);
    }
  }
}
