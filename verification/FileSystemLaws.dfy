/**
 Creating a file and removing it again: what one operation of the file system does the
 other undoes, on the whole disk.
 */
module FileSystemLaws {
  import opened WordBits
  import opened SectorDisks
  import opened HeaderLayout
  import opened FileLayout
  import opened DirectoryEntries
  import opened FileTree
  import opened FileSystems

  // Paths lead where they did when directories only gain names.
  lemma {:induction false} WalkStill(t0: Tree, t1: Tree, h: int, path: seq<seq<byte>>)
    requires IsSector(h) && PathOk(t0, h, path) && Walk(t0, h, path) != -1
    requires forall k, n {:trigger Lookup(t0[k], n)} | IsSector(k) && Lookup(t0[k], n) != -1 ::
      Lookup(t1[k], n) == Lookup(t0[k], n)
    requires forall k | IsSector(k) && t0[k] != [] :: t1[k] != []
    ensures PathOk(t1, h, path) && Walk(t1, h, path) == Walk(t0, h, path)
    decreases |path|
  {
    if path != [] {
      WalkStill(t0, t1, Lookup(t0[h], path[0]), path[1..]);
    }
  }

  // The tree after a file was created: one directory has gained a name, and s is there.
  lemma CreatedTree(d0: Image, d1: Image, owner: Owners, w0: DiskState, w1: DiskState, p: int, name: seq<byte>,
                    size: int, isDir: bool, s: int)
    requires StateOf(d0, owner) == w0 && w0.Whole? && IsSector(p) && w0.tree[p] != []
    requires CreatedFile(d0, d1, owner, w0.marks, p, name, size, isDir, s)
    requires w1 == StateOf(d1, Assign(owner, Owned(d1, s), s))
    ensures w1.Whole? && w1.marks == w0.marks + Owned(d1, s) && s != p && w0.tree[s] == []
    ensures NameAdded(w0.tree[p], w1.tree[p], name, s) && w1.tree[p] != []
    ensures w1.tree[s] == [] || Unused(w1.tree[s])
    ensures forall h | IsSector(h) && h != p && h != s :: w1.tree[h] == w0.tree[h]
  {
    var after := Assign(owner, Owned(d1, s), s);
    NewSector(d0, owner, w0, Owned(d1, s), s);
    SameHeader(d0, d1, owner, after, w0, w1, p);
    NewDirectory(d1, after, w1, s);
    forall h | IsSector(h) && h != p && h != s
      ensures w1.tree[h] == w0.tree[h]
    {
      SameEntries(d0, d1, owner, after, w0, w1, h, {p, FREE_MAP_SECTOR});
    }
  }

  // A directory whose header is the same is a directory still.
  lemma SameHeader(d0: Image, d1: Image, owner: Owners, after: Owners, w0: DiskState, w1: DiskState, p: int)
    requires StateOf(d0, owner) == w0 && w0.Whole? && StateOf(d1, after) == w1 && w1.Whole?
    requires IsSector(p) && w0.tree[p] != [] && Live(after, p) && HeaderAt(d1, p) == HeaderAt(d0, p)
    ensures w0.tree[p] == TableAt(d0, p) && w1.tree[p] == TableAt(d1, p) && w1.tree[p] != []
  {
    DirectoryAt(d0, owner, w0, p);
    DirectoryAt(d1, after, w1, p);
  }

  lemma NewSector(d0: Image, owner: Owners, w0: DiskState, owned: set<int>, s: int)
    requires StateOf(d0, owner) == w0 && w0.Whole? && owned !! w0.marks && s in owned && IsSector(s)
    ensures forall k :: Live(Assign(owner, owned, s), k) <==> Live(owner, k) || k == s
    ensures w0.tree[s] == [] && s != DIRECTORY_SECTOR && forall k | IsSector(k) && w0.tree[k] != [] :: Live(owner, k)
  {
    RootAt(d0, owner, w0);
    DirectoryAt(d0, owner, w0, s);
    KeptLive(d0, owner, owned, s, w0.marks);
    forall k | IsSector(k) && w0.tree[k] != []
      ensures Live(owner, k)
    {
      DirectoryAt(d0, owner, w0, k);
    }
  }

  lemma NewDirectory(d1: Image, after: Owners, w1: DiskState, s: int)
    requires StateOf(d1, after) == w1 && w1.Whole? && IsSector(s)
    requires HeaderAt(d1, s).isDirectory ==> Unused(TableAt(d1, s))
    requires s != DIRECTORY_SECTOR
    ensures w1.tree[s] == [] || Unused(w1.tree[s])
  {
    DirectoryAt(d1, after, w1, s);
  }

  // A directory in files that are the same.
  lemma SameEntries(d0: Image, d1: Image, owner: Owners, after: Owners, w0: DiskState, w1: DiskState, h: int,
                    except: set<int>)
    requires StateOf(d0, owner) == w0 && w0.Whole? && StateOf(d1, after) == w1 && w1.Whole?
    requires IsSector(h) && (Live(after, h) <==> Live(owner, h)) && (h !in except || h == FREE_MAP_SECTOR)
    requires OthersSame(d0, d1, owner, except)
    ensures w1.tree[h] == w0.tree[h]
  {
    DirectoryAt(d0, owner, w0, h);
    DirectoryAt(d1, after, w1, h);
    if Live(owner, h) && h != FREE_MAP_SECTOR {
      assert SameFile(d0, d1, h);
    }
  }

  // Without s, the other files are live.
  lemma StillLiveWithout(d: Image, owner: Owners, m: set<int>, s: int)
    requires Tidy(d, owner, m) && Live(owner, s)
    ensures forall h :: Live(Assign(owner, Owned(d, s), FREE), h) <==> Live(owner, h) && h != s
  {
    LiveFile(d, owner, m, s);
    forall h | IsSector(h)
      ensures h in Owned(d, s) <==> owner[h] == s
    {
    }
  }

  // The tree after it was removed.
  lemma RemovedTree(d1: Image, d2: Image, owner: Owners, w1: DiskState, w2: DiskState, p: int, name: seq<byte>, s: int)
    requires StateOf(d1, owner) == w1 && w1.Whole? && IsSector(p) && w1.tree[p] != [] && Live(owner, s) && s != p
    requires RemovedFile(d1, d2, owner, w1.marks, p, name, s)
    requires w2 == StateOf(d2, Assign(owner, Owned(d1, s), FREE))
    ensures w2.Whole? && w2.marks == w1.marks - Owned(d1, s) && w2.tree[s] == []
    ensures NameRemoved(w1.tree[p], w2.tree[p], name)
    ensures forall h | IsSector(h) && h != p && h != s :: w2.tree[h] == w1.tree[h]
  {
    var after := Assign(owner, Owned(d1, s), FREE);
    DirectoryAt(d1, owner, w1, s);
    DirectoryAt(d1, owner, w1, p);
    StillLiveWithout(d1, owner, w1.marks, s);
    SameHeader(d1, d2, owner, after, w1, w2, p);
    DirectoryAt(d2, after, w2, s);
    forall h | IsSector(h) && h != p && h != s
      ensures w2.tree[h] == w1.tree[h]
    {
      SameEntries(d1, d2, owner, after, w1, w2, h, {p, s, FREE_MAP_SECTOR});
    }
  }

  // The same names stand for the same sectors in every directory.
  ghost predicate SameNames(t0: Tree, t1: Tree)
  {
    forall h, n {:trigger Lookup(t1[h], n)} | IsSector(h) :: Lookup(t1[h], n) == Lookup(t0[h], n)
  }

  // Create and RemoveDir, from a disk given by its value.
  method CreateAs(fs: FileSystem, path: seq<seq<byte>>, name: seq<byte>, initialSize: int32, ghost d0: Image,
                  ghost owner: Owners, ghost w: DiskState) returns (ok: bool, ghost p: int, ghost s: int)
    requires fs.Valid() && fs.disk.Image() == d0 && fs.owner == owner && fs.State() == w && w.Whole?
    requires initialSize >= -1 && NameFits(name, initialSize == -1)
    requires PathOk(w.tree, DIRECTORY_SECTOR, path) && Walk(w.tree, DIRECTORY_SECTOR, path) != -1
    modifies fs`owner, fs.disk.sectors, fs.freeMapFile.hdr, fs.freeMapFile.hdr.dataSectors
    ensures fs.Valid() && p == Walk(w.tree, DIRECTORY_SECTOR, path) && IsSector(p)
    ensures !ok ==> Untouched(d0, fs.disk.Image(), owner) && fs.owner == owner
    ensures ok ==> !HasName(w.tree[p], name)
    ensures ok ==> CreatedFile(d0, fs.disk.Image(), owner, w.marks, p, name,
                               if initialSize == -1 then DIRECTORY_FILE_SIZE else initialSize, initialSize == -1, s)
    ensures ok ==> fs.owner == Assign(owner, Owned(fs.disk.Image(), s), s)
  {
    ok, p, s := fs.Create(path, name, initialSize);
  }

  method RemoveAs(fs: FileSystem, path: seq<seq<byte>>, name: seq<byte>, ghost d0: Image, ghost owner: Owners,
                  ghost w: DiskState) returns (ok: bool, ghost p: int, ghost s: int)
    requires fs.Valid() && fs.disk.Image() == d0 && fs.owner == owner && fs.State() == w && w.Whole?
    requires PathOk(w.tree, DIRECTORY_SECTOR, path)
    modifies fs`owner, fs.disk.sectors, fs.freeMapFile.hdr, fs.freeMapFile.hdr.dataSectors
    ensures fs.Valid() && p == Walk(w.tree, DIRECTORY_SECTOR, path) && (p == -1 || IsSector(p))
    ensures ok <==> p != -1 && CanRemove(w.tree, p, name)
    ensures ok ==> s == Lookup(w.tree[p], name)
    ensures ok ==> RemovedFile(d0, fs.disk.Image(), owner, w.marks, p, name, s)
    ensures ok ==> fs.owner == Assign(owner, Owned(d0, s), FREE)
  {
    ok, p, s := fs.RemoveDir(path, name);
  }

  // Creates a file and removes it: every name stands for what it did, and the free map is
  // what it was. A file that can be created can be removed.
  method CreateThenRemove(fs: FileSystem, path: seq<seq<byte>>, name: seq<byte>, initialSize: int32)
      returns (created: bool, removed: bool)
    requires fs.Valid() && initialSize >= -1 && NameFits(name, initialSize == -1)
    requires PathOk(fs.State().tree, DIRECTORY_SECTOR, path) && Walk(fs.State().tree, DIRECTORY_SECTOR, path) != -1
    modifies fs`owner, fs.disk.sectors, fs.freeMapFile.hdr, fs.freeMapFile.hdr.dataSectors
    ensures fs.Valid() && removed == created
    ensures fs.State().marks == old(fs.State()).marks && SameNames(old(fs.State()).tree, fs.State().tree)
  {
    ghost var d0, owner0, w0 := fs.disk.Image(), fs.owner, fs.State();
    ghost var p, s;
    created, p, s := CreateAs(fs, path, name, initialSize, d0, owner0, w0);
    if !created {
      return false, false;
    }
    ghost var d1, owner1, w1 := fs.disk.Image(), fs.owner, fs.State();
    ghost var size := if initialSize == -1 then DIRECTORY_FILE_SIZE else initialSize;
    Removable(d0, d1, owner0, w0, w1, path, p, name, size, initialSize == -1, s);
    ghost var q, r;
    removed, q, r := RemoveAs(fs, path, name, d1, owner1, w1);
    Undone(d0, d1, fs.disk.Image(), owner0, w0, w1, fs.State(), p, name, size, initialSize == -1, s);
  }

  lemma Removable(d0: Image, d1: Image, owner: Owners, w0: DiskState, w1: DiskState, path: seq<seq<byte>>, p: int,
                  name: seq<byte>, size: int, isDir: bool, s: int)
    requires StateOf(d0, owner) == w0 && w0.Whole? && PathOk(w0.tree, DIRECTORY_SECTOR, path)
    requires p == Walk(w0.tree, DIRECTORY_SECTOR, path) && IsSector(p) && !HasName(w0.tree[p], name)
    requires CreatedFile(d0, d1, owner, w0.marks, p, name, size, isDir, s)
    requires w1 == StateOf(d1, Assign(owner, Owned(d1, s), s))
    ensures w1.Whole? && PathOk(w1.tree, DIRECTORY_SECTOR, path) && Walk(w1.tree, DIRECTORY_SECTOR, path) == p
    ensures w0.tree[p] != [] && CanRemove(w1.tree, p, name) && Lookup(w1.tree[p], name) == s
  {
    RootAt(d0, owner, w0);
    WalkEnds(w0.tree, DIRECTORY_SECTOR, path);
    CreatedTree(d0, d1, owner, w0, w1, p, name, size, isDir, s);
    FoundAgain(w0.tree, w1.tree, path, p, name, s);
  }

  // The path leads where it did, and the new name stands for s there.
  lemma FoundAgain(t0: Tree, t1: Tree, path: seq<seq<byte>>, p: int, name: seq<byte>, s: int)
    requires PathOk(t0, DIRECTORY_SECTOR, path) && p == Walk(t0, DIRECTORY_SECTOR, path)
    requires IsSector(p) && IsSector(s) && NameAdded(t0[p], t1[p], name, s) && !HasName(t0[p], name)
    requires t0[s] == [] && t1[p] != [] && forall h | IsSector(h) && h != p && h != s :: t1[h] == t0[h]
    requires t1[s] == [] || Unused(t1[s])
    ensures PathOk(t1, DIRECTORY_SECTOR, path) && Walk(t1, DIRECTORY_SECTOR, path) == p
    ensures CanRemove(t1, p, name) && Lookup(t1[p], name) == s
  {
    NamesKept(t0, t1, p, name, s);
    WalkStill(t0, t1, DIRECTORY_SECTOR, path);
  }

  // A tree that gains a name loses none.
  lemma NamesKept(t0: Tree, t1: Tree, p: int, name: seq<byte>, s: int)
    requires IsSector(p) && IsSector(s) && NameAdded(t0[p], t1[p], name, s) && !HasName(t0[p], name)
    requires t0[s] == [] && t1[p] != [] && forall h | IsSector(h) && h != p && h != s :: t1[h] == t0[h]
    ensures forall k, n {:trigger Lookup(t0[k], n)} | IsSector(k) && Lookup(t0[k], n) != -1 ::
      Lookup(t1[k], n) == Lookup(t0[k], n)
    ensures HasName(t1[p], name) && Lookup(t1[p], name) == s
  {
    assert Lookup(t1[p], name) == s;
    forall k, n | IsSector(k) && Lookup(t0[k], n) != -1
      ensures Lookup(t1[k], n) == Lookup(t0[k], n)
    {
      if k == p {
        assert Lookup(t1[p], n) == if Key(n, FILE_NAME_MAX) == Key(name, FILE_NAME_MAX) then s else Lookup(t0[p], n);
      }
    }
  }

  // A path ends in a directory.
  lemma {:induction false} WalkEnds(t: Tree, h: int, path: seq<seq<byte>>)
    requires IsSector(h) && t[h] != [] && PathOk(t, h, path) && Walk(t, h, path) != -1
    ensures IsSector(Walk(t, h, path)) && t[Walk(t, h, path)] != []
    decreases |path|
  {
    if path != [] {
      WalkEnds(t, Lookup(t[h], path[0]), path[1..]);
    }
  }

  lemma Undone(d0: Image, d1: Image, d2: Image, owner: Owners, w0: DiskState, w1: DiskState, w2: DiskState, p: int,
               name: seq<byte>, size: int, isDir: bool, s: int)
    requires StateOf(d0, owner) == w0 && w0.Whole? && IsSector(p) && w0.tree[p] != [] && !HasName(w0.tree[p], name)
    requires CreatedFile(d0, d1, owner, w0.marks, p, name, size, isDir, s)
    requires var owner1 := Assign(owner, Owned(d1, s), s);
      && w1 == StateOf(d1, owner1) && w1.Whole? && RemovedFile(d1, d2, owner1, w1.marks, p, name, s)
      && w2 == StateOf(d2, Assign(owner1, Owned(d1, s), FREE))
    ensures w2.Whole? && w2.marks == w0.marks && SameNames(w0.tree, w2.tree)
  {
    var owner1 := Assign(owner, Owned(d1, s), s);
    CreatedTree(d0, d1, owner, w0, w1, p, name, size, isDir, s);
    KeptLive(d0, owner, Owned(d1, s), s, w0.marks);
    RemovedTree(d1, d2, owner1, w1, w2, p, name, s);
    NamesBack(w0.tree, w1.tree, w2.tree, p, name, s);
  }

  lemma NamesBack(t0: Tree, t1: Tree, t2: Tree, p: int, name: seq<byte>, s: int)
    requires IsSector(p) && IsSector(s) && !HasName(t0[p], name) && t0[s] == [] && t2[s] == []
    requires NameAdded(t0[p], t1[p], name, s) && NameRemoved(t1[p], t2[p], name)
    requires forall h | IsSector(h) && h != p && h != s :: t1[h] == t0[h]
    requires forall h | IsSector(h) && h != p && h != s :: t2[h] == t1[h]
    ensures SameNames(t0, t2)
  {
    forall h, n | IsSector(h)
      ensures Lookup(t2[h], n) == Lookup(t0[h], n)
    {
      if h == p {
        var added := Key(n, FILE_NAME_MAX) == Key(name, FILE_NAME_MAX);
        assert Lookup(t1[p], n) == if added then s else Lookup(t0[p], n);
      }
    }
  }
}
