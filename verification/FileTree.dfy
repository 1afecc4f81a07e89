/**
 The tree of directories on a disk, and when a whole disk is consistent.
 */
module FileTree {
  import opened WordBits
  import opened SectorDisks
  import opened Chains
  import opened HeaderLayout
  import opened FileLayout
  import opened DirectoryEntries

  const DIRECTORY_SECTOR := 1
  const PIPE_SECTOR := 2

  // For every sector the entries of the directory whose header is there; [] if none is.
  type Tree = t: seq<seq<DirectoryEntry>> | |t| == NUM_SECTORS witness seq<seq<DirectoryEntry>>(NUM_SECTORS, _ => [])

  predicate IsSystem(h: int)
  {
    h == FREE_MAP_SECTOR || h == DIRECTORY_SECTOR || h == PIPE_SECTOR
  }

  // Entry i of directory p names the file with its header in sector h.
  ghost predicate Links(t: Tree, p: int, i: int, h: int)
  {
    IsSector(p) && 0 <= i < |t[p]| && t[p][i].inUse && t[p][i].sector == h
  }

  // A file is reached by a path of k entries from a system file.
  ghost predicate ReachedIn(t: Tree, h: int, k: nat)
    decreases k
  {
    if k == 0 then IsSystem(h) else exists p, i :: Links(t, p, i, h) && ReachedIn(t, p, k - 1)
  }

  ghost predicate Reached(t: Tree, h: int)
  {
    exists k: nat :: ReachedIn(t, h, k)
  }

  // Entries name live files, every file but the system files by one entry, and every
  // live file is reached.
  ghost predicate TreeOk(t: Tree, owner: Owners)
  {
    && (forall h {:trigger IsSystem(h)} | IsSystem(h) :: Live(owner, h))
    && (forall p, i, h | Links(t, p, i, h) :: Live(owner, p) && Live(owner, h) && !IsSystem(h))
    && (forall p, i, q, j, h | Links(t, p, i, h) && Links(t, q, j, h) :: p == q && i == j)
    && (forall h {:trigger Reached(t, h)} | Live(owner, h) :: Reached(t, h))
    && (forall p {:trigger Distinct(t[p])} | IsSector(p) :: Distinct(t[p]))
  }

  // The live files are exactly those reached.
  lemma LiveIsReached(t: Tree, owner: Owners, h: int)
    requires TreeOk(t, owner)
    ensures Live(owner, h) <==> Reached(t, h)
  {
    if k: nat :| ReachedIn(t, h, k) && k > 0 {
      var p, i :| Links(t, p, i, h) && ReachedIn(t, p, k - 1);
    }
  }

  // ---------------------------------------------------------------- adding and removing

  // Paths that lead through no lost entry are there still.
  lemma {:induction false} StillReached(t0: Tree, t1: Tree, lost: int, h: int, k: nat)
    requires forall p, i, g | Links(t0, p, i, g) && g != lost :: Links(t1, p, i, g)
    requires forall i, g :: !Links(t0, lost, i, g)
    requires ReachedIn(t0, h, k) && h != lost
    ensures ReachedIn(t1, h, k)
    decreases k
  {
    if k > 0 {
      var p, i :| Links(t0, p, i, h) && ReachedIn(t0, p, k - 1);
      StillReached(t0, t1, lost, p, k - 1);
    }
  }

  lemma LinkAdded(t: Tree, p: int, entries: seq<DirectoryEntry>, i: int, s: int, kids: seq<DirectoryEntry>, t1: Tree)
    requires IsSector(p) && IsSector(s) && p != s && 0 <= i < |t[p]| && !t[p][i].inUse
    requires |entries| == |t[p]| && entries == t[p][i := entries[i]] && entries[i].inUse && entries[i].sector == s
    requires Unused(t[s]) && Unused(kids) && t1 == t[p := entries][s := kids]
    ensures forall q, j, h :: Links(t1, q, j, h) <==> Links(t, q, j, h) || (q == p && j == i && h == s)
  {
  }

  lemma TreeAdd(t: Tree, owner: Owners, p: int, entries: seq<DirectoryEntry>, i: int, s: int, kids: seq<DirectoryEntry>,
                t1: Tree, owned: set<int>)
    requires TreeOk(t, owner) && Live(owner, p) && IsSector(s) && s in owned && 0 <= i < |t[p]| && !t[p][i].inUse
    requires forall x | x in owned && IsSector(x) :: owner[x] == FREE
    requires |entries| == |t[p]| && entries == t[p][i := entries[i]] && entries[i].inUse && entries[i].sector == s
    requires Distinct(entries) && Unused(kids) && t1 == t[p := entries][s := kids]
    ensures TreeOk(t1, Assign(owner, owned, s))
  {
    var after := Assign(owner, owned, s);
    assert forall h | IsSector(h) :: Live(after, h) <==> Live(owner, h) || h == s;
    assert forall j | 0 <= j < |t[s]| :: t[s][j].inUse ==> Links(t, s, j, t[s][j].sector);
    LinkAdded(t, p, entries, i, s, kids, t1);
    forall h | Live(after, h)
      ensures Reached(t1, h)
    {
      var g := if h == s then p else h;
      assert Reached(t, g);
      var k: nat :| ReachedIn(t, g, k);
      StillReached(t, t1, s, g, k);
      if h == s {
        assert Links(t1, p, i, s) && ReachedIn(t1, s, k + 1);
      }
    }
  }

  lemma LinkRemoved(t: Tree, p: int, entries: seq<DirectoryEntry>, i: int, s: int, t1: Tree)
    requires IsSector(p) && IsSector(s) && p != s && Links(t, p, i, s) && Unused(t[s])
    requires entries == t[p][i := t[p][i].(inUse := false)] && t1 == t[p := entries][s := []]
    ensures forall q, j, h :: Links(t1, q, j, h) <==> Links(t, q, j, h) && !(q == p && j == i)
  {
  }

  lemma TreeRemove(t: Tree, owner: Owners, p: int, entries: seq<DirectoryEntry>, i: int, s: int, t1: Tree,
                   owned: set<int>)
    requires TreeOk(t, owner) && Links(t, p, i, s) && Unused(t[s]) && Distinct(entries)
    requires entries == t[p][i := t[p][i].(inUse := false)] && t1 == t[p := entries][s := []]
    requires s in owned && forall x | IsSector(x) :: x in owned <==> owner[x] == s
    ensures TreeOk(t1, Assign(owner, owned, FREE))
  {
    var after := Assign(owner, owned, FREE);
    assert forall h | IsSector(h) :: Live(after, h) <==> Live(owner, h) && h != s;
    LinkRemoved(t, p, entries, i, s, t1);
    forall h | Live(after, h)
      ensures Reached(t1, h)
    {
      assert Reached(t, h);
      var k: nat :| ReachedIn(t, h, k);
      StillReached(t, t1, s, h, k);
    }
  }

  // ---------------------------------------------------------------- headers of all sectors

  // What the tree needs to know of a header and of the file behind it.
  datatype Info = Info(isDirectory: bool, numBytes: int, table: seq<DirectoryEntry>)
  type Infos = f: seq<Info> | |f| == NUM_SECTORS witness seq<Info>(NUM_SECTORS, _ => Info(false, 0, []))

  ghost predicate IsDirectory(f: Infos, h: int)
    requires IsSector(h)
  {
    h == DIRECTORY_SECTOR || f[h].isDirectory
  }

  ghost function TreeOf(f: Infos, owner: Owners): Tree
  {
    seq<seq<DirectoryEntry>>(NUM_SECTORS, h requires 0 <= h < NUM_SECTORS =>
      if Live(owner, h) && IsDirectory(f, h) then f[h].table else [])
  }

  ghost predicate Kinds(f: Infos, owner: Owners)
  {
    && !f[FREE_MAP_SECTOR].isDirectory && !f[PIPE_SECTOR].isDirectory
    && forall h {:trigger IsDirectory(f, h)} | Live(owner, h) && IsDirectory(f, h) ::
         f[h].numBytes == DIRECTORY_FILE_SIZE
  }

  ghost predicate Ordered(f: Infos, owner: Owners)
  {
    Kinds(f, owner) && TreeOk(TreeOf(f, owner), owner)
  }

  // The live files other than those in except look the same.
  ghost predicate LiveSame(f0: Infos, f1: Infos, owner: Owners, except: set<int>)
  {
    forall k | Live(owner, k) && k !in except :: f1[k] == f0[k]
  }

  ghost predicate SameHeader(f0: Infos, f1: Infos, h: int)
    requires IsSector(h)
  {
    f1[h].isDirectory == f0[h].isDirectory && f1[h].numBytes == f0[h].numBytes
  }

  lemma SystemFiles()
    ensures IsSystem(FREE_MAP_SECTOR) && IsSystem(DIRECTORY_SECTOR) && IsSystem(PIPE_SECTOR)
  {
  }

  lemma SameTree(f0: Infos, f1: Infos, owner: Owners)
    requires Ordered(f0, owner) && LiveSame(f0, f1, owner, {})
    ensures TreeOf(f1, owner) == TreeOf(f0, owner) && Ordered(f1, owner)
  {
    SystemFiles();
    assert forall h | Live(owner, h) :: IsDirectory(f1, h) <==> IsDirectory(f0, h);
  }

  // A new file s under a new name in directory p.
  lemma Created(f0: Infos, f1: Infos, owner: Owners, p: int, i: int, s: int, owned: set<int>)
    requires Ordered(f0, owner) && Live(owner, p) && IsDirectory(f0, p) && IsSector(s) && s in owned
    requires forall x | x in owned && IsSector(x) :: owner[x] == FREE
    requires LiveSame(f0, f1, owner, {p, FREE_MAP_SECTOR}) && SameHeader(f0, f1, p) &&
      SameHeader(f0, f1, FREE_MAP_SECTOR)
    requires var t, t1 := f0[p].table, f1[p].table;
      && Distinct(t1) && 0 <= i < |t| == |t1| && !t[i].inUse && t1 == t[i := t1[i]] && t1[i].inUse && t1[i].sector == s
    requires f1[s].isDirectory ==> f1[s].numBytes == DIRECTORY_FILE_SIZE && Unused(f1[s].table)
    ensures Ordered(f1, Assign(owner, owned, s))
  {
    var after := Assign(owner, owned, s);
    SystemFiles();
    assert forall h | IsSector(h) :: Live(after, h) <==> Live(owner, h) || h == s;
    assert forall h | Live(owner, h) && h != FREE_MAP_SECTOR :: IsDirectory(f1, h) <==> IsDirectory(f0, h);
    var t0, t1, kids := TreeOf(f0, owner), TreeOf(f1, after), if IsDirectory(f1, s) then f1[s].table else [];
    assert t1 == t0[p := f1[p].table][s := kids];
    TreeAdd(t0, owner, p, f1[p].table, i, s, kids, t1, owned);
  }

  // File s, named by entry i of directory p, is no more.
  lemma Removed(f0: Infos, f1: Infos, owner: Owners, p: int, i: int, s: int, owned: set<int>)
    requires Ordered(f0, owner) && Live(owner, p) && IsDirectory(f0, p) && IsSector(s) && s in owned
    requires forall x | IsSector(x) :: x in owned <==> owner[x] == s
    requires IsDirectory(f0, s) ==> Unused(f0[s].table)
    requires LiveSame(f0, f1, owner, {p, s, FREE_MAP_SECTOR}) && SameHeader(f0, f1, p) &&
      SameHeader(f0, f1, FREE_MAP_SECTOR)
    requires var t, t1 := f0[p].table, f1[p].table;
      && Distinct(t1) && 0 <= i < |t| && t[i].inUse && t[i].sector == s && t1 == t[i := t[i].(inUse := false)]
    ensures Ordered(f1, Assign(owner, owned, FREE))
  {
    var after, t0 := Assign(owner, owned, FREE), TreeOf(f0, owner);
    SystemFiles();
    assert Links(t0, p, i, s);
    TreeAfterRemoval(f0, f1, owner, p, s, after);
    TreeRemove(t0, owner, p, f1[p].table, i, s, TreeOf(f1, after), owned);
  }

  lemma TreeAfterRemoval(f0: Infos, f1: Infos, owner: Owners, p: int, s: int, owner1: Owners)
    requires Kinds(f0, owner) && Live(owner, p) && IsDirectory(f0, p) && IsSector(s) && s != p && !IsSystem(s)
    requires forall h | IsSector(h) :: Live(owner1, h) <==> Live(owner, h) && h != s
    requires forall h | IsSystem(h) :: Live(owner, h)
    requires LiveSame(f0, f1, owner, {p, s, FREE_MAP_SECTOR}) && SameHeader(f0, f1, p) &&
      SameHeader(f0, f1, FREE_MAP_SECTOR)
    ensures TreeOf(f1, owner1) == TreeOf(f0, owner)[p := f1[p].table][s := []] && Kinds(f1, owner1)
  {
    SystemFiles();
    assert forall h | Live(owner, h) && h != s :: IsDirectory(f1, h) <==> IsDirectory(f0, h);
  }

  // A file that is no directory was written, and may have grown.
  lemma Rewrote(f0: Infos, f1: Infos, owner: Owners, h: int, owner1: Owners)
    requires Ordered(f0, owner) && Live(owner, h) && !IsDirectory(f0, h) && !IsDirectory(f1, h)
    requires forall k | IsSector(k) :: Live(owner1, k) <==> Live(owner, k)
    requires LiveSame(f0, f1, owner, {h, FREE_MAP_SECTOR}) && SameHeader(f0, f1, FREE_MAP_SECTOR)
    ensures TreeOf(f1, owner1) == TreeOf(f0, owner) && Ordered(f1, owner1)
  {
    SystemFiles();
    assert forall k | Live(owner, k) :: IsDirectory(f1, k) <==> IsDirectory(f0, k);
    assert TreeOf(f1, owner1) == TreeOf(f0, owner);
    assert forall k :: Live(owner1, k) <==> Live(owner, k);
  }

  // A disk with the three system files and an empty root directory.
  lemma InitialTree(f: Infos, owner: Owners)
    requires forall h | IsSector(h) :: Live(owner, h) <==> IsSystem(h)
    requires f[DIRECTORY_SECTOR].numBytes == DIRECTORY_FILE_SIZE && Unused(f[DIRECTORY_SECTOR].table)
    requires forall h | IsSystem(h) :: !f[h].isDirectory
    ensures Ordered(f, owner)
  {
    SystemFiles();
    forall h | IsSystem(h)
      ensures Reached(TreeOf(f, owner), h)
    {
      assert ReachedIn(TreeOf(f, owner), h, 0);
    }
  }

  // ---------------------------------------------------------------- on disk

  ghost function TableAt(d: Image, h: int): seq<DirectoryEntry>
    requires IsSector(h)
  {
    DecodeTable(ContentsAt(d, h))
  }

  ghost function InfosOf(d: Image): Infos
  {
    seq<Info>(NUM_SECTORS, h requires 0 <= h < NUM_SECTORS =>
      Info(HeaderAt(d, h).isDirectory, HeaderAt(d, h).numBytes, TableAt(d, h)))
  }

  // The free map marks exactly the sectors of the files reached from the root and of the
  // system files, each of which belongs to one file.
  ghost predicate Consistent(d: Image, owner: Owners)
  {
    Laid(d, owner) && Ordered(InfosOf(d), owner)
  }

  // ---------------------------------------------------------------- reading the disk alone

  // What each sector says when it is read as the header of a directory, live or not.
  ghost function EntriesOn(f: Infos): Tree
  {
    seq<seq<DirectoryEntry>>(NUM_SECTORS, h requires 0 <= h < NUM_SECTORS =>
      if IsDirectory(f, h) then f[h].table else [])
  }

  // The file with its header in sector h is reached on the disk: it is a system file, or an
  // entry of a directory that is reached names it.
  ghost predicate OnDisk(d: Image, h: int)
  {
    IsSector(h) && Reached(EntriesOn(InfosOf(d)), h)
  }

  // Following entries from the system files meets only live files, so that it makes no
  // difference what other sectors would say.
  lemma {:induction false} ReachedLive(f: Infos, owner: Owners, h: int, k: nat)
    requires Ordered(f, owner)
    ensures ReachedIn(EntriesOn(f), h, k) <==> ReachedIn(TreeOf(f, owner), h, k)
    decreases k
  {
    var t0, t1 := TreeOf(f, owner), EntriesOn(f);
    if k > 0 {
      if p, i :| Links(t1, p, i, h) && ReachedIn(t1, p, k - 1) {
        ReachedLive(f, owner, p, k - 1);
        LiveIsReached(t0, owner, p);
        assert Links(t0, p, i, h);
      }
      if p, i :| Links(t0, p, i, h) && ReachedIn(t0, p, k - 1) {
        ReachedLive(f, owner, p, k - 1);
        assert Links(t1, p, i, h);
      }
    }
  }

  // The live files of a consistent disk are those reached on it.
  lemma LiveIsOnDisk(d: Image, owner: Owners, h: int)
    requires Consistent(d, owner)
    ensures OnDisk(d, h) <==> Live(owner, h)
  {
    var f := InfosOf(d);
    LiveIsReached(TreeOf(f, owner), owner, h);
    forall k: nat
      ensures ReachedIn(EntriesOn(f), h, k) <==> ReachedIn(TreeOf(f, owner), h, k)
    {
      ReachedLive(f, owner, h, k);
    }
  }

  // Every sector is accounted for, by what is on the disk alone: the free map marks just the
  // headers, data and index sectors of the files reached, and no two files share a sector.
  ghost predicate AccountedFor(d: Image)
  {
    && (forall s :: s in Marks(d) <==> exists h :: OnDisk(d, h) && s in Owned(d, h))
    && (forall h, k | OnDisk(d, h) && OnDisk(d, k) && h != k :: Owned(d, h) !! Owned(d, k))
  }

  // What consistency means, without mention of who owns what.
  lemma ConsistentMeans(d: Image, owner: Owners)
    requires Consistent(d, owner)
    ensures AccountedFor(d)
  {
    forall s
      ensures s in Marks(d) <==> exists h :: OnDisk(d, h) && s in Owned(d, h)
    {
      MarksAreOwned(d, owner, s);
    }
    forall h, k | OnDisk(d, h) && OnDisk(d, k) && h != k
      ensures Owned(d, h) !! Owned(d, k)
    {
      FilesAreDisjoint(d, owner, h, k);
    }
  }

  lemma MarksAreOwned(d: Image, owner: Owners, s: int)
    requires Consistent(d, owner)
    ensures s in Marks(d) <==> exists h :: OnDisk(d, h) && s in Owned(d, h)
  {
    if s in Marks(d) {
      SectorInUse(d, owner, Marks(d), s);
      LiveIsOnDisk(d, owner, owner[s]);
      LiveFile(d, owner, Marks(d), owner[s]);
    }
    forall h | OnDisk(d, h) && s in Owned(d, h)
      ensures s in Marks(d)
    {
      LiveIsOnDisk(d, owner, h);
      LiveFile(d, owner, Marks(d), h);
    }
  }

  lemma FilesAreDisjoint(d: Image, owner: Owners, h: int, k: int)
    requires Consistent(d, owner) && h != k && OnDisk(d, h) && OnDisk(d, k)
    ensures Owned(d, h) !! Owned(d, k)
  {
    LiveIsOnDisk(d, owner, h);
    LiveIsOnDisk(d, owner, k);
    OwnedApart(d, owner, Marks(d), h, k);
  }

  lemma InfosSame(d0: Image, d1: Image, owner: Owners, except: set<int>)
    requires OthersSame(d0, d1, owner, except)
    ensures LiveSame(InfosOf(d0), InfosOf(d1), owner, except)
  {
    forall k | Live(owner, k) && k !in except
      ensures InfosOf(d1)[k] == InfosOf(d0)[k]
    {
      assert SameFile(d0, d1, k);
    }
  }
}
