/**
 The file system (filesys/filesys.cc built with MULTI_LEVEL_DIR): formatting, creating
 and removing files keep the whole disk consistent.
 */
module FileSystems {
  import opened WordBits
  import opened Allocation
  import opened SectorDisks
  import opened BitMaps
  import opened Chains
  import opened HeaderLayout
  import opened FileHeaders
  import opened FileLayout
  import opened FileBytes
  import opened OpenFiles
  import opened DirectoryEntries
  import opened Directories
  import opened FileTree

  // Following the components of a path down from directory h.
  ghost function Walk(t: Tree, h: int, path: seq<seq<byte>>): int
    requires IsSector(h)
    decreases |path|
  {
    if path == [] then h else
      var next := Lookup(t[h], path[0]);
      if IsSector(next) then Walk(t, next, path[1..]) else -1
  }

  // Whatever the path finds on its way is a directory.
  ghost predicate PathOk(t: Tree, h: int, path: seq<seq<byte>>)
    requires IsSector(h)
    decreases |path|
  {
    path == [] ||
    (var next := Lookup(t[h], path[0]);
     IsSector(next) ==> t[next] != [] && PathOk(t, next, path[1..]))
  }

  lemma PathStep(t: Tree, h: int, path: seq<seq<byte>>, i: nat)
    requires IsSector(h) && i < |path| && PathOk(t, h, path[i..])
    ensures var next := Lookup(t[h], path[i]); IsSector(next) ==> t[next] != [] && PathOk(t, next, path[i + 1..])
  {
    assert path[i..][1..] == path[i + 1..];
  }

  // The sectors that a path leads through from the root: in each directory the next name
  // stands for the next one.
  ghost predicate Leads(t: Tree, path: seq<seq<byte>>, trail: seq<int>)
  {
    && 0 < |trail| <= |path| + 1
    && var n := |trail| - 1;
       && IsSector(trail[n])
       && if n == 0 then trail[0] == DIRECTORY_SECTOR
          else Leads(t, path, trail[..n]) && trail[n] == Lookup(t[trail[n - 1]], path[n - 1])
  }

  lemma {:induction false} LeadsMeans(t: Tree, path: seq<seq<byte>>, trail: seq<int>)
    requires Leads(t, path, trail)
    ensures trail[0] == DIRECTORY_SECTOR && forall i | 0 <= i < |trail| :: IsSector(trail[i])
    ensures forall i | 0 <= i < |trail| - 1 :: IsSector(trail[i]) && trail[i + 1] == Lookup(t[trail[i]], path[i])
  {
    var n := |trail| - 1;
    if n > 0 {
      LeadsMeans(t, path, trail[..n]);
      assert trail[..n][n - 1] == trail[n - 1];
    }
  }

  lemma LeadsOn(t: Tree, path: seq<seq<byte>>, trail: seq<int>, next: int)
    requires Leads(t, path, trail) && |trail| <= |path| && IsSector(next)
    requires next == Lookup(t[trail[|trail| - 1]], path[|trail| - 1])
    ensures Leads(t, path, trail + [next])
  {
    assert (trail + [next])[..|trail|] == trail;
  }

  // A walk ends where the path leads when every name on it is found, and nowhere when one is
  // not.
  lemma WalkMeans(t: Tree, path: seq<seq<byte>>, trail: seq<int>)
    requires Leads(t, path, trail)
    ensures |trail| == |path| + 1 ==> Walk(t, DIRECTORY_SECTOR, path) == trail[|path|]
    ensures |trail| <= |path| && !IsSector(Lookup(t[trail[|trail| - 1]], path[|trail| - 1])) ==>
      Walk(t, DIRECTORY_SECTOR, path) == -1
  {
    WalkAlong(t, path, trail);
    if |trail| == |path| + 1 {
      assert path[|path|..] == [];
    } else {
      assert path[|trail| - 1..][0] == path[|trail| - 1];
    }
  }

  lemma {:induction false} WalkAlong(t: Tree, path: seq<seq<byte>>, trail: seq<int>)
    requires Leads(t, path, trail)
    ensures Walk(t, DIRECTORY_SECTOR, path) == Walk(t, trail[|trail| - 1], path[|trail| - 1..])
  {
    var n := |trail| - 1;
    if n == 0 {
      assert path[0..] == path;
    } else {
      WalkAlong(t, path, trail[..n]);
      assert path[n - 1..][1..] == path[n..] && path[n - 1..][0] == path[n - 1];
    }
  }

  // A path is in order exactly when all the sectors that it leads through are directories.
  lemma {:induction false} PathOkMeans(t: Tree, path: seq<seq<byte>>, trail: seq<int>)
    requires Leads(t, path, trail) && t[DIRECTORY_SECTOR] != []
    requires |trail| == |path| + 1 || !IsSector(Lookup(t[trail[|trail| - 1]], path[|trail| - 1]))
    ensures PathOk(t, DIRECTORY_SECTOR, path) <==>
      forall i | 0 <= i < |trail| :: IsSector(trail[i]) && t[trail[i]] != []
  {
    LeadsMeans(t, path, trail);
    assert path[0..] == path;
    PathOkFrom(t, path, trail, 0);
  }

  lemma {:induction false} PathOkFrom(t: Tree, path: seq<seq<byte>>, trail: seq<int>, k: nat)
    requires k < |trail| <= |path| + 1 && forall i | 0 <= i < |trail| :: 0 <= trail[i] < NUM_SECTORS
    requires forall i | 0 <= i < |trail| - 1 :: trail[i + 1] == Lookup(t[trail[i]], path[i])
    requires |trail| == |path| + 1 || !IsSector(Lookup(t[trail[|trail| - 1]], path[|trail| - 1]))
    ensures PathOk(t, trail[k], path[k..]) <==> forall i | k < i < |trail| :: IsSector(trail[i]) && t[trail[i]] != []
    decreases |trail| - k
  {
    if k < |path| {
      assert path[k..][0] == path[k] && path[k..][1..] == path[k + 1..];
      if k + 1 < |trail| {
        PathOkFrom(t, path, trail, k + 1);
        assert IsSector(trail[k + 1]);
      }
    }
  }

  // A name in a directory of a consistent tree stands for a live file.
  lemma LookupIsLive(t: Tree, owner: Owners, h: int, name: seq<byte>)
    requires TreeOk(t, owner) && IsSector(h)
    ensures Lookup(t[h], name) == -1 || Live(owner, Lookup(t[h], name))
    ensures Lookup(t[h], name) != -1 <==> HasName(t[h], name)
    ensures Lookup(t[h], name) != -1 ==>
      Links(t, h, IndexOf(t[h], Key(name, FILE_NAME_MAX)), Lookup(t[h], name))
  {
    if HasName(t[h], name) {
      var i := IndexOf(t[h], Key(name, FILE_NAME_MAX));
      assert Links(t, h, i, t[h][i].sector);
    }
  }

  // What a disk amounts to: a directory tree and the sectors in use.
  datatype DiskState = Broken | Whole(tree: Tree, marks: set<int>)

  ghost function StateOf(d: Image, owner: Owners): (s: DiskState)
    ensures s.Whole? <==> Consistent(d, owner)
  {
    if Consistent(d, owner) then Whole(TreeOf(InfosOf(d), owner), Marks(d)) else Broken
  }

  // Headers at most were rewritten, with what they were.
  ghost predicate Untouched(d0: Image, d1: Image, owner: Owners)
  {
    StateOf(d1, owner) == StateOf(d0, owner) && OthersSame(d0, d1, owner, {})
  }

  lemma LookupInTree(d: Image, owner: Owners, w: DiskState, h: int, name: seq<byte>)
    requires StateOf(d, owner) == w && w.Whole? && IsSector(h)
    ensures Lookup(w.tree[h], name) == -1 || Live(owner, Lookup(w.tree[h], name))
    ensures Lookup(w.tree[h], name) != -1 <==> HasName(w.tree[h], name)
    ensures Lookup(w.tree[h], name) != -1 ==>
      Links(w.tree, h, IndexOf(w.tree[h], Key(name, FILE_NAME_MAX)), Lookup(w.tree[h], name))
    ensures Distinct(w.tree[h])
  {
    LookupIsLive(w.tree, owner, h, name);
  }

  lemma UntouchedStill(d0: Image, d1: Image, owner: Owners, w: DiskState)
    requires StateOf(d0, owner) == w && w.Whole? && Tidy(d1, owner, w.marks) && OthersSame(d0, d1, owner, {})
    ensures Untouched(d0, d1, owner)
  {
    assert SameFile(d0, d1, FREE_MAP_SECTOR);
    InfosSame(d0, d1, owner, {});
    SameTree(InfosOf(d0), InfosOf(d1), owner);
  }

  lemma RootAt(d: Image, owner: Owners, w: DiskState)
    requires StateOf(d, owner) == w && w.Whole?
    ensures w.tree[DIRECTORY_SECTOR] != [] && Live(owner, FREE_MAP_SECTOR)
  {
    SystemFiles();
    assert Live(owner, DIRECTORY_SECTOR);
    DirectoryAt(d, owner, w, DIRECTORY_SECTOR);
  }

  // What the tree says about the disk.
  lemma DirectoryAt(d: Image, owner: Owners, w: DiskState, h: int)
    requires StateOf(d, owner) == w && w.Whole? && IsSector(h)
    ensures w.tree[h] != [] <==> Live(owner, h) && IsDirectory(InfosOf(d), h)
    ensures w.tree[h] != [] ==> FileOk(d, h) && HeaderAt(d, h).numBytes == DIRECTORY_FILE_SIZE
    ensures w.tree[h] != [] ==> w.tree[h] == TableAt(d, h) && |w.tree[h]| == NUM_DIR_ENTRIES
    ensures Tidy(d, owner, w.marks)
  {
    var info := InfosOf(d)[h];
    if Live(owner, h) {
      LiveFile(d, owner, w.marks, h);
    }
    assert TreeOf(InfosOf(d), owner)[h] == w.tree[h];
    assert Live(owner, h) && IsDirectory(InfosOf(d), h) ==> info.numBytes == DIRECTORY_FILE_SIZE;
  }

  method OpenDirectory(disk: SectorDisk, h: int, ghost owner: Owners, ghost w: DiskState)
      returns (file: OpenFile, directory: Directory)
    requires disk.Valid() && StateOf(disk.Image(), owner) == w && w.Whole? && IsSector(h) && w.tree[h] != []
    ensures fresh(file) && fresh(file.hdr) && fresh(file.hdr.dataSectors) && fresh(directory) && fresh(directory.table)
    ensures file.disk == disk && file.Current() && file.hdr.headerSector == h
    ensures file.hdr.numBytes == DIRECTORY_FILE_SIZE && directory.table.Length == NUM_DIR_ENTRIES
    ensures directory.Entries() == w.tree[h]
  {
    DirectoryAt(disk.Image(), owner, w, h);
    file := new OpenFile(disk, h);
    directory := new Directory();
    directory.FetchFrom(file);
  }

  // Closes a directory that was only read.
  method CloseUntouched(file: OpenFile, ghost owner: Owners, ghost w: DiskState)
    requires file.Current() && StateOf(file.disk.Image(), owner) == w && w.Whole? && w.tree[file.hdr.headerSector] != []
    modifies file.disk.sectors
    ensures Untouched(old(file.disk.Image()), file.disk.Image(), owner)
  {
    ghost var d0 := file.disk.Image();
    DirectoryAt(d0, owner, w, file.hdr.headerSector);
    file.Close(owner, w.marks);
    UntouchedStill(d0, file.disk.Image(), owner, w);
  }

  // One component of a path.
  method Descend(disk: SectorDisk, sector: int, name: seq<byte>, ghost owner: Owners, ghost w: DiskState)
      returns (next: int)
    requires disk.Valid() && StateOf(disk.Image(), owner) == w && w.Whole? && IsSector(sector) && w.tree[sector] != []
    modifies disk.sectors
    ensures next == Lookup(w.tree[sector], name) && (next == -1 || IsSector(next))
    ensures Untouched(old(disk.Image()), disk.Image(), owner)
  {
    LookupInTree(disk.Image(), owner, w, sector, name);
    var dirFile, tmpDir := OpenDirectory(disk, sector, owner, w);
    next := tmpDir.Find(name);
    if next != -1 {
      CloseUntouched(dirFile, owner, w);
    }
  }

  // The directory that a path lies in; -1 if there is none.
  method FindDirSector(disk: SectorDisk, path: seq<seq<byte>>, ghost owner: Owners, ghost w: DiskState)
      returns (sector: int, ghost trail: seq<int>)
    requires disk.Valid() && StateOf(disk.Image(), owner) == w && w.Whole? && PathOk(w.tree, DIRECTORY_SECTOR, path)
    modifies disk.sectors
    ensures sector == Walk(w.tree, DIRECTORY_SECTOR, path)
    // from the root each name leads to the next sector, up to the last or one not found
    ensures 0 < |trail| <= |path| + 1 && trail[0] == DIRECTORY_SECTOR
    ensures forall i | 0 <= i < |trail| :: 0 <= trail[i] < NUM_SECTORS
    ensures forall i | 0 <= i < |trail| - 1 :: trail[i + 1] == Lookup(w.tree[trail[i]], path[i])
    ensures if |trail| == |path| + 1 then sector == trail[|path|]
            else sector == -1 && Lookup(w.tree[trail[|trail| - 1]], path[|trail| - 1]) == -1
    ensures sector == -1 || (IsSector(sector) && w.tree[sector] != [])
    ensures Untouched(old(disk.Image()), disk.Image(), owner)
  {
    sector, trail := FollowPath(disk, path, owner, w);
    WalkMeans(w.tree, path, trail);
    LeadsMeans(w.tree, path, trail);
  }

  method FollowPath(disk: SectorDisk, path: seq<seq<byte>>, ghost owner: Owners, ghost w: DiskState)
      returns (sector: int, ghost trail: seq<int>)
    requires disk.Valid() && StateOf(disk.Image(), owner) == w && w.Whole? && PathOk(w.tree, DIRECTORY_SECTOR, path)
    modifies disk.sectors
    ensures Leads(w.tree, path, trail) && EndsAt(w.tree, path, trail, sector)
    ensures Untouched(old(disk.Image()), disk.Image(), owner)
  {
    ghost var d0 := disk.Image();
    RootAt(d0, owner, w);
    sector, trail := DIRECTORY_SECTOR, [DIRECTORY_SECTOR];
    for i := 0 to |path|
      invariant Untouched(d0, disk.Image(), owner) && OnPath(w.tree, path, i, sector, trail)
    {
      var next := DescendOne(disk, path, i, sector, trail, owner, w);
      if next == -1 {
        return -1, trail;
      }
      sector, trail := next, trail + [next];
    }
  }

  // At the last sector of the trail, a directory, or nowhere, the next name not being found.
  ghost predicate EndsAt(t: Tree, path: seq<seq<byte>>, trail: seq<int>, sector: int)
    requires Leads(t, path, trail)
  {
    var last := trail[|trail| - 1];
    if |trail| == |path| + 1 then sector == last && t[sector] != []
    else sector == -1 && Lookup(t[last], path[|trail| - 1]) == -1
  }

  // The first i names lead to a directory, by that trail.
  ghost predicate OnPath(t: Tree, path: seq<seq<byte>>, i: nat, sector: int, trail: seq<int>)
  {
    && i <= |path| && IsSector(sector) && t[sector] != [] && PathOk(t, sector, path[i..])
    && |trail| == i + 1 && trail[i] == sector && Leads(t, path, trail)
  }

  method DescendOne(disk: SectorDisk, path: seq<seq<byte>>, i: nat, sector: int, ghost trail: seq<int>,
                    ghost owner: Owners, ghost w: DiskState)
      returns (next: int)
    requires disk.Valid() && StateOf(disk.Image(), owner) == w && w.Whole?
    requires i < |path| && OnPath(w.tree, path, i, sector, trail)
    modifies disk.sectors
    ensures Untouched(old(disk.Image()), disk.Image(), owner) && next == Lookup(w.tree[sector], path[i])
    ensures next != -1 ==> OnPath(w.tree, path, i + 1, next, trail + [next])
  {
    PathStep(w.tree, sector, path, i);
    next := Descend(disk, sector, path[i], owner, w);
    if next != -1 {
      LeadsOn(w.tree, path, trail, next);
    }
  }

  // ---------------------------------------------------------------- creating

  // A new file in sectors that were free, not yet in any directory nor on the map.
  ghost predicate Made(d0: Image, d1: Image, owner: Owners, m: set<int>, s: int, size: int, isDir: bool)
  {
    && FileOk(d1, s) && HeaderAt(d1, s).numBytes == size && HeaderAt(d1, s).isDirectory == isDir
    && Owned(d1, s) !! m && OthersSame(d0, d1, owner, {})
    && Tidy(d1, Assign(owner, Owned(d1, s), s), m + Owned(d1, s))
  }

  const DOT: byte := 0x2E
  const DIR: seq<byte> := [0x44, 0x49, 0x52]
  // Room for the four strings of a header.
  const STRINGS_LENGTH := 80

  function LastDot(s: seq<byte>): (r: int)
    ensures -1 <= r < |s|
  {
    if s == [] then -1 else if s[|s| - 1] == DOT then |s| - 1 else LastDot(s[..|s| - 1])
  }

  // GetFileExtension: what follows the last dot, unless the name begins with it.
  function Extension(name: seq<byte>): seq<byte>
  {
    var chars := Key(name, |name|);
    if LastDot(chars) <= 0 then [] else chars[LastDot(chars) + 1..]
  }

  lemma {:induction false} LastDotIs(base: seq<byte>, ext: seq<byte>)
    requires DOT !in ext
    ensures LastDot(base + [DOT] + ext) == |base|
    decreases |ext|
  {
    var s := base + [DOT] + ext;
    if ext != [] {
      assert s[|s| - 1] == ext[|ext| - 1] && ext[|ext| - 1] in ext;
      assert s[..|s| - 1] == base + [DOT] + ext[..|ext| - 1];
      LastDotIs(base, ext[..|ext| - 1]);
    }
  }

  lemma {:induction false} WholeKey(s: seq<byte>)
    requires 0 !in s
    ensures Key(s, |s|) == s
  {
    if s != [] {
      assert s[0] in s;
      WholeKey(s[1..]);
    }
  }

  lemma ExtensionMeans(base: seq<byte>, ext: seq<byte>)
    requires base != [] && 0 !in base && 0 !in ext && DOT !in ext
    ensures Extension(base + [DOT] + ext) == ext
  {
    WholeKey(base + [DOT] + ext);
    LastDotIs(base, ext);
  }

  // A name without a dot, or with none but its first character, has no extension.
  lemma NoExtension(name: seq<byte>)
    requires forall k | 0 < k < |name| :: name[k] != DOT
    ensures Extension(name) == []
  {
    NoDot(Key(name, |name|));
  }

  lemma {:induction false} NoDot(s: seq<byte>)
    requires forall k | 0 < k < |s| :: s[k] != DOT
    ensures LastDot(s) <= 0
  {
    if |s| > 1 {
      NoDot(s[..|s| - 1]);
    }
  }

  // What CreateInit is given as the extension of the file.
  function ExtensionFor(name: seq<byte>, isDir: bool): seq<byte>
  {
    if isDir then DIR else Extension(name)
  }

  // The extension that the file gets is short enough, and that of a directory for a
  // directory alone.
  predicate NameFits(name: seq<byte>, isDir: bool)
  {
    |ExtensionFor(name, isDir)| < STRINGS_LENGTH && (ExtensionFor(name, isDir) == DIR <==> isDir)
  }

  // A directory may have any name, and another file any that does not give it the extension
  // of one, nor one that is too long.
  lemma NameFitsMeans(name: seq<byte>)
    ensures NameFits(name, true)
    ensures NameFits(name, false) <==> Extension(name) != DIR && |Extension(name)| < STRINGS_LENGTH
    ensures WordFrom(DIR[0], DIR[1], DIR[2], 0) == Unsigned(DIR_EXT)
  {
  }

  // The header, the data and the index sectors of a new file, on the disk: in order for the
  // sizes from 0 on. A size between that and minus a sector makes a header of that length,
  // without sectors.
  method MakeFile(freeMap: BitMap, disk: SectorDisk, s: int, name: seq<byte>, size: int32, isDir: bool,
                  ghost owner: Owners, ghost m: set<int>)
      returns (r: Outcome)
    requires Mapped(freeMap, disk) && IsSector(s) && s !in m && |ExtensionFor(name, isDir)| < STRINGS_LENGTH
    requires Tidy(disk.Image(), owner, m) && freeMap.Marked() == m + {s}
    modifies freeMap.bits, freeMap`base, freeMap`found, disk.sectors
    ensures Mapped(freeMap, disk)
    ensures r.Stopped? <==> size <= -SECTOR_SIZE
    ensures r.Done? <==> size > -SECTOR_SIZE && Total(SectorsOfSize(size)) <= NumClear(m + {s}, NUM_SECTORS)
    ensures !r.Done? ==> disk.Image() == old(disk.Image())
    ensures r.Done? && size >= 0 ==>
      && Made(old(disk.Image()), disk.Image(), owner, m, s, size, ExtensionFor(name, isDir) == DIR)
      && freeMap.Marked() == m + Owned(disk.Image(), s)
    ensures r.Done? && size < 0 ==>
      && HeaderAt(disk.Image(), s).numBytes == size && freeMap.Marked() == m + {s}
      && disk.Image() == old(disk.Image())[s := disk.Image()[s]]
  {
    ghost var d0, got := disk.Image(), |freeMap.found|;
    var hdr := new FileHeader();
    r := hdr.Allocate(freeMap, disk, size);
    if r.Done? {
      ghost var d1 := disk.Image();
      hdr.isDirectory := ExtensionFor(name, isDir) == DIR;
      assert ChainOf(hdr.Value(), d1) == freeMap.found[got..];
      hdr.WriteBack(disk, s);
      if size >= 0 {
        NewMade(d0, d1, owner, m, s, hdr.Value(), disk.Image());
      } else {
        NoSectors(d0, d1, s, hdr.Value(), disk.Image());
        assert freeMap.found[got..] == [];
      }
    }
  }

  lemma NewMade(d0: Image, d1: Image, owner: Owners, m: set<int>, s: int, h: Header, d2: Image)
    requires Tidy(d0, owner, m) && IsSector(s) && s !in m && InOrder(h, d1)
    requires Elems(ChainOf(h, d1)) !! m + {s}
    requires OnlyTablesWritten(d0, d1, ChainOf(h, d1)) && d2 == d1[s := EncodeHeader(h)]
    ensures Made(d0, d2, owner, m, s, h.numBytes, h.isDirectory)
    ensures Owned(d2, s) == {s} + Elems(ChainOf(h, d1))
  {
    NewFile(d0, d1, owner, m, s, h, d2);
  }

  lemma NoSectors(d0: Image, d1: Image, s: int, h: Header, d2: Image)
    requires IsSector(s) && h.numSectors == 0 && OnlyTablesWritten(d0, d1, ChainOf(h, d1))
    requires d2 == d1[s := EncodeHeader(h)]
    ensures ChainOf(h, d1) == [] && HeaderAt(d2, s) == h && d2 == d0[s := d2[s]]
  {
    HeaderRoundTrip(h);
    assert d1 == d0;
  }

  // A negative length, or that of no directory under the extension of one, belongs to no
  // file of a consistent disk.
  lemma OddFile(d: Image, owner: Owners, s: int)
    requires Live(owner, s)
    requires var h := HeaderAt(d, s); h.numBytes < 0 || (h.isDirectory && h.numBytes != DIRECTORY_FILE_SIZE)
    ensures !Consistent(d, owner)
  {
    if Consistent(d, owner) {
      LiveFile(d, owner, Marks(d), s);
      assert InfosOf(d)[s].numBytes == HeaderAt(d, s).numBytes;
      DirectoryAt(d, owner, StateOf(d, owner), s);
    }
  }

  // A directory starts out empty.
  method InitDirectory(disk: SectorDisk, s: int, ghost owner: Owners, ghost m: set<int>)
    requires disk.Valid() && Tidy(disk.Image(), owner, m) && Live(owner, s)
    requires HeaderAt(disk.Image(), s).numBytes == DIRECTORY_FILE_SIZE
    modifies disk.sectors
    ensures Tidy(disk.Image(), owner, m) && OthersSame(old(disk.Image()), disk.Image(), owner, {s})
    ensures HeaderAt(disk.Image(), s) == HeaderAt(old(disk.Image()), s) &&
      ChainAt(disk.Image(), s) == ChainAt(old(disk.Image()), s)
    ensures Unused(TableAt(disk.Image(), s))
  {
    LiveFile(disk.Image(), owner, m, s);
    var dir := new Directory();
    var subDir := new OpenFile(disk, s);
    dir.WriteBack(subDir, owner, m);
    ghost var d := disk.Image();
    subDir.Close(owner, m);
    assert SameFile(d, disk.Image(), s);
  }

  lemma MadeStill(d0: Image, d1: Image, d2: Image, owner: Owners, m: set<int>, s: int, size: int, isDir: bool)
    requires Tidy(d0, owner, m) && Made(d0, d1, owner, m, s, size, isDir)
    requires var after := Assign(owner, Owned(d1, s), s);
      Tidy(d2, after, m + Owned(d1, s)) && OthersSame(d1, d2, after, {s})
    requires HeaderAt(d2, s) == HeaderAt(d1, s) && ChainAt(d2, s) == ChainAt(d1, s)
    ensures Made(d0, d2, owner, m, s, size, isDir)
  {
    var after := Assign(owner, Owned(d1, s), s);
    assert Live(after, s);
    KeptLive(d0, owner, Owned(d1, s), s, m);
    assert Owned(d2, s) == Owned(d1, s);
  }

  // Taking free sectors for a new file leaves the live files as they are.
  lemma KeptLive(d: Image, owner: Owners, owned: set<int>, s: int, m: set<int>)
    requires Tidy(d, owner, m) && owned !! m && s in owned && IsSector(s)
    ensures forall k :: Live(Assign(owner, owned, s), k) <==> Live(owner, k) || k == s
    ensures !Live(owner, s) && forall x | x in owned && IsSector(x) :: owner[x] == FREE
  {
    forall x | x in owned && IsSector(x)
      ensures owner[x] == FREE
    {
      SectorInUse(d, owner, m, x);
    }
  }

  // The changed directory p and the map m are on the disk.
  ghost predicate Stored(d0: Image, d1: Image, owner: Owners, m: set<int>, p: int, entries: seq<DirectoryEntry>)
  {
    && Laid(d1, owner) && Marks(d1) == m && OthersSame(d0, d1, owner, {p, FREE_MAP_SECTOR})
    && IsSector(p) && HeaderAt(d1, p) == HeaderAt(d0, p) && TableAt(d1, p) == entries
    && HeaderAt(d1, FREE_MAP_SECTOR) == HeaderAt(d0, FREE_MAP_SECTOR)
  }

  // d1 with the directory, d2 with the map as well, d3 after closing the directory.
  lemma StoredLast(d0: Image, d1: Image, d2: Image, d3: Image, owner: Owners, m: set<int>, p: int,
                   entries: seq<DirectoryEntry>)
    requires Live(owner, p) && p != FREE_MAP_SECTOR && Live(owner, FREE_MAP_SECTOR)
    requires OthersSame(d0, d1, owner, {p}) && HeaderAt(d1, p) == HeaderAt(d0, p) && TableAt(d1, p) == entries
    requires MapStored(d1, d2, owner, m)
    requires Tidy(d3, owner, m) && OthersSame(d2, d3, owner, {})
    ensures Stored(d0, d3, owner, m, p, entries)
  {
    assert SameFile(d0, d1, FREE_MAP_SECTOR) && SameFile(d1, d2, p);
    assert SameFile(d2, d3, p) && SameFile(d2, d3, FREE_MAP_SECTOR);
  }

  method StoreCreated(directory: Directory, dirFile: OpenFile, freeMap: BitMap, freeMapFile: OpenFile,
                      ghost owner: Owners, ghost m: set<int>)
    requires dirFile.Current() && dirFile.hdr.numBytes == DIRECTORY_FILE_SIZE &&
      directory.table.Length == NUM_DIR_ENTRIES
    requires freeMapFile.IsFreeMap() && freeMapFile.disk == dirFile.disk && freeMapFile.hdr != dirFile.hdr
    requires freeMapFile.hdr.dataSectors != dirFile.hdr.dataSectors
    requires dirFile.hdr.headerSector != FREE_MAP_SECTOR
    requires Live(owner, dirFile.hdr.headerSector) && Live(owner, FREE_MAP_SECTOR)
    requires Mapped(freeMap, dirFile.disk) && freeMap.Marked() == m && Tidy(dirFile.disk.Image(), owner, m)
    requires freeMap.bits as object != dirFile.hdr.dataSectors
    modifies dirFile.disk.sectors, dirFile.hdr, dirFile.hdr.dataSectors, freeMapFile.hdr, freeMapFile.hdr.dataSectors
    ensures freeMapFile.IsFreeMap()
    ensures Stored(old(dirFile.disk.Image()), dirFile.disk.Image(), owner, m, old(dirFile.hdr.headerSector),
                   old(directory.Entries()))
  {
    ghost var d0, p, entries := dirFile.disk.Image(), dirFile.hdr.headerSector, directory.Entries();
    directory.WriteBack(dirFile, owner, m);
    ghost var d1 := dirFile.disk.Image();
    freeMapFile.WriteMap(freeMap, owner);
    ghost var d2 := dirFile.disk.Image();
    dirFile.Close(owner, m);
    StoredLast(d0, d1, d2, dirFile.disk.Image(), owner, m, p, entries);
  }

  // The name now stands for s, and every other name for what it did.
  ghost predicate NameAdded(t0: seq<DirectoryEntry>, t1: seq<DirectoryEntry>, name: seq<byte>, s: int)
  {
    forall n {:trigger Lookup(t1, n)} ::
      Lookup(t1, n) == if Key(n, FILE_NAME_MAX) == Key(name, FILE_NAME_MAX) then s else Lookup(t0, n)
  }

  // One entry in the table t0 of a directory has become that of a new name.
  ghost predicate NewEntry(t0: seq<DirectoryEntry>, t1: seq<DirectoryEntry>, name: seq<byte>, s: int32)
  {
    !HasName(t0, name) && exists i :: AddedAt(t0, t1, i, name, s)
  }

  lemma NewName(t0: seq<DirectoryEntry>, t1: seq<DirectoryEntry>, name: seq<byte>, s: int32)
    requires Distinct(t0) && NewEntry(t0, t1, name, s)
    ensures Distinct(t1) && NameAdded(t0, t1, name, s)
  {
    var i :| AddedAt(t0, t1, i, name, s);
    AddedDistinct(t0, t1, i, name, s);
    forall n
      ensures Lookup(t1, n) == if Key(n, FILE_NAME_MAX) == Key(name, FILE_NAME_MAX) then s else Lookup(t0, n)
    {
      AddedLookup(t0, t1, i, name, s, n);
    }
  }

  // The whole effect of a successful Create: a new file s of that size, in sectors that
  // were free, under a new name in directory p; nothing else changes.
  ghost predicate CreatedFile(d0: Image, d1: Image, owner: Owners, m: set<int>, p: int, name: seq<byte>,
                              size: int, isDir: bool, s: int)
  {
    && IsSector(p) && IsSector(s) && Owned(d1, s) !! m && Marks(d1) == m + Owned(d1, s)
    && HeaderAt(d1, s).numBytes == size && HeaderAt(d1, s).isDirectory == isDir
    && (isDir ==> Unused(TableAt(d1, s)))
    && NameAdded(TableAt(d0, p), TableAt(d1, p), name, s)
    && OthersSame(d0, d1, owner, {p, FREE_MAP_SECTOR}) && HeaderAt(d1, p) == HeaderAt(d0, p)
    && StateOf(d1, Assign(owner, Owned(d1, s), s)).Whole?
  }

  lemma CreatedMeans(d0: Image, d1: Image, owner: Owners, m: set<int>, p: int, name: seq<byte>, size: int,
                     isDir: bool, s: int)
    requires CreatedFile(d0, d1, owner, m, p, name, size, isDir, s) && size >= 0
    ensures Lookup(TableAt(d1, p), name) == s && |ContentsAt(d1, s)| == size
    ensures StateOf(d1, Assign(owner, Owned(d1, s), s)).marks == m + Owned(d1, s)
  {
    assert Lookup(TableAt(d1, p), name) == s;
  }

  lemma CreateSteps(d0: Image, d1: Image, d2: Image, owner: Owners, m: set<int>,
                    s: int, size: int, isDir: bool, p: int, entries: seq<DirectoryEntry>)
    requires Laid(d0, owner) && Marks(d0) == m && Live(owner, p) && p != FREE_MAP_SECTOR
    requires Made(d0, d1, owner, m, s, size, isDir) && (isDir ==> Unused(TableAt(d1, s)))
    requires Stored(d1, d2, Assign(owner, Owned(d1, s), s), m + Owned(d1, s), p, entries)
    ensures s != p && s != FREE_MAP_SECTOR && Owned(d2, s) == Owned(d1, s)
    ensures HeaderAt(d2, s).numBytes == size && HeaderAt(d2, s).isDirectory == isDir &&
      (isDir ==> Unused(TableAt(d2, s)))
    ensures OthersSame(d0, d2, owner, {p, FREE_MAP_SECTOR})
    ensures HeaderAt(d2, p) == HeaderAt(d0, p) && HeaderAt(d2, FREE_MAP_SECTOR) == HeaderAt(d0, FREE_MAP_SECTOR)
  {
    KeptLive(d0, owner, Owned(d1, s), s, m);
    assert SameFile(d1, d2, s);
    assert SameFile(d0, d1, p) && SameFile(d0, d1, FREE_MAP_SECTOR);
    forall k | Live(owner, k) && k != p && k != FREE_MAP_SECTOR
      ensures SameFile(d0, d2, k)
    {
      assert SameFile(d0, d1, k) && SameFile(d1, d2, k);
    }
  }

  lemma CreateOrdered(d0: Image, d2: Image, owner: Owners, w: DiskState, p: int, name: seq<byte>, s: int32,
                      owned: set<int>)
    requires StateOf(d0, owner) == w && w.Whole? && IsSector(p) && w.tree[p] != []
    requires IsSector(s) && s in owned && owned !! w.marks
    requires OthersSame(d0, d2, owner, {p, FREE_MAP_SECTOR})
    requires HeaderAt(d2, p) == HeaderAt(d0, p) && HeaderAt(d2, FREE_MAP_SECTOR) == HeaderAt(d0, FREE_MAP_SECTOR)
    requires Distinct(TableAt(d2, p)) && NewEntry(w.tree[p], TableAt(d2, p), name, s)
    requires HeaderAt(d2, s).isDirectory ==> HeaderAt(d2, s).numBytes == DIRECTORY_FILE_SIZE && Unused(TableAt(d2, s))
    ensures Ordered(InfosOf(d2), Assign(owner, owned, s))
  {
    var i :| AddedAt(w.tree[p], TableAt(d2, p), i, name, s);
    DirectoryAt(d0, owner, w, p);
    KeptLive(d0, owner, owned, s, w.marks);
    InfosSame(d0, d2, owner, {p, FREE_MAP_SECTOR});
    Created(InfosOf(d0), InfosOf(d2), owner, p, i, s, owned);
  }

  lemma CreateDone(d0: Image, d1: Image, d2: Image, owner: Owners, w: DiskState,
                   s: int32, size: int, isDir: bool, p: int, name: seq<byte>, entries: seq<DirectoryEntry>)
    requires StateOf(d0, owner) == w && w.Whole? && IsSector(p) && w.tree[p] != []
    requires Made(d0, d1, owner, w.marks, s, size, isDir)
    requires isDir ==> size == DIRECTORY_FILE_SIZE && Unused(TableAt(d1, s))
    requires Stored(d1, d2, Assign(owner, Owned(d1, s), s), w.marks + Owned(d1, s), p, entries)
    requires NewEntry(w.tree[p], entries, name, s)
    ensures CreatedFile(d0, d2, owner, w.marks, p, name, size, isDir, s)
  {
    DirectoryAt(d0, owner, w, p);
    LookupInTree(d0, owner, w, p, name);
    NewName(w.tree[p], entries, name, s);
    CreateSteps(d0, d1, d2, owner, w.marks, s, size, isDir, p, entries);
    CreateOrdered(d0, d2, owner, w, p, name, s, Owned(d1, s));
  }

  method MakeWhole(freeMap: BitMap, disk: SectorDisk, s: int, name: seq<byte>, size: int32, isDir: bool,
                   ghost owner: Owners, ghost m: set<int>)
      returns (ok: bool)
    requires NameFits(name, isDir)
    requires Mapped(freeMap, disk) && IsSector(s) && s !in m && size >= 0 && (isDir ==> size == DIRECTORY_FILE_SIZE)
    requires Tidy(disk.Image(), owner, m) && freeMap.Marked() == m + {s}
    modifies freeMap.bits, freeMap`base, freeMap`found, disk.sectors
    ensures Mapped(freeMap, disk)
    ensures ok <==> Total(SectorsFor(size)) <= NumClear(m + {s}, NUM_SECTORS)
    ensures !ok ==> disk.Image() == old(disk.Image())
    ensures ok ==> Made(old(disk.Image()), disk.Image(), owner, m, s, size, isDir) &&
                   freeMap.Marked() == m + Owned(disk.Image(), s)
    ensures ok && isDir ==> Unused(TableAt(disk.Image(), s))
  {
    ghost var d0 := disk.Image();
    var r := MakeFile(freeMap, disk, s, name, size, isDir, owner, m);
    ok := r.Done?;
    if ok && isDir {
      ghost var d1 := disk.Image();
      KeptLive(d0, owner, Owned(d1, s), s, m);
      InitDirectory(disk, s, Assign(owner, Owned(d1, s), s), m + Owned(d1, s));
      MadeStill(d0, d1, disk.Image(), owner, m, s, size, isDir);
    }
  }

  // A free sector from the map in its file; -1 if there is none.
  method FindFree(freeMapFile: OpenFile, ghost m: set<int>) returns (freeMap: BitMap, s: int)
    requires freeMapFile.IsFreeMap() && Marks(freeMapFile.disk.Image()) == m
    ensures fresh(freeMap) && fresh(freeMap.bits) && Mapped(freeMap, freeMapFile.disk)
    ensures s == -1 <==> NumClear(m, NUM_SECTORS) == 0
    ensures s != -1 ==> IsSector(s) && s !in m && freeMap.Marked() == m + {s} &&
                        NumClear(m + {s}, NUM_SECTORS) == NumClear(m, NUM_SECTORS) - 1
  {
    freeMap := new BitMap(NUM_SECTORS);
    freeMapFile.FetchMap(freeMap);
    s := freeMap.Find();
    FoundWhenClear(m, s);
  }

  lemma FoundWhenClear(m: set<int>, r: int)
    requires if r == -1 then forall j | 0 <= j < NUM_SECTORS :: j in m else IsSector(r) && r !in m
    ensures r == -1 <==> NumClear(m, NUM_SECTORS) == 0
    ensures r != -1 ==> NumClear(m + {r}, NUM_SECTORS) == NumClear(m, NUM_SECTORS) - 1
  {
    if r == -1 {
      assert ClearSet(m, NUM_SECTORS) == {};
    } else {
      assert r in ClearSet(m, NUM_SECTORS);
      UseOne(m, NUM_SECTORS, r);
    }
  }

  // ---------------------------------------------------------------- formatting

  // A header for a system file of at most eight sectors.
  method SystemHeader(freeMap: BitMap, disk: SectorDisk, size: int32) returns (hdr: FileHeader)
    requires Mapped(freeMap, disk) && size >= 0 && SectorsFor(size) <= NUM_DIRECT
    requires SectorsFor(size) <= NumClear(freeMap.Marked(), NUM_SECTORS)
    modifies freeMap.bits, freeMap`base, freeMap`found, disk.sectors
    ensures fresh(hdr) && fresh(hdr.dataSectors) && hdr.Valid() && Mapped(freeMap, disk)
    ensures disk.Image() == old(disk.Image())
    ensures hdr.numBytes == size && !hdr.isDirectory && SystemChain(hdr.Value(), disk.Image())
    ensures var owned := Elems(ChainOf(hdr.Value(), disk.Image()));
      owned !! old(freeMap.Marked()) && freeMap.Marked() == old(freeMap.Marked()) + owned
    ensures NumClear(freeMap.Marked(), NUM_SECTORS) >= NumClear(old(freeMap.Marked()), NUM_SECTORS) - NUM_DIRECT
  {
    ghost var got := |freeMap.found|;
    hdr := new FileHeader();
    var r := hdr.Allocate(freeMap, disk, size);
    assert r.Done?;
    hdr.isDirectory := false;
    assert ChainOf(hdr.Value(), disk.Image()) == freeMap.found[got..];
    assert disk.Image() == old(disk.Image());
    OwnedSize(freeMap.found[got..]);
    ClearLeft(old(freeMap.Marked()), Elems(freeMap.found[got..]), NUM_SECTORS);
  }

  lemma ClearLeft(m: set<int>, more: set<int>, n: nat)
    ensures NumClear(m + more, n) >= NumClear(m, n) - |more|
  {
    SubsetSize(ClearSet(m, n), ClearSet(m + more, n) + more);
    assert |ClearSet(m + more, n) + more| <= |ClearSet(m + more, n)| + |more|;
  }

  ghost predicate SystemChain(h: Header, d: Image)
  {
    InOrder(h, d) && h.numSectors <= NUM_DIRECT
  }

  // Up to eight sectors are listed in the header itself.
  lemma SystemChainKept(h: Header, d0: Image, d1: Image)
    requires SystemChain(h, d0)
    ensures SystemChain(h, d1) && ChainOf(h, d1) == ChainOf(h, d0) && OnlyTablesWritten(d1, d1, ChainOf(h, d1))
  {
    assert ChainOf(h, d1) == ChainOf(h, d0);
  }

  // Writing one system header to a tidy disk.
  lemma SystemFile(d0: Image, owner: Owners, m: set<int>, s: int, h: Header, d1: Image, owned: set<int>)
    requires Tidy(d0, owner, m) && IsSector(s) && s !in m && SystemChain(h, d0)
    requires owned == {s} + Elems(ChainOf(h, d0)) && Elems(ChainOf(h, d0)) !! m + {s}
    requires d1 == d0[s := EncodeHeader(h)]
    ensures HeaderAt(d1, s) == h && Tidy(d1, Assign(owner, owned, s), m + owned) && OthersSame(d0, d1, owner, {})
    ensures SystemChain(h, d1) && ChainAt(d1, s) == ChainOf(h, d0)
  {
    SystemChainKept(h, d0, d0);
    SystemChainKept(h, d0, d1);
    NewFile(d0, d0, owner, m, s, h, d1);
  }

  ghost function AllFree(): Owners
  {
    seq(NUM_SECTORS, _ => FREE)
  }

  lemma NothingOwned(d: Image)
    ensures Tidy(d, AllFree(), {})
  {
    assert forall s :: TidyAt(d, AllFree(), {}, s);
  }

  lemma ThreeMarked()
    ensures NumClear({FREE_MAP_SECTOR, DIRECTORY_SECTOR, PIPE_SECTOR}, NUM_SECTORS) == NUM_SECTORS - 3
  {
    RangeSize(NUM_SECTORS);
    UseOne({}, NUM_SECTORS, FREE_MAP_SECTOR);
    UseOne({FREE_MAP_SECTOR}, NUM_SECTORS, DIRECTORY_SECTOR);
    UseOne({FREE_MAP_SECTOR, DIRECTORY_SECTOR}, NUM_SECTORS, PIPE_SECTOR);
    assert {FREE_MAP_SECTOR} + {DIRECTORY_SECTOR} == {FREE_MAP_SECTOR, DIRECTORY_SECTOR};
    assert {FREE_MAP_SECTOR, DIRECTORY_SECTOR} + {PIPE_SECTOR} == {FREE_MAP_SECTOR, DIRECTORY_SECTOR, PIPE_SECTOR};
    assert {} + {FREE_MAP_SECTOR} == {FREE_MAP_SECTOR};
  }

  // Everything that Create looks at before it succeeds.
  ghost predicate CanCreate(entries: seq<DirectoryEntry>, name: seq<byte>, size: int, m: set<int>)
  {
    !HasName(entries, name) && !Full(entries) && size >= 0 && 1 + Total(SectorsFor(size)) <= NumClear(m, NUM_SECTORS)
  }

  // A header in memory is good for as long as its file is the same.
  lemma StillCurrent(d0: Image, d1: Image, header: Header, h: int)
    requires SameFile(d0, d1, h) && InOrder(header, d0) && header == HeaderAt(d0, h)
    ensures InOrder(header, d1) && header == HeaderAt(d1, h)
  {
  }

  // The directory entry and the map go to the disk, after the new file itself.
  method StoreNew(freeMapFile: OpenFile, dirFile: OpenFile, directory: Directory, freeMap: BitMap, s: int32,
                  name: seq<byte>, ghost size: int, ghost isDir: bool, ghost owner: Owners,
                  ghost w: DiskState, ghost d0: Image)
    requires StateOf(d0, owner) == w && w.Whole?
    requires freeMapFile.ReadFrom(FREE_MAP_SECTOR, d0) && freeMapFile.hdr.numBytes == FREE_MAP_SIZE
    requires dirFile.disk == freeMapFile.disk && dirFile.hdr.numBytes == DIRECTORY_FILE_SIZE
    requires dirFile.ReadFrom(dirFile.hdr.headerSector, d0)
    requires dirFile.hdr != freeMapFile.hdr && dirFile.hdr.dataSectors != freeMapFile.hdr.dataSectors
    requires Mapped(freeMap, freeMapFile.disk) && freeMap.bits as object != dirFile.hdr.dataSectors
    requires Made(d0, dirFile.disk.Image(), owner, w.marks, s, size, isDir)
    requires isDir ==> size == DIRECTORY_FILE_SIZE && Unused(TableAt(dirFile.disk.Image(), s))
    requires freeMap.Marked() == w.marks + Owned(dirFile.disk.Image(), s)
    requires directory.table.Length == NUM_DIR_ENTRIES && w.tree[dirFile.hdr.headerSector] != []
    requires NewEntry(w.tree[dirFile.hdr.headerSector], directory.Entries(), name, s)
    modifies freeMapFile.disk.sectors, freeMapFile.hdr, freeMapFile.hdr.dataSectors, dirFile.hdr,
      dirFile.hdr.dataSectors
    ensures freeMapFile.IsFreeMap()
    ensures CreatedFile(d0, freeMapFile.disk.Image(), owner, w.marks, old(dirFile.hdr.headerSector), name,
                        size, isDir, s)
  {
    ghost var d1, p, entries := dirFile.disk.Image(), dirFile.hdr.headerSector, directory.Entries();
    DirectoryAt(d0, owner, w, p);
    RootAt(d0, owner, w);
    KeptLive(d0, owner, Owned(d1, s), s, w.marks);
    StillCurrent(d0, d1, dirFile.hdr.Value(), p);
    StillCurrent(d0, d1, freeMapFile.hdr.Value(), FREE_MAP_SECTOR);
    StoreCreated(directory, dirFile, freeMap, freeMapFile, Assign(owner, Owned(d1, s), s), w.marks + Owned(d1, s));
    CreateDone(d0, d1, freeMapFile.disk.Image(), owner, w, s, size, isDir, p, name, entries);
  }

  // The part of Create that writes to the disk.
  method MakeAndStore(freeMapFile: OpenFile, dirFile: OpenFile, directory: Directory, freeMap: BitMap, s: int32,
                      name: seq<byte>, size: int32, isDir: bool, ghost owner: Owners, ghost w: DiskState)
      returns (ok: bool)
    requires freeMapFile.IsFreeMap() && StateOf(freeMapFile.disk.Image(), owner) == w && w.Whole?
    requires NameFits(name, isDir) && size >= 0 && (isDir ==> size == DIRECTORY_FILE_SIZE)
    requires dirFile.disk == freeMapFile.disk && dirFile.Current() && dirFile.hdr.numBytes == DIRECTORY_FILE_SIZE
    requires dirFile.hdr != freeMapFile.hdr && dirFile.hdr.dataSectors != freeMapFile.hdr.dataSectors
    requires Mapped(freeMap, freeMapFile.disk) && freeMap.Marked() == w.marks + {s} && IsSector(s) && s !in w.marks
    requires freeMap.bits as object != dirFile.hdr.dataSectors && freeMap.bits as object != freeMapFile.hdr.dataSectors
    requires directory.table.Length == NUM_DIR_ENTRIES && w.tree[dirFile.hdr.headerSector] != []
    requires NewEntry(w.tree[dirFile.hdr.headerSector], directory.Entries(), name, s)
    modifies freeMapFile.disk.sectors, freeMapFile.hdr, freeMapFile.hdr.dataSectors
    modifies dirFile.hdr, dirFile.hdr.dataSectors, freeMap.bits, freeMap`base, freeMap`found
    ensures freeMapFile.IsFreeMap()
    ensures ok <==> Total(SectorsFor(size)) <= NumClear(w.marks + {s}, NUM_SECTORS)
    ensures !ok ==> freeMapFile.disk.Image() == old(freeMapFile.disk.Image())
    ensures ok ==> CreatedFile(old(freeMapFile.disk.Image()), freeMapFile.disk.Image(), owner, w.marks,
                               old(dirFile.hdr.headerSector), name, size, isDir, s)
  {
    ghost var d0 := freeMapFile.disk.Image();
    ok := MakeWhole(freeMap, freeMapFile.disk, s, name, size, isDir, owner, w.marks);
    if ok {
      StoreNew(freeMapFile, dirFile, directory, freeMap, s, name, size, isDir, owner, w, d0);
    }
  }

  // The directory a file is to be created in, and whether it has the name already.
  method OpenAndFind(disk: SectorDisk, p: int, name: seq<byte>, ghost owner: Owners, ghost w: DiskState)
      returns (dirFile: OpenFile, directory: Directory, sector: int)
    requires disk.Valid() && StateOf(disk.Image(), owner) == w && w.Whole? && IsSector(p) && w.tree[p] != []
    ensures fresh(dirFile) && fresh(dirFile.hdr) && fresh(dirFile.hdr.dataSectors) && fresh(directory) &&
      fresh(directory.table)
    ensures dirFile.disk == disk && dirFile.Current() && dirFile.hdr.headerSector == p
    ensures dirFile.hdr.numBytes == DIRECTORY_FILE_SIZE && directory.table.Length == NUM_DIR_ENTRIES
    ensures directory.Entries() == w.tree[p] && Distinct(w.tree[p])
    ensures sector == Lookup(w.tree[p], name) && (sector == -1 <==> !HasName(w.tree[p], name))
    ensures sector != -1 ==>
      Live(owner, sector) && Links(w.tree, p, IndexOf(w.tree[p], Key(name, FILE_NAME_MAX)), sector)
  {
    LookupInTree(disk.Image(), owner, w, p, name);
    dirFile, directory := OpenDirectory(disk, p, owner, w);
    sector := directory.Find(name);
  }

  // Create in directory p, once it is found.
  method CreateIn(freeMapFile: OpenFile, p: int, name: seq<byte>, size: int32, isDir: bool,
                  ghost owner: Owners, ghost w: DiskState) returns (ok: bool, s: int)
    requires freeMapFile.IsFreeMap() && StateOf(freeMapFile.disk.Image(), owner) == w && w.Whole?
    requires IsSector(p) && w.tree[p] != []
    requires NameFits(name, isDir) && size >= 0 && (isDir ==> size == DIRECTORY_FILE_SIZE)
    modifies freeMapFile.disk.sectors, freeMapFile.hdr, freeMapFile.hdr.dataSectors
    ensures freeMapFile.IsFreeMap()
    ensures ok <==> CanCreate(w.tree[p], name, size, w.marks)
    ensures !ok ==> freeMapFile.disk.Image() == old(freeMapFile.disk.Image())
    ensures ok ==> CreatedFile(old(freeMapFile.disk.Image()), freeMapFile.disk.Image(), owner, w.marks, p, name,
                               size, isDir, s)
  {
    var dirFile, directory, sector := OpenAndFind(freeMapFile.disk, p, name, owner, w);
    if sector != -1 {
      return false, -1;
    }
    ok, s := CreateNew(freeMapFile, dirFile, directory, name, size, isDir, owner, w);
  }

  // The rest of Create, for a name that is not in the directory.
  method CreateNew(freeMapFile: OpenFile, dirFile: OpenFile, directory: Directory, name: seq<byte>, size: int32,
                   isDir: bool, ghost owner: Owners, ghost w: DiskState) returns (ok: bool, s: int)
    requires freeMapFile.IsFreeMap() && StateOf(freeMapFile.disk.Image(), owner) == w && w.Whole?
    requires NameFits(name, isDir) && size >= 0 && (isDir ==> size == DIRECTORY_FILE_SIZE)
    requires dirFile.disk == freeMapFile.disk && dirFile.Current() && dirFile.hdr.numBytes == DIRECTORY_FILE_SIZE
    requires dirFile.hdr != freeMapFile.hdr && dirFile.hdr.dataSectors != freeMapFile.hdr.dataSectors
    requires directory.table.Length == NUM_DIR_ENTRIES && w.tree[dirFile.hdr.headerSector] == directory.Entries()
    requires Distinct(directory.Entries()) && !HasName(directory.Entries(), name)
    modifies freeMapFile.disk.sectors, freeMapFile.hdr, freeMapFile.hdr.dataSectors
    modifies dirFile.hdr, dirFile.hdr.dataSectors, directory.table
    ensures freeMapFile.IsFreeMap()
    ensures ok <==> CanCreate(old(directory.Entries()), name, size, w.marks)
    ensures !ok ==> freeMapFile.disk.Image() == old(freeMapFile.disk.Image())
    ensures ok ==> CreatedFile(old(freeMapFile.disk.Image()), freeMapFile.disk.Image(), owner, w.marks,
                               old(dirFile.hdr.headerSector), name, size, isDir, s)
  {
    var freeMap;
    freeMap, s := FindFree(freeMapFile, w.marks);
    if s == -1 {
      return false, s;
    }
    ok := directory.Add(name, s);
    if ok {
      ok := MakeAndStore(freeMapFile, dirFile, directory, freeMap, s, name, size, isDir, owner, w);
    }
  }

  // ---------------------------------------------------------------- removing

  // The name stands for nothing now, and every other name for what it did.
  ghost predicate NameRemoved(t0: seq<DirectoryEntry>, t1: seq<DirectoryEntry>, name: seq<byte>)
  {
    forall n {:trigger Lookup(t1, n)} ::
      Lookup(t1, n) == if Key(n, FILE_NAME_MAX) == Key(name, FILE_NAME_MAX) then -1 else Lookup(t0, n)
  }

  lemma OldName(t0: seq<DirectoryEntry>, t1: seq<DirectoryEntry>, name: seq<byte>)
    requires Distinct(t0) && HasName(t0, name) && RemovedAt(t0, t1, IndexOf(t0, Key(name, FILE_NAME_MAX)))
    ensures Distinct(t1) && NameRemoved(t0, t1, name)
  {
    var i := IndexOf(t0, Key(name, FILE_NAME_MAX));
    forall n
      ensures Lookup(t1, n) == if Key(n, FILE_NAME_MAX) == Key(name, FILE_NAME_MAX) then -1 else Lookup(t0, n)
    {
      RemovedLookup(t0, t1, i, n);
    }
    RemovedLookup(t0, t1, i, name);
  }

  // The whole effect of a successful RemoveDir: the file s and its name are gone, its
  // sectors are free, and nothing else changes.
  ghost predicate RemovedFile(d0: Image, d1: Image, owner: Owners, m: set<int>, p: int, name: seq<byte>, s: int)
  {
    && IsSector(p) && IsSector(s) && Owned(d0, s) <= m && Marks(d1) == m - Owned(d0, s)
    && s == Lookup(TableAt(d0, p), name) && NameRemoved(TableAt(d0, p), TableAt(d1, p), name)
    && OthersSame(d0, d1, owner, {p, s, FREE_MAP_SECTOR}) && HeaderAt(d1, p) == HeaderAt(d0, p)
    && StateOf(d1, Assign(owner, Owned(d0, s), FREE)).Whole?
  }

  lemma RemovedMeans(d0: Image, d1: Image, owner: Owners, m: set<int>, p: int, name: seq<byte>, s: int)
    requires RemovedFile(d0, d1, owner, m, p, name, s)
    ensures Lookup(TableAt(d1, p), name) == -1
    ensures StateOf(d1, Assign(owner, Owned(d0, s), FREE)).marks == m - Owned(d0, s)
  {
    assert Lookup(TableAt(d1, p), name) == -1;
  }

  // d1 with the map, d2 with the directory as well, d3 after closing the directory.
  lemma StoredFirst(d0: Image, d1: Image, d2: Image, d3: Image, owner: Owners, m: set<int>, p: int,
                    entries: seq<DirectoryEntry>)
    requires Live(owner, p) && p != FREE_MAP_SECTOR && Live(owner, FREE_MAP_SECTOR)
    requires MapStored(d0, d1, owner, m)
    requires OthersSame(d1, d2, owner, {p}) && HeaderAt(d2, p) == HeaderAt(d1, p) && TableAt(d2, p) == entries
    requires Tidy(d3, owner, m) && OthersSame(d2, d3, owner, {})
    ensures Stored(d0, d3, owner, m, p, entries)
  {
    assert SameFile(d0, d1, p) && SameFile(d1, d2, FREE_MAP_SECTOR);
    assert SameFile(d2, d3, p) && SameFile(d2, d3, FREE_MAP_SECTOR);
  }

  method StoreRemoved(directory: Directory, dirFile: OpenFile, freeMap: BitMap, freeMapFile: OpenFile,
                      ghost owner: Owners, ghost m: set<int>)
    requires dirFile.Current() && dirFile.hdr.numBytes == DIRECTORY_FILE_SIZE &&
      directory.table.Length == NUM_DIR_ENTRIES
    requires freeMapFile.IsFreeMap() && freeMapFile.disk == dirFile.disk && freeMapFile.hdr != dirFile.hdr
    requires freeMapFile.hdr.dataSectors != dirFile.hdr.dataSectors
    requires dirFile.hdr.headerSector != FREE_MAP_SECTOR
    requires Live(owner, dirFile.hdr.headerSector) && Live(owner, FREE_MAP_SECTOR)
    requires Mapped(freeMap, dirFile.disk) && freeMap.Marked() == m && Tidy(dirFile.disk.Image(), owner, m)
    modifies dirFile.disk.sectors, dirFile.hdr, dirFile.hdr.dataSectors, freeMapFile.hdr, freeMapFile.hdr.dataSectors
    ensures freeMapFile.IsFreeMap()
    ensures Stored(old(dirFile.disk.Image()), dirFile.disk.Image(), owner, m, old(dirFile.hdr.headerSector),
                   old(directory.Entries()))
  {
    ghost var d0, p, entries := dirFile.disk.Image(), dirFile.hdr.headerSector, directory.Entries();
    freeMapFile.WriteMap(freeMap, owner);
    ghost var d1 := dirFile.disk.Image();
    StillCurrent(d0, d1, dirFile.hdr.Value(), p);
    directory.WriteBack(dirFile, owner, m);
    ghost var d2 := dirFile.disk.Image();
    dirFile.Close(owner, m);
    StoredFirst(d0, d1, d2, dirFile.disk.Image(), owner, m, p, entries);
  }

  lemma RemoveSteps(d0: Image, d1: Image, owner: Owners, m: set<int>, p: int, s: int, entries: seq<DirectoryEntry>)
    requires Tidy(d0, owner, m) && Live(owner, s) && Live(owner, p) && s != p
    requires Stored(d0, d1, Assign(owner, Owned(d0, s), FREE), m - Owned(d0, s), p, entries)
    ensures OthersSame(d0, d1, owner, {p, s, FREE_MAP_SECTOR})
    ensures forall x | IsSector(x) :: x in Owned(d0, s) <==> owner[x] == s
    ensures Owned(d0, s) <= m && s in Owned(d0, s)
  {
    var after := Assign(owner, Owned(d0, s), FREE);
    LiveFile(d0, owner, m, s);
    forall k | Live(owner, k) && k != p && k != s && k != FREE_MAP_SECTOR
      ensures SameFile(d0, d1, k)
    {
      assert k in Owned(d0, s) <==> owner[k] == s;
      assert Live(after, k);
    }
    forall x | IsSector(x)
      ensures x in Owned(d0, s) <==> owner[x] == s
    {
    }
  }

  lemma RemoveDone(d0: Image, d1: Image, owner: Owners, w: DiskState, p: int, name: seq<byte>, s: int,
                   entries: seq<DirectoryEntry>)
    requires StateOf(d0, owner) == w && w.Whole? && IsSector(p) && w.tree[p] != []
    requires HasName(w.tree[p], name) && s == Lookup(w.tree[p], name) && IsSector(s)
    requires w.tree[s] == [] || Unused(w.tree[s])
    requires RemovedAt(w.tree[p], entries, IndexOf(w.tree[p], Key(name, FILE_NAME_MAX)))
    requires Stored(d0, d1, Assign(owner, Owned(d0, s), FREE), w.marks - Owned(d0, s), p, entries)
    ensures RemovedFile(d0, d1, owner, w.marks, p, name, s)
  {
    var i := IndexOf(w.tree[p], Key(name, FILE_NAME_MAX));
    DirectoryAt(d0, owner, w, p);
    DirectoryAt(d0, owner, w, s);
    LookupInTree(d0, owner, w, p, name);
    OldName(w.tree[p], entries, name);
    RemoveSteps(d0, d1, owner, w.marks, p, s, entries);
    InfosSame(d0, d1, owner, {p, s, FREE_MAP_SECTOR});
    Removed(InfosOf(d0), InfosOf(d1), owner, p, i, s, Owned(d0, s));
  }

  // Frees the sectors of file s in a fresh copy of the map.
  method FreeSectors(freeMapFile: OpenFile, s: int, ghost owner: Owners, ghost m: set<int>) returns (freeMap: BitMap)
    requires freeMapFile.IsFreeMap() && Live(owner, s)
    requires Tidy(freeMapFile.disk.Image(), owner, m) && Marks(freeMapFile.disk.Image()) == m
    ensures fresh(freeMap) && fresh(freeMap.bits) && Mapped(freeMap, freeMapFile.disk)
    ensures freeMap.Marked() == m - Owned(freeMapFile.disk.Image(), s)
  {
    ghost var d := freeMapFile.disk.Image();
    LiveFile(d, owner, m, s);
    var fileHdr := new FileHeader();
    fileHdr.FetchFrom(freeMapFile.disk, s);
    freeMap := new BitMap(NUM_SECTORS);
    freeMapFile.FetchMap(freeMap);
    assert ChainAt(d, s) == Chain(fileHdr.Sectors(), freeMapFile.disk.Tables(), fileHdr.numSectors);
    fileHdr.Deallocate(freeMap, freeMapFile.disk);
    freeMap.Clear(s);
    assert m - Elems(ChainAt(d, s)) - {s} == m - Owned(d, s);
  }

  // Removes file s, which has that name in the directory.
  method RemoveFound(freeMapFile: OpenFile, dirFile: OpenFile, directory: Directory, name: seq<byte>, s: int,
                     ghost owner: Owners, ghost w: DiskState)
    requires freeMapFile.IsFreeMap() && StateOf(freeMapFile.disk.Image(), owner) == w && w.Whole?
    requires dirFile.disk == freeMapFile.disk && dirFile.Current() && dirFile.hdr.numBytes == DIRECTORY_FILE_SIZE
    requires dirFile.hdr != freeMapFile.hdr && dirFile.hdr.dataSectors != freeMapFile.hdr.dataSectors
    requires directory.table.Length == NUM_DIR_ENTRIES
    requires w.tree[dirFile.hdr.headerSector] == directory.Entries() != []
    requires HasName(directory.Entries(), name) && s == Lookup(directory.Entries(), name) && Live(owner, s)
    requires w.tree[s] == [] || Unused(w.tree[s])
    modifies freeMapFile.disk.sectors, freeMapFile.hdr, freeMapFile.hdr.dataSectors
    modifies dirFile.hdr, dirFile.hdr.dataSectors, directory.table
    ensures freeMapFile.IsFreeMap()
    ensures RemovedFile(old(freeMapFile.disk.Image()), freeMapFile.disk.Image(), owner, w.marks,
                        old(dirFile.hdr.headerSector), name, s)
  {
    ghost var d0, p := freeMapFile.disk.Image(), dirFile.hdr.headerSector;
    RemovableAt(d0, owner, w, p, name, s);
    var freeMap := FreeSectors(freeMapFile, s, owner, w.marks);
    var removed := directory.Remove(name);
    ghost var entries := directory.Entries();
    StoreRemoved(directory, dirFile, freeMap, freeMapFile, Assign(owner, Owned(d0, s), FREE), w.marks - Owned(d0, s));
    RemoveDone(d0, freeMapFile.disk.Image(), owner, w, p, name, s, entries);
  }

  // What the parent directory and the free map have to do with a file to be removed.
  lemma RemovableAt(d: Image, owner: Owners, w: DiskState, p: int, name: seq<byte>, s: int)
    requires StateOf(d, owner) == w && w.Whole? && IsSector(p) && w.tree[p] != []
    requires HasName(w.tree[p], name) && s == Lookup(w.tree[p], name)
    requires IsSector(s) && (w.tree[s] == [] || Unused(w.tree[s]))
    ensures p != FREE_MAP_SECTOR && p != s && Tidy(d, owner, w.marks) && Marks(d) == w.marks && Live(owner, s)
    ensures var after := Assign(owner, Owned(d, s), FREE);
      Live(after, p) && Live(after, FREE_MAP_SECTOR) && Tidy(d, after, w.marks - Owned(d, s))
  {
    DirectoryAt(d, owner, w, p);
    RootAt(d, owner, w);
    LookupInTree(d, owner, w, p, name);
    TidyTake(d, owner, w.marks, s);
    LiveFile(d, owner, w.marks, s);
    assert FREE_MAP_SECTOR in Owned(d, s) <==> owner[FREE_MAP_SECTOR] == s;
    assert p in Owned(d, s) <==> owner[p] == s;
    SystemFiles();
  }

  // A file may go unless it is a directory with entries.
  ghost predicate CanRemove(t: Tree, p: int, name: seq<byte>)
    requires IsSector(p)
  {
    var s := Lookup(t[p], name);
    HasName(t[p], name) && IsSector(s) && (t[s] == [] || Unused(t[s]))
  }

  // Whether s is a directory with entries in it. A handle on it is closed only then.
  method IsOccupied(disk: SectorDisk, s: int, ghost owner: Owners, ghost w: DiskState) returns (occupied: bool)
    requires disk.Valid() && StateOf(disk.Image(), owner) == w && w.Whole? && Live(owner, s) && s != DIRECTORY_SECTOR
    modifies disk.sectors
    ensures occupied <==> !(w.tree[s] == [] || Unused(w.tree[s]))
    ensures !occupied ==> disk.Image() == old(disk.Image())
    ensures Untouched(old(disk.Image()), disk.Image(), owner)
  {
    DirectoryAt(disk.Image(), owner, w, s);
    assert IsDirectory(InfosOf(disk.Image()), s) <==> HeaderAt(disk.Image(), s).isDirectory;
    var fileHdr := new FileHeader();
    fileHdr.FetchFrom(disk, s);
    occupied := false;
    if fileHdr.isDirectory {
      var subDirFile, subDirectory := OpenDirectory(disk, s, owner, w);
      var empty := subDirectory.IsEmpty();
      if !empty {
        occupied := true;
        CloseUntouched(subDirFile, owner, w);
      }
    }
  }

  // Closes the directory of a file that cannot be removed.
  method GiveUp(freeMapFile: OpenFile, dirFile: OpenFile, ghost owner: Owners, ghost w: DiskState, ghost d0: Image)
    requires freeMapFile.ReadFrom(FREE_MAP_SECTOR, d0) && freeMapFile.hdr.numBytes == FREE_MAP_SIZE
    requires dirFile.ReadFrom(dirFile.hdr.headerSector, d0) && freeMapFile.disk == dirFile.disk
    requires StateOf(d0, owner) == w && w.Whole? && w.tree[dirFile.hdr.headerSector] != []
    requires Untouched(d0, dirFile.disk.Image(), owner)
    modifies dirFile.disk.sectors
    ensures freeMapFile.IsFreeMap()
    ensures Untouched(d0, dirFile.disk.Image(), owner)
  {
    ghost var d1, p := dirFile.disk.Image(), dirFile.hdr.headerSector;
    RootAt(d0, owner, w);
    DirectoryAt(d0, owner, w, p);
    StillCurrent(d0, d1, dirFile.hdr.Value(), p);
    StillCurrent(d0, d1, freeMapFile.hdr.Value(), FREE_MAP_SECTOR);
    CloseUntouched(dirFile, owner, w);
    StillCurrent(d1, dirFile.disk.Image(), freeMapFile.hdr.Value(), FREE_MAP_SECTOR);
  }

  // RemoveDir in directory p, once it is found.
  method RemoveIn(freeMapFile: OpenFile, p: int, name: seq<byte>, ghost owner: Owners, ghost w: DiskState)
      returns (ok: bool, s: int)
    requires freeMapFile.IsFreeMap() && StateOf(freeMapFile.disk.Image(), owner) == w && w.Whole?
    requires IsSector(p) && w.tree[p] != []
    modifies freeMapFile.disk.sectors, freeMapFile.hdr, freeMapFile.hdr.dataSectors
    ensures freeMapFile.IsFreeMap()
    ensures ok <==> CanRemove(w.tree, p, name)
    ensures !ok ==> Untouched(old(freeMapFile.disk.Image()), freeMapFile.disk.Image(), owner)
    ensures ok ==> RemovedFile(old(freeMapFile.disk.Image()), freeMapFile.disk.Image(), owner, w.marks, p, name, s)
    ensures ok ==> Live(owner, s) && s == Lookup(w.tree[p], name)
  {
    ghost var d0 := freeMapFile.disk.Image();
    var dirFile, directory;
    dirFile, directory, s := OpenAndFind(freeMapFile.disk, p, name, owner, w);
    if s == -1 {
      return false, s;
    }
    RootAt(d0, owner, w);
    DirectoryAt(d0, owner, w, p);
    var occupied := IsOccupied(freeMapFile.disk, s, owner, w);
    if occupied {
      GiveUp(freeMapFile, dirFile, owner, w, d0);
      return false, s;
    }
    RemoveFound(freeMapFile, dirFile, directory, name, s, owner, w);
    return true, s;
  }

  // ---------------------------------------------------------------- the whole system

  // The three headers on the disk, and the files they own.
  ghost predicate Formatted(d: Image, owner: Owners, m: set<int>)
  {
    && Tidy(d, owner, m) && (forall h | IsSector(h) :: Live(owner, h) <==> IsSystem(h))
    && (forall h | IsSystem(h) :: !HeaderAt(d, h).isDirectory)
    && HeaderAt(d, FREE_MAP_SECTOR).numBytes == FREE_MAP_SIZE
    && HeaderAt(d, DIRECTORY_SECTOR).numBytes == DIRECTORY_FILE_SIZE
  }

  // The owners after formatting, given the chains of the free map and the root directory.
  ghost function FirstOwners(map0: set<int>, dir0: set<int>): Owners
  {
    Assign(Assign(Assign(AllFree(), {FREE_MAP_SECTOR} + map0, FREE_MAP_SECTOR),
                  {DIRECTORY_SECTOR} + dir0, DIRECTORY_SECTOR), {PIPE_SECTOR}, PIPE_SECTOR)
  }

  lemma HeadersWritten(d0: Image, h0: Header, h1: Header, h2: Header, map0: set<int>, dir0: set<int>, d3: Image)
    requires SystemChain(h0, d0) && SystemChain(h1, d0) && SystemChain(h2, d0) && h2.numBytes == 0
    requires h0.numBytes == FREE_MAP_SIZE && h1.numBytes == DIRECTORY_FILE_SIZE
    requires !h0.isDirectory && !h1.isDirectory && !h2.isDirectory
    requires map0 == Elems(ChainOf(h0, d0)) && dir0 == Elems(ChainOf(h1, d0))
    requires map0 !! {FREE_MAP_SECTOR, DIRECTORY_SECTOR, PIPE_SECTOR}
    requires dir0 !! {FREE_MAP_SECTOR, DIRECTORY_SECTOR, PIPE_SECTOR} + map0
    requires d3 == d0[FREE_MAP_SECTOR := EncodeHeader(h0)][DIRECTORY_SECTOR := EncodeHeader(h1)]
                     [PIPE_SECTOR := EncodeHeader(h2)]
    ensures Formatted(d3, FirstOwners(map0, dir0), {FREE_MAP_SECTOR, DIRECTORY_SECTOR, PIPE_SECTOR} + map0 + dir0)
  {
    var d1 := d0[FREE_MAP_SECTOR := EncodeHeader(h0)];
    var d2 := d1[DIRECTORY_SECTOR := EncodeHeader(h1)];
    var o0 := {FREE_MAP_SECTOR} + map0;
    var o1 := {DIRECTORY_SECTOR} + dir0;
    var w1 := Assign(AllFree(), o0, FREE_MAP_SECTOR);
    var w2 := Assign(w1, o1, DIRECTORY_SECTOR);
    NothingOwned(d0);
    SystemFile(d0, AllFree(), {}, FREE_MAP_SECTOR, h0, d1, o0);
    SystemChainKept(h1, d0, d1);
    SystemFile(d1, w1, {} + o0, DIRECTORY_SECTOR, h1, d2, o1);
    SystemChainKept(h2, d0, d2);
    assert ChainOf(h2, d2) == [];
    SystemFile(d2, w2, {} + o0 + o1, PIPE_SECTOR, h2, d3, {PIPE_SECTOR});
    assert {} + o0 + o1 + {PIPE_SECTOR} == {FREE_MAP_SECTOR, DIRECTORY_SECTOR, PIPE_SECTOR} + map0 + dir0;
    assert SameFile(d1, d2, FREE_MAP_SECTOR) && SameFile(d2, d3, FREE_MAP_SECTOR) && SameFile(d2, d3, DIRECTORY_SECTOR);
  }

  lemma FormatDone(d3: Image, d4: Image, d5: Image, owner: Owners, m: set<int>)
    requires Formatted(d3, owner, m) && MapStored(d3, d4, owner, m)
    requires Tidy(d5, owner, m) && OthersSame(d4, d5, owner, {DIRECTORY_SECTOR})
    requires HeaderAt(d5, DIRECTORY_SECTOR) == HeaderAt(d4, DIRECTORY_SECTOR) && Unused(TableAt(d5, DIRECTORY_SECTOR))
    ensures StateOf(d5, owner).Whole? && Marks(d5) == m
    ensures HeaderAt(d5, FREE_MAP_SECTOR) == HeaderAt(d4, FREE_MAP_SECTOR) && SameFile(d4, d5, FREE_MAP_SECTOR)
  {
    SystemFiles();
    assert SameFile(d3, d4, DIRECTORY_SECTOR) && SameFile(d3, d4, PIPE_SECTOR);
    assert SameFile(d4, d5, FREE_MAP_SECTOR) && SameFile(d4, d5, PIPE_SECTOR);
    InitialTree(InfosOf(d5), owner);
  }

  method FirstMap(disk: SectorDisk) returns (freeMap: BitMap)
    requires disk.Valid()
    ensures fresh(freeMap) && fresh(freeMap.bits) && Mapped(freeMap, disk)
    ensures freeMap.Marked() == {FREE_MAP_SECTOR, DIRECTORY_SECTOR, PIPE_SECTOR}
    ensures NumClear(freeMap.Marked(), NUM_SECTORS) == NUM_SECTORS - 3
  {
    freeMap := new BitMap(NUM_SECTORS);
    freeMap.Mark(FREE_MAP_SECTOR);
    freeMap.Mark(DIRECTORY_SECTOR);
    freeMap.Mark(PIPE_SECTOR);
    assert freeMap.Marked() == {FREE_MAP_SECTOR, DIRECTORY_SECTOR, PIPE_SECTOR};
    ThreeMarked();
  }

  // The headers of the system files, and the map in memory.
  method FormatHeaders(disk: SectorDisk) returns (freeMap: BitMap, ghost owner: Owners)
    requires disk.Valid()
    modifies disk.sectors
    ensures fresh(freeMap) && fresh(freeMap.bits) && Mapped(freeMap, disk)
    ensures Formatted(disk.Image(), owner, freeMap.Marked())
  {
    ghost var d0 := disk.Image();
    freeMap := FirstMap(disk);
    var mapHdr := SystemHeader(freeMap, disk, FREE_MAP_SIZE);
    var dirHdr := SystemHeader(freeMap, disk, DIRECTORY_FILE_SIZE);
    var pipHdr := SystemHeader(freeMap, disk, 0);
    assert ChainOf(pipHdr.Value(), d0) == [];
    assert freeMap.Marked() == {FREE_MAP_SECTOR, DIRECTORY_SECTOR, PIPE_SECTOR} +
                               Elems(ChainOf(mapHdr.Value(), d0)) + Elems(ChainOf(dirHdr.Value(), d0));
    owner := WriteHeaders(disk, mapHdr, dirHdr, pipHdr);
  }

  method WriteHeaders(disk: SectorDisk, mapHdr: FileHeader, dirHdr: FileHeader, pipHdr: FileHeader)
      returns (ghost owner: Owners)
    requires disk.Valid() && mapHdr.Valid() && dirHdr.Valid() && pipHdr.Valid()
    requires SystemChain(mapHdr.Value(), disk.Image()) && SystemChain(dirHdr.Value(), disk.Image())
    requires SystemChain(pipHdr.Value(), disk.Image())
    requires mapHdr.numBytes == FREE_MAP_SIZE && dirHdr.numBytes == DIRECTORY_FILE_SIZE && pipHdr.numBytes == 0
    requires !mapHdr.isDirectory && !dirHdr.isDirectory && !pipHdr.isDirectory
    requires Elems(ChainOf(mapHdr.Value(), disk.Image())) !! {FREE_MAP_SECTOR, DIRECTORY_SECTOR, PIPE_SECTOR}
    requires Elems(ChainOf(dirHdr.Value(), disk.Image())) !!
             {FREE_MAP_SECTOR, DIRECTORY_SECTOR, PIPE_SECTOR} + Elems(ChainOf(mapHdr.Value(), disk.Image()))
    modifies disk.sectors
    ensures Formatted(disk.Image(), owner, {FREE_MAP_SECTOR, DIRECTORY_SECTOR, PIPE_SECTOR} +
                      Elems(ChainOf(old(mapHdr.Value()), old(disk.Image()))) +
                      Elems(ChainOf(old(dirHdr.Value()), old(disk.Image()))))
  {
    ghost var d0, h0, h1, h2 := disk.Image(), mapHdr.Value(), dirHdr.Value(), pipHdr.Value();
    ghost var map0, dir0 := Elems(ChainOf(h0, d0)), Elems(ChainOf(h1, d0));
    mapHdr.WriteBack(disk, FREE_MAP_SECTOR);
    dirHdr.WriteBack(disk, DIRECTORY_SECTOR);
    pipHdr.WriteBack(disk, PIPE_SECTOR);
    HeadersWritten(d0, h0, h1, h2, map0, dir0, disk.Image());
    owner := FirstOwners(map0, dir0);
  }

  method OpenSystemFiles(disk: SectorDisk, ghost owner: Owners, ghost m: set<int>)
      returns (freeMapFile: OpenFile, directoryFile: OpenFile)
    requires disk.Valid() && Formatted(disk.Image(), owner, m)
    ensures fresh(freeMapFile) && fresh(freeMapFile.hdr) && fresh(freeMapFile.hdr.dataSectors)
    ensures fresh(directoryFile) && fresh(directoryFile.hdr) && fresh(directoryFile.hdr.dataSectors)
    ensures freeMapFile.hdr != directoryFile.hdr && freeMapFile.hdr.dataSectors != directoryFile.hdr.dataSectors
    ensures freeMapFile.disk == disk && freeMapFile.IsFreeMap()
    ensures directoryFile.disk == disk && directoryFile.ReadFrom(DIRECTORY_SECTOR, disk.Image())
    ensures directoryFile.hdr.numBytes == DIRECTORY_FILE_SIZE
  {
    SystemFiles();
    LiveFile(disk.Image(), owner, m, FREE_MAP_SECTOR);
    LiveFile(disk.Image(), owner, m, DIRECTORY_SECTOR);
    freeMapFile := new OpenFile(disk, FREE_MAP_SECTOR);
    directoryFile := new OpenFile(disk, DIRECTORY_SECTOR);
  }

  // The first version of the map and of the root directory.
  method FormatFiles(disk: SectorDisk, freeMap: BitMap, directory: Directory, ghost owner: Owners)
      returns (freeMapFile: OpenFile)
    requires Mapped(freeMap, disk) && Formatted(disk.Image(), owner, freeMap.Marked())
    requires directory.table.Length == NUM_DIR_ENTRIES && Unused(directory.Entries())
    modifies disk.sectors
    ensures fresh(freeMapFile) && fresh(freeMapFile.hdr) && fresh(freeMapFile.hdr.dataSectors)
    ensures freeMapFile.disk == disk && freeMapFile.IsFreeMap()
    ensures StateOf(disk.Image(), owner).Whole? && Unused(TableAt(disk.Image(), DIRECTORY_SECTOR))
  {
    ghost var d3, m := disk.Image(), freeMap.Marked();
    SystemFiles();
    var directoryFile;
    freeMapFile, directoryFile := OpenSystemFiles(disk, owner, m);
    freeMapFile.WriteMap(freeMap, owner);
    ghost var d4 := disk.Image();
    StillCurrent(d3, d4, directoryFile.hdr.Value(), DIRECTORY_SECTOR);
    directory.WriteBack(directoryFile, owner, m);
    FormatDone(d3, d4, disk.Image(), owner, m);
    StillCurrent(d4, disk.Image(), freeMapFile.hdr.Value(), FREE_MAP_SECTOR);
  }

  lemma CreatedAfter(d0: Image, d1: Image, d2: Image, owner: Owners, m: set<int>, p: int, name: seq<byte>,
                     size: int, isDir: bool, s: int)
    requires Untouched(d0, d1, owner) && Live(owner, p) && CreatedFile(d1, d2, owner, m, p, name, size, isDir, s)
    ensures CreatedFile(d0, d2, owner, m, p, name, size, isDir, s)
  {
    assert SameFile(d0, d1, p);
  }

  lemma RemovedAfter(d0: Image, d1: Image, d2: Image, owner: Owners, m: set<int>, p: int, name: seq<byte>, s: int)
    requires Untouched(d0, d1, owner) && Live(owner, p) && Live(owner, s) && RemovedFile(d1, d2, owner, m, p, name, s)
    ensures RemovedFile(d0, d2, owner, m, p, name, s)
  {
    assert SameFile(d0, d1, p) && SameFile(d0, d1, s);
  }

  // The directory of a path, with the handle on the free map as good as before.
  method FindParent(freeMapFile: OpenFile, path: seq<seq<byte>>, ghost owner: Owners, ghost w: DiskState)
      returns (p: int)
    requires freeMapFile.IsFreeMap() && StateOf(freeMapFile.disk.Image(), owner) == w && w.Whole?
    requires PathOk(w.tree, DIRECTORY_SECTOR, path)
    modifies freeMapFile.disk.sectors
    ensures freeMapFile.IsFreeMap() && p == Walk(w.tree, DIRECTORY_SECTOR, path)
    ensures p == -1 || (Live(owner, p) && w.tree[p] != [])
    ensures Untouched(old(freeMapFile.disk.Image()), freeMapFile.disk.Image(), owner)
  {
    ghost var d0 := freeMapFile.disk.Image();
    RootAt(d0, owner, w);
    ghost var trail;
    p, trail := FindDirSector(freeMapFile.disk, path, owner, w);
    if p != -1 {
      DirectoryAt(d0, owner, w, p);
    }
    StillCurrent(d0, freeMapFile.disk.Image(), freeMapFile.hdr.Value(), FREE_MAP_SECTOR);
  }

  method CreateAt(freeMapFile: OpenFile, path: seq<seq<byte>>, name: seq<byte>, size: int32, isDir: bool,
                  ghost owner: Owners, ghost w: DiskState) returns (ok: bool, p: int, s: int, ghost after: Owners)
    requires freeMapFile.IsFreeMap() && StateOf(freeMapFile.disk.Image(), owner) == w && w.Whole?
    requires PathOk(w.tree, DIRECTORY_SECTOR, path) && Walk(w.tree, DIRECTORY_SECTOR, path) != -1
    requires NameFits(name, isDir) && size >= 0 && (isDir ==> size == DIRECTORY_FILE_SIZE)
    modifies freeMapFile.disk.sectors, freeMapFile.hdr, freeMapFile.hdr.dataSectors
    ensures freeMapFile.IsFreeMap() && p == Walk(w.tree, DIRECTORY_SECTOR, path) && IsSector(p)
    ensures ok <==> CanCreate(w.tree[p], name, size, w.marks)
    ensures !ok ==> Untouched(old(freeMapFile.disk.Image()), freeMapFile.disk.Image(), owner)
    ensures ok ==> CreatedFile(old(freeMapFile.disk.Image()), freeMapFile.disk.Image(), owner, w.marks, p, name,
                               size, isDir, s)
    ensures after == if ok then Assign(owner, Owned(freeMapFile.disk.Image(), s), s) else owner
    ensures StateOf(freeMapFile.disk.Image(), after).Whole?
  {
    ghost var d0 := freeMapFile.disk.Image();
    after := owner;
    p := FindParent(freeMapFile, path, owner, w);
    ghost var d1 := freeMapFile.disk.Image();
    ok, s := CreateIn(freeMapFile, p, name, size, isDir, owner, w);
    if ok {
      CreatedAfter(d0, d1, freeMapFile.disk.Image(), owner, w.marks, p, name, size, isDir, s);
      after := Assign(owner, Owned(freeMapFile.disk.Image(), s), s);
    }
  }

  method RemoveAt(freeMapFile: OpenFile, path: seq<seq<byte>>, name: seq<byte>, ghost owner: Owners, ghost w: DiskState)
      returns (ok: bool, p: int, s: int, ghost after: Owners)
    requires freeMapFile.IsFreeMap() && StateOf(freeMapFile.disk.Image(), owner) == w && w.Whole?
    requires PathOk(w.tree, DIRECTORY_SECTOR, path)
    modifies freeMapFile.disk.sectors, freeMapFile.hdr, freeMapFile.hdr.dataSectors
    ensures freeMapFile.IsFreeMap() && p == Walk(w.tree, DIRECTORY_SECTOR, path) && (p == -1 || IsSector(p))
    ensures ok <==> p != -1 && CanRemove(w.tree, p, name)
    ensures !ok ==> Untouched(old(freeMapFile.disk.Image()), freeMapFile.disk.Image(), owner)
    ensures ok ==> RemovedFile(old(freeMapFile.disk.Image()), freeMapFile.disk.Image(), owner, w.marks, p, name, s)
    ensures after == if ok then Assign(owner, Owned(old(freeMapFile.disk.Image()), s), FREE) else owner
    ensures StateOf(freeMapFile.disk.Image(), after).Whole?
    ensures ok ==> s == Lookup(w.tree[p], name)
  {
    ghost var d0 := freeMapFile.disk.Image();
    after := owner;
    p := FindParent(freeMapFile, path, owner, w);
    if p == -1 {
      return false, p, -1, owner;
    }
    ghost var d1 := freeMapFile.disk.Image();
    ok, s := RemoveIn(freeMapFile, p, name, owner, w);
    if ok {
      RemovedAfter(d0, d1, freeMapFile.disk.Image(), owner, w.marks, p, name, s);
      after := Assign(owner, Owned(d0, s), FREE);
    }
  }

  // ---------------------------------------------------------------- writing

  // The disk after a write to file h: the same tree, the map still in its file, and marked
  // besides what it did just the sectors that the file has gained, which were clear.
  ghost predicate WroteFile(d0: Image, d1: Image, owner: Owners, after: Owners, w: DiskState, h: int, added: seq<int>)
  {
    && w.Whole? && StateOf(d1, after).Whole? && StateOf(d1, after).tree == w.tree
    && OthersSame(d0, d1, owner, {h, FREE_MAP_SECTOR}) && Live(after, h)
    && HeaderAt(d1, FREE_MAP_SECTOR) == HeaderAt(d0, FREE_MAP_SECTOR) && InOrder(HeaderAt(d1, FREE_MAP_SECTOR), d1)
    && IsSector(h) && FileOk(d1, h) && ChainAt(d1, h) == ChainAt(d0, h) + added
    && Elems(added) !! w.marks && Marks(d1) == w.marks + Elems(added)
  }

  lemma WroteBeyond(d0: Image, d1: Image, owner: Owners, w: DiskState, h: int, h1: Header, added: seq<int>)
    requires StateOf(d0, owner) == w && w.Whole? && Live(owner, h) && w.tree[h] == [] && h != FREE_MAP_SECTOR
    requires GrownOnDisk(d0, d1, owner, h, h1, added)
    ensures WroteFile(d0, d1, owner, Assign(owner, Elems(added), h), w, h, added)
  {
    var after := Assign(owner, Elems(added), h);
    RootAt(d0, owner, w);
    DirectoryAt(d0, owner, w, h);
    TidyAccounts(d0, owner, w.marks);
    StillLive(owner, Elems(added), h, w.marks);
    LiveFile(d1, after, Marks(d1), h);
    LiveFile(d1, after, Marks(d1), FREE_MAP_SECTOR);
    InfosSame(d0, d1, owner, {h, FREE_MAP_SECTOR});
    Rewrote(InfosOf(d0), InfosOf(d1), owner, h, after);
  }

  lemma WroteWithin(d0: Image, d1: Image, owner: Owners, w: DiskState, h: int)
    requires StateOf(d0, owner) == w && w.Whole? && Live(owner, h) && w.tree[h] == [] && h != FREE_MAP_SECTOR
    requires OnlyDataWritten(d0, d1, ChainAt(d0, h))
    ensures WroteFile(d0, d1, owner, owner, w, h, []) && HeaderAt(d1, h) == HeaderAt(d0, h)
  {
    RootAt(d0, owner, w);
    DirectoryAt(d0, owner, w, h);
    LaidData(d0, d1, owner, h);
    LiveFile(d1, owner, w.marks, h);
    LiveFile(d1, owner, w.marks, FREE_MAP_SECTOR);
    assert SameFile(d0, d1, FREE_MAP_SECTOR);
    InfosSame(d0, d1, owner, {h});
    Rewrote(InfosOf(d0), InfosOf(d1), owner, h, owner);
  }

  method WriteUser(file: OpenFile, from: array<byte>, numBytes: int32, position: nat31, ghost owner: Owners,
                   ghost w: DiskState)
      returns (count: nat, ghost after: Owners, ghost added: seq<int>)
    requires position + numBytes < 0x8000_0000
    requires file.Current() && file.Separate(from) && numBytes <= from.Length
    requires StateOf(file.disk.Image(), owner) == w && w.Whole?
    requires Live(owner, file.hdr.headerSector) && w.tree[file.hdr.headerSector] == [] &&
      file.hdr.headerSector != FREE_MAP_SECTOR
    requires position + numBytes > file.hdr.numBytes ==>
      file.hdr.numBytes + numBytes < 0x8000_0000 && file.Affordable(numBytes, NumClear(w.marks, NUM_SECTORS))
    modifies file.disk.sectors, file.hdr, file.hdr.dataSectors
    ensures file.Current() && file.hdr.headerSector == old(file.hdr.headerSector)
    ensures WroteFile(old(file.disk.Image()), file.disk.Image(), owner, after, w, file.hdr.headerSector, added)
    ensures position + numBytes <= old(file.hdr.numBytes) ==> added == []
    ensures |file.Text()| == LengthAfter(old(file.hdr.numBytes), numBytes, position)
    ensures count == Moved(|file.Text()|, numBytes, position) && count <= from.Length
    ensures Rewritten(old(file.Text()), file.Text(), position, from[..count])
  {
    ghost var d0, h := file.disk.Image(), file.hdr.headerSector;
    ghost var grows := position + numBytes > file.hdr.numBytes;
    count, added := file.WriteAt(from, numBytes, position, owner);
    if grows {
      WroteBeyond(d0, file.disk.Image(), owner, w, h, file.hdr.Value(), added);
      after := Assign(owner, Elems(added), h);
    } else {
      WroteWithin(d0, file.disk.Image(), owner, w, h);
      after, added := owner, [];
    }
  }

  // And the handle on the free map stays good.
  method WriteBesideMap(freeMapFile: OpenFile, file: OpenFile, from: array<byte>, numBytes: int32, position: nat31,
                        ghost owner: Owners, ghost w: DiskState)
      returns (count: nat, ghost after: Owners, ghost added: seq<int>)
    requires position + numBytes < 0x8000_0000
    requires file.Current() && file.Separate(from) && numBytes <= from.Length
    requires StateOf(file.disk.Image(), owner) == w && w.Whole?
    requires Live(owner, file.hdr.headerSector) && w.tree[file.hdr.headerSector] == []
    requires file.hdr.headerSector != FREE_MAP_SECTOR
    requires position + numBytes > file.hdr.numBytes ==>
      file.hdr.numBytes + numBytes < 0x8000_0000 && file.Affordable(numBytes, NumClear(w.marks, NUM_SECTORS))
    requires freeMapFile.IsFreeMap() && freeMapFile.disk == file.disk
    requires file.hdr != freeMapFile.hdr && file.hdr.dataSectors != freeMapFile.hdr.dataSectors
    modifies file.disk.sectors, file.hdr, file.hdr.dataSectors
    ensures file.Current() && file.hdr.headerSector == old(file.hdr.headerSector) && freeMapFile.IsFreeMap()
    ensures WroteFile(old(file.disk.Image()), file.disk.Image(), owner, after, w, file.hdr.headerSector, added)
    ensures position + numBytes <= old(file.hdr.numBytes) ==> added == []
    ensures |file.Text()| == LengthAfter(old(file.hdr.numBytes), numBytes, position)
    ensures count == Moved(|file.Text()|, numBytes, position) && count <= from.Length
    ensures Rewritten(old(file.Text()), file.Text(), position, from[..count])
  {
    count, after, added := WriteUser(file, from, numBytes, position, owner, w);
  }

  class FileSystem {
    const disk: SectorDisk
    const freeMapFile: OpenFile
    // Whose each sector is.
    ghost var owner: Owners

    ghost predicate Valid()
      reads this, disk.sectors, freeMapFile.hdr, freeMapFile.hdr.dataSectors
    {
      freeMapFile.disk == disk && freeMapFile.IsFreeMap() && StateOf(disk.Image(), owner).Whole?
    }

    // The disk is whole, with this directory tree and these sectors in use.
    ghost function State(): DiskState
      requires Valid()
      reads this, disk.sectors, freeMapFile.hdr, freeMapFile.hdr.dataSectors
    {
      StateOf(disk.Image(), owner)
    }

    // Formats the disk.
    constructor (disk: SectorDisk)
      requires disk.Valid()
      modifies disk.sectors
      ensures Valid() && this.disk == disk && fresh(freeMapFile.hdr) && fresh(freeMapFile.hdr.dataSectors)
      ensures Unused(TableAt(disk.Image(), DIRECTORY_SECTOR))
    {
      var directory := new Directory();
      var freeMap, first := FormatHeaders(disk);
      var mapFile := FormatFiles(disk, freeMap, directory, first);
      this.disk := disk;
      freeMapFile := mapFile;
      owner := first;
    }

    // Creates a file of that size, or an empty directory for the size -1.
    method Create(path: seq<seq<byte>>, name: seq<byte>, initialSize: int32)
        returns (ok: bool, ghost p: int, ghost s: int)
      requires Valid() && initialSize >= -1 && NameFits(name, initialSize == -1)
      requires PathOk(State().tree, DIRECTORY_SECTOR, path) && Walk(State().tree, DIRECTORY_SECTOR, path) != -1
      modifies this`owner, disk.sectors, freeMapFile.hdr, freeMapFile.hdr.dataSectors
      ensures Valid() && p == Walk(old(State()).tree, DIRECTORY_SECTOR, path) && IsSector(p)
      // there is room for the header, the data and the index sectors
      ensures ok <==> !HasName(old(State()).tree[p], name) &&
                      (exists i :: 0 <= i < |old(State()).tree[p]| && !old(State()).tree[p][i].inUse) &&
                      1 + Total(SectorsFor(if initialSize == -1 then DIRECTORY_FILE_SIZE else initialSize)) <=
                      NumClear(old(State()).marks, NUM_SECTORS)
      ensures !ok ==> owner == old(owner) && Untouched(old(disk.Image()), disk.Image(), owner)
      ensures ok ==> CreatedFile(old(disk.Image()), disk.Image(), old(owner), old(State()).marks, p, name,
                                 if initialSize == -1 then DIRECTORY_FILE_SIZE else initialSize, initialSize == -1, s)
      ensures ok ==> owner == Assign(old(owner), Owned(disk.Image(), s), s)
      // a file of that length, or an empty directory
      ensures ok ==> IsSector(s) && (HeaderAt(disk.Image(), s).isDirectory <==> initialSize == -1)
      ensures ok && initialSize >= 0 ==>
        HeaderAt(disk.Image(), s).numBytes == initialSize && |ContentsAt(disk.Image(), s)| == initialSize
      ensures ok && initialSize == -1 ==>
        HeaderAt(disk.Image(), s).numBytes == DIRECTORY_FILE_SIZE &&
        forall i | 0 <= i < |TableAt(disk.Image(), s)| :: !TableAt(disk.Image(), s)[i].inUse
      // the map marks its sectors, which were free, and the name stands for it
      ensures ok ==> State().marks == old(State()).marks + Owned(disk.Image(), s) &&
                     Owned(disk.Image(), s) !! old(State()).marks
      ensures ok ==> Lookup(TableAt(disk.Image(), p), name) == s
    {
      var size := if initialSize == -1 then DIRECTORY_FILE_SIZE else initialSize;
      var parent, sector;
      ghost var w, after := State(), owner;
      ok, parent, sector, after := CreateAt(freeMapFile, path, name, size, initialSize == -1, owner, w);
      owner, p, s := after, parent, sector;
      if ok {
        CreatedMeans(old(disk.Image()), disk.Image(), old(owner), w.marks, p, name, size, initialSize == -1, s);
      }
    }

    // Removes a file or an empty directory.
    method RemoveDir(path: seq<seq<byte>>, name: seq<byte>) returns (ok: bool, ghost p: int, ghost s: int)
      requires Valid() && PathOk(State().tree, DIRECTORY_SECTOR, path)
      modifies this`owner, disk.sectors, freeMapFile.hdr, freeMapFile.hdr.dataSectors
      ensures Valid() && p == Walk(old(State()).tree, DIRECTORY_SECTOR, path) && (p == -1 || IsSector(p))
      // the name is there, and stands for no directory that has entries
      ensures ok <==> p != -1 && HasName(old(State()).tree[p], name) &&
                      var t, s := old(State()).tree, Lookup(old(State()).tree[p], name);
                      IsSector(s) && forall i | 0 <= i < |t[s]| :: !t[s][i].inUse
      ensures !ok ==> owner == old(owner) && Untouched(old(disk.Image()), disk.Image(), owner)
      ensures ok ==> RemovedFile(old(disk.Image()), disk.Image(), old(owner), old(State()).marks, p, name, s)
      ensures ok ==> owner == Assign(old(owner), Owned(old(disk.Image()), s), FREE)
      // the map marks its sectors no more, and the name stands for nothing
      ensures ok ==> s == Lookup(old(State()).tree[p], name) && IsSector(s) &&
                     State().marks == old(State()).marks - Owned(old(disk.Image()), s)
      ensures ok ==> Lookup(TableAt(disk.Image(), p), name) == -1
    {
      var parent, sector;
      ghost var w, after := State(), owner;
      ok, parent, sector, after := RemoveAt(freeMapFile, path, name, owner, w);
      owner, p, s := after, parent, sector;
      if ok {
        RemovedMeans(old(disk.Image()), disk.Image(), old(owner), w.marks, p, name, s);
      }
    }

    // A handle on a live file that is no directory, nor the free map.
    ghost predicate IsUserFile(file: OpenFile)
      requires Valid()
      reads this, disk.sectors, freeMapFile.hdr, freeMapFile.hdr.dataSectors, file.hdr, file.hdr.dataSectors,
        file.disk.sectors
    {
      && file.disk == disk && file.Current() && Live(owner, file.hdr.headerSector)
      && file.hdr.headerSector != FREE_MAP_SECTOR && State().tree[file.hdr.headerSector] == []
      && file.hdr != freeMapFile.hdr && file.hdr.dataSectors != freeMapFile.hdr.dataSectors
    }

    // WriteAt through the one handle on a file that is no directory.
    method Write(file: OpenFile, from: array<byte>, numBytes: int32, position: nat31)
        returns (count: nat, ghost added: seq<int>)
      requires position + numBytes < 0x8000_0000
      requires Valid() && IsUserFile(file) && file.Separate(from) && numBytes <= from.Length
      requires position + numBytes > file.hdr.numBytes ==>
        file.hdr.numBytes + numBytes < 0x8000_0000 && file.Affordable(numBytes, NumClear(State().marks, NUM_SECTORS))
      modifies this`owner, disk.sectors, file.hdr, file.hdr.dataSectors
      ensures Valid() && IsUserFile(file) && State().tree == old(State()).tree
      ensures |file.Text()| == LengthAfter(old(file.hdr.numBytes), numBytes, position)
      ensures count == Moved(|file.Text()|, numBytes, position) && count <= from.Length
      ensures Rewritten(old(file.Text()), file.Text(), position, from[..count])
      ensures OthersSame(old(disk.Image()), disk.Image(), old(owner), {file.hdr.headerSector, FREE_MAP_SECTOR})
      // the map marks just the sectors that the file has gained, which were clear
      ensures State().marks == old(State()).marks + Elems(added) && Elems(added) !! old(State()).marks
      ensures ChainAt(disk.Image(), file.hdr.headerSector) ==
              ChainAt(old(disk.Image()), file.hdr.headerSector) + added
      ensures position + numBytes <= old(file.hdr.numBytes) ==> added == []
    {
      ghost var w, after := State(), owner;
      count, after, added := WriteBesideMap(freeMapFile, file, from, numBytes, position, owner, w);
      owner := after;
    }
  }

  // After formatting and any run of these operations the free map accounts for the disk.
  lemma ValidMeans(fs: FileSystem)
    requires fs.Valid()
    ensures AccountedFor(fs.disk.Image())
  {
    ConsistentMeans(fs.disk.Image(), fs.owner);
  }
}
