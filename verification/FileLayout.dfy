/**
 The files on a disk image: what each header says, which sectors each file owns, and what
 it means for the free map to account for exactly the sectors of the live files.
 */
module FileLayout {
  import opened WordBits
  import opened Allocation
  import opened SectorDisks
  import opened BitMaps
  import opened Chains
  import opened HeaderLayout

  const FREE_MAP_SECTOR := 0
  const FREE_MAP_SIZE := NUM_SECTORS / 8

  ghost predicate IsSector(s: int)
  {
    0 <= s < NUM_SECTORS
  }

  ghost function ChainOf(h: Header, d: Image): seq<int>
  {
    if h.numSectors <= MAX_SECTORS then Chain(h.slots, ViewOf(d), h.numSectors) else []
  }

  // A header whose fields agree and whose sectors are real and distinct.
  ghost predicate InOrder(h: Header, d: Image)
  {
    0 <= h.numBytes && h.numSectors == SectorsFor(h.numBytes) && h.numSectors <= MAX_SECTORS && Sound(ChainOf(h, d))
  }

  // Data sector i of a chain.
  ghost function SectorAt(d: Image, chain: seq<int>, i: nat): Sector
  {
    if Position(i) < |chain| && IsSector(chain[Position(i)]) then d[chain[Position(i)]] else Blank()
  }

  // Byte k of the sectors of a chain, the padding after the end of the file included.
  ghost function RawByte(d: Image, chain: seq<int>, k: nat): byte
  {
    SectorAt(d, chain, k / SECTOR_SIZE)[k % SECTOR_SIZE]
  }

  // The flat byte sequence that a file of n bytes stands for.
  ghost function Contents(d: Image, chain: seq<int>, n: nat): (r: seq<byte>)
    ensures |r| == n
    ensures forall k {:trigger RawByte(d, chain, k)} | 0 <= k < n :: r[k] == RawByte(d, chain, k)
  {
    assert exists s: seq<byte> ::
      (|s| == n && forall k {:trigger RawByte(d, chain, k)} | 0 <= k < n :: s[k] == RawByte(d, chain, k)) by {
      assert |seq(n, k requires 0 <= k < n => RawByte(d, chain, k))| == n;
    }
    var s: seq<byte> :|
      |s| == n && forall k {:trigger RawByte(d, chain, k)} | 0 <= k < n :: s[k] == RawByte(d, chain, k);
    s
  }

  lemma ContentsAreRaw(d: Image, chain: seq<int>, n: nat)
    ensures forall k | 0 <= k < n :: Contents(d, chain, n)[k] == RawByte(d, chain, k)
  {
    forall k | 0 <= k < n
      ensures Contents(d, chain, n)[k] == RawByte(d, chain, k)
    {
    }
  }

  ghost function HeaderAt(d: Image, h: int): Header
    requires IsSector(h)
  {
    DecodeHeader(d[h])
  }

  ghost function ChainAt(d: Image, h: int): seq<int>
    requires IsSector(h)
  {
    ChainOf(HeaderAt(d, h), d)
  }

  ghost function ContentsAt(d: Image, h: int): seq<byte>
    requires IsSector(h)
  {
    if HeaderAt(d, h).numBytes < 0 then [] else Contents(d, ChainAt(d, h), HeaderAt(d, h).numBytes)
  }

  ghost predicate FileOk(d: Image, h: int)
  {
    IsSector(h) && InOrder(HeaderAt(d, h), d) && h !in ChainAt(d, h)
  }

  // Header, data and index sectors of the file.
  ghost function Owned(d: Image, h: int): set<int>
    requires IsSector(h)
  {
    {h} + Elems(ChainAt(d, h))
  }

  // Whose sector each sector is: the number of the header, or FREE.
  const FREE := -1
  type Owners = o: seq<int> | |o| == NUM_SECTORS witness seq<int>(NUM_SECTORS, _ => FREE)

  // A file is live when its header owns its own sector.
  ghost predicate Live(owner: Owners, h: int)
  {
    IsSector(h) && owner[h] == h
  }

  // m is the set of sectors that are not free.
  ghost predicate Accounts(owner: Owners, m: set<int>)
  {
    && (forall s <- m :: IsSector(s))
    && (forall s | IsSector(s) :: s in m <==> owner[s] != FREE)
  }

  // Sector s is in m or free; its owner is a live file; and if it is a header then the
  // file is in order and owns what it is said to own.
  ghost predicate TidyAt(d: Image, owner: Owners, m: set<int>, s: int)
  {
    IsSector(s) ==>
      && (s in m <==> owner[s] != FREE)
      && (owner[s] != FREE ==> Live(owner, owner[s]))
      && (Live(owner, s) ==> FileOk(d, s) && Owns(d, owner, s))
  }

  // Every sector of m belongs to exactly one live file: what a live file owns is its
  // header, data and index sectors.
  ghost predicate Tidy(d: Image, owner: Owners, m: set<int>)
  {
    (forall s <- m :: IsSector(s)) && forall s {:trigger TidyAt(d, owner, m, s)} | IsSector(s) :: TidyAt(d, owner, m, s)
  }

  ghost predicate Owns(d: Image, owner: Owners, h: int)
  {
    IsSector(h) && forall s {:trigger s in Owned(d, h)} :: s in Owned(d, h) <==> IsSector(s) && owner[s] == h
  }

  // What the free map on disk marks.
  ghost function Marks(d: Image): set<int>
  {
    MarkedIn(WordsOf(ContentsAt(d, FREE_MAP_SECTOR)), NUM_SECTORS)
  }

  // The free map on disk marks exactly the sectors of the live files.
  ghost predicate Laid(d: Image, owner: Owners)
  {
    && Live(owner, FREE_MAP_SECTOR) && HeaderAt(d, FREE_MAP_SECTOR).numBytes == FREE_MAP_SIZE
    && Tidy(d, owner, Marks(d))
  }

  ghost predicate OnlyIn(d0: Image, d1: Image, written: set<int>)
  {
    forall s | IsSector(s) && s !in written :: d1[s] == d0[s]
  }

  ghost predicate SameFile(d0: Image, d1: Image, h: int)
  {
    && IsSector(h) && HeaderAt(d1, h) == HeaderAt(d0, h) && ChainAt(d1, h) == ChainAt(d0, h)
    && ContentsAt(d1, h) == ContentsAt(d0, h)
  }

  ghost predicate OthersSame(d0: Image, d1: Image, owner: Owners, except: set<int>)
  {
    forall k | Live(owner, k) && k !in except :: SameFile(d0, d1, k)
  }

  // The sectors of s go to h.
  ghost function Assign(owner: Owners, s: set<int>, h: int): Owners
  {
    seq(NUM_SECTORS, i requires 0 <= i < NUM_SECTORS => if i in s then h else owner[i])
  }

  // ---------------------------------------------------------------- writes that spare a file

  lemma SameContents(d0: Image, d1: Image, chain: seq<int>, n: nat)
    requires forall s | s in chain && IsSector(s) :: d1[s] == d0[s]
    ensures Contents(d1, chain, n) == Contents(d0, chain, n)
  {
    ContentsAreRaw(d0, chain, n);
    ContentsAreRaw(d1, chain, n);
    assert forall i: nat :: SectorAt(d1, chain, i) == SectorAt(d0, chain, i);
    assert forall k | 0 <= k < n :: RawByte(d1, chain, k) == RawByte(d0, chain, k);
  }

  // A file is untouched by writes outside its sectors.
  lemma FileUntouched(d0: Image, d1: Image, h: int, written: set<int>)
    requires FileOk(d0, h) && OnlyIn(d0, d1, written) && written !! Owned(d0, h)
    ensures FileOk(d1, h) && SameFile(d0, d1, h)
  {
    var header, chain := HeaderAt(d0, h), ChainAt(d0, h);
    assert h in Owned(d0, h);
    forall s | s in chain
      ensures IsSector(s) && d1[s] == d0[s]
    {
      assert s in Owned(d0, h);
    }
    SameTables(header.slots, ViewOf(d0), ViewOf(d1), header.numSectors);
    SameContents(d0, d1, chain, header.numBytes);
  }

  // Writing data sectors of a chain leaves the chain as it is.
  lemma DataKeepsChain(d0: Image, d1: Image, header: Header)
    requires InOrder(header, d0) && OnlyDataWritten(d0, d1, ChainOf(header, d0))
    ensures InOrder(header, d1) && ChainOf(header, d1) == ChainOf(header, d0)
  {
    SameTables(header.slots, ViewOf(d0), ViewOf(d1), header.numSectors);
  }

  lemma FileDataWritten(d0: Image, d1: Image, h: int)
    requires FileOk(d0, h) && OnlyDataWritten(d0, d1, ChainAt(d0, h))
    ensures FileOk(d1, h) && HeaderAt(d1, h) == HeaderAt(d0, h) && ChainAt(d1, h) == ChainAt(d0, h)
    ensures ChainAt(d1, h) == ChainAt(d0, h) + [] && Owned(d1, h) == Owned(d0, h)
    ensures OnlyIn(d0, d1, Owned(d0, h))
  {
    assert d1[h] == d0[h];
    DataKeepsChain(d0, d1, HeaderAt(d0, h));
  }

  // ---------------------------------------------------------------- keeping the disk tidy

  lemma TidyAtSector(d: Image, owner: Owners, m: set<int>, s: int)
    requires Tidy(d, owner, m) && IsSector(s)
    ensures TidyAt(d, owner, m, s)
  {
  }

  lemma LiveFile(d: Image, owner: Owners, m: set<int>, h: int)
    requires Tidy(d, owner, m) && Live(owner, h)
    ensures FileOk(d, h) && Owns(d, owner, h) && Owned(d, h) <= m && h in m
  {
    TidyAtSector(d, owner, m, h);
    forall s | s in Owned(d, h)
      ensures s in m
    {
      TidyAtSector(d, owner, m, s);
    }
    assert h in Owned(d, h);
  }

  lemma SectorInUse(d: Image, owner: Owners, m: set<int>, s: int)
    requires Tidy(d, owner, m)
    ensures s in m ==> IsSector(s)
    ensures IsSector(s) ==> (s in m <==> owner[s] != FREE) && (owner[s] != FREE ==> Live(owner, owner[s]))
  {
    if IsSector(s) {
      TidyAtSector(d, owner, m, s);
    }
  }

  lemma TidyAccounts(d: Image, owner: Owners, m: set<int>)
    requires Tidy(d, owner, m)
    ensures Accounts(owner, m)
  {
    forall s | IsSector(s)
      ensures s in m <==> owner[s] != FREE
    {
      SectorInUse(d, owner, m, s);
    }
  }

  // Files that own none of the sectors written are as they were.
  lemma OthersUntouched(d0: Image, d1: Image, owner: Owners, m: set<int>, written: set<int>, h: int, k: int)
    requires Tidy(d0, owner, m) && OnlyIn(d0, d1, written)
    requires forall s | s in written && IsSector(s) :: owner[s] == FREE || owner[s] == h
    requires Live(owner, k) && k != h
    ensures FileOk(d1, k) && SameFile(d0, d1, k) && Owns(d1, owner, k) && k !in written
  {
    LiveFile(d0, owner, m, k);
    assert forall s | s in Owned(d0, k) :: s !in written;
    FileUntouched(d0, d1, k, written);
    assert Owned(d1, k) == Owned(d0, k);
    assert k in Owned(d0, k);
  }

  // A file h, new or not, whose sectors are its own or were free.
  lemma TidyPut(d0: Image, d1: Image, owner: Owners, m: set<int>, h: int)
    requires Tidy(d0, owner, m) && FileOk(d1, h) && OnlyIn(d0, d1, Owned(d1, h))
    requires forall s | IsSector(s) ::
      if owner[s] == h then s in Owned(d1, h) else s in Owned(d1, h) ==> owner[s] == FREE
    ensures Tidy(d1, Assign(owner, Owned(d1, h), h), m + Owned(d1, h)) && OthersSame(d0, d1, owner, {h})
  {
    var owned := Owned(d1, h);
    var after := Assign(owner, owned, h);
    forall k | Live(owner, k) && k != h
      ensures SameFile(d0, d1, k)
    {
      OthersUntouched(d0, d1, owner, m, owned, h, k);
    }
    forall s | IsSector(s)
      ensures TidyAt(d1, after, m + owned, s)
    {
      TidyAfterPut(d0, d1, owner, m, h, owned, s);
    }
  }

  lemma TidyAfterPut(d0: Image, d1: Image, owner: Owners, m: set<int>, h: int, owned: set<int>, s: int)
    requires Tidy(d0, owner, m) && FileOk(d1, h) && OnlyIn(d0, d1, owned) && owned == Owned(d1, h)
    requires forall s | IsSector(s) :: if owner[s] == h then s in owned else s in owned ==> owner[s] == FREE
    requires IsSector(s)
    ensures TidyAt(d1, Assign(owner, owned, h), m + owned, s)
  {
    var after := Assign(owner, owned, h);
    assert h in owned;
    SectorInUse(d0, owner, m, s);
    if Live(owner, s) && s != h {
      OthersUntouched(d0, d1, owner, m, owned, h, s);
    }
  }

  lemma OwnedApart(d: Image, owner: Owners, m: set<int>, h: int, k: int)
    requires Tidy(d, owner, m) && Live(owner, h) && Live(owner, k) && h != k
    ensures Owned(d, h) !! Owned(d, k)
  {
    LiveFile(d, owner, m, h);
    LiveFile(d, owner, m, k);
  }

  // Taking a file away.
  lemma TidyTake(d: Image, owner: Owners, m: set<int>, h: int)
    requires Tidy(d, owner, m) && Live(owner, h)
    ensures Owned(d, h) <= m && Tidy(d, Assign(owner, Owned(d, h), FREE), m - Owned(d, h))
  {
    var after := Assign(owner, Owned(d, h), FREE);
    LiveFile(d, owner, m, h);
    forall s | IsSector(s)
      ensures TidyAt(d, after, m - Owned(d, h), s)
    {
      SectorInUse(d, owner, m, s);
      assert s in Owned(d, h) <==> owner[s] == h;
      if Live(owner, s) && s != h {
        LiveFile(d, owner, m, s);
        assert Owns(d, after, s);
      }
      if owner[s] != FREE && owner[s] != h {
        assert owner[s] in Owned(d, h) <==> owner[owner[s]] == h;
      }
    }
  }

  // An in-place write to one file touches no other.
  lemma TidyData(d0: Image, d1: Image, owner: Owners, m: set<int>, h: int)
    requires Tidy(d0, owner, m) && Live(owner, h) && OnlyDataWritten(d0, d1, ChainAt(d0, h))
    ensures Tidy(d1, owner, m) && OthersSame(d0, d1, owner, {h})
    ensures HeaderAt(d1, h) == HeaderAt(d0, h) && ChainAt(d1, h) == ChainAt(d0, h)
  {
    LiveFile(d0, owner, m, h);
    FileDataWritten(d0, d1, h);
    TidyPut(d0, d1, owner, m, h);
    assert Assign(owner, Owned(d1, h), h) == owner;
    assert m + Owned(d1, h) == m;
  }

  // A header written back as it was read.
  lemma HeaderRewritten(d0: Image, owner: Owners, m: set<int>, h: int, d1: Image)
    requires Tidy(d0, owner, m) && Live(owner, h) && d1 == d0[h := EncodeHeader(HeaderAt(d0, h))]
    ensures Tidy(d1, owner, m) && OthersSame(d0, d1, owner, {})
  {
    LiveFile(d0, owner, m, h);
    SameHeaderFile(d0, h, d1);
    TidyPut(d0, d1, owner, m, h);
    assert Assign(owner, Owned(d1, h), h) == owner;
    assert m + Owned(d1, h) == m;
  }

  lemma SameHeaderFile(d0: Image, h: int, d1: Image)
    requires FileOk(d0, h) && d1 == d0[h := EncodeHeader(HeaderAt(d0, h))]
    ensures FileOk(d1, h) && SameFile(d0, d1, h) && Owned(d1, h) == Owned(d0, h)
  {
    var header := HeaderAt(d0, h);
    HeaderRoundTrip(header);
    SameTables(header.slots, ViewOf(d0), ViewOf(d1), header.numSectors);
    SameContents(d0, d1, ChainAt(d0, h), header.numBytes);
  }

  // Growth moves no byte.
  lemma GrownContents(d0: Image, d2: Image, h: int, chain: seq<int>, n: nat, added: seq<int>)
    requires Sound(chain + added) && h !in chain && IsSector(h)
    requires forall s | IsSector(s) && s != h && d2[s] != d0[s] ::
      exists p :: 0 <= p < |chain + added| && IsTable(p) && (chain + added)[p] == s
    requires SectorsFor(n) <= MAX_SECTORS && |chain| == Total(SectorsFor(n))
    ensures Contents(d2, chain + added, n) == Contents(d0, chain, n)
  {
    ContentsAreRaw(d0, chain, n);
    ContentsAreRaw(d2, chain + added, n);
    forall k | 0 <= k < n
      ensures RawByte(d2, chain + added, k) == RawByte(d0, chain, k)
    {
      PositionOwned(k / SECTOR_SIZE, SectorsFor(n));
      var p := Position(k / SECTOR_SIZE);
      assert (chain + added)[p] == chain[p];
    }
  }

  // A header and chain grown by new sectors, once the header is on the disk.
  lemma HeaderWritten(d0: Image, d1: Image, h: int, h1: Header, added: seq<int>, d2: Image)
    requires FileOk(d0, h) && h !in added
    requires InOrder(h1, d1) && ChainOf(h1, d1) == ChainAt(d0, h) + added
    requires OnlyTablesWritten(d0, d1, ChainOf(h1, d1))
    requires d2 == d1[h := EncodeHeader(h1)]
    ensures FileOk(d2, h) && HeaderAt(d2, h) == h1 && ChainAt(d2, h) == ChainAt(d0, h) + added
    ensures OnlyIn(d0, d2, Owned(d2, h))
    ensures Contents(d2, ChainAt(d2, h), HeaderAt(d0, h).numBytes) == ContentsAt(d0, h)
  {
    HeaderRoundTrip(h1);
    SameTables(h1.slots, ViewOf(d1), ViewOf(d2), h1.numSectors);
    GrownContents(d0, d2, h, ChainAt(d0, h), HeaderAt(d0, h).numBytes, added);
  }

  lemma NewHeader(d0: Image, d1: Image, s: int, h1: Header, d2: Image)
    requires IsSector(s) && InOrder(h1, d1) && s !in ChainOf(h1, d1)
    requires OnlyTablesWritten(d0, d1, ChainOf(h1, d1)) && d2 == d1[s := EncodeHeader(h1)]
    ensures HeaderAt(d2, s) == h1 && FileOk(d2, s) && Owned(d2, s) == {s} + Elems(ChainOf(h1, d1))
    ensures OnlyIn(d0, d2, Owned(d2, s))
  {
    HeaderRoundTrip(h1);
    SameTables(h1.slots, ViewOf(d1), ViewOf(d2), h1.numSectors);
  }

  // Allocate and WriteBack together: a new file in sectors that were free.
  lemma NewFile(d0: Image, d1: Image, owner: Owners, m: set<int>, s: int, h1: Header, d2: Image)
    requires Tidy(d0, owner, m) && IsSector(s) && s !in m && InOrder(h1, d1)
    requires Elems(ChainOf(h1, d1)) !! m + {s}
    requires OnlyTablesWritten(d0, d1, ChainOf(h1, d1)) && d2 == d1[s := EncodeHeader(h1)]
    ensures HeaderAt(d2, s) == h1 && FileOk(d2, s) && Owned(d2, s) == {s} + Elems(ChainOf(h1, d1))
    ensures Tidy(d2, Assign(owner, Owned(d2, s), s), m + Owned(d2, s)) && OthersSame(d0, d2, owner, {})
  {
    assert s !in Elems(ChainOf(h1, d1));
    NewHeader(d0, d1, s, h1, d2);
    forall x | IsSector(x)
      ensures owner[x] != s && (x in Owned(d2, s) ==> owner[x] == FREE)
    {
      SectorInUse(d0, owner, m, s);
      SectorInUse(d0, owner, m, x);
    }
    TidyPut(d0, d2, owner, m, s);
    assert !Live(owner, s);
  }

  // ExpandFileSize took a header from h0 on disk d0 to h1 on d1.
  ghost predicate Enlarged(d0: Image, h0: Header, d1: Image, h1: Header, added: seq<int>)
  {
    && InOrder(h1, d1) && ChainOf(h1, d1) == ChainOf(h0, d0) + added
    && OnlyTablesWritten(d0, d1, ChainOf(h1, d1))
    && h0.numBytes <= h1.numBytes && h1.isDirectory == h0.isDirectory
  }

  // ExpandFileSize and WriteBack together.
  lemma GrownFile(d0: Image, d1: Image, owner: Owners, m: set<int>, h: int, h1: Header, added: seq<int>, d2: Image)
    requires Tidy(d0, owner, m) && Live(owner, h) && Elems(added) !! m
    requires Enlarged(d0, HeaderAt(d0, h), d1, h1, added) && d2 == d1[h := EncodeHeader(h1)]
    ensures Tidy(d2, Assign(owner, Elems(added), h), m + Elems(added)) && OthersSame(d0, d2, owner, {h})
    ensures FileOk(d2, h) && HeaderAt(d2, h) == h1 && ChainAt(d2, h) == ChainAt(d0, h) + added
    ensures 0 <= HeaderAt(d0, h).numBytes
    ensures Contents(d2, ChainAt(d2, h), HeaderAt(d0, h).numBytes) == ContentsAt(d0, h)
  {
    LiveFile(d0, owner, m, h);
    HeaderWritten(d0, d1, h, h1, added, d2);
    assert Owned(d2, h) == Owned(d0, h) + Elems(added);
    forall s | IsSector(s)
      ensures if owner[s] == h then s in Owned(d2, h) else s in Owned(d2, h) ==> owner[s] == FREE
    {
      assert s in Owned(d0, h) <==> owner[s] == h;
      SectorInUse(d0, owner, m, s);
    }
    TidyPut(d0, d2, owner, m, h);
    assert Assign(owner, Owned(d2, h), h) == Assign(owner, Elems(added), h);
    assert m + Owned(d2, h) == m + Elems(added);
  }

  // The map m is on disk d1, and all files but the map are as they were on d0.
  ghost predicate MapStored(d0: Image, d1: Image, owner: Owners, m: set<int>)
  {
    && Laid(d1, owner) && Marks(d1) == m
    && OthersSame(d0, d1, owner, {FREE_MAP_SECTOR})
    && HeaderAt(d1, FREE_MAP_SECTOR) == HeaderAt(d0, FREE_MAP_SECTOR)
  }

  // The new map reaches the disk.
  lemma MapWritten(d0: Image, d1: Image, owner: Owners, words: seq<word>)
    requires Live(owner, FREE_MAP_SECTOR) && HeaderAt(d0, FREE_MAP_SECTOR).numBytes == FREE_MAP_SIZE
    requires Tidy(d0, owner, MarkedIn(words, NUM_SECTORS))
    requires OnlyDataWritten(d0, d1, ChainAt(d0, FREE_MAP_SECTOR))
    requires ContentsAt(d1, FREE_MAP_SECTOR) == BytesOf(words)
    ensures MapStored(d0, d1, owner, MarkedIn(words, NUM_SECTORS))
  {
    TidyData(d0, d1, owner, MarkedIn(words, NUM_SECTORS), FREE_MAP_SECTOR);
    WordsOfBytesOf(words);
  }

  // And stays there when headers are rewritten as they were.
  lemma MapStill(d0: Image, d1: Image, d2: Image, owner: Owners, m: set<int>)
    requires MapStored(d0, d1, owner, m) && Tidy(d2, owner, m) && OthersSame(d1, d2, owner, {})
    ensures MapStored(d0, d2, owner, m)
  {
    assert SameFile(d1, d2, FREE_MAP_SECTOR);
    forall k | Live(owner, k) && k != FREE_MAP_SECTOR
      ensures SameFile(d0, d2, k)
    {
      assert SameFile(d0, d1, k) && SameFile(d1, d2, k);
    }
  }

  // An in-place write on a disk whose map is in order.
  lemma LaidData(d0: Image, d1: Image, owner: Owners, h: int)
    requires Laid(d0, owner) && Live(owner, h) && h != FREE_MAP_SECTOR && OnlyDataWritten(d0, d1, ChainAt(d0, h))
    ensures Laid(d1, owner) && Marks(d1) == Marks(d0) && OthersSame(d0, d1, owner, {h})
    ensures HeaderAt(d1, h) == HeaderAt(d0, h) && ChainAt(d1, h) == ChainAt(d0, h)
  {
    TidyData(d0, d1, owner, Marks(d0), h);
    assert SameFile(d0, d1, FREE_MAP_SECTOR);
  }

  // ---------------------------------------------------------------- growth on disk

  // What growing a file does to the disk: more sectors at the end of its chain, free
  // before and marked now, and no other file but the map changed.
  ghost predicate GrownOnDisk(d0: Image, d1: Image, owner: Owners, h: int, h1: Header, added: seq<int>)
  {
    && Laid(d1, Assign(owner, Elems(added), h)) && IsSector(h)
    && HeaderAt(d1, h) == h1 && h1.isDirectory == HeaderAt(d0, h).isDirectory
    && OthersSame(d0, d1, owner, {h, FREE_MAP_SECTOR})
    && HeaderAt(d1, FREE_MAP_SECTOR) == HeaderAt(d0, FREE_MAP_SECTOR)
    && ChainAt(d1, h) == ChainAt(d0, h) + added
    && Elems(added) !! Marks(d0) && Marks(d1) == Marks(d0) + Elems(added)
  }

  // Growth with the header on the disk, and the map not yet.
  ghost predicate Begun(d0: Image, d2: Image, owner: Owners, h: int, h1: Header, added: seq<int>)
    requires IsSector(h)
  {
    && Tidy(d2, Assign(owner, Elems(added), h), Marks(d0) + Elems(added)) && OthersSame(d0, d2, owner, {h})
    && Live(Assign(owner, Elems(added), h), FREE_MAP_SECTOR) &&
      HeaderAt(d2, FREE_MAP_SECTOR) == HeaderAt(d0, FREE_MAP_SECTOR)
    && HeaderAt(d2, h) == h1 && h1.isDirectory == HeaderAt(d0, h).isDirectory
    && ChainAt(d2, h) == ChainAt(d0, h) + added && Elems(added) !! Marks(d0)
    && 0 <= HeaderAt(d0, h).numBytes <= h1.numBytes
    && Contents(d2, ChainAt(d2, h), HeaderAt(d0, h).numBytes) == ContentsAt(d0, h)
  }

  // d1 after the new index tables, d2 after the header.
  lemma GrowthBegun(d0: Image, d1: Image, owner: Owners, h: int, h1: Header, added: seq<int>, d2: Image)
    requires Laid(d0, owner) && Live(owner, h) && h != FREE_MAP_SECTOR && Elems(added) !! Marks(d0)
    requires Enlarged(d0, HeaderAt(d0, h), d1, h1, added) && d2 == d1[h := EncodeHeader(h1)]
    ensures Begun(d0, d2, owner, h, h1, added)
    ensures InOrder(HeaderAt(d2, FREE_MAP_SECTOR), d2) && InOrder(h1, d2)
  {
    GrownFile(d0, d1, owner, Marks(d0), h, h1, added, d2);
    TidyAccounts(d0, owner, Marks(d0));
    StillLive(owner, Elems(added), h, Marks(d0));
    assert SameFile(d0, d2, FREE_MAP_SECTOR);
    LiveFile(d2, Assign(owner, Elems(added), h), Marks(d0) + Elems(added), FREE_MAP_SECTOR);
  }

  // Growth takes no file away and adds none.
  lemma StillLive(owner: Owners, added: set<int>, h: int, m: set<int>)
    requires Accounts(owner, m) && added !! m && Live(owner, h)
    ensures forall k | IsSector(k) :: Live(Assign(owner, added, h), k) <==> Live(owner, k)
  {
  }

  // d3 after the map.
  lemma GrowthDone(d0: Image, owner: Owners, h: int, h1: Header, added: seq<int>, d2: Image, d3: Image)
    requires Laid(d0, owner) && Live(owner, h) && h != FREE_MAP_SECTOR
    requires Begun(d0, d2, owner, h, h1, added)
    requires MapStored(d2, d3, Assign(owner, Elems(added), h), Marks(d0) + Elems(added))
    ensures GrownOnDisk(d0, d3, owner, h, h1, added) && FileOk(d3, h)
    ensures ContentsAt(d0, h) <= ContentsAt(d3, h)
  {
    TidyAccounts(d0, owner, Marks(d0));
    StillLive(owner, Elems(added), h, Marks(d0));
    assert SameFile(d2, d3, h);
    LiveFile(d3, Assign(owner, Elems(added), h), Marks(d3), h);
    PrefixGrown(d2, ChainAt(d2, h), HeaderAt(d0, h).numBytes, h1.numBytes);
  }

  lemma PrefixGrown(d: Image, chain: seq<int>, n: nat, more: nat)
    requires n <= more
    ensures Contents(d, chain, n) <= Contents(d, chain, more)
  {
    ContentsAreRaw(d, chain, n);
    ContentsAreRaw(d, chain, more);
  }

  // Then the new bytes are written.
  lemma GrownThenWritten(d0: Image, d1: Image, owner: Owners, h: int, h1: Header, added: seq<int>, d2: Image)
    requires GrownOnDisk(d0, d1, owner, h, h1, added) && Laid(d0, owner) && Live(owner, h) && h != FREE_MAP_SECTOR
    requires OnlyDataWritten(d1, d2, ChainAt(d1, h))
    ensures GrownOnDisk(d0, d2, owner, h, h1, added)
  {
    TidyAccounts(d0, owner, Marks(d0));
    StillLive(owner, Elems(added), h, Marks(d0));
    LaidData(d1, d2, Assign(owner, Elems(added), h), h);
    assert SameFile(d1, d2, FREE_MAP_SECTOR);
  }
}
