/**
 Laws of the file header operations: what a file takes it gives back, growth keeps the
 list of data sectors, and exactly when the free-space tests of ExpandFileSize are right.
 */
module FileLife {
  import opened WordBits
  import opened Allocation
  import opened SectorDisks
  import opened BitMaps
  import opened Chains
  import opened FileHeaders

  // ---------------------------------------------------------------- sectors taken

  // Taking sectors that were clear uses up exactly as many.
  lemma TakenExactly(m: set<int>, added: seq<int>)
    requires Sound(added) && Elems(added) !! m
    ensures NumClear(m + Elems(added), NUM_SECTORS) == NumClear(m, NUM_SECTORS) - |added|
  {
    OwnedSize(added);
    var before, after := ClearSet(m, NUM_SECTORS), ClearSet(m + Elems(added), NUM_SECTORS);
    assert before == after + Elems(added);
  }

  // Allocate is all or nothing: n data sectors and their index tables, or no sector.
  method AllocateExactly(hdr: FileHeader, freeMap: BitMap, disk: SectorDisk, fileSize: int32) returns (r: Outcome)
    requires hdr.Apart(freeMap, disk)
    modifies freeMap.bits, freeMap`base, freeMap`found, disk.sectors, hdr.dataSectors, hdr`numBytes, hdr`numSectors
    ensures freeMap.Valid() && freeMap.numBits == NUM_SECTORS
    ensures NumClear(freeMap.Marked(), NUM_SECTORS) == NumClear(old(freeMap.Marked()), NUM_SECTORS) -
                                                       if r.Done? then Total(SectorsOfSize(fileSize)) else 0
    ensures r.Stopped? <==> fileSize <= -SECTOR_SIZE
    ensures r.NoRoom? <==> Total(SectorsOfSize(fileSize)) > NumClear(old(freeMap.Marked()), NUM_SECTORS)
  {
    ghost var m := freeMap.Marked();
    r := hdr.Allocate(freeMap, disk, fileSize);
    if r.Done? {
      TakenExactly(m, Chain(hdr.Sectors(), disk.Tables(), hdr.numSectors));
    }
  }

  // ---------------------------------------------------------------- the flat list

  // A grown chain keeps the old list of data sectors as a prefix, and the sectors it gains
  // are those of its new positions.
  lemma FlatListGrows(chain: seq<int>, added: seq<int>, have: nat, want: nat)
    requires have <= want <= MAX_SECTORS && |chain| == Total(have) && |chain + added| == Total(want)
    requires Sound(chain + added)
    ensures FlatList(chain + added, want)[..have] == FlatList(chain, have)
    ensures forall i | have <= i < want :: FlatList(chain + added, want)[i] in added
    ensures forall i, j | 0 <= i < j < want :: FlatList(chain + added, want)[i] != FlatList(chain + added, want)[j]
  {
    forall i | 0 <= i < want
      ensures Position(i) < Total(want) && (i < have <==> Position(i) < Total(have))
    {
      PositionOwned(i, want);
      if i < have {
        PositionOwned(i, have);
      } else {
        NewPosition(i, have);
      }
    }
    forall i, j | 0 <= i < j < want
      ensures FlatList(chain + added, want)[i] != FlatList(chain + added, want)[j]
    {
      PositionIncreases(i, j);
    }
  }

  // Growth by a number of bytes for which there is room: the list that ByteToSector goes by
  // keeps its old part, and the sectors it gains were clear before and are marked after.
  method ExpandList(hdr: FileHeader, freeMap: BitMap, disk: SectorDisk, expandBytes: int32) returns (ok: bool)
    requires hdr.Apart(freeMap, disk) && hdr.Holds(freeMap, disk) && hdr.numBytes + expandBytes < 0x8000_0000
    requires expandBytes >= 0 ==>
      Need(hdr.numSectors, SectorsFor(hdr.numBytes + expandBytes)) <= NumClear(freeMap.Marked(), NUM_SECTORS)
    modifies freeMap.bits, freeMap`base, freeMap`found, disk.sectors, hdr.dataSectors, hdr`numBytes, hdr`numSectors
    ensures hdr.Apart(freeMap, disk) && 0 <= hdr.numSectors <= MAX_SECTORS
    ensures hdr.numBytes == old(hdr.numBytes) + if ok then expandBytes else 0
    ensures ok ==> hdr.Holds(freeMap, disk) && old(hdr.List(disk)) <= hdr.List(disk)
    ensures ok ==> forall i | old(hdr.numSectors) <= i < hdr.numSectors ::
      hdr.List(disk)[i] !in old(freeMap.Marked()) && hdr.List(disk)[i] in freeMap.Marked()
    ensures !ok ==> hdr.List(disk) == old(hdr.List(disk)) && freeMap.Marked() == old(freeMap.Marked()) &&
                    disk.Image() == old(disk.Image())
  {
    ghost var chain, have, got := Chain(hdr.Sectors(), disk.Tables(), hdr.numSectors), hdr.numSectors, |freeMap.found|;
    ghost var m, tables := freeMap.Marked(), disk.Tables();
    ok := hdr.ExpandWithRoom(freeMap, disk, expandBytes);
    if ok {
      ListGrows(chain, freeMap.found[got..], have, hdr.numSectors, m, freeMap.Marked());
    } else {
      assert disk.Tables() == tables;
    }
  }

  lemma ListGrows(chain: seq<int>, added: seq<int>, have: nat, want: nat, m0: set<int>, m1: set<int>)
    requires have <= want <= MAX_SECTORS && |chain| == Total(have) && |chain + added| == Total(want)
    requires Sound(chain + added) && Elems(added) !! m0 && m1 == m0 + Elems(added)
    ensures FlatList(chain, have) <= FlatList(chain + added, want)
    ensures forall i | have <= i < want ::
      FlatList(chain + added, want)[i] !in m0 && FlatList(chain + added, want)[i] in m1
  {
    FlatListGrows(chain, added, have, want);
  }

  lemma NewPosition(i: nat, have: nat)
    requires have <= i < MAX_SECTORS
    ensures Position(i) >= Total(have)
  {
    if have > 0 {
      PositionIncreases(have - 1, i);
    }
  }

  // ---------------------------------------------------------------- free-space tests

  // Sectors that growing from have to want data sectors takes.
  function Need(have: int, want: int): int
  {
    Total(want) - Total(have)
  }

  // The tests of a branch let a file grow exactly when there is room, whatever the map: it
  // may have any number of clear sectors that the file itself leaves on the disk.
  ghost predicate TestsExact(have: int, want: int)
  {
    forall clear: nat | clear <= NUM_SECTORS - Total(have) ::
      GuardsPass(have, want, clear) <==> Need(have, want) <= clear
  }

  // The tests are right without a two-level table, within the last second-level table and
  // for one more second-level table. From one level to two they compare with the old
  // number of sectors, which is right only when the file doubles. From direct sectors to
  // two levels they are never right. And they are right about growth so great that they
  // never allow it.
  lemma WhenTestsAreExact(have: nat, want: nat)
    requires have < want <= MAX_SECTORS
    ensures TestsExact(have, want) <==>
      if want <= NUM_DIRECT + LEVEL_NUM then true
      else if have <= NUM_DIRECT then want > NUM_SECTORS
      else if have <= NUM_DIRECT + LEVEL_NUM then want == 2 * have || want >= NUM_SECTORS
      else SecondLevelNum(want) <= SecondLevelNum(have) + 1 || want + SecondLevelNum(have) + 2 >= NUM_SECTORS
  {
    if want > NUM_DIRECT + LEVEL_NUM && have <= NUM_DIRECT + LEVEL_NUM {
      var least := if have <= NUM_DIRECT then have + 2 + SecondLevelNum(want) else have + 1 + SecondLevelNum(want);
      TestedCount(have, want, if want - have > least then want - have else least);
    } else if want > NUM_DIRECT + LEVEL_NUM && SecondLevelNum(want) > SecondLevelNum(have) {
      TestedCount(have, want, want - have + 1);
    }
  }

  // Tests that ask for a number of clear sectors are exact when it is the number needed, or
  // when no map has either.
  lemma TestedCount(have: nat, want: nat, tested: nat)
    requires have < want <= MAX_SECTORS && Need(have, want) >= 0
    requires forall clear: nat :: GuardsPass(have, want, clear) <==> tested <= clear
    ensures var most := NUM_SECTORS - Total(have);
      TestsExact(have, want) <==> tested == Need(have, want) || (tested > most && Need(have, want) > most)
  {
    var need: nat := Need(have, want);
    assert GuardsPass(have, want, need) <==> tested <= need;
    assert GuardsPass(have, want, tested);
  }

  // Too weak: 72 sectors grow to 105 with 34 clear, where 35 are needed. Every index table
  // gets a sector, but not the last data sector. Too strict: one more sector is refused to
  // a file of 40 with 41 clear, where 3 are needed.
  lemma TestsMiss()
    ensures GuardsPass(72, 105, 34) && Need(72, 105) == 35 && TablesFit(Total(72), Total(105), 0, 34)
    ensures !GuardsPass(40, 41, 41) && Need(40, 41) == 3
    ensures SectorsFor(72 * SECTOR_SIZE) == 72 && SectorsFor(105 * SECTOR_SIZE) == 105
  {
    assert SecondLevelNum(72) == 1 && SecondLevelNum(105) == 3 && SecondLevelNum(41) == 1;
  }

  // The first of these, let through by the code: it leaves a last data sector of -1.
  method LetThrough(hdr: FileHeader, freeMap: BitMap, disk: SectorDisk) returns (ok: bool)
    requires hdr.Apart(freeMap, disk) && hdr.Holds(freeMap, disk) && hdr.numBytes == 72 * SECTOR_SIZE
    requires NumClear(freeMap.Marked(), NUM_SECTORS) == 34
    modifies freeMap.bits, freeMap`base, freeMap`found, disk.sectors, hdr.dataSectors, hdr`numBytes, hdr`numSectors
    ensures ok && hdr.Valid() && disk.Valid() && hdr.numSectors == 105
    ensures var chain := Chain(hdr.Sectors(), disk.Tables(), hdr.numSectors); !Sound(chain) && LastIsMissing(chain, 105)
  {
    TestsMiss();
    ghost var got, base := freeMap.found, freeMap.base;
    ClearAfter(base, NUM_SECTORS, got);
    ghost var chain := Chain(hdr.Sectors(), disk.Tables(), hdr.numSectors);
    ok := hdr.ExpandFileSize(freeMap, disk, 33 * SECTOR_SIZE);
    NoneLeft(chain, base, freeMap.found, |got|, 105);
  }

  // A chain that more sectors were asked for than there were.
  lemma NoneLeft(chain: seq<int>, base: set<int>, got: seq<int>, k: nat, n: nat)
    requires Allocates(base, NUM_SECTORS, got) && k < |got| && |got| > NumClear(base, NUM_SECTORS)
    requires n == 105 && |chain + got[k..]| == Total(n)
    ensures !Sound(chain + got[k..]) && LastIsMissing(chain + got[k..], n)
  {
    AllocatedAt(base, NUM_SECTORS, got, |got| - 1);
    assert (chain + got[k..])[Total(n) - 1] == -1;
    assert Position(n - 1) == Total(n) - 1;
  }

  ghost predicate LastIsMissing(chain: seq<int>, n: nat)
  {
    0 < n <= MAX_SECTORS && Total(n) <= |chain| && FlatList(chain, n)[n - 1] == -1
  }

  // What ExpandFileSize requires, that the index tables fit, holds exactly when every new
  // index table gets a sector: otherwise the code writes a table to sector -1.
  lemma TablesGetSectors(m: set<int>, have: int, want: int, got: seq<int>)
    requires have <= want <= MAX_SECTORS && |got| == Total(want) - Total(have) && Allocates(m, NUM_SECTORS, got)
    ensures TablesFit(Total(have), Total(want), 0, NumClear(m, NUM_SECTORS)) <==>
      forall i | 0 <= i < |got| && IsTable(Total(have) + i) :: got[i] != -1
  {
    forall i | 0 <= i < |got|
      ensures got[i] != -1 <==> i < NumClear(m, NUM_SECTORS)
    {
      AllocatedAt(m, NUM_SECTORS, got, i);
    }
    if p :| Total(have) <= p < Total(want) && IsTable(p) && p - Total(have) >= NumClear(m, NUM_SECTORS) {
      assert IsTable(Total(have) + (p - Total(have))) && got[p - Total(have)] == -1;
    }
  }

  // ---------------------------------------------------------------- what is taken is given back

  // Allocates a file, expands it as often as there is room, and deallocates it.
  method LifeCycle(hdr: FileHeader, freeMap: BitMap, disk: SectorDisk, fileSize: int32, expansions: seq<int32>)
    requires hdr.Apart(freeMap, disk) && fileSize >= 0
    modifies freeMap.bits, freeMap`base, freeMap`found, disk.sectors, hdr.dataSectors, hdr`numBytes, hdr`numSectors
    ensures freeMap.Valid() && freeMap.Marked() == old(freeMap.Marked())
  {
    ghost var m := freeMap.Marked();
    var r := hdr.Allocate(freeMap, disk, fileSize);
    if !r.Done? {
      return;
    }
    for i := 0 to |expansions|
      invariant hdr.Apart(freeMap, disk) && Owning(hdr, freeMap, disk, m)
    {
      Expand(hdr, freeMap, disk, expansions[i], m);
    }
    hdr.Deallocate(freeMap, disk);
  }

  // The file holds its sectors, and the map marks them besides what it did before.
  ghost predicate Owning(hdr: FileHeader, freeMap: BitMap, disk: SectorDisk, m: set<int>)
    requires hdr.Apart(freeMap, disk)
    reads hdr, hdr.dataSectors, disk.sectors, freeMap, freeMap.bits
  {
    && hdr.Holds(freeMap, disk)
    && var owned := Elems(Chain(hdr.Sectors(), disk.Tables(), hdr.numSectors));
       owned !! m && freeMap.Marked() == m + owned
  }

  lemma OwnedMore(chain: seq<int>, added: seq<int>, m: set<int>, before: set<int>, after: set<int>)
    requires Elems(chain) !! m && before == m + Elems(chain)
    requires Elems(added) !! before && after == before + Elems(added)
    ensures Elems(chain + added) !! m && after == m + Elems(chain + added)
  {
    assert Elems(chain + added) == Elems(chain) + Elems(added);
  }

  // An expansion for which there is room, or none.
  method Expand(hdr: FileHeader, freeMap: BitMap, disk: SectorDisk, expandBytes: int32, ghost m: set<int>)
    requires hdr.Apart(freeMap, disk) && Owning(hdr, freeMap, disk, m)
    modifies freeMap.bits, freeMap`base, freeMap`found, disk.sectors, hdr.dataSectors, hdr`numBytes, hdr`numSectors
    ensures hdr.Apart(freeMap, disk) && Owning(hdr, freeMap, disk, m)
  {
    var clear := freeMap.NumberClear();
    if expandBytes < 0 || hdr.numBytes + expandBytes >= 0x8000_0000 {
      return;
    }
    var want := SectorsFor(hdr.numBytes + expandBytes);
    if Total(want) - Total(hdr.numSectors) <= clear {
      ExpandFunded(hdr, freeMap, disk, expandBytes, want, clear, m);
    }
  }

  method ExpandFunded(hdr: FileHeader, freeMap: BitMap, disk: SectorDisk, expandBytes: int32, ghost want: nat,
                      ghost clear: nat, ghost m: set<int>)
    requires hdr.Apart(freeMap, disk) && Owning(hdr, freeMap, disk, m)
    requires hdr.numBytes + expandBytes < 0x8000_0000 && expandBytes >= 0
    requires want == SectorsFor(hdr.numBytes + expandBytes) && clear == NumClear(freeMap.Marked(), NUM_SECTORS)
    requires Total(want) - Total(hdr.numSectors) <= clear
    modifies freeMap.bits, freeMap`base, freeMap`found, disk.sectors, hdr.dataSectors, hdr`numBytes, hdr`numSectors
    ensures hdr.Apart(freeMap, disk) && Owning(hdr, freeMap, disk, m)
  {
    ghost var chain, got := Chain(hdr.Sectors(), disk.Tables(), hdr.numSectors), |freeMap.found|;
    ghost var marked := freeMap.Marked();
    var ok := hdr.ExpandWithRoom(freeMap, disk, expandBytes);
    if ok {
      ghost var added := freeMap.found[got..];
      assert hdr.numSectors == want && hdr.Holds(freeMap, disk);
      assert Chain(hdr.Sectors(), disk.Tables(), hdr.numSectors) == chain + added;
      OwnedMore(chain, added, m, marked, freeMap.Marked());
    }
  }
}
