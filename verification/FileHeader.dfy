/**
 The header as it lies in its sector: two ints, the extension and three time strings, and
 the table of sectors. Of the strings only "DIR", which marks a directory, is modelled.
 */
module HeaderLayout {
  import opened WordBits
  import opened SectorDisks
  import opened Chains

  const DIR_EXT: int32 := 0x0052_4944

  datatype Header = Header(numBytes: int32, numSectors: int32, isDirectory: bool, slots: Slots)

  function HeaderTable(h: Header): Table
  {
    [h.numBytes, h.numSectors, if h.isDirectory then DIR_EXT else 0] + seq<int32>(19, _ => 0) + h.slots
  }

  function TableHeader(t: Table): Header
  {
    Header(t[0], t[1], t[2] == DIR_EXT, t[22..])
  }

  function EncodeHeader(h: Header): Sector
  {
    SectorOf(HeaderTable(h))
  }

  function DecodeHeader(s: Sector): Header
  {
    TableHeader(TableOf(s))
  }

  // Where the fields lie in the sector: each int in four bytes, the table of sectors last.
  lemma HeaderFields(h: Header)
    ensures var t := TableOf(EncodeHeader(h));
      && t[0] == h.numBytes && t[1] == h.numSectors && (t[2] == DIR_EXT <==> h.isDirectory)
      && forall k | 0 <= k < NUM_SLOTS :: t[22 + k] == h.slots[k]
  {
    TableOfSectorOf(HeaderTable(h));
  }

  // A header written to its sector is read back unchanged.
  lemma HeaderRoundTrip(h: Header)
    ensures DecodeHeader(EncodeHeader(h)) == h
  {
    TableOfSectorOf(HeaderTable(h));
    assert HeaderTable(h)[22..] == h.slots;
  }
}

/**
 File headers with direct, one-level and two-level index tables
 (filesys/filehdr.cc built with USE_INDIRECT).
 */
module FileHeaders {
  import opened WordBits
  import opened Allocation
  import opened SectorDisks
  import opened BitMaps
  import opened Chains
  import opened HeaderLayout

  // A free map over the disk, with no storage shared with the disk.
  ghost predicate Mapped(freeMap: BitMap, disk: SectorDisk)
    reads freeMap, freeMap.bits
  {
    freeMap.Valid() && disk.Valid() && freeMap.numBits == NUM_SECTORS &&
    freeMap.bits as object != disk.sectors
  }

  // Entries from..i of a table that was t0 have been filled with got.
  ghost predicate Filled(t0: seq<int32>, t: seq<int32>, from: nat, i: nat, got: seq<int>)
  {
    from <= i <= |t0| == |t| && t[..from] == t0[..from] && t[from..i] == got && t[i..] == t0[i..]
  }

  lemma FilledOne(t0: seq<int32>, t: seq<int32>, from: nat, i: nat, got: seq<int>, sector: int32)
    requires Filled(t0, t, from, i, got) && i < |t|
    ensures Filled(t0, t[i := sector], from, i + 1, got + [sector])
  {
    assert t[i := sector][i + 1..] == t[i..][1..];
  }

  // Entries from..to of a table, each from one Find.
  method FillTable(freeMap: BitMap, table: array<int32>, from: nat, to: nat)
    requires freeMap.Valid() && freeMap.numBits == NUM_SECTORS && table as object != freeMap.bits
    requires from <= to <= table.Length
    modifies freeMap.bits, freeMap`base, freeMap`found, table
    ensures freeMap.Valid() && freeMap.base == old(freeMap.base)
    ensures freeMap.found == old(freeMap.found) + table[from..to]
    ensures table[..from] == old(table[..from]) && table[to..] == old(table[to..])
  {
    ghost var t0, got := table[..], [];
    for i := from to to
      invariant freeMap.Valid() && freeMap.base == old(freeMap.base)
      invariant freeMap.found == old(freeMap.found) + got
      invariant Filled(t0, table[..], from, i, got)
    {
      ghost var t := table[..];
      var sector := freeMap.Find();
      FilledOne(t0, t, from, i, got, sector);
      table[i] := sector;
      assert table[..] == t[i := sector];
      got := got + [sector];
    }
  }

  // A fresh index table with `filled` fresh data sectors, written to its own sector.
  method NewTable(freeMap: BitMap, disk: SectorDisk, filled: nat) returns (s: int32)
    requires Mapped(freeMap, disk) && filled <= LEVEL_NUM
    requires |freeMap.found| < NumClear(freeMap.base, NUM_SECTORS)
    modifies freeMap.bits, freeMap`base, freeMap`found, disk.sectors
    ensures Mapped(freeMap, disk) && freeMap.base == old(freeMap.base)
    ensures |freeMap.found| == |old(freeMap.found)| + 1 + filled && old(freeMap.found) <= freeMap.found
    ensures TableHolds(disk.Tables(), s, freeMap.found, |old(freeMap.found)|)
    ensures s !in old(freeMap.found)
    ensures disk.Image() == old(disk.Image())[s := disk.Image()[s]]
    ensures disk.Tables() == old(disk.Tables())[s := disk.Tables()[s]]
  {
    ghost var f := |freeMap.found|;
    s := freeMap.Find();
    assert s == freeMap.found[f] && s != -1;
    var single := new int32[LEVEL_NUM];
    FillTable(freeMap, single, 0, filled);
    disk.WriteTable(s, single);
    TableHoldsIntro(disk.Tables(), s, single[..], filled, freeMap.found, f);
  }

  // The loop shared by all the two-level branches: second-level tables from..num of the
  // two-level table, the last one filled as far as left data sectors reach.
  method BuildSecondLevel(freeMap: BitMap, disk: SectorDisk, two: array<int32>, from: nat, num: nat, left: nat)
    requires Mapped(freeMap, disk)
    requires two as object != freeMap.bits && two as object != disk.sectors
    requires two.Length == LEVEL_NUM && from < num <= LEVEL_NUM
    requires LEVEL_NUM * (num - 1) < left <= LEVEL_NUM * num
    requires |freeMap.found| + 33 * (num - 1 - from) < NumClear(freeMap.base, NUM_SECTORS)
    modifies freeMap.bits, freeMap`base, freeMap`found, two, disk.sectors
    ensures Mapped(freeMap, disk) && freeMap.base == old(freeMap.base)
    ensures |freeMap.found| == |old(freeMap.found)| + num - from + left - LEVEL_NUM * from
    ensures old(freeMap.found) <= freeMap.found
    ensures two[..from] == old(two[..from])
    ensures TablesHold(disk.Tables(), two[..], from, num, freeMap.found, |old(freeMap.found)|)
    ensures forall s | 0 <= s < NUM_SECTORS && s !in two[from..num] ::
      disk.Image()[s] == old(disk.Image())[s] && disk.Tables()[s] == old(disk.Tables())[s]
  {
    ghost var f := |freeMap.found|;
    for i := from to num
      invariant Mapped(freeMap, disk) && freeMap.base == old(freeMap.base)
      invariant |freeMap.found| == if i < num then f + 33 * (i - from) else f + num - from + left - LEVEL_NUM * from
      invariant old(freeMap.found) <= freeMap.found
      invariant two[..from] == old(two[..from])
      invariant TablesHold(disk.Tables(), two[..], from, i, freeMap.found, f)
      invariant forall s | 0 <= s < NUM_SECTORS && s !in two[from..i] ::
        disk.Image()[s] == old(disk.Image())[s] && disk.Tables()[s] == old(disk.Tables())[s]
    {
      ghost var v, got, prior := disk.Tables(), freeMap.found, two[..];
      var s := NewTable(freeMap, disk, if LEVEL_NUM * (i + 1) <= left then LEVEL_NUM else left - LEVEL_NUM * i);
      two[i] := s;
      TablesHoldSnoc(v, prior, from, i, got, f, disk.Tables(), s, freeMap.found);
      assert two[..] == prior[i := s];
      assert two[from..i + 1] == prior[from..i] + [s];
    }
  }

  // The free-space tests of ExpandFileSize for growing from have to want data sectors.
  // Two of them compare with numSectors where the number of new sectors is meant, and
  // the last one counts a single new index table.
  predicate GuardsPass(have: int, want: int, clear: int)
  {
    && want - have <= clear
    && if want <= NUM_DIRECT then true
       else if have <= NUM_DIRECT && want <= NUM_DIRECT + LEVEL_NUM then want - have + 1 <= clear
       else if want <= NUM_DIRECT + LEVEL_NUM then true
       else if have <= NUM_DIRECT then clear >= have + 1 + 1 + SecondLevelNum(want)
       else if have <= NUM_DIRECT + LEVEL_NUM then clear >= have + 1 + SecondLevelNum(want)
       else SecondLevelNum(want) == SecondLevelNum(have) || want - have + 1 <= clear
  }

  // Whether ExpandFileSize returns TRUE.
  predicate ExpandSucceeds(bytes: nat, have: int, more: int, clear: int)
  {
    more >= 0 && (SectorsFor(bytes + more) == have || GuardsPass(have, SectorsFor(bytes + more), clear))
  }

  lemma ExpandGuards(bytes: nat, more: nat, have: int, clear: int)
    requires have == SectorsFor(bytes) != SectorsFor(bytes + more)
    ensures have < SectorsFor(bytes + more)
    ensures ExpandSucceeds(bytes, have, more, clear) <==> GuardsPass(have, SectorsFor(bytes + more), clear)
  {
    SectorsForGrows(bytes, bytes + more);
  }

  // divRoundUp on C's int, whose division truncates toward zero.
  function SectorsOfSize(size: int32): int32
  {
    if size >= 0 then SectorsFor(size) else -(-(size as int) / SECTOR_SIZE)
  }

  lemma SectorsOfSizeMeans(size: int32)
    ensures size >= 0 ==> 128 * (SectorsOfSize(size) - 1) < size <= 128 * SectorsOfSize(size)
    ensures size < 0 ==> size <= 128 * SectorsOfSize(size) < size + 128
  {
  }

  // How many sectors must be clear, for the tests to let a file grow: the new data sectors,
  // and what each branch asks for.
  lemma GuardsMean(have: nat, want: nat, clear: nat)
    requires have < want <= MAX_SECTORS
    ensures var tables := (want - 40 + 31) / 32;
      GuardsPass(have, want, clear) <==>
      && want - have <= clear
      && (have <= 8 < want <= 40 ==> want - have + 1 <= clear)
      && (have <= 8 && want > 40 ==> have + 2 + tables <= clear)
      && (8 < have <= 40 < want ==> have + 1 + tables <= clear)
      && (have > 40 && tables > (have - 40 + 31) / 32 ==> want - have + 1 <= clear)
  {
  }

  // What comes of laying out a file: Stopped stands for an assertion that fails.
  datatype Outcome = Done | NoRoom | Stopped

  // Past the first test of Allocate, all its branches refuse exactly the sizes of minus a
  // sector and less: as unsigned numbers their sector counts are too great.
  lemma BranchTaken(fileSize: int32, clear: nat)
    requires clear <= NUM_SECTORS
    ensures var n := SectorsOfSize(fileSize);
      && (fileSize <= -SECTOR_SIZE <==> n < 0)
      && (n <= clear && Unsigned(n) > MAX_SECTORS <==> fileSize <= -SECTOR_SIZE)
  {
  }

  // A size of minus one sector reaches the assertion, however many sectors are clear.
  lemma NegativeSizeStops(clear: nat)
    ensures SectorsOfSize(-SECTOR_SIZE) == -1 <= clear && Unsigned(SectorsOfSize(-SECTOR_SIZE)) > MAX_SECTORS
  {
  }

  // A chain of sectors, all marked in m, is being given back: `cleared` has gone so far.
  ghost predicate Clearing(freeMap: BitMap, m: set<int>, chain: seq<int>, cleared: set<int>)
    reads freeMap, freeMap.bits
  {
    && freeMap.Valid() && freeMap.numBits == NUM_SECTORS
    && Sound(chain) && Elems(chain) <= m
    && freeMap.Marked() == m - cleared
  }

  // Gives back the sector at position p, which must be found marked.
  method ClearOne(freeMap: BitMap, s: int, ghost m: set<int>, ghost chain: seq<int>, ghost cleared: set<int>,
                  ghost p: nat)
    requires Clearing(freeMap, m, chain, cleared)
    requires p < |chain| && s == chain[p] && s !in cleared
    modifies freeMap.bits, freeMap`base, freeMap`found
    ensures Clearing(freeMap, m, chain, cleared + {s})
  {
    assert s in Elems(chain);
    var marked := freeMap.Test(s);
    assert marked;
    freeMap.Clear(s);
  }

  lemma NextInRun(chain: seq<int>, cleared: set<int>, at: nat, i: nat, count: nat)
    requires Sound(chain) && i < count && at + count <= |chain| && cleared !! Elems(chain[at..at + count])
    ensures chain[at + i] !in cleared + Elems(chain[at..at + i])
    ensures cleared + Elems(chain[at..at + i]) + {chain[at + i]} == cleared + Elems(chain[at..at + i + 1])
  {
    SliceSnoc(chain, at, at + i, at + count);
  }

  method ClearNext(freeMap: BitMap, s: int, ghost m: set<int>, ghost chain: seq<int>, ghost cleared: set<int>,
                   ghost at: nat, ghost i: nat, ghost count: nat)
    requires i < count && at + count <= |chain| && s == chain[at + i] && cleared !! Elems(chain[at..at + count])
    requires Clearing(freeMap, m, chain, cleared + Elems(chain[at..at + i]))
    modifies freeMap.bits, freeMap`base, freeMap`found
    ensures Clearing(freeMap, m, chain, cleared + Elems(chain[at..at + i + 1]))
  {
    NextInRun(chain, cleared, at, i, count);
    ClearOne(freeMap, s, m, chain, cleared + Elems(chain[at..at + i]), at + i);
  }

  // Clears the first count entries of a table, which sit at positions at.. of the chain.
  method ClearRun(freeMap: BitMap, table: array<int32>, count: nat,
                  ghost m: set<int>, ghost chain: seq<int>, ghost cleared: set<int>, ghost at: nat)
    requires Clearing(freeMap, m, chain, cleared) && table as object != freeMap.bits
    requires count <= table.Length && at + count <= |chain|
    requires table[..count] == chain[at..at + count]
    requires cleared !! Elems(chain[at..at + count])
    modifies freeMap.bits, freeMap`base, freeMap`found
    ensures Clearing(freeMap, m, chain, cleared + Elems(chain[at..at + count]))
  {
    for i := 0 to count
      invariant Clearing(freeMap, m, chain, cleared + Elems(chain[at..at + i]))
    {
      assert table[i] == table[..count][i] == chain[at + i];
      ClearNext(freeMap, table[i], m, chain, cleared, at, i, count);
    }
  }

  // Gives back an index table, after the entries listed behind it.
  method ClearTable(freeMap: BitMap, s: int, table: array<int32>, count: nat,
                    ghost m: set<int>, ghost chain: seq<int>, ghost cleared: set<int>, ghost at: nat,
                    ghost after: set<int>)
    requires Clearing(freeMap, m, chain, cleared) && table as object != freeMap.bits
    requires count <= table.Length && at + 1 + count <= |chain| && s == chain[at]
    requires table[..count] == chain[at + 1..at + 1 + count]
    requires cleared !! Elems(chain[at..at + 1 + count])
    requires after == cleared + Elems(chain[at..at + 1 + count])
    modifies freeMap.bits, freeMap`base, freeMap`found
    ensures Clearing(freeMap, m, chain, after)
  {
    SliceCons(chain, at, at + 1 + count);
    ClearRun(freeMap, table, count, m, chain, cleared, at + 1);
    ClearOne(freeMap, s, m, chain, cleared + Elems(chain[at + 1..at + 1 + count]), at);
    assert cleared + Elems(chain[at + 1..at + 1 + count]) + {s} == after;
  }

  // Second-level table i, after its entries.
  method ClearSecond(freeMap: BitMap, disk: SectorDisk, s: int, count: nat, ghost i: nat,
                     ghost m: set<int>, ghost chain: seq<int>)
    requires disk.Valid() && 0 <= s < NUM_SECTORS && count <= LEVEL_NUM && |chain| > 42
    requires Clearing(freeMap, m, chain, BeforeTable(chain, i))
    requires TablesEnd(chain, i + 1) == 42 + 33 * i + 1 + count <= |chain| && s == chain[42 + 33 * i]
    requires disk.Tables()[s][..count] == chain[42 + 33 * i + 1..42 + 33 * i + 1 + count]
    modifies freeMap.bits, freeMap`base, freeMap`found
    ensures Clearing(freeMap, m, chain, BeforeTable(chain, i + 1))
  {
    var single := new int32[LEVEL_NUM];
    disk.ReadTable(s, single);
    BeforeNextTable(chain, i, count);
    ClearTable(freeMap, s, single, count, m, chain, BeforeTable(chain, i), 42 + 33 * i, BeforeTable(chain, i + 1));
  }

  // Entry k of the index table in a sector.
  method ReadEntry(disk: SectorDisk, s: int, k: nat) returns (r: int)
    requires disk.Valid() && 0 <= s < NUM_SECTORS && k < LEVEL_NUM
    ensures r == Entry(disk.Tables(), s, k)
  {
    var table := new int32[LEVEL_NUM];
    disk.ReadTable(s, table);
    r := table[k];
  }

  class FileHeader {
    var numBytes: int32
    var numSectors: int32
    var isDirectory: bool
    const dataSectors: array<int32>
    var headerSector: int

    ghost predicate Valid()
    {
      dataSectors.Length == NUM_SLOTS
    }

    ghost function Sectors(): Slots
      requires Valid()
      reads dataSectors
    {
      dataSectors[..]
    }

    // The data sectors of the file in order.
    ghost function List(disk: SectorDisk): seq<int>
      requires Valid() && disk.Valid() && 0 <= numSectors <= MAX_SECTORS
      reads this, dataSectors, disk.sectors
    {
      FlatList(Chain(Sectors(), disk.Tables(), numSectors), numSectors)
    }

    // Valid arguments, no two of the buffers shared.
    ghost predicate Apart(freeMap: BitMap, disk: SectorDisk)
      reads freeMap, freeMap.bits
    {
      Valid() && Mapped(freeMap, disk) &&
      dataSectors as object != freeMap.bits && dataSectors as object != disk.sectors
    }

    constructor ()
      ensures Valid() && fresh(dataSectors)
    {
      dataSectors := new int32[NUM_SLOTS];
    }

    // The chain is fit to grow: its index tables are in order and in use.
    ghost predicate Growable(freeMap: BitMap, disk: SectorDisk, n: int)
      requires Valid() && disk.Valid()
      reads dataSectors, disk.sectors, freeMap, freeMap.bits
    {
      n <= MAX_SECTORS && TablesSound(Chain(Sectors(), disk.Tables(), n), freeMap.Marked())
    }

    // Growing from have to want data sectors took the next sectors of the free map in
    // chain order and wrote nothing but index tables of this chain.
    twostate predicate Grew(freeMap: BitMap, disk: SectorDisk, have: int, want: int)
      requires Valid() && disk.Valid()
      reads dataSectors, disk.sectors, freeMap, freeMap.bits
    {
      && freeMap.base == old(freeMap.base)
      && old(freeMap.found) <= freeMap.found
      && Extended(old(Sectors()), old(disk.Tables()), have, Sectors(), disk.Tables(), want,
                  freeMap.found, |old(freeMap.found)|)
      && OnlyTablesWritten(old(disk.Image()), disk.Image(), Chain(Sectors(), disk.Tables(), want))
    }

    // Direct sectors have..want.
    method GrowDirect(freeMap: BitMap, disk: SectorDisk, have: nat, want: nat)
      requires Apart(freeMap, disk) && have <= want <= NUM_DIRECT
      modifies freeMap.bits, freeMap`base, freeMap`found, dataSectors
      ensures Apart(freeMap, disk) && Grew(freeMap, disk, have, want)
    {
      FillTable(freeMap, dataSectors, have, want);
      DirectGrown(old(Sectors()), Sectors(), disk.Tables(), have, want, freeMap.found, |old(freeMap.found)|);
    }

    // From all the direct sectors to a new one-level table.
    method AddOneLevel(freeMap: BitMap, disk: SectorDisk, want: nat)
      requires Apart(freeMap, disk) && NUM_DIRECT < want <= NUM_DIRECT + LEVEL_NUM
      requires |freeMap.found| < NumClear(freeMap.base, NUM_SECTORS)
      modifies freeMap.bits, freeMap`base, freeMap`found, disk.sectors, dataSectors
      ensures Apart(freeMap, disk) && Grew(freeMap, disk, NUM_DIRECT, want)
    {
      var s := NewTable(freeMap, disk, want - NUM_DIRECT);
      dataSectors[ONE_LEVEL_IDX] := s;
      OneLevelAdded(old(Sectors()), old(disk.Tables()), Sectors(), disk.Tables(), want,
                    freeMap.found, |old(freeMap.found)|, old(disk.Image()), disk.Image());
    }

    // More entries of an existing one-level table.
    method FillOneLevel(freeMap: BitMap, disk: SectorDisk, have: nat, want: nat)
      requires Apart(freeMap, disk) && NUM_DIRECT < have <= want <= NUM_DIRECT + LEVEL_NUM
      requires Growable(freeMap, disk, have)
      modifies freeMap.bits, freeMap`base, freeMap`found, disk.sectors
      ensures Apart(freeMap, disk) && Grew(freeMap, disk, have, want)
    {
      var s := dataSectors[ONE_LEVEL_IDX];
      assert s == Chain(Sectors(), disk.Tables(), have)[8];
      var one := new int32[LEVEL_NUM];
      disk.ReadTable(s, one);
      FillTable(freeMap, one, have - NUM_DIRECT, want - NUM_DIRECT);
      disk.WriteTable(s, one);
      OneLevelFilled(Sectors(), old(disk.Tables()), disk.Tables(), have, want,
                     freeMap.found, |old(freeMap.found)|, old(disk.Image()), disk.Image());
    }

    // From a full one-level table to a new two-level one.
    method AddTwoLevel(freeMap: BitMap, disk: SectorDisk, want: int)
      requires Apart(freeMap, disk) && NUM_DIRECT + LEVEL_NUM < want <= MAX_SECTORS
      requires Growable(freeMap, disk, NUM_DIRECT + LEVEL_NUM)
      requires |freeMap.found| + 1 + 33 * (SecondLevelNum(want) - 1) < NumClear(freeMap.base, NUM_SECTORS)
      modifies freeMap.bits, freeMap`base, freeMap`found, disk.sectors, dataSectors
      ensures Apart(freeMap, disk) && Grew(freeMap, disk, NUM_DIRECT + LEVEL_NUM, want)
    {
      ghost var f := |freeMap.found|;
      var s := freeMap.Find();
      assert s == freeMap.found[f] && s != -1;
      dataSectors[TWO_LEVEL_IDX] := s;
      var two := new int32[LEVEL_NUM];
      BuildSecondLevel(freeMap, disk, two, 0, SecondLevelNum(want), want - NUM_DIRECT - LEVEL_NUM);
      ghost var v := disk.Tables();
      disk.WriteTable(s, two);
      assert freeMap.found[..f] == old(freeMap.found);
      TwoLevelAdded(old(Sectors()), old(disk.Tables()), Sectors(), v, disk.Tables(), want,
                    freeMap.base, freeMap.found, f);
      TwoLevelWritten(Sectors(), disk.Tables(), want, 0, old(disk.Image()), disk.Image());
    }

    // More entries of the last second-level table.
    method FillSecond(freeMap: BitMap, disk: SectorDisk, two: array<int32>, idx: nat, have: nat, want: nat)
      requires Apart(freeMap, disk) && two.Length == LEVEL_NUM
      requires 40 + LEVEL_NUM * idx < have <= want <= 40 + LEVEL_NUM * (idx + 1) && want <= MAX_SECTORS
      requires Growable(freeMap, disk, have)
      requires 0 <= Sectors()[TWO_LEVEL_IDX] < NUM_SECTORS && two[..] == disk.Tables()[Sectors()[TWO_LEVEL_IDX]]
      modifies freeMap.bits, freeMap`base, freeMap`found, disk.sectors
      ensures Apart(freeMap, disk) && Grew(freeMap, disk, have, want)
      ensures disk.Tables()[Sectors()[TWO_LEVEL_IDX]] == old(disk.Tables())[Sectors()[TWO_LEVEL_IDX]]
    {
      SecondTableApart(Sectors(), disk.Tables(), have, freeMap.Marked(), idx);
      var s := two[idx];
      assert s == disk.Tables()[Sectors()[TWO_LEVEL_IDX]][idx];
      var single := new int32[LEVEL_NUM];
      disk.ReadTable(s, single);
      FillTable(freeMap, single, have - 40 - LEVEL_NUM * idx, want - 40 - LEVEL_NUM * idx);
      disk.WriteTable(s, single);
      SecondFilled(Sectors(), old(disk.Tables()), disk.Tables(), have, want, idx, old(freeMap.Marked()),
                   freeMap.found, |old(freeMap.found)|, old(disk.Image()), disk.Image());
    }

    // New second-level tables after num full ones.
    method AddSecond(freeMap: BitMap, disk: SectorDisk, two: array<int32>, num: nat, want: nat)
      requires Apart(freeMap, disk) && two.Length == LEVEL_NUM
      requires two as object != freeMap.bits && two as object != disk.sectors
      requires 0 < num && 40 + LEVEL_NUM * num < want <= MAX_SECTORS
      requires Growable(freeMap, disk, 40 + LEVEL_NUM * num)
      requires 0 <= Sectors()[TWO_LEVEL_IDX] < NUM_SECTORS && two[..] == disk.Tables()[Sectors()[TWO_LEVEL_IDX]]
      requires |freeMap.found| + 33 * (SecondLevelNum(want) - 1 - num) < NumClear(freeMap.base, NUM_SECTORS)
      modifies freeMap.bits, freeMap`base, freeMap`found, disk.sectors, two
      ensures Apart(freeMap, disk) && Grew(freeMap, disk, 40 + LEVEL_NUM * num, want)
    {
      ghost var f := |freeMap.found|;
      var s := dataSectors[TWO_LEVEL_IDX];
      BuildSecondLevel(freeMap, disk, two, num, SecondLevelNum(want), want - NUM_DIRECT - LEVEL_NUM);
      ghost var v := disk.Tables();
      disk.WriteTable(s, two);
      assert freeMap.found[..f] == old(freeMap.found);
      SecondAdded(Sectors(), old(disk.Tables()), v, disk.Tables(), num, want, freeMap.base, freeMap.found, f);
      TwoLevelWritten(Sectors(), disk.Tables(), want, num, old(disk.Image()), disk.Image());
    }

    // ------------------------------------------------------------ branches of several steps

    method ZeroToOne(freeMap: BitMap, disk: SectorDisk, have: nat, want: nat)
      requires Apart(freeMap, disk) && have <= NUM_DIRECT < want <= NUM_DIRECT + LEVEL_NUM
      requires |freeMap.found| + NUM_DIRECT - have < NumClear(freeMap.base, NUM_SECTORS)
      modifies freeMap.bits, freeMap`base, freeMap`found, disk.sectors, dataSectors
      ensures Apart(freeMap, disk) && Grew(freeMap, disk, have, want)
    {
      GrowDirect(freeMap, disk, have, NUM_DIRECT);
      ghost var slots, v, got, d := Sectors(), disk.Tables(), freeMap.found, disk.Image();
      assert |got| == |old(freeMap.found)| + NUM_DIRECT - have;
      AddOneLevel(freeMap, disk, want);
      GrowTwice(old(Sectors()), old(disk.Tables()), have, slots, v, NUM_DIRECT, Sectors(), disk.Tables(), want,
                got, freeMap.found, |old(freeMap.found)|, old(disk.Image()), d, disk.Image());
    }

    method ZeroToTwo(freeMap: BitMap, disk: SectorDisk, have: nat, want: nat)
      requires Apart(freeMap, disk) && have <= NUM_DIRECT && NUM_DIRECT + LEVEL_NUM < want <= MAX_SECTORS
      requires TablesFit(Total(have), Total(want), |freeMap.found|, NumClear(freeMap.base, NUM_SECTORS))
      modifies freeMap.bits, freeMap`base, freeMap`found, disk.sectors, dataSectors
      ensures Apart(freeMap, disk) && Grew(freeMap, disk, have, want)
    {
      LastTableFits(have, want, |freeMap.found|, NumClear(freeMap.base, NUM_SECTORS));
      ZeroToOne(freeMap, disk, have, NUM_DIRECT + LEVEL_NUM);
      ghost var slots, v, got, d := Sectors(), disk.Tables(), freeMap.found, disk.Image();
      GrownTables(old(Sectors()), old(disk.Tables()), have, slots, v, NUM_DIRECT + LEVEL_NUM,
                  freeMap.base, old(freeMap.found), got);
      AddTwoLevel(freeMap, disk, want);
      GrowTwice(old(Sectors()), old(disk.Tables()), have, slots, v, NUM_DIRECT + LEVEL_NUM,
                Sectors(), disk.Tables(), want,
                got, freeMap.found, |old(freeMap.found)|, old(disk.Image()), d, disk.Image());
    }

    method OneToTwo(freeMap: BitMap, disk: SectorDisk, have: nat, want: nat)
      requires Apart(freeMap, disk) && NUM_DIRECT < have <= NUM_DIRECT + LEVEL_NUM < want <= MAX_SECTORS
      requires Growable(freeMap, disk, have)
      requires TablesFit(Total(have), Total(want), |freeMap.found|, NumClear(freeMap.base, NUM_SECTORS))
      modifies freeMap.bits, freeMap`base, freeMap`found, disk.sectors, dataSectors
      ensures Apart(freeMap, disk) && Grew(freeMap, disk, have, want)
    {
      LastTableFits(have, want, |freeMap.found|, NumClear(freeMap.base, NUM_SECTORS));
      FillOneLevel(freeMap, disk, have, NUM_DIRECT + LEVEL_NUM);
      ghost var slots, v, got, d := Sectors(), disk.Tables(), freeMap.found, disk.Image();
      GrownTables(old(Sectors()), old(disk.Tables()), have, slots, v, NUM_DIRECT + LEVEL_NUM,
                  freeMap.base, old(freeMap.found), got);
      AddTwoLevel(freeMap, disk, want);
      GrowTwice(old(Sectors()), old(disk.Tables()), have, slots, v, NUM_DIRECT + LEVEL_NUM,
                Sectors(), disk.Tables(), want,
                got, freeMap.found, |old(freeMap.found)|, old(disk.Image()), d, disk.Image());
    }

    // Fill the last second-level table, then add new ones.
    method FillAndAddSecond(freeMap: BitMap, disk: SectorDisk, two: array<int32>, have: nat, want: nat)
      requires Apart(freeMap, disk) && two.Length == LEVEL_NUM
      requires two as object != freeMap.bits && two as object != disk.sectors
      requires NUM_DIRECT + LEVEL_NUM < have < want <= MAX_SECTORS && SecondLevelNum(have) < SecondLevelNum(want)
      requires Growable(freeMap, disk, have)
      requires 0 <= Sectors()[TWO_LEVEL_IDX] < NUM_SECTORS && two[..] == disk.Tables()[Sectors()[TWO_LEVEL_IDX]]
      requires TablesFit(Total(have), Total(want), |freeMap.found|, NumClear(freeMap.base, NUM_SECTORS))
      modifies freeMap.bits, freeMap`base, freeMap`found, disk.sectors, two
      ensures Apart(freeMap, disk) && Grew(freeMap, disk, have, want)
    {
      var num := SecondLevelNum(have);
      ghost var mid := 40 + LEVEL_NUM * num;
      LastTableFits(have, want, |freeMap.found|, NumClear(freeMap.base, NUM_SECTORS));
      NoTableBetween(have, num, |freeMap.found|, NumClear(freeMap.base, NUM_SECTORS));
      // A table that is already full is written back as it is.
      FillSecond(freeMap, disk, two, num - 1, have, 40 + LEVEL_NUM * num);
      ghost var v, got, d := disk.Tables(), freeMap.found, disk.Image();
      GrownTables(Sectors(), old(disk.Tables()), have, Sectors(), v, mid, freeMap.base, old(freeMap.found), got);
      AddSecond(freeMap, disk, two, num, want);
      GrowTwice(Sectors(), old(disk.Tables()), have, Sectors(), v, mid, Sectors(), disk.Tables(), want,
                got, freeMap.found, |old(freeMap.found)|, old(disk.Image()), d, disk.Image());
    }

    method TwoToTwo(freeMap: BitMap, disk: SectorDisk, have: nat, want: nat, clear: int) returns (ok: bool)
      requires Apart(freeMap, disk) && NUM_DIRECT + LEVEL_NUM < have < want <= MAX_SECTORS
      requires Growable(freeMap, disk, have)
      requires SecondLevelNum(want) == SecondLevelNum(have) || want - have + 1 <= clear ==>
        TablesFit(Total(have), Total(want), |freeMap.found|, NumClear(freeMap.base, NUM_SECTORS))
      modifies freeMap.bits, freeMap`base, freeMap`found, disk.sectors
      ensures ok <==> SecondLevelNum(want) == SecondLevelNum(have) || want - have + 1 <= clear
      ensures Apart(freeMap, disk)
      ensures ok ==> Grew(freeMap, disk, have, want)
      ensures !ok ==> freeMap.Marked() == old(freeMap.Marked()) && disk.Image() == old(disk.Image())
    {
      SecondTableApart(Sectors(), disk.Tables(), have, freeMap.Marked(), SecondLevelNum(have) - 1);
      var two := new int32[LEVEL_NUM];
      disk.ReadTable(dataSectors[TWO_LEVEL_IDX], two);
      if SecondLevelNum(want) == SecondLevelNum(have) {
        FillSecond(freeMap, disk, two, SecondLevelNum(have) - 1, have, want);
        ok := true;
      } else if want - have + 1 > clear {
        ok := false;
      } else {
        FillAndAddSecond(freeMap, disk, two, have, want);
        ok := true;
      }
    }

    // ------------------------------------------------------------ the operations

    // The header describes a file all of whose sectors are marked in the free map.
    ghost predicate Holds(freeMap: BitMap, disk: SectorDisk)
      requires Valid() && disk.Valid()
      reads this, dataSectors, disk.sectors, freeMap, freeMap.bits
    {
      && 0 <= numBytes && numSectors == SectorsFor(numBytes) && numSectors <= MAX_SECTORS
      && Sound(Chain(Sectors(), disk.Tables(), numSectors))
      && Elems(Chain(Sectors(), disk.Tables(), numSectors)) <= freeMap.Marked()
    }

    // The branches of ExpandFileSize that allocate.
    method Grow(freeMap: BitMap, disk: SectorDisk, have: nat, want: nat, clear: nat) returns (ok: bool)
      requires Apart(freeMap, disk) && have < want <= MAX_SECTORS && want - have <= clear
      requires Growable(freeMap, disk, have)
      requires GuardsPass(have, want, clear) ==>
        TablesFit(Total(have), Total(want), |freeMap.found|, NumClear(freeMap.base, NUM_SECTORS))
      modifies freeMap.bits, freeMap`base, freeMap`found, disk.sectors, dataSectors
      ensures Apart(freeMap, disk)
      ensures ok <==> GuardsPass(have, want, clear)
      ensures ok ==> Grew(freeMap, disk, have, want)
      ensures !ok ==> freeMap.Marked() == old(freeMap.Marked()) && disk.Image() == old(disk.Image()) &&
                      Sectors() == old(Sectors())
    {
      if want <= NUM_DIRECT {
        GrowDirect(freeMap, disk, have, want);
      } else if have <= NUM_DIRECT && want <= NUM_DIRECT + LEVEL_NUM {
        if want - have + 1 > clear {
          return false;
        }
        assert IsTable(8);
        ZeroToOne(freeMap, disk, have, want);
      } else if want <= NUM_DIRECT + LEVEL_NUM {
        FillOneLevel(freeMap, disk, have, want);
      } else if have <= NUM_DIRECT {
        if clear < have + 1 + 1 + SecondLevelNum(want) {
          return false;
        }
        ZeroToTwo(freeMap, disk, have, want);
      } else if have <= NUM_DIRECT + LEVEL_NUM {
        if clear < have + 1 + SecondLevelNum(want) {
          return false;
        }
        OneToTwo(freeMap, disk, have, want);
      } else {
        ok := TwoToTwo(freeMap, disk, have, want, clear);
        return ok;
      }
      return true;
    }

    // The sectors found since were all clear, and are marked now.
    twostate predicate Took(freeMap: BitMap)
      reads freeMap, freeMap.bits
    {
      |old(freeMap.found)| <= |freeMap.found| &&
      var added := Elems(freeMap.found[|old(freeMap.found)|..]);
      added !! old(freeMap.Marked()) && freeMap.Marked() == old(freeMap.Marked()) + added
    }

    // Grow, for a chain that is wholly marked in the free map.
    method GrowMarked(freeMap: BitMap, disk: SectorDisk, have: nat, want: nat, clear: nat) returns (ok: bool)
      requires Apart(freeMap, disk) && have < want && have <= MAX_SECTORS
      requires want - have <= clear == NumClear(freeMap.Marked(), NUM_SECTORS)
      requires Sound(Chain(Sectors(), disk.Tables(), have))
      requires Elems(Chain(Sectors(), disk.Tables(), have)) <= freeMap.Marked()
      requires GuardsPass(have, want, clear) ==> TablesFit(Total(have), Total(want), 0, clear)
      modifies freeMap.bits, freeMap`base, freeMap`found, disk.sectors, dataSectors
      ensures Apart(freeMap, disk) && want <= MAX_SECTORS
      ensures ok <==> GuardsPass(have, want, clear)
      ensures !ok ==> freeMap.Marked() == old(freeMap.Marked()) && disk.Image() == old(disk.Image()) &&
                      Sectors() == old(Sectors())
      ensures ok ==> Grew(freeMap, disk, have, want)
      ensures ok ==> (Sound(Chain(Sectors(), disk.Tables(), want)) <==> Total(want) - Total(have) <= clear)
      ensures ok && Sound(Chain(Sectors(), disk.Tables(), want)) ==>
        Took(freeMap) && Elems(Chain(Sectors(), disk.Tables(), want)) <= freeMap.Marked()
    {
      ghost var chain, got0, m := Chain(Sectors(), disk.Tables(), have), freeMap.found, freeMap.Marked();
      OwnedSize(chain);
      UsedAndClear(m, Elems(chain), NUM_SECTORS);
      SoundTables(chain, m);
      if GuardsPass(have, want, clear) {
        FitFromClear(Total(have), Total(want), freeMap.base, got0);
      }
      ok := Grow(freeMap, disk, have, want, clear);
      if ok {
        assert freeMap.found[..|got0|] == got0 && m == freeMap.base + Granted(got0);
        GrownHolds(chain, freeMap.base, freeMap.found, |got0|);
      }
    }

    // The last part of ExpandFileSize: new sectors, and the new sizes.
    method ExpandTo(freeMap: BitMap, disk: SectorDisk, afterBytes: int32, afterSectors: nat, clear: nat)
        returns (ok: bool)
      requires Apart(freeMap, disk) && Holds(freeMap, disk) && numBytes <= afterBytes
      requires afterSectors == SectorsFor(afterBytes) && numSectors < afterSectors
      requires afterSectors - numSectors <= clear == NumClear(freeMap.Marked(), NUM_SECTORS)
      requires GuardsPass(numSectors, afterSectors, clear) ==>
        TablesFit(Total(numSectors), Total(afterSectors), 0, clear)
      modifies freeMap.bits, freeMap`base, freeMap`found, disk.sectors, dataSectors, `numBytes, `numSectors
      ensures Apart(freeMap, disk) && (ok <==> GuardsPass(old(numSectors), afterSectors, clear))
      ensures !ok ==> numBytes == old(numBytes) && numSectors == old(numSectors) && Sectors() == old(Sectors()) &&
                      freeMap.Marked() == old(freeMap.Marked()) && disk.Image() == old(disk.Image())
      ensures ok ==> numBytes == afterBytes && numSectors == afterSectors <= MAX_SECTORS
      ensures ok ==> Grew(freeMap, disk, old(numSectors), numSectors)
      ensures ok ==> Holds(freeMap, disk) == (Total(afterSectors) - Total(old(numSectors)) <= clear)
      ensures ok ==> Holds(freeMap, disk) == Sound(Chain(Sectors(), disk.Tables(), numSectors))
      ensures ok && Holds(freeMap, disk) ==> Took(freeMap)
    {
      ok := GrowMarked(freeMap, disk, numSectors, afterSectors, clear);
      if ok {
        numBytes := afterBytes;
        numSectors := afterSectors;
      }
    }

    // Grows the file by expandBytes bytes. The precondition on index tables is what keeps
    // the writes of new tables within the disk when the free-space tests are too weak.
    method ExpandFileSize(freeMap: BitMap, disk: SectorDisk, expandBytes: int32) returns (ok: bool)
      requires Apart(freeMap, disk) && Holds(freeMap, disk)
      requires numBytes + expandBytes < 0x8000_0000
      requires ExpandSucceeds(numBytes, numSectors, expandBytes, NumClear(freeMap.Marked(), NUM_SECTORS)) ==>
        TablesFit(Total(numSectors), Total(SectorsFor(numBytes + expandBytes)), 0,
                  NumClear(freeMap.Marked(), NUM_SECTORS))
      modifies freeMap.bits, freeMap`base, freeMap`found, disk.sectors, dataSectors, `numBytes, `numSectors
      ensures Apart(freeMap, disk)
      ensures ok == old(ExpandSucceeds(numBytes, numSectors, expandBytes, NumClear(freeMap.Marked(), NUM_SECTORS)))
      // no sector more, or the tests of the branch pass
      ensures ok <==> expandBytes >= 0 &&
                      (SectorsFor(old(numBytes) + expandBytes) == old(numSectors) ||
                       GuardsPass(old(numSectors), SectorsFor(old(numBytes) + expandBytes),
                                  NumClear(old(freeMap.Marked()), NUM_SECTORS)))
      // failure changes nothing
      ensures !ok ==> numBytes == old(numBytes) && numSectors == old(numSectors) && Sectors() == old(Sectors()) &&
                      freeMap.Marked() == old(freeMap.Marked()) && disk.Image() == old(disk.Image())
      // success extends the chain, writing only its index tables
      ensures ok ==> numBytes == old(numBytes) + expandBytes && numSectors == SectorsFor(numBytes) &&
                     numSectors <= MAX_SECTORS && Grew(freeMap, disk, old(numSectors), numSectors)
      // and the file is in order again exactly when there was room for all the new sectors
      ensures ok ==> Holds(freeMap, disk) ==
                     (Total(numSectors) - Total(old(numSectors)) <= old(NumClear(freeMap.Marked(), NUM_SECTORS)))
      ensures ok ==> Holds(freeMap, disk) == Sound(Chain(Sectors(), disk.Tables(), numSectors))
      ensures ok && Holds(freeMap, disk) ==> Took(freeMap)
      ensures ok ==>
        old(freeMap.found) <= freeMap.found &&
        Chain(Sectors(), disk.Tables(), numSectors) ==
        old(Chain(Sectors(), disk.Tables(), numSectors)) + freeMap.found[|old(freeMap.found)|..]
    {
      if expandBytes < 0 {
        return false;
      }
      var afterBytes := numBytes + expandBytes;
      var afterSectors := SectorsFor(afterBytes);
      var clear := freeMap.NumberClear();
      if afterSectors == numSectors {
        numBytes := afterBytes;
        return true;
      }
      ExpandGuards(numBytes, expandBytes, numSectors, clear);
      if afterSectors - numSectors > clear {
        return false;
      }
      ok := ExpandTo(freeMap, disk, afterBytes, afterSectors, clear);
    }

    // ExpandFileSize, when there is room for all that it takes.
    method ExpandWithRoom(freeMap: BitMap, disk: SectorDisk, expandBytes: int32) returns (ok: bool)
      requires Apart(freeMap, disk) && Holds(freeMap, disk) && numBytes + expandBytes < 0x8000_0000
      requires expandBytes >= 0 ==>
        Total(SectorsFor(numBytes + expandBytes)) - Total(numSectors) <= NumClear(freeMap.Marked(), NUM_SECTORS)
      modifies freeMap.bits, freeMap`base, freeMap`found, disk.sectors, dataSectors, `numBytes, `numSectors
      ensures Apart(freeMap, disk) && (ok ==> Holds(freeMap, disk))
      ensures ok == old(ExpandSucceeds(numBytes, numSectors, expandBytes, NumClear(freeMap.Marked(), NUM_SECTORS)))
      ensures numBytes == old(numBytes) + if ok then expandBytes else 0
      ensures !ok ==> numSectors == old(numSectors) && Sectors() == old(Sectors()) &&
                      freeMap.Marked() == old(freeMap.Marked()) && disk.Image() == old(disk.Image())
      ensures ok ==> numSectors == SectorsFor(numBytes) && Took(freeMap) &&
                     Grew(freeMap, disk, old(numSectors), numSectors)
    {
      ghost var have, clear, want := numSectors, NumClear(freeMap.Marked(), NUM_SECTORS), numSectors;
      if expandBytes >= 0 {
        want := SectorsFor(numBytes + expandBytes);
        RoomFits(have, want, clear);
      }
      ok := ExpandFileSize(freeMap, disk, expandBytes);
      assert ok ==> numSectors == want;
      assert ok ==> Holds(freeMap, disk) == (Total(want) - Total(have) <= clear);
    }

    // Lays out a new file. All or nothing on the free map and the disk. The branches compare
    // the number of sectors with unsigned constants, so that a negative number takes none.
    method Allocate(freeMap: BitMap, disk: SectorDisk, fileSize: int32) returns (r: Outcome)
      requires Apart(freeMap, disk)
      modifies freeMap.bits, freeMap`base, freeMap`found, disk.sectors, dataSectors, `numBytes, `numSectors
      ensures Apart(freeMap, disk) && numBytes == fileSize && numSectors == SectorsOfSize(fileSize)
      ensures r.Stopped? <==> fileSize <= -SECTOR_SIZE
      ensures r.Done? <==> fileSize > -SECTOR_SIZE && Total(numSectors) <= NumClear(old(freeMap.Marked()), NUM_SECTORS)
      ensures !r.Done? ==> freeMap.Marked() == old(freeMap.Marked()) && disk.Image() == old(disk.Image())
      ensures r.Done? ==> 0 <= numSectors <= MAX_SECTORS && Took(freeMap)
      ensures r.Done? ==> Chain(Sectors(), disk.Tables(), numSectors) == freeMap.found[|old(freeMap.found)|..]
      ensures r.Done? ==>
        OnlyTablesWritten(old(disk.Image()), disk.Image(), Chain(Sectors(), disk.Tables(), numSectors))
      ensures r.Done? && fileSize >= 0 ==> Holds(freeMap, disk)
    {
      numBytes := fileSize;
      numSectors := SectorsOfSize(fileSize);
      var numClear := freeMap.NumberClear();
      ghost var got0, m := freeMap.found, freeMap.Marked();
      UsedAndClear(m, {}, NUM_SECTORS);
      BranchTaken(fileSize, numClear);
      if numClear < numSectors {
        return NoRoom;
      }
      FitsWhenRoom(numSectors, freeMap.base, got0);
      if Unsigned(numSectors) <= NUM_DIRECT {
        GrowDirect(freeMap, disk, 0, numSectors);
      } else if Unsigned(numSectors) <= LEVEL_NUM + NUM_DIRECT {
        if numClear < numSectors + 1 {
          return NoRoom;
        }
        ZeroToOne(freeMap, disk, 0, numSectors);
      } else if Unsigned(numSectors) <= LEVEL_NUM * LEVEL_NUM + LEVEL_NUM + NUM_DIRECT {
        if numClear < numSectors + 1 + 1 + SecondLevelNum(numSectors) {
          return NoRoom;
        }
        ZeroToTwo(freeMap, disk, 0, numSectors);
      } else {
        return Stopped;
      }
      assert freeMap.found[..|got0|] == got0 && m == freeMap.base + Granted(got0);
      NewChain(freeMap.base, freeMap.found, |got0|);
      return Done;
    }

    // ------------------------------------------------------------ giving sectors back

    method ClearSecondLevel(freeMap: BitMap, disk: SectorDisk, two: array<int32>, ghost m: set<int>,
                            ghost chain: seq<int>)
      requires Apart(freeMap, disk) && NUM_DIRECT + LEVEL_NUM < numSectors <= MAX_SECTORS
      requires chain == Chain(Sectors(), disk.Tables(), numSectors) && 0 <= Sectors()[TWO_LEVEL_IDX] < NUM_SECTORS
      requires two.Length == LEVEL_NUM && two[..] == disk.Tables()[Sectors()[TWO_LEVEL_IDX]]
      requires two as object != freeMap.bits
      requires Clearing(freeMap, m, chain, BeforeTable(chain, 0))
      modifies freeMap.bits, freeMap`base, freeMap`found
      ensures Clearing(freeMap, m, chain, BeforeTable(chain, SecondLevelNum(numSectors)))
    {
      for i := 0 to SecondLevelNum(numSectors)
        invariant disk.Tables() == old(disk.Tables()) && two[..] == old(two[..])
        invariant Clearing(freeMap, m, chain, BeforeTable(chain, i))
      {
        var left := numSectors - NUM_DIRECT - LEVEL_NUM - LEVEL_NUM * i;
        var count := if left < LEVEL_NUM then left else LEVEL_NUM;
        SecondTableEntries(Sectors(), disk.Tables(), numSectors, i, count, chain);
        ClearSecond(freeMap, disk, two[i], count, i, m, chain);
      }
    }

    method ClearTwoLevel(freeMap: BitMap, disk: SectorDisk, ghost m: set<int>, ghost chain: seq<int>)
      requires Apart(freeMap, disk) && NUM_DIRECT + LEVEL_NUM < numSectors <= MAX_SECTORS
      requires chain == Chain(Sectors(), disk.Tables(), numSectors)
      requires Clearing(freeMap, m, chain, Elems(chain[..41]))
      modifies freeMap.bits, freeMap`base, freeMap`found
      ensures Apart(freeMap, disk) && Clearing(freeMap, m, chain, Elems(chain))
    {
      var two := new int32[LEVEL_NUM];
      assert chain[41] == Sectors()[TWO_LEVEL_IDX];
      disk.ReadTable(dataSectors[TWO_LEVEL_IDX], two);
      WithoutTwoLevel(chain, numSectors);
      ClearSecondLevel(freeMap, disk, two, m, chain);
      ClearOne(freeMap, dataSectors[TWO_LEVEL_IDX], m, chain, BeforeTable(chain, SecondLevelNum(numSectors)), 41);
    }

    method ClearOneLevel(freeMap: BitMap, disk: SectorDisk, ghost m: set<int>, ghost chain: seq<int>)
      requires Apart(freeMap, disk) && NUM_DIRECT < numSectors <= MAX_SECTORS
      requires chain == Chain(Sectors(), disk.Tables(), numSectors)
      requires Clearing(freeMap, m, chain, Elems(chain[..8]))
      modifies freeMap.bits, freeMap`base, freeMap`found
      ensures Apart(freeMap, disk)
      ensures Clearing(freeMap, m, chain, Elems(chain[..if |chain| < 41 then |chain| else 41]))
    {
      var count := if numSectors < NUM_DIRECT + LEVEL_NUM then numSectors - NUM_DIRECT else LEVEL_NUM;
      OneLevelEntries(Sectors(), disk.Tables(), numSectors, count);
      var one := new int32[LEVEL_NUM];
      disk.ReadTable(dataSectors[ONE_LEVEL_IDX], one);
      ClearTable(freeMap, dataSectors[ONE_LEVEL_IDX], one, count, m, chain, Elems(chain[..8]), 8,
                 Elems(chain[..9 + count]));
    }

    // Gives back every sector of the file. Each one is found marked.
    method Deallocate(freeMap: BitMap, disk: SectorDisk)
      requires Apart(freeMap, disk) && 0 <= numSectors <= MAX_SECTORS
      requires Sound(Chain(Sectors(), disk.Tables(), numSectors))
      requires Elems(Chain(Sectors(), disk.Tables(), numSectors)) <= freeMap.Marked()
      modifies freeMap.bits, freeMap`base, freeMap`found
      ensures Apart(freeMap, disk)
      ensures freeMap.Marked() == old(freeMap.Marked()) - Elems(Chain(Sectors(), disk.Tables(), numSectors))
    {
      ghost var m, chain := freeMap.Marked(), Chain(Sectors(), disk.Tables(), numSectors);
      var direct := if numSectors < NUM_DIRECT then numSectors else NUM_DIRECT;
      assert Clearing(freeMap, m, chain, {});
      assert dataSectors[..direct] == chain[..direct];
      ClearRun(freeMap, dataSectors, direct, m, chain, {}, 0);
      assert chain[..|chain|] == chain;
      if numSectors > NUM_DIRECT {
        ClearOneLevel(freeMap, disk, m, chain);
        if numSectors > NUM_DIRECT + LEVEL_NUM {
          ClearTwoLevel(freeMap, disk, m, chain);
        }
      }
    }

    // ------------------------------------------------------------ looking sectors up

    // The disk sector that holds a byte of the file.
    method ByteToSector(disk: SectorDisk, offset: nat) returns (r: int)
      requires Valid() && disk.Valid() && offset / SECTOR_SIZE < numSectors <= MAX_SECTORS
      requires Sound(Chain(Sectors(), disk.Tables(), numSectors))
      ensures r == List(disk)[offset / SECTOR_SIZE]
      ensures Position(offset / SECTOR_SIZE) < Total(numSectors)
      ensures r == Chain(Sectors(), disk.Tables(), numSectors)[Position(offset / SECTOR_SIZE)]
      ensures 0 <= r < NUM_SECTORS
    {
      LookUp(Sectors(), disk.Tables(), numSectors, offset / SECTOR_SIZE);
      OffsetSplit(offset);
      if offset < NUM_DIRECT * SECTOR_SIZE {
        return dataSectors[offset / SECTOR_SIZE];
      }
      if offset < NUM_DIRECT * SECTOR_SIZE + LEVEL_NUM * SECTOR_SIZE {
        r := ReadEntry(disk, dataSectors[ONE_LEVEL_IDX], (offset - NUM_DIRECT * SECTOR_SIZE) / SECTOR_SIZE);
        return r;
      }
      var beyond := offset - (NUM_DIRECT * SECTOR_SIZE + LEVEL_NUM * SECTOR_SIZE);
      var second := ReadEntry(disk, dataSectors[TWO_LEVEL_IDX], beyond / (LEVEL_NUM * SECTOR_SIZE));
      r := ReadEntry(disk, second, beyond % (LEVEL_NUM * SECTOR_SIZE) / SECTOR_SIZE);
    }

    // ------------------------------------------------------------ on disk

    ghost function Value(): Header
      requires Valid()
      reads this, dataSectors
    {
      Header(numBytes, numSectors, isDirectory, Sectors())
    }

    method FetchFrom(disk: SectorDisk, sector: int)
      requires Valid() && disk.Valid() && 0 <= sector < NUM_SECTORS && dataSectors as object != disk.sectors
      modifies this`numBytes, this`numSectors, this`isDirectory, dataSectors
      ensures Value() == DecodeHeader(disk.Image()[sector])
    {
      var data := disk.ReadSector(sector);
      var h := DecodeHeader(data);
      numBytes, numSectors, isDirectory := h.numBytes, h.numSectors, h.isDirectory;
      forall k | 0 <= k < NUM_SLOTS {
        dataSectors[k] := h.slots[k];
      }
    }

    method WriteBack(disk: SectorDisk, sector: int)
      requires Valid() && disk.Valid() && 0 <= sector < NUM_SECTORS
      modifies disk.sectors
      ensures disk.Image() == old(disk.Image())[sector := EncodeHeader(old(Value()))]
    {
      disk.WriteSector(sector, EncodeHeader(Header(numBytes, numSectors, isDirectory, dataSectors[..])));
    }
  }
}
