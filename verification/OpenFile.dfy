/**
 What ReadAt and WriteAt mean for the flat byte sequence of a file: lemmas on disk
 images, sectors and buffers.
 */
module FileBytes {
  import opened SectorDisks
  import opened Chains
  import opened HeaderLayout
  import opened FileLayout

  // Bytes moved by a request for numBytes at position in a file of length len.
  function Moved(len: int, numBytes: int, position: int): (r: nat)
    ensures r > 0 ==> position + r <= len
  {
    if numBytes <= 0 || position >= len then 0
    else if position + numBytes > len then len - position
    else numBytes
  }

  // The length of a file after a request to write: growth is by the whole numBytes.
  function LengthAfter(len: int, numBytes: int, position: int): int
  {
    if position + numBytes > len then len + numBytes else len
  }

  // Growing by the whole numBytes is right for a write within the file or at its end, and
  // for no other: one across the end leaves the file too long, one beyond it too short.
  lemma LengthRight(len: nat, numBytes: nat, position: nat)
    requires numBytes > 0
    ensures LengthAfter(len, numBytes, position) ==
            (if position + numBytes > len then position + numBytes else len) <==>
            position + numBytes <= len || position == len
    ensures Moved(LengthAfter(len, numBytes, position), numBytes, position) == numBytes <==> position <= len
  {
  }

  // Five bytes written across the end of a file of ten leave it at fifteen, not thirteen.
  lemma LengthWrong()
    ensures LengthAfter(10, 5, 8) == 15
  {
  }

  // The sectors that a range within the file lies in.
  lemma Spans(len: nat, position: nat, count: nat)
    requires 0 < count && position + count <= len
    ensures var first, last := position / SECTOR_SIZE, (position + count - 1) / SECTOR_SIZE;
      && first <= last < SectorsFor(len)
      && SECTOR_SIZE * first <= position && position + count <= SECTOR_SIZE * (last + 1)
  {
  }

  // The bytes of s from position on.
  function Part(s: seq<byte>, position: nat, count: nat): seq<byte>
    requires count > 0 ==> position + count <= |s|
  {
    if count == 0 then [] else s[position..position + count]
  }

  // s with data in place of the bytes from position on.
  function Patch(s: seq<byte>, position: nat, data: seq<byte>): (r: seq<byte>)
    requires |data| > 0 ==> position + |data| <= |s|
    ensures |r| == |s|
  {
    if data == [] then s else s[..position] + data + s[position + |data|..]
  }

  lemma PatchMeans(before: seq<byte>, after: seq<byte>, start: nat, text: seq<byte>, position: nat, count: nat)
    requires (count > 0 ==> position + count <= |text|) && start + count <= |before|
    requires after == Patch(before, start, Part(text, position, count))
    ensures |after| == |before|
    ensures forall k | start <= k < start + count :: after[k] == text[position + (k - start)]
    ensures forall k | 0 <= k < |before| && !(start <= k < start + count) :: after[k] == before[k]
  {
    var data := Part(text, position, count);
    forall k | start <= k < start + count
      ensures after[k] == text[position + (k - start)]
    {
      assert after[k] == data[k - start];
    }
  }

  // The data is at position, and every other byte there was before is there still.
  ghost predicate Rewritten(before: seq<byte>, after: seq<byte>, position: nat, data: seq<byte>)
  {
    && |before| <= |after|
    && (data != [] ==> position + |data| <= |after| && after[position..position + |data|] == data)
    && forall k | 0 <= k < |before| && !(position <= k < position + |data|) :: after[k] == before[k]
  }

  lemma RewrittenMeans(before: seq<byte>, after: seq<byte>, position: nat, data: seq<byte>)
    requires Rewritten(before, after, position, data)
    ensures forall k | position <= k < position + |data| :: k < |after| && after[k] == data[k - position]
    ensures forall k | 0 <= k < |before| && !(position <= k < position + |data|) :: after[k] == before[k]
  {
    forall k | position <= k < position + |data|
      ensures k < |after| && after[k] == data[k - position]
    {
      assert after[position..position + |data|][k - position] == data[k - position];
    }
  }

  // What was written is read back.
  lemma ReadBack(before: seq<byte>, after: seq<byte>, position: nat, data: seq<byte>)
    requires Rewritten(before, after, position, data)
    ensures Moved(|after|, |data|, position) == |data| && Part(after, position, |data|) == data
  {
    assert data != [] ==> after[position..position + |data|] == data;
  }

  lemma PatchRewrites(before: seq<byte>, grown: seq<byte>, position: nat, data: seq<byte>)
    requires before <= grown && (data != [] ==> position + |data| <= |grown|)
    ensures Rewritten(before, Patch(grown, position, data), position, data)
  {
  }

  // The first n bytes of a buffer are those of the chain from sector first on.
  ghost predicate Loaded(buf: seq<byte>, d: Image, chain: seq<int>, first: nat, n: nat)
  {
    n <= |buf| && forall k | 0 <= k < n :: buf[k] == RawByte(d, chain, SECTOR_SIZE * first + k)
  }

  lemma LoadOne(buf: seq<byte>, d: Image, chain: seq<int>, first: nat, i: nat, data: Sector)
    requires first <= i && SECTOR_SIZE * (i + 1 - first) <= |buf|
    requires Loaded(buf, d, chain, first, SECTOR_SIZE * (i - first)) && data == SectorAt(d, chain, i)
    ensures Loaded(Patch(buf, SECTOR_SIZE * (i - first), data), d, chain, first, SECTOR_SIZE * (i + 1 - first))
  {
    var at := SECTOR_SIZE * (i - first);
    var after := Patch(buf, at, data);
    forall k | 0 <= k < at + SECTOR_SIZE
      ensures after[k] == RawByte(d, chain, SECTOR_SIZE * first + k)
    {
      if k >= at {
        ByteOfSector(d, chain, i, k - at);
      }
    }
  }

  lemma ByteOfSector(d: Image, chain: seq<int>, i: nat, r: nat)
    requires r < SECTOR_SIZE
    ensures RawByte(d, chain, SECTOR_SIZE * i + r) == SectorAt(d, chain, i)[r]
  {
    assert (SECTOR_SIZE * i + r) / SECTOR_SIZE == i && (SECTOR_SIZE * i + r) % SECTOR_SIZE == r;
  }

  lemma LoadedPart(buf: seq<byte>, d: Image, chain: seq<int>, first: nat, len: nat, position: nat, count: nat)
    requires Loaded(buf, d, chain, first, |buf|) && SECTOR_SIZE * first <= position
    requires 0 < count && position + count <= len && position + count <= SECTOR_SIZE * first + |buf|
    ensures buf[position - SECTOR_SIZE * first..position - SECTOR_SIZE * first + count] ==
            Part(Contents(d, chain, len), position, count)
  {
    ContentsAreRaw(d, chain, len);
  }

  // Data sectors first..to of the chain hold the buffer, the others what they did in d0.
  ghost predicate Written(d0: Image, d1: Image, chain: seq<int>, first: nat, to: nat, buf: seq<byte>)
    requires first <= to && SECTOR_SIZE * (to - first) <= |buf|
  {
    && OnlyDataWritten(d0, d1, chain)
    && forall k: nat | Position(k / SECTOR_SIZE) < |chain| ::
         RawByte(d1, chain, k) == if SECTOR_SIZE * first <= k < SECTOR_SIZE * to
                                  then buf[k - SECTOR_SIZE * first] else RawByte(d0, chain, k)
  }

  lemma SectorWritten(d1: Image, chain: seq<int>, n: int, i: nat, data: Sector, d2: Image, k: nat)
    requires i < n <= MAX_SECTORS && Sound(chain) && |chain| == Total(n)
    requires Position(i) < |chain| && d2 == d1[chain[Position(i)] := data]
    requires Position(k / SECTOR_SIZE) < |chain|
    ensures RawByte(d2, chain, k) == if k / SECTOR_SIZE == i then data[k % SECTOR_SIZE] else RawByte(d1, chain, k)
  {
    if k / SECTOR_SIZE < i {
      PositionIncreases(k / SECTOR_SIZE, i);
    } else if k / SECTOR_SIZE > i {
      PositionIncreases(i, k / SECTOR_SIZE);
    }
  }

  lemma WriteOne(d0: Image, d1: Image, chain: seq<int>, n: int, first: nat, i: nat, buf: seq<byte>, data: Sector,
                 d2: Image)
    requires first <= i < n <= MAX_SECTORS && SECTOR_SIZE * (i + 1 - first) <= |buf|
    requires Sound(chain) && |chain| == Total(n) && Written(d0, d1, chain, first, i, buf)
    requires data == buf[SECTOR_SIZE * (i - first)..SECTOR_SIZE * (i + 1 - first)]
    requires Position(i) < |chain| && d2 == d1[chain[Position(i)] := data]
    ensures Written(d0, d2, chain, first, i + 1, buf)
  {
    PositionOwned(i, n);
    forall k: nat | Position(k / SECTOR_SIZE) < |chain|
      ensures RawByte(d2, chain, k) == if SECTOR_SIZE * first <= k < SECTOR_SIZE * (i + 1)
                                       then buf[k - SECTOR_SIZE * first] else RawByte(d0, chain, k)
    {
      SectorWritten(d1, chain, n, i, data, d2, k);
    }
  }

  // The buffer holds what the sectors first..last should hold, as far as the file reaches.
  ghost predicate Prepared(buf: seq<byte>, first: nat, text: seq<byte>)
  {
    |buf| % SECTOR_SIZE == 0 &&
    forall k | 0 <= k < |buf| && SECTOR_SIZE * first + k < |text| :: buf[k] == text[SECTOR_SIZE * first + k]
  }

  // Bytes from..to of the buffer are those of the file, as far as the file reaches.
  ghost predicate Agrees(buf: seq<byte>, first: nat, text: seq<byte>, from: nat, to: nat)
  {
    to <= |buf| &&
    forall k | from <= k < to && SECTOR_SIZE * first + k < |text| :: buf[k] == text[SECTOR_SIZE * first + k]
  }

  // Reading one sector of the file into its place in the buffer.
  lemma SectorAgrees(buf0: seq<byte>, buf1: seq<byte>, first: nat, text: seq<byte>, at: nat, got: nat, done: nat)
    requires at + SECTOR_SIZE <= |buf0| && got == Moved(|text|, SECTOR_SIZE, SECTOR_SIZE * first + at)
    requires buf1 == Patch(buf0, at, Part(text, SECTOR_SIZE * first + at, got))
    requires Agrees(buf0, first, text, 0, done)
    ensures Agrees(buf1, first, text, at, at + SECTOR_SIZE) && Agrees(buf1, first, text, 0, done)
  {
    assert Agrees(buf1, first, text, at, at + SECTOR_SIZE);
  }

  // Only the bytes before and after the new data had to be read.
  lemma PatchPrepared(buf: seq<byte>, first: nat, text: seq<byte>, position: nat, data: seq<byte>)
    requires SECTOR_SIZE * first <= position && 0 < |data| && position + |data| <= |text|
    requires |buf| % SECTOR_SIZE == 0 && position + |data| <= SECTOR_SIZE * first + |buf|
    requires Agrees(buf, first, text, 0, position - SECTOR_SIZE * first)
    requires Agrees(buf, first, text, position + |data| - SECTOR_SIZE * first, |buf|)
    ensures Prepared(Patch(buf, position - SECTOR_SIZE * first, data), first, Patch(text, position, data))
  {
  }

  lemma WrittenContents(d0: Image, d1: Image, chain: seq<int>, first: nat, to: nat, buf: seq<byte>,
                        len: nat, position: nat, data: seq<byte>)
    requires |data| > 0 && position + |data| <= len && Total(SectorsFor(len)) <= |chain| &&
      SectorsFor(len) <= MAX_SECTORS
    requires first == position / SECTOR_SIZE && to == (position + |data| - 1) / SECTOR_SIZE + 1
    requires |buf| == SECTOR_SIZE * (to - first)
    requires Written(d0, d1, chain, first, to, buf)
    requires Prepared(buf, first, Patch(Contents(d0, chain, len), position, data))
    ensures Contents(d1, chain, len) == Patch(Contents(d0, chain, len), position, data)
  {
    var text := Patch(Contents(d0, chain, len), position, data);
    ContentsAreRaw(d0, chain, len);
    ContentsAreRaw(d1, chain, len);
    forall k | 0 <= k < len
      ensures Contents(d1, chain, len)[k] == text[k]
    {
      PositionOwned(k / SECTOR_SIZE, SectorsFor(len));
      assert Contents(d1, chain, len)[k] == RawByte(d1, chain, k);
    }
  }
}

/**
 Open files (filesys/openfile.cc): a header in memory over a file on the disk.
 */
module OpenFiles {
  import opened WordBits
  import opened Allocation
  import opened SectorDisks
  import opened BitMaps
  import opened Chains
  import opened HeaderLayout
  import opened FileHeaders
  import opened FileLayout
  import opened FileBytes

  // bcopy
  method Copy(buf: array<byte>, from: nat, into: array<byte>, start: nat, count: nat)
    requires from + count <= buf.Length && start + count <= into.Length && buf != into
    modifies into
    ensures into[..] == Patch(old(into[..]), start, buf[from..from + count])
  {
    forall k | 0 <= k < count {
      into[start + k] := buf[from + k];
    }
  }

  // Copies bytes that are known.
  method CopyPart(buf: array<byte>, from: nat, into: array<byte>, start: nat, count: nat, ghost data: seq<byte>)
    requires from + count <= buf.Length && start + count <= into.Length && buf != into
    requires buf[from..from + count] == data
    modifies into
    ensures into[..] == Patch(old(into[..]), start, data)
  {
    Copy(buf, from, into, start, count);
  }

  method Place(buf: array<byte>, at: nat, data: seq<byte>)
    requires at + |data| <= buf.Length && data != []
    modifies buf
    ensures buf[..] == Patch(old(buf[..]), at, data)
  {
    forall k | 0 <= k < |data| {
      buf[at + k] := data[k];
    }
  }

  // Copies the new bytes in between the old ones.
  method FillIn(from: array<byte>, count: nat, buf: array<byte>, first: nat, position: nat, ghost text: seq<byte>)
    requires buf != from && 0 < count <= from.Length && position + count <= |text|
    requires buf.Length % SECTOR_SIZE == 0
    requires SECTOR_SIZE * first <= position && position + count <= SECTOR_SIZE * first + buf.Length
    requires Agrees(buf[..], first, text, 0, position - SECTOR_SIZE * first)
    requires Agrees(buf[..], first, text, position + count - SECTOR_SIZE * first, buf.Length)
    modifies buf
    ensures Prepared(buf[..], first, Patch(text, position, from[..count]))
  {
    PatchPrepared(buf[..], first, text, position, from[..count]);
    Copy(from, 0, buf, position - SECTOR_SIZE * first, count);
  }

  class OpenFile {
    const disk: SectorDisk
    const hdr: FileHeader
    var seekPosition: int32

    ghost predicate Valid()
      reads hdr, hdr.dataSectors, disk.sectors
    {
      && hdr.Valid() && disk.Valid() && hdr.dataSectors as object != disk.sectors
      && IsSector(hdr.headerSector) && InOrder(hdr.Value(), disk.Image())
    }

    ghost function Layout(): seq<int>
      requires hdr.Valid() && disk.Valid()
      reads hdr, hdr.dataSectors, disk.sectors
    {
      ChainOf(hdr.Value(), disk.Image())
    }

    // The flat byte sequence that the file stands for.
    ghost function Text(): seq<byte>
      requires Valid()
      reads hdr, hdr.dataSectors, disk.sectors
    {
      Contents(disk.Image(), Layout(), hdr.numBytes)
    }

    constructor (disk: SectorDisk, sector: int)
      requires disk.Valid() && IsSector(sector) && InOrder(HeaderAt(disk.Image(), sector), disk.Image())
      ensures this.disk == disk && fresh(hdr) && fresh(hdr.dataSectors)
      ensures Valid() && hdr.Value() == HeaderAt(disk.Image(), sector) && hdr.headerSector == sector
      ensures seekPosition == 0
    {
      this.disk := disk;
      hdr := new FileHeader();
      seekPosition := 0;
      new;
      hdr.FetchFrom(disk, sector);
      hdr.headerSector := sector;
    }

    // A caller's buffer, not part of the file.
    ghost predicate Separate(buf: array<byte>)
    {
      buf as object != disk.sectors && buf as object != hdr.dataSectors
    }

    // All the sectors first..last, one after the other.
    method ReadSectors(first: nat, last: nat) returns (buf: array<byte>)
      requires Valid() && first <= last < hdr.numSectors
      ensures fresh(buf) && Separate(buf) && buf.Length == SECTOR_SIZE * (last + 1 - first)
      ensures Loaded(buf[..], disk.Image(), Layout(), first, buf.Length)
    {
      buf := new byte[SECTOR_SIZE * (last + 1 - first)];
      for i := first to last + 1
        invariant Loaded(buf[..], disk.Image(), Layout(), first, SECTOR_SIZE * (i - first))
      {
        var data := ReadOne(i);
        LoadOne(buf[..], disk.Image(), Layout(), first, i, data);
        Place(buf, SECTOR_SIZE * (i - first), data);
      }
    }

    method ReadOne(i: nat) returns (data: Sector)
      requires Valid() && i < hdr.numSectors
      ensures data == SectorAt(disk.Image(), Layout(), i)
    {
      assert i * SECTOR_SIZE / SECTOR_SIZE == i;
      assert Layout() == Chain(hdr.Sectors(), disk.Tables(), hdr.numSectors);
      var sector := hdr.ByteToSector(disk, i * SECTOR_SIZE);
      data := disk.ReadSector(sector);
    }

    method ReadAt(into: array<byte>, start: nat, numBytes: int32, position: nat31) returns (count: nat)
      requires position + numBytes < 0x8000_0000
      requires Valid() && Separate(into) && start + Moved(hdr.numBytes, numBytes, position) <= into.Length
      modifies into
      ensures Text() == old(Text())
      ensures count == Moved(hdr.numBytes, numBytes, position) && count <= into.Length - start
      ensures into[..] == Patch(old(into[..]), start, Part(Text(), position, count))
      // as much of the range as lies within the file, and nothing else in the buffer changes
      ensures count == if numBytes <= 0 || position >= hdr.numBytes then 0
                       else if position + numBytes > hdr.numBytes then hdr.numBytes - position else numBytes
      ensures forall k | start <= k < start + count :: into[k] == Text()[position + (k - start)]
      ensures forall k | 0 <= k < into.Length && !(start <= k < start + count) :: into[k] == old(into[k])
    {
      ghost var before, text := into[..], Text();
      if numBytes <= 0 || position >= hdr.numBytes {
        count := 0;
      } else {
        count := if position + numBytes > hdr.numBytes then hdr.numBytes - position else numBytes;
        ReadPart(into, start, position, count);
      }
      PatchMeans(before, into[..], start, text, position, count);
    }

    // ReadAt for all the bytes of the file.
    method ReadWhole(into: array<byte>)
      requires Valid() && Separate(into) && into.Length == hdr.numBytes
      modifies into
      ensures Text() == old(Text()) && into[..] == Text()
    {
      var count := ReadAt(into, 0, hdr.numBytes, 0);
    }

    // Reads the sectors that the range lies in, and copies the part asked for.
    method ReadPart(into: array<byte>, start: nat, position: nat, count: nat)
      requires Valid() && Separate(into) && 0 < count && position + count <= hdr.numBytes &&
        start + count <= into.Length
      modifies into
      ensures Text() == old(Text()) && into[..] == Patch(old(into[..]), start, Part(Text(), position, count))
    {
      ghost var d, chain, text := disk.Image(), Layout(), Text();
      var first, last := position / SECTOR_SIZE, (position + count - 1) / SECTOR_SIZE;
      Spans(hdr.numBytes, position, count);
      var buf := ReadSectors(first, last);
      LoadedPart(buf[..], d, chain, first, hdr.numBytes, position, count);
      CopyPart(buf, position - SECTOR_SIZE * first, into, start, count, Part(text, position, count));
    }

    // Sectors first..last, from the buffer.
    method WriteSectors(buf: array<byte>, first: nat, last: nat)
      requires Valid() && Separate(buf) && first <= last < hdr.numSectors
      requires buf.Length == SECTOR_SIZE * (last + 1 - first)
      modifies disk.sectors
      ensures Valid() && Layout() == old(Layout())
      ensures Written(old(disk.Image()), disk.Image(), Layout(), first, last + 1, buf[..])
    {
      ghost var d0, chain, header := disk.Image(), Layout(), hdr.Value();
      for i := first to last + 1
        invariant disk.Valid() && buf[..] == old(buf[..]) && hdr.Value() == header
        invariant Written(d0, disk.Image(), chain, first, i, buf[..])
      {
        DataKeepsChain(d0, disk.Image(), header);
        WriteFrom(buf, first, i, d0);
      }
      DataKeepsChain(d0, disk.Image(), header);
    }

    method WriteFrom(buf: array<byte>, first: nat, i: nat, ghost d0: Image)
      requires Valid() && Separate(buf) && first <= i < hdr.numSectors && SECTOR_SIZE * (i + 1 - first) <= buf.Length
      requires Written(d0, disk.Image(), Layout(), first, i, buf[..])
      modifies disk.sectors
      ensures disk.Valid() && Written(d0, disk.Image(), old(Layout()), first, i + 1, buf[..])
    {
      ghost var d, chain := disk.Image(), Layout();
      assert i * SECTOR_SIZE / SECTOR_SIZE == i;
      assert chain == Chain(hdr.Sectors(), disk.Tables(), hdr.numSectors);
      var sector := hdr.ByteToSector(disk, i * SECTOR_SIZE);
      var data := buf[SECTOR_SIZE * (i - first)..SECTOR_SIZE * (i + 1 - first)];
      disk.WriteSector(sector, data);
      WriteOne(d0, d, chain, hdr.numSectors, first, i, buf[..], data, disk.Image());
    }

    // Reads sector i of the file into its place in a buffer that starts at sector first.
    method ReadEdge(buf: array<byte>, first: nat, i: nat, ghost done: nat, ghost text: seq<byte>)
      requires Valid() && Separate(buf) && first <= i < hdr.numSectors && SECTOR_SIZE * (i + 1 - first) <= buf.Length
      requires text == Text() && Agrees(buf[..], first, text, 0, done)
      modifies buf
      ensures Text() == text && Agrees(buf[..], first, text, 0, done)
      ensures Agrees(buf[..], first, text, SECTOR_SIZE * (i - first), SECTOR_SIZE * (i + 1 - first))
    {
      ghost var before := buf[..];
      var got := ReadAt(buf, SECTOR_SIZE * (i - first), SECTOR_SIZE, SECTOR_SIZE * i);
      SectorAgrees(before, buf[..], first, text, SECTOR_SIZE * (i - first), got, done);
    }

    // A buffer for writing position..end: sectors to be written in part are read first.
    method ReadEdges(position: nat, end: nat, first: nat, last: nat, ghost text: seq<byte>) returns (buf: array<byte>)
      requires Valid() && position < end <= hdr.numBytes && text == Text()
      requires first == position / SECTOR_SIZE && last == (end - 1) / SECTOR_SIZE
      ensures fresh(buf) && Separate(buf) && buf.Length == SECTOR_SIZE * (last + 1 - first)
      ensures Agrees(buf[..], first, text, 0, position - SECTOR_SIZE * first)
      ensures Agrees(buf[..], first, text, end - SECTOR_SIZE * first, buf.Length)
    {
      buf := new byte[SECTOR_SIZE * (last + 1 - first)];
      var firstAligned := position == first * SECTOR_SIZE;
      var lastAligned := end == (last + 1) * SECTOR_SIZE;
      if !firstAligned {
        ReadEdge(buf, first, first, 0, text);
      }
      if !lastAligned && (first != last || firstAligned) {
        ReadEdge(buf, first, last, if firstAligned then 0 else SECTOR_SIZE, text);
      }
    }

    // The second half of WriteAt: an overwrite within the file.
    method Overwrite(from: array<byte>, numBytes: int32, position: nat31) returns (count: nat)
      requires position + numBytes < 0x8000_0000
      requires Valid() && Separate(from) && numBytes <= from.Length
      modifies disk.sectors
      ensures Valid() && count == Moved(hdr.numBytes, numBytes, position) && count <= from.Length
      ensures Layout() == old(Layout()) && OnlyDataWritten(old(disk.Image()), disk.Image(), Layout())
      ensures Text() == Patch(old(Text()), position, from[..count])
      ensures count == if numBytes <= 0 || position >= hdr.numBytes then 0
                       else if position + numBytes > hdr.numBytes then hdr.numBytes - position else numBytes
      ensures |Text()| == |old(Text())|
      ensures forall k | 0 <= k < |Text()| ::
        Text()[k] == if position <= k < position + count then from[k - position] else old(Text())[k]
    {
      if numBytes <= 0 || position >= hdr.numBytes {
        return 0;
      }
      count := if position + numBytes > hdr.numBytes then hdr.numBytes - position else numBytes;
      OverwritePart(from, count, position);
    }

    // Writes the sectors that the range lies in, with what is not new read first.
    method OverwritePart(from: array<byte>, count: nat, position: nat)
      requires Valid() && Separate(from) && 0 < count <= from.Length && position + count <= hdr.numBytes
      modifies disk.sectors
      ensures Valid() && Layout() == old(Layout()) && OnlyDataWritten(old(disk.Image()), disk.Image(), Layout())
      ensures Text() == Patch(old(Text()), position, from[..count])
    {
      ghost var d0, text, len := disk.Image(), Text(), hdr.numBytes;
      var first, last := position / SECTOR_SIZE, (position + count - 1) / SECTOR_SIZE;
      Spans(len, position, count);
      var buf := ReadEdges(position, position + count, first, last, text);
      FillIn(from, count, buf, first, position, text);
      WriteSectors(buf, first, last);
      WrittenContents(d0, disk.Image(), Layout(), first, last + 1, buf[..], len, position, from[..count]);
    }

    // ------------------------------------------------------------ the free map in its file

    // The header in memory is the one on the disk.
    ghost predicate Current()
      reads hdr, hdr.dataSectors, disk.sectors
    {
      Valid() && hdr.Value() == HeaderAt(disk.Image(), hdr.headerSector)
    }

    // The file that holds the free map, as it is on the disk.
    ghost predicate IsFreeMap()
      reads hdr, hdr.dataSectors, disk.sectors
    {
      Current() && hdr.headerSector == FREE_MAP_SECTOR && hdr.numBytes == FREE_MAP_SIZE
    }

    // The header in memory was read from sector h of disk d.
    ghost predicate ReadFrom(h: int, d: Image)
      reads hdr, hdr.dataSectors
    {
      && hdr.Valid() && disk.Valid() && hdr.dataSectors as object != disk.sectors
      && IsSector(h) && hdr.headerSector == h && InOrder(hdr.Value(), d) && hdr.Value() == HeaderAt(d, h)
    }

    // The destructor writes the header back, and so changes nothing but padding.
    method Close(ghost owner: Owners, ghost m: set<int>)
      requires Current() && Tidy(disk.Image(), owner, m) && Live(owner, hdr.headerSector)
      modifies disk.sectors
      ensures Tidy(disk.Image(), owner, m) && OthersSame(old(disk.Image()), disk.Image(), owner, {})
    {
      ghost var d0 := disk.Image();
      hdr.WriteBack(disk, hdr.headerSector);
      HeaderRewritten(d0, owner, m, hdr.headerSector, disk.Image());
    }

    // BitMap::FetchFrom
    method FetchMap(freeMap: BitMap)
      requires IsFreeMap() && freeMap.Valid() && freeMap.numBits == NUM_SECTORS
      modifies freeMap.bits, freeMap`base, freeMap`found
      ensures freeMap.Valid() && freeMap.Marked() == Marks(disk.Image())
    {
      var bytes := new byte[FREE_MAP_SIZE];
      ReadWhole(bytes);
      freeMap.Load(WordsOf(bytes[..]));
    }

    // BitMap::WriteBack
    method WriteMap(freeMap: BitMap, ghost owner: Owners)
      requires IsFreeMap() && Live(owner, FREE_MAP_SECTOR)
      requires freeMap.Valid() && freeMap.numBits == NUM_SECTORS
      requires Tidy(disk.Image(), owner, freeMap.Marked())
      modifies disk.sectors, hdr, hdr.dataSectors
      ensures IsFreeMap() && MapStored(old(disk.Image()), disk.Image(), owner, old(freeMap.Marked()))
      decreases 1
    {
      var words := freeMap.bits[..];
      var bytes := new byte[FREE_MAP_SIZE];
      Place(bytes, 0, BytesOf(words));
      ghost var d := disk.Image();
      var written, _ := WriteAt(bytes, FREE_MAP_SIZE, 0, owner);
      LiveFile(d, owner, MarkedIn(words, NUM_SECTORS), FREE_MAP_SECTOR);
      FileDataWritten(d, disk.Image(), FREE_MAP_SECTOR);
      MapWritten(d, disk.Image(), owner, words);
    }

    // BitMap::WriteBack, and closing the handle.
    method WriteMapAndClose(freeMap: BitMap, ghost owner: Owners)
      requires IsFreeMap() && Live(owner, FREE_MAP_SECTOR)
      requires freeMap.Valid() && freeMap.numBits == NUM_SECTORS
      requires Tidy(disk.Image(), owner, freeMap.Marked())
      modifies disk.sectors, hdr, hdr.dataSectors
      ensures disk.Valid() && MapStored(old(disk.Image()), disk.Image(), owner, old(freeMap.Marked()))
      decreases 2
    {
      ghost var d, m := disk.Image(), freeMap.Marked();
      WriteMap(freeMap, owner);
      ghost var d1 := disk.Image();
      Close(owner, m);
      MapStill(d, d1, disk.Image(), owner, m);
    }

    // ------------------------------------------------------------ writing

    // The file can grow by numBytes: the disk is in order, the header in memory is the one
    // on the disk, and ExpandFileSize will succeed with enough free sectors for all it takes.
    ghost predicate Expandable(owner: Owners, numBytes: int)
      requires Valid()
      reads hdr, hdr.dataSectors, disk.sectors
    {
      && Laid(disk.Image(), owner) && Live(owner, hdr.headerSector) && hdr.headerSector != FREE_MAP_SECTOR
      && HeaderAt(disk.Image(), hdr.headerSector) == hdr.Value()
      && hdr.numBytes + numBytes < 0x8000_0000
      && Affordable(numBytes, NumClear(Marks(disk.Image()), NUM_SECTORS))
    }

    ghost predicate Affordable(numBytes: int, clear: int)
      requires Valid()
      reads hdr, hdr.dataSectors, disk.sectors
    {
      && ExpandSucceeds(hdr.numBytes, hdr.numSectors, numBytes, clear)
      && Total(SectorsFor(hdr.numBytes + numBytes)) - Total(hdr.numSectors) <= clear
    }

    // ExpandFileSize on the header of this file.
    method Enlarge(freeMap: BitMap, numBytes: int32) returns (ghost added: seq<int>)
      requires Valid() && hdr.Apart(freeMap, disk) && Elems(Layout()) <= freeMap.Marked()
      requires hdr.numBytes + numBytes < 0x8000_0000
      requires Affordable(numBytes, NumClear(freeMap.Marked(), NUM_SECTORS))
      modifies freeMap.bits, freeMap`base, freeMap`found, disk.sectors, hdr.dataSectors, hdr`numBytes, hdr`numSectors
      ensures Valid() && freeMap.Valid() && hdr.numBytes == old(hdr.numBytes) + numBytes
      ensures Enlarged(old(disk.Image()), old(hdr.Value()), disk.Image(), hdr.Value(), added)
      ensures Elems(added) !! old(freeMap.Marked()) && freeMap.Marked() == old(freeMap.Marked()) + Elems(added)
    {
      ghost var got := |freeMap.found|;
      var ok := hdr.ExpandWithRoom(freeMap, disk, numBytes);
      assert ok;
      added := freeMap.found[got..];
    }

    // And the header on the disk.
    method EnlargeOnDisk(freeMap: BitMap, numBytes: int32, ghost owner: Owners) returns (ghost added: seq<int>)
      requires Valid() && Expandable(owner, numBytes)
      requires hdr.Apart(freeMap, disk) && freeMap.Marked() == Marks(disk.Image())
      modifies freeMap.bits, freeMap`base, freeMap`found, disk.sectors, hdr.dataSectors, hdr`numBytes, hdr`numSectors
      ensures Valid() && freeMap.Valid() && hdr.numBytes == old(hdr.numBytes) + numBytes
      ensures Begun(old(disk.Image()), disk.Image(), owner, hdr.headerSector, hdr.Value(), added)
      ensures InOrder(HeaderAt(disk.Image(), FREE_MAP_SECTOR), disk.Image())
      ensures hdr.headerSector == old(hdr.headerSector)
      ensures freeMap.Marked() == Marks(old(disk.Image())) + Elems(added)
    {
      ghost var d0, h := disk.Image(), hdr.headerSector;
      LiveFile(d0, owner, Marks(d0), h);
      assert Elems(Layout()) <= Owned(d0, h);
      added := Enlarge(freeMap, numBytes);
      ghost var d1 := disk.Image();
      hdr.WriteBack(disk, hdr.headerSector);
      GrowthBegun(d0, d1, owner, h, hdr.Value(), added, disk.Image());
    }

    // And then the map, through a handle of its own that is closed.
    method StoreMap(freeMap: BitMap, mapFile: OpenFile, ghost d0: Image, ghost owner: Owners, ghost added: seq<int>)
      requires Valid() && Laid(d0, owner) && Live(owner, hdr.headerSector) && hdr.headerSector != FREE_MAP_SECTOR
      requires Begun(d0, disk.Image(), owner, hdr.headerSector, hdr.Value(), added)
      requires mapFile.disk == disk && mapFile.hdr != hdr && mapFile.hdr.dataSectors != hdr.dataSectors
      requires mapFile.IsFreeMap() && freeMap.Valid() && freeMap.numBits == NUM_SECTORS
      requires freeMap.Marked() == Marks(d0) + Elems(added)
      modifies disk.sectors, mapFile.hdr, mapFile.hdr.dataSectors
      ensures Valid() && hdr.Value() == old(hdr.Value()) && hdr.headerSector == old(hdr.headerSector)
      ensures GrownOnDisk(d0, disk.Image(), owner, hdr.headerSector, hdr.Value(), added)
      ensures ContentsAt(d0, hdr.headerSector) <= Text()
      decreases 3
    {
      ghost var d2, h, h1 := disk.Image(), hdr.headerSector, hdr.Value();
      mapFile.WriteMapAndClose(freeMap, Assign(owner, Elems(added), h));
      assert hdr.Value() == h1;
      GrowthDone(d0, owner, h, h1, added, d2, disk.Image());
    }

    method Extend(numBytes: int32, ghost owner: Owners) returns (ghost added: seq<int>)
      requires Valid() && Expandable(owner, numBytes)
      modifies disk.sectors, hdr, hdr.dataSectors
      ensures Valid() && hdr.headerSector == old(hdr.headerSector) && hdr.numBytes == old(hdr.numBytes) + numBytes
      ensures GrownOnDisk(old(disk.Image()), disk.Image(), owner, hdr.headerSector, hdr.Value(), added)
      ensures old(Text()) <= Text()
      decreases 4
    {
      ghost var d0 := disk.Image();
      var freeMap, mapFile := OpenMap(disk, owner);
      added := EnlargeOnDisk(freeMap, numBytes, owner);
      assert mapFile.hdr.Value() == HeaderAt(d0, FREE_MAP_SECTOR);
      StoreMap(freeMap, mapFile, d0, owner, added);
    }

    // A write past the end of the file.
    method WriteBeyond(from: array<byte>, numBytes: int32, position: nat31, ghost owner: Owners)
        returns (count: nat, ghost added: seq<int>)
      requires position + numBytes < 0x8000_0000
      requires Valid() && Separate(from) && numBytes <= from.Length && Expandable(owner, numBytes)
      modifies disk.sectors, hdr, hdr.dataSectors
      ensures Valid() && hdr.headerSector == old(hdr.headerSector) && hdr.numBytes == old(hdr.numBytes) + numBytes
      ensures count == Moved(hdr.numBytes, numBytes, position) && count <= from.Length
      ensures from[..] == old(from[..]) && Rewritten(old(Text()), Text(), position, from[..count])
      ensures GrownOnDisk(old(disk.Image()), disk.Image(), owner, hdr.headerSector, hdr.Value(), added)
      decreases 5
    {
      added := Extend(numBytes, owner);
      ghost var d1, grown := disk.Image(), Text();
      count := Overwrite(from, numBytes, position);
      PatchRewrites(old(Text()), grown, position, from[..count]);
      GrownThenWritten(old(disk.Image()), d1, owner, hdr.headerSector, hdr.Value(), added, disk.Image());
    }

    // Writes numBytes bytes at position, growing the file when they reach past its end.
    method WriteAt(from: array<byte>, numBytes: int32, position: nat31, ghost owner: Owners)
        returns (count: nat, ghost added: seq<int>)
      requires position + numBytes < 0x8000_0000
      requires Valid() && Separate(from) && numBytes <= from.Length
      requires position + numBytes > hdr.numBytes ==> Expandable(owner, numBytes)
      modifies disk.sectors, hdr, hdr.dataSectors
      ensures Valid() && hdr.headerSector == old(hdr.headerSector) && from[..] == old(from[..])
      ensures |Text()| == LengthAfter(old(hdr.numBytes), numBytes, position)
      ensures count == Moved(|Text()|, numBytes, position) && count <= from.Length
      ensures |Text()| == if position + numBytes > old(hdr.numBytes) then old(hdr.numBytes) + numBytes
                          else old(hdr.numBytes)
      // the bytes written are there, and every old byte outside the range
      ensures Rewritten(old(Text()), Text(), position, from[..count])
      ensures numBytes > 0 && position + numBytes <= |Text()| ==> count == numBytes
      ensures forall k | position <= k < position + count :: k < |Text()| && Text()[k] == from[k - position]
      ensures forall k | 0 <= k < |old(Text())| && !(position <= k < position + count) ::
        Text()[k] == old(Text())[k]
      // within the file nothing else changes; past its end the disk stays in order
      ensures position + numBytes <= old(hdr.numBytes) ==>
        hdr.Value() == old(hdr.Value()) && Layout() == old(Layout()) &&
        OnlyDataWritten(old(disk.Image()), disk.Image(), Layout())
      ensures position + numBytes > old(hdr.numBytes) ==>
        GrownOnDisk(old(disk.Image()), disk.Image(), owner, hdr.headerSector, hdr.Value(), added)
      decreases if position + numBytes > hdr.numBytes then 6 else 0
    {
      ghost var before := Text();
      if position + numBytes > hdr.numBytes {
        count, added := WriteBeyond(from, numBytes, position, owner);
      } else {
        ghost var text := Text();
        count := Overwrite(from, numBytes, position);
        PatchRewrites(text, text, position, from[..count]);
        added := [];
      }
      RewrittenMeans(before, Text(), position, from[..count]);
    }

    // ------------------------------------------------------------ at the seek position

    method Seek(position: int32)
      modifies this`seekPosition
      ensures seekPosition == position
    {
      seekPosition := position;
    }

    method Read(into: array<byte>, numBytes: int32) returns (count: nat)
      requires seekPosition + numBytes < 0x8000_0000
      requires Valid() && Separate(into) && seekPosition >= 0 &&
        Moved(hdr.numBytes, numBytes, seekPosition) <= into.Length
      modifies into, this`seekPosition
      ensures Text() == old(Text()) && count == Moved(hdr.numBytes, numBytes, old(seekPosition)) && count <= into.Length
      ensures into[..count] == Part(Text(), old(seekPosition), count) && seekPosition == old(seekPosition) + count
    {
      count := ReadAt(into, 0, numBytes, seekPosition);
      seekPosition := seekPosition + count;
    }

    method Write(from: array<byte>, numBytes: int32, ghost owner: Owners) returns (count: nat, ghost added: seq<int>)
      requires seekPosition + numBytes < 0x8000_0000
      requires Valid() && Separate(from) && numBytes <= from.Length && seekPosition >= 0
      requires seekPosition + numBytes > hdr.numBytes ==> Expandable(owner, numBytes)
      modifies disk.sectors, hdr, hdr.dataSectors, this`seekPosition
      ensures Valid() && |Text()| == LengthAfter(old(hdr.numBytes), numBytes, old(seekPosition))
      ensures count == Moved(|Text()|, numBytes, old(seekPosition)) && count <= from.Length
      ensures Rewritten(old(Text()), Text(), old(seekPosition), from[..count])
      ensures seekPosition == old(seekPosition) + count
    {
      count, added := WriteAt(from, numBytes, seekPosition, owner);
      seekPosition := seekPosition + count;
    }
  }

  // The free map, loaded through a new handle on its file.
  method OpenMap(disk: SectorDisk, ghost owner: Owners) returns (freeMap: BitMap, mapFile: OpenFile)
    requires disk.Valid() && Laid(disk.Image(), owner)
    ensures fresh(freeMap) && fresh(freeMap.bits) && fresh(mapFile) && fresh(mapFile.hdr) &&
      fresh(mapFile.hdr.dataSectors)
    ensures mapFile.disk == disk && mapFile.IsFreeMap()
    ensures freeMap.Valid() && freeMap.numBits == NUM_SECTORS && freeMap.Marked() == Marks(disk.Image())
    ensures freeMap.bits as object != disk.sectors && freeMap.bits as object != mapFile.hdr.dataSectors
  {
    LiveFile(disk.Image(), owner, Marks(disk.Image()), FREE_MAP_SECTOR);
    freeMap := new BitMap(NUM_SECTORS);
    mapFile := new OpenFile(disk, FREE_MAP_SECTOR);
    mapFile.FetchMap(freeMap);
  }
}
