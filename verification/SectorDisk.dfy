/**
 The disk as the file system sees it through SynchDisk: an array of fixed-size byte
 sectors (filesys/synchdisk.cc, machine/disk.h), and the little-endian views of a
 byte buffer that the casts to (char*) amount to.
 */
module SectorDisks {
  import opened WordBits

  const SECTOR_SIZE := 128
  const NUM_SECTORS := 1024
  const WORDS_PER_SECTOR := 32

  type byte = b: int | 0 <= b < 256

  type Sector = s: seq<byte> | |s| == SECTOR_SIZE witness seq(SECTOR_SIZE, _ => 0)
  function Blank(): Sector
  {
    seq(SECTOR_SIZE, _ => 0)
  }

  type Image = d: seq<Sector> | |d| == NUM_SECTORS witness seq<Sector>(NUM_SECTORS, _ => Blank())

  // The same disk with every sector read as an int[LevelNum] table.
  type Table = t: seq<int32> | |t| == WORDS_PER_SECTOR witness seq<int32>(WORDS_PER_SECTOR, _ => 0)
  function Zeros(): Table
  {
    seq<int32>(WORDS_PER_SECTOR, _ => 0)
  }

  type View = v: seq<Table> | |v| == NUM_SECTORS witness seq<Table>(NUM_SECTORS, _ => Zeros())

  // ---------------------------------------------------------------- words in a buffer

  function ByteOf(w: word, k: nat): byte
    requires k < 4
  {
    if k == 0 then w % 0x100
    else if k == 1 then w / 0x100 % 0x100
    else if k == 2 then w / 0x1_0000 % 0x100
    else w / 0x100_0000
  }

  function WordFrom(b0: byte, b1: byte, b2: byte, b3: byte): word
  {
    b0 + 0x100 * b1 + 0x1_0000 * b2 + 0x100_0000 * b3
  }

  // The bytes of a word have the weights 1, 2^8, 2^16 and 2^24.
  lemma ByteWeights(w: word)
    ensures w == ByteOf(w, 0) + 0x100 * ByteOf(w, 1) + 0x1_0000 * ByteOf(w, 2) + 0x100_0000 * ByteOf(w, 3)
  {
    assert w / 0x1_0000 == w / 0x100 / 0x100 && w / 0x100_0000 == w / 0x1_0000 / 0x100;
  }

  function BytesOf(words: seq<word>): (r: seq<byte>)
    ensures |r| == 4 * |words|
  {
    if words == [] then [] else
      var w := words[0];
      [ByteOf(w, 0), ByteOf(w, 1), ByteOf(w, 2), ByteOf(w, 3)] + BytesOf(words[1..])
  }

  function WordsOf(bytes: seq<byte>): (r: seq<word>)
    ensures |r| == |bytes| / 4
  {
    if |bytes| < 4 then [] else [WordFrom(bytes[0], bytes[1], bytes[2], bytes[3])] + WordsOf(bytes[4..])
  }

  lemma WordOfItsBytes(w: word)
    ensures WordFrom(ByteOf(w, 0), ByteOf(w, 1), ByteOf(w, 2), ByteOf(w, 3)) == w
  {
    assert w / 0x1_0000 == w / 0x100 / 0x100 && w / 0x100_0000 == w / 0x1_0000 / 0x100;
  }

  // Words stored in a buffer are loaded again unchanged.
  lemma {:induction false} WordsOfBytesOf(words: seq<word>)
    ensures WordsOf(BytesOf(words)) == words
  {
    if words != [] {
      WordOfItsBytes(words[0]);
      assert BytesOf(words)[4..] == BytesOf(words[1..]);
      WordsOfBytesOf(words[1..]);
    }
  }

  function WordsOfInts(ints: seq<int32>): (r: seq<word>)
    ensures |r| == |ints|
  {
    if ints == [] then [] else [Unsigned(ints[0])] + WordsOfInts(ints[1..])
  }

  function IntsOfWords(words: seq<word>): (r: seq<int32>)
    ensures |r| == |words|
  {
    if words == [] then [] else [Signed(words[0])] + IntsOfWords(words[1..])
  }

  lemma {:induction false} IntsOfWordsOfInts(ints: seq<int32>)
    ensures IntsOfWords(WordsOfInts(ints)) == ints
  {
    if ints != [] {
      IntsOfWordsOfInts(ints[1..]);
    }
  }

  function TableOf(s: Sector): Table
  {
    IntsOfWords(WordsOf(s))
  }

  function SectorOf(t: Table): Sector
  {
    BytesOf(WordsOfInts(t))
  }

  // A table written to a sector is read back unchanged, negative entries included.
  lemma TableOfSectorOf(t: Table)
    ensures TableOf(SectorOf(t)) == t
  {
    WordsOfBytesOf(WordsOfInts(t));
    IntsOfWordsOfInts(t);
  }

  function ViewOf(d: Image): (v: View)
    ensures forall s | 0 <= s < NUM_SECTORS :: v[s] == TableOf(d[s])
  {
    seq<Table>(NUM_SECTORS, s requires 0 <= s < NUM_SECTORS => TableOf(d[s]))
  }

  // Entry k of the table held in sector s; -1 when s is no sector.
  function Entry(v: View, s: int, k: nat): int32
    requires k < WORDS_PER_SECTOR
  {
    if 0 <= s < NUM_SECTORS then v[s][k] else -1
  }

  // ---------------------------------------------------------------- the disk

  class SectorDisk {
    const sectors: array<Sector>

    ghost predicate Valid()
    {
      sectors.Length == NUM_SECTORS
    }

    ghost function Image(): Image
      requires Valid()
      reads sectors
    {
      sectors[..]
    }

    ghost function Tables(): View
      requires Valid()
      reads sectors
    {
      ViewOf(Image())
    }

    constructor ()
      ensures Valid() && fresh(sectors)
    {
      sectors := new Sector[NUM_SECTORS];
    }

    method ReadSector(sectorNumber: int) returns (data: Sector)
      requires Valid() && 0 <= sectorNumber < NUM_SECTORS
      ensures data == Image()[sectorNumber]
    {
      data := sectors[sectorNumber];
    }

    method WriteSector(sectorNumber: int, data: Sector)
      requires Valid() && 0 <= sectorNumber < NUM_SECTORS
      modifies sectors
      ensures Image() == old(Image())[sectorNumber := data]
    {
      sectors[sectorNumber] := data;
    }

    // ReadSector and WriteSector on an int[LevelNum] buffer.
    method ReadTable(sectorNumber: int, table: array<int32>)
      requires Valid() && 0 <= sectorNumber < NUM_SECTORS
      requires table.Length == WORDS_PER_SECTOR
      modifies table
      ensures table[..] == Tables()[sectorNumber]
    {
      var data := ReadSector(sectorNumber);
      var ints := TableOf(data);
      forall k | 0 <= k < WORDS_PER_SECTOR {
        table[k] := ints[k];
      }
    }

    method WriteTable(sectorNumber: int, table: array<int32>)
      requires Valid() && 0 <= sectorNumber < NUM_SECTORS
      requires table.Length == WORDS_PER_SECTOR
      modifies sectors
      ensures Image() == old(Image())[sectorNumber := Image()[sectorNumber]]
      ensures Tables() == old(Tables())[sectorNumber := table[..]]
    {
      WriteSector(sectorNumber, SectorOf(table[..]));
      TableOfSectorOf(table[..]);
    }
  }
}
