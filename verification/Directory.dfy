/**
 Directories (filesys/directory.cc): a table of ten entries, kept in a file.
 */
module DirectoryEntries {
  import opened WordBits
  import opened SectorDisks

  const FILE_NAME_MAX := 85
  const NUM_DIR_ENTRIES := 10
  const ENTRY_SIZE := 96
  const DIRECTORY_FILE_SIZE := ENTRY_SIZE * NUM_DIR_ENTRIES

  // char name[FileNameMaxLen + 1]
  type NameField = s: seq<byte> | |s| == FILE_NAME_MAX + 1 witness seq(FILE_NAME_MAX + 1, _ => 0)

  datatype DirectoryEntry = DirectoryEntry(inUse: bool, sector: int32, name: NameField)

  // The characters that strncmp and strncpy look at: up to the first NUL, at most n.
  function Key(s: seq<byte>, n: nat): (r: seq<byte>)
    ensures |r| <= n && |r| <= |s| && r == s[..|r|]
  {
    if n == 0 || s == [] || s[0] == 0 then [] else [s[0]] + Key(s[1..], n - 1)
  }

  // None of them is a NUL, and they end at the first NUL, at the end of the name or at n.
  lemma {:induction false} KeyMeans(s: seq<byte>, n: nat)
    ensures forall k | 0 <= k < |Key(s, n)| :: s[k] != 0
    ensures |Key(s, n)| < n && |Key(s, n)| < |s| ==> s[|Key(s, n)|] == 0
    ensures Key(s, n) == s[..|Key(s, n)|]
  {
    if n > 0 && s != [] && s[0] != 0 {
      KeyMeans(s[1..], n - 1);
    }
  }

  // strncpy(field, name, FileNameMaxLen): pads with NULs, and leaves the last char alone.
  function Copied(name: seq<byte>, field: NameField): NameField
  {
    var key := Key(name, FILE_NAME_MAX);
    key + seq(FILE_NAME_MAX - |key|, _ => 0) + [field[FILE_NAME_MAX]]
  }

  lemma {:induction false} KeyPadded(s: seq<byte>, n: nat, rest: seq<byte>)
    requires |Key(s, n)| < n ==> rest != [] && rest[0] == 0
    ensures Key(Key(s, n) + rest, n) == Key(s, n)
  {
    if n > 0 && s != [] && s[0] != 0 {
      assert (Key(s, n) + rest)[1..] == Key(s[1..], n - 1) + rest;
      KeyPadded(s[1..], n - 1, rest);
    }
  }

  // A stored name compares equal to the name it was copied from.
  lemma KeyCopied(name: seq<byte>, field: NameField)
    ensures Key(Copied(name, field), FILE_NAME_MAX) == Key(name, FILE_NAME_MAX)
  {
    var key := Key(name, FILE_NAME_MAX);
    var rest := seq(FILE_NAME_MAX - |key|, _ => 0) + [field[FILE_NAME_MAX]];
    assert Copied(name, field) == key + rest;
    KeyPadded(name, FILE_NAME_MAX, rest);
  }

  // ---------------------------------------------------------------- names to sectors

  predicate Names(e: DirectoryEntry, key: seq<byte>)
  {
    e.inUse && Key(e.name, FILE_NAME_MAX) == key
  }

  predicate Unused(t: seq<DirectoryEntry>)
  {
    forall i | 0 <= i < |t| :: !t[i].inUse
  }

  predicate Full(t: seq<DirectoryEntry>)
  {
    forall i | 0 <= i < |t| :: t[i].inUse
  }

  // No two entries in use have the same name.
  ghost predicate Distinct(t: seq<DirectoryEntry>)
  {
    forall i, j {:trigger Names(t[j], Key(t[i].name, FILE_NAME_MAX))} | 0 <= i < j < |t| && t[i].inUse ::
      !Names(t[j], Key(t[i].name, FILE_NAME_MAX))
  }

  // The index of the first entry with that name; |t| if there is none.
  function IndexOf(t: seq<DirectoryEntry>, key: seq<byte>): (i: nat)
    ensures i <= |t| && (i < |t| ==> Names(t[i], key))
    ensures forall j {:trigger Names(t[j], key)} | 0 <= j < i :: !Names(t[j], key)
  {
    if t == [] then 0 else if Names(t[0], key) then 0 else 1 + IndexOf(t[1..], key)
  }

  // What the directory stands for: a partial function from names to the sectors of headers.
  predicate HasName(t: seq<DirectoryEntry>, name: seq<byte>)
  {
    IndexOf(t, Key(name, FILE_NAME_MAX)) < |t|
  }

  // The sector that a name stands for; -1 if none.
  function Lookup(t: seq<DirectoryEntry>, name: seq<byte>): int
  {
    if HasName(t, name) then t[IndexOf(t, Key(name, FILE_NAME_MAX))].sector else -1
  }

  lemma IndexOfUnique(t: seq<DirectoryEntry>, key: seq<byte>, i: nat)
    requires Distinct(t) && i < |t| && Names(t[i], key)
    ensures IndexOf(t, key) == i
  {
    forall k | 0 <= k < i
      ensures !Names(t[k], key)
    {
      assert Names(t[i], Key(t[k].name, FILE_NAME_MAX)) <==> Key(t[k].name, FILE_NAME_MAX) == key;
    }
  }

  // ---------------------------------------------------------------- in a file

  function EncodeEntry(e: DirectoryEntry): (r: seq<byte>)
    ensures |r| == ENTRY_SIZE
  {
    BytesOf([if e.inUse then 1 else 0, Unsigned(e.sector)]) + e.name + [0, 0]
  }

  function DecodeEntry(b: seq<byte>): DirectoryEntry
    requires |b| == ENTRY_SIZE
  {
    DirectoryEntry(b[0] != 0, Signed(WordFrom(b[4], b[5], b[6], b[7])), b[8..94])
  }

  // Where the fields lie: whether in use in the first byte, the sector in bytes 4 to 7, and
  // the name behind.
  lemma EntryFields(e: DirectoryEntry)
    ensures var b := EncodeEntry(e);
      && (b[0] != 0 <==> e.inUse) && WordFrom(b[4], b[5], b[6], b[7]) == Unsigned(e.sector)
      && b[8..8 + |e.name|] == e.name
  {
    var words := [if e.inUse then 1 else 0, Unsigned(e.sector)];
    assert BytesOf(words)[4..] == BytesOf(words[1..]);
    WordOfItsBytes(Unsigned(e.sector));
  }

  lemma EntryRoundTrip(e: DirectoryEntry)
    ensures DecodeEntry(EncodeEntry(e)) == e
  {
    var words := [if e.inUse then 1 else 0, Unsigned(e.sector)];
    var b := EncodeEntry(e);
    assert BytesOf(words) == b[..8];
    assert BytesOf(words)[4..] == BytesOf(words[1..]);
    assert b[8..94] == e.name;
    WordOfItsBytes(Unsigned(e.sector));
  }

  function EncodeTable(t: seq<DirectoryEntry>): (r: seq<byte>)
    ensures |r| == ENTRY_SIZE * |t|
  {
    if t == [] then [] else EncodeEntry(t[0]) + EncodeTable(t[1..])
  }

  function DecodeTable(b: seq<byte>): (t: seq<DirectoryEntry>)
    ensures |t| == |b| / ENTRY_SIZE
  {
    if |b| < ENTRY_SIZE then [] else [DecodeEntry(b[..ENTRY_SIZE])] + DecodeTable(b[ENTRY_SIZE..])
  }

  // A directory written to its file is read back unchanged.
  lemma {:induction false} TableRoundTrip(t: seq<DirectoryEntry>)
    ensures DecodeTable(EncodeTable(t)) == t
  {
    if t != [] {
      var b := EncodeTable(t);
      assert b[..ENTRY_SIZE] == EncodeEntry(t[0]) && b[ENTRY_SIZE..] == EncodeTable(t[1..]);
      EntryRoundTrip(t[0]);
      TableRoundTrip(t[1..]);
    }
  }
}

module Directories {
  import opened WordBits
  import opened SectorDisks
  import opened FileLayout
  import opened FileBytes
  import opened OpenFiles
  import opened DirectoryEntries

  class Directory {
    const table: array<DirectoryEntry>

    constructor ()
      ensures fresh(table) && table.Length == NUM_DIR_ENTRIES
      ensures forall i | 0 <= i < table.Length :: !table[i].inUse
    {
      table := new DirectoryEntry[NUM_DIR_ENTRIES](_ => DirectoryEntry(false, 0, seq(FILE_NAME_MAX + 1, _ => 0)));
    }

    ghost function Entries(): seq<DirectoryEntry>
      reads table
    {
      table[..]
    }

    method FetchFrom(file: OpenFile)
      requires file.Valid() && file.hdr.numBytes == DIRECTORY_FILE_SIZE && table.Length == NUM_DIR_ENTRIES
      modifies table
      ensures Entries() == DecodeTable(file.Text())
    {
      var bytes := new byte[DIRECTORY_FILE_SIZE];
      file.ReadWhole(bytes);
      var entries := DecodeTable(bytes[..]);
      forall i | 0 <= i < NUM_DIR_ENTRIES {
        table[i] := entries[i];
      }
    }

    method WriteBack(file: OpenFile, ghost owner: Owners, ghost m: set<int>)
      requires file.Current() && file.hdr.numBytes == DIRECTORY_FILE_SIZE && table.Length == NUM_DIR_ENTRIES
      requires Tidy(file.disk.Image(), owner, m) && Live(owner, file.hdr.headerSector)
      modifies file.disk.sectors, file.hdr, file.hdr.dataSectors
      ensures file.Current() && file.hdr.headerSector == old(file.hdr.headerSector) &&
        file.hdr.Value() == old(file.hdr.Value())
      ensures Tidy(file.disk.Image(), owner, m)
      ensures OthersSame(old(file.disk.Image()), file.disk.Image(), owner, {file.hdr.headerSector})
      ensures ChainAt(file.disk.Image(), file.hdr.headerSector) ==
        ChainAt(old(file.disk.Image()), file.hdr.headerSector)
      ensures DecodeTable(ContentsAt(file.disk.Image(), file.hdr.headerSector)) == old(Entries())
    {
      ghost var d0, entries := file.disk.Image(), Entries();
      var bytes := new byte[DIRECTORY_FILE_SIZE];
      Place(bytes, 0, EncodeTable(table[..]));
      var count, _ := file.WriteAt(bytes, DIRECTORY_FILE_SIZE, 0, owner);
      TidyData(d0, file.disk.Image(), owner, m, file.hdr.headerSector);
      assert file.Text() == EncodeTable(entries);
      TableRoundTrip(entries);
    }

    // The index of a name in the table; -1 if it is not there.
    method FindIndex(name: seq<byte>) returns (r: int)
      ensures r == if HasName(Entries(), name) then IndexOf(Entries(), Key(name, FILE_NAME_MAX)) else -1
      // the first entry in use whose name compares equal
      ensures -1 <= r < table.Length
      ensures r >= 0 ==> table[r].inUse && Key(table[r].name, FILE_NAME_MAX) == Key(name, FILE_NAME_MAX)
      ensures forall j | 0 <= j < (if r == -1 then table.Length else r) ::
        !(table[j].inUse && Key(table[j].name, FILE_NAME_MAX) == Key(name, FILE_NAME_MAX))
    {
      for i := 0 to table.Length
        invariant forall j | 0 <= j < i :: !Names(Entries()[j], Key(name, FILE_NAME_MAX))
      {
        if table[i].inUse && Key(table[i].name, FILE_NAME_MAX) == Key(name, FILE_NAME_MAX) {
          assert Names(Entries()[i], Key(name, FILE_NAME_MAX));
          return i;
        }
      }
      return -1;
    }

    method Find(name: seq<byte>) returns (sector: int)
      ensures sector == Lookup(Entries(), name)
      ensures sector == -1 ||
        exists i :: 0 <= i < table.Length && table[i].inUse && table[i].sector == sector &&
                    Key(table[i].name, FILE_NAME_MAX) == Key(name, FILE_NAME_MAX)
    {
      var i := FindIndex(name);
      return if i != -1 then table[i].sector else -1;
    }

    // Takes the first entry not in use.
    method Add(name: seq<byte>, newSector: int32) returns (ok: bool)
      requires Distinct(Entries())
      modifies table
      ensures ok <==> !HasName(old(Entries()), name) && exists i :: 0 <= i < table.Length && !old(table[i]).inUse
      ensures !ok ==> Entries() == old(Entries())
      ensures ok ==> exists i :: AddedAt(old(Entries()), Entries(), i, name, newSector)
      // the name stands for the sector, in the first entry that was not in use
      ensures ok ==> Lookup(Entries(), name) == newSector
      ensures ok ==> forall i | 0 <= i < table.Length ::
        if old(table[i]).inUse || exists j :: 0 <= j < i && !old(table[j]).inUse then table[i] == old(table[i])
        else table[i] == DirectoryEntry(true, newSector, Copied(name, old(table[i]).name))
      ensures Distinct(Entries())
    {
      ghost var t := Entries();
      var found := FindIndex(name);
      if found != -1 {
        return false;
      }
      for i := 0 to table.Length
        invariant Entries() == t && forall j | 0 <= j < i :: t[j].inUse
      {
        if !table[i].inUse {
          table[i] := DirectoryEntry(true, newSector, Copied(name, table[i].name));
          assert AddedAt(t, Entries(), i, name, newSector);
          AddedDistinct(t, Entries(), i, name, newSector);
          AddedLookup(t, Entries(), i, name, newSector, name);
          return true;
        }
      }
      return false;
    }

    method Remove(name: seq<byte>) returns (ok: bool)
      modifies table
      ensures ok <==> HasName(old(Entries()), name)
      ensures !ok ==> Entries() == old(Entries())
      ensures ok ==> RemovedAt(old(Entries()), Entries(), IndexOf(old(Entries()), Key(name, FILE_NAME_MAX)))
      ensures ok ==> forall i | 0 <= i < table.Length ::
        table[i] == if i == IndexOf(old(Entries()), Key(name, FILE_NAME_MAX)) then old(table[i]).(inUse := false)
                    else old(table[i])
    {
      var i := FindIndex(name);
      if i == -1 {
        return false;
      }
      table[i] := table[i].(inUse := false);
      return true;
    }

    method IsEmpty() returns (empty: bool)
      ensures empty <==> forall i | 0 <= i < table.Length :: !table[i].inUse
    {
      for i := 0 to table.Length
        invariant forall j | 0 <= j < i :: !table[j].inUse
      {
        if table[i].inUse {
          return false;
        }
      }
      return true;
    }
  }

  // The entry of a new name, the first that was not in use.
  ghost predicate AddedAt(t0: seq<DirectoryEntry>, t1: seq<DirectoryEntry>, i: int, name: seq<byte>, sector: int32)
  {
    && 0 <= i < |t0| && !t0[i].inUse && (forall j | 0 <= j < i :: t0[j].inUse)
    && t1 == t0[i := DirectoryEntry(true, sector, Copied(name, t0[i].name))]
  }

  ghost predicate RemovedAt(t0: seq<DirectoryEntry>, t1: seq<DirectoryEntry>, i: int)
  {
    0 <= i < |t0| && t0[i].inUse && t1 == t0[i := t0[i].(inUse := false)]
  }

  lemma AddedDistinct(t0: seq<DirectoryEntry>, t1: seq<DirectoryEntry>, i: int, name: seq<byte>, sector: int32)
    requires Distinct(t0) && AddedAt(t0, t1, i, name, sector) && !HasName(t0, name)
    ensures Distinct(t1)
  {
    KeyCopied(name, t0[i].name);
    assert forall j | 0 <= j < |t0| :: !Names(t0[j], Key(name, FILE_NAME_MAX));
    forall j, k | 0 <= j < k < |t1| && t1[j].inUse
      ensures !Names(t1[k], Key(t1[j].name, FILE_NAME_MAX))
    {
      if k == i {
        assert !Names(t0[j], Key(name, FILE_NAME_MAX));
      } else if j != i {
        assert !Names(t0[k], Key(t0[j].name, FILE_NAME_MAX));
      }
    }
  }

  // Adding and removing entries are updates of what the directory stands for.
  lemma AddedLookup(t0: seq<DirectoryEntry>, t1: seq<DirectoryEntry>, i: int, name: seq<byte>, sector: int32,
                    n: seq<byte>)
    requires Distinct(t0) && Distinct(t1) && AddedAt(t0, t1, i, name, sector)
    ensures var added := Key(n, FILE_NAME_MAX) == Key(name, FILE_NAME_MAX);
      && (HasName(t1, n) <==> HasName(t0, n) || added)
      && Lookup(t1, n) == if added then sector else Lookup(t0, n)
  {
    var key := Key(n, FILE_NAME_MAX);
    KeyCopied(name, t0[i].name);
    assert Names(t1[i], Key(name, FILE_NAME_MAX));
    assert forall j | 0 <= j < |t0| && j != i :: Names(t1[j], key) <==> Names(t0[j], key);
    if key == Key(name, FILE_NAME_MAX) {
      IndexOfUnique(t1, key, i);
    } else if HasName(t0, n) {
      IndexOfUnique(t1, key, IndexOf(t0, key));
    }
  }

  lemma RemovedLookup(t0: seq<DirectoryEntry>, t1: seq<DirectoryEntry>, i: int, n: seq<byte>)
    requires Distinct(t0) && RemovedAt(t0, t1, i)
    ensures var removed := Key(n, FILE_NAME_MAX) == Key(t0[i].name, FILE_NAME_MAX);
      && (HasName(t1, n) <==> HasName(t0, n) && !removed)
      && Lookup(t1, n) == if removed then -1 else Lookup(t0, n)
    ensures Distinct(t1)
  {
    var key := Key(n, FILE_NAME_MAX);
    assert forall j | 0 <= j < |t0| && j != i :: Names(t1[j], key) <==> Names(t0[j], key);
    if key == Key(t0[i].name, FILE_NAME_MAX) {
      IndexOfUnique(t0, key, i);
    } else if HasName(t0, n) {
      IndexOfUnique(t1, key, IndexOf(t0, key));
    }
  }
}
