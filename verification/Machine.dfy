/**
 Page tables and aligned accesses.
 */
module PageTables {
  const PAGE_SIZE := 128
  const NUM_PHYS_PAGES := 32
  const MEMORY_SIZE := NUM_PHYS_PAGES * PAGE_SIZE
  const TLB_SIZE := 4

  datatype TranslationEntry = TranslationEntry(
    virtualPage: int, physicalPage: int, valid: bool, readOnly: bool, use: bool, dirty: bool)

  datatype Exception = NoException | PageFault | ReadOnlyPage | BusError | AddressError

  predicate Aligned(virtAddr: nat, size: nat)
  {
    (size == 4 ==> virtAddr % 4 == 0) && (size == 2 ==> virtAddr % 2 == 0)
  }

  lemma AlignedMeans(virtAddr: nat, size: nat)
    requires size in {1, 2, 4}
    ensures Aligned(virtAddr, size) <==> virtAddr % size == 0
  {
  }

  lemma WithinPage(virtAddr: nat, size: nat)
    requires Aligned(virtAddr, size) && size in {1, 2, 4}
    ensures virtAddr % PAGE_SIZE + size <= PAGE_SIZE
  {
    var page, offset := virtAddr / PAGE_SIZE, virtAddr % PAGE_SIZE;
    if size == 4 {
      var w := virtAddr / 4;
      assert virtAddr == 4 * w && offset == 4 * (w - 32 * page);
    } else if size == 2 {
      var h := virtAddr / 2;
      assert virtAddr == 2 * h && offset == 2 * (h - 64 * page);
    }
  }
}

/**
 Virtual memory as one address space after another sees it: its own flat sequence of
 bytes, little-endian in the machine's format (machine/translate.cc).
 */
module FlatMemory {
  import opened WordBits
  import opened SectorDisks
  import opened PageTables

  type Memory = m: seq<byte> | |m| == MEMORY_SIZE witness seq<byte>(MEMORY_SIZE, _ => 0)

  ghost predicate MappedAt(table: seq<TranslationEntry>, va: int)
  {
    0 <= va && va / PAGE_SIZE < |table| && table[va / PAGE_SIZE].valid &&
    0 <= table[va / PAGE_SIZE].physicalPage < NUM_PHYS_PAGES
  }

  ghost function Physical(table: seq<TranslationEntry>, va: int): (pa: nat)
    requires MappedAt(table, va)
    ensures pa < MEMORY_SIZE
  {
    table[va / PAGE_SIZE].physicalPage * PAGE_SIZE + va % PAGE_SIZE
  }

  // The byte at a virtual address.
  ghost function VirtualByte(table: seq<TranslationEntry>, mem: Memory, va: int): byte
    requires MappedAt(table, va)
  {
    mem[Physical(table, va)]
  }

  // No frame belongs to two pages, of one space or of two.
  ghost predicate DistinctFrames(spaces: seq<seq<TranslationEntry>>)
  {
    forall r, v, s, u | 0 <= r < |spaces| && 0 <= s < |spaces| && 0 <= v < |spaces[r]| && 0 <= u < |spaces[s]| &&
      spaces[r][v].valid && spaces[s][u].valid && spaces[r][v].physicalPage == spaces[s][u].physicalPage ::
        r == s && v == u
  }

  // The low bytes of a value, in place at a physical address.
  function Stored(mem: Memory, pa: nat, size: nat, value: int32): Memory
    requires size in {1, 2, 4} && pa + size <= MEMORY_SIZE
  {
    var w := Unsigned(value);
    if size == 1 then mem[pa := ByteOf(w, 0)]
    else if size == 2 then mem[pa := ByteOf(w, 0)][pa + 1 := ByteOf(w, 1)]
    else mem[pa := ByteOf(w, 0)][pa + 1 := ByteOf(w, 1)][pa + 2 := ByteOf(w, 2)][pa + 3 := ByteOf(w, 3)]
  }

  // What is read at a physical address: one byte is a signed char.
  function Loaded(mem: Memory, pa: nat, size: nat): int32
    requires size in {1, 2, 4} && pa + size <= MEMORY_SIZE
  {
    if size == 1 then (if mem[pa] >= 0x80 then mem[pa] - 0x100 else mem[pa])
    else if size == 2 then mem[pa] + 0x100 * mem[pa + 1]
    else Signed(WordFrom(mem[pa], mem[pa + 1], mem[pa + 2], mem[pa + 3]))
  }

  // A byte is read with its sign, two bytes without, the first with the smaller weight, and
  // a word has the weight of its second half 2^16 times that of its first.
  lemma LoadedMeans(mem: Memory, pa: nat)
    requires pa + 4 <= MEMORY_SIZE
    ensures -0x80 <= Loaded(mem, pa, 1) < 0x80 && Loaded(mem, pa, 1) % 0x100 == mem[pa]
    ensures Loaded(mem, pa, 2) == Loaded(mem, pa, 1) % 0x100 + 0x100 * (Loaded(mem, pa + 1, 1) % 0x100)
    ensures Unsigned(Loaded(mem, pa, 4)) == Loaded(mem, pa, 2) + 0x1_0000 * Loaded(mem, pa + 2, 2)
  {
  }

  // The value, cut to a size and read back.
  function Cut(value: int32, size: nat): int32
  {
    var w := Unsigned(value);
    if size == 1 then (if w % 0x100 >= 0x80 then w % 0x100 - 0x100 else w % 0x100)
    else if size == 2 then w % 0x1_0000
    else value
  }

  // What is written is read back: all of a word, the low half without its sign, and the
  // low byte with it.
  lemma LoadedStored(mem: Memory, pa: nat, size: nat, value: int32)
    requires size in {1, 2, 4} && pa + size <= MEMORY_SIZE
    ensures Loaded(Stored(mem, pa, size, value), pa, size) == Cut(value, size)
  {
    var w := Unsigned(value);
    if size == 4 {
      WordOfItsBytes(w);
    } else if size == 2 {
      HalfOfItsBytes(w);
    }
  }

  lemma HalfOfItsBytes(w: word)
    ensures ByteOf(w, 0) + 0x100 * ByteOf(w, 1) == w % 0x1_0000
  {
    var q := w / 0x100;
    assert w == 0x100 * q + w % 0x100 && q == 0x100 * (q / 0x100) + q % 0x100;
    assert w == 0x1_0000 * (q / 0x100) + (0x100 * (q % 0x100) + w % 0x100);
  }

  lemma PhysicalOnce(spaces: seq<seq<TranslationEntry>>, r: nat, a: int, s: nat, b: int)
    requires DistinctFrames(spaces) && r < |spaces| && s < |spaces| && MappedAt(spaces[r], a) && MappedAt(spaces[s], b)
    ensures Physical(spaces[r], a) == Physical(spaces[s], b) ==> r == s && a == b
  {
    var p, q := spaces[r][a / PAGE_SIZE].physicalPage, spaces[s][b / PAGE_SIZE].physicalPage;
    assert p * PAGE_SIZE + a % PAGE_SIZE == q * PAGE_SIZE + b % PAGE_SIZE ==> p == q && a % PAGE_SIZE == b % PAGE_SIZE;
    assert a == a / PAGE_SIZE * PAGE_SIZE + a % PAGE_SIZE && b == b / PAGE_SIZE * PAGE_SIZE + b % PAGE_SIZE;
  }

  // Inside a page virtual and physical addresses go up together.
  lemma PhysicalNext(table: seq<TranslationEntry>, va: int, k: nat)
    requires MappedAt(table, va) && va % PAGE_SIZE + k < PAGE_SIZE
    ensures MappedAt(table, va + k) && Physical(table, va + k) == Physical(table, va) + k
  {
    assert va == va / PAGE_SIZE * PAGE_SIZE + va % PAGE_SIZE;
    assert (va + k) / PAGE_SIZE == va / PAGE_SIZE && (va + k) % PAGE_SIZE == va % PAGE_SIZE + k;
  }

  lemma StoredAt(mem: Memory, pa: nat, size: nat, value: int32, at: nat)
    requires size in {1, 2, 4} && pa + size <= MEMORY_SIZE && at < MEMORY_SIZE
    ensures Stored(mem, pa, size, value)[at] ==
            if pa <= at < pa + size then ByteOf(Unsigned(value), at - pa) else mem[at]
  {
  }

  // An aligned write changes the bytes it names in its own space, and no other virtual
  // byte of any space.
  lemma WriteIsFlat(spaces: seq<seq<TranslationEntry>>, s: nat, mem: Memory, va: nat, size: nat, value: int32, r: nat,
                    at: int)
    requires DistinctFrames(spaces) && s < |spaces| && r < |spaces|
    requires MappedAt(spaces[s], va) && Aligned(va, size) && size in {1, 2, 4} && MappedAt(spaces[r], at)
    ensures Physical(spaces[s], va) + size <= MEMORY_SIZE
    ensures VirtualByte(spaces[r], Stored(mem, Physical(spaces[s], va), size, value), at) ==
      if r == s && va <= at < va + size then ByteOf(Unsigned(value), at - va) else VirtualByte(spaces[r], mem, at)
  {
    WithinPage(va, size);
    var pa, target := Physical(spaces[s], va), Physical(spaces[r], at);
    PhysicalNext(spaces[s], va, size - 1);
    StoredAt(mem, pa, size, value, target);
    if r == s && va <= at < va + size {
      PhysicalNext(spaces[s], va, at - va);
    }
    if pa <= target < pa + size {
      PhysicalNext(spaces[s], va, target - pa);
      PhysicalOnce(spaces, s, va + (target - pa), r, at);
    }
  }

  // ---------------------------------------------------------------- runs of accesses

  // A write by an address space.
  datatype Write = Write(space: nat, va: nat, size: nat, value: int32)

  ghost predicate Allowed(spaces: seq<seq<TranslationEntry>>, w: Write)
  {
    w.space < |spaces| && MappedAt(spaces[w.space], w.va) && Aligned(w.va, w.size) && w.size in {1, 2, 4}
  }

  lemma FitsInMemory(table: seq<TranslationEntry>, va: nat, size: nat)
    requires MappedAt(table, va) && Aligned(va, size) && size in {1, 2, 4}
    ensures Physical(table, va) + size <= MEMORY_SIZE
  {
    WithinPage(va, size);
  }

  // The physical memory after a run of writes, by whatever spaces.
  ghost function AfterWrites(spaces: seq<seq<TranslationEntry>>, mem: Memory, writes: seq<Write>): Memory
    requires forall i | 0 <= i < |writes| :: Allowed(spaces, writes[i])
  {
    if writes == [] then mem
    else
      var last := writes[|writes| - 1];
      assert Allowed(spaces, last);
      FitsInMemory(spaces[last.space], last.va, last.size);
      var before := AfterWrites(spaces, mem, writes[..|writes| - 1]);
      Stored(before, Physical(spaces[last.space], last.va), last.size, last.value)
  }

  ghost predicate Covers(w: Write, r: nat, at: int)
  {
    w.space == r && w.va <= at < w.va + w.size && w.size in {1, 2, 4}
  }

  // A byte of a flat memory of space r after the same writes: that of the last write to
  // cover it, or what it was.
  ghost function FlatByte(writes: seq<Write>, r: nat, at: int, was: byte): byte
  {
    if writes == [] then was
    else
      var last := writes[|writes| - 1];
      if Covers(last, r, at) then ByteOf(Unsigned(last.value), at - last.va)
      else FlatByte(writes[..|writes| - 1], r, at, was)
  }

  // Over every run each space behaves as a flat memory of its own.
  lemma {:induction false} RunIsFlat(spaces: seq<seq<TranslationEntry>>, mem: Memory, writes: seq<Write>, r: nat,
                                     at: int)
    requires DistinctFrames(spaces) && r < |spaces| && MappedAt(spaces[r], at)
    requires forall i | 0 <= i < |writes| :: Allowed(spaces, writes[i])
    ensures VirtualByte(spaces[r], AfterWrites(spaces, mem, writes), at) ==
            FlatByte(writes, r, at, VirtualByte(spaces[r], mem, at))
  {
    if writes != [] {
      var before, last := writes[..|writes| - 1], writes[|writes| - 1];
      assert Allowed(spaces, last);
      RunIsFlat(spaces, mem, before, r, at);
      WriteIsFlat(spaces, last.space, AfterWrites(spaces, mem, before), last.va, last.size, last.value, r, at);
    }
  }

  // No byte of the one is a byte of the other.
  ghost predicate Elsewhere(w: Write, v: Write)
  {
    w.space != v.space || w.va + w.size <= v.va || v.va + v.size <= w.va
  }

  lemma {:induction false} ByteKept(first: Write, later: seq<Write>, at: int, was: byte)
    requires Covers(first, first.space, at) && forall i | 0 <= i < |later| :: Elsewhere(later[i], first)
    ensures FlatByte([first] + later, first.space, at, was) == ByteOf(Unsigned(first.value), at - first.va)
  {
    var writes := [first] + later;
    if later != [] {
      assert writes[..|writes| - 1] == [first] + later[..|later| - 1];
      ByteKept(first, later[..|later| - 1], at, was);
    }
  }

  // The bytes of a value, from a physical address on.
  ghost predicate HasBytes(mem: Memory, pa: nat, size: nat, value: int32)
    requires size in {1, 2, 4} && pa + size <= MEMORY_SIZE
  {
    forall k | pa <= k < pa + size :: mem[k] == ByteOf(Unsigned(value), k - pa)
  }

  lemma LoadedBytes(mem: Memory, pa: nat, size: nat, value: int32)
    requires size in {1, 2, 4} && pa + size <= MEMORY_SIZE && HasBytes(mem, pa, size, value)
    ensures Loaded(mem, pa, size) == Cut(value, size)
  {
    var w := Unsigned(value);
    assert mem[pa] == ByteOf(w, 0);
    if size == 4 {
      WordOfItsBytes(w);
    } else if size == 2 {
      HalfOfItsBytes(w);
    }
  }

  // What is written is read back, cut to its size, whatever was written elsewhere in the
  // same or in other spaces in between.
  lemma ReadBackLater(spaces: seq<seq<TranslationEntry>>, mem: Memory, w: Write, later: seq<Write>)
    requires DistinctFrames(spaces) && Allowed(spaces, w)
    requires forall i | 0 <= i < |later| :: Allowed(spaces, later[i]) && Elsewhere(later[i], w)
    ensures var pa := Physical(spaces[w.space], w.va);
      pa + w.size <= MEMORY_SIZE && Loaded(AfterWrites(spaces, mem, [w] + later), pa, w.size) == Cut(w.value, w.size)
  {
    var pa, m1 := Physical(spaces[w.space], w.va), AfterWrites(spaces, mem, [w] + later);
    FitsInMemory(spaces[w.space], w.va, w.size);
    forall k | pa <= k < pa + w.size
      ensures m1[k] == ByteOf(Unsigned(w.value), k - pa)
    {
      ByteLater(spaces, mem, w, later, k - pa);
    }
    LoadedBytes(m1, pa, w.size, w.value);
  }

  lemma ByteLater(spaces: seq<seq<TranslationEntry>>, mem: Memory, w: Write, later: seq<Write>, k: nat)
    requires DistinctFrames(spaces) && Allowed(spaces, w) && k < w.size
    requires forall i | 0 <= i < |later| :: Allowed(spaces, later[i]) && Elsewhere(later[i], w)
    ensures Physical(spaces[w.space], w.va) + k < MEMORY_SIZE
    ensures AfterWrites(spaces, mem, [w] + later)[Physical(spaces[w.space], w.va) + k] == ByteOf(Unsigned(w.value), k)
  {
    var table := spaces[w.space];
    AllAllowed(spaces, w, later);
    NextByte(table, w.va, w.size, k);
    FlatByteLater(spaces, mem, w, later, w.va + k);
    AtByte(table, AfterWrites(spaces, mem, [w] + later), w.va, w.size, k);
  }

  lemma AllAllowed(spaces: seq<seq<TranslationEntry>>, w: Write, later: seq<Write>)
    requires Allowed(spaces, w) && forall i | 0 <= i < |later| :: Allowed(spaces, later[i])
    ensures forall i | 0 <= i < |[w] + later| :: Allowed(spaces, ([w] + later)[i])
  {
  }

  lemma FlatByteLater(spaces: seq<seq<TranslationEntry>>, mem: Memory, w: Write, later: seq<Write>, at: int)
    requires DistinctFrames(spaces) && w.space < |spaces| && MappedAt(spaces[w.space], at) && Covers(w, w.space, at)
    requires forall i | 0 <= i < |[w] + later| :: Allowed(spaces, ([w] + later)[i])
    requires forall i | 0 <= i < |later| :: Elsewhere(later[i], w)
    ensures VirtualByte(spaces[w.space], AfterWrites(spaces, mem, [w] + later), at) ==
            ByteOf(Unsigned(w.value), at - w.va)
  {
    RunIsFlat(spaces, mem, [w] + later, w.space, at);
    ByteKept(w, later, at, VirtualByte(spaces[w.space], mem, at));
  }

  lemma AtByte(table: seq<TranslationEntry>, mem: Memory, va: nat, size: nat, k: nat)
    requires MappedAt(table, va) && Aligned(va, size) && size in {1, 2, 4} && k < size
    ensures MappedAt(table, va + k) && Physical(table, va) + k < MEMORY_SIZE
    ensures VirtualByte(table, mem, va + k) == mem[Physical(table, va) + k]
  {
    NextByte(table, va, size, k);
  }

  lemma NextByte(table: seq<TranslationEntry>, va: nat, size: nat, k: nat)
    requires MappedAt(table, va) && Aligned(va, size) && size in {1, 2, 4} && k < size
    ensures MappedAt(table, va + k) && Physical(table, va + k) == Physical(table, va) + k
    ensures Physical(table, va) + k < MEMORY_SIZE
  {
    WithinPage(va, size);
    PhysicalNext(table, va, k);
  }
}

/**
 The translation lookaside buffer as a cache of the current page table, without demand
 paging: machine/translate.cc, the replacement policies of userprog/exception.cc, and the
 flush on a context switch in userprog/addrspace.cc.
 */
module Translation {
  import opened WordBits
  import opened SectorDisks
  import opened PageTables
  import opened FlatMemory

  // The entry caches the page table: it agrees but for the use and dirty bits.
  ghost predicate Agrees(e: TranslationEntry, table: seq<TranslationEntry>)
  {
    && 0 <= e.virtualPage < |table| && table[e.virtualPage].valid
    && e.physicalPage == table[e.virtualPage].physicalPage && e.readOnly == table[e.virtualPage].readOnly
  }

  // Valid entries agree with the table, no two for the same page.
  ghost predicate Caches(tlb: seq<TranslationEntry>, table: seq<TranslationEntry>)
  {
    && (forall i | 0 <= i < |tlb| && tlb[i].valid :: Agrees(tlb[i], table))
    && (forall i, j | 0 <= i < j < |tlb| && tlb[i].valid && tlb[j].valid :: tlb[i].virtualPage != tlb[j].virtualPage)
  }

  // Entry v of a page table is that of virtual page v.
  ghost predicate Numbered(table: seq<TranslationEntry>)
  {
    forall v | 0 <= v < |table| :: table[v].virtualPage == v
  }

  ghost predicate Hit(tlb: seq<TranslationEntry>, vpn: int)
  {
    exists i :: 0 <= i < |tlb| && tlb[i].valid && tlb[i].virtualPage == vpn
  }

  // The pages of the valid entries, in the order of the buffer.
  ghost function Pages(tlb: seq<TranslationEntry>): seq<int>
  {
    if tlb == [] then [] else (if tlb[0].valid then [tlb[0].virtualPage] else []) + Pages(tlb[1..])
  }

  // Valid entries come first.
  ghost predicate Prefix(tlb: seq<TranslationEntry>)
  {
    forall i, j | 0 <= i < j < |tlb| && tlb[j].valid :: tlb[i].valid
  }

  lemma {:induction false} PagesOfParts(s: seq<TranslationEntry>, t: seq<TranslationEntry>)
    ensures Pages(s + t) == Pages(s) + Pages(t)
  {
    if s == [] {
      assert s + t == t;
    } else {
      assert (s + t)[1..] == s[1..] + t;
      PagesOfParts(s[1..], t);
      Joined(if s[0].valid then [s[0].virtualPage] else [], Pages(s[1..]), Pages(t));
    }
  }

  lemma Joined(a: seq<int>, b: seq<int>, c: seq<int>)
    ensures a + (b + c) == a + b + c
  {
  }

  lemma PagesAround(s: seq<TranslationEntry>, i: nat, e: TranslationEntry)
    requires i < |s|
    ensures Pages(s[i := e]) == Pages(s[..i]) + (if e.valid then [e.virtualPage] else []) + Pages(s[i + 1..])
  {
    assert s[i := e] == s[..i] + ([e] + s[i + 1..]);
    PagesOfParts(s[..i], [e] + s[i + 1..]);
    PagesOfParts([e], s[i + 1..]);
    assert Pages([e]) == if e.valid then [e.virtualPage] else [];
  }

  lemma {:induction false} NoPages(s: seq<TranslationEntry>)
    requires forall i | 0 <= i < |s| :: !s[i].valid
    ensures Pages(s) == []
  {
    if s != [] {
      NoPages(s[1..]);
    }
  }

  lemma {:induction false} AllPages(s: seq<TranslationEntry>)
    requires forall i | 0 <= i < |s| :: s[i].valid
    ensures |Pages(s)| == |s|
  {
    if s != [] {
      AllPages(s[1..]);
    }
  }

  // A new entry, in the place of an old one, for a page that was not there.
  lemma Replaced(tlb: seq<TranslationEntry>, table: seq<TranslationEntry>, i: nat, page: TranslationEntry)
    requires Caches(tlb, table) && i < |tlb| && Agrees(page, table) && !Hit(tlb, page.virtualPage) && page.valid
    ensures Caches(tlb[i := page], table) && Hit(tlb[i := page], page.virtualPage)
  {
    assert tlb[i := page][i] == page;
  }

  class Machine {
    const tlb: array<TranslationEntry>
    const mainMemory: array<byte>
    var pageTable: array<TranslationEntry>
    var index: int                         // the hand of the clock

    ghost predicate Valid()
      reads this, tlb, pageTable
    {
      && tlb.Length == TLB_SIZE && tlb != pageTable && 0 <= index < TLB_SIZE && mainMemory.Length == MEMORY_SIZE
      && Caches(tlb[..], pageTable[..])
    }

    constructor (table: array<TranslationEntry>)
      ensures Valid() && pageTable == table && fresh(tlb) && index == 0
      ensures forall i | 0 <= i < TLB_SIZE :: !tlb[i].valid
    {
      tlb := new TranslationEntry[TLB_SIZE](_ => TranslationEntry(0, 0, false, false, false, false));
      pageTable := table;
      mainMemory := new byte[MEMORY_SIZE];
      index := 0;
    }

    // AddrSpace::SaveState and RestoreState: the entries of one space are of no use to
    // the next.
    method SwitchTo(table: array<TranslationEntry>)
      requires Valid() && tlb != table
      modifies this`pageTable, tlb
      ensures Valid() && pageTable == table && forall i | 0 <= i < TLB_SIZE :: !tlb[i].valid
    {
      for i := 0 to TLB_SIZE
        invariant forall j | 0 <= j < i :: !tlb[j].valid
      {
        tlb[i] := tlb[i].(valid := false);
      }
      pageTable := table;
    }

    // TLBFIFO: into the first free entry, or behind the others, the first of which goes.
    method Fifo(page: TranslationEntry)
      requires Valid() && page.valid && Agrees(page, pageTable[..]) && !Hit(tlb[..], page.virtualPage)
      modifies tlb
      ensures Valid() && Hit(tlb[..], page.virtualPage)
      // the valid entries stay an oldest-first prefix
      ensures Prefix(old(tlb[..])) ==>
        Prefix(tlb[..]) &&
        Pages(tlb[..]) == Behind(Pages(old(tlb[..])), page.virtualPage)
      ensures (forall i | 0 <= i < TLB_SIZE :: old(tlb[i]).valid) ==> tlb[..] == old(tlb[1..]) + [page]
      ensures forall k | 0 <= k < TLB_SIZE && !old(tlb[k]).valid && (forall i | 0 <= i < k :: old(tlb[i]).valid) ::
        tlb[..] == old(tlb[..])[k := page]
    {
      ghost var t0 := tlb[..];
      var idx := -1;
      for i := 0 to TLB_SIZE
        invariant idx == -1 && tlb[..] == t0 && forall j | 0 <= j < i :: t0[j].valid
      {
        if !tlb[i].valid {
          idx := i;
          break;
        }
      }
      if idx == -1 {
        for i := 0 to TLB_SIZE - 1
          invariant forall j | 0 <= j < i :: tlb[j] == t0[j + 1]
          invariant forall j | i <= j < TLB_SIZE :: tlb[j] == t0[j]
        {
          tlb[i] := tlb[i + 1];
        }
        idx := TLB_SIZE - 1;
        Shifted(t0, page, pageTable[..]);
      } else {
        Replaced(t0, pageTable[..], idx, page);
        Filled(t0, page, idx);
      }
      tlb[idx] := page;
      assert tlb[..] == if Full(t0) then t0[1..] + [page] else t0[idx := page];
    }

    // TLBClock: the first entry from the hand on that is free or was not used lately. The
    // entries passed over lose their use bits, so that the hand goes round once at most.
    method Clock(page: TranslationEntry) returns (ghost passed: nat)
      requires Valid() && page.valid && Agrees(page, pageTable[..]) && !Hit(tlb[..], page.virtualPage)
      modifies tlb, this`index
      ensures Valid() && Hit(tlb[..], page.virtualPage)
      ensures passed <= TLB_SIZE && index == (old(index) + passed) % TLB_SIZE && tlb[index] == page.(use := true)
      // only entries in use were passed over
      ensures forall i | 0 <= i < TLB_SIZE && (i - old(index)) % TLB_SIZE < passed ::
        old(tlb[i]).valid && old(tlb[i]).use
      // the one evicted was free or not in use, or all were in use and it had its second chance
      ensures passed < TLB_SIZE ==> !(old(tlb[..])[index].valid && old(tlb[..])[index].use)
      ensures forall i | 0 <= i < TLB_SIZE && i != index ::
        tlb[i] == if (i - old(index)) % TLB_SIZE < passed then old(tlb[i]).(use := false) else old(tlb[i])
    {
      ghost var t0, hand := tlb[..], index;
      passed := MoveHand();
      PassedMeans(t0, tlb[..], pageTable[..], hand, passed);
      Put(page.(use := true));
    }

    // To the first entry that is free or was not used lately.
    method MoveHand() returns (ghost passed: nat)
      requires Valid()
      modifies tlb, this`index
      ensures passed <= TLB_SIZE && index == (old(index) + passed) % TLB_SIZE && !InUse(tlb[index])
      ensures PassedOver(old(tlb[..]), tlb[..], old(index), passed)
    {
      ghost var t0 := tlb[..];
      passed := 0;
      while InUse(tlb[index])
        invariant 0 <= index < TLB_SIZE && passed <= TLB_SIZE && index == (old(index) + passed) % TLB_SIZE
        invariant PassedOver(t0, tlb[..], old(index), passed)
        decreases TLB_SIZE - passed
      {
        StillPassed(t0, tlb[..], old(index), passed);
        PassOver();
        passed := passed + 1;
      }
    }

    // Takes the use bit of the entry at the hand, and moves on.
    method PassOver()
      requires tlb.Length == TLB_SIZE && 0 <= index < TLB_SIZE
      modifies tlb, this`index
      ensures tlb[..] == old(tlb[..])[old(index) := old(tlb[index]).(use := false)] &&
        index == (old(index) + 1) % TLB_SIZE
    {
      ghost var t0 := tlb[..];
      tlb[index] := tlb[index].(use := false);
      assert tlb[..] == t0[index := t0[index].(use := false)];
      index := (index + 1) % TLB_SIZE;
    }

    // Neither policy configured: one entry after the other.
    method NextInTurn(page: TranslationEntry)
      requires Valid() && page.valid && Agrees(page, pageTable[..]) && !Hit(tlb[..], page.virtualPage)
      modifies tlb, this`index
      ensures Valid() && Hit(tlb[..], page.virtualPage)
      ensures tlb[..] == old(tlb[..])[old(index) := page] && index == (old(index) + 1) % TLB_SIZE
    {
      Put(page);
      index := (index + 1) % TLB_SIZE;
    }

    // The page in place of the entry at the index.
    method Put(page: TranslationEntry)
      requires Valid() && page.valid && Agrees(page, pageTable[..]) && !Hit(tlb[..], page.virtualPage)
      modifies tlb
      ensures Valid() && Hit(tlb[..], page.virtualPage) && tlb[..] == old(tlb[..])[index := page]
    {
      Replaced(tlb[..], pageTable[..], index, page);
      ghost var t0 := tlb[..];
      tlb[index] := page;
      assert tlb[..] == t0[index := page];
    }

    // TLBMissHandler, for a page in the table that is valid, which the source asserts.
    method MissHandler(addr: nat, policy: Policy) returns (ghost passed: nat)
      requires Valid() && Numbered(pageTable[..]) && addr / PAGE_SIZE < pageTable.Length
      requires pageTable[addr / PAGE_SIZE].valid && !Hit(tlb[..], addr / PAGE_SIZE)
      modifies tlb, this`index
      ensures Valid() && Hit(tlb[..], addr / PAGE_SIZE)
      ensures policy == FIFO && Prefix(old(tlb[..])) ==>
        Prefix(tlb[..]) && Pages(tlb[..]) == Behind(Pages(old(tlb[..])), addr / PAGE_SIZE)
      // behind the others, the first of which goes, or in the first free entry
      ensures policy == FIFO && (forall i | 0 <= i < TLB_SIZE :: old(tlb[i]).valid) ==>
        tlb[..] == old(tlb[1..]) + [pageTable[addr / PAGE_SIZE]]
      ensures policy == FIFO ==>
        index == old(index) &&
        forall k | 0 <= k < TLB_SIZE && !old(tlb[k]).valid && (forall i | 0 <= i < k :: old(tlb[i]).valid) ::
          tlb[..] == old(tlb[..])[k := pageTable[addr / PAGE_SIZE]]
      // in the first entry from the hand on that is free or was not used
      ensures policy == CLOCK ==>
        && passed <= TLB_SIZE && index == (old(index) + passed) % TLB_SIZE
        && tlb[index] == pageTable[addr / PAGE_SIZE].(use := true)
        && (forall i | 0 <= i < TLB_SIZE && (i - old(index)) % TLB_SIZE < passed ::
              old(tlb[i]).valid && old(tlb[i]).use)
        && (passed < TLB_SIZE ==> !(old(tlb[..])[index].valid && old(tlb[..])[index].use))
      ensures policy == InTurn ==>
        tlb[..] == old(tlb[..])[old(index) := pageTable[addr / PAGE_SIZE]] && index == (old(index) + 1) % TLB_SIZE
    {
      var page := pageTable[addr / PAGE_SIZE];
      passed := 0;
      match policy
      case FIFO => Fifo(page);
      case CLOCK => passed := Clock(page);
      case InTurn => NextInTurn(page);
    }

    // The first valid entry for a page; -1 if there is none.
    method Find(vpn: nat) returns (r: int)
      requires tlb.Length == TLB_SIZE
      ensures -1 <= r < TLB_SIZE && (r == -1 <==> !Hit(tlb[..], vpn))
      ensures r >= 0 ==> tlb[r].valid && tlb[r].virtualPage == vpn
    {
      for i := 0 to TLB_SIZE
        invariant forall j | 0 <= j < i :: !(tlb[j].valid && tlb[j].virtualPage == vpn)
      {
        if tlb[i].valid && tlb[i].virtualPage == vpn {
          assert tlb[..][i] == tlb[i];
          return i;
        }
      }
      return -1;
    }

    // Translates an address through the buffer. What comes out is what the page table says.
    method Translate(virtAddr: nat, size: nat, writing: bool) returns (e: Exception, physAddr: int)
      requires Valid() && size in {1, 2, 4}
      modifies tlb
      ensures Valid() && (e == AddressError <==> virtAddr % size != 0)
      ensures e == PageFault <==> virtAddr % size == 0 && !Hit(old(tlb[..]), virtAddr / PAGE_SIZE)
      ensures if e == NoException then Touched(old(tlb[..]), tlb[..], virtAddr / PAGE_SIZE, writing)
        else tlb[..] == old(tlb[..])
      // the use bit of the entry of the page is set, and its dirty bit on a write
      ensures e == NoException ==>
        forall i | 0 <= i < TLB_SIZE ::
          tlb[i] == if old(tlb[i]).valid && old(tlb[i]).virtualPage == virtAddr / PAGE_SIZE
                    then old(tlb[i]).(use := true, dirty := old(tlb[i]).dirty || writing) else old(tlb[i])
      ensures Hit(old(tlb[..]), virtAddr / PAGE_SIZE) && virtAddr % size == 0 ==>
        virtAddr / PAGE_SIZE < pageTable.Length &&
        var page := pageTable[virtAddr / PAGE_SIZE];
        if page.readOnly && writing then e == ReadOnlyPage
        else if !(0 <= page.physicalPage < NUM_PHYS_PAGES) then e == BusError
        else e == NoException
      // the assertion that the access stays within the memory
      ensures e == NoException ==>
        virtAddr / PAGE_SIZE < pageTable.Length && pageTable[virtAddr / PAGE_SIZE].valid &&
        physAddr == pageTable[virtAddr / PAGE_SIZE].physicalPage * PAGE_SIZE + virtAddr % PAGE_SIZE &&
        0 <= physAddr && physAddr + size <= MEMORY_SIZE && virtAddr % PAGE_SIZE + size <= PAGE_SIZE
    {
      AlignedMeans(virtAddr, size);
      if !Aligned(virtAddr, size) {
        return AddressError, 0;
      }
      var i := Find(virtAddr / PAGE_SIZE);
      if i == -1 {
        return PageFault, 0;
      }
      var entry := tlb[i];
      assert tlb[..][i] == entry;
      if entry.readOnly && writing {
        return ReadOnlyPage, 0;
      }
      if !(0 <= entry.physicalPage < NUM_PHYS_PAGES) {
        return BusError, 0;
      }
      Touch(i, writing);
      WithinPage(virtAddr, size);
      return NoException, entry.physicalPage * PAGE_SIZE + virtAddr % PAGE_SIZE;
    }

    // Sets the use and dirty bits.
    method Touch(i: nat, writing: bool)
      requires Valid() && i < TLB_SIZE && tlb[i].valid
      modifies tlb
      ensures Valid() && Touched(old(tlb[..]), tlb[..], old(tlb[i]).virtualPage, writing)
      ensures tlb[..] == old(tlb[..])[i := old(tlb[i]).(use := true, dirty := old(tlb[i]).dirty || writing)]
    {
      ghost var t0 := tlb[..];
      tlb[i] := tlb[i].(use := true, dirty := tlb[i].dirty || writing);
      UseBits(t0, tlb[..], pageTable[..]);
      assert TouchedAt(t0, tlb[..], i, t0[i].virtualPage, writing);
    }

    // ReadMem. An exception is raised when it returns false.
    method ReadMem(addr: nat, size: nat) returns (ok: bool, value: int32)
      requires Valid() && size in {1, 2, 4}
      modifies tlb
      ensures Valid()
      ensures ok ==> MappedAt(pageTable[..], addr) && addr % size == 0 &&
                     Physical(pageTable[..], addr) + size <= MEMORY_SIZE &&
                     value == Loaded(mainMemory[..], Physical(pageTable[..], addr), size)
      ensures Hit(old(tlb[..]), addr / PAGE_SIZE) && addr / PAGE_SIZE < pageTable.Length ==>
        (ok <==> addr % size == 0 && 0 <= pageTable[addr / PAGE_SIZE].physicalPage < NUM_PHYS_PAGES)
    {
      var e, physicalAddress := Translate(addr, size, false);
      if e != NoException {
        return false, 0;
      }
      return true, Loaded(mainMemory[..], physicalAddress, size);
    }

    method WriteMem(addr: nat, size: nat, value: int32) returns (ok: bool)
      requires Valid() && size in {1, 2, 4}
      modifies tlb, mainMemory
      ensures Valid()
      ensures ok ==> MappedAt(pageTable[..], addr) && addr % size == 0 &&
                     Physical(pageTable[..], addr) + size <= MEMORY_SIZE &&
                     mainMemory[..] == Stored(old(mainMemory[..]), Physical(pageTable[..], addr), size, value)
      ensures !ok ==> mainMemory[..] == old(mainMemory[..])
      ensures Hit(old(tlb[..]), addr / PAGE_SIZE) && addr / PAGE_SIZE < pageTable.Length ==>
        (ok <==> addr % size == 0 && !pageTable[addr / PAGE_SIZE].readOnly &&
                 0 <= pageTable[addr / PAGE_SIZE].physicalPage < NUM_PHYS_PAGES)
    {
      var e, physicalAddress := Translate(addr, size, true);
      if e != NoException {
        return false;
      }
      var w := Unsigned(value);
      mainMemory[physicalAddress] := ByteOf(w, 0);
      if size >= 2 {
        mainMemory[physicalAddress + 1] := ByteOf(w, 1);
      }
      if size == 4 {
        mainMemory[physicalAddress + 2] := ByteOf(w, 2);
        mainMemory[physicalAddress + 3] := ByteOf(w, 3);
      }
      return true;
    }

    // An access, and again after a miss: it does not miss twice.
    method Access(virtAddr: nat, size: nat, writing: bool, policy: Policy) returns (e: Exception, physAddr: int)
      requires Valid() && Numbered(pageTable[..]) && size in {1, 2, 4}
      requires virtAddr / PAGE_SIZE < pageTable.Length && pageTable[virtAddr / PAGE_SIZE].valid
      modifies tlb, this`index
      ensures Valid() && e == var page := pageTable[virtAddr / PAGE_SIZE];
        if virtAddr % size != 0 then AddressError
        else if page.readOnly && writing then ReadOnlyPage
        else if !(0 <= page.physicalPage < NUM_PHYS_PAGES) then BusError
        else NoException
      ensures e == NoException ==>
        physAddr == pageTable[virtAddr / PAGE_SIZE].physicalPage * PAGE_SIZE + virtAddr % PAGE_SIZE
      // under FIFO the buffer stays a queue of pages
      ensures policy == FIFO && Prefix(old(tlb[..])) ==>
        Prefix(tlb[..]) &&
        Pages(tlb[..]) == if virtAddr % size == 0 && !Hit(old(tlb[..]), virtAddr / PAGE_SIZE)
                          then Behind(Pages(old(tlb[..])), virtAddr / PAGE_SIZE) else Pages(old(tlb[..]))
    {
      e, physAddr := Translate(virtAddr, size, writing);
      SamePages(old(tlb[..]), tlb[..], virtAddr / PAGE_SIZE, writing);
      if e == PageFault {
        ghost var _ := MissHandler(virtAddr, policy);
        ghost var t1 := tlb[..];
        e, physAddr := Translate(virtAddr, size, writing);
        SamePages(t1, tlb[..], virtAddr / PAGE_SIZE, writing);
      }
    }
  }

  datatype Policy = FIFO | CLOCK | InTurn

  predicate InUse(e: TranslationEntry)
  {
    e.valid && e.use
  }

  // Position i is among the first `passed` ones from the hand on.
  predicate Passed(hand: nat, passed: nat, i: nat)
  {
    (i - hand) % TLB_SIZE < passed
  }

  // The hand has passed over so many entries, all of them in use, and taken their use bits.
  ghost predicate PassedOver(t0: seq<TranslationEntry>, t1: seq<TranslationEntry>, hand: nat, passed: nat)
  {
    && |t0| == |t1| == TLB_SIZE
    && (forall i | 0 <= i < TLB_SIZE :: t1[i] == if Passed(hand, passed, i) then t0[i].(use := false) else t0[i])
    && (forall i | 0 <= i < TLB_SIZE && Passed(hand, passed, i) :: InUse(t0[i]))
  }

  lemma StillPassed(t0: seq<TranslationEntry>, t1: seq<TranslationEntry>, hand: nat, passed: nat)
    requires PassedOver(t0, t1, hand, passed) && hand < TLB_SIZE && passed <= TLB_SIZE
    requires InUse(t1[(hand + passed) % TLB_SIZE])
    ensures passed < TLB_SIZE
    ensures var i := (hand + passed) % TLB_SIZE; PassedOver(t0, t1[i := t1[i].(use := false)], hand, passed + 1)
  {
    PassedNext(hand, passed);
  }

  lemma PassedMeans(t0: seq<TranslationEntry>, t1: seq<TranslationEntry>, table: seq<TranslationEntry>, hand: nat,
                    passed: nat)
    requires PassedOver(t0, t1, hand, passed) && Caches(t0, table) && hand < TLB_SIZE && passed <= TLB_SIZE
    ensures Caches(t1, table) && forall v :: Hit(t1, v) <==> Hit(t0, v)
    ensures var i := (hand + passed) % TLB_SIZE; passed < TLB_SIZE && !InUse(t1[i]) ==> !InUse(t0[i])
  {
    UseBits(t0, t1, table);
    if passed < TLB_SIZE {
      PassedNext(hand, passed);
    }
  }

  lemma PassedNext(hand: nat, passed: nat)
    requires hand < TLB_SIZE
    ensures forall i | 0 <= i < TLB_SIZE ::
      Passed(hand, passed + 1, i) <==> Passed(hand, passed, i) || (passed < TLB_SIZE && i == (hand + passed) % TLB_SIZE)
    ensures forall i | 0 <= i < TLB_SIZE && passed >= TLB_SIZE :: Passed(hand, passed, i)
    ensures passed < TLB_SIZE ==> !Passed(hand, passed, (hand + passed) % TLB_SIZE)
  {
  }

  // An access has set the use bit of the entry of a page, and the dirty bit if it wrote.
  ghost predicate TouchedAt(t0: seq<TranslationEntry>, t1: seq<TranslationEntry>, i: int, vpn: int, writing: bool)
  {
    0 <= i < |t0| && t0[i].valid && t0[i].virtualPage == vpn &&
      t1 == t0[i := t0[i].(use := true, dirty := t0[i].dirty || writing)]
  }

  ghost predicate Touched(t0: seq<TranslationEntry>, t1: seq<TranslationEntry>, vpn: int, writing: bool)
  {
    exists i :: TouchedAt(t0, t1, i, vpn, writing)
  }

  // Which leaves the pages in the buffer, and their order, as they were.
  lemma TouchedPages(t0: seq<TranslationEntry>, t1: seq<TranslationEntry>, vpn: int, writing: bool)
    requires Touched(t0, t1, vpn, writing)
    ensures Pages(t1) == Pages(t0) && (Prefix(t1) <==> Prefix(t0))
  {
    var i :| TouchedAt(t0, t1, i, vpn, writing);
    PagesAround(t0, i, t0[i]);
    PagesAround(t0, i, t1[i]);
    assert t0[i := t0[i]] == t0;
    assert forall j | 0 <= j < |t0| :: t1[j].valid <==> t0[j].valid;
  }

  lemma SamePages(t0: seq<TranslationEntry>, t1: seq<TranslationEntry>, vpn: int, writing: bool)
    requires t1 == t0 || Touched(t0, t1, vpn, writing)
    ensures Pages(t1) == Pages(t0) && (Prefix(t1) <==> Prefix(t0))
  {
    if t1 != t0 {
      TouchedPages(t0, t1, vpn, writing);
    }
  }

  // The use and dirty bits have no part in caching.
  lemma UseBits(t0: seq<TranslationEntry>, t1: seq<TranslationEntry>, table: seq<TranslationEntry>)
    requires |t0| == |t1| && Caches(t0, table)
    requires forall i | 0 <= i < |t0| :: t1[i] == t0[i].(use := t1[i].use, dirty := t1[i].dirty)
    ensures Caches(t1, table) && forall v :: Hit(t1, v) <==> Hit(t0, v)
  {
    forall v
      ensures Hit(t1, v) <==> Hit(t0, v)
    {
      if Hit(t1, v) {
        var i :| 0 <= i < |t1| && t1[i].valid && t1[i].virtualPage == v;
        assert t0[i].valid;
      }
      if Hit(t0, v) {
        var i :| 0 <= i < |t0| && t0[i].valid && t0[i].virtualPage == v;
        assert t1[i].valid;
      }
    }
  }

  ghost predicate Full(tlb: seq<TranslationEntry>)
  {
    forall i | 0 <= i < |tlb| :: tlb[i].valid
  }

  // A queue of at most four pages.
  ghost function Behind(pages: seq<int>, page: int): seq<int>
  {
    (if |pages| < TLB_SIZE then pages else pages[1..]) + [page]
  }

  lemma Shifted(t0: seq<TranslationEntry>, page: TranslationEntry, table: seq<TranslationEntry>)
    requires |t0| == TLB_SIZE && Full(t0) && Caches(t0, table)
    requires Agrees(page, table) && !Hit(t0, page.virtualPage) && page.valid
    ensures var t1 := t0[1..] + [page];
      && Caches(t1, table) && Hit(t1, page.virtualPage) && Prefix(t1)
      && Pages(t1) == Behind(Pages(t0), page.virtualPage)
  {
    var t1 := t0[1..] + [page];
    assert t1[TLB_SIZE - 1] == page;
    AllPages(t0);
    PagesOfParts(t0[1..], [page]);
    assert t0 == [t0[0]] + t0[1..];
    PagesOfParts([t0[0]], t0[1..]);
    assert Pages([page]) == [page.virtualPage];
    assert Pages([t0[0]]) == [t0[0].virtualPage];
  }

  lemma Filled(t0: seq<TranslationEntry>, page: TranslationEntry, idx: nat)
    requires |t0| == TLB_SIZE && idx < TLB_SIZE && !t0[idx].valid && (forall j | 0 <= j < idx :: t0[j].valid) &&
      page.valid
    ensures Prefix(t0) ==> Prefix(t0[idx := page]) && Pages(t0[idx := page]) == Behind(Pages(t0), page.virtualPage)
  {
    if Prefix(t0) {
      PagesAround(t0, idx, t0[idx]);
      PagesAround(t0, idx, page);
      assert t0[idx := t0[idx]] == t0;
      NoPages(t0[idx + 1..]);
      AllPages(t0[..idx]);
    }
  }
}
