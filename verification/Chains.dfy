/**
 The layout of a file over its index tables.

 The sectors a file owns, data and index tables alike, are numbered in the order in
 which the allocation code takes them from the free map. Position p of that chain is
   0..7     a direct data sector,
   8        the one-level table, followed by its 32 data sectors at 9..40,
   41       the two-level table,
   42+33*j  second-level table j, followed by its 32 data sectors.
 A file of n data sectors owns the first Total(n) positions, and every branch of
 ExpandFileSize means the same thing: the chain grows at its end by the next
 allocations of the free map.
 */
module Chains {
  import opened WordBits
  import opened Allocation
  import opened SectorDisks

  const NUM_DIRECT := 8
  const LEVEL_NUM := 32
  const ONE_LEVEL_IDX := 8
  const TWO_LEVEL_IDX := 9
  const NUM_SLOTS := 10
  const MAX_SECTORS := NUM_DIRECT + LEVEL_NUM + LEVEL_NUM * LEVEL_NUM

  type Slots = s: seq<int32> | |s| == NUM_SLOTS witness seq<int32>(NUM_SLOTS, _ => 0)

  // Second-level tables needed for n data sectors.
  function SecondLevelNum(n: int): (r: nat)
    ensures n > NUM_DIRECT + LEVEL_NUM ==>
      LEVEL_NUM * (r - 1) < n - NUM_DIRECT - LEVEL_NUM <= LEVEL_NUM * r
  {
    if n <= NUM_DIRECT + LEVEL_NUM then 0 else DivRoundUp(n - NUM_DIRECT - LEVEL_NUM, LEVEL_NUM)
  }

  // All the sectors, index tables included, that n data sectors need.
  function Total(n: int): nat
  {
    if n <= 0 then 0
    else if n <= NUM_DIRECT then n
    else if n <= NUM_DIRECT + LEVEL_NUM then n + 1
    else n + 2 + SecondLevelNum(n)
  }

  function SectorsFor(bytes: nat): nat
  {
    DivRoundUp(bytes, SECTOR_SIZE)
  }

  // As many sectors as hold the bytes, and no more.
  lemma SectorsForMeans(bytes: nat)
    ensures 128 * (SectorsFor(bytes) - 1) < bytes <= 128 * SectorsFor(bytes)
  {
  }

  // One index table from the ninth data sector on, and from the 41st on one more with one
  // of its own for every 32 data sectors begun.
  lemma TotalMeans(n: nat)
    ensures n <= 8 ==> Total(n) == n
    ensures 8 < n <= 40 ==> Total(n) == n + 1
    ensures n > 40 ==> Total(n) == n + 2 + (n - 40 + 31) / 32
  {
  }

  lemma SectorsForGrows(bytes: nat, more: nat)
    requires bytes <= more
    ensures SectorsFor(bytes) <= SectorsFor(more)
  {
  }

  predicate IsTable(p: int)
  {
    p == 8 || p == 41 || (p >= 42 && (p - 42) % 33 == 0)
  }

  // The chain position of data sector i.
  function Position(i: nat): nat
  {
    if i < NUM_DIRECT then i
    else if i < NUM_DIRECT + LEVEL_NUM then i + 1
    else i + 3 + (i - NUM_DIRECT - LEVEL_NUM) / LEVEL_NUM
  }

  // The sector at position p of the chain.
  function Own(slots: Slots, v: View, p: nat): int
    requires p < Total(MAX_SECTORS)
  {
    if p <= ONE_LEVEL_IDX then slots[p]
    else if p < 41 then Entry(v, slots[ONE_LEVEL_IDX], p - 9)
    else if p == 41 then slots[TWO_LEVEL_IDX]
    else
      var second := Entry(v, slots[TWO_LEVEL_IDX], (p - 42) / 33);
      if IsTable(p) then second else Entry(v, second, (p - 42) % 33 - 1)
  }

  // The chain of a file of n data sectors.
  ghost function Chain(slots: Slots, v: View, n: int): (chain: seq<int>)
    requires n <= MAX_SECTORS
    ensures |chain| == Total(n)
  {
    seq(Total(n), p requires 0 <= p < Total(n) => Own(slots, v, p))
  }

  // Real sectors, no two positions sharing one.
  ghost predicate Sound(chain: seq<int>)
  {
    && (forall p | 0 <= p < |chain| :: 0 <= chain[p] < NUM_SECTORS)
    && (forall p, q | 0 <= p < q < |chain| :: chain[p] != chain[q])
  }

  // Index tables sit in distinct sectors, all of them in use.
  ghost predicate TablesSound(chain: seq<int>, m: set<int>)
  {
    && (forall p | 0 <= p < |chain| && IsTable(p) :: 0 <= chain[p] < NUM_SECTORS && chain[p] in m)
    && (forall p, q | 0 <= p < q < |chain| && IsTable(p) && IsTable(q) :: chain[p] != chain[q])
  }

  ghost function Elems(chain: seq<int>): set<int>
  {
    set x | x in chain
  }

  // slots1, v1 hold the chain of slots0, v0 with the allocations got[k..] at its end.
  ghost predicate Extended(slots0: Slots, v0: View, have: int,
                           slots1: Slots, v1: View, want: int, got: seq<int>, k: nat)
  {
    && 0 <= have <= want <= MAX_SECTORS && k <= |got|
    && Chain(slots1, v1, want) == Chain(slots0, v0, have) + got[k..]
  }

  // From disk image d0 to d1 only index tables of the chain were written.
  ghost predicate OnlyTablesWritten(d0: Image, d1: Image, chain: seq<int>)
  {
    forall s | 0 <= s < NUM_SECTORS && d1[s] != d0[s] ::
      exists p :: 0 <= p < |chain| && IsTable(p) && chain[p] == s
  }

  // From d0 to d1 only data sectors of the chain were written.
  ghost predicate OnlyDataWritten(d0: Image, d1: Image, chain: seq<int>)
  {
    forall s | 0 <= s < NUM_SECTORS && d1[s] != d0[s] ::
      exists p :: 0 <= p < |chain| && !IsTable(p) && chain[p] == s
  }

  // Allocation number k and those after it reach every index table at positions
  // from..to of a chain, when the first `avail` allocations succeed.
  ghost predicate TablesFit(from: nat, to: nat, k: nat, avail: nat)
  {
    forall p | from <= p < to && IsTable(p) :: k + p - from < avail
  }

  lemma RoomFits(have: int, want: int, clear: nat)
    requires Total(want) - Total(have) <= clear
    ensures TablesFit(Total(have), Total(want), 0, clear)
  {
  }

  lemma ExtendedIntro(slots0: Slots, v0: View, have: int, slots1: Slots, v1: View, want: int, got: seq<int>, k: nat)
    requires 0 <= have <= want <= MAX_SECTORS && |got| == k + Total(want) - Total(have)
    requires forall p | 0 <= p < Total(have) :: Own(slots1, v1, p) == Own(slots0, v0, p)
    requires forall p | Total(have) <= p < Total(want) :: Own(slots1, v1, p) == got[k + p - Total(have)]
    ensures Extended(slots0, v0, have, slots1, v1, want, got, k)
  {
    var c0, c1 := Chain(slots0, v0, have), Chain(slots1, v1, want);
    forall p | 0 <= p < |c1|
      ensures c1[p] == (c0 + got[k..])[p]
    {
    }
  }

  lemma OnlyTablesMore(d0: Image, d1: Image, chain: seq<int>, d2: Image, more: seq<int>)
    requires OnlyTablesWritten(d0, d1, chain) && OnlyTablesWritten(d1, d2, chain + more)
    ensures OnlyTablesWritten(d0, d2, chain + more)
  {
    forall s | 0 <= s < NUM_SECTORS && d2[s] != d0[s]
      ensures exists p :: 0 <= p < |chain + more| && IsTable(p) && (chain + more)[p] == s
    {
      if d2[s] == d1[s] {
        var p :| 0 <= p < |chain| && IsTable(p) && chain[p] == s;
        assert (chain + more)[p] == s;
      }
    }
  }

  // Growing twice is growing once.
  lemma GrowTwice(slots0: Slots, v0: View, have: int, slots1: Slots, v1: View, mid: int, slots2: Slots, v2: View,
                  want: int, got1: seq<int>, got2: seq<int>, k: nat, d0: Image, d1: Image, d2: Image)
    requires Extended(slots0, v0, have, slots1, v1, mid, got1, k)
    requires Extended(slots1, v1, mid, slots2, v2, want, got2, |got1|)
    requires got1 <= got2
    requires OnlyTablesWritten(d0, d1, Chain(slots1, v1, mid)) && OnlyTablesWritten(d1, d2, Chain(slots2, v2, want))
    ensures Extended(slots0, v0, have, slots2, v2, want, got2, k)
    ensures OnlyTablesWritten(d0, d2, Chain(slots2, v2, want))
  {
    assert got2[k..] == got1[k..] + got2[|got1|..];
    OnlyTablesMore(d0, d1, Chain(slots1, v1, mid), d2, got2[|got1|..]);
  }

  // An allocation returns a number not in use at any time before it.
  lemma NotYetAllocated(base: set<int>, got: seq<int>, k: nat, i: nat)
    requires Allocates(base, NUM_SECTORS, got) && k <= i < |got| && got[i] != -1
    ensures got[i] !in base + Granted(got[..k])
  {
    AllocatedAt(base, NUM_SECTORS, got, i);
    if got[i] in got[..k] {
      var j :| 0 <= j < k && got[j] == got[i];
      AllocatedOnce(base, NUM_SECTORS, got, j, i);
    }
  }

  lemma ExtendedInUse(chain: seq<int>, base: set<int>, got: seq<int>, k: nat)
    requires Allocates(base, NUM_SECTORS, got) && k <= |got|
    requires TablesSound(chain, base + Granted(got[..k]))
    requires TablesFit(|chain|, |chain| + |got| - k, k, NumClear(base, NUM_SECTORS))
    ensures var longer := chain + got[k..];
      forall p | 0 <= p < |longer| && IsTable(p) :: 0 <= longer[p] < NUM_SECTORS && longer[p] in base + Granted(got)
  {
    forall p | |chain| <= p < |chain| + |got| - k && IsTable(p)
      ensures 0 <= got[k + p - |chain|] < NUM_SECTORS
    {
      AllocatedAt(base, NUM_SECTORS, got, k + p - |chain|);
    }
  }

  // The tables of an extended chain stay distinct.
  lemma ExtendedTables(chain: seq<int>, base: set<int>, got: seq<int>, k: nat)
    requires Allocates(base, NUM_SECTORS, got) && k <= |got|
    requires TablesSound(chain, base + Granted(got[..k]))
    requires TablesFit(|chain|, |chain| + |got| - k, k, NumClear(base, NUM_SECTORS))
    ensures TablesSound(chain + got[k..], base + Granted(got))
  {
    var longer := chain + got[k..];
    ExtendedInUse(chain, base, got, k);
    forall p, q | 0 <= p < q < |longer| && IsTable(p) && IsTable(q)
      ensures longer[p] != longer[q]
    {
      if q >= |chain| {
        var j := k + q - |chain|;
        AllocatedAt(base, NUM_SECTORS, got, j);
        NotYetAllocated(base, got, k, j);
        if p >= |chain| {
          AllocatedOnce(base, NUM_SECTORS, got, k + p - |chain|, j);
        }
      }
    }
  }

  // A grown chain is sound exactly when every allocation succeeded, and then the sectors
  // it gained were all clear before.
  lemma ExtendedSound(chain: seq<int>, base: set<int>, got: seq<int>, k: nat)
    requires Allocates(base, NUM_SECTORS, got) && k < |got|
    requires Sound(chain) && Elems(chain) <= base + Granted(got[..k])
    ensures Sound(chain + got[k..]) <==> |got| <= NumClear(base, NUM_SECTORS)
    ensures Sound(chain + got[k..]) ==>
      Granted(got[k..]) == Elems(got[k..]) && Elems(got[k..]) !! base + Granted(got[..k])
  {
    var longer := chain + got[k..];
    assert longer[|longer| - 1] == got[|got| - 1];
    AllocatedAt(base, NUM_SECTORS, got, |got| - 1);
    if |got| <= NumClear(base, NUM_SECTORS) {
      forall i | k <= i < |got|
        ensures 0 <= got[i] < NUM_SECTORS && got[i] !in base + Granted(got[..k])
      {
        AllocatedAt(base, NUM_SECTORS, got, i);
        NotYetAllocated(base, got, k, i);
      }
      forall p, q | 0 <= p < q < |longer|
        ensures longer[p] != longer[q]
      {
        if p >= |chain| {
          AllocatedOnce(base, NUM_SECTORS, got, k + p - |chain|, k + q - |chain|);
        } else {
          assert chain[p] in Elems(chain);
        }
      }
    }
  }

  // A sound chain owns as many sectors as it has positions.
  lemma {:induction false} OwnedSize(chain: seq<int>)
    requires Sound(chain)
    ensures |Elems(chain)| == |chain|
  {
    if chain != [] {
      var rest, x := chain[..|chain| - 1], chain[|chain| - 1];
      OwnedSize(rest);
      assert chain == rest + [x];
      assert Elems(chain) == Elems(rest) + {x};
    }
  }

  // ---------------------------------------------------------------- freshly built tables

  // Table s and its entries are the allocations from number k on.
  ghost predicate TableHolds(v: View, s: int, got: seq<int>, k: nat)
  {
    && 0 <= s < NUM_SECTORS && k < |got| && got[k] == s
    && forall r | 0 <= r < LEVEL_NUM && k + 1 + r < |got| :: Entry(v, s, r) == got[k + 1 + r]
  }

  // Second-level tables from..num are the allocations from number k on, 33 apart.
  ghost predicate TablesHold(v: View, two: seq<int32>, from: nat, num: nat, got: seq<int>, k: nat)
  {
    && num <= |two|
    && forall j | from <= j < num :: TableHolds(v, two[j], got, k + 33 * (j - from))
  }

  lemma TableHoldsIntro(v: View, s: int, entries: Table, filled: nat, got: seq<int>, k: nat)
    requires 0 <= s < NUM_SECTORS && k < |got| && got[k] == s && v[s] == entries
    requires filled <= LEVEL_NUM && entries[..filled] == got[k + 1..]
    ensures TableHolds(v, s, got, k)
  {
    forall r | 0 <= r < LEVEL_NUM && k + 1 + r < |got|
      ensures Entry(v, s, r) == got[k + 1 + r]
    {
      assert entries[r] == entries[..filled][r] == got[k + 1..][r];
    }
  }

  lemma TableHoldsFrame(v: View, s: int, got: seq<int>, k: nat, v1: View, got1: seq<int>)
    requires TableHolds(v, s, got, k) && got <= got1
    requires |got| == |got1| || k + 33 <= |got|
    requires v1[s] == v[s]
    ensures TableHolds(v1, s, got1, k)
  {
    forall r | 0 <= r < LEVEL_NUM && k + 1 + r < |got1|
      ensures Entry(v1, s, r) == got1[k + 1 + r]
    {
      assert Entry(v, s, r) == got[k + 1 + r];
    }
  }

  lemma TablesHoldSnoc(v: View, two: seq<int32>, from: nat, num: nat, got: seq<int>, k: nat,
                       v1: View, s: int32, got1: seq<int>)
    requires TablesHold(v, two, from, num, got, k) && from <= num < |two|
    requires |got| == k + 33 * (num - from) && got <= got1
    requires TableHolds(v1, s, got1, |got|)
    requires s !in got
    requires v1 == v[s := v1[s]]
    ensures TablesHold(v1, two[num := s], from, num + 1, got1, k)
  {
    forall j | from <= j < num
      ensures TableHolds(v1, two[j], got1, k + 33 * (j - from))
    {
      assert TableHolds(v, two[j], got, k + 33 * (j - from));
      TableHoldsFrame(v, two[j], got, k + 33 * (j - from), v1, got1);
    }
  }

  lemma TablesHoldFrame(v: View, two: seq<int32>, from: nat, num: nat, got: seq<int>, k: nat, v1: View, s: int)
    requires TablesHold(v, two, from, num, got, k)
    requires forall j | from <= j < num :: two[j] != s
    requires 0 <= s < NUM_SECTORS && v1 == v[s := v1[s]]
    ensures TablesHold(v1, two, from, num, got, k)
  {
    forall j | from <= j < num
      ensures TableHolds(v1, two[j], got, k + 33 * (j - from))
    {
      assert TableHolds(v, two[j], got, k + 33 * (j - from));
      TableHoldsFrame(v, two[j], got, k + 33 * (j - from), v1, got);
    }
  }

  // Tables allocated after number k are new, and none is the sector of an earlier number.
  lemma TablesAreNew(base: set<int>, v: View, two: seq<int32>, from: nat, num: nat, got: seq<int>, f: nat, k: nat)
    requires Allocates(base, NUM_SECTORS, got) && f <= k <= |got|
    requires TablesHold(v, two, from, num, got, k)
    ensures forall j | from <= j < num :: 0 <= two[j] < NUM_SECTORS && two[j] !in base + Granted(got[..f])
    ensures forall i, j | 0 <= i < k && from <= j < num :: two[j] != got[i]
  {
    forall j | from <= j < num
      ensures 0 <= two[j] < NUM_SECTORS && two[j] !in base + Granted(got[..f])
      ensures forall i | 0 <= i < k :: two[j] != got[i]
    {
      var at := k + 33 * (j - from);
      assert TableHolds(v, two[j], got, at);
      NotYetAllocated(base, got, f, at);
      forall i | 0 <= i < k
        ensures two[j] != got[i]
      {
        AllocatedOnce(base, NUM_SECTORS, got, i, at);
      }
    }
  }

  // Positions from 42 on, read off the second-level tables.
  lemma OwnFromTables(slots: Slots, v: View, from: nat, num: nat, got: seq<int>, k: nat, p: nat)
    requires 0 <= slots[TWO_LEVEL_IDX] < NUM_SECTORS && num <= LEVEL_NUM
    requires TablesHold(v, v[slots[TWO_LEVEL_IDX]], from, num, got, k)
    requires 42 + 33 * from <= p < 42 + 33 * num && k + p - 42 - 33 * from < |got|
    ensures Own(slots, v, p) == got[k + p - 42 - 33 * from]
  {
    var j, r := (p - 42) / 33, (p - 42) % 33;
    var s, at := v[slots[TWO_LEVEL_IDX]][j], k + 33 * (j - from);
    assert TableHolds(v, s, got, at);
    if r > 0 {
      assert Entry(v, s, r - 1) == got[at + 1 + (r - 1)];
    }
  }

  // ---------------------------------------------------------------- one lemma a way of growing

  lemma DirectGrown(slots0: Slots, slots1: Slots, v: View, have: nat, want: nat, got: seq<int>, k: nat)
    requires have <= want <= NUM_DIRECT && k <= |got|
    requires slots1[..have] == slots0[..have] && slots1[have..want] == got[k..]
    ensures Extended(slots0, v, have, slots1, v, want, got, k)
  {
    forall p | 0 <= p < want
      ensures slots1[p] == if p < have then slots0[p] else got[k + p - have]
    {
      if p < have {
        assert slots1[..have][p] == slots0[..have][p];
      } else {
        assert slots1[have..want][p - have] == got[k..][p - have];
      }
    }
    ExtendedIntro(slots0, v, have, slots1, v, want, got, k);
  }

  lemma OneLevelAdded(slots0: Slots, v0: View, slots1: Slots, v1: View, want: nat, got: seq<int>, k: nat,
                      d0: Image, d1: Image)
    requires NUM_DIRECT < want <= NUM_DIRECT + LEVEL_NUM && |got| == k + 1 + want - NUM_DIRECT
    requires slots1 == slots0[ONE_LEVEL_IDX := slots1[ONE_LEVEL_IDX]]
    requires TableHolds(v1, slots1[ONE_LEVEL_IDX], got, k)
    requires d1 == d0[slots1[ONE_LEVEL_IDX] := d1[slots1[ONE_LEVEL_IDX]]]
    ensures Extended(slots0, v0, NUM_DIRECT, slots1, v1, want, got, k)
    ensures OnlyTablesWritten(d0, d1, Chain(slots1, v1, want))
  {
    ExtendedIntro(slots0, v0, NUM_DIRECT, slots1, v1, want, got, k);
    assert Chain(slots1, v1, want)[8] == slots1[ONE_LEVEL_IDX];
  }

  lemma OneLevelFilled(slots: Slots, v0: View, v1: View, have: nat, want: nat, got: seq<int>, k: nat,
                       d0: Image, d1: Image)
    requires NUM_DIRECT < have <= want <= NUM_DIRECT + LEVEL_NUM && k <= |got|
    requires 0 <= slots[ONE_LEVEL_IDX] < NUM_SECTORS
    requires v1[slots[ONE_LEVEL_IDX]][..have - NUM_DIRECT] == v0[slots[ONE_LEVEL_IDX]][..have - NUM_DIRECT]
    requires v1[slots[ONE_LEVEL_IDX]][have - NUM_DIRECT..want - NUM_DIRECT] == got[k..]
    requires d1 == d0[slots[ONE_LEVEL_IDX] := d1[slots[ONE_LEVEL_IDX]]]
    ensures Extended(slots, v0, have, slots, v1, want, got, k)
    ensures OnlyTablesWritten(d0, d1, Chain(slots, v1, want))
  {
    var t0, t1 := v0[slots[ONE_LEVEL_IDX]], v1[slots[ONE_LEVEL_IDX]];
    forall i | 0 <= i < want - NUM_DIRECT
      ensures t1[i] == if i < have - NUM_DIRECT then t0[i] else got[k + i - (have - NUM_DIRECT)]
    {
      if i < have - NUM_DIRECT {
        assert t1[..have - NUM_DIRECT][i] == t0[..have - NUM_DIRECT][i];
      } else {
        assert t1[have - NUM_DIRECT..want - NUM_DIRECT][i - (have - NUM_DIRECT)] == got[k..][i - (have - NUM_DIRECT)];
      }
    }
    ExtendedIntro(slots, v0, have, slots, v1, want, got, k);
    assert Chain(slots, v1, want)[8] == slots[ONE_LEVEL_IDX];
  }

  // v is the disk after the second-level tables, v1 after the two-level table as well.
  lemma TwoLevelAdded(slots0: Slots, v0: View, slots1: Slots, v: View, v1: View, want: int,
                      base: set<int>, got: seq<int>, k: nat)
    requires NUM_DIRECT + LEVEL_NUM < want <= MAX_SECTORS && |got| == k + Total(want) - 41
    requires Allocates(base, NUM_SECTORS, got)
    requires TablesSound(Chain(slots0, v0, NUM_DIRECT + LEVEL_NUM), base + Granted(got[..k]))
    requires slots1 == slots0[TWO_LEVEL_IDX := slots1[TWO_LEVEL_IDX]]
    requires slots1[TWO_LEVEL_IDX] == got[k] && 0 <= got[k] < NUM_SECTORS
    requires v1 == v[got[k] := v1[got[k]]]
    requires TablesHold(v, v1[got[k]], 0, SecondLevelNum(want), got, k + 1)
    requires forall s | 0 <= s < NUM_SECTORS && s !in v1[got[k]][0..SecondLevelNum(want)] :: v[s] == v0[s]
    ensures Extended(slots0, v0, NUM_DIRECT + LEVEL_NUM, slots1, v1, want, got, k)
  {
    TwoLevelBase(slots0, v0, slots1, v, v1, want, base, got, k);
    forall p | 42 <= p < Total(want)
      ensures Own(slots1, v1, p) == got[k + p - 41]
    {
      OwnFromTables(slots1, v1, 0, SecondLevelNum(want), got, k + 1, p);
    }
    assert Own(slots1, v1, 41) == got[k];
    ExtendedIntro(slots0, v0, NUM_DIRECT + LEVEL_NUM, slots1, v1, want, got, k);
  }

  // Writing the new tables spares the one-level table, and writing the two-level table
  // spares the new ones.
  lemma TwoLevelBase(slots0: Slots, v0: View, slots1: Slots, v: View, v1: View, want: int,
                     base: set<int>, got: seq<int>, k: nat)
    requires NUM_DIRECT + LEVEL_NUM < want <= MAX_SECTORS && |got| == k + Total(want) - 41
    requires Allocates(base, NUM_SECTORS, got)
    requires TablesSound(Chain(slots0, v0, NUM_DIRECT + LEVEL_NUM), base + Granted(got[..k]))
    requires slots1 == slots0[TWO_LEVEL_IDX := slots1[TWO_LEVEL_IDX]]
    requires 0 <= got[k] < NUM_SECTORS && v1 == v[got[k] := v1[got[k]]]
    requires TablesHold(v, v1[got[k]], 0, SecondLevelNum(want), got, k + 1)
    requires forall s | 0 <= s < NUM_SECTORS && s !in v1[got[k]][0..SecondLevelNum(want)] :: v[s] == v0[s]
    ensures forall p | 0 <= p < 41 :: Own(slots1, v1, p) == Own(slots0, v0, p)
    ensures TablesHold(v1, v1[got[k]], 0, SecondLevelNum(want), got, k + 1)
  {
    var num, two := SecondLevelNum(want), v1[got[k]];
    TablesAreNew(base, v, two, 0, num, got, k, k + 1);
    TablesHoldFrame(v, two, 0, num, got, k + 1, v1, got[k]);
    assert v1[slots0[ONE_LEVEL_IDX]] == v0[slots0[ONE_LEVEL_IDX]] by {
      assert Chain(slots0, v0, NUM_DIRECT + LEVEL_NUM)[8] == slots0[ONE_LEVEL_IDX];
      NotYetAllocated(base, got, k, k);
    }
    OneLevelKept(slots0, v0, slots1, v1);
  }

  lemma OneLevelKept(slots0: Slots, v0: View, slots1: Slots, v1: View)
    requires slots1[..TWO_LEVEL_IDX] == slots0[..TWO_LEVEL_IDX]
    requires 0 <= slots0[ONE_LEVEL_IDX] < NUM_SECTORS && v1[slots0[ONE_LEVEL_IDX]] == v0[slots0[ONE_LEVEL_IDX]]
    ensures forall p | 0 <= p < 41 :: Own(slots1, v1, p) == Own(slots0, v0, p)
  {
    forall p | 0 <= p < 41
      ensures Own(slots1, v1, p) == Own(slots0, v0, p)
    {
      if p <= ONE_LEVEL_IDX {
        assert slots1[..TWO_LEVEL_IDX][p] == slots0[..TWO_LEVEL_IDX][p];
      } else {
        assert slots1[..TWO_LEVEL_IDX][ONE_LEVEL_IDX] == slots0[..TWO_LEVEL_IDX][ONE_LEVEL_IDX];
      }
    }
  }

  // Sectors that changed are the two-level table or the second-level tables from `from` on.
  lemma TwoLevelWritten(slots: Slots, v: View, want: int, from: nat, d0: Image, d1: Image)
    requires NUM_DIRECT + LEVEL_NUM < want <= MAX_SECTORS && from <= SecondLevelNum(want)
    requires 0 <= slots[TWO_LEVEL_IDX] < NUM_SECTORS
    requires forall s | 0 <= s < NUM_SECTORS && d1[s] != d0[s] ::
      s == slots[TWO_LEVEL_IDX] || s in v[slots[TWO_LEVEL_IDX]][from..SecondLevelNum(want)]
    ensures OnlyTablesWritten(d0, d1, Chain(slots, v, want))
  {
    forall s | 0 <= s < NUM_SECTORS && d1[s] != d0[s]
      ensures exists p :: 0 <= p < Total(want) && IsTable(p) && Chain(slots, v, want)[p] == s
    {
      if s == slots[TWO_LEVEL_IDX] {
        assert Chain(slots, v, want)[41] == s;
      } else {
        var j :| from <= j < SecondLevelNum(want) && v[slots[TWO_LEVEL_IDX]][j] == s;
        SecondTableOwned(slots, v, want, j);
      }
    }
  }

  lemma SecondTableOwned(slots: Slots, v: View, want: int, j: nat)
    requires NUM_DIRECT + LEVEL_NUM < want <= MAX_SECTORS && j < SecondLevelNum(want)
    requires 0 <= slots[TWO_LEVEL_IDX] < NUM_SECTORS
    ensures 42 + 33 * j < Total(want) && IsTable(42 + 33 * j)
    ensures Chain(slots, v, want)[42 + 33 * j] == v[slots[TWO_LEVEL_IDX]][j]
  {
    assert (33 * j) / 33 == j;
  }

  // The sectors that the first `have` data sectors are looked up through did not change,
  // except perhaps the entries of second-level table idx past the old end.
  lemma ChainKept(slots: Slots, v0: View, v1: View, have: int)
    requires NUM_DIRECT + LEVEL_NUM < have <= MAX_SECTORS
    requires 0 <= slots[ONE_LEVEL_IDX] < NUM_SECTORS && 0 <= slots[TWO_LEVEL_IDX] < NUM_SECTORS
    requires v1[slots[ONE_LEVEL_IDX]] == v0[slots[ONE_LEVEL_IDX]]
    requires forall j | 0 <= j < SecondLevelNum(have) :: v1[slots[TWO_LEVEL_IDX]][j] == v0[slots[TWO_LEVEL_IDX]][j]
    requires forall j, r | 0 <= j < SecondLevelNum(have) && 0 <= r < LEVEL_NUM && 40 + LEVEL_NUM * j + r < have ::
      Entry(v1, v0[slots[TWO_LEVEL_IDX]][j], r) == Entry(v0, v0[slots[TWO_LEVEL_IDX]][j], r)
    ensures forall p | 0 <= p < Total(have) :: Own(slots, v1, p) == Own(slots, v0, p)
  {
    OneLevelKept(slots, v0, slots, v1);
    forall p | 42 <= p < Total(have)
      ensures Own(slots, v1, p) == Own(slots, v0, p)
    {
      var j, r := (p - 42) / 33, (p - 42) % 33;
      assert p == 42 + 33 * j + r;
      assert v1[slots[TWO_LEVEL_IDX]][j] == v0[slots[TWO_LEVEL_IDX]][j];
      if r > 0 {
        assert 40 + LEVEL_NUM * j + (r - 1) < have;
      }
    }
  }

  // The sector of second-level table idx is no other index table of the chain.
  lemma SecondTableApart(slots: Slots, v: View, have: int, m: set<int>, idx: nat)
    requires NUM_DIRECT + LEVEL_NUM < have <= MAX_SECTORS && TablesSound(Chain(slots, v, have), m)
    requires idx < SecondLevelNum(have)
    ensures 0 <= slots[ONE_LEVEL_IDX] < NUM_SECTORS && 0 <= slots[TWO_LEVEL_IDX] < NUM_SECTORS
    ensures slots[ONE_LEVEL_IDX] in m && slots[TWO_LEVEL_IDX] in m && v[slots[TWO_LEVEL_IDX]][idx] in m
    ensures slots[ONE_LEVEL_IDX] != slots[TWO_LEVEL_IDX]
    ensures 0 <= v[slots[TWO_LEVEL_IDX]][idx] < NUM_SECTORS
    ensures v[slots[TWO_LEVEL_IDX]][idx] != slots[ONE_LEVEL_IDX]
    ensures v[slots[TWO_LEVEL_IDX]][idx] != slots[TWO_LEVEL_IDX]
    ensures forall j | 0 <= j < SecondLevelNum(have) && j != idx ::
      v[slots[TWO_LEVEL_IDX]][j] != v[slots[TWO_LEVEL_IDX]][idx]
  {
    var chain := Chain(slots, v, have);
    assert chain[8] == slots[ONE_LEVEL_IDX] && chain[41] == slots[TWO_LEVEL_IDX];
    SecondTableOwned(slots, v, have, idx);
    forall j | 0 <= j < SecondLevelNum(have) && j != idx
      ensures v[slots[TWO_LEVEL_IDX]][j] != v[slots[TWO_LEVEL_IDX]][idx]
    {
      SecondTableOwned(slots, v, have, j);
      assert 42 + 33 * j != 42 + 33 * idx;
    }
  }

  // More entries of the last second-level table.
  lemma SecondFilled(slots: Slots, v0: View, v1: View, have: int, want: int, idx: nat, m: set<int>,
                     got: seq<int>, k: nat, d0: Image, d1: Image)
    requires 40 + LEVEL_NUM * idx < have <= want <= 40 + LEVEL_NUM * (idx + 1) && want <= MAX_SECTORS && k <= |got|
    requires TablesSound(Chain(slots, v0, have), m)
    requires 0 <= slots[TWO_LEVEL_IDX] < NUM_SECTORS
    requires var s := v0[slots[TWO_LEVEL_IDX]][idx];
      && 0 <= s < NUM_SECTORS
      && v1 == v0[s := v1[s]] && d1 == d0[s := d1[s]]
      && v1[s][..have - 40 - LEVEL_NUM * idx] == v0[s][..have - 40 - LEVEL_NUM * idx]
      && v1[s][have - 40 - LEVEL_NUM * idx..want - 40 - LEVEL_NUM * idx] == got[k..]
    ensures Extended(slots, v0, have, slots, v1, want, got, k)
    ensures OnlyTablesWritten(d0, d1, Chain(slots, v1, want))
  {
    var s, from := v0[slots[TWO_LEVEL_IDX]][idx], have - 40 - LEVEL_NUM * idx;
    assert SecondLevelNum(have) == idx + 1 == SecondLevelNum(want);
    SecondTableApart(slots, v0, have, m, idx);
    forall j, r | 0 <= j < SecondLevelNum(have) && 0 <= r < LEVEL_NUM && 40 + LEVEL_NUM * j + r < have
      ensures Entry(v1, v0[slots[TWO_LEVEL_IDX]][j], r) == Entry(v0, v0[slots[TWO_LEVEL_IDX]][j], r)
    {
      if j == idx {
        assert v1[s][..from][r] == v0[s][..from][r];
      }
    }
    ChainKept(slots, v0, v1, have);
    forall p | Total(have) <= p < Total(want)
      ensures Own(slots, v1, p) == got[k + p - Total(have)]
    {
      assert (p - 42) / 33 == idx && (p - 42) % 33 == p - 42 - 33 * idx;
      var r := p - 43 - 33 * idx;
      assert v1[s][from..want - 40 - LEVEL_NUM * idx][r - from] == got[k..][r - from];
    }
    ExtendedIntro(slots, v0, have, slots, v1, want, got, k);
    SecondTableOwned(slots, v1, want, idx);
  }

  // New second-level tables after num full ones. v is the disk after the new tables, v1
  // after the two-level table as well.
  lemma SecondAdded(slots: Slots, v0: View, v: View, v1: View, num: nat, want: int,
                    base: set<int>, got: seq<int>, k: nat)
    requires 0 < num && 40 + LEVEL_NUM * num < want <= MAX_SECTORS && |got| == k + Total(want) - (42 + 33 * num)
    requires Allocates(base, NUM_SECTORS, got)
    requires TablesSound(Chain(slots, v0, 40 + LEVEL_NUM * num), base + Granted(got[..k]))
    requires 0 <= slots[TWO_LEVEL_IDX] < NUM_SECTORS
    requires v1 == v[slots[TWO_LEVEL_IDX] := v1[slots[TWO_LEVEL_IDX]]]
    requires v1[slots[TWO_LEVEL_IDX]][..num] == v0[slots[TWO_LEVEL_IDX]][..num]
    requires TablesHold(v, v1[slots[TWO_LEVEL_IDX]], num, SecondLevelNum(want), got, k)
    requires forall s | 0 <= s < NUM_SECTORS && s !in v1[slots[TWO_LEVEL_IDX]][num..SecondLevelNum(want)] ::
      v[s] == v0[s]
    ensures Extended(slots, v0, 40 + LEVEL_NUM * num, slots, v1, want, got, k)
  {
    SecondBase(slots, v0, v, v1, num, want, base, got, k);
    NewTablesOwned(slots, v1, num, want, got, k);
    SecondExtended(slots, v0, v1, num, want, got, k);
  }

  lemma SecondExtended(slots: Slots, v0: View, v1: View, num: nat, want: int, got: seq<int>, k: nat)
    requires 40 + LEVEL_NUM * num < want <= MAX_SECTORS && |got| == k + Total(want) - (42 + 33 * num)
    requires Total(40 + LEVEL_NUM * num) == 42 + 33 * num
    requires forall p | 0 <= p < 42 + 33 * num :: Own(slots, v1, p) == Own(slots, v0, p)
    requires forall p | 42 + 33 * num <= p < Total(want) :: Own(slots, v1, p) == got[k + p - (42 + 33 * num)]
    ensures Extended(slots, v0, 40 + LEVEL_NUM * num, slots, v1, want, got, k)
  {
    ExtendedIntro(slots, v0, 40 + LEVEL_NUM * num, slots, v1, want, got, k);
  }

  // Writing the new tables spares the old ones, and writing the two-level table all of them.
  lemma SecondBase(slots: Slots, v0: View, v: View, v1: View, num: nat, want: int,
                   base: set<int>, got: seq<int>, k: nat)
    requires 0 < num && 40 + LEVEL_NUM * num < want <= MAX_SECTORS && k <= |got|
    requires Allocates(base, NUM_SECTORS, got)
    requires TablesSound(Chain(slots, v0, 40 + LEVEL_NUM * num), base + Granted(got[..k]))
    requires 0 <= slots[TWO_LEVEL_IDX] < NUM_SECTORS
    requires v1 == v[slots[TWO_LEVEL_IDX] := v1[slots[TWO_LEVEL_IDX]]]
    requires v1[slots[TWO_LEVEL_IDX]][..num] == v0[slots[TWO_LEVEL_IDX]][..num]
    requires TablesHold(v, v1[slots[TWO_LEVEL_IDX]], num, SecondLevelNum(want), got, k)
    requires forall s | 0 <= s < NUM_SECTORS && s !in v1[slots[TWO_LEVEL_IDX]][num..SecondLevelNum(want)] ::
      v[s] == v0[s]
    ensures Total(40 + LEVEL_NUM * num) == 42 + 33 * num
    ensures forall p | 0 <= p < 42 + 33 * num :: Own(slots, v1, p) == Own(slots, v0, p)
    ensures TablesHold(v1, v1[slots[TWO_LEVEL_IDX]], num, SecondLevelNum(want), got, k)
  {
    var top, m, had := slots[TWO_LEVEL_IDX], base + Granted(got[..k]), 40 + LEVEL_NUM * num;
    assert Total(had) == 42 + 33 * num;
    TablesAreNew(base, v, v1[top], num, SecondLevelNum(want), got, k, k);
    SecondTableApart(slots, v0, had, m, 0);
    FullTablesKept(slots, v0, v, v1, num, SecondLevelNum(want), m);
    TablesHoldFrame(v, v1[top], num, SecondLevelNum(want), got, k, v1, top);
  }

  lemma NewTablesOwned(slots: Slots, v: View, num: nat, want: int, got: seq<int>, k: nat)
    requires 40 + LEVEL_NUM * num < want <= MAX_SECTORS && |got| == k + Total(want) - (42 + 33 * num)
    requires 0 <= slots[TWO_LEVEL_IDX] < NUM_SECTORS
    requires TablesHold(v, v[slots[TWO_LEVEL_IDX]], num, SecondLevelNum(want), got, k)
    ensures forall p | 42 + 33 * num <= p < Total(want) :: Own(slots, v, p) == got[k + p - (42 + 33 * num)]
  {
    forall p | 42 + 33 * num <= p < Total(want)
      ensures Own(slots, v, p) == got[k + p - (42 + 33 * num)]
    {
      OwnFromTables(slots, v, num, SecondLevelNum(want), got, k, p);
    }
  }

  lemma FullTablesKept(slots: Slots, v0: View, v: View, v1: View, num: nat, all: nat, m: set<int>)
    requires 0 < num <= LEVEL_NUM && TablesSound(Chain(slots, v0, 40 + LEVEL_NUM * num), m) && num <= all <= LEVEL_NUM
    requires 0 <= slots[TWO_LEVEL_IDX] < NUM_SECTORS
    requires v1 == v[slots[TWO_LEVEL_IDX] := v1[slots[TWO_LEVEL_IDX]]]
    requires v1[slots[TWO_LEVEL_IDX]][..num] == v0[slots[TWO_LEVEL_IDX]][..num]
    requires forall j | num <= j < all :: v1[slots[TWO_LEVEL_IDX]][j] !in m
    requires forall s | 0 <= s < NUM_SECTORS && s !in v1[slots[TWO_LEVEL_IDX]][num..all] :: v[s] == v0[s]
    ensures forall p | 0 <= p < Total(40 + LEVEL_NUM * num) :: Own(slots, v1, p) == Own(slots, v0, p)
  {
    var top := slots[TWO_LEVEL_IDX];
    assert forall s | 0 <= s < NUM_SECTORS && s in m && s != top :: v1[s] == v0[s];
    forall j | 0 <= j < num
      ensures 0 <= v0[top][j] < NUM_SECTORS
      ensures v1[top][j] == v0[top][j] && v1[v0[top][j]] == v0[v0[top][j]]
    {
      assert v1[top][..num][j] == v0[top][..num][j];
      SecondTableApart(slots, v0, 40 + LEVEL_NUM * num, m, j);
    }
    SecondTableApart(slots, v0, 40 + LEVEL_NUM * num, m, 0);
    ChainKept(slots, v0, v1, 40 + LEVEL_NUM * num);
  }

  // Where the last index table of a two-level chain falls.
  lemma LastTableFits(have: nat, want: nat, k: nat, avail: nat)
    requires NUM_DIRECT + LEVEL_NUM < want <= MAX_SECTORS && have < want
    requires TablesFit(Total(have), Total(want), k, avail)
    ensures have <= NUM_DIRECT ==> k + NUM_DIRECT - have < avail
    ensures have <= NUM_DIRECT + LEVEL_NUM ==> TablesFit(Total(have), Total(NUM_DIRECT + LEVEL_NUM), k, avail)
    ensures SecondLevelNum(have) < SecondLevelNum(want) ==>
      k + 42 + 33 * (SecondLevelNum(want) - 1) - Total(have) < avail
  {
    assert IsTable(8);
    assert IsTable(42 + 33 * (SecondLevelNum(want) - 1));
  }

  // After a step from have to mid the chain is fit to grow on.
  lemma GrownTables(slots0: Slots, v0: View, have: int, slots1: Slots, v1: View, mid: int,
                    base: set<int>, got0: seq<int>, got: seq<int>)
    requires got0 <= got && Extended(slots0, v0, have, slots1, v1, mid, got, |got0|)
    requires Allocates(base, NUM_SECTORS, got)
    requires TablesSound(Chain(slots0, v0, have), base + Granted(got0)) || have <= NUM_DIRECT
    requires TablesFit(Total(have), Total(mid), |got0|, NumClear(base, NUM_SECTORS))
    ensures TablesSound(Chain(slots1, v1, mid), base + Granted(got))
    ensures |got| == |got0| + Total(mid) - Total(have)
  {
    assert got[..|got0|] == got0;
    assert |Chain(slots1, v1, mid)| == |Chain(slots0, v0, have)| + |got| - |got0|;
    ExtendedTables(Chain(slots0, v0, have), base, got, |got0|);
  }

  // Filling up the last second-level table adds no index table.
  lemma NoTableBetween(have: nat, num: nat, k: nat, avail: nat)
    requires NUM_DIRECT + LEVEL_NUM < have <= MAX_SECTORS && num == SecondLevelNum(have)
    ensures TablesFit(Total(have), Total(40 + LEVEL_NUM * num), k, avail)
    ensures Total(40 + LEVEL_NUM * num) == 42 + 33 * num
  {
    assert SecondLevelNum(40 + LEVEL_NUM * num) == num;
    assert 42 + 33 * (num - 1) < Total(have) && Total(40 + LEVEL_NUM * num) == 42 + 33 * num;
  }

  // What a grown chain and the free map have in common, in terms of the number of
  // sectors that were clear before.
  lemma GrownHolds(chain: seq<int>, base: set<int>, got: seq<int>, k: nat)
    requires k < |got| && Allocates(base, NUM_SECTORS, got) && Allocates(base, NUM_SECTORS, got[..k])
    requires Sound(chain) && Elems(chain) <= base + Granted(got[..k])
    ensures Sound(chain + got[k..]) <==> |got| - k <= NumClear(base + Granted(got[..k]), NUM_SECTORS)
    ensures Sound(chain + got[k..]) ==>
      && Elems(got[k..]) !! base + Granted(got[..k])
      && base + Granted(got) == base + Granted(got[..k]) + Elems(got[k..])
      && Elems(chain + got[k..]) <= base + Granted(got)
  {
    ClearAfter(base, NUM_SECTORS, got[..k]);
    ExtendedSound(chain, base, got, k);
    assert got == got[..k] + got[k..];
    assert Granted(got) == Granted(got[..k]) + Granted(got[k..]);
  }

  lemma SoundTables(chain: seq<int>, m: set<int>)
    requires Sound(chain) && Elems(chain) <= m
    ensures TablesSound(chain, m)
  {
    assert forall p | 0 <= p < |chain| :: chain[p] in Elems(chain);
  }

  lemma FitFromClear(from: nat, to: nat, base: set<int>, got: seq<int>)
    requires Allocates(base, NUM_SECTORS, got)
    requires TablesFit(from, to, 0, NumClear(base + Granted(got), NUM_SECTORS))
    ensures TablesFit(from, to, |got|, NumClear(base, NUM_SECTORS))
  {
    ClearAfter(base, NUM_SECTORS, got);
  }

  // With room for a whole new chain of n data sectors every index table fits.
  lemma FitsWhenRoom(n: int, base: set<int>, got: seq<int>)
    requires n <= MAX_SECTORS && Allocates(base, NUM_SECTORS, got)
    ensures Total(n) <= NumClear(base + Granted(got), NUM_SECTORS) ==>
      TablesFit(0, Total(n), |got|, NumClear(base, NUM_SECTORS)) &&
      (NUM_DIRECT < n ==> |got| + NUM_DIRECT < NumClear(base, NUM_SECTORS))
  {
    ClearAfter(base, NUM_SECTORS, got);
  }

  // A chain made of new allocations only.
  lemma NewChain(base: set<int>, got: seq<int>, k: nat)
    requires k <= |got| && Allocates(base, NUM_SECTORS, got) && Allocates(base, NUM_SECTORS, got[..k])
    requires |got| - k <= NumClear(base + Granted(got[..k]), NUM_SECTORS)
    ensures Sound(got[k..]) && Elems(got[k..]) !! base + Granted(got[..k])
    ensures base + Granted(got) == base + Granted(got[..k]) + Elems(got[k..])
  {
    if k < |got| {
      GrownHolds([], base, got, k);
      assert [] + got[k..] == got[k..];
    } else {
      assert got[..k] == got;
    }
  }

  // ---------------------------------------------------------------- parts of a chain

  lemma SliceSnoc(chain: seq<int>, from: nat, to: nat, end: nat)
    requires Sound(chain) && from <= to < end <= |chain|
    ensures Elems(chain[from..to + 1]) == Elems(chain[from..to]) + {chain[to]}
    ensures chain[to] in Elems(chain[from..end]) && chain[to] !in Elems(chain[from..to])
  {
    assert chain[from..to + 1] == chain[from..to] + [chain[to]];
    assert chain[from..end][to - from] == chain[to];
  }

  lemma SliceCons(chain: seq<int>, from: nat, to: nat)
    requires Sound(chain) && from < to <= |chain|
    ensures Elems(chain[from..to]) == Elems(chain[from + 1..to]) + {chain[from]}
    ensures chain[from] !in Elems(chain[from + 1..to])
  {
    assert chain[from..to] == [chain[from]] + chain[from + 1..to];
  }

  // Cutting a sound chain cuts its sectors in two.
  lemma SlicesApart(chain: seq<int>, from: nat, mid: nat, to: nat)
    requires Sound(chain) && from <= mid <= to <= |chain|
    ensures Elems(chain[from..mid]) !! Elems(chain[mid..to])
    ensures Elems(chain[from..to]) == Elems(chain[from..mid]) + Elems(chain[mid..to])
  {
    assert chain[from..to] == chain[from..mid] + chain[mid..to];
  }

  // The end of the first i second-level tables.
  function TablesEnd(chain: seq<int>, i: nat): nat
  {
    if 42 + 33 * i <= |chain| then 42 + 33 * i else |chain|
  }

  // All before the second-level tables except the two-level table, and i of these tables.
  ghost function BeforeTable(chain: seq<int>, i: nat): set<int>
    requires |chain| > 42
  {
    Elems(chain[..41]) + Elems(chain[42..TablesEnd(chain, i)])
  }

  lemma SecondTableEntries(slots: Slots, v: View, n: int, i: nat, count: nat, chain: seq<int>)
    requires NUM_DIRECT + LEVEL_NUM < n <= MAX_SECTORS && i < SecondLevelNum(n)
    requires chain == Chain(slots, v, n) && Sound(chain)
    requires count == if n - 40 - 32 * i < 32 then n - 40 - 32 * i else 32
    ensures TablesEnd(chain, i + 1) == 42 + 33 * i + 1 + count <= |chain|
    ensures 0 <= slots[TWO_LEVEL_IDX] < NUM_SECTORS && 0 <= v[slots[TWO_LEVEL_IDX]][i] < NUM_SECTORS
    ensures chain[42 + 33 * i] == v[slots[TWO_LEVEL_IDX]][i]
    ensures v[v[slots[TWO_LEVEL_IDX]][i]][..count] == chain[42 + 33 * i + 1..42 + 33 * i + 1 + count]
  {
    assert chain[41] == slots[TWO_LEVEL_IDX];
    SecondTableOwned(slots, v, n, i);
    var entries := v[chain[42 + 33 * i]];
    forall r | 0 <= r < count
      ensures entries[r] == chain[43 + 33 * i + r]
    {
      assert (1 + r + 33 * i) / 33 == i && (1 + r + 33 * i) % 33 == 1 + r;
    }
  }

  lemma OneLevelEntries(slots: Slots, v: View, n: int, count: nat)
    requires NUM_DIRECT < n <= MAX_SECTORS && Sound(Chain(slots, v, n))
    requires count == if n < NUM_DIRECT + LEVEL_NUM then n - NUM_DIRECT else LEVEL_NUM
    ensures 9 + count == if Total(n) < 41 then Total(n) else 41
    ensures Chain(slots, v, n)[8] == slots[ONE_LEVEL_IDX] && 0 <= slots[ONE_LEVEL_IDX] < NUM_SECTORS
    ensures v[slots[ONE_LEVEL_IDX]][..count] == Chain(slots, v, n)[9..9 + count]
    ensures Elems(Chain(slots, v, n)[..8]) !! Elems(Chain(slots, v, n)[8..9 + count])
    ensures Elems(Chain(slots, v, n)[..9 + count]) ==
            Elems(Chain(slots, v, n)[..8]) + Elems(Chain(slots, v, n)[8..9 + count])
  {
    var chain := Chain(slots, v, n);
    assert chain[8] == slots[ONE_LEVEL_IDX];
    SlicesApart(chain, 0, 8, 9 + count);
  }

  lemma BeforeNextTable(chain: seq<int>, i: nat, count: nat)
    requires Sound(chain) && TablesEnd(chain, i + 1) == 42 + 33 * i + 1 + count <= |chain|
    ensures BeforeTable(chain, i) !! Elems(chain[42 + 33 * i..42 + 33 * i + 1 + count])
    ensures BeforeTable(chain, i + 1) == BeforeTable(chain, i) + Elems(chain[42 + 33 * i..42 + 33 * i + 1 + count])
  {
    var from, to := 42 + 33 * i, 42 + 33 * i + 1 + count;
    SlicesApart(chain, 42, from, to);
    SlicesApart(chain, 0, 41, from);
    SlicesApart(chain, 0, from, to);
  }

  lemma WithoutTwoLevel(chain: seq<int>, n: int)
    requires NUM_DIRECT + LEVEL_NUM < n <= MAX_SECTORS && Sound(chain) && |chain| == Total(n)
    ensures BeforeTable(chain, 0) == Elems(chain[..41])
    ensures chain[41] !in BeforeTable(chain, SecondLevelNum(n))
    ensures Elems(chain) == BeforeTable(chain, SecondLevelNum(n)) + {chain[41]}
  {
    assert TablesEnd(chain, SecondLevelNum(n)) == |chain|;
    assert chain == chain[..41] + [chain[41]] + chain[42..];
  }

  // ---------------------------------------------------------------- data sectors

  // Data sectors sit at positions of their own, in order, and never at a table's.
  lemma PositionOwned(i: nat, n: int)
    requires i < n <= MAX_SECTORS
    ensures Position(i) < Total(n) && !IsTable(Position(i))
  {
    if i >= 40 {
      assert Position(i) == 43 + 33 * ((i - 40) / 32) + (i - 40) % 32;
    }
  }

  lemma PositionIncreases(i: nat, j: nat)
    requires i < j
    ensures Position(i) < Position(j)
  {
  }

  // The data sectors of the file in order.
  ghost function FlatList(chain: seq<int>, n: nat): (r: seq<int>)
    requires n <= MAX_SECTORS && Total(n) <= |chain|
    ensures |r| == n
    ensures forall i | 0 <= i < n :: Position(i) < |chain| && r[i] == chain[Position(i)]
  {
    seq(n, i requires 0 <= i < n => (PositionOwned(i, n); chain[Position(i)]))
  }

  // Every position holds an index table or one data sector.
  lemma PositionsCovered(p: nat, n: int)
    requires p < Total(n) && n <= MAX_SECTORS && !IsTable(p)
    ensures exists i: nat :: i < n && Position(i) == p
  {
    var i := if p < 8 then p else if p < 41 then p - 1 else 40 + 32 * ((p - 42) / 33) + (p - 42) % 33 - 1;
    assert Position(i) == p;
  }

  // The tables on the way to data sector i, and the entry that names it.
  lemma LookUp(slots: Slots, v: View, n: int, i: nat)
    requires i < n <= MAX_SECTORS && Sound(Chain(slots, v, n))
    ensures Position(i) < Total(n) && 0 <= Chain(slots, v, n)[Position(i)] < NUM_SECTORS
    ensures i < 8 ==> Chain(slots, v, n)[Position(i)] == slots[i]
    ensures 8 <= i < 40 ==> 0 <= slots[ONE_LEVEL_IDX] < NUM_SECTORS &&
                            Chain(slots, v, n)[Position(i)] == v[slots[ONE_LEVEL_IDX]][i - 8]
    ensures i >= 40 ==>
      var j, r := (i - 40) / 32, (i - 40) % 32;
      && 0 <= slots[TWO_LEVEL_IDX] < NUM_SECTORS && 0 <= v[slots[TWO_LEVEL_IDX]][j] < NUM_SECTORS
      && Chain(slots, v, n)[Position(i)] == v[v[slots[TWO_LEVEL_IDX]][j]][r]
  {
    var chain := Chain(slots, v, n);
    PositionOwned(i, n);
    if 8 <= i < 40 {
      assert chain[8] == slots[ONE_LEVEL_IDX];
    } else if i >= 40 {
      var j, r := (i - 40) / 32, (i - 40) % 32;
      assert chain[41] == slots[TWO_LEVEL_IDX];
      SecondTableOwned(slots, v, n, j);
      assert Position(i) == 43 + 33 * j + r;
      assert (1 + r + 33 * j) / 33 == j && (1 + r + 33 * j) % 33 == 1 + r;
    }
  }

  // Table numbers taken from a byte offset and from a sector number agree.
  lemma OffsetSplit(offset: nat)
    ensures offset >= 1024 ==> (offset - 1024) / 128 == offset / 128 - 8
    ensures offset >= 5120 ==> (offset - 5120) / 4096 == (offset / 128 - 40) / 32
    ensures offset >= 5120 ==> (offset - 5120) % 4096 / 128 == (offset / 128 - 40) % 32
  {
  }

  // A chain depends on the disk through its index tables alone.
  lemma SameTables(slots: Slots, v0: View, v1: View, n: int)
    requires n <= MAX_SECTORS && Sound(Chain(slots, v0, n))
    requires forall p | 0 <= p < Total(n) && IsTable(p) :: v1[Chain(slots, v0, n)[p]] == v0[Chain(slots, v0, n)[p]]
    ensures Chain(slots, v1, n) == Chain(slots, v0, n)
  {
    var chain := Chain(slots, v0, n);
    forall p | 0 <= p < Total(n)
      ensures Own(slots, v1, p) == chain[p]
    {
      if p > 8 {
        assert IsTable(8) && chain[8] == slots[ONE_LEVEL_IDX];
      }
      if p > 41 {
        assert IsTable(41) && chain[41] == slots[TWO_LEVEL_IDX];
        var j := (p - 42) / 33;
        SecondTableOwned(slots, v0, n, j);
      }
    }
  }
}
