/**
 Readers and writers of each disk sector (filesys/synchdisk.cc): one semaphore a sector,
 and one lock for all the reader counts, which a first reader holds while it sleeps on the
 semaphore of its sector. ReadWriteLock of threads/synch.cc is the case of one sector.

 A step is one statement of one thread, since interrupts are on between them; V is split
 where it may yield, before the value is raised.

 Any thread may take the next step, and a thread that waits for a lock or a semaphore may
 look at it again at any time, where in the code it sleeps in a queue until it is woken. So
 there are more runs here than in the code, and what holds in all of them is safety.
 ReadersWritersQueues has the queues and the priorities: its runs are among these, and it
 says when threads are left asleep.
 */
module ReadersWriters {

  datatype Pc =
    | Idle
    // PlusReader(s)
    | WantsLock(s: nat)      // readerLock->Acquire()
    | Locked(s: nat)         // about to count itself
    | Counted(s: nat)        // about to test for the first reader
    | First(s: nat)          // mutex[s]->P()
    | Entering(s: nat)       // about to release the lock
    | Entered(s: nat)        // has released it but for value++
    | Reading(s: nat)
    // MinusReader(s)
    | WantsOut(s: nat)       // readerLock->Acquire()
    | LockedOut(s: nat)
    | CountedOut(s: nat)     // about to test for the last reader
    | Last(s: nat)           // in mutex[s]->V(), before value++
    | Leaving(s: nat)        // about to release the lock
    | Left(s: nat)           // has released it but for value++
    // PlusWriter(s), MinusWriter(s)
    | WantsWrite(s: nat)     // mutex[s]->P()
    | Writing(s: nat)
    | Written(s: nat)        // in mutex[s]->V(), before value++

  // Who has taken a sector's semaphore.
  datatype Holder = Nobody | Readers | Writer(t: nat)

  // The last field records who took each semaphore and has not given it back.
  datatype State = State(
    pc: seq<Pc>,
    lock: int,               // value of the semaphore in readerLock
    owner: int,              // of readerLock; NOBODY if it has none
    readerCnt: seq<int>,
    mutex: seq<int>,         // values of the semaphores of the sectors
    holder: seq<Holder>)

  const NOBODY := -1

  ghost function Initial(n: nat, sectors: nat): State
  {
    State(seq(n, _ => Idle), 1, NOBODY, seq(sectors, _ => 0), seq(sectors, _ => 1), seq(sectors, _ => Nobody))
  }

  // What an idle thread does next: read or write a sector.
  datatype Turn = Turn(t: nat, writes: bool, sector: nat)

  ghost predicate Shaped(s: State)
  {
    && |s.mutex| == |s.readerCnt| == |s.holder|
    && forall t | 0 <= t < |s.pc| :: s.pc[t].Idle? || s.pc[t].s < |s.mutex|
  }

  // The next step of a thread; a thread that cannot go on stays where it is.
  ghost function Step(s: State, turn: Turn): (r: State)
    requires Shaped(s) && turn.t < |s.pc| && turn.sector < |s.mutex|
    ensures Shaped(r) && |r.pc| == |s.pc| && |r.mutex| == |s.mutex|
  {
    var t := turn.t;
    match s.pc[t]
    case Idle => s.(pc := s.pc[t := if turn.writes then WantsWrite(turn.sector) else WantsLock(turn.sector)])
    case WantsLock(k) =>
      if s.lock == 0 then s else s.(pc := s.pc[t := Locked(k)], lock := s.lock - 1, owner := t)
    case Locked(k) => s.(pc := s.pc[t := Counted(k)], readerCnt := s.readerCnt[k := s.readerCnt[k] + 1])
    case Counted(k) => s.(pc := s.pc[t := if s.readerCnt[k] == 1 then First(k) else Entering(k)])
    case First(k) =>
      if s.mutex[k] == 0 then s else
        s.(pc := s.pc[t := Entering(k)], mutex := s.mutex[k := s.mutex[k] - 1], holder := s.holder[k := Readers])
    case Entering(k) => s.(pc := s.pc[t := Entered(k)], owner := NOBODY)
    case Entered(k) => s.(pc := s.pc[t := Reading(k)], lock := s.lock + 1)
    case Reading(k) => s.(pc := s.pc[t := WantsOut(k)])
    case WantsOut(k) =>
      if s.lock == 0 then s else s.(pc := s.pc[t := LockedOut(k)], lock := s.lock - 1, owner := t)
    case LockedOut(k) => s.(pc := s.pc[t := CountedOut(k)], readerCnt := s.readerCnt[k := s.readerCnt[k] - 1])
    case CountedOut(k) => s.(pc := s.pc[t := if s.readerCnt[k] == 0 then Last(k) else Leaving(k)])
    case Last(k) =>
      s.(pc := s.pc[t := Leaving(k)], mutex := s.mutex[k := s.mutex[k] + 1], holder := s.holder[k := Nobody])
    case Leaving(k) => s.(pc := s.pc[t := Left(k)], owner := NOBODY)
    case Left(k) => s.(pc := s.pc[t := Idle], lock := s.lock + 1)
    case WantsWrite(k) =>
      if s.mutex[k] == 0 then s else
        s.(pc := s.pc[t := Writing(k)], mutex := s.mutex[k := s.mutex[k] - 1], holder := s.holder[k := Writer(t)])
    case Writing(k) => s.(pc := s.pc[t := Written(k)])
    case Written(k) =>
      s.(pc := s.pc[t := Idle], mutex := s.mutex[k := s.mutex[k] + 1], holder := s.holder[k := Nobody])
  }

  // ---------------------------------------------------------------- the invariant

  // Holds readerLock, or has not yet raised its value again.
  predicate HasLock(pc: Pc)
  {
    pc.Locked? || pc.Counted? || pc.First? || pc.Entering? || pc.Entered? ||
    pc.LockedOut? || pc.CountedOut? || pc.Last? || pc.Leaving? || pc.Left?
  }

  // Is between Acquire and Release.
  predicate Inside(pc: Pc)
  {
    HasLock(pc) && !pc.Entered? && !pc.Left?
  }

  // Is counted in readerCnt[k].
  predicate IsCounted(pc: Pc, k: nat)
  {
    match pc
    case Counted(j) => j == k
    case First(j) => j == k
    case Entering(j) => j == k
    case Entered(j) => j == k
    case Reading(j) => j == k
    case WantsOut(j) => j == k
    case LockedOut(j) => j == k
    case _ => false
  }

  ghost function CountedReaders(s: State, k: nat): set<nat>
  {
    set t: nat | t < |s.pc| && IsCounted(s.pc[t], k)
  }

  ghost predicate LockInv(s: State)
  {
    && 0 <= s.lock <= 1
    && (forall t, u | 0 <= t < |s.pc| && 0 <= u < |s.pc| && HasLock(s.pc[t]) && HasLock(s.pc[u]) :: t == u)
    && (s.lock == 1 <==> forall t | 0 <= t < |s.pc| :: !HasLock(s.pc[t]))
  }

  ghost predicate OwnerInv(s: State)
  {
    forall t | 0 <= t < |s.pc| && Inside(s.pc[t]) :: s.owner == t
  }

  // readerCnt is exact.
  ghost predicate CountInv(s: State)
    requires Shaped(s)
  {
    forall k | 0 <= k < |s.mutex| :: s.readerCnt[k] == |CountedReaders(s, k)|
  }

  // What thread t has to do with the semaphore of its sector.
  ghost predicate ThreadInv(s: State, t: nat)
    requires Shaped(s) && t < |s.pc|
  {
    match s.pc[t]
    case Counted(k) => s.holder[k] == Readers <==> s.readerCnt[k] > 1
    case First(k) => s.readerCnt[k] == 1 && s.holder[k] != Readers
    case Entering(k) => s.holder[k] == Readers
    case Entered(k) => s.holder[k] == Readers
    case Reading(k) => s.holder[k] == Readers
    case WantsOut(k) => s.holder[k] == Readers
    case LockedOut(k) => s.holder[k] == Readers
    case CountedOut(k) => s.holder[k] == Readers
    case Last(k) => s.holder[k] == Readers && s.readerCnt[k] == 0
    case Writing(k) => s.holder[k] == Writer(t)
    case Written(k) => s.holder[k] == Writer(t)
    case _ => true
  }

  // What the holder of the semaphore of sector k has to do with the threads.
  ghost predicate SectorInv(s: State, k: nat)
    requires Shaped(s) && k < |s.mutex|
  {
    && s.mutex[k] == (if s.holder[k] == Nobody then 1 else 0)
    && (s.holder[k].Writer? ==>
          s.holder[k].t < |s.pc| && (s.pc[s.holder[k].t] == Writing(k) || s.pc[s.holder[k].t] == Written(k)))
    // readers without a count, or a count without the semaphore: somebody with the lock
    // is about to put that right
    && (s.holder[k] == Readers && s.readerCnt[k] == 0 ==>
          exists t :: 0 <= t < |s.pc| && (s.pc[t] == CountedOut(k) || s.pc[t] == Last(k)))
    && (s.holder[k] != Readers && s.readerCnt[k] != 0 ==>
          exists t :: 0 <= t < |s.pc| && (s.pc[t] == Counted(k) || s.pc[t] == First(k)))
  }

  ghost predicate Inv(s: State)
  {
    && Shaped(s) && LockInv(s) && OwnerInv(s) && CountInv(s)
    && (forall t | 0 <= t < |s.pc| :: ThreadInv(s, t))
    && (forall k | 0 <= k < |s.mutex| :: SectorInv(s, k))
  }

  lemma InitialInv(n: nat, sectors: nat)
    ensures Inv(Initial(n, sectors))
  {
    var s := Initial(n, sectors);
    forall k | 0 <= k < sectors
      ensures s.readerCnt[k] == |CountedReaders(s, k)|
    {
      assert CountedReaders(s, k) == {};
    }
  }

  lemma StepLock(s: State, turn: Turn)
    requires Inv(s) && turn.t < |s.pc| && turn.sector < |s.mutex|
    ensures LockInv(Step(s, turn))
  {
    var s1, t := Step(s, turn), turn.t;
    assert forall u | 0 <= u < |s.pc| && u != t :: s1.pc[u] == s.pc[u];
    OwnLock(s, turn);
    if s1.lock == 0 && !HasLock(s1.pc[t]) {
      var u :| 0 <= u < |s.pc| && HasLock(s.pc[u]);
      assert HasLock(s1.pc[u]);
    }
  }

  lemma OwnLock(s: State, turn: Turn)
    requires Inv(s) && turn.t < |s.pc| && turn.sector < |s.mutex|
    ensures var s1, t := Step(s, turn), turn.t;
      && 0 <= s1.lock <= 1
      && (HasLock(s1.pc[t]) ==> s1.lock == 0 && (HasLock(s.pc[t]) || s.lock == 1))
      && (s1.lock == 0 && !HasLock(s1.pc[t]) ==> s.lock == 0 && !HasLock(s.pc[t]))
      && (s1.lock == 1 ==> s.lock == 1 || HasLock(s.pc[t]))
  {
  }

  lemma StepOwner(s: State, turn: Turn)
    requires Inv(s) && turn.t < |s.pc| && turn.sector < |s.mutex|
    ensures OwnerInv(Step(s, turn))
  {
    var s1, t := Step(s, turn), turn.t;
    forall u | 0 <= u < |s.pc| && Inside(s1.pc[u])
      ensures s1.owner == u
    {
      if u != t {
        assert s1.pc[u] == s.pc[u] && HasLock(s.pc[u]) && !HasLock(s.pc[t]);
      }
    }
  }

  // Counting in and out happens where the thread joins and leaves those counted.
  lemma OwnCount(s: State, turn: Turn, k: nat)
    requires Inv(s) && turn.t < |s.pc| && turn.sector < |s.mutex| && k < |s.mutex|
    ensures var s1, t := Step(s, turn), turn.t;
      s1.readerCnt[k] - s.readerCnt[k] ==
      (if IsCounted(s1.pc[t], k) then 1 else 0) - (if IsCounted(s.pc[t], k) then 1 else 0)
  {
  }

  lemma StepCount(s: State, turn: Turn)
    requires Inv(s) && turn.t < |s.pc| && turn.sector < |s.mutex|
    ensures CountInv(Step(s, turn))
  {
    var s1, t := Step(s, turn), turn.t;
    forall k | 0 <= k < |s.mutex|
      ensures s1.readerCnt[k] == |CountedReaders(s1, k)|
    {
      OwnCount(s, turn, k);
      OthersCount(s, s1, t, k);
    }
  }

  lemma OthersCount(s: State, s1: State, t: nat, k: nat)
    requires t < |s.pc| == |s1.pc| && s1.pc == s.pc[t := s1.pc[t]]
    ensures |CountedReaders(s1, k)| - |CountedReaders(s, k)| ==
            (if IsCounted(s1.pc[t], k) then 1 else 0) - (if IsCounted(s.pc[t], k) then 1 else 0)
  {
    var before, after := CountedReaders(s, k), CountedReaders(s1, k);
    SameOthers(s, s1, t, k);
    Besides(before, t);
    Besides(after, t);
  }

  lemma SameOthers(s: State, s1: State, t: nat, k: nat)
    requires t < |s.pc| == |s1.pc| && s1.pc == s.pc[t := s1.pc[t]]
    ensures CountedReaders(s, k) - {t} == CountedReaders(s1, k) - {t}
  {
    forall u: nat | u != t
      ensures u in CountedReaders(s, k) <==> u in CountedReaders(s1, k)
    {
    }
  }

  lemma Besides(counted: set<nat>, t: nat)
    ensures |counted| == |counted - {t}| + if t in counted then 1 else 0
  {
    if t in counted {
      assert counted == (counted - {t}) + {t};
    } else {
      assert counted == counted - {t};
    }
  }

  lemma CountedAtLeastOne(s: State, k: nat, u: nat)
    requires Shaped(s) && CountInv(s) && k < |s.mutex| && u < |s.pc| && IsCounted(s.pc[u], k)
    ensures s.readerCnt[k] >= 1
  {
    assert u in CountedReaders(s, k);
  }

  lemma StepOther(s: State, turn: Turn, u: nat)
    requires Inv(s) && turn.t < |s.pc| && turn.sector < |s.mutex| && u < |s.pc| && u != turn.t
    ensures ThreadInv(Step(s, turn), u)
  {
    var t := turn.t;
    assert ThreadInv(s, t) && ThreadInv(s, u);
    if !s.pc[u].Idle? {
      var k := s.pc[u].s;
      assert SectorInv(s, k);
      if IsCounted(s.pc[u], k) {
        CountedAtLeastOne(s, k, u);
      }
      assert Step(s, turn).pc[u] == s.pc[u];
    }
  }

  lemma StepOwn(s: State, turn: Turn)
    requires Inv(s) && turn.t < |s.pc| && turn.sector < |s.mutex|
    ensures ThreadInv(Step(s, turn), turn.t)
  {
    var t := turn.t;
    assert ThreadInv(s, t);
    if !s.pc[t].Idle? {
      var k := s.pc[t].s;
      assert SectorInv(s, k);
      if IsCounted(s.pc[t], k) {
        CountedAtLeastOne(s, k, t);
      }
      if s.pc[t].Locked? {
        assert s.readerCnt[k] >= 0;
      }
    }
  }

  lemma StepSector(s: State, turn: Turn, k: nat)
    requires Inv(s) && turn.t < |s.pc| && turn.sector < |s.mutex| && k < |s.mutex|
    ensures SectorInv(Step(s, turn), k)
  {
    StepMutex(s, turn, k);
    StepReaders(s, turn, k);
    StepNoReaders(s, turn, k);
  }

  lemma StepMutex(s: State, turn: Turn, k: nat)
    requires Inv(s) && turn.t < |s.pc| && turn.sector < |s.mutex| && k < |s.mutex|
    ensures var s1 := Step(s, turn);
      && s1.mutex[k] == (if s1.holder[k] == Nobody then 1 else 0)
      && (s1.holder[k].Writer? ==> s1.holder[k].t < |s1.pc|)
      && (s1.holder[k].Writer? ==> s1.pc[s1.holder[k].t] == Writing(k) || s1.pc[s1.holder[k].t] == Written(k))
  {
    assert SectorInv(s, k) && ThreadInv(s, turn.t);
  }

  lemma StepReaders(s: State, turn: Turn, k: nat)
    requires Inv(s) && turn.t < |s.pc| && turn.sector < |s.mutex| && k < |s.mutex|
    ensures var s1 := Step(s, turn);
      s1.holder[k] == Readers && s1.readerCnt[k] == 0 ==>
        exists t :: 0 <= t < |s1.pc| && (s1.pc[t] == CountedOut(k) || s1.pc[t] == Last(k))
  {
    var s1, t := Step(s, turn), turn.t;
    assert SectorInv(s, k) && ThreadInv(s, t);
    if s1.holder[k] == Readers && s1.readerCnt[k] == 0 {
      if s.readerCnt[k] == 0 {
        var u :| 0 <= u < |s.pc| && (s.pc[u] == CountedOut(k) || s.pc[u] == Last(k));
        assert s1.pc[u] == CountedOut(k) || s1.pc[u] == Last(k);
      } else {
        assert s1.pc[t] == CountedOut(k);
      }
    }
  }

  lemma StepNoReaders(s: State, turn: Turn, k: nat)
    requires Inv(s) && turn.t < |s.pc| && turn.sector < |s.mutex| && k < |s.mutex|
    ensures var s1 := Step(s, turn);
      s1.holder[k] != Readers && s1.readerCnt[k] != 0 ==>
        exists t :: 0 <= t < |s1.pc| && (s1.pc[t] == Counted(k) || s1.pc[t] == First(k))
  {
    var s1, t := Step(s, turn), turn.t;
    assert SectorInv(s, k) && ThreadInv(s, t);
    if s1.holder[k] != Readers && s1.readerCnt[k] != 0 {
      if s.readerCnt[k] != 0 {
        var u :| 0 <= u < |s.pc| && (s.pc[u] == Counted(k) || s.pc[u] == First(k));
        assert s1.pc[u] == Counted(k) || s1.pc[u] == First(k);
      } else {
        assert s1.pc[t] == Counted(k);
      }
    }
  }

  // Every step keeps the invariant.
  lemma StepInv(s: State, turn: Turn)
    requires Inv(s) && turn.t < |s.pc| && turn.sector < |s.mutex|
    ensures Inv(Step(s, turn))
  {
    StepLock(s, turn);
    StepOwner(s, turn);
    StepCount(s, turn);
    forall u | 0 <= u < |s.pc|
      ensures ThreadInv(Step(s, turn), u)
    {
      if u == turn.t { StepOwn(s, turn); } else { StepOther(s, turn, u); }
    }
    forall k | 0 <= k < |s.mutex|
      ensures SectorInv(Step(s, turn), k)
    {
      StepSector(s, turn, k);
    }
  }

  // ---------------------------------------------------------------- every run

  ghost predicate IsSchedule(n: nat, sectors: nat, schedule: seq<Turn>)
  {
    forall i | 0 <= i < |schedule| :: schedule[i].t < n && schedule[i].sector < sectors
  }

  ghost function After(n: nat, sectors: nat, schedule: seq<Turn>): (s: State)
    requires IsSchedule(n, sectors, schedule)
    ensures Inv(s) && |s.pc| == n && |s.mutex| == sectors
  {
    if schedule == [] then InitialInv(n, sectors); Initial(n, sectors)
    else
      var before := schedule[..|schedule| - 1];
      var s := After(n, sectors, before);
      StepInv(s, schedule[|before|]);
      Step(s, schedule[|before|])
  }

  // While a thread writes a sector no other writes it and none reads it, in any run.
  lemma WriterExcludesAll(n: nat, sectors: nat, schedule: seq<Turn>, t: nat, u: nat, k: nat)
    requires IsSchedule(n, sectors, schedule) && t < n && u < n && t != u
    ensures var s := After(n, sectors, schedule);
      s.pc[t] == Writing(k) ==> s.pc[u] != Writing(k) && s.pc[u] != Reading(k)
  {
    var s := After(n, sectors, schedule);
    assert ThreadInv(s, t) && ThreadInv(s, u);
  }

  // readerCnt[k] is the number of threads counted in and not yet out, all of those reading
  // among them; and a reader has the semaphore.
  lemma ReaderCountExact(n: nat, sectors: nat, schedule: seq<Turn>, t: nat, k: nat)
    requires IsSchedule(n, sectors, schedule) && t < n && k < sectors
    ensures var s := After(n, sectors, schedule);
      && s.readerCnt[k] == |CountedReaders(s, k)|
      && (s.pc[t] == Reading(k) ==> t in CountedReaders(s, k) && s.mutex[k] == 0)
  {
    var s := After(n, sectors, schedule);
    assert ThreadInv(s, t) && SectorInv(s, k);
  }

  // The assertion in Release that the calling thread holds the lock never fails, and one
  // thread at a time is past Acquire.
  lemma LockIsHeld(n: nat, sectors: nat, schedule: seq<Turn>, t: nat, u: nat)
    requires IsSchedule(n, sectors, schedule) && t < n && u < n
    ensures var s := After(n, sectors, schedule);
      && (s.pc[t].Entering? || s.pc[t].Leaving? ==> s.owner == t)
      && (HasLock(s.pc[t]) && HasLock(s.pc[u]) ==> t == u)
  {
    assert Inside(After(n, sectors, schedule).pc[t]) ==> After(n, sectors, schedule).owner == t;
  }

  // Readers that have the semaphore of a sector while nobody has the lock.
  lemma ReaderInside(s: State, k: nat) returns (t: nat)
    requires Inv(s) && k < |s.mutex| && s.holder[k] == Readers && s.lock == 1
    ensures t < |s.pc| && (s.pc[t] == Reading(k) || s.pc[t] == WantsOut(k))
  {
    assert SectorInv(s, k);
    assert s.readerCnt[k] == |CountedReaders(s, k)|;
    assert forall v | 0 <= v < |s.pc| :: !HasLock(s.pc[v]);
    assert s.readerCnt[k] != 0;
    t :| t in CountedReaders(s, k);
  }
}
