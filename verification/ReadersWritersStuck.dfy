/**
 How a reader gets stuck in priority mode, as in BarrierStuck: a release of the lock by a
 thread with a greater priority number wakes it too early. It takes two threads.
 */
module ReadersWritersStuck {
  import opened ReadersWriters
  import opened ReadersWritersQueues

  // The scheduler would give the thread the processor: no thread that is awake inside the
  // protocol has a smaller number, unless it reads or writes, when it may wait for the disk.
  ghost predicate Obeys(prio: seq<int>, c: Config, turn: Turn)
    requires Ok(c) && |prio| == |c.s.pc| && Fits(c, turn)
  {
    !Asleep(c, turn.t) &&
    forall u | 0 <= u < |c.s.pc| && u != turn.t && !Asleep(c, u) && !Busy(c.s.pc[u]) :: prio[turn.t] <= prio[u]
  }

  predicate Busy(pc: Pc)
  {
    pc.Idle? || pc.Reading? || pc.Writing?
  }

  // A schedule that the scheduler could follow.
  ghost predicate Followed(prio: seq<int>, c: Config, schedule: seq<Turn>)
    requires Ok(c) && |prio| == |c.s.pc| && IsSchedule(|c.s.pc|, |c.s.mutex|, schedule)
    decreases |schedule|
  {
    schedule == [] ||
    (NextOk(prio, c, schedule[0]);
     Obeys(prio, c, schedule[0]) && Followed(prio, Next(prio, c, schedule[0]), schedule[1..]))
  }

  ghost predicate LeadsTo(prio: seq<int>, m: nat, schedule: seq<Turn>, c: Config)
  {
    && IsSchedule(|prio|, m, schedule) && Followed(prio, Start(|prio|, m), schedule)
    && Run(prio, Start(|prio|, m), schedule) == c
  }

  ghost predicate Reached(prio: seq<int>, m: nat, c: Config)
  {
    && Ok(c) && |prio| == |c.s.pc| && |c.s.mutex| == m
    && exists schedule {:trigger LeadsTo(prio, m, schedule, c)} :: LeadsTo(prio, m, schedule, c)
  }

  lemma StartReached(prio: seq<int>, m: nat)
    ensures Reached(prio, m, Start(|prio|, m))
  {
    assert LeadsTo(prio, m, [], Start(|prio|, m));
  }

  lemma {:induction false} FollowedOn(prio: seq<int>, c: Config, schedule: seq<Turn>, turn: Turn)
    requires Ok(c) && |prio| == |c.s.pc| && IsSchedule(|c.s.pc|, |c.s.mutex|, schedule) && Fits(c, turn)
    requires Followed(prio, c, schedule) && Obeys(prio, Run(prio, c, schedule), turn)
    ensures IsSchedule(|c.s.pc|, |c.s.mutex|, schedule + [turn]) && Followed(prio, c, schedule + [turn])
    decreases |schedule|
  {
    if schedule == [] {
      assert [] + [turn] == [turn] && [turn][1..] == [];
      NextOk(prio, c, turn);
    } else {
      NextOk(prio, c, schedule[0]);
      assert (schedule + [turn])[1..] == schedule[1..] + [turn];
      FollowedOn(prio, Next(prio, c, schedule[0]), schedule[1..], turn);
    }
  }

  lemma ReachNext(prio: seq<int>, m: nat, c: Config, turn: Turn) returns (c1: Config)
    requires Reached(prio, m, c) && Fits(c, turn) && Obeys(prio, c, turn)
    ensures Reached(prio, m, c1) && c1 == Next(prio, c, turn)
  {
    c1 := Next(prio, c, turn);
    NextOk(prio, c, turn);
    var schedule :| LeadsTo(prio, m, schedule, c);
    FollowedOn(prio, Start(|prio|, m), schedule, turn);
    RunOne(prio, Start(|prio|, m), schedule, turn);
    assert LeadsTo(prio, m, schedule + [turn], c1);
  }

  // ---------------------------------------------------------------- two threads

  // Thread h has the smaller number.
  ghost predicate Pair(prio: seq<int>, h: nat, l: nat)
  {
    h < |prio| && l < |prio| && prio[h] < prio[l]
  }

  // Where two threads stand with sector 0: their program counters, the values of the lock and
  // of the sector's semaphore, the reader count, and who sleeps for the two.
  datatype View = View(x: Pc, y: Pc, lock: int, cnt: int, mutex: int, queue: seq<nat>, q: seq<nat>)

  function Swapped(v: View): View
  {
    v.(x := v.y, y := v.x)
  }

  // Threads a and b stand so, and nobody else takes part.
  ghost predicate At(c: Config, a: nat, b: nat, v: View)
  {
    && Ok(c) && a < |c.s.pc| && b < |c.s.pc| && a != b && |c.s.mutex| > 0
    && c.s.pc[a] == v.x && c.s.pc[b] == v.y
    && (forall t | 0 <= t < |c.s.pc| && t != a && t != b :: c.s.pc[t].Idle?)
    && c.s.lock == v.lock && c.s.readerCnt[0] == v.cnt && c.s.mutex[0] == v.mutex
    && c.queue == v.queue && c.queues[0] == v.q
  }

  predicate AtZero(pc: Pc)
  {
    pc.Idle? || pc.s == 0
  }

  // Where they stand after thread a, which is awake, has moved.
  function Moved(prio: seq<int>, v: View, a: nat, writes: bool): View
  {
    match v.x
    case Idle => v.(x := if writes then WantsWrite(0) else WantsLock(0))
    case WantsLock(_) => if v.lock == 0 then v.(queue := v.queue + [a]) else v.(x := Locked(0), lock := v.lock - 1)
    case Locked(_) => v.(x := Counted(0), cnt := v.cnt + 1)
    case Counted(_) => v.(x := if v.cnt == 1 then First(0) else Entering(0))
    case First(_) => if v.mutex == 0 then v.(q := v.q + [a]) else v.(x := Entering(0), mutex := v.mutex - 1)
    case Entering(_) =>
      if Yields(prio, v.queue, a) then v.(x := Entered(0), queue := Rest(v.queue))
      else v.(x := Reading(0), lock := v.lock + 1, queue := Rest(v.queue))
    case Entered(_) => v.(x := Reading(0), lock := v.lock + 1)
    case Reading(_) => v.(x := WantsOut(0))
    case WantsOut(_) => if v.lock == 0 then v.(queue := v.queue + [a]) else v.(x := LockedOut(0), lock := v.lock - 1)
    case LockedOut(_) => v.(x := CountedOut(0), cnt := v.cnt - 1)
    case CountedOut(_) =>
      if v.cnt != 0 then v.(x := Leaving(0))
      else if Yields(prio, v.q, a) then v.(x := Last(0), q := Rest(v.q))
      else v.(x := Leaving(0), mutex := v.mutex + 1, q := Rest(v.q))
    case Last(_) => v.(x := Leaving(0), mutex := v.mutex + 1)
    case Leaving(_) =>
      if Yields(prio, v.queue, a) then v.(x := Left(0), queue := Rest(v.queue))
      else v.(x := Idle, lock := v.lock + 1, queue := Rest(v.queue))
    case Left(_) => v.(x := Idle, lock := v.lock + 1)
    case WantsWrite(_) => if v.mutex == 0 then v.(q := v.q + [a]) else v.(x := Writing(0), mutex := v.mutex - 1)
    case Writing(_) =>
      if Yields(prio, v.q, a) then v.(x := Written(0), q := Rest(v.q))
      else v.(x := Idle, mutex := v.mutex + 1, q := Rest(v.q))
    case Written(_) => v.(x := Idle, mutex := v.mutex + 1)
  }

  lemma NextMoved(prio: seq<int>, c: Config, a: nat, b: nat, v: View, writes: bool)
    requires At(c, a, b, v) && |prio| == |c.s.pc| && AtZero(v.x) && !Asleep(c, a)
    ensures At(Next(prio, c, Turn(a, writes, 0)), a, b, Moved(prio, v, a, writes))
  {
    var turn := Turn(a, writes, 0);
    NextOk(prio, c, turn);
    if MustSleep(c, a) {
      SleepMoved(prio, c, a, b, v, writes);
    } else if RaisesLock(Step(c.s, turn).pc[a]) {
      ReleaseMoved(prio, c, a, b, v, writes);
    } else if RaisesMutex(Step(c.s, turn).pc[a]) {
      MutexReleaseMoved(prio, c, a, b, v, writes);
    } else {
      StepMoved(prio, c, a, b, v, writes);
    }
  }

  lemma SleepMoved(prio: seq<int>, c: Config, a: nat, b: nat, v: View, writes: bool)
    requires At(c, a, b, v) && |prio| == |c.s.pc| && AtZero(v.x) && !Asleep(c, a) && MustSleep(c, a)
    requires Ok(Next(prio, c, Turn(a, writes, 0)))
    ensures At(Next(prio, c, Turn(a, writes, 0)), a, b, Moved(prio, v, a, writes))
  {
  }

  lemma ReleaseMoved(prio: seq<int>, c: Config, a: nat, b: nat, v: View, writes: bool)
    requires At(c, a, b, v) && |prio| == |c.s.pc| && AtZero(v.x) && !Asleep(c, a) && !MustSleep(c, a)
    requires Ok(Next(prio, c, Turn(a, writes, 0))) && RaisesLock(Step(c.s, Turn(a, writes, 0)).pc[a])
    ensures At(Next(prio, c, Turn(a, writes, 0)), a, b, Moved(prio, v, a, writes))
  {
    var c1 := Next(prio, c, Turn(a, writes, 0));
    assert c1.s.pc == c.s.pc[a := c1.s.pc[a]];
  }

  lemma MutexReleaseMoved(prio: seq<int>, c: Config, a: nat, b: nat, v: View, writes: bool)
    requires At(c, a, b, v) && |prio| == |c.s.pc| && AtZero(v.x) && !Asleep(c, a) && !MustSleep(c, a)
    requires Ok(Next(prio, c, Turn(a, writes, 0))) && RaisesMutex(Step(c.s, Turn(a, writes, 0)).pc[a])
    ensures At(Next(prio, c, Turn(a, writes, 0)), a, b, Moved(prio, v, a, writes))
  {
    var c1 := Next(prio, c, Turn(a, writes, 0));
    assert c1.s.pc == c.s.pc[a := c1.s.pc[a]];
  }

  lemma StepMoved(prio: seq<int>, c: Config, a: nat, b: nat, v: View, writes: bool)
    requires At(c, a, b, v) && |prio| == |c.s.pc| && AtZero(v.x) && !Asleep(c, a) && !MustSleep(c, a)
    requires Ok(Next(prio, c, Turn(a, writes, 0)))
    requires var pc := Step(c.s, Turn(a, writes, 0)).pc[a]; !RaisesLock(pc) && !RaisesMutex(pc)
    ensures At(Next(prio, c, Turn(a, writes, 0)), a, b, Moved(prio, v, a, writes))
  {
    var c1 := Next(prio, c, Turn(a, writes, 0));
    assert c1 == c.(s := Step(c.s, Turn(a, writes, 0)));
    assert c1.s.pc == c.s.pc[a := c1.s.pc[a]];
  }

  // The scheduler leads to configuration c, and h and l stand so there.
  datatype Aspect = TheRun | TheView

  ghost predicate Shows(prio: seq<int>, m: nat, c: Config, h: nat, l: nat, v: View, aspect: Aspect)
  {
    match aspect
    case TheRun => Reached(prio, m, c)
    case TheView => At(c, h, l, v)
  }

  ghost predicate Stands(prio: seq<int>, m: nat, c: Config, h: nat, l: nat, v: View)
  {
    forall aspect {:trigger Shows(prio, m, c, h, l, v, aspect)} :: Shows(prio, m, c, h, l, v, aspect)
  }

  lemma StandsMeans(prio: seq<int>, m: nat, c: Config, h: nat, l: nat, v: View)
    ensures Stands(prio, m, c, h, l, v) <==> Reached(prio, m, c) && At(c, h, l, v)
  {
    if Stands(prio, m, c, h, l, v) {
      assert Shows(prio, m, c, h, l, v, TheRun) && Shows(prio, m, c, h, l, v, TheView);
    }
  }

  // The scheduler lets one of the two move: h, or l while h does not want to run.
  lemma Move(prio: seq<int>, m: nat, c: Config, h: nat, l: nat, v: View, first: bool, writes: bool)
      returns (c1: Config, v1: View)
    requires Pair(prio, h, l) && Stands(prio, m, c, h, l, v) && AtZero(v.x) && AtZero(v.y)
    requires if first then h !in v.queue && h !in v.q
             else l !in v.queue && l !in v.q && (Busy(v.x) || h in v.queue)
    ensures v1 == if first then Moved(prio, v, h, writes) else Swapped(Moved(prio, Swapped(v), l, writes))
    ensures Stands(prio, m, c1, h, l, v1)
  {
    StandsMeans(prio, m, c, h, l, v);
    if first {
      v1 := Moved(prio, v, h, writes);
      NextMoved(prio, c, h, l, v, writes);
      c1 := ReachNext(prio, m, c, Turn(h, writes, 0));
    } else {
      v1 := Swapped(Moved(prio, Swapped(v), l, writes));
      NextMoved(prio, c, l, h, Swapped(v), writes);
      c1 := ReachNext(prio, m, c, Turn(l, writes, 0));
    }
    StandsMeans(prio, m, c1, h, l, v1);
  }

  lemma NobodyInside(prio: seq<int>, m: nat, h: nat, l: nat) returns (c: Config)
    requires Pair(prio, h, l) && m > 0
    ensures Stands(prio, m, c, h, l, View(Idle, Idle, 1, 0, 1, [], []))
  {
    c := Start(|prio|, m);
    StartReached(prio, m);
    StandsMeans(prio, m, c, h, l, View(Idle, Idle, 1, 0, 1, [], []));
  }

  // Two threads read a sector at the same time.
  lemma ReadersShare(prio: seq<int>, m: nat, h: nat, l: nat) returns (c: Config)
    requires Pair(prio, h, l) && m > 0
    ensures Reached(prio, m, c) && c.s.pc[h] == Reading(0) && c.s.pc[l] == Reading(0) && c.s.readerCnt[0] == 2
  {
    c := NobodyInside(prio, m, h, l);
    c := FirstReads(prio, m, h, l, c);
    c := SecondReads(prio, m, h, l, c);
    StandsMeans(prio, m, c, h, l, View(Reading(0), Reading(0), 1, 2, 0, [], []));
  }

  lemma FirstReads(prio: seq<int>, m: nat, h: nat, l: nat, c: Config) returns (c1: Config)
    requires Pair(prio, h, l) && Stands(prio, m, c, h, l, View(Idle, Idle, 1, 0, 1, [], []))
    ensures Stands(prio, m, c1, h, l, View(Reading(0), Idle, 1, 1, 0, [], []))
  {
    var v := View(Idle, Idle, 1, 0, 1, [], []);
    c1, v := Move(prio, m, c, h, l, v, true, false);
    c1, v := Move(prio, m, c1, h, l, v, true, false);
    c1, v := Move(prio, m, c1, h, l, v, true, false);
    c1, v := Move(prio, m, c1, h, l, v, true, false);
    c1, v := Move(prio, m, c1, h, l, v, true, false);
    c1, v := Move(prio, m, c1, h, l, v, true, false);
  }

  lemma SecondReads(prio: seq<int>, m: nat, h: nat, l: nat, c: Config) returns (c1: Config)
    requires Pair(prio, h, l) && Stands(prio, m, c, h, l, View(Reading(0), Idle, 1, 1, 0, [], []))
    ensures Stands(prio, m, c1, h, l, View(Reading(0), Reading(0), 1, 2, 0, [], []))
  {
    var v := View(Reading(0), Idle, 1, 1, 0, [], []);
    c1, v := Move(prio, m, c, h, l, v, false, false);
    c1, v := Move(prio, m, c1, h, l, v, false, false);
    c1, v := Move(prio, m, c1, h, l, v, false, false);
    c1, v := Move(prio, m, c1, h, l, v, false, false);
    c1, v := Move(prio, m, c1, h, l, v, false, false);
  }

  // h writes; l wants to read.
  lemma WriterComes(prio: seq<int>, m: nat, h: nat, l: nat, c: Config) returns (c1: Config)
    requires Pair(prio, h, l) && Stands(prio, m, c, h, l, View(Idle, Idle, 1, 0, 1, [], []))
    ensures Stands(prio, m, c1, h, l, View(Writing(0), WantsLock(0), 1, 0, 0, [], []))
  {
    var v := View(Idle, Idle, 1, 0, 1, [], []);
    c1, v := Move(prio, m, c, h, l, v, true, true);
    c1, v := Move(prio, m, c1, h, l, v, true, true);
    c1, v := Move(prio, m, c1, h, l, v, false, false);
  }

  // l sleeps on the sector with the lock in hand.
  lemma ReaderComes(prio: seq<int>, m: nat, h: nat, l: nat, c: Config) returns (c1: Config)
    requires Pair(prio, h, l) && Stands(prio, m, c, h, l, View(Writing(0), WantsLock(0), 1, 0, 0, [], []))
    ensures Stands(prio, m, c1, h, l, View(Writing(0), First(0), 0, 1, 0, [], [l]))
  {
    var v := View(Writing(0), WantsLock(0), 1, 0, 0, [], []);
    c1, v := Move(prio, m, c, h, l, v, false, false);
    c1, v := Move(prio, m, c1, h, l, v, false, false);
    c1, v := Move(prio, m, c1, h, l, v, false, false);
    c1, v := Move(prio, m, c1, h, l, v, false, false);
    assert v.queue == [] && v.q == [l];
  }

  // h wakes it, goes on to read, and sleeps for the lock.
  lemma WriterReads(prio: seq<int>, m: nat, h: nat, l: nat, c: Config) returns (c1: Config)
    requires Pair(prio, h, l) && Stands(prio, m, c, h, l, View(Writing(0), First(0), 0, 1, 0, [], [l]))
    ensures Stands(prio, m, c1, h, l, View(WantsLock(0), First(0), 0, 1, 1, [h], []))
  {
    var v := View(Writing(0), First(0), 0, 1, 0, [], [l]);
    c1, v := Move(prio, m, c, h, l, v, true, false);
    c1, v := Move(prio, m, c1, h, l, v, true, false);
    c1, v := Move(prio, m, c1, h, l, v, true, false);
    assert v.queue == [h] && v.q == [];
  }

  // l releases the lock in vain.
  lemma ReaderReleases(prio: seq<int>, m: nat, h: nat, l: nat, c: Config) returns (c1: Config)
    requires Pair(prio, h, l) && Stands(prio, m, c, h, l, View(WantsLock(0), First(0), 0, 1, 1, [h], []))
    ensures Stands(prio, m, c1, h, l, View(WantsLock(0), Reading(0), 1, 1, 0, [h], []))
  {
    var v := View(WantsLock(0), First(0), 0, 1, 1, [h], []);
    c1, v := Move(prio, m, c, h, l, v, false, false);
    c1, v := Move(prio, m, c1, h, l, v, false, false);
    c1, v := Move(prio, m, c1, h, l, v, true, false);
    c1, v := Move(prio, m, c1, h, l, v, false, false);
    assert v.queue == [h] && v.q == [];
  }

  // And again when it has read.
  lemma ReaderLeaves(prio: seq<int>, m: nat, h: nat, l: nat, c: Config) returns (c1: Config)
    requires Pair(prio, h, l) && Stands(prio, m, c, h, l, View(WantsLock(0), Reading(0), 1, 1, 0, [h], []))
    ensures Stands(prio, m, c1, h, l, View(WantsLock(0), Leaving(0), 0, 0, 1, [h], []))
  {
    var v := View(WantsLock(0), Reading(0), 1, 1, 0, [h], []);
    c1, v := Move(prio, m, c, h, l, v, false, false);
    c1, v := Move(prio, m, c1, h, l, v, false, false);
    c1, v := Move(prio, m, c1, h, l, v, false, false);
    c1, v := Move(prio, m, c1, h, l, v, false, false);
  }

  lemma ReaderGone(prio: seq<int>, m: nat, h: nat, l: nat, c: Config) returns (c1: Config)
    requires Pair(prio, h, l) && Stands(prio, m, c, h, l, View(WantsLock(0), Leaving(0), 0, 0, 1, [h], []))
    ensures Stands(prio, m, c1, h, l, View(WantsLock(0), Idle, 1, 0, 1, [h], []))
  {
    var v := View(WantsLock(0), Leaving(0), 0, 0, 1, [h], []);
    c1, v := Move(prio, m, c, h, l, v, false, false);
    c1, v := Move(prio, m, c1, h, l, v, true, false);
    c1, v := Move(prio, m, c1, h, l, v, false, false);
    assert v.queue == [h] && v.q == [];
  }

  // ---------------------------------------------------------------- when a thread gets stuck

  // There are threads inside the protocol, and all of them are asleep.
  ghost predicate Lost(c: Config)
    requires Ok(c)
  {
    && (exists t :: 0 <= t < |c.s.pc| && !c.s.pc[t].Idle?)
    && forall t | 0 <= t < |c.s.pc| :: c.s.pc[t].Idle? || Asleep(c, t)
  }

  // With two different priorities a run of the scheduler leaves a reader asleep for the lock,
  // which is free, while no other thread is inside.
  lemma Stuck(prio: seq<int>, m: nat, h: nat, l: nat) returns (c: Config)
    requires Pair(prio, h, l) && m > 0
    ensures Reached(prio, m, c) && At(c, h, l, View(WantsLock(0), Idle, 1, 0, 1, [h], [])) && Lost(c)
  {
    c := NobodyInside(prio, m, h, l);
    c := WriterComes(prio, m, h, l, c);
    c := ReaderComes(prio, m, h, l, c);
    c := WriterReads(prio, m, h, l, c);
    c := ReaderReleases(prio, m, h, l, c);
    c := ReaderLeaves(prio, m, h, l, c);
    c := ReaderGone(prio, m, h, l, c);
    StandsMeans(prio, m, c, h, l, View(WantsLock(0), Idle, 1, 0, 1, [h], []));
  }

  // Some run leaves all the threads inside the protocol asleep if and only if two threads
  // have different priorities; and then a run that the scheduler follows does.
  lemma StuckWhen(prio: seq<int>, m: nat)
    requires m > 0
    ensures !AllEqual(prio) <==>
      exists schedule :: IsSchedule(|prio|, m, schedule) && Lost(Run(prio, Start(|prio|, m), schedule))
    ensures !AllEqual(prio) <==>
      exists c :: Reached(prio, m, c) && Lost(c)
  {
    if AllEqual(prio) {
      forall schedule | IsSchedule(|prio|, m, schedule)
        ensures !Lost(Run(prio, Start(|prio|, m), schedule))
      {
        NeverLost(prio, m, schedule);
      }
    } else {
      var a, b :| 0 <= a < |prio| && 0 <= b < |prio| && prio[a] != prio[b];
      var h, l := if prio[a] < prio[b] then a else b, if prio[a] < prio[b] then b else a;
      var c := Stuck(prio, m, h, l);
      var schedule :| LeadsTo(prio, m, schedule, c);
    }
  }

  lemma NeverLost(prio: seq<int>, m: nat, schedule: seq<Turn>)
    requires IsSchedule(|prio|, m, schedule) && AllEqual(prio)
    ensures !Lost(Run(prio, Start(|prio|, m), schedule))
  {
    var c := Run(prio, Start(|prio|, m), schedule);
    if u :| 0 <= u < |prio| && !c.s.pc[u].Idle? {
      NoDeadlock(prio, m, schedule, u);
      var t :| Advances(prio, c, t);
      assert !Asleep(c, t);
    }
  }
}
