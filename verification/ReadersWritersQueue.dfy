/**
 Readers and writers with the queues in which threads sleep for the lock and for the
 semaphores of the sectors, and with the priorities of the threads: what Semaphore::P and
 Semaphore::V do under Scheduler::ReadyToRun. ReadWriteLock is the case of one sector.

 A thread that finds a value at 0 sleeps at the end of the queue. V takes the first of the
 queue and makes it ready, and then raises the value: in one piece when the thread woken has
 no smaller priority number than the one that does V; otherwise the processor goes over to
 it in between. Round-robin is the case of equal priorities.

 Every run here is a run without the queues, so that what is proved of those holds of these.
 */
module ReadersWritersQueues {
  import opened ReadersWriters

  datatype Config = Config(
    s: State,
    queue: seq<nat>,           // asleep for the lock
    queues: seq<seq<nat>>)     // asleep for the semaphores of the sectors

  predicate ForLock(pc: Pc)
  {
    pc.WantsLock? || pc.WantsOut?
  }

  predicate ForSector(pc: Pc)
  {
    pc.First? || pc.WantsWrite?
  }

  // Is in the middle of V on the lock, or on the semaphore of its sector.
  predicate RaisesLock(pc: Pc)
  {
    pc.Entered? || pc.Left?
  }

  predicate RaisesMutex(pc: Pc)
  {
    pc.Last? || pc.Written?
  }

  ghost predicate QueuesOk(c: Config)
  {
    && |c.queues| == |c.s.mutex|
    && (forall i | 0 <= i < |c.queue| :: c.queue[i] < |c.s.pc| && ForLock(c.s.pc[c.queue[i]]))
    && (forall i, j | 0 <= i < j < |c.queue| :: c.queue[i] != c.queue[j])
    && (forall k | 0 <= k < |c.queues| :: SectorQueueOk(c.s.pc, k, c.queues[k]))
  }

  ghost predicate SectorQueueOk(pc: seq<Pc>, k: nat, q: seq<nat>)
  {
    && (forall i | 0 <= i < |q| :: q[i] < |pc| && ForSector(pc[q[i]]) && pc[q[i]].s == k)
    && (forall i, j | 0 <= i < j < |q| :: q[i] != q[j])
  }

  // What is true of every configuration: of the counts and locks, and of the queues.
  datatype Concern = TheLocks | TheQueues

  ghost predicate Meets(c: Config, concern: Concern)
  {
    match concern
    case TheLocks => Inv(c.s)
    case TheQueues => QueuesOk(c)
  }

  ghost predicate Ok(c: Config)
  {
    && Shaped(c.s) && |c.queues| == |c.s.mutex|
    && forall concern {:trigger Meets(c, concern)} :: Meets(c, concern)
  }

  lemma OkMeans(c: Config)
    ensures Ok(c) <==> Inv(c.s) && QueuesOk(c)
  {
    if Ok(c) {
      assert Meets(c, TheLocks) && Meets(c, TheQueues);
    }
  }

  ghost predicate Asleep(c: Config, t: nat)
    requires Ok(c) && t < |c.s.pc|
  {
    t in c.queue || (ForSector(c.s.pc[t]) && t in c.queues[c.s.pc[t].s])
  }

  // Finds the value that it waits for at 0.
  ghost predicate MustSleep(c: Config, t: nat)
    requires Ok(c) && t < |c.s.pc|
  {
    (ForLock(c.s.pc[t]) && c.s.lock == 0) || (ForSector(c.s.pc[t]) && c.s.mutex[c.s.pc[t].s] == 0)
  }

  ghost predicate Fits(c: Config, turn: Turn)
  {
    turn.t < |c.s.pc| && turn.sector < |c.s.mutex|
  }

  function Rest(q: seq<nat>): seq<nat>
  {
    if q == [] then [] else q[1..]
  }

  // The thread woken, if any, gets the processor before the value is raised.
  predicate Yields(prio: seq<int>, q: seq<nat>, t: nat)
  {
    q != [] && q[0] < |prio| && t < |prio| && prio[q[0]] < prio[t]
  }

  // What a thread does next when it has the processor. A thread asleep does nothing.
  ghost function Next(prio: seq<int>, c: Config, turn: Turn): Config
    requires Ok(c) && |prio| == |c.s.pc| && Fits(c, turn)
  {
    var t, pc := turn.t, c.s.pc[turn.t];
    if Asleep(c, t) then c
    else if MustSleep(c, t) then
      if ForLock(pc) then c.(queue := c.queue + [t])
      else c.(queues := c.queues[pc.s := c.queues[pc.s] + [t]])
    else
      var s1 := Step(c.s, turn);
      if RaisesLock(s1.pc[t]) then
        Config(if Yields(prio, c.queue, t) then s1 else Step(s1, turn), Rest(c.queue), c.queues)
      else if RaisesMutex(s1.pc[t]) then
        var k := s1.pc[t].s;
        Config(if Yields(prio, c.queues[k], t) then s1 else Step(s1, turn), c.queue,
               c.queues[k := Rest(c.queues[k])])
      else c.(s := s1)
  }

  ghost function Start(n: nat, sectors: nat): (c: Config)
    ensures Ok(c) && |c.s.pc| == n && |c.s.mutex| == sectors
  {
    InitialInv(n, sectors);
    OkMeans(Config(Initial(n, sectors), [], seq(sectors, _ => [])));
    Config(Initial(n, sectors), [], seq(sectors, _ => []))
  }

  // ---------------------------------------------------------------- configurations stay in order

  lemma NextOk(prio: seq<int>, c: Config, turn: Turn)
    requires Ok(c) && |prio| == |c.s.pc| && Fits(c, turn)
    ensures var c1 := Next(prio, c, turn);
      Ok(c1) && |c1.s.pc| == |c.s.pc| && |c1.s.mutex| == |c.s.mutex|
  {
    var t := turn.t;
    if !Asleep(c, t) {
      if MustSleep(c, t) {
        SleepOk(c, t);
      } else {
        StepOk(c, turn);
        var s1 := Step(c.s, turn);
        if RaisesLock(s1.pc[t]) {
          LockQueueOk(c.(s := s1));
          StepOk(Config(s1, Rest(c.queue), c.queues), turn);
        } else if RaisesMutex(s1.pc[t]) {
          var k := s1.pc[t].s;
          MutexQueueOk(c.(s := s1), k);
          StepOk(Config(s1, c.queue, c.queues[k := Rest(c.queues[k])]), turn);
        }
      }
    }
  }

  lemma SleepOk(c: Config, t: nat)
    requires Ok(c) && t < |c.s.pc| && !Asleep(c, t)
    ensures ForLock(c.s.pc[t]) ==> Ok(c.(queue := c.queue + [t]))
    ensures ForSector(c.s.pc[t]) ==>
      var k := c.s.pc[t].s; Ok(c.(queues := c.queues[k := c.queues[k] + [t]]))
  {
    OkMeans(c);
    OkMeans(c.(queue := c.queue + [t]));
    if ForSector(c.s.pc[t]) {
      var k := c.s.pc[t].s;
      assert SectorQueueOk(c.s.pc, k, c.queues[k] + [t]);
      OkMeans(c.(queues := c.queues[k := c.queues[k] + [t]]));
    }
  }

  // A step of a thread that is awake, and finds what it waits for, leaves those asleep where
  // they are.
  lemma StepOk(c: Config, turn: Turn)
    requires Ok(c) && Fits(c, turn) && !Asleep(c, turn.t)
    ensures Ok(c.(s := Step(c.s, turn)))
  {
    var s1, t := Step(c.s, turn), turn.t;
    OkMeans(c);
    StepInv(c.s, turn);
    assert s1.pc == c.s.pc[t := s1.pc[t]];
    forall k | 0 <= k < |c.queues|
      ensures SectorQueueOk(s1.pc, k, c.queues[k])
    {
      assert SectorQueueOk(c.s.pc, k, c.queues[k]);
    }
    OkMeans(c.(s := s1));
  }

  lemma LockQueueOk(c: Config)
    requires Ok(c)
    ensures Ok(c.(queue := Rest(c.queue)))
    ensures c.queue != [] ==>
      c.queue[0] < |c.s.pc| && ForLock(c.s.pc[c.queue[0]]) && c.queue[0] !in Rest(c.queue)
    ensures forall t :: t in Rest(c.queue) ==> t in c.queue
  {
    OkMeans(c);
    OkMeans(c.(queue := Rest(c.queue)));
  }

  lemma MutexQueueOk(c: Config, k: nat)
    requires Ok(c) && k < |c.queues|
    ensures Ok(c.(queues := c.queues[k := Rest(c.queues[k])]))
    ensures var q := c.queues[k];
      q != [] ==> q[0] < |c.s.pc| && ForSector(c.s.pc[q[0]]) && c.s.pc[q[0]].s == k && q[0] !in Rest(q)
    ensures forall t :: t in Rest(c.queues[k]) ==> t in c.queues[k]
  {
    OkMeans(c);
    assert SectorQueueOk(c.s.pc, k, c.queues[k]);
    assert SectorQueueOk(c.s.pc, k, Rest(c.queues[k]));
    OkMeans(c.(queues := c.queues[k := Rest(c.queues[k])]));
  }

  // ---------------------------------------------------------------- runs

  ghost function Run(prio: seq<int>, c: Config, schedule: seq<Turn>): (c1: Config)
    requires Ok(c) && |prio| == |c.s.pc| && IsSchedule(|c.s.pc|, |c.s.mutex|, schedule)
    ensures Ok(c1) && |c1.s.pc| == |c.s.pc| && |c1.s.mutex| == |c.s.mutex|
    decreases |schedule|
  {
    if schedule == [] then c
    else
      NextOk(prio, c, schedule[0]);
      Run(prio, Next(prio, c, schedule[0]), schedule[1..])
  }

  lemma {:induction false} RunTwice(prio: seq<int>, c: Config, first: seq<Turn>, second: seq<Turn>)
    requires Ok(c) && |prio| == |c.s.pc|
    requires IsSchedule(|c.s.pc|, |c.s.mutex|, first) && IsSchedule(|c.s.pc|, |c.s.mutex|, second)
    ensures IsSchedule(|c.s.pc|, |c.s.mutex|, first + second)
    ensures Run(prio, c, first + second) == Run(prio, Run(prio, c, first), second)
    decreases |first|
  {
    if first == [] {
      assert first + second == second;
    } else {
      NextOk(prio, c, first[0]);
      assert (first + second)[1..] == first[1..] + second;
      RunTwice(prio, Next(prio, c, first[0]), first[1..], second);
    }
  }

  lemma RunOne(prio: seq<int>, c: Config, before: seq<Turn>, turn: Turn)
    requires Ok(c) && |prio| == |c.s.pc| && IsSchedule(|c.s.pc|, |c.s.mutex|, before) && Fits(c, turn)
    ensures IsSchedule(|c.s.pc|, |c.s.mutex|, before + [turn])
    ensures Run(prio, c, before + [turn]) == Next(prio, Run(prio, c, before), turn)
  {
    var last := Run(prio, c, before);
    NextOk(prio, last, turn);
    assert [turn][1..] == [];
    RunTwice(prio, c, before, [turn]);
  }

  lemma NextRefines(prio: seq<int>, n: nat, m: nat, a: seq<Turn>, c: Config, turn: Turn) returns (b: seq<Turn>)
    requires IsSchedule(n, m, a) && Ok(c) && c.s == After(n, m, a) && |prio| == n && turn.t < n && turn.sector < m
    ensures IsSchedule(n, m, b) && Next(prio, c, turn).s == After(n, m, b)
  {
    b := a;
    if Next(prio, c, turn).s != c.s {
      b := OneMore(n, m, a, turn);
      if Next(prio, c, turn).s != After(n, m, b) {
        b := OneMore(n, m, b, turn);
      }
    }
  }

  lemma OneMore(n: nat, m: nat, a: seq<Turn>, turn: Turn) returns (b: seq<Turn>)
    requires IsSchedule(n, m, a) && turn.t < n && turn.sector < m
    ensures IsSchedule(n, m, b) && After(n, m, b) == Step(After(n, m, a), turn)
  {
    b := a + [turn];
    assert b[..|b| - 1] == a;
  }

  // Every run with the queues is a run without them.
  lemma Refines(prio: seq<int>, m: nat, schedule: seq<Turn>) returns (a: seq<Turn>)
    requires IsSchedule(|prio|, m, schedule)
    ensures IsSchedule(|prio|, m, a) && Run(prio, Start(|prio|, m), schedule).s == After(|prio|, m, a)
  {
    a := RefinesFrom(prio, m, [], Start(|prio|, m), schedule);
  }

  lemma {:induction false} RefinesFrom(prio: seq<int>, m: nat, a: seq<Turn>, c: Config, schedule: seq<Turn>)
      returns (b: seq<Turn>)
    requires IsSchedule(|prio|, m, a) && IsSchedule(|prio|, m, schedule)
    requires Ok(c) && |c.s.pc| == |prio| && |c.s.mutex| == m && c.s == After(|prio|, m, a)
    ensures IsSchedule(|prio|, m, b) && Run(prio, c, schedule).s == After(|prio|, m, b)
    decreases |schedule|
  {
    if schedule == [] {
      b := a;
    } else {
      NextOk(prio, c, schedule[0]);
      b := NextRefines(prio, |prio|, m, a, c, schedule[0]);
      b := RefinesFrom(prio, m, b, Next(prio, c, schedule[0]), schedule[1..]);
    }
  }

  // So a writer excludes all others from its sector under every priority.
  lemma ExcludesWithQueues(prio: seq<int>, m: nat, schedule: seq<Turn>, t: nat, u: nat, k: nat)
    requires IsSchedule(|prio|, m, schedule) && t < |prio| && u < |prio| && t != u
    ensures var s := Run(prio, Start(|prio|, m), schedule).s;
      s.pc[t] == Writing(k) ==> s.pc[u] != Writing(k) && s.pc[u] != Reading(k)
  {
    var a := Refines(prio, m, schedule);
    WriterExcludesAll(|prio|, m, a, t, u, k);
  }

  // ---------------------------------------------------------------- equal priorities

  ghost predicate AllEqual(prio: seq<int>)
  {
    forall i, j | 0 <= i < |prio| && 0 <= j < |prio| :: prio[i] == prio[j]
  }

  // Some thread is awake and about to look at the lock, or at the semaphore of sector k.
  ghost predicate LooksAtLock(c: Config)
  {
    exists t :: 0 <= t < |c.s.pc| && ForLock(c.s.pc[t]) && t !in c.queue
  }

  ghost predicate LooksAtSector(c: Config, k: nat)
    requires k < |c.queues|
  {
    exists t :: 0 <= t < |c.s.pc| && ForSector(c.s.pc[t]) && c.s.pc[t].s == k && t !in c.queues[k]
  }

  // When a semaphore is free and threads sleep for it, another one is about to look at it;
  // and nobody is in the middle of V.
  ghost predicate Wakeful(c: Config)
    requires Ok(c)
  {
    && (forall t | 0 <= t < |c.s.pc| :: !RaisesLock(c.s.pc[t]) && !RaisesMutex(c.s.pc[t]))
    && (c.s.lock == 1 && c.queue != [] ==> LooksAtLock(c))
    && (forall k | 0 <= k < |c.queues| && c.s.mutex[k] == 1 && c.queues[k] != [] :: LooksAtSector(c, k))
  }

  lemma NextWakeful(prio: seq<int>, c: Config, turn: Turn)
    requires Ok(c) && |prio| == |c.s.pc| && Fits(c, turn) && AllEqual(prio) && Wakeful(c)
    ensures Ok(Next(prio, c, turn)) && Wakeful(Next(prio, c, turn))
  {
    NextOk(prio, c, turn);
    if !Asleep(c, turn.t) {
      if MustSleep(c, turn.t) {
        SleeperWakeful(prio, c, turn);
      } else {
        var s1 := Step(c.s, turn);
        if RaisesLock(s1.pc[turn.t]) {
          LockRaised(prio, c, turn);
        } else if RaisesMutex(s1.pc[turn.t]) {
          MutexRaised(prio, c, turn);
        } else {
          StillWakeful(c, turn);
        }
      }
    }
  }

  lemma SleeperWakeful(prio: seq<int>, c: Config, turn: Turn)
    requires Ok(c) && |prio| == |c.s.pc| && Fits(c, turn) && Wakeful(c)
    requires !Asleep(c, turn.t) && MustSleep(c, turn.t) && Ok(Next(prio, c, turn))
    ensures Wakeful(Next(prio, c, turn))
  {
    var t, c1 := turn.t, Next(prio, c, turn);
    if c1.s.lock == 1 && c1.queue != [] {
      var u :| 0 <= u < |c.s.pc| && ForLock(c.s.pc[u]) && u !in c.queue;
      assert ForLock(c1.s.pc[u]) && u !in c1.queue;
    }
    forall k | 0 <= k < |c1.queues| && c1.s.mutex[k] == 1 && c1.queues[k] != []
      ensures LooksAtSector(c1, k)
    {
      assert c1.queues[k] == c.queues[k];
      assert LooksAtSector(c, k);
      var u :| 0 <= u < |c.s.pc| && ForSector(c.s.pc[u]) && c.s.pc[u].s == k && u !in c.queues[k];
      assert ForSector(c1.s.pc[u]) && u !in c1.queues[k];
    }
  }

  // Threads other than t look where they did.
  lemma LooksStill(c: Config, c1: Config, t: nat)
    requires Ok(c) && Ok(c1) && t < |c.s.pc| == |c1.s.pc| && c1.s.pc == c.s.pc[t := c1.s.pc[t]]
    requires |c1.queues| == |c.queues|
    ensures LooksAtLock(c) && !ForLock(c.s.pc[t]) && (forall u :: u in c1.queue ==> u in c.queue) ==> LooksAtLock(c1)
    ensures forall k | 0 <= k < |c.queues| && LooksAtSector(c, k) && !(ForSector(c.s.pc[t]) && c.s.pc[t].s == k) &&
      (forall u :: u in c1.queues[k] ==> u in c.queues[k]) :: LooksAtSector(c1, k)
  {
    if LooksAtLock(c) && !ForLock(c.s.pc[t]) && forall u :: u in c1.queue ==> u in c.queue {
      var u :| 0 <= u < |c.s.pc| && ForLock(c.s.pc[u]) && u !in c.queue;
      assert ForLock(c1.s.pc[u]) && u !in c1.queue;
    }
    forall k | 0 <= k < |c.queues| && LooksAtSector(c, k) && !(ForSector(c.s.pc[t]) && c.s.pc[t].s == k) &&
      (forall u :: u in c1.queues[k] ==> u in c.queues[k])
      ensures LooksAtSector(c1, k)
    {
      var u :| 0 <= u < |c.s.pc| && ForSector(c.s.pc[u]) && c.s.pc[u].s == k && u !in c.queues[k];
      assert ForSector(c1.s.pc[u]) && u !in c1.queues[k];
    }
  }

  lemma StillWakeful(c: Config, turn: Turn)
    requires Ok(c) && Fits(c, turn) && Wakeful(c) && !Asleep(c, turn.t) && !MustSleep(c, turn.t)
    requires !RaisesLock(Step(c.s, turn).pc[turn.t]) && !RaisesMutex(Step(c.s, turn).pc[turn.t])
    requires Ok(c.(s := Step(c.s, turn)))
    ensures Wakeful(c.(s := Step(c.s, turn)))
  {
    var t, c1 := turn.t, c.(s := Step(c.s, turn));
    OkMeans(c);
    assert c1.s.pc == c.s.pc[t := c1.s.pc[t]];
    LooksStill(c, c1, t);
    assert ForLock(c.s.pc[t]) ==> c1.s.lock == 0;
    forall k | 0 <= k < |c1.queues| && c1.s.mutex[k] == 1 && c1.queues[k] != []
      ensures LooksAtSector(c1, k)
    {
      assert SectorInv(c.s, k);
      assert c.s.mutex[k] == 1 && !(ForSector(c.s.pc[t]) && c.s.pc[t].s == k);
      assert LooksAtSector(c, k);
    }
  }

  // What the whole of V on the lock does.
  lemma LockStep(prio: seq<int>, c: Config, turn: Turn)
    requires Ok(c) && |prio| == |c.s.pc| && Fits(c, turn) && AllEqual(prio)
    requires !Asleep(c, turn.t) && !MustSleep(c, turn.t) && RaisesLock(Step(c.s, turn).pc[turn.t])
    requires !RaisesLock(c.s.pc[turn.t])
    ensures var t, c1 := turn.t, Next(prio, c, turn);
      && c1.s.pc == c.s.pc[t := c1.s.pc[t]] && !RaisesLock(c1.s.pc[t]) && !RaisesMutex(c1.s.pc[t])
      && !ForLock(c.s.pc[t]) && !ForSector(c.s.pc[t])
      && c1.s.mutex == c.s.mutex && c1.queues == c.queues && c1.queue == Rest(c.queue)
  {
    assert !Yields(prio, c.queue, turn.t);
  }

  // The first sleeper is awake now.
  lemma LockRaised(prio: seq<int>, c: Config, turn: Turn)
    requires Ok(c) && |prio| == |c.s.pc| && Fits(c, turn) && AllEqual(prio) && Wakeful(c)
    requires !Asleep(c, turn.t) && !MustSleep(c, turn.t) && RaisesLock(Step(c.s, turn).pc[turn.t])
    requires Ok(Next(prio, c, turn))
    ensures Wakeful(Next(prio, c, turn))
  {
    LockStep(prio, c, turn);
    LockFreed(c, turn.t, Next(prio, c, turn));
  }

  lemma LockFreed(c: Config, t: nat, c1: Config)
    requires Ok(c) && Ok(c1) && Wakeful(c) && t < |c.s.pc| == |c1.s.pc|
    requires c1.s.pc == c.s.pc[t := c1.s.pc[t]] && !RaisesLock(c1.s.pc[t]) && !RaisesMutex(c1.s.pc[t])
    requires !ForLock(c.s.pc[t]) && !ForSector(c.s.pc[t])
    requires c1.s.mutex == c.s.mutex && c1.queues == c.queues && c1.queue == Rest(c.queue)
    ensures Wakeful(c1)
  {
    LockQueueOk(c);
    LooksStill(c, c1, t);
    if c.queue != [] {
      assert ForLock(c1.s.pc[c.queue[0]]) && c.queue[0] !in c1.queue;
    }
    forall k | 0 <= k < |c1.queues| && c1.s.mutex[k] == 1 && c1.queues[k] != []
      ensures LooksAtSector(c1, k)
    {
      assert LooksAtSector(c, k);
    }
  }

  // And of V on the semaphore of a sector.
  lemma MutexStep(prio: seq<int>, c: Config, turn: Turn) returns (m: nat)
    requires Ok(c) && |prio| == |c.s.pc| && Fits(c, turn) && AllEqual(prio)
    requires !Asleep(c, turn.t) && !MustSleep(c, turn.t) && RaisesMutex(Step(c.s, turn).pc[turn.t])
    requires !RaisesMutex(c.s.pc[turn.t])
    ensures var t, c1 := turn.t, Next(prio, c, turn);
      && c1.s.pc == c.s.pc[t := c1.s.pc[t]] && !RaisesLock(c1.s.pc[t]) && !RaisesMutex(c1.s.pc[t])
      && !ForLock(c.s.pc[t]) && !ForSector(c.s.pc[t]) && c1.s.lock == c.s.lock && c1.queue == c.queue
      && m < |c.queues| && c1.queues == c.queues[m := Rest(c.queues[m])]
      && |c1.s.mutex| == |c.s.mutex| && forall k | 0 <= k < |c.s.mutex| && k != m :: c1.s.mutex[k] == c.s.mutex[k]
  {
    m := Step(c.s, turn).pc[turn.t].s;
    assert !Yields(prio, c.queues[m], turn.t);
  }

  lemma MutexRaised(prio: seq<int>, c: Config, turn: Turn)
    requires Ok(c) && |prio| == |c.s.pc| && Fits(c, turn) && AllEqual(prio) && Wakeful(c)
    requires !Asleep(c, turn.t) && !MustSleep(c, turn.t) && RaisesMutex(Step(c.s, turn).pc[turn.t])
    requires Ok(Next(prio, c, turn))
    ensures Wakeful(Next(prio, c, turn))
  {
    var m := MutexStep(prio, c, turn);
    MutexFreed(c, turn.t, Next(prio, c, turn), m);
  }

  lemma MutexFreed(c: Config, t: nat, c1: Config, m: nat)
    requires Ok(c) && Ok(c1) && Wakeful(c) && t < |c.s.pc| == |c1.s.pc|
    requires c1.s.pc == c.s.pc[t := c1.s.pc[t]] && !RaisesLock(c1.s.pc[t]) && !RaisesMutex(c1.s.pc[t])
    requires !ForLock(c.s.pc[t]) && !ForSector(c.s.pc[t]) && c1.s.lock == c.s.lock && c1.queue == c.queue
    requires m < |c.queues| && c1.queues == c.queues[m := Rest(c.queues[m])]
    requires |c1.s.mutex| == |c.s.mutex| && forall k | 0 <= k < |c.s.mutex| && k != m :: c1.s.mutex[k] == c.s.mutex[k]
    ensures Wakeful(c1)
  {
    MutexQueueOk(c, m);
    LooksStill(c, c1, t);
    forall k | 0 <= k < |c1.queues| && c1.s.mutex[k] == 1 && c1.queues[k] != []
      ensures LooksAtSector(c1, k)
    {
      if k == m {
        var w := c.queues[m][0];
        assert ForSector(c1.s.pc[w]) && w !in c1.queues[k];
      } else {
        assert LooksAtSector(c, k);
      }
    }
  }

  lemma {:induction false} RunWakeful(prio: seq<int>, c: Config, schedule: seq<Turn>)
    requires Ok(c) && |prio| == |c.s.pc| && IsSchedule(|c.s.pc|, |c.s.mutex|, schedule)
    requires AllEqual(prio) && Wakeful(c)
    ensures Wakeful(Run(prio, c, schedule))
    decreases |schedule|
  {
    if schedule != [] {
      NextWakeful(prio, c, schedule[0]);
      RunWakeful(prio, Next(prio, c, schedule[0]), schedule[1..]);
    }
  }

  // ---------------------------------------------------------------- nobody gets stuck

  // A thread inside the protocol that is awake and does something other than fall asleep.
  ghost predicate GoesOn(c: Config, t: nat)
    requires Ok(c) && t < |c.s.pc|
  {
    !c.s.pc[t].Idle? && !Asleep(c, t) && !MustSleep(c, t)
  }

  // And what it does changes its program counter.
  ghost predicate Advances(prio: seq<int>, c: Config, t: int)
    requires Ok(c) && |prio| == |c.s.pc|
  {
    0 <= t < |c.s.pc| && GoesOn(c, t) && Next(prio, c, Turn(t, false, c.s.pc[t].s)).s.pc[t] != c.s.pc[t]
  }

  // In round-robin mode, or with equal priorities, the threads inside the protocol never get
  // stuck, though a first reader sleeps with the lock in hand: in every state of every run in
  // which there are any, one of them can go on.
  lemma NoDeadlock(prio: seq<int>, m: nat, schedule: seq<Turn>, u: nat)
    requires IsSchedule(|prio|, m, schedule) && u < |prio| && AllEqual(prio)
    ensures var c := Run(prio, Start(|prio|, m), schedule);
      !c.s.pc[u].Idle? ==> exists t :: Advances(prio, c, t)
  {
    var c := Run(prio, Start(|prio|, m), schedule);
    RunWakeful(prio, Start(|prio|, m), schedule);
    OkMeans(c);
    if !c.s.pc[u].Idle? {
      var t := Unstuck(c, u);
      GettingOn(prio, c, t);
      assert Advances(prio, c, t);
    }
  }

  lemma GettingOn(prio: seq<int>, c: Config, t: nat)
    requires Ok(c) && |prio| == |c.s.pc| && t < |c.s.pc| && GoesOn(c, t)
    ensures c.s.pc[t].s < |c.s.mutex| && Next(prio, c, Turn(t, false, c.s.pc[t].s)).s.pc[t] != c.s.pc[t]
  {
    StepChanges(c, Turn(t, false, c.s.pc[t].s));
  }

  lemma StepChanges(c: Config, turn: Turn)
    requires Ok(c) && Fits(c, turn) && GoesOn(c, turn.t)
    ensures var t, s1 := turn.t, Step(c.s, turn);
      && s1.pc[t] != c.s.pc[t]
      && (RaisesLock(s1.pc[t]) || RaisesMutex(s1.pc[t]) ==> Step(s1, turn).pc[t] != c.s.pc[t])
  {
  }

  // If the lock is taken its holder goes on, or the writer it waits for, or one who is about
  // to look at its sector. If not, so does a thread about to look at the lock, or at a sector.
  lemma Unstuck(c: Config, u: nat) returns (t: nat)
    requires Ok(c) && Inv(c.s) && Wakeful(c) && u < |c.s.pc| && !c.s.pc[u].Idle?
    ensures t < |c.s.pc| && GoesOn(c, t)
  {
    t := u;
    if c.s.lock == 0 {
      t :| t < |c.s.pc| && HasLock(c.s.pc[t]);
    }
    if ForSector(c.s.pc[t]) {
      t := SectorUnstuck(c, t);
    } else if ForLock(c.s.pc[t]) {
      t := LockUnstuck(c, t);
    } else {
      NotAsleep(c, t);
    }
  }

  lemma NotAsleep(c: Config, t: nat)
    requires Ok(c) && t < |c.s.pc| && !ForLock(c.s.pc[t]) && !ForSector(c.s.pc[t])
    ensures !Asleep(c, t) && !MustSleep(c, t)
  {
    OkMeans(c);
  }

  lemma LockUnstuck(c: Config, u: nat) returns (t: nat)
    requires Ok(c) && Wakeful(c) && u < |c.s.pc| && ForLock(c.s.pc[u]) && c.s.lock == 1
    ensures t < |c.s.pc| && GoesOn(c, t)
  {
    t := u;
    if u in c.queue {
      t :| 0 <= t < |c.s.pc| && ForLock(c.s.pc[t]) && t !in c.queue;
    }
  }

  lemma SectorUnstuck(c: Config, u: nat) returns (t: nat)
    requires Ok(c) && Inv(c.s) && Wakeful(c) && u < |c.s.pc| && ForSector(c.s.pc[u])
    requires c.s.lock == 1 || c.s.pc[u].First?
    ensures t < |c.s.pc| && GoesOn(c, t)
  {
    var k := c.s.pc[u].s;
    assert SectorInv(c.s, k) && ThreadInv(c.s, u);
    if c.s.mutex[k] == 1 {
      t := Looker(c, k, u);
    } else if c.s.holder[k].Writer? {
      t := c.s.holder[k].t;
      NotAsleep(c, t);
    } else {
      t := ReaderInside(c.s, k);
      if c.s.pc[t] == WantsOut(k) {
        t := LockUnstuck(c, t);
      } else {
        NotAsleep(c, t);
      }
    }
  }

  lemma Looker(c: Config, k: nat, u: nat) returns (t: nat)
    requires Ok(c) && Wakeful(c) && u < |c.s.pc| && ForSector(c.s.pc[u]) && c.s.pc[u].s == k && c.s.mutex[k] == 1
    ensures t < |c.s.pc| && GoesOn(c, t)
  {
    t := u;
    if u in c.queues[k] {
      assert LooksAtSector(c, k);
      t :| 0 <= t < |c.s.pc| && ForSector(c.s.pc[t]) && c.s.pc[t].s == k && t !in c.queues[k];
    }
    OkMeans(c);
  }
}
