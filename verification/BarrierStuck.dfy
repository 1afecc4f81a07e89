/**
 How the barrier gets stuck in priority mode. A thread that sleeps for the lock is woken by
 a release before the value is raised. When its priority number is smaller than that of the
 thread that releases, it runs at once, finds the value at 0 and sleeps again, and then the
 value is raised beside a sleeper whom nobody will wake.
 */
module BarrierStuck {
  import opened Barriers
  import opened BarrierQueues

  // The scheduler would give thread t the processor: no thread that is awake inside the
  // barrier has a smaller number, and one that holds the lock, with interrupts off, is left
  // only for a thread it has woken that has a smaller number.
  ghost predicate Obeys(prio: seq<int>, c: Config, t: nat)
    requires Ok(c) && |prio| == c.s.n && t < c.s.n
  {
    !Asleep(c, t) &&
    forall u | 0 <= u < c.s.n && u != t && !c.s.pc[u].Outside? && !Asleep(c, u) ::
      prio[t] <= prio[u] && (Holds(c.s.pc[u]) ==> prio[t] < prio[u] && !c.s.pc[t].Outside?)
  }

  // A schedule that the scheduler could follow.
  ghost predicate Followed(prio: seq<int>, c: Config, schedule: seq<nat>)
    requires Ok(c) && |prio| == c.s.n && IsSchedule(c.s.n, schedule)
    decreases |schedule|
  {
    schedule == [] ||
    (NextOk(prio, c, schedule[0]);
     Obeys(prio, c, schedule[0]) && Followed(prio, Next(prio, c, schedule[0]), schedule[1..]))
  }

  ghost predicate LeadsTo(prio: seq<int>, schedule: seq<nat>, c: Config)
  {
    && IsSchedule(|prio|, schedule) && Followed(prio, First(|prio|), schedule)
    && Run(prio, First(|prio|), schedule) == c
  }

  ghost predicate Reached(prio: seq<int>, c: Config)
  {
    Ok(c) && |prio| == c.s.n && exists schedule {:trigger LeadsTo(prio, schedule, c)} :: LeadsTo(prio, schedule, c)
  }

  lemma FirstReached(prio: seq<int>)
    ensures Reached(prio, First(|prio|))
  {
    assert LeadsTo(prio, [], First(|prio|));
  }

  lemma {:induction false} FollowedOn(prio: seq<int>, c: Config, schedule: seq<nat>, t: nat)
    requires Ok(c) && |prio| == c.s.n && IsSchedule(c.s.n, schedule) && t < c.s.n
    requires Followed(prio, c, schedule) && Obeys(prio, Run(prio, c, schedule), t)
    ensures IsSchedule(c.s.n, schedule + [t]) && Followed(prio, c, schedule + [t])
    decreases |schedule|
  {
    if schedule == [] {
      assert [] + [t] == [t] && [t][1..] == [];
      NextOk(prio, c, t);
    } else {
      NextOk(prio, c, schedule[0]);
      assert (schedule + [t])[1..] == schedule[1..] + [t];
      FollowedOn(prio, Next(prio, c, schedule[0]), schedule[1..], t);
    }
  }

  lemma ReachNext(prio: seq<int>, c: Config, t: nat)
    requires Reached(prio, c) && t < c.s.n && Obeys(prio, c, t)
    ensures Reached(prio, Next(prio, c, t)) && Next(prio, c, t).s.n == c.s.n
  {
    NextOk(prio, c, t);
    var schedule :| LeadsTo(prio, schedule, c);
    FollowedOn(prio, First(|prio|), schedule, t);
    RunTwice(prio, First(|prio|), schedule, [t]);
    assert [t][1..] == [];
    assert LeadsTo(prio, schedule + [t], Next(prio, c, t));
  }

  // ---------------------------------------------------------------- one step at a time

  // Apart from the program counters a step has changed nothing that matters here but these.
  ghost predicate Became(c: Config, c1: Config, pc: seq<Pc>, value: int, queue: seq<nat>, waitQueue: seq<nat>)
  {
    c1.s.n == c.s.n && c1.s.pc == pc && c1.s.value == value && c1.queue == queue && c1.s.waitQueue == waitQueue
  }

  lemma ComesIn(prio: seq<int>, c: Config, t: nat)
    requires Ok(c) && |prio| == c.s.n && t < c.s.n && c.s.pc[t].Outside?
    ensures t !in c.queue && Next(prio, c, t).s.numLeft == c.s.numLeft
    ensures Became(c, Next(prio, c, t), c.s.pc[t := WantsIn], c.s.value, c.queue, c.s.waitQueue)
  {
    OkMeans(c);
  }

  lemma TakesLock(prio: seq<int>, c: Config, t: nat)
    requires Ok(c) && |prio| == c.s.n && t < c.s.n && Wants(c.s.pc[t]) && t !in c.queue && c.s.value == 1
    ensures Next(prio, c, t).s.numLeft == c.s.numLeft
    ensures Became(c, Next(prio, c, t), c.s.pc[t := if c.s.pc[t].WantsIn? then Arrived else Goes], 0, c.queue,
                   c.s.waitQueue)
  {
    OkMeans(c);
  }

  lemma FallsAsleep(prio: seq<int>, c: Config, t: nat)
    requires Ok(c) && |prio| == c.s.n && t < c.s.n && Wants(c.s.pc[t]) && t !in c.queue && c.s.value == 0
    ensures Next(prio, c, t) == c.(queue := c.queue + [t])
  {
  }

  lemma LastCounts(prio: seq<int>, c: Config, t: nat)
    requires Ok(c) && |prio| == c.s.n && t < c.s.n && c.s.pc[t].Arrived? && c.s.numLeft == 1
    ensures Became(c, Next(prio, c, t), c.s.pc[t := Broadcasts], c.s.value, c.queue, c.s.waitQueue)
  {
    OkMeans(c);
  }

  lemma WakesOne(prio: seq<int>, c: Config, t: nat)
    requires Ok(c) && |prio| == c.s.n && t < c.s.n && c.s.pc[t].Broadcasts? && c.s.waitQueue != []
    ensures var w := c.s.waitQueue[0];
      && w < c.s.n && w != t && c.s.pc[w].Waits? && w !in c.queue
      && Became(c, Next(prio, c, t), c.s.pc[w := WantsBack], c.s.value, c.queue, c.s.waitQueue[1..])
  {
    OkMeans(c);
  }

  lemma NobodyWaits(prio: seq<int>, c: Config, t: nat)
    requires Ok(c) && |prio| == c.s.n && t < c.s.n && c.s.pc[t].Broadcasts? && c.s.waitQueue == []
    ensures Became(c, Next(prio, c, t), c.s.pc[t := Goes], c.s.value, c.queue, [])
    ensures forall u | 0 <= u < c.s.n :: !c.s.pc[u].Waits?
  {
    OkMeans(c);
  }

  // About to release the lock.
  ghost predicate Releasing(c: Config, t: nat)
    requires Ok(c) && t < c.s.n
  {
    c.s.pc[t].Goes? || (c.s.pc[t].Arrived? && c.s.numLeft - 1 != 0)
  }

  // The first sleeper has a smaller number.
  ghost predicate FirstIsLess(prio: seq<int>, c: Config, t: nat)
    requires t < |prio|
  {
    c.queue != [] ==> c.queue[0] < |prio| && prio[c.queue[0]] < prio[t]
  }

  lemma Releases(prio: seq<int>, c: Config, t: nat)
    requires Ok(c) && |prio| == c.s.n && t < c.s.n && Releasing(c, t)
    requires FirstIsLess(prio, c, t)
    ensures t !in c.queue && c.s.value == 0 && forall u | 0 <= u < c.s.n && u != t :: !Holds(c.s.pc[u])
    ensures var c1 := Next(prio, c, t);
      && c1.s.n == c.s.n
      && if c.queue == [] then
           c1.s.pc == c.s.pc[t := if c.s.pc[t].Arrived? then Waits else Outside] && c1.s.value == 1 && c1.queue == []
         else
           && c1.s.pc == c.s.pc[t := if c.s.pc[t].Arrived? then LeavesLock else Pc.Releases]
           && c1.s.value == 0 && c1.queue == c.queue[1..]
  {
    OkMeans(c);
  }

  lemma RaisesValue(prio: seq<int>, c: Config, t: nat)
    requires Ok(c) && |prio| == c.s.n && t < c.s.n && Raises(c.s.pc[t]) && c.s.value == 0
    ensures var c1 := Next(prio, c, t);
      && c1.s.n == c.s.n && c1.s.value == 1 && c1.queue == c.queue
      && c1.s.pc == c.s.pc[t := if c.s.pc[t].LeavesLock? then Waits else Outside]
  {
    OkMeans(c);
  }

  lemma FirstSleeper(c: Config)
    requires Ok(c) && c.queue != []
    ensures var l := c.queue[0];
      l < c.s.n && Wants(c.s.pc[l]) && l !in c.queue[1..] && c.queue == [l] + c.queue[1..]
  {
    OkMeans(c);
  }

  // ---------------------------------------------------------------- one thread at a time

  ghost predicate SameSleepers(c: Config, c1: Config)
  {
    |c1.queue| == |c.queue| && forall t :: t in c1.queue <==> t in c.queue
  }

  // A release by a thread with a greater number than the first sleeper, who is woken, looks
  // at the value too early and sleeps again behind the others.
  lemma ReleaseInVain(prio: seq<int>, c: Config, t: nat) returns (c1: Config)
    requires Reached(prio, c) && t < c.s.n && Obeys(prio, c, t) && Releasing(c, t)
    requires FirstIsLess(prio, c, t)
    ensures Reached(prio, c1) && SameSleepers(c, c1) && c1.s.value == 1
    ensures c1.s.pc == c.s.pc[t := if c.s.pc[t].Arrived? then Waits else Outside]
  {
    ReachNext(prio, c, t);
    c1 := Next(prio, c, t);
    Releases(prio, c, t);
    if c.queue != [] {
      var l := c.queue[0];
      FirstSleeper(c);
      ReachNext(prio, c1, l);
      FallsAsleep(prio, c1, l);
      var c2 := Next(prio, c1, l);
      assert Obeys(prio, c2, t);
      ReachNext(prio, c2, t);
      RaisesValue(prio, c2, t);
      c1 := Next(prio, c2, t);
    }
  }

  // Nobody else is awake inside the barrier.
  ghost predicate Alone(c: Config, t: nat)
    requires |c.s.pc| == c.s.n
  {
    forall u | 0 <= u < c.s.n && u != t :: c.s.pc[u].Outside? || Asleep(c, u)
  }

  // A thread comes in, takes the lock, counts itself and waits on the condition.
  lemma ComeAndWait(prio: seq<int>, c: Config, t: nat) returns (c1: Config)
    requires Reached(prio, c) && t < c.s.n && c.s.pc[t].Outside? && c.s.value == 1 && Alone(c, t)
    requires c.s.numLeft >= 2 && FirstIsLess(prio, c, t)
    ensures Reached(prio, c1) && SameSleepers(c, c1) && c1.s.value == 1 && c1.s.pc == c.s.pc[t := Waits]
  {
    var c2 := ComeIn(prio, c, t);
    c1 := ReleaseInVain(prio, c2, t);
  }

  lemma ComeIn(prio: seq<int>, c: Config, t: nat) returns (c2: Config)
    requires Reached(prio, c) && t < c.s.n && c.s.pc[t].Outside? && c.s.value == 1 && Alone(c, t)
    ensures Reached(prio, c2) && Became(c, c2, c.s.pc[t := Arrived], 0, c.queue, c.s.waitQueue) && Obeys(prio, c2, t)
    ensures c2.s.numLeft == c.s.numLeft
  {
    ComesIn(prio, c, t);
    ReachNext(prio, c, t);
    var c1 := Next(prio, c, t);
    TakesLock(prio, c1, t);
    ReachNext(prio, c1, t);
    c2 := Next(prio, c1, t);
  }

  // As long as two threads have not come, at least two are left to count.
  lemma TwoMissing(c: Config, t: nat, u: nat)
    requires Ok(c) && t < c.s.n && u < c.s.n && t != u
    requires forall v | 0 <= v < c.s.n :: !c.s.pc[v].Broadcasts?
    requires !Counts(c.s.pc[t]) && !Counts(c.s.pc[u])
    ensures c.s.numLeft >= 2
  {
    OkMeans(c);
    assert u !in Counted(c.s);
    AllButOne(c.s.n, Counted(c.s), t);
  }

  // Has counted itself in the round being filled.
  predicate Counts(pc: Pc)
  {
    pc.LeavesLock? || pc.Waits?
  }

  lemma OneMissing(c: Config, t: nat)
    requires Ok(c) && t < c.s.n && c.s.pc[t].Outside? && forall u | 0 <= u < c.s.n && u != t :: c.s.pc[u].Waits?
    ensures c.s.numLeft == 1
  {
    OkMeans(c);
    assert Counted(c.s) == Threads(c.s.n) - {t};
  }

  // ---------------------------------------------------------------- all of them

  // j is one with the greatest number; low threads have smaller ones.
  ghost predicate Greatest(prio: seq<int>, j: nat)
  {
    j < |prio| && forall t | 0 <= t < |prio| :: prio[t] <= prio[j]
  }

  ghost predicate Low(prio: seq<int>, j: nat, t: nat)
    requires j < |prio| && t < |prio|
  {
    prio[t] < prio[j]
  }

  lemma FirstIsLow(prio: seq<int>, j: nat, c: Config, t: nat)
    requires Ok(c) && |prio| == c.s.n && Greatest(prio, j) && t < |prio| && !Low(prio, j, t)
    requires forall u | 0 <= u < c.s.n && u in c.queue :: Low(prio, j, u)
    ensures FirstIsLess(prio, c, t)
  {
    if c.queue != [] {
      FirstSleeper(c);
      assert c.queue[0] in c.queue;
    }
  }

  // The first k threads, but for j, wait; the others have not come.
  ghost predicate Waiting(prio: seq<int>, j: nat, k: nat, c: Config)
  {
    && Ok(c) && |prio| == c.s.n && c.s.value == 1 && c.queue == []
    && forall t | 0 <= t < c.s.n :: c.s.pc[t] == if t < k && t != j then Waits else Outside
  }

  lemma AllButJ(prio: seq<int>, j: nat, k: nat) returns (c: Config)
    requires Greatest(prio, j) && k <= |prio|
    ensures Reached(prio, c) && Waiting(prio, j, k, c)
  {
    if k == 0 {
      FirstReached(prio);
      c := First(|prio|);
    } else {
      c := AllButJ(prio, j, k - 1);
      if k - 1 != j {
        TwoMissing(c, k - 1, j);
        c := ComeAndWait(prio, c, k - 1);
      }
    }
  }

  // j wakes the others: those with smaller numbers run at once, and sleep for the lock.
  ghost predicate Waking(prio: seq<int>, j: nat, c: Config)
  {
    && Ok(c) && |prio| == c.s.n && j < c.s.n && c.s.pc[j].Broadcasts?
    && (forall t | 0 <= t < c.s.n && t != j :: c.s.pc[t].Waits? || c.s.pc[t].WantsBack?)
    && (forall t | 0 <= t < c.s.n && t != j :: t in c.queue <==> c.s.pc[t].WantsBack? && Low(prio, j, t))
  }

  lemma LastArrives(prio: seq<int>, j: nat, c: Config) returns (c1: Config)
    requires Greatest(prio, j) && Reached(prio, c) && Waiting(prio, j, |prio|, c)
    ensures Reached(prio, c1) && Waking(prio, j, c1)
  {
    OneMissing(c, j);
    var b := ComeIn(prio, c, j);
    ReachNext(prio, b, j);
    LastCounts(prio, b, j);
    c1 := Next(prio, b, j);
  }

  lemma OnlyHolder(c: Config, t: nat)
    requires Ok(c) && t < c.s.n && Holds(c.s.pc[t])
    ensures c.s.value == 0 && t !in c.queue && forall u | 0 <= u < c.s.n && u != t :: !Holds(c.s.pc[u])
  {
    OkMeans(c);
  }

  lemma Wake(prio: seq<int>, j: nat, c: Config) returns (c1: Config)
    requires Greatest(prio, j) && Reached(prio, c) && Waking(prio, j, c)
    ensures Reached(prio, c1) && Waking(prio, j, c1) && c1.s.waitQueue == []
    decreases |c.s.waitQueue|
  {
    c1 := c;
    if c.s.waitQueue != [] {
      c1 := WakeOne(prio, j, c);
      c1 := Wake(prio, j, c1);
    }
  }

  lemma WakeOne(prio: seq<int>, j: nat, c: Config) returns (c1: Config)
    requires Greatest(prio, j) && Reached(prio, c) && Waking(prio, j, c) && c.s.waitQueue != []
    ensures Reached(prio, c1) && Waking(prio, j, c1) && c1.s.waitQueue == c.s.waitQueue[1..]
  {
    var w := c.s.waitQueue[0];
    WakesOne(prio, c, j);
    OnlyHolder(c, j);
    ReachNext(prio, c, j);
    c1 := Next(prio, c, j);
    if Low(prio, j, w) {
      ReachNext(prio, c1, w);
      FallsAsleep(prio, c1, w);
      c1 := Next(prio, c1, w);
    }
  }

  // The low threads sleep for the lock, which is free. Of the others, j and the first k are
  // out of the barrier, and the rest are awake.
  ghost predicate Leaving(prio: seq<int>, j: nat, k: nat, c: Config)
  {
    && Ok(c) && |prio| == c.s.n && j < c.s.n && c.s.value == 1
    && (forall t | 0 <= t < c.s.n :: t in c.queue <==> Low(prio, j, t))
    && (forall t | 0 <= t < c.s.n && Low(prio, j, t) :: c.s.pc[t].WantsBack?)
    && (forall t | 0 <= t < c.s.n && !Low(prio, j, t) ::
          c.s.pc[t] == if t == j || t < k then Outside else WantsBack)
  }

  lemma LastLeaves(prio: seq<int>, j: nat, c: Config) returns (c1: Config)
    requires Greatest(prio, j) && Reached(prio, c) && Waking(prio, j, c) && c.s.waitQueue == []
    ensures Reached(prio, c1) && Leaving(prio, j, 0, c1)
  {
    OnlyHolder(c, j);
    NobodyWaits(prio, c, j);
    ReachNext(prio, c, j);
    var b := Next(prio, c, j);
    FirstIsLow(prio, j, b, j);
    c1 := ReleaseInVain(prio, b, j);
  }

  lemma OthersLeave(prio: seq<int>, j: nat, c: Config, k: nat) returns (c1: Config)
    requires Greatest(prio, j) && Reached(prio, c) && Leaving(prio, j, 0, c) && k <= |prio|
    ensures Reached(prio, c1) && Leaving(prio, j, k, c1)
  {
    c1 := c;
    if k > 0 {
      c1 := OthersLeave(prio, j, c, k - 1);
      if k - 1 != j && !Low(prio, j, k - 1) {
        c1 := OneLeaves(prio, j, c1, k - 1);
      }
    }
  }

  lemma OneLeaves(prio: seq<int>, j: nat, c: Config, t: nat) returns (c1: Config)
    requires Greatest(prio, j) && t < |prio| && t != j && !Low(prio, j, t)
    requires Reached(prio, c) && Leaving(prio, j, t, c)
    ensures Reached(prio, c1) && Leaving(prio, j, t + 1, c1)
  {
    TakesLock(prio, c, t);
    ReachNext(prio, c, t);
    var b := Next(prio, c, t);
    FirstIsLow(prio, j, b, t);
    c1 := ReleaseInVain(prio, b, t);
  }

  // The low threads sleep for the lock, which is free. Of the others the first k have come
  // again and wait on the condition.
  ghost predicate Returning(prio: seq<int>, j: nat, k: nat, c: Config)
  {
    && Ok(c) && |prio| == c.s.n && j < c.s.n && c.s.value == 1
    && (forall t | 0 <= t < c.s.n :: t in c.queue <==> Low(prio, j, t))
    && (forall t | 0 <= t < c.s.n && Low(prio, j, t) :: c.s.pc[t].WantsBack?)
    && (forall t | 0 <= t < c.s.n && !Low(prio, j, t) :: c.s.pc[t] == if t < k then Waits else Outside)
  }

  lemma OthersReturn(prio: seq<int>, j: nat, c: Config, k: nat, l: nat) returns (c1: Config)
    requires Greatest(prio, j) && Reached(prio, c) && Returning(prio, j, 0, c)
    requires k <= |prio| && l < |prio| && Low(prio, j, l)
    ensures Reached(prio, c1) && Returning(prio, j, k, c1)
  {
    c1 := c;
    if k > 0 {
      c1 := OthersReturn(prio, j, c, k - 1, l);
      if !Low(prio, j, k - 1) {
        c1 := OneReturns(prio, j, c1, k - 1, l);
      }
    }
  }

  lemma OneReturns(prio: seq<int>, j: nat, c: Config, t: nat, l: nat) returns (c1: Config)
    requires Greatest(prio, j) && t < |prio| && !Low(prio, j, t) && l < |prio| && Low(prio, j, l)
    requires Reached(prio, c) && Returning(prio, j, t, c)
    ensures Reached(prio, c1) && Returning(prio, j, t + 1, c1)
  {
    TwoMissing(c, t, l);
    FirstIsLow(prio, j, c, t);
    c1 := ComeAndWait(prio, c, t);
  }

  // ---------------------------------------------------------------- when the barrier gets stuck

  ghost predicate AllAsleep(c: Config)
    requires Ok(c)
  {
    forall t | 0 <= t < c.s.n :: Asleep(c, t)
  }

  // With two different priorities a run of the scheduler puts every participant to sleep for
  // good: those with numbers smaller than the greatest on the lock, which is free, and the
  // others on the condition.
  lemma Stuck(prio: seq<int>) returns (j: nat, c: Config)
    requires !AllEqual(prio)
    ensures Greatest(prio, j) && Reached(prio, c) && Returning(prio, j, |prio|, c)
    ensures AllAsleep(c) && c.s.value == 1 && forall t | 0 <= t < |prio| :: Next(prio, c, t) == c
  {
    var l;
    j, l := Extremes(prio);
    c := AllButJ(prio, j, |prio|);
    c := LastArrives(prio, j, c);
    c := Wake(prio, j, c);
    c := LastLeaves(prio, j, c);
    c := OthersLeave(prio, j, c, |prio|);
    c := OthersReturn(prio, j, c, |prio|, l);
  }

  // Two threads with priorities 0 and 1: the first ends up asleep on the free lock, and the
  // second on the condition.
  lemma TwoThreads()
    ensures exists c :: Reached([0, 1], c) && c.s.pc == [WantsBack, Waits] && c.s.value == 1 && 0 in c.queue
  {
    assert [0, 1][0] == 0 && [0, 1][1] == 1;
    var j, c := Stuck([0, 1]);
    assert Low([0, 1], j, 0) && !Low([0, 1], j, 1);
  }

  lemma Extremes(prio: seq<int>) returns (j: nat, l: nat)
    requires !AllEqual(prio)
    ensures Greatest(prio, j) && l < |prio| && Low(prio, j, l)
  {
    var a, b :| 0 <= a < |prio| && 0 <= b < |prio| && prio[a] != prio[b];
    j := GreatestOf(prio, |prio|);
    l := if prio[a] < prio[j] then a else b;
  }

  lemma GreatestOf(prio: seq<int>, k: nat) returns (j: nat)
    requires 0 < k <= |prio|
    ensures j < k && forall t | 0 <= t < k :: prio[t] <= prio[j]
  {
    j := k - 1;
    if k > 1 {
      var i := GreatestOf(prio, k - 1);
      if prio[i] > prio[j] {
        j := i;
      }
    }
  }

  // Some run puts all the participants to sleep for good if and only if two of them have
  // different priorities; and then a run that the scheduler follows does.
  lemma StuckWhen(prio: seq<int>)
    requires |prio| > 0
    ensures !AllEqual(prio) <==>
      exists schedule :: IsSchedule(|prio|, schedule) && AllAsleep(Run(prio, First(|prio|), schedule))
    ensures !AllEqual(prio) <==>
      exists c :: Reached(prio, c) && AllAsleep(c)
  {
    if AllEqual(prio) {
      forall schedule | IsSchedule(|prio|, schedule)
        ensures !AllAsleep(Run(prio, First(|prio|), schedule))
      {
        NeverAllAsleep(prio, schedule);
      }
    } else {
      var j, c := Stuck(prio);
      var schedule :| LeadsTo(prio, schedule, c);
    }
  }

  lemma NeverAllAsleep(prio: seq<int>, schedule: seq<nat>)
    requires IsSchedule(|prio|, schedule) && |prio| > 0 && AllEqual(prio)
    ensures !AllAsleep(Run(prio, First(|prio|), schedule))
  {
    var c := Run(prio, First(|prio|), schedule);
    NoDeadlock(prio, schedule);
    if t :| Advances(prio, c, t) {
      assert !Asleep(c, t);
    } else {
      var t :| 0 <= t < |prio| && c.s.pc[t].Outside?;
      ComesIn(prio, c, t);
    }
  }
}
