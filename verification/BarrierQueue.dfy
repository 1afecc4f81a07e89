/**
 The barrier with the queue in which threads sleep for its lock, and with the priorities of
 its participants: what Semaphore::P and Semaphore::V do under Scheduler::ReadyToRun.

 A thread that finds the lock's value at 0 sleeps at the end of the queue. A release takes
 the first of the queue and makes it ready, and then raises the value: in one piece when the
 thread woken has no smaller priority number than the one that releases; otherwise the
 processor goes over to it in between. Round-robin is the case of equal priorities.

 Every run here is a run of the barrier without the queue, so that what is proved of those
 holds of these. What is new is that threads asleep do nothing: whether the barrier can get
 stuck depends on the priorities.
 */
module BarrierQueues {
  import opened Barriers

  // The barrier, and the threads asleep for its lock in the order in which they came.
  datatype Config = Config(s: State, queue: seq<nat>)

  predicate Wants(pc: Pc)
  {
    pc.WantsIn? || pc.WantsBack?
  }

  // Has released the lock but for raising its value.
  predicate Raises(pc: Pc)
  {
    pc.LeavesLock? || pc.Releases?
  }

  // On the lock or on the condition.
  ghost predicate Asleep(c: Config, t: nat)
    requires |c.s.pc| == c.s.n && t < c.s.n
  {
    t in c.queue || c.s.pc[t].Waits?
  }

  ghost predicate QueueOk(c: Config)
  {
    && |c.s.pc| == c.s.n
    && (forall i | 0 <= i < |c.queue| :: c.queue[i] < c.s.n && Wants(c.s.pc[c.queue[i]]))
    && (forall i, j | 0 <= i < j < |c.queue| :: c.queue[i] != c.queue[j])
  }

  // What is true of every configuration: of the barrier, and of the queue.
  datatype Concern = TheBarrier | TheQueue

  ghost predicate Meets(c: Config, concern: Concern)
  {
    match concern
    case TheBarrier => Inv(c.s)
    case TheQueue => QueueOk(c)
  }

  ghost predicate Ok(c: Config)
  {
    Shaped(c.s) && forall concern {:trigger Meets(c, concern)} :: Meets(c, concern)
  }

  lemma OkMeans(c: Config)
    ensures Ok(c) <==> Inv(c.s) && QueueOk(c)
  {
    if Ok(c) {
      assert Meets(c, TheBarrier) && Meets(c, TheQueue);
    }
  }

  // What thread t does next when it has the processor. A thread asleep does nothing.
  ghost function Next(prio: seq<int>, c: Config, t: nat): Config
    requires Ok(c) && |prio| == c.s.n && t < c.s.n
  {
    if Asleep(c, t) then c
    else if Wants(c.s.pc[t]) && c.s.value == 0 then c.(queue := c.queue + [t])
    else
      OkMeans(c);
      var s1 := Step(c.s, t);
      if !Raises(s1.pc[t]) then c.(s := s1)
      else
        StepInv(c.s, t);
        if c.queue != [] && prio[c.queue[0]] < prio[t] then Config(s1, c.queue[1..])
        else Config(Step(s1, t), if c.queue == [] then [] else c.queue[1..])
  }

  ghost function First(n: nat): (c: Config)
    ensures Ok(c) && c.s.n == n
  {
    InitialInv(n);
    OkMeans(Config(Initial(n), []));
    Config(Initial(n), [])
  }

  lemma NextOk(prio: seq<int>, c: Config, t: nat)
    requires Ok(c) && |prio| == c.s.n && t < c.s.n
    ensures Ok(Next(prio, c, t)) && Next(prio, c, t).s.n == c.s.n
  {
    OkMeans(c);
    if !Asleep(c, t) {
      if Wants(c.s.pc[t]) && c.s.value == 0 {
        OkMeans(c.(queue := c.queue + [t]));
      } else {
        StepOk(c, t);
        var s1 := Step(c.s, t);
        if Raises(s1.pc[t]) {
          OneAwake(c.(s := s1));
          StepOk(Config(s1, if c.queue == [] then [] else c.queue[1..]), t);
        }
      }
    }
  }

  // A step of a thread that is awake leaves those asleep for the lock where they are.
  lemma StepOk(c: Config, t: nat)
    requires Ok(c) && Inv(c.s) && t < c.s.n && t !in c.queue
    ensures Ok(c.(s := Step(c.s, t))) && Step(c.s, t).n == c.s.n
  {
    OkMeans(c);
    StepInv(c.s, t);
    forall i | 0 <= i < |c.queue|
      ensures Step(c.s, t).pc[c.queue[i]] == c.s.pc[c.queue[i]]
    {
      OthersStay(c.s, t, c.queue[i]);
    }
    OkMeans(c.(s := Step(c.s, t)));
  }

  // The first sleeper is taken off the queue.
  lemma OneAwake(c: Config)
    requires Ok(c)
    ensures var rest := if c.queue == [] then [] else c.queue[1..];
      Ok(c.(queue := rest)) && forall t :: t in c.queue <==> t in rest || (c.queue != [] && t == c.queue[0])
    ensures c.queue != [] ==> c.queue[0] !in c.queue[1..]
  {
    assert c.queue != [] ==> c.queue == [c.queue[0]] + c.queue[1..];
    OkMeans(c);
    OkMeans(c.(queue := if c.queue == [] then [] else c.queue[1..]));
  }

  // ---------------------------------------------------------------- runs

  // From configuration c, the threads take the processor in that order.
  ghost function Run(prio: seq<int>, c: Config, schedule: seq<nat>): (c1: Config)
    requires Ok(c) && |prio| == c.s.n && IsSchedule(c.s.n, schedule)
    ensures Ok(c1) && c1.s.n == c.s.n
    decreases |schedule|
  {
    if schedule == [] then c
    else
      NextOk(prio, c, schedule[0]);
      Run(prio, Next(prio, c, schedule[0]), schedule[1..])
  }

  lemma {:induction false} RunTwice(prio: seq<int>, c: Config, first: seq<nat>, second: seq<nat>)
    requires Ok(c) && |prio| == c.s.n && IsSchedule(c.s.n, first) && IsSchedule(c.s.n, second)
    ensures IsSchedule(c.s.n, first + second)
    ensures Run(prio, c, first + second) == Run(prio, Run(prio, c, first), second)
    decreases |first|
  {
    if first == [] {
      assert first + second == second;
    } else {
      NextOk(prio, c, first[0]);
      assert (first + second)[1..] == first[1..] + second;
      RunTwice(prio, Next(prio, c, first[0]), first[1..], second);
    }
  }

  // One configuration follows from the other by steps of the barrier without the queue.
  lemma NextRefines(prio: seq<int>, n: nat, a: seq<nat>, c: Config, t: nat) returns (b: seq<nat>)
    requires IsSchedule(n, a) && Ok(c) && c.s == After(n, a) && |prio| == n && t < n
    ensures IsSchedule(n, b) && Next(prio, c, t).s == After(n, b)
  {
    OkMeans(c);
    b := a;
    if Next(prio, c, t).s != c.s {
      b := OneMore(n, a, t);
      if Next(prio, c, t).s != After(n, b) {
        b := OneMore(n, b, t);
      }
    }
  }

  lemma OneMore(n: nat, a: seq<nat>, t: nat) returns (b: seq<nat>)
    requires IsSchedule(n, a) && t < n
    ensures IsSchedule(n, b) && After(n, b) == Step(After(n, a), t)
  {
    b := a + [t];
    assert b[..|b| - 1] == a;
  }

  // Every run with the queue is a run of the barrier without it.
  lemma {:induction false} Refines(prio: seq<int>, schedule: seq<nat>) returns (a: seq<nat>)
    requires IsSchedule(|prio|, schedule)
    ensures IsSchedule(|prio|, a) && Run(prio, First(|prio|), schedule).s == After(|prio|, a)
    decreases |schedule|
  {
    if schedule == [] {
      a := [];
    } else {
      var before, t := schedule[..|schedule| - 1], schedule[|schedule| - 1];
      var b := Refines(prio, before);
      assert schedule == before + [t];
      RunTwice(prio, First(|prio|), before, [t]);
      a := NextRefines(prio, |prio|, b, Run(prio, First(|prio|), before), t);
    }
  }

  // So the barrier is safe under every priority: no thread returns from its k-th call before
  // every participant has entered its k-th.
  lemma SafeWithQueue(prio: seq<int>, schedule: seq<nat>, t: nat, u: nat, k: nat)
    requires IsSchedule(|prio|, schedule) && t < |prio| && u < |prio|
    ensures var s := Run(prio, First(|prio|), schedule).s;
      s.returned[t] >= k ==> s.entered[u] >= k
  {
    var a := Refines(prio, schedule);
    BarrierSafe(|prio|, a, t, u, k);
  }

  // ---------------------------------------------------------------- equal priorities

  ghost predicate AllEqual(prio: seq<int>)
  {
    forall i, j | 0 <= i < |prio| && 0 <= j < |prio| :: prio[i] == prio[j]
  }

  // When the lock is free and threads sleep for it, another one is awake and about to look
  // at it; and nobody is in the middle of a release.
  ghost predicate Wakeful(c: Config)
    requires Ok(c)
  {
    && (forall t | 0 <= t < c.s.n :: !Raises(c.s.pc[t]))
    && (c.s.value == 1 && c.queue != [] ==> exists t :: 0 <= t < c.s.n && Wants(c.s.pc[t]) && t !in c.queue)
  }

  lemma NextWakeful(prio: seq<int>, c: Config, t: nat)
    requires Ok(c) && |prio| == c.s.n && t < c.s.n && AllEqual(prio) && Wakeful(c)
    ensures Ok(Next(prio, c, t)) && Wakeful(Next(prio, c, t))
  {
    OkMeans(c);
    NextOk(prio, c, t);
    if !Asleep(c, t) && !(Wants(c.s.pc[t]) && c.s.value == 0) {
      var s1 := Step(c.s, t);
      StepInv(c.s, t);
      if Raises(s1.pc[t]) {
        Released(prio, c, t);
      } else {
        StillWakeful(c, t);
      }
    }
  }

  lemma StillWakeful(c: Config, t: nat)
    requires Ok(c) && Inv(c.s) && t < c.s.n && Wakeful(c) && !Asleep(c, t) && !(Wants(c.s.pc[t]) && c.s.value == 0)
    requires !Raises(Step(c.s, t).pc[t]) && Ok(c.(s := Step(c.s, t)))
    ensures Wakeful(c.(s := Step(c.s, t)))
  {
    OkMeans(c);
    var s1 := Step(c.s, t);
    forall u | 0 <= u < c.s.n && u != t
      ensures s1.pc[u] == c.s.pc[u] || s1.pc[u] == WantsBack
    {
      OthersStay(c.s, t, u);
    }
    if s1.value == 1 && c.queue != [] {
      var u :| 0 <= u < c.s.n && Wants(c.s.pc[u]) && u !in c.queue;
      assert Wants(s1.pc[u]);
    }
  }

  // The whole of a release: the first sleeper is awake now.
  lemma Released(prio: seq<int>, c: Config, t: nat)
    requires Ok(c) && Inv(c.s) && |prio| == c.s.n && t < c.s.n && AllEqual(prio) && Wakeful(c)
    requires !Asleep(c, t) && !(Wants(c.s.pc[t]) && c.s.value == 0) && Raises(Step(c.s, t).pc[t])
    requires Ok(Next(prio, c, t))
    ensures Wakeful(Next(prio, c, t))
  {
    ReleaseStep(prio, c, t);
    if c.queue != [] {
      var w := c.queue[0];
      OneAwake(c);
      OkMeans(c);
      assert Wants(Next(prio, c, t).s.pc[w]);
    }
  }

  lemma ReleaseStep(prio: seq<int>, c: Config, t: nat)
    requires Ok(c) && Inv(c.s) && |prio| == c.s.n && t < c.s.n && AllEqual(prio)
    requires !Asleep(c, t) && !Raises(c.s.pc[t]) && Raises(Step(c.s, t).pc[t])
    ensures var c1 := Next(prio, c, t);
      && c1.s.n == c.s.n && c1.s.pc == c.s.pc[t := c1.s.pc[t]] && !Raises(c1.s.pc[t]) && !Wants(c.s.pc[t])
      && c1.queue == if c.queue == [] then [] else c.queue[1..]
  {
    OkMeans(c);
  }

  lemma {:induction false} RunWakeful(prio: seq<int>, c: Config, schedule: seq<nat>)
    requires Ok(c) && |prio| == c.s.n && IsSchedule(c.s.n, schedule) && AllEqual(prio) && Wakeful(c)
    ensures Wakeful(Run(prio, c, schedule))
    decreases |schedule|
  {
    if schedule != [] {
      NextWakeful(prio, c, schedule[0]);
      RunWakeful(prio, Next(prio, c, schedule[0]), schedule[1..]);
    }
  }

  // A thread inside the barrier that is awake and does something other than fall asleep for
  // the lock.
  ghost predicate GoesOn(c: Config, t: nat)
    requires Ok(c) && t < c.s.n
  {
    !c.s.pc[t].Outside? && !Asleep(c, t) && !(Wants(c.s.pc[t]) && c.s.value == 0)
  }

  // And what it does changes its program counter, or that of a thread it wakes.
  ghost predicate Advances(prio: seq<int>, c: Config, t: int)
    requires Ok(c) && |prio| == c.s.n
  {
    0 <= t < c.s.n && GoesOn(c, t) && Next(prio, c, t).s.pc != c.s.pc
  }

  // All that are inside sleep on the condition, and some have not come.
  ghost predicate AwaitingOthers(c: Config)
    requires Ok(c)
  {
    && (forall t | 0 <= t < c.s.n :: c.s.pc[t].Outside? || c.s.pc[t].Waits?)
    && exists t :: 0 <= t < c.s.n && c.s.pc[t].Outside?
  }

  // In round-robin mode, or with equal priorities, the barrier never gets stuck: in every
  // state of every run some thread inside it can go on, or all those inside sleep on the
  // condition until the others come, and there are others.
  lemma NoDeadlock(prio: seq<int>, schedule: seq<nat>)
    requires IsSchedule(|prio|, schedule) && |prio| > 0 && AllEqual(prio)
    ensures var c := Run(prio, First(|prio|), schedule); (exists t :: Advances(prio, c, t)) || AwaitingOthers(c)
  {
    RunWakeful(prio, First(|prio|), schedule);
    NotStuck(prio, Run(prio, First(|prio|), schedule));
  }

  lemma NotStuck(prio: seq<int>, c: Config)
    requires Ok(c) && |prio| == c.s.n && |prio| > 0 && Wakeful(c)
    ensures (exists t :: Advances(prio, c, t)) || AwaitingOthers(c)
  {
    if forall t | 0 <= t < |prio| :: c.s.pc[t].Outside? || c.s.pc[t].Waits? {
      OneOutside(c);
    } else {
      var t :| 0 <= t < |prio| && !c.s.pc[t].Outside? && !c.s.pc[t].Waits?;
      var u := Unstuck(c, t);
      GettingOn(prio, c, u);
      assert Advances(prio, c, u);
    }
  }

  lemma OneOutside(c: Config)
    requires Ok(c) && c.s.n > 0 && forall t | 0 <= t < c.s.n :: c.s.pc[t].Outside? || c.s.pc[t].Waits?
    ensures exists t :: 0 <= t < c.s.n && c.s.pc[t].Outside?
  {
    OkMeans(c);
    SomeAwake(c.s);
  }

  lemma GettingOn(prio: seq<int>, c: Config, t: nat)
    requires Ok(c) && |prio| == c.s.n && t < c.s.n && GoesOn(c, t)
    ensures Next(prio, c, t).s.pc != c.s.pc
  {
    OkMeans(c);
    if c.s.pc[t].Broadcasts? && c.s.waitQueue != [] {
      assert Next(prio, c, t).s.pc[c.s.waitQueue[0]].WantsBack?;
    } else {
      assert Next(prio, c, t).s.pc[t] != c.s.pc[t];
    }
  }

  // If the lock is taken its holder goes on; if not, a thread about to look at it does.
  lemma Unstuck(c: Config, t: nat) returns (u: nat)
    requires Ok(c) && Wakeful(c) && t < c.s.n && !c.s.pc[t].Outside? && !c.s.pc[t].Waits?
    ensures u < c.s.n && GoesOn(c, u)
  {
    OkMeans(c);
    u := t;
    if c.s.value == 0 {
      u :| 0 <= u < c.s.n && Holds(c.s.pc[u]);
    } else if t in c.queue {
      u :| 0 <= u < c.s.n && Wants(c.s.pc[u]) && u !in c.queue;
    }
  }
}
