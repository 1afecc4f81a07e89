/**
 The reusable barrier of threads/synch.cc, with the lock and the condition variable it is
 made of, as a state machine over the steps of its threads.

 A step runs one thread from one point where another thread may get the processor to the
 next. Those points include the ones inside ReadyToRun, which yields in priority mode
 before Semaphore::V raises the value: V is two steps, and a broadcast one step a thread.

 Any thread may take the next step, and a thread that waits for the lock may look at it
 again at any time, where in the code it sleeps in a queue until it is woken. So there are
 more runs here than in the code, and what holds in all of them is safety. BarrierQueues has
 the queue and the priorities: its runs are among these, and it says when threads are left
 asleep.
 */
module Barriers {

  datatype Pc =
    | Outside      // between two calls of ArriveAndWait
    | WantsIn      // Mutex->Acquire() on arrival
    | Arrived      // holds the lock, about to count itself
    | LeavesLock   // in Wait, has released the lock but for value++
    | Waits        // in Wait, asleep on the condition
    | Broadcasts   // the last to arrive, holds the lock and wakes the others
    | WantsBack    // woken, Acquire() at the end of Wait
    | Goes         // holds the lock, about to release it
    | Releases     // has released the lock but for value++

  // The barrier and its participants 0, 1, ..., n - 1. The last three fields record what
  // happened: the calls each thread has entered and returned from, and the broadcasts.
  datatype State = State(
    n: nat,
    pc: seq<Pc>,
    value: int,              // of the semaphore in the lock
    owner: int,              // of the lock; NOBODY if it has none
    waitQueue: seq<nat>,     // of the condition
    numLeft: int,
    entered: seq<nat>,
    returned: seq<nat>,
    rounds: nat)

  const NOBODY := -1

  ghost predicate Shaped(s: State)
  {
    |s.pc| == s.n && |s.entered| == s.n && |s.returned| == s.n
  }

  ghost function Initial(n: nat): State
  {
    State(n, seq(n, _ => Outside), 1, NOBODY, [], n, seq(n, _ => 0), seq(n, _ => 0), 0)
  }

  // The next step of thread t. A thread that cannot go on stays where it is.
  ghost function Step(s: State, t: nat): (s1: State)
    requires Shaped(s) && t < s.n && forall i | 0 <= i < |s.waitQueue| :: s.waitQueue[i] < s.n
    ensures Shaped(s1) && s1.n == s.n
  {
    match s.pc[t]
    case Outside =>
      s.(pc := s.pc[t := WantsIn], entered := s.entered[t := s.entered[t] + 1])
    case WantsIn =>
      if s.value == 0 then s else s.(pc := s.pc[t := Arrived], value := s.value - 1, owner := t)
    case Arrived =>
      if s.numLeft - 1 == 0 then
        s.(pc := s.pc[t := Broadcasts], numLeft := 0, rounds := s.rounds + 1)
      else
        s.(pc := s.pc[t := LeavesLock], numLeft := s.numLeft - 1, owner := NOBODY)
    case LeavesLock =>
      s.(pc := s.pc[t := Waits], value := s.value + 1, waitQueue := s.waitQueue + [t])
    case Waits => s
    case Broadcasts =>
      if s.waitQueue == [] then
        s.(pc := s.pc[t := Goes], numLeft := s.n)
      else
        s.(pc := s.pc[s.waitQueue[0] := WantsBack], waitQueue := s.waitQueue[1..])
    case WantsBack =>
      if s.value == 0 then s else s.(pc := s.pc[t := Goes], value := s.value - 1, owner := t)
    case Goes =>
      s.(pc := s.pc[t := Releases], owner := NOBODY)
    case Releases =>
      s.(pc := s.pc[t := Outside], value := s.value + 1, returned := s.returned[t := s.returned[t] + 1])
  }

  // A call is entered when a thread comes in from outside, and returned from when it goes back.
  lemma StepCounts(s: State, t: nat, u: nat)
    requires Shaped(s) && t < s.n && u < s.n && forall i | 0 <= i < |s.waitQueue| :: s.waitQueue[i] < s.n
    requires !s.pc[t].Waits? && forall i | 0 <= i < |s.waitQueue| :: s.pc[s.waitQueue[i]].Waits?
    ensures var s1 := Step(s, t);
      && s1.entered[u] == s.entered[u] + (if s.pc[u].Outside? && s1.pc[u].WantsIn? then 1 else 0)
      && s1.returned[u] == s.returned[u] + (if !s.pc[u].Outside? && s1.pc[u].Outside? then 1 else 0)
      && s1.rounds == s.rounds + (if s.pc[t].Arrived? && s1.pc[t].Broadcasts? then 1 else 0)
      && (s.pc[t].Outside? ==> s1.pc[t].WantsIn?)
  {
  }

  // ---------------------------------------------------------------- the invariant

  // Nobody else has the lock, whatever the value of its semaphore says.
  predicate Holds(pc: Pc)
  {
    pc.Arrived? || pc.LeavesLock? || pc.Broadcasts? || pc.Goes? || pc.Releases?
  }

  // Where a thread stands, by the number of broadcasts begun.
  ghost predicate InRound(s: State, t: nat)
    requires Shaped(s) && t < s.n
  {
    match s.pc[t]
    case Outside => s.entered[t] == s.returned[t] == s.rounds
    case WantsIn | Arrived | LeavesLock => s.entered[t] == s.rounds + 1 && s.returned[t] == s.rounds
    case Waits =>
      s.entered[t] == s.returned[t] + 1 && s.entered[t] == if s.numLeft == 0 then s.rounds else s.rounds + 1
    case Broadcasts => s.numLeft == 0 && s.entered[t] == s.rounds == s.returned[t] + 1
    case WantsBack | Goes | Releases => s.entered[t] == s.rounds == s.returned[t] + 1
  }

  // The threads that have counted themselves in the round being filled.
  ghost function Counted(s: State): set<nat>
    requires Shaped(s)
  {
    set t: nat | t < s.n && (s.pc[t].LeavesLock? || s.pc[t].Waits?)
  }

  ghost predicate LockInv(s: State)
    requires Shaped(s)
  {
    && 0 <= s.value <= 1
    && (forall t, u | 0 <= t < s.n && 0 <= u < s.n && Holds(s.pc[t]) && Holds(s.pc[u]) :: t == u)
    && (s.value == 1 <==> forall t | 0 <= t < s.n :: !Holds(s.pc[t]))
    && (forall t | 0 <= t < s.n && (s.pc[t].Arrived? || s.pc[t].Broadcasts? || s.pc[t].Goes?) :: s.owner == t)
  }

  // The threads asleep on the condition are those in its queue, each once.
  ghost predicate QueueInv(s: State)
    requires Shaped(s)
  {
    && (forall i | 0 <= i < |s.waitQueue| :: s.waitQueue[i] < s.n && s.pc[s.waitQueue[i]].Waits?)
    && (forall i, j | 0 <= i < j < |s.waitQueue| :: s.waitQueue[i] != s.waitQueue[j])
    && (forall t | 0 <= t < s.n && s.pc[t].Waits? :: t in s.waitQueue)
  }

  // Between broadcasts numLeft counts the threads yet to come; during one all are there.
  ghost predicate RoundInv(s: State)
    requires Shaped(s)
  {
    && (forall t | 0 <= t < s.n :: InRound(s, t))
    && if s.numLeft == 0 && s.n > 0 then
         && (exists t :: 0 <= t < s.n && s.pc[t].Broadcasts?)
         && (forall t | 0 <= t < s.n :: s.pc[t].Broadcasts? || s.pc[t].Waits? || s.pc[t].WantsBack?)
       else s.numLeft == s.n - |Counted(s)|
  }

  ghost predicate Inv(s: State)
  {
    Shaped(s) && LockInv(s) && QueueInv(s) && RoundInv(s)
  }

  lemma InitialInv(n: nat)
    ensures Inv(Initial(n))
  {
    assert Counted(Initial(n)) == {};
  }

  ghost function Threads(n: nat): (r: set<nat>)
    ensures |r| == n && forall t: nat :: t in r <==> t < n
  {
    if n == 0 then {} else Threads(n - 1) + {n - 1}
  }

  // Every participant but one counted: they are all there.
  lemma AllButOne(n: nat, counted: set<nat>, t: nat)
    requires t < n && t !in counted && (forall u <- counted :: u < n)
    ensures |counted| <= n - 1
    ensures |counted| == n - 1 ==> forall u: nat | u < n && u != t :: u in counted
  {
    var others := Threads(n) - {t};
    assert others == counted + (others - counted);
  }

  // What a step does to the threads that do not take it: at most one of them is woken.
  lemma OthersStay(s: State, t: nat, u: nat)
    requires Inv(s) && t < s.n && u < s.n && u != t
    ensures Step(s, t).entered[u] == s.entered[u] && Step(s, t).returned[u] == s.returned[u]
    ensures Step(s, t).pc[u] ==
      if s.pc[t].Broadcasts? && s.waitQueue != [] && u == s.waitQueue[0] then WantsBack else s.pc[u]
  {
  }

  lemma StepLock(s: State, t: nat)
    requires Inv(s) && t < s.n
    ensures LockInv(Step(s, t))
  {
    var s1 := Step(s, t);
    forall u | 0 <= u < s.n && u != t
      ensures Holds(s1.pc[u]) ==> s1.pc[u] == s.pc[u]
    {
      OthersStay(s, t, u);
    }
    OwnStep(s, t);
    if s1.value == 0 && !Holds(s1.pc[t]) {
      var u :| 0 <= u < s.n && Holds(s.pc[u]);
      assert u != t;
      OthersStay(s, t, u);
    }
  }

  lemma OwnStep(s: State, t: nat)
    requires Inv(s) && t < s.n
    ensures var s1 := Step(s, t);
      && (s1.value == 0 && !Holds(s1.pc[t]) ==> s.value == 0 && !Holds(s.pc[t]))
      && (Holds(s1.pc[t]) ==> s1.value == 0 && (Holds(s.pc[t]) || s.value == 1))
      && (s1.value == s.value || (s1.value == 1 && Holds(s.pc[t])) || (s1.value == 0 && Holds(s1.pc[t])))
      && (s1.owner == s.owner || Holds(s.pc[t]) || Holds(s1.pc[t]))
      && (s1.pc[t].Arrived? || s1.pc[t].Broadcasts? || s1.pc[t].Goes? ==> s1.owner == t)
      && 0 <= s1.value <= 1
  {
  }

  lemma StepQueue(s: State, t: nat)
    requires Inv(s) && t < s.n
    ensures QueueInv(Step(s, t))
  {
    var s1 := Step(s, t);
    if s.pc[t].Broadcasts? && s.waitQueue != [] {
      WakeOne(s, t);
    } else if s.pc[t].LeavesLock? {
      FallAsleep(s, t);
    } else {
      assert s1.waitQueue == s.waitQueue && (s1.pc[t].Waits? <==> s.pc[t].Waits?);
      forall u | 0 <= u < s.n && u != t
        ensures s1.pc[u] == s.pc[u]
      {
        OthersStay(s, t, u);
      }
    }
  }

  lemma WakeOne(s: State, t: nat)
    requires Inv(s) && t < s.n && s.pc[t].Broadcasts? && s.waitQueue != []
    ensures QueueInv(Step(s, t))
  {
    var h := s.waitQueue[0];
    assert forall u :: u in s.waitQueue <==> u == h || u in s.waitQueue[1..];
  }

  lemma FallAsleep(s: State, t: nat)
    requires Inv(s) && t < s.n && s.pc[t].LeavesLock?
    ensures QueueInv(Step(s, t))
  {
    assert Step(s, t).waitQueue[|s.waitQueue|] == t;
  }

  lemma StepRound(s: State, t: nat)
    requires Inv(s) && t < s.n
    ensures RoundInv(Step(s, t))
  {
    if s.pc[t].Arrived? {
      StepArrived(s, t);
    } else if s.pc[t].Broadcasts? {
      StepBroadcasts(s, t);
    } else {
      var s1 := Step(s, t);
      forall u | 0 <= u < s.n
        ensures InRound(s1, u)
      {
        assert InRound(s, u);
        if u != t { OthersStay(s, t, u); }
      }
      SameCounted(s, t);
    }
  }

  lemma SameCounted(s: State, t: nat)
    requires Inv(s) && t < s.n && !s.pc[t].Arrived? && !s.pc[t].Broadcasts?
    ensures Counted(Step(s, t)) == Counted(s) && Step(s, t).numLeft == s.numLeft
  {
    var s1 := Step(s, t);
    forall u: nat
      ensures u in Counted(s1) <==> u in Counted(s)
    {
      if u < s.n && u != t {
        OthersStay(s, t, u);
      }
    }
  }

  // The last to arrive finds all the others asleep.
  lemma AllOthersWait(s: State, t: nat)
    requires Inv(s) && t < s.n && s.pc[t].Arrived?
    ensures s.numLeft >= 1
    ensures s.numLeft == 1 ==> forall u | 0 <= u < s.n && u != t :: s.pc[u].Waits?
  {
    AllButOne(s.n, Counted(s), t);
    forall u | 0 <= u < s.n && u != t
      ensures s.numLeft == 1 ==> s.pc[u].Waits?
    {
      assert s.numLeft == 1 ==> u in Counted(s);
    }
  }

  lemma StepArrived(s: State, t: nat)
    requires Inv(s) && t < s.n && s.pc[t].Arrived?
    ensures RoundInv(Step(s, t))
  {
    var s1 := Step(s, t);
    AllOthersWait(s, t);
    forall u | 0 <= u < s.n
      ensures InRound(s1, u)
    {
      assert InRound(s, u);
    }
    if s.numLeft == 1 {
      assert s1.pc[t].Broadcasts?;
    } else {
      assert Counted(s1) == Counted(s) + {t};
    }
  }

  lemma StepBroadcasts(s: State, t: nat)
    requires Inv(s) && t < s.n && s.pc[t].Broadcasts?
    ensures RoundInv(Step(s, t))
  {
    var s1 := Step(s, t);
    assert InRound(s, t);
    if s.waitQueue == [] {
      assert Counted(s1) == {};
    } else {
      assert s1.pc[t].Broadcasts?;
    }
    forall u | 0 <= u < s.n
      ensures InRound(s1, u)
    {
      assert InRound(s, u);
    }
  }

  // Every step keeps the invariant.
  lemma StepInv(s: State, t: nat)
    requires Inv(s) && t < s.n
    ensures Inv(Step(s, t)) && Step(s, t).n == s.n
  {
    StepLock(s, t);
    StepQueue(s, t);
    StepRound(s, t);
  }

  // ---------------------------------------------------------------- every run

  ghost predicate IsSchedule(n: nat, schedule: seq<nat>)
  {
    forall i | 0 <= i < |schedule| :: schedule[i] < n
  }

  // The state after the threads have taken steps in that order.
  ghost function After(n: nat, schedule: seq<nat>): (s: State)
    requires IsSchedule(n, schedule)
    ensures Inv(s) && s.n == n
  {
    if schedule == [] then InitialInv(n); Initial(n)
    else
      var before := schedule[..|schedule| - 1];
      var s := After(n, before);
      StepInv(s, schedule[|before|]);
      Step(s, schedule[|before|])
  }

  // No thread returns from its k-th call before every participant has entered its k-th,
  // in any run, however often the barrier is used again.
  lemma BarrierSafe(n: nat, schedule: seq<nat>, t: nat, u: nat, k: nat)
    requires IsSchedule(n, schedule) && t < n && u < n
    ensures var s := After(n, schedule);
      s.returned[t] >= k ==> s.entered[u] >= k
  {
    var s := After(n, schedule);
    assert InRound(s, t) && InRound(s, u);
  }

  // Nor is any thread a full call ahead of another.
  lemma NoOvertaking(n: nat, schedule: seq<nat>, t: nat, u: nat)
    requires IsSchedule(n, schedule) && t < n && u < n
    ensures var s := After(n, schedule);
      s.entered[t] <= s.entered[u] + 1 && s.returned[t] <= s.returned[u] + 1
  {
    var s := After(n, schedule);
    assert InRound(s, t) && InRound(s, u);
  }

  // The assertions that the calling thread holds the lock, in Wait, Broadcast and Release,
  // never fail, and at most one thread is past Acquire at a time.
  lemma LockIsHeld(n: nat, schedule: seq<nat>, t: nat, u: nat)
    requires IsSchedule(n, schedule) && t < n && u < n
    ensures var s := After(n, schedule);
      && (s.pc[t].Arrived? || s.pc[t].Broadcasts? || s.pc[t].Goes? ==> s.owner == t)
      && (Holds(s.pc[t]) && Holds(s.pc[u]) ==> t == u)
  {
  }

  // They never all sleep on the condition: the last to arrive found numLeft at 0.
  lemma SomeAwake(s: State)
    requires Inv(s) && s.n > 0
    ensures exists t :: 0 <= t < s.n && !s.pc[t].Waits?
  {
    if s.numLeft != 0 {
      assert Counted(s) != Threads(s.n) && Counted(s) <= Threads(s.n);
      var t :| t in Threads(s.n) && t !in Counted(s);
      assert !s.pc[t].Waits?;
    }
  }
}
