/**
 Threads, the ready list, semaphores and conditions in round-robin mode (threads/thread.cc,
 threads/scheduler.cc, threads/synch.cc).

 Interrupts are off inside each of these operations, so the kernel goes from one switch
 point to the next in one piece: a method here runs the current thread up to the point
 where it goes on or another thread has the processor.
 */
module Kernels {

  type Thread = nat
  datatype Status = JustCreated | Running | Ready | Blocked

  const NONE := -1

  // Everybody in a row of queues, each as often as they are there.
  ghost function Everybody(queues: seq<seq<Thread>>): multiset<Thread>
  {
    if queues == [] then multiset{} else multiset(queues[0]) + Everybody(queues[1..])
  }

  lemma {:induction false} EverybodyUpdated(queues: seq<seq<Thread>>, k: nat, q: seq<Thread>)
    requires k < |queues|
    ensures multiset(queues[k]) <= Everybody(queues)
    ensures Everybody(queues[k := q]) == Everybody(queues) - multiset(queues[k]) + multiset(q)
  {
    if k == 0 {
      assert queues[k := q][1..] == queues[1..];
    } else {
      assert queues[k := q][1..] == queues[1..][k - 1 := q];
      EverybodyUpdated(queues[1..], k - 1, q);
    }
  }

  // Where the threads are, and what their status fields say.
  datatype Snapshot = Snapshot(
    current: int,                      // NONE while the processor looks for a thread
    ready: seq<Thread>,
    queues: seq<seq<Thread>>,          // of the semaphores and the conditions
    status: map<Thread, Status>)

  ghost function Places(p: Snapshot): multiset<Thread>
  {
    (if p.current >= 0 then multiset{p.current} else multiset{}) + multiset(p.ready) + Everybody(p.queues)
  }

  ghost predicate Labelled(p: Snapshot)
  {
    && (p.current >= 0 ==> p.current in p.status && p.status[p.current] == Running)
    && (forall t <- p.ready :: t in p.status && p.status[t] == Ready)
    && (forall i, t | 0 <= i < |p.queues| && t in p.queues[i] :: t in p.status && p.status[t] == Blocked)
  }

  // Every live thread is in exactly one place, and its status says in which kind.
  ghost predicate Placed(p: Snapshot, live: set<Thread>)
  {
    Places(p) == multiset(live) && Labelled(p)
  }

  lemma QueuedIsThere(queues: seq<seq<Thread>>, i: nat, t: Thread)
    requires i < |queues| && t in queues[i]
    ensures t in Everybody(queues)
  {
    EverybodyUpdated(queues, i, []);
  }

  // A thread in a queue is nowhere else.
  lemma QueuedOnce(p: Snapshot, live: set<Thread>, s: nat)
    requires Placed(p, live) && s < |p.queues| && p.queues[s] != []
    ensures var t, rest := p.queues[s][0], p.queues[s][1..];
      && t !in rest && t !in Everybody(p.queues[s := rest]) && t !in p.ready && t != p.current && t in live
      && Everybody(p.queues) == Everybody(p.queues[s := rest]) + multiset{t}
  {
    var t, rest := p.queues[s][0], p.queues[s][1..];
    var others := p.queues[s := rest];
    assert multiset(p.queues[s]) == multiset{t} + multiset(rest) by {
      assert p.queues[s] == [t] + rest;
    }
    EverybodyUpdated(p.queues, s, rest);
    assert Everybody(p.queues) == Everybody(others) + multiset{t};
    assert others[s] == rest;
    EverybodyUpdated(others, s, rest);
    assert Places(p)[t] <= 1 && t in Places(p);
  }

  // Semaphore::V wakes the first in the queue.
  lemma Woken(p: Snapshot, live: set<Thread>, s: nat, p1: Snapshot)
    requires Placed(p, live) && s < |p.queues| && p.queues[s] != []
    requires var t := p.queues[s][0];
      p1 == p.(ready := p.ready + [t], queues := p.queues[s := p.queues[s][1..]], status := p.status[t := Ready])
    ensures Placed(p1, live) && p.queues[s][0] !in p.queues[s][1..]
  {
    var t := p.queues[s][0];
    QueuedOnce(p, live, s);
    forall i, u | 0 <= i < |p1.queues| && u in p1.queues[i]
      ensures u != t && u in p.queues[i]
    {
      QueuedIsThere(p1.queues, i, u);
    }
  }

  // The current thread goes to sleep on semaphore s.
  lemma Slept(p: Snapshot, live: set<Thread>, s: nat, p1: Snapshot)
    requires Placed(p, live) && s < |p.queues| && p.current >= 0
    requires p1 == p.(current := NONE, queues := p.queues[s := p.queues[s] + [p.current]],
                      status := p.status[p.current := Blocked])
    ensures Placed(p1, live) && p.current in live
  {
    CurrentOnce(p, live);
    SleptPlaces(p, s, p1);
    forall i, u | 0 <= i < |p1.queues| && u in p1.queues[i]
      ensures u in p1.status && p1.status[u] == Blocked
    {
      if u != p.current {
        assert u in p.queues[i];
      }
    }
  }

  lemma SleptPlaces(p: Snapshot, s: nat, p1: Snapshot)
    requires s < |p.queues| && p.current >= 0 && p1.current == NONE && p1.ready == p.ready
    requires p1.queues == p.queues[s := p.queues[s] + [p.current]]
    ensures Places(p1) == Places(p)
  {
    EverybodyUpdated(p.queues, s, p.queues[s] + [p.current]);
  }

  lemma CurrentOnce(p: Snapshot, live: set<Thread>)
    requires Placed(p, live) && p.current >= 0
    ensures p.current in live && p.current !in p.ready && p.current !in Everybody(p.queues)
  {
    assert p.current in Places(p) && Places(p)[p.current] <= 1;
  }

  // The first ready thread gets the processor.
  lemma Ran(p: Snapshot, live: set<Thread>, p1: Snapshot)
    requires Placed(p, live) && p.current < 0 && p.ready != []
    requires p1 == p.(current := p.ready[0], ready := p.ready[1..], status := p.status[p.ready[0] := Running])
    ensures Placed(p1, live)
  {
    var t := p.ready[0];
    assert p.ready == [t] + p.ready[1..];
    assert Places(p1) == Places(p) && Places(p)[t] <= 1;
    assert t !in p.ready[1..];
    forall i, u | 0 <= i < |p.queues| && u in p.queues[i]
      ensures u != t
    {
      QueuedIsThere(p.queues, i, u);
    }
  }

  // The current thread goes to the end of the ready list, or a new thread does.
  lemma Readied(p: Snapshot, live: set<Thread>, t: Thread, p1: Snapshot, live1: set<Thread>)
    requires Placed(p, live)
    requires if p.current == t then live1 == live && p1.current == NONE
             else t !in live && live1 == live + {t} && p1.current == p.current
    requires p1 == p.(current := p1.current, ready := p.ready + [t], status := p.status[t := Ready])
    ensures Placed(p1, live1)
  {
    assert multiset(p1.ready) == multiset(p.ready) + multiset{t};
    if p.current == t {
      assert Places(p1) == Places(p);
    } else {
      assert Places(p1) == Places(p) + multiset{t};
      assert multiset(live1) == multiset(live) + multiset{t};
    }
    assert p.current >= 0 ==> p.current in Places(p);
    forall u | u in p.ready && u != t
      ensures p1.status[u] == Ready
    {
    }
    forall i, u | 0 <= i < |p.queues| && u in p.queues[i]
      ensures u != t
    {
      QueuedIsThere(p.queues, i, u);
      assert u in Places(p) && Places(p)[u] <= 1;
    }
  }

  // The current thread is no more.
  lemma Finished(p: Snapshot, live: set<Thread>, p1: Snapshot)
    requires Placed(p, live) && p.current >= 0 && p1 == p.(current := NONE)
    ensures p.current in live && Placed(p1, live - {p.current})
  {
    assert p.current in Places(p);
    assert Places(p1) == Places(p) - multiset{p.current};
  }

  // ---------------------------------------------------------------- the state of the kernel

  // A semaphore: what it began with, the V's and P's done, and the threads inside P that
  // have been woken and not yet looked at the value again.
  datatype SemState = SemState(
    value: int, queue: seq<Thread>, initial: nat, ups: nat, downs: nat, woken: set<Thread>)

  ghost predicate SemOk(m: SemState)
  {
    && m.value == m.initial + m.ups - m.downs && m.value >= 0
    && (forall t <- m.queue :: t !in m.woken)
    // while threads sleep, no more is to be had than threads are on their way to it
    && (m.queue != [] ==> m.value <= |m.woken|)
  }

  datatype World = World(
    current: int, ready: seq<Thread>, sems: seq<SemState>, conds: seq<seq<Thread>>, status: map<Thread, Status>)

  ghost function QueuesOf(sems: seq<SemState>, conds: seq<seq<Thread>>): (r: seq<seq<Thread>>)
    ensures |r| == |sems| + |conds|
  {
    seq(|sems| + |conds|, i requires 0 <= i < |sems| + |conds| =>
      if i < |sems| then sems[i].queue else conds[i - |sems|])
  }

  ghost function Where(w: World): Snapshot
  {
    Snapshot(w.current, w.ready, QueuesOf(w.sems, w.conds), w.status)
  }

  // Threads that have been woken inside P are ready or running, each for one semaphore.
  ghost predicate OnTheirWay(w: World)
  {
    && (forall i, t | 0 <= i < |w.sems| && t in w.sems[i].woken :: t == w.current || t in w.ready)
    && (forall i, j | 0 <= i < j < |w.sems| :: w.sems[i].woken !! w.sems[j].woken)
  }

  // What is true of the kernel at every switch point.
  datatype Concern = Places | Counts | WakeUps

  ghost predicate Meets(w: World, live: set<Thread>, concern: Concern)
  {
    match concern
    case Places => Placed(Where(w), live)
    case Counts => forall i | 0 <= i < |w.sems| :: SemOk(w.sems[i])
    case WakeUps => OnTheirWay(w)
  }

  ghost predicate Ok(w: World, live: set<Thread>)
  {
    forall concern {:trigger Meets(w, live, concern)} :: Meets(w, live, concern)
  }

  lemma OkMeans(w: World, live: set<Thread>)
    ensures Ok(w, live) <==>
      Placed(Where(w), live) && (forall i | 0 <= i < |w.sems| :: SemOk(w.sems[i])) && OnTheirWay(w)
  {
    if Ok(w, live) {
      assert Meets(w, live, Concern.Places) && Meets(w, live, Counts) && Meets(w, live, WakeUps);
    }
  }

  // The current thread is not inside P.
  ghost predicate Free(w: World)
  {
    forall i | 0 <= i < |w.sems| :: w.current !in w.sems[i].woken
  }

  // No wake-up is lost: if threads sleep on a semaphore though its value is positive, then
  // for all of that value there are other live threads, ready or running, inside P on this
  // semaphore, and what each of them does next is to look at the value.
  lemma NoLostWakeUp(w: World, live: set<Thread>, s: nat)
    requires Ok(w, live) && s < |w.sems| && w.sems[s].queue != []
    ensures w.sems[s].value <= |w.sems[s].woken|
    ensures w.sems[s].value > 0 ==> exists t :: t in live && t in w.sems[s].woken && (t == w.current || t in w.ready)
    ensures forall t <- w.sems[s].woken :: t in live && (t == w.current || t in w.ready) && t !in w.sems[s].queue
    ensures forall t <- w.sems[s].woken, i | 0 <= i < |w.sems| && i != s :: t !in w.sems[i].woken
  {
    OkMeans(w, live);
    assert SemOk(w.sems[s]);
    forall t | t in w.sems[s].woken
      ensures t in live
    {
      assert t == w.current || t in w.ready;
      assert t in Places(Where(w));
    }
    if w.sems[s].value > 0 {
      var t :| t in w.sems[s].woken;
    }
  }

  lemma QueueUpdated(sems: seq<SemState>, conds: seq<seq<Thread>>, s: nat, m: SemState)
    requires s < |sems|
    ensures QueuesOf(sems[s := m], conds) == QueuesOf(sems, conds)[s := m.queue]
    ensures QueuesOf(sems, conds)[s] == sems[s].queue
  {
  }

  lemma ConditionUpdated(sems: seq<SemState>, conds: seq<seq<Thread>>, c: nat, q: seq<Thread>)
    requires c < |conds|
    ensures QueuesOf(sems, conds[c := q]) == QueuesOf(sems, conds)[|sems| + c := q]
    ensures QueuesOf(sems, conds)[|sems| + c] == conds[c]
  {
  }

  // ---------------------------------------------------------------- what the operations do

  // The first thread in the queue is ready.
  ghost function AfterWake(w: World, s: nat): World
    requires s < |w.sems| && w.sems[s].queue != []
  {
    var m, t := w.sems[s], w.sems[s].queue[0];
    w.(ready := w.ready + [t], status := w.status[t := Ready],
       sems := w.sems[s := m.(queue := m.queue[1..], woken := m.woken + {t})])
  }

  ghost function AfterRaise(w: World, s: nat): World
    requires s < |w.sems|
  {
    var m := w.sems[s];
    w.(sems := w.sems[s := m.(value := m.value + 1, ups := m.ups + 1)])
  }

  // The first thread in the queue, if any, is ready, and the value is greater by one.
  ghost function AfterV(w: World, s: nat): (r: World)
    requires s < |w.sems|
    ensures |r.sems| == |w.sems|
  {
    AfterRaise(if w.sems[s].queue == [] then w else AfterWake(w, s), s)
  }

  // The current thread takes one of a positive value, and is no longer inside P.
  ghost function AfterTake(w: World, s: nat): World
    requires s < |w.sems| && w.current >= 0
  {
    var m := w.sems[s];
    w.(sems := w.sems[s := m.(value := m.value - 1, downs := m.downs + 1, woken := m.woken - {w.current})])
  }

  // The current thread sleeps at the end of the queue.
  ghost function AfterSleep(w: World, s: nat): World
    requires s < |w.sems| && w.current >= 0
  {
    var m := w.sems[s];
    w.(current := NONE, status := w.status[w.current := Blocked],
       sems := w.sems[s := m.(queue := m.queue + [w.current], woken := m.woken - {w.current})])
  }

  ghost function AfterWait(w: World, c: nat): World
    requires c < |w.conds| && w.current >= 0
  {
    w.(current := NONE, status := w.status[w.current := Blocked], conds := w.conds[c := w.conds[c] + [w.current]])
  }

  ghost function AfterSignal(w: World, c: nat): World
    requires c < |w.conds|
  {
    if w.conds[c] == [] then w
    else
      var t := w.conds[c][0];
      w.(ready := w.ready + [t], status := w.status[t := Ready], conds := w.conds[c := w.conds[c][1..]])
  }

  ghost function AfterBroadcast(w: World, c: nat): World
    requires c < |w.conds|
    decreases if c < |w.conds| then |w.conds[c]| else 0
  {
    if w.conds[c] == [] then w else AfterBroadcast(AfterSignal(w, c), c)
  }

  ghost function AfterRun(w: World): World
    requires w.ready != []
  {
    w.(current := w.ready[0], ready := w.ready[1..], status := w.status[w.ready[0] := Running])
  }

  // Interrupt handlers do V on these semaphores.
  ghost function AfterHandlers(w: World, handlers: seq<nat>): (r: World)
    requires forall i | 0 <= i < |handlers| :: handlers[i] < |w.sems|
    ensures |r.sems| == |w.sems|
    decreases |handlers|
  {
    if handlers == [] then w else AfterHandlers(AfterV(w, handlers[0]), handlers[1..])
  }

  function First(q: seq<Thread>): seq<Thread>
  {
    if q == [] then [] else [q[0]]
  }

  // What is left of a queue after so many have been woken.
  function Left(q: seq<Thread>, n: nat): seq<Thread>
  {
    if n <= |q| then q[n..] else []
  }

  // The value of a semaphore grows by the number of its V's, each of which wakes the first
  // sleeper as long as there is one.
  lemma {:induction false} HandlersMean(w: World, handlers: seq<nat>, s: nat)
    requires (forall i | 0 <= i < |handlers| :: handlers[i] < |w.sems|) && s < |w.sems|
    ensures var w1 := AfterHandlers(w, handlers);
      && w1.sems[s].value == w.sems[s].value + multiset(handlers)[s]
      && w1.sems[s].ups == w.sems[s].ups + multiset(handlers)[s] && w1.sems[s].downs == w.sems[s].downs
      && w1.sems[s].queue == Left(w.sems[s].queue, multiset(handlers)[s])
      && w1.current == w.current && w1.conds == w.conds && w.ready <= w1.ready
    decreases |handlers|
  {
    if handlers != [] {
      var n := multiset(handlers[1..])[s];
      CountFirst(handlers, s);
      VMeans(w, handlers[0], s);
      HandlersMean(AfterV(w, handlers[0]), handlers[1..], s);
      LeftTwice(w.sems[s].queue, if handlers[0] == s then 1 else 0, n);
    }
  }

  lemma CountFirst(handlers: seq<nat>, s: nat)
    requires handlers != []
    ensures multiset(handlers)[s] == (if handlers[0] == s then 1 else 0) + multiset(handlers[1..])[s]
  {
    assert handlers == [handlers[0]] + handlers[1..];
  }

  lemma VMeans(w: World, v: nat, s: nat)
    requires v < |w.sems| && s < |w.sems|
    ensures var w1, n := AfterV(w, v), if v == s then 1 else 0;
      && w1.sems[s].value == w.sems[s].value + n && w1.sems[s].ups == w.sems[s].ups + n
      && w1.sems[s].downs == w.sems[s].downs && w1.sems[s].queue == Left(w.sems[s].queue, n)
      && w1.current == w.current && w1.conds == w.conds && w.ready <= w1.ready
  {
  }

  lemma LeftTwice(q: seq<Thread>, a: nat, b: nat)
    ensures Left(Left(q, a), b) == Left(q, a + b)
  {
  }

  ghost predicate InRange(rounds: seq<seq<nat>>, n: nat)
  {
    forall r, i | 0 <= r < |rounds| && 0 <= i < |rounds[r]| :: rounds[r][i] < n
  }

  // The first ready thread runs. While there is none, Idle lets handlers run, round after
  // round, until no interrupt is left.
  ghost function AfterDispatch(w: World, rounds: seq<seq<nat>>): World
    requires InRange(rounds, |w.sems|)
    decreases |rounds|
  {
    if w.ready != [] then AfterRun(w)
    else if rounds == [] then w
    else AfterDispatch(AfterHandlers(w, rounds[0]), rounds[1..])
  }

  ghost function AfterRounds(w: World, rounds: seq<seq<nat>>): (r: World)
    requires InRange(rounds, |w.sems|)
    ensures |r.sems| == |w.sems|
    decreases |rounds|
  {
    if rounds == [] then w else AfterRounds(AfterHandlers(w, rounds[0]), rounds[1..])
  }

  lemma PartInRange(rounds: seq<seq<nat>>, n: nat, k: nat)
    requires InRange(rounds, n) && k <= |rounds|
    ensures InRange(rounds[..k], n) && InRange(rounds[k..], n)
  {
    assert forall r | 0 <= r < |rounds[..k]| :: rounds[..k][r] == rounds[r];
    assert forall r | 0 <= r < |rounds[k..]| :: rounds[k..][r] == rounds[k + r];
  }

  // As few rounds of handlers are run as it takes for a thread to be ready, and the first
  // one ready then runs; with no round left the processor stays idle.
  lemma {:induction false} DispatchMeans(w: World, rounds: seq<seq<nat>>) returns (k: nat)
    requires InRange(rounds, |w.sems|)
    ensures k <= |rounds| && InRange(rounds[..k], |w.sems|)
    ensures forall j {:trigger rounds[..j]} | 0 <= j < k ::
      InRange(rounds[..j], |w.sems|) && AfterRounds(w, rounds[..j]).ready == []
    ensures var w1 := AfterRounds(w, rounds[..k]);
      && (w1.ready == [] ==> k == |rounds| && AfterDispatch(w, rounds) == w1)
      && (w1.ready != [] ==>
            AfterDispatch(w, rounds) == w1.(current := w1.ready[0], ready := w1.ready[1..],
                                            status := w1.status[w1.ready[0] := Running]))
    decreases |rounds|
  {
    k := 0;
    if w.ready == [] && rounds != [] {
      var rest := rounds[1..];
      PartInRange(rounds, |w.sems|, 1);
      var m := DispatchMeans(AfterHandlers(w, rounds[0]), rest);
      k := m + 1;
      forall j | 0 < j <= k
        ensures InRange(rounds[..j], |w.sems|)
        ensures AfterRounds(w, rounds[..j]) == AfterRounds(AfterHandlers(w, rounds[0]), rest[..j - 1])
      {
        PartInRange(rounds, |w.sems|, j);
        assert rounds[..j][1..] == rest[..j - 1];
      }
    }
  }

  // A semaphore from which nothing is taken.
  ghost predicate OnlyRaised(m: SemState, m1: SemState)
  {
    m1.downs == m.downs && m1.value - m1.ups == m.value - m.ups
  }

  lemma {:induction false} RoundsTakeNothing(w: World, rounds: seq<seq<nat>>, i: nat)
    requires InRange(rounds, |w.sems|) && i < |w.sems|
    ensures OnlyRaised(w.sems[i], AfterRounds(w, rounds).sems[i])
    decreases |rounds|
  {
    if rounds != [] {
      PartInRange(rounds, |w.sems|, 1);
      HandlersMean(w, rounds[0], i);
      RoundsTakeNothing(AfterHandlers(w, rounds[0]), rounds[1..], i);
    }
  }

  lemma DispatchTakesNothing(w: World, rounds: seq<seq<nat>>)
    requires InRange(rounds, |w.sems|)
    ensures var w1 := AfterDispatch(w, rounds);
      |w1.sems| == |w.sems| && forall i | 0 <= i < |w.sems| :: OnlyRaised(w.sems[i], w1.sems[i])
  {
    var k := DispatchMeans(w, rounds);
    forall i | 0 <= i < |w.sems|
      ensures OnlyRaised(w.sems[i], AfterDispatch(w, rounds).sems[i])
    {
      RoundsTakeNothing(w, rounds[..k], i);
    }
  }

  ghost function AfterYield(w: World): World
    requires w.current >= 0
  {
    if w.ready == [] then w
    else
      w.(current := w.ready[0], ready := w.ready[1..] + [w.current],
         status := w.status[w.current := Ready][w.ready[0] := Running])
  }

  ghost function AfterFork(w: World, t: Thread): World
  {
    w.(ready := w.ready + [t], status := w.status[t := Ready])
  }

  // A ready thread gets its turn: every switch to another thread, when the current one
  // yields, sleeps, waits or finishes, brings it a place nearer, and then the processor.
  lemma TurnComes(w: World, k: nat, s: nat, c: nat, rounds: seq<seq<nat>>)
    requires w.current >= 0 && k < |w.ready| && s < |w.sems| && c < |w.conds| && InRange(rounds, |w.sems|)
    ensures Nearer(w, k, AfterYield(w)) && Nearer(w, k, AfterDispatch(AfterSleep(w, s), rounds))
    ensures Nearer(w, k, AfterDispatch(AfterWait(w, c), rounds))
    ensures Nearer(w, k, AfterDispatch(w.(current := NONE), rounds))
  {
  }

  ghost predicate Nearer(w: World, k: nat, w1: World)
    requires k < |w.ready|
  {
    if k == 0 then w1.current == w.ready[k] else k - 1 < |w1.ready| && w1.ready[k - 1] == w.ready[k]
  }

  // ---------------------------------------------------------------- and what they keep

  lemma WakeKeeps(w: World, live: set<Thread>, s: nat)
    requires Ok(w, live) && s < |w.sems| && w.sems[s].queue != []
    ensures Ok(AfterWake(w, s), live)
    ensures AfterWake(w, s).sems[s].value < |AfterWake(w, s).sems[s].woken|
  {
    var w1 := AfterWake(w, s);
    OkMeans(w, live);
    QueueUpdated(w.sems, w.conds, s, w1.sems[s]);
    Woken(Where(w), live, s, Where(w1));
    WokenOnItsWay(w, live, s);
    OkMeans(w1, live);
  }

  lemma WokenOnItsWay(w: World, live: set<Thread>, s: nat)
    requires Placed(Where(w), live) && OnTheirWay(w) && s < |w.sems| && w.sems[s].queue != [] && SemOk(w.sems[s])
    ensures var w1 := AfterWake(w, s);
      OnTheirWay(w1) && SemOk(w1.sems[s]) && w1.sems[s].value < |w1.sems[s].woken|
    ensures w.sems[s].queue[0] != w.current
  {
    var m := w.sems[s];
    QueueUpdated(w.sems, w.conds, s, m);
    QueuedOnce(Where(w), live, s);
    assert forall i | 0 <= i < |w.sems| :: m.queue[0] !in w.sems[i].woken;
    assert |m.woken + {m.queue[0]}| == |m.woken| + 1;
  }

  // V leaves the thread that does it outside of P.
  lemma StillFree(w: World, live: set<Thread>, s: nat)
    requires Ok(w, live) && s < |w.sems| && Free(w)
    ensures Free(AfterV(w, s)) && AfterV(w, s).current == w.current
  {
    OkMeans(w, live);
    if w.sems[s].queue != [] {
      WokenOnItsWay(w, live, s);
    }
  }

  lemma RaiseKeeps(w: World, live: set<Thread>, s: nat)
    requires Ok(w, live) && s < |w.sems|
    requires w.sems[s].queue == [] || w.sems[s].value < |w.sems[s].woken|
    ensures Ok(AfterRaise(w, s), live)
  {
    OkMeans(w, live);
    OkMeans(AfterRaise(w, s), live);
    assert SemOk(w.sems[s]);
    QueueUpdated(w.sems, w.conds, s, AfterRaise(w, s).sems[s]);
    assert Where(AfterRaise(w, s)) == Where(w);
  }

  lemma TakeKeeps(w: World, live: set<Thread>, s: nat)
    requires Ok(w, live) && s < |w.sems| && w.current >= 0 && w.sems[s].value > 0
    ensures Ok(AfterTake(w, s), live)
  {
    OkMeans(w, live);
    OkMeans(AfterTake(w, s), live);
    var m := w.sems[s];
    assert SemOk(m);
    QueueUpdated(w.sems, w.conds, s, AfterTake(w, s).sems[s]);
    assert Where(AfterTake(w, s)) == Where(w);
    if w.current in m.woken {
      assert |m.woken - {w.current}| == |m.woken| - 1;
    } else {
      assert m.woken - {w.current} == m.woken;
    }
  }

  lemma SleepKeeps(w: World, live: set<Thread>, s: nat)
    requires Ok(w, live) && s < |w.sems| && w.current >= 0 && w.sems[s].value == 0
    requires forall i | 0 <= i < |w.sems| && i != s :: w.current !in w.sems[i].woken
    ensures Ok(AfterSleep(w, s), live)
  {
    OkMeans(w, live);
    OkMeans(AfterSleep(w, s), live);
    var m := w.sems[s];
    assert SemOk(m);
    QueueUpdated(w.sems, w.conds, s, AfterSleep(w, s).sems[s]);
    Slept(Where(w), live, s, Where(AfterSleep(w, s)));
  }

  lemma WaitKeeps(w: World, live: set<Thread>, c: nat)
    requires Ok(w, live) && c < |w.conds| && w.current >= 0 && Free(w)
    ensures Ok(AfterWait(w, c), live)
  {
    OkMeans(w, live);
    OkMeans(AfterWait(w, c), live);
    ConditionUpdated(w.sems, w.conds, c, w.conds[c] + [w.current]);
    Slept(Where(w), live, |w.sems| + c, Where(AfterWait(w, c)));
  }

  lemma SignalKeeps(w: World, live: set<Thread>, c: nat)
    requires Ok(w, live) && c < |w.conds|
    ensures Ok(AfterSignal(w, c), live)
  {
    OkMeans(w, live);
    OkMeans(AfterSignal(w, c), live);
    if w.conds[c] != [] {
      ConditionUpdated(w.sems, w.conds, c, w.conds[c][1..]);
      Woken(Where(w), live, |w.sems| + c, Where(AfterSignal(w, c)));
    }
  }

  lemma RunKeeps(w: World, live: set<Thread>)
    requires Ok(w, live) && w.current == NONE && w.ready != []
    ensures Ok(AfterRun(w), live)
  {
    OkMeans(w, live);
    OkMeans(AfterRun(w), live);
    Ran(Where(w), live, Where(AfterRun(w)));
    FirstOrLater(w.ready);
  }

  lemma FirstOrLater(ready: seq<Thread>)
    requires ready != []
    ensures forall t :: t in ready <==> t == ready[0] || t in ready[1..]
  {
    assert ready == [ready[0]] + ready[1..];
  }

  lemma YieldKeeps(w: World, live: set<Thread>)
    requires Ok(w, live) && w.current >= 0
    ensures Ok(AfterYield(w), live)
  {
    OkMeans(w, live);
    OkMeans(AfterYield(w), live);
    if w.ready != [] {
      Yielded(Where(w), live, Where(AfterYield(w)));
      FirstOrLater(w.ready);
    }
  }

  lemma ForkKeeps(w: World, live: set<Thread>, t: Thread)
    requires Ok(w, live) && t !in live
    ensures Ok(AfterFork(w, t), live + {t})
  {
    OkMeans(w, live);
    OkMeans(AfterFork(w, t), live + {t});
    if w.current >= 0 {
      CurrentOnce(Where(w), live);
    }
    Readied(Where(w), live, t, Where(AfterFork(w, t)), live + {t});
  }

  lemma FinishKeeps(w: World, live: set<Thread>)
    requires Ok(w, live) && w.current >= 0 && Free(w)
    ensures Ok(w.(current := NONE), live - {w.current})
  {
    OkMeans(w, live);
    OkMeans(w.(current := NONE), live - {w.current});
    Finished(Where(w), live, Where(w.(current := NONE)));
  }

  lemma FirstWorld(w: World, mainThread: Thread)
    requires w.current == mainThread && w.ready == [] && w.status == map[mainThread := Running]
    requires forall i | 0 <= i < |w.sems| :: SemOk(w.sems[i]) && w.sems[i].queue == [] && w.sems[i].woken == {}
    requires forall i | 0 <= i < |w.conds| :: w.conds[i] == []
    ensures Ok(w, {mainThread})
  {
    OkMeans(w, {mainThread});
    NobodyQueued(QueuesOf(w.sems, w.conds));
  }

  // ---------------------------------------------------------------- the classes

  class Semaphore {
    var value: int
    var queue: seq<Thread>
    ghost const initial: nat
    ghost var ups: nat
    ghost var downs: nat
    ghost var woken: set<Thread>

    ghost function State(): SemState
      reads this
    {
      SemState(value, queue, initial, ups, downs, woken)
    }

    constructor (initialValue: nat)
      ensures State() == SemState(initialValue, [], initialValue, 0, 0, {}) && SemOk(State())
    {
      value, queue := initialValue, [];
      initial, ups, downs, woken := initialValue, 0, 0, {};
    }
  }

  class Condition {
    var waitQueue: seq<Thread>

    constructor ()
      ensures waitQueue == []
    {
      waitQueue := [];
    }
  }

  class Kernel {
    var current: int               // NONE once nothing is left to run
    var readyList: seq<Thread>
    var status: map<Thread, Status>
    const sems: seq<Semaphore>
    const conds: seq<Condition>
    ghost var live: set<Thread>

    ghost function Sems(): seq<SemState>
      reads sems
    {
      seq(|sems|, i requires 0 <= i < |sems| reads sems => sems[i].State())
    }

    ghost function Conds(): seq<seq<Thread>>
      reads conds
    {
      seq(|conds|, i requires 0 <= i < |conds| reads conds => conds[i].waitQueue)
    }

    ghost function Now(): World
      reads this, sems, conds
    {
      World(current, readyList, Sems(), Conds(), status)
    }

    ghost predicate Apart()
    {
      && (forall i, j | 0 <= i < j < |sems| :: sems[i] != sems[j])
      && (forall i, j | 0 <= i < j < |conds| :: conds[i] != conds[j])
    }

    ghost predicate Valid()
      reads this, sems, conds
    {
      Apart() && Ok(Now(), live)
    }

    constructor (mainThread: Thread, sems: seq<Semaphore>, conds: seq<Condition>)
      requires forall i, j | 0 <= i < j < |sems| :: sems[i] != sems[j]
      requires forall i, j | 0 <= i < j < |conds| :: conds[i] != conds[j]
      requires forall i | 0 <= i < |sems| :: SemOk(sems[i].State()) && sems[i].queue == [] && sems[i].woken == {}
      requires forall i | 0 <= i < |conds| :: conds[i].waitQueue == []
      ensures Valid() && current == mainThread && readyList == [] && live == {mainThread}
      ensures this.sems == sems && this.conds == conds
    {
      current, readyList, status := mainThread, [], map[mainThread := Running];
      this.sems := sems;
      this.conds := conds;
      live := {mainThread};
      new;
      FirstWorld(Now(), mainThread);
    }

    // Scheduler::ReadyToRun
    method ReadyToRun(thread: Thread)
      modifies this`readyList, this`status
      ensures readyList == old(readyList) + [thread] && status == old(status)[thread := Ready]
    {
      status := status[thread := Ready];
      readyList := readyList + [thread];
    }

    // Scheduler::FindNextToRun; NONE if nothing is ready.
    method FindNextToRun() returns (next: int)
      modifies this`readyList
      ensures old(readyList) == [] ==> next == NONE && readyList == []
      ensures old(readyList) != [] ==> next == old(readyList)[0] && readyList == old(readyList)[1..]
    {
      if readyList == [] {
        return NONE;
      }
      next := readyList[0];
      readyList := readyList[1..];
    }

    // Scheduler::Run, up to SWITCH.
    method Run(next: Thread)
      modifies this`current, this`status
      ensures current == next && status == old(status)[next := Running]
    {
      current := next;
      status := status[next := Running];
    }

    // Semaphore::V, by the current thread or an interrupt handler.
    method V(s: nat)
      requires Valid() && s < |sems| && Free(Now())
      modifies this`readyList, this`status, sems[s]
      ensures Valid() && Now() == AfterV(old(Now()), s)
      ensures sems[s].value == old(sems[s].value) + 1 && sems[s].ups == old(sems[s].ups) + 1
      ensures sems[s].downs == old(sems[s].downs)
      ensures old(sems[s].queue) == [] ==>
        && sems[s].queue == [] && sems[s].woken == old(sems[s].woken)
        && readyList == old(readyList) && status == old(status)
      // the first sleeper is ready, behind the others
      ensures old(sems[s].queue) != [] ==>
        && sems[s].queue == old(sems[s].queue[1..]) && sems[s].woken == old(sems[s].woken + {sems[s].queue[0]})
        && readyList == old(readyList + [sems[s].queue[0]]) && status == old(status[sems[s].queue[0] := Ready])
    {
      if sems[s].queue != [] {
        WakeFirst(s);
      }
      Raise(s);
    }

    // Takes the first thread off the queue and makes it ready.
    method WakeFirst(s: nat)
      requires Valid() && s < |sems| && sems[s].queue != []
      modifies this`readyList, this`status, sems[s]
      ensures Valid() && Now() == AfterWake(old(Now()), s) && sems[s].value < |sems[s].woken|
      ensures sems[s].State() == old(sems[s].State().(queue := sems[s].queue[1..],
                                                      woken := sems[s].woken + {sems[s].queue[0]}))
      ensures readyList == old(readyList + [sems[s].queue[0]]) && status == old(status[sems[s].queue[0] := Ready])
    {
      ghost var w := Now();
      var thread := sems[s].queue[0];
      sems[s].queue := sems[s].queue[1..];
      sems[s].woken := sems[s].woken + {thread};
      ReadyToRun(thread);
      assert Sems() == AfterWake(w, s).sems;
      assert Conds() == w.conds;
      WakeKeeps(w, live, s);
    }

    method Raise(s: nat)
      requires Valid() && s < |sems| && (sems[s].queue == [] || sems[s].value < |sems[s].woken|)
      modifies sems[s]
      ensures Valid() && Now() == AfterRaise(old(Now()), s)
      ensures sems[s].State() == old(sems[s].State().(value := sems[s].value + 1, ups := sems[s].ups + 1))
    {
      ghost var w := Now();
      sems[s].value := sems[s].value + 1;
      sems[s].ups := sems[s].ups + 1;
      assert Sems() == AfterRaise(w, s).sems;
      assert Conds() == w.conds;
      RaiseKeeps(w, live, s);
    }

    // What the interrupt handlers do while the machine idles.
    method Idle(handlers: seq<nat>)
      requires Valid() && current == NONE && forall i | 0 <= i < |handlers| :: handlers[i] < |sems|
      modifies this`readyList, this`status, sems
      ensures Valid() && Now() == AfterHandlers(old(Now()), handlers) && current == NONE
      // a V raises its semaphore by one, and wakes a sleeper if there is one left
      ensures forall i | 0 <= i < |sems| ::
        && sems[i].value == old(sems[i].value) + multiset(handlers)[i]
        && sems[i].ups == old(sems[i].ups) + multiset(handlers)[i] && sems[i].downs == old(sems[i].downs)
        && sems[i].queue == Left(old(sems[i].queue), multiset(handlers)[i])
    {
      ghost var w := Now();
      RunHandlers(handlers);
      forall i | 0 <= i < |sems|
        ensures sems[i].value == old(sems[i].value) + multiset(handlers)[i]
        ensures sems[i].ups == old(sems[i].ups) + multiset(handlers)[i] && sems[i].downs == old(sems[i].downs)
        ensures sems[i].queue == Left(old(sems[i].queue), multiset(handlers)[i])
      {
        HandlersMean(w, handlers, i);
        assert Now().sems[i] == sems[i].State() && w.sems[i] == old(sems[i].State());
      }
    }

    method RunHandlers(handlers: seq<nat>)
      requires Valid() && current == NONE && forall i | 0 <= i < |handlers| :: handlers[i] < |sems|
      modifies this`readyList, this`status, sems
      ensures Valid() && Now() == AfterHandlers(old(Now()), handlers) && current == NONE
    {
      for i := 0 to |handlers|
        invariant Valid() && current == NONE
        invariant AfterHandlers(Now(), handlers[i..]) == AfterHandlers(old(Now()), handlers)
      {
        assert handlers[i..][0] == handlers[i] && handlers[i..][1..] == handlers[i + 1..];
        V(handlers[i]);
      }
    }

    // The loop of Thread::Sleep: while nothing is ready, Idle lets interrupt handlers run,
    // which may do V on semaphores; with no interrupt left the machine halts.
    method Dispatch(rounds: seq<seq<nat>>)
      requires Valid() && current == NONE && InRange(rounds, |sems|)
      modifies this`current, this`readyList, this`status, sems
      ensures Valid() && Now() == AfterDispatch(old(Now()), rounds)
      ensures old(readyList) != [] ==>
        && current == old(readyList[0]) && readyList == old(readyList[1..])
        && status == old(status[readyList[0] := Running])
        && forall i | 0 <= i < |sems| :: sems[i].State() == old(sems[i].State())
      ensures forall i | 0 <= i < |sems| ::
        && sems[i].downs == old(sems[i].downs)
        && sems[i].value - sems[i].ups == old(sems[i].value) - old(sems[i].ups)
    {
      ghost var w := Now();
      var i := 0;
      while readyList == [] && i < |rounds|
        invariant Valid() && current == NONE && i <= |rounds|
        invariant AfterDispatch(Now(), rounds[i..]) == AfterDispatch(old(Now()), rounds)
      {
        assert rounds[i..][0] == rounds[i] && rounds[i..][1..] == rounds[i + 1..];
        Idle(rounds[i]);
        i := i + 1;
      }
      if readyList != [] {
        RunNext();
      }
      DispatchTakesNothing(w, rounds);
      assert forall j | 0 <= j < |sems| :: Now().sems[j] == sems[j].State() && w.sems[j] == old(sems[j].State());
    }

    method RunNext()
      requires Valid() && current == NONE && readyList != []
      modifies this`current, this`readyList, this`status
      ensures Valid() && Now() == AfterRun(old(Now()))
      ensures current == old(readyList[0]) && readyList == old(readyList[1..]) &&
        status == old(status[readyList[0] := Running])
    {
      ghost var w := Now();
      var next := FindNextToRun();
      Run(next);
      assert Sems() == w.sems && Conds() == w.conds;
      RunKeeps(w, live);
    }

    // Appends the current thread to the queue, and frees the processor.
    method Block(s: nat)
      requires Valid() && s < |sems| && current >= 0 && sems[s].value == 0
      requires forall i | 0 <= i < |sems| && i != s :: current !in sems[i].woken
      modifies this`current, this`status, sems[s]
      ensures Valid() && Now() == AfterSleep(old(Now()), s) && current == NONE
      ensures sems[s].State() == old(sems[s].State().(queue := sems[s].queue + [current],
                                                      woken := sems[s].woken - {current}))
      ensures status == old(status[current := Blocked])
    {
      ghost var w := Now();
      sems[s].woken := sems[s].woken - {current};
      sems[s].queue := sems[s].queue + [current];
      status := status[current := Blocked];
      current := NONE;
      assert Sems() == AfterSleep(w, s).sems;
      assert Conds() == w.conds;
      SleepKeeps(w, live, s);
    }

    // One pass of the loop of Semaphore::P. It is done when it returns true. Otherwise the
    // thread is asleep, and once it has been woken it does nothing, when it gets the
    // processor, before another pass on the same semaphore.
    method P(s: nat, rounds: seq<seq<nat>>) returns (done: bool)
      requires Valid() && s < |sems| && current >= 0 && InRange(rounds, |sems|)
      requires forall i | 0 <= i < |sems| && i != s :: current !in sems[i].woken
      modifies this`current, this`readyList, this`status, sems
      ensures Valid() && (done <==> old(sems[s].value) > 0)
      ensures Now() == if done then AfterTake(old(Now()), s) else AfterDispatch(AfterSleep(old(Now()), s), rounds)
      // it takes one of the value
      ensures done ==>
        && sems[s].value == old(sems[s].value) - 1 && sems[s].downs == old(sems[s].downs) + 1
        && sems[s].ups == old(sems[s].ups) && sems[s].queue == old(sems[s].queue)
        && sems[s].woken == old(sems[s].woken - {current})
        && current == old(current) && readyList == old(readyList) && status == old(status)
        && forall i | 0 <= i < |sems| && i != s :: sems[i].State() == old(sems[i].State())
      // or sleeps at the end of the queue, and the first ready thread runs
      ensures !done && old(readyList) != [] ==>
        && sems[s].queue == old(sems[s].queue + [current]) && sems[s].woken == old(sems[s].woken - {current})
        && sems[s].value == 0 && sems[s].ups == old(sems[s].ups)
        && current == old(readyList[0]) && readyList == old(readyList[1..])
        && status == old(status[current := Blocked][readyList[0] := Running])
        && forall i | 0 <= i < |sems| && i != s :: sems[i].State() == old(sems[i].State())
      // and nothing is taken, whatever handlers run while no thread is ready
      ensures !done ==>
        forall i | 0 <= i < |sems| ::
          && sems[i].downs == old(sems[i].downs)
          && sems[i].value - sems[i].ups == old(sems[i].value) - old(sems[i].ups)
    {
      ghost var w := Now();
      OkMeans(w, live);
      assert SemOk(w.sems[s]);
      if sems[s].value == 0 {
        Block(s);
        Dispatch(rounds);
        return false;
      }
      Lower(s);
      return true;
    }

    // Takes one of a positive value.
    method Lower(s: nat)
      requires Valid() && s < |sems| && current >= 0 && sems[s].value > 0
      modifies sems[s]
      ensures Valid() && Now() == AfterTake(old(Now()), s)
      ensures sems[s].State() == old(sems[s].State().(value := sems[s].value - 1, downs := sems[s].downs + 1,
                                                      woken := sems[s].woken - {current}))
    {
      ghost var w := Now();
      sems[s].value := sems[s].value - 1;
      sems[s].downs := sems[s].downs + 1;
      sems[s].woken := sems[s].woken - {current};
      assert Sems() == AfterTake(w, s).sems;
      assert Conds() == w.conds;
      TakeKeeps(w, live, s);
    }

    // Condition::Wait, up to the point where the thread is woken: gives the lock back, which
    // is V on its semaphore, and sleeps on the condition.
    method Wait(c: nat, lock: nat, rounds: seq<seq<nat>>)
      requires Valid() && c < |conds| && lock < |sems| && current >= 0 && Free(Now()) && InRange(rounds, |sems|)
      modifies this`current, this`readyList, this`status, sems, conds[c]
      ensures Valid() && Now() == AfterDispatch(AfterWait(AfterV(old(Now()), lock), c), rounds)
      // the lock is given back, the caller waits at the end, and the first ready thread runs
      ensures var ready := old(readyList + First(sems[lock].queue)); ready != [] ==>
        && conds[c].waitQueue == old(conds[c].waitQueue + [current])
        && sems[lock].value == old(sems[lock].value) + 1 && sems[lock].downs == old(sems[lock].downs)
        && sems[lock].queue == old(sems[lock].queue[|First(sems[lock].queue)|..])
        && current == ready[0] && readyList == ready[1..]
        && forall i | 0 <= i < |sems| && i != lock :: sems[i].State() == old(sems[i].State())
    {
      StillFree(Now(), live, lock);
      V(lock);
      SleepOn(c);
      Dispatch(rounds);
    }

    method SleepOn(c: nat)
      requires Valid() && c < |conds| && current >= 0 && Free(Now())
      modifies this`current, this`status, conds[c]
      ensures Valid() && Now() == AfterWait(old(Now()), c)
      ensures conds[c].waitQueue == old(conds[c].waitQueue + [current]) && status == old(status[current := Blocked])
      ensures current == NONE
    {
      ghost var w := Now();
      conds[c].waitQueue := conds[c].waitQueue + [current];
      status := status[current := Blocked];
      current := NONE;
      assert Conds() == AfterWait(w, c).conds;
      assert Sems() == w.sems;
      WaitKeeps(w, live, c);
    }

    // Condition::Signal
    method Signal(c: nat)
      requires Valid() && c < |conds| && Free(Now())
      modifies this`readyList, this`status, conds[c]
      ensures Valid() && Now() == AfterSignal(old(Now()), c)
      ensures old(conds[c].waitQueue) == [] ==>
        conds[c].waitQueue == [] && readyList == old(readyList) && status == old(status)
      // the first thread waiting is ready, behind the others
      ensures old(conds[c].waitQueue) != [] ==>
        && conds[c].waitQueue == old(conds[c].waitQueue[1..])
        && readyList == old(readyList + [conds[c].waitQueue[0]])
        && status == old(status[conds[c].waitQueue[0] := Ready])
    {
      ghost var w := Now();
      if conds[c].waitQueue != [] {
        var thread := conds[c].waitQueue[0];
        conds[c].waitQueue := conds[c].waitQueue[1..];
        ReadyToRun(thread);
        assert Conds() == AfterSignal(w, c).conds;
        assert Sems() == w.sems;
        SignalKeeps(w, live, c);
      }
    }

    // Condition::Broadcast
    method Broadcast(c: nat)
      requires Valid() && c < |conds| && Free(Now())
      modifies this`readyList, this`status, conds[c]
      ensures Valid() && Now() == AfterBroadcast(old(Now()), c) && conds[c].waitQueue == []
      ensures readyList == old(readyList + conds[c].waitQueue)
      ensures forall t :: t in status <==> t in old(status) || t in old(conds[c].waitQueue)
      ensures forall t <- status ::
        status[t] == if t in old(conds[c].waitQueue) then Ready else old(status)[t]
    {
      while conds[c].waitQueue != []
        invariant readyList + conds[c].waitQueue == old(readyList + conds[c].waitQueue)
        invariant forall t <- conds[c].waitQueue :: t in old(conds[c].waitQueue)
        invariant forall t <- old(conds[c].waitQueue) :: t in conds[c].waitQueue || (t in status && status[t] == Ready)
        invariant forall t | t !in old(conds[c].waitQueue) ::
          (t in status <==> t in old(status)) && (t in status ==> status[t] == old(status)[t])
        invariant Valid() && Free(Now()) && AfterBroadcast(Now(), c) == AfterBroadcast(old(Now()), c)
        decreases |conds[c].waitQueue|
      {
        Signal(c);
      }
    }

    // Thread::Yield. The next thread is taken off the ready list before this one is put on.
    method Yield()
      requires Valid() && current >= 0 && Free(Now())
      modifies this`current, this`readyList, this`status
      ensures Valid() && Now() == AfterYield(old(Now()))
      ensures old(readyList) == [] ==> current == old(current) && readyList == [] && status == old(status)
      ensures old(readyList) != [] ==>
        && current == old(readyList[0]) && readyList == old(readyList[1..] + [current])
        && status == old(status[current := Ready][readyList[0] := Running])
    {
      if readyList != [] {
        ghost var w := Now();
        var next := FindNextToRun();
        ReadyToRun(current);
        Run(next);
        assert Sems() == w.sems && Conds() == w.conds;
        YieldKeeps(w, live);
      }
    }

    // Thread::Fork
    method Fork(thread: Thread)
      requires Valid() && thread !in live && Free(Now())
      modifies this`readyList, this`status, this`live
      ensures Valid() && live == old(live) + {thread} && Now() == AfterFork(old(Now()), thread)
      ensures readyList == old(readyList) + [thread] && status == old(status)[thread := Ready]
    {
      ghost var w, before := Now(), live;
      ReadyToRun(thread);
      live := live + {thread};
      assert Sems() == w.sems && Conds() == w.conds;
      ForkKeeps(w, before, thread);
    }

    // Thread::Finish
    method Finish(rounds: seq<seq<nat>>)
      requires Valid() && current >= 0 && Free(Now()) && InRange(rounds, |sems|)
      modifies this`current, this`readyList, this`status, this`live, sems
      ensures Valid() && live == old(live) - {old(current)}
      ensures Now() == AfterDispatch(old(Now()).(current := NONE), rounds)
      ensures old(readyList) != [] ==>
        && current == old(readyList[0]) && readyList == old(readyList[1..])
        && status == old(status[readyList[0] := Running])
        && forall i | 0 <= i < |sems| :: sems[i].State() == old(sems[i].State())
    {
      ghost var w, before := Now(), live;
      live := live - {current};
      current := NONE;
      assert Sems() == w.sems && Conds() == w.conds;
      FinishKeeps(w, before);
      Dispatch(rounds);
    }
  }

  // Of a semaphore of value 1 the first P is done, and the next one before a V is not,
  // whichever thread does it.
  method TakenOnce(kernel: Kernel, s: nat, rounds: seq<seq<nat>>) returns (first: bool, second: bool)
    requires kernel.Valid() && s < |kernel.sems| && kernel.current >= 0 && InRange(rounds, |kernel.sems|)
    requires kernel.sems[s].value == 1 && forall i | 0 <= i < |kernel.sems| :: kernel.sems[i].woken == {}
    modifies kernel`current, kernel`readyList, kernel`status, kernel.sems
    ensures kernel.Valid() && first && !second
  {
    first := kernel.P(s, rounds);
    assert forall i | 0 <= i < |kernel.sems| :: kernel.Now().sems[i] == kernel.sems[i].State();
    assert forall i | 0 <= i < |kernel.sems| :: kernel.sems[i].woken == {};
    kernel.Yield();
    second := kernel.P(s, rounds);
  }

  // Yield hands over the processor.
  lemma Yielded(p: Snapshot, live: set<Thread>, p1: Snapshot)
    requires Placed(p, live) && p.current >= 0 && p.ready != []
    requires p1 == p.(current := p.ready[0], ready := p.ready[1..] + [p.current],
                      status := p.status[p.current := Ready][p.ready[0] := Running])
    ensures Placed(p1, live)
  {
    CurrentOnce(p, live);
    var middle := p.(current := NONE, ready := p.ready + [p.current], status := p.status[p.current := Ready]);
    Readied(p, live, p.current, middle, live);
    assert middle.ready[1..] == p.ready[1..] + [p.current];
    Ran(middle, live, p1);
  }

  // What placement means: a live thread is running, or in the ready list once, or in one
  // queue once.
  lemma InOnePlace(p: Snapshot, live: set<Thread>, t: Thread)
    requires Placed(p, live)
    ensures (if p.current == t then 1 else 0) + multiset(p.ready)[t] + Everybody(p.queues)[t] ==
            if t in live then 1 else 0
    ensures t in p.ready ==> p.current != t && t !in Everybody(p.queues)
  {
    assert Places(p)[t] == multiset(live)[t];
  }

  lemma {:induction false} NobodyQueued(queues: seq<seq<Thread>>)
    requires forall i | 0 <= i < |queues| :: queues[i] == []
    ensures Everybody(queues) == multiset{}
  {
    if queues != [] {
      NobodyQueued(queues[1..]);
    }
  }
}
