/**
 The synchronized list of threads/synchlist.cc: a list under a lock, and a condition that
 it is empty no more.

 A step is one statement of one thread; V is split where it may yield. Any thread may take
 the next step, and a thread that waits for the lock may look at it again at any time, where
 in the code it sleeps in a queue until it is woken. So there are more runs here than in the
 code, and what holds in all of them is safety; BarrierStuck shows how, in priority mode, a
 thread may sleep for a free lock for good.
 */
module SynchLists {

  const NULL := 0

  datatype Pc =
    | Idle
    // Append(item)
    | WantsToAppend(item: int)
    | Appends(item: int)       // holds the lock, about to append
    | Signals                  // holds the lock, about to signal
    // Remove()
    | WantsToRemove
    | Checks(woken: bool)      // holds the lock, about to test for an empty list
    | GoesToSleep              // in Wait, has released the lock but for value++
    | Sleeps                   // in Wait, on the condition
    | WantsBack                // woken, Acquire() at the end of Wait
    | Takes(woken: bool)       // holds the lock, about to remove an item
    // both
    | Unlocks                  // holds the lock, about to release it
    | Unlocked                 // has released it but for value++

  // The last two fields record what was appended and removed, in order.
  datatype State = State(
    pc: seq<Pc>,
    value: int,                // of the semaphore in the lock
    owner: int,
    waitQueue: seq<nat>,       // of listEmpty
    list: seq<int>,
    appended: seq<int>,
    removed: seq<int>)

  const NOBODY := -1

  // What an idle thread does next.
  datatype Turn = Turn(t: nat, appends: bool, item: int)

  ghost function Initial(n: nat): State
  {
    State(seq(n, _ => Idle), 1, NOBODY, [], [], [], [])
  }

  ghost predicate Shaped(s: State)
  {
    && (forall i | 0 <= i < |s.waitQueue| :: s.waitQueue[i] < |s.pc|)
    && (forall t | 0 <= t < |s.pc| && s.pc[t].Takes? :: s.list != [])
    && (forall t | 0 <= t < |s.pc| && s.pc[t].GoesToSleep? :: s.list == [])
  }

  // The next step of a thread; a thread that cannot go on stays where it is.
  ghost function Step(s: State, turn: Turn): (r: State)
    requires Shaped(s) && turn.t < |s.pc|
    ensures |r.pc| == |s.pc|
  {
    var t := turn.t;
    match s.pc[t]
    case Idle => s.(pc := s.pc[t := if turn.appends then WantsToAppend(turn.item) else WantsToRemove])
    case WantsToAppend(x) =>
      if s.value == 0 then s else s.(pc := s.pc[t := Appends(x)], value := s.value - 1, owner := t)
    case Appends(x) => s.(pc := s.pc[t := Signals], list := s.list + [x], appended := s.appended + [x])
    case Signals =>
      if s.waitQueue == [] then s.(pc := s.pc[t := Unlocks])
      else s.(pc := s.pc[s.waitQueue[0] := WantsBack][t := Unlocks], waitQueue := s.waitQueue[1..])
    case WantsToRemove =>
      if s.value == 0 then s else s.(pc := s.pc[t := Checks(false)], value := s.value - 1, owner := t)
    case Checks(woken) =>
      if s.list == [] then s.(pc := s.pc[t := GoesToSleep], owner := NOBODY) else s.(pc := s.pc[t := Takes(woken)])
    case GoesToSleep => s.(pc := s.pc[t := Sleeps], value := s.value + 1, waitQueue := s.waitQueue + [t])
    case Sleeps => s
    case WantsBack =>
      if s.value == 0 then s else s.(pc := s.pc[t := Checks(true)], value := s.value - 1, owner := t)
    case Takes(_) =>
      s.(pc := s.pc[t := Unlocks], list := s.list[1..], removed := s.removed + [s.list[0]])
    case Unlocks => s.(pc := s.pc[t := Unlocked], owner := NOBODY)
    case Unlocked => s.(pc := s.pc[t := Idle], value := s.value + 1)
  }

  // ---------------------------------------------------------------- the invariant

  // Is inside the lock, by the code of Append and Remove.
  predicate Inside(pc: Pc)
  {
    pc.Appends? || pc.Signals? || pc.Checks? || pc.Takes? || pc.Unlocks?
  }

  predicate Holds(pc: Pc)
  {
    Inside(pc) || pc.GoesToSleep? || pc.Unlocked?
  }

  ghost predicate LockInv(s: State)
  {
    && 0 <= s.value <= 1
    && (forall t, u | 0 <= t < |s.pc| && 0 <= u < |s.pc| && Holds(s.pc[t]) && Holds(s.pc[u]) :: t == u)
    && (s.value == 1 ==> forall t | 0 <= t < |s.pc| :: !Holds(s.pc[t]))
    && (forall t | 0 <= t < |s.pc| && Inside(s.pc[t]) :: s.owner == t)
  }

  ghost predicate QueueInv(s: State)
  {
    && (forall i | 0 <= i < |s.waitQueue| :: s.waitQueue[i] < |s.pc| && s.pc[s.waitQueue[i]].Sleeps?)
    && (forall i, j | 0 <= i < j < |s.waitQueue| :: s.waitQueue[i] != s.waitQueue[j])
    && (forall t | 0 <= t < |s.pc| && s.pc[t].Sleeps? :: t in s.waitQueue)
  }

  // Has been signalled and not yet looked at the list again, or not yet taken its item.
  predicate OnItsWay(pc: Pc)
  {
    pc.WantsBack? || pc == Checks(true) || pc == Takes(true)
  }

  ghost function Woken(s: State): set<nat>
  {
    set t: nat | t < |s.pc| && OnItsWay(s.pc[t])
  }

  // An appender is about to signal the item it has just appended.
  ghost predicate SignalDue(s: State)
  {
    exists t :: 0 <= t < |s.pc| && s.pc[t].Signals?
  }

  // While threads sleep there are no more items than threads on their way to them.
  ghost predicate WakeInv(s: State)
  {
    s.waitQueue != [] ==> |s.list| <= |Woken(s)| + if SignalDue(s) then 1 else 0
  }

  ghost predicate Inv(s: State)
  {
    && Shaped(s) && LockInv(s) && QueueInv(s) && WakeInv(s)
    && s.appended == s.removed + s.list
  }

  lemma InitialInv(n: nat)
    ensures Inv(Initial(n))
  {
  }

  // What a step does to the threads that do not take it: at most one of them is woken.
  lemma OthersStay(s: State, turn: Turn, u: nat)
    requires Inv(s) && turn.t < |s.pc| && u < |s.pc| && u != turn.t
    ensures Step(s, turn).pc[u] ==
      if s.pc[turn.t].Signals? && s.waitQueue != [] && u == s.waitQueue[0] then WantsBack else s.pc[u]
  {
  }

  lemma OwnStep(s: State, turn: Turn)
    requires Inv(s) && turn.t < |s.pc|
    ensures var s1, t := Step(s, turn), turn.t;
      && 0 <= s1.value <= 1
      && (Holds(s1.pc[t]) ==> s1.value == 0 && (Holds(s.pc[t]) || s.value == 1))
      && (s1.value == 1 ==> s.value == 1 || Holds(s.pc[t]))
      && (s1.owner == s.owner || Holds(s.pc[t]) || Holds(s1.pc[t]))
      && (Inside(s1.pc[t]) ==> s1.owner == t)
      && (s1.pc[t].Takes? ==> s1.list != []) && (s1.pc[t].GoesToSleep? ==> s1.list == [])
      && (s1.list == s.list || Holds(s.pc[t]))
  {
  }

  lemma StepItems(s: State, turn: Turn)
    requires Inv(s) && turn.t < |s.pc|
    ensures var s1 := Step(s, turn); s1.appended == s1.removed + s1.list
  {
    if s.pc[turn.t].Takes? {
      assert s.list == [s.list[0]] + s.list[1..];
    }
  }

  lemma StepLock(s: State, turn: Turn)
    requires Inv(s) && turn.t < |s.pc|
    ensures LockInv(Step(s, turn))
    ensures forall t | 0 <= t < |s.pc| && Step(s, turn).pc[t].Takes? :: Step(s, turn).list != []
    ensures forall t | 0 <= t < |s.pc| && Step(s, turn).pc[t].GoesToSleep? :: Step(s, turn).list == []
  {
    forall u | 0 <= u < |s.pc| && u != turn.t
      ensures Holds(Step(s, turn).pc[u]) ==> Step(s, turn).pc[u] == s.pc[u]
    {
      OthersStay(s, turn, u);
    }
    OwnStep(s, turn);
  }

  lemma StepQueue(s: State, turn: Turn)
    requires Inv(s) && turn.t < |s.pc|
    ensures QueueInv(Step(s, turn))
  {
    var t := turn.t;
    if s.pc[t].Signals? && s.waitQueue != [] {
      WakeOne(s, turn);
    } else if s.pc[t].GoesToSleep? {
      FallAsleep(s, turn);
    } else {
      SameQueue(s, turn);
    }
  }

  lemma WakeOne(s: State, turn: Turn)
    requires Inv(s) && turn.t < |s.pc| && s.pc[turn.t].Signals? && s.waitQueue != []
    ensures QueueInv(Step(s, turn))
  {
    var h := s.waitQueue[0];
    assert forall u :: u in s.waitQueue <==> u == h || u in s.waitQueue[1..];
    forall u | 0 <= u < |s.pc|
      ensures Step(s, turn).pc[u].Sleeps? <==> s.pc[u].Sleeps? && u != h
    {
      if u != turn.t { OthersStay(s, turn, u); }
    }
  }

  lemma FallAsleep(s: State, turn: Turn)
    requires Inv(s) && turn.t < |s.pc| && s.pc[turn.t].GoesToSleep?
    ensures QueueInv(Step(s, turn))
  {
    assert Step(s, turn).waitQueue[|s.waitQueue|] == turn.t;
  }

  lemma SameQueue(s: State, turn: Turn)
    requires Inv(s) && turn.t < |s.pc| && !s.pc[turn.t].GoesToSleep?
    requires s.pc[turn.t].Signals? ==> s.waitQueue == []
    ensures QueueInv(Step(s, turn))
  {
    assert Step(s, turn).waitQueue == s.waitQueue;
    assert Step(s, turn).pc[turn.t].Sleeps? <==> s.pc[turn.t].Sleeps?;
    forall u | 0 <= u < |s.pc| && u != turn.t
      ensures Step(s, turn).pc[u] == s.pc[u]
    {
      OthersStay(s, turn, u);
    }
  }

  lemma SignalWakes(s: State, turn: Turn)
    requires Inv(s) && turn.t < |s.pc| && s.pc[turn.t].Signals? && s.waitQueue != []
    ensures Woken(Step(s, turn)) == Woken(s) + {s.waitQueue[0]} && s.waitQueue[0] !in Woken(s)
  {
    forall u: nat | u < |s.pc|
      ensures OnItsWay(Step(s, turn).pc[u]) <==> OnItsWay(s.pc[u]) || u == s.waitQueue[0]
    {
      if u != turn.t { OthersStay(s, turn, u); }
    }
  }

  lemma StepWake(s: State, turn: Turn)
    requires Inv(s) && turn.t < |s.pc|
    ensures WakeInv(Step(s, turn))
  {
    if s.pc[turn.t].Signals? {
      assert SignalDue(s);
      if s.waitQueue != [] {
        SignalWakes(s, turn);
      }
    } else {
      NewlyWoken(s, turn);
      StillDue(s, turn);
      ItemsAndSleepers(s, turn);
    }
  }

  lemma StillDue(s: State, turn: Turn)
    requires Inv(s) && turn.t < |s.pc| && !s.pc[turn.t].Signals?
    ensures SignalDue(s) || s.pc[turn.t].Appends? ==> SignalDue(Step(s, turn))
    ensures s.pc[turn.t].Appends? ==> !SignalDue(s)
  {
    if s.pc[turn.t].Appends? {
      assert Step(s, turn).pc[turn.t].Signals?;
    } else if SignalDue(s) {
      var u :| 0 <= u < |s.pc| && s.pc[u].Signals?;
      OthersStay(s, turn, u);
    }
  }

  // A thread falls asleep on an empty list, and one on its way gives up on an empty list.
  lemma ItemsAndSleepers(s: State, turn: Turn)
    requires Inv(s) && turn.t < |s.pc| && !s.pc[turn.t].Signals?
    ensures var s1, t := Step(s, turn), turn.t;
      && |s1.list| - |s.list| == (if s.pc[t].Appends? then 1 else if s.pc[t].Takes? then -1 else 0)
      && (OnItsWay(s.pc[t]) && !OnItsWay(s1.pc[t]) ==> s.pc[t].Takes? || s1.list == [])
      && (s1.waitQueue != [] && s.waitQueue == [] ==> s1.list == [])
  {
  }

  // A thread ceases to be on its way when it takes an item, or finds the list empty.
  lemma NewlyWoken(s: State, turn: Turn)
    requires Inv(s) && turn.t < |s.pc| && !s.pc[turn.t].Signals?
    ensures var s1, t := Step(s, turn), turn.t;
      Woken(s1) == if OnItsWay(s.pc[t]) && !OnItsWay(s1.pc[t]) then Woken(s) - {t} else Woken(s)
  {
    var s1, t := Step(s, turn), turn.t;
    forall u: nat | u < |s.pc| && u != t
      ensures s1.pc[u] == s.pc[u]
    {
      OthersStay(s, turn, u);
    }
    assert OnItsWay(s1.pc[t]) ==> OnItsWay(s.pc[t]);
  }

  // Every step keeps the invariant.
  lemma StepInv(s: State, turn: Turn)
    requires Inv(s) && turn.t < |s.pc|
    ensures Inv(Step(s, turn))
  {
    StepLock(s, turn);
    StepQueue(s, turn);
    StepWake(s, turn);
    OwnStep(s, turn);
    StepItems(s, turn);
  }

  // ---------------------------------------------------------------- every run

  ghost predicate IsSchedule(n: nat, schedule: seq<Turn>)
  {
    forall i | 0 <= i < |schedule| :: schedule[i].t < n
  }

  ghost function After(n: nat, schedule: seq<Turn>): (s: State)
    requires IsSchedule(n, schedule)
    ensures Inv(s) && |s.pc| == n
  {
    if schedule == [] then InitialInv(n); Initial(n)
    else
      var before := schedule[..|schedule| - 1];
      var s := After(n, before);
      StepInv(s, schedule[|before|]);
      Step(s, schedule[|before|])
  }

  // What was removed and what is left are what was appended, in order, in any run.
  lemma NothingLost(n: nat, schedule: seq<Turn>)
    requires IsSchedule(n, schedule)
    ensures var s := After(n, schedule); s.appended == s.removed + s.list
  {
  }

  // At most one thread is at the inner list, and it owns the lock.
  lemma OneAtATime(n: nat, schedule: seq<Turn>, t: nat, u: nat)
    requires IsSchedule(n, schedule) && t < n && u < n
    ensures var s := After(n, schedule);
      Inside(s.pc[t]) ==> s.owner == t && (Inside(s.pc[u]) ==> t == u)
  {
  }

  // Signals are not fewer than items: while threads sleep on the condition, every item on the
  // list has a thread that has been signalled and has not taken its item yet, but for one item
  // whose signal may be due. Such a thread is counted whether or not it is awake: it may have
  // gone to sleep again, for the lock.
  lemma EnoughSignalled(n: nat, schedule: seq<Turn>)
    requires IsSchedule(n, schedule)
    ensures var s := After(n, schedule);
      s.waitQueue != [] ==> |s.list| <= |Woken(s)| + if SignalDue(s) then 1 else 0
  {
  }

  // ---------------------------------------------------------------- whole calls

  // The invariant as one fact.
  datatype Fact = TheInvariant

  ghost predicate Holding(s: State, fact: Fact)
  {
    Inv(s)
  }

  ghost predicate Ok(s: State)
  {
    Shaped(s) && forall fact {:trigger Holding(s, fact)} :: Holding(s, fact)
  }

  lemma FirstSleeps(s: State)
    requires Ok(s) && s.waitQueue != []
    ensures s.pc[s.waitQueue[0]].Sleeps?
  {
    OkMeans(s);
  }

  lemma OkMeans(s: State)
    ensures Ok(s) <==> Inv(s)
  {
    if Ok(s) {
      assert Holding(s, TheInvariant);
    }
  }

  lemma StepOk(s: State, turn: Turn)
    requires Ok(s) && turn.t < |s.pc|
    ensures Shaped(s) && Ok(Step(s, turn)) && |Step(s, turn).pc| == |s.pc|
  {
    OkMeans(s);
    StepInv(s, turn);
    OkMeans(Step(s, turn));
  }

  // The same thread takes k steps.
  ghost function Steps(s: State, turn: Turn, k: nat): (r: State)
    requires Ok(s) && turn.t < |s.pc|
    ensures Ok(r) && |r.pc| == |s.pc|
    decreases k
  {
    if k == 0 then s
    else
      StepOk(s, turn);
      Steps(Step(s, turn), turn, k - 1)
  }

  lemma {:induction false} StepsMore(s: State, turn: Turn, a: nat, b: nat)
    requires Ok(s) && turn.t < |s.pc|
    ensures Steps(s, turn, a + b) == Steps(Steps(s, turn, a), turn, b)
    decreases a
  {
    if a > 0 {
      StepOk(s, turn);
      StepsMore(Step(s, turn), turn, a - 1, b);
    }
  }

  lemma TwoSteps(s: State, turn: Turn)
    requires Ok(s) && turn.t < |s.pc|
    ensures Shaped(s) && Ok(Step(s, turn)) && |Step(s, turn).pc| == |s.pc| && Shaped(Step(s, turn))
    ensures Steps(s, turn, 2) == Step(Step(s, turn), turn)
  {
    StepOk(s, turn);
    StepOk(Step(s, turn), turn);
    assert Steps(s, turn, 2) == Steps(Step(s, turn), turn, 1);
  }

  lemma Unlocking(s: State, turn: Turn)
    requires Ok(s) && turn.t < |s.pc| && s.pc[turn.t].Unlocks? && s.value == 0
    ensures Steps(s, turn, 2) == s.(pc := s.pc[turn.t := Idle], value := 1, owner := NOBODY)
  {
    TwoSteps(s, turn);
  }

  lemma Entering(s: State, turn: Turn)
    requires Ok(s) && turn.t < |s.pc| && s.pc[turn.t].Idle? && s.value == 1
    ensures Steps(s, turn, 2) ==
      s.(pc := s.pc[turn.t := if turn.appends then Appends(turn.item) else Checks(false)], value := 0, owner := turn.t)
  {
    TwoSteps(s, turn);
  }

  lemma Appending(s: State, turn: Turn, item: int)
    requires Ok(s) && turn.t < |s.pc| && s.pc[turn.t] == Appends(item)
    ensures Steps(s, turn, 2) ==
      s.(list := s.list + [item], appended := s.appended + [item],
         pc := if s.waitQueue == [] then s.pc[turn.t := Unlocks]
               else s.pc[s.waitQueue[0] := WantsBack][turn.t := Unlocks],
         waitQueue := if s.waitQueue == [] then [] else s.waitQueue[1..])
  {
    TwoSteps(s, turn);
    var s1 := Step(s, turn);
    assert s1.pc == s.pc[turn.t := Signals];
    if s.waitQueue != [] {
      FirstSleeps(s);
      assert Step(s1, turn).pc == s.pc[s.waitQueue[0] := WantsBack][turn.t := Unlocks];
    } else {
      assert Step(s1, turn).pc == s.pc[turn.t := Unlocks];
    }
  }

  // A call of Append, when nobody has the lock: the item is at the end of the list, and the
  // first thread asleep has been signalled.
  lemma AppendCall(s: State, t: nat, item: int)
    requires Ok(s) && t < |s.pc| && s.pc[t].Idle? && s.value == 1
    ensures Steps(s, Turn(t, true, item), 6) ==
      s.(list := s.list + [item], appended := s.appended + [item], owner := NOBODY,
         pc := if s.waitQueue == [] then s.pc else s.pc[s.waitQueue[0] := WantsBack],
         waitQueue := if s.waitQueue == [] then [] else s.waitQueue[1..])
  {
    var turn := Turn(t, true, item);
    StepsMore(s, turn, 2, 4);
    StepsMore(Steps(s, turn, 2), turn, 2, 2);
    Entering(s, turn);
    Appending(Steps(s, turn, 2), turn, item);
    var s4 := Steps(Steps(s, turn, 2), turn, 2);
    Unlocking(s4, turn);
    if s.waitQueue != [] {
      FirstSleeps(s);
      assert s4.pc[t := Idle] == s.pc[s.waitQueue[0] := WantsBack];
    } else {
      assert s4.pc[t := Idle] == s.pc;
    }
  }

  // A call of Remove, when nobody has the lock and the list is not empty, or the rest of one
  // by a thread that was signalled: the first item is taken.
  lemma RemoveCall(s: State, turn: Turn)
    requires Ok(s) && turn.t < |s.pc| && s.value == 1 && s.list != [] && !turn.appends
    requires s.pc[turn.t].Idle? || s.pc[turn.t].WantsBack?
    ensures Steps(s, turn, if s.pc[turn.t].Idle? then 6 else 5) ==
      s.(list := s.list[1..], removed := s.removed + [s.list[0]], owner := NOBODY, pc := s.pc[turn.t := Idle])
  {
    if s.pc[turn.t].Idle? {
      StepsMore(s, turn, 2, 4);
      Entering(s, turn);
      ItemTaken(s, Steps(s, turn, 2), turn, false);
    } else {
      StepsMore(s, turn, 1, 4);
      StepOk(s, turn);
      assert Steps(s, turn, 1) == Step(s, turn);
      ItemTaken(s, Step(s, turn), turn, true);
    }
  }

  lemma ItemTaken(s: State, s2: State, turn: Turn, woken: bool)
    requires Ok(s) && Ok(s2) && turn.t < |s.pc| && s.list != []
    requires s2 == s.(pc := s.pc[turn.t := Checks(woken)], value := 0, owner := turn.t) && s.value == 1
    ensures Steps(s2, turn, 4) ==
      s.(list := s.list[1..], removed := s.removed + [s.list[0]], owner := NOBODY, pc := s.pc[turn.t := Idle])
  {
    StepsMore(s2, turn, 2, 2);
    TwoSteps(s2, turn);
    assert Step(s2, turn).pc == s.pc[turn.t := Takes(woken)];
    assert Steps(s2, turn, 2) ==
      s2.(list := s.list[1..], removed := s.removed + [s.list[0]], pc := s.pc[turn.t := Unlocks]);
    Unlocking(Steps(s2, turn, 2), turn);
  }

  // On an empty list it sleeps, at the end of the queue.
  lemma RemoveWaits(s: State, turn: Turn)
    requires Ok(s) && turn.t < |s.pc| && s.value == 1 && s.list == [] && !turn.appends && s.pc[turn.t].Idle?
    ensures Steps(s, turn, 4) ==
      s.(waitQueue := s.waitQueue + [turn.t], owner := NOBODY, pc := s.pc[turn.t := Sleeps])
  {
    StepsMore(s, turn, 2, 2);
    Entering(s, turn);
    TwoSteps(Steps(s, turn, 2), turn);
    assert Steps(Steps(s, turn, 2), turn, 2).pc == s.pc[turn.t := Sleeps];
  }

  // No item that is or will be on the list is NULL.
  ghost predicate NonNull(s: State)
  {
    && (forall i | 0 <= i < |s.list| :: s.list[i] != NULL)
    && (forall t | 0 <= t < |s.pc| && (s.pc[t].WantsToAppend? || s.pc[t].Appends?) :: s.pc[t].item != NULL)
  }

  // The assertion in Remove that its item is not NULL never fails, provided that no thread
  // appends NULL: a thread about to remove finds an item, the oldest one left.
  lemma {:induction false} ItemIsNotNull(n: nat, schedule: seq<Turn>, t: nat)
    requires IsSchedule(n, schedule) && t < n
    requires forall i | 0 <= i < |schedule| && schedule[i].appends :: schedule[i].item != NULL
    ensures NonNull(After(n, schedule))
    ensures var s := After(n, schedule);
      s.pc[t].Takes? ==> s.list != [] && s.list[0] != NULL && s.list[0] == s.appended[|s.removed|]
  {
    if schedule != [] {
      var before, turn := schedule[..|schedule| - 1], schedule[|schedule| - 1];
      ItemIsNotNull(n, before, t);
      KeepsNonNull(After(n, before), turn);
    }
  }

  lemma KeepsNonNull(s: State, turn: Turn)
    requires Inv(s) && turn.t < |s.pc| && NonNull(s) && (turn.appends ==> turn.item != NULL)
    ensures NonNull(Step(s, turn))
  {
    forall u | 0 <= u < |s.pc| && u != turn.t
      ensures Step(s, turn).pc[u] == s.pc[u] || Step(s, turn).pc[u] == WantsBack
    {
      OthersStay(s, turn, u);
    }
  }
}
