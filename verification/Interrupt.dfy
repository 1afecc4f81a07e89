/**
 The interrupt queue of machine/interrupt.cc: a discrete-event clock. Hardware events wait
 in a list sorted by time; when simulated time passes, or has nothing else to wait for,
 the handlers of the events that are due run, and may schedule later events.
 */
module Interrupts {
  import opened ListSpec

  const SYSTEM_TICK := 10
  const USER_TICK := 1

  datatype IntType = TimerInt | DiskInt | ConsoleWriteInt | ConsoleReadInt | NetworkSendInt | NetworkRecvInt
  datatype MachineStatus = IdleMode | SystemMode | UserMode
  datatype Event = Event(handler: nat, kind: IntType)

  // What a handler asks for: another event, so many ticks from now.
  datatype Request = Request(event: Event, fromNow: int)

  // An event whose handler has run: when it was due, and when that was.
  datatype Firing = Firing(event: Event, when: int, at: int)

  // Handlers ran in order of the times they were due, none early.
  ghost predicate InOrder(f: seq<Firing>)
  {
    f == [] ||
    (var last := f[|f| - 1];
     && InOrder(f[..|f| - 1]) && last.when <= last.at
     && (|f| > 1 ==> f[|f| - 2].when <= last.when && f[|f| - 2].at <= last.at))
  }

  lemma {:induction false} InOrderMeans(f: seq<Firing>, i: nat, j: nat)
    requires InOrder(f) && i <= j < |f|
    ensures f[i].when <= f[j].when && f[i].at <= f[j].at && f[i].when <= f[i].at
  {
    if j < |f| - 1 {
      InOrderMeans(f[..|f| - 1], i, j);
    } else if i < j {
      InOrderMeans(f[..|f| - 1], i, j - 1);
    }
  }

  // No handler so far was due after that time.
  ghost predicate NotAfter(f: seq<Firing>, when: int)
  {
    f != [] ==> f[|f| - 1].when <= when
  }

  lemma InOrderSnoc(f: seq<Firing>, last: Firing)
    requires InOrder(f) && last.when <= last.at && NotAfter(f, last.when) && (f != [] ==> f[|f| - 1].at <= last.at)
    ensures InOrder(f + [last])
  {
    assert (f + [last])[..|f|] == f;
  }

  // The events that are due.
  ghost function Due(s: seq<Entry<Event>>, now: int): nat
  {
    if s == [] then 0 else (if s[0].key <= now then 1 else 0) + Due(s[1..], now)
  }

  lemma {:induction false} DueInserted(s: seq<Entry<Event>>, e: Entry<Event>, now: int)
    ensures Due(Inserted(s, e), now) == Due(s, now) + if e.key <= now then 1 else 0
  {
    if s != [] && s[0].key <= e.key {
      DueInserted(s[1..], e, now);
      assert Inserted(s, e)[1..] == Inserted(s[1..], e);
    } else {
      assert Inserted(s, e)[1..] == s;
    }
  }

  lemma {:induction false} NothingDue(s: seq<Entry<Event>>, now: int)
    requires Sorted(s)
    ensures Due(s, now) == 0 <==> forall e <- s :: e.key > now
  {
    if s != [] {
      FirstIsLeast(s);
      NothingDue(s[1..], now);
      assert forall e :: e in s <==> e == s[0] || e in s[1..];
    }
  }

  // No pending event was due before a handler that has run.
  ghost predicate Ahead(f: seq<Firing>, s: seq<Entry<Event>>)
  {
    s != [] ==> NotAfter(f, s[0].key)
  }

  // The queue after an event is scheduled or put back.
  lemma InsertedInQueue(s: seq<Entry<Event>>, e: Entry<Event>, now: int)
    requires Sorted(s)
    ensures var r := Inserted(s, e);
      && Sorted(r) && r != []
      && r[0].key == (if s != [] && s[0].key <= e.key then s[0].key else e.key)
      && Due(r, now) == Due(s, now) + if e.key <= now then 1 else 0
  {
    InsertedSorted(s, e);
    DueInserted(s, e, now);
  }

  // ---------------------------------------------------------------- no event is lost

  ghost function Times(s: seq<Entry<Event>>, x: Entry<Event>): nat
  {
    if s == [] then 0 else (if s[0] == x then 1 else 0) + Times(s[1..], x)
  }

  lemma {:induction false} TimesMeans(s: seq<Entry<Event>>, x: Entry<Event>)
    ensures Times(s, x) == multiset(s)[x]
  {
    if s != [] {
      TimesMeans(s[1..], x);
      assert s == [s[0]] + s[1..];
    }
  }

  // The events whose handlers have run.
  ghost function Ran(f: seq<Firing>): seq<Entry<Event>>
  {
    if f == [] then [] else
      var last := f[|f| - 1];
      Ran(f[..|f| - 1]) + [Entry(last.event, last.when)]
  }

  // After the events before come those of the requests, so many ticks from then on.
  ghost predicate Scheduled(before: seq<Entry<Event>>, after: seq<Entry<Event>>, requests: seq<Request>, now: int)
  {
    if requests == [] then after == before
    else
      var last := requests[|requests| - 1];
      && after != [] && after[|after| - 1] == Entry(last.event, now + last.fromNow)
      && Scheduled(before, after[..|after| - 1], requests[..|requests| - 1], now)
  }

  lemma {:induction false} ScheduledMeans(before: seq<Entry<Event>>, after: seq<Entry<Event>>, requests: seq<Request>,
                                          now: int)
    requires Scheduled(before, after, requests, now)
    ensures |after| == |before| + |requests| && before <= after
    ensures forall k | 0 <= k < |requests| ::
      after[|before| + k] == Entry(requests[k].event, now + requests[k].fromNow)
  {
    if requests != [] {
      ScheduledMeans(before, after[..|after| - 1], requests[..|requests| - 1], now);
    }
  }

  lemma ScheduledOne(before: seq<Entry<Event>>, after: seq<Entry<Event>>, requests: seq<Request>, now: int,
                     last: Request)
    requires Scheduled(before, after, requests, now)
    ensures Scheduled(before, after + [Entry(last.event, now + last.fromNow)], requests + [last], now)
  {
    assert (after + [Entry(last.event, now + last.fromNow)])[..|after|] == after;
    assert (requests + [last])[..|requests|] == requests;
  }

  // After the events before come those that handlers from..until have asked for, each when
  // it ran.
  ghost predicate AskedFor(before: seq<Entry<Event>>, after: seq<Entry<Event>>, handlers: nat -> seq<Request>,
                           f: seq<Firing>, from: nat, until: nat)
    decreases until
  {
    if until <= from then after == before
    else
      && until <= |f| && |handlers(until - 1)| <= |after|
      && var was := after[..|after| - |handlers(until - 1)|];
         AskedFor(before, was, handlers, f, from, until - 1) &&
         Scheduled(was, after, handlers(until - 1), f[until - 1].at)
  }

  // Several more handlers have run.
  lemma {:induction false} AskedForRest(before: seq<Entry<Event>>, was: seq<Entry<Event>>, after: seq<Entry<Event>>,
                                        handlers: nat -> seq<Request>, f: seq<Firing>, g: seq<Firing>, from: nat,
                                        k: nat, until: nat)
    requires from <= k <= until && f <= g
    requires AskedFor(before, was, handlers, f, from, k) && AskedFor(was, after, handlers, g, k, until)
    ensures AskedFor(before, after, handlers, g, from, until)
    decreases until
  {
    if until > k {
      AskedForRest(before, was, after[..|after| - |handlers(until - 1)|], handlers, f, g, from, k, until - 1);
    } else if k > from {
      var n := |after| - |handlers(k - 1)|;
      assert AskedFor(after[..n], after[..n], handlers, g, k - 1, k - 1);
      AskedForRest(before, after[..n], after[..n], handlers, f, g, from, k - 1, k - 1);
    }
  }

  // One more has run.
  lemma AskedForMore(before: seq<Entry<Event>>, was: seq<Entry<Event>>, after: seq<Entry<Event>>,
                     handlers: nat -> seq<Request>, f: seq<Firing>, from: nat, last: Firing)
    requires from <= |f| && AskedFor(before, was, handlers, f, from, |f|)
    requires Scheduled(was, after, handlers(|f|), last.at)
    ensures AskedFor(before, after, handlers, f + [last], from, |f| + 1)
  {
    ScheduledMeans(was, after, handlers(|f|), last.at);
    assert after[..|after| - |handlers(|f|)|] == was;
    AskedForRest(before, was, was, handlers, f, f + [last], from, |f|, |f|);
  }

  // No event is lost, and none runs twice: each one scheduled is pending, has run, or is
  // in hand.
  ghost predicate Kept(scheduled: seq<Entry<Event>>, pending: seq<Entry<Event>>, f: seq<Firing>,
                       hand: seq<Entry<Event>>)
  {
    forall x {:trigger Times(scheduled, x)} ::
      Times(scheduled, x) == Times(pending, x) + Times(Ran(f), x) + Times(hand, x)
  }

  ghost predicate KeptAll(scheduled: multiset<Entry<Event>>, pending: seq<Entry<Event>>, f: seq<Firing>,
                          hand: seq<Entry<Event>>)
  {
    scheduled == multiset(pending) + multiset(Ran(f)) + multiset(hand)
  }

  lemma KeptMeans(scheduled: seq<Entry<Event>>, pending: seq<Entry<Event>>, f: seq<Firing>, hand: seq<Entry<Event>>)
    ensures Kept(scheduled, pending, f, hand) <==> KeptAll(multiset(scheduled), pending, f, hand)
  {
    forall x
      ensures Times(scheduled, x) == multiset(scheduled)[x] && Times(pending, x) == multiset(pending)[x]
      ensures Times(Ran(f), x) == multiset(Ran(f))[x] && Times(hand, x) == multiset(hand)[x]
    {
      TimesMeans(scheduled, x);
      TimesMeans(pending, x);
      TimesMeans(Ran(f), x);
      TimesMeans(hand, x);
    }
    if Kept(scheduled, pending, f, hand) {
      forall x
        ensures multiset(scheduled)[x] == multiset(pending)[x] + multiset(Ran(f))[x] + multiset(hand)[x]
      {
        assert Times(scheduled, x) == multiset(scheduled)[x];
      }
    }
  }

  lemma KeptScheduled(scheduled: seq<Entry<Event>>, pending: seq<Entry<Event>>, f: seq<Firing>, e: Entry<Event>)
    requires Kept(scheduled, pending, f, []) && Sorted(pending)
    ensures Kept(scheduled + [e], Inserted(pending, e), f, [])
  {
    InsertedSorted(pending, e);
    KeptMeans(scheduled, pending, f, []);
    KeptMeans(scheduled + [e], Inserted(pending, e), f, []);
  }

  lemma KeptTaken(scheduled: seq<Entry<Event>>, pending: seq<Entry<Event>>, f: seq<Firing>)
    requires Kept(scheduled, pending, f, []) && pending != []
    ensures Kept(scheduled, pending[1..], f, [pending[0]])
  {
    assert pending == [pending[0]] + pending[1..];
    KeptMeans(scheduled, pending, f, []);
    KeptMeans(scheduled, pending[1..], f, [pending[0]]);
  }

  lemma KeptPutBack(scheduled: seq<Entry<Event>>, pending: seq<Entry<Event>>, f: seq<Firing>, e: Entry<Event>)
    requires Kept(scheduled, pending, f, [e]) && Sorted(pending)
    ensures Kept(scheduled, Inserted(pending, e), f, [])
  {
    InsertedSorted(pending, e);
    KeptMeans(scheduled, pending, f, [e]);
    KeptMeans(scheduled, Inserted(pending, e), f, []);
  }

  lemma KeptRan(scheduled: seq<Entry<Event>>, pending: seq<Entry<Event>>, f: seq<Firing>, last: Firing)
    requires Kept(scheduled, pending, f, [Entry(last.event, last.when)])
    ensures Kept(scheduled, pending, f + [last], [])
  {
    assert (f + [last])[..|f|] == f;
    KeptMeans(scheduled, pending, f, [Entry(last.event, last.when)]);
    KeptMeans(scheduled, pending, f + [last], []);
  }

  // When a handler has run, its event is no longer pending and what it asked for is.
  lemma PendingAfter(scheduled: seq<Entry<Event>>, later: seq<Entry<Event>>, pending: seq<Entry<Event>>,
                     queue: seq<Entry<Event>>, f: seq<Firing>, last: Firing)
    requires Kept(scheduled, pending, f, []) && Kept(later, queue, f + [last], [])
    requires scheduled <= later && pending != [] && pending[0] == Entry(last.event, last.when)
    ensures multiset(queue) == multiset(pending[1..]) + multiset(later[|scheduled|..])
  {
    KeptMeans(scheduled, pending, f, []);
    KeptMeans(later, queue, f + [last], []);
    RanOne(f, last);
    Whole(scheduled, later);
    Whole([pending[0]], pending);
    assert multiset(scheduled) == multiset(pending) + multiset(Ran(f));
    assert multiset(later) == multiset(queue) + multiset(Ran(f + [last]));
    Cancelled(multiset(pending[1..]), multiset(later[|scheduled|..]), multiset(queue), multiset(Ran(f)), pending[0]);
  }

  lemma Cancelled(rest: multiset<Entry<Event>>, added: multiset<Entry<Event>>, queue: multiset<Entry<Event>>,
                  ran: multiset<Entry<Event>>, first: Entry<Event>)
    requires (multiset{first} + rest) + ran + added == queue + (ran + multiset{first})
    ensures queue == rest + added
  {
    forall x
      ensures queue[x] == (rest + added)[x]
    {
      assert ((multiset{first} + rest) + ran + added)[x] == (queue + (ran + multiset{first}))[x];
    }
  }

  lemma RanOne(f: seq<Firing>, last: Firing)
    ensures multiset(Ran(f + [last])) == multiset(Ran(f)) + multiset{Entry(last.event, last.when)}
  {
    assert (f + [last])[..|f|] == f;
  }

  lemma Whole(before: seq<Entry<Event>>, after: seq<Entry<Event>>)
    requires before <= after
    ensures multiset(after) == multiset(before) + multiset(after[|before|..])
  {
    assert after == before + after[|before|..];
  }

  ghost predicate Later(requests: seq<Request>)
  {
    forall i | 0 <= i < |requests| :: requests[i].fromNow > 0
  }

  class Interrupt {
    var level: bool                        // are interrupts on
    var pending: seq<Entry<Event>>         // sorted by time
    var inHandler: bool
    var status: MachineStatus
    var halted: bool
    var totalTicks: int
    var idleTicks: int
    var systemTicks: int
    var userTicks: int

    // What the first, second, ... handler to run will ask for.
    const handlers: nat -> seq<Request>
    var numFired: nat
    // The handlers that have run, and all the events there have been.
    ghost var fired: seq<Firing>
    ghost var scheduled: seq<Entry<Event>>

    // Handlers only schedule strictly later events.
    ghost predicate StrictlyLater()
    {
      forall n: nat :: Later(handlers(n))
    }

    ghost predicate Valid()
      reads this
    {
      && StrictlyLater() && Sorted(pending) && numFired == |fired|
      && totalTicks == idleTicks + systemTicks + userTicks
      // handlers ran in order of time, none early
      && InOrder(fired) && (fired != [] ==> fired[|fired| - 1].at <= totalTicks)
      && Ahead(fired, pending)
    }

    constructor (handlers: nat -> seq<Request>)
      requires forall n: nat :: Later(handlers(n))
      ensures Valid() && Kept(scheduled, pending, fired, []) && pending == [] && fired == []
      ensures totalTicks == 0 && !level && !inHandler && !halted
      ensures status == SystemMode
    {
      level, pending, inHandler, status, halted := false, [], false, SystemMode, false;
      totalTicks, idleTicks, systemTicks, userTicks := 0, 0, 0, 0;
      this.handlers := handlers;
      numFired, fired, scheduled := 0, [], [];
    }

    // Arranges for an event so many ticks from now. A delay that is not positive fails an
    // assertion.
    method Schedule(event: Event, fromNow: int)
      requires Valid() && Kept(scheduled, pending, fired, []) && fromNow > 0
      modifies this`pending, this`scheduled
      ensures Valid() && Kept(scheduled, pending, fired, []) &&
        pending == Inserted(old(pending), Entry(event, totalTicks + fromNow))
      ensures scheduled == old(scheduled) + [Entry(event, totalTicks + fromNow)]
      ensures Due(pending, totalTicks) == Due(old(pending), totalTicks)
    {
      var entry := Entry(event, totalTicks + fromNow);
      InsertedInQueue(pending, entry, totalTicks);
      KeptScheduled(scheduled, pending, fired, entry);
      pending := Inserted(pending, entry);
      scheduled := scheduled + [entry];
    }

    // Runs the handler of an event that is due, in system mode.
    method Fire(event: Event, when: int)
      requires Valid() && !level && when <= totalTicks && Kept(scheduled, pending, fired, [Entry(event, when)])
      requires NotAfter(fired, when) && (pending != [] ==> when <= pending[0].key)
      modifies this`pending, this`fired, this`scheduled, this`numFired, this`status, this`inHandler
      ensures Valid() && Kept(scheduled, pending, fired, []) && fired == old(fired) + [Firing(event, when, totalTicks)]
      ensures Scheduled(old(scheduled), scheduled, handlers(old(numFired)), totalTicks)
      ensures Due(pending, totalTicks) == Due(old(pending), totalTicks)
      ensures status == old(status) && !inHandler
    {
      var interrupted := status;
      inHandler := true;
      status := SystemMode;
      CallHandler(event, when);
      status := interrupted;
      inHandler := false;
    }

    method CallHandler(event: Event, when: int)
      requires Valid() && when <= totalTicks && Kept(scheduled, pending, fired, [Entry(event, when)])
      requires NotAfter(fired, when) && (pending != [] ==> when <= pending[0].key)
      modifies this`pending, this`fired, this`scheduled, this`numFired
      ensures Valid() && Kept(scheduled, pending, fired, []) && fired == old(fired) + [Firing(event, when, totalTicks)]
      ensures Scheduled(old(scheduled), scheduled, handlers(old(numFired)), totalTicks)
      ensures Due(pending, totalTicks) == Due(old(pending), totalTicks)
    {
      var requests := NextHandler(event, when);
      RunHandler(requests);
    }

    // What the handler of this event asks for.
    method NextHandler(event: Event, when: int) returns (requests: seq<Request>)
      requires Valid() && when <= totalTicks && Kept(scheduled, pending, fired, [Entry(event, when)])
      requires NotAfter(fired, when) && (pending != [] ==> when <= pending[0].key)
      modifies this`fired, this`numFired
      ensures Valid() && Kept(scheduled, pending, fired, []) && fired == old(fired) + [Firing(event, when, totalTicks)]
      ensures requests == handlers(old(numFired))
    {
      InOrderSnoc(fired, Firing(event, when, totalTicks));
      KeptRan(scheduled, pending, fired, Firing(event, when, totalTicks));
      requests := handlers(numFired);
      numFired := numFired + 1;
      fired := fired + [Firing(event, when, totalTicks)];
    }

    method RunHandler(requests: seq<Request>)
      requires Valid() && Kept(scheduled, pending, fired, []) && Later(requests)
      modifies this`pending, this`scheduled
      ensures Valid() && Kept(scheduled, pending, fired, [])
      ensures Scheduled(old(scheduled), scheduled, requests, totalTicks)
      ensures Due(pending, totalTicks) == Due(old(pending), totalTicks)
    {
      for i := 0 to |requests|
        invariant Valid() && Kept(scheduled, pending, fired, [])
        invariant Scheduled(old(scheduled), scheduled, requests[..i], totalTicks)
        invariant Due(pending, totalTicks) == Due(old(pending), totalTicks)
      {
        ScheduledOne(old(scheduled), scheduled, requests[..i], totalTicks, requests[i]);
        assert requests[..i + 1] == requests[..i] + [requests[i]];
        Schedule(requests[i].event, requests[i].fromNow);
      }
      assert requests[..|requests|] == requests;
    }

    method Advance(when: int)
      requires Valid() && when > totalTicks
      modifies this`totalTicks, this`idleTicks
      ensures Valid() && totalTicks == when && idleTicks == old(idleTicks) + when - old(totalTicks)
    {
      idleTicks := idleTicks + (when - totalTicks);
      totalTicks := when;
    }

    // The first event, taken off the list.
    method TakeFirst() returns (toOccur: Event, when: int)
      requires Valid() && Kept(scheduled, pending, fired, []) && pending != []
      modifies this`pending
      ensures Valid() && pending == old(pending)[1..] && Entry(toOccur, when) == old(pending)[0]
      ensures Kept(scheduled, pending, fired, [Entry(toOccur, when)])
      ensures NotAfter(fired, when) && (pending != [] ==> when <= pending[0].key)
      ensures forall now :: Due(old(pending), now) == Due(pending, now) + if when <= now then 1 else 0
    {
      KeptTaken(scheduled, pending, fired);
      toOccur, when := pending[0].item, pending[0].key;
      ghost var was := pending;
      pending := pending[1..];
      assert was == [was[0]] + pending;
    }

    // No event is due, except for the timer's on its own while the machine idles.
    ghost predicate Settled()
      reads this
    {
      pending == [] || pending[0].key > totalTicks || (status == IdleMode && OnlyTimer(pending))
    }

    // What CheckIfDue does to the queue, the clock and the handlers that have run.
    method CheckFirst(advanceClock: bool) returns (fires: bool)
      requires Valid() && Kept(scheduled, pending, fired, []) && !level && !inHandler
      modifies this`pending, this`fired, this`scheduled, this`numFired,
               this`totalTicks, this`idleTicks, this`status, this`inHandler
      ensures Valid() && Kept(scheduled, pending, fired, []) && status == old(status) && !inHandler
      ensures idleTicks == old(idleTicks) + totalTicks - old(totalTicks)
      ensures totalTicks == if advanceClock && old(pending) != [] && old(pending)[0].key > old(totalTicks)
                            then old(pending)[0].key else old(totalTicks)
      ensures fires <==> old(pending) != [] && old(pending)[0].key <= totalTicks &&
                         !(status == IdleMode && OnlyTimer(old(pending)))
      // a handler ran, of the first event, at the time it was due or as soon as it was looked at
      ensures fires ==> fired == old(fired) + [Firing(old(pending)[0].item, old(pending)[0].key, totalTicks)]
      ensures fires ==> Scheduled(old(scheduled), scheduled, handlers(old(numFired)), totalTicks)
      ensures numFired == old(numFired) + if fires then 1 else 0
      ensures Due(pending, totalTicks) == Due(old(pending), totalTicks) - if fires then 1 else 0
      // no handler ran: the first event is put back behind those of the same time
      ensures !fires ==> fired == old(fired) && scheduled == old(scheduled)
      ensures !fires ==> pending == if old(pending) == [] then [] else Inserted(old(pending)[1..], old(pending)[0])
      ensures !fires ==> Settled()
    {
      fires := false;
      if pending != [] {
        var toOccur, when := TakeFirst();
        if advanceClock && when > totalTicks {
          Advance(when);
        }
        if when > totalTicks {
          PutBack(toOccur, when);
        } else {
          fires := FireUnlessAlone(toOccur, when);
        }
      }
    }

    // Runs the handler of the first event if it is due, or, when told to advance the clock,
    // makes it due. Says whether a handler ran. While the machine idles a timer interrupt
    // all alone does not count.
    method CheckIfDue(advanceClock: bool) returns (fires: bool)
      requires Valid() && Kept(scheduled, pending, fired, []) && !level && !inHandler
      modifies this`pending, this`fired, this`scheduled, this`numFired,
               this`totalTicks, this`idleTicks, this`status, this`inHandler
      ensures Valid() && Kept(scheduled, pending, fired, []) && status == old(status) && !inHandler
      ensures idleTicks == old(idleTicks) + totalTicks - old(totalTicks)
      ensures totalTicks == if advanceClock && old(pending) != [] && old(pending)[0].key > old(totalTicks)
                            then old(pending)[0].key else old(totalTicks)
      ensures fires <==> old(pending) != [] && old(pending)[0].key <= totalTicks &&
                         !(status == IdleMode && |old(pending)| == 1 && old(pending)[0].item.kind == TimerInt)
      // a handler ran, of the first event, at the time it was due or as soon as it was looked at
      ensures fires ==> fired == old(fired) + [Firing(old(pending)[0].item, old(pending)[0].key, totalTicks)]
      // which scheduled all that it asked for, so many ticks from then on
      ensures fires ==>
        var requests := handlers(old(numFired));
        && |scheduled| == |old(scheduled)| + |requests| && old(scheduled) <= scheduled
        && (forall k | 0 <= k < |requests| ::
              scheduled[|old(scheduled)| + k] == Entry(requests[k].event, totalTicks + requests[k].fromNow))
        && multiset(pending) == multiset(old(pending)[1..]) + multiset(scheduled[|old(scheduled)|..])
      ensures numFired == old(numFired) + if fires then 1 else 0
      ensures Due(pending, totalTicks) == Due(old(pending), totalTicks) - if fires then 1 else 0
      // no handler ran: the first event is put back behind those of the same time
      ensures !fires ==> fired == old(fired) && scheduled == old(scheduled)
      ensures !fires ==> pending == if old(pending) == [] then [] else Inserted(old(pending)[1..], old(pending)[0])
      ensures !fires ==> Settled()
    {
      fires := CheckFirst(advanceClock);
      if fires {
        ScheduledMeans(old(scheduled), scheduled, handlers(old(numFired)), totalTicks);
        PendingAfter(old(scheduled), scheduled, old(pending), pending, old(fired), fired[|old(fired)|]);
      }
    }

    // Fires an event that is due, except for the timer's on its own while the machine idles.
    method FireUnlessAlone(event: Event, when: int) returns (fires: bool)
      requires Valid() && !level && !inHandler && when <= totalTicks &&
        Kept(scheduled, pending, fired, [Entry(event, when)])
      requires NotAfter(fired, when) && (pending != [] ==> when <= pending[0].key)
      modifies this`pending, this`fired, this`scheduled, this`numFired, this`status, this`inHandler
      ensures Valid() && Kept(scheduled, pending, fired, []) && status == old(status) && !inHandler
      ensures fires <==> !(status == IdleMode && event.kind == TimerInt && old(pending) == [])
      ensures fired == old(fired) + if fires then [Firing(event, when, totalTicks)] else []
      ensures if fires then Scheduled(old(scheduled), scheduled, handlers(old(numFired)), totalTicks)
              else scheduled == old(scheduled)
      ensures Due(pending, totalTicks) == Due(old(pending), totalTicks) + if fires then 0 else 1
      ensures !fires ==> pending == [Entry(event, when)]
      ensures totalTicks == old(totalTicks) && numFired == old(numFired) + if fires then 1 else 0
    {
      if status == IdleMode && event.kind == TimerInt && pending == [] {
        PutBack(event, when);
        return false;
      }
      Fire(event, when);
      return true;
    }

    // Puts the first event back, behind those of the same time.
    method PutBack(event: Event, when: int)
      requires Valid() && Kept(scheduled, pending, fired, [Entry(event, when)])
      requires NotAfter(fired, when) && (pending != [] ==> when <= pending[0].key)
      modifies this`pending
      ensures Valid() && Kept(scheduled, pending, fired, []) && pending == Inserted(old(pending), Entry(event, when))
      ensures pending[0].key == when && (old(pending) == [] ==> pending == [Entry(event, when)])
      ensures Due(pending, totalTicks) == Due(old(pending), totalTicks) + if when <= totalTicks then 1 else 0
    {
      InsertedInQueue(pending, Entry(event, when), totalTicks);
      KeptPutBack(scheduled, pending, fired, Entry(event, when));
      pending := Inserted(pending, Entry(event, when));
    }

    // Checks until no event is due. It ends because a handler only schedules later events,
    // so that the number of events due falls.
    method FireDue()
      requires Valid() && Kept(scheduled, pending, fired, []) && !level && !inHandler
      modifies this`pending, this`fired, this`scheduled, this`numFired,
               this`totalTicks, this`idleTicks, this`status, this`inHandler
      ensures Valid() && Kept(scheduled, pending, fired, []) && status == old(status) && !inHandler
      ensures totalTicks == old(totalTicks) && idleTicks == old(idleTicks)
      ensures Settled()
      ensures old(fired) <= fired && forall i | |old(fired)| <= i < |fired| :: fired[i].at == totalTicks
      ensures AskedFor(old(scheduled), scheduled, handlers, fired, old(numFired), numFired)
    {
      var more := true;
      while more
        invariant Valid() && Kept(scheduled, pending, fired, []) && status == old(status) && !inHandler
        invariant totalTicks == old(totalTicks) && idleTicks == old(idleTicks)
        invariant old(fired) <= fired && forall i | |old(fired)| <= i < |fired| :: fired[i].at == totalTicks
        invariant old(numFired) <= numFired
        invariant AskedFor(old(scheduled), scheduled, handlers, fired, old(numFired), numFired)
        invariant !more ==> Settled()
        decreases Due(pending, totalTicks), more
      {
        more := CheckAgain(old(scheduled), old(numFired));
      }
    }

    // CheckIfDue(FALSE).
    method CheckAgain(ghost before: seq<Entry<Event>>, ghost from: nat) returns (more: bool)
      requires Valid() && Kept(scheduled, pending, fired, []) && !level && !inHandler
      requires from <= numFired && AskedFor(before, scheduled, handlers, fired, from, numFired)
      modifies this`pending, this`fired, this`scheduled, this`numFired,
               this`totalTicks, this`idleTicks, this`status, this`inHandler
      ensures Valid() && Kept(scheduled, pending, fired, []) && status == old(status) && !inHandler
      ensures totalTicks == old(totalTicks) && idleTicks == old(idleTicks)
      ensures old(fired) <= fired && forall i | |old(fired)| <= i < |fired| :: fired[i].at == totalTicks
      ensures old(numFired) <= numFired && AskedFor(before, scheduled, handlers, fired, from, numFired)
      ensures if more then Due(pending, totalTicks) < Due(old(pending), totalTicks)
              else Settled() && Due(pending, totalTicks) == Due(old(pending), totalTicks)
    {
      ghost var was, f := scheduled, fired;
      more := CheckFirst(false);
      if more {
        AskedForMore(before, was, scheduled, handlers, f, from, fired[|f|]);
      }
    }

    // Simulated time goes on by a tick of the mode the machine is in.
    method AdvanceTick()
      requires Valid()
      modifies this`totalTicks, this`systemTicks, this`userTicks
      ensures Valid() && systemTicks == old(systemTicks) + if status == SystemMode then SYSTEM_TICK else 0
      ensures userTicks == old(userTicks) + if status == SystemMode then 0 else USER_TICK
      ensures totalTicks == old(totalTicks) + if status == SystemMode then SYSTEM_TICK else USER_TICK
    {
      if status == SystemMode {
        totalTicks := totalTicks + SYSTEM_TICK;
        systemTicks := systemTicks + SYSTEM_TICK;
      } else {
        totalTicks := totalTicks + USER_TICK;
        userTicks := userTicks + USER_TICK;
      }
    }

    // Time passes: interrupts are enabled, or a user instruction is executed.
    method OneTick()
      requires Valid() && Kept(scheduled, pending, fired, []) && level && !inHandler && status != IdleMode
      modifies this`pending, this`fired, this`scheduled, this`numFired, this`totalTicks, this`idleTicks,
               this`systemTicks, this`userTicks, this`status, this`inHandler, this`level
      ensures Valid() && Kept(scheduled, pending, fired, []) && level && status == old(status)
      ensures totalTicks == old(totalTicks) + if status == SystemMode then SYSTEM_TICK else USER_TICK
      ensures systemTicks == old(systemTicks) + if status == SystemMode then SYSTEM_TICK else 0
      ensures idleTicks == old(idleTicks)
      // nothing due is left, and what was due has fired
      ensures forall e <- pending :: e.key > totalTicks
      ensures old(fired) <= fired && forall i | |old(fired)| <= i < |fired| :: fired[i].at == totalTicks
      // and scheduled what it asked for
      ensures AskedFor(old(scheduled), scheduled, handlers, fired, old(numFired), numFired)
    {
      AdvanceTick();
      level := false;
      FireDue();
      level := true;
      if pending != [] {
        FirstIsLeast(pending);
      }
    }

    // Nothing is ready to run: advances to the next event, or halts if there is none but
    // the timer's.
    method Idle()
      requires Valid() && Kept(scheduled, pending, fired, []) && !level && !inHandler
      modifies this`pending, this`fired, this`scheduled, this`numFired,
               this`totalTicks, this`idleTicks, this`status, this`inHandler, this`halted
      ensures Valid() && Kept(scheduled, pending, fired, []) && old(fired) <= fired
      ensures halted <==> old(halted) || old(pending) == [] ||
                          (|old(pending)| == 1 && old(pending)[0].item.kind == TimerInt)
      ensures old(pending) == [] || OnlyTimer(old(pending)) ==> fired == old(fired)
      ensures !(old(pending) == [] || OnlyTimer(old(pending))) ==>
        status == SystemMode && |fired| > |old(fired)| && fired[|old(fired)|].when == old(pending)[0].key
      ensures totalTicks == if old(pending) != [] && old(pending)[0].key > old(totalTicks)
                            then old(pending)[0].key else old(totalTicks)
      // what the handlers asked for is scheduled, and nothing is left due but a timer alone
      ensures AskedFor(old(scheduled), scheduled, handlers, fired, old(numFired), numFired)
      ensures pending == [] || pending[0].key > totalTicks || OnlyTimer(pending)
    {
      status := IdleMode;
      ghost var was := scheduled;
      var fires := AdvanceToFirst();
      if fires {
        FireOthers(was, old(numFired));
      } else {
        halted := true;
      }
    }

    // CheckIfDue(TRUE), while the machine idles.
    method AdvanceToFirst() returns (fires: bool)
      requires Valid() && Kept(scheduled, pending, fired, []) && !level && !inHandler && status == IdleMode
      modifies this`pending, this`fired, this`scheduled, this`numFired,
               this`totalTicks, this`idleTicks, this`status, this`inHandler
      ensures Valid() && Kept(scheduled, pending, fired, []) && status == IdleMode && !inHandler
      ensures fires <==> !(old(pending) == [] || OnlyTimer(old(pending)))
      ensures totalTicks == if old(pending) != [] && old(pending)[0].key > old(totalTicks)
                            then old(pending)[0].key else old(totalTicks)
      ensures if fires then |fired| == |old(fired)| + 1 && fired[|old(fired)|].when == old(pending)[0].key
              else fired == old(fired) && Settled()
      ensures old(fired) <= fired && AskedFor(old(scheduled), scheduled, handlers, fired, old(numFired), numFired)
    {
      ghost var was, f := scheduled, fired;
      fires := CheckFirst(true);
      if fires {
        AskedForMore(was, was, scheduled, handlers, f, old(numFired), fired[|f|]);
      }
    }

    // Checks for any other pending interrupts.
    method FireOthers(ghost before: seq<Entry<Event>>, ghost from: nat)
      requires Valid() && Kept(scheduled, pending, fired, []) && !level && !inHandler && fired != []
      requires from <= numFired && AskedFor(before, scheduled, handlers, fired, from, numFired)
      modifies this`pending, this`fired, this`scheduled, this`numFired,
               this`totalTicks, this`idleTicks, this`status, this`inHandler
      ensures Valid() && Kept(scheduled, pending, fired, []) && status == SystemMode
      ensures totalTicks == old(totalTicks) && |fired| >= |old(fired)|
      ensures forall i | 0 <= i < |old(fired)| :: fired[i] == old(fired)[i]
      ensures AskedFor(before, scheduled, handlers, fired, from, numFired)
      ensures pending == [] || pending[0].key > totalTicks || OnlyTimer(pending)
    {
      ghost var was, f := scheduled, fired;
      FireDue();
      status := SystemMode;
      AskedForRest(before, was, scheduled, handlers, f, fired, from, |f|, numFired);
    }
  }

  predicate OnlyTimer(s: seq<Entry<Event>>)
  {
    |s| == 1 && s[0].item.kind == TimerInt
  }
}
