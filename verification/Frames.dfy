/**
 Physical frames shared by address spaces under demand paging: the frame bitmap of
 machine/machine.cc, and page replacement in userprog/exception.cc.
 */
module Frames {
  import opened WordBits
  import opened Allocation
  import opened PageTables

  // The frames of the valid pages of a table.
  ghost function Held(table: seq<TranslationEntry>): set<int>
  {
    set v | 0 <= v < |table| && table[v].valid :: table[v].physicalPage
  }

  // Valid pages hold frames, no two the same.
  ghost predicate OneEach(table: seq<TranslationEntry>)
  {
    && (forall v | 0 <= v < |table| && table[v].valid :: 0 <= table[v].physicalPage < NUM_PHYS_PAGES)
    && (forall u, v | 0 <= u < v < |table| && table[u].valid && table[v].valid ::
          table[u].physicalPage != table[v].physicalPage)
  }

  // The frames whose bit is set.
  ghost function MarkedFrames(bitmap: word): set<int>
  {
    set p | 0 <= p < NUM_PHYS_PAGES && TestBit(bitmap, p)
  }

  // The sets are disjoint and make up the marked frames.
  ghost predicate Shares(held: seq<set<int>>, marked: set<int>)
  {
    && (forall s | 0 <= s < |held| :: held[s] <= marked)
    && (forall r, s | 0 <= r < s < |held| :: held[r] !! held[s])
    && (forall p <- marked :: HeldBySome(held, p))
  }

  ghost predicate HeldBySome(held: seq<set<int>>, p: int)
  {
    exists s :: 0 <= s < |held| && p in held[s]
  }

  ghost function AllHeld(spaces: seq<seq<TranslationEntry>>): seq<set<int>>
  {
    seq(|spaces|, s requires 0 <= s < |spaces| => Held(spaces[s]))
  }

  // A bit is set exactly when one and only one valid page of all the spaces holds the frame.
  ghost predicate Balanced(spaces: seq<seq<TranslationEntry>>, marked: set<int>)
  {
    (forall s | 0 <= s < |spaces| :: OneEach(spaces[s])) && Shares(AllHeld(spaces), marked)
  }

  // In so many words: a bit is set when a valid page holds the frame, and no two do.
  lemma BitIsSet(spaces: seq<seq<TranslationEntry>>, marked: set<int>, p: int)
    requires Balanced(spaces, marked)
    ensures p in marked <==> exists s, v :: HoldsFrame(spaces, s, v, p)
  {
    if p in marked {
      var s :| 0 <= s < |spaces| && p in AllHeld(spaces)[s];
      var v :| 0 <= v < |spaces[s]| && spaces[s][v].valid && spaces[s][v].physicalPage == p;
      assert HoldsFrame(spaces, s, v, p);
    }
    if s, v :| HoldsFrame(spaces, s, v, p) {
      assert p in AllHeld(spaces)[s];
    }
  }

  lemma HeldOnce(spaces: seq<seq<TranslationEntry>>, marked: set<int>, p: int, r: int, u: int, s: int, v: int)
    requires Balanced(spaces, marked) && HoldsFrame(spaces, r, u, p) && HoldsFrame(spaces, s, v, p)
    ensures r == s && u == v
  {
    assert p in AllHeld(spaces)[r] && p in AllHeld(spaces)[s];
    assert OneEach(spaces[r]);
  }

  ghost predicate HoldsFrame(spaces: seq<seq<TranslationEntry>>, s: int, v: int, p: int)
  {
    0 <= s < |spaces| && 0 <= v < |spaces[s]| && spaces[s][v].valid && spaces[s][v].physicalPage == p
  }

  class FrameMap {
    var bitmap: word

    constructor ()
      ensures MarkedFrames(bitmap) == {}
    {
      bitmap := 0;
      new;
      forall p: nat {
        NoBits(p);
      }
    }

    // The least free frame, taken; -1 if there is none.
    method AllocateMem() returns (r: int)
      modifies this
      ensures -1 <= r < NUM_PHYS_PAGES && r !in old(MarkedFrames(bitmap))
      ensures MarkedFrames(bitmap) == old(MarkedFrames(bitmap)) + if r == -1 then {} else {r}
      ensures forall p | 0 <= p < (if r == -1 then NUM_PHYS_PAGES else r) :: p in old(MarkedFrames(bitmap))
    {
      for pos := 0 to NUM_PHYS_PAGES
        invariant bitmap == old(bitmap) && forall p | 0 <= p < pos :: p in MarkedFrames(bitmap)
      {
        if !TestBit(bitmap, pos) {
          bitmap := SetWordBit(bitmap, pos);
          return pos;
        }
      }
      return -1;
    }

    // Frees the frames of the valid pages of an address space that goes away.
    method FreeMem(pageTable: array<TranslationEntry>)
      requires OneEach(pageTable[..])
      modifies this
      ensures MarkedFrames(bitmap) == old(MarkedFrames(bitmap)) - Held(pageTable[..])
    {
      for i := 0 to pageTable.Length
        invariant MarkedFrames(bitmap) == old(MarkedFrames(bitmap)) - Held(pageTable[..i])
      {
        HeldNext(pageTable[..], i);
        if pageTable[i].valid {
          ghost var m := MarkedFrames(bitmap);
          bitmap := ClearWordBit(bitmap, pageTable[i].physicalPage);
          assert MarkedFrames(bitmap) == m - {pageTable[i].physicalPage};
        }
      }
      assert pageTable[..pageTable.Length] == pageTable[..];
    }

    // ReplacePage: takes the frame of the first page not modified, or of the first page.
    method ReplacePage(pageTable: array<TranslationEntry>) returns (frame: int, ghost victim: nat)
      requires OneEach(pageTable[..]) && exists v :: 0 <= v < pageTable.Length && pageTable[v].valid
      modifies pageTable
      ensures victim < pageTable.Length && old(pageTable[victim]).valid && frame == old(pageTable[victim]).physicalPage
      ensures pageTable[..] == old(pageTable[..])[victim := old(pageTable[victim]).(valid := false)]
      // a page not modified, if there is one
      ensures old(pageTable[victim]).dirty ==>
        forall v | 0 <= v < pageTable.Length && old(pageTable[v]).valid :: old(pageTable[v]).dirty
    {
      victim := 0;
      frame := -1;
      ghost var t0 := pageTable[..];
      for i := 0 to pageTable.Length
        invariant frame == -1 && pageTable[..] == t0
        invariant forall j | 0 <= j < i && t0[j].valid :: t0[j].dirty
      {
        if pageTable[i].valid && !pageTable[i].dirty {
          pageTable[i] := pageTable[i].(valid := false);
          return pageTable[i].physicalPage, i;
        }
      }
      for i := 0 to pageTable.Length
        invariant frame == -1 && pageTable[..] == t0
        invariant forall j | 0 <= j < i :: !t0[j].valid
      {
        if pageTable[i].valid {
          pageTable[i] := pageTable[i].(valid := false);
          return pageTable[i].physicalPage, i;
        }
      }
      assert false;
    }

    // PageFaultHandler, for a page that is not valid, in a space that holds a page if
    // memory is full.
    method PageFaultHandler(pageTable: array<TranslationEntry>, vpn: nat) returns (ghost frame: int, ghost victim: nat)
      requires vpn < pageTable.Length && !pageTable[vpn].valid && OneEach(pageTable[..])
      requires |MarkedFrames(bitmap)| < NUM_PHYS_PAGES || exists v :: 0 <= v < pageTable.Length && pageTable[v].valid
      modifies this, pageTable
      ensures Faulted(old(pageTable[..]), pageTable[..], vpn, old(MarkedFrames(bitmap)), MarkedFrames(bitmap))
      ensures pageTable[vpn] == old(pageTable[vpn]).(
        physicalPage := frame, valid := true, use := false, dirty := false, readOnly := false)
      // the least frame that was free
      ensures victim == vpn ==>
        && 0 <= frame < NUM_PHYS_PAGES && frame !in old(MarkedFrames(bitmap))
        && (forall p | 0 <= p < frame :: p in old(MarkedFrames(bitmap)))
        && MarkedFrames(bitmap) == old(MarkedFrames(bitmap)) + {frame}
      // or, when none was, that of a page given up for it: one not modified, if there is one
      ensures victim != vpn ==>
        && (forall p | 0 <= p < NUM_PHYS_PAGES :: p in old(MarkedFrames(bitmap)))
        && MarkedFrames(bitmap) == old(MarkedFrames(bitmap))
        && victim < pageTable.Length && old(pageTable[..])[victim].valid
        && frame == old(pageTable[..])[victim].physicalPage
        && (old(pageTable[..])[victim].dirty ==>
              forall v | 0 <= v < pageTable.Length && old(pageTable[v]).valid :: old(pageTable[v]).dirty)
      ensures forall v | 0 <= v < pageTable.Length && v != vpn ::
        pageTable[v] == if v == victim then old(pageTable[v]).(valid := false) else old(pageTable[v])
    {
      ghost var t0, m0 := pageTable[..], MarkedFrames(bitmap);
      var physicalPage := AllocateMem();
      victim := vpn;
      if physicalPage == -1 {
        AllMarked(m0);
        physicalPage, victim := ReplacePage(pageTable);
      }
      frame := physicalPage;
      pageTable[vpn] := pageTable[vpn].(
        physicalPage := physicalPage, valid := true, use := false, dirty := false, readOnly := false);
      assert FaultedBy(t0, pageTable[..], vpn, m0, MarkedFrames(bitmap), physicalPage, victim);
    }
  }

  lemma NoBits(p: nat)
    ensures !TestBit(0, p)
  {
  }

  lemma AllMarked(m: set<int>)
    requires forall p | 0 <= p < NUM_PHYS_PAGES :: p in m
    ensures |m| >= NUM_PHYS_PAGES
  {
    RangeSize(NUM_PHYS_PAGES);
    SubsetSize(ClearSet({}, NUM_PHYS_PAGES), m);
  }

  lemma HeldNext(table: seq<TranslationEntry>, i: nat)
    requires i < |table|
    ensures Held(table[..i + 1]) == Held(table[..i]) + if table[i].valid then {table[i].physicalPage} else {}
  {
    assert table[..i + 1] == table[..i] + [table[i]];
  }

  // The page vpn has got a frame that was free or, when none was, that of a page given up
  // for it: one not modified, if there is one.
  ghost predicate FaultedBy(t0: seq<TranslationEntry>, t1: seq<TranslationEntry>, vpn: nat, m0: set<int>, m1: set<int>,
                            frame: int, victim: nat)
  {
    && vpn < |t0| && victim < |t0|
    && (if victim == vpn then 0 <= frame < NUM_PHYS_PAGES && frame !in m0 && m1 == m0 + {frame}
        else m1 == m0 && AllTaken(m0) && PreferClean(t0, victim) && frame == t0[victim].physicalPage)
    && |t1| == |t0|
    && t1[vpn] == t0[vpn].(physicalPage := frame, valid := true, use := false, dirty := false, readOnly := false)
    && forall v | 0 <= v < |t0| && v != vpn :: t1[v] == if v == victim then t0[v].(valid := false) else t0[v]
  }

  ghost predicate AllTaken(m: set<int>)
  {
    forall p | 0 <= p < NUM_PHYS_PAGES :: p in m
  }

  ghost predicate PreferClean(t: seq<TranslationEntry>, victim: nat)
  {
    victim < |t| && t[victim].valid && (t[victim].dirty ==> forall v | 0 <= v < |t| && t[v].valid :: t[v].dirty)
  }

  ghost predicate Faulted(t0: seq<TranslationEntry>, t1: seq<TranslationEntry>, vpn: nat, m0: set<int>, m1: set<int>)
  {
    exists frame, victim :: FaultedBy(t0, t1, vpn, m0, m1, frame, victim)
  }

  // ---------------------------------------------------------------- any run

  // A page fault in one space keeps the balance of all.
  lemma FaultKeepsBalance(spaces: seq<seq<TranslationEntry>>, m0: set<int>, s: nat, t1: seq<TranslationEntry>,
                          vpn: nat, m1: set<int>)
    requires Balanced(spaces, m0) && s < |spaces| && vpn < |spaces[s]| && !spaces[s][vpn].valid
    requires Faulted(spaces[s], t1, vpn, m0, m1)
    ensures Balanced(spaces[s := t1], m1)
  {
    assert AllHeld(spaces)[s] == Held(spaces[s]);
    var frame := FaultedHolds(spaces[s], t1, vpn, m0, m1);
    Shared(AllHeld(spaces), m0, s, Held(t1), m1, frame);
    assert AllHeld(spaces[s := t1]) == AllHeld(spaces)[s := Held(t1)];
  }

  lemma Shared(held: seq<set<int>>, m0: set<int>, s: nat, h1: set<int>, m1: set<int>, frame: int)
    requires Shares(held, m0) && s < |held| && h1 == held[s] + {frame}
    requires if frame in held[s] then m1 == m0 else frame !in m0 && m1 == m0 + {frame}
    ensures Shares(held[s := h1], m1)
  {
    var after := held[s := h1];
    forall p <- m1
      ensures HeldBySome(after, p)
    {
      if p in h1 {
        assert p in after[s];
      } else {
        var r :| 0 <= r < |held| && p in held[r];
        assert p in after[r];
      }
    }
  }

  lemma FaultedHolds(t0: seq<TranslationEntry>, t1: seq<TranslationEntry>, vpn: nat, m0: set<int>, m1: set<int>)
      returns (frame: int)
    requires Faulted(t0, t1, vpn, m0, m1) && vpn < |t0| && !t0[vpn].valid && OneEach(t0) && Held(t0) <= m0
    ensures OneEach(t1) && Held(t1) == Held(t0) + {frame}
    ensures if frame in Held(t0) then m1 == m0 else frame !in m0 && m1 == m0 + {frame}
  {
    var victim;
    frame, victim :| FaultedBy(t0, t1, vpn, m0, m1, frame, victim);
    FaultedFrames(t0, t1, vpn, m0, m1, frame, victim);
  }

  lemma FaultedFrames(t0: seq<TranslationEntry>, t1: seq<TranslationEntry>, vpn: nat, m0: set<int>, m1: set<int>,
                      frame: int, victim: nat)
    requires FaultedBy(t0, t1, vpn, m0, m1, frame, victim) && !t0[vpn].valid && OneEach(t0) && Held(t0) <= m0
    ensures OneEach(t1) && Held(t1) == Held(t0) + {frame} && (victim != vpn ==> frame in Held(t0))
  {
    forall v | 0 <= v < |t0| && t0[v].valid
      ensures t0[v].physicalPage in Held(t0)
    {
    }
    forall p
      ensures p in Held(t1) <==> p in Held(t0) || p == frame
    {
      if p in Held(t0) {
        var v :| 0 <= v < |t0| && t0[v].valid && t0[v].physicalPage == p;
        assert t1[if v == victim then vpn else v].physicalPage == p;
      }
      assert t1[vpn].physicalPage == frame;
    }
  }

  // So does the end of an address space.
  lemma ExitKeepsBalance(spaces: seq<seq<TranslationEntry>>, m: set<int>, s: nat)
    requires Balanced(spaces, m) && s < |spaces|
    ensures Balanced(spaces[..s] + spaces[s + 1..], m - Held(spaces[s]))
  {
    Dropped(AllHeld(spaces), m, s);
    assert AllHeld(spaces)[s] == Held(spaces[s]);
    assert AllHeld(spaces[..s] + spaces[s + 1..]) == AllHeld(spaces)[..s] + AllHeld(spaces)[s + 1..];
  }

  lemma Dropped(held: seq<set<int>>, m: set<int>, s: nat)
    requires Shares(held, m) && s < |held|
    ensures Shares(held[..s] + held[s + 1..], m - held[s])
  {
    var after := held[..s] + held[s + 1..];
    assert forall r | 0 <= r < |after| :: after[r] == held[if r < s then r else r + 1];
    forall p <- m - held[s]
      ensures HeldBySome(after, p)
    {
      var r :| 0 <= r < |held| && p in held[r];
      assert after[if r < s then r else r - 1] == held[r];
    }
  }

  // And a new one, which begins without frames.
  lemma StartKeepsBalance(spaces: seq<seq<TranslationEntry>>, m: set<int>, t: seq<TranslationEntry>)
    requires Balanced(spaces, m) && forall v | 0 <= v < |t| :: !t[v].valid
    ensures Balanced(spaces + [t], m)
  {
    assert Held(t) == {};
    Joined(AllHeld(spaces), m);
    assert AllHeld(spaces + [t]) == AllHeld(spaces) + [{}];
  }

  lemma Joined(held: seq<set<int>>, m: set<int>)
    requires Shares(held, m)
    ensures Shares(held + [{}], m)
  {
    forall p <- m
      ensures HeldBySome(held + [{}], p)
    {
      var r :| 0 <= r < |held| && p in held[r];
      assert p in (held + [{}])[r];
    }
  }

  // The page tables of the live spaces and the frames marked.
  datatype State = State(spaces: seq<seq<TranslationEntry>>, marked: set<int>)
  datatype Event = Fault(s: nat, vpn: nat) | Exit(s: nat) | Start(pages: nat)

  ghost predicate Next(s0: State, event: Event, s1: State)
  {
    match event
    case Fault(s, vpn) =>
      && s < |s0.spaces| == |s1.spaces| && vpn < |s0.spaces[s]| && !s0.spaces[s][vpn].valid
      && Faulted(s0.spaces[s], s1.spaces[s], vpn, s0.marked, s1.marked) && s1.spaces == s0.spaces[s := s1.spaces[s]]
    case Exit(s) =>
      && s < |s0.spaces| && s1.spaces == s0.spaces[..s] + s0.spaces[s + 1..]
      && s1.marked == s0.marked - Held(s0.spaces[s])
    case Start(pages) =>
      && |s1.spaces| == |s0.spaces| + 1 && s1.spaces == s0.spaces + [s1.spaces[|s0.spaces|]]
      && |s1.spaces[|s0.spaces|]| == pages && (forall v | 0 <= v < pages :: !s1.spaces[|s0.spaces|][v].valid)
      && s1.marked == s0.marked
  }

  // In every run of faults, replacements, exits and new spaces, from an empty memory on,
  // the frame map accounts for the frames of all the live spaces.
  lemma {:induction false} EveryRunIsBalanced(states: seq<State>, events: seq<Event>)
    requires |states| == |events| + 1 && states[0] == State([], {})
    requires forall i | 0 <= i < |events| :: Next(states[i], events[i], states[i + 1])
    ensures Balanced(states[|events|].spaces, states[|events|].marked)
  {
    if events != [] {
      var n := |events| - 1;
      EveryRunIsBalanced(states[..n + 1], events[..n]);
      StepKeepsBalance(states[n], events[n], states[n + 1]);
    }
  }

  lemma StepKeepsBalance(s0: State, event: Event, s1: State)
    requires Next(s0, event, s1) && Balanced(s0.spaces, s0.marked)
    ensures Balanced(s1.spaces, s1.marked)
  {
    match event
    case Fault(s, vpn) => FaultKeepsBalance(s0.spaces, s0.marked, s, s1.spaces[s], vpn, s1.marked);
    case Exit(s) => ExitKeepsBalance(s0.spaces, s0.marked, s);
    case Start(pages) => StartKeepsBalance(s0.spaces, s0.marked, s1.spaces[|s0.spaces|]);
  }
}
