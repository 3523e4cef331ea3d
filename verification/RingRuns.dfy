/** What the ring buffer promises over whole runs, for every schedule of every thread. */
module RingRuns {
  import opened RingMachine
  import opened RingProof

  lemma {:induction false} RunInv(cap: nat, sched: Schedule)
    requires Capacity(cap) && cap >= 2
    ensures Inv(Run(cap, sched).0, HistoryOf(Run(cap, sched).1))
  {
    if sched == [] {
      InitInv(cap);
    } else {
      var before := sched[..|sched| - 1];
      var (t, mv) := sched[|sched| - 1];
      RunInv(cap, before);
      var (s, es) := Run(cap, before);
      StepInv(s, HistoryOf(es), t, mv);
      var e := Step(s, t, mv).1;
      assert (es + [e])[..|es|] == es;
    }
  }

  /** What each event says about the state it happens in: positions are claimed in
      order, a pop returns the item claimed with its position, and a call is refused
      only while the pop one lap behind (the push it waits for) is unpublished. */
  ghost predicate EventFacts(s: Ring, h: History, e: Event) {
    match e
    case Quiet => true
    case PushClaimed(p, _) => p == |h.items| == s.mem.head
    case PushReturned(p) => p < s.mem.head && p !in h.published
    case PushRefused(at) => at <= s.mem.head && at >= s.mem.cap && at - s.mem.cap !in h.returned
    case PopClaimed(p) => p == s.mem.tail && p in h.published
    case PopReturned(p, x) => p < s.mem.tail && p < |h.items| && p !in h.returned && x == h.items[p]
    case PopRefused(at) => at <= s.mem.tail && at !in h.published
    case Counted(n) => n <= s.mem.cap
  }

  lemma StepEvent(s: Ring, h: History, t: Tid, mv: Move)
    requires Inv(s, h)
    ensures EventFacts(s, h, Step(s, t, mv).1)
  {
    var pc := PcOf(s, t);
    assert ThreadInv(s.mem, h, pc);
    if pc.PushSequence? && mv == Go {
      PushLook(s.mem, h, pc.at);
    }
    if pc.PopSequence? && mv == Go {
      PopLook(s.mem, h, pc.at);
    }
  }

  lemma {:induction false} RunPrefix(cap: nat, sched: Schedule, i: nat)
    requires Capacity(cap) && i <= |sched|
    ensures Run(cap, sched[..i]).1 == Run(cap, sched).1[..i]
    decreases |sched|
  {
    if i < |sched| {
      var before := sched[..|sched| - 1];
      RunPrefix(cap, before, i);
      assert before[..i] == sched[..i];
    } else {
      assert sched[..i] == sched;
    }
  }

  /** Event `i` of a run, in the state and history it happens in. */
  lemma EventAt(cap: nat, sched: Schedule, i: nat)
    requires Capacity(cap) && cap >= 2 && i < |sched|
    ensures var es := Run(cap, sched).1;
            EventFacts(Run(cap, sched[..i]).0, HistoryOf(es[..i]), es[i])
  {
    RunInv(cap, sched[..i]);
    RunPrefix(cap, sched, i);
    RunPrefix(cap, sched, i + 1);
    var (s, es) := Run(cap, sched[..i]);
    StepEvent(s, HistoryOf(es), sched[i].0, sched[i].1);
    assert sched[..i + 1][..i] == sched[..i];
    assert Run(cap, sched[..i + 1]).1 == es + [Step(s, sched[i].0, sched[i].1).1];
  }

  /** A thread owns the slot of the position it has claimed and not finished. */
  predicate Owns(pc: PC, p: nat) {
    Pushing(pc, p) || Popping(pc, p)
  }

  lemma OwnersDiffer(s: Ring, h: History, t: Tid, u: Tid, p: nat, q: nat)
    requires Inv(s, h) && t != u && Owns(PcOf(s, t), p) && Owns(PcOf(s, u), q)
    ensures Index(s.mem.cap, p) != Index(s.mem.cap, q)
  {
    hide Index, SequencesInv, ValuesInv;
    assert ThreadInv(s.mem, h, PcOf(s, t)) && ThreadInv(s.mem, h, PcOf(s, u));
    if p < q {
      NearIndices(s.mem.cap, p, q);
    } else if q < p {
      NearIndices(s.mem.cap, q, p);
    }
  }

  /** No two threads own the same slot at once, in any state of any schedule: not two
      pushes, not two pops, and not a push and a pop. */
  lemma OneOwnerPerSlot(cap: nat, sched: Schedule, t: Tid, u: Tid, p: nat, q: nat)
    requires Capacity(cap) && cap >= 2 && t != u
    requires Owns(PcOf(Run(cap, sched).0, t), p) && Owns(PcOf(Run(cap, sched).0, u), q)
    ensures Index(cap, p) != Index(cap, q)
  {
    RunInv(cap, sched);
    OwnersDiffer(Run(cap, sched).0, HistoryOf(Run(cap, sched).1), t, u, p, q);
  }

  // ---------------------------------------------------------------- reading the history

  /** The history is no more than the events: a claimed item is a claim event. */
  lemma {:induction false} ItemsAreClaims(cap: nat, sched: Schedule, p: nat) returns (i: nat)
    requires Capacity(cap) && cap >= 2
    requires p < |HistoryOf(Run(cap, sched).1).items|
    ensures i < |sched|
    ensures Run(cap, sched).1[i] == PushClaimed(p, HistoryOf(Run(cap, sched).1).items[p])
  {
    var n := |sched| - 1;
    var es := Run(cap, sched).1;
    RunPrefix(cap, sched, n);
    EventAt(cap, sched, n);
    if p < |HistoryOf(es[..n]).items| {
      i := ItemsAreClaims(cap, sched[..n], p);
    } else {
      i := n;
    }
  }

  lemma {:induction false} RecordedReturns(es: seq<Event>, i: nat)
    requires i < |es|
    ensures es[i].PopReturned? ==> es[i].pos in HistoryOf(es).returned
    ensures es[i].PushReturned? ==> es[i].pos in HistoryOf(es).published
  {
    var n := |es| - 1;
    if i < n {
      RecordedReturns(es[..n], i);
    }
  }

  lemma {:induction false} ReturnedEvent(es: seq<Event>, p: nat) returns (i: nat)
    requires p in HistoryOf(es).returned
    ensures i < |es| && es[i].PopReturned? && es[i].pos == p
  {
    var n := |es| - 1;
    if p in HistoryOf(es[..n]).returned {
      i := ReturnedEvent(es[..n], p);
    } else {
      i := n;
    }
  }

  /** No step takes head or tail back, and a claim puts its position below one of them. */
  lemma StepClaims(s: Ring, t: Tid, mv: Move)
    requires Shaped(s.mem)
    ensures Step(s, t, mv).0.mem.head >= s.mem.head && Step(s, t, mv).0.mem.tail >= s.mem.tail
    ensures Step(s, t, mv).1.PushClaimed? ==> Step(s, t, mv).1.pos < Step(s, t, mv).0.mem.head
    ensures Step(s, t, mv).1.PopClaimed? ==> Step(s, t, mv).1.pos < Step(s, t, mv).0.mem.tail
  {
  }

  lemma {:induction false} ClaimedSoFar(cap: nat, sched: Schedule, i: nat)
    requires Capacity(cap) && i < |sched|
    ensures var es := Run(cap, sched).1;
            && (es[i].PushClaimed? ==> es[i].pos < Run(cap, sched).0.mem.head)
            && (es[i].PopClaimed? ==> es[i].pos < Run(cap, sched).0.mem.tail)
    decreases |sched|
  {
    hide Run, Step;
    var n := |sched| - 1;
    var (s, es) := Run(cap, sched[..n]);
    LastStep(cap, sched);
    StepClaims(s, sched[n].0, sched[n].1);
    if i < n {
      ClaimedSoFar(cap, sched[..n], i);
    }
  }

  lemma LastStep(cap: nat, sched: Schedule)
    requires Capacity(cap) && sched != []
    ensures var n := |sched| - 1;
            var (s, es) := Run(cap, sched[..n]);
            var (s', e) := Step(s, sched[n].0, sched[n].1);
            Run(cap, sched) == (s', es + [e])
  {
    hide Step;
  }

  // ---------------------------------------------------------------- the main theorem

  /** First in, first out in claim order, nothing duplicated: pushes claim positions in
      order, pops claim positions in order, every item returned for a position was claimed
      with that position by an earlier push, and no position is returned twice. */
  ghost predicate Fifo(cap: nat, sched: Schedule)
    requires Capacity(cap)
  {
    var es := Run(cap, sched).1;
    && (forall i, j :: 0 <= i < j < |es| && es[i].PushClaimed? && es[j].PushClaimed? ==> es[i].pos < es[j].pos)
    && (forall i, j :: 0 <= i < j < |es| && es[i].PopClaimed? && es[j].PopClaimed? ==> es[i].pos < es[j].pos)
    && (forall i, j :: 0 <= i < j < |es| && es[i].PopReturned? && es[j].PopReturned? ==> es[i].pos != es[j].pos)
    && (forall i :: 0 <= i < |es| && es[i].PopReturned? ==>
          exists j :: 0 <= j < i && es[j] == PushClaimed(es[i].pos, es[i].item))
  }

  lemma RunIsFifo(cap: nat, sched: Schedule)
    requires Capacity(cap) && cap >= 2
    ensures Fifo(cap, sched)
  {
    var es := Run(cap, sched).1;
    forall i, j | 0 <= i < j < |es|
      ensures es[i].PushClaimed? && es[j].PushClaimed? ==> es[i].pos < es[j].pos
      ensures es[i].PopClaimed? && es[j].PopClaimed? ==> es[i].pos < es[j].pos
      ensures es[i].PopReturned? && es[j].PopReturned? ==> es[i].pos != es[j].pos
    {
      EventAt(cap, sched, j);
      RunPrefix(cap, sched, j);
      ClaimedSoFar(cap, sched[..j], i);
      RecordedReturns(es[..j], i);
    }
    forall i | 0 <= i < |es| && es[i].PopReturned?
      ensures exists j :: 0 <= j < i && es[j] == PushClaimed(es[i].pos, es[i].item)
    {
      EventAt(cap, sched, i);
      RunPrefix(cap, sched, i);
      var j := ItemsAreClaims(cap, sched[..i], es[i].pos);
    }
  }

  ghost predicate ReturnedIn(es: seq<Event>, p: nat) {
    exists i :: 0 <= i < |es| && es[i].PopReturned? && es[i].pos == p
  }

  ghost predicate ClaimedIn(es: seq<Event>, p: nat, x: Item) {
    exists i :: 0 <= i < |es| && es[i] == PushClaimed(p, x)
  }

  /** When every call has returned nothing is lost: a position below tail has been
      returned, and one between tail and head lies published in its slot. */
  lemma NothingLost(cap: nat, sched: Schedule)
    requires Capacity(cap) && cap >= 2
    requires forall t :: PcOf(Run(cap, sched).0, t) == Idle
    ensures var (s, es) := Run(cap, sched);
            && (forall p: nat :: p < s.mem.tail <==> ReturnedIn(es, p))
            && (forall p: nat :: s.mem.tail <= p < s.mem.head ==>
                  SlotOf(s.mem, p).sequence == p + 1 && ClaimedIn(es, p, SlotOf(s.mem, p).value))
  {
    var (s, es) := Run(cap, sched);
    RunInv(cap, sched);
    forall p: nat
      ensures p < s.mem.tail <==> ReturnedIn(es, p)
    {
      if p < s.mem.tail {
        var i := ReturnedEvent(es, p);
      }
      if i :| 0 <= i < |es| && es[i].PopReturned? && es[i].pos == p {
        RecordedReturns(es, i);
      }
    }
    forall p: nat | s.mem.tail <= p < s.mem.head
      ensures ClaimedIn(es, p, SlotOf(s.mem, p).value)
    {
      var i := ItemsAreClaims(cap, sched, p);
    }
  }

  /** A push is refused only while the pop one lap behind its position is unpublished. */
  lemma PushRefusal(cap: nat, sched: Schedule, i: nat)
    requires Capacity(cap) && cap >= 2 && i < |sched|
    requires Run(cap, sched).1[i].PushRefused?
    ensures var es := Run(cap, sched).1;
            es[i].at >= cap && !ReturnedIn(es[..i], es[i].at - cap)
  {
    hide Run;
    var es := Run(cap, sched).1;
    EventAt(cap, sched, i);
    if j :| 0 <= j < i && es[..i][j].PopReturned? && es[..i][j].pos == es[i].at - cap {
      RecordedReturns(es[..i], j);
    }
  }

  /** A pop is refused only while the push of its position is unpublished. */
  lemma PopRefusal(cap: nat, sched: Schedule, i: nat)
    requires Capacity(cap) && cap >= 2 && i < |sched|
    requires Run(cap, sched).1[i].PopRefused?
    ensures var es := Run(cap, sched).1;
            forall j :: 0 <= j < i && es[j].PushReturned? ==> es[j].pos != es[i].at
  {
    hide Run;
    var es := Run(cap, sched).1;
    EventAt(cap, sched, i);
    forall j | 0 <= j < i && es[j].PushReturned?
      ensures es[j].pos != es[i].at
    {
      RecordedReturns(es[..i], j);
    }
  }

  /** A count never exceeds the capacity, however its two loads race. */
  lemma CountBound(cap: nat, sched: Schedule, i: nat)
    requires Capacity(cap) && cap >= 2 && i < |sched|
    ensures Run(cap, sched).1[i].Counted? ==> Run(cap, sched).1[i].n <= cap
  {
    EventAt(cap, sched, i);
  }

  // ---------------------------------------------------------------- who pops what

  ghost predicate ClaimedBy(sched: Schedule, es: seq<Event>, t: Tid, p: nat)
    requires |sched| == |es|
  {
    exists j :: 0 <= j < |es| && sched[j].0 == t && es[j] == PopClaimed(p)
  }

  /** Who comes to hold a position for a pop has just claimed it, or held it before. */
  lemma StepPopping(s: Ring, t: Tid, mv: Move, u: Tid, p: nat)
    requires Shaped(s.mem) && Popping(PcOf(Step(s, t, mv).0, u), p)
    ensures Popping(PcOf(s, u), p) || (u == t && Step(s, t, mv).1 == PopClaimed(p))
  {
  }

  /** The thread that holds a position for a pop has claimed it. */
  lemma {:induction false} PopperClaimed(cap: nat, sched: Schedule, t: Tid, p: nat)
    requires Capacity(cap) && Popping(PcOf(Run(cap, sched).0, t), p)
    ensures ClaimedBy(sched, Run(cap, sched).1, t, p)
  {
    if sched != [] {
      hide Run, Step;
      var n := |sched| - 1;
      var (s, es) := Run(cap, sched[..n]);
      LastStep(cap, sched);
      StepPopping(s, sched[n].0, sched[n].1, t, p);
      if Popping(PcOf(s, t), p) {
        PopperClaimed(cap, sched[..n], t, p);
        var j :| 0 <= j < n && sched[..n][j].0 == t && es[j] == PopClaimed(p);
        assert sched[j].0 == t && Run(cap, sched).1[j] == PopClaimed(p);
      } else {
        assert sched[n].0 == t && Run(cap, sched).1[n] == PopClaimed(p);
      }
    }
  }

  lemma RunEvent(cap: nat, sched: Schedule, i: nat)
    requires Capacity(cap) && i < |sched|
    ensures Run(cap, sched).1[i] == Step(Run(cap, sched[..i]).0, sched[i].0, sched[i].1).1
    ensures Run(cap, sched[..i]).1 == Run(cap, sched).1[..i]
  {
    RunPrefix(cap, sched, i);
    RunPrefix(cap, sched, i + 1);
    assert sched[..i + 1][..i] == sched[..i];
  }

  lemma ReturnedByItsClaimer(cap: nat, sched: Schedule, i: nat)
    requires Capacity(cap) && i < |sched| && Run(cap, sched).1[i].PopReturned?
    ensures exists j :: 0 <= j < i && sched[j].0 == sched[i].0
                && Run(cap, sched).1[j] == PopClaimed(Run(cap, sched).1[i].pos)
  {
    hide Run;
    var es := Run(cap, sched).1;
    RunEvent(cap, sched, i);
    PopperClaimed(cap, sched[..i], sched[i].0, es[i].pos);
    var j :| 0 <= j < i && sched[..i][j].0 == sched[i].0 && es[..i][j] == PopClaimed(es[i].pos);
    assert sched[j].0 == sched[i].0 && es[j] == PopClaimed(es[i].pos);
  }

  // ---------------------------------------------------------------- capacity one

  lemma Then(sched: Schedule, s: Ring, es: seq<Event>, t: Tid, mv: Move, s': Ring, e: Event)
    returns (sched': Schedule)
    requires Capacity(1) && Run(1, sched) == (s, es) && Step(s, t, mv) == (s', e)
    ensures sched' == sched + [(t, mv)] && Run(1, sched') == (s', es + [e])
  {
    sched' := sched + [(t, mv)];
    assert sched'[..|sched|] == sched;
  }

  function One(head: nat, tail: nat, slot: Slot, threads: map<Tid, PC>): Ring {
    Ring(Memory(1, head, tail, [slot]), threads)
  }

  lemma OnePut(head: nat, tail: nat, slot: Slot, p: nat, slot': Slot)
    ensures Capacity(1) && PutSlot(Memory(1, head, tail, [slot]), p, slot') == Memory(1, head, tail, [slot'])
    ensures SlotOf(Memory(1, head, tail, [slot]), p) == slot
  {
    assert [slot][0 := slot'] == [slot'];
  }

  /** Thread 0 pushes `x` through an empty slot of a one-slot ring. */
  lemma OneSlotPush(sched: Schedule, head: nat, tail: nat, v: Item, ths: map<Tid, PC>, es: seq<Event>, x: Item)
    returns (sched': Schedule)
    requires Run(1, sched) == (One(head, tail, Slot(v, head), ths), es)
    requires PcOf(One(head, tail, Slot(v, head), ths), 0) == Idle
    ensures Run(1, sched') == (One(head + 1, tail, Slot(x, head), ths[0 := PushPublish(x, head)]),
                               es + [Quiet, Quiet, Quiet, PushClaimed(head, x), Quiet])
  {
    hide Run;
    var s0 := One(head, tail, Slot(v, head), ths);
    var s1 := At(s0, 0, PushHead(x));
    sched' := Then(sched, s0, es, 0, CallPush(x), s1, Quiet);
    var s2 := At(s1, 0, PushSequence(x, head));
    sched' := Then(sched', s1, es + [Quiet], 0, Go, s2, Quiet);
    var s3 := At(s2, 0, PushCas(x, head));
    sched' := Then(sched', s2, es + [Quiet] + [Quiet], 0, Go, s3, Quiet);
    var s4 := One(head + 1, tail, Slot(v, head), s3.threads[0 := PushStore(x, head)]);
    sched' := Then(sched', s3, es + [Quiet] + [Quiet] + [Quiet], 0, Go, s4, PushClaimed(head, x));
    var s5 := One(head + 1, tail, Slot(x, head), s4.threads[0 := PushPublish(x, head)]);
    OnePut(head + 1, tail, Slot(v, head), head, Slot(x, head));
    sched' := Then(sched', s4, es + [Quiet] + [Quiet] + [Quiet] + [PushClaimed(head, x)], 0, Go, s5, Quiet);
    assert es + [Quiet] + [Quiet] + [Quiet] + [PushClaimed(head, x)] + [Quiet]
        == es + [Quiet, Quiet, Quiet, PushClaimed(head, x), Quiet];
    assert s5.threads == ths[0 := PushPublish(x, head)];
  }

  /** Thread 0 publishes position 0, and thread 1 claims it. */
  lemma OneSlotClaim(sched: Schedule, es: seq<Event>) returns (sched': Schedule)
    requires Run(1, sched) == (One(1, 0, Slot(7, 0), map[0 := PushPublish(7, 0)]), es)
    ensures Run(1, sched') == (One(1, 1, Slot(7, 1), map[0 := Idle, 1 := PopLoad(0)]),
                               es + [PushReturned(0)] + [Quiet] + [Quiet] + [Quiet] + [PopClaimed(0)])
  {
    hide Run;
    var s1 := One(1, 0, Slot(7, 1), map[0 := Idle]);
    OnePut(1, 0, Slot(7, 0), 0, Slot(7, 1));
    assert map[0 := PushPublish(7, 0)][0 := Idle] == s1.threads;
    sched' := Then(sched, One(1, 0, Slot(7, 0), map[0 := PushPublish(7, 0)]), es, 0, Go, s1, PushReturned(0));
    var s2 := At(s1, 1, PopTail);
    sched' := Then(sched', s1, es + [PushReturned(0)], 1, CallPop, s2, Quiet);
    var s3 := At(s2, 1, PopSequence(0));
    sched' := Then(sched', s2, es + [PushReturned(0)] + [Quiet], 1, Go, s3, Quiet);
    var s4 := At(s3, 1, PopCas(0));
    sched' := Then(sched', s3, es + [PushReturned(0)] + [Quiet] + [Quiet], 1, Go, s4, Quiet);
    sched' := Then(sched', s4, es + [PushReturned(0)] + [Quiet] + [Quiet] + [Quiet], 1, Go,
                   One(1, 1, Slot(7, 1), s4.threads[1 := PopLoad(0)]), PopClaimed(0));
    assert s4.threads[1 := PopLoad(0)] == map[0 := Idle, 1 := PopLoad(0)];
  }

  lemma OneSlotClaimed() returns (sched: Schedule)
    ensures Run(1, sched) == (One(1, 1, Slot(7, 1), map[0 := Idle, 1 := PopLoad(0)]),
                              [Quiet, Quiet, Quiet, PushClaimed(0, 7), Quiet, PushReturned(0),
                               Quiet, Quiet, Quiet, PopClaimed(0)])
  {
    assert InitMemory(1).slots == [Slot(0, 0)];
    sched := OneSlotPush([], 0, 0, 0, map[], [], 7);
    var es := [Quiet, Quiet, Quiet, PushClaimed(0, 7), Quiet];
    assert [] + es == es;
    sched := OneSlotClaim(sched, es);
    assert es + [PushReturned(0)] + [Quiet] + [Quiet] + [Quiet] + [PopClaimed(0)]
        == [Quiet, Quiet, Quiet, PushClaimed(0, 7), Quiet, PushReturned(0), Quiet, Quiet, Quiet, PopClaimed(0)];
  }

  /** With one slot, "published at 0" and "free for 1" are the same sequence number: a
      second push overwrites the item under a pop, which then returns the wrong one. */
  lemma CapacityOneFails() returns (sched: Schedule)
    ensures Capacity(1) && !Fifo(1, sched)
  {
    hide Run;
    sched := OneSlotClaimed();
    var (s, es) := Run(1, sched);
    sched := OneSlotPush(sched, 1, 1, 7, s.threads, es, 8);
    var es1 := es + [Quiet, Quiet, Quiet, PushClaimed(1, 8), Quiet];
    var s1 := One(2, 1, Slot(8, 1), s.threads[0 := PushPublish(8, 1)]);
    var s2 := At(s1, 1, PopPublish(0, 8));
    sched := Then(sched, s1, es1, 1, Go, s2, Quiet);
    OnePut(2, 1, Slot(8, 1), 0, Slot(8, 1));
    sched := Then(sched, s2, es1 + [Quiet], 1, Go, One(2, 1, Slot(8, 1), s2.threads[1 := Idle]), PopReturned(0, 8));
    var all := Run(1, sched).1;
    assert all[16] == PopReturned(0, 8);
    assert forall j :: 0 <= j < 16 ==> all[j] != PushClaimed(0, 8);
  }

  /** The ring is a FIFO queue for every schedule exactly when it has at least two slots. */
  lemma FifoIffTwoSlots(cap: nat)
    requires Capacity(cap)
    ensures (forall sched :: Fifo(cap, sched)) <==> cap >= 2
  {
    if cap >= 2 {
      forall sched
        ensures Fifo(cap, sched)
      {
        RunIsFifo(cap, sched);
      }
    } else {
      var sched := CapacityOneFails();
    }
  }
}
