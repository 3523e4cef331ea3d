/** What each call of the ring buffer does from its start to its end, in any schedule: it
goes on with what it was called with, and ends with an event of its own. */
module RingCalls {
  import opened Options
  import opened RingMachine
  import opened RingProof
  import opened RingRuns
  import RingBuffer

  /** The call a thread is in, and the position it has claimed. */
  datatype Call = NoCall | Push(item: Item, claimed: Option<nat>) | Pop(claimed: Option<nat>) | Count

  predicate Ends(e: Event) {
    e.PushReturned? || e.PushRefused? || e.PopReturned? || e.PopRefused? || e.Counted?
  }

  /** The call after a move of the thread and the event of that move. */
  function After(call: Call, mv: Move, e: Event): Call {
    if Ends(e) then NoCall
    else
      match (call, mv, e)
      case (NoCall, CallPush(x), _) => Push(x, None)
      case (NoCall, CallPop, _) => Pop(None)
      case (NoCall, CallCount, _) => Count
      case (Push(x, _), _, PushClaimed(p, _)) => Push(x, Some(p))
      case (Pop(_), _, PopClaimed(p)) => Pop(Some(p))
      case _ => call
  }

  /** The call of a thread, read off the moves and the events. */
  function CallOf(sched: Schedule, es: seq<Event>, t: Tid): Call
    requires |sched| == |es|
  {
    if sched == [] then NoCall
    else
      var n := |sched| - 1;
      var call := CallOf(sched[..n], es[..n], t);
      if sched[n].0 == t then After(call, sched[n].1, es[n]) else call
  }

  /** What may happen in a call: a push claims a position for its own item or is refused, and
      once it has claimed returns that position; so does a pop. */
  predicate Fits(call: Call, e: Event) {
    match call
    case NoCall => e == Quiet
    case Push(x, None) => e == Quiet || e.PushRefused? || (e.PushClaimed? && e.item == x)
    case Push(_, Some(p)) => e == Quiet || e == PushReturned(p)
    case Pop(None) => e == Quiet || e.PopRefused? || e.PopClaimed?
    case Pop(Some(p)) => e == Quiet || (e.PopReturned? && e.pos == p)
    case Count => e == Quiet || e.Counted?
  }

  /** A thread is in the middle of such a call. */
  predicate Doing(pc: PC, call: Call) {
    match call
    case NoCall => pc == Idle
    case Push(x, None) => (pc.PushHead? || pc.PushSequence? || pc.PushCas?) && pc.item == x
    case Push(x, Some(p)) => pc == PushStore(x, p) || pc == PushPublish(x, p)
    case Pop(None) => pc.PopTail? || pc.PopSequence? || pc.PopCas?
    case Pop(Some(p)) => pc == PopLoad(p) || (pc.PopPublish? && pc.at == p)
    case Count => pc.CountHead? || pc.CountTail?
  }

  lemma StepDoes(s: Ring, t: Tid, mv: Move, call: Call)
    requires Shaped(s.mem) && Doing(PcOf(s, t), call)
    ensures Fits(call, Step(s, t, mv).1)
    ensures Doing(PcOf(Step(s, t, mv).0, t), After(call, mv, Step(s, t, mv).1))
  {
    hide Index;
  }

  lemma OthersStay(s: Ring, t: Tid, mv: Move, u: Tid)
    requires Shaped(s.mem) && u != t
    ensures PcOf(Step(s, t, mv).0, u) == PcOf(s, u)
  {
    hide Index;
  }

  lemma {:induction false} RunDoes(cap: nat, sched: Schedule, t: Tid)
    requires Capacity(cap)
    ensures Doing(PcOf(Run(cap, sched).0, t), CallOf(sched, Run(cap, sched).1, t))
  {
    if sched != [] {
      hide Step, After, Doing, Fits;
      var n := |sched| - 1;
      RunDoes(cap, sched[..n], t);
      var (s, es) := Run(cap, sched[..n]);
      var (u, mv) := sched[n];
      assert Run(cap, sched).1[..n] == es;
      if u == t {
        StepDoes(s, t, mv, CallOf(sched[..n], es, t));
      } else {
        OthersStay(s, u, mv, t);
      }
    } else {
      assert PcOf(Init(cap), t) == Idle;
    }
  }

  /** Every event belongs to the call its thread is in, and a thread is idle exactly when it
      is in no call: a call ends only with its own return, refusal or count. */
  lemma EventsFollowCalls(cap: nat, sched: Schedule, i: nat)
    requires Capacity(cap) && i < |sched|
    ensures var es := Run(cap, sched).1;
      var (t, call) := (sched[i].0, CallOf(sched[..i], es[..i], sched[i].0));
      && Fits(call, es[i])
      && (PcOf(Run(cap, sched[..i]).0, t) == Idle <==> call == NoCall)
      && (PcOf(Run(cap, sched[..i + 1]).0, t) == Idle <==> After(call, sched[i].1, es[i]) == NoCall)
  {
    hide Step, Fits;
    var (t, mv) := sched[i];
    RunPrefix(cap, sched, i);
    RunEvent(cap, sched, i);
    var (s, es) := Run(cap, sched[..i]);
    RunDoes(cap, sched[..i], t);
    StepDoes(s, t, mv, CallOf(sched[..i], es, t));
    assert sched[..i + 1][..i] == sched[..i];
  }

  /** A thread in a call has begun it and has not been idle since. */
  ghost predicate Began(cap: nat, sched: Schedule, t: Tid, mv: Move, j: nat)
    requires Capacity(cap)
  {
    && j < |sched| && sched[j] == (t, mv)
    && PcOf(Run(cap, sched[..j]).0, t) == Idle
    && forall k :: j < k <= |sched| ==> PcOf(Run(cap, sched[..k]).0, t) != Idle
  }

  lemma BeganLonger(cap: nat, sched: Schedule, t: Tid, mv: Move, j: nat)
    requires Capacity(cap) && sched != [] && Began(cap, sched[..|sched| - 1], t, mv, j)
    requires PcOf(Run(cap, sched).0, t) != Idle
    ensures Began(cap, sched, t, mv, j)
  {
    hide Run;
    var before := sched[..|sched| - 1];
    assert before[..j] == sched[..j] && sched[..|sched|] == sched;
    forall k | j < k <= |sched|
      ensures PcOf(Run(cap, sched[..k]).0, t) != Idle
    {
      assert k < |sched| ==> before[..k] == sched[..k];
    }
  }

  function Begins(call: Call): Move
    requires call != NoCall
  {
    match call
    case Push(x, _) => CallPush(x)
    case Pop(_) => CallPop
    case Count => CallCount
  }

  lemma {:induction false} InCall(cap: nat, sched: Schedule, t: Tid) returns (j: nat)
    requires Capacity(cap) && CallOf(sched, Run(cap, sched).1, t) != NoCall
    ensures Began(cap, sched, t, Begins(CallOf(sched, Run(cap, sched).1, t)), j)
    decreases |sched|
  {
    hide Run, Fits;
    var n := |sched| - 1;
    var es := Run(cap, sched).1;
    RunPrefix(cap, sched, n);
    RunDoes(cap, sched, t);
    RunDoes(cap, sched[..n], t);
    assert sched[..|sched|] == sched;
    var call := CallOf(sched[..n], es[..n], t);
    if call == NoCall {
      j := n;
    } else {
      j := InCall(cap, sched[..n], t);
      BeganLonger(cap, sched, t, Begins(call), j);
    }
  }

  /** The item a position is claimed with is the one the thread's push was called with. */
  lemma ClaimsItsItem(cap: nat, sched: Schedule, i: nat) returns (j: nat)
    requires Capacity(cap) && i < |sched| && Run(cap, sched).1[i].PushClaimed?
    ensures Began(cap, sched[..i], sched[i].0, CallPush(Run(cap, sched).1[i].item), j)
  {
    hide Run, Step, Began;
    EventsFollowCalls(cap, sched, i);
    RunPrefix(cap, sched, i);
    j := InCall(cap, sched[..i], sched[i].0);
  }

  /** Thread `t` claimed position `p` in move `k`, with item `x` if in a push, and has not
      been idle since. */
  ghost predicate HoldsClaim(cap: nat, sched: Schedule, t: Tid, e: Event, k: nat)
    requires Capacity(cap)
  {
    && k < |sched| && sched[k].0 == t && Run(cap, sched).1[k] == e
    && forall m :: k < m <= |sched| ==> PcOf(Run(cap, sched[..m]).0, t) != Idle
  }

  lemma HoldsLonger(cap: nat, sched: Schedule, t: Tid, e: Event, k: nat)
    requires Capacity(cap) && sched != [] && HoldsClaim(cap, sched[..|sched| - 1], t, e, k)
    requires PcOf(Run(cap, sched).0, t) != Idle
    ensures HoldsClaim(cap, sched, t, e, k)
  {
    hide Run;
    var before := sched[..|sched| - 1];
    RunPrefix(cap, sched, |before|);
    assert sched[..|sched|] == sched;
    forall m | k < m <= |sched|
      ensures PcOf(Run(cap, sched[..m]).0, t) != Idle
    {
      assert m < |sched| ==> before[..m] == sched[..m];
    }
  }

  function ClaimEvent(call: Call): Event
    requires (call.Push? || call.Pop?) && call.claimed.Some?
  {
    if call.Push? then PushClaimed(call.claimed.value, call.item) else PopClaimed(call.claimed.value)
  }

  lemma {:induction false} HasClaimed(cap: nat, sched: Schedule, t: Tid) returns (k: nat)
    requires Capacity(cap)
    requires var call := CallOf(sched, Run(cap, sched).1, t); (call.Push? || call.Pop?) && call.claimed.Some?
    ensures HoldsClaim(cap, sched, t, ClaimEvent(CallOf(sched, Run(cap, sched).1, t)), k)
    decreases |sched|
  {
    hide Run;
    var n := |sched| - 1;
    var es := Run(cap, sched).1;
    RunPrefix(cap, sched, n);
    RunDoes(cap, sched, t);
    EventsFollowCalls(cap, sched, n);
    assert sched[..|sched|] == sched;
    var call, now := CallOf(sched[..n], es[..n], t), CallOf(sched, es, t);
    if call == now {
      k := HasClaimed(cap, sched[..n], t);
      HoldsLonger(cap, sched, t, ClaimEvent(now), k);
    } else {
      k := n;
    }
  }

  /** A push returns the position it has claimed, in the same call; so does a pop. */
  lemma ReturnsItsClaim(cap: nat, sched: Schedule, i: nat) returns (k: nat)
    requires Capacity(cap) && i < |sched|
    requires Run(cap, sched).1[i].PushReturned? || Run(cap, sched).1[i].PopReturned?
    ensures var (t, e) := (sched[i].0, Run(cap, sched).1[i]);
      if e.PopReturned? then HoldsClaim(cap, sched[..i], t, PopClaimed(e.pos), k)
      else exists x :: HoldsClaim(cap, sched[..i], t, PushClaimed(e.pos, x), k)
  {
    hide Run, HoldsClaim;
    EventsFollowCalls(cap, sched, i);
    RunPrefix(cap, sched, i);
    k := HasClaimed(cap, sched[..i], sched[i].0);
  }

  // ---------------------------------------------------------------- left alone

  /** How many more steps a call takes if nobody else moves. */
  function LeftAlone(m: Memory, pc: PC): nat
    requires Shaped(m)
  {
    match pc
    case Idle => 0
    case PushHead(_) => 5
    case PushSequence(_, at) =>
      if SlotOf(m, at).sequence < at then 1
      else if SlotOf(m, at).sequence > at then 6
      else if at == m.head then 4
      else 7
    case PushCas(_, at) => if at == m.head then 3 else 6
    case PushStore(_, _) => 2
    case PushPublish(_, _) => 1
    case PopTail => 5
    case PopSequence(at) =>
      if SlotOf(m, at).sequence < at + 1 then 1
      else if SlotOf(m, at).sequence > at + 1 then 6
      else if at == m.tail then 4
      else 7
    case PopCas(at) => if at == m.tail then 3 else 6
    case PopLoad(_) => 2
    case PopPublish(_, _) => 1
    case CountHead => 2
    case CountTail(_) => 1
  }

  /** Just loaded, head and tail have not been overtaken. */
  lemma FreshLook(m: Memory, h: History)
    requires MemoryInv(m, h)
    ensures SlotOf(m, m.head).sequence <= m.head && SlotOf(m, m.tail).sequence <= m.tail + 1
  {
    hide Index;
    if m.head == m.tail + m.cap {
      SameIndex(m.cap, m.head);
      assert SlotOf(m, m.head) == SlotOf(m, m.tail);
    }
    assert SlotOf(m, m.tail).sequence <= m.tail + 1;
  }

  lemma StepAlone(s: Ring, h: History, t: Tid)
    requires Inv(s, h) && PcOf(s, t) != Idle
    ensures LeftAlone(Step(s, t, Go).0.mem, PcOf(Step(s, t, Go).0, t)) < LeftAlone(s.mem, PcOf(s, t))
  {
    hide Index;
    FreshLook(s.mem, h);
  }

  lemma {:induction false} RunAlone(s: Ring, h: History, t: Tid, n: nat) returns (h': History)
    requires Inv(s, h)
    ensures var s' := RingBuffer.Alone(s, t, n);
      && Inv(s', h')
      && (PcOf(s', t) == Idle || LeftAlone(s'.mem, PcOf(s', t)) + n <= LeftAlone(s.mem, PcOf(s, t)))
  {
    if n == 0 {
      h' := h;
    } else {
      hide Step, LeftAlone, Inv;
      h' := RunAlone(s, h, t, n - 1);
      var before := RingBuffer.Alone(s, t, n - 1);
      if PcOf(before, t) == Idle {
        IdleStays(before, t);
      } else {
        StepAlone(before, h', t);
      }
      StepInv(before, h', t, Go);
      h' := Record(h', Step(before, t, Go).1);
    }
  }

  lemma IdleStays(s: Ring, t: Tid)
    requires Shaped(s.mem) && PcOf(s, t) == Idle
    ensures Step(s, t, Go) == (s, Quiet)
  {
  }

  /** From whatever state others have left it in, a call comes to its end in at most seven
      steps of its thread, once nobody else moves. */
  lemma EndsAlone(cap: nat, sched: Schedule, t: Tid)
    requires Capacity(cap) && cap >= 2
    ensures PcOf(RingBuffer.Alone(Run(cap, sched).0, t, 7), t) == Idle
  {
    hide Inv;
    RunInv(cap, sched);
    var h := RunAlone(Run(cap, sched).0, HistoryOf(Run(cap, sched).1), t, 7);
  }

  // ---------------------------------------------------------------- counting

  /** A count is head, as it was at a moment of the call, less tail, as it is at the end. */
  lemma CountIsDifference(cap: nat, sched: Schedule, i: nat) returns (j: nat)
    requires Capacity(cap) && i < |sched| && Run(cap, sched).1[i].Counted?
    ensures j < i && sched[j].0 == sched[i].0
    ensures forall k :: j <= k <= i ==> PcOf(Run(cap, sched[..k]).0, sched[i].0) != Idle
    ensures var head, tail := Run(cap, sched[..j]).0.mem.head, Run(cap, sched[..i]).0.mem.tail;
            Run(cap, sched).1[i].n == if head >= tail then head - tail else 0
  {
    hide Run;
    RunEvent(cap, sched, i);
    j := HeadLoaded(cap, sched[..i], sched[i].0);
    forall k | j <= k <= i
      ensures PcOf(Run(cap, sched[..k]).0, sched[i].0) != Idle
    {
      assert sched[..i][..k] == sched[..k];
    }
    assert sched[..i][..j] == sched[..j];
    CountedThere(Run(cap, sched[..i]).0, sched[i].0, sched[i].1);
  }

  lemma CountedThere(s: Ring, t: Tid, mv: Move)
    requires Shaped(s.mem) && Step(s, t, mv).1.Counted?
    ensures PcOf(s, t).CountTail?
    ensures Step(s, t, mv).1.n == if PcOf(s, t).head >= s.mem.tail then PcOf(s, t).head - s.mem.tail else 0
  {
    hide Index;
  }

  lemma {:induction false} HeadLoaded(cap: nat, sched: Schedule, t: Tid) returns (j: nat)
    requires Capacity(cap) && PcOf(Run(cap, sched).0, t).CountTail?
    ensures j < |sched| && sched[j].0 == t
    ensures Run(cap, sched[..j]).0.mem.head == PcOf(Run(cap, sched).0, t).head
    ensures forall k :: j <= k <= |sched| ==> PcOf(Run(cap, sched[..k]).0, t) != Idle
    decreases |sched|
  {
    assert PcOf(Init(cap), t) == Idle;
    var n := |sched| - 1;
    var s := Run(cap, sched[..n]).0;
    assert sched[..|sched|] == sched;
    LoadedBy(s, sched[n].0, sched[n].1, t);
    hide Run;
    if PcOf(s, t).CountTail? {
      j := HeadLoaded(cap, sched[..n], t);
      forall k | j <= k <= |sched|
        ensures PcOf(Run(cap, sched[..k]).0, t) != Idle
      {
        assert k <= n ==> sched[..n][..k] == sched[..k];
      }
      assert sched[..n][..j] == sched[..j];
    } else {
      j := n;
    }
  }

  lemma LoadedBy(s: Ring, u: Tid, mv: Move, t: Tid)
    requires Shaped(s.mem) && PcOf(Step(s, u, mv).0, t).CountTail?
    ensures PcOf(s, t) == PcOf(Step(s, u, mv).0, t)
            || (u == t && PcOf(s, t) == CountHead && PcOf(Step(s, u, mv).0, t).head == s.mem.head)
  {
    hide Index;
  }
}
