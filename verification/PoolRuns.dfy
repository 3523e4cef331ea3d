/** What the thread pool promises over whole runs, in every interleaving. */
module PoolRuns {
  import opened PoolMachine
  import opened PoolProof

  lemma {:induction false} RunInv(workers: nat, maxQueue: nat, moves: seq<Move>)
    requires workers >= 1
    ensures Inv(Run(workers, maxQueue, moves).0, StoriesOf(Run(workers, maxQueue, moves).1))
  {
    if moves == [] {
      InitInv(workers, maxQueue);
    } else {
      var n := |moves| - 1;
      RunInv(workers, maxQueue, moves[..n]);
      var (s, es) := Run(workers, maxQueue, moves[..n]);
      StepInv(s, StoriesOf(es), moves[n]);
      assert (es + [Step(s, moves[n]).1])[..n] == es;
    }
  }

  lemma {:induction false} RunPrefix(workers: nat, maxQueue: nat, moves: seq<Move>, i: nat)
    requires i <= |moves|
    ensures Run(workers, maxQueue, moves[..i]).1 == Run(workers, maxQueue, moves).1[..i]
    ensures i < |moves| ==> Run(workers, maxQueue, moves).1[i] == Step(Run(workers, maxQueue, moves[..i]).0, moves[i]).1
    decreases |moves|
  {
    if i < |moves| {
      var before := moves[..|moves| - 1];
      if i < |before| {
        RunPrefix(workers, maxQueue, before, i);
        assert before[..i] == moves[..i];
      }
    } else {
      assert moves[..i] == moves;
    }
  }

  // ---------------------------------------------------------------- every task runs once

  predicate IsAbout(e: Event, k: nat) {
    match e
    case Accepted(j) => j == k
    case Dequeued(j) => j == k
    case Begun(j) => j == k
    case BodyRun(j) => j == k
    case Ended(j, _) => j == k
    case CalledBack(j, _) => j == k
    case Freed(j) => j == k
    case Dropped(j) => j == k
    case _ => false
  }

  /** The events of a run that concern task `k`. */
  function About(es: seq<Event>, k: nat): seq<Event> {
    if es == [] then []
    else About(es[..|es| - 1], k) + (if IsAbout(es[|es| - 1], k) then [es[|es| - 1]] else [])
  }

  /** Only accepted tasks have events, and an acceptance opens the next story. */
  ghost predicate Expected(h: seq<seq<Event>>, e: Event) {
    forall k: nat :: IsAbout(e, k) ==> if e.Accepted? then k == |h| else k < |h|
  }

  lemma StepExpected(s: Pool, h: seq<seq<Event>>, m: Move)
    requires Inv(s, h)
    ensures Expected(h, Step(s, m).1)
  {
    if m == FreeStep {
      FreeStepInv(s, h);
    }
  }

  function StoryIn(h: seq<seq<Event>>, k: nat): seq<Event> {
    if k < |h| then h[k] else []
  }

  lemma RecordAbout(h: seq<seq<Event>>, e: Event, k: nat)
    requires Expected(h, e)
    ensures StoryIn(Record(h, e), k) == StoryIn(h, k) + if IsAbout(e, k) then [e] else []
  {
    if e.Accepted? {
      assert IsAbout(e, e.k);
    }
  }

  lemma {:induction false} StoriesAreEvents(workers: nat, maxQueue: nat, moves: seq<Move>, k: nat)
    requires workers >= 1
    ensures About(Run(workers, maxQueue, moves).1, k) == StoryIn(StoriesOf(Run(workers, maxQueue, moves).1), k)
  {
    if moves != [] {
      var n := |moves| - 1;
      var (s, es) := Run(workers, maxQueue, moves[..n]);
      var e := Step(s, moves[n]).1;
      StoriesAreEvents(workers, maxQueue, moves[..n], k);
      RunInv(workers, maxQueue, moves[..n]);
      StepExpected(s, StoriesOf(es), moves[n]);
      RecordAbout(StoriesOf(es), e, k);
      assert (es + [e])[..n] == es;
    }
  }

  /** Whatever the interleaving, the events of an accepted task are the beginning of its
      one story: accepted, dequeued, begun, run, completed, called back, freed, each once
      and in this order; a task nobody accepted has no events. */
  lemma ExactlyOnce(workers: nat, maxQueue: nat, moves: seq<Move>, k: nat)
    requires workers >= 1
    ensures var (s, es) := Run(workers, maxQueue, moves);
            if k < |s.tasks| then About(es, k) <= Story(k, s.tasks[k].callback) && About(es, k) != []
            else About(es, k) == []
  {
    var (s, es) := Run(workers, maxQueue, moves);
    var h := StoriesOf(es);
    RunInv(workers, maxQueue, moves);
    StoriesAreEvents(workers, maxQueue, moves, k);
    if k < |s.tasks| {
      var story := Story(k, s.tasks[k].callback);
      if k >= Left(s) {
        assert h[k] == story[..1];
      } else if !TaskDone(s.tasks, h, k) {
        var i :| 0 <= i < |s.workers| && Holding(s.workers[i]) && s.workers[i].k == k;
        assert HeldRight(s.tasks, h, Left(s), s.workers[i]);
      }
    }
  }

  /** Tasks leave the queue in the order they were accepted. */
  lemma FifoOrder(workers: nat, maxQueue: nat, moves: seq<Move>, i: nat, j: nat)
    requires workers >= 1 && i < j < |moves|
    requires Run(workers, maxQueue, moves).1[i].Dequeued? && Run(workers, maxQueue, moves).1[j].Dequeued?
    ensures Run(workers, maxQueue, moves).1[i].k < Run(workers, maxQueue, moves).1[j].k
  {
    RunPrefix(workers, maxQueue, moves, j);
    RunInv(workers, maxQueue, moves[..j]);
    DequeuedHasLeft(workers, maxQueue, moves[..j], i);
  }

  lemma {:induction false} DequeuedHasLeft(workers: nat, maxQueue: nat, moves: seq<Move>, i: nat)
    requires workers >= 1 && i < |moves| && Run(workers, maxQueue, moves).1[i].Dequeued?
    ensures Run(workers, maxQueue, moves).1[i].k < Left(Run(workers, maxQueue, moves).0)
    decreases |moves|
  {
    var n := |moves| - 1;
    RunPrefix(workers, maxQueue, moves, n);
    RunInv(workers, maxQueue, moves[..n]);
    LeftGrows(Run(workers, maxQueue, moves[..n]).0, StoriesOf(Run(workers, maxQueue, moves[..n]).1), moves[n]);
    if i < n {
      DequeuedHasLeft(workers, maxQueue, moves[..n], i);
    }
  }

  lemma LeftGrows(s: Pool, h: seq<seq<Event>>, m: Move)
    requires Inv(s, h)
    ensures Left(Step(s, m).0) >= Left(s)
    ensures Step(s, m).1.Dequeued? ==> Step(s, m).1.k == Left(s) && Left(Step(s, m).0) == Left(s) + 1
  {
  }

  // ---------------------------------------------------------------- waiting and freeing

  lemma QuiescentIsDone(s: Pool, h: seq<seq<Event>>, k: nat)
    requires Inv(s, h) && PoolMachine.Idle(s.sh) && k < |s.tasks|
    ensures TaskDone(s.tasks, h, k)
  {
    BusyNone(s.workers);
    if i :| 0 <= i < |s.workers| && Holding(s.workers[i]) && s.workers[i].k == k {
      assert Busy(s.workers[i]);
    }
  }

  /** `ak_thread_pool_wait` returns only when every task accepted so far has run,
      been called back and been freed. */
  lemma WaitIsQuiescent(workers: nat, maxQueue: nat, moves: seq<Move>, c: nat, k: nat)
    requires workers >= 1
    requires Step(Run(workers, maxQueue, moves).0, WaitTest(c)).1.WaitReturned?
    requires k < |Run(workers, maxQueue, moves).0.tasks|
    ensures var (s, es) := Run(workers, maxQueue, moves);
            About(es, k) == Story(k, s.tasks[k].callback)
  {
    var (s, es) := Run(workers, maxQueue, moves);
    RunInv(workers, maxQueue, moves);
    StoriesAreEvents(workers, maxQueue, moves, k);
    QuiescentIsDone(s, StoriesOf(es), k);
  }

  /** Once the workers are joined the queue is empty and every accepted task has its
      whole story, so the clean-up loop of `ak_thread_pool_free` never finds a task. */
  lemma ShutdownDrains(workers: nat, maxQueue: nat, moves: seq<Move>)
    requires workers >= 1
    ensures var (s, es) := Run(workers, maxQueue, moves);
            && (forall i :: 0 <= i < |es| ==> !es[i].Dropped?)
            && (s.freer in {Joined, Cleaning, Done} ==>
                  s.sh.queue == [] && s.sh.active == 0
                  && forall k: nat :: k < |s.tasks| ==> About(es, k) == Story(k, s.tasks[k].callback))
  {
    var (s, es) := Run(workers, maxQueue, moves);
    RunInv(workers, maxQueue, moves);
    forall i | 0 <= i < |es|
      ensures !es[i].Dropped?
    {
      RunPrefix(workers, maxQueue, moves, i);
      RunInv(workers, maxQueue, moves[..i]);
      NeverDropped(Run(workers, maxQueue, moves[..i]).0, StoriesOf(es[..i]), moves[i]);
    }
    if s.freer in {Joined, Cleaning, Done} {
      assert s.workers[0] == Exited;
      BusyNone(s.workers);
      forall k: nat | k < |s.tasks|
        ensures About(es, k) == Story(k, s.tasks[k].callback)
      {
        QuiescentIsDone(s, StoriesOf(es), k);
        StoriesAreEvents(workers, maxQueue, moves, k);
      }
    }
  }

  lemma NeverDropped(s: Pool, h: seq<seq<Event>>, m: Move)
    requires Inv(s, h)
    ensures !Step(s, m).1.Dropped?
  {
    if m == FreeStep {
      FreeStepInv(s, h);
    }
  }

  // ---------------------------------------------------------------- progress

  /** Worker `w` is neither asleep nor gone: its next move changes something. */
  predicate CanMove(s: Pool, w: nat) {
    w < |s.workers| && Awake(s.workers[w])
  }

  ghost predicate Stuck(s: Pool) {
    forall w: nat :: !CanMove(s, w)
  }

  /** No lost wakeup and no deadlock: when no worker can move there is no work left, no
      waiter is left blocked, and a pool being freed has no worker left to join. */
  lemma StuckIsDrained(s: Pool, h: seq<seq<Event>>)
    requires Inv(s, h) && Stuck(s)
    ensures s.sh.queue == [] && s.sh.active == 0
    ensures forall c :: WaiterOf(s.waiters, c) != Blocked
    ensures s.freer == Joining ==> Step(s, FreeStep).0.freer == Joined
    ensures forall k: nat :: k < |s.tasks| ==> TaskDone(s.tasks, h, k)
  {
    if i :| 0 <= i < |s.workers| && Awake(s.workers[i]) {
      assert CanMove(s, i);
    }
    forall i | 0 <= i < |s.workers|
      ensures !Busy(s.workers[i])
    {
      assert !CanMove(s, i);
    }
    BusyNone(s.workers);
    forall k: nat | k < |s.tasks|
      ensures TaskDone(s.tasks, h, k)
    {
      QuiescentIsDone(s, h, k);
    }
    if s.freer == Joining {
      forall i | 0 <= i < |s.workers|
        ensures s.workers[i] == Exited
      {
        assert !CanMove(s, i);
      }
    }
  }

  function Weight(w: Worker): nat {
    match w
    case Got(_) => 7
    case InBody(_) => 6
    case AfterBody(_) => 5
    case InCallback(_) => 4
    case Freeing(_) => 3
    case Finishing => 2
    case Wanting => 1
    case _ => 0
  }

  function Weights(ws: seq<Worker>): nat {
    if ws == [] then 0 else Weight(ws[0]) + Weights(ws[1..])
  }

  lemma {:induction false} WeightsUpdate(ws: seq<Worker>, i: nat, w: Worker)
    requires i < |ws|
    ensures Weights(ws[i := w]) == Weights(ws) - Weight(ws[i]) + Weight(w)
  {
    if i == 0 {
      assert ws[0 := w][1..] == ws[1..];
    } else {
      WeightsUpdate(ws[1..], i - 1, w);
      assert ws[i := w][1..] == ws[1..][i - 1 := w];
    }
  }

  /** Work left: seven moves for a queued task, fewer for one under way. */
  function Work(s: Pool): nat {
    7 * |s.sh.queue| + Weights(s.workers)
  }

  lemma WorkDecreases(s: Pool, h: seq<seq<Event>>, w: nat)
    requires Inv(s, h) && CanMove(s, w)
    ensures Work(WorkerMove(s, w).0) < Work(s)
  {
    WeightsUpdate(s.workers, w, WorkerMove(s, w).0.workers[w]);
  }

  function WorkMoves(ws: seq<nat>): (moves: seq<Move>)
    ensures |moves| == |ws| && forall i :: 0 <= i < |ws| ==> moves[i] == Move.Work(ws[i])
  {
    seq(|ws|, i requires 0 <= i < |ws| => Move.Work(ws[i]))
  }

  /** After the run each worker named could move when its turn came. */
  ghost predicate AllCanMove(workers: nat, maxQueue: nat, moves: seq<Move>, ws: seq<nat>) {
    forall i :: 0 <= i < |ws| ==> CanMove(Run(workers, maxQueue, moves + WorkMoves(ws[..i])).0, ws[i])
  }

  lemma RunThen(workers: nat, maxQueue: nat, moves: seq<Move>, m: Move)
    ensures Run(workers, maxQueue, moves + [m]).0 == Step(Run(workers, maxQueue, moves).0, m).0
  {
    hide Step;
    assert (moves + [m])[..|moves|] == moves;
  }

  lemma {:induction false} WorkIsUsed(workers: nat, maxQueue: nat, moves: seq<Move>, ws: seq<nat>)
    requires workers >= 1 && AllCanMove(workers, maxQueue, moves, ws)
    ensures Work(Run(workers, maxQueue, moves + WorkMoves(ws)).0) + |ws| <= Work(Run(workers, maxQueue, moves).0)
    decreases |ws|
  {
    hide Run, Work, CanMove, Inv;
    if ws == [] {
      assert moves + WorkMoves(ws) == moves;
    } else {
      var n := |ws| - 1;
      var before := moves + WorkMoves(ws[..n]);
      assert forall i :: 0 <= i < n ==> ws[..n][..i] == ws[..i];
      WorkIsUsed(workers, maxQueue, moves, ws[..n]);
      assert moves + WorkMoves(ws) == before + [Move.Work(ws[n])];
      RunInv(workers, maxQueue, before);
      OneMoveLess(workers, maxQueue, before, ws[n]);
    }
  }

  lemma OneMoveLess(workers: nat, maxQueue: nat, moves: seq<Move>, w: nat)
    requires workers >= 1 && CanMove(Run(workers, maxQueue, moves).0, w)
    ensures Work(Run(workers, maxQueue, moves + [Move.Work(w)]).0) < Work(Run(workers, maxQueue, moves).0)
  {
    hide Run, Work, Inv, WorkerMove;
    RunInv(workers, maxQueue, moves);
    RunThen(workers, maxQueue, moves, Move.Work(w));
    WorkDecreases(Run(workers, maxQueue, moves).0, StoriesOf(Run(workers, maxQueue, moves).1), w);
  }

  /** Left to themselves the workers drain the pool: after any run they can make at most as
      many moves as there is work, in any order, and where none can move any more every
      accepted task has its whole story. */
  lemma WorkersDrain(workers: nat, maxQueue: nat, moves: seq<Move>, ws: seq<nat>)
    requires workers >= 1 && AllCanMove(workers, maxQueue, moves, ws)
    ensures |ws| <= Work(Run(workers, maxQueue, moves).0)
    ensures var (s, es) := Run(workers, maxQueue, moves + WorkMoves(ws));
      Stuck(s) ==>
        && s.sh.queue == [] && s.sh.active == 0
        && (forall c :: WaiterOf(s.waiters, c) != Blocked)
        && (forall k: nat :: k < |s.tasks| ==> About(es, k) == Story(k, s.tasks[k].callback))
  {
    hide Run, Work, Inv;
    WorkIsUsed(workers, maxQueue, moves, ws);
    var after := moves + WorkMoves(ws);
    var (s, es) := Run(workers, maxQueue, after);
    RunInv(workers, maxQueue, after);
    if Stuck(s) {
      StuckIsDrained(s, StoriesOf(es));
      forall k: nat | k < |s.tasks|
        ensures About(es, k) == Story(k, s.tasks[k].callback)
      {
        StoriesAreEvents(workers, maxQueue, after, k);
        assert |s.tasks| == |StoriesOf(es)| by { InvCounts(s, StoriesOf(es)); }
        assert TaskDone(s.tasks, StoriesOf(es), k);
      }
    }
  }

  lemma InvCounts(s: Pool, h: seq<seq<Event>>)
    requires Inv(s, h)
    ensures |s.tasks| == |h|
  {
  }
}
