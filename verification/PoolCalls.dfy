/** When the calls of the thread pool accept, refuse, sleep and return, told by the events
of the run and by what the workers are at. */
module PoolCalls {
  import opened PoolMachine
  import opened PoolProof
  import opened PoolRuns

  function AcceptedCount(es: seq<Event>): nat {
    if es == [] then 0 else AcceptedCount(es[..|es| - 1]) + if es[|es| - 1].Accepted? then 1 else 0
  }

  function DequeuedCount(es: seq<Event>): nat {
    if es == [] then 0 else DequeuedCount(es[..|es| - 1]) + if es[|es| - 1].Dequeued? then 1 else 0
  }

  /** What a move does to the numbers of tasks accepted and taken, and to the limit. */
  lemma StepCounts(s: Pool, h: seq<seq<Event>>, m: Move)
    requires Inv(s, h)
    ensures var (s', e) := Step(s, m);
      && |s'.tasks| == |s.tasks| + (if e.Accepted? then 1 else 0)
      && Left(s') == Left(s) + (if e.Dequeued? then 1 else 0)
      && s'.sh.maxQueue == s.sh.maxQueue
      && (s'.freer == NotCalled <==> s.freer == NotCalled && m != CallFree)
  {
    NeverDropped(s, h, m);
  }

  lemma {:induction false} RunCounts(workers: nat, maxQueue: nat, moves: seq<Move>)
    requires workers >= 1
    ensures var (s, es) := Run(workers, maxQueue, moves);
      && |s.tasks| == AcceptedCount(es) && Left(s) == DequeuedCount(es)
      && s.sh.maxQueue == maxQueue
      && (s.freer == NotCalled <==> CallFree !in moves)
  {
    if moves != [] {
      hide Step, Inv;
      var n := |moves| - 1;
      RunCounts(workers, maxQueue, moves[..n]);
      RunInv(workers, maxQueue, moves[..n]);
      var (s, es) := Run(workers, maxQueue, moves[..n]);
      StepCounts(s, StoriesOf(es), moves[n]);
      assert (es + [Step(s, moves[n]).1])[..n] == es;
      assert moves == moves[..n] + [moves[n]];
    }
  }

  /** Tasks accepted and not yet taken by a worker. */
  function Queued(es: seq<Event>): int {
    AcceptedCount(es) - DequeuedCount(es)
  }

  lemma QueueLength(workers: nat, maxQueue: nat, moves: seq<Move>)
    requires workers >= 1
    ensures var (s, es) := Run(workers, maxQueue, moves);
      && |s.sh.queue| == s.sh.queueSize == Queued(es)
      && (s.sh.status == Running <==> CallFree !in moves)
      && s.sh.maxQueue == maxQueue
      && s.sh.active == BusyCount(s.workers)
  {
    RunCounts(workers, maxQueue, moves);
    RunInv(workers, maxQueue, moves);
  }

  /** A task is refused exactly once the pool is being freed, and while as many tasks as a
      non-zero limit allows are queued; otherwise it is the next in the order of acceptance. */
  lemma EnqueueRefusedIff(workers: nat, maxQueue: nat, moves: seq<Move>, cb: bool, hint: nat)
    requires workers >= 1
    ensures var (s, es) := Run(workers, maxQueue, moves);
      var e := Step(s, Enqueue(cb, hint)).1;
      && (e == Refused <==> CallFree in moves || (maxQueue > 0 && Queued(es) >= maxQueue))
      && (e != Refused ==> e == Accepted(AcceptedCount(es)))
  {
    hide Run, Inv, SignalWorkers;
    QueueLength(workers, maxQueue, moves);
    RunCounts(workers, maxQueue, moves);
  }

  /** An accepted task wakes one sleeping worker, if there is one, and touches no other. */
  lemma EnqueueWakesOne(s: Pool, cb: bool, hint: nat)
    requires Shaped(s) && Step(s, Enqueue(cb, hint)).1.Accepted?
    ensures var ws := Step(s, Enqueue(cb, hint)).0.workers;
      if Waiting in s.workers
      then exists i :: 0 <= i < |s.workers| && s.workers[i] == Waiting && ws == s.workers[i := Wanting]
      else ws == s.workers
  {
  }

  /** A worker that looks for work takes the oldest queued task; without one it goes to
      sleep, or leaves for good once the pool is being freed. */
  lemma WorkerLooks(workers: nat, maxQueue: nat, moves: seq<Move>, w: nat)
    requires workers >= 1 && w < workers && Run(workers, maxQueue, moves).0.workers[w] == Wanting
    ensures var (s, es) := Run(workers, maxQueue, moves);
      var (s', e) := Step(s, Move.Work(w));
      if Queued(es) > 0 then e == Dequeued(DequeuedCount(es)) && s'.workers[w] == Got(DequeuedCount(es))
      else e == Quiet && s'.workers[w] == if CallFree in moves then Exited else Waiting
  {
    hide Run, HandsInv, WakeInv, BusyCount;
    QueueLength(workers, maxQueue, moves);
    RunCounts(workers, maxQueue, moves);
    RunInv(workers, maxQueue, moves);
  }

  /** A wait that is called returns at its first look exactly if no task is queued and no
      worker has one in its hands or has yet to report it done; otherwise it goes to sleep. */
  lemma WaitReturnsIff(workers: nat, maxQueue: nat, moves: seq<Move>, c: nat)
    requires workers >= 1 && WaiterOf(Run(workers, maxQueue, moves).0.waiters, c) in {Away, Checking}
    ensures var (s, es) := Run(workers, maxQueue, moves);
      var (s', e) := Step(Step(s, CallWait(c)).0, WaitTest(c));
      if Queued(es) == 0 && forall w :: 0 <= w < workers ==> !Busy(s.workers[w])
      then e == WaitReturned(c) && WaiterOf(s'.waiters, c) == Away
      else e == Quiet && WaiterOf(s'.waiters, c) == Blocked
  {
    hide Run, Inv, BusyCount;
    QueueLength(workers, maxQueue, moves);
    BusyNone(Run(workers, maxQueue, moves).0.workers);
  }

  /** Freeing a pool whose workers have all left comes to its end in three steps. */
  lemma FreeEnds(workers: nat, maxQueue: nat, moves: seq<Move>)
    requires workers >= 1 && Run(workers, maxQueue, moves).0.freer == Joining
    requires forall w :: 0 <= w < workers ==> Run(workers, maxQueue, moves).0.workers[w] == Exited
    ensures var s1 := Step(Run(workers, maxQueue, moves).0, FreeStep).0;
      && Shaped(s1) && s1.sh.status == ShuttingDown
      && var s2 := Step(s1, FreeStep).0;
      && Shaped(s2) && s2.sh.status == Terminated
      && var s3 := Step(s2, FreeStep).0;
      && s3.freer == Done && s3.sh.status == Terminated
  {
    hide Run, HandsInv, BusyCount;
    RunInv(workers, maxQueue, moves);
    StatusIs(workers, maxQueue, moves);
    var s := Run(workers, maxQueue, moves).0;
    assert s.workers[0] == Exited;
  }

  /** The state of the pool tells how far its freeing has come. */
  lemma {:induction false} StatusIs(workers: nat, maxQueue: nat, moves: seq<Move>)
    requires workers >= 1
    ensures var s := Run(workers, maxQueue, moves).0;
      s.sh.status == match s.freer
                     case NotCalled => Running
                     case Joining => ShuttingDown
                     case Joined => ShuttingDown
                     case _ => Terminated
  {
    if moves != [] {
      var n := |moves| - 1;
      StatusIs(workers, maxQueue, moves[..n]);
      StatusStep(Run(workers, maxQueue, moves[..n]).0, moves[n]);
    }
  }

  lemma StatusStep(s: Pool, m: Move)
    requires Shaped(s)
    ensures var s' := Step(s, m).0;
      && (s'.freer == s.freer || m == CallFree || m == FreeStep)
      && (s'.freer == s.freer ==> s'.sh.status == s.sh.status)
      && (s'.freer != s.freer ==> s'.freer == match s.freer
                                             case NotCalled => Joining
                                             case Joining => Joined
                                             case Joined => Cleaning
                                             case _ => Done)
      && (s'.freer != s.freer && s'.freer == Joining ==> s'.sh.status == ShuttingDown)
      && (s'.freer != s.freer && s'.freer == Cleaning ==> s'.sh.status == Terminated)
      && (s'.freer != s.freer && s'.freer in {Joined, Done} ==> s'.sh.status == s.sh.status)
  {
  }

  /** A worker that reports its task done wakes the waiters exactly if no task is queued and
      no other worker has one in hand. */
  lemma FinishWakesIff(workers: nat, maxQueue: nat, moves: seq<Move>, w: nat, c: nat)
    requires workers >= 1 && w < workers && Run(workers, maxQueue, moves).0.workers[w] == Finishing
    requires WaiterOf(Run(workers, maxQueue, moves).0.waiters, c) == Blocked
    ensures var (s, es) := Run(workers, maxQueue, moves);
      var s' := Step(s, Move.Work(w)).0;
      && s'.workers[w] == Wanting
      && WaiterOf(s'.waiters, c) ==
         if Queued(es) == 0 && forall v :: 0 <= v < workers && v != w ==> !Busy(s.workers[v]) then Checking else Blocked
  {
    hide Run, Inv, BusyCount;
    QueueLength(workers, maxQueue, moves);
    var s := Run(workers, maxQueue, moves).0;
    BusyUpdate(s.workers, w, Wanting);
    var ws := s.workers[w := Wanting];
    BusyNone(ws);
    if forall v :: 0 <= v < workers && v != w ==> !Busy(s.workers[v]) {
      assert forall v :: 0 <= v < workers ==> !Busy(ws[v]);
    } else {
      var v :| 0 <= v < workers && v != w && Busy(s.workers[v]);
      assert Busy(ws[v]);
    }
  }
}
