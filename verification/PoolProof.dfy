/** What every move of the thread pool keeps. */
module PoolProof {
  import opened PoolMachine

  // ---------------------------------------------------------------- stories

  /** The events of each accepted task, in order. */
  function Record(h: seq<seq<Event>>, e: Event): seq<seq<Event>> {
    match e
    case Accepted(_) => h + [[e]]
    case Dequeued(k) => if k < |h| then h[k := h[k] + [e]] else h
    case Begun(k) => if k < |h| then h[k := h[k] + [e]] else h
    case BodyRun(k) => if k < |h| then h[k := h[k] + [e]] else h
    case Ended(k, _) => if k < |h| then h[k := h[k] + [e]] else h
    case CalledBack(k, _) => if k < |h| then h[k := h[k] + [e]] else h
    case Freed(k) => if k < |h| then h[k := h[k] + [e]] else h
    case Dropped(k) => if k < |h| then h[k := h[k] + [e]] else h
    case _ => h
  }

  function StoriesOf(es: seq<Event>): seq<seq<Event>> {
    if es == [] then [] else Record(StoriesOf(es[..|es| - 1]), es[|es| - 1])
  }

  /** The whole life of task `k`: its body runs once, and its callback, if it has one,
      once, after the body, with the state COMPLETED. */
  function Story(k: nat, callback: bool): seq<Event> {
    [Accepted(k), Dequeued(k), Begun(k), BodyRun(k), Ended(k, Completed)]
    + (if callback then [CalledBack(k, Completed)] else []) + [Freed(k)]
  }

  /** How much of the story is over while a worker holds the task. */
  function Chapter(w: Worker, callback: bool): nat {
    match w
    case Got(_) => 2
    case InBody(_) => 3
    case AfterBody(_) => 4
    case InCallback(_) => 5
    case _ => if callback then 6 else 5
  }

  function StateWhile(w: Worker): TaskState {
    match w
    case Got(_) => Pending
    case InBody(_) => Started
    case AfterBody(_) => Started
    case _ => Completed
  }

  // ---------------------------------------------------------------- invariants

  predicate Busy(w: Worker) {
    Holding(w) || w == Finishing
  }

  predicate Awake(w: Worker) {
    w != Waiting && w != Exited
  }

  function BusyCount(ws: seq<Worker>): nat {
    if ws == [] then 0 else (if Busy(ws[0]) then 1 else 0) + BusyCount(ws[1..])
  }

  ghost predicate CountersInv(s: Pool) {
    && |s.workers| >= 1
    && s.sh.queueSize == |s.sh.queue|
    && (s.sh.maxQueue > 0 ==> |s.sh.queue| <= s.sh.maxQueue)
    && s.sh.active == BusyCount(s.workers)
  }

  ghost predicate LifeInv(s: Pool) {
    && (s.freer == NotCalled <==> s.sh.status == Running)
    && (s.sh.status == Running ==> Exited !in s.workers)
    && (s.sh.status != Running ==> Waiting !in s.workers)
    && (Exited in s.workers ==> s.sh.queue == [])
    && (s.freer.Joined? || s.freer.Cleaning? || s.freer.Done? ==>
          forall i :: 0 <= i < |s.workers| ==> s.workers[i] == Exited)
  }

  /** No wakeup is lost: queued work has a worker that is not asleep, and a blocked
      waiter has unfinished work to wait for. */
  ghost predicate WakeInv(s: Pool) {
    && (s.sh.queue != [] ==> exists i :: 0 <= i < |s.workers| && Awake(s.workers[i]))
    && (forall c :: WaiterOf(s.waiters, c) == Blocked ==> !Idle(s.sh))
  }

  ghost predicate TaskDone(ts: seq<Task>, h: seq<seq<Event>>, k: nat)
    requires k < |ts| == |h|
  {
    h[k] == Story(k, ts[k].callback) && ts[k].state == Completed
  }

  ghost predicate HasHolder(ws: seq<Worker>, k: nat) {
    exists i :: 0 <= i < |ws| && Holding(ws[i]) && ws[i].k == k
  }

  /** What is true of the task in a worker's hands, `left` being the number of tasks
      that have left the queue. */
  ghost predicate HeldRight(ts: seq<Task>, h: seq<seq<Event>>, left: nat, w: Worker)
    requires left <= |ts| == |h|
  {
    Holding(w) ==>
      && w.k < left
      && ts[w.k].state == StateWhile(w)
      && (w.InCallback? ==> ts[w.k].callback)
      && h[w.k] == Story(w.k, ts[w.k].callback)[..Chapter(w, ts[w.k].callback)]
  }

  ghost predicate HandsInv(ts: seq<Task>, h: seq<seq<Event>>, left: nat, ws: seq<Worker>)
    requires left <= |ts| == |h|
  {
    && (forall i :: 0 <= i < |ws| ==> HeldRight(ts, h, left, ws[i]))
    && (forall i, j :: 0 <= i < j < |ws| && Holding(ws[i]) && Holding(ws[j]) ==> ws[i].k != ws[j].k)
    && (forall k: nat :: k < left ==> TaskDone(ts, h, k) || HasHolder(ws, k))
  }

  /** The queue is the newest tasks, untouched, in the order of acceptance; every older
      task is in one worker's hands or has its whole story behind it. */
  ghost predicate TasksInv(s: Pool, h: seq<seq<Event>>) {
    && |h| == |s.tasks|
    && |s.sh.queue| <= |s.tasks|
    && (forall i :: 0 <= i < |s.sh.queue| ==> s.sh.queue[i] == Left(s) + i)
    && (forall k: nat :: Left(s) <= k < |s.tasks| ==> s.tasks[k].state == Pending && h[k] == [Accepted(k)])
    && HandsInv(s.tasks, h, Left(s), s.workers)
  }

  /** How many tasks have left the queue. */
  function Left(s: Pool): int {
    |s.tasks| - |s.sh.queue|
  }

  ghost predicate Inv(s: Pool, h: seq<seq<Event>>) {
    Shaped(s) && CountersInv(s) && LifeInv(s) && WakeInv(s) && TasksInv(s, h)
  }

  // ---------------------------------------------------------------- counting

  lemma {:induction false} BusyUpdate(ws: seq<Worker>, i: nat, w: Worker)
    requires i < |ws|
    ensures BusyCount(ws[i := w]) ==
            BusyCount(ws) - (if Busy(ws[i]) then 1 else 0) + (if Busy(w) then 1 else 0)
  {
    if i == 0 {
      assert ws[0 := w][1..] == ws[1..];
    } else {
      BusyUpdate(ws[1..], i - 1, w);
      assert ws[i := w][1..] == ws[1..][i - 1 := w];
    }
  }

  lemma {:induction false} BusySame(ws: seq<Worker>, ws': seq<Worker>)
    requires |ws| == |ws'| && forall i :: 0 <= i < |ws| ==> Busy(ws[i]) == Busy(ws'[i])
    ensures BusyCount(ws) == BusyCount(ws')
  {
    if ws != [] {
      BusySame(ws[1..], ws'[1..]);
    }
  }

  lemma {:induction false} BusyNone(ws: seq<Worker>)
    ensures BusyCount(ws) == 0 <==> forall i :: 0 <= i < |ws| ==> !Busy(ws[i])
  {
    if ws != [] {
      BusyNone(ws[1..]);
      if i :| 0 <= i < |ws| && Busy(ws[i]) {
        assert i > 0 ==> ws[1..][i - 1] == ws[i];
      } else {
        assert forall i :: 0 <= i < |ws| - 1 ==> ws[1..][i] == ws[i + 1];
      }
    }
  }

  // ---------------------------------------------------------------- moves

  lemma InitInv(workers: nat, maxQueue: nat)
    requires workers >= 1
    ensures Inv(Init(workers, maxQueue), [])
  {
    BusyNone(Init(workers, maxQueue).workers);
  }

  /** Some waiting workers have been woken and nothing else has changed. */
  predicate Rewoken(ws: seq<Worker>, ws': seq<Worker>) {
    |ws'| == |ws| &&
    forall i :: 0 <= i < |ws| ==> ws'[i] == ws[i] || (ws[i] == Waiting && ws'[i] == Wanting)
  }

  lemma RewokenInv(s: Pool, h: seq<seq<Event>>, ws: seq<Worker>)
    requires Inv(s, h) && Rewoken(s.workers, ws)
    ensures Inv(s.(workers := ws), h)
  {
    hide HandsInv, BusyCount;
    BusySame(s.workers, ws);
    if s.sh.queue != [] {
      var i :| 0 <= i < |s.workers| && Awake(s.workers[i]);
      assert Awake(ws[i]);
    }
    RewokenExited(s.workers, ws);
    RewokenHands(s.tasks, h, Left(s), s.workers, ws);
  }

  lemma RewokenExited(ws: seq<Worker>, ws': seq<Worker>)
    requires Rewoken(ws, ws')
    ensures Exited in ws' ==> Exited in ws
    ensures Waiting in ws' ==> Waiting in ws
  {
    if Exited in ws' {
      var i :| 0 <= i < |ws'| && ws'[i] == Exited;
      assert ws[i] == Exited;
    }
    if Waiting in ws' {
      var i :| 0 <= i < |ws'| && ws'[i] == Waiting;
      assert ws[i] == Waiting;
    }
  }

  lemma RewokenHands(ts: seq<Task>, h: seq<seq<Event>>, left: nat, ws: seq<Worker>, ws': seq<Worker>)
    requires left <= |ts| == |h| && HandsInv(ts, h, left, ws) && Rewoken(ws, ws')
    ensures HandsInv(ts, h, left, ws')
  {
    forall k: nat | k < left
      ensures TaskDone(ts, h, k) || HasHolder(ws', k)
    {
      if i :| 0 <= i < |ws| && Holding(ws[i]) && ws[i].k == k {
        assert ws'[i] == ws[i];
      }
    }
  }

  lemma SignalRewakes(ws: seq<Worker>, hint: nat)
    requires Exited !in ws && |ws| >= 1
    ensures var ws' := SignalWorkers(ws, hint);
            Rewoken(ws, ws') && exists i :: 0 <= i < |ws'| && Awake(ws'[i])
  {
    var ws' := SignalWorkers(ws, hint);
    var t := if hint < |ws| && ws[hint] == Waiting then hint else FirstWaiting(ws);
    if t < |ws| {
      assert Awake(ws'[t]);
    } else {
      assert Awake(ws'[0]);
    }
  }

  /** A new task at the end of the queue is in nobody's hands. */
  lemma EnqueueHands(ts: seq<Task>, h: seq<seq<Event>>, left: nat, ws: seq<Worker>, task: Task, story: seq<Event>)
    requires left <= |ts| == |h| && HandsInv(ts, h, left, ws)
    ensures HandsInv(ts + [task], h + [story], left, ws)
  {
    forall i | 0 <= i < |ws|
      ensures HeldRight(ts + [task], h + [story], left, ws[i])
    {
      assert HeldRight(ts, h, left, ws[i]);
    }
    forall k: nat | k < left
      ensures TaskDone(ts + [task], h + [story], k) || HasHolder(ws, k)
    {
      assert TaskDone(ts, h, k) || HasHolder(ws, k);
    }
  }

  lemma EnqueueInv(s: Pool, h: seq<seq<Event>>, cb: bool, hint: nat)
    requires Inv(s, h)
    ensures Inv(Step(s, Enqueue(cb, hint)).0, Record(h, Step(s, Enqueue(cb, hint)).1))
  {
    hide HandsInv, SignalWorkers, BusyCount, HeldRight;
    if Accepts(s.sh) {
      var task, story := Task(Pending, cb), [Accepted(|s.tasks|)];
      var ws := SignalWorkers(s.workers, hint);
      SignalRewakes(s.workers, hint);
      RewokenExited(s.workers, ws);
      BusySame(s.workers, ws);
      EnqueueHands(s.tasks, h, Left(s), s.workers, task, story);
      RewokenHands(s.tasks + [task], h + [story], Left(s), s.workers, ws);
    }
  }

  /** A worker changes its place outside the tasks: it holds none before or after. */
  lemma FreeHands(ts: seq<Task>, h: seq<seq<Event>>, left: nat, ws: seq<Worker>, w: nat, pc: Worker)
    requires left <= |ts| == |h| && HandsInv(ts, h, left, ws)
    requires w < |ws| && !Holding(ws[w]) && !Holding(pc)
    ensures HandsInv(ts, h, left, ws[w := pc])
  {
    forall k: nat | k < left
      ensures TaskDone(ts, h, k) || HasHolder(ws[w := pc], k)
    {
      if i :| 0 <= i < |ws| && Holding(ws[i]) && ws[i].k == k {
        assert ws[w := pc][i] == ws[i];
      }
    }
  }

  /** A worker takes the oldest queued task. */
  lemma TakeHands(ts: seq<Task>, h: seq<seq<Event>>, k: nat, ws: seq<Worker>, w: nat)
    requires k < |ts| == |h| && HandsInv(ts, h, k, ws)
    requires w < |ws| && !Holding(ws[w])
    requires ts[k].state == Pending && h[k] == [Accepted(k)]
    ensures HandsInv(ts, Record(h, Dequeued(k)), k + 1, ws[w := Got(k)])
  {
    var h' := Record(h, Dequeued(k));
    var ws' := ws[w := Got(k)];
    assert h'[k] == Story(k, ts[k].callback)[..2];
    forall i | 0 <= i < |ws'|
      ensures HeldRight(ts, h', k + 1, ws'[i])
    {
      assert HeldRight(ts, h, k, ws[i]);
    }
    forall j: nat | j < k + 1
      ensures TaskDone(ts, h', j) || HasHolder(ws', j)
    {
      if j == k {
        assert ws'[w].k == k;
      } else if i :| 0 <= i < |ws| && Holding(ws[i]) && ws[i].k == j {
        assert ws'[i] == ws[i];
      } else {
        assert TaskDone(ts, h, j);
      }
    }
  }

  /** A worker takes its task one chapter further. */
  lemma ChapterHands(ts: seq<Task>, h: seq<seq<Event>>, left: nat, ws: seq<Worker>, w: nat,
                     pc: Worker, st: TaskState, e: Event)
    requires left <= |ts| == |h| && HandsInv(ts, h, left, ws)
    requires w < |ws| && Holding(ws[w]) && ws[w].k < |ts|
    requires var k := ws[w].k; var cb := ts[k].callback; var c := Chapter(ws[w], cb);
      && c < |Story(k, cb)| && e == Story(k, cb)[c]
      && Record(h, e) == h[k := h[k] + [e]]
      && (Holding(pc) ==> pc.k == k && st == StateWhile(pc) && Chapter(pc, cb) == c + 1 && (pc.InCallback? ==> cb))
      && (!Holding(pc) ==> c + 1 == |Story(k, cb)| && st == Completed)
    ensures var k := ws[w].k;
            HandsInv(ts[k := ts[k].(state := st)], Record(h, e), left, ws[w := pc])
  {
    var k := ws[w].k;
    var cb := ts[k].callback;
    var c := Chapter(ws[w], cb);
    var ts' := ts[k := ts[k].(state := st)];
    var h' := Record(h, e);
    var ws' := ws[w := pc];
    assert HeldRight(ts, h, left, ws[w]);
    assert h'[k] == Story(k, cb)[..c + 1];
    assert Story(k, cb)[..|Story(k, cb)|] == Story(k, cb);
    forall i | 0 <= i < |ws'|
      ensures HeldRight(ts', h', left, ws'[i])
    {
      assert HeldRight(ts, h, left, ws[i]);
    }
    forall j: nat | j < left
      ensures TaskDone(ts', h', j) || HasHolder(ws', j)
    {
      if j == k {
        assert Holding(pc) ==> ws'[w].k == k;
      } else if i :| 0 <= i < |ws| && Holding(ws[i]) && ws[i].k == j {
        assert ws'[i] == ws[i];
      } else {
        assert TaskDone(ts, h, j);
      }
    }
  }

  lemma EnterInv(s: Pool, h: seq<seq<Event>>, w: nat)
    requires Inv(s, h) && w < |s.workers| && s.workers[w] == Wanting
    ensures Inv(WorkerMove(s, w).0, Record(h, WorkerMove(s, w).1))
  {
    hide HandsInv, BusyCount;
    var (s', e) := WorkerMove(s, w);
    BusyUpdate(s.workers, w, s'.workers[w]);
    assert s.workers[w] != Exited;
    if s.sh.queue == [] {
      FreeHands(s.tasks, h, Left(s), s.workers, w, s'.workers[w]);
    } else {
      TakeHands(s.tasks, h, Left(s), s.workers, w);
      assert Awake(s'.workers[w]);
      assert e == Dequeued(Left(s));
      BusyPositive(s'.workers, w);
    }
  }

  lemma BusyPositive(ws: seq<Worker>, w: nat)
    requires w < |ws| && Busy(ws[w])
    ensures BusyCount(ws) > 0
  {
    BusyNone(ws);
  }

  lemma HeldFact(ts: seq<Task>, h: seq<seq<Event>>, left: nat, ws: seq<Worker>, w: nat)
    requires left <= |ts| == |h| && HandsInv(ts, h, left, ws) && w < |ws|
    ensures HeldRight(ts, h, left, ws[w])
  {
  }

  lemma TaskMoveInv(s: Pool, h: seq<seq<Event>>, w: nat)
    requires Inv(s, h) && w < |s.workers| && Holding(s.workers[w])
    ensures Inv(WorkerMove(s, w).0, Record(h, WorkerMove(s, w).1))
  {
    hide HandsInv, BusyCount;
    var (s', e) := WorkerMove(s, w);
    var k := s.workers[w].k;
    HeldFact(s.tasks, h, Left(s), s.workers, w);
    BusyUpdate(s.workers, w, s'.workers[w]);
    ChapterHands(s.tasks, h, Left(s), s.workers, w, s'.workers[w], s'.tasks[k].state, e);
    assert s'.tasks == s.tasks[k := s.tasks[k].(state := s'.tasks[k].state)];
    assert Awake(s'.workers[w]);
  }

  lemma FinishInv(s: Pool, h: seq<seq<Event>>, w: nat)
    requires Inv(s, h) && w < |s.workers| && s.workers[w] == Finishing
    ensures Inv(WorkerMove(s, w).0, Record(h, WorkerMove(s, w).1))
  {
    hide HandsInv, BusyCount;
    var (s', e) := WorkerMove(s, w);
    BusyUpdate(s.workers, w, Wanting);
    FreeHands(s.tasks, h, Left(s), s.workers, w, Wanting);
    assert Awake(s'.workers[w]);
    forall c | WaiterOf(s'.waiters, c) == Blocked
      ensures !PoolMachine.Idle(s'.sh)
    {
      assert WaiterOf(s.waiters, c) == Blocked;
    }
  }

  lemma WaiterInv(s: Pool, h: seq<seq<Event>>, c: nat, to: Waiter)
    requires Inv(s, h) && (to == Blocked ==> !PoolMachine.Idle(s.sh))
    ensures Inv(s.(waiters := s.waiters[c := to]), h)
  {
    hide HandsInv, BusyCount;
    var cs := s.waiters[c := to];
    forall d | WaiterOf(cs, d) == Blocked
      ensures !PoolMachine.Idle(s.sh)
    {
      if d != c {
        assert WaiterOf(s.waiters, d) == Blocked;
      }
    }
  }

  lemma CallFreeInv(s: Pool, h: seq<seq<Event>>)
    requires Inv(s, h)
    ensures Inv(Step(s, CallFree).0, h)
  {
    hide HandsInv, BusyCount;
    var ws := BroadcastWorkers(s.workers);
    RewokenInv(s, h, ws);
    forall i | 0 <= i < |ws|
      ensures ws[i] != Waiting
    {
    }
  }

  lemma FreeStepInv(s: Pool, h: seq<seq<Event>>)
    requires Inv(s, h)
    ensures Inv(Step(s, FreeStep).0, h) && Step(s, FreeStep).1 == Quiet
  {
    hide HandsInv, BusyCount;
    if s.freer.Cleaning? {
      assert s.workers[0] == Exited;
    }
  }

  /** Every move keeps the invariant. */
  lemma StepInv(s: Pool, h: seq<seq<Event>>, m: Move)
    requires Inv(s, h)
    ensures Inv(Step(s, m).0, Record(h, Step(s, m).1))
  {
    hide HandsInv, LifeInv, CountersInv, WakeInv, TasksInv;
    match m
    case Enqueue(cb, hint) => EnqueueInv(s, h, cb, hint);
    case Work(w) =>
      if w < |s.workers| {
        if Holding(s.workers[w]) {
          TaskMoveInv(s, h, w);
        } else if s.workers[w] == Wanting {
          EnterInv(s, h, w);
        } else if s.workers[w] == Finishing {
          FinishInv(s, h, w);
        }
      }
    case WakeWorker(w) =>
      if w < |s.workers| && s.workers[w] == Waiting {
        RewokenInv(s, h, s.workers[w := Wanting]);
      }
    case CallWait(c) => WaiterInv(s, h, c, Checking);
    case WaitTest(c) =>
      WaiterInv(s, h, c, Away);
      if !PoolMachine.Idle(s.sh) {
        WaiterInv(s, h, c, Blocked);
      }
    case WakeWaiter(c) => WaiterInv(s, h, c, Checking);
    case CallFree => CallFreeInv(s, h);
    case FreeStep => FreeStepInv(s, h);
  }
}
