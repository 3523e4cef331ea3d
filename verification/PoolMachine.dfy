/** The thread pool of kernel/threads/src/threads.c as a machine of critical sections.

One mutex guards the queue, the counters and the pool state; `work_available` wakes
workers and `work_complete` wakes callers of `ak_thread_pool_wait`.  Each move is one
critical section, or one step of `task_execute` outside the lock, by any thread, in any
order; a thread blocked on a condition may also wake for no reason.
*/
module PoolMachine {
  datatype Status = Running | ShuttingDown | Terminated

  datatype TaskState = Pending | Started | Completed | Failed

  /** A task is named by its place in the order of acceptance. */
  datatype Task = Task(state: TaskState, callback: bool)

  /** What the mutex guards. */
  datatype Shared = Shared(queue: seq<nat>, queueSize: nat, active: int, status: Status, maxQueue: nat)

  /** What a worker is about to do. */
  datatype Worker =
    | Wanting            // lock the mutex and look at the queue
    | Waiting            // blocked on work_available
    | Got(k: nat)        // PENDING -> RUNNING
    | InBody(k: nat)     // invoke the task
    | AfterBody(k: nat)  // RUNNING -> COMPLETED
    | InCallback(k: nat) // invoke the completion callback
    | Freeing(k: nat)    // free the task
    | Finishing          // lock the mutex and report the task done
    | Exited

  datatype Waiter = Away | Checking | Blocked

  /** The caller of `ak_thread_pool_free`. */
  datatype Freer = NotCalled | Joining | Joined | Cleaning | Done

  datatype Pool = Pool(sh: Shared, tasks: seq<Task>, workers: seq<Worker>,
                       waiters: map<nat, Waiter>, freer: Freer)

  datatype Event =
    | Quiet
    | Accepted(k: nat)
    | Refused
    | Dequeued(k: nat)
    | Begun(k: nat)
    | BodyRun(k: nat)
    | Ended(k: nat, state: TaskState)
    | CalledBack(k: nat, state: TaskState)
    | Freed(k: nat)
    | WaitReturned(c: nat)
    | Dropped(k: nat)    // freed from the queue without having run

  datatype Move =
    | Enqueue(callback: bool, hint: nat) // the signal wakes `hint` if that worker waits
    | Work(w: nat)
    | WakeWorker(w: nat)                 // a wakeup nobody asked for
    | CallWait(c: nat)
    | WaitTest(c: nat)
    | WakeWaiter(c: nat)
    | CallFree
    | FreeStep

  function Init(workers: nat, maxQueue: nat): Pool {
    Pool(Shared([], 0, 0, Running, maxQueue), [], seq(workers, _ => Wanting), map[], NotCalled)
  }

  // ---------------------------------------------------------------- critical sections

  /** `ak_thread_pool_enqueue`: is the task taken? */
  predicate Accepts(sh: Shared) {
    sh.status == Running && !(sh.maxQueue > 0 && sh.queueSize >= sh.maxQueue)
  }

  function EnqueueSection(sh: Shared, k: nat): Shared {
    if Accepts(sh) then sh.(queue := sh.queue + [k], queueSize := sh.queueSize + 1) else sh
  }

  datatype Decision = Sleep | Leave | Take(k: nat) | TakeNothing

  /** `pool_dequeue_task`, and the worker's loop around it. */
  function EnterSection(sh: Shared): (Shared, Decision) {
    if sh.status == Running && sh.queueSize == 0 then (sh, Sleep)
    else if sh.queueSize == 0 then (sh, Leave)
    else if sh.queue == [] then (sh.(active := sh.active + 1), TakeNothing)
    else (sh.(queue := sh.queue[1..], queueSize := sh.queueSize - 1, active := sh.active + 1),
          Take(sh.queue[0]))
  }

  /** The end of a worker's round; the flag says whether work_complete is broadcast. */
  function DoneSection(sh: Shared): (Shared, bool) {
    var sh' := sh.(active := sh.active - 1);
    (sh', sh'.queueSize == 0 && sh'.active == 0)
  }

  predicate Idle(sh: Shared) {
    !(sh.queueSize > 0 || sh.active > 0)
  }

  // ---------------------------------------------------------------- wakeups

  function FirstWaiting(ws: seq<Worker>): (i: nat)
    ensures i <= |ws|
    ensures i < |ws| ==> ws[i] == Waiting
    ensures i == |ws| ==> forall j :: 0 <= j < |ws| ==> ws[j] != Waiting
  {
    if ws == [] then 0
    else if ws[0] == Waiting then 0
    else 1 + FirstWaiting(ws[1..])
  }

  /** A signal wakes some waiting worker, if there is one. */
  function SignalWorkers(ws: seq<Worker>, hint: nat): seq<Worker> {
    var i := if hint < |ws| && ws[hint] == Waiting then hint else FirstWaiting(ws);
    if i < |ws| then ws[i := Wanting] else ws
  }

  function BroadcastWorkers(ws: seq<Worker>): seq<Worker> {
    seq(|ws|, i requires 0 <= i < |ws| => if ws[i] == Waiting then Wanting else ws[i])
  }

  function BroadcastWaiters(cs: map<nat, Waiter>): map<nat, Waiter> {
    map c | c in cs :: if cs[c] == Blocked then Checking else cs[c]
  }

  function WaiterOf(cs: map<nat, Waiter>, c: nat): Waiter {
    if c in cs then cs[c] else Away
  }

  // ---------------------------------------------------------------- moves

  predicate Shaped(s: Pool) {
    && (forall i :: 0 <= i < |s.workers| ==> Held(s.workers[i], |s.tasks|))
    && (forall i :: 0 <= i < |s.sh.queue| ==> s.sh.queue[i] < |s.tasks|)
  }

  predicate Holding(w: Worker) {
    w.Got? || w.InBody? || w.AfterBody? || w.InCallback? || w.Freeing?
  }

  predicate Held(w: Worker, n: nat) {
    Holding(w) ==> w.k < n
  }

  function WorkerMove(s: Pool, w: nat): (Pool, Event)
    requires Shaped(s) && w < |s.workers|
  {
    match s.workers[w]
    case Wanting =>
      var (sh, d) := EnterSection(s.sh);
      (match d
       case Sleep => (s.(workers := s.workers[w := Waiting]), Quiet)
       case Leave => (s.(workers := s.workers[w := Exited]), Quiet)
       case TakeNothing => (s.(sh := sh, workers := s.workers[w := Finishing]), Quiet)
       case Take(k) => (s.(sh := sh, workers := s.workers[w := Got(k)]), Dequeued(k)))
    case Got(k) =>
      if s.tasks[k].state == Pending
      then (s.(tasks := s.tasks[k := s.tasks[k].(state := Started)], workers := s.workers[w := InBody(k)]), Begun(k))
      else (s.(workers := s.workers[w := Freeing(k)]), Quiet)
    case InBody(k) => (s.(workers := s.workers[w := AfterBody(k)]), BodyRun(k))
    case AfterBody(k) =>
      var st := if s.tasks[k].state == Started then Completed else Failed;
      (s.(tasks := s.tasks[k := s.tasks[k].(state := st)],
          workers := s.workers[w := if s.tasks[k].callback then InCallback(k) else Freeing(k)]), Ended(k, st))
    case InCallback(k) => (s.(workers := s.workers[w := Freeing(k)]), CalledBack(k, s.tasks[k].state))
    case Freeing(k) => (s.(workers := s.workers[w := Finishing]), Freed(k))
    case Finishing =>
      var (sh, all) := DoneSection(s.sh);
      (s.(sh := sh, workers := s.workers[w := Wanting],
          waiters := if all then BroadcastWaiters(s.waiters) else s.waiters), Quiet)
    case _ => (s, Quiet)
  }

  function Step(s: Pool, m: Move): (Pool, Event)
    requires Shaped(s)
  {
    match m
    case Enqueue(cb, hint) =>
      if Accepts(s.sh)
      then (s.(sh := EnqueueSection(s.sh, |s.tasks|), tasks := s.tasks + [Task(Pending, cb)],
               workers := SignalWorkers(s.workers, hint)), Accepted(|s.tasks|))
      else (s, Refused)
    case Work(w) => if w < |s.workers| then WorkerMove(s, w) else (s, Quiet)
    case WakeWorker(w) =>
      if w < |s.workers| && s.workers[w] == Waiting
      then (s.(workers := s.workers[w := Wanting]), Quiet) else (s, Quiet)
    case CallWait(c) =>
      if WaiterOf(s.waiters, c) == Away then (s.(waiters := s.waiters[c := Checking]), Quiet) else (s, Quiet)
    case WaitTest(c) =>
      if WaiterOf(s.waiters, c) != Checking then (s, Quiet)
      else if Idle(s.sh) then (s.(waiters := s.waiters[c := Away]), WaitReturned(c))
      else (s.(waiters := s.waiters[c := Blocked]), Quiet)
    case WakeWaiter(c) =>
      if WaiterOf(s.waiters, c) == Blocked then (s.(waiters := s.waiters[c := Checking]), Quiet) else (s, Quiet)
    case CallFree =>
      if s.freer != NotCalled then (s, Quiet)
      else (s.(sh := s.sh.(status := ShuttingDown), workers := BroadcastWorkers(s.workers), freer := Joining), Quiet)
    case FreeStep =>
      (match s.freer
       case Joining =>  // every ak_thread_join returns only after its worker has exited
         if forall i :: 0 <= i < |s.workers| ==> s.workers[i] == Exited
         then (s.(freer := Joined), Quiet) else (s, Quiet)
       case Joined => (s.(sh := s.sh.(status := Terminated), freer := Cleaning), Quiet)
       case Cleaning =>
         if s.sh.queue == [] then (s.(freer := Done), Quiet)
         else
           var left := if s.sh.queueSize > 0 then s.sh.queueSize - 1 else 0;
           (s.(sh := s.sh.(queue := s.sh.queue[1..], queueSize := left)), Dropped(s.sh.queue[0]))
       case _ => (s, Quiet))
  }

  lemma StepShaped(s: Pool, m: Move)
    requires Shaped(s)
    ensures Shaped(Step(s, m).0)
  {
  }

  function Run(workers: nat, maxQueue: nat, moves: seq<Move>): (r: (Pool, seq<Event>))
    ensures Shaped(r.0) && |r.1| == |moves| && |r.0.workers| == workers
  {
    if moves == [] then (Init(workers, maxQueue), [])
    else
      var n := |moves| - 1;
      var (s, es) := Run(workers, maxQueue, moves[..n]);
      StepShaped(s, moves[n]);
      var (s', e) := Step(s, moves[n]);
      (s', es + [e])
  }
}
