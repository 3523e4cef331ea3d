/** The fields the pool mutex guards, with the linked queue of kernel/threads/src/threads.c;
each critical section is proved against the section of the same name in PoolMachine. */
module PoolQueue {
  import opened PoolMachine

  class Node {
    const task: nat
    var next: Node?

    constructor (task: nat)
      ensures this.task == task && next == null
    {
      this.task, next := task, null;
    }
  }

  /** The nodes are distinct and each points to the one after it. */
  ghost predicate Linked(chain: seq<Node>)
    reads chain
  {
    && (forall i, j :: 0 <= i < j < |chain| ==> chain[i] != chain[j])
    && (forall i :: 0 <= i < |chain| - 1 ==> chain[i].next == chain[i + 1])
    && (chain != [] ==> chain[|chain| - 1].next == null)
  }

  ghost function Tasks(chain: seq<Node>): (r: seq<nat>)
    ensures |r| == |chain| && forall i :: 0 <= i < |chain| ==> r[i] == chain[i].task
  {
    if chain == [] then [] else [chain[0].task] + Tasks(chain[1..])
  }

  lemma TasksTail(chain: seq<Node>)
    ensures chain != [] ==> Tasks(chain[1..]) == Tasks(chain)[1..] && Tasks(chain)[0] == chain[0].task
    ensures chain == [] ==> Tasks(chain) == []
  {
  }

  class ThreadPool {
    const maxQueueSize: nat
    var queueHead: Node?
    var queueTail: Node?
    var queueSize: nat
    var activeCount: int
    var state: Status
    ghost var chain: seq<Node>  // the nodes from head to tail

    ghost predicate Valid()
      reads this, chain
    {
      && Linked(chain)
      && (if chain == [] then queueHead == null && queueTail == null
          else queueHead == chain[0] && queueTail == chain[|chain| - 1])
    }

    ghost function View(): Shared
      reads this
    {
      Shared(Tasks(chain), queueSize, activeCount, state, maxQueueSize)
    }

    constructor (maxQueueSize: nat)
      ensures Valid() && chain == [] && View() == Init(1, maxQueueSize).sh
    {
      this.maxQueueSize := maxQueueSize;
      queueHead, queueTail, chain := null, null, [];
      queueSize, activeCount, state := 0, 0, Running;
    }

    /** The body of `ak_thread_pool_enqueue`, for the task numbered `k`. */
    method Enqueue(k: nat) returns (ok: bool)
      requires Valid()
      modifies this, chain
      ensures Valid() && View() == EnqueueSection(old(View()), k) && ok == Accepts(old(View()))
      ensures queueSize - |chain| == old(queueSize) - |old(chain)|
      ensures old(queueSize) == |old(chain)| ==>
                (ok <==> old(state) == Running && (maxQueueSize == 0 || |old(chain)| < maxQueueSize))
      ensures if ok then exists node :: chain == old(chain) + [node] && node.task == k else chain == old(chain)
      ensures forall n :: n in chain && n !in old(chain) ==> fresh(n)
    {
      if state != Running {
        return false;
      }
      if maxQueueSize > 0 && queueSize >= maxQueueSize {
        return false;
      }
      var node := new Node(k);
      if queueTail != null {
        queueTail.next := node;
      } else {
        queueHead := node;
      }
      queueTail := node;
      queueSize := queueSize + 1;
      chain := chain + [node];
      return true;
    }

    /** `pool_dequeue_task` */
    method DequeueTask() returns (task: Decision)
      requires Valid() && (chain != [] ==> queueSize > 0)
      modifies this
      ensures Valid() && chain == if old(chain) == [] then [] else old(chain)[1..]
      ensures queueSize == old(queueSize) - if old(chain) == [] then 0 else 1
      ensures task == if old(chain) == [] then TakeNothing else Take(old(chain)[0].task)
      ensures activeCount == old(activeCount) && state == old(state)
    {
      if queueHead == null {
        return TakeNothing;
      }
      var node := queueHead;
      task := Take(node.task);
      queueHead := node.next;
      if queueHead == null {
        queueTail := null;
      }
      queueSize := queueSize - 1;
      chain := chain[1..];
    }

    /** From taking the lock to releasing it at the top of the worker's loop. */
    method Enter() returns (d: Decision)
      requires Valid()
      modifies this
      ensures Valid() && (View(), d) == EnterSection(old(View()))
    {
      if state == Running && queueSize == 0 {
        return Sleep;
      }
      if state != Running && queueSize == 0 {
        return Leave;
      }
      hide Tasks, Linked;
      TasksTail(chain);
      d := DequeueTask();
      activeCount := activeCount + 1;
    }

    /** The second critical section of a worker's round; `all` broadcasts work_complete. */
    method Finish() returns (all: bool)
      requires Valid()
      modifies this
      ensures Valid() && (View(), all) == DoneSection(old(View()))
    {
      activeCount := activeCount - 1;
      all := queueSize == 0 && activeCount == 0;
    }

    method Shutdown()
      requires Valid()
      modifies this
      ensures Valid() && View() == old(View()).(status := ShuttingDown)
    {
      state := ShuttingDown;
    }
  }
}
