/**
 * Model of src/worker_pool.cpp: workers that each own a task queue, and a
 * pool that hands tasks to its workers in turn.
 *
 * A worker's thread is represented by the flag `running` (the thread is
 * joinable). What the thread itself does, taking tasks off the queue and
 * performing them, is not part of this model: the queues here change only
 * through the pool.
 */
module Pool {
  import opened Queue

  /** unsigned: the pool size is a 32-bit unsigned value. */
  const UintLimit: nat := 0x1_0000_0000

  /** WorkerPool::Worker: a task queue with the default bound, and a thread. */
  class Worker<T> {
    const taskQueue: MessageQueue<T>
    var running: bool

    /** new Worker: an empty queue, no thread. */
    constructor ()
      ensures fresh(taskQueue) && taskQueue.Model() == Fresh(SizeMax) && taskQueue.Valid()
      ensures !running
    {
      taskQueue := new MessageQueue.Default();
      running := false;
    }

    /** Start: a thread is started only when none is joinable, so a second Start does nothing. */
    method Start()
      modifies this
      ensures running
    {
      if !running {
        running := true;
      }
    }

    /** Quit: stops the queue's receivers, which ends the thread's loop. */
    method Quit()
      requires taskQueue.Valid()
      modifies taskQueue
      ensures taskQueue.Valid() && taskQueue.Model() == Stopped(old(taskQueue.Model()))
    {
      taskQueue.StopReceiving();
    }

    /**
     * Wait: joins the thread if there is one. The thread ends only once its
     * queue is stopped, which the precondition stands in for.
     */
    method Wait()
      requires running ==> taskQueue.stopReceiving
      modifies this
      ensures !running
    {
      if running {
        running := false;
      }
    }

    /** AssignTask: exactly a Send on this worker's queue. */
    method AssignTask(task: T) returns (ok: bool)
      requires taskQueue.Valid()
      modifies taskQueue
      ensures taskQueue.Valid() && (taskQueue.Model(), ok) == Sent(old(taskQueue.Model()), task)
    {
      ok := taskQueue.Send(task);
    }
  }

  /** The worker that the k-th task (counting from 0) goes to. */
  function Turn(k: nat, n: nat): (i: nat)
    requires n > 0
    ensures i < n
  {
    k % n
  }

  /** Advancing the index by one, modulo n, moves on to the next turn. */
  lemma TurnAdvances(k: nat, n: nat)
    requires n > 0
    ensures (Turn(k, n) + 1) % n == Turn(k + 1, n)
  {
    var q := k / n;
    if k % n + 1 == n {
      ModUnique(k + 1, n, q + 1, 0);
      ModUnique(n, n, 1, 0);
    } else {
      ModUnique(k + 1, n, q, k % n + 1);
      ModUnique(k % n + 1, n, 0, k % n + 1);
    }
  }

  /** Euclidean division has only one remainder. */
  lemma ModUnique(x: int, n: int, q: int, r: int)
    requires n > 0 && 0 <= r < n && x == q * n + r
    ensures x % n == r
  {
    var d := q - x / n;
    assert d * n == x % n - r;
  }

  /**
   * RoundRobinWorkerPool, with the WorkerPool base folded in: the workers
   * and the index of the worker that gets the next task. The ghost field
   * `submitted` counts the SubmitTask calls so far.
   */
  class RoundRobinWorkerPool<T> {
    var workers: seq<Worker<T>>
    var nextWorker: nat
    ghost var submitted: nat

    /** The task queues of all workers. */
    ghost function Queues(): set<object>
      reads this
    {
      set i | 0 <= i < |workers| :: workers[i].taskQueue
    }

    /** The workers as a set. */
    ghost function Workers(): set<object>
      reads this
    {
      set i | 0 <= i < |workers| :: workers[i]
    }

    /**
     * Distinct workers with distinct, well-formed queues; with any workers
     * at all, the next index is the turn of the next task.
     */
    ghost predicate Valid()
      reads this, Queues()
    {
      && (forall i, j :: 0 <= i < j < |workers| ==> workers[i] != workers[j])
      && (forall i, j :: 0 <= i < j < |workers| ==> workers[i].taskQueue != workers[j].taskQueue)
      && (forall i :: 0 <= i < |workers| ==> workers[i].taskQueue.Valid())
      && (|workers| > 0 ==> nextWorker == Turn(submitted, |workers|))
    }

    /** RoundRobinWorkerPool(pool_size): pool_size new idle workers, next index 0. */
    constructor (poolSize: nat)
      requires poolSize < UintLimit
      ensures Valid() && |workers| == poolSize && nextWorker == 0 && submitted == 0
      ensures forall i :: 0 <= i < poolSize ==>
        && fresh(workers[i]) && fresh(workers[i].taskQueue)
        && !workers[i].running && workers[i].taskQueue.Model() == Fresh(SizeMax)
    {
      var ws: seq<Worker<T>> := [];
      var i := 0;
      while i < poolSize
        invariant 0 <= i <= poolSize && |ws| == i
        invariant forall k, j :: 0 <= k < j < i ==> ws[k] != ws[j] && ws[k].taskQueue != ws[j].taskQueue
        invariant forall k :: 0 <= k < i ==>
          && fresh(ws[k]) && fresh(ws[k].taskQueue)
          && !ws[k].running && ws[k].taskQueue.Model() == Fresh(SizeMax) && ws[k].taskQueue.Valid()
      {
        var w := new Worker();
        ws := ws + [w];
        i := i + 1;
      }
      workers := ws;
      nextWorker := 0;
      submitted := 0;
    }

    /** Start: every worker gets its thread; the queues are untouched. */
    method Start()
      requires Valid()
      modifies Workers()
      ensures Valid()
      ensures forall i :: 0 <= i < |workers| ==> workers[i].running
    {
      var i := 0;
      while i < |workers|
        invariant 0 <= i <= |workers|
        invariant forall k :: 0 <= k < i ==> workers[k].running
      {
        workers[i].Start();
        i := i + 1;
      }
    }

    /** Quit: every worker's queue is stopped, messages left in place. */
    method Quit()
      requires Valid()
      modifies Queues()
      ensures Valid()
      ensures forall i :: 0 <= i < |workers| ==>
        workers[i].taskQueue.Model() == Stopped(old(workers[i].taskQueue.Model()))
    {
      var i := 0;
      while i < |workers|
        invariant 0 <= i <= |workers|
        invariant forall k :: 0 <= k < |workers| ==> workers[k].taskQueue.Valid()
        invariant forall k :: 0 <= k < i ==>
          workers[k].taskQueue.Model() == Stopped(old(workers[k].taskQueue.Model()))
        invariant forall k :: i <= k < |workers| ==>
          workers[k].taskQueue.Model() == old(workers[k].taskQueue.Model())
      {
        workers[i].Quit();
        i := i + 1;
      }
    }

    /** Wait: every thread is joined; each has ended because its queue is stopped. */
    method Wait()
      requires Valid()
      requires forall i :: 0 <= i < |workers| && workers[i].running ==> workers[i].taskQueue.stopReceiving
      modifies Workers()
      ensures Valid()
      ensures forall i :: 0 <= i < |workers| ==> !workers[i].running
    {
      var i := 0;
      while i < |workers|
        invariant 0 <= i <= |workers|
        invariant forall k :: 0 <= k < i ==> !workers[k].running
        invariant forall k :: i <= k < |workers| ==> workers[k].running == old(workers[k].running)
      {
        workers[i].Wait();
        i := i + 1;
      }
    }

    /** ~WorkerPool: Quit, then Wait; afterwards every queue is stopped and no thread is left. */
    method Destroy()
      requires Valid()
      modifies Workers(), Queues()
      ensures Valid()
      ensures forall i :: 0 <= i < |workers| ==>
        && !workers[i].running
        && workers[i].taskQueue.Model() == Stopped(old(workers[i].taskQueue.Model()))
    {
      Quit();
      Wait();
    }

    /**
     * SubmitTask: the task is offered to the worker whose turn it is, and
     * the index moves on whether or not that worker's queue took it.
     */
    method SubmitTask(task: T) returns (ghost ok: bool)
      requires Valid() && |workers| > 0
      modifies this, workers[nextWorker].taskQueue
      ensures Valid() && workers == old(workers)
      ensures submitted == old(submitted) + 1
      ensures nextWorker == (old(nextWorker) + 1) % |workers|
      ensures var w := workers[Turn(old(submitted), |workers|)].taskQueue;
        (w.Model(), ok) == Sent(old(w.Model()), task)
      ensures forall i :: 0 <= i < |workers| && i != Turn(old(submitted), |workers|) ==>
        workers[i].taskQueue.Model() == old(workers[i].taskQueue.Model())
    {
      ok := workers[nextWorker].AssignTask(task);
      TurnAdvances(submitted, |workers|);
      nextWorker := (nextWorker + 1) % |workers|;
      submitted := submitted + 1;
    }
  }
}
