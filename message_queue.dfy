/**
 * Model of src/message_queue.h: a bounded FIFO queue of messages with a
 * stop flag for its receivers.
 *
 * The queue is first described on values (`QueueState` and the step
 * functions `Sent`, `Received`, `Stopped`), then as the class whose methods
 * update its fields exactly as those functions say. The mutex and the
 * condition variable are left out: the wait in Receive becomes its
 * precondition "non-empty or stopped".
 */
module Queue {
  import opened Wrappers

  /** std::numeric_limits<size_t>::max() on a 64-bit target: the default bound. */
  const SizeMax: nat := 0xFFFF_FFFF_FFFF_FFFF

  /** MessageQueue::ReceivingStopped, the exception Receive throws once stopped. */
  datatype ReceivingStopped = ReceivingStopped

  /** The queue's fields: the messages front first, the bound, the stop flag. */
  datatype QueueState<T> = QueueState(items: seq<T>, maxSize: nat, stopped: bool)

  /** A well-formed state: never more messages than the bound, and a bound that fits size_t. */
  predicate Bounded<T>(q: QueueState<T>)
  {
    |q.items| <= q.maxSize <= SizeMax
  }

  /** A queue as the constructor leaves it. */
  function Fresh<T>(maxSize: nat): (q: QueueState<T>)
    ensures q.items == [] && q.maxSize == maxSize && !q.stopped
    ensures maxSize <= SizeMax ==> Bounded(q)
  {
    QueueState([], maxSize, false)
  }

  /**
   * Send: the message joins the back exactly when the queue holds fewer
   * than maxSize messages; otherwise nothing changes. The stop flag plays
   * no part.
   */
  function Sent<T>(q: QueueState<T>, msg: T): (r: (QueueState<T>, bool))
    ensures r.1 <==> |q.items| < q.maxSize
    ensures r.1 ==> r.0 == q.(items := q.items + [msg])
    ensures !r.1 ==> r.0 == q
  {
    if |q.items| < q.maxSize then (q.(items := q.items + [msg]), true) else (q, false)
  }

  /** Receive may return only when a message is there or the queue is stopped. */
  predicate CanReceive<T>(q: QueueState<T>)
  {
    |q.items| > 0 || q.stopped
  }

  /**
   * Receive: once stopped it throws and leaves the queue as it is, even
   * with messages there; otherwise the front message is taken off.
   */
  function Received<T>(q: QueueState<T>): (r: (QueueState<T>, Result<T, ReceivingStopped>))
    requires CanReceive(q)
    ensures q.stopped <==> r.1.Failure?
    ensures q.stopped ==> r.0 == q
    ensures !q.stopped ==> q.items == [r.1.value] + r.0.items
    ensures r.0.maxSize == q.maxSize && r.0.stopped == q.stopped
  {
    if q.stopped then (q, Failure(ReceivingStopped))
    else (q.(items := q.items[1..]), Success(q.items[0]))
  }

  /** StopReceiving: raises the flag; the messages stay. */
  function Stopped<T>(q: QueueState<T>): (r: QueueState<T>)
    ensures r.stopped && r.items == q.items && r.maxSize == q.maxSize
  {
    q.(stopped := true)
  }

  // ---------------------------------------------------------------------
  // Properties of the step functions

  /** Size() <= MaxSize() is kept by every operation, and MaxSize never changes. */
  lemma BoundKept<T>(q: QueueState<T>, msg: T)
    requires Bounded(q)
    ensures Bounded(Sent(q, msg).0) && Sent(q, msg).0.maxSize == q.maxSize
    ensures CanReceive(q) ==> Bounded(Received(q).0) && Received(q).0.maxSize == q.maxSize
    ensures Bounded(Stopped(q)) && Stopped(q).maxSize == q.maxSize
  {
  }

  /** Stopping is idempotent and nothing lowers the flag again. */
  lemma StopSticky<T>(q: QueueState<T>, msg: T)
    ensures Stopped(Stopped(q)) == Stopped(q)
    ensures q.stopped ==> Sent(q, msg).0.stopped
    ensures q.stopped ==> Received(q) == (q, Failure(ReceivingStopped))
  {
  }

  /** Send does not look at the stop flag: a stopped queue still accepts exactly what a running one would. */
  lemma SendIgnoresStop<T>(q: QueueState<T>, msg: T)
    ensures Sent(Stopped(q), msg) == (Stopped(Sent(q, msg).0), Sent(q, msg).1)
  {
  }

  // ---------------------------------------------------------------------
  // Runs of several operations

  datatype Op<T> = SendOp(msg: T) | ReceiveOp | StopOp

  /** Every Receive in the run finds a message or a stopped queue, so none waits forever. */
  predicate Admissible<T>(q: QueueState<T>, ops: seq<Op<T>>)
    decreases |ops|
  {
    if ops == [] then true
    else match ops[0]
      case SendOp(m) => Admissible(Sent(q, m).0, ops[1..])
      case ReceiveOp => CanReceive(q) && Admissible(Received(q).0, ops[1..])
      case StopOp => Admissible(Stopped(q), ops[1..])
  }

  /** The outcome of a run: the final state, the messages Send accepted, the messages Receive returned. */
  datatype Trace<T> = Trace(final: QueueState<T>, accepted: seq<T>, delivered: seq<T>)

  function Run<T>(q: QueueState<T>, ops: seq<Op<T>>): (t: Trace<T>)
    requires Admissible(q, ops)
    ensures t.final.maxSize == q.maxSize
    ensures q.stopped ==> t.final.stopped && t.delivered == []
    decreases |ops|
  {
    if ops == [] then Trace(q, [], [])
    else match ops[0]
      case SendOp(m) =>
        var (q', ok) := Sent(q, m);
        var t := Run(q', ops[1..]);
        t.(accepted := (if ok then [m] else []) + t.accepted)
      case ReceiveOp =>
        var (q', r) := Received(q);
        var t := Run(q', ops[1..]);
        t.(delivered := (if r.Success? then [r.value] else []) + t.delivered)
      case StopOp =>
        Run(Stopped(q), ops[1..])
  }

  /**
   * FIFO order with no loss and no duplication: the messages that were
   * there plus the accepted ones are exactly the delivered ones followed by
   * what is still queued.
   */
  lemma {:induction false} RunConserves<T>(q: QueueState<T>, ops: seq<Op<T>>)
    requires Admissible(q, ops)
    ensures q.items + Run(q, ops).accepted == Run(q, ops).delivered + Run(q, ops).final.items
    decreases |ops|
  {
    if ops != [] {
      match ops[0]
      case SendOp(m) =>
        var (q', ok) := Sent(q, m);
        RunConserves(q', ops[1..]);
        if ok {
          assert q.items + ([m] + Run(q', ops[1..]).accepted) == q'.items + Run(q', ops[1..]).accepted;
        }
      case ReceiveOp =>
        var (q', r) := Received(q);
        RunConserves(q', ops[1..]);
        if r.Success? {
          assert q.items + Run(q', ops[1..]).accepted
              == [r.value] + (q'.items + Run(q', ops[1..]).accepted);
        }
      case StopOp =>
        RunConserves(Stopped(q), ops[1..]);
    }
  }

  /** The bound holds after any run that starts within it. */
  lemma {:induction false} RunBounded<T>(q: QueueState<T>, ops: seq<Op<T>>)
    requires Admissible(q, ops) && Bounded(q)
    ensures Bounded(Run(q, ops).final)
    decreases |ops|
  {
    if ops != [] {
      match ops[0]
      case SendOp(m) => RunBounded(Sent(q, m).0, ops[1..]);
      case ReceiveOp => RunBounded(Received(q).0, ops[1..]);
      case StopOp => RunBounded(Stopped(q), ops[1..]);
    }
  }

  // ---------------------------------------------------------------------
  // The class

  /** Concurrent::MessageQueue<T>. */
  class MessageQueue<T> {
    var queue: seq<T>
    const maxSize: nat
    var stopReceiving: bool

    /** The fields as a value. */
    ghost function Model(): QueueState<T>
      reads this
    {
      QueueState(queue, maxSize, stopReceiving)
    }

    ghost predicate Valid()
      reads this
    {
      Bounded(Model())
    }

    /** MessageQueue(max_size): empty, not stopped. */
    constructor (maxSize: nat)
      requires maxSize <= SizeMax
      ensures Model() == Fresh(maxSize) && Valid()
    {
      queue := [];
      this.maxSize := maxSize;
      stopReceiving := false;
    }

    /** MessageQueue(): the default bound is the largest size_t. */
    constructor Default()
      ensures Model() == Fresh(SizeMax) && Valid()
    {
      queue := [];
      maxSize := SizeMax;
      stopReceiving := false;
    }

    /** Size(): the number of queued messages, at most the bound. */
    method Size() returns (n: nat)
      requires Valid()
      ensures n == |Model().items| && n <= maxSize
    {
      n := |queue|;
    }

    /** MaxSize(): the bound fixed at construction. */
    function MaxSize(): (m: nat)
      reads this
      requires Valid()
      ensures m == Model().maxSize && |queue| <= m <= SizeMax
    {
      maxSize
    }

    method Send(msg: T) returns (ok: bool)
      requires Valid()
      modifies this
      ensures Valid() && (Model(), ok) == Sent(old(Model()), msg)
    {
      ok := false;
      if |queue| < maxSize {
        queue := queue + [msg];
        ok := true;
      }
    }

    method Receive() returns (r: Result<T, ReceivingStopped>)
      requires Valid() && CanReceive(Model())
      modifies this
      ensures Valid() && (Model(), r) == Received(old(Model()))
    {
      if stopReceiving {
        return Failure(ReceivingStopped);
      }
      var msg := queue[0];
      queue := queue[1..];
      r := Success(msg);
    }

    method StopReceiving()
      requires Valid()
      modifies this
      ensures Valid() && Model() == Stopped(old(Model()))
    {
      stopReceiving := true;
    }
  }
}
