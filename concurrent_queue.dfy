/**
 * ConcurrentQueue<T>: the FIFO handoff between the parsing and the solving
 * thread of one bucket, with a "done" flag that only ever goes from false to
 * true.  It is modelled sequentially: the blocking wait of `dequeue` on
 * "not empty or done" becomes that method's precondition.
 */
module Queues {
  import opened Wrappers

  /** The abstract state of a queue: the pending items, oldest first, and the done flag. */
  datatype QueueState<T> = QueueState(items: seq<T>, done: bool)

  /** One call on a queue. */
  datatype Op<T> = EnqueueOp(value: T) | DequeueOp | SetDoneOp

  /** The condition `dequeue` waits for; other calls never wait. */
  predicate CanStep<T>(s: QueueState<T>, op: Op<T>) {
    op.DequeueOp? ==> |s.items| > 0 || s.done
  }

  /** `dequeue` on a state where it does not wait: the oldest item, or None. */
  function DequeueStep<T>(s: QueueState<T>): (r: (Option<T>, QueueState<T>))
    requires |s.items| > 0 || s.done
    ensures r.0.None? <==> |s.items| == 0 && s.done
    ensures r.0.Some? ==> r.0.value == s.items[0] && r.1.items == s.items[1..]
    ensures r.0.None? ==> r.1 == s
    ensures r.1.done == s.done
  {
    if |s.items| == 0 then (None, s) else (Some(s.items[0]), QueueState(s.items[1..], s.done))
  }

  /** The state after one call. */
  function Next<T>(s: QueueState<T>, op: Op<T>): QueueState<T>
    requires CanStep(s, op)
  {
    match op
    case EnqueueOp(x) => QueueState(s.items + [x], s.done)
    case DequeueOp => DequeueStep(s).1
    case SetDoneOp => QueueState(s.items, true)
  }

  /** What one call returns to its caller: a dequeue returns one Option, the others nothing. */
  function Output<T>(s: QueueState<T>, op: Op<T>): seq<Option<T>>
    requires CanStep(s, op)
  {
    if op.DequeueOp? then [DequeueStep(s).0] else []
  }

  /** A sequence of calls none of which would wait forever when run one after another. */
  predicate Feasible<T>(s: QueueState<T>, ops: seq<Op<T>>)
    decreases |ops|
  {
    |ops| == 0 || (CanStep(s, ops[0]) && Feasible(Next(s, ops[0]), ops[1..]))
  }

  /** Runs the calls in order: the final state and everything the dequeues returned. */
  function Run<T>(s: QueueState<T>, ops: seq<Op<T>>): (QueueState<T>, seq<Option<T>>)
    requires Feasible(s, ops)
    decreases |ops|
  {
    if |ops| == 0 then (s, [])
    else
      var (t, outs) := Run(Next(s, ops[0]), ops[1..]);
      (t, Output(s, ops[0]) + outs)
  }

  /** The items the calls enqueue, in call order. */
  function Enqueued<T>(ops: seq<Op<T>>): seq<T>
    decreases |ops|
  {
    if |ops| == 0 then []
    else (if ops[0].EnqueueOp? then [ops[0].value] else []) + Enqueued(ops[1..])
  }

  /** The items handed out, in order, leaving out the Nones. */
  function Delivered<T>(outs: seq<Option<T>>): seq<T>
    decreases |outs|
  {
    if |outs| == 0 then []
    else (if outs[0].Some? then [outs[0].value] else []) + Delivered(outs[1..])
  }

  lemma {:induction false} DeliveredAppend<T>(a: seq<Option<T>>, b: seq<Option<T>>)
    ensures Delivered(a + b) == Delivered(a) + Delivered(b)
    decreases |a|
  {
    if |a| == 0 {
      assert a + b == b;
    } else {
      var head: seq<T> := if a[0].Some? then [a[0].value] else [];
      assert (a + b)[0] == a[0];
      assert (a + b)[1..] == a[1..] + b;
      assert Delivered(a + b) == head + Delivered(a[1..] + b);
      DeliveredAppend(a[1..], b);
      assert Delivered(a) == head + Delivered(a[1..]);
    }
  }

  /** One call moves items between "delivered" and "pending" without losing or reordering any. */
  lemma StepConservation<T>(s: QueueState<T>, op: Op<T>)
    requires CanStep(s, op)
    ensures Delivered(Output(s, op)) + Next(s, op).items == s.items + Enqueued([op])
  {
    assert Enqueued([op]) == (if op.EnqueueOp? then [op.value] else []) + Enqueued<T>([]);
    if op.DequeueOp? && |s.items| > 0 {
      assert Delivered(Output(s, op)) == [s.items[0]] + Delivered<T>([]);
      assert s.items == [s.items[0]] + s.items[1..];
    } else if op.DequeueOp? {
      assert Delivered(Output(s, op)) == Delivered<T>([]) + Delivered<T>([]);
    }
  }

  /**
   * FIFO with nothing lost and nothing duplicated: what the dequeues
   * delivered, followed by what is still pending, is exactly what was
   * pending at the start followed by everything enqueued, in order.
   */
  lemma {:induction false} Conservation<T>(s: QueueState<T>, ops: seq<Op<T>>)
    requires Feasible(s, ops)
    ensures Delivered(Run(s, ops).1) + Run(s, ops).0.items == s.items + Enqueued(ops)
    decreases |ops|
  {
    if |ops| > 0 {
      var op, rest := ops[0], ops[1..];
      var t := Next(s, op);
      var (u, outs) := Run(t, rest);
      assert Run(s, ops) == (u, Output(s, op) + outs);
      Conservation(t, rest);
      StepConservation(s, op);
      DeliveredAppend(Output(s, op), outs);
      assert Enqueued(ops) == Enqueued([op]) + Enqueued(rest) by {
        assert [op][1..] == [];
      }
      calc {
        Delivered(Output(s, op) + outs) + u.items;
        Delivered(Output(s, op)) + (Delivered(outs) + u.items);
        Delivered(Output(s, op)) + (t.items + Enqueued(rest));
        (Delivered(Output(s, op)) + t.items) + Enqueued(rest);
        (s.items + Enqueued([op])) + Enqueued(rest);
      }
    }
  }

  /** The done flag never goes back to false, and it is set after any SetDoneOp. */
  lemma {:induction false} DoneIsMonotonic<T>(s: QueueState<T>, ops: seq<Op<T>>)
    requires Feasible(s, ops)
    ensures s.done ==> Run(s, ops).0.done
    ensures SetDoneOp in ops ==> Run(s, ops).0.done
    decreases |ops|
  {
    if |ops| > 0 {
      DoneIsMonotonic(Next(s, ops[0]), ops[1..]);
      if SetDoneOp in ops && ops[0] != SetDoneOp {
        assert SetDoneOp in ops[1..];
      }
    }
  }

  /** Calling setDone a second time changes nothing. */
  lemma SetDoneIdempotent<T>(s: QueueState<T>)
    ensures Next(Next(s, SetDoneOp), SetDoneOp) == Next(s, SetDoneOp)
    ensures Next(s, SetDoneOp).items == s.items && Next(s, SetDoneOp).done
  {
  }

  function Dequeues<T>(n: nat): (ops: seq<Op<T>>)
    ensures |ops| == n && forall k :: 0 <= k < n ==> ops[k] == DequeueOp
  {
    seq(n, _ => DequeueOp)
  }

  function Somes<T>(xs: seq<T>): (r: seq<Option<T>>)
    ensures |r| == |xs| && forall k :: 0 <= k < |xs| ==> r[k] == Some(xs[k])
  {
    seq(|xs|, k requires 0 <= k < |xs| => Some(xs[k]))
  }

  function Nones<T>(n: nat): (r: seq<Option<T>>)
    ensures |r| == n && forall k :: 0 <= k < n ==> r[k] == None
  {
    seq(n, _ => None)
  }

  /**
   * Once done, repeated dequeues never wait: they hand out the pending
   * items in order and then None, as often as they are called.
   */
  lemma {:induction false} DrainAfterDone<T>(s: QueueState<T>, extra: nat)
    requires s.done
    ensures Feasible(s, Dequeues(|s.items| + extra))
    ensures Run(s, Dequeues(|s.items| + extra)).1 == Somes(s.items) + Nones(extra)
    decreases |s.items| + extra
  {
    var ops: seq<Op<T>> := Dequeues(|s.items| + extra);
    if |s.items| > 0 {
      var t := Next(s, DequeueOp);
      assert ops[1..] == Dequeues(|t.items| + extra);
      DrainAfterDone(t, extra);
      assert Somes(s.items) + Nones(extra) == [Some(s.items[0])] + (Somes(t.items) + Nones(extra));
    } else if extra > 0 {
      assert ops[1..] == Dequeues(|s.items| + (extra - 1));
      DrainAfterDone(s, extra - 1);
      assert Nones<T>(extra) == [None] + Nones(extra - 1);
    } else {
      assert Somes(s.items) + Nones(extra) == [];
    }
  }

  class ConcurrentQueue<T> {
    /** queue_: the pending items, oldest first. */
    var queue: seq<T>
    /** isDone_: set once the producer has enqueued everything. */
    var isDone: bool

    function State(): QueueState<T>
      reads this
    {
      QueueState(queue, isDone)
    }

    constructor ()
      ensures State() == QueueState([], false)
    {
      queue := [];
      isDone := false;
    }

    /** Appends one item at the back; the other items and the done flag are unchanged. */
    method Enqueue(value: T)
      modifies this
      ensures queue == old(queue) + [value] && isDone == old(isDone)
      ensures State() == Next(old(State()), EnqueueOp(value))
    {
      queue := queue + [value];
    }

    /**
     * Waits until the queue is not empty or is done (here: requires it),
     * then removes and returns the front item, or returns None when the
     * queue is empty and done.
     */
    method Dequeue() returns (res: Option<T>)
      requires |queue| > 0 || isDone
      modifies this
      ensures res.None? <==> |old(queue)| == 0 && old(isDone)
      ensures res.Some? ==> res.value == old(queue)[0] && queue == old(queue)[1..]
      ensures res.None? ==> queue == old(queue)
      ensures isDone == old(isDone)
      ensures State() == Next(old(State()), DequeueOp) && [res] == Output(old(State()), DequeueOp)
    {
      if |queue| == 0 {
        return None;
      }
      res := Some(queue[0]);
      queue := queue[1..];
    }

    /** Marks the queue done; the pending items stay to be drained. */
    method SetDone()
      modifies this
      ensures isDone && queue == old(queue)
      ensures State() == Next(old(State()), SetDoneOp)
    {
      isDone := true;
    }
  }
}
