/** Queue<T>: a bounded queue that can be closed. */
module BoundedQueue {
  datatype QueueState<T> = QueueState(items: seq<T>, size: nat, closed: bool)

  const DEFAULT_SIZE := 50

  /** What pop() finds: an element, a closed queue, or nothing yet, in which case the caller waits. */
  datatype Popped<T> = Got(elem: T) | Closed | MustWait

  function Opened<T>(size: nat): QueueState<T> {
    QueueState([], if size != 0 then size else DEFAULT_SIZE, false)
  }

  function Push<T>(q: QueueState<T>, x: T): (QueueState<T>, bool) {
    if !q.closed && q.size != 0 && |q.items| < q.size then (q.(items := q.items + [x]), true) else (q, false)
  }

  function Pop<T>(q: QueueState<T>): (QueueState<T>, Popped<T>) {
    if q.closed then (q, Closed)
    else if q.items == [] then (q, MustWait)
    else (q.(items := q.items[1..]), Got(q.items[0]))
  }

  function Cleared<T>(q: QueueState<T>): QueueState<T> { q.(items := []) }

  function Enabled<T>(q: QueueState<T>, state: bool): QueueState<T> { q.(closed := !state) }

  class Queue<T> {
    var items: seq<T>
    const size: nat
    var closed: bool

    function View(): QueueState<T>
      reads this
    {
      QueueState(items, size, closed)
    }

    constructor (size: nat)
      ensures View() == Opened(size)
    {
      items := [];
      this.size := if size != 0 then size else DEFAULT_SIZE;
      closed := false;
    }

    method PopFront() returns (r: Popped<T>)
      modifies this
      ensures (View(), r) == Pop(old(View()))
    {
      if closed { return Closed; }
      if items == [] { return MustWait; }
      r := Got(items[0]);
      items := items[1..];
    }

    method PushBack(x: T) returns (success: bool)
      modifies this
      ensures (View(), success) == Push(old(View()), x)
    {
      success := false;
      if !closed && size != 0 && |items| < size {
        items := items + [x];
        success := true;
      }
    }

    method SetEnabled(state: bool)
      modifies this
      ensures View() == Enabled(old(View()), state)
    {
      closed := !state;
    }

    method Clear()
      modifies this
      ensures View() == Cleared(old(View()))
    {
      var wasClosed := closed;
      closed := true;
      items := [];
      closed := wasClosed;
    }
  }

  /** What an operation on a queue can do. */
  datatype Op<T> = PushOp(x: T) | PopOp | ClearOp | EnableOp(state: bool)

  function Apply<T>(q: QueueState<T>, op: Op<T>): QueueState<T> {
    match op
    case PushOp(x) => Push(q, x).0
    case PopOp => Pop(q).0
    case ClearOp => Cleared(q)
    case EnableOp(state) => Enabled(q, state)
  }

  function RunOps<T>(size: nat, ops: seq<Op<T>>): QueueState<T> {
    if ops == [] then Opened(size) else Apply(RunOps(size, ops[..|ops| - 1]), ops[|ops| - 1])
  }

  /** The elements accepted by a run, in order. */
  function Accepted<T>(size: nat, ops: seq<Op<T>>): seq<T> {
    if ops == [] then []
    else
      var before, op := ops[..|ops| - 1], ops[|ops| - 1];
      Accepted(size, before) + if op.PushOp? && Push(RunOps(size, before), op.x).1 then [op.x] else []
  }

  /** The elements that left the queue, popped or cleared, in order. */
  function Gone<T>(size: nat, ops: seq<Op<T>>): seq<T> {
    if ops == [] then []
    else
      var before, op := ops[..|ops| - 1], ops[|ops| - 1];
      var q := RunOps(size, before);
      Gone(size, before) + if op.PopOp? && Pop(q).1.Got? then [Pop(q).1.elem] else if op.ClearOp? then q.items else []
  }

  /** First in, first out, over every run: what was accepted is what left followed by what is still there; and the
      queue never grows past its bound. */
  lemma {:induction false} Fifo<T>(size: nat, ops: seq<Op<T>>)
    ensures Accepted(size, ops) == Gone(size, ops) + RunOps(size, ops).items
    ensures |RunOps(size, ops).items| <= RunOps(size, ops).size == if size != 0 then size else DEFAULT_SIZE
  {
    if ops != [] {
      var before, op := ops[..|ops| - 1], ops[|ops| - 1];
      Fifo(size, before);
      FifoStep(Accepted(size, before), Gone(size, before), RunOps(size, before), op);
    }
  }

  lemma FifoStep<T>(accepted: seq<T>, gone: seq<T>, q: QueueState<T>, op: Op<T>)
    requires accepted == gone + q.items && |q.items| <= q.size
    ensures var pushed := if op.PushOp? && Push(q, op.x).1 then [op.x] else [];
            var left := if op.PopOp? && Pop(q).1.Got? then [Pop(q).1.elem] else if op.ClearOp? then q.items else [];
            accepted + pushed == (gone + left) + Apply(q, op).items
    ensures |Apply(q, op).items| <= Apply(q, op).size == q.size
  {
  }

  /** Whether the queue was opened or closed last; it begins open. */
  predicate OpenAfter<T>(ops: seq<Op<T>>) {
    ops == [] || if ops[|ops| - 1].EnableOp? then ops[|ops| - 1].state else OpenAfter(ops[..|ops| - 1])
  }

  /** Over every run: an element is accepted exactly when the queue is open and fewer than its bound, 50 by default, are
      waiting; a refused one changes nothing; and an open queue gives the element accepted first of those waiting. */
  lemma {:induction false} QueueIsReference<T>(size: nat, ops: seq<Op<T>>, x: T)
    ensures var q, accepted, gone := RunOps(size, ops), Accepted(size, ops), |Gone(size, ops)|;
            && gone <= |accepted|
            && (Push(q, x).1 <==> OpenAfter(ops) && |accepted| - gone < (if size != 0 then size else 50))
            && (!Push(q, x).1 ==> Push(q, x).0 == q)
            && Pop(q).1 == if !OpenAfter(ops) then Closed
                           else if gone == |accepted| then MustWait
                           else Got(accepted[gone])
  {
    hide RunOps, Accepted, Gone, OpenAfter;
    Fifo(size, ops);
    ClosedAfter(size, ops);
  }

  lemma {:induction false} ClosedAfter<T>(size: nat, ops: seq<Op<T>>)
    ensures RunOps(size, ops).closed == !OpenAfter(ops)
  {
    if ops != [] { ClosedAfter(size, ops[..|ops| - 1]); }
  }
}
