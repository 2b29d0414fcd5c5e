/** `BlockingQueue<T>` as a state machine. Each public operation runs under the queue's
    lock; its `Monitor.Wait` loop becomes an enabledness predicate: in a sequential
    interleaving an operation can only take place in a state where its wait loop exits. */
module BlockingQueue {
  import opened Wrappers

  datatype Queue<T> = Queue(items: seq<T>, capacity: nat, finished: bool, disposed: bool)

  /** The item count never exceeds the capacity. */
  predicate Valid<T>(q: Queue<T>) {
    |q.items| <= q.capacity
  }

  /** The wait loop of `Enqueue` exits: the queue is disposed or has room. */
  predicate EnqueueEnabled<T>(q: Queue<T>) {
    q.disposed || |q.items| < q.capacity
  }

  /** The wait loop of `Dequeue` exits: the queue is disposed, finished or non-empty. */
  predicate DequeueEnabled<T>(q: Queue<T>) {
    q.disposed || q.finished || |q.items| > 0
  }

  /** `Enqueue(value)`: false on a disposed queue; otherwise appends, even after `Finish`. */
  function Enqueue<T>(q: Queue<T>, value: T): (r: (Queue<T>, bool))
    requires EnqueueEnabled(q)
    ensures r.1 <==> !q.disposed
    ensures r.0.items == if r.1 then q.items + [value] else q.items
    ensures r.0.capacity == q.capacity && r.0.finished == q.finished && r.0.disposed == q.disposed
    ensures Valid(q) ==> Valid(r.0)
  {
    if q.disposed then (q, false) else (q.(items := q.items + [value]), true)
  }

  /** `Dequeue(out value)`: nothing from a disposed queue (even with items left) or from a
      finished, empty one; otherwise the front item. */
  function Dequeue<T>(q: Queue<T>): (r: (Queue<T>, Option<T>))
    requires DequeueEnabled(q)
    ensures r.1.Some? <==> !q.disposed && |q.items| > 0
    ensures r.1.Some? ==> q.items == [r.1.value] + r.0.items
    ensures r.1.None? ==> r.0 == q
    ensures r.0.capacity == q.capacity && r.0.finished == q.finished && r.0.disposed == q.disposed
    ensures Valid(q) ==> Valid(r.0)
  {
    if q.disposed then (q, None)
    else if q.finished && |q.items| == 0 then (q, None)
    else (q.(items := q.items[1..]), Some(q.items[0]))
  }

  /** `Finish`: only sets its flag. */
  function Finish<T>(q: Queue<T>): (r: Queue<T>)
    ensures r.finished && r.disposed == q.disposed
    ensures r.items == q.items && r.capacity == q.capacity
  {
    q.(finished := true)
  }

  /** `Dispose`: only sets its flag. */
  function Dispose<T>(q: Queue<T>): (r: Queue<T>)
    ensures r.disposed && r.finished == q.finished
    ensures r.items == q.items && r.capacity == q.capacity
  {
    q.(disposed := true)
  }

  // ---------------------------------------------------------------------------
  // Runs: sequences of operations applied by any threads, one at a time

  datatype Op<T> = Put(value: T) | Take | MarkFinished | MarkDisposed

  /** What the caller observed from one operation. */
  datatype Event<T> = Accepted(value: T) | Rejected | Delivered(value: T) | NothingToTake | Flagged

  /** Apply one operation, or None when the operation would wait. */
  function Step<T>(q: Queue<T>, op: Op<T>): Option<(Queue<T>, Event<T>)> {
    match op
    case Put(x) =>
      if !EnqueueEnabled(q) then None
      else
        var (q', ok) := Enqueue(q, x);
        Some((q', if ok then Accepted(x) else Rejected))
    case Take =>
      if !DequeueEnabled(q) then None
      else
        var (q', got) := Dequeue(q);
        Some((q', if got.Some? then Delivered(got.value) else NothingToTake))
    case MarkFinished => Some((Finish(q), Flagged))
    case MarkDisposed => Some((Dispose(q), Flagged))
  }

  /** The values a run accepted into the queue, in order. */
  function AcceptedValues<T>(events: seq<Event<T>>): seq<T> {
    if |events| == 0 then []
    else (match events[0] case Accepted(x) => [x] case _ => []) + AcceptedValues(events[1..])
  }

  /** The values a run delivered to takers, in order. */
  function DeliveredValues<T>(events: seq<Event<T>>): seq<T> {
    if |events| == 0 then []
    else (match events[0] case Delivered(x) => [x] case _ => []) + DeliveredValues(events[1..])
  }

  /** Apply the operations in turn; None if one of them would wait. */
  function Run<T>(q: Queue<T>, ops: seq<Op<T>>): Option<(Queue<T>, seq<Event<T>>)>
    decreases |ops|
  {
    if |ops| == 0 then Some((q, []))
    else
      match Step(q, ops[0])
      case None => None
      case Some((q1, e)) =>
        match Run(q1, ops[1..])
        case None => None
        case Some((q2, es)) => Some((q2, [e] + es))
  }

  /** Exactly the operations whose wait loop does not exit are the ones that block. */
  lemma StepBlocksIff<T>(q: Queue<T>, op: Op<T>)
    ensures Step(q, op).None? <==>
      (op.Put? && !q.disposed && |q.items| >= q.capacity) ||
      (op.Take? && !q.disposed && !q.finished && |q.items| == 0)
  {
  }

  /** Every run keeps the count within the capacity. */
  lemma {:induction false} RunKeepsValid<T>(q: Queue<T>, ops: seq<Op<T>>)
    requires Valid(q) && Run(q, ops).Some?
    ensures Valid(Run(q, ops).value.0)
    decreases |ops|
  {
    if |ops| > 0 {
      var (q1, e) := Step(q, ops[0]).value;
      RunKeepsValid(q1, ops[1..]);
    }
  }

  lemma ValuesCons<T>(e: Event<T>, es: seq<Event<T>>)
    ensures AcceptedValues([e] + es) == AcceptedValues([e]) + AcceptedValues(es)
    ensures DeliveredValues([e] + es) == DeliveredValues([e]) + DeliveredValues(es)
  {
    assert ([e] + es)[1..] == es;
    assert [e][1..] == [];
  }

  /** One step moves at most one value, at the back on a put and from the front on a take. */
  lemma StepIsFifo<T>(q: Queue<T>, op: Op<T>)
    requires Step(q, op).Some?
    ensures var (q1, e) := Step(q, op).value;
      q.items + AcceptedValues([e]) == DeliveredValues([e]) + q1.items
  {
    var (q1, e) := Step(q, op).value;
    assert [e][1..] == [];
  }

  /** A run that does not block is its first step followed by the run of the rest. */
  lemma RunCons<T>(q: Queue<T>, ops: seq<Op<T>>)
    requires |ops| > 0 && Run(q, ops).Some?
    ensures Step(q, ops[0]).Some?
    ensures var (q1, e) := Step(q, ops[0]).value;
      Run(q1, ops[1..]).Some? &&
      Run(q, ops).value == (Run(q1, ops[1..]).value.0, [e] + Run(q1, ops[1..]).value.1)
  {
  }

  lemma Splice<T>(items: seq<T>, acc: seq<T>, del: seq<T>, mid: seq<T>, acc': seq<T>, del': seq<T>, left: seq<T>)
    requires items + acc == del + mid && mid + acc' == del' + left
    ensures items + (acc + acc') == (del + del') + left
  {
    calc {
      items + (acc + acc');
      (items + acc) + acc';
      (del + mid) + acc';
      del + (mid + acc');
      del + (del' + left);
    }
  }

  /** FIFO: what was in the queue plus what was accepted equals what was delivered plus
      what is left, so takers see items in the order they were put. */
  lemma {:induction false} RunIsFifo<T>(q: Queue<T>, ops: seq<Op<T>>)
    requires Run(q, ops).Some?
    ensures var (q', events) := Run(q, ops).value;
      q.items + AcceptedValues(events) == DeliveredValues(events) + q'.items
    decreases |ops|
  {
    if |ops| > 0 {
      RunCons(q, ops);
      var (q1, e) := Step(q, ops[0]).value;
      var (q2, es) := Run(q1, ops[1..]).value;
      RunIsFifo(q1, ops[1..]);
      StepIsFifo(q, ops[0]);
      ValuesCons(e, es);
      Splice(q.items, AcceptedValues([e]), DeliveredValues([e]), q1.items,
             AcceptedValues(es), DeliveredValues(es), q2.items);
    }
  }

  /** The flags are irreversible and the capacity fixed; once disposed, a run neither
      accepts nor delivers anything and leaves the items untouched. */
  lemma {:induction false} RunFlagsMonotone<T>(q: Queue<T>, ops: seq<Op<T>>)
    requires Run(q, ops).Some?
    ensures var (q', events) := Run(q, ops).value;
      && q'.capacity == q.capacity
      && (q.finished ==> q'.finished)
      && (q.disposed ==> q'.disposed && q'.items == q.items
                         && AcceptedValues(events) == [] && DeliveredValues(events) == [])
    decreases |ops|
  {
    if |ops| > 0 {
      var (q1, e) := Step(q, ops[0]).value;
      var (q2, es) := Run(q1, ops[1..]).value;
      RunFlagsMonotone(q1, ops[1..]);
      assert ([e] + es)[1..] == es;
    }
  }

  /** `Finish` and `Dispose` are idempotent and leave the items alone. */
  lemma FlagsIdempotent<T>(q: Queue<T>)
    ensures Finish(Finish(q)) == Finish(q) && Finish(q).items == q.items
    ensures Dispose(Dispose(q)) == Dispose(q) && Dispose(q).items == q.items
  {
  }
}
