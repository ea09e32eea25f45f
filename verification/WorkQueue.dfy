/**
 The work queue between the pool tasks and the job task (main/work_queue.c). Each locked region
 is one step; a step that has to wait leaves the queue alone.
 */
module WorkQueue {
  import opened Options

  /** QUEUE_SIZE */
  const SIZE: nat := 12

  /** A function pointer; None stands for NULL, that is, plain free. */
  type FreeFn = Option<nat>

  /** An item and the function that has to free it. */
  datatype Entry = Entry(item: nat, free: FreeFn)

  // ---------- the queue as a list ----------

  /** An item leaves the queue handed to a caller, or freed by queue_clear with some function. */
  datatype Departure = Handed(item: nat, free: FreeFn) | Freed(item: nat, free: FreeFn)

  datatype State = State(pending: seq<Entry>, free: FreeFn, out: seq<Departure>)

  datatype Event = Enqueue(item: nat) | Dequeue | TimedOut | Clear | SetFree(fn: FreeFn)

  function AllFreed(pending: seq<Entry>): (d: seq<Departure>)
    ensures |d| == |pending|
  {
    seq(|pending|, i requires 0 <= i < |pending| => Freed(pending[i].item, pending[i].free))
  }

  function Step(s: State, e: Event): State {
    match e
    case Enqueue(item) =>
      if |s.pending| >= SIZE then s else s.(pending := s.pending + [Entry(item, s.free)])
    case Dequeue =>
      if s.pending == [] then s
      else s.(pending := s.pending[1..], out := s.out + [Handed(s.pending[0].item, s.pending[0].free)])
    case TimedOut => s
    case Clear => s.(pending := [], out := s.out + AllFreed(s.pending))
    case SetFree(fn) => s.(free := fn)
  }

  function Run(events: seq<Event>): State {
    if events == [] then State([], None, []) else Step(Run(events[..|events| - 1]), events[|events| - 1])
  }

  // ---------- first in, first out, once ----------

  /** The free function in force after some steps: the one set last. */
  function InForce(events: seq<Event>): FreeFn {
    if events == [] then None
    else
      var last := events[|events| - 1];
      if last.SetFree? then last.fn else InForce(events[..|events| - 1])
  }

  /** Everything ever let into the queue, with the free function in force at that moment. */
  function Arrivals(events: seq<Event>): seq<Entry> {
    if events == [] then []
    else
      var before, last := events[..|events| - 1], events[|events| - 1];
      if last.Enqueue? && |Run(before).pending| < SIZE
      then Arrivals(before) + [Entry(last.item, InForce(before))]
      else Arrivals(before)
  }

  /** What left the queue, without how. */
  function Left(out: seq<Departure>): (e: seq<Entry>)
    ensures |e| == |out|
  {
    seq(|out|, i requires 0 <= i < |out| => Entry(out[i].item, out[i].free))
  }

  lemma LeftConcat(a: seq<Departure>, b: seq<Departure>)
    ensures Left(a + b) == Left(a) + Left(b)
  {
  }

  lemma LeftFreed(pending: seq<Entry>)
    ensures Left(AllFreed(pending)) == pending
  {
  }

  /**
   Over every interleaving: what arrived is what left, in order, followed by what is still
   queued. So every item leaves at most once, none is lost, and each is paired with the free
   function that was in force when it was enqueued, however often that was swapped.
   */
  lemma {:induction false} FirstInFirstOut(events: seq<Event>)
    ensures var s := Run(events);
      && Left(s.out) + s.pending == Arrivals(events)
      && s.free == InForce(events)
      && |s.pending| <= SIZE
  {
    if events != [] {
      hide Left, AllFreed;
      var before, last := events[..|events| - 1], events[|events| - 1];
      FirstInFirstOut(before);
      var s := Run(before);
      match last
      case Enqueue(item) =>
        assert Left(s.out) + (s.pending + [Entry(item, s.free)]) == Left(s.out) + s.pending + [Entry(item, s.free)];
      case Dequeue =>
        if s.pending != [] {
          LeftOne(s.out, s.pending[0]);
          assert s.pending == [s.pending[0]] + s.pending[1..];
        }
      case Clear =>
        LeftConcat(s.out, AllFreed(s.pending));
        LeftFreed(s.pending);
        assert Left(s.out) + s.pending + [] == Left(s.out) + s.pending;
      case _ =>
    }
  }

  lemma LeftOne(out: seq<Departure>, e: Entry)
    ensures Left(out + [Handed(e.item, e.free)]) == Left(out) + [e]
  {
  }

  /** The entries the dequeues of a run hand to their callers, and those its clears free, in order. */
  function Returned(events: seq<Event>): seq<Departure> {
    if events == [] then []
    else
      var before, last := events[..|events| - 1], events[|events| - 1];
      var waiting := Run(before).pending;
      match last
      case Dequeue => Returned(before) + if waiting == [] then [] else [Handed(waiting[0].item, waiting[0].free)]
      case Clear => Returned(before) + AllFreed(waiting)
      case _ => Returned(before)
  }

  /**
   Over every interleaving: what dequeues returned and clears freed, in order, followed by what is
   still queued, are the arrivals. So every item is handed out or freed exactly once or still there.
   */
  lemma {:induction false} EachOnce(events: seq<Event>)
    ensures Left(Returned(events)) + Run(events).pending == Arrivals(events)
    ensures Returned(events) == Run(events).out
  {
    FirstInFirstOut(events);
    if events != [] {
      EachOnce(events[..|events| - 1]);
    }
  }

  // ---------- the ring ----------

  /** The cell k places behind the head. */
  function Cell(head: nat, k: nat): (c: nat)
    ensures c < SIZE
  {
    (head + k) % SIZE
  }

  /** All cells of one turn are different. */
  lemma CellsDiffer(head: nat, n: nat)
    requires head < SIZE && n < SIZE
    ensures forall k :: 0 <= k < n ==> Cell(head, k) != Cell(head, n)
  {
  }

  lemma CellNext(head: nat, k: nat)
    requires head < SIZE && k < SIZE
    ensures Cell((head + 1) % SIZE, k) == Cell(head, k + 1)
    ensures (Cell(head, k) + 1) % SIZE == Cell(head, k + 1)
    ensures Cell(head, 0) == head
  {
  }

  class Queue {
    const buffer: array<nat>
    const itemFree: array<FreeFn>
    var head: nat
    var tail: nat
    var count: nat
    var free: FreeFn
    ghost var pending: seq<Entry>
    ghost var out: seq<Departure>

    ghost predicate Valid()
      reads this, buffer, itemFree
    {
      && buffer.Length == SIZE && itemFree.Length == SIZE
      && head < SIZE && count <= SIZE && tail == Cell(head, count)
      && |pending| == count
      && forall k :: 0 <= k < count ==>
           buffer[Cell(head, k)] == pending[k].item && itemFree[Cell(head, k)] == pending[k].free
    }

    ghost function Abstract(): State
      reads this
    {
      State(pending, free, out)
    }

    /** queue_init */
    constructor ()
      ensures Valid() && Abstract() == Run([])
    {
      buffer := new nat[SIZE](_ => 0);
      itemFree := new FreeFn[SIZE](_ => None);
      head, tail, count, free, pending, out := 0, 0, 0, None, [], [];
    }

    /** queue_enqueue, or one more round of waiting if the ring is full. */
    method EnqueueItem(item: nat) returns (done: bool)
      requires Valid()
      modifies this, buffer, itemFree
      ensures Valid() && Abstract() == Step(old(Abstract()), Enqueue(item))
      ensures done == (|old(pending)| < SIZE)
      ensures pending == old(pending) + (if done then [Entry(item, old(free))] else []) && out == old(out)
    {
      if count == SIZE {
        return false;
      }
      hide Cell;
      CellsDiffer(head, count);
      CellNext(head, count);
      buffer[tail] := item;
      itemFree[tail] := free;
      tail := (tail + 1) % SIZE;
      count := count + 1;
      pending := pending + [Entry(item, free)];
      done := true;
    }

    /** The front item and its free function leave the ring. */
    method Pop() returns (item: nat, fn: FreeFn)
      requires Valid() && count > 0
      modifies this`head, this`count, this`pending
      ensures Valid() && pending == old(pending)[1..]
      ensures item == old(pending)[0].item && fn == old(pending)[0].free
    {
      hide Cell;
      CellNext(head, 0);
      item, fn := buffer[head], itemFree[head];
      ghost var first := head;
      head := (head + 1) % SIZE;
      count := count - 1;
      pending := pending[1..];
      forall k | 0 <= k <= count
        ensures Cell(head, k) == Cell(first, k + 1)
      {
        CellNext(first, k);
      }
      assert forall k :: 0 <= k < count ==> pending[k] == old(pending)[k + 1];
    }

    /** queue_dequeue and queue_dequeue_timeout_ex, or one more round of waiting if the ring is empty. */
    method DequeueItem() returns (item: Option<nat>, fn: FreeFn)
      requires Valid()
      modifies this`head, this`count, this`pending, this`out
      ensures Valid() && Abstract() == Step(old(Abstract()), Dequeue)
      ensures old(pending) == [] ==> item == None
      ensures old(pending) != [] ==>
        && item == Some(old(pending)[0].item) && fn == old(pending)[0].free
        && pending == old(pending)[1..] && out == old(out) + [Handed(old(pending)[0].item, fn)]
    {
      if count == 0 {
        return None, None;
      }
      var front;
      front, fn := Pop();
      item := Some(front);
      out := out + [Handed(front, fn)];
    }

    /** The protocol tasks assign free_fn directly. */
    method SetFreeFn(fn: FreeFn)
      requires Valid()
      modifies this`free
      ensures Valid() && Abstract() == Step(old(Abstract()), SetFree(fn)) && free == fn
    {
      free := fn;
    }

    /** queue_clear: every item is freed with its own function. */
    method ClearItems()
      requires Valid()
      modifies this`head, this`count, this`pending, this`out
      ensures Valid() && Abstract() == Step(old(Abstract()), Clear) && count == 0 && pending == []
      ensures |out| == |old(out)| + |old(pending)| && out[..|old(out)|] == old(out)
      ensures forall k :: 0 <= k < |old(pending)| ==> out[|old(out)| + k] == Freed(old(pending)[k].item, old(pending)[k].free)
    {
      ghost var all, start := pending, out;
      ghost var n := 0;
      while count > 0
        invariant Valid() && free == old(free)
        invariant n <= |all| && pending == all[n..] && out == start + AllFreed(all)[..n]
        decreases count
      {
        var item, fn := Pop();
        out := out + [Freed(item, fn)];
        n := n + 1;
      }
      assert AllFreed(all)[..n] == AllFreed(all);
    }
  }
}
