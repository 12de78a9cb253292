/** The two-semaphore protocol of BoundedQueue, as a state machine over the atomic steps of any number
    of threads. The underlying queue is an atomic bounded queue whose writes and reads are not checked
    by the caller; the semaphores are counters. */
module BoundedQueue {
  import opened Wrappers

  /** Where a thread is: outside, or after the first or the second step of an operation. */
  datatype Thread<T> =
    | Outside
    | Writing(item: T)   // holds an enqueue permit, has not written yet
    | Written            // has written, has not signalled yet
    | Reading            // holds a dequeue permit, has not read yet
    | HasRead(item: T)   // has read, has not signalled yet

  datatype State<T> = State(capacity: nat, enqueuePermits: nat, dequeuePermits: nat, queue: seq<T>,
                            threads: seq<Thread<T>>, written: seq<T>, read: seq<T>, failed: bool)

  datatype Step<T> =
    | EnqueueWait(thread: nat, item: T)
    | Write(thread: nat)
    | DequeueSignal(thread: nat)
    | DequeueWait(thread: nat)
    | Read(thread: nat)
    | EnqueueSignal(thread: nat)

  ghost predicate IsInit<T>(s: State<T>) {
    && s.enqueuePermits == s.capacity && s.dequeuePermits == 0
    && s.queue == s.written == s.read == [] && !s.failed
    && forall t :: 0 <= t < |s.threads| ==> s.threads[t] == Outside
  }

  /** A thread may take a step when it has come that far, and a wait needs a permit. A try operation
      that finds none leaves the state as it is. */
  ghost predicate Enabled<T>(s: State<T>, step: Step<T>) {
    && step.thread < |s.threads|
    && match step
       case EnqueueWait(t, _) => s.threads[t].Outside? && s.enqueuePermits > 0
       case Write(t) => s.threads[t].Writing?
       case DequeueSignal(t) => s.threads[t].Written?
       case DequeueWait(t) => s.threads[t].Outside? && s.dequeuePermits > 0
       case Read(t) => s.threads[t].Reading?
       case EnqueueSignal(t) => s.threads[t].HasRead?
  }

  /** The effect of a step. A write to a full queue is lost and a read from an empty one yields
      nothing, as the ignored results of writeIfNotFull and readIfNotEmpty would have it. */
  ghost function After<T>(s: State<T>, step: Step<T>): State<T>
    requires Enabled(s, step)
  {
    match step
    case EnqueueWait(t, item) =>
      s.(enqueuePermits := s.enqueuePermits - 1, threads := s.threads[t := Writing(item)])
    case Write(t) =>
      if |s.queue| < s.capacity then
        var item := s.threads[t].item;
        s.(queue := s.queue + [item], written := s.written + [item], threads := s.threads[t := Written])
      else s.(failed := true, threads := s.threads[t := Written])
    case DequeueSignal(t) =>
      s.(dequeuePermits := s.dequeuePermits + 1, threads := s.threads[t := Outside])
    case DequeueWait(t) =>
      s.(dequeuePermits := s.dequeuePermits - 1, threads := s.threads[t := Reading])
    case Read(t) =>
      if s.queue != [] then
        s.(queue := s.queue[1..], read := s.read + [s.queue[0]], threads := s.threads[t := HasRead(s.queue[0])])
      else s.(failed := true, threads := s.threads[t := Outside])
    case EnqueueSignal(t) =>
      s.(enqueuePermits := s.enqueuePermits + 1, threads := s.threads[t := Outside])
  }

  ghost predicate IsRun<T>(states: seq<State<T>>, steps: seq<Step<T>>) {
    && |states| == |steps| + 1 && IsInit(states[0])
    && forall i :: 0 <= i < |steps| ==> Enabled(states[i], steps[i]) && states[i + 1] == After(states[i], steps[i])
  }

  // ----- The invariant -----

  datatype Place = PWriting | PWritten | PReading | PHasRead

  ghost predicate IsAt<T>(t: Thread<T>, p: Place) {
    match p
    case PWriting => t.Writing?
    case PWritten => t.Written?
    case PReading => t.Reading?
    case PHasRead => t.HasRead?
  }

  ghost function Count<T>(threads: seq<Thread<T>>, p: Place): nat {
    if threads == [] then 0
    else Count(threads[..|threads| - 1], p) + if IsAt(threads[|threads| - 1], p) then 1 else 0
  }

  lemma {:induction false} CountUpdate<T>(threads: seq<Thread<T>>, i: nat, t: Thread<T>, p: Place)
    requires i < |threads|
    ensures Count(threads[i := t], p) + (if IsAt(threads[i], p) then 1 else 0)
            == Count(threads, p) + if IsAt(t, p) then 1 else 0
  {
    var n := |threads| - 1;
    if i == n {
      assert threads[i := t][..n] == threads[..n];
    } else {
      assert threads[i := t][..n] == threads[..n][i := t];
      CountUpdate(threads[..n], i, t, p);
    }
  }

  lemma {:induction false} NoneAt<T>(threads: seq<Thread<T>>, p: Place)
    ensures Count(threads, p) == 0 <==> forall t :: 0 <= t < |threads| ==> !IsAt(threads[t], p)
  {
    if threads != [] {
      NoneAt(threads[..|threads| - 1], p);
    }
  }

  /** Permits, operations between their two steps and queued items are conserved, nothing has been
      lost, and what has been read is what was written first. */
  ghost predicate Inv<T>(s: State<T>) {
    && s.enqueuePermits + Count(s.threads, PWriting) + |s.queue| + Count(s.threads, PHasRead) == s.capacity
    && |s.queue| == s.dequeuePermits + Count(s.threads, PWritten) + Count(s.threads, PReading)
    && s.written == s.read + s.queue
    && !s.failed
  }

  lemma InitInv<T>(s: State<T>)
    requires IsInit(s)
    ensures Inv(s)
  {
    NoneAt(s.threads, PWriting);
    NoneAt(s.threads, PWritten);
    NoneAt(s.threads, PReading);
    NoneAt(s.threads, PHasRead);
  }

  /** A thread about to write finds room, and one about to read finds an item. */
  lemma UncheckedOperationsSucceed<T>(s: State<T>, t: nat)
    requires Inv(s) && t < |s.threads|
    ensures s.threads[t].Writing? ==> |s.queue| < s.capacity
    ensures s.threads[t].Reading? ==> s.queue != []
  {
    NoneAt(s.threads, PWriting);
    NoneAt(s.threads, PReading);
    assert s.threads[t].Writing? ==> IsAt(s.threads[t], PWriting);
    assert s.threads[t].Reading? ==> IsAt(s.threads[t], PReading);
  }

  lemma StepInv<T>(s: State<T>, step: Step<T>)
    requires Inv(s) && Enabled(s, step)
    ensures Inv(After(s, step))
  {
    var t, s' := step.thread, After(s, step);
    UncheckedOperationsSucceed(s, t);
    assert s'.threads == s.threads[t := s'.threads[t]];
    CountUpdate(s.threads, t, s'.threads[t], PWriting);
    CountUpdate(s.threads, t, s'.threads[t], PWritten);
    CountUpdate(s.threads, t, s'.threads[t], PReading);
    CountUpdate(s.threads, t, s'.threads[t], PHasRead);
  }

  /** In every interleaving the invariant holds throughout. */
  lemma {:induction false} RunInv<T>(states: seq<State<T>>, steps: seq<Step<T>>, i: nat)
    requires IsRun(states, steps) && i < |states|
    ensures Inv(states[i])
  {
    if i == 0 {
      InitInv(states[0]);
    } else {
      RunInv(states, steps, i - 1);
      StepInv(states[i - 1], steps[i - 1]);
      assert states[i - 1 + 1] == After(states[i - 1], steps[i - 1]);
    }
  }

  /** No unchecked write or read ever fails, the items read are always a prefix of the items written,
      and the queue holds the rest. */
  lemma RunsAreFifo<T>(states: seq<State<T>>, steps: seq<Step<T>>, i: nat)
    requires IsRun(states, steps) && i < |states|
    ensures !states[i].failed && states[i].read <= states[i].written
    ensures states[i].written == states[i].read + states[i].queue && |states[i].queue| <= states[i].capacity
  {
    RunInv(states, steps, i);
  }

  // ----- What each operation carries -----

  // Read off the steps alone: what was enqueued and in which order, whatever the states say.

  /** The item of the latest enqueue of a thread among the first n steps. */
  ghost function Offered<T>(steps: seq<Step<T>>, n: nat, t: nat): Option<T>
    requires n <= |steps|
  {
    if n == 0 then None
    else if steps[n - 1].EnqueueWait? && steps[n - 1].thread == t then Some(steps[n - 1].item)
    else Offered(steps, n - 1, t)
  }

  /** The items of the enqueues whose writes are among the first n steps, in the order of the writes. */
  ghost function Enqueued<T>(steps: seq<Step<T>>, n: nat): seq<Option<T>>
    requires n <= |steps|
  {
    if n == 0 then []
    else Enqueued(steps, n - 1) + if steps[n - 1].Write? then [Offered(steps, n - 1, steps[n - 1].thread)] else []
  }

  /** The number of reads among the first n steps. */
  ghost function Reads<T>(steps: seq<Step<T>>, n: nat): nat
    requires n <= |steps|
  {
    if n == 0 then 0 else Reads(steps, n - 1) + if steps[n - 1].Read? then 1 else 0
  }

  ghost predicate Listed<T>(items: seq<T>, options: seq<Option<T>>) {
    |items| == |options| && forall k :: 0 <= k < |items| ==> options[k] == Some(items[k])
  }

  /** The histories in a state are those of the steps, and a writer carries what it was given. */
  ghost predicate Faithful<T>(s: State<T>, steps: seq<Step<T>>, n: nat)
    requires n <= |steps|
  {
    && Listed(s.written, Enqueued(steps, n)) && |s.read| == Reads(steps, n)
    && forall t :: 0 <= t < |s.threads| && s.threads[t].Writing? ==> Offered(steps, n, t) == Some(s.threads[t].item)
  }

  lemma FaithfulNext<T>(s: State<T>, steps: seq<Step<T>>, n: nat)
    requires n < |steps| && Inv(s) && Faithful(s, steps, n) && Enabled(s, steps[n])
    ensures Faithful(After(s, steps[n]), steps, n + 1)
  {
    UncheckedOperationsSucceed(s, steps[n].thread);
  }

  lemma {:induction false} RunFaithful<T>(states: seq<State<T>>, steps: seq<Step<T>>, i: nat)
    requires IsRun(states, steps) && i < |states|
    ensures Faithful(states[i], steps, i)
  {
    if i > 0 {
      RunInv(states, steps, i - 1);
      RunFaithful(states, steps, i - 1);
      FaithfulNext(states[i - 1], steps, i - 1);
      assert states[i - 1 + 1] == After(states[i - 1], steps[i - 1]);
    }
  }

  /** A write appends the item its own enqueue was called with; a read hands over the item at the next
      place of what was written. */
  lemma StepCarries<T>(states: seq<State<T>>, steps: seq<Step<T>>, i: nat)
    requires IsRun(states, steps) && i < |steps|
    ensures steps[i].Write? ==> exists x ::
              && Offered(steps, i, steps[i].thread) == Some(x)
              && states[i + 1].written == states[i].written + [x]
    ensures steps[i].Read? ==>
              && Reads(steps, i) < |states[i].written|
              && states[i + 1].threads[steps[i].thread] == HasRead(states[i].written[Reads(steps, i)])
  {
    RunInv(states, steps, i);
    RunFaithful(states, steps, i);
    UncheckedOperationsSucceed(states[i], steps[i].thread);
    assert states[i + 1] == After(states[i], steps[i]);
  }

  ghost predicate Idle<T>(steps: seq<Step<T>>, from: nat, to: nat, t: nat) {
    forall k :: from <= k < to && k < |steps| ==> steps[k].thread != t
  }

  /** A thread is moved by its own steps only. */
  lemma {:induction false} OthersLeaveIt<T>(states: seq<State<T>>, steps: seq<Step<T>>, i: nat, j: nat, t: nat)
    requires IsRun(states, steps) && i <= j < |states| && t < |states[i].threads| && Idle(steps, i, j, t)
    ensures t < |states[j].threads| && states[j].threads[t] == states[i].threads[t]
  {
    if i < j {
      OthersLeaveIt(states, steps, i, j - 1, t);
      assert states[j - 1 + 1] == After(states[j - 1], steps[j - 1]) && steps[j - 1].thread != t;
    }
  }

  /** First in, first out, for the callers: what a dequeue returns when it signals, having made the k-th
      read, is what the enqueue that made the k-th write was called with. */
  lemma DequeueReturnsInOrder<T>(states: seq<State<T>>, steps: seq<Step<T>>, i: nat, j: nat, t: nat)
    requires IsRun(states, steps) && i < j < |steps| && steps[i] == Read(t) && steps[j] == EnqueueSignal(t)
    requires Idle(steps, i + 1, j, t)
    ensures Reads(steps, i) < |Enqueued(steps, i)|
    ensures states[j].threads[t].HasRead? && Enqueued(steps, i)[Reads(steps, i)] == Some(states[j].threads[t].item)
  {
    StepCarries(states, steps, i);
    RunFaithful(states, steps, i);
    OthersLeaveIt(states, steps, i + 1, j, t);
  }

  // ----- Waiting -----

  ghost predicate Quiet<T>(s: State<T>) {
    forall t :: 0 <= t < |s.threads| ==> s.threads[t].Outside?
  }

  /** With no operation under way, a thread has to wait to enqueue exactly when the queue is full, and
      to dequeue exactly when it is empty: no signal is ever lost. */
  lemma WaitsOnlyWhenFullOrEmpty<T>(s: State<T>)
    requires Inv(s) && Quiet(s)
    ensures s.enqueuePermits == s.capacity - |s.queue| && s.dequeuePermits == |s.queue|
  {
    NoneAt(s.threads, PWriting);
    NoneAt(s.threads, PWritten);
    NoneAt(s.threads, PReading);
    NoneAt(s.threads, PHasRead);
  }

  /** As long as there is a thread and some capacity, some step is possible. */
  lemma NoDeadlock<T>(s: State<T>, item: T) returns (step: Step<T>)
    requires Inv(s) && s.threads != [] && s.capacity > 0
    ensures Enabled(s, step)
  {
    if Quiet(s) {
      WaitsOnlyWhenFullOrEmpty(s);
      step := if s.dequeuePermits > 0 then DequeueWait(0) else EnqueueWait(0, item);
    } else {
      var t :| 0 <= t < |s.threads| && !s.threads[t].Outside?;
      step := if s.threads[t].Writing? then Write(t)
              else if s.threads[t].Written? then DequeueSignal(t)
              else if s.threads[t].Reading? then Read(t)
              else EnqueueSignal(t);
    }
  }
}
