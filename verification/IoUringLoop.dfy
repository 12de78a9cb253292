/** CoIoUring: coroutines submit requests to a queue, one loop moves them to the submission ring and
    reaps completions, and the kernel takes, performs and completes them in any order. A state machine
    over the steps of all three. Requests are numbered; a request is submitted once. */
module IoUringLoop {
  import opened Arithmetic

  const WRAP := 0x1_0000_0000
  const MAX_SUBMITS := 5

  function U32(x: int): nat {
    x % WRAP
  }

  /** Room in the submission ring, computed on 32-bit counters that wrap around. */
  function SqSpace(entries: nat, ktail: nat, khead: nat): nat {
    U32(entries - U32(ktail - khead))
  }

  datatype Cqe = Cqe(req: nat, res: int)

  datatype Phase =
    | Top                      // before the queue sizes are read
    | Preparing(left: nat)     // entries of this pass still to be prepared
    | Reaping(count: nat)      // completions processed but not yet given back to the kernel
    | Advancing(count: nat)    // the same, after the last one

  datatype State = State(
    entries: nat, ktail: nat, khead: nat,
    queue: seq<nat>,           // submitted, not yet dequeued by the loop
    prepared: seq<nat>,        // in the ring, not yet visible to the kernel
    sq: seq<nat>,              // visible, not yet taken
    kernel: set<nat>,          // being performed
    cq: seq<Cqe>,              // completed, not yet given back
    phase: Phase, batch: nat,
    submitted: set<nat>,
    results: map<nat, int>,    // what the kernel answered
    done: map<nat, int>,       // res_ of the requests whose baton was posted
    posts: map<nat, nat>,      // how often it was posted
    noSqe: bool)               // a submission entry was asked for and not available

  datatype Step =
    | Submit(req: nat)
    | BeginPass
    | PrepareOne
    | Flush
    | ReapOne
    | StopReaping
    | Advance
    | KernelTake
    | KernelComplete(req: nat, res: int)

  ghost predicate IsInit(s: State) {
    && 0 < s.entries < WRAP && s.ktail == s.khead < WRAP
    && s.queue == s.prepared == s.sq == [] && s.kernel == {} && s.cq == [] && s.phase == Top && s.batch == 0
    && s.submitted == {} && s.results == map[] && s.done == map[] && s.posts == map[] && !s.noSqe
  }

  /** The number of entries one pass takes. */
  ghost function PassSize(s: State): nat {
    Min(Min(|s.queue|, SqSpace(s.entries, s.ktail, s.khead)), MAX_SUBMITS)
  }

  ghost predicate Enabled(s: State, step: Step) {
    match step
    case Submit(req) => req !in s.submitted
    case BeginPass => s.phase.Top? && (s.queue != [] || s.cq != [])
    case PrepareOne => s.phase.Preparing? && s.phase.left > 0 && s.queue != []
    case Flush => s.phase == Preparing(0)
    case ReapOne => s.phase.Reaping? && s.phase.count < |s.cq|
    case StopReaping => s.phase.Reaping? && s.phase.count >= |s.cq|
    case Advance => s.phase.Advancing? && s.phase.count <= |s.cq|
    case KernelTake => s.sq != []
    case KernelComplete(req, _) => req in s.kernel
  }

  ghost function After(s: State, step: Step): State
    requires Enabled(s, step)
  {
    match step
    case Submit(req) => s.(queue := s.queue + [req], submitted := s.submitted + {req})
    case BeginPass =>
      if s.queue == [] then s.(phase := Reaping(0))
      else s.(phase := Preparing(PassSize(s)), batch := PassSize(s))
    case PrepareOne =>
      // io_uring_get_sqe yields an entry unless the ring is full
      if U32(s.ktail + |s.prepared| - s.khead) < s.entries then
        s.(queue := s.queue[1..], prepared := s.prepared + [s.queue[0]], phase := Preparing(s.phase.left - 1))
      else s.(noSqe := true, queue := s.queue[1..], phase := Preparing(s.phase.left - 1))
    case Flush =>
      s.(ktail := U32(s.ktail + |s.prepared|), sq := s.sq + s.prepared, prepared := [], phase := Reaping(0))
    case ReapOne =>
      var cqe := s.cq[s.phase.count];
      s.(done := s.done[cqe.req := cqe.res],
         posts := s.posts[cqe.req := if cqe.req in s.posts then s.posts[cqe.req] + 1 else 1],
         phase := Reaping(s.phase.count + 1))
    case StopReaping => s.(phase := Advancing(s.phase.count))
    case Advance => s.(cq := s.cq[s.phase.count..], phase := Top)
    case KernelTake => s.(khead := U32(s.khead + 1), kernel := s.kernel + {s.sq[0]}, sq := s.sq[1..])
    case KernelComplete(req, res) =>
      s.(kernel := s.kernel - {req}, cq := s.cq + [Cqe(req, res)], results := s.results[req := res])
  }

  ghost predicate IsRun(states: seq<State>, steps: seq<Step>) {
    && |states| == |steps| + 1 && IsInit(states[0])
    && forall i :: 0 <= i < |steps| ==> Enabled(states[i], steps[i]) && states[i + 1] == After(states[i], steps[i])
  }

  // ----- The invariant -----

  ghost function Processed(s: State): nat {
    match s.phase
    case Reaping(count) => count
    case Advancing(count) => count
    case _ => 0
  }

  ghost function Requests(cq: seq<Cqe>): (reqs: seq<nat>)
    ensures |reqs| == |cq| && forall i :: 0 <= i < |cq| ==> reqs[i] == cq[i].req
  {
    seq(|cq|, i requires 0 <= i < |cq| => cq[i].req)
  }

  /** The completions not processed yet. */
  ghost function Pending(s: State): seq<Cqe> {
    if Processed(s) <= |s.cq| then s.cq[Processed(s)..] else []
  }

  /** Every submitted request is in exactly one place. */
  ghost predicate EachInOnePlace(s: State) {
    multiset(s.queue) + multiset(s.prepared) + multiset(s.sq) + multiset(s.kernel)
    + multiset(Requests(Pending(s))) + multiset(s.done.Keys) == multiset(s.submitted)
  }

  /** The ring counters agree with the ring, and the pass under way fits into it. */
  ghost predicate RingConsistent(s: State) {
    && 0 < s.entries < WRAP && s.ktail < WRAP && s.khead < WRAP
    && U32(s.ktail - s.khead) == |s.sq|
    && Processed(s) <= |s.cq|
    && (if s.phase.Preparing? then
          && |s.prepared| + s.phase.left == s.batch && s.phase.left <= |s.queue|
          && |s.sq| + |s.prepared| + s.phase.left <= s.entries
        else s.prepared == [] && |s.sq| <= s.entries)
    && !s.noSqe
  }

  /** The completions hold what the kernel answered. */
  ghost predicate Answered(cq: seq<Cqe>, results: map<nat, int>) {
    forall i :: 0 <= i < |cq| ==> cq[i].req in results && results[cq[i].req] == cq[i].res
  }

  /** Each finished request carries the kernel's answer to it, delivered once. */
  ghost predicate ResultsDelivered(s: State) {
    && Answered(Pending(s), s.results)
    && (forall r :: r in s.done ==> r in s.results && s.results[r] == s.done[r])
    && s.posts.Keys == s.done.Keys && forall r :: r in s.posts ==> s.posts[r] == 1
  }

  ghost predicate Inv(s: State) {
    EachInOnePlace(s) && RingConsistent(s) && ResultsDelivered(s)
  }

  // ----- The ring counters -----

  /** Advancing either counter, with or without wrapping, moves their difference accordingly. */
  lemma CounterDifference(tail: nat, head: nat, n: nat)
    requires tail < WRAP && head < WRAP
    ensures U32(tail - head) + n < WRAP ==>
              U32(tail + n - head) == U32(tail - head) + n == U32(U32(tail + n) - head)
    ensures U32(tail - head) > 0 ==> U32(tail - U32(head + 1)) == U32(tail - head) - 1
  {
  }

  /** SqSpace is the room left, however often the counters have wrapped. */
  lemma SqSpaceIsRoomLeft(s: State)
    requires RingConsistent(s) && s.phase.Top?
    ensures SqSpace(s.entries, s.ktail, s.khead) == s.entries - |s.sq|
  {
  }

  // ----- Preservation -----

  lemma InitInv(s: State)
    requires IsInit(s)
    ensures Inv(s)
  {
    assert Requests(Pending(s)) == [];
  }

  lemma BeginKeepsRing(s: State)
    requires RingConsistent(s) && Enabled(s, BeginPass)
    ensures RingConsistent(After(s, BeginPass))
  {
    SqSpaceIsRoomLeft(s);
  }

  lemma PrepareKeepsRing(s: State)
    requires RingConsistent(s) && Enabled(s, PrepareOne)
    ensures RingConsistent(After(s, PrepareOne))
  {
    CounterDifference(s.ktail, s.khead, |s.prepared|);
  }

  lemma FlushKeepsRing(s: State)
    requires RingConsistent(s) && Enabled(s, Flush)
    ensures RingConsistent(After(s, Flush))
  {
    CounterDifference(s.ktail, s.khead, |s.prepared|);
  }

  lemma KernelTakeKeepsRing(s: State)
    requires RingConsistent(s) && Enabled(s, KernelTake)
    ensures RingConsistent(After(s, KernelTake))
  {
    CounterDifference(s.ktail, s.khead, 0);
  }

  lemma StepKeepsRing(s: State, step: Step)
    requires RingConsistent(s) && Enabled(s, step)
    ensures RingConsistent(After(s, step))
  {
    match step
    case BeginPass => BeginKeepsRing(s);
    case PrepareOne => PrepareKeepsRing(s);
    case Flush => FlushKeepsRing(s);
    case KernelTake => KernelTakeKeepsRing(s);
    case _ =>
  }

  lemma PendingAfterCompletion(s: State, req: nat, res: int)
    requires RingConsistent(s) && Enabled(s, KernelComplete(req, res))
    ensures Pending(After(s, KernelComplete(req, res))) == Pending(s) + [Cqe(req, res)]
    ensures Requests(Pending(After(s, KernelComplete(req, res)))) == Requests(Pending(s)) + [req]
  {
  }

  lemma PendingAfterReap(s: State)
    requires RingConsistent(s) && Enabled(s, ReapOne)
    ensures Pending(s) == [s.cq[s.phase.count]] + Pending(After(s, ReapOne))
    ensures Requests(Pending(s)) == [s.cq[s.phase.count].req] + Requests(Pending(After(s, ReapOne)))
  {
    DropOne(s.cq, s.phase.count);
  }

  lemma DropOne(cq: seq<Cqe>, k: nat)
    requires k < |cq|
    ensures cq[k..] == [cq[k]] + cq[k + 1..]
    ensures Requests(cq[k..]) == [cq[k].req] + Requests(cq[k + 1..])
  {
  }

  lemma PendingUnchanged(s: State, step: Step)
    requires RingConsistent(s) && Enabled(s, step) && !step.ReapOne? && !step.KernelComplete?
    ensures Pending(After(s, step)) == Pending(s)
  {
  }

  /** A request that has not finished is in no second place, so finishing it is new. */
  lemma PendingIsNotDone(s: State, r: nat)
    requires EachInOnePlace(s) && r in Requests(Pending(s))
    ensures r !in s.done && r !in s.kernel
    ensures multiset(Requests(Pending(s)))[r] == 1
  {
    assert multiset(s.submitted)[r] <= 1;
    assert multiset(s.done.Keys)[r] == 0 && multiset(s.kernel)[r] == 0;
  }

  lemma AddToMultiset(keys: set<nat>, r: nat)
    requires r !in keys
    ensures multiset(keys + {r}) == multiset(keys) + multiset{r}
  {
  }

  lemma ReapKeepsPlaces(s: State)
    requires RingConsistent(s) && EachInOnePlace(s) && Enabled(s, ReapOne)
    ensures EachInOnePlace(After(s, ReapOne))
  {
    var r, s' := s.cq[s.phase.count].req, After(s, ReapOne);
    PendingAfterReap(s);
    PendingIsNotDone(s, r);
    AddToMultiset(s.done.Keys, r);
    assert s'.done.Keys == s.done.Keys + {r};
    assert multiset(Requests(Pending(s))) == multiset{r} + multiset(Requests(Pending(s')));
  }

  lemma CompletionKeepsPlaces(s: State, req: nat, res: int)
    requires RingConsistent(s) && EachInOnePlace(s) && Enabled(s, KernelComplete(req, res))
    ensures EachInOnePlace(After(s, KernelComplete(req, res)))
  {
    PendingAfterCompletion(s, req, res);
  }

  lemma KernelTakeKeepsPlaces(s: State)
    requires RingConsistent(s) && EachInOnePlace(s) && Enabled(s, KernelTake)
    ensures EachInOnePlace(After(s, KernelTake))
  {
    PendingUnchanged(s, KernelTake);
    assert s.sq == [s.sq[0]] + s.sq[1..];
    assert multiset(s.submitted)[s.sq[0]] <= 1;
    AddToMultiset(s.kernel, s.sq[0]);
  }

  lemma PrepareKeepsPlaces(s: State)
    requires RingConsistent(s) && EachInOnePlace(s) && Enabled(s, PrepareOne)
    ensures EachInOnePlace(After(s, PrepareOne))
  {
    PendingUnchanged(s, PrepareOne);
    CounterDifference(s.ktail, s.khead, |s.prepared|);
    assert s.queue == [s.queue[0]] + s.queue[1..];
  }

  lemma StepKeepsPlaces(s: State, step: Step)
    requires RingConsistent(s) && EachInOnePlace(s) && Enabled(s, step)
    ensures EachInOnePlace(After(s, step))
  {
    match step
    case KernelComplete(req, res) => CompletionKeepsPlaces(s, req, res);
    case ReapOne => ReapKeepsPlaces(s);
    case PrepareOne => PrepareKeepsPlaces(s);
    case KernelTake => KernelTakeKeepsPlaces(s);
    case Submit(req) =>
      PendingUnchanged(s, step);
      assert multiset(s.submitted + {req}) == multiset(s.submitted) + multiset{req};
    case _ => PendingUnchanged(s, step);
  }

  /** The request at the head of the pending completions is finished for the first time. */
  lemma ReapIsNew(s: State)
    requires Inv(s) && Enabled(s, ReapOne)
    ensures var cqe := s.cq[s.phase.count];
            cqe.req !in s.done && cqe.req in s.results && s.results[cqe.req] == cqe.res
  {
    PendingAfterReap(s);
    assert Pending(s)[0] == s.cq[s.phase.count] && Requests(Pending(s))[0] in Requests(Pending(s));
    PendingIsNotDone(s, s.cq[s.phase.count].req);
  }

  lemma ReapDelivers(s: State)
    requires Inv(s) && Enabled(s, ReapOne)
    ensures ResultsDelivered(After(s, ReapOne))
  {
    ReapIsNew(s);
    PendingAfterReap(s);
    AnsweredTail(Pending(s), s.results);
    assert Pending(s)[1..] == Pending(After(s, ReapOne));
  }

  lemma AnsweredTail(cq: seq<Cqe>, results: map<nat, int>)
    requires Answered(cq, results) && cq != []
    ensures Answered(cq[1..], results)
  {
  }

  /** A request the kernel is performing has no completion yet. */
  lemma InKernelIsNew(s: State, req: nat)
    requires EachInOnePlace(s) && req in s.kernel
    ensures req !in s.done && req !in Requests(Pending(s))
  {
    assert multiset(s.submitted)[req] <= 1 && multiset(s.kernel)[req] == 1;
    assert multiset(s.done.Keys)[req] == 0 && multiset(Requests(Pending(s)))[req] == 0;
  }

  lemma AnsweredNext(cq: seq<Cqe>, results: map<nat, int>, req: nat, res: int)
    requires Answered(cq, results) && req !in Requests(cq)
    ensures Answered(cq + [Cqe(req, res)], results[req := res])
  {
    forall i | 0 <= i < |cq| ensures cq[i].req != req {
      assert Requests(cq)[i] in Requests(cq);
    }
  }

  lemma CompletionDelivers(s: State, req: nat, res: int)
    requires Inv(s) && Enabled(s, KernelComplete(req, res))
    ensures ResultsDelivered(After(s, KernelComplete(req, res)))
  {
    PendingAfterCompletion(s, req, res);
    InKernelIsNew(s, req);
    AnsweredNext(Pending(s), s.results, req, res);
  }

  lemma ResultsUnchanged(s: State, step: Step)
    requires Enabled(s, step) && !step.ReapOne? && !step.KernelComplete?
    ensures var s' := After(s, step); s'.results == s.results && s'.done == s.done && s'.posts == s.posts
  {
  }

  lemma SameDelivered(s: State, s': State)
    requires ResultsDelivered(s)
    requires Pending(s') == Pending(s) && s'.results == s.results && s'.done == s.done && s'.posts == s.posts
    ensures ResultsDelivered(s')
  {
  }

  lemma StepDelivers(s: State, step: Step)
    requires Inv(s) && Enabled(s, step)
    ensures ResultsDelivered(After(s, step))
  {
    match step
    case KernelComplete(req, res) => CompletionDelivers(s, req, res);
    case ReapOne => ReapDelivers(s);
    case _ =>
      PendingUnchanged(s, step);
      ResultsUnchanged(s, step);
      SameDelivered(s, After(s, step));
  }

  lemma StepInv(s: State, step: Step, s': State)
    requires Inv(s) && Enabled(s, step) && s' == After(s, step)
    ensures Inv(s')
  {
    StepKeepsRing(s, step);
    StepKeepsPlaces(s, step);
    StepDelivers(s, step);
  }

  lemma RunStep(states: seq<State>, steps: seq<Step>, i: nat)
    requires IsRun(states, steps) && i < |steps|
    ensures Enabled(states[i], steps[i]) && states[i + 1] == After(states[i], steps[i])
  {
  }

  lemma {:induction false} RunInv(states: seq<State>, steps: seq<Step>, i: nat)
    requires IsRun(states, steps) && i < |states|
    ensures Inv(states[i])
  {
    if i == 0 {
      InitInv(states[0]);
    } else {
      RunInv(states, steps, i - 1);
      RunStep(states, steps, i - 1);
      StepInv(states[i - 1], steps[i - 1], states[i]);
    }
  }

  // ----- What follows for runs -----

  /** Requests are conserved; each finished one has the kernel's answer and was signalled once. */
  lemma EveryRequestAccountedFor(states: seq<State>, steps: seq<Step>, i: nat)
    requires IsRun(states, steps) && i < |states|
    ensures EachInOnePlace(states[i])
    ensures forall r :: r in states[i].done ==>
              && r in states[i].results && states[i].done[r] == states[i].results[r]
              && r in states[i].posts && states[i].posts[r] == 1
    ensures forall r :: r in states[i].posts ==> r in states[i].done
  {
    RunInv(states, steps, i);
  }

  /** A pass takes as many requests as are queued, as the ring has room for, but at most five; each
      finds a free submission entry, and exactly as many are flushed. */
  lemma PassFits(states: seq<State>, steps: seq<Step>, i: nat)
    requires IsRun(states, steps) && i < |steps|
    ensures !states[i].noSqe && |states[i].sq| <= states[i].entries
    ensures steps[i].BeginPass? && states[i].queue != [] ==>
              states[i + 1].batch == Min(Min(|states[i].queue|, states[i].entries - |states[i].sq|), 5)
    ensures steps[i].PrepareOne? ==> |states[i + 1].prepared| == |states[i].prepared| + 1
    ensures steps[i].Flush? ==> |states[i].prepared| == states[i].batch
  {
    RunInv(states, steps, i);
    RunInv(states, steps, i + 1);
    assert states[i + 1] == After(states[i], steps[i]);
    if steps[i].BeginPass? {
      SqSpaceIsRoomLeft(states[i]);
    }
    if steps[i].PrepareOne? {
      CounterDifference(states[i].ktail, states[i].khead, |states[i].prepared|);
    }
  }

  // ----- Order -----

  ghost function Submissions(steps: seq<Step>, n: nat): seq<nat>
    requires n <= |steps|
  {
    if n == 0 then [] else Submissions(steps, n - 1) + Gained(steps[n - 1])
  }

  /** The requests the kernel has not taken yet, in the order in which it will. */
  ghost function Waiting(s: State): seq<nat> {
    s.sq + (s.prepared + s.queue)
  }

  ghost function Gained(step: Step): seq<nat> {
    if step.Submit? then [step.req] else []
  }

  ghost function Lost(s: State, step: Step): seq<nat> {
    if step.KernelTake? && s.sq != [] then [s.sq[0]] else []
  }

  lemma TakeFromWaiting(s: State)
    requires Inv(s) && Enabled(s, KernelTake)
    ensures Waiting(s) == [s.sq[0]] + Waiting(After(s, KernelTake))
    ensures After(s, KernelTake).kernel - s.kernel == {s.sq[0]}
  {
    DropFirst(s.sq, s.prepared + s.queue);
    RingHeadIsNew(s);
  }

  lemma DropFirst(a: seq<nat>, b: seq<nat>)
    requires a != []
    ensures a + b == [a[0]] + (a[1..] + b)
  {
  }

  lemma RingHeadIsNew(s: State)
    requires EachInOnePlace(s) && s.sq != []
    ensures s.sq[0] !in s.kernel
  {
    assert multiset(s.submitted)[s.sq[0]] <= 1;
    assert multiset(s.sq)[s.sq[0]] >= 1;
    assert multiset(s.kernel)[s.sq[0]] == 0;
  }

  lemma PrepareWaits(s: State)
    requires RingConsistent(s) && Enabled(s, PrepareOne)
    ensures Waiting(After(s, PrepareOne)) == Waiting(s)
  {
    CounterDifference(s.ktail, s.khead, |s.prepared|);
  }

  lemma OthersWait(s: State, step: Step)
    requires Enabled(s, step) && !step.KernelTake? && !step.PrepareOne?
    ensures Waiting(s) + Gained(step) == Waiting(After(s, step))
  {
  }

  lemma StepWaits(s: State, step: Step, s': State)
    requires Inv(s) && Enabled(s, step) && s' == After(s, step)
    ensures Waiting(s) + Gained(step) == Lost(s, step) + Waiting(s')
  {
    match step
    case KernelTake => TakeFromWaiting(s);
    case PrepareOne => PrepareWaits(s);
    case _ => OthersWait(s, step);
  }

  lemma StillInOrder(submissions: seq<nat>, taken: seq<nat>, waiting: seq<nat>, gained: seq<nat>, lost: seq<nat>,
                     waiting': seq<nat>)
    requires submissions == taken + waiting && waiting + gained == lost + waiting'
    ensures submissions + gained == taken + lost + waiting'
  {
    assert taken + waiting + gained == taken + (waiting + gained);
  }

  /** The requests the kernel has taken, in the order it took them. */
  ghost function Taken(states: seq<State>, steps: seq<Step>, n: nat): seq<nat>
    requires n <= |steps| < |states|
  {
    if n == 0 then [] else Taken(states, steps, n - 1) + Lost(states[n - 1], steps[n - 1])
  }

  /** Requests reach the kernel in the order in which they were submitted: what it has taken, followed
      by what waits in the ring and in the queue, is what was submitted. */
  lemma {:induction false} RequestsKeepOrder(states: seq<State>, steps: seq<Step>, i: nat)
    requires IsRun(states, steps) && i < |states|
    ensures Submissions(steps, i) == Taken(states, steps, i) + Waiting(states[i])
  {
    if i > 0 {
      RequestsKeepOrder(states, steps, i - 1);
      RunInv(states, steps, i - 1);
      RunStep(states, steps, i - 1);
      StepWaits(states[i - 1], steps[i - 1], states[i]);
      StillInOrder(Submissions(steps, i - 1), Taken(states, steps, i - 1), Waiting(states[i - 1]), Gained(steps[i - 1]),
                   Lost(states[i - 1], steps[i - 1]), Waiting(states[i]));
    }
  }

  /** What a step of the kernel takes up is what the list of the taken requests says. */
  lemma KernelTakesNext(states: seq<State>, steps: seq<Step>, i: nat)
    requires IsRun(states, steps) && i < |steps| && steps[i] == KernelTake
    ensures exists r :: Taken(states, steps, i + 1) == Taken(states, steps, i) + [r]
                        && states[i + 1].kernel - states[i].kernel == {r}
  {
    RunInv(states, steps, i);
    RunStep(states, steps, i);
    TakeFromWaiting(states[i]);
  }

  // ----- Whose results -----

  ghost predicate Completed(steps: seq<Step>, n: nat, req: nat, res: int) {
    exists k :: 0 <= k < n && k < |steps| && steps[k] == KernelComplete(req, res)
  }

  lemma {:induction false} ResultsAreTheKernels(states: seq<State>, steps: seq<Step>, i: nat, r: nat)
    requires IsRun(states, steps) && i < |states| && r in states[i].results
    ensures Completed(steps, i, r, states[i].results[r])
  {
    if i > 0 {
      RunStep(states, steps, i - 1);
      if steps[i - 1].KernelComplete? && steps[i - 1].req == r {
        assert steps[i - 1] == KernelComplete(r, states[i].results[r]);
      } else {
        ResultsAreTheKernels(states, steps, i - 1, r);
        var k :| 0 <= k < i - 1 && k < |steps| && steps[k] == KernelComplete(r, states[i - 1].results[r]);
      }
    }
  }

  /** A finished request holds what the kernel completed that very request with. */
  lemma FinishedWithItsResult(states: seq<State>, steps: seq<Step>, i: nat, r: nat)
    requires IsRun(states, steps) && i < |states| && r in states[i].done
    ensures Completed(steps, i, r, states[i].done[r])
  {
    RunInv(states, steps, i);
    ResultsAreTheKernels(states, steps, i, r);
  }

  // ----- Passes -----

  ghost predicate ReapedAll(states: seq<State>, steps: seq<Step>, from: nat, to: nat) {
    exists k :: from <= k < to && k < |steps| && k < |states| && steps[k] == StopReaping && Pending(states[k]) == []
  }

  ghost predicate HasReaped(s: State) {
    s.phase.Top? || s.phase.Advancing?
  }

  lemma OnlyReapingLeads(s: State, step: Step, s': State)
    requires Enabled(s, step) && s' == After(s, step) && RingConsistent(s) && HasReaped(s')
    ensures (HasReaped(s) && step != BeginPass) || (step == StopReaping && Pending(s) == [])
  {
  }

  lemma ReapedNext(states: seq<State>, steps: seq<Step>, from: nat, to: nat)
    requires ReapedAll(states, steps, from, to)
    ensures ReapedAll(states, steps, from, to + 1)
  {
    var k :| from <= k < to && k < |steps| && k < |states| && steps[k] == StopReaping && Pending(states[k]) == [];
    assert from <= k < to + 1 && steps[k] == StopReaping && Pending(states[k]) == [];
  }

  lemma ReapedNow(states: seq<State>, steps: seq<Step>, from: nat, k: nat)
    requires from <= k < |steps| && k < |states| && steps[k] == StopReaping && Pending(states[k]) == []
    ensures ReapedAll(states, steps, from, k + 1)
  {
  }

  /** To have reaped after a step, the loop has reaped before it or has just found nothing left. */
  ghost predicate NoneSkipped(s: State, step: Step, s': State) {
    HasReaped(s') ==> (HasReaped(s) && step != BeginPass) || (step == StopReaping && Pending(s) == [])
  }

  lemma StepSkipsNone(states: seq<State>, steps: seq<Step>, k: nat)
    requires IsRun(states, steps) && k < |steps|
    ensures NoneSkipped(states[k], steps[k], states[k + 1])
  {
    RunInv(states, steps, k);
    RunStep(states, steps, k);
    if HasReaped(states[k + 1]) {
      OnlyReapingLeads(states[k], steps[k], states[k + 1]);
    }
  }

  lemma {:induction false} ReapedSince(states: seq<State>, steps: seq<Step>, i: nat, j: nat)
    requires |states| == |steps| + 1 && i < j < |states| && steps[i] == BeginPass && HasReaped(states[j])
    requires forall k | i <= k < j :: NoneSkipped(states[k], steps[k], states[k + 1])
    ensures ReapedAll(states, steps, i, j)
  {
    assert NoneSkipped(states[j - 1], steps[j - 1], states[j - 1 + 1]);
    if HasReaped(states[j - 1]) && steps[j - 1] != BeginPass {
      ReapedSince(states, steps, i, j - 1);
      ReapedNext(states, steps, i, j - 1);
    } else {
      ReapedNow(states, steps, i, j - 1);
    }
  }

  /** Every pass reaps: between its beginning and the loop's being back at the top there is a point at
      which no completion is left unprocessed. */
  lemma PassReapsAll(states: seq<State>, steps: seq<Step>, i: nat, j: nat)
    requires IsRun(states, steps) && i < j < |states| && steps[i] == BeginPass && states[j].phase.Top?
    ensures ReapedAll(states, steps, i, j)
  {
    forall k | i <= k < j ensures NoneSkipped(states[k], steps[k], states[k + 1]) {
      StepSkipsNone(states, steps, k);
    }
    ReapedSince(states, steps, i, j);
  }

  lemma StepKeepsDone(s: State, step: Step, r: nat)
    requires Inv(s) && Enabled(s, step) && r in s.done
    ensures r in After(s, step).done && After(s, step).done[r] == s.done[r]
  {
    if step.ReapOne? {
      ReapIsNew(s);
    }
  }

  lemma RunStepKeepsDone(states: seq<State>, steps: seq<Step>, i: nat, r: nat)
    requires IsRun(states, steps) && i < |steps| && r in states[i].done
    ensures r in states[i + 1].done && states[i + 1].done[r] == states[i].done[r]
  {
    RunStep(states, steps, i);
    RunInv(states, steps, i);
    StepKeepsDone(states[i], steps[i], r);
  }

  /** A finished request stays finished, with the same result. */
  lemma {:induction false} DoneIsFinal(states: seq<State>, steps: seq<Step>, i: nat, j: nat, r: nat)
    requires IsRun(states, steps) && i <= j < |states| && r in states[i].done
    ensures r in states[j].done && states[j].done[r] == states[i].done[r]
  {
    if i < j {
      DoneIsFinal(states, steps, i, j - 1, r);
      RunStepKeepsDone(states, steps, j - 1, r);
    }
  }

  /** No request is stranded: while one is unfinished, the loop or the kernel has a step to take. */
  lemma UnfinishedMakesProgress(s: State) returns (step: Step)
    requires Inv(s) && s.done.Keys != s.submitted
    ensures Enabled(s, step) && !step.Submit?
  {
    match s.phase
    case Preparing(left) => step := if left > 0 then PrepareOne else Flush;
    case Reaping(count) => step := if count < |s.cq| then ReapOne else StopReaping;
    case Advancing(_) => step := Advance;
    case Top =>
      if s.queue != [] || s.cq != [] {
        step := BeginPass;
      } else if s.sq != [] {
        step := KernelTake;
      } else {
        if s.kernel == {} {
          NothingLeft(s);
        }
        var req :| req in s.kernel;
        step := KernelComplete(req, 0);
      }
  }

  lemma NothingLeft(s: State)
    requires EachInOnePlace(s) && s.queue == s.prepared == s.sq == [] && s.kernel == {} && Pending(s) == []
    ensures s.done.Keys == s.submitted
  {
    assert Requests(Pending(s)) == [];
    assert multiset(s.done.Keys) == multiset(s.submitted);
    forall r: nat
      ensures r in s.done.Keys <==> r in s.submitted
    {
      assert multiset(s.done.Keys)[r] == multiset(s.submitted)[r];
    }
  }

  /** Once nothing is queued, in the rings or with the kernel, every submitted request is finished. */
  lemma DrainedMeansDone(states: seq<State>, steps: seq<Step>, i: nat)
    requires IsRun(states, steps) && i < |states|
    requires states[i].queue == states[i].prepared == states[i].sq == []
    requires states[i].kernel == {} && Pending(states[i]) == []
    ensures states[i].done.Keys == states[i].submitted
  {
    RunInv(states, steps, i);
    NothingLeft(states[i]);
  }
}
