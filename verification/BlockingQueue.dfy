/**
  `BlockingReaderWriterQueue`: the producer enqueues and then signals, the consumer waits and
  then dequeues. The two machines run side by side; `holds` says that the consumer has been
  granted a permit and has not yet used it up.
*/
module BlockingQueue {
  import opened Basics
  import opened Queue
  import opened QueueInvariant
  import opened QueueConstructor
  import opened QueueTheorems
  import opened QueueRuns
  import opened Semaphore

  datatype BState<T> = BState(q: State<T>, sem: Sem, holds: bool)

  datatype BAction<T> =
    | BEnqueueCall(e: T, canAlloc: bool)
    | BProducerStep(memory: Option<seq<T>>)  // inside inner.enqueue or inner.try_enqueue
    | BSignalStep                            // inside sema->signal()
    | BWaitCall(wait: WaitOp)                 // sema->tryWait() or sema->wait(timeout)
    | BWaitStep(expires: bool)
    | BConsumerCall(op: ConsumerOp)          // inner.try_dequeue or inner.pop, with a permit, or peek
    | BConsumerStep

  predicate ProducerFree<T>(b: BState<T>) {
    b.sem.signaller.SIdle? && (b.q.prod.PIdle? || b.q.prod.PReturn?)
  }

  predicate ConsumerFree<T>(b: BState<T>) {
    !Inside(b.sem.waiter) && (b.q.cons.CIdle? || b.q.cons.CReturn?)
  }

  predicate BEnabled<T>(b: BState<T>, a: BAction<T>) {
    match a
    case BEnqueueCall(e, can) => ProducerFree(b) && Enabled(b.q, EnqueueCall(e, can))
    case BProducerStep(memory) => b.sem.signaller.SIdle? && Enabled(b.q, ProducerStep(memory))
    case BSignalStep => SemEnabled(b.sem, SignalStep)
    case BWaitCall(op) => !b.holds && ConsumerFree(b)
    case BWaitStep(expires) => SemEnabled(b.sem, WaitStep(expires))
    case BConsumerCall(op) => ConsumerFree(b) && (op.Peek? <==> !b.holds)
    case BConsumerStep => !Inside(b.sem.waiter) && Enabled(b.q, ConsumerStep)
  }

  function BStep<T>(b: BState<T>, a: BAction<T>): BState<T>
    requires BEnabled(b, a)
  {
    match a
    case BEnqueueCall(e, can) => b.(q := Step(b.q, EnqueueCall(e, can)))
    case BProducerStep(memory) =>
      // a successful enqueue goes on to call signal()
      var q := Step(b.q, ProducerStep(memory));
      if q.prod.PReturn? && q.prod.ok then b.(q := q, sem := SemStep(b.sem, SignalCall(1))) else b.(q := q)
    case BSignalStep => b.(sem := SemStep(b.sem, SignalStep))
    case BWaitCall(op) => b.(sem := SemStep(b.sem, WaitCall(op)))
    case BWaitStep(expires) =>
      var sem := SemStep(b.sem, WaitStep(expires));
      b.(sem := sem, holds := sem.waiter == WReturn(true))
    case BConsumerCall(op) => b.(q := Step(b.q, ConsumerCall(op)))
    case BConsumerStep =>
      var q := Step(b.q, ConsumerStep);
      b.(q := q, holds := b.holds && !q.cons.CReturn?)
  }

  ghost predicate BInitial<T>(b: BState<T>, size: nat, max: nat)
    requires size < WORD && ValidMax(max)
  {
    Initial(b.q, size, max) && b.sem == SemInit() && !b.holds
  }

  // ---------------------------------------------------------------- invariant

  // Elements published and not yet removed cover the permits signalled and not yet used.
  ghost predicate Balanced<T>(b: BState<T>) {
    && |b.q.enqueued| == b.sem.signalled + (if b.sem.signaller.SAdd? then b.sem.signaller.n else 0)
    && (b.sem.signaller.SAdd? ==> b.sem.signaller.n == 1)
    && |b.q.dequeued| + (if b.holds then 1 else 0) == b.sem.granted
  }

  ghost predicate ConsumerPhase<T>(b: BState<T>) {
    && (b.holds ==> !Inside(b.sem.waiter))
    && (Inside(b.sem.waiter) ==> b.q.cons.CIdle? || b.q.cons.CReturn?)
    && (match b.q.cons
        case CIdle => true
        case CReturn(op, result) => op.Peek? || result.Some?
        case _ => b.holds <==> !b.q.cons.op.Peek?)
    && (b.holds && !b.q.cons.CIdle? && !b.q.cons.CReturn? ==> !b.q.sawEmpty)
  }

  ghost predicate BInv<T(!new)>(b: BState<T>, size: nat) {
    Sound(b.q, size) && SemInv(b.sem) && Balanced(b) && ConsumerPhase(b)
  }

  // The observation made by a step
  lemma SawEmptyOfStep<T(!new)>(s: State<T>, a: Action<T>, size: nat)
    requires Enabled(s, a) && Sound(Step(s, a), size)
    ensures |Step(s, a).enqueued| == |Step(s, a).dequeued| + |Contents(Step(s, a))|
    ensures Step(s, a).sawEmpty <==> |Contents(Step(s, a))| == 0 || (!a.ConsumerCall? && s.sawEmpty)
    ensures Step(s, a).cons.CReturn? && Step(s, a).cons.result.None? ==> Step(s, a).sawEmpty
  {
    hide CoreStep, Sound, Contents;
    ObservationsOnly(s, a);
    SoundHistory(Step(s, a), size);
  }

  lemma PermitsCovered<T>(b: BState<T>)
    requires SemInv(b.sem) && Balanced(b)
    ensures b.holds ==> |b.q.enqueued| > |b.q.dequeued|
  {
  }

  // ---------------------------------------------------------------- steps

  lemma ProducerStepKeeps<T(!new)>(b: BState<T>, size: nat, m: Option<seq<T>>)
    requires BInv(b, size) && BEnabled(b, BProducerStep(m))
    ensures BInv(BStep(b, BProducerStep(m)), size)
  {
    hide Sound, Step, Enabled, SemInv;
    SoundStep(b.q, ProducerStep(m), size);
    ProducerHistory(b.q, m);
    SawEmptyOfStep(b.q, ProducerStep(m), size);
    PermitsCovered(b);
    SemStepKeepsInv(b.sem, SignalCall(1));
  }

  lemma ConsumerStepKeeps<T(!new)>(b: BState<T>, size: nat)
    requires BInv(b, size) && BEnabled(b, BConsumerStep)
    ensures BInv(BStep(b, BConsumerStep), size)
  {
    hide Sound, Step, SemInv;
    SoundStep(b.q, ConsumerStep, size);
    SoundHistory(b.q, size);
    ConsumerHistory(b.q);
    SawEmptyOfStep(b.q, ConsumerStep, size);
    PermitsCovered(b);
  }

  lemma CallKeeps<T(!new)>(b: BState<T>, size: nat, a: BAction<T>)
    requires BInv(b, size) && BEnabled(b, a) && (a.BEnqueueCall? || a.BConsumerCall?)
    ensures BInv(BStep(b, a), size)
  {
    hide Sound, Contents, SemInv;
    var qa := if a.BEnqueueCall? then EnqueueCall(a.e, a.canAlloc) else ConsumerCall(a.op);
    SoundStep(b.q, qa, size);
    SawEmptyOfStep(b.q, qa, size);
    PermitsCovered(b);
  }

  lemma SemKeeps<T(!new)>(b: BState<T>, size: nat, a: BAction<T>)
    requires BInv(b, size) && BEnabled(b, a) && (a.BSignalStep? || a.BWaitCall? || a.BWaitStep?)
    ensures BInv(BStep(b, a), size)
  {
    hide Sound, Contents, SemInv;
    var sa := if a.BSignalStep? then SignalStep else if a.BWaitCall? then WaitCall(a.wait) else WaitStep(a.expires);
    SemStepKeepsInv(b.sem, sa);
  }

  /** Every step of either thread keeps the balance between elements and permits. */
  lemma BStepKeepsInv<T(!new)>(b: BState<T>, size: nat, a: BAction<T>)
    requires BInv(b, size) && BEnabled(b, a)
    ensures BInv(BStep(b, a), size)
  {
    hide BInv, BStep;
    match a
    case BEnqueueCall(_, _) => CallKeeps(b, size, a);
    case BProducerStep(m) => ProducerStepKeeps(b, size, m);
    case BSignalStep => SemKeeps(b, size, a);
    case BWaitCall(_) => SemKeeps(b, size, a);
    case BWaitStep(_) => SemKeeps(b, size, a);
    case BConsumerCall(_) => CallKeeps(b, size, a);
    case BConsumerStep => ConsumerStepKeeps(b, size);
  }

  // ---------------------------------------------------------------- runs

  ghost predicate BRun<T>(run: seq<BState<T>>, acts: seq<BAction<T>>, size: nat, max: nat) {
    && size < WORD && ValidMax(max)
    && |run| == |acts| + 1 && BInitial(run[0], size, max)
    && forall i :: 0 <= i < |acts| ==> BEnabled(run[i], acts[i]) && run[i + 1] == BStep(run[i], acts[i])
  }

  lemma {:induction false} BRunInv<T(!new)>(run: seq<BState<T>>, acts: seq<BAction<T>>, size: nat, max: nat, i: nat)
    requires BRun(run, acts, size, max) && i < |run|
    ensures BInv(run[i], size)
  {
    hide Sound, BStep, BEnabled, Contents, ValidMax;
    if i == 0 {
      SoundInitial(run[0].q, size, max);
    } else {
      BRunInv(run, acts, size, max, i - 1);
      assert BEnabled(run[i - 1], acts[i - 1]) && run[i] == BStep(run[i - 1], acts[i - 1]);
      BStepKeepsInv(run[i - 1], size, acts[i - 1]);
    }
  }

  /**
    Blocking composition: in every interleaving of enqueue-then-signal with wait-then-dequeue,
    an inner try_dequeue or pop made with a permit succeeds. The consumer's assertions hold.
  */
  lemma PermitMeansElement<T(!new)>(run: seq<BState<T>>, acts: seq<BAction<T>>, size: nat, max: nat, i: nat)
    requires BRun(run, acts, size, max) && i < |run|
    ensures run[i].q.cons.CReturn? && !run[i].q.cons.op.Peek? ==> run[i].q.cons.result.Some?
    ensures run[i].holds ==> |run[i].q.enqueued| > |run[i].q.dequeued|
  {
    hide Sound, BStep, BEnabled, Contents, ValidMax, BRun;
    BRunInv(run, acts, size, max, i);
    PermitsCovered(run[i]);
  }

  /** With both threads between calls, size_approx (the semaphore's count) is the number of elements. */
  lemma SizeWhenQuiet<T(!new)>(run: seq<BState<T>>, acts: seq<BAction<T>>, size: nat, max: nat, i: nat)
    requires BRun(run, acts, size, max) && i < |run|
    requires ProducerFree(run[i]) && ConsumerFree(run[i]) && !run[i].holds
    ensures run[i].sem.count == |Contents(run[i].q)|
  {
    hide Sound, BStep, BEnabled, Contents, ValidMax, BRun;
    BRunInv(run, acts, size, max, i);
    SoundHistory(run[i].q, size);
  }

  // The consumer's wait call number c is the one under way, or last completed, at j.
  ghost predicate BWaitSpans<T>(acts: seq<BAction<T>>, c: nat, j: nat) {
    c < j <= |acts| && acts[c].BWaitCall? && forall k :: c < k < j ==> !acts[k].BWaitCall?
  }

  // All elements have been dequeued but for one whose signal has not been given yet.
  ghost predicate NothingToTake<T>(b: BState<T>) {
    && b.sem.signalled == b.sem.granted
    && |Contents(b.q)| == if b.sem.signaller.SAdd? then 1 else 0
  }

  lemma NothingLeft<T(!new)>(b: BState<T>, size: nat, expires: bool)
    requires BInv(b, size) && BEnabled(b, BWaitStep(expires))
    requires BStep(b, BWaitStep(expires)).sem.waiter == WReturn(false)
    ensures NothingToTake(b)
  {
    hide Sound, Contents, SemInv;
    Refusal(b.sem, expires);
    SoundHistory(b.q, size);
  }

  /**
    A blocking try_dequeue, pop or wait_dequeue_timed that answers false was honest: at some instant
    between its call and its return nothing was left to take.
  */
  lemma {:induction false} HonestFalse<T(!new)>(run: seq<BState<T>>, acts: seq<BAction<T>>, size: nat, max: nat,
                                                c: nat, j: nat)
    requires BRun(run, acts, size, max) && BWaitSpans(acts, c, j) && run[j].sem.waiter == WReturn(false)
    ensures exists k :: c < k <= j && NothingToTake(run[k])
    decreases j
  {
    hide BInv, Contents, Step, Enabled, NothingToTake;
    var b, a := run[j - 1], acts[j - 1];
    assert BEnabled(b, a) && run[j] == BStep(b, a);
    if a.BWaitStep? {
      BRunInv(run, acts, size, max, j - 1);
      NothingLeft(b, size, a.expires);
    } else if c < j - 1 {
      HonestFalse(run, acts, size, max, c, j - 1);
    }
  }

  // ---------------------------------------------------------------- the queue inside

  // The inner queue's share of an action
  function Inner<T>(a: BAction<T>): seq<Action<T>> {
    match a
    case BEnqueueCall(e, can) => [EnqueueCall(e, can)]
    case BProducerStep(memory) => [ProducerStep(memory)]
    case BConsumerCall(op) => [ConsumerCall(op)]
    case BConsumerStep => [ConsumerStep]
    case _ => []
  }

  /** The inner queue goes through a run of its own, so that all its promises hold here too. */
  lemma {:induction false} InnerRun<T>(run: seq<BState<T>>, acts: seq<BAction<T>>, size: nat, max: nat, i: nat)
    returns (qrun: seq<State<T>>, qacts: seq<Action<T>>)
    requires BRun(run, acts, size, max) && i < |run|
    ensures IsRun(qrun, qacts, size, max) && qrun[|qacts|] == run[i].q && qacts == InnerActs(acts, i)
    decreases i
  {
    hide Contents, Step, Enabled, ValidMax, Initial, SemStep;
    if i == 0 {
      qrun, qacts := [run[0].q], [];
    } else {
      qrun, qacts := InnerRun(run, acts, size, max, i - 1);
      var b, a := run[i - 1], acts[i - 1];
      assert BEnabled(b, a) && run[i] == BStep(b, a);
      if Inner(a) != [] {
        InnerStep(b, a);
        RunGrows(qrun, qacts, Inner(a)[0]);
        qrun, qacts := qrun + [run[i].q], qacts + Inner(a);
      }
    }
  }

  function InnerActs<T>(acts: seq<BAction<T>>, i: nat): seq<Action<T>>
    requires i <= |acts|
  {
    if i == 0 then [] else InnerActs(acts, i - 1) + Inner(acts[i - 1])
  }

  lemma InnerStep<T>(b: BState<T>, a: BAction<T>)
    requires BEnabled(b, a) && Inner(a) != []
    ensures Enabled(b.q, Inner(a)[0]) && BStep(b, a).q == Step(b.q, Inner(a)[0])
  {
    hide Contents, CoreStep;
  }

  /** In every blocking run, too, what came out followed by what is held is what went in. */
  lemma BlockingFifo<T(!new)>(run: seq<BState<T>>, acts: seq<BAction<T>>, size: nat, max: nat, i: nat)
    returns (qrun: seq<State<T>>, qacts: seq<Action<T>>)
    requires BRun(run, acts, size, max) && i < |run|
    ensures IsRun(qrun, qacts, size, max) && qrun[|qacts|] == run[i].q && qacts == InnerActs(acts, i)
    ensures Accepted(qrun, qacts, |qacts|) == Delivered(qrun, qacts, |qacts|) + Contents(run[i].q)
  {
    hide BRun, Contents, Accepted, Delivered;
    qrun, qacts := InnerRun(run, acts, size, max, i);
    Fifo(qrun, qacts, size, max, |qacts|);
  }

  lemma RunGrows<T>(qrun: seq<State<T>>, qacts: seq<Action<T>>, a: Action<T>)
    requires StepsOf(qrun, qacts) && Enabled(qrun[|qacts|], a)
    ensures StepsOf(qrun + [Step(qrun[|qacts|], a)], qacts + [a])
  {
    hide Step, Enabled;
    var run', acts' := qrun + [Step(qrun[|qacts|], a)], qacts + [a];
    forall k | 0 <= k < |acts'|
      ensures Enabled(run'[k], acts'[k]) && run'[k + 1] == Step(run'[k], acts'[k])
    {
      if k < |qacts| { assert run'[k] == qrun[k] && run'[k + 1] == qrun[k + 1] && acts'[k] == qacts[k]; }
    }
  }

  /**
    No thread is stuck: the producer enqueues and then signals; the consumer waits, and with a
    permit dequeues or pops; without one it may peek.
  */
  lemma BNeverStuck<T(!new)>(run: seq<BState<T>>, acts: seq<BAction<T>>, size: nat, max: nat, i: nat,
                             e: T, can: bool, wait: WaitOp, op: ConsumerOp)
    requires BRun(run, acts, size, max) && size < WORD / 2 && i < |run|
    ensures var b := run[i];
      if !b.sem.signaller.SIdle? then BEnabled(b, BSignalStep)
      else if b.q.prod.PIdle? || b.q.prod.PReturn? then BEnabled(b, BEnqueueCall(e, can))
      else BEnabled(b, BProducerStep(None))
    ensures var b := run[i];
      if Inside(b.sem.waiter) then BEnabled(b, BWaitStep(true))
      else if !b.q.cons.CIdle? && !b.q.cons.CReturn? then BEnabled(b, BConsumerStep)
      else if b.holds then !op.Peek? ==> BEnabled(b, BConsumerCall(op))
      else BEnabled(b, BWaitCall(wait)) && BEnabled(b, BConsumerCall(Peek))
  {
    hide BRun, Enabled, Contents, IsRun;
    var qrun, qacts := InnerRun(run, acts, size, max, i);
    var n := |qacts|;
    assert n < |qrun| by { RunEnd(qrun, qacts, size, max); }
    NeverStuck(qrun, qacts, size, max, n, e, can, op, []);
  }

  lemma RunEnd<T>(qrun: seq<State<T>>, qacts: seq<Action<T>>, size: nat, max: nat)
    requires IsRun(qrun, qacts, size, max)
    ensures |qacts| < |qrun|
  {
  }
}
