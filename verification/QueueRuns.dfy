/** The queue's promises over every run: any interleaving, any number of calls. */
module QueueRuns {
  import opened Basics
  import opened Bits
  import opened Queue
  import opened QueueInvariant
  import opened QueueConstructor
  import opened QueueTheorems
  import opened QueueOneSlot

  ghost predicate StepsOf<T>(run: seq<State<T>>, acts: seq<Action<T>>) {
    && |run| == |acts| + 1
    && forall i :: 0 <= i < |acts| ==> Enabled(run[i], acts[i]) && run[i + 1] == Step(run[i], acts[i])
  }

  ghost predicate IsRun<T>(run: seq<State<T>>, acts: seq<Action<T>>, size: nat, max: nat) {
    && size < WORD && ValidMax(max)
    && StepsOf(run, acts) && Initial(run[0], size, max)
  }

  // ---------------------------------------------------------------- sizes from 2^63 on

  // A queue whose one block has no slots: the producer stops before its first write.
  ghost predicate NoSlots<T>(s: State<T>) {
    && s.mem == Mem([Block(0, 0, 0, 0, 0, [])], 0, 0) && s.enqueued == [] && s.dequeued == []
    && match s.prod {
         case PIdle | PLoadTailBlock(_, _) => true
         case PLoadTail(_, _, tb, bf) => tb == 0 && bf == 0
         case PWrite(_, _, _, _, _) => true
         case _ => false
       }
    && match s.cons {
         case CIdle | CReturn(_, None) | CLoadFrontBlock(_) => true
         case CLoadFront(_, fb, bt) => fb == 0 && bt == 0
         case CLoadTail(_, fb, bf) => fb == 0 && bf == 0
         case CLoadTailBlock(_, fb) => fb == 0
         case _ => false
       }
  }

  lemma NoSlotsStep<T>(s: State<T>, a: Action<T>)
    requires NoSlots(s) && Enabled(s, a)
    ensures NoSlots(Step(s, a))
  {
    hide Contents;
    assert s.mem.blocks[0 := s.mem.blocks[0]] == s.mem.blocks;
  }

  lemma NoSlotsEmpty<T>(s: State<T>)
    requires NoSlots(s)
    ensures Contents(s) == []
  {
  }

  lemma NoSlotsInitial<T>(s: State<T>, size: nat, max: nat)
    requires WORD / 2 <= size < WORD && ValidMax(max) && Initial(s, size, max)
    ensures NoSlots(s)
  {
    NoRoomWhenWrapped(size, max);
    assert s.mem.blocks == [Block(0, 0, 0, 0, 0, [])];
  }

  // ---------------------------------------------------------------- reachable states, for every size

  /**
    What every reachable state of a queue made for size elements satisfies: the ring invariant;
    for size 0 that of its twin; and from 2^63 on, where the machine stops before the first write
    out of bounds, that nothing has been enqueued.
  */
  ghost predicate Sound<T(!new)>(s: State<T>, size: nat) {
    if size == 0 then exists v, g :: OneSlotGood(s, v, g)
    else if size < WORD / 2 then exists g :: Good(s, g, size)
    else NoSlots(s)
  }

  lemma SoundInitial<T(!new)>(s: State<T>, size: nat, max: nat)
    requires size < WORD && ValidMax(max) && Initial(s, size, max)
    ensures Sound(s, size)
  {
    hide Good, OneSlotGood, NoSlots, Initial;
    if size == 0 {
      var v := OneSlotInitial(s, max);
    } else if size < WORD / 2 {
      InitialGood(s, size, max);
    } else {
      NoSlotsInitial(s, size, max);
    }
  }

  /** Every step, of either thread, keeps it. */
  lemma SoundStep<T(!new)>(s: State<T>, a: Action<T>, size: nat)
    requires Sound(s, size) && Enabled(s, a)
    ensures Sound(Step(s, a), size)
  {
    hide Good, OneSlotGood, NoSlots, Enabled, Step;
    if size == 0 {
      var v, g :| OneSlotGood(s, v, g);
      var v', g' := OneSlotStep(s, v, g, a);
    } else if size < WORD / 2 {
      var g :| Good(s, g, size);
      GoodLayout(s, g, size);
      StepGood(s, g, a, size);
    } else {
      NoSlotsStep(s, a);
    }
  }

  lemma SoundHistory<T(!new)>(s: State<T>, size: nat)
    requires Sound(s, size)
    ensures s.enqueued == s.dequeued + Contents(s)
    ensures s.cons.CReturn? && s.cons.result.None? ==> s.sawEmpty || (size >= WORD / 2 && Contents(s) == [])
    ensures s.cons.CStoreFront? ==> !s.cons.op.Peek?
  {
    hide OneSlotGood, Contents, ProducerSaw, MemOk, ProducerOk;
    if size == 0 {
      var v, g :| OneSlotGood(s, v, g);
      OneSlotHistory(s, v, g);
    } else if size < WORD / 2 {
      var g :| Good(s, g, size);
      ContentsAreHeld(s, g);
    } else {
      NoSlotsEmpty(s);
    }
  }

  lemma SoundReads<T(!new)>(s: State<T>, size: nat)
    requires Sound(s, size) && s.cons.CRead? && ConsumerInBounds(s.mem, s.cons)
    ensures Contents(s) != [] && Contents(s)[0] == s.mem.blocks[s.cons.fb].data[s.cons.blockFront]
  {
    hide OneSlotGood, Contents, ProducerSaw, ConsumerSaw, Inv;
    if size == 0 {
      var v, g :| OneSlotGood(s, v, g);
      OneSlotReads(s, v, g);
    } else if size < WORD / 2 {
      var g :| Good(s, g, size);
      FrontOfContents(s, g);
    }
  }

  lemma {:induction false} RunSound<T(!new)>(run: seq<State<T>>, acts: seq<Action<T>>, size: nat, max: nat, i: nat)
    requires IsRun(run, acts, size, max) && i < |run|
    ensures Sound(run[i], size)
  {
    hide Sound, Step, Enabled, Initial, ValidMax;
    if i == 0 {
      SoundInitial(run[0], size, max);
    } else {
      RunSound(run, acts, size, max, i - 1);
      assert Enabled(run[i - 1], acts[i - 1]) && run[i] == Step(run[i - 1], acts[i - 1]);
      SoundStep(run[i - 1], acts[i - 1], size);
    }
  }

  // ---------------------------------------------------------------- calls and their answers

  // The argument of the producer's last call before action i
  function Argument<T>(acts: seq<Action<T>>, i: nat): seq<T>
    requires i <= |acts|
  {
    if i == 0 then [] else if acts[i - 1].EnqueueCall? then [acts[i - 1].e] else Argument(acts, i - 1)
  }

  // Whether that call may allocate
  function MayAllocate<T>(acts: seq<Action<T>>, i: nat): bool
    requires i <= |acts|
  {
    i > 0 && if acts[i - 1].EnqueueCall? then acts[i - 1].canAlloc else MayAllocate(acts, i - 1)
  }

  // What the consumer was last asked to do before action i
  function Asked<T>(acts: seq<Action<T>>, i: nat): Option<ConsumerOp>
    requires i <= |acts|
  {
    if i == 0 then None else if acts[i - 1].ConsumerCall? then Some(acts[i - 1].op) else Asked(acts, i - 1)
  }

  // Action i makes an enqueue call return true (a consumer call return an element).
  predicate Succeeds<T>(run: seq<State<T>>, acts: seq<Action<T>>, i: nat)
    requires i < |acts| && |run| == |acts| + 1
  {
    acts[i].ProducerStep? && run[i + 1].prod.PReturn? && run[i + 1].prod.ok
  }

  predicate Yields<T>(run: seq<State<T>>, acts: seq<Action<T>>, i: nat)
    requires i < |acts| && |run| == |acts| + 1
  {
    acts[i].ConsumerStep? && run[i + 1].cons.CReturn? && run[i + 1].cons.result.Some?
  }

  /** The arguments of the enqueue calls that have returned true before action i, in call order. */
  function Accepted<T>(run: seq<State<T>>, acts: seq<Action<T>>, i: nat): seq<T>
    requires i <= |acts| && |run| == |acts| + 1
  {
    if i == 0 then []
    else if Succeeds(run, acts, i - 1) then Accepted(run, acts, i - 1) + Argument(acts, i - 1)
    else Accepted(run, acts, i - 1)
  }

  /** The elements that dequeue and pop calls have returned before action i, in call order. */
  function Delivered<T>(run: seq<State<T>>, acts: seq<Action<T>>, i: nat): seq<T>
    requires i <= |acts| && |run| == |acts| + 1
  {
    if i == 0 then []
    else if Yields(run, acts, i - 1) && Asked(acts, i - 1) != Some(Peek) then
      Delivered(run, acts, i - 1) + [run[i].cons.result.value]
    else Delivered(run, acts, i - 1)
  }

  // The machine works on the calls it was given.
  ghost predicate Faithful<T>(s: State<T>, acts: seq<Action<T>>, i: nat)
    requires i <= |acts|
  {
    && (!s.prod.PIdle? && !s.prod.PReturn? ==> Argument(acts, i) == [s.prod.e])
    && (!s.prod.PIdle? ==> MayAllocate(acts, i) == s.prod.canAlloc)
    && (!s.cons.CIdle? ==> Asked(acts, i) == Some(s.cons.op))
  }

  // n is s after a step of the producer, on the same call.
  ghost predicate SameCall<T>(p: Producer<T>, n: Producer<T>)
    requires !p.PIdle? && !p.PReturn?
  {
    !n.PIdle? && n.canAlloc == p.canAlloc && (!n.PReturn? ==> n.e == p.e)
  }

  lemma ProducerKeepsCall<T>(s: State<T>, m: Option<seq<T>>)
    requires Enabled(s, ProducerStep(m))
    ensures SameCall(s.prod, ProducerNext(s, m).prod)
  {
    hide Advance, NewBlockSize, LinkAfterTail, SetBlock;
  }

  // ... and its success is recorded.
  ghost predicate Recorded<T>(s: State<T>, n: State<T>)
    requires !s.prod.PIdle? && !s.prod.PReturn?
  {
    && n.dequeued == s.dequeued && n.cons == s.cons
    && n.enqueued == s.enqueued + (if n.prod.PReturn? && n.prod.ok then [s.prod.e] else [])
  }

  lemma ProducerRecords<T>(s: State<T>, m: Option<seq<T>>)
    requires Enabled(s, ProducerStep(m))
    ensures Recorded(s, ProducerNext(s, m))
  {
    hide Advance, NewBlockSize, LinkAfterTail, SetBlock;
  }

  lemma ProducerHistory<T>(s: State<T>, m: Option<seq<T>>)
    requires Enabled(s, ProducerStep(m))
    ensures !s.prod.PIdle? && !s.prod.PReturn?
    ensures SameCall(s.prod, Step(s, ProducerStep(m)).prod) && Recorded(s, Step(s, ProducerStep(m)))
  {
    hide Contents, ProducerNext;
    ProducerKeepsCall(s, m);
    ProducerRecords(s, m);
  }

  lemma ConsumerHistory<T>(s: State<T>)
    requires Enabled(s, ConsumerStep) && (s.cons.CStoreFront? ==> !s.cons.op.Peek?)
    ensures var n := Step(s, ConsumerStep);
      && n.enqueued == s.enqueued && n.prod == s.prod && !n.cons.CIdle? && n.cons.op == s.cons.op
      && n.dequeued == s.dequeued + (if n.cons.CReturn? && n.cons.result.Some? && !n.cons.op.Peek?
                                     then [n.cons.result.value] else [])
  {
    hide Contents;
  }

  /** The machine's histories are those of the calls and of the answers they got. */
  lemma {:induction false} Histories<T(!new)>(run: seq<State<T>>, acts: seq<Action<T>>, size: nat, max: nat, i: nat)
    requires IsRun(run, acts, size, max) && i < |run|
    ensures run[i].enqueued == Accepted(run, acts, i) && run[i].dequeued == Delivered(run, acts, i)
    ensures Faithful(run[i], acts, i)
  {
    hide Sound, Contents, CoreStep, Enabled;
    if i > 0 {
      var s, a := run[i - 1], acts[i - 1];
      Histories(run, acts, size, max, i - 1);
      RunSound(run, acts, size, max, i - 1);
      SoundHistory(s, size);
      assert Enabled(s, a) && run[i] == Step(s, a);
      match a
      case EnqueueCall(_, _) => CallHistory(s, a);
      case ConsumerCall(_) => CallHistory(s, a);
      case ProducerStep(m) => ProducerHistory(s, m);
      case ConsumerStep => ActiveConsumer(s); ConsumerHistory(s);
    }
  }

  lemma CallHistory<T>(s: State<T>, a: Action<T>)
    requires Enabled(s, a) && (a.EnqueueCall? || a.ConsumerCall?)
    ensures var n := Step(s, a);
      && n.enqueued == s.enqueued && n.dequeued == s.dequeued
      && n.mem == s.mem && n.largest == s.largest && n.max == s.max
      && n.prod == (if a.EnqueueCall? then PLoadTailBlock(a.e, a.canAlloc) else s.prod)
      && n.cons == (if a.ConsumerCall? then CLoadFrontBlock(a.op) else s.cons)
      && (a.EnqueueCall? ==> s.prod.PIdle? || s.prod.PReturn?)
  {
    hide Contents;
  }

  lemma ActiveConsumer<T>(s: State<T>)
    requires Enabled(s, ConsumerStep)
    ensures !s.cons.CIdle? && !s.cons.CReturn?
  {
  }

  // ---------------------------------------------------------------- the promises

  /**
    First in, first out, in every reachable state: what dequeue and pop have returned, followed by
    what the queue still holds, is what the enqueue calls that returned true were given. Nothing
    is lost, made up, duplicated or reordered.
  */
  lemma Fifo<T(!new)>(run: seq<State<T>>, acts: seq<Action<T>>, size: nat, max: nat, i: nat)
    requires IsRun(run, acts, size, max) && i < |run|
    ensures Accepted(run, acts, i) == Delivered(run, acts, i) + Contents(run[i])
  {
    hide Sound, Contents, IsRun;
    RunSound(run, acts, size, max, i);
    SoundHistory(run[i], size);
    Histories(run, acts, size, max, i);
  }

  lemma NoFaults<T(!new)>(run: seq<State<T>>, acts: seq<Action<T>>, size: nat, max: nat, i: nat)
    requires IsRun(run, acts, size, max) && 1 <= size < WORD / 2 && i < |run|
    ensures Faultless(run[i])
  {
    hide Faultless, Inv, ProducerSaw, ConsumerSaw, IsRun;
    RunSound(run, acts, size, max, i);
    var g :| Good(run[i], g, size);
    InvFaultless(run[i], g);
  }

  /** For every size below 2^63, every access stays inside the blocks. */
  lemma StaysInBounds<T(!new)>(run: seq<State<T>>, acts: seq<Action<T>>, size: nat, max: nat, i: nat)
    requires IsRun(run, acts, size, max) && size < WORD / 2 && i < |run|
    ensures ProducerInBounds(run[i].mem, run[i].prod) && ConsumerInBounds(run[i].mem, run[i].cons)
  {
    hide OneSlotGood, Good, ProducerInBounds, ConsumerInBounds;
    if size == 0 {
      RunSound(run, acts, size, max, i);
      var v, g :| OneSlotGood(run[i], v, g);
      OneSlotInBounds(run[i], v, g);
    } else {
      NoFaults(run, acts, size, max, i);
    }
  }

  // ---------------------------------------------------------------- answers given to callers

  // Call number c of the consumer (of the producer) is the one under way, or last completed, at j.
  ghost predicate ConsumerCallSpans<T>(acts: seq<Action<T>>, c: nat, j: nat) {
    c < j <= |acts| && acts[c].ConsumerCall? && forall k :: c < k < j ==> !acts[k].ConsumerCall?
  }

  ghost predicate EnqueueCallSpans<T>(acts: seq<Action<T>>, c: nat, j: nat) {
    c < j <= |acts| && acts[c].EnqueueCall? && forall k :: c < k < j ==> !acts[k].EnqueueCall?
  }

  lemma {:induction false} SawEmptyMeans<T>(run: seq<State<T>>, acts: seq<Action<T>>, c: nat, j: nat)
    requires StepsOf(run, acts) && ConsumerCallSpans(acts, c, j) && run[j].sawEmpty
    ensures exists k :: c < k <= j && Contents(run[k]) == []
  {
    hide Contents, CoreStep;
    assert run[j] == Step(run[j - 1], acts[j - 1]);
    ObservationsOnly(run[j - 1], acts[j - 1]);
    if Contents(run[j]) != [] {
      SawEmptyMeans(run, acts, c, j - 1);
    }
  }

  lemma {:induction false} PeakMeans<T>(run: seq<State<T>>, acts: seq<Action<T>>, c: nat, j: nat, n: nat)
    requires StepsOf(run, acts) && EnqueueCallSpans(acts, c, j) && run[j].peak >= n
    ensures exists k :: c < k <= j && |Contents(run[k])| >= n
  {
    hide Contents, CoreStep;
    assert run[j] == Step(run[j - 1], acts[j - 1]);
    ObservationsOnly(run[j - 1], acts[j - 1]);
    if |Contents(run[j])| < n {
      PeakMeans(run, acts, c, j - 1, n);
    }
  }

  lemma ObservationsOnly<T>(s: State<T>, a: Action<T>)
    requires Enabled(s, a)
    ensures Contents(Step(s, a)) == Contents(CoreStep(s, a))
  {
    hide CoreStep;
  }

  /**
    A try_dequeue, pop or peek that reports an empty queue was honest: at some instant between its
    call and its return, whatever the producer did meanwhile, the queue was empty and every element
    accepted had been delivered.
  */
  lemma HonestEmpty<T(!new)>(run: seq<State<T>>, acts: seq<Action<T>>, size: nat, max: nat, c: nat, j: nat)
    requires IsRun(run, acts, size, max)
    requires ConsumerCallSpans(acts, c, j) && run[j].cons.CReturn? && run[j].cons.result.None?
    ensures exists k :: c < k <= j && Contents(run[k]) == [] && Accepted(run, acts, k) == Delivered(run, acts, k)
  {
    hide Sound, Contents, Accepted, Delivered;
    RunSound(run, acts, size, max, j);
    SoundHistory(run[j], size);
    if run[j].sawEmpty { SawEmptyMeans(run, acts, c, j); }
    var k :| c < k <= j && Contents(run[k]) == [];
    Fifo(run, acts, size, max, k);
  }

  /**
    The capacity promise: an enqueue that fails, because it may not allocate or because
    allocation failed, found the queue holding at least size elements during the call.
  */
  lemma CapacityPromise<T(!new)>(run: seq<State<T>>, acts: seq<Action<T>>, size: nat, max: nat, c: nat, j: nat)
    requires IsRun(run, acts, size, max)
    requires EnqueueCallSpans(acts, c, j) && run[j].prod.PReturn? && !run[j].prod.ok
    ensures exists k :: c < k <= j && |Contents(run[k])| >= size &&
                        |Accepted(run, acts, k)| >= |Delivered(run, acts, k)| + size
  {
    hide Contents, Inv, Accepted, Delivered;
    RunSound(run, acts, size, max, j);
    if size == 0 { assert |Contents(run[j])| >= size; } else if size < WORD / 2 { PeakMeans(run, acts, c, j, size); }
    var k :| c < k <= j && |Contents(run[k])| >= size;
    Fifo(run, acts, size, max, k);
  }

  lemma ReadChangesNothing<T>(s: State<T>)
    requires s.cons.CRead? && s.cons.op.Peek? && Enabled(s, ConsumerStep)
    ensures Contents(Step(s, ConsumerStep)) == Contents(s)
    ensures Step(s, ConsumerStep).cons == CReturn(Peek, Some(s.mem.blocks[s.cons.fb].data[s.cons.blockFront]))
  {
    hide Walk, Live;
  }

  // How a consumer call comes to return an element
  lemma YieldsFrom<T>(s: State<T>)
    requires Enabled(s, ConsumerStep) && Step(s, ConsumerStep).cons.CReturn?
    requires Step(s, ConsumerStep).cons.result.Some? && (s.cons.CStoreFront? ==> !s.cons.op.Peek?)
    ensures s.cons.op.Peek? ==> s.cons.CRead? && ConsumerInBounds(s.mem, s.cons)
  {
    hide Contents;
  }

  /** What a peek call returns is the oldest element the queue holds when it returns. */
  lemma PeekReturnsOldest<T(!new)>(run: seq<State<T>>, acts: seq<Action<T>>, size: nat, max: nat, i: nat)
    requires IsRun(run, acts, size, max) && i < |acts| && Asked(acts, i) == Some(Peek) && Yields(run, acts, i)
    ensures Contents(run[i + 1]) != [] && Contents(run[i + 1])[0] == run[i + 1].cons.result.value
    ensures Contents(run[i + 1]) == Contents(run[i])
  {
    hide Sound, Contents, Initial, Step, Enabled;
    Histories(run, acts, size, max, i);
    RunSound(run, acts, size, max, i);
    SoundHistory(run[i], size);
    assert Enabled(run[i], acts[i]) && run[i + 1] == Step(run[i], acts[i]);
    ActiveConsumer(run[i]);
    YieldsFrom(run[i]);
    SoundReads(run[i], size);
    ReadChangesNothing(run[i]);
  }

  lemma RunLength<T>(run: seq<State<T>>, acts: seq<Action<T>>)
    requires StepsOf(run, acts)
    ensures |run| == |acts| + 1
  {
  }

  /** What a dequeue or pop call returns is the oldest element, and it is the one removed. */
  lemma DequeueRemovesOldest<T(!new)>(run: seq<State<T>>, acts: seq<Action<T>>, size: nat, max: nat, i: nat)
    requires IsRun(run, acts, size, max) && i < |acts| && Asked(acts, i) != Some(Peek) && Yields(run, acts, i)
    ensures Contents(run[i]) == [run[i + 1].cons.result.value] + Contents(run[i + 1])
  {
    hide Contents, StepsOf, Initial, Argument;
    assert |run| == |acts| + 1 by { RunLength(run, acts); }
    Fifo(run, acts, size, max, i);
    Fifo(run, acts, size, max, i + 1);
    var d, v := Delivered(run, acts, i), run[i + 1].cons.result.value;
    assert Accepted(run, acts, i + 1) == Accepted(run, acts, i);
    assert d + Contents(run[i]) == d + ([v] + Contents(run[i + 1]));
    assert Contents(run[i]) == (d + Contents(run[i]))[|d|..];
    assert [v] + Contents(run[i + 1]) == (d + ([v] + Contents(run[i + 1])))[|d|..];
  }

  // ---------------------------------------------------------------- progress

  function ProducerRank<T>(p: Producer<T>): nat {
    match p
    case PIdle | PReturn(_, _) => 0
    case PStoreTail(_, _, _, _) | PStoreTailBlock(_, _, _) => 1
    case PWrite(_, _, _, _, _) | PStoreNextTail(_, _, _, _) | PStoreNext(_, _, _, _) => 2
    case PWriteNext(_, _, _, _, _) | PLoadNextForNew(_, _, _, _) => 3
    case PLoadNextTail(_, _, _, _) | PAlloc(_, _, _) => 4
    case PLoadNextFront(_, _, _) => 5
    case PReloadNext(_, _, _) => 6
    case PLoadFrontBlock(_, _, _, _) => 7
    case PLoadNext(_, _, _) => 8
    case PLoadFront(_, _, _, _, _) => 9
    case PLoadTail(_, _, _, _) => 10
    case PLoadTailBlock(_, _) => 11
  }

  function ConsumerRank<T>(c: Consumer<T>): nat {
    match c
    case CIdle | CReturn(_, _) => 0
    case CStoreFront(_, _, _, _) => 1
    case CRead(_, _, _) => 2
    case CStoreFrontBlock(_, _, _, _) => 3
    case CLoadNextTail(_, _, _) => 4
    case CLoadNextFront(_, _) => 5
    case CLoadNext(_, _) => 6
    case CReloadFront(_, _, _) => 7
    case CReloadTail(_, _) => 8
    case CReloadFrontBlock(_) => 9
    case CLoadTailBlock(_, _) => 10
    case CLoadTail(_, _, _) => 11
    case CLoadFront(_, _, _) => 12
    case CLoadFrontBlock(_) => 13
  }

  lemma ProducerAdvances<T>(s: State<T>, m: Option<seq<T>>)
    requires Enabled(s, ProducerStep(m))
    ensures ProducerRank(ProducerNext(s, m).prod) < ProducerRank(s.prod) && ProducerNext(s, m).cons == s.cons
  {
    hide Advance, NewBlockSize, LinkAfterTail, SetBlock;
  }

  lemma ConsumerAdvances<T>(s: State<T>)
    requires Enabled(s, ConsumerStep)
    ensures ConsumerRank(ConsumerNext(s).cons) < ConsumerRank(s.cons) && ConsumerNext(s).prod == s.prod
  {
  }

  /**
    No thread is ever stuck: between calls a thread can make any call, and within a call it can
    take its next step, whatever malloc yields.
  */
  lemma NeverStuck<T(!new)>(run: seq<State<T>>, acts: seq<Action<T>>, size: nat, max: nat, i: nat,
                            e: T, can: bool, op: ConsumerOp, data: seq<T>)
    requires IsRun(run, acts, size, max) && size < WORD / 2 && i < |run|
    ensures var s := run[i];
      if s.prod.PIdle? || s.prod.PReturn? then Enabled(s, EnqueueCall(e, can))
      else Enabled(s, ProducerStep(None)) && (|data| == NewBlockSize(s) > 0 ==> Enabled(s, ProducerStep(Some(data))))
    ensures var s := run[i];
      if s.cons.CIdle? || s.cons.CReturn? then Enabled(s, ConsumerCall(op)) else Enabled(s, ConsumerStep)
  {
    hide Contents, ProducerInBounds, ConsumerInBounds, IsRun;
    StaysInBounds(run, acts, size, max, i);
  }

  /**
    Wait-freedom: a call takes at most 11 steps of the producer or 13 of the consumer, however
    the other thread runs, since every step of a thread brings it closer to its return and no
    step of the other thread takes it back.
  */
  lemma WaitFree<T>(s: State<T>, a: Action<T>)
    requires Enabled(s, a)
    ensures a.ProducerStep? ==>
      ProducerRank(Step(s, a).prod) < ProducerRank(s.prod) && Step(s, a).cons == s.cons
    ensures a.ConsumerStep? ==>
      ConsumerRank(Step(s, a).cons) < ConsumerRank(s.cons) && Step(s, a).prod == s.prod
  {
    hide Contents, ProducerNext, ConsumerNext, ProducerRank, ConsumerRank;
    match a
    case EnqueueCall(_, _) =>
    case ConsumerCall(_) =>
    case ProducerStep(m) => ProducerAdvances(s, m);
    case ConsumerStep => ConsumerAdvances(s);
  }
}
