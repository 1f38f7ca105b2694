/** For which constructor arguments the queue's steps are free of faults. */
module QueueLimits {
  import opened Basics
  import opened Bits
  import opened Queue
  import opened QueueConstructor
  import opened QueueTheorems
  import opened QueueRuns

  // A run from s0 that ends in s
  ghost predicate Path(s0: State<int>, s: State<int>) {
    exists run: seq<State<int>>, acts: seq<Action<int>> ::
      StepsOf(run, acts) && run[0] == s0 && run[|acts|] == s
  }

  // The histories are the same.
  ghost predicate Quiet(s: State<int>, t: State<int>) {
    t.enqueued == s.enqueued && t.dequeued == s.dequeued
  }

  lemma PathStart(s0: State<int>)
    ensures Path(s0, s0)
  {
    var run: seq<State<int>>, acts: seq<Action<int>> := [s0], [];
    assert StepsOf(run, acts);
  }

  lemma Go(s0: State<int>, s: State<int>, a: Action<int>) returns (t: State<int>)
    requires Path(s0, s) && Enabled(s, a)
    ensures Path(s0, t)
    ensures t.mem == CoreStep(s, a).mem && t.prod == CoreStep(s, a).prod && t.cons == CoreStep(s, a).cons
    ensures t.largest == CoreStep(s, a).largest && t.max == CoreStep(s, a).max && Quiet(CoreStep(s, a), t)
  {
    hide Contents, Enabled, CoreStep;
    t := Step(s, a);
    var run: seq<State<int>>, acts: seq<Action<int>> :|
      StepsOf(run, acts) && run[0] == s0 && run[|acts|] == s;
    var run', acts' := run + [t], acts + [a];
    forall i | 0 <= i < |acts'|
      ensures Enabled(run'[i], acts'[i]) && run'[i + 1] == Step(run'[i], acts'[i])
    {
      if i < |acts| { assert run'[i] == run[i] && run'[i + 1] == run[i + 1] && acts'[i] == acts[i]; }
    }
    assert StepsOf(run', acts');
  }

  // An enqueue call that finds its tail block full, fresh shadow included
  lemma EnqueueFindsFull(s0: State<int>, s: State<int>, e: int) returns (t: State<int>)
    requires Path(s0, s) && (s.prod.PIdle? || s.prod.PReturn?) && s.mem.tailBlock < |s.mem.blocks|
    requires var b := s.mem.blocks[s.mem.tailBlock]; Advance(b.tail, |b.data|) == b.localFront == b.front
    ensures Path(s0, t) && t.mem == s.mem && t.cons == s.cons && t.largest == s.largest && t.max == s.max
    ensures t.prod == PLoadFrontBlock(e, true, s.mem.tailBlock, s.mem.blocks[s.mem.tailBlock].next)
    ensures Quiet(s, t)
  {
    t := Go(s0, s, EnqueueCall(e, true));
    t := Go(s0, t, ProducerStep(None));
    t := Go(s0, t, ProducerStep(None));
    t := Go(s0, t, ProducerStep(None));
    assert t.mem.blocks == s.mem.blocks;
    t := Go(s0, t, ProducerStep(None));
  }

  // A dequeue call that finds its front block empty and another block ahead: up to its reload
  lemma DequeueFindsEmpty(s0: State<int>, s: State<int>) returns (t: State<int>)
    requires Path(s0, s) && (s.cons.CIdle? || s.cons.CReturn?) && s.mem.frontBlock < |s.mem.blocks|
    requires var b := s.mem.blocks[s.mem.frontBlock]; b.front == b.tail == b.localTail
    requires s.mem.frontBlock != s.mem.tailBlock
    ensures Path(s0, t) && t.mem == s.mem && t.prod == s.prod && t.largest == s.largest && t.max == s.max
    ensures t.cons == CReloadFrontBlock(TryDequeue)
    ensures Quiet(s, t)
  {
    t := Go(s0, s, ConsumerCall(TryDequeue));
    t := Go(s0, t, ConsumerStep);
    t := Go(s0, t, ConsumerStep);
    t := Go(s0, t, ConsumerStep);
    assert t.mem.blocks == s.mem.blocks;
    t := Go(s0, t, ConsumerStep);
  }

  lemma DequeueReloads(s0: State<int>, s: State<int>) returns (t: State<int>)
    requires Path(s0, s) && s.cons == CReloadFrontBlock(TryDequeue) && s.mem.frontBlock < |s.mem.blocks|
    requires var b := s.mem.blocks[s.mem.frontBlock]; b.front == b.tail == b.localTail
    ensures Path(s0, t) && t.mem == s.mem && t.prod == s.prod && t.largest == s.largest && t.max == s.max
    ensures t.cons == CLoadNext(TryDequeue, s.mem.frontBlock)
    ensures Quiet(s, t)
  {
    t := Go(s0, s, ConsumerStep);
    t := Go(s0, t, ConsumerStep);
    assert t.mem.blocks == s.mem.blocks;
    t := Go(s0, t, ConsumerStep);
  }

  // ... and on to the point where it has loaded front and tail of the next block
  lemma DequeueReachesNext(s0: State<int>, s: State<int>, nb: nat) returns (t: State<int>)
    requires Path(s0, s) && s.cons == CLoadNext(TryDequeue, s.mem.frontBlock) && s.mem.frontBlock < |s.mem.blocks|
    requires nb == s.mem.blocks[s.mem.frontBlock].next < |s.mem.blocks|
    requires s.mem.blocks[nb].localTail == s.mem.blocks[nb].tail
    ensures Path(s0, t) && t.mem == s.mem && t.prod == s.prod && t.largest == s.largest && t.max == s.max
    ensures t.cons == CStoreFrontBlock(TryDequeue, nb, s.mem.blocks[nb].front, s.mem.blocks[nb].tail)
    ensures Quiet(s, t)
  {
    t := Go(s0, s, ConsumerStep);
    t := Go(s0, t, ConsumerStep);
    t := Go(s0, t, ConsumerStep);
    assert t.mem.blocks == s.mem.blocks;
  }

  // enqueue(1): the one-slot block counts as full, so a second block is linked behind it.
  lemma AllocatesSecondBlock(s0: State<int>, s: State<int>) returns (t: State<int>)
    requires Path(s0, s) && s.largest == 1 && s.max >= 2
    requires s.prod == PLoadFrontBlock(1, true, 0, 0) && s.mem.frontBlock == 0
    ensures Path(s0, t) && t.mem == s.mem && t.cons == s.cons
    ensures t.prod == PLoadNextForNew(1, true, 0, Block(0, 1, 1, 0, 0, [1, 0]))
    ensures Quiet(s, t)
  {
    t := Go(s0, s, ProducerStep(None));
    t := Go(s0, t, ProducerStep(Some([0, 0])));
    assert [0, 0][0 := 1] == [1, 0];
  }

  lemma LinksSecondBlock(s0: State<int>, s: State<int>, d: int) returns (t: State<int>)
    requires Path(s0, s) && s.mem == Mem([Block(0, 0, 0, 0, 0, [d])], 0, 0) && s.cons == CIdle
    requires s.prod == PLoadNextForNew(1, true, 0, Block(0, 1, 1, 0, 0, [1, 0]))
    ensures Path(s0, t) && t.prod == PReturn(true, true) && t.cons == CIdle
    ensures t.mem == Mem([Block(0, 0, 0, 0, 1, [d]), Block(0, 1, 1, 0, 0, [1, 0])], 0, 1)
    ensures t.enqueued == s.enqueued + [1] && t.dequeued == s.dequeued
  {
    t := Go(s0, s, ProducerStep(None));
    t := Go(s0, t, ProducerStep(None));
    assert t.mem.blocks == [Block(0, 0, 0, 0, 1, [d]), Block(0, 1, 1, 0, 0, [1, 0])];
    t := Go(s0, t, ProducerStep(None));
  }

  // enqueue(2): the one-slot block is free again and is filled, but its tail cannot advance.
  lemma FillsOneSlotBlock(s0: State<int>, s: State<int>, d: int) returns (t: State<int>)
    requires Path(s0, s) && s.mem == Mem([Block(0, 0, 0, 0, 1, [d]), Block(0, 1, 1, 0, 0, [1, 0])], 1, 1)
    requires s.prod == PLoadFrontBlock(2, true, 1, 0)
    ensures Path(s0, t) && t.prod == PWriteNext(2, true, 0, 0, 0) && t.cons == s.cons && t.mem == s.mem
    ensures Quiet(s, t)
  {
    t := Go(s0, s, ProducerStep(None));
    t := Go(s0, t, ProducerStep(None));
    t := Go(s0, t, ProducerStep(None));
    assert t.mem.blocks == s.mem.blocks;
    t := Go(s0, t, ProducerStep(None));
    assert t.mem.blocks == s.mem.blocks;
  }

  lemma WritesOneSlot(s0: State<int>, s: State<int>, d: int) returns (t: State<int>)
    requires Path(s0, s) && s.mem == Mem([Block(0, 0, 0, 0, 1, [d]), Block(0, 1, 1, 0, 0, [1, 0])], 1, 1)
    requires s.prod == PWriteNext(2, true, 0, 0, 0)
    ensures Path(s0, t) && t.prod == PStoreNextTail(2, true, 0, 0) && t.cons == s.cons
    ensures t.mem == Mem([Block(0, 0, 0, 0, 1, [2]), Block(0, 1, 1, 0, 0, [1, 0])], 1, 1)
    ensures Quiet(s, t)
  {
    t := Go(s0, s, ProducerStep(None));
    assert [d][0 := 2] == [2];
    assert t.mem.blocks == [Block(0, 0, 0, 0, 1, [2]), Block(0, 1, 1, 0, 0, [1, 0])];
  }

  lemma PublishesOneSlot(s0: State<int>, s: State<int>) returns (t: State<int>)
    requires Path(s0, s) && s.mem == Mem([Block(0, 0, 0, 0, 1, [2]), Block(0, 1, 1, 0, 0, [1, 0])], 1, 1)
    requires s.prod == PStoreNextTail(2, true, 0, 0) && Advance(0, 1) == 0
    ensures Path(s0, t) && t.prod == PReturn(true, true) && t.cons == s.cons && t.mem == s.mem.(tailBlock := 0)
    ensures t.enqueued == s.enqueued + [2] && t.dequeued == s.dequeued
  {
    t := Go(s0, s, ProducerStep(None));
    assert t.mem.blocks == s.mem.blocks;
    t := Go(s0, t, ProducerStep(None));
  }

  // the first dequeue, interrupted before it has stored front, then resumed
  lemma FinishesFirstDequeue(s0: State<int>, s: State<int>) returns (t: State<int>)
    requires Path(s0, s) && s.mem == Mem([Block(0, 0, 0, 0, 1, [2]), Block(0, 1, 1, 0, 0, [1, 0])], 1, 0)
    requires s.cons == CRead(TryDequeue, 1, 0)
    ensures Path(s0, t) && t.cons == CReturn(TryDequeue, Some(1)) && t.prod == s.prod
    ensures t.mem == Mem([Block(0, 0, 0, 0, 1, [2]), Block(1, 1, 1, 0, 0, [1, 0])], 1, 0)
    ensures t.enqueued == s.enqueued && t.dequeued == s.dequeued + [1]
  {
    t := Go(s0, s, ConsumerStep);
    t := Go(s0, t, ConsumerStep);
    assert t.mem.blocks == [Block(0, 0, 0, 0, 1, [2]), Block(1, 1, 1, 0, 0, [1, 0])];
  }

  lemma EntersSecondBlock(s0: State<int>, s: State<int>) returns (t: State<int>)
    requires Path(s0, s) && s.cons == CStoreFrontBlock(TryDequeue, 1, 0, 1)
    ensures Path(s0, t) && t.cons == CRead(TryDequeue, 1, 0) && t.prod == s.prod && t.mem == s.mem.(frontBlock := 1)
    ensures Quiet(s, t)
  {
    t := Go(s0, s, ConsumerStep);
  }

  // enqueue(1) by way of a second block, and a dequeue that has moved on to that block
  lemma ConsumerEntersSecondBlock(s0: State<int>, d: int) returns (s: State<int>)
    requires s0.mem == Mem([Block(0, 0, 0, 0, 0, [d])], 0, 0) && s0.largest == 1 && s0.max >= 2 && Advance(0, 1) == 0
    requires s0.prod == PIdle && s0.cons == CIdle && s0.enqueued == [] && s0.dequeued == []
    ensures Path(s0, s) && s.prod == PReturn(true, true) && s.cons == CRead(TryDequeue, 1, 0)
    ensures s.mem == Mem([Block(0, 0, 0, 0, 1, [d]), Block(0, 1, 1, 0, 0, [1, 0])], 1, 1)
    ensures s.enqueued == [1] && s.dequeued == []
  {
    hide Path, ProducerInBounds, ConsumerInBounds, Contents;
    PathStart(s0);
    s := EnqueueFindsFull(s0, s0, 1);
    s := AllocatesSecondBlock(s0, s);
    s := LinksSecondBlock(s0, s, d);
    s := DequeueFindsEmpty(s0, s);
    s := DequeueReloads(s0, s);
    s := DequeueReachesNext(s0, s, 1);
    s := EntersSecondBlock(s0, s);
  }

  // The second element sits in the one-slot block, whose indices have not moved.
  lemma ZeroSizeFills(s0: State<int>, max: nat) returns (s: State<int>)
    requires ValidMax(max) && Initial(s0, 0, max)
    ensures Path(s0, s) && s.prod == PReturn(true, true) && s.cons == CRead(TryDequeue, 1, 0)
    ensures s.mem == Mem([Block(0, 0, 0, 0, 1, [2]), Block(0, 1, 1, 0, 0, [1, 0])], 1, 0)
    ensures s.enqueued == [1, 2] && s.dequeued == []
  {
    hide Path, Initial, ProducerInBounds, ConsumerInBounds, Contents;
    var d := OneSlot(s0, max);
    s := ConsumerEntersSecondBlock(s0, d);
    s := EnqueueFindsFull(s0, s, 2);
    s := FillsOneSlotBlock(s0, s, d);
    s := WritesOneSlot(s0, s, d);
    s := PublishesOneSlot(s0, s);
  }

  /**
    A queue made with size 0 has one block of one slot, and a run of it fails the assertion that
    the block the consumer advances to is not empty: that block's indices say so.
  */
  lemma ZeroSizeFaults(s0: State<int>, max: nat) returns (s: State<int>)
    requires ValidMax(max) && Initial(s0, 0, max)
    ensures Path(s0, s) && !Faultless(s) && s.cons == CStoreFrontBlock(TryDequeue, 0, 0, 0)
    ensures s.mem == Mem([Block(0, 0, 0, 0, 1, [2]), Block(1, 1, 1, 0, 0, [1, 0])], 1, 0)
    ensures s.enqueued == [1, 2] && s.dequeued == [1]
  {
    hide Path, Initial, ProducerInBounds, ConsumerInBounds, Contents;
    s := ZeroSizeFills(s0, max);
    s := FinishesFirstDequeue(s0, s);
    s := DequeueFindsEmpty(s0, s);
    s := DequeueReloads(s0, s);
    s := DequeueReachesNext(s0, s, 0);
  }

  /** With the assertion compiled out, the same run goes on to deliver the element in order. */
  lemma ZeroSizeDelivers(s0: State<int>, max: nat) returns (s: State<int>)
    requires ValidMax(max) && Initial(s0, 0, max)
    ensures Path(s0, s) && s.cons == CReturn(TryDequeue, Some(2)) && s.enqueued == [1, 2] && s.dequeued == [1, 2]
  {
    hide Path, Initial, Contents;
    s := ZeroSizeFaults(s0, max);
    s := Go(s0, s, ConsumerStep);
    s := Go(s0, s, ConsumerStep);
    s := Go(s0, s, ConsumerStep);
  }

  lemma OneSlot(s0: State<int>, max: nat) returns (d: int)
    requires ValidMax(max) && Initial(s0, 0, max)
    ensures s0.mem == Mem([Block(0, 0, 0, 0, 0, [d])], 0, 0) && s0.largest == 1 && s0.max >= 2
    ensures s0.prod == PIdle && s0.cons == CIdle && s0.enqueued == [] && s0.dequeued == []
    ensures Advance(0, 1) == 0
  {
    assert RoundedUp(1) == 1 by { assert Length(0) == 0; }
    d := s0.mem.blocks[0].data[0];
    assert s0.mem.blocks[0].data == [d];
    assert s0.mem.blocks == [Block(0, 0, 0, 0, 0, [d])];
  }

  /** A queue made with a size whose rounding wraps has a block of no slots; the first write is out of bounds. */
  lemma WrappedSizeFaults(s0: State<int>, size: nat, max: nat) returns (s: State<int>)
    requires WORD / 2 <= size < WORD && ValidMax(max) && Initial(s0, size, max)
    ensures Path(s0, s) && !ProducerInBounds(s.mem, s.prod) && !Faultless(s)
  {
    NoRoomWhenWrapped(size, max);
    PathStart(s0);
    s := Go(s0, s0, EnqueueCall(1, true));
    s := Go(s0, s, ProducerStep(None));
    s := Go(s0, s, ProducerStep(None));
  }

  // At the end of the run, the elements accepted are those delivered and then those held.
  ghost predicate InOrder(run: seq<State<int>>, acts: seq<Action<int>>)
    requires |run| == |acts| + 1
  {
    Accepted(run, acts, |acts|) == Delivered(run, acts, |acts|) + Contents(run[|acts|])
  }

  lemma RunInOrder(run: seq<State<int>>, acts: seq<Action<int>>, size: nat, max: nat)
    requires IsRun(run, acts, size, max)
    ensures InOrder(run, acts)
  {
    hide Contents, Initial, Enabled, Step;
    Fifo(run, acts, size, max, |acts|);
  }

  /**
    Every run is free of faults and in order if and only if 1 <= size < 2^63; order alone holds
    for every size (QueueRuns.Fifo).
  */
  lemma FaultlessIff(size: nat, max: nat, s0: State<int>)
    requires size < WORD && ValidMax(max) && Initial(s0, size, max)
    ensures (forall run: seq<State<int>>, acts: seq<Action<int>> :: StepsOf(run, acts) && run[0] == s0 ==>
               Faultless(run[|acts|]) && InOrder(run, acts))
      <==> 1 <= size < WORD / 2
  {
    hide Contents, Initial, Enabled, Step, Faultless, InOrder;
    if size == 0 {
      var s := ZeroSizeFaults(s0, max);
    } else if size >= WORD / 2 {
      var s := WrappedSizeFaults(s0, size, max);
    } else {
      forall run: seq<State<int>>, acts: seq<Action<int>> | StepsOf(run, acts) && run[0] == s0
        ensures Faultless(run[|acts|]) && InOrder(run, acts)
      {
        NoFaults(run, acts, size, max, |acts|);
        RunInOrder(run, acts, size, max);
      }
    }
  }

  /** Every access stays inside the blocks, in all runs, if and only if size < 2^63. */
  lemma InBoundsIff(size: nat, max: nat, s0: State<int>)
    requires size < WORD && ValidMax(max) && Initial(s0, size, max)
    ensures (forall s :: Path(s0, s) ==> ProducerInBounds(s.mem, s.prod) && ConsumerInBounds(s.mem, s.cons))
      <==> size < WORD / 2
  {
    hide Contents, Initial, Enabled, Step, ProducerInBounds, ConsumerInBounds;
    if size >= WORD / 2 {
      var s := WrappedSizeFaults(s0, size, max);
    } else {
      forall s | Path(s0, s)
        ensures ProducerInBounds(s.mem, s.prod) && ConsumerInBounds(s.mem, s.cons)
      {
        var run: seq<State<int>>, acts: seq<Action<int>> :|
          StepsOf(run, acts) && run[0] == s0 && run[|acts|] == s;
        StaysInBounds(run, acts, size, max, |acts|);
      }
    }
  }
}
