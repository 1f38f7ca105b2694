/** What holds over every run of the queue, for every constructor argument. */
module QueueTheorems {
  import opened Basics
  import opened Bits
  import opened Queue
  import opened QueueInvariant
  import opened QueueSteps
  import opened QueueConstructor

  // ---------------------------------------------------------------- contents

  // One unfolding each of Walk and Cat at a ring position
  lemma WalkAt<T>(m: Mem<T>, g: Layout, i: nat, fuel: nat)
    requires RingOk(m, g) && i < g.tp && fuel > 0
    ensures Walk(m.blocks, g.ring[i], m.tailBlock, fuel)
            == Live(m.blocks[g.ring[i]]) + Walk(m.blocks, g.ring[i + 1], m.tailBlock, fuel - 1)
  {
    assert LinkAt(m.blocks, g.ring, i);
  }

  lemma CatAt<T>(m: Mem<T>, g: Layout, i: nat)
    requires RingOk(m, g) && i <= g.tp
    ensures Cat(m.blocks, g.ring[i..g.tp + 1]) == Live(m.blocks[g.ring[i]]) + Cat(m.blocks, g.ring[i + 1..g.tp + 1])
  {
    assert g.ring[i..g.tp + 1][1..] == g.ring[i + 1..g.tp + 1];
  }

  lemma WalkLast<T>(m: Mem<T>, g: Layout, fuel: nat)
    requires RingOk(m, g)
    ensures Walk(m.blocks, m.tailBlock, m.tailBlock, fuel) == Cat(m.blocks, g.ring[g.tp..g.tp + 1])
  {
    CatAt(m, g, g.tp);
    assert Cat(m.blocks, g.ring[g.tp + 1..g.tp + 1]) == [];
  }

  lemma {:induction false} WalkIsCat<T>(m: Mem<T>, g: Layout, i: nat, fuel: nat)
    requires RingOk(m, g) && i <= g.tp && fuel >= g.tp - i
    ensures Walk(m.blocks, g.ring[i], m.tailBlock, fuel) == Cat(m.blocks, g.ring[i..g.tp + 1])
    decreases g.tp - i
  {
    hide Live, Walk, Cat;
    if i < g.tp {
      CatAt(m, g, i);
      WalkAt(m, g, i, fuel);
      WalkIsCat(m, g, i + 1, fuel - 1);
    } else {
      WalkLast(m, g, fuel);
    }
  }

  lemma NothingBehind<T>(m: Mem<T>, g: Layout)
    requires RingOk(m, g) && g.tp == 0
    ensures Cat(m.blocks, g.ring[1..g.tp + 1]) == []
  {
  }

  /** Following next from the front block to the tail block meets exactly the published elements. */
  lemma ContentsAreHeld<T>(s: State<T>, g: Layout)
    requires RingOk(s.mem, g)
    ensures Contents(s) == Held(s.mem, g)
  {
    hide Walk, Cat, Live;
    HeldSplitFirst(s.mem, g);
    if g.tp > 0 {
      assert LinkAt(s.mem.blocks, g.ring, 0);
      WalkIsCat(s.mem, g, 1, |s.mem.blocks|);
    } else {
      NothingBehind(s.mem, g);
    }
  }

  lemma {:induction false} CatAtLeast<T>(blocks: seq<Block<T>>, ids: seq<nat>, c: nat)
    requires c > 0
    requires forall i :: 0 <= i < |ids| ==> ids[i] < |blocks| && InBounds(blocks[ids[i]])
    requires forall i :: 0 <= i < |ids| ==> Full(blocks[ids[i]]) && |blocks[ids[i]].data| >= c
    ensures |Cat(blocks, ids)| >= |ids| * (c - 1)
  {
    hide Live;
    if ids != [] {
      LiveLength(blocks[ids[0]]);
      CatAtLeast(blocks, ids[1..], c);
      MulSucc(|ids[1..]|, c - 1);
    }
  }

  lemma AllFull<T>(m: Mem<T>, g: Layout, ids: seq<nat>)
    requires MemOk(m, g, None) && Full(m.blocks[m.tailBlock]) && ids == g.ring[1..g.tp + 1]
    ensures forall i :: 0 <= i < |ids| ==> Full(m.blocks[ids[i]]) && |m.blocks[ids[i]].data| >= g.least
  {
    hide Live, Links, Distinct;
    forall i | 0 <= i < |ids|
      ensures Full(m.blocks[ids[i]])
    {
      assert ids[i] == g.ring[i + 1];
    }
  }

  lemma FullBlocksHold<T>(m: Mem<T>, g: Layout)
    requires MemOk(m, g, None) && g.least > 0 && Full(m.blocks[m.tailBlock])
    ensures |Held(m, g)| >= g.tp * (g.least - 1)
  {
    var ids := g.ring[1..g.tp + 1];
    HeldSplitFirst(m, g);
    AllFull(m, g, ids);
    CatAtLeast(m.blocks, ids, g.least);
  }

  /** A full tail block with no free block behind it: the queue holds at least Room elements. */
  lemma FullRingHolds<T>(m: Mem<T>, g: Layout)
    requires MemOk(m, g, None) && g.least > 0 && g.tp + 1 == |g.ring| && Full(m.blocks[m.tailBlock])
    ensures |Held(m, g)| >= Room(|g.ring|, g.least)
  {
    hide Cat;
    FullBlocksHold(m, g);
    HeldSplitLast(m, g);
    assert |Live(m.blocks[m.tailBlock])| >= g.least - 1;
  }

  // ---------------------------------------------------------------- observations

  ghost predicate ConsumerSaw<T>(s: State<T>, g: Layout) {
    && (s.cons.CLoadTailBlock? && g.tp == 0 ==> s.sawEmpty)
    && (s.cons.CReturn? && s.cons.result.None? ==> s.sawEmpty)
  }

  ghost predicate ProducerSaw<T>(s: State<T>, g: Layout) {
    && g.least > 0
    && ((s.prod.PLoadNext? || s.prod.PLoadFrontBlock?) && g.tp + 1 == |g.ring| ==> s.peak >= Room(|g.ring|, g.least))
    && (s.prod.PAlloc? || (s.prod.PReturn? && !s.prod.ok) ==> s.peak >= Room(|g.ring|, g.least))
  }

  lemma EmptyFrontIsEmpty<T>(s: State<T>, g: Layout)
    requires RingOk(s.mem, g) && g.tp == 0
    requires s.mem.blocks[s.mem.frontBlock].front == s.mem.blocks[s.mem.frontBlock].tail
    ensures Contents(s) == []
  {
    ContentsAreHeld(s, g);
    HeldSplitLast(s.mem, g);
  }

  // Which steps lead to the places where an observation is used
  lemma ConsumerOutcome<T>(s: State<T>)
    requires Enabled(s, ConsumerStep)
    ensures ConsumerNext(s).prod == s.prod && ConsumerNext(s).enqueued == s.enqueued
    ensures ConsumerNext(s).cons.CLoadTailBlock? ==>
      s.cons.CLoadTail? && s.mem.blocks[s.cons.fb].tail == s.cons.blockFront
    ensures ConsumerNext(s).cons.CReturn? && ConsumerNext(s).cons.result.None? ==>
      s.cons.CLoadTailBlock? && s.cons.fb == s.mem.tailBlock
  {
  }

  lemma ProducerOutcome<T>(s: State<T>, m: Option<seq<T>>)
    requires Enabled(s, ProducerStep(m))
    ensures ProducerNext(s, m).cons == s.cons && ProducerNext(s, m).dequeued == s.dequeued
  {
    hide Advance, NewBlockSize, LinkAfterTail, SetBlock;
  }

  // How the producer comes to look beyond its block, and to give up
  lemma ProducerTurns<T>(s: State<T>, m: Option<seq<T>>)
    requires Enabled(s, ProducerStep(m))
    ensures ProducerNext(s, m).prod.PLoadNext? ==> s.prod.PLoadFront? && ProducerNext(s, m) == LoadFrontByProducer(s)
    ensures ProducerNext(s, m).prod.PLoadFrontBlock? ==> s.prod.PLoadNext?
    ensures ProducerNext(s, m).prod.PAlloc? ==> s.prod.PLoadFrontBlock? && s.prod.nx == s.mem.frontBlock
    ensures ProducerNext(s, m).prod.PReturn? && !ProducerNext(s, m).prod.ok ==>
      s.prod.PAlloc? || (s.prod.PLoadFrontBlock? && s.prod.nx == s.mem.frontBlock)
  {
    hide Advance, NewBlockSize, LinkAfterTail, SetBlock;
  }

  lemma LayoutStep<T>(s: State<T>, g: Layout, a: Action<T>)
    requires g.tp < |g.ring|
    ensures NextLayout(s, g, a).least == g.least
    ensures !a.ConsumerStep? ==> NextLayout(s, g, a).tp >= g.tp
    ensures a.ConsumerStep? ==> |NextLayout(s, g, a).ring| == |g.ring| && NextLayout(s, g, a).tp <= g.tp
  {
  }

  lemma ConsumerSawStep<T>(s: State<T>, g: Layout, a: Action<T>)
    requires Inv(s, g) && ConsumerSaw(s, g) && Enabled(s, a)
    requires Inv(CoreStep(s, a), NextLayout(s, g, a))
    ensures ConsumerSaw(Step(s, a), NextLayout(s, g, a))
  {
    var n, g' := CoreStep(s, a), NextLayout(s, g, a);
    LayoutStep(s, g, a);
    match a
    case EnqueueCall(_, _) =>
    case ConsumerCall(_) =>
    case ProducerStep(m) => ProducerOutcome(s, m); hide ProducerNext, Contents, Inv;
    case ConsumerStep =>
      ConsumerOutcome(s);
      if n.cons.CLoadTailBlock? && g'.tp == 0 {
        assert n == LoadTailByConsumer(s);
        assert n.mem.blocks[n.mem.frontBlock].tail == n.mem.blocks[n.mem.frontBlock].front;
        EmptyFrontIsEmpty(n, g');
      } else if n.cons.CReturn? && n.cons.result.None? {
        assert g.tp == 0 by { assert g.ring[0] == g.ring[g.tp]; }
      }
  }

  lemma FullSeen<T>(s: State<T>, g: Layout, n: State<T>)
    requires Inv(s, g) && s.prod.PLoadFront? && ProducerInBounds(s.mem, s.prod)
    requires n == LoadFrontByProducer(s) && n.prod.PLoadNext? && Inv(n, g) && g.tp + 1 == |g.ring|
    ensures |Contents(n)| >= Room(|g.ring|, g.least)
  {
    ContentsAreHeld(n, g);
    RefreshFront(s.mem.blocks[s.prod.tb]);
    FullRingHolds(n.mem, g);
  }

  lemma NoneAhead<T>(m: Mem<T>, g: Layout)
    requires RingOk(m, g) && m.blocks[m.tailBlock].next == m.frontBlock
    ensures g.tp + 1 == |g.ring|
  {
    assert LinkAt(m.blocks, g.ring, g.tp);
  }

  lemma ProducerSawStep<T>(s: State<T>, g: Layout, a: Action<T>)
    requires Inv(s, g) && g.tp < |g.ring| && ProducerSaw(s, g) && Enabled(s, a)
    requires Inv(CoreStep(s, a), NextLayout(s, g, a))
    ensures ProducerSaw(Step(s, a), NextLayout(s, g, a))
  {
    hide Contents, ProducerNext, ConsumerNext, RingOk, MemOk, ConsumerOk, Room, LoadFrontByProducer;
    var n, g' := CoreStep(s, a), NextLayout(s, g, a);
    LayoutStep(s, g, a);
    match a
    case EnqueueCall(_, _) =>
    case ConsumerCall(_) =>
    case ConsumerStep => ConsumerOutcome(s);
    case ProducerStep(m) =>
      ProducerOutcome(s, m);
      ProducerTurns(s, m);
      if n.prod.PLoadNext? && g'.tp + 1 == |g'.ring| {
        FullSeen(s, g, n);
      } else if s.prod.PLoadFrontBlock? && s.prod.nx == s.mem.frontBlock {
        NoneAhead(s.mem, g);
      }
  }

  // ---------------------------------------------------------------- reachable states

  ghost predicate Initial<T>(s: State<T>, size: nat, max: nat)
    requires size < WORD && ValidMax(max)
  {
    && s.max == max && s.largest == FirstBlockSize(size, max)
    && EmptyRing(s.mem.blocks, BlockCount(size, max), s.largest)
    && s.mem.frontBlock == 0 && s.mem.tailBlock == 0
    && s.prod == PIdle && s.cons == CIdle && s.enqueued == [] && s.dequeued == []
  }

  ghost predicate Good<T>(s: State<T>, g: Layout, size: nat) {
    && Inv(s, g) && ConsumerSaw(s, g) && ProducerSaw(s, g)
    && g.least > 0 && Room(|g.ring|, g.least) >= size
  }

  ghost function FirstLayout(n: nat, least: nat): Layout {
    Layout(seq(n, i => i), 0, least)
  }

  lemma EmptyRingOk<T>(m: Mem<T>, n: nat, size: nat)
    requires EmptyRing(m.blocks, n, size) && n >= 1 && size >= 2 && IsPow2(size)
    requires m.frontBlock == 0 && m.tailBlock == 0
    ensures MemOk(m, FirstLayout(n, size), None) && Held(m, FirstLayout(n, size)) == []
  {
    var g := FirstLayout(n, size);
    forall i | 0 <= i < n
      ensures BlockOk(m.blocks[i]) && Count(m.blocks[i]) == 0
    {
    }
    assert RingOk(m, g);
    HeldSplitLast(m, g);
  }

  lemma InitialGood<T>(s: State<T>, size: nat, max: nat)
    requires 1 <= size < WORD / 2 && ValidMax(max) && Initial(s, size, max)
    ensures Good(s, FirstLayout(BlockCount(size, max), s.largest), size)
  {
    hide RingOk, MemOk, EmptyRing, BlockCount, FirstBlockSize, ValidMax;
    RoomForSize(size, max);
    EmptyRingOk(s.mem, BlockCount(size, max), s.largest);
    FirstLayoutFits(BlockCount(size, max), s.largest);
  }

  lemma FirstLayoutFits(n: nat, least: nat)
    ensures |FirstLayout(n, least).ring| == n && FirstLayout(n, least).least == least
  {
  }

  // The invariant does not speak of the observation variables.
  lemma InvIgnoresObservations<T>(s: State<T>, g: Layout, e: bool, p: nat)
    requires Inv(s, g)
    ensures Inv(s.(sawEmpty := e, peak := p), g)
  {
    hide RingOk, MemOk, ProducerOk, ConsumerOk;
  }

  lemma CoreStepKeepsInv<T>(s: State<T>, g: Layout, a: Action<T>)
    requires Inv(s, g) && g.tp < |g.ring| && Enabled(s, a)
    ensures Inv(CoreStep(s, a), NextLayout(s, g, a))
  {
    hide Inv, ProducerNext, ConsumerNext;
    match a
    case EnqueueCall(_, _) => CallKeepsInv(s, g, a);
    case ConsumerCall(_) => CallKeepsInv(s, g, a);
    case ProducerStep(m) => ProducerKeepsInv(s, g, m);
    case ConsumerStep => ConsumerKeepsInv(s, g);
  }

  lemma RoomGrows(n: nat, m: nat, least: nat)
    requires n <= m && least > 0
    ensures Room(n, least) <= Room(m, least)
  {
    MulMonotone(if n <= 1 then 1 else n - 1, if m <= 1 then 1 else m - 1, least - 1);
  }

  lemma LayoutGrows<T>(s: State<T>, g: Layout, a: Action<T>)
    requires g.tp < |g.ring|
    ensures NextLayout(s, g, a).least == g.least && |NextLayout(s, g, a).ring| >= |g.ring|
  {
  }

  /** Every step, of either thread, leads from a good state to a good state. */
  lemma StepGood<T>(s: State<T>, g: Layout, a: Action<T>, size: nat)
    requires Good(s, g, size) && g.tp < |g.ring| && Enabled(s, a)
    ensures Good(Step(s, a), NextLayout(s, g, a), size)
  {
    hide Inv, ConsumerSaw, ProducerSaw, Room, NextLayout, CoreStep, Contents, Enabled;
    CoreStepKeepsInv(s, g, a);
    ConsumerSawStep(s, g, a);
    ProducerSawStep(s, g, a);
    InvIgnoresObservations(CoreStep(s, a), NextLayout(s, g, a), Step(s, a).sawEmpty, Step(s, a).peak);
    LayoutGrows(s, g, a);
    RoomGrows(|g.ring|, |NextLayout(s, g, a).ring|, g.least);
  }

  // ---------------------------------------------------------------- what good states promise

  lemma GoodLayout<T>(s: State<T>, g: Layout, size: nat)
    requires Good(s, g, size)
    ensures g.tp < |g.ring| && RingOk(s.mem, g)
  {
  }

  /**
    No step reaches outside a block or the block list, and the assertions in the code hold: the
    block the consumer advances to is not empty, and the block the producer moves into is.
  */
  ghost predicate Faultless<T>(s: State<T>) {
    && ProducerInBounds(s.mem, s.prod) && ConsumerInBounds(s.mem, s.cons)
    && (s.cons.CStoreFrontBlock? ==> s.cons.nextFront != s.cons.nextTail)
    && (s.prod.PWriteNext? ==> s.prod.nextFront == s.prod.nextTail)
  }

  lemma ProducerFaultless<T>(m: Mem<T>, g: Layout, prod: Producer<T>)
    requires RingOk(m, g) && ProducerOk(m, g, prod)
    ensures ProducerInBounds(m, prod)
  {
  }

  lemma ConsumerFaultless<T>(m: Mem<T>, g: Layout, cons: Consumer<T>)
    requires RingOk(m, g) && ConsumerOk(m, g, cons)
    ensures ConsumerInBounds(m, cons)
  {
  }

  lemma InvFaultless<T>(s: State<T>, g: Layout)
    requires Inv(s, g)
    ensures Faultless(s)
  {
    hide RingOk, MemOk;
    ProducerFaultless(s.mem, g, s.prod);
    ConsumerFaultless(s.mem, g, s.cons);
  }

  lemma TakeableIsOldest<T>(m: Mem<T>, g: Layout, bf: nat)
    requires RingOk(m, g) && Takeable(m, m.frontBlock, bf)
    ensures Held(m, g) != [] && Held(m, g)[0] == m.blocks[m.frontBlock].data[bf]
  {
    HeldSplitFirst(m, g);
  }

  lemma FrontOfContents<T>(s: State<T>, g: Layout)
    requires Inv(s, g) && s.cons.CRead? && ConsumerInBounds(s.mem, s.cons)
    ensures Contents(s) != [] && Contents(s)[0] == s.mem.blocks[s.cons.fb].data[s.cons.blockFront]
  {
    hide MemOk, Links, Distinct, BlocksOk, ProducerOk, Live, Cat, Contents;
    ContentsAreHeld(s, g);
    if Takeable(s.mem, s.cons.fb, s.cons.blockFront) {
      TakeableIsOldest(s.mem, g, s.cons.blockFront);
    } else {
      NextIsSecond(s.mem, g, Pending(s.prod), s.cons.fb);
    }
  }

  lemma NextIsSecond<T>(m: Mem<T>, g: Layout, pending: Option<T>, nb: nat)
    requires MemOk(m, g, pending) && NextAhead(m, g, nb)
    ensures Held(m, g) != [] && Held(m, g)[0] == m.blocks[nb].data[m.blocks[nb].front]
  {
    HeldSplitFirst(m, g);
    CatAt(m, g, 1);
    if g.tp > 1 { assert Full(m.blocks[g.ring[1]]); } else { assert m.tailBlock == g.ring[1]; }
  }
}
