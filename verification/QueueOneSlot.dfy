/**
  A queue made for 0 elements starts with a block of one slot. Its indices never move: the
  producer takes it for full whenever it is the tail block, and fills it when it comes to it
  from the block before. Such a queue behaves like one whose block 0 has two slots, except that
  the producer may pass that block by while it is empty. The twin is that other queue.
*/
module QueueOneSlot {
  import opened Basics
  import opened Bits
  import opened Queue
  import opened QueueInvariant
  import opened QueueSteps
  import opened QueueConstructor
  import opened QueueTheorems

  ghost predicate TwinBlock<T>(b: Block<T>, w: Block<T>) {
    && b == Block(0, 0, 0, 0, b.next, b.data) && |b.data| == 1
    && |w.data| == 2 && InBounds(w) && w.next == b.next
    && (w.front != w.tail ==> w.data[w.front] == b.data[0])
  }

  ghost predicate TwinMem<T>(m: Mem<T>, w: Mem<T>) {
    && |m.blocks| == |w.blocks| > 0 && m.frontBlock == w.frontBlock && m.tailBlock == w.tailBlock
    && TwinBlock(m.blocks[0], w.blocks[0])
    && forall i :: 1 <= i < |m.blocks| ==> m.blocks[i] == w.blocks[i]
  }

  // The same place in the code, with the same locals except indices into block 0
  ghost predicate TwinProducer<T>(p: Producer<T>, q: Producer<T>) {
    match p
    case PLoadTail(e, can, tb, bf) =>
      q.PLoadTail? && q == PLoadTail(e, can, tb, q.blockFront) && if tb == 0 then bf == 0 else q == p
    case PLoadFront(e, can, tb, bt, nt) =>
      && q.PLoadFront? && q == PLoadFront(e, can, tb, q.blockTail, q.nextTail)
      && if tb == 0 then bt == 0 && nt == 0 else q == p
    case PWrite(_, _, tb, _, _) => tb != 0 && q == p
    case PStoreTail(_, _, tb, _) => tb != 0 && q == p
    case PLoadNextTail(e, can, nx, nf) =>
      q.PLoadNextTail? && q == PLoadNextTail(e, can, nx, q.nextFront) && if nx == 0 then nf == 0 else q == p
    case PWriteNext(e, can, nx, nf, nt) =>
      && q.PWriteNext? && q == PWriteNext(e, can, nx, q.nextFront, q.nextTail)
      && if nx == 0 then nf == 0 && nt == 0 else q == p
    case PStoreNextTail(e, can, nx, nt) =>
      q.PStoreNextTail? && q == PStoreNextTail(e, can, nx, q.nextTail) && if nx == 0 then nt == 0 else q == p
    case _ => q == p
  }

  ghost predicate TwinConsumer<T>(c: Consumer<T>, d: Consumer<T>) {
    match c
    case CLoadFront(op, fb, bt) =>
      d.CLoadFront? && d == CLoadFront(op, fb, d.blockTail) && if fb == 0 then bt == 0 else d == c
    case CLoadTail(op, fb, bf) =>
      d.CLoadTail? && d == CLoadTail(op, fb, d.blockFront) && if fb == 0 then bf == 0 else d == c
    case CRead(op, fb, bf) =>
      d.CRead? && d == CRead(op, fb, d.blockFront) && if fb == 0 then bf == 0 else d == c
    case CStoreFront(op, fb, bf, v) =>
      d.CStoreFront? && d == CStoreFront(op, fb, d.blockFront, v) && if fb == 0 then bf == 0 else d == c
    case CReloadFront(op, fb, bt) =>
      d.CReloadFront? && d == CReloadFront(op, fb, d.blockTail) && if fb == 0 then bt == 0 else d == c
    case CLoadNextTail(op, nb, nf) =>
      d.CLoadNextTail? && d == CLoadNextTail(op, nb, d.nextFront) && if nb == 0 then nf == 0 else d == c
    case CStoreFrontBlock(op, nb, nf, nt) =>
      && d.CStoreFrontBlock? && d == CStoreFrontBlock(op, nb, d.nextFront, d.nextTail)
      && if nb == 0 then nf == 0 && nt == 0 else d == c
    case _ => d == c
  }

  /** v is s with a block 0 of two slots; as the front block it holds something while s is taking it. */
  ghost predicate Twin<T>(s: State<T>, v: State<T>) {
    && TwinMem(s.mem, v.mem) && TwinProducer(s.prod, v.prod) && TwinConsumer(s.cons, v.cons)
    && s.enqueued == v.enqueued && s.dequeued == v.dequeued && s.sawEmpty == v.sawEmpty
    && s.max >= 2 && v.largest == (if s.largest == 1 then 2 else s.largest)
    && v.max == (if s.largest == 1 then 2 else s.max)
    && (s.mem.frontBlock == 0 ==> (Taking(s) <==> v.mem.blocks[0].front != v.mem.blocks[0].tail))
    && (s.prod.PStoreNextTail? && s.prod.nx == 0 ==> s.mem.blocks[0].data[0] == s.prod.e)
  }

  lemma OneSlotStays(i: nat)
    requires i == 0
    ensures Advance(i, 1) == 0
  {
    Pow2Zero();
    MaskIsMod(1, 1, 0);
  }

  // ---------------------------------------------------------------- the same contents

  lemma TwinSegment<T>(m: Mem<T>, w: Mem<T>, g: Layout, pending: Option<T>, i: nat)
    requires TwinMem(m, w) && MemOk(w, g, pending) && 1 <= i <= g.tp
    ensures g.ring[i] < |m.blocks| && InBounds(m.blocks[g.ring[i]])
    ensures Segment(m.blocks[g.ring[i]]) == Live(w.blocks[g.ring[i]])
    ensures m.blocks[g.ring[i]].next == w.blocks[g.ring[i]].next
  {
    hide Live, Links, BlocksOk, BlockOk;
    var x := g.ring[i];
    assert Count(w.blocks[x]) > 0 && |w.blocks[x].data| >= 2 by {
      assert BlockOk(w.blocks[x]) by { BlockOfRing(w, g, x); }
      TwoSlots(w.blocks[x]);
      if i < g.tp { assert Full(w.blocks[x]); } else { assert x == w.tailBlock; }
    }
    if x == 0 { OneElement(m.blocks[0], w.blocks[0]); }
  }

  lemma BlockOfRing<T>(w: Mem<T>, g: Layout, x: nat)
    requires RingOk(w, g) && x < |w.blocks|
    ensures BlockOk(w.blocks[x])
  {
  }

  lemma TwoSlots<T>(b: Block<T>)
    requires BlockOk(b)
    ensures |b.data| >= 2 && InBounds(b)
  {
  }

  lemma OneElement<T>(b: Block<T>, w: Block<T>)
    requires TwinBlock(b, w) && Count(w) > 0
    ensures Live(w) == b.data
  {
  }

  lemma {:induction false} TwinWalk<T>(m: Mem<T>, w: Mem<T>, g: Layout, pending: Option<T>, i: nat, fuel: nat)
    requires TwinMem(m, w) && MemOk(w, g, pending) && 1 <= i <= g.tp && fuel >= g.tp - i
    ensures Walk(m.blocks, g.ring[i], m.tailBlock, fuel) == Cat(w.blocks, g.ring[i..g.tp + 1])
    decreases g.tp - i
  {
    hide Live, Segment, Cat, TwinMem, MemOk, BlocksOk;
    TwinSegment(m, w, g, pending, i);
    TwinEnds(m, w, g, pending);
    CatAt(w, g, i);
    if i < g.tp {
      assert g.ring[i] != m.tailBlock;
      assert LinkAt(w.blocks, g.ring, i);
      TwinWalk(m, w, g, pending, i + 1, fuel - 1);
    } else {
      EmptyCat(w, g);
    }
  }

  lemma TwinEnds<T>(m: Mem<T>, w: Mem<T>, g: Layout, pending: Option<T>)
    requires TwinMem(m, w) && MemOk(w, g, pending)
    ensures RingOk(w, g) && m.tailBlock == w.tailBlock && m.frontBlock == w.frontBlock && |m.blocks| == |w.blocks|
  {
  }

  lemma EmptyCat<T>(w: Mem<T>, g: Layout)
    requires RingOk(w, g)
    ensures Cat(w.blocks, g.ring[g.tp + 1..g.tp + 1]) == []
  {
  }

  lemma TwinFront<T>(s: State<T>, v: State<T>, g: Layout)
    requires Twin(s, v) && RingOk(v.mem, g)
    ensures s.mem.frontBlock < |s.mem.blocks| && InBounds(s.mem.blocks[s.mem.frontBlock])
    ensures FrontSegment(s) == Live(v.mem.blocks[v.mem.frontBlock])
    ensures s.mem.blocks[s.mem.frontBlock].next == v.mem.blocks[s.mem.frontBlock].next
  {
  }

  /** The two queues hold the same elements. */
  lemma TwinContents<T>(s: State<T>, v: State<T>, g: Layout)
    requires Twin(s, v) && MemOk(v.mem, g, Pending(v.prod))
    ensures Contents(s) == Held(v.mem, g)
  {
    hide Live, Walk, Cat, FrontSegment, MemOk, BlocksOk;
    TwinEnds(s.mem, v.mem, g, Pending(v.prod));
    TwinFront(s, v, g);
    HeldSplitFirst(v.mem, g);
    if g.tp > 0 {
      assert g.ring[0] != g.ring[g.tp];
      assert LinkAt(v.mem.blocks, g.ring, 0);
      TwinWalk(s.mem, v.mem, g, Pending(v.prod), 1, |s.mem.blocks|);
    } else {
      NothingBehind(v.mem, g);
    }
  }

  // ---------------------------------------------------------------- producer steps

  // The places where the producer of s takes block 0 for full, whatever its twin sees
  predicate PassesBy<T>(p: Producer<T>) { (p.PLoadTail? || p.PLoadFront?) && p.tb == 0 }

  lemma TwinPassesBy<T>(s: State<T>, v: State<T>, g: Layout, m: Option<seq<T>>) returns (v': State<T>)
    requires Twin(s, v) && Inv(v, g) && Enabled(s, ProducerStep(m)) && PassesBy(s.prod)
    ensures Twin(ProducerNext(s, m), v') && Inv(v', g) && v'.cons == v.cons
  {
    OneSlotStays(0);
    var w := v.mem.blocks[0];
    if s.prod.PLoadTail? {
      var nt := Advance(w.tail, 2);
      v' := v.(prod := PLoadFront(s.prod.e, s.prod.canAlloc, 0, w.tail, nt));
    } else {
      assert s.mem.blocks[0 := s.mem.blocks[0]] == s.mem.blocks;
      v' := v.(prod := PLoadNext(s.prod.e, s.prod.canAlloc, 0));
      assert 0 != v.mem.frontBlock ==> Full(w) by { assert g.tp > 0 || v.mem.frontBlock == v.mem.tailBlock; }
    }
    ProducerLocal(v, g, v'.prod);
  }

  lemma TwinAt<T>(m: Mem<T>, w: Mem<T>, x: nat)
    requires TwinMem(m, w) && x < |m.blocks|
    ensures |m.blocks| == |w.blocks| && m.frontBlock == w.frontBlock
    ensures if x == 0 then TwinBlock(m.blocks[x], w.blocks[x]) else m.blocks[x] == w.blocks[x]
  {
  }

  lemma TwinSet<T>(m: Mem<T>, w: Mem<T>, x: nat, b: Block<T>, c: Block<T>)
    requires TwinMem(m, w) && x < |m.blocks| && if x == 0 then TwinBlock(b, c) else b == c
    ensures TwinMem(SetBlock(m, x, b), SetBlock(w, x, c))
  {
    hide TwinBlock;
  }

  // The steps that move values into the producer's locals
  lemma TwinProducerLoads<T>(s: State<T>, v: State<T>, m: Option<seq<T>>)
    requires Twin(s, v) && Enabled(s, ProducerStep(m)) && Enabled(v, ProducerStep(m)) && !PassesBy(s.prod)
    requires s.prod.PLoadTailBlock? || s.prod.PLoadTail? || s.prod.PLoadNext? || s.prod.PLoadFrontBlock?
      || s.prod.PReloadNext? || s.prod.PLoadNextForNew?
    ensures Twin(ProducerNext(s, m), ProducerNext(v, m))
  {
    hide Advance;
  }

  lemma TwinProducerWrites<T>(s: State<T>, v: State<T>, m: Option<seq<T>>)
    requires Twin(s, v) && Enabled(s, ProducerStep(m)) && Enabled(v, ProducerStep(m)) && !PassesBy(s.prod)
    requires s.prod.PLoadFront? || s.prod.PWrite? || s.prod.PStoreTail?
    ensures Twin(ProducerNext(s, m), ProducerNext(v, m))
  {
    hide Advance;
  }

  // What is known of the block the producer is about to fill
  lemma FreeBlock<T>(v: State<T>, g: Layout, nx: nat)
    requires MemOk(v.mem, g, None) && FreeAhead(v.mem, g, nx)
    ensures nx < |v.mem.blocks| && nx != v.mem.frontBlock && v.mem.blocks[nx].front == v.mem.blocks[nx].tail
  {
    assert g.ring[g.tp + 1] != g.ring[0];
    assert Count(v.mem.blocks[nx]) == 0;
  }

  lemma TwinLoadsNext<T>(s: State<T>, v: State<T>, nx: nat)
    requires Twin(s, v) && nx < |v.mem.blocks| && ProducerInBounds(s.mem, s.prod) && ProducerInBounds(v.mem, v.prod)
    requires (s.prod.PLoadNextFront? || s.prod.PLoadNextTail?) && s.prod.nx == nx != v.mem.frontBlock
    requires v.prod.PLoadNextTail? ==> v.prod.nextFront < |v.mem.blocks[nx].data|
    ensures s.prod.PLoadNextFront? ==> Twin(LoadNextFrontByProducer(s), LoadNextFrontByProducer(v))
    ensures s.prod.PLoadNextTail? ==> Twin(LoadNextTailByProducer(s), LoadNextTailByProducer(v))
  {
    hide Advance;
    var b, c := s.mem.blocks[nx], v.mem.blocks[nx];
    if s.prod.PLoadNextFront? {
      TwinSet(s.mem, v.mem, nx, b.(localFront := b.front), c.(localFront := c.front));
    } else {
      TwinSet(s.mem, v.mem, nx, b.(localFront := s.prod.nextFront), c.(localFront := v.prod.nextFront));
    }
    hide TwinMem;
  }

  lemma TwinWritesNext<T>(s: State<T>, v: State<T>, nx: nat)
    requires Twin(s, v) && nx < |v.mem.blocks| && ProducerInBounds(s.mem, s.prod) && ProducerInBounds(v.mem, v.prod)
    requires s.prod.PWriteNext? && s.prod.nx == nx != v.mem.frontBlock
    requires v.mem.blocks[nx].front == v.mem.blocks[nx].tail
    ensures Twin(WriteNextByProducer(s), WriteNextByProducer(v))
  {
    var b, c := s.mem.blocks[nx], v.mem.blocks[nx];
    TwinSet(s.mem, v.mem, nx, b.(data := b.data[s.prod.nextTail := s.prod.e]),
            c.(data := c.data[v.prod.nextTail := s.prod.e]));
    hide TwinMem;
  }

  lemma TwinStoresNextTail<T>(s: State<T>, v: State<T>, nx: nat)
    requires Twin(s, v) && nx < |v.mem.blocks| && ProducerInBounds(s.mem, s.prod) && ProducerInBounds(v.mem, v.prod)
    requires s.prod.PStoreNextTail? && s.prod.nx == nx != v.mem.frontBlock
    requires v.mem.blocks[nx].front == v.mem.blocks[nx].tail == v.prod.nextTail < |v.mem.blocks[nx].data|
    requires v.mem.blocks[nx].data[v.prod.nextTail] == s.prod.e
    ensures Twin(StoreNextTailByProducer(s), StoreNextTailByProducer(v))
  {
    OneSlotStays(0);
    assert IsPow2(2) by { assert Pow2(1) == 2; }
    var b, c := s.mem.blocks[nx], v.mem.blocks[nx];
    if nx == 0 { AdvanceStep(c.tail, 2); }
    TwinSet(s.mem, v.mem, nx, b.(tail := Advance(s.prod.nextTail, |b.data|)),
            c.(tail := Advance(v.prod.nextTail, |c.data|)));
    hide TwinMem;
  }

  lemma TwinMoves<T>(s: State<T>, v: State<T>)
    requires Twin(s, v) && s.prod.PStoreTailBlock?
    ensures Twin(StoreTailBlockByProducer(s), StoreTailBlockByProducer(v))
  {
  }

  lemma TwinLinks<T>(s: State<T>, v: State<T>)
    requires Twin(s, v) && s.prod.PStoreNext? && ProducerInBounds(s.mem, s.prod) && ProducerInBounds(v.mem, v.prod)
    ensures Twin(StoreNextByProducer(s), StoreNextByProducer(v))
  {
  }

  // The first block the twin allocates has two slots as well; its limit is then set to the real one.
  lemma TwinAllocates<T>(s: State<T>, v: State<T>, m: Option<seq<T>>)
    requires Twin(s, v) && s.prod.PAlloc? && Enabled(s, ProducerStep(m))
    ensures m.Some? ==> |m.value| == NewBlockSize(v)
    ensures m.Some? ==> Twin(AllocByProducer(s, m), AllocByProducer(v, m).(max := s.max))
    ensures m.None? ==> Twin(AllocByProducer(s, m), AllocByProducer(v, m))
  {
    hide TwinMem;
  }

  lemma TwinEnabled<T>(s: State<T>, v: State<T>, g: Layout, m: Option<seq<T>>)
    requires Twin(s, v) && Inv(v, g) && Enabled(s, ProducerStep(m))
    ensures Enabled(v, ProducerStep(m))
  {
    hide MemOk, ConsumerOk, RingOk, TwinMem, TwinConsumer, ProducerOk;
    ProducerFaultless(v.mem, g, v.prod);
    if s.prod.PAlloc? { TwinAllocates(s, v, m); }
  }

  lemma TwinFills<T>(s: State<T>, v: State<T>, g: Layout)
    requires Twin(s, v) && Inv(v, g) && ProducerInBounds(s.mem, s.prod) && ProducerInBounds(v.mem, v.prod)
    ensures s.prod.PLoadNextFront? ==> Twin(LoadNextFrontByProducer(s), LoadNextFrontByProducer(v))
    ensures s.prod.PLoadNextTail? ==> Twin(LoadNextTailByProducer(s), LoadNextTailByProducer(v))
    ensures s.prod.PWriteNext? ==> Twin(WriteNextByProducer(s), WriteNextByProducer(v))
    ensures s.prod.PStoreNextTail? ==> Twin(StoreNextTailByProducer(s), StoreNextTailByProducer(v))
  {
    hide MemOk, ConsumerOk, TwinMem, TwinConsumer, LoadNextFrontByProducer, LoadNextTailByProducer, WriteNextByProducer,
         StoreNextTailByProducer, Live, Links, BlocksOk;
    if s.prod.PLoadNextFront? || s.prod.PLoadNextTail? || s.prod.PWriteNext? || s.prod.PStoreNextTail? {
      var nx := s.prod.nx;
      FreeBlock(v, g, nx);
      if s.prod.PWriteNext? { TwinWritesNext(s, v, nx); }
      else if s.prod.PStoreNextTail? { TwinStoresNextTail(s, v, nx); }
      else { TwinLoadsNext(s, v, nx); }
    }
  }

  /** Every producer step of the queue is matched by its twin. */
  lemma TwinProducerStep<T>(s: State<T>, v: State<T>, g: Layout, m: Option<seq<T>>) returns (v': State<T>)
    requires Twin(s, v) && Inv(v, g) && g.tp < |g.ring| && Enabled(s, ProducerStep(m))
    ensures Twin(ProducerNext(s, m), v') && Inv(v', NextLayout(v, g, ProducerStep(m)))
  {
    hide Inv, Twin, ProducerInBounds, NewBlockSize, LoadTailBlockByProducer, LoadTailByProducer, LoadFrontByProducer,
         WriteByProducer, StoreTailByProducer, LoadNextByProducer, LoadFrontBlockByProducer, ReloadNextByProducer,
         LoadNextFrontByProducer, LoadNextTailByProducer, WriteNextByProducer, StoreNextTailByProducer,
         StoreTailBlockByProducer, AllocByProducer, LoadNextForNewByProducer, StoreNextByProducer;
    SamePlace(s, v);
    if PassesBy(s.prod) {
      v' := TwinPassesBy(s, v, g, m);
      return;
    }
    TwinEnabled(s, v, g, m);
    ProducerKeepsInv(v, g, m);
    v' := ProducerNext(v, m);
    match s.prod
    case PLoadFront(_, _, _, _, _) => TwinProducerWrites(s, v, m);
    case PWrite(_, _, _, _, _) => TwinProducerWrites(s, v, m);
    case PStoreTail(_, _, _, _) => TwinProducerWrites(s, v, m);
    case PLoadNextFront(_, _, _) => TwinFills(s, v, g);
    case PLoadNextTail(_, _, _, _) => TwinFills(s, v, g);
    case PWriteNext(_, _, _, _, _) => TwinFills(s, v, g);
    case PStoreNextTail(_, _, _, _) => TwinFills(s, v, g);
    case PStoreTailBlock(_, _, _) => TwinMoves(s, v);
    case PStoreNext(_, _, _, _) => TwinLinks(s, v);
    case PAlloc(_, _, _) =>
      TwinAllocates(s, v, m);
      if m.Some? {
        v' := v'.(max := s.max);
        InvIgnoresMax(ProducerNext(v, m), g, s.max);
      }
    case _ => TwinProducerLoads(s, v, m);
  }

  lemma InvIgnoresMax<T>(v: State<T>, g: Layout, max: nat)
    requires Inv(v, g)
    ensures Inv(v.(max := max), g)
  {
    hide RingOk, MemOk, ProducerOk, ConsumerOk;
  }

  lemma SamePlace<T>(s: State<T>, v: State<T>)
    requires Twin(s, v)
    ensures s.prod.PIdle? == v.prod.PIdle? && s.prod.PReturn? == v.prod.PReturn?
    ensures s.prod.PLoadTailBlock? == v.prod.PLoadTailBlock? && s.prod.PLoadTail? == v.prod.PLoadTail?
    ensures s.prod.PLoadFront? == v.prod.PLoadFront? && s.prod.PWrite? == v.prod.PWrite?
    ensures s.prod.PStoreTail? == v.prod.PStoreTail? && s.prod.PLoadNext? == v.prod.PLoadNext?
    ensures s.prod.PLoadFrontBlock? == v.prod.PLoadFrontBlock? && s.prod.PReloadNext? == v.prod.PReloadNext?
    ensures s.prod.PLoadNextFront? == v.prod.PLoadNextFront? && s.prod.PLoadNextTail? == v.prod.PLoadNextTail?
    ensures s.prod.PWriteNext? == v.prod.PWriteNext? && s.prod.PStoreNextTail? == v.prod.PStoreNextTail?
    ensures s.prod.PStoreTailBlock? == v.prod.PStoreTailBlock? && s.prod.PAlloc? == v.prod.PAlloc?
    ensures s.prod.PLoadNextForNew? == v.prod.PLoadNextForNew? && s.prod.PStoreNext? == v.prod.PStoreNext?
    ensures |s.mem.blocks| == |v.mem.blocks|
  {
  }

  // ---------------------------------------------------------------- consumer steps

  // The consumer of s finds nothing in block 0 when it starts there, whatever the shadows of its twin.
  lemma TwinFindsNothing<T>(s: State<T>, v: State<T>, g: Layout) returns (v': State<T>)
    requires Twin(s, v) && Inv(v, g) && Enabled(s, ConsumerStep) && s.cons.CLoadFront? && s.cons.fb == 0
    ensures Twin(ConsumerNext(s), v') && Inv(v', g)
  {
    v' := v.(cons := CLoadTail(s.cons.op, 0, v.mem.blocks[0].front));
    ConsumerLocal(v, g, v'.cons);
  }

  lemma TwinConsumerLoads<T>(s: State<T>, v: State<T>)
    requires Twin(s, v) && Enabled(s, ConsumerStep) && Enabled(v, ConsumerStep)
    requires LocalLoad(s.cons) && !s.cons.CReloadFront? && !(s.cons.CLoadFront? && s.cons.fb == 0)
    ensures Twin(ConsumerNext(s), ConsumerNext(v))
  {
    hide TwinProducer;
  }

  lemma TwinReloadsFront<T>(s: State<T>, v: State<T>, fb: nat)
    requires Twin(s, v) && s.cons.CReloadFront? && s.cons.fb == fb == s.mem.frontBlock < |s.mem.blocks|
    requires fb == 0 ==> v.mem.blocks[0].front == v.cons.blockTail
    ensures Twin(ReloadFrontByConsumer(s), ReloadFrontByConsumer(v))
  {
    hide TwinProducer;
  }

  lemma TwinLoadsTail<T>(s: State<T>, v: State<T>, fb: nat)
    requires Twin(s, v) && (s.cons.CLoadTail? || s.cons.CReloadTail?)
    requires s.cons.fb == fb == s.mem.frontBlock < |s.mem.blocks|
    requires v.cons.CLoadTail? ==> v.cons.blockFront == v.mem.blocks[fb].front
    ensures s.cons.CLoadTail? ==> Twin(LoadTailByConsumer(s), LoadTailByConsumer(v))
    ensures s.cons.CReloadTail? ==> Twin(ReloadTailByConsumer(s), ReloadTailByConsumer(v))
  {
    var b, c := s.mem.blocks[fb], v.mem.blocks[fb];
    TwinSet(s.mem, v.mem, fb, b.(localTail := b.tail), c.(localTail := c.tail));
    hide TwinProducer, TwinMem;
  }

  lemma TwinLoadsNextTail<T>(s: State<T>, v: State<T>, nb: nat)
    requires Twin(s, v) && s.cons.CLoadNextTail? && s.cons.nb == nb < |s.mem.blocks|
    ensures Twin(LoadNextTailByConsumer(s), LoadNextTailByConsumer(v))
  {
    hide TwinProducer, TwinMem;
    TwinAt(s.mem, v.mem, nb);
    var b, c := s.mem.blocks[nb], v.mem.blocks[nb];
    var b', c' := b.(localTail := b.tail), c.(localTail := c.tail);
    TwinSet(s.mem, v.mem, nb, b', c');
    TwinAt(SetBlock(s.mem, nb, b'), SetBlock(v.mem, nb, c'), 0);
  }

  // What the invariant says of the twin at these places
  lemma TwinShadows<T>(s: State<T>, v: State<T>, g: Layout)
    requires Twin(s, v) && Inv(v, g) && ConsumerInBounds(s.mem, s.cons)
    ensures s.cons.CLoadTail? ==> Twin(LoadTailByConsumer(s), LoadTailByConsumer(v))
    ensures s.cons.CReloadTail? ==> Twin(ReloadTailByConsumer(s), ReloadTailByConsumer(v))
    ensures s.cons.CLoadNextTail? ==> Twin(LoadNextTailByConsumer(s), LoadNextTailByConsumer(v))
    ensures s.cons.CReloadFront? ==> Twin(ReloadFrontByConsumer(s), ReloadFrontByConsumer(v))
  {
    hide MemOk, ProducerOk, TwinMem, TwinProducer, BlocksOk, Links, LoadTailByConsumer, ReloadTailByConsumer,
         LoadNextTailByConsumer, ReloadFrontByConsumer, Live;
    TwinSize(s, v);
    match s.cons
    case CLoadTail(_, fb, _) => TwinLoadsTail(s, v, fb);
    case CReloadTail(_, fb) => TwinLoadsTail(s, v, fb);
    case CLoadNextTail(_, nb, _) => TwinLoadsNextTail(s, v, nb);
    case CReloadFront(_, fb, _) => TwinReloadsFront(s, v, fb);
    case _ =>
  }

  lemma TwinSize<T>(s: State<T>, v: State<T>)
    requires Twin(s, v)
    ensures |s.mem.blocks| == |v.mem.blocks| && s.mem.frontBlock == v.mem.frontBlock
  {
  }

  // Block 0 holds something when the consumer reads from it.
  lemma ReadsSomething<T>(v: State<T>, g: Layout)
    requires Inv(v, g) && v.cons.CRead? && v.cons.fb < |v.mem.blocks|
    ensures var b := v.mem.blocks[v.cons.fb]; b.front == v.cons.blockFront && b.front != b.tail
  {
    hide ProducerOk, Live;
    if NextAhead(v.mem, g, v.cons.fb) { NextNotEmpty(v.mem, g, Pending(v.prod)); }
  }

  lemma TwinReads<T>(s: State<T>, v: State<T>, g: Layout)
    requires Twin(s, v) && Inv(v, g) && s.cons.CRead?
    requires ConsumerInBounds(s.mem, s.cons) && ConsumerInBounds(v.mem, v.cons)
    ensures Twin(ReadByConsumer(s), ReadByConsumer(v))
  {
    hide MemOk, ProducerOk, ConsumerOk, RingOk, TwinProducer, TwinMem, ReadByConsumer;
    ReadsSomething(v, g);
    TwinReadsAt(s, v, s.cons.fb);
  }

  lemma TwinReadsAt<T>(s: State<T>, v: State<T>, fb: nat)
    requires Twin(s, v) && s.cons.CRead? && s.cons.fb == fb < |v.mem.blocks|
    requires ConsumerInBounds(s.mem, s.cons) && ConsumerInBounds(v.mem, v.cons)
    requires v.mem.blocks[fb].front == v.cons.blockFront && v.mem.blocks[fb].front != v.mem.blocks[fb].tail
    ensures Twin(ReadByConsumer(s), ReadByConsumer(v))
  {
    hide TwinProducer, TwinMem;
    TwinAt(s.mem, v.mem, fb);
  }

  lemma TwinRemoves<T>(s: State<T>, v: State<T>, g: Layout)
    requires Twin(s, v) && Inv(v, g) && s.cons.CStoreFront?
    requires ConsumerInBounds(s.mem, s.cons) && ConsumerInBounds(v.mem, v.cons)
    ensures Twin(StoreFrontByConsumer(s), StoreFrontByConsumer(v))
  {
    hide MemOk, ProducerOk, Live, TwinProducer, Links;
    OneSlotStays(0);
    assert IsPow2(2) by { assert Pow2(1) == 2; }
    var x := s.cons.fb;
    var b, c := s.mem.blocks[x], v.mem.blocks[x];
    if x == 0 { AdvanceStep(c.front, 2); }
    TwinSet(s.mem, v.mem, x, b.(front := Advance(s.cons.blockFront, |b.data|)),
            c.(front := Advance(v.cons.blockFront, |c.data|)));
  }

  lemma TwinEnters<T>(s: State<T>, v: State<T>, g: Layout)
    requires Twin(s, v) && Inv(v, g) && s.cons.CStoreFrontBlock?
    requires ConsumerInBounds(s.mem, s.cons) && ConsumerInBounds(v.mem, v.cons)
    ensures Twin(StoreFrontBlockByConsumer(s), StoreFrontBlockByConsumer(v))
  {
    hide MemOk, ProducerOk, Live, TwinProducer, TwinMem, Links, BlocksOk, StoreFrontBlockByConsumer;
    NextNotEmpty(v.mem, g, Pending(v.prod));
    TwinEntersAt(s, v, s.cons.nb);
  }

  lemma TwinEntersAt<T>(s: State<T>, v: State<T>, nb: nat)
    requires Twin(s, v) && s.cons.CStoreFrontBlock? && s.cons.nb == nb < |v.mem.blocks|
    requires v.mem.blocks[nb].front != v.mem.blocks[nb].tail
    requires ConsumerInBounds(s.mem, s.cons) && ConsumerInBounds(v.mem, v.cons)
    ensures Twin(StoreFrontBlockByConsumer(s), StoreFrontBlockByConsumer(v))
  {
    hide TwinProducer;
  }

  /** Every consumer step of the queue is matched by its twin. */
  lemma TwinConsumerStep<T>(s: State<T>, v: State<T>, g: Layout) returns (v': State<T>)
    requires Twin(s, v) && Inv(v, g) && g.tp < |g.ring| && Enabled(s, ConsumerStep)
    ensures Twin(ConsumerNext(s), v') && Inv(v', NextLayout(v, g, ConsumerStep))
  {
    hide Inv, Twin, LoadTailByConsumer, ReloadTailByConsumer, LoadNextTailByConsumer, ReloadFrontByConsumer,
         StoreFrontBlockByConsumer, ReadByConsumer, StoreFrontByConsumer, LoadFrontBlockByConsumer, LoadFrontByConsumer,
         LoadTailBlockByConsumer, ReloadFrontBlockByConsumer, LoadNextByConsumer, LoadNextFrontByConsumer;
    SameConsumerPlace(s, v);
    if s.cons.CLoadFront? && s.cons.fb == 0 {
      v' := TwinFindsNothing(s, v, g);
      return;
    }
    TwinConsumerEnabled(s, v, g);
    ConsumerKeepsInv(v, g);
    v' := ConsumerNext(v);
    match s.cons
    case CRead(_, _, _) => TwinReads(s, v, g);
    case CStoreFront(_, _, _, _) => TwinRemoves(s, v, g);
    case CStoreFrontBlock(_, _, _, _) => TwinEnters(s, v, g);
    case CLoadTail(_, _, _) => TwinShadows(s, v, g);
    case CReloadTail(_, _) => TwinShadows(s, v, g);
    case CLoadNextTail(_, _, _) => TwinShadows(s, v, g);
    case CReloadFront(_, _, _) => TwinShadows(s, v, g);
    case _ => TwinConsumerLoads(s, v);
  }

  lemma SameConsumerPlace<T>(s: State<T>, v: State<T>)
    requires Twin(s, v)
    ensures s.cons.CIdle? == v.cons.CIdle? && s.cons.CReturn? == v.cons.CReturn?
    ensures s.cons.CRead? == v.cons.CRead? && s.cons.CStoreFront? == v.cons.CStoreFront?
    ensures s.cons.CStoreFrontBlock? == v.cons.CStoreFrontBlock? && s.cons.CLoadTail? == v.cons.CLoadTail?
    ensures s.cons.CReloadTail? == v.cons.CReloadTail? && s.cons.CLoadNextTail? == v.cons.CLoadNextTail?
    ensures s.cons.CReloadFront? == v.cons.CReloadFront? && s.cons.CLoadFront? == v.cons.CLoadFront?
    ensures s.cons.CLoadFrontBlock? == v.cons.CLoadFrontBlock? && s.cons.CLoadTailBlock? == v.cons.CLoadTailBlock?
    ensures s.cons.CReloadFrontBlock? == v.cons.CReloadFrontBlock? && s.cons.CLoadNext? == v.cons.CLoadNext?
    ensures s.cons.CLoadNextFront? == v.cons.CLoadNextFront?
    ensures s.cons.CStoreFrontBlock? ==> s.cons.op == v.cons.op
  {
  }

  lemma TwinConsumerEnabled<T>(s: State<T>, v: State<T>, g: Layout)
    requires Twin(s, v) && Inv(v, g) && Enabled(s, ConsumerStep)
    ensures Enabled(v, ConsumerStep)
  {
    hide MemOk, ProducerOk, RingOk, TwinMem, TwinProducer, ConsumerOk;
    ConsumerFaultless(v.mem, g, v.cons);
    SameConsumerPlace(s, v);
  }

  // ---------------------------------------------------------------- reachable states

  /** A reachable state of a queue made for 0 elements, with its twin. */
  ghost predicate OneSlotGood<T>(s: State<T>, v: State<T>, g: Layout) {
    Twin(s, v) && Inv(v, g) && ConsumerSaw(s, g)
  }

  lemma TwinCall<T>(s: State<T>, v: State<T>, g: Layout, a: Action<T>)
    requires Twin(s, v) && Inv(v, g) && Enabled(s, a) && (a.EnqueueCall? || a.ConsumerCall?)
    ensures Enabled(v, a) && Twin(CoreStep(s, a), CoreStep(v, a)) && Inv(CoreStep(v, a), g)
  {
    CallKeepsInv(v, g, a);
    hide Inv, TwinMem;
  }

  lemma TwinCoreStep<T>(s: State<T>, v: State<T>, g: Layout, a: Action<T>) returns (v': State<T>)
    requires Twin(s, v) && Inv(v, g) && g.tp < |g.ring| && Enabled(s, a)
    ensures Twin(CoreStep(s, a), v') && Inv(v', NextLayout(v, g, a))
  {
    hide Twin, Inv, ProducerNext, ConsumerNext;
    match a
    case EnqueueCall(_, _) => TwinCall(s, v, g, a); v' := CoreStep(v, a);
    case ConsumerCall(_) => TwinCall(s, v, g, a); v' := CoreStep(v, a);
    case ProducerStep(m) => v' := TwinProducerStep(s, v, g, m);
    case ConsumerStep => v' := TwinConsumerStep(s, v, g);
  }

  // Having found the front block empty while it was the tail block, the consumer saw an empty queue.
  lemma FoundEmpty<T>(s: State<T>, v: State<T>, v': State<T>, g: Layout)
    requires Twin(s, v) && Inv(v, g) && Enabled(s, ConsumerStep) && s.cons.CLoadTail? && g.tp == 0
    requires ConsumerNext(s).cons.CLoadTailBlock? && Twin(ConsumerNext(s), v') && Inv(v', g)
    ensures Contents(ConsumerNext(s)) == []
  {
    hide MemOk, ProducerOk, Live, TwinProducer, Cat, Contents, BlocksOk, Links;
    var n := ConsumerNext(s);
    TwinContents(n, v', g);
    HeldSplitLast(v'.mem, g);
    assert v'.mem.blocks[v'.mem.frontBlock].front == v'.mem.blocks[v'.mem.frontBlock].tail;
    NothingLive(v'.mem.blocks[v'.mem.frontBlock]);
    NoneBefore(v'.mem, g);
  }

  lemma NothingLive<T>(b: Block<T>)
    requires InBounds(b) && b.front == b.tail
    ensures Live(b) == []
  {
  }

  lemma NoneBefore<T>(m: Mem<T>, g: Layout)
    requires RingOk(m, g) && g.tp == 0
    ensures Cat(m.blocks, g.ring[..g.tp]) == [] && m.frontBlock == m.tailBlock
  {
  }

  lemma OneSlotSaw<T>(s: State<T>, v: State<T>, g: Layout, a: Action<T>, v': State<T>)
    requires OneSlotGood(s, v, g) && g.tp < |g.ring| && Enabled(s, a)
    requires Twin(CoreStep(s, a), v') && Inv(v', NextLayout(v, g, a))
    ensures ConsumerSaw(Step(s, a), NextLayout(v, g, a))
  {
    hide Inv, Twin, Contents, ProducerNext, ConsumerNext;
    var n, g' := CoreStep(s, a), NextLayout(v, g, a);
    SamePlaces(s, v, g);
    match a
    case EnqueueCall(_, _) =>
    case ConsumerCall(_) =>
    case ProducerStep(m) => ProducerOutcome(s, m);
    case ConsumerStep =>
      ConsumerOutcome(s);
      if n.cons.CLoadTailBlock? && g'.tp == 0 { FoundEmpty(s, v, v', g); }
  }

  // Where the twin is, as far as the consumer's observation depends on it
  lemma SamePlaces<T>(s: State<T>, v: State<T>, g: Layout)
    requires Twin(s, v) && Inv(v, g)
    ensures s.cons.CStoreFrontBlock? == v.cons.CStoreFrontBlock?
    ensures s.cons.CLoadTailBlock? && s.cons.fb == s.mem.tailBlock ==> g.tp == 0
  {
    hide MemOk, ProducerOk, Live, TwinProducer, BlocksOk, Links;
    if s.cons.CLoadTailBlock? && s.cons.fb == s.mem.tailBlock { assert g.ring[0] == g.ring[g.tp]; }
  }

  /** Every step leads from a good state to a good state. */
  lemma OneSlotStep<T>(s: State<T>, v: State<T>, g: Layout, a: Action<T>) returns (v': State<T>, g': Layout)
    requires OneSlotGood(s, v, g) && Enabled(s, a)
    ensures OneSlotGood(Step(s, a), v', g')
  {
    hide Inv, Twin, CoreStep, Contents, NextLayout, ConsumerSaw;
    InvLayout(v, g);
    g' := NextLayout(v, g, a);
    v' := TwinCoreStep(s, v, g, a);
    OneSlotSaw(s, v, g, a, v');
    InvIgnoresObservations(v', g', Step(s, a).sawEmpty, v'.peak);
    TwinObserves(CoreStep(s, a), v', Step(s, a).sawEmpty, Step(s, a).peak);
    v' := v'.(sawEmpty := Step(s, a).sawEmpty);
  }

  lemma InvLayout<T>(v: State<T>, g: Layout)
    requires Inv(v, g)
    ensures g.tp < |g.ring|
  {
  }

  lemma TwinObserves<T>(s: State<T>, v: State<T>, e: bool, p: nat)
    requires Twin(s, v)
    ensures Twin(s.(sawEmpty := e, peak := p), v.(sawEmpty := e))
  {
    hide TwinMem, TwinProducer, TwinConsumer;
  }

  lemma OneSlotInitial<T>(s: State<T>, max: nat) returns (v: State<T>)
    requires ValidMax(max) && Initial(s, 0, max)
    ensures OneSlotGood(s, v, FirstLayout(1, 2))
  {
    assert RoundedUp(1) == 1 by { assert Length(0) == 0; }
    var d := s.mem.blocks[0].data[0];
    var w := Mem([Block(0, 0, 0, 0, 0, [d, d])], 0, 0);
    v := s.(mem := w, largest := 2, max := 2);
    assert IsPow2(2) by { assert Pow2(1) == 2; }
    EmptyRingOk(w, 1, 2);
    hide MemOk;
  }

  // ---------------------------------------------------------------- what follows

  lemma OneSlotHistory<T>(s: State<T>, v: State<T>, g: Layout)
    requires OneSlotGood(s, v, g)
    ensures s.enqueued == s.dequeued + Contents(s)
    ensures s.cons.CReturn? && s.cons.result.None? ==> s.sawEmpty
    ensures s.cons.CStoreFront? ==> !s.cons.op.Peek?
  {
    hide MemOk, ProducerOk, TwinMem, TwinProducer, RingOk, Contents, Held;
    TwinContents(s, v, g);
  }

  /** Pointers and indices stay in range: of the faults only the assertion can happen. */
  lemma OneSlotInBounds<T>(s: State<T>, v: State<T>, g: Layout)
    requires OneSlotGood(s, v, g)
    ensures ProducerInBounds(s.mem, s.prod) && ConsumerInBounds(s.mem, s.cons)
    ensures s.prod.PWriteNext? ==> s.prod.nextFront == s.prod.nextTail
  {
    hide MemOk, RingOk, Twin, ProducerInBounds, ConsumerInBounds, ProducerOk, ConsumerOk;
    ProducerFaultless(v.mem, g, v.prod);
    ConsumerFaultless(v.mem, g, v.cons);
    ProducerInRange(s, v);
    ConsumerInRange(s, v);
    SameBlocks(s, v, g);
  }

  lemma ProducerInRange<T>(s: State<T>, v: State<T>)
    requires Twin(s, v) && ProducerInBounds(v.mem, v.prod)
    ensures ProducerInBounds(s.mem, s.prod)
  {
    hide TwinConsumer;
  }

  lemma ConsumerInRange<T>(s: State<T>, v: State<T>)
    requires Twin(s, v) && ConsumerInBounds(v.mem, v.cons)
    ensures ConsumerInBounds(s.mem, s.cons)
  {
    hide TwinProducer;
  }

  lemma SameBlocks<T>(s: State<T>, v: State<T>, g: Layout)
    requires Twin(s, v) && RingOk(v.mem, g) && ProducerOk(v.mem, g, v.prod)
    ensures s.prod.PWriteNext? ==> s.prod.nextFront == s.prod.nextTail
  {
    hide TwinMem, TwinConsumer, RingOk;
  }

  lemma OneSlotReads<T>(s: State<T>, v: State<T>, g: Layout)
    requires OneSlotGood(s, v, g) && s.cons.CRead? && ConsumerInBounds(s.mem, s.cons)
    ensures Contents(s) != [] && Contents(s)[0] == s.mem.blocks[s.cons.fb].data[s.cons.blockFront]
  {
    hide MemOk, ProducerOk, TwinProducer, Contents, BlocksOk, Links;
    ConsumerFaultless(v.mem, g, v.cons);
    TwinContents(s, v, g);
    ContentsAreHeld(v, g);
    FrontOfContents(v, g);
    ReadsSomething(v, g);
  }
}
