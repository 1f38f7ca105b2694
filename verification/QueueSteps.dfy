/** Every step of the machine keeps the invariant. */
module QueueSteps {
  import opened Basics
  import opened Bits
  import opened Queue
  import opened QueueInvariant

  lemma CallKeepsInv<T>(s: State<T>, g: Layout, a: Action<T>)
    requires Inv(s, g) && Enabled(s, a) && (a.EnqueueCall? || a.ConsumerCall?)
    ensures Inv(CoreStep(s, a), g)
  {
  }

  // ---------------------------------------------------------------- producer

  // A step that changes nothing but the producer's own locals
  lemma ProducerLocal<T>(s: State<T>, g: Layout, p: Producer<T>)
    requires Inv(s, g) && Pending(s.prod) == Pending(p) && ProducerOk(s.mem, g, p)
    ensures Inv(s.(prod := p), g)
  {
  }

  lemma ProducerLoadsTailBlock<T>(s: State<T>, g: Layout)
    requires Inv(s, g) && s.prod.PLoadTailBlock? && ProducerInBounds(s.mem, s.prod)
    ensures Inv(LoadTailBlockByProducer(s), g)
  {
    ProducerLocal(s, g, LoadTailBlockByProducer(s).prod);
  }

  lemma ProducerLoadsTail<T>(s: State<T>, g: Layout)
    requires Inv(s, g) && s.prod.PLoadTail? && ProducerInBounds(s.mem, s.prod)
    ensures Inv(LoadTailByProducer(s), g)
  {
    ProducerLocal(s, g, LoadTailByProducer(s).prod);
  }

  lemma ProducerLoadsNext<T>(s: State<T>, g: Layout)
    requires Inv(s, g) && s.prod.PLoadNext? && ProducerInBounds(s.mem, s.prod)
    ensures Inv(LoadNextByProducer(s), g)
  {
    ProducerLocal(s, g, LoadNextByProducer(s).prod);
  }

  lemma ProducerReloadsNext<T>(s: State<T>, g: Layout)
    requires Inv(s, g) && s.prod.PReloadNext? && ProducerInBounds(s.mem, s.prod)
    ensures Inv(ReloadNextByProducer(s), g)
  {
    ProducerLocal(s, g, ReloadNextByProducer(s).prod);
  }

  lemma ProducerLinksNew<T>(s: State<T>, g: Layout)
    requires Inv(s, g) && s.prod.PLoadNextForNew? && ProducerInBounds(s.mem, s.prod)
    ensures Inv(LoadNextForNewByProducer(s), g)
  {
    ProducerLocal(s, g, LoadNextForNewByProducer(s).prod);
  }

  lemma ProducerLoadsFrontBlock<T>(s: State<T>, g: Layout)
    requires Inv(s, g) && s.prod.PLoadFrontBlock? && ProducerInBounds(s.mem, s.prod)
    ensures Inv(LoadFrontBlockByProducer(s), g)
  {
    assert LinkAt(s.mem.blocks, g.ring, g.tp);
    ProducerLocal(s, g, LoadFrontBlockByProducer(s).prod);
  }

  lemma FreshBlock<T>(g: Layout, data: seq<T>, e: T)
    requires |data| >= g.least && |data| >= 2 && IsPow2(|data|)
    ensures NewBlockOk(g, Block(0, 1, 1, 0, 0, data[0 := e]), e)
  {
  }

  lemma ProducerAllocates<T>(s: State<T>, g: Layout, m: Option<seq<T>>)
    requires Inv(s, g) && s.prod.PAlloc?
    requires m.Some? ==> |m.value| == NewBlockSize(s)
    ensures m.Some? ==> |m.value| > 0
    ensures Inv(AllocByProducer(s, m), g)
  {
    if m.Some? {
      Doubled(s.largest);
      FreshBlock(g, m.value, s.prod.e);
    }
    ProducerLocal(s, g, AllocByProducer(s, m).prod);
  }

  // A step that rewrites one block without touching what the consumer depends on
  lemma ProducerNeutral<T>(s: State<T>, g: Layout, s': State<T>, x: nat, b: Block<T>)
    requires Inv(s, g) && x < |s.mem.blocks|
    requires s' == s.(mem := SetBlock(s.mem, x, b), prod := s'.prod)
    requires BlockOk(b) && b.next == s.mem.blocks[x].next && |b.data| == |s.mem.blocks[x].data|
    requires b.front == s.mem.blocks[x].front && b.tail == s.mem.blocks[x].tail
    requires b.localTail == s.mem.blocks[x].localTail
    requires Live(b) == Live(s.mem.blocks[x])
    requires Pending(s.prod) == Pending(s'.prod)
    requires RingOk(s'.mem, g) ==> ProducerOk(s'.mem, g, s'.prod)
    ensures Inv(s', g)
  {
    NeutralUpdate(s.mem, g, Pending(s.prod), x, b);
    NeutralForConsumer(s.mem, g, x, b, s.cons);
    hide MemOk, RingOk, ConsumerOk, Live;
  }

  // What the producer learns by loading front of its tail block
  lemma RefreshFront<T>(b: Block<T>)
    requires BlockOk(b)
    ensures BlockOk(b.(localFront := b.front)) && Live(b.(localFront := b.front)) == Live(b)
    ensures Advance(b.tail, |b.data|) == b.front ==> Full(b.(localFront := b.front))
  {
    AdvanceStep(b.tail, |b.data|);
  }

  lemma ProducerLoadsFront<T>(s: State<T>, g: Layout)
    requires Inv(s, g) && s.prod.PLoadFront? && ProducerInBounds(s.mem, s.prod)
    ensures Inv(LoadFrontByProducer(s), g)
  {
    hide ConsumerOk, MemOk, Live, Held;
    var tb := s.prod.tb;
    var b := s.mem.blocks[tb];
    RefreshFront(b);
    ProducerNeutral(s, g, LoadFrontByProducer(s), tb, b.(localFront := b.front));
  }

  lemma ProducerWrites<T>(s: State<T>, g: Layout)
    requires Inv(s, g) && s.prod.PWrite? && ProducerInBounds(s.mem, s.prod)
    ensures Inv(WriteByProducer(s), g)
  {
    var tb := s.prod.tb;
    var b := s.mem.blocks[tb];
    LiveWriteTail(b, s.prod.e);
    ProducerNeutral(s, g, WriteByProducer(s), tb, b.(data := b.data[b.tail := s.prod.e]));
  }

  lemma ProducerLoadsNextFront<T>(s: State<T>, g: Layout)
    requires Inv(s, g) && s.prod.PLoadNextFront? && ProducerInBounds(s.mem, s.prod)
    ensures Inv(LoadNextFrontByProducer(s), g)
  {
    var b := s.mem.blocks[s.prod.nx];
    ProducerNeutral(s, g, LoadNextFrontByProducer(s), s.prod.nx, b.(localFront := b.front));
  }

  lemma ProducerLoadsNextTail<T>(s: State<T>, g: Layout)
    requires Inv(s, g) && s.prod.PLoadNextTail? && ProducerInBounds(s.mem, s.prod)
    ensures Inv(LoadNextTailByProducer(s), g)
  {
    var b := s.mem.blocks[s.prod.nx];
    ProducerNeutral(s, g, LoadNextTailByProducer(s), s.prod.nx, b.(localFront := s.prod.nextFront));
  }

  lemma ProducerWritesNext<T>(s: State<T>, g: Layout)
    requires Inv(s, g) && s.prod.PWriteNext? && ProducerInBounds(s.mem, s.prod)
    ensures Inv(WriteNextByProducer(s), g)
  {
    var b := s.mem.blocks[s.prod.nx];
    LiveWriteTail(b, s.prod.e);
    ProducerNeutral(s, g, WriteNextByProducer(s), s.prod.nx, b.(data := b.data[b.tail := s.prod.e]));
  }

  // Publishing an element in the tail block
  lemma TailGrows<T>(m: Mem<T>, g: Layout, b: Block<T>)
    requires MemOk(m, g, None) && RingOk(SetBlock(m, m.tailBlock, b), g)
    requires BlockOk(b) && Count(b) > 0
    ensures MemOk(SetBlock(m, m.tailBlock, b), g, None)
  {
    hide Live, Links, Distinct, BlockOk;
    OthersSame(m, g, g.tp, b);
  }

  lemma HeldGrows<T>(m: Mem<T>, g: Layout, b: Block<T>, e: T)
    requires RingOk(m, g) && RingOk(SetBlock(m, m.tailBlock, b), g)
    requires BlockOk(b) && Live(b) == Live(m.blocks[m.tailBlock]) + [e]
    ensures Held(SetBlock(m, m.tailBlock, b), g) == Held(m, g) + [e]
  {
    var m' := SetBlock(m, m.tailBlock, b);
    HeldSplitLast(m, g);
    HeldSplitLast(m', g);
    CatFrame(m.blocks, m'.blocks, g.ring[..g.tp]);
  }

  lemma MemPushes<T>(m: Mem<T>, g: Layout, b: Block<T>, e: T, cons: Consumer<T>)
    requires MemOk(m, g, None) && ConsumerOk(m, g, cons)
    requires var t := m.blocks[m.tailBlock];
      && b == t.(tail := Advance(t.tail, |t.data|)) && b.tail != t.localFront && t.data[t.tail] == e
    ensures RingOk(SetBlock(m, m.tailBlock, b), g) && MemOk(SetBlock(m, m.tailBlock, b), g, None)
    ensures Held(SetBlock(m, m.tailBlock, b), g) == Held(m, g) + [e]
    ensures ConsumerOk(SetBlock(m, m.tailBlock, b), g, cons)
  {
    PushOk(m.blocks[m.tailBlock], e, b.tail);
    RingUpdate(m, g, m.tailBlock, b);
    TailGrows(m, g, b);
    HeldGrows(m, g, b, e);
    PushForConsumer(m, g, b, cons);
  }

  lemma PushForConsumer<T>(m: Mem<T>, g: Layout, b: Block<T>, cons: Consumer<T>)
    requires RingOk(m, g) && ConsumerOk(m, g, cons) && RingOk(SetBlock(m, m.tailBlock, b), g)
    requires b == m.blocks[m.tailBlock].(tail := b.tail)
    ensures ConsumerOk(SetBlock(m, m.tailBlock, b), g, cons)
  {
    assert g.tp > 0 ==> m.frontBlock != m.tailBlock;
    ConsumerStable(m, g, SetBlock(m, m.tailBlock, b), g, cons);
  }

  lemma ProducerStoresTail<T>(s: State<T>, g: Layout)
    requires Inv(s, g) && s.prod.PStoreTail? && ProducerInBounds(s.mem, s.prod)
    ensures Inv(StoreTailByProducer(s), g)
  {
    hide MemOk, RingOk, ConsumerOk;
    MemPushes(s.mem, g, s.mem.blocks[s.prod.tb].(tail := s.prod.nextTail), s.prod.e, s.cons);
  }

  // Filling the free block after the tail block: not yet visible to the consumer
  lemma FillsNext<T>(m: Mem<T>, g: Layout, x: nat, b: Block<T>, e: T)
    requires MemOk(m, g, None) && x < |m.blocks| && RingOk(SetBlock(m, x, b), g)
    requires g.tp + 1 < |g.ring| && x == g.ring[g.tp + 1] && BlockOk(b) && Live(b) == [e]
    ensures MemOk(SetBlock(m, x, b), g, Some(e))
    ensures Held(SetBlock(m, x, b), g) == Held(m, g)
  {
    hide Live, Links, Distinct, BlockOk;
    OthersSame(m, g, g.tp + 1, b);
    CatFrame(m.blocks, SetBlock(m, x, b).blocks, g.ring[..g.tp + 1]);
  }

  lemma MemFills<T>(m: Mem<T>, g: Layout, x: nat, b: Block<T>, e: T, cons: Consumer<T>)
    requires MemOk(m, g, None) && FreeAhead(m, g, x) && ConsumerOk(m, g, cons)
    requires var t := m.blocks[x];
      && b == t.(tail := Advance(t.tail, |t.data|)) && t.localFront == t.tail && t.data[t.tail] == e
    ensures RingOk(SetBlock(m, x, b), g) && MemOk(SetBlock(m, x, b), g, Some(e))
    ensures Held(SetBlock(m, x, b), g) == Held(m, g)
    ensures ConsumerOk(SetBlock(m, x, b), g, cons) && FreeAhead(SetBlock(m, x, b), g, x)
  {
    AdvanceStep(m.blocks[x].tail, |m.blocks[x].data|);
    PushOk(m.blocks[x], e, b.tail);
    assert Live(m.blocks[x]) == [] by { assert Count(m.blocks[x]) == 0; }
    RingUpdate(m, g, x, b);
    FillsNext(m, g, x, b, e);
    OthersSame(m, g, g.tp + 1, b);
    FillForConsumer(m, g, x, b, cons);
  }

  lemma FillForConsumer<T>(m: Mem<T>, g: Layout, x: nat, b: Block<T>, cons: Consumer<T>)
    requires RingOk(m, g) && ConsumerOk(m, g, cons) && x < |m.blocks| && RingOk(SetBlock(m, x, b), g)
    requires x != m.frontBlock && b == m.blocks[x].(tail := b.tail)
    ensures ConsumerOk(SetBlock(m, x, b), g, cons)
  {
    ConsumerStable(m, g, SetBlock(m, x, b), g, cons);
  }

  lemma ProducerStoresNextTail<T>(s: State<T>, g: Layout)
    requires Inv(s, g) && s.prod.PStoreNextTail? && ProducerInBounds(s.mem, s.prod)
    ensures Inv(StoreNextTailByProducer(s), g)
  {
    hide MemOk, RingOk, ConsumerOk;
    var b := s.mem.blocks[s.prod.nx];
    MemFills(s.mem, g, s.prod.nx, b.(tail := Advance(b.tail, |b.data|)), s.prod.e, s.cons);
  }

  // Moving the tail block pointer publishes the pending element.
  lemma TailMoves<T>(m: Mem<T>, g: Layout, e: T)
    requires MemOk(m, g, Some(e)) && g.tp + 1 < |g.ring| && SeenFull(m, m.tailBlock)
    ensures RingOk(m.(tailBlock := g.ring[g.tp + 1]), g.(tp := g.tp + 1))
    ensures MemOk(m.(tailBlock := g.ring[g.tp + 1]), g.(tp := g.tp + 1), None)
    ensures Held(m.(tailBlock := g.ring[g.tp + 1]), g.(tp := g.tp + 1)) == Held(m, g) + [e]
  {
    hide Live, Links, BlockOk;
    var m', g' := m.(tailBlock := g.ring[g.tp + 1]), g.(tp := g.tp + 1);
    LiveLength(m.blocks[m'.tailBlock]);
    assert g.tp > 0 ==> m.tailBlock != m.frontBlock;
    HeldSplitLast(m', g');
  }

  lemma ProducerStoresTailBlock<T>(s: State<T>, g: Layout)
    requires Inv(s, g) && s.prod.PStoreTailBlock? && ProducerInBounds(s.mem, s.prod)
    ensures Inv(StoreTailBlockByProducer(s), g.(tp := g.tp + 1))
  {
    TailMoves(s.mem, g, s.prod.e);
    ConsumerStable(s.mem, g, StoreTailBlockByProducer(s).mem, g.(tp := g.tp + 1), s.cons);
  }

  // Linking a new block behind the tail block
  lemma InsertAt(g: Layout, id: nat)
    requires g.tp < |g.ring|
    ensures forall i :: 0 <= i <= g.tp ==> Insert(g, id).ring[i] == g.ring[i]
    ensures Insert(g, id).ring[g.tp + 1] == id
    ensures forall i {:trigger Insert(g, id).ring[i]} :: g.tp + 1 < i <= |g.ring| ==>
      Insert(g, id).ring[i] == g.ring[i - 1]
  {
  }

  lemma LinkGrows<T>(m: Mem<T>, g: Layout, b: Block<T>, i: nat)
    requires RingOk(m, g) && b.next == m.blocks[m.tailBlock].next && i <= |g.ring|
    ensures Insert(g, |m.blocks|).ring[i] <= |m.blocks|
    ensures LinkAt(LinkAfterTail(m, m.tailBlock, b).blocks, Insert(g, |m.blocks|).ring, i)
  {
    hide BlocksOk;
    InsertAt(g, |m.blocks|);
    if i <= g.tp {
      assert LinkAt(m.blocks, g.ring, i);
    } else if i == g.tp + 1 {
      assert LinkAt(m.blocks, g.ring, g.tp);
    } else {
      assert LinkAt(m.blocks, g.ring, i - 1);
    }
  }

  lemma InsertDistinct(g: Layout, id: nat)
    requires g.tp < |g.ring| && Distinct(g.ring)
    requires forall i :: 0 <= i < |g.ring| ==> g.ring[i] < id
    ensures Distinct(Insert(g, id).ring)
  {
    InsertAt(g, id);
  }

  lemma RingGrows<T>(m: Mem<T>, g: Layout, b: Block<T>)
    requires RingOk(m, g) && BlockOk(b) && |b.data| >= g.least && b.next == m.blocks[m.tailBlock].next
    ensures RingOk(LinkAfterTail(m, m.tailBlock, b), Insert(g, |m.blocks|))
  {
    hide Links, Distinct;
    InsertAt(g, |m.blocks|);
    InsertDistinct(g, |m.blocks|);
    RelinkOk(m.blocks[m.tailBlock], |m.blocks|);
    LinksGrow(m, g, b);
  }

  lemma LinksGrow<T>(m: Mem<T>, g: Layout, b: Block<T>)
    requires RingOk(m, g) && b.next == m.blocks[m.tailBlock].next
    ensures Links(LinkAfterTail(m, m.tailBlock, b).blocks, Insert(g, |m.blocks|).ring)
  {
    hide BlocksOk, LinkAt;
    InsertAt(g, |m.blocks|);
    forall i | 0 <= i <= |g.ring|
      ensures Insert(g, |m.blocks|).ring[i] <= |m.blocks|
      ensures LinkAt(LinkAfterTail(m, m.tailBlock, b).blocks, Insert(g, |m.blocks|).ring, i)
    {
      LinkGrows(m, g, b, i);
    }
  }

  lemma RelinkOk<T>(b: Block<T>, next: nat)
    requires BlockOk(b)
    ensures BlockOk(b.(next := next))
  {
  }

  lemma FreshLive<T>(g: Layout, b: Block<T>, e: T)
    requires NewBlockOk(g, b, e)
    ensures Live(b) == [e]
  {
  }

  lemma LinksBlock<T>(m: Mem<T>, g: Layout, m': Mem<T>, g': Layout, b: Block<T>, e: T)
    requires MemOk(m, g, None) && g' == Insert(g, |m.blocks|)
    requires m.tailBlock < |m.blocks| && m' == LinkAfterTail(m, m.tailBlock, b)
    requires RingOk(m', g') && NewBlockOk(g, b, e)
    ensures MemOk(m', g', Some(e))
  {
    hide Live, Links, Distinct, BlocksOk;
    InsertAt(g, |m.blocks|);
    FreshLive(g, b, e);
    forall i | 0 <= i < |g.ring|
      ensures m'.blocks[g.ring[i]].(next := 0) == m.blocks[g.ring[i]].(next := 0)
    {
    }
  }

  lemma HeldAfterLink<T>(m: Mem<T>, g: Layout, m': Mem<T>, g': Layout, b: Block<T>)
    requires RingOk(m, g) && g' == Insert(g, |m.blocks|) && RingOk(m', g')
    requires m.tailBlock < |m.blocks| && m' == LinkAfterTail(m, m.tailBlock, b)
    ensures Held(m', g') == Held(m, g)
  {
    assert g'.ring[..g.tp + 1] == g.ring[..g.tp + 1];
    CatFrame(m.blocks, m'.blocks, g.ring[..g.tp + 1]);
  }

  lemma LinkMay<T>(m: Mem<T>, g: Layout, m': Mem<T>, g': Layout, b: Block<T>)
    requires RingOk(m, g) && g' == Insert(g, |m.blocks|) && RingOk(m', g')
    requires m.tailBlock < |m.blocks| && m' == LinkAfterTail(m, m.tailBlock, b)
    ensures ProducerMay(m, g, m', g')
  {
    InsertAt(g, |m.blocks|);
  }

  lemma ProducerStoresNext<T>(s: State<T>, g: Layout)
    requires Inv(s, g) && s.prod.PStoreNext? && ProducerInBounds(s.mem, s.prod)
    ensures Inv(StoreNextByProducer(s), Insert(g, |s.mem.blocks|))
  {
    var m, b, g' := s.mem, s.prod.block, Insert(g, |s.mem.blocks|);
    var m' := LinkAfterTail(m, m.tailBlock, b);
    assert RingOk(m', g') by { RingGrows(m, g, b); }
    assert MemOk(m', g', Some(s.prod.e)) by { LinksBlock(m, g, m', g', b, s.prod.e); }
    assert Held(m', g') == Held(m, g) by { HeldAfterLink(m, g, m', g', b); }
    assert ConsumerOk(m', g', s.cons) by {
      LinkMay(m, g, m', g', b);
      ConsumerStable(m, g, m', g', s.cons);
    }
    assert ProducerOk(m', g', PStoreTailBlock(s.prod.e, s.prod.canAlloc, |m.blocks|)) by { InsertAt(g, |m.blocks|); }
  }

  /** Every producer step keeps the invariant. */
  lemma ProducerKeepsInv<T>(s: State<T>, g: Layout, m: Option<seq<T>>)
    requires Inv(s, g) && Enabled(s, ProducerStep(m))
    ensures Inv(ProducerNext(s, m), NextLayout(s, g, ProducerStep(m)))
  {
    hide Inv, ProducerInBounds, NewBlockSize,
         LoadTailBlockByProducer, LoadTailByProducer, LoadFrontByProducer, WriteByProducer, StoreTailByProducer,
         LoadNextByProducer, LoadFrontBlockByProducer, ReloadNextByProducer, LoadNextFrontByProducer,
         LoadNextTailByProducer, WriteNextByProducer, StoreNextTailByProducer, StoreTailBlockByProducer,
         AllocByProducer, LoadNextForNewByProducer, StoreNextByProducer;
    match s.prod
    case PLoadTailBlock(_, _) => ProducerLoadsTailBlock(s, g);
    case PLoadTail(_, _, _, _) => ProducerLoadsTail(s, g);
    case PLoadFront(_, _, _, _, _) => ProducerLoadsFront(s, g);
    case PWrite(_, _, _, _, _) => ProducerWrites(s, g);
    case PStoreTail(_, _, _, _) => ProducerStoresTail(s, g);
    case PLoadNext(_, _, _) => ProducerLoadsNext(s, g);
    case PLoadFrontBlock(_, _, _, _) => ProducerLoadsFrontBlock(s, g);
    case PReloadNext(_, _, _) => ProducerReloadsNext(s, g);
    case PLoadNextFront(_, _, _) => ProducerLoadsNextFront(s, g);
    case PLoadNextTail(_, _, _, _) => ProducerLoadsNextTail(s, g);
    case PWriteNext(_, _, _, _, _) => ProducerWritesNext(s, g);
    case PStoreNextTail(_, _, _, _) => ProducerStoresNextTail(s, g);
    case PStoreTailBlock(_, _, _) => ProducerStoresTailBlock(s, g);
    case PAlloc(_, _, _) => ProducerAllocates(s, g, m);
    case PLoadNextForNew(_, _, _, _) => ProducerLinksNew(s, g);
    case PStoreNext(_, _, _, _) => ProducerStoresNext(s, g);
  }

  // ---------------------------------------------------------------- consumer

  // A step that changes nothing but the consumer's own locals
  lemma ConsumerLocal<T>(s: State<T>, g: Layout, c: Consumer<T>)
    requires Inv(s, g) && ConsumerOk(s.mem, g, c)
    ensures Inv(s.(cons := c), g)
  {
  }

  lemma ConsumerReads<T>(s: State<T>, g: Layout)
    requires Inv(s, g) && s.cons.CRead? && ConsumerInBounds(s.mem, s.cons)
    ensures Inv(ReadByConsumer(s), g)
  {
    ConsumerLocal(s, g, ReadByConsumer(s).cons);
  }

  // The steps that only load, up to the check of the tail block
  lemma ConsumerLoads<T>(s: State<T>, g: Layout, c: Consumer<T>)
    requires Inv(s, g) && ConsumerInBounds(s.mem, s.cons)
    requires
      || (s.cons.CLoadFrontBlock? && c == LoadFrontBlockByConsumer(s).cons)
      || (s.cons.CLoadFront? && c == LoadFrontByConsumer(s).cons)
      || (s.cons.CLoadTailBlock? && c == LoadTailBlockByConsumer(s).cons)
      || (s.cons.CReloadFrontBlock? && c == ReloadFrontBlockByConsumer(s).cons)
    ensures Inv(s.(cons := c), g)
  {
    ConsumerLocal(s, g, c);
  }

  // The steps that only load, on the way to the next block
  lemma ConsumerLoadsNext<T>(s: State<T>, g: Layout, c: Consumer<T>)
    requires Inv(s, g) && ConsumerInBounds(s.mem, s.cons)
    requires
      || (s.cons.CReloadFront? && c == ReloadFrontByConsumer(s).cons)
      || (s.cons.CLoadNext? && c == LoadNextByConsumer(s).cons)
      || (s.cons.CLoadNextFront? && c == LoadNextFrontByConsumer(s).cons)
    ensures Inv(s.(cons := c), g)
  {
    assert LinkAt(s.mem.blocks, g.ring, 0);
    ConsumerLocal(s, g, c);
  }

  // A step that refreshes the shadow of tail in block x
  lemma ConsumerShadows<T>(s: State<T>, g: Layout, s': State<T>, x: nat)
    requires Inv(s, g) && x < |s.mem.blocks|
    requires s' == s.(mem := SetBlock(s.mem, x, s.mem.blocks[x].(localTail := s.mem.blocks[x].tail)), cons := s'.cons)
    requires RingOk(s'.mem, g) ==> ConsumerOk(s'.mem, g, s'.cons)
    ensures Inv(s', g)
  {
    NeutralUpdate(s.mem, g, Pending(s.prod), x, s.mem.blocks[x].(localTail := s.mem.blocks[x].tail));
    ProducerStable(s.mem, g, s'.mem, g, s.prod);
  }

  lemma ConsumerLoadsTail<T>(s: State<T>, g: Layout)
    requires Inv(s, g) && s.cons.CLoadTail? && ConsumerInBounds(s.mem, s.cons)
    ensures Inv(LoadTailByConsumer(s), g)
  {
    ConsumerShadows(s, g, LoadTailByConsumer(s), s.cons.fb);
  }

  lemma ConsumerReloadsTail<T>(s: State<T>, g: Layout)
    requires Inv(s, g) && s.cons.CReloadTail? && ConsumerInBounds(s.mem, s.cons)
    ensures Inv(ReloadTailByConsumer(s), g)
  {
    ConsumerShadows(s, g, ReloadTailByConsumer(s), s.cons.fb);
  }

  // A block after the front block, up to the tail block, is never empty.
  lemma NextNotEmpty<T>(m: Mem<T>, g: Layout, pending: Option<T>)
    requires MemOk(m, g, pending) && g.tp > 0
    ensures m.blocks[g.ring[1]].front != m.blocks[g.ring[1]].tail
  {
    if g.tp > 1 { assert Full(m.blocks[g.ring[1]]); } else { assert m.tailBlock == g.ring[1]; }
  }

  lemma ConsumerLoadsNextTail<T>(s: State<T>, g: Layout)
    requires Inv(s, g) && s.cons.CLoadNextTail? && ConsumerInBounds(s.mem, s.cons)
    ensures Inv(LoadNextTailByConsumer(s), g)
  {
    NextNotEmpty(s.mem, g, Pending(s.prod));
    if s.cons.op.Peek? {
      ConsumerLocal(s, g, LoadNextTailByConsumer(s).cons);
    } else {
      ConsumerShadows(s, g, LoadNextTailByConsumer(s), s.cons.nb);
    }
  }

  // Removing the oldest element
  lemma FrontShrinks<T>(m: Mem<T>, g: Layout, pending: Option<T>, b: Block<T>)
    requires MemOk(m, g, pending) && BlockOk(b) && RingOk(SetBlock(m, m.frontBlock, b), g)
    ensures MemOk(SetBlock(m, m.frontBlock, b), g, pending)
  {
    hide Live, Links, Distinct, BlockOk;
    OthersSame(m, g, 0, b);
  }

  lemma HeldShrinks<T>(m: Mem<T>, g: Layout, b: Block<T>, v: T)
    requires RingOk(m, g) && RingOk(SetBlock(m, m.frontBlock, b), g)
    requires BlockOk(b) && Live(m.blocks[m.frontBlock]) == [v] + Live(b)
    ensures Held(m, g) == [v] + Held(SetBlock(m, m.frontBlock, b), g)
  {
    var m' := SetBlock(m, m.frontBlock, b);
    HeldSplitFirst(m, g);
    HeldSplitFirst(m', g);
    CatFrame(m.blocks, m'.blocks, g.ring[1..g.tp + 1]);
  }

  lemma FrontShrinkStable<T>(m: Mem<T>, g: Layout, b: Block<T>, prod: Producer<T>)
    requires RingOk(m, g) && ProducerOk(m, g, prod) && RingOk(SetBlock(m, m.frontBlock, b), g)
    requires b == m.blocks[m.frontBlock].(front := b.front)
    ensures ProducerOk(SetBlock(m, m.frontBlock, b), g, prod)
  {
    ProducerStable(m, g, SetBlock(m, m.frontBlock, b), g, prod);
  }

  lemma MemPops<T>(m: Mem<T>, g: Layout, pending: Option<T>, b: Block<T>)
    requires MemOk(m, g, pending) && Takeable(m, m.frontBlock, m.blocks[m.frontBlock].front)
    requires b == m.blocks[m.frontBlock].(front := Advance(m.blocks[m.frontBlock].front, |m.blocks[m.frontBlock].data|))
    ensures RingOk(SetBlock(m, m.frontBlock, b), g) && MemOk(SetBlock(m, m.frontBlock, b), g, pending)
    ensures Held(m, g)
      == [m.blocks[m.frontBlock].data[m.blocks[m.frontBlock].front]] + Held(SetBlock(m, m.frontBlock, b), g)
  {
    PopOk(m.blocks[m.frontBlock], b.front);
    RingUpdate(m, g, m.frontBlock, b);
    FrontShrinks(m, g, pending, b);
    HeldShrinks(m, g, b, m.blocks[m.frontBlock].data[m.blocks[m.frontBlock].front]);
  }

  lemma ConsumerStoresFront<T>(s: State<T>, g: Layout)
    requires Inv(s, g) && s.cons.CStoreFront? && ConsumerInBounds(s.mem, s.cons)
    ensures Inv(StoreFrontByConsumer(s), g)
  {
    hide MemOk, RingOk, ProducerOk;
    var b := s.mem.blocks[s.cons.fb];
    var b' := b.(front := Advance(b.front, |b.data|));
    MemPops(s.mem, g, Pending(s.prod), b');
    FrontShrinkStable(s.mem, g, b', s.prod);
  }

  // Leaving an empty front block for the next one
  lemma RotateAt(g: Layout)
    requires g.ring != [] && g.tp > 0
    ensures forall i {:trigger Rotate(g).ring[i]} :: 0 <= i < |g.ring| - 1 ==> Rotate(g).ring[i] == g.ring[i + 1]
    ensures Rotate(g).ring[|g.ring| - 1] == g.ring[0]
  {
  }

  lemma RingRotates<T>(m: Mem<T>, g: Layout)
    requires RingOk(m, g) && g.tp > 0
    ensures RingOk(m.(frontBlock := g.ring[1]), Rotate(g))
  {
    hide BlocksOk;
    var n := |g.ring|;
    RotateAt(g);
    forall i | 0 <= i < n
      ensures LinkAt(m.blocks, Rotate(g).ring, i)
    {
      assert LinkAt(m.blocks, g.ring, Succ(i, n));
    }
  }

  lemma FrontMoves<T>(m: Mem<T>, g: Layout, pending: Option<T>)
    requires MemOk(m, g, pending) && g.tp > 0 && Count(m.blocks[m.frontBlock]) == 0
    requires RingOk(m.(frontBlock := g.ring[1]), Rotate(g))
    requires pending.Some? ==> g.tp + 1 < |g.ring|
    ensures MemOk(m.(frontBlock := g.ring[1]), Rotate(g), pending)
  {
    hide Live, Links, Distinct, BlocksOk;
    RotateAt(g);
  }

  lemma HeldAfterMove<T>(m: Mem<T>, g: Layout)
    requires RingOk(m, g) && g.tp > 0 && Count(m.blocks[m.frontBlock]) == 0
    requires RingOk(m.(frontBlock := g.ring[1]), Rotate(g))
    ensures Held(m.(frontBlock := g.ring[1]), Rotate(g)) == Held(m, g)
  {
    HeldSplitFirst(m, g);
    assert Rotate(g).ring[..g.tp] == g.ring[1..g.tp + 1];
  }

  lemma MemRotates<T>(m: Mem<T>, g: Layout, pending: Option<T>)
    requires MemOk(m, g, pending) && g.tp > 0 && NextAhead(m, g, g.ring[1])
    requires pending.Some? ==> g.tp + 1 < |g.ring|
    ensures RingOk(m.(frontBlock := g.ring[1]), Rotate(g)) && MemOk(m.(frontBlock := g.ring[1]), Rotate(g), pending)
    ensures Held(m.(frontBlock := g.ring[1]), Rotate(g)) == Held(m, g)
  {
    RingRotates(m, g);
    FrontMoves(m, g, pending);
    HeldAfterMove(m, g);
  }

  lemma RotateStable<T>(m: Mem<T>, g: Layout, prod: Producer<T>)
    requires RingOk(m, g) && ProducerOk(m, g, prod) && g.tp > 0
    requires RingOk(m.(frontBlock := g.ring[1]), Rotate(g))
    ensures ProducerOk(m.(frontBlock := g.ring[1]), Rotate(g), prod)
  {
    ProducerStable(m, g, m.(frontBlock := g.ring[1]), Rotate(g), prod);
  }

  lemma RotateKeepsTakeable<T>(m: Mem<T>, g: Layout, bf: nat)
    requires RingOk(m, g) && g.tp > 0
    requires m.blocks[g.ring[1]].front == bf && m.blocks[g.ring[1]].localTail != bf
    ensures Takeable(m.(frontBlock := g.ring[1]), g.ring[1], bf)
  {
  }

  lemma ConsumerStoresFrontBlock<T>(s: State<T>, g: Layout)
    requires Inv(s, g) && s.cons.CStoreFrontBlock? && !s.cons.op.Peek?
    ensures Inv(StoreFrontBlockByConsumer(s), Rotate(g))
  {
    hide MemOk, RingOk;
    MemRotates(s.mem, g, Pending(s.prod));
    RotateStable(s.mem, g, s.prod);
    RotateKeepsTakeable(s.mem, g, s.cons.nextFront);
  }

  lemma ConsumerPeeksNext<T>(s: State<T>, g: Layout)
    requires Inv(s, g) && s.cons.CStoreFrontBlock? && s.cons.op.Peek?
    ensures Inv(StoreFrontBlockByConsumer(s), g)
  {
    ConsumerLocal(s, g, StoreFrontBlockByConsumer(s).cons);
  }

  // The steps that only move a shared value into the consumer's locals
  predicate LocalLoad<T>(c: Consumer<T>) {
    || c.CLoadFrontBlock? || c.CLoadFront? || c.CLoadTailBlock? || c.CReloadFrontBlock? || c.CReloadFront?
    || c.CLoadNext? || c.CLoadNextFront?
  }

  lemma ConsumerLocalLoad<T>(s: State<T>, g: Layout)
    requires Inv(s, g) && Enabled(s, ConsumerStep) && LocalLoad(s.cons)
    ensures Inv(ConsumerNext(s), g)
  {
    hide Inv, SetBlock;
    match s.cons
    case CLoadFrontBlock(_) => ConsumerLoads(s, g, LoadFrontBlockByConsumer(s).cons);
    case CLoadFront(_, _, _) => ConsumerLoads(s, g, LoadFrontByConsumer(s).cons);
    case CLoadTailBlock(_, _) => ConsumerLoads(s, g, LoadTailBlockByConsumer(s).cons);
    case CReloadFrontBlock(_) => ConsumerLoads(s, g, ReloadFrontBlockByConsumer(s).cons);
    case CReloadFront(_, _, _) => ConsumerLoadsNext(s, g, ReloadFrontByConsumer(s).cons);
    case CLoadNext(_, _) => ConsumerLoadsNext(s, g, LoadNextByConsumer(s).cons);
    case CLoadNextFront(_, _) => ConsumerLoadsNext(s, g, LoadNextFrontByConsumer(s).cons);
  }

  /** Every consumer step keeps the invariant. */
  lemma ConsumerKeepsInv<T>(s: State<T>, g: Layout)
    requires Inv(s, g) && Enabled(s, ConsumerStep)
    ensures Inv(ConsumerNext(s), NextLayout(s, g, ConsumerStep))
  {
    hide Inv, ReadByConsumer, StoreFrontByConsumer, LoadTailByConsumer, ReloadTailByConsumer, LoadNextTailByConsumer,
         StoreFrontBlockByConsumer, LoadFrontBlockByConsumer, LoadFrontByConsumer, LoadTailBlockByConsumer,
         ReloadFrontBlockByConsumer, ReloadFrontByConsumer, LoadNextByConsumer, LoadNextFrontByConsumer,
         ConsumerInBounds;
    match s.cons
    case CLoadTail(_, _, _) => ConsumerLoadsTail(s, g);
    case CRead(_, _, _) => ConsumerReads(s, g);
    case CStoreFront(_, _, _, _) => ConsumerStoresFront(s, g);
    case CReloadTail(_, _) => ConsumerReloadsTail(s, g);
    case CLoadNextTail(_, _, _) => ConsumerLoadsNextTail(s, g);
    case CStoreFrontBlock(op, _, _, _) =>
      if op.Peek? { ConsumerPeeksNext(s, g); } else { ConsumerStoresFrontBlock(s, g); }
    case _ => ConsumerLocalLoad(s, g);
  }
}
