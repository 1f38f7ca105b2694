/**
  The invariant of the queue's step machine, stated over a layout: the ring of blocks read
  off the `next` pointers starting from the front block, and the position of the tail block in it.
*/
module QueueInvariant {
  import opened Basics
  import opened Bits
  import opened Queue

  // least is a lower bound on the size of every block
  datatype Layout = Layout(ring: seq<nat>, tp: nat, least: nat)

  ghost predicate BlockOk<T>(b: Block<T>) {
    && InBounds(b)
    && |b.data| >= 2 && IsPow2(|b.data|)
    // the consumer's shadow of tail lies between front and tail
    && Dist(b.front, b.localTail, |b.data|) <= Dist(b.front, b.tail, |b.data|)
    // front lies between the producer's shadow of it and tail
    && Dist(b.localFront, b.front, |b.data|) <= Dist(b.localFront, b.tail, |b.data|)
  }

  predicate Full<T>(b: Block<T>)
    requires InBounds(b)
  {
    Count(b) == |b.data| - 1
  }

  function Succ(i: nat, n: nat): nat { if i + 1 < n then i + 1 else 0 }

  predicate LinkAt<T>(blocks: seq<Block<T>>, ring: seq<nat>, i: nat)
    requires i < |ring| && ring[i] < |blocks|
  {
    blocks[ring[i]].next == ring[Succ(i, |ring|)]
  }

  // The next pointers go round the ring.
  ghost predicate Links<T>(blocks: seq<Block<T>>, ring: seq<nat>) {
    && (forall i :: 0 <= i < |ring| ==> ring[i] < |blocks|)
    && (forall i {:trigger LinkAt(blocks, ring, i)} :: 0 <= i < |ring| ==> LinkAt(blocks, ring, i))
  }

  ghost predicate BlocksOk<T>(blocks: seq<Block<T>>, least: nat) {
    forall i :: 0 <= i < |blocks| ==> BlockOk(blocks[i]) && |blocks[i].data| >= least
  }

  ghost predicate RingOk<T>(m: Mem<T>, g: Layout) {
    && |g.ring| == |m.blocks| && g.tp < |g.ring|
    && BlocksOk(m.blocks, g.least) && Links(m.blocks, g.ring) && Distinct(g.ring)
    && (forall i :: 0 <= i < |g.ring| ==> g.ring[i] < |m.blocks| && InBounds(m.blocks[g.ring[i]]))
    && g.ring[0] == m.frontBlock && g.ring[g.tp] == m.tailBlock
  }

  /**
    Blocks behind the tail are empty, except the one holding the element the producer is about
    to publish; blocks between the front block and the tail block are full; the tail block is
    not empty unless it is the front block.
  */
  ghost predicate MemOk<T>(m: Mem<T>, g: Layout, pending: Option<T>) {
    && RingOk(m, g)
    && (forall i :: g.tp < i < |g.ring| && (pending.None? || i != g.tp + 1) ==> Count(m.blocks[g.ring[i]]) == 0)
    && (pending.Some? && g.tp + 1 < |g.ring| ==> Live(m.blocks[g.ring[g.tp + 1]]) == [pending.value])
    && (forall i :: 0 < i < g.tp ==> Full(m.blocks[g.ring[i]]))
    && (g.tp > 0 ==> Count(m.blocks[m.tailBlock]) > 0)
  }

  // the producer has seen its tail block full; only the consumer at that block can undo this
  predicate SeenFull<T>(m: Mem<T>, tb: nat)
    requires m.tailBlock < |m.blocks| && InBounds(m.blocks[m.tailBlock])
  {
    tb == m.tailBlock && (tb != m.frontBlock ==> Full(m.blocks[tb]))
  }

  // nx is the block after the tail block, and it is not the front block
  predicate FreeAhead<T>(m: Mem<T>, g: Layout, nx: nat)
    requires m.tailBlock < |m.blocks| && InBounds(m.blocks[m.tailBlock])
  {
    g.tp + 1 < |g.ring| && nx == g.ring[g.tp + 1] && SeenFull(m, m.tailBlock)
  }

  ghost predicate NewBlockOk<T>(g: Layout, b: Block<T>, e: T) {
    && BlockOk(b) && |b.data| >= g.least
    && b.front == 0 && b.tail == 1 && b.data[0] == e
  }

  ghost predicate ProducerOk<T>(m: Mem<T>, g: Layout, prod: Producer<T>)
    requires RingOk(m, g)
  {
    match prod
    case PIdle | PReturn(_, _) | PLoadTailBlock(_, _) => true
    case PLoadTail(_, _, tb, bf) => tb == m.tailBlock && bf == m.blocks[tb].localFront
    case PLoadFront(_, _, tb, bt, nt) =>
      tb == m.tailBlock && bt == m.blocks[tb].tail && nt == Advance(bt, |m.blocks[tb].data|)
    case PWrite(_, _, tb, bt, nt) =>
      && tb == m.tailBlock && bt == m.blocks[tb].tail && nt == Advance(bt, |m.blocks[tb].data|)
      && nt != m.blocks[tb].localFront
    case PStoreTail(e, _, tb, nt) =>
      && tb == m.tailBlock && nt == Advance(m.blocks[tb].tail, |m.blocks[tb].data|)
      && nt != m.blocks[tb].localFront && m.blocks[tb].data[m.blocks[tb].tail] == e
    case PLoadNext(_, _, tb) => SeenFull(m, tb)
    case PLoadFrontBlock(_, _, tb, nx) => SeenFull(m, tb) && nx == m.blocks[tb].next
    case PReloadNext(_, _, tb) => tb == m.tailBlock && FreeAhead(m, g, m.blocks[tb].next)
    case PLoadNextFront(_, _, nx) => FreeAhead(m, g, nx)
    case PLoadNextTail(_, _, nx, nf) =>
      FreeAhead(m, g, nx) && m.blocks[nx].front == nf && m.blocks[nx].localFront == nf
    case PWriteNext(_, _, nx, nf, nt) =>
      FreeAhead(m, g, nx) && m.blocks[nx].localFront == nf && m.blocks[nx].tail == nt && nf == nt
    case PStoreNextTail(e, _, nx, nt) =>
      && FreeAhead(m, g, nx) && m.blocks[nx].localFront == nt && m.blocks[nx].tail == nt
      && m.blocks[nx].data[nt] == e
    case PStoreTailBlock(_, _, nx) => FreeAhead(m, g, nx)
    case PAlloc(_, _, tb) => SeenFull(m, tb)
    case PLoadNextForNew(e, _, tb, b) => SeenFull(m, tb) && NewBlockOk(g, b, e)
    case PStoreNext(e, _, tb, b) =>
      SeenFull(m, tb) && NewBlockOk(g, b, e) && b.next == m.blocks[tb].next
  }

  // the consumer may take the element at index bf of block fb
  predicate Takeable<T>(m: Mem<T>, fb: nat, bf: nat)
    requires m.frontBlock < |m.blocks|
  {
    fb == m.frontBlock && m.blocks[fb].front == bf && m.blocks[fb].localTail != bf
  }

  // the front block is empty and nb is the block after it, on the way to the tail block
  predicate NextAhead<T>(m: Mem<T>, g: Layout, nb: nat)
    requires m.frontBlock < |m.blocks| && g.tp < |g.ring|
  {
    && g.tp > 0 && nb == g.ring[1]
    && m.blocks[m.frontBlock].front == m.blocks[m.frontBlock].tail == m.blocks[m.frontBlock].localTail
  }

  ghost predicate ConsumerOk<T>(m: Mem<T>, g: Layout, cons: Consumer<T>)
    requires RingOk(m, g)
  {
    match cons
    case CIdle | CReturn(_, _) | CLoadFrontBlock(_) => true
    case CLoadFront(_, fb, bt) => fb == m.frontBlock && bt == m.blocks[fb].localTail
    case CLoadTail(_, fb, bf) => fb == m.frontBlock && bf == m.blocks[fb].front
    case CRead(op, fb, bf) =>
      || Takeable(m, fb, bf)
      || (op.Peek? && NextAhead(m, g, fb) && m.blocks[fb].front == bf)
    case CStoreFront(op, fb, bf, v) => !op.Peek? && Takeable(m, fb, bf) && m.blocks[fb].data[bf] == v
    case CLoadTailBlock(_, fb) => fb == m.frontBlock
    case CReloadFrontBlock(_) => g.tp > 0
    case CReloadTail(_, fb) => g.tp > 0 && fb == m.frontBlock
    case CReloadFront(_, fb, bt) =>
      g.tp > 0 && fb == m.frontBlock && bt == m.blocks[fb].localTail == m.blocks[fb].tail
    case CLoadNext(_, fb) => g.tp > 0 && fb == m.frontBlock && NextAhead(m, g, g.ring[1])
    case CLoadNextFront(_, nb) => NextAhead(m, g, nb)
    case CLoadNextTail(_, nb, nf) => NextAhead(m, g, nb) && m.blocks[nb].front == nf
    case CStoreFrontBlock(op, nb, nf, nt) =>
      && NextAhead(m, g, nb) && m.blocks[nb].front == nf && nf != nt
      && (!op.Peek? ==> nt == m.blocks[nb].localTail)
  }

  // the live segments of a list of blocks, one after the other
  function Cat<T>(blocks: seq<Block<T>>, ids: seq<nat>): seq<T>
    requires forall i :: 0 <= i < |ids| ==> ids[i] < |blocks| && InBounds(blocks[ids[i]])
  {
    if ids == [] then [] else Live(blocks[ids[0]]) + Cat(blocks, ids[1..])
  }

  ghost function Held<T>(m: Mem<T>, g: Layout): seq<T>
    requires RingOk(m, g)
  {
    Cat(m.blocks, g.ring[..g.tp + 1])
  }

  function Pending<T>(prod: Producer<T>): Option<T> {
    if prod.PStoreTailBlock? then Some(prod.e) else None
  }

  ghost predicate Inv<T>(s: State<T>, g: Layout) {
    && g.least >= 2 && s.largest >= g.least && IsPow2(s.largest)
    && RingOk(s.mem, g) && MemOk(s.mem, g, Pending(s.prod))
    && ProducerOk(s.mem, g, s.prod)
    && ConsumerOk(s.mem, g, s.cons)
    && s.enqueued == s.dequeued + Held(s.mem, g)
  }

  function Rotate(g: Layout): Layout
    requires g.ring != [] && g.tp > 0
  {
    g.(ring := g.ring[1..] + [g.ring[0]], tp := g.tp - 1)
  }

  function Insert(g: Layout, id: nat): Layout
    requires g.tp < |g.ring|
  {
    g.(ring := g.ring[..g.tp + 1] + [id] + g.ring[g.tp + 1..])
  }

  /** How a step changes the layout. */
  function NextLayout<T>(s: State<T>, g: Layout, a: Action<T>): Layout
    requires g.tp < |g.ring|
  {
    if a.ConsumerStep? && s.cons.CStoreFrontBlock? && !s.cons.op.Peek? && g.tp > 0 then Rotate(g)
    else if a.ProducerStep? && s.prod.PStoreNext? then Insert(g, |s.mem.blocks|)
    else if a.ProducerStep? && s.prod.PStoreTailBlock? then g.(tp := g.tp + 1)
    else g
  }

  // ---------------------------------------------------------------- interference

  /** What a producer step may change, as far as the consumer depends on it. */
  ghost predicate ProducerMay<T>(m: Mem<T>, g: Layout, m': Mem<T>, g': Layout)
    requires RingOk(m, g) && RingOk(m', g')
  {
    && m'.frontBlock == m.frontBlock && |m.blocks| <= |m'.blocks|
    && (forall i :: 0 <= i < |m.blocks| ==>
          var b, b' := m.blocks[i], m'.blocks[i];
          && b'.front == b.front && b'.localTail == b.localTail && |b'.data| == |b.data|
          && (b.front != b.tail ==> b'.data[b.front] == b.data[b.front]))
    && g.tp <= g'.tp
    && (g.tp > 0 ==> g'.ring[1] == g.ring[1] && m'.blocks[m.frontBlock].tail == m.blocks[m.frontBlock].tail)
  }

  lemma ConsumerStable<T>(m: Mem<T>, g: Layout, m': Mem<T>, g': Layout, cons: Consumer<T>)
    requires RingOk(m, g) && RingOk(m', g') && ProducerMay(m, g, m', g')
    requires ConsumerOk(m, g, cons)
    ensures ConsumerOk(m', g', cons)
  {
  }

  /** What a consumer step may change, as far as the producer depends on it. */
  ghost predicate ConsumerMay<T>(m: Mem<T>, g: Layout, m': Mem<T>, g': Layout)
    requires RingOk(m, g) && RingOk(m', g')
  {
    && m'.tailBlock == m.tailBlock && |m'.blocks| == |m.blocks|
    && (forall i :: 0 <= i < |m.blocks| ==>
          var b, b' := m.blocks[i], m'.blocks[i];
          && b'.tail == b.tail && b'.localFront == b.localFront && b'.next == b.next && b'.data == b.data
          && (i != m.frontBlock ==> b'.front == b.front))
    && (if m'.frontBlock == m.frontBlock then g' == g
        else g.tp > 0 && g' == Rotate(g) && m'.frontBlock == g.ring[1])
  }

  lemma ProducerStable<T>(m: Mem<T>, g: Layout, m': Mem<T>, g': Layout, prod: Producer<T>)
    requires RingOk(m, g) && RingOk(m', g') && ConsumerMay(m, g, m', g')
    requires ProducerOk(m, g, prod)
    ensures ProducerOk(m', g', prod)
  {
  }

  // ---------------------------------------------------------------- facts about blocks

  lemma AdvanceStep(i: nat, n: nat)
    requires IsPow2(n) && i < n
    ensures Advance(i, n) == if i + 1 == n then 0 else i + 1
  {
    var k: nat :| n == Pow2(k);
    MaskIsMod(i + 1, n, k);
    if i + 1 == n { ModUnique(n, n, 1, 0); } else { ModUnique(i + 1, n, 0, i + 1); }
  }

  /** With room to spare, storing an element at tail and advancing tail appends it. */
  lemma PushOk<T>(b: Block<T>, e: T, nt: nat)
    requires BlockOk(b) && b.data[b.tail] == e
    requires nt == Advance(b.tail, |b.data|) && nt != b.localFront
    ensures BlockOk(b.(tail := nt))
    ensures Live(b.(tail := nt)) == Live(b) + [e]
    ensures Count(b.(tail := nt)) == Count(b) + 1
  {
    AdvanceStep(b.tail, |b.data|);
  }

  /** When the shadow of tail differs from front, advancing front removes the oldest element. */
  lemma PopOk<T>(b: Block<T>, nf: nat)
    requires BlockOk(b) && b.front != b.localTail
    requires nf == Advance(b.front, |b.data|)
    ensures BlockOk(b.(front := nf))
    ensures Live(b) == [b.data[b.front]] + Live(b.(front := nf))
  {
    AdvanceStep(b.front, |b.data|);
  }

  /** The slot at tail is not live. */
  lemma LiveWriteTail<T>(b: Block<T>, e: T)
    requires InBounds(b)
    ensures Live(b.(data := b.data[b.tail := e])) == Live(b)
  {
  }

  lemma LiveLength<T>(b: Block<T>)
    requires InBounds(b)
    ensures |Live(b)| == Count(b)
  {
  }

  lemma {:induction false} CatFrame<T>(blocks: seq<Block<T>>, blocks': seq<Block<T>>, ids: seq<nat>)
    requires forall i :: 0 <= i < |ids| ==>
      && ids[i] < |blocks| && InBounds(blocks[ids[i]])
      && ids[i] < |blocks'| && InBounds(blocks'[ids[i]])
      && Live(blocks[ids[i]]) == Live(blocks'[ids[i]])
    ensures Cat(blocks, ids) == Cat(blocks', ids)
  {
    if ids != [] { CatFrame(blocks, blocks', ids[1..]); }
  }

  lemma {:induction false} CatSnoc<T>(blocks: seq<Block<T>>, ids: seq<nat>, x: nat)
    requires forall i :: 0 <= i < |ids| ==> ids[i] < |blocks| && InBounds(blocks[ids[i]])
    requires x < |blocks| && InBounds(blocks[x])
    ensures Cat(blocks, ids + [x]) == Cat(blocks, ids) + Live(blocks[x])
  {
    if ids == [] {
      assert [] + [x] == [x];
    } else {
      assert (ids + [x])[1..] == ids[1..] + [x];
      CatSnoc(blocks, ids[1..], x);
    }
  }

  lemma RingUpdate<T>(m: Mem<T>, g: Layout, x: nat, b: Block<T>)
    requires RingOk(m, g) && x < |m.blocks|
    requires BlockOk(b) && b.next == m.blocks[x].next && |b.data| == |m.blocks[x].data|
    ensures RingOk(SetBlock(m, x, b), g)
  {
    var m' := SetBlock(m, x, b);
    forall i | 0 <= i < |g.ring|
      ensures LinkAt(m'.blocks, g.ring, i)
    {
      assert LinkAt(m.blocks, g.ring, i);
    }
  }

  // Replacing the block at ring position k leaves the others alone.
  lemma OthersSame<T>(m: Mem<T>, g: Layout, k: nat, b: Block<T>)
    requires RingOk(m, g) && k < |g.ring|
    ensures forall i :: 0 <= i < |g.ring| && i != k ==>
      SetBlock(m, g.ring[k], b).blocks[g.ring[i]] == m.blocks[g.ring[i]]
    ensures SetBlock(m, g.ring[k], b).blocks[g.ring[k]] == b
  {
  }

  // What replacing one block by a neutral one means to the other thread
  lemma NeutralForConsumer<T>(m: Mem<T>, g: Layout, x: nat, b: Block<T>, cons: Consumer<T>)
    requires RingOk(m, g) && x < |m.blocks| && RingOk(SetBlock(m, x, b), g) && ConsumerOk(m, g, cons)
    requires BlockOk(b) && |b.data| == |m.blocks[x].data| && Live(b) == Live(m.blocks[x])
    requires b.front == m.blocks[x].front && b.tail == m.blocks[x].tail && b.localTail == m.blocks[x].localTail
    ensures ConsumerOk(SetBlock(m, x, b), g, cons)
  {
    assert b.front != b.tail ==> b.data[b.front] == Live(b)[0] == m.blocks[x].data[b.front];
    ConsumerStable(m, g, SetBlock(m, x, b), g, cons);
  }

  ghost predicate SameLive<T>(m: Mem<T>, m': Mem<T>, ids: seq<nat>) {
    forall i :: 0 <= i < |ids| ==>
      && ids[i] < |m.blocks| && ids[i] < |m'.blocks|
      && InBounds(m.blocks[ids[i]]) && InBounds(m'.blocks[ids[i]])
      && Count(m'.blocks[ids[i]]) == Count(m.blocks[ids[i]])
      && |m'.blocks[ids[i]].data| == |m.blocks[ids[i]].data|
      && Live(m'.blocks[ids[i]]) == Live(m.blocks[ids[i]])
  }

  lemma MemFrame<T>(m: Mem<T>, m': Mem<T>, g: Layout, pending: Option<T>)
    requires MemOk(m, g, pending) && RingOk(m', g)
    requires m'.tailBlock == m.tailBlock && SameLive(m, m', g.ring)
    ensures MemOk(m', g, pending)
  {
    hide Live, Count, BlockOk;
  }

  /** Replacing a block by one with the same live segment keeps the memory in order. */
  lemma NeutralUpdate<T>(m: Mem<T>, g: Layout, pending: Option<T>, x: nat, b: Block<T>)
    requires MemOk(m, g, pending) && x < |m.blocks|
    requires BlockOk(b) && b.next == m.blocks[x].next && |b.data| == |m.blocks[x].data|
    requires Live(b) == Live(m.blocks[x])
    ensures RingOk(SetBlock(m, x, b), g) && MemOk(SetBlock(m, x, b), g, pending)
    ensures Held(SetBlock(m, x, b), g) == Held(m, g)
  {
    var m' := SetBlock(m, x, b);
    RingUpdate(m, g, x, b);
    assert SameLive(m, m', g.ring) by {
      assert |Live(b)| == Count(b) && |Live(m.blocks[x])| == Count(m.blocks[x]);
    }
    MemFrame(m, m', g, pending);
    CatFrame(m.blocks, m'.blocks, g.ring[..g.tp + 1]);
  }

  lemma HeldSplitLast<T>(m: Mem<T>, g: Layout)
    requires RingOk(m, g)
    ensures Held(m, g) == Cat(m.blocks, g.ring[..g.tp]) + Live(m.blocks[m.tailBlock])
  {
    assert g.ring[..g.tp + 1] == g.ring[..g.tp] + [g.ring[g.tp]];
    CatSnoc(m.blocks, g.ring[..g.tp], m.tailBlock);
  }

  lemma HeldSplitFirst<T>(m: Mem<T>, g: Layout)
    requires RingOk(m, g)
    ensures Held(m, g) == Live(m.blocks[m.frontBlock]) + Cat(m.blocks, g.ring[1..g.tp + 1])
  {
    assert g.ring[..g.tp + 1][1..] == g.ring[1..g.tp + 1];
  }
}
