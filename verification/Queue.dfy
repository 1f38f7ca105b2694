/**
  `ReaderWriterQueue`: the lock-free single-producer, single-consumer queue, as a step
  machine. Every atomic load or store of a shared variable is one step; reads and writes of
  a thread's own shadow variables and locals travel with the adjacent atomic access.
  Interleaving is sequentially consistent.

  Blocks are numbered in allocation order and a pointer is a block number. A block's size is
  `|data|`, and `sizeMask` is that size less one.
*/
module Queue {
  import opened Bits
  import opened Basics

  datatype Block<T> = Block(
    front: nat,        // next element to dequeue; written by the consumer
    localTail: nat,    // the consumer's shadow of tail
    tail: nat,         // next slot to fill; written by the producer
    localFront: nat,   // the producer's shadow of front
    next: nat,
    data: seq<T>)

  // `(i + 1) & sizeMask`, for a block of n slots; a block without slots has every mask bit set
  function Advance(i: nat, n: nat): nat {
    if n == 0 then i + 1 else BitAnd(i + 1, n - 1)
  }

  // The number of slots from index a forward to index b in a circular buffer of n slots
  function Dist(a: nat, b: nat, n: nat): nat
    requires a <= n && b <= n
  {
    if a <= b then b - a else b + n - a
  }

  // The index i slots after index a
  function Slot(a: nat, i: nat, n: nat): nat
    requires a <= n && i <= n
  {
    if a + i < n then a + i else a + i - n
  }

  predicate InBounds<T>(b: Block<T>) {
    && b.front < |b.data| && b.tail < |b.data|
    && b.localFront < |b.data| && b.localTail < |b.data|
  }

  function Count<T>(b: Block<T>): nat
    requires InBounds(b)
  {
    Dist(b.front, b.tail, |b.data|)
  }

  // The live segment of a block, oldest element first
  function Live<T>(b: Block<T>): seq<T>
    requires InBounds(b)
  {
    seq(Count(b), i requires 0 <= i < Count(b) => b.data[Slot(b.front, i, |b.data|)])
  }

  // What a consumer thread was asked to do
  datatype ConsumerOp = TryDequeue | Pop | Peek

  /** The producer inside `inner_enqueue`; each constructor names the access it does next. */
  datatype Producer<T> =
    | PIdle
    | PReturn(canAlloc: bool, ok: bool)
    | PLoadTailBlock(e: T, canAlloc: bool)
    | PLoadTail(e: T, canAlloc: bool, tb: nat, blockFront: nat)
    | PLoadFront(e: T, canAlloc: bool, tb: nat, blockTail: nat, nextTail: nat)
    | PWrite(e: T, canAlloc: bool, tb: nat, blockTail: nat, nextTail: nat)
    | PStoreTail(e: T, canAlloc: bool, tb: nat, nextTail: nat)
    | PLoadNext(e: T, canAlloc: bool, tb: nat)
    | PLoadFrontBlock(e: T, canAlloc: bool, tb: nat, nx: nat)
    | PReloadNext(e: T, canAlloc: bool, tb: nat)
    | PLoadNextFront(e: T, canAlloc: bool, nx: nat)
    | PLoadNextTail(e: T, canAlloc: bool, nx: nat, nextFront: nat)
    | PWriteNext(e: T, canAlloc: bool, nx: nat, nextFront: nat, nextTail: nat)
    | PStoreNextTail(e: T, canAlloc: bool, nx: nat, nextTail: nat)
    | PStoreTailBlock(e: T, canAlloc: bool, nx: nat)
    | PAlloc(e: T, canAlloc: bool, tb: nat)
    | PLoadNextForNew(e: T, canAlloc: bool, tb: nat, block: Block<T>)
    | PStoreNext(e: T, canAlloc: bool, tb: nat, block: Block<T>)

  /** The consumer inside `try_dequeue`, `pop` or `peek`. */
  datatype Consumer<T> =
    | CIdle
    | CReturn(op: ConsumerOp, result: Option<T>)
    | CLoadFrontBlock(op: ConsumerOp)
    | CLoadFront(op: ConsumerOp, fb: nat, blockTail: nat)
    | CLoadTail(op: ConsumerOp, fb: nat, blockFront: nat)
    | CRead(op: ConsumerOp, fb: nat, blockFront: nat)
    | CStoreFront(op: ConsumerOp, fb: nat, blockFront: nat, value: T)
    | CLoadTailBlock(op: ConsumerOp, fb: nat)
    | CReloadFrontBlock(op: ConsumerOp)
    | CReloadTail(op: ConsumerOp, fb: nat)
    | CReloadFront(op: ConsumerOp, fb: nat, blockTail: nat)
    | CLoadNext(op: ConsumerOp, fb: nat)
    | CLoadNextFront(op: ConsumerOp, nb: nat)
    | CLoadNextTail(op: ConsumerOp, nb: nat, nextFront: nat)
    | CStoreFrontBlock(op: ConsumerOp, nb: nat, nextFront: nat, nextTail: nat)

  /** The variables both threads can reach. */
  datatype Mem<T> = Mem(blocks: seq<Block<T>>, frontBlock: nat, tailBlock: nat)

  /**
    `enqueued` and `dequeued` are histories of the elements whose insertion or removal has
    taken effect. `sawEmpty` says whether the queue was empty at some instant since the
    consumer's current (or last) call began, `peak` is the largest number of elements held at
    any instant since the producer's current (or last) call began.
  */
  datatype State<T> = State(
    max: nat,                // MAX_BLOCK_SIZE
    mem: Mem<T>,
    largest: nat,            // largestBlockSize
    prod: Producer<T>,
    cons: Consumer<T>,
    enqueued: seq<T>,
    dequeued: seq<T>,
    sawEmpty: bool,
    peak: nat)

  // What a block between the front block and the tail block holds. A block of one slot cannot
  // show in its indices that it is occupied; behind the front block it always is.
  function Segment<T>(b: Block<T>): seq<T>
    requires InBounds(b)
  {
    if |b.data| == 1 then b.data else Live(b)
  }

  /** Collects the elements of the blocks from b along next as far as the tail block. */
  function Walk<T>(blocks: seq<Block<T>>, b: nat, last: nat, fuel: nat): seq<T>
    decreases fuel
  {
    if b < |blocks| && InBounds(blocks[b]) then
      Segment(blocks[b]) + if b == last || fuel == 0 then [] else Walk(blocks, blocks[b].next, last, fuel - 1)
    else []
  }

  // The consumer has moved to the front block and not yet removed the element it came for.
  predicate Taking<T>(s: State<T>) {
    (s.cons.CRead? || s.cons.CStoreFront?) && !s.cons.op.Peek? && s.cons.fb == s.mem.frontBlock
  }

  // What the front block holds
  function FrontSegment<T>(s: State<T>): seq<T>
    requires s.mem.frontBlock < |s.mem.blocks| && InBounds(s.mem.blocks[s.mem.frontBlock])
  {
    var b := s.mem.blocks[s.mem.frontBlock];
    if |b.data| != 1 then Live(b) else if Taking(s) then b.data else []
  }

  /** The abstract contents: every element between the front block and the tail block. */
  function Contents<T>(s: State<T>): seq<T> {
    var m := s.mem;
    if m.frontBlock < |m.blocks| && InBounds(m.blocks[m.frontBlock]) then
      FrontSegment(s)
      + (if m.frontBlock == m.tailBlock then []
         else Walk(m.blocks, m.blocks[m.frontBlock].next, m.tailBlock, |m.blocks|))
    else []
  }

  // ---------------------------------------------------------------- steps

  datatype Action<T> =
    | EnqueueCall(e: T, canAlloc: bool)
    | ConsumerCall(op: ConsumerOp)
    | ProducerStep(memory: Option<seq<T>>)  // what malloc yields, for the step that allocates
    | ConsumerStep

  function NewBlockSize<T>(s: State<T>): nat {
    if s.largest >= s.max then s.largest else s.largest * 2
  }

  predicate Enabled<T>(s: State<T>, a: Action<T>) {
    match a
    case EnqueueCall(_, _) => s.prod.PIdle? || s.prod.PReturn?
    case ConsumerCall(_) => s.cons.CIdle? || s.cons.CReturn?
    case ProducerStep(memory) =>
      && !s.prod.PIdle? && !s.prod.PReturn?
      && (s.prod.PAlloc? && memory.Some? ==> |memory.value| == NewBlockSize(s) && NewBlockSize(s) > 0)
      && ProducerInBounds(s.mem, s.prod)
    case ConsumerStep => !s.cons.CIdle? && !s.cons.CReturn? && ConsumerInBounds(s.mem, s.cons)
  }

  // Every pointer and index the next access uses is within bounds.
  predicate ProducerInBounds<T>(m: Mem<T>, prod: Producer<T>) {
    match prod
    case PIdle | PReturn(_, _) | PAlloc(_, _, _) => true
    case PLoadTailBlock(_, _) => m.tailBlock < |m.blocks|
    case PLoadTail(_, _, tb, _) => tb < |m.blocks|
    case PLoadFront(_, _, tb, _, _) => tb < |m.blocks|
    case PWrite(_, _, tb, bt, _) => tb < |m.blocks| && bt < |m.blocks[tb].data|
    case PStoreTail(_, _, tb, _) => tb < |m.blocks|
    case PLoadNext(_, _, tb) => tb < |m.blocks|
    case PLoadFrontBlock(_, _, _, _) => true
    case PReloadNext(_, _, tb) => tb < |m.blocks|
    case PLoadNextFront(_, _, nx) => nx < |m.blocks|
    case PLoadNextTail(_, _, nx, _) => nx < |m.blocks|
    case PWriteNext(_, _, nx, _, nt) => nx < |m.blocks| && nt < |m.blocks[nx].data|
    case PStoreNextTail(_, _, nx, _) => nx < |m.blocks|
    case PStoreTailBlock(_, _, _) => true
    case PLoadNextForNew(_, _, tb, _) => tb < |m.blocks|
    case PStoreNext(_, _, tb, _) => tb < |m.blocks|
  }

  predicate ConsumerInBounds<T>(m: Mem<T>, cons: Consumer<T>) {
    match cons
    case CIdle | CReturn(_, _) => true
    case CLoadFrontBlock(_) => m.frontBlock < |m.blocks|
    case CLoadFront(_, fb, _) => fb < |m.blocks|
    case CLoadTail(_, fb, _) => fb < |m.blocks|
    case CRead(_, fb, bf) => fb < |m.blocks| && bf < |m.blocks[fb].data|
    case CStoreFront(_, fb, _, _) => fb < |m.blocks|
    case CLoadTailBlock(_, _) | CReloadFrontBlock(_) => true
    case CReloadTail(_, fb) => fb < |m.blocks|
    case CReloadFront(_, fb, _) => fb < |m.blocks|
    case CLoadNext(_, fb) => fb < |m.blocks|
    case CLoadNextFront(_, nb) => nb < |m.blocks|
    case CLoadNextTail(_, nb, _) => nb < |m.blocks|
    case CStoreFrontBlock(_, _, _, _) => true
  }

  function SetBlock<T>(m: Mem<T>, i: nat, b: Block<T>): Mem<T>
    requires i < |m.blocks|
  {
    m.(blocks := m.blocks[i := b])
  }

  // One function for each producer step of `inner_enqueue`

  function LoadTailBlockByProducer<T>(s: State<T>): State<T>
    requires s.prod.PLoadTailBlock? && ProducerInBounds(s.mem, s.prod)
  {
    var m := s.mem;
    var PLoadTailBlock(e, can) := s.prod;
    s.(prod := PLoadTail(e, can, m.tailBlock, m.blocks[m.tailBlock].localFront))
  }

  function LoadTailByProducer<T>(s: State<T>): State<T>
    requires s.prod.PLoadTail? && ProducerInBounds(s.mem, s.prod)
  {
    var m := s.mem;
    var PLoadTail(e, can, tb, bf) := s.prod;
    var bt := m.blocks[tb].tail;
    var nt := Advance(bt, |m.blocks[tb].data|);
    s.(prod := if nt != bf then PWrite(e, can, tb, bt, nt) else PLoadFront(e, can, tb, bt, nt))
  }

  function LoadFrontByProducer<T>(s: State<T>): State<T>
    requires s.prod.PLoadFront? && ProducerInBounds(s.mem, s.prod)
  {
    var m := s.mem;
    var PLoadFront(e, can, tb, bt, nt) := s.prod;
    var b := m.blocks[tb];
    s.(mem := SetBlock(m, tb, b.(localFront := b.front)),
       prod := if nt != b.front then PWrite(e, can, tb, bt, nt) else PLoadNext(e, can, tb))
  }

  function WriteByProducer<T>(s: State<T>): State<T>
    requires s.prod.PWrite? && ProducerInBounds(s.mem, s.prod)
  {
    var m := s.mem;
    var PWrite(e, can, tb, bt, nt) := s.prod;
    var b := m.blocks[tb];
    s.(mem := SetBlock(m, tb, b.(data := b.data[bt := e])), prod := PStoreTail(e, can, tb, nt))
  }

  function StoreTailByProducer<T>(s: State<T>): State<T>
    requires s.prod.PStoreTail? && ProducerInBounds(s.mem, s.prod)
  {
    var m := s.mem;
    var PStoreTail(e, can, tb, nt) := s.prod;
    s.(mem := SetBlock(m, tb, m.blocks[tb].(tail := nt)), prod := PReturn(can, true), enqueued := s.enqueued + [e])
  }

  function LoadNextByProducer<T>(s: State<T>): State<T>
    requires s.prod.PLoadNext? && ProducerInBounds(s.mem, s.prod)
  {
    var m := s.mem;
    var PLoadNext(e, can, tb) := s.prod;
    s.(prod := PLoadFrontBlock(e, can, tb, m.blocks[tb].next))
  }

  function LoadFrontBlockByProducer<T>(s: State<T>): State<T>
    requires s.prod.PLoadFrontBlock? && ProducerInBounds(s.mem, s.prod)
  {
    var m := s.mem;
    var PLoadFrontBlock(e, can, tb, nx) := s.prod;
    s.(prod := if nx != m.frontBlock then PReloadNext(e, can, tb)
               else if can then PAlloc(e, can, tb)
               else PReturn(can, false))
  }

  function ReloadNextByProducer<T>(s: State<T>): State<T>
    requires s.prod.PReloadNext? && ProducerInBounds(s.mem, s.prod)
  {
    var m := s.mem;
    var PReloadNext(e, can, tb) := s.prod;
    s.(prod := PLoadNextFront(e, can, m.blocks[tb].next))
  }

  function LoadNextFrontByProducer<T>(s: State<T>): State<T>
    requires s.prod.PLoadNextFront? && ProducerInBounds(s.mem, s.prod)
  {
    var m := s.mem;
    var PLoadNextFront(e, can, nx) := s.prod;
    var b := m.blocks[nx];
    s.(mem := SetBlock(m, nx, b.(localFront := b.front)), prod := PLoadNextTail(e, can, nx, b.front))
  }

  function LoadNextTailByProducer<T>(s: State<T>): State<T>
    requires s.prod.PLoadNextTail? && ProducerInBounds(s.mem, s.prod)
  {
    var m := s.mem;
    var PLoadNextTail(e, can, nx, nf) := s.prod;
    var b := m.blocks[nx];
    s.(mem := SetBlock(m, nx, b.(localFront := nf)), prod := PWriteNext(e, can, nx, nf, b.tail))
  }

  function WriteNextByProducer<T>(s: State<T>): State<T>
    requires s.prod.PWriteNext? && ProducerInBounds(s.mem, s.prod)
  {
    var m := s.mem;
    var PWriteNext(e, can, nx, nf, nt) := s.prod;
    var b := m.blocks[nx];
    s.(mem := SetBlock(m, nx, b.(data := b.data[nt := e])), prod := PStoreNextTail(e, can, nx, nt))
  }

  function StoreNextTailByProducer<T>(s: State<T>): State<T>
    requires s.prod.PStoreNextTail? && ProducerInBounds(s.mem, s.prod)
  {
    var m := s.mem;
    var PStoreNextTail(e, can, nx, nt) := s.prod;
    var b := m.blocks[nx];
    s.(mem := SetBlock(m, nx, b.(tail := Advance(nt, |b.data|))), prod := PStoreTailBlock(e, can, nx))
  }

  function StoreTailBlockByProducer<T>(s: State<T>): State<T>
    requires s.prod.PStoreTailBlock? && ProducerInBounds(s.mem, s.prod)
  {
    var m := s.mem;
    var PStoreTailBlock(e, can, nx) := s.prod;
    s.(mem := m.(tailBlock := nx), prod := PReturn(can, true), enqueued := s.enqueued + [e])
  }

  function AllocByProducer<T>(s: State<T>, memory: Option<seq<T>>): State<T>
    requires s.prod.PAlloc? && ProducerInBounds(s.mem, s.prod) && (memory.Some? ==> |memory.value| > 0)
  {
    var m := s.mem;
    var PAlloc(e, can, tb) := s.prod;
    if memory.None? then s.(prod := PReturn(can, false))
    else
      var block := Block(0, 1, 1, 0, 0, memory.value[0 := e]);
      s.(largest := NewBlockSize(s), prod := PLoadNextForNew(e, can, tb, block))
  }

  function LoadNextForNewByProducer<T>(s: State<T>): State<T>
    requires s.prod.PLoadNextForNew? && ProducerInBounds(s.mem, s.prod)
  {
    var m := s.mem;
    var PLoadNextForNew(e, can, tb, block) := s.prod;
    s.(prod := PStoreNext(e, can, tb, block.(next := m.blocks[tb].next)))
  }

  // Links a block, as a new last element of blocks, between the tail block and its successor
  function LinkAfterTail<T>(m: Mem<T>, tb: nat, block: Block<T>): Mem<T>
    requires tb < |m.blocks|
  {
    m.(blocks := m.blocks[tb := m.blocks[tb].(next := |m.blocks|)] + [block])
  }

  function StoreNextByProducer<T>(s: State<T>): State<T>
    requires s.prod.PStoreNext? && ProducerInBounds(s.mem, s.prod)
  {
    var PStoreNext(e, can, tb, block) := s.prod;
    s.(mem := LinkAfterTail(s.mem, tb, block), prod := PStoreTailBlock(e, can, |s.mem.blocks|))
  }

  function ProducerNext<T>(s: State<T>, memory: Option<seq<T>>): State<T>
    requires Enabled(s, ProducerStep(memory))
  {
    match s.prod
    case PLoadTailBlock(_, _) => LoadTailBlockByProducer(s)
    case PLoadTail(_, _, _, _) => LoadTailByProducer(s)
    case PLoadFront(_, _, _, _, _) => LoadFrontByProducer(s)
    case PWrite(_, _, _, _, _) => WriteByProducer(s)
    case PStoreTail(_, _, _, _) => StoreTailByProducer(s)
    case PLoadNext(_, _, _) => LoadNextByProducer(s)
    case PLoadFrontBlock(_, _, _, _) => LoadFrontBlockByProducer(s)
    case PReloadNext(_, _, _) => ReloadNextByProducer(s)
    case PLoadNextFront(_, _, _) => LoadNextFrontByProducer(s)
    case PLoadNextTail(_, _, _, _) => LoadNextTailByProducer(s)
    case PWriteNext(_, _, _, _, _) => WriteNextByProducer(s)
    case PStoreNextTail(_, _, _, _) => StoreNextTailByProducer(s)
    case PStoreTailBlock(_, _, _) => StoreTailBlockByProducer(s)
    case PAlloc(_, _, _) => AllocByProducer(s, memory)
    case PLoadNextForNew(_, _, _, _) => LoadNextForNewByProducer(s)
    case PStoreNext(_, _, _, _) => StoreNextByProducer(s)
  }

  // One function for each consumer step; advancing to the next block joins the common
  // read-and-remove path

  function LoadFrontBlockByConsumer<T>(s: State<T>): State<T>
    requires s.cons.CLoadFrontBlock? && ConsumerInBounds(s.mem, s.cons)
  {
    var m := s.mem;
    var CLoadFrontBlock(op) := s.cons;
    s.(cons := CLoadFront(op, m.frontBlock, m.blocks[m.frontBlock].localTail))
  }

  function LoadFrontByConsumer<T>(s: State<T>): State<T>
    requires s.cons.CLoadFront? && ConsumerInBounds(s.mem, s.cons)
  {
    var m := s.mem;
    var CLoadFront(op, fb, bt) := s.cons;
    var bf := m.blocks[fb].front;
    s.(cons := if bf != bt then CRead(op, fb, bf) else CLoadTail(op, fb, bf))
  }

  function LoadTailByConsumer<T>(s: State<T>): State<T>
    requires s.cons.CLoadTail? && ConsumerInBounds(s.mem, s.cons)
  {
    var m := s.mem;
    var CLoadTail(op, fb, bf) := s.cons;
    var b := m.blocks[fb];
    s.(mem := SetBlock(m, fb, b.(localTail := b.tail)),
       cons := if bf != b.tail then CRead(op, fb, bf) else CLoadTailBlock(op, fb))
  }

  function ReadByConsumer<T>(s: State<T>): State<T>
    requires s.cons.CRead? && ConsumerInBounds(s.mem, s.cons)
  {
    var m := s.mem;
    var CRead(op, fb, bf) := s.cons;
    var v := m.blocks[fb].data[bf];
    s.(cons := if op.Peek? then CReturn(op, Some(v)) else CStoreFront(op, fb, bf, v))
  }

  function StoreFrontByConsumer<T>(s: State<T>): State<T>
    requires s.cons.CStoreFront? && ConsumerInBounds(s.mem, s.cons)
  {
    var m := s.mem;
    var CStoreFront(op, fb, bf, v) := s.cons;
    var b := m.blocks[fb];
    s.(mem := SetBlock(m, fb, b.(front := Advance(bf, |b.data|))), cons := CReturn(op, Some(v)),
       dequeued := s.dequeued + [v])
  }

  function LoadTailBlockByConsumer<T>(s: State<T>): State<T>
    requires s.cons.CLoadTailBlock? && ConsumerInBounds(s.mem, s.cons)
  {
    var m := s.mem;
    var CLoadTailBlock(op, fb) := s.cons;
    s.(cons := if fb != m.tailBlock then CReloadFrontBlock(op) else CReturn(op, None))
  }

  function ReloadFrontBlockByConsumer<T>(s: State<T>): State<T>
    requires s.cons.CReloadFrontBlock? && ConsumerInBounds(s.mem, s.cons)
  {
    var m := s.mem;
    var CReloadFrontBlock(op) := s.cons;
    s.(cons := CReloadTail(op, m.frontBlock))
  }

  function ReloadTailByConsumer<T>(s: State<T>): State<T>
    requires s.cons.CReloadTail? && ConsumerInBounds(s.mem, s.cons)
  {
    var m := s.mem;
    var CReloadTail(op, fb) := s.cons;
    var b := m.blocks[fb];
    s.(mem := SetBlock(m, fb, b.(localTail := b.tail)), cons := CReloadFront(op, fb, b.tail))
  }

  function ReloadFrontByConsumer<T>(s: State<T>): State<T>
    requires s.cons.CReloadFront? && ConsumerInBounds(s.mem, s.cons)
  {
    var m := s.mem;
    var CReloadFront(op, fb, bt) := s.cons;
    var bf := m.blocks[fb].front;
    s.(cons := if bf != bt then CRead(op, fb, bf) else CLoadNext(op, fb))
  }

  function LoadNextByConsumer<T>(s: State<T>): State<T>
    requires s.cons.CLoadNext? && ConsumerInBounds(s.mem, s.cons)
  {
    var m := s.mem;
    var CLoadNext(op, fb) := s.cons;
    s.(cons := CLoadNextFront(op, m.blocks[fb].next))
  }

  function LoadNextFrontByConsumer<T>(s: State<T>): State<T>
    requires s.cons.CLoadNextFront? && ConsumerInBounds(s.mem, s.cons)
  {
    var m := s.mem;
    var CLoadNextFront(op, nb) := s.cons;
    s.(cons := CLoadNextTail(op, nb, m.blocks[nb].front))
  }

  function LoadNextTailByConsumer<T>(s: State<T>): State<T>
    requires s.cons.CLoadNextTail? && ConsumerInBounds(s.mem, s.cons)
  {
    var m := s.mem;
    var CLoadNextTail(op, nb, nf) := s.cons;
    var b := m.blocks[nb];
    if op.Peek? then s.(cons := CStoreFrontBlock(op, nb, nf, b.tail))
    else s.(mem := SetBlock(m, nb, b.(localTail := b.tail)), cons := CStoreFrontBlock(op, nb, nf, b.tail))
  }

  function StoreFrontBlockByConsumer<T>(s: State<T>): State<T>
    requires s.cons.CStoreFrontBlock? && ConsumerInBounds(s.mem, s.cons)
  {
    var m := s.mem;
    var CStoreFrontBlock(op, nb, nf, _) := s.cons;
    if op.Peek? then s.(cons := CRead(op, nb, nf))
    else s.(mem := m.(frontBlock := nb), cons := CRead(op, nb, nf))
  }

  function ConsumerNext<T>(s: State<T>): State<T>
    requires Enabled(s, ConsumerStep)
  {
    match s.cons
    case CLoadFrontBlock(_) => LoadFrontBlockByConsumer(s)
    case CLoadFront(_, _, _) => LoadFrontByConsumer(s)
    case CLoadTail(_, _, _) => LoadTailByConsumer(s)
    case CRead(_, _, _) => ReadByConsumer(s)
    case CStoreFront(_, _, _, _) => StoreFrontByConsumer(s)
    case CLoadTailBlock(_, _) => LoadTailBlockByConsumer(s)
    case CReloadFrontBlock(_) => ReloadFrontBlockByConsumer(s)
    case CReloadTail(_, _) => ReloadTailByConsumer(s)
    case CReloadFront(_, _, _) => ReloadFrontByConsumer(s)
    case CLoadNext(_, _) => LoadNextByConsumer(s)
    case CLoadNextFront(_, _) => LoadNextFrontByConsumer(s)
    case CLoadNextTail(_, _, _) => LoadNextTailByConsumer(s)
    case CStoreFrontBlock(_, _, _, _) => StoreFrontBlockByConsumer(s)
  }

  function CoreStep<T>(s: State<T>, a: Action<T>): State<T>
    requires Enabled(s, a)
  {
    match a
    case EnqueueCall(e, can) => s.(prod := PLoadTailBlock(e, can))
    case ConsumerCall(op) => s.(cons := CLoadFrontBlock(op))
    case ProducerStep(memory) => ProducerNext(s, memory)
    case ConsumerStep => ConsumerNext(s)
  }

  function Max(a: nat, b: nat): nat { if a < b then b else a }

  /** A step of the machine, with the two observation variables brought up to date. */
  function Step<T>(s: State<T>, a: Action<T>): State<T>
    requires Enabled(s, a)
  {
    var n := CoreStep(s, a);
    var c := Contents(n);
    n.(sawEmpty := |c| == 0 || (!a.ConsumerCall? && s.sawEmpty),
       peak := if a.EnqueueCall? then |c| else Max(s.peak, |c|))
  }
}
