/** When an enqueue call allocates a block, and how large the blocks are. */
module QueueBlocks {
  import opened Basics
  import opened Bits
  import opened Queue
  import opened QueueConstructor
  import opened QueueTheorems
  import opened QueueRuns

  // ---------------------------------------------------------------- whether a call allocates

  predicate Allocating<T>(p: Producer<T>) { p.PAlloc? || p.PLoadNextForNew? || p.PStoreNext? }

  // n is s after a step of the producer; `none` says that malloc failed.
  ghost predicate SameBlocks<T>(s: State<T>, n: State<T>, none: bool)
    requires !s.prod.PIdle?
  {
    && (Allocating(n.prod) && !Allocating(s.prod) ==> s.prod.canAlloc)
    && (!Allocating(s.prod) ==> |n.mem.blocks| == |s.mem.blocks| && n.largest == s.largest)
    && (n.prod.PReturn? && !n.prod.ok && s.prod.canAlloc ==> s.prod.PAlloc? && none)
  }

  lemma ProducerAllocates<T>(s: State<T>, m: Option<seq<T>>)
    requires Enabled(s, ProducerStep(m))
    ensures SameBlocks(s, ProducerNext(s, m), m.None?)
  {
    hide Advance, NewBlockSize, LinkAfterTail;
  }

  lemma ProducerStepAllocates<T>(s: State<T>, m: Option<seq<T>>)
    requires Enabled(s, ProducerStep(m))
    ensures !s.prod.PIdle? && !s.prod.PReturn? && SameBlocks(s, Step(s, ProducerStep(m)), m.None?)
  {
    hide Contents, ProducerNext;
    ProducerAllocates(s, m);
  }

  lemma ConsumerAllocates<T>(s: State<T>)
    requires Enabled(s, ConsumerStep)
    ensures var n := Step(s, ConsumerStep);
      |n.mem.blocks| == |s.mem.blocks| && n.largest == s.largest && n.prod == s.prod
  {
    hide Contents, Advance;
  }

  /** An enqueue call that may not allocate, `try_enqueue`, never does. */
  lemma {:induction false} NeverAllocates<T(!new)>(run: seq<State<T>>, acts: seq<Action<T>>, size: nat, max: nat,
                                                   c: nat, j: nat)
    requires IsRun(run, acts, size, max) && EnqueueCallSpans(acts, c, j) && !acts[c].canAlloc
    ensures |run[j].mem.blocks| == |run[c].mem.blocks| && run[j].largest == run[c].largest && !Allocating(run[j].prod)
    decreases j
  {
    hide Contents, Initial, CoreStep, Enabled;
    var s, a := run[j - 1], acts[j - 1];
    assert Enabled(s, a) && run[j] == Step(s, a);
    if c < j - 1 {
      NeverAllocates(run, acts, size, max, c, j - 1);
      CallAt(acts, c, j - 1);
      Histories(run, acts, size, max, j - 1);
    }
    match a
    case EnqueueCall(_, _) => CallHistory(s, a);
    case ConsumerCall(_) => CallHistory(s, a);
    case ProducerStep(m) => ProducerStepAllocates(s, m);
    case ConsumerStep => ConsumerAllocates(s);
  }

  // Within a call, the last call is that call.
  lemma {:induction false} CallAt<T>(acts: seq<Action<T>>, c: nat, j: nat)
    requires EnqueueCallSpans(acts, c, j)
    ensures Argument(acts, j) == [acts[c].e] && MayAllocate(acts, j) == acts[c].canAlloc
  {
    if c < j - 1 { CallAt(acts, c, j - 1); }
  }

  /** An enqueue call that may allocate fails only if memory ran out during the call. */
  lemma {:induction false} FailsForMemory<T(!new)>(run: seq<State<T>>, acts: seq<Action<T>>, size: nat, max: nat,
                                                   c: nat, j: nat)
    requires IsRun(run, acts, size, max) && EnqueueCallSpans(acts, c, j) && acts[c].canAlloc
    requires run[j].prod.PReturn? && !run[j].prod.ok
    ensures exists k :: c < k < j && run[k].prod.PAlloc? && acts[k] == ProducerStep(None)
    decreases j
  {
    hide Contents, Initial, CoreStep, Enabled;
    var s, a := run[j - 1], acts[j - 1];
    assert Enabled(s, a) && run[j] == Step(s, a);
    if c < j - 1 {
      CallAt(acts, c, j - 1);
      Histories(run, acts, size, max, j - 1);
    }
    match a
    case EnqueueCall(_, _) => CallHistory(s, a);
    case ConsumerCall(_) => CallHistory(s, a); FailsForMemory(run, acts, size, max, c, j - 1);
    case ProducerStep(m) => ProducerStepAllocates(s, m);
    case ConsumerStep => ConsumerAllocates(s); FailsForMemory(run, acts, size, max, c, j - 1);
  }

  // ---------------------------------------------------------------- sizes of blocks

  // The size of the b-th block allocated after blocks of the given size: doubling up to max
  function Grown(first: nat, b: nat, max: nat): nat {
    if first >= max then first else if first * Pow2(b) < max then first * Pow2(b) else max
  }

  // The size of block i of a queue made for size elements
  ghost function SizeAt(size: nat, max: nat, i: nat): nat
    requires size < WORD && ValidMax(max)
  {
    var n := BlockCount(size, max);
    Grown(FirstBlockSize(size, max), if i < n then 0 else i - n + 1, max)
  }

  lemma FirstSize(size: nat, max: nat)
    requires size < WORD && ValidMax(max)
    ensures FirstBlockSize(size, max) == 0 || IsPow2(FirstBlockSize(size, max))
    ensures BlockCount(size, max) >= 1
    ensures forall i :: 0 <= i < BlockCount(size, max) ==> SizeAt(size, max, i) == FirstBlockSize(size, max)
  {
    hide BlockCount;
    if size < WORD / 2 { RoomForSize(size, max); } else { NoRoomWhenWrapped(size, max); }
    Pow2Zero();
  }

  lemma PowersApart(a: nat, b: nat)
    requires IsPow2(a) && IsPow2(b) && a < b
    ensures 2 * a <= b
  {
    var j: nat :| a == Pow2(j);
    var k: nat :| b == Pow2(k);
    if k <= j { Pow2Monotone(k, j); } else { Pow2Monotone(j + 1, k); }
  }

  lemma GrownNext(first: nat, b: nat, max: nat)
    requires (first == 0 || IsPow2(first)) && IsPow2(max)
    ensures var g := Grown(first, b, max); Grown(first, b + 1, max) == if g >= max then g else 2 * g
  {
    hide Pow2, IsPow2;
    Pow2Succ(b);
    if 0 < first < max && first * Pow2(b) < max {
      PowerTimes(first, b);
      PowersApart(first * Pow2(b), max);
    }
  }

  lemma PowerTimes(a: nat, b: nat)
    requires IsPow2(a)
    ensures IsPow2(a * Pow2(b))
  {
    var j: nat :| a == Pow2(j);
    Pow2Adds(j, b);
  }

  // A block has been allocated and not yet linked.
  predicate Unlinked<T>(p: Producer<T>) { p.PLoadNextForNew? || p.PStoreNext? }

  ghost predicate Sized<T>(s: State<T>, size: nat, max: nat)
    requires size < WORD && ValidMax(max)
  {
    var n := |s.mem.blocks|;
    && s.max == max && 1 <= n && BlockCount(size, max) <= n
    && (forall i :: 0 <= i < n ==> |s.mem.blocks[i].data| == SizeAt(size, max, i))
    && s.largest == SizeAt(size, max, if Unlinked(s.prod) then n else n - 1)
    && (Unlinked(s.prod) ==> |s.prod.block.data| == s.largest)
  }

  ghost predicate SameSizes<T>(m: Mem<T>, m': Mem<T>) {
    |m'.blocks| == |m.blocks| && forall i :: 0 <= i < |m.blocks| ==> |m'.blocks[i].data| == |m.blocks[i].data|
  }

  lemma ConsumerSizes<T>(s: State<T>)
    requires Enabled(s, ConsumerStep)
    ensures var n := Step(s, ConsumerStep);
      SameSizes(s.mem, n.mem) && n.max == s.max && n.largest == s.largest && n.prod == s.prod
  {
    hide Contents, Advance;
  }

  lemma ProducerSizes<T>(s: State<T>, m: Option<seq<T>>)
    requires Enabled(s, ProducerStep(m)) && !s.prod.PStoreNext? && !s.prod.PAlloc?
    ensures var n := ProducerNext(s, m);
      && SameSizes(s.mem, n.mem) && n.max == s.max && n.largest == s.largest
      && (Unlinked(n.prod) <==> s.prod.PLoadNextForNew?)
  {
    hide Advance, NewBlockSize;
  }

  lemma ProducerLinks<T>(s: State<T>, m: Option<seq<T>>)
    requires Enabled(s, ProducerStep(m))
    ensures var n := ProducerNext(s, m);
      && (s.prod.PStoreNext? ==> n == StoreNextByProducer(s))
      && (s.prod.PAlloc? ==> n == AllocByProducer(s, m))
      && (s.prod.PLoadNextForNew? ==> n.prod.PStoreNext? && |n.prod.block.data| == |s.prod.block.data|)
  {
    hide Advance, NewBlockSize, LinkAfterTail, SetBlock;
  }

  lemma ProducerKeepsSizes<T>(s: State<T>, m: Option<seq<T>>, size: nat, max: nat)
    requires size < WORD && ValidMax(max) && Sized(s, size, max) && Enabled(s, ProducerStep(m))
    ensures Sized(Step(s, ProducerStep(m)), size, max)
  {
    hide Contents, ProducerNext, FirstBlockSize, BlockCount, Grown;
    if !s.prod.PStoreNext? && !s.prod.PAlloc? { ProducerSizes(s, m); }
    ProducerLinks(s, m);
    FirstSize(size, max);
    var b := |s.mem.blocks| - BlockCount(size, max);
    if s.prod.PAlloc? && m.Some? { GrownNext(FirstBlockSize(size, max), b, max); }
  }

  /** Blocks double in size, up to the maximum, with every allocation, in every run. */
  lemma {:induction false} BlockSizes<T(!new)>(run: seq<State<T>>, acts: seq<Action<T>>, size: nat, max: nat, i: nat)
    requires IsRun(run, acts, size, max) && i < |run|
    ensures Sized(run[i], size, max)
  {
    hide Contents, CoreStep, Enabled, FirstBlockSize, BlockCount, SizeAt;
    if i == 0 {
      FirstSize(size, max);
    } else {
      var s, a := run[i - 1], acts[i - 1];
      BlockSizes(run, acts, size, max, i - 1);
      assert Enabled(s, a) && run[i] == Step(s, a);
      match a
      case EnqueueCall(_, _) => CallHistory(s, a);
      case ConsumerCall(_) => CallHistory(s, a);
      case ProducerStep(m) => ProducerKeepsSizes(s, m, size, max);
      case ConsumerStep => ConsumerSizes(s);
    }
  }
}
