/**
  The hash table's nodes and chains as values: how nodes are addressed in the two node
  representations, what it means for a slot to hold a chain, and how chains survive relinking.
*/
module HashChains {
  import opened Basics
  import opened Bits
  import opened Allocator

  // ---------------------------------------------------------------- addressing

  /**
    Nodes are numbered in the order in which the node heap hands them out. A reference to node
    k is a pointer, or in location mode the 32-bit location of element k of the heap's blocks
    (Allocator.BlockedAllocator.Singles).
  */
  datatype Mode = Pointers | Locations(blockSize: nat, low: nat)

  ghost predicate ModeOk(m: Mode) {
    m.Locations? ==> m.low <= 32 && 1 <= m.blockSize <= Pow2(m.low)
  }

  function Ref(m: Mode, k: nat): nat
    requires ModeOk(m)
  {
    match m
    case Pointers => k + 1
    case Locations(size, low) => LocationOf(low, Quotient(k, size), Remainder(k, size))
  }

  function NullRef(m: Mode): nat {
    if m.Pointers? then 0 else WORD32 - 1
  }

  // The blocks that count nodes occupy
  function BlocksFor(count: nat, size: nat): nat
    requires size > 0
  {
    Quotient(count + size - 1, size)
  }

  // The node that a reference denotes, -1 for none; in location mode this is `Get` (DerefIsGet)
  function Deref(m: Mode, count: nat, ref: nat): int
    requires ModeOk(m)
  {
    match m
    case Pointers => ref - 1
    case Locations(size, low) =>
      var idx, offset := Quotient(ref, Pow2(low)), Remainder(ref, Pow2(low));
      if idx < BlocksFor(count, size) && offset < size then idx * size + offset else -1
  }

  /**
    The location range holds count nodes and null: the last block index is out of reach, or no
    block has an element at the last offset.
  */
  ghost predicate Room(m: Mode, count: nat)
    requires ModeOk(m)
  {
    m.Locations? ==>
      var blocks, limit := BlocksFor(count, m.blockSize), Pow2(32 - m.low);
      blocks < limit || (blocks == limit && m.blockSize < Pow2(m.low))
  }

  // Node k comes back from its reference, which is not null.
  ghost predicate ComesBack(m: Mode, count: nat, k: nat)
    requires ModeOk(m)
  {
    Deref(m, count, Ref(m, k)) == k && Ref(m, k) != NullRef(m)
  }

  lemma IndexOfNode(k: nat, count: nat, size: nat)
    requires k < count && size > 0
    ensures Quotient(k, size) < BlocksFor(count, size)
    ensures Quotient(k, size) * size + Remainder(k, size) == k && Remainder(k, size) < size
  {
    var q, b := k / size, (count + size - 1) / size;
    assert k == q * size + k % size;
    if q >= b {
      assert count + size - 1 == b * size + (count + size - 1) % size;
      MulMonotone(b, q, size);
    }
  }

  /** Following a reference gives back the node. */
  lemma DerefRef(m: Mode, count: nat, k: nat)
    requires ModeOk(m) && k < count && Room(m, count)
    ensures ComesBack(m, count, k)
  {
    hide Pow2, LocationOf, BlocksFor, Quotient, Remainder;
    DerefNull(m, count);
    if m.Locations? {
      IndexOfNode(k, count, m.blockSize);
      LocationSplit(m.low, Quotient(k, m.blockSize), Remainder(k, m.blockSize));
    }
  }

  // Null is the last offset of the last block index.
  lemma NullParts(low: nat)
    requires low <= 32
    ensures Quotient(WORD32 - 1, Pow2(low)) == Pow2(32 - low) - 1
    ensures Remainder(WORD32 - 1, Pow2(low)) == Pow2(low) - 1
  {
    hide Pow2;
    var p, n := Pow2(low), Pow2(32 - low);
    WordPower(low);
    assert WORD32 - 1 == (n - 1) * p + (p - 1) by { assert n * p == (n - 1) * p + p; assert p * n == n * p; }
    ModUnique(WORD32 - 1, p, n - 1, p - 1);
  }

  lemma DerefNull(m: Mode, count: nat)
    requires ModeOk(m) && Room(m, count)
    ensures Deref(m, count, NullRef(m)) == -1
  {
    hide Pow2, BlocksFor, Quotient, Remainder;
    if m.Locations? { NullParts(m.low); }
  }

  /** The exact range: null denotes nothing and every node comes back if and only if there is room. */
  lemma RoomIff(m: Mode, count: nat)
    requires ModeOk(m)
    ensures Room(m, count) <==>
      Deref(m, count, NullRef(m)) == -1 && forall k :: 0 <= k < count ==> ComesBack(m, count, k)
  {
    hide Pow2, BlocksFor, Quotient, Remainder, ComesBack, Ref;
    if Room(m, count) {
      DerefNull(m, count);
      forall k | 0 <= k < count ensures ComesBack(m, count, k) { DerefRef(m, count, k); }
    } else if BlocksFor(count, m.blockSize) == Pow2(32 - m.low) {
      NullParts(m.low);
    } else {
      NodeLost(m, count);
    }
  }

  // One block too many: its first node has the location of node 0.
  lemma NodeLost(m: Mode, count: nat)
    requires ModeOk(m) && m.Locations? && BlocksFor(count, m.blockSize) > Pow2(32 - m.low)
    ensures var k := Pow2(32 - m.low) * m.blockSize; k < count && !ComesBack(m, count, k)
  {
    hide Pow2, LocationOf;
    var n, size := Pow2(32 - m.low), m.blockSize;
    var k := n * size;
    MulMonotoneTo(count, size, n);
    ModUnique(k, size, n, 0);
    LocationSplit(m.low, n, 0);
    ModUnique(n, n, 1, 0);
    assert Deref(m, count, Ref(m, k)) <= 0;
    assert k > 0 by { MulMonotone(1, n, size); }
  }

  lemma MulMonotoneTo(count: nat, size: nat, n: nat)
    requires size > 0 && BlocksFor(count, size) > n
    ensures n * size < count
  {
    var b := (count + size - 1) / size;
    assert count + size - 1 == b * size + (count + size - 1) % size;
    MulMonotone(n + 1, b, size);
    MulSucc(n, size);
  }

  /**
    With the default block size of 32, the nodes of the last block make null a reference: chains
    no longer end.
  */
  lemma NullDenotesNode(count: nat)
    requires 0x1_0000_0000 - 31 <= count <= 0x1_0000_0000
    ensures ModeOk(Locations(32, 5)) && !Room(Locations(32, 5), count)
    ensures Deref(Locations(32, 5), count, NullRef(Locations(32, 5))) == 0xFFFF_FFFF
  {
    hide Pow2;
    BlockPowers();
    NullParts(5);
    ModUnique(count + 31, 32, 0x800_0000, count + 31 - 0x1_0000_0000);
  }

  lemma BlockPowers()
    ensures Pow2(5) == 32 && Pow2(27) == 0x800_0000
  {
    hide Pow2;
    FivePower();
    WordPower(5);
  }

  lemma FivePower()
    ensures Pow2(5) == 32
  {
  }

  /** The same range in numbers of nodes. */
  lemma RoomCapacity(m: Mode, count: nat)
    requires ModeOk(m) && m.Locations?
    ensures Room(m, count) <==>
      count <= (if m.blockSize < Pow2(m.low) then Pow2(32 - m.low) else Pow2(32 - m.low) - 1) * m.blockSize
  {
    hide Pow2;
    BlocksAtMost(count, m.blockSize, Pow2(32 - m.low));
    BlocksAtMost(count, m.blockSize, Pow2(32 - m.low) - 1);
  }

  lemma BlocksAtMost(count: nat, size: nat, n: nat)
    requires size > 0
    ensures BlocksFor(count, size) <= n <==> count <= n * size
  {
    var b := (count + size - 1) / size;
    assert count + size - 1 == b * size + (count + size - 1) % size;
    if b <= n { MulMonotone(b, n, size); } else { MulMonotoneTo(count, size, n); }
  }

  // ---------------------------------------------------------------- the node heap

  // The mode that an allocator in location mode stands for
  ghost function ModeOf(a: BlockedAllocator): Mode
    reads a
  {
    Locations(a.blockSize, a.lowBits)
  }

  lemma BlocksOfSingles(a: BlockedAllocator)
    requires a.Valid() && a.Singles()
    ensures |a.blockList| == BlocksFor(|a.live|, a.blockSize)
  {
    var size, i := a.blockSize, a.curIdx;
    if a.cur == NULL {
      ModUnique(size - 1, size, 0, size - 1);
    } else {
      MulSucc(i, size);
      ModUnique(i * size + a.pos + size - 1, size, i + 1, a.pos - 1);
    }
  }

  /** Following a location is the allocator's `Get`, on a heap of single nodes. */
  lemma DerefIsGet(a: BlockedAllocator, loc: nat)
    requires a.Valid() && a.Configured() && a.Singles()
    ensures ModeOk(ModeOf(a))
    ensures var d := Deref(ModeOf(a), |a.live|, loc);
      if d < 0 then a.Get(loc) == Null
      else
        && Quotient(d, a.blockSize) < |a.blockList|
        && a.Get(loc) == At(a.blockList[Quotient(d, a.blockSize)], Remainder(d, a.blockSize))
  {
    hide Pow2, BlocksFor;
    BlocksOfSingles(a);
    var idx, offset := Quotient(loc, Pow2(a.lowBits)), Remainder(loc, Pow2(a.lowBits));
    if idx < |a.blockList| && offset < a.blockSize {
      ModUnique(idx * a.blockSize + offset, a.blockSize, idx, offset);
    }
  }

  /** Node k of the heap lies where its reference leads, as long as there is room. */
  lemma NodesFound(a: BlockedAllocator, k: nat)
    requires a.Valid() && a.Configured() && a.Singles() && k < |a.live|
    ensures ModeOk(ModeOf(a))
    ensures Ref(ModeOf(a), k) == LocationOf(a.lowBits, a.live[k].index, a.live[k].start)
    ensures Room(ModeOf(a), |a.live|) ==> a.Get(Ref(ModeOf(a), k)) == At(a.live[k].block, a.live[k].start)
  {
    hide Pow2, LocationOf, Room, Fetch;
    var r := a.live[k];
    assert NodeAt(r, k, a.blockSize) && InBlock(a.blockList, a.blockSizes, r);
    ModUnique(k, a.blockSize, r.index, r.start);
    if Room(ModeOf(a), |a.live|) {
      DerefRef(ModeOf(a), |a.live|, k);
      DerefIsGet(a, Ref(ModeOf(a), k));
    }
  }

  /** `node32_heap_.New(1, loc)`: a new node, numbered next, and its reference. */
  method NewNode(a: BlockedAllocator) returns (loc: nat)
    requires a.Valid() && a.Configured() && a.Singles() && a.locations
    modifies a
    ensures a.Valid() && a.Configured() && a.Singles() && a.locations && ModeOf(a) == old(ModeOf(a))
    ensures |a.live| == |old(a.live)| + 1 && loc == Ref(ModeOf(a), |old(a.live)|)
    ensures Room(ModeOf(a), |a.live|) ==>
      a.Get(loc) == At(a.live[|old(a.live)|].block, a.live[|old(a.live)|].start)
  {
    hide Pow2, LocationOf, Room, Ref, BlocksOk, RegionsOk, CurrentOk;
    var r;
    r, loc := a.NewSingle();
    NodesFound(a, |a.live| - 1);
  }

  // ---------------------------------------------------------------- the caller's ordering

  /** The comparator orders items, and items that compare equal have equal hashes. */
  ghost predicate Lawful<E(!new)>(comp: (E, E) -> int, hash: E -> nat) {
    && (forall x, y :: comp(x, y) < 0 <==> comp(y, x) > 0)
    && (forall x, y, z :: comp(x, y) < 0 && comp(y, z) < 0 ==> comp(x, z) < 0)
    && (forall x, y :: comp(x, y) == 0 ==> hash(x) == hash(y))
  }

  lemma Converse<E(!new)>(comp: (E, E) -> int, hash: E -> nat, x: E, y: E)
    requires Lawful(comp, hash)
    ensures comp(x, y) < 0 <==> comp(y, x) > 0
    ensures comp(x, y) == 0 <==> comp(y, x) == 0
    ensures comp(x, y) == 0 ==> hash(x) == hash(y)
    ensures comp(x, x) == 0
  {
  }

  lemma Less<E(!new)>(comp: (E, E) -> int, hash: E -> nat, x: E, y: E, z: E)
    requires Lawful(comp, hash) && comp(x, y) < 0 && comp(y, z) < 0
    ensures comp(x, z) < 0
  {
  }

  // ---------------------------------------------------------------- chains

  // The nodes' data and next fields are two parallel sequences, indexed by node; `links` is the
  // latter.
  datatype Slot = Slot(size: nat, first: nat)

  function RefAt(m: Mode, c: seq<nat>, i: nat): nat
    requires ModeOk(m)
  {
    if i < |c| then Ref(m, c[i]) else NullRef(m)
  }

  /** From `first`, the links visit exactly the nodes of c and end in null. */
  ghost predicate ChainOk(m: Mode, links: seq<nat>, first: nat, c: seq<nat>)
    requires ModeOk(m)
  {
    && first == RefAt(m, c, 0)
    && forall i :: 0 <= i < |c| ==> c[i] < |links| && links[c[i]] == RefAt(m, c, i + 1)
  }

  // A chain only depends on its own nodes.
  lemma ChainAgree(m: Mode, links: seq<nat>, links': seq<nat>, first: nat, c: seq<nat>)
    requires ModeOk(m) && ChainOk(m, links, first, c) && |links| <= |links'|
    requires forall i :: 0 <= i < |c| ==> c[i] < |links| ==> links'[c[i]] == links[c[i]]
    ensures ChainOk(m, links', first, c)
  {
    hide Ref;
  }

  lemma ChainFrame(m: Mode, links: seq<nat>, k: nat, ref: nat, first: nat, c: seq<nat>)
    requires ModeOk(m) && ChainOk(m, links, first, c) && k < |links| && k !in c
    ensures ChainOk(m, links[k := ref], first, c)
  {
    hide Ref;
    ChainAgree(m, links, links[k := ref], first, c);
  }

  /** Putting x in front. */
  lemma ChainPush(m: Mode, links: seq<nat>, first: nat, c: seq<nat>, x: nat)
    requires ModeOk(m) && ChainOk(m, links, first, c) && x < |links| && x !in c
    ensures ChainOk(m, links[x := first], Ref(m, x), [x] + c)
  {
    hide Ref;
    var links', d := links[x := first], [x] + c;
    forall i | 0 <= i < |d|
      ensures d[i] < |links'| && links'[d[i]] == RefAt(m, d, i + 1)
    {
      if i > 0 { assert d[i] == c[i - 1]; assert RefAt(m, d, i + 1) == RefAt(m, c, i); }
    }
  }

  // d is c with x put in at position p.
  ghost predicate Spliced(c: seq<nat>, p: nat, x: nat, d: seq<nat>) {
    && p <= |c| && |d| == |c| + 1 && d[p] == x
    && (forall i :: 0 <= i < p ==> d[i] == c[i])
    && (forall i :: p < i < |d| ==> d[i] == c[i - 1])
  }

  lemma SplicedRefs(m: Mode, c: seq<nat>, p: nat, x: nat, d: seq<nat>, i: nat)
    requires ModeOk(m) && Spliced(c, p, x, d)
    ensures i < p ==> RefAt(m, d, i) == RefAt(m, c, i)
    ensures i >= p ==> RefAt(m, d, i + 1) == RefAt(m, c, i)
    ensures RefAt(m, d, p) == Ref(m, x)
  {
    hide Ref;
  }

  /** Taking the first node out. */
  lemma ChainRemoveFirst(m: Mode, links: seq<nat>, first: nat, c: seq<nat>, x: nat, d: seq<nat>)
    requires ModeOk(m) && Spliced(c, 0, x, d) && ChainOk(m, links, first, d)
    ensures x < |links| && ChainOk(m, links, links[x], c)
  {
    hide Ref, RefAt;
    SplicedRefs(m, c, 0, x, d, 0);
    forall i | 0 <= i < |c|
      ensures c[i] < |links| && links[c[i]] == RefAt(m, c, i + 1)
    {
      assert d[i + 1] == c[i];
      SplicedRefs(m, c, 0, x, d, i + 1);
    }
  }

  /** Taking a later node out, by way of its predecessor's link. */
  lemma ChainRemove(m: Mode, links: seq<nat>, first: nat, c: seq<nat>, p: nat, x: nat, d: seq<nat>)
    requires ModeOk(m) && p > 0 && Spliced(c, p, x, d) && ChainOk(m, links, first, d) && Distinct(d)
    ensures x < |links| && c[p - 1] < |links| && ChainOk(m, links[c[p - 1] := links[x]], first, c)
  {
    hide Ref, RefAt;
    SplicedRefs(m, c, p, x, d, 0);
    SplicedRefs(m, c, p, x, d, p);
    assert d[p - 1] == c[p - 1] && d[p] == x;
    var links' := links[c[p - 1] := links[x]];
    forall i | 0 <= i < |c|
      ensures c[i] < |links'| && links'[c[i]] == RefAt(m, c, i + 1)
    {
      SplicedRefs(m, c, p, x, d, i + 1);
      if i < p { assert d[i] == c[i]; } else { assert d[i + 1] == c[i]; }
    }
  }

  /** A new node in front. */
  lemma ChainInsertFirst(m: Mode, links: seq<nat>, first: nat, c: seq<nat>, d: seq<nat>)
    requires ModeOk(m) && ChainOk(m, links, first, c) && Spliced(c, 0, |links|, d)
    ensures ChainOk(m, links + [first], Ref(m, |links|), d)
  {
    hide Ref, RefAt;
    var x, links' := |links|, links + [first];
    SplicedRefs(m, c, 0, x, d, 0);
    forall i | 0 <= i < |d|
      ensures d[i] < |links'| && links'[d[i]] == RefAt(m, d, i + 1)
    {
      SplicedRefs(m, c, 0, x, d, i);
      if i > 0 { assert d[i] == c[i - 1]; }
    }
  }

  /** A new node after the first p > 0, linked from its predecessor. */
  lemma ChainInsert(m: Mode, links: seq<nat>, first: nat, c: seq<nat>, p: nat, d: seq<nat>)
    requires ModeOk(m) && p > 0 && ChainOk(m, links, first, c) && Spliced(c, p, |links|, d) && Distinct(c)
    ensures c[p - 1] < |links|
    ensures ChainOk(m, (links + [RefAt(m, c, p)])[c[p - 1] := Ref(m, |links|)], first, d)
  {
    hide Ref, RefAt;
    var x := |links|;
    var links' := (links + [RefAt(m, c, p)])[c[p - 1] := Ref(m, x)];
    SplicedRefs(m, c, p, x, d, 0);
    SplicedRefs(m, c, p, x, d, p);
    forall i | 0 <= i < |d|
      ensures d[i] < |links'| && links'[d[i]] == RefAt(m, d, i + 1)
    {
      if i < p { assert d[i] == c[i]; SplicedRefs(m, c, p, x, d, i + 1); }
      else if i > p { assert d[i] == c[i - 1]; SplicedRefs(m, c, p, x, d, i); }
    }
  }
}
