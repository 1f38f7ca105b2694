/**
  The block allocator. The memory that `new EleType[n]` returns is an identity from an
  unbounded supply; 0 is the null pointer. Positions and locations are 32-bit words, and the
  additions and shifts on them wrap.
*/
module Allocator {
  import opened Bits
  import opened Basics

  const NULL: nat := 0

  datatype Region = Region(index: nat, block: nat, start: nat, len: nat)
  datatype Address = Null | At(block: nat, offset: nat)

  // x mod 2^32, for a sum of two words
  function Word(x: nat): nat { if x < WORD32 then x else x - WORD32 }

  // Regions come in address order, so a later one never overlaps an earlier one.
  ghost predicate After(r: Region, s: Region) {
    r.index < s.index || (r.index == s.index && r.start + r.len <= s.start)
  }

  ghost predicate Disjoint(r: Region, s: Region) {
    r.block != s.block || r.start + r.len <= s.start || s.start + s.len <= r.start
  }

  // ---------------------------------------------------------------- what holds of the blocks

  ghost predicate BlocksOk(list: seq<nat>, sizes: seq<nat>, supply: nat, freed: set<nat>) {
    && |list| == |sizes| && supply > NULL && Distinct(list)
    && (forall i :: 0 <= i < |list| ==> NULL < list[i] < supply && list[i] !in freed && sizes[i] < WORD32)
    && (forall b :: b in freed ==> b < supply)
  }

  ghost predicate CurrentOk(list: seq<nat>, sizes: seq<nat>, idx: int, cur: nat, curSize: nat, pos: nat) {
    if cur == NULL then idx == -1 && list == [] && pos == 0
    else
      && |list| == |sizes| && 0 <= idx < |list| && cur == list[idx] && curSize == sizes[idx] && pos <= curSize
  }

  ghost predicate InBlock(list: seq<nat>, sizes: seq<nat>, r: Region) {
    && r.index < |list| && r.index < |sizes|
    && r.block == list[r.index] && r.start + r.len <= sizes[r.index]
  }

  // Before the allocation point
  ghost predicate Behind(idx: int, pos: nat, r: Region) {
    r.index < idx || (r.index == idx && r.start + r.len <= pos)
  }

  ghost predicate RegionsOk(list: seq<nat>, sizes: seq<nat>, idx: int, pos: nat, live: seq<Region>) {
    && (forall k :: 0 <= k < |live| ==> InBlock(list, sizes, live[k]) && Behind(idx, pos, live[k]))
    && (forall k, l :: 0 <= k < l < |live| ==> After(live[k], live[l]))
  }

  // s with x at position i, where i may be the length of s
  function Put(s: seq<nat>, i: nat, x: nat): seq<nat>
    requires i <= |s|
  {
    if i < |s| then s[i := x] else s + [x]
  }

  lemma PutFresh(list: seq<nat>, sizes: seq<nat>, supply: nat, freed: set<nat>, freed': set<nat>, i: nat, n: nat)
    requires BlocksOk(list, sizes, supply, freed) && i <= |list| && n < WORD32
    requires freed' == if i < |list| then freed + {list[i]} else freed
    ensures BlocksOk(Put(list, i, supply), Put(sizes, i, n), supply + 1, freed')
  {
  }

  /** Regions handed out earlier keep their blocks. */
  lemma RegionsMoveOn(list: seq<nat>, sizes: seq<nat>, idx: int, pos: nat, live: seq<Region>, b: nat, n: nat)
    requires RegionsOk(list, sizes, idx, pos, live) && -1 <= idx < |list| == |sizes|
    ensures RegionsOk(Put(list, idx + 1, b), Put(sizes, idx + 1, n), idx + 1, 0, live)
  {
    forall k | 0 <= k < |live|
      ensures InBlock(Put(list, idx + 1, b), Put(sizes, idx + 1, n), live[k]) && Behind(idx + 1, 0, live[k])
    {
      assert InBlock(list, sizes, live[k]) && Behind(idx, pos, live[k]);
    }
  }

  lemma RegionsGrow(list: seq<nat>, sizes: seq<nat>, idx: int, pos: nat, live: seq<Region>, r: Region)
    requires RegionsOk(list, sizes, idx, pos, live) && InBlock(list, sizes, r)
    requires r.index == idx && r.start == pos
    ensures RegionsOk(list, sizes, idx, pos + r.len, live + [r])
  {
    var live' := live + [r];
    forall k | 0 <= k < |live'|
      ensures InBlock(list, sizes, live'[k]) && Behind(idx, pos + r.len, live'[k])
    {
      if k < |live| { assert InBlock(list, sizes, live[k]) && Behind(idx, pos, live[k]); }
    }
    forall k, l | 0 <= k < l < |live'|
      ensures After(live'[k], live'[l])
    {
      if l == |live| { assert Behind(idx, pos, live[k]); } else { assert After(live[k], live[l]); }
    }
  }

  // ---------------------------------------------------------------- locations

  // (idx << low) | pos, on 32-bit words
  function LocationOf(low: nat, idx: nat, pos: nat): nat {
    BitOr(idx * Pow2(low) % WORD32, pos)
  }

  // `Get`: the address that a location denotes
  function Fetch(list: seq<nat>, blockSize: nat, low: nat, loc: nat): Address {
    var idx, offset := Quotient(loc, Pow2(low)), Remainder(loc, Pow2(low));
    if idx < |list| && list[idx] != NULL && offset < blockSize then At(list[idx], offset) else Null
  }

  lemma {:induction false} OrDisjoint(low: nat, a: nat, p: nat)
    requires p < Pow2(low)
    ensures BitOr(a * Pow2(low), p) == a * Pow2(low) + p
  {
    if low == 0 {
      OrZero(a);
    } else {
      var h := Pow2(low - 1);
      assert a * Pow2(low) == 2 * (a * h);
      assert a * Pow2(low) / 2 == a * h;
      OrDisjoint(low - 1, a, p / 2);
    }
  }

  lemma {:induction false} OrZero(a: nat)
    ensures BitOr(a, 0) == a
  {
    if a > 0 { OrZero(a / 2); }
  }

  // The block index that survives the shift
  lemma ShiftedIndex(low: nat, idx: nat)
    requires low <= 32
    ensures idx * Pow2(low) % WORD32 == (idx % Pow2(32 - low)) * Pow2(low)
  {
    hide Pow2;
    WordPower(low);
    var p, n := Pow2(low), Pow2(32 - low);
    var q, r := idx / n, idx % n;
    assert idx == q * n + r;
    ShiftSplit(q, n, r, p);
    ModUnique(idx * p, WORD32, q, r * p);
  }

  lemma ShiftSplit(q: nat, n: nat, r: nat, p: nat)
    requires r < n && p > 0
    ensures (q * n + r) * p == q * (p * n) + r * p && r * p < p * n
  {
    MulMonotone(r + 1, n, p);
    MulSucc(r, p);
  }

  /**
    A location leads back to its region exactly when the offset lies within the block size and
    fits in the low bits, and the block index fits in the bits left of them.
  */
  lemma LocationRoundTrip(list: seq<nat>, blockSize: nat, low: nat, idx: nat, pos: nat)
    requires low <= 32 && idx < |list|
    requires Distinct(list) && forall i :: 0 <= i < |list| ==> list[i] != NULL
    ensures Fetch(list, blockSize, low, LocationOf(low, idx, pos)) == At(list[idx], pos)
      <==> pos < blockSize && pos < Pow2(low) && idx < Pow2(32 - low)
  {
    hide Pow2, LocationOf;
    RemainderBelow(LocationOf(low, idx, pos), Pow2(low));
    if pos < Pow2(low) {
      LocationSplit(low, idx, pos);
      if idx >= Pow2(32 - low) { IndexLost(idx, Pow2(32 - low)); }
    }
  }

  // What remains of block index and offset when the offset fits
  lemma LocationSplit(low: nat, idx: nat, pos: nat)
    requires low <= 32 && pos < Pow2(low)
    ensures Quotient(LocationOf(low, idx, pos), Pow2(low)) == idx % Pow2(32 - low)
    ensures Remainder(LocationOf(low, idx, pos), Pow2(low)) == pos
    ensures idx < Pow2(32 - low) ==> idx % Pow2(32 - low) == idx
  {
    hide Pow2;
    var n := Pow2(32 - low);
    ShiftedIndex(low, idx);
    OrDisjoint(low, idx % n, pos);
    ModUnique((idx % n) * Pow2(low) + pos, Pow2(low), idx % n, pos);
    if idx < n { ModUnique(idx, n, 0, idx); }
  }

  lemma RemainderBelow(a: nat, n: nat)
    requires n > 0
    ensures Remainder(a, n) < n
  {
  }

  lemma IndexLost(idx: nat, n: nat)
    requires 0 < n <= idx
    ensures idx % n < idx
  {
  }

  // Elements p and q of blocks i and j have different locations unless they are the same.
  ghost predicate Apart(low: nat, blockSize: nat, i: nat, p: nat, j: nat, q: nat)
    requires low <= 32
  {
    i < Pow2(32 - low) && j < Pow2(32 - low) && p < blockSize && q < blockSize && (i != j || p != q) ==>
      LocationOf(low, i, p) != LocationOf(low, j, q)
  }

  /** All elements are told apart exactly when the low bits hold every offset. */
  lemma LocationsDistinctIff(low: nat, blockSize: nat)
    requires low < 32
    ensures blockSize <= Pow2(low) <==> forall i: nat, p: nat, j: nat, q: nat :: Apart(low, blockSize, i, p, j, q)
  {
    hide Pow2, LocationOf;
    if blockSize <= Pow2(low) {
      forall i: nat, p: nat, j: nat, q: nat
        ensures Apart(low, blockSize, i, p, j, q)
      {
        if i < Pow2(32 - low) && j < Pow2(32 - low) && p < blockSize && q < blockSize {
          LocationSplit(low, i, p);
          LocationSplit(low, j, q);
        }
      }
    } else {
      LocationsCollide(low);
      assert !Apart(low, blockSize, 0, Pow2(low), 1, 0);
    }
  }

  /** The first offset that does not fit collides with the start of the next block. */
  lemma LocationsCollide(low: nat)
    requires low < 32
    ensures LocationOf(low, 0, Pow2(low)) == LocationOf(low, 1, 0) && 1 < Pow2(32 - low)
  {
    hide Pow2;
    var p, n := Pow2(low), Pow2(32 - low);
    assert 1 * p == p && 0 * p == 0;
    assert n >= 2 by { Pow2Succ(31 - low); }
    assert p < WORD32 by { WordPower(low); HalfBelow(p, n); }
    ModUnique(p, WORD32, 0, p);
    ModUnique(0, WORD32, 0, 0);
    OrZero(p);
  }

  lemma HalfBelow(p: nat, n: nat)
    requires p > 0 && n >= 2
    ensures p < p * n
  {
    MulMonotone(2, n, p);
  }

  predicate NodeAt(r: Region, k: int, blockSize: nat) {
    r.len == 1 && r.start < blockSize && r.index * blockSize + r.start == k
  }

  class BlockedAllocator {
    var blockList: seq<nat>
    var blockSizes: seq<nat>
    var curIdx: int
    var cur: nat
    var curSize: nat
    var pos: nat
    var itemCount: nat
    var blockSize: nat
    var lowBits: nat
    var locations: bool
    var supply: nat               // the next identity that operator new hands out
    ghost var live: seq<Region>   // what New returned since the last Reset
    ghost var freed: set<nat>

    ghost predicate Valid()
      reads this
    {
      && BlocksOk(blockList, blockSizes, supply, freed)
      && CurrentOk(blockList, blockSizes, curIdx, cur, curSize, pos)
      && RegionsOk(blockList, blockSizes, curIdx, pos, live)
      && (cur == NULL ==> live == []) && 1 <= blockSize < WORD32 / 2 && lowBits <= 32
    }

    // Every block has the configured size.
    ghost predicate Uniform()
      reads this
    {
      forall i :: 0 <= i < |blockSizes| ==> blockSizes[i] == blockSize
    }

    // Only single elements since a full Reset: the k-th is element k of the blocks laid end to end.
    ghost predicate Singles()
      reads this
    {
      && |blockList| == curIdx + 1 && |live| == (if cur == NULL then 0 else curIdx * blockSize + pos)
      && (cur != NULL ==> curSize == blockSize && pos > 0)
      && forall k :: 0 <= k < |live| ==> NodeAt(live[k], k, blockSize)
    }

    ghost function Config(): (nat, nat, bool)
      reads this
    {
      (blockSize, lowBits, locations)
    }

    // The block to go on with, at position idx: a new one, the next reserved one, or a new one
    // in place of a reserved one that is too small.
    static method ChooseBlock(list: seq<nat>, sizes: seq<nat>, idx: nat, num: nat, blockSize: nat, supply: nat,
                              ghost freed: set<nat>)
      returns (block: nat, size: nat, next: nat, ghost freed': set<nat>)
      requires BlocksOk(list, sizes, supply, freed) && idx <= |list| && num < WORD32 && 1 <= blockSize < WORD32
      requires idx == 0 ==> list == []
      ensures block != NULL && num <= size
      ensures BlocksOk(Put(list, idx, block), Put(sizes, idx, size), next, freed')
      ensures size == (if blockSize > num then blockSize else num) || (idx < |sizes| && size == sizes[idx])
    {
      block, size, next, freed' := NULL, 0, supply, freed;
      if 0 < idx < |list| {
        block, size := list[idx], sizes[idx];
        if size < num {
          freed' := freed + {block};
          block := NULL;
        }
      }
      if block == NULL {
        size := if blockSize > num then blockSize else num;
        block, next := supply, supply + 1;
        PutFresh(list, sizes, supply, freed, freed', idx, size);
      } else {
        assert Put(list, idx, block) == list && Put(sizes, idx, size) == sizes;
      }
    }

    // Moves on to a block with room for num elements.
    method NextBlock(num: nat)
      requires Valid() && num < WORD32
      modifies this`blockList, this`blockSizes, this`curIdx, this`cur, this`curSize, this`pos, this`supply, this`freed
      ensures Valid() && cur != NULL && pos == 0 && curSize >= num && curIdx == old(curIdx) + 1
      ensures blockList == Put(old(blockList), curIdx, cur) && blockSizes == Put(old(blockSizes), curIdx, curSize)
      ensures curSize == (if blockSize > num then blockSize else num)
           || (curIdx < |old(blockSizes)| && curSize == old(blockSizes)[curIdx])
    {
      hide BlocksOk, RegionsOk;
      BlockCount(blockList, blockSizes, supply, freed);
      var idx := curIdx + 1;
      var block, size, next;
      ghost var freed';
      block, size, next, freed' := ChooseBlock(blockList, blockSizes, idx, num, blockSize, supply, freed);
      RegionsMoveOn(blockList, blockSizes, curIdx, pos, live, block, size);
      blockList, blockSizes := Put(blockList, idx, block), Put(blockSizes, idx, size);
      curIdx, cur, curSize := idx, block, size;
      pos, supply, freed := 0, next, freed';
    }

    constructor (size: int, enable: bool)
      requires size < WORD32 / 2
      ensures Valid() && live == [] && blockList == [] && locations == enable && itemCount == 0
      ensures Uniform() && Singles()
      ensures cur == NULL && blockSize == if size < 1 then 1 else size
      ensures enable ==> Configured()
      ensures !enable ==> lowBits == 0
    {
      blockList, blockSizes, itemCount := [], [], 0;
      cur, curSize, curIdx, pos := NULL, 0, -1, 0;
      locations, lowBits, blockSize := enable, 0, 1;
      supply, live, freed := 1, [], {};
      new;
      SetBlockSize(size);
    }

    // Offsets fit below the block index.
    ghost predicate Configured()
      reads this
    {
      lowBits <= 32 && blockSize <= Pow2(lowBits)
    }

    method SetEnableLocationNew(enable: bool)
      requires Valid()
      modifies this`locations
      ensures Valid() && locations == if enable && blockList != [] then old(locations) else enable
    {
      if enable && blockList != [] {
        return;
      }
      locations := enable;
    }

    // The number of bits that hold every offset below size
    static method BitsFor(size: nat) returns (low: nat)
      requires 1 <= size < WORD32
      ensures low == Length(size - 1) && low <= 32
      ensures size <= Pow2(low) && (low > 0 ==> size > Pow2(low - 1))
    {
      low := 0;
      var data: nat := size - 1;
      while data != 0
        invariant low + Length(data) == Length(size - 1)
        decreases data
      {
        low := low + 1;
        data := data / 2;
      }
      WordPower(0);
      LengthBound(size - 1, 32);
    }

    // In location mode the size is settled once there are blocks.
    method SetBlockSize(size: int)
      requires Valid() && size < WORD32 / 2
      modifies this`blockSize, this`lowBits
      ensures Valid()
      ensures locations && blockList != [] ==> unchanged(this)
      ensures !(locations && blockList != []) ==> blockSize == if size < 1 then 1 else size
      ensures locations && blockList == [] ==> Configured()
      ensures !locations ==> lowBits == old(lowBits)
    {
      if locations && blockList != [] {
        return;
      }
      blockSize := if size < 1 then 1 else size;
      if locations {
        lowBits := BitsFor(blockSize);
      }
    }

    /** `New(num)`: a region that overlaps no live one, in a block that stays. */
    method New(num: nat) returns (r: Region)
      requires Valid() && num < WORD32
      modifies this
      ensures Advanced(r, num, old(Fits(num)), old(curIdx), old(cur), old(pos), old(blockList), old(blockSizes))
      ensures Config() == old(Config()) && itemCount == Word(old(itemCount) + num)
      ensures old(cur) == NULL || old(pos) + num < WORD32 ==> Valid() && live == old(live) + [r]
      ensures !(old(cur) == NULL || old(pos) + num < WORD32) ==> !InBlock(blockList, blockSizes, r)
      ensures old(Uniform()) && num <= blockSize ==> Uniform()
    {
      r := Take(num);
    }

    /** `New(num, loc)`: the same, with the region's location; refused outside location mode. */
    method NewAt(num: nat) returns (r: Region, loc: nat, ok: bool)
      requires Valid() && num < WORD32
      modifies this
      ensures ok == old(locations)
      ensures !ok ==> unchanged(this) && loc == WORD32 - 1 && r.block == NULL
      ensures ok ==>
        && Advanced(r, num, old(Fits(num)), old(curIdx), old(cur), old(pos), old(blockList), old(blockSizes))
        && Config() == old(Config()) && itemCount == Word(old(itemCount) + num)
        && loc == LocationOf(lowBits, r.index, r.start)
      ensures ok && (old(cur) == NULL || old(pos) + num < WORD32) ==> Valid() && live == old(live) + [r]
      ensures ok && !(old(cur) == NULL || old(pos) + num < WORD32) ==> !InBlock(blockList, blockSizes, r)
      ensures old(Uniform()) && num <= blockSize ==> Uniform()
    {
      if !locations {
        return Region(0, NULL, 0, 0), WORD32 - 1, false;
      }
      r := Take(num);
      loc := LocationOf(lowBits, r.index, r.start);
      ok := true;
    }

    /** `New(1, loc)` as the hash table calls it: the k-th single element since a full Reset. */
    method NewSingle() returns (r: Region, loc: nat)
      requires Valid() && Singles() && locations
      modifies this
      ensures Valid() && Singles() && Config() == old(Config())
      ensures live == old(live) + [r] && NodeAt(r, |old(live)|, blockSize)
      ensures loc == LocationOf(lowBits, r.index, r.start)
    {
      hide BlocksOk, RegionsOk, LocationOf;
      ghost var idx0, cur0, live0, fits := curIdx, cur, live, Fits(1);
      BlockCount(blockList, blockSizes, supply, freed);
      var ok;
      r, loc, ok := NewAt(1);
      if !fits && cur0 != NULL { MulSucc(idx0, blockSize); }
      forall k | 0 <= k < |live|
        ensures NodeAt(live[k], k, blockSize)
      {
        if k < |live| - 1 { assert live[k] == live0[k]; }
      }
    }

    function Get(loc: nat): Address
      reads this
    {
      Fetch(blockList, blockSize, lowBits, loc)
    }

    /** Back to no regions, keeping the first blocks for reuse. */
    method Reset(reserved: int)
      requires Valid()
      modifies this
      ensures Valid() && live == [] && Config() == old(Config()) && pos == 0 && itemCount == 0
      ensures curIdx == if blockList == [] then -1 else 0
      ensures var n := |old(blockList)|;
        var keep := if reserved < 0 then 0 else if reserved > n then n else reserved;
        blockList == old(blockList)[..keep] && blockSizes == old(blockSizes)[..keep]
      ensures (old(Uniform()) ==> Uniform()) && (reserved <= 0 ==> Singles())
    {
      hide BlocksOk, RegionsOk, CurrentOk;
      BlockCount(blockList, blockSizes, supply, freed);
      var n := |blockList|;
      Truncate(if reserved < 0 then 0 else if reserved > n then n else reserved);
      itemCount := 0;
    }

    // Frees the blocks from keep on and goes back to the first one.
    method Truncate(keep: nat)
      requires Valid() && keep <= |blockList| == |blockSizes|
      modifies this`blockList, this`blockSizes, this`freed, this`curIdx, this`cur, this`curSize, this`pos, this`live
      ensures Valid() && live == [] && pos == 0 && curIdx == if keep == 0 then -1 else 0
      ensures keep == 0 ==> cur == NULL
      ensures blockList == old(blockList)[..keep] && blockSizes == old(blockSizes)[..keep]
    {
      hide BlocksOk, RegionsOk, CurrentOk, Beyond;
      var list, sizes := blockList[..keep], blockSizes[..keep];
      ghost var left := freed + Beyond(blockList, keep);
      DropBlocks(blockList, blockSizes, supply, freed, keep);
      StartAgain(list, sizes, supply, left);
      freed := left;
      blockList, blockSizes := list, sizes;
      curIdx, cur, curSize := if keep > 0 then 0 else -1, if keep > 0 then list[0] else NULL,
                              if keep > 0 then sizes[0] else 0;
      pos, live := 0, [];
    }

    predicate Fits(num: nat)
      reads this
    {
      cur != NULL && Word(pos + num) <= curSize
    }

    // The two forms of New share this part.
    method Take(num: nat) returns (r: Region)
      requires Valid() && num < WORD32
      modifies this
      ensures Advanced(r, num, old(Fits(num)), old(curIdx), old(cur), old(pos), old(blockList), old(blockSizes))
      ensures Config() == old(Config()) && itemCount == Word(old(itemCount) + num)
      ensures old(cur) == NULL || old(pos) + num < WORD32 ==> Valid() && live == old(live) + [r]
      ensures !(old(cur) == NULL || old(pos) + num < WORD32) ==> !InBlock(blockList, blockSizes, r)
    {
      hide BlocksOk, RegionsOk;
      BlockCount(blockList, blockSizes, supply, freed);
      if !Fits(num) {
        NextBlock(num);
        BlockCount(blockList, blockSizes, supply, freed);
      }
      r := Region(curIdx, cur, pos, num);
      if old(cur) == NULL || old(pos) + num < WORD32 {
        RegionsGrow(blockList, blockSizes, curIdx, pos, live, r);
      }
      pos := Word(pos + num);
      itemCount := Word(itemCount + num);
      live := live + [r];
    }

    // The region r of num elements starts where the last one ended, or in the next block.
    ghost predicate Advanced(r: Region, num: nat, fits: bool, idx0: int, cur0: nat, pos0: nat, list0: seq<nat>,
                             sizes0: seq<nat>)
      reads this
    {
      && r.len == num && curIdx == r.index && cur == r.block && pos == Word(r.start + num)
      && (if fits then
            && r.index == idx0 && r.block == cur0 && r.start == pos0
            && blockList == list0 && blockSizes == sizes0
          else
            && r.index == idx0 + 1 && r.start == 0 && r.index <= |list0| && r.index <= |sizes0|
            && blockList == Put(list0, r.index, cur) && blockSizes == Put(sizes0, r.index, curSize)
            && (|| curSize == (if blockSize > num then blockSize else num)
                || (r.index < |sizes0| && curSize == sizes0[r.index])))
    }
  }

  lemma BlockCount(list: seq<nat>, sizes: seq<nat>, supply: nat, freed: set<nat>)
    requires BlocksOk(list, sizes, supply, freed)
    ensures |list| == |sizes| && supply > NULL
    ensures forall i :: 0 <= i < |list| ==> list[i] != NULL && sizes[i] < WORD32
  {
  }

  lemma StartAgain(list: seq<nat>, sizes: seq<nat>, supply: nat, freed: set<nat>)
    requires BlocksOk(list, sizes, supply, freed)
    ensures list == [] ==> CurrentOk(list, sizes, -1, NULL, 0, 0) && RegionsOk(list, sizes, -1, 0, [])
    ensures list != [] ==> list[0] != NULL && |sizes| == |list|
    ensures list != [] ==> CurrentOk(list, sizes, 0, list[0], sizes[0], 0) && RegionsOk(list, sizes, 0, 0, [])
  {
  }

  ghost function Beyond(list: seq<nat>, keep: nat): set<nat> {
    set i | keep <= i < |list| :: list[i]
  }

  lemma DropBlocks(list: seq<nat>, sizes: seq<nat>, supply: nat, freed: set<nat>, keep: nat)
    requires BlocksOk(list, sizes, supply, freed) && keep <= |list|
    ensures BlocksOk(list[..keep], sizes[..keep], supply, freed + Beyond(list, keep))
  {
  }

  /** Live regions are pairwise disjoint and lie in blocks that have not been freed. */
  lemma LiveRegionsSafe(a: BlockedAllocator, k: nat, l: nat)
    requires a.Valid() && k < l < |a.live|
    ensures Disjoint(a.live[k], a.live[l]) && a.live[k].block !in a.freed && a.live[l].block !in a.freed
  {
    var r, s := a.live[k], a.live[l];
    assert InBlock(a.blockList, a.blockSizes, r) && InBlock(a.blockList, a.blockSizes, s) && After(r, s);
  }

  /**
    A live region is found by its location exactly when its start lies within the block size and
    both parts of the location fit. In blocks of one size every start lies within it.
  */
  lemma LiveRegionsFound(a: BlockedAllocator, k: nat)
    requires a.Valid() && k < |a.live| && a.live[k].len > 0
    ensures var r := a.live[k];
      a.Get(LocationOf(a.lowBits, r.index, r.start)) == At(r.block, r.start)
      <==> r.start < a.blockSize && r.start < Pow2(a.lowBits) && r.index < Pow2(32 - a.lowBits)
    ensures a.Uniform() ==> a.live[k].start < a.blockSize
  {
    hide LocationOf, Fetch, Pow2;
    var r := a.live[k];
    assert InBlock(a.blockList, a.blockSizes, r);
    LocationRoundTrip(a.blockList, a.blockSize, a.lowBits, r.index, r.start);
  }

  /** Live regions whose locations fit have different ones. */
  lemma LiveLocationsDiffer(a: BlockedAllocator, k: nat, l: nat)
    requires a.Valid() && k < l < |a.live| && a.live[k].len > 0
    requires a.live[k].start < Pow2(a.lowBits) && a.live[l].start < Pow2(a.lowBits)
    requires a.live[l].index < Pow2(32 - a.lowBits)
    ensures LocationOf(a.lowBits, a.live[k].index, a.live[k].start)
      != LocationOf(a.lowBits, a.live[l].index, a.live[l].start)
  {
    hide LocationOf, Pow2, Fetch;
    var r, s := a.live[k], a.live[l];
    assert After(r, s);
    LocationSplit(a.lowBits, r.index, r.start);
    LocationSplit(a.lowBits, s.index, s.start);
  }

  /** Until SetBlockSize runs in location mode, only the first element of a block is found. */
  lemma UnconfiguredFindsFirst(a: BlockedAllocator, k: nat)
    requires a.Valid() && a.lowBits == 0 && k < |a.live| && a.live[k].len > 0
    ensures var r := a.live[k];
      a.Get(LocationOf(0, r.index, r.start)) == At(r.block, r.start) <==> r.start == 0 && r.index < WORD32
  {
    hide LocationOf, Fetch, Pow2;
    LiveRegionsFound(a, k);
    WordPower(0);
    FirstLocation();
  }

  /**
    Enabling locations does not by itself make them work: until SetBlockSize runs again the
    low bits stay 0, and the second element's location denotes nothing.
  */
  method EnablingIsNotEnough() returns (loc: nat, found: Address)
    ensures loc == 1 && found == Null
  {
    var a := new BlockedAllocator(4096, false);
    a.SetEnableLocationNew(true);
    var r0, loc0, ok0 := a.NewAt(1);
    var r1, ok1;
    r1, loc, ok1 := a.NewAt(1);
    assert r1.index == 0 && r1.start == 1 && |a.blockList| == 1;
    FirstLocation();
    found := a.Get(loc);
  }

  lemma FirstLocation()
    ensures LocationOf(0, 0, 1) == 1 && Pow2(0) == 1
  {
  }
}
