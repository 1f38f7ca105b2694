/** The queue's constructor: how many blocks it makes, and how large they are. */
module QueueConstructor {
  import opened Basics
  import opened Bits
  import opened Queue

  const WORD: nat := 0x1_0000_0000_0000_0000  // 2^64, the range of size_t

  // Unsigned arithmetic: a sum or difference of two words, wrapped into range
  function Wrap(x: int): (r: nat)
    requires -(WORD as int) <= x < 2 * WORD
    ensures r < WORD
  {
    if x < 0 then x + WORD else if x >= WORD then x - WORD else x
  }

  lemma WordIsPow2()
    ensures WORD == Pow2(64) && WORD / 2 == Pow2(63)
  {
    hide Pow2;
    PowerEight();
    Pow2Adds(8, 8);
    Pow2Adds(16, 16);
    Pow2Adds(32, 32);
    Pow2Succ(63);
  }

  // The bit length of a word decides whether rounding up overflows.
  lemma WordLength(x: nat)
    requires x < WORD
    ensures x >= WORD / 2 ==> Pow2(Length(x)) == WORD
    ensures x < WORD / 2 ==> Pow2(Length(x)) <= WORD / 2
  {
    WordIsPow2();
    LengthBound(x, 64);
    var n := Length(x);
    if x >= WORD / 2 {
      if n <= 63 { Pow2Monotone(n, 63); }
    } else {
      LengthBound(x, 63);
      Pow2Monotone(n, 63);
    }
  }

  ghost predicate LeastPow2(x: nat, r: nat) {
    IsPow2(r) && x <= r && forall k: nat :: x <= Pow2(k) ==> r <= Pow2(k)
  }

  // What `ceilToPow2` computes
  ghost function RoundedUp(size: nat): nat {
    if 1 <= size <= WORD / 2 then Pow2(Length(size - 1)) else 0
  }

  /** `ceilToPow2`, with the wrap-around of size_t at both ends. */
  method CeilToPow2(size: nat) returns (r: nat)
    requires size < WORD
    ensures r == RoundedUp(size)
    ensures 1 <= size <= WORD / 2 ==> LeastPow2(size, r)
    ensures size == 0 || size > WORD / 2 ==> r == 0
  {
    hide TopSet, BitOr, Shr, LeastPow2;
    var x: nat := Wrap(size - 1);
    ghost var n := Length(x);
    TopBit(x);
    Smear(x, n, 1);
    x := BitOr(x, Shr(x, 1));
    Smear(x, n, 2);
    x := BitOr(x, Shr(x, 2));
    Smear(x, n, 4);
    x := BitOr(x, Shr(x, 4));
    var i: nat := 1;
    while i < 8
      invariant i == 1 || i == 2 || i == 4 || i == 8
      invariant TopSet(x, n, 8 * i)
      decreases 8 - i
    {
      Smear(x, n, 8 * i);
      x := BitOr(x, Shr(x, 8 * i));
      i := 2 * i;
    }
    WordLength(Wrap(size - 1));
    TopAll(x, n, 64, Wrap(size - 1));
    r := Wrap(x + 1);
    Ceiling(size, r);
  }

  lemma TopAll(x: nat, n: nat, w: nat, x0: nat)
    requires x0 < WORD && n == Length(x0) && w == 64 && TopSet(x, n, w)
    ensures x + 1 == Pow2(n)
  {
    WordIsPow2();
    LengthBound(x0, 64);
    AllOnes(x, n);
  }

  lemma Ceiling(size: nat, r: nat)
    requires size < WORD && Pow2(Length(Wrap(size - 1))) <= WORD && r == Wrap(Pow2(Length(Wrap(size - 1))))
    ensures r == RoundedUp(size)
    ensures 1 <= size <= WORD / 2 ==> LeastPow2(size, r)
    ensures size == 0 || size > WORD / 2 ==> r == 0
  {
    WordLength(Wrap(size - 1));
    if 1 <= size <= WORD / 2 {
      assert Wrap(size - 1) == size - 1;
      var n := Length(size - 1);
      assert r == Pow2(n);
      RoundsUp(size);
    }
  }

  lemma RoundsUp(size: nat)
    requires 1 <= size <= WORD / 2
    ensures LeastPow2(size, RoundedUp(size))
  {
    var n := Length(size - 1);
    forall k: nat | size <= Pow2(k)
      ensures RoundedUp(size) <= Pow2(k)
    {
      if k < n { Pow2Monotone(k, n - 1); } else { Pow2Monotone(n, k); }
    }
  }

  // ---------------------------------------------------------------- the constructor

  ghost predicate ValidMax(max: nat) {
    2 <= max && 2 * max < WORD && IsPow2(max)
  }

  // `largestBlockSize` and `initialBlockCount` as the constructor computes them
  ghost function FirstBlockSize(size: nat, max: nat): nat
    requires size < WORD
  {
    var c := RoundedUp(Wrap(size + 1));
    if c > 2 * max then max else c
  }

  ghost function BlockCount(size: nat, max: nat): nat
    requires size < WORD && ValidMax(max)
  {
    if RoundedUp(Wrap(size + 1)) > 2 * max then Quotient(Wrap(size + 2 * max - 3), max - 1) else 1
  }

  // A ring of n empty blocks of the given size, whatever their uninitialised slots hold
  ghost predicate EmptyRing<T>(blocks: seq<Block<T>>, n: nat, size: nat) {
    && |blocks| == n
    && forall i :: 0 <= i < n ==>
         && blocks[i] == Block(0, 0, 0, 0, if i + 1 < n then i + 1 else 0, blocks[i].data)
         && |blocks[i].data| == size
  }

  /** The memory and `largestBlockSize` the constructor leaves behind, or None when it throws. */
  method Construct<T>(size: nat, max: nat, malloc: (nat, nat) -> Option<seq<T>>)
    returns (mem: Option<Mem<T>>, largest: nat)
    requires size < WORD && ValidMax(max)
    requires forall i, n :: malloc(i, n).Some? ==> |malloc(i, n).value| == n
    ensures largest == FirstBlockSize(size, max)
    ensures mem.Some? ==>
      && EmptyRing(mem.value.blocks, BlockCount(size, max), largest)
      && mem.value.frontBlock == 0 && mem.value.tailBlock == 0
    ensures mem.None? ==> exists i :: 0 <= i < BlockCount(size, max) && malloc(i, largest).None?
  {
    largest := CeilToPow2(Wrap(size + 1));
    if largest > max * 2 {
      var count := Quotient(Wrap(size + max * 2 - 3), max - 1);
      largest := max;
      var blocks: seq<Block<T>> := [];
      var i := 0;
      while i != count
        invariant 0 <= i <= count && EmptyRing(blocks, i, largest)
        decreases count - i
      {
        var data := malloc(i, largest);
        if data.None? { return None, largest; }
        if i > 0 { blocks := blocks[i - 1 := blocks[i - 1].(next := i)]; }
        blocks := blocks + [Block(0, 0, 0, 0, 0, data.value)];
        i := i + 1;
      }
      mem := Some(Mem(blocks, 0, 0));
    } else {
      var data := malloc(0, largest);
      if data.None? { return None, largest; }
      mem := Some(Mem([Block(0, 0, 0, 0, 0, data.value)], 0, 0));
    }
  }

  // ---------------------------------------------------------------- is there room for size elements?

  // Slots that stay usable when the block the consumer reads from cannot be written
  function Room(blocks: nat, least: nat): nat
    requires least > 0
  {
    (if blocks <= 1 then 1 else blocks - 1) * (least - 1)
  }

  lemma CeilingDivision(size: nat, d: nat, q: nat)
    requires d > 0 && size > 0 && q == Quotient(size + 2 * d - 1, d)
    ensures q >= 2 && (q - 1) * d >= size
  {
    DivMod(size + 2 * d - 1, d);
    assert q * d >= size + d;
    assert (q - 1) * d == q * d - d;
  }

  // Several blocks are made only for sizes that do not fit in two.
  lemma ManyBlocks(size: nat, max: nat)
    requires size < WORD / 2 && ValidMax(max) && RoundedUp(size + 1) > 2 * max
    ensures size + 1 > 2 * max
  {
    RoundsUp(size + 1);
    Doubled(max);
    var k: nat :| 2 * max == Pow2(k);
  }

  /** For every representable size the blocks made have room for size elements. */
  lemma RoomForSize(size: nat, max: nat)
    requires size < WORD / 2 && ValidMax(max)
    ensures FirstBlockSize(size, max) >= 1 && IsPow2(FirstBlockSize(size, max))
    ensures size >= 1 ==> FirstBlockSize(size, max) >= 2
    ensures BlockCount(size, max) >= 1
    ensures Room(BlockCount(size, max), FirstBlockSize(size, max)) >= size
  {
    hide RoundedUp, IsPow2;
    RoundsUp(size + 1);
    if RoundedUp(size + 1) > 2 * max {
      ManyBlocks(size, max);
      CeilingDivision(size, max - 1, BlockCount(size, max));
    }
  }

  /** Nor are the blocks made larger or more than that takes. */
  lemma NoSpareRoom(size: nat, max: nat)
    requires size < WORD / 2 && ValidMax(max)
    ensures size + 1 <= 2 * max ==> BlockCount(size, max) == 1 && LeastPow2(size + 1, FirstBlockSize(size, max))
    ensures size + 1 > 2 * max ==>
      FirstBlockSize(size, max) == max && 0 < size - (BlockCount(size, max) - 2) * (max - 1) <= max - 1
  {
    hide RoundedUp, IsPow2;
    RoundsUp(size + 1);
    Doubled(max);
    assert exists k: nat :: 2 * max == Pow2(k) by { PowerOf(2 * max); }
    if size + 1 > 2 * max { LeastCount(size, max - 1, BlockCount(size, max)); }
  }

  lemma PowerOf(n: nat)
    requires IsPow2(n)
    ensures exists k: nat :: n == Pow2(k)
  {
  }

  lemma LeastCount(size: nat, d: nat, q: nat)
    requires d > 0 && size > 0 && q == Quotient(size + 2 * d - 1, d)
    ensures 0 < size - (q - 2) * d <= d
  {
    DivMod(size + 2 * d - 1, d);
    assert (q - 2) * d == q * d - 2 * d;
  }

  /** Beyond half the range of size_t the rounding wraps, and the only block has no slot at all. */
  lemma NoRoomWhenWrapped(size: nat, max: nat)
    requires WORD / 2 <= size < WORD && ValidMax(max)
    ensures FirstBlockSize(size, max) == 0 && BlockCount(size, max) == 1
  {
  }
}
