/**
  Whole runs of the hash table against a plain collection of distinct items. The collection
  does not know about slots, load factors or node representations.
*/
module HashRuns {
  import opened Bits
  import opened Allocator
  import opened HashChains
  import opened HashSpec
  import opened HashTable

  datatype Op<E> = Insert(item: E) | Clear | Reinit(slots: nat, load: real, useLocations: bool)

  ghost predicate Has<E>(comp: (E, E) -> int, s: seq<E>, x: E) {
    exists k :: 0 <= k < |s| && comp(s[k], x) == 0
  }

  ghost function Apply<E(!new)>(comp: (E, E) -> int, s: seq<E>, op: Op<E>): seq<E> {
    match op
    case Insert(x) => if Has(comp, s, x) then s else s + [x]
    case Clear => []
    case Reinit(_, _, _) => []
  }

  ghost function ApplyAll<E(!new)>(comp: (E, E) -> int, s: seq<E>, ops: seq<Op<E>>): seq<E> {
    if ops == [] then s else Apply(comp, ApplyAll(comp, s, ops[..|ops| - 1]), ops[|ops| - 1])
  }

  /** What an operation does to the representation: a table without slots restarts with pointers. */
  datatype Setup = Setup(mode: Mode, hasSlots: bool)

  function Next<E>(u: Setup, op: Op<E>): (v: Setup)
    ensures ModeOk(u.mode) ==> ModeOk(v.mode)
  {
    match op
    case Insert(_) => if u.hasSlots then u else Setup(Pointers, true)
    case Clear => Setup(u.mode, false)
    case Reinit(n, _, useLocations) => Setup(ModeFor(if n > 0 then n else DEFAULT_SLOTS, useLocations), true)
  }

  function NextAll<E>(u: Setup, ops: seq<Op<E>>): (v: Setup)
    ensures ModeOk(u.mode) ==> ModeOk(v.mode)
  {
    if ops == [] then u else Next(NextAll(u, ops[..|ops| - 1]), ops[|ops| - 1])
  }

  /** After the first i operations, the items fit the representation that is then in force. */
  ghost predicate FitsAfter<E(!new)>(comp: (E, E) -> int, s: seq<E>, u: Setup, ops: seq<Op<E>>, i: nat)
    requires ModeOk(u.mode) && i <= |ops|
  {
    Room(NextAll(u, ops[..i]).mode, |ApplyAll(comp, s, ops[..i])|)
  }

  // The setup that a table is in
  ghost function SetupOf<E(!new)>(t: Hashtable<E>): Setup
    reads t
  {
    Setup(t.mode, t.slotNum > 0)
  }

  method Step<E(!new)>(t: Hashtable<E>, op: Op<E>)
    requires t.Valid() && Room(Next(SetupOf(t), op).mode, |Apply(t.comp, t.data, op)|)
    modifies t
    ensures t.Valid() && t.data == Apply(t.comp, old(t.data), op) && SetupOf(t) == Next(old(SetupOf(t)), op)
  {
    hide ContentsOk, LinksOk, Lawful, Room, ModeOk, ModeFor;
    match op
    case Insert(x) =>
      var node := t.Insert(x);
    case Clear =>
      t.Clear();
    case Reinit(n, load, useLocations) =>
      t.Reinit(n, load, useLocations);
  }

  /**
    Every run of operations, in either node representation and whatever the load factors,
    leaves the table with exactly the items of the collection, as long as the items fit the
    representation in force, which HashChains.RoomIff shows to be exactly what the references
    need. With the contracts of Find, Size and CheckValid this settles what they answer after
    any run.
  */
  method Run<E(!new)>(t: Hashtable<E>, ops: seq<Op<E>>)
    requires t.Valid() && forall i :: 0 <= i <= |ops| ==> FitsAfter(t.comp, t.data, SetupOf(t), ops, i)
    modifies t
    ensures t.Valid() && t.data == ApplyAll(t.comp, old(t.data), ops) && SetupOf(t) == NextAll(old(SetupOf(t)), ops)
  {
    hide ContentsOk, LinksOk, Lawful, Room, ModeOk, Apply, Next;
    ghost var comp, s, u := t.comp, t.data, SetupOf(t);
    var i := 0;
    assert ops[..0] == [];
    while i < |ops|
      invariant 0 <= i <= |ops| && t.Valid()
      invariant t.data == ApplyAll(comp, s, ops[..i]) && SetupOf(t) == NextAll(u, ops[..i])
    {
      assert ops[..i + 1][..i] == ops[..i];
      assert FitsAfter(comp, s, u, ops, i + 1);
      Step(t, ops[i]);
      i := i + 1;
    }
    assert ops[..i] == ops;
  }

  // ---------------------------------------------------------------- how much fits

  /** Whatever the number of slots, 2^31 nodes fit. */
  lemma RoomBelow(n: nat, useLocations: bool, count: nat)
    requires count <= 0x8000_0000
    ensures Room(ModeFor(n, useLocations), count)
  {
    hide Pow2, Length;
    var m := ModeFor(n, useLocations);
    if m.Locations? {
      BlockBits(m.blockSize, m.low);
      HalfRange(m.low, m.blockSize);
      RoomCapacity(m, count);
    }
  }

  lemma HalfRange(low: nat, size: nat)
    requires 0 < low <= 32 && Pow2(low - 1) < size <= Pow2(low) && size <= 8192000
    ensures size < Pow2(low) ==> Pow2(32 - low) * size >= 0x8000_0000
    ensures size == Pow2(low) ==> (Pow2(32 - low) - 1) * size >= 0x8000_0000
  {
    hide Pow2;
    WordPower(low);
    Pow2Succ(low - 1);
    var h, n := Pow2(low - 1), Pow2(32 - low);
    assert n * (2 * h) == 2 * (n * h) && Pow2(low) * n == n * Pow2(low);
    MulMonotone(h, size, n);
    assert n * h == h * n && n * size == size * n;
    if size == Pow2(low) { assert (n - 1) * size == n * size - size; }
  }
}
