/**
  The hash table. One body stands for the pointer and the location branch of each operation:
  they differ only in how a reference is followed.
*/
module HashTable {
  import opened Basics
  import opened Bits
  import opened Allocator
  import opened HashChains
  import opened HashSpec
  import opened HashRehash

  const DEFAULT_SLOTS: nat := 8

  function HeapBlockSize(n: nat): nat { if n <= 32 then 32 else if n <= 8192000 then n else 8192000 }

  /** The number of slots, kept between 32 and 8192000. */
  lemma HeapBlocks(n: nat)
    ensures 32 <= HeapBlockSize(n) <= 8192000 && (32 <= n <= 8192000 ==> HeapBlockSize(n) == n)
    ensures (n < 32 ==> HeapBlockSize(n) == 32) && (n > 8192000 ==> HeapBlockSize(n) == 8192000)
  {
  }

  /** The node representation of a table of n slots: the heap's block size follows the slots. */
  function ModeFor(n: nat, useLocations: bool): (m: Mode)
    ensures ModeOk(m)
  {
    if useLocations then
      var size := HeapBlockSize(n);
      var low := Length(size - 1);
      BlockBits(size, low);
      Locations(size, low)
    else Pointers
  }

  lemma BlockBits(size: nat, low: nat)
    requires 32 <= size <= 8192000 && low == Length(size - 1)
    ensures low <= 32 && size <= Pow2(low) && low > 0 && Pow2(low - 1) < size
  {
    hide Pow2, Length;
    WordPower(0);
    LengthBound(size - 1, 32);
    LengthParts(size - 1);
  }

  lemma LengthParts(x: nat)
    requires x > 0
    ensures Length(x) > 0 && Pow2(Length(x) - 1) <= x < Pow2(Length(x))
  {
  }

  class Hashtable<E(!new)> {
    const comp: (E, E) -> int
    const hash: E -> nat
    var data: seq<E>         // the nodes' items, in the order of insertion
    var links: seq<nat>      // the nodes' next fields
    var slots: seq<Slot>
    var slotNum: nat
    var itemNum: nat
    var maxLoad: real
    var mode: Mode
    ghost var chains: seq<seq<nat>>

    ghost predicate Shape()
      reads this
    {
      && ModeOk(mode) && Room(mode, |data|) && |links| == |data| && |slots| == |chains|
    }

    ghost predicate Valid()
      reads this
    {
      && Lawful(comp, hash) && Shape() && slotNum == |slots| && itemNum == |data|
      && LinksOk(mode, links, slots, chains) && ContentsOk(comp, hash, data, chains)
    }

    constructor (comp: (E, E) -> int, hash: E -> nat, slots0: nat, load: real, useLocations: bool)
      requires Lawful(comp, hash)
      ensures this.comp == comp && this.hash == hash && Valid() && data == []
      ensures slotNum == (if slots0 > 0 then slots0 else DEFAULT_SLOTS) && mode == ModeFor(slotNum, useLocations)
    {
      this.comp, this.hash := comp, hash;
      itemNum, slotNum, maxLoad, mode := 0, 0, 0.0, Pointers;
      data, links, slots, chains := [], [], [], [];
      new;
      Reinit(slots0, load, useLocations);
    }

    /** An item equal to x is stored. */
    ghost predicate Contains(x: E)
      reads this
    {
      exists k :: 0 <= k < |data| && comp(data[k], x) == 0
    }

    function Follow(ref: nat): int
      reads this
      requires ModeOk(mode)
    {
      Deref(mode, |data|, ref)
    }

    // Following the i-th reference of a chain
    lemma FollowRef(c: seq<nat>, i: nat)
      requires Shape() && i <= |c| && forall j :: 0 <= j < |c| ==> c[j] < |data|
      ensures Follow(RefAt(mode, c, i)) == if i < |c| then c[i] else -1
    {
      if i < |c| { DerefRef(mode, |data|, c[i]); } else { DerefNull(mode, |data|); }
    }

    /** `Find`: the node of an equal item, or -1 (the end iterator). */
    method Find(item: E) returns (node: int)
      requires Valid()
      ensures node >= 0 <==> Contains(item)
      ensures node >= 0 ==> node < |data| && comp(data[node], item) == 0
    {
      hide Lawful, Ref, Deref, ContentsOk, Home;
      if slotNum == 0 {
        NoItems(comp, hash, data, chains);
        return -1;
      }
      var s := Home(hash, item, slotNum);
      ghost var c := chains[s];
      assert SlotOk(mode, links, slots[s], c);
      node := Follow(slots[s].first);
      FollowRef(c, 0);
      ghost var j := 0;
      while node != -1
        invariant 0 <= j <= |c| && node == if j < |c| then c[j] else -1
        invariant forall i :: 0 <= i < j ==> comp(data[c[i]], item) != 0
        decreases |c| - j
      {
        if comp(data[node], item) == 0 {
          return;
        }
        FollowRef(c, j + 1);
        node := Follow(links[node]);
        j := j + 1;
      }
      forall k | 0 <= k < |data|
        ensures comp(data[k], item) != 0
      {
        if comp(data[k], item) == 0 { LookInHome(comp, hash, data, chains, item, k); }
      }
    }

    /** `Size`. */
    method Size() returns (n: nat)
      requires Valid()
      ensures n == |data|
    {
      n := itemNum;
    }

    method Clear()
      requires Lawful(comp, hash) && ModeOk(mode)
      modifies this
      ensures Valid() && data == [] && slotNum == 0 && mode == old(mode) && maxLoad == old(maxLoad)
    {
      hide Lawful;
      slots, chains, slotNum, itemNum := [], [], 0, 0;
      data, links := [], [];
      EmptyTable(comp, hash, mode, slots, chains);
    }

    /** `Reinit`: empty, with the requested number of slots and node representation. */
    method Reinit(slots0: nat, load: real, useLocations: bool)
      requires Lawful(comp, hash) && ModeOk(mode)
      modifies this
      ensures Valid() && data == []
      ensures slotNum == (if slots0 > 0 then slots0 else DEFAULT_SLOTS) && mode == ModeFor(slotNum, useLocations)
      ensures maxLoad == if load < 0.25 then 0.25 else load
    {
      hide Lawful, Pow2, ContentsOk, LinksOk, Room, ModeOk, ModeFor;
      Clear();
      slotNum := if slots0 > 0 then slots0 else DEFAULT_SLOTS;
      maxLoad := if load < 0.25 then 0.25 else load;
      mode := ChooseMode(slotNum, useLocations);
      var empty := Slot(0, NullRef(mode));
      slots := seq(slotNum, _ => empty);
      chains := seq(slotNum, _ => []);
      EmptyTable(comp, hash, mode, slots, chains);
    }

    // The node heap's block size follows the number of slots.
    static method ChooseMode(n: nat, useLocations: bool) returns (m: Mode)
      ensures m == ModeFor(n, useLocations)
    {
      hide Pow2, Length;
      if useLocations {
        var size := HeapBlockSize(n);
        var low := BlockedAllocator.BitsFor(size);
        m := Locations(size, low);
      } else {
        m := Pointers;
      }
    }

    /**
      `CheckValid`, on any table whose slots hold chains: it accepts exactly the right counts.
    */
    method CheckValid() returns (ok: bool)
      requires Shape() && slotNum == |slots|
      requires forall s :: 0 <= s < |slots| ==> ChainOk(mode, links, slots[s].first, chains[s])
      ensures ok <==> (forall s :: 0 <= s < |slots| ==> slots[s].size == |chains[s]|) && Total(chains) == itemNum
    {
      hide Ref, Deref;
      var total, s := 0, 0;
      while s < slotNum
        invariant 0 <= s <= slotNum
        invariant forall t :: 0 <= t < s ==> slots[t].size == |chains[t]|
        invariant total == Total(chains[..s])
      {
        var size := CountSlot(s);
        if size != slots[s].size {
          return false;
        }
        total := total + slots[s].size;
        assert chains[..s + 1][..s] == chains[..s];
        s := s + 1;
      }
      assert chains[..s] == chains;
      ok := total == itemNum;
    }

    // The inner loop of CheckValid; it stops early, with a count that will not match, when the
    // chain goes on past the recorded size.
    method CountSlot(s: nat) returns (size: nat)
      requires Shape() && s < |slots| && ChainOk(mode, links, slots[s].first, chains[s])
      ensures size == slots[s].size <==> slots[s].size == |chains[s]|
    {
      hide Ref, Deref;
      ghost var c := chains[s];
      size := 0;
      FollowRef(c, 0);
      var node := Follow(slots[s].first);
      while node != -1
        invariant size <= |c| && node == (if size < |c| then c[size] else -1)
        invariant size != 0 && size == slots[s].size ==> size == |c|
        decreases |c| - size
      {
        FollowRef(c, size + 1);
        size := size + 1;
        node := Follow(links[node]);
        if size == slots[s].size && node != -1 {
          return size + 1;
        }
      }
    }

    // Where item belongs in slot s's chain: after `pre` (-1 for the front), before `next`.
    method FindPlace(item: E, s: nat) returns (dup: bool, pre: int, next: nat, ghost p: nat, ghost w: nat)
      requires Valid() && s < |slots|
      ensures p <= |chains[s]| && next == RefAt(mode, chains[s], p) && pre == if p == 0 then -1 else chains[s][p - 1]
      ensures forall i :: 0 <= i < |chains[s]| ==> chains[s][i] < |data|
      ensures dup ==> w < |chains[s]| && comp(item, data[chains[s][w]]) == 0
      ensures !dup ==> forall i :: 0 <= i < p ==> comp(item, data[chains[s][i]]) > 0
      ensures !dup && p < |chains[s]| ==> comp(item, data[chains[s][p]]) < 0
    {
      hide Lawful, Ref, Deref, ContentsOk, RefAt;
      ghost var c := chains[s];
      assert SlotOk(mode, links, slots[s], c);
      FollowRef(c, 0);
      dup, pre, next, p, w := false, -1, slots[s].first, 0, 0;
      var node := Follow(next);
      if node == -1 {
        return;
      }
      var cmp := comp(item, data[node]);
      dup := cmp == 0;
      if cmp > 0 {
        FollowRef(c, 1);
        pre, next, p := node, links[node], 1;
        node := Follow(next);
        while node != -1
          invariant 1 <= p <= |c| && next == RefAt(mode, c, p)
          invariant node == (if p < |c| then c[p] else -1) && pre == c[p - 1]
          invariant dup ==> w < |c| && comp(item, data[c[w]]) == 0
          invariant !dup ==> forall i :: 0 <= i < p ==> comp(item, data[c[i]]) > 0
          decreases |c| - p
        {
          cmp := comp(item, data[node]);
          if cmp < 0 {
            break;
          } else if cmp == 0 {
            dup, w := true, p;
          }
          FollowRef(c, p + 1);
          pre, next := node, links[node];
          node, p := Follow(next), p + 1;
        }
      }
    }

    // ---------------------------------------------------------------- rehashing

    // Nodes outside c keep their links.
    twostate predicate OnlyRelinks(c: seq<nat>)
      reads this
    {
      |links| == |old(links)| && forall k :: 0 <= k < |links| && k !in c ==> links[k] == old(links)[k]
    }

    // The first inner loop of AddSlots: takes the nodes that leave slot s out of its chain.
    method Detach(s: nat, ghost c: seq<nat>) returns (move: nat)
      requires Shape() && s < |slots| && slotNum > 0
      requires SlotOk(mode, links, slots[s], c) && Distinct(c) && forall i :: 0 <= i < |c| ==> c[i] < |data|
      modifies this`links, this`slots
      ensures Shape() && slots == old(slots)[s := slots[s]] && OnlyRelinks(c)
      ensures SlotOk(mode, links, slots[s], Picked(hash, data, c, slotNum, s, true))
      ensures ChainOk(mode, links, move, Reverse(Picked(hash, data, c, slotNum, s, false)))
    {
      hide Ref, Deref, Picked, ChainOk, Splitting;
      move := NullRef(mode);
      SplittingStart(mode, links, slots[s], hash, data, c, slotNum, s);
      FollowRef(c, 0);
      var ref, node, pre := slots[s].first, Follow(slots[s].first), -1;
      ghost var j := 0;
      ghost var kept: seq<nat> := [];
      while node != -1
        invariant 0 <= j <= |c| && Shape() && slots == old(slots)[s := slots[s]] && OnlyRelinks(c)
        invariant ref == RefAt(mode, c, j) && node == if j < |c| then c[j] else -1
        invariant kept == Picked(hash, data, c[..j], slotNum, s, true)
        invariant pre == if kept == [] then -1 else kept[|kept| - 1]
        invariant Splitting(mode, links, slots[s], move, hash, data, c, slotNum, s, j)
        decreases |c| - j
      {
        var newSlot := Home(hash, data[node], slotNum);
        NextLink(mode, links, slots[s], move, hash, data, c, slotNum, s, j);
        PickedNext(hash, data, c, slotNum, s, j, true);
        FollowRef(c, j + 1);
        if newSlot == s {
          SplittingStay(mode, links, slots[s], move, hash, data, c, slotNum, s, j);
          pre, ref := node, links[node];
          kept := kept + [node];
        } else {
          SplittingMove(mode, links, slots[s], move, hash, data, c, slotNum, s, j);
          if pre == -1 {
            slots := slots[s := slots[s].(first := links[node])];
          } else {
            links := links[pre := links[node]];
          }
          slots := slots[s := slots[s].(size := slots[s].size - 1)];
          var rest := links[node];
          links := links[node := move];
          move, ref := ref, rest;
        }
        node := Follow(ref);
        j := j + 1;
      }
      SplittingEnd(mode, links, slots[s], move, hash, data, c, slotNum, s);
    }

    // The second inner loop: moves the detached nodes to slot s + n, which is empty.
    method Attach(s: nat, n: nat, move0: nat, ghost c: seq<nat>)
      requires Shape() && s < n && slotNum == 2 * n == |slots| && Distinct(c) && Homed(hash, data, c, n, s)
      requires ChainOk(mode, links, move0, Reverse(Picked(hash, data, c, slotNum, s, false)))
      requires SlotOk(mode, links, slots[s + n], [])
      modifies this`links, this`slots
      ensures Shape() && slots == old(slots)[s + n := slots[s + n]]
      ensures OnlyRelinks(Picked(hash, data, c, slotNum, s, false))
      ensures SlotOk(mode, links, slots[s + n], Picked(hash, data, c, slotNum, s, false))
    {
      hide Ref, Deref, Picked, ChainOk, Attaching, Homed, SlotOk;
      ghost var moved := Picked(hash, data, c, slotNum, s, false);
      ghost var i := |moved|;
      PickedDistinct(hash, data, c, slotNum, s, false);
      AttachingStart(mode, links, slots[s + n], move0, moved);
      var move := move0;
      AttachingHead(mode, links, slots[s + n], move, moved, i);
      MovedInRange(moved, c, n, s);
      FollowMoved(moved, i);
      var node := Follow(move);
      while node != -1
        invariant 0 <= i <= |moved| && Shape() && slots == old(slots)[s + n := slots[s + n]] && OnlyRelinks(moved)
        invariant Attaching(mode, links, slots[s + n], move, moved, i)
        invariant node == if i > 0 then moved[i - 1] else -1
        decreases i
      {
        AttachingStep(mode, links, slots[s + n], move, moved, i);
        var temp, ref := node, move;
        move := links[node];
        var newSlot := Home(hash, data[temp], slotNum);
        assert newSlot == s + n by { MovedHome(hash, data, c, n, s, temp); }
        links := links[temp := slots[newSlot].first];
        slots := slots[newSlot := Slot(slots[newSlot].size + 1, ref)];
        i := i - 1;
        AttachingHead(mode, links, slots[s + n], move, moved, i);
        FollowMoved(moved, i);
        node := Follow(move);
      }
      AttachingEnd(mode, links, slots[s + n], move, moved);
    }

    lemma MovedInRange(moved: seq<nat>, c: seq<nat>, n: nat, s: nat)
      requires n > 0 && Homed(hash, data, c, n, s) && moved == Picked(hash, data, c, 2 * n, s, false)
      ensures forall j :: 0 <= j < |moved| ==> moved[j] < |data|
    {
      hide Picked, Homed;
      forall j | 0 <= j < |moved| ensures moved[j] < |data| {
        assert moved[j] in moved;
        MovedHome(hash, data, c, n, s, moved[j]);
      }
    }

    lemma FollowMoved(moved: seq<nat>, i: nat)
      requires Shape() && i <= |moved| && forall j :: 0 <= j < |moved| ==> moved[j] < |data|
      ensures Follow(if i > 0 then Ref(mode, moved[i - 1]) else NullRef(mode)) == if i > 0 then moved[i - 1] else -1
    {
      if i > 0 { DerefRef(mode, |data|, moved[i - 1]); } else { DerefNull(mode, |data|); }
    }

    // One round of AddSlots' outer loop
    method SplitSlot(s: nat, n: nat)
      requires Lawful(comp, hash) && Shape() && s < n && slotNum == 2 * n == |slots|
      requires LinksOk(mode, links, slots, chains) && chains[s + n] == []
      requires ContentOk(comp, hash, data, chains[s], n, s)
      requires forall t, k :: 0 <= t < |chains| && t != s && k in chains[t] ==> k !in chains[s]
      modifies this`links, this`slots, this`chains
      ensures Shape() && |slots| == 2 * n && LinksOk(mode, links, slots, chains)
      ensures chains == old(chains)[s := Picked(hash, data, old(chains)[s], 2 * n, s, true)]
                                   [s + n := Picked(hash, data, old(chains)[s], 2 * n, s, false)]
    {
      hide Lawful, Ref, Deref, Picked, ChainOk, Sorted, SlotOk;
      ghost var c, links0, slots0 := chains[s], links, slots;
      ghost var stay, leave := Picked(hash, data, c, 2 * n, s, true), Picked(hash, data, c, 2 * n, s, false);
      SortedDistinct(comp, hash, data, c);
      assert SlotOk(mode, links, slots[s], c);
      var move := Detach(s, c);
      assert SlotOk(mode, links, slots[s + n], []) by {
        OtherSlots(mode, hash, data, links0, links, slots[s + n], c, []);
      }
      ghost var links1, slots1 := links, slots;
      Attach(s, n, move, c);
      forall k | k in stay ensures k !in leave {
        PickedMembers(hash, data, c, 2 * n, s, true, k);
        PickedMembers(hash, data, c, 2 * n, s, false, k);
      }
      OtherSlots(mode, hash, data, links1, links, slots[s], leave, stay);
      forall k | k in leave ensures k in c { PickedMembers(hash, data, c, 2 * n, s, false, k); }
      forall t | 0 <= t < |slots| && t != s && t != s + n
        ensures SlotOk(mode, links, slots[t], chains[t])
      {
        assert SlotOk(mode, links0, slots0[t], chains[t]);
        OtherSlots(mode, hash, data, links0, links, slots[t], c, chains[t]);
      }
      chains := chains[s := stay][s + n := leave];
    }

    /**
      `AddSlots`: twice the slots, the same items. Slot s keeps the items whose hash still says
      s; the others go, in the same order, to slot s + n, which was empty.
    */
    method AddSlots()
      requires Valid()
      modifies this`links, this`slots, this`chains, this`slotNum
      ensures Valid() && slotNum == 2 * old(slotNum)
      ensures chains == Split(hash, data, old(chains), old(slotNum))
    {
      hide Lawful, Ref, Deref, Picked, ChainOk, ContentsOk, ContentOk, LinksOk, Split;
      var n := slotNum;
      ghost var chains0 := chains;
      slotNum := 2 * n;
      var empty := Slot(0, NullRef(mode));
      GrowSlots(mode, links, hash, data, slots, chains, seq(n, _ => empty));
      slots := slots + seq(n, _ => empty);
      chains := Split(hash, data, chains, 0);
      var s := 0;
      while s < n
        invariant 0 <= s <= n && Shape() && |slots| == 2 * n == slotNum && LinksOk(mode, links, slots, chains)
        invariant chains == Split(hash, data, chains0, s)
      {
        ReadyToSplit(comp, hash, data, chains0, s);
        SplitStep(hash, data, chains0, s);
        SplitSlot(s, n);
        s := s + 1;
      }
      SplitContents(comp, hash, data, chains0);
    }

    // The load factor has been reached.
    predicate Overloaded()
      reads this
    {
      itemNum as real >= maxLoad * slotNum as real
    }

    /** That is, there are at least maxLoad items per slot. */
    lemma LoadReached()
      requires slotNum > 0
      ensures Overloaded() <==> itemNum as real / slotNum as real >= maxLoad
    {
      var n, q := slotNum as real, itemNum as real / slotNum as real;
      assert itemNum as real == q * n;
      if q >= maxLoad { assert (q - maxLoad) * n >= 0.0; } else { assert (maxLoad - q) * n > 0.0; }
    }

    // The start of Insert: more slots under load, a new table where there is none.
    method MakeRoom()
      requires Valid()
      modifies this
      ensures Valid() && data == old(data) && slotNum > 0
      ensures mode == if old(slotNum) == 0 then Pointers else old(mode)
      ensures maxLoad == if old(slotNum) == 0 then 1.5 else old(maxLoad)
      ensures slotNum == if old(slotNum) == 0 then 8
                         else if old(Overloaded()) then 2 * old(slotNum) else old(slotNum)
    {
      hide Lawful, Ref, Deref, ChainOk, ContentsOk, ContentOk, LinksOk, Split, Room, Overloaded;
      if Overloaded() {
        AddSlots();
      }
      if slotNum == 0 {
        NoItems(comp, hash, data, chains);
        Reinit(0, 1.5, false);
      }
    }

    /**
      `Insert`: an equal item leaves the table's items as they are and yields the end iterator;
      otherwise the item is stored in a new node. A table without slots is first set up afresh,
      with pointers.
    */
    method Insert(item: E) returns (node: int)
      requires Valid() && (slotNum > 0 && !Contains(item) ==> Room(mode, |data| + 1))
      modifies this
      ensures Valid()
      ensures old(Contains(item)) ==> node == -1 && data == old(data)
      ensures !old(Contains(item)) ==> node == |old(data)| && data == old(data) + [item]
      ensures mode == if old(slotNum) == 0 then Pointers else old(mode)
      ensures maxLoad == if old(slotNum) == 0 then 1.5 else old(maxLoad)
      ensures slotNum == if old(slotNum) == 0 then 8
                         else if old(Overloaded()) then 2 * old(slotNum) else old(slotNum)
    {
      hide Lawful, Ref, Deref, Picked, ChainOk, ContentsOk, ContentOk, LinksOk, Split, Room, Home, Overloaded;
      MakeRoom();
      if old(slotNum) == 0 { PointerRoom(mode, |data| + 1); }
      var s := Home(hash, item, slotNum);
      var dup, pre, next;
      ghost var p, w;
      dup, pre, next, p, w := FindPlace(item, s);
      DupIsContained(item, s, dup, p, w);
      if dup {
        return -1;
      }
      node := Splice(item, s, pre, next, p);
    }

    lemma DupIsContained(item: E, s: nat, dup: bool, p: nat, w: nat)
      requires Valid() && slotNum > 0 && s == Home(hash, item, slotNum)
      requires p <= |chains[s]| && forall i :: 0 <= i < |chains[s]| ==> chains[s][i] < |data|
      requires dup ==> w < |chains[s]| && comp(item, data[chains[s][w]]) == 0
      requires !dup ==> forall i :: 0 <= i < p ==> comp(item, data[chains[s][i]]) > 0
      requires !dup && p < |chains[s]| ==> comp(item, data[chains[s][p]]) < 0
      ensures dup <==> Contains(item)
    {
      hide Lawful, Ref, ChainOk, ContentsOk, LinksOk, Home;
      var c := chains[s];
      ContentAt(comp, hash, data, chains, s);
      if dup {
        Converse(comp, hash, item, data[c[w]]);
      } else {
        NoneBeyond(comp, hash, data, c, p, item);
        if Contains(item) {
          var k :| 0 <= k < |data| && comp(data[k], item) == 0;
          LookInHome(comp, hash, data, chains, item, k);
        }
      }
    }

    // Stores item in a new node between `pre` and `next`.
    method Splice(item: E, s: nat, pre: int, next: nat, ghost p: nat) returns (node: int)
      requires Valid() && slotNum > 0 && s == Home(hash, item, slotNum) && Room(mode, |data| + 1)
      requires p <= |chains[s]| && next == RefAt(mode, chains[s], p) && pre == if p == 0 then -1 else chains[s][p - 1]
      requires forall i :: 0 <= i < |chains[s]| ==> chains[s][i] < |data|
      requires forall i :: 0 <= i < p ==> comp(item, data[chains[s][i]]) > 0
      requires p < |chains[s]| ==> comp(item, data[chains[s][p]]) < 0
      modifies this`data, this`links, this`slots, this`chains, this`itemNum
      ensures Valid() && node == |old(data)| && data == old(data) + [item]
    {
      hide Lawful, Ref, RefAt, Deref, ChainOk, ContentsOk, LinksOk, Room, ModeOk, Home, Spliced;
      ghost var c, x := chains[s], |data|;
      ghost var d := c[..p] + [x] + c[p..];
      node := |data|;
      assert Spliced(c, p, x, d) by { SpliceAt(c, p, x); }
      ChainInserted(comp, hash, data, chains, s, p, d, item);
      LinksInsert(mode, comp, hash, data, links, slots, chains, s, p, d);
      var links', slot := links + [next], slots[s];
      if pre == -1 {
        slot := slot.(first := Ref(mode, node));
      } else {
        links' := links'[pre := Ref(mode, node)];
      }
      data, links := data + [item], links';
      slots := slots[s := slot.(size := slot.size + 1)];
      itemNum := itemNum + 1;
      chains := chains[s := d];
    }
  }

  lemma ContentAt<E>(comp: (E, E) -> int, hash: E -> nat, data: seq<E>, chains: seq<seq<nat>>, s: nat)
    requires ContentsOk(comp, hash, data, chains) && s < |chains|
    ensures ContentOk(comp, hash, data, chains[s], |chains|, s)
  {
  }

  lemma NoBlocks(size: nat, low: nat)
    requires size > 0 && low <= 32
    ensures BlocksFor(0, size) < Pow2(32 - low)
  {
    hide Pow2;
    ModUnique(size - 1, size, 0, size - 1);
  }

  lemma EmptyTable<E>(comp: (E, E) -> int, hash: E -> nat, m: Mode, slots: seq<Slot>, chains: seq<seq<nat>>)
    requires ModeOk(m) && |slots| == |chains|
    requires forall s :: 0 <= s < |slots| ==> slots[s] == Slot(0, NullRef(m)) && chains[s] == []
    ensures Room(m, 0) && LinksOk(m, [], slots, chains) && ContentsOk(comp, hash, [], chains)
  {
    hide Ref, BlocksFor, Pow2, Home;
    NoNodes(chains);
    if m.Locations? { NoBlocks(m.blockSize, m.low); }
    EmptyLinks(m, slots, chains);
  }

  lemma EmptyLinks(m: Mode, slots: seq<Slot>, chains: seq<seq<nat>>)
    requires ModeOk(m) && |slots| == |chains|
    requires forall s :: 0 <= s < |slots| ==> slots[s] == Slot(0, NullRef(m)) && chains[s] == []
    ensures LinksOk(m, [], slots, chains)
  {
    hide Ref, Pow2;
    forall s | 0 <= s < |slots| ensures SlotOk(m, [], slots[s], chains[s]) {
      assert slots[s] == Slot(0, NullRef(m)) && chains[s] == [];
    }
  }

  lemma NoItems<E>(comp: (E, E) -> int, hash: E -> nat, data: seq<E>, chains: seq<seq<nat>>)
    requires ContentsOk(comp, hash, data, chains) && chains == []
    ensures data == []
  {
    assert Total([]) == 0;
  }

  lemma PointerRoom(m: Mode, count: nat)
    requires m.Pointers?
    ensures Room(m, count)
  {
  }

  lemma SpliceAt(c: seq<nat>, p: nat, x: nat)
    requires p <= |c|
    ensures Spliced(c, p, x, c[..p] + [x] + c[p..])
  {
  }

  lemma ChainInserted<E(!new)>(comp: (E, E) -> int, hash: E -> nat, data: seq<E>, chains: seq<seq<nat>>, s: nat,
                        p: nat, d: seq<nat>, x: E)
    requires Lawful(comp, hash) && ContentsOk(comp, hash, data, chains) && s < |chains| && Home(hash, x, |chains|) == s
    requires Spliced(chains[s], p, |data|, d) && forall i :: 0 <= i < |chains[s]| ==> chains[s][i] < |data|
    requires forall i :: 0 <= i < p ==> comp(x, data[chains[s][i]]) > 0
    requires p < |chains[s]| ==> comp(x, data[chains[s][p]]) < 0
    ensures ContentsOk(comp, hash, data + [x], chains[s := d])
  {
    hide Lawful, Home, Spliced, ContentsOk;
    SplicedPosition(chains[s], p, |data|, d);
    ContentAt(comp, hash, data, chains, s);
    SortedInsert(comp, hash, data, chains[s], p, d, x);
    HomedInsert(hash, data, chains[s], p, d, x, |chains|, s);
    ContentsInsert(comp, hash, data, chains, s, p, d, x);
  }

  lemma SplicedPosition(c: seq<nat>, p: nat, x: nat, d: seq<nat>)
    requires Spliced(c, p, x, d)
    ensures p <= |c|
  {
  }

  lemma LinksInsert<E(!new)>(m: Mode, comp: (E, E) -> int, hash: E -> nat, data: seq<E>, links: seq<nat>,
                      slots: seq<Slot>, chains: seq<seq<nat>>, s: nat, p: nat, d: seq<nat>)
    requires ModeOk(m) && Lawful(comp, hash) && ContentsOk(comp, hash, data, chains) && LinksOk(m, links, slots, chains)
    requires |links| == |data| && s < |chains| == |slots| && Spliced(chains[s], p, |links|, d)
    ensures p <= |chains[s]| && (p > 0 ==> chains[s][p - 1] < |links|)
    ensures
      var next, ref := RefAt(m, chains[s], p), Ref(m, |links|);
      var first := if p == 0 then ref else slots[s].first;
      var links' := if p == 0 then links + [next] else (links + [next])[chains[s][p - 1] := ref];
      LinksOk(m, links', slots[s := Slot(slots[s].size + 1, first)], chains[s := d])
  {
    hide Lawful, Ref, RefAt, ContentsOk, Home;
    var c := chains[s];
    ContentAt(comp, hash, data, chains, s);
    SortedDistinct(comp, hash, data, c);
    assert SlotOk(m, links, slots[s], c);
    var next := RefAt(m, c, p);
    var links' := links + [next];
    if p == 0 {
      ChainInsertFirst(m, links, slots[s].first, c, d);
    } else {
      ChainInsert(m, links, slots[s].first, c, p, d);
      links' := links'[c[p - 1] := Ref(m, |links|)];
    }
    forall t | 0 <= t < |slots| && t != s
      ensures SlotOk(m, links', slots[t], chains[t])
    {
      assert SlotOk(m, links, slots[t], chains[t]);
      ContentAt(comp, hash, data, chains, t);
      Strangers(hash, data, c, chains[t], |chains|, s, t);
      assert p > 0 ==> c[p - 1] in c;
      ChainAgree(m, links, links', slots[t].first, chains[t]);
    }
  }

  lemma GrowSlots<E>(m: Mode, links: seq<nat>, hash: E -> nat, data: seq<E>, slots: seq<Slot>,
                     chains: seq<seq<nat>>, more: seq<Slot>)
    requires ModeOk(m) && LinksOk(m, links, slots, chains) && |more| == |chains|
    requires forall t :: 0 <= t < |more| ==> more[t] == Slot(0, NullRef(m))
    ensures |slots| == |chains| && |Split(hash, data, chains, 0)| == 2 * |chains|
    ensures LinksOk(m, links, slots + more, Split(hash, data, chains, 0))
  {
    hide Ref, Picked;
    var all, z := slots + more, Split(hash, data, chains, 0);
    forall t | 0 <= t < |all|
      ensures SlotOk(m, links, all[t], z[t])
    {
      if t < |slots| { assert SlotOk(m, links, slots[t], chains[t]); }
    }
  }

  lemma ReadyToSplit<E>(comp: (E, E) -> int, hash: E -> nat, data: seq<E>, chains: seq<seq<nat>>, s: nat)
    requires ContentsOk(comp, hash, data, chains) && s < |chains|
    ensures var n, z := |chains|, Split(hash, data, chains, s);
      && |z| == 2 * n && z[s] == chains[s] && z[s + n] == [] && ContentOk(comp, hash, data, z[s], n, s)
      && forall t, k :: 0 <= t < |z| && t != s && k in z[t] ==> k !in z[s]
  {
    hide Picked, ContentsOk, ContentOk;
    ContentAt(comp, hash, data, chains, s);
    var z := Split(hash, data, chains, s);
    forall t, k | 0 <= t < |z| && t != s && k in z[t]
      ensures k !in z[s]
    {
      if t != s + |chains| { SplitStrangers(comp, hash, data, chains, s, t, k); }
    }
  }
}
