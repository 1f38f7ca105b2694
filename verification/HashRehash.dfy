/**
  Doubling the slots, as a function on chains: the chain of slot s splits into the items that
  stay and the items that move to slot s + n, each in their old order.
*/
module HashRehash {
  import opened Basics
  import opened Bits
  import opened Allocator
  import opened HashChains
  import opened HashSpec

  predicate Stays<E>(hash: E -> nat, data: seq<E>, k: nat, n: nat, s: nat) {
    n > 0 && k < |data| && Home(hash, data[k], n) == s
  }

  // The nodes of c that stay in slot s of n, or those that leave it
  function Picked<E>(hash: E -> nat, data: seq<E>, c: seq<nat>, n: nat, s: nat, stay: bool): seq<nat> {
    if c == [] then []
    else
      var r, k := Picked(hash, data, c[..|c| - 1], n, s, stay), c[|c| - 1];
      if Stays(hash, data, k, n, s) == stay then r + [k] else r
  }

  function Reverse(c: seq<nat>): seq<nat> {
    if c == [] then [] else [c[|c| - 1]] + Reverse(c[..|c| - 1])
  }

  lemma {:induction false} ReverseMembers(c: seq<nat>, k: nat)
    ensures k in Reverse(c) <==> k in c
  {
    if c != [] {
      ReverseMembers(c[..|c| - 1], k);
      assert c == c[..|c| - 1] + [c[|c| - 1]];
    }
  }

  lemma {:induction false} PickedMembers<E>(hash: E -> nat, data: seq<E>, c: seq<nat>, n: nat, s: nat, stay: bool,
                                            k: nat)
    ensures k in Picked(hash, data, c, n, s, stay) <==> k in c && Stays(hash, data, k, n, s) == stay
  {
    if c != [] {
      PickedMembers(hash, data, c[..|c| - 1], n, s, stay, k);
      assert c == c[..|c| - 1] + [c[|c| - 1]];
    }
  }

  lemma {:induction false} PickedCount<E>(hash: E -> nat, data: seq<E>, c: seq<nat>, n: nat, s: nat)
    ensures |Picked(hash, data, c, n, s, true)| + |Picked(hash, data, c, n, s, false)| == |c|
  {
    if c != [] { PickedCount(hash, data, c[..|c| - 1], n, s); }
  }

  lemma {:induction false} PickedSorted<E>(comp: (E, E) -> int, hash: E -> nat, data: seq<E>, c: seq<nat>, n: nat,
                                           s: nat, stay: bool)
    requires Sorted(comp, data, c)
    ensures Sorted(comp, data, Picked(hash, data, c, n, s, stay))
  {
    if c != [] {
      var b, k := c[..|c| - 1], c[|c| - 1];
      PickedSorted(comp, hash, data, b, n, s, stay);
      var r := Picked(hash, data, b, n, s, stay);
      forall i | 0 <= i < |r|
        ensures r[i] < |data| && k < |data| && comp(data[r[i]], data[k]) < 0
      {
        assert r[i] in r;
        PickedMembers(hash, data, b, n, s, stay, r[i]);
        var a :| 0 <= a < |b| && b[a] == r[i];
        assert c[a] == r[i] && c[|c| - 1] == k;
      }
      SortedAppend(comp, data, r, k);
    }
  }

  lemma SortedAppend<E>(comp: (E, E) -> int, data: seq<E>, r: seq<nat>, k: nat)
    requires Sorted(comp, data, r)
    requires forall i :: 0 <= i < |r| ==> r[i] < |data| && k < |data| && comp(data[r[i]], data[k]) < 0
    ensures Sorted(comp, data, r + [k])
  {
    var d := r + [k];
    forall i, j | 0 <= i < j < |d|
      ensures d[i] < |data| && d[j] < |data| && comp(data[d[i]], data[d[j]]) < 0
    {
      assert d[i] == r[i];
      if j < |r| { assert d[j] == r[j]; }
    }
  }

  /** Doubling the slots either keeps an item's slot or moves it up by the old count. */
  lemma DoubleHome<E>(hash: E -> nat, x: E, n: nat)
    requires n > 0
    ensures Home(hash, x, 2 * n) == Home(hash, x, n) || Home(hash, x, 2 * n) == Home(hash, x, n) + n
  {
    var h := hash(x);
    var q, r := h / n, h % n;
    assert h == q * n + r;
    if q % 2 == 0 {
      assert q * n == (q / 2) * (2 * n) by { assert q == 2 * (q / 2); }
      ModUnique(h, 2 * n, q / 2, r);
    } else {
      assert q * n == (q / 2) * (2 * n) + n by { assert q == 2 * (q / 2) + 1; }
      ModUnique(h, 2 * n, q / 2, r + n);
    }
  }

  ghost function Chain<E>(hash: E -> nat, data: seq<E>, chains: seq<seq<nat>>, done: nat, t: nat): seq<nat>
    requires t < 2 * |chains|
  {
    var n := |chains|;
    if t < n then (if t < done then Picked(hash, data, chains[t], 2 * n, t, true) else chains[t])
    else (if t - n < done then Picked(hash, data, chains[t - n], 2 * n, t - n, false) else [])
  }

  /** The chains of the doubled table when the first `done` slots have been split. */
  ghost function Split<E>(hash: E -> nat, data: seq<E>, chains: seq<seq<nat>>, done: nat): seq<seq<nat>> {
    seq(2 * |chains|, t requires 0 <= t < 2 * |chains| => Chain(hash, data, chains, done, t))
  }

  lemma SplitStep<E>(hash: E -> nat, data: seq<E>, chains: seq<seq<nat>>, s: nat)
    requires s < |chains|
    ensures var n, c := |chains|, chains[s];
      Split(hash, data, chains, s + 1)
      == Split(hash, data, chains, s)[s := Picked(hash, data, c, 2 * n, s, true)]
                                     [s + n := Picked(hash, data, c, 2 * n, s, false)]
  {
    hide Picked;
  }

  // Nodes of other slots are not in the chain being split.
  lemma SplitStrangers<E>(comp: (E, E) -> int, hash: E -> nat, data: seq<E>, chains: seq<seq<nat>>, s: nat, t: nat,
                          k: nat)
    requires ContentsOk(comp, hash, data, chains) && s < |chains| && t < 2 * |chains| && t != s && t != s + |chains|
    requires k in Chain(hash, data, chains, s, t)
    ensures k !in chains[s]
  {
    hide Picked;
    var n := |chains|;
    var u := if t < n then t else t - n;
    PickedMembers(hash, data, chains[u], 2 * n, u, t < n, k);
    assert ContentOk(comp, hash, data, chains[u], n, u) && ContentOk(comp, hash, data, chains[s], n, s);
    Strangers(hash, data, chains[u], chains[s], n, u, s);
  }

  lemma SplitContent<E>(comp: (E, E) -> int, hash: E -> nat, data: seq<E>, chains: seq<seq<nat>>, t: nat)
    requires ContentsOk(comp, hash, data, chains) && t < 2 * |chains|
    ensures ContentOk(comp, hash, data, Chain(hash, data, chains, |chains|, t), 2 * |chains|, t)
  {
    hide Picked, Home;
    var n := |chains|;
    var u := if t < n then t else t - n;
    var c, d := chains[u], Chain(hash, data, chains, n, t);
    assert ContentOk(comp, hash, data, c, n, u);
    PickedSorted(comp, hash, data, c, 2 * n, u, t < n);
    forall i | 0 <= i < |d|
      ensures d[i] < |data| && Home(hash, data[d[i]], 2 * n) == t
    {
      assert d[i] in d;
      if t < n { PickedMembers(hash, data, c, 2 * n, u, true, d[i]); }
      else { MovedHome(hash, data, c, n, u, d[i]); }
    }
  }

  lemma SplitPlaced<E>(comp: (E, E) -> int, hash: E -> nat, data: seq<E>, chains: seq<seq<nat>>, k: nat)
    requires ContentsOk(comp, hash, data, chains) && k < |data|
    ensures Placed(hash, data, Split(hash, data, chains, |chains|), k)
  {
    hide Picked;
    var n := |chains|;
    assert Placed(hash, data, chains, k);
    var u := Home(hash, data[k], n);
    DoubleHome(hash, data[k], n);
    PickedMembers(hash, data, chains[u], 2 * n, u, true, k);
    PickedMembers(hash, data, chains[u], 2 * n, u, false, k);
  }

  lemma {:induction false} TotalAppend(a: seq<seq<nat>>, b: seq<seq<nat>>)
    ensures Total(a + b) == Total(a) + Total(b)
  {
    if b == [] {
      assert a + b == a;
    } else {
      TotalAppend(a, b[..|b| - 1]);
      assert (a + b)[..|a + b| - 1] == a + b[..|b| - 1];
    }
  }

  lemma {:induction false} SplitTotal<E>(hash: E -> nat, data: seq<E>, chains: seq<seq<nat>>, done: nat)
    requires done <= |chains|
    ensures Total(Split(hash, data, chains, done)) == Total(chains)
  {
    hide Picked;
    var n := |chains|;
    var z := Split(hash, data, chains, done);
    if done == 0 {
      assert z == chains + z[n..];
      TotalAppend(chains, z[n..]);
      NoNodes(z[n..]);
    } else {
      var s := done - 1;
      SplitTotal(hash, data, chains, s);
      SplitStep(hash, data, chains, s);
      PickedCount(hash, data, chains[s], 2 * n, s);
      var y := Split(hash, data, chains, s);
      var stay, leave := Picked(hash, data, chains[s], 2 * n, s, true), Picked(hash, data, chains[s], 2 * n, s, false);
      TotalUpdate(y, s, stay);
      TotalUpdate(y[s := stay], s + n, leave);
    }
  }

  /** The doubled table holds the same items, each where its hash says, in sorted chains. */
  lemma SplitContents<E>(comp: (E, E) -> int, hash: E -> nat, data: seq<E>, chains: seq<seq<nat>>)
    requires ContentsOk(comp, hash, data, chains)
    ensures ContentsOk(comp, hash, data, Split(hash, data, chains, |chains|))
  {
    hide Picked;
    var z := Split(hash, data, chains, |chains|);
    forall t | 0 <= t < |z|
      ensures ContentOk(comp, hash, data, z[t], |z|, t)
    {
      SplitContent(comp, hash, data, chains, t);
    }
    forall k | 0 <= k < |data|
      ensures Placed(hash, data, z, k)
    {
      SplitPlaced(comp, hash, data, chains, k);
    }
    SplitTotal(hash, data, chains, |chains|);
  }

  // ---------------------------------------------------------------- relinking one slot

  /** Unlinking x, which follows `kept`, and pushing it on the chain of nodes to move. */
  lemma MoveOne(m: Mode, links: seq<nat>, first: nat, kept: seq<nat>, x: nat, rest: seq<nat>, move: nat,
                moved: seq<nat>)
    requires ModeOk(m) && ChainOk(m, links, first, kept + [x] + rest) && Distinct(kept + [x] + rest)
    requires ChainOk(m, links, move, moved) && x !in moved && (kept != [] ==> kept[|kept| - 1] !in moved)
    ensures x < |links| && (kept != [] ==> kept[|kept| - 1] < |links|)
    ensures
      var links1 := if kept == [] then links else links[kept[|kept| - 1] := links[x]];
      var links2 := links1[x := move];
      && links1[x] == links[x]
      && ChainOk(m, links2, if kept == [] then links[x] else first, kept + rest)
      && ChainOk(m, links2, Ref(m, x), [x] + moved)
  {
    hide Ref, RefAt, ChainOk;
    var c, d, p := kept + rest, kept + [x] + rest, |kept|;
    assert Spliced(c, p, x, d);
    assert x !in c by { NotAround(kept, x, rest); }
    if kept == [] {
      ChainRemoveFirst(m, links, first, c, x, d);
      ChainFrame(m, links, x, move, links[x], c);
      ChainPush(m, links, move, moved, x);
    } else {
      var z := kept[p - 1];
      assert c[p - 1] == z && d[p - 1] == z && d[p] == x;
      ChainRemove(m, links, first, c, p, x, d);
      var links1 := links[z := links[x]];
      ChainFrame(m, links, z, links[x], move, moved);
      ChainFrame(m, links1, x, move, first, c);
      ChainPush(m, links1, move, moved, x);
    }
  }

  lemma NotAround(a: seq<nat>, x: nat, b: seq<nat>)
    requires Distinct(a + [x] + b)
    ensures x !in a + b
  {
    var d := a + [x] + b;
    assert d[|a|] == x;
    forall i | 0 <= i < |a + b|
      ensures (a + b)[i] != x
    {
      if i < |a| { assert d[i] == (a + b)[i]; } else { assert d[i + 1] == (a + b)[i]; }
    }
  }

  lemma DistinctRemove(a: seq<nat>, x: nat, b: seq<nat>)
    requires Distinct(a + [x] + b)
    ensures Distinct(a + b)
  {
    var d := a + [x] + b;
    forall i, j | 0 <= i < j < |a + b|
      ensures (a + b)[i] != (a + b)[j]
    {
      var i', j' := if i < |a| then i else i + 1, if j < |a| then j else j + 1;
      assert d[i'] == (a + b)[i] && d[j'] == (a + b)[j];
    }
  }

  /**
    Halfway through a slot: of chain c, the first j nodes have been looked at. Those that stay
    are still linked, in front of the rest; the others form a chain of their own in reverse.
  */
  ghost predicate Splitting<E>(m: Mode, links: seq<nat>, slot: Slot, move: nat, hash: E -> nat, data: seq<E>,
                               c: seq<nat>, n: nat, s: nat, j: nat)
    requires ModeOk(m)
  {
    && j <= |c|
    && var kept, moved := Picked(hash, data, c[..j], n, s, true), Picked(hash, data, c[..j], n, s, false);
      && slot.size == |kept| + |c| - j
      && ChainOk(m, links, slot.first, kept + c[j..]) && Distinct(kept + c[j..])
      && ChainOk(m, links, move, Reverse(moved))
  }

  lemma SplittingStart<E>(m: Mode, links: seq<nat>, slot: Slot, hash: E -> nat, data: seq<E>, c: seq<nat>, n: nat,
                          s: nat)
    requires ModeOk(m) && SlotOk(m, links, slot, c) && Distinct(c)
    ensures Splitting(m, links, slot, NullRef(m), hash, data, c, n, s, 0)
    ensures slot.first == RefAt(m, c, 0) && Picked(hash, data, c[..0], n, s, true) == []
  {
    hide Ref;
    assert [] + c[0..] == c;
  }

  lemma SplittingEnd<E>(m: Mode, links: seq<nat>, slot: Slot, move: nat, hash: E -> nat, data: seq<E>, c: seq<nat>,
                        n: nat, s: nat)
    requires ModeOk(m) && Splitting(m, links, slot, move, hash, data, c, n, s, |c|)
    ensures SlotOk(m, links, slot, Picked(hash, data, c, n, s, true))
    ensures ChainOk(m, links, move, Reverse(Picked(hash, data, c, n, s, false)))
  {
    hide Ref, ChainOk;
    assert c[..|c|] == c;
    assert Picked(hash, data, c, n, s, true) + c[|c|..] == Picked(hash, data, c, n, s, true);
  }

  // One more node under the prefix
  lemma PickedNext<E>(hash: E -> nat, data: seq<E>, c: seq<nat>, n: nat, s: nat, j: nat, stay: bool)
    requires j < |c|
    ensures Picked(hash, data, c[..j + 1], n, s, stay)
      == Picked(hash, data, c[..j], n, s, stay) + (if Stays(hash, data, c[j], n, s) == stay then [c[j]] else [])
  {
    assert c[..j + 1][..j] == c[..j];
  }

  // The link out of node j leads to node j + 1, the chain being still intact from there on.
  lemma NextLink<E>(m: Mode, links: seq<nat>, slot: Slot, move: nat, hash: E -> nat, data: seq<E>, c: seq<nat>,
                    n: nat, s: nat, j: nat)
    requires ModeOk(m) && Splitting(m, links, slot, move, hash, data, c, n, s, j) && j < |c|
    ensures c[j] < |links| && links[c[j]] == RefAt(m, c, j + 1)
  {
    hide Ref, Picked;
    var kept := Picked(hash, data, c[..j], n, s, true);
    var d := kept + c[j..];
    assert d[|kept|] == c[j];
    assert RefAt(m, d, |kept| + 1) == RefAt(m, c, j + 1);
  }

  lemma SplittingStay<E>(m: Mode, links: seq<nat>, slot: Slot, move: nat, hash: E -> nat, data: seq<E>, c: seq<nat>,
                         n: nat, s: nat, j: nat)
    requires ModeOk(m) && Splitting(m, links, slot, move, hash, data, c, n, s, j) && j < |c|
    requires Stays(hash, data, c[j], n, s)
    ensures Splitting(m, links, slot, move, hash, data, c, n, s, j + 1)
  {
    hide Ref, Picked, ChainOk, Stays;
    PickedNext(hash, data, c, n, s, j, true);
    PickedNext(hash, data, c, n, s, j, false);
    var kept := Picked(hash, data, c[..j], n, s, true);
    assert kept + [c[j]] + c[j + 1..] == kept + c[j..];
    var moved := Picked(hash, data, c[..j], n, s, false);
    assert moved + [] == moved;
  }

  lemma SplittingMove<E>(m: Mode, links: seq<nat>, slot: Slot, move: nat, hash: E -> nat, data: seq<E>, c: seq<nat>,
                         n: nat, s: nat, j: nat)
    requires ModeOk(m) && Splitting(m, links, slot, move, hash, data, c, n, s, j) && j < |c| && Distinct(c)
    requires !Stays(hash, data, c[j], n, s)
    ensures slot.size > 0 && c[j] < |links|
    ensures var kept := Picked(hash, data, c[..j], n, s, true);
      if kept == [] then
        Splitting(m, links[c[j] := move], Slot(slot.size - 1, links[c[j]]), Ref(m, c[j]), hash, data, c, n, s, j + 1)
      else
        var z := kept[|kept| - 1];
        && z < |links| && z in c && z != c[j]
        && Splitting(m, links[z := links[c[j]]][c[j] := move], Slot(slot.size - 1, slot.first), Ref(m, c[j]),
                     hash, data, c, n, s, j + 1)
  {
    hide Ref, Picked, ChainOk, Stays;
    PickedNext(hash, data, c, n, s, j, true);
    PickedNext(hash, data, c, n, s, j, false);
    var kept, moved := Picked(hash, data, c[..j], n, s, true), Picked(hash, data, c[..j], n, s, false);
    var x, rest := c[j], c[j + 1..];
    assert kept + [x] + rest == kept + c[j..];
    assert kept + [] == kept;
    MovedApart(hash, data, c, n, s, j);
    MoveOne(m, links, slot.first, kept, x, rest, move, Reverse(moved));
    DistinctRemove(kept, x, rest);
    assert Reverse(moved + [x]) == [x] + Reverse(moved) by { assert (moved + [x])[..|moved|] == moved; }
  }

  lemma MovedApart<E>(hash: E -> nat, data: seq<E>, c: seq<nat>, n: nat, s: nat, j: nat)
    requires j < |c| && Distinct(c)
    ensures var kept, moved := Picked(hash, data, c[..j], n, s, true), Picked(hash, data, c[..j], n, s, false);
      && c[j] !in Reverse(moved)
      && (kept != [] ==> var z := kept[|kept| - 1]; z in c && z != c[j] && z !in Reverse(moved))
  {
    hide Picked, Stays;
    var kept, moved := Picked(hash, data, c[..j], n, s, true), Picked(hash, data, c[..j], n, s, false);
    ReverseMembers(moved, c[j]);
    PickedMembers(hash, data, c[..j], n, s, false, c[j]);
    if kept != [] {
      var z := kept[|kept| - 1];
      assert z in kept;
      ReverseMembers(moved, z);
      PickedMembers(hash, data, c[..j], n, s, true, z);
      PickedMembers(hash, data, c[..j], n, s, false, z);
    }
  }

  /** Pushing the reversed chain one by one on the empty slot restores the order. */
  ghost predicate Attaching(m: Mode, links: seq<nat>, slot: Slot, move: nat, moved: seq<nat>, i: nat)
    requires ModeOk(m)
  {
    && i <= |moved| && slot.size == |moved| - i
    && ChainOk(m, links, move, Reverse(moved[..i])) && ChainOk(m, links, slot.first, moved[i..])
  }

  lemma AttachingStep(m: Mode, links: seq<nat>, slot: Slot, move: nat, moved: seq<nat>, i: nat)
    requires ModeOk(m) && Attaching(m, links, slot, move, moved, i) && Distinct(moved) && i > 0
    ensures var x := moved[i - 1];
      && move == Ref(m, x) && x < |links|
      && Attaching(m, links[x := slot.first], Slot(slot.size + 1, move), links[x], moved, i - 1)
  {
    hide Ref;
    var x, front, back := moved[i - 1], moved[..i - 1], moved[i..];
    assert moved[..i][..i - 1] == front;
    var d := Reverse(moved[..i]);
    assert d == [x] + Reverse(front);
    assert d[0] == x;
    ChainRemoveFirst(m, links, move, Reverse(front), x, d);
    ReverseMembers(front, x);
    ChainFrame(m, links, x, slot.first, links[x], Reverse(front));
    ChainPush(m, links, slot.first, back, x);
    assert [x] + back == moved[i - 1..];
  }

  lemma AttachingStart(m: Mode, links: seq<nat>, slot: Slot, move: nat, moved: seq<nat>)
    requires ModeOk(m) && ChainOk(m, links, move, Reverse(moved)) && SlotOk(m, links, slot, [])
    ensures Attaching(m, links, slot, move, moved, |moved|)
  {
    hide Ref;
    assert moved[..|moved|] == moved;
  }

  lemma AttachingEnd(m: Mode, links: seq<nat>, slot: Slot, move: nat, moved: seq<nat>)
    requires ModeOk(m) && Attaching(m, links, slot, move, moved, 0)
    ensures SlotOk(m, links, slot, moved)
  {
    hide Ref;
    assert moved[0..] == moved;
  }

  // Where the loop over the moved nodes is: at the last of the remaining ones
  lemma AttachingHead(m: Mode, links: seq<nat>, slot: Slot, move: nat, moved: seq<nat>, i: nat)
    requires ModeOk(m) && Attaching(m, links, slot, move, moved, i)
    ensures move == if i > 0 then Ref(m, moved[i - 1]) else NullRef(m)
  {
    hide Ref;
    if i > 0 { assert Reverse(moved[..i])[0] == moved[i - 1]; }
  }

  // What leaves slot s of n goes to slot s + n.
  lemma MovedHome<E>(hash: E -> nat, data: seq<E>, c: seq<nat>, n: nat, s: nat, k: nat)
    requires Homed(hash, data, c, n, s) && k in Picked(hash, data, c, 2 * n, s, false)
    ensures k in c && k < |data| && Home(hash, data[k], 2 * n) == s + n
  {
    hide Picked;
    PickedMembers(hash, data, c, 2 * n, s, false, k);
    DoubleHome(hash, data[k], n);
  }

  lemma {:induction false} PickedDistinct<E>(hash: E -> nat, data: seq<E>, c: seq<nat>, n: nat, s: nat, stay: bool)
    requires Distinct(c)
    ensures Distinct(Picked(hash, data, c, n, s, stay))
  {
    if c != [] {
      var b, k := c[..|c| - 1], c[|c| - 1];
      PickedDistinct(hash, data, b, n, s, stay);
      PickedMembers(hash, data, b, n, s, stay, k);
    }
  }

  // Other slots' chains do not notice the relinking of c's nodes.
  lemma OtherSlots<E>(m: Mode, hash: E -> nat, data: seq<E>, links: seq<nat>, links': seq<nat>, slot: Slot,
                      c: seq<nat>, d: seq<nat>)
    requires ModeOk(m) && SlotOk(m, links, slot, d) && |links| == |links'|
    requires forall k :: k in d ==> k !in c
    requires forall k :: 0 <= k < |links| && k !in c ==> links'[k] == links[k]
    ensures SlotOk(m, links', slot, d)
  {
    hide Ref;
    ChainAgree(m, links, links', slot.first, d);
  }
}
