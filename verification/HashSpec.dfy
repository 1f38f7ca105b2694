/**
  What a hash table's contents must satisfy: sorted chains, every item in the slot of its hash,
  every node in exactly one chain.
*/
module HashSpec {
  import opened Basics
  import opened Bits
  import opened Allocator
  import opened HashChains

  // `GetSlotIdx`
  function Home<E>(hash: E -> nat, x: E, n: nat): (s: nat)
    requires n > 0
    ensures s < n
  {
    hash(x) % n
  }

  /** The slot is the remainder of the hash: it determines and is determined by the hash modulo n. */
  lemma HomeIsRemainder<E>(hash: E -> nat, x: E, n: nat, q: nat, s: nat)
    requires n > 0 && s < n
    ensures hash(x) == q * n + s ==> Home(hash, x, n) == s
    ensures Home(hash, x, n) == s ==> exists q: nat :: hash(x) == q * n + s
  {
    if hash(x) == q * n + s { ModUnique(hash(x), n, q, s); }
    DivMod(hash(x), n);
  }

  ghost predicate Sorted<E>(comp: (E, E) -> int, data: seq<E>, c: seq<nat>) {
    forall i, j :: 0 <= i < j < |c| ==>
      c[i] < |data| && c[j] < |data| && comp(data[c[i]], data[c[j]]) < 0
  }

  ghost predicate Homed<E>(hash: E -> nat, data: seq<E>, c: seq<nat>, n: nat, s: nat) {
    n > 0 && forall i :: 0 <= i < |c| ==> c[i] < |data| && Home(hash, data[c[i]], n) == s
  }

  ghost predicate SlotOk(m: Mode, links: seq<nat>, slot: Slot, c: seq<nat>)
    requires ModeOk(m)
  {
    ChainOk(m, links, slot.first, c) && slot.size == |c|
  }

  ghost predicate ContentOk<E>(comp: (E, E) -> int, hash: E -> nat, data: seq<E>, c: seq<nat>, n: nat, s: nat) {
    Sorted(comp, data, c) && Homed(hash, data, c, n, s)
  }

  ghost predicate Placed<E>(hash: E -> nat, data: seq<E>, chains: seq<seq<nat>>, k: nat)
    requires k < |data|
  {
    |chains| > 0 && k in chains[Home(hash, data[k], |chains|)]
  }

  ghost function Total(chains: seq<seq<nat>>): nat {
    if chains == [] then 0 else Total(chains[..|chains| - 1]) + |chains[|chains| - 1]|
  }

  ghost predicate LinksOk(m: Mode, links: seq<nat>, slots: seq<Slot>, chains: seq<seq<nat>>)
    requires ModeOk(m)
  {
    |slots| == |chains| && forall s :: 0 <= s < |slots| ==> SlotOk(m, links, slots[s], chains[s])
  }

  ghost predicate ContentsOk<E>(comp: (E, E) -> int, hash: E -> nat, data: seq<E>, chains: seq<seq<nat>>) {
    && (forall s :: 0 <= s < |chains| ==> ContentOk(comp, hash, data, chains[s], |chains|, s))
    && (forall k :: 0 <= k < |data| ==> Placed(hash, data, chains, k))
    && Total(chains) == |data|
  }

  lemma SortedDistinct<E(!new)>(comp: (E, E) -> int, hash: E -> nat, data: seq<E>, c: seq<nat>)
    requires Lawful(comp, hash) && Sorted(comp, data, c)
    ensures Distinct(c)
  {
    hide Lawful;
    forall i, j | 0 <= i < j < |c|
      ensures c[i] != c[j]
    {
      assert c[i] < |data| && c[j] < |data| && comp(data[c[i]], data[c[j]]) < 0;
      Converse(comp, hash, data[c[i]], data[c[j]]);
    }
  }

  lemma Strangers<E>(hash: E -> nat, data: seq<E>, c: seq<nat>, d: seq<nat>, n: nat, s: nat, t: nat)
    requires Homed(hash, data, c, n, s) && Homed(hash, data, d, n, t) && s != t
    ensures forall k :: k in c ==> k !in d
  {
  }

  lemma {:induction false} TotalUpdate(chains: seq<seq<nat>>, s: nat, c: seq<nat>)
    requires s < |chains|
    ensures Total(chains[s := c]) + |chains[s]| == Total(chains) + |c|
  {
    var n := |chains| - 1;
    if s < n {
      TotalUpdate(chains[..n], s, c);
      assert chains[s := c][..n] == chains[..n][s := c];
    } else {
      assert chains[s := c][..n] == chains[..n];
    }
  }

  lemma {:induction false} NoNodes(chains: seq<seq<nat>>)
    requires forall s :: 0 <= s < |chains| ==> chains[s] == []
    ensures Total(chains) == 0
  {
    if chains != [] { NoNodes(chains[..|chains| - 1]); }
  }

  /** Some node equals x exactly when one in x's own chain does. */
  lemma LookInHome<E(!new)>(comp: (E, E) -> int, hash: E -> nat, data: seq<E>, chains: seq<seq<nat>>, x: E, k: nat)
    requires Lawful(comp, hash) && ContentsOk(comp, hash, data, chains) && k < |data| && comp(data[k], x) == 0
    ensures |chains| > 0 && k in chains[Home(hash, x, |chains|)]
  {
    hide Lawful;
    Converse(comp, hash, data[k], x);
    assert Placed(hash, data, chains, k);
  }

  /** No two stored items are equal. */
  lemma ItemsDistinct<E(!new)>(comp: (E, E) -> int, hash: E -> nat, data: seq<E>, chains: seq<seq<nat>>, j: nat, k: nat)
    requires Lawful(comp, hash) && ContentsOk(comp, hash, data, chains) && j < k < |data|
    ensures comp(data[j], data[k]) != 0
  {
    hide Lawful;
    if comp(data[j], data[k]) == 0 {
      LookInHome(comp, hash, data, chains, data[k], j);
      Converse(comp, hash, data[k], data[k]);
      LookInHome(comp, hash, data, chains, data[k], k);
      var s := Home(hash, data[k], |chains|);
      assert ContentOk(comp, hash, data, chains[s], |chains|, s);
      var a :| 0 <= a < |chains[s]| && chains[s][a] == j;
      var b :| 0 <= b < |chains[s]| && chains[s][b] == k;
      Converse(comp, hash, data[j], data[k]);
    }
  }

  /** In a sorted chain the search may stop at the first larger item. */
  lemma NoneBeyond<E(!new)>(comp: (E, E) -> int, hash: E -> nat, data: seq<E>, c: seq<nat>, p: nat, x: E)
    requires Lawful(comp, hash) && Sorted(comp, data, c) && forall i :: 0 <= i < |c| ==> c[i] < |data|
    requires p <= |c| && (p < |c| ==> comp(x, data[c[p]]) < 0)
    ensures forall j :: p <= j < |c| ==> comp(x, data[c[j]]) < 0
    ensures forall j :: 0 <= j < |c| ==> (comp(data[c[j]], x) == 0 <==> comp(x, data[c[j]]) == 0)
  {
    hide Lawful;
    forall j | p <= j < |c|
      ensures comp(x, data[c[j]]) < 0
    {
      if p < j { Less(comp, hash, x, data[c[p]], data[c[j]]); }
    }
    forall j | 0 <= j < |c|
      ensures comp(data[c[j]], x) == 0 <==> comp(x, data[c[j]]) == 0
    {
      Converse(comp, hash, x, data[c[j]]);
    }
  }

  // ---------------------------------------------------------------- insertion

  lemma ContentGrows<E>(comp: (E, E) -> int, hash: E -> nat, data: seq<E>, c: seq<nat>, n: nat, s: nat, x: E)
    requires ContentOk(comp, hash, data, c, n, s)
    ensures ContentOk(comp, hash, data + [x], c, n, s)
  {
  }

  lemma SortedInsert<E(!new)>(comp: (E, E) -> int, hash: E -> nat, data: seq<E>, c: seq<nat>, p: nat, d: seq<nat>, x: E)
    requires Lawful(comp, hash) && Sorted(comp, data, c) && Spliced(c, p, |data|, d)
    requires forall i :: 0 <= i < |c| ==> c[i] < |data|
    requires forall i :: 0 <= i < p ==> comp(x, data[c[i]]) > 0
    requires p < |c| ==> comp(x, data[c[p]]) < 0
    ensures Sorted(comp, data + [x], d)
  {
    hide Lawful;
    var data' := data + [x];
    forall i, j | 0 <= i < j < |d|
      ensures d[i] < |data'| && d[j] < |data'| && comp(data'[d[i]], data'[d[j]]) < 0
    {
      if j == p {
        Converse(comp, hash, data[c[i]], x);
      } else if i == p {
        if j - 1 > p { Less(comp, hash, x, data[c[p]], data[c[j - 1]]); }
      } else {
        var i', j' := if i < p then i else i - 1, if j < p then j else j - 1;
        assert d[i] == c[i'] && d[j] == c[j'];
      }
    }
  }

  lemma HomedInsert<E>(hash: E -> nat, data: seq<E>, c: seq<nat>, p: nat, d: seq<nat>, x: E, n: nat, s: nat)
    requires Homed(hash, data, c, n, s) && Spliced(c, p, |data|, d) && Home(hash, x, n) == s
    ensures Homed(hash, data + [x], d, n, s)
  {
    forall i | 0 <= i < |d|
      ensures d[i] < |data + [x]| && Home(hash, (data + [x])[d[i]], n) == s
    {
      if i < p { assert d[i] == c[i]; } else if i > p { assert d[i] == c[i - 1]; }
    }
  }

  lemma SplicedMember(c: seq<nat>, p: nat, x: nat, d: seq<nat>, k: nat)
    requires Spliced(c, p, x, d) && k in c
    ensures k in d && x in d
  {
    var i :| 0 <= i < |c| && c[i] == k;
    assert d[if i < p then i else i + 1] == k;
  }

  /** The contents after putting the new item x at position p of its chain. */
  lemma ContentsInsert<E(!new)>(comp: (E, E) -> int, hash: E -> nat, data: seq<E>, chains: seq<seq<nat>>, s: nat,
                         p: nat, d: seq<nat>, x: E)
    requires Lawful(comp, hash) && ContentsOk(comp, hash, data, chains) && s < |chains| && Home(hash, x, |chains|) == s
    requires Spliced(chains[s], p, |data|, d) && ContentOk(comp, hash, data + [x], d, |chains|, s)
    ensures ContentsOk(comp, hash, data + [x], chains[s := d])
  {
    hide Lawful;
    var data', chains' := data + [x], chains[s := d];
    forall t | 0 <= t < |chains'|
      ensures ContentOk(comp, hash, data', chains'[t], |chains'|, t)
    {
      assert ContentOk(comp, hash, data, chains[t], |chains|, t);
      if t != s { ContentGrows(comp, hash, data, chains[t], |chains|, t, x); }
    }
    forall k | 0 <= k < |data'|
      ensures Placed(hash, data', chains', k)
    {
      if k < |data| {
        assert Placed(hash, data, chains, k);
        if k in chains[s] { SplicedMember(chains[s], p, |data|, d, k); }
      } else {
        assert d[p] == k;
      }
    }
    TotalUpdate(chains, s, d);
  }
}
