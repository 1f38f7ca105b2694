/**
  The least-recently-used cache: a map from keys to scored values and an index from scores to
  keys, against the recency list that the history of uses determines.
*/
module LruCacheModel {

  import opened Basics

  // ---------------------------------------------------------------- recency

  function Without<K(==)>(s: seq<K>, k: K): seq<K> {
    if s == [] then [] else if s[0] == k then Without(s[1..], k) else [s[0]] + Without(s[1..], k)
  }

  /** The distinct keys of a history, the last used first. */
  function Recency<K(==)>(history: seq<K>): seq<K> {
    if history == [] then []
    else
      var k := history[|history| - 1];
      [k] + Without(Recency(history[..|history| - 1]), k)
  }

  function Take<K>(n: nat, s: seq<K>): seq<K> { if |s| <= n then s else s[..n] }

  lemma {:induction false} WithoutMembers<K>(s: seq<K>, k: K)
    ensures k !in Without(s, k)
    ensures forall x :: x in Without(s, k) <==> x in s && x != k
    ensures |Without(s, k)| <= |s|
  {
    if s != [] {
      WithoutMembers(s[1..], k);
      assert s == [s[0]] + s[1..];
    }
  }

  lemma {:induction false} WithoutAbsent<K>(s: seq<K>, k: K)
    requires k !in s
    ensures Without(s, k) == s
  {
    if s != [] { WithoutAbsent(s[1..], k); }
  }

  ghost predicate NoRepeats<K(!new)>(s: seq<K>) {
    forall i, j :: 0 <= i < j < |s| ==> s[i] != s[j]
  }

  lemma {:induction false} WithoutAt<K(!new)>(s: seq<K>, i: nat)
    requires NoRepeats(s) && i < |s|
    ensures Without(s, s[i]) == s[..i] + s[i + 1..]
  {
    if i == 0 {
      WithoutAbsent(s[1..], s[0]);
    } else {
      WithoutAt(s[1..], i - 1);
      assert s[1..][..i - 1] == s[1..i] && s[1..][i..] == s[i + 1..];
      assert [s[0]] + s[1..i] == s[..i];
    }
  }

  lemma MoveNoRepeats<K(!new)>(s: seq<K>, k: K)
    requires NoRepeats(s)
    ensures NoRepeats([k] + Without(s, k))
  {
    WithoutMembers(s, k);
    if k in s {
      var i :| 0 <= i < |s| && s[i] == k;
      WithoutAt(s, i);
    } else {
      WithoutAbsent(s, k);
    }
  }

  lemma {:induction false} RecencyNoRepeats<K(!new)>(history: seq<K>)
    ensures NoRepeats(Recency(history))
  {
    if history != [] {
      RecencyNoRepeats(history[..|history| - 1]);
      MoveNoRepeats(Recency(history[..|history| - 1]), history[|history| - 1]);
    }
  }

  // The position of the last use of k
  function LastUse<K(==)>(history: seq<K>, k: K): int {
    if history == [] then -1
    else if history[|history| - 1] == k then |history| - 1
    else LastUse(history[..|history| - 1], k)
  }

  lemma {:induction false} LastUseBelow<K>(history: seq<K>, k: K)
    ensures -1 <= LastUse(history, k) < |history| && (LastUse(history, k) >= 0 <==> k in history)
  {
    if history != [] && history[|history| - 1] != k { LastUseBelow(history[..|history| - 1], k); }
  }

  /** The recency list has exactly the keys used, ordered by their last use. */
  lemma {:induction false} RecencyByLastUse<K(!new)>(history: seq<K>)
    ensures forall k :: k in Recency(history) <==> k in history
    ensures ByLastUse(history, Recency(history))
  {
    if history != [] {
      var h, k := history[..|history| - 1], history[|history| - 1];
      RecencyByLastUse(h);
      RecencyNoRepeats(h);
      WithoutMembers(Recency(h), k);
      assert history == h + [k];
      WithoutByLastUse(h, Recency(h), k);
      MovedByLastUse(h, Without(Recency(h), k), k);
    }
  }

  ghost predicate ByLastUse<K(!new)>(h: seq<K>, q: seq<K>) {
    forall i, j :: 0 <= i < j < |q| ==> LastUse(h, q[i]) > LastUse(h, q[j])
  }

  lemma OneMoreUse<K>(h: seq<K>, k: K, x: K)
    ensures LastUse(h + [k], x) == if x == k then |h| else LastUse(h, x)
    ensures x != k ==> LastUse(h, x) < |h|
  {
    assert (h + [k])[..|h|] == h;
    LastUseBelow(h, x);
  }

  lemma WithoutByLastUse<K(!new)>(h: seq<K>, q: seq<K>, k: K)
    requires ByLastUse(h, q) && NoRepeats(q)
    ensures ByLastUse(h, Without(q, k))
  {
    hide LastUse;
    var t, p := Without(q, k), |q|;
    if k in q {
      p :| 0 <= p < |q| && q[p] == k;
      WithoutAt(q, p);
    } else {
      WithoutAbsent(q, k);
    }
    forall i, j | 0 <= i < j < |t|
      ensures LastUse(h, t[i]) > LastUse(h, t[j])
    {
      assert t[i] == q[if i < p then i else i + 1] && t[j] == q[if j < p then j else j + 1];
    }
  }

  lemma MovedByLastUse<K(!new)>(h: seq<K>, t: seq<K>, k: K)
    requires ByLastUse(h, t) && k !in t
    ensures ByLastUse(h + [k], [k] + t)
  {
    hide LastUse;
    var r := [k] + t;
    forall i, j | 0 <= i < j < |r|
      ensures LastUse(h + [k], r[i]) > LastUse(h + [k], r[j])
    {
      OneMoreUse(h, k, r[i]);
      OneMoreUse(h, k, r[j]);
      assert r[j] == t[j - 1];
      if i > 0 { assert r[i] == t[i - 1]; }
    }
  }

  lemma RecencyNext<K>(history: seq<K>, k: K)
    ensures Recency(history + [k]) == [k] + Without(Recency(history), k)
  {
    assert (history + [k])[..|history|] == history;
  }

  lemma MoveWithin<K>(n: nat, s: seq<K>, i: nat)
    requires i < n < |s|
    ensures [s[i]] + (s[..n][..i] + s[..n][i + 1..]) == Take(n, [s[i]] + (s[..i] + s[i + 1..]))
    ensures |[s[i]] + (s[..n][..i] + s[..n][i + 1..])| == n
  {
    assert s[..n][..i] == s[..i];
    assert s[..n][i + 1..] == s[i + 1..n];
  }

  lemma MoveBeyond<K>(n: nat, s: seq<K>, i: nat)
    requires 0 < n <= i < |s|
    ensures Take(n, [s[i]] + s[..n]) == Take(n, [s[i]] + (s[..i] + s[i + 1..]))
  {
  }

  /** Moving a key to the front of the first n, or of the whole list, leaves the same first n. */
  lemma TakeMove<K(!new)>(n: nat, s: seq<K>, k: K)
    requires n > 0 && NoRepeats(s)
    ensures Take(n, [k] + Without(Take(n, s), k)) == Take(n, [k] + Without(s, k))
  {
    if |s| > n {
      var p := s[..n];
      if k in s {
        var i :| 0 <= i < |s| && s[i] == k;
        WithoutAt(s, i);
        if i < n {
          assert p[i] == k;
          WithoutAt(p, i);
          MoveWithin(n, s, i);
        } else {
          assert k !in p;
          WithoutAbsent(p, k);
          MoveBeyond(n, s, i);
        }
      } else {
        WithoutAbsent(s, k);
        WithoutAbsent(p, k);
      }
    }
  }

  // ---------------------------------------------------------------- the two maps

  datatype Item<V> = Item(score: int, value: V)

  /** The index and the map are inverse to each other. */
  ghost predicate Inverse<K(!new), V>(index: map<int, K>, items: map<K, Item<V>>, time: int) {
    && (forall k :: k in items ==> items[k].score in index && index[items[k].score] == k)
    && (forall s :: s in index ==> index[s] in items && items[index[s]].score == s && s <= time)
  }

  // r lists the keys by falling score.
  ghost predicate Ranked<K(!new), V>(items: map<K, Item<V>>, r: seq<K>) {
    && (forall k :: k in items <==> k in r)
    && (forall i, j :: 0 <= i < j < |r| ==> Score(items, r[i]) > Score(items, r[j]))
  }

  function Score<K, V>(items: map<K, Item<V>>, k: K): int {
    if k in items then items[k].score else 0
  }

  ghost predicate Linked<K(!new), V>(index: map<int, K>, items: map<K, Item<V>>, time: int, r: seq<K>) {
    Inverse(index, items, time) && Ranked(items, r) && |index| == |items| == |r|
  }

  // The last of r has the smallest score, the first the largest.
  lemma Ends<K(!new), V>(index: map<int, K>, items: map<K, Item<V>>, time: int, r: seq<K>)
    requires Linked(index, items, time, r) && r != []
    ensures var z := r[|r| - 1];
      z in items && items[z].score in index && forall u :: u in index && u != items[z].score ==> items[z].score < u
    ensures r[0] in items && items[r[0]].score in index
    ensures forall u :: u in index && u != items[r[0]].score ==> u < items[r[0]].score
  {
    var z := r[|r| - 1];
    assert z in items && r[0] in items;
    forall u | u in index
      ensures u != items[z].score ==> items[z].score < u
      ensures u != items[r[0]].score ==> u < items[r[0]].score
    {
      var k := index[u];
      assert k in r;
      var i :| 0 <= i < |r| && r[i] == k;
    }
  }

  lemma RankedNoRepeats<K(!new), V>(items: map<K, Item<V>>, r: seq<K>)
    requires Ranked(items, r)
    ensures NoRepeats(r)
  {
  }

  lemma RankedDrop<K(!new), V>(items: map<K, Item<V>>, r: seq<K>, p: nat)
    requires Ranked(items, r) && p < |r|
    ensures Ranked(items - {r[p]}, r[..p] + r[p + 1..])
  {
    RankedNoRepeats(items, r);
    var k := r[p];
    var items', r' := items - {k}, r[..p] + r[p + 1..];
    forall x ensures x in items' <==> x in r' {
      if x in items' {
        var i :| 0 <= i < |r| && r[i] == x;
        assert r'[if i < p then i else i - 1] == x;
      }
    }
    forall i, j | 0 <= i < j < |r'|
      ensures Score(items', r'[i]) > Score(items', r'[j])
    {
      var i', j' := if i < p then i else i + 1, if j < p then j else j + 1;
      assert r'[i] == r[i'] && r'[j] == r[j'] && r[i'] != k && r[j'] != k;
      assert Score(items, r[i']) > Score(items, r[j']);
    }
  }

  lemma InverseDrop<K(!new), V>(index: map<int, K>, items: map<K, Item<V>>, time: int, k: K)
    requires Inverse(index, items, time) && k in items
    ensures Inverse(index - {items[k].score}, items - {k}, time)
    ensures |index - {items[k].score}| == |index| - 1 && |items - {k}| == |items| - 1
  {
    assert (items - {k}).Keys == items.Keys - {k};
    assert (index - {items[k].score}).Keys == index.Keys - {items[k].score};
  }

  /** Dropping the key at position p. */
  lemma LinkedDrop<K(!new), V>(index: map<int, K>, items: map<K, Item<V>>, time: int, r: seq<K>, p: nat)
    requires Linked(index, items, time, r) && p < |r|
    ensures r[p] in items && Linked(index - {items[r[p]].score}, items - {r[p]}, time, r[..p] + r[p + 1..])
  {
    assert r[p] in r && r[p] in items by { assert Ranked(items, r); }
    hide Inverse, Ranked;
    RankedDrop(items, r, p);
    InverseDrop(index, items, time, r[p]);
  }

  lemma RankedPush<K(!new), V>(items: map<K, Item<V>>, r: seq<K>, k: K, v: V, now: int)
    requires Ranked(items, r) && k !in items && forall x :: x in items ==> items[x].score < now
    ensures Ranked(items[k := Item(now, v)], [k] + r)
  {
    var items', r' := items[k := Item(now, v)], [k] + r;
    forall i, j | 0 <= i < j < |r'|
      ensures Score(items', r'[i]) > Score(items', r'[j])
    {
      assert r'[j] == r[j - 1] && r[j - 1] in items;
      if i > 0 { assert r'[i] == r[i - 1] && r[i - 1] in items; }
    }
  }

  /** A new key with a new highest score. */
  lemma LinkedPush<K(!new), V>(index: map<int, K>, items: map<K, Item<V>>, time: int, r: seq<K>, k: K, v: V, now: int)
    requires Linked(index, items, time, r) && k !in items && now > time
    ensures Linked(index[now := k], items[k := Item(now, v)], now, [k] + r)
  {
    RankedPush(items, r, k, v, now);
    hide Ranked;
    assert now !in index;
  }

  /** The kept keys after one more use of k. */
  lemma KeptNext<K(!new)>(cap: nat, history: seq<K>, k: K)
    requires cap > 0
    ensures var r := Take(cap, Recency(history)); var r' := Take(cap, Recency(history + [k]));
      && (k !in r && |r| < cap ==> r' == [k] + r)
      && (k !in r && |r| == cap ==> r' == [k] + r[..cap - 1])
      && (forall p :: 0 <= p < |r| && r[p] == k ==> r' == [k] + (r[..p] + r[p + 1..]))
      && |r| <= cap
  {
    hide Recency;
    var r := Take(cap, Recency(history));
    RecencyNext(history, k);
    RecencyNoRepeats(history);
    TakeMove(cap, Recency(history), k);
    if k !in r { WithoutAbsent(r, k); }
    forall p | 0 <= p < |r| && r[p] == k
      ensures Without(r, k) == r[..p] + r[p + 1..]
    {
      WithoutAt(r, p);
    }
  }

  /** A use of key, present at position p of r. */
  lemma LinkedUse<K(!new), V>(index: map<int, K>, items: map<K, Item<V>>, time: int, r: seq<K>, p: nat, v: V, now: int)
    requires Linked(index, items, time, r) && p < |r| && now > time
    ensures r[p] in items
    ensures Linked((index - {items[r[p]].score})[now := r[p]], items[r[p] := Item(now, v)], now,
                   [r[p]] + (r[..p] + r[p + 1..]))
  {
    hide Inverse, Ranked;
    LinkedDrop(index, items, time, r, p);
    LinkedPush(index - {items[r[p]].score}, items - {r[p]}, time, r[..p] + r[p + 1..], r[p], v, now);
    assert (items - {r[p]})[r[p] := Item(now, v)] == items[r[p] := Item(now, v)];
  }

  lemma IndexScore<K(!new), V>(index: map<int, K>, items: map<K, Item<V>>, time: int, r: seq<K>, s: int)
    requires Linked(index, items, time, r) && s in index
    ensures index[s] in items && items[index[s]].score == s
  {
  }

  lemma LinkedScore<K(!new), V>(index: map<int, K>, items: map<K, Item<V>>, time: int, r: seq<K>, k: K)
    requires Linked(index, items, time, r)
    ensures k in items <==> k in r
    ensures k in items ==> items[k].score in index && index[items[k].score] == k
  {
  }

  // ---------------------------------------------------------------- ownership of values

  // A value is a pointer to an object that the cache deletes; None is the null pointer.
  ghost function Pointee<V>(p: Option<V>): set<V> { if p.Some? then {p.value} else {} }

  ghost function Stored<K, V>(items: map<K, Item<Option<V>>>): set<V> {
    set k | k in items && items[k].value.Some? :: items[k].value.value
  }

  /** No stored object has been deleted, and none is stored under two keys. */
  ghost predicate Owned<K(!new), V>(items: map<K, Item<Option<V>>>, freed: set<V>) {
    && (forall k :: k in items && items[k].value.Some? ==> items[k].value.value !in freed)
    && (forall j, k :: j in items && k in items && j != k && items[j].value.Some? ==> items[j].value != items[k].value)
  }

  // One add: the value under `gone`, if any, is deleted and key gets the new value.
  ghost predicate Replaced<K(!new), V>(items: map<K, Item<Option<V>>>, freed: set<V>, gone: Option<K>,
                                       key: K, value: Option<V>,
                                       items': map<K, Item<Option<V>>>, freed': set<V>)
  {
    && (gone.Some? ==> gone.value in items) && (key in items ==> gone == Some(key))
    && freed' == freed + (if gone.Some? then Pointee(items[gone.value].value) else {})
    && (forall k :: k in items' <==> k == key || (k in items && gone != Some(k)))
    && items'[key].value == value
    && (forall k :: k in items' && k != key ==> items'[k].value == items[k].value)
  }

  /** Nothing leaks and nothing is made up: what was stored or deleted still is, plus the new object. */
  lemma NoLeaks<K(!new), V>(items: map<K, Item<Option<V>>>, freed: set<V>, gone: Option<K>, key: K, value: Option<V>,
                            items': map<K, Item<Option<V>>>, freed': set<V>)
    requires Replaced(items, freed, gone, key, value, items', freed')
    ensures freed' + Stored(items') == freed + Stored(items) + Pointee(value)
  {
    forall v
      ensures v in freed' + Stored(items') <==> v in freed + Stored(items) + Pointee(value)
    {
      if v in Stored(items) {
        var k :| k in items && items[k].value == Some(v);
        if gone != Some(k) { assert k in items' && items'[k].value == items[k].value; }
      }
      if v in Stored(items') {
        var k :| k in items' && items'[k].value == Some(v);
        if k != key { assert k in items && items[k].value == Some(v); }
      }
      if value == Some(v) { assert items'[key].value == Some(v); }
    }
  }

  /** Ownership survives an add exactly when the new object is null or neither deleted nor stored. */
  lemma OwnedAfter<K(!new), V>(items: map<K, Item<Option<V>>>, freed: set<V>, gone: Option<K>, key: K, value: Option<V>,
                               items': map<K, Item<Option<V>>>, freed': set<V>)
    requires Replaced(items, freed, gone, key, value, items', freed') && Owned(items, freed)
    ensures Owned(items', freed') <==> value.None? || value.value !in freed + Stored(items)
  {
    if value.Some? && value.value in freed + Stored(items) {
      assert items'[key].value == value;
      if value.value in Stored(items) {
        var k :| k in items && items[k].value == value;
        if gone != Some(k) { assert k in items' && items'[k].value == value && k != key; }
      }
    } else {
      forall k | k in items' && items'[k].value.Some?
        ensures items'[k].value.value !in freed'
      {
        if k != key { assert k in items && items[k].value == items'[k].value; }
      }
      forall j, k | j in items' && k in items' && j != k && items'[j].value.Some?
        ensures items'[j].value != items'[k].value
      {
        if j == key { assert items'[k].value == items[k].value; } else { assert items'[j].value == items[j].value; }
      }
    }
  }

  // ---------------------------------------------------------------- the cache

  class LruCache<K(!new, ==), V> {
    var capacity: int
    var index: map<int, K>
    var items: map<K, Item<Option<V>>>
    var time: int
    ghost var history: seq<K>             // the keys of the adds and of the touches that found theirs
    ghost var latest: map<K, Option<V>>   // the value of the last add of each key
    ghost var freed: set<V>               // the objects that have been deleted

    ghost function Kept(): seq<K>
      reads this
      requires capacity > 0
    {
      Take(capacity, Recency(history))
    }

    /** The cache holds the most recently used keys of its history, as many as fit. */
    ghost predicate Valid()
      reads this
    {
      && capacity > 0 && Linked(index, items, time, Kept())
      && forall k :: k in items ==> k in latest && items[k].value == latest[k]
    }

    constructor (cap: int)
      ensures Valid() && capacity == (if cap > 0 then cap else 1) && history == [] && freed == {}
      ensures Owned(items, freed)
    {
      capacity := if cap > 0 then cap else 1;
      index, items, time, history, latest, freed := map[], map[], 0, [], map[], {};
    }

    method Clear(newCapacity: int)
      requires Valid()
      modifies this
      ensures Valid() && items == map[] && index == map[] && time == 0 && history == []
      ensures capacity == if newCapacity > 0 then newCapacity else old(capacity)
      ensures freed == old(freed) + Stored(old(items)) && Owned(items, freed)
    {
      hide Linked;
      freed := freed + Stored(items);
      items, index := map[], map[];
      NothingLinked(index, items);
      if newCapacity > 0 {
        capacity := newCapacity;
      }
      time, history, latest := 0, [], map[];
    }

    method Size() returns (n: int)
      requires Valid()
      ensures n == |items| && n == |Kept()| && n <= capacity
    {
      n := |items|;
    }

    // Removes the entry with the smallest score: the least recently used key.
    method Evict(ghost time0: int, ghost r: seq<K>)
      requires Linked(index, items, time0, r) && r != []
      modifies this`index, this`items, this`freed
      ensures Linked(index, items, time0, r[..|r| - 1]) && items == old(items) - {r[|r| - 1]}
      ensures r[|r| - 1] in old(items) && freed == old(freed) + Pointee(old(items)[r[|r| - 1]].value)
    {
      hide Inverse, Ranked;
      Ends(index, items, time0, r);
      var s :| s in index && forall u :: u in index ==> s <= u;    // list_.begin()
      LinkedScore(index, items, time0, r, r[|r| - 1]);
      IndexScore(index, items, time0, r, s);
      LinkedDrop(index, items, time0, r, |r| - 1);
      assert r[..|r| - 1] + r[|r|..] == r[..|r| - 1];
      freed := freed + Pointee(items[index[s]].value);
      items, index := items - {index[s]}, index - {s};
    }

    /**
      `Add`: the key becomes the most recent; if it is new to a full cache, the last goes. The
      cache deletes the value it replaces or evicts, so the caller must hand in an object that is
      neither stored nor deleted.
    */
    method Add(key: K, value: Option<V>)
      requires Valid()
      modifies this`index, this`items, this`time, this`history, this`latest, this`freed
      ensures Valid() && history == old(history) + [key] && latest == old(latest)[key := value]
      ensures forall k :: k in items && k != key ==> k in old(items) && items[k].value == old(items)[k].value
      ensures freed + Stored(items) == old(freed) + Stored(old(items)) + Pointee(value)
      ensures Owned(old(items), old(freed)) ==>
        (Owned(items, freed) <==> value.None? || value.value !in old(freed) + Stored(old(items)))
    {
      hide Linked, Recency, Take, Replaced, Owned, Stored, Pointee;
      ghost var items0, freed0 := items, freed;
      time := time + 1;
      KeptNext(capacity, history, key);
      LinkedScore(index, items, time - 1, Kept(), key);
      ghost var gone: Option<K>;
      if key !in items {
        gone := AddNew(key, value, time - 1, Kept());
      } else {
        Refresh(key, value, time - 1, Kept());
        gone := Some(key);
      }
      history, latest := history + [key], latest[key := value];
      ReplacedValues(items0, freed0, gone, key, value, items, freed);
      NoLeaks(items0, freed0, gone, key, value, items, freed);
      if Owned(items0, freed0) { OwnedAfter(items0, freed0, gone, key, value, items, freed); }
    }

    // The branch for a key that is not cached
    method AddNew(key: K, value: Option<V>, ghost time0: int, ghost r: seq<K>) returns (ghost gone: Option<K>)
      requires capacity > 0 && Linked(index, items, time0, r) && time0 < time && key !in items && |r| <= capacity
      modifies this`index, this`items, this`freed
      ensures Linked(index, items, time, [key] + (if |r| < capacity then r else r[..capacity - 1]))
      ensures Replaced(old(items), old(freed), gone, key, value, items, freed)
    {
      hide Linked, Replaced, Pointee;
      ghost var kept, items0, freed0 := r, items, freed;
      gone := None;
      LinkedCount(index, items, time0, r);
      if |index| >= capacity {
        gone := Some(r[|r| - 1]);
        Evict(time0, r);
        kept := r[..|r| - 1];
      }
      ReplacedNew(items0, freed0, gone, key, value, items, freed, time);
      LinkedPush(index, items, time0, kept, key, value, time);
      index := index[time := key];
      items := items[key := Item(time, value)];
    }

    // The branch for a cached key: new value, new score
    method Refresh(key: K, value: Option<V>, ghost time0: int, ghost r: seq<K>)
      requires Linked(index, items, time0, r) && time0 < time && key in items && key in r
      modifies this`index, this`items, this`freed
      ensures forall p :: 0 <= p < |r| && r[p] == key ==> Linked(index, items, time, [key] + (r[..p] + r[p + 1..]))
      ensures Replaced(old(items), old(freed), Some(key), key, value, items, freed)
    {
      hide Linked;
      LinkedScore(index, items, time0, r, key);
      ghost var index0, items0 := index, items;
      freed := freed + Pointee(items[key].value);
      items := items[key := items[key].(value := value)];
      if items[key].score in index {
        index := index - {items[key].score};
        items := items[key := items[key].(score := time)];
        index := index[time := key];
      }
      assert items == items0[key := Item(time, value)];
      forall p | 0 <= p < |r| && r[p] == key
        ensures Linked(index, items, time, [key] + (r[..p] + r[p + 1..]))
      {
        LinkedUse(index0, items0, time0, r, p, value, time);
      }
    }

    /** `Touch`: a cached key becomes the most recent; any other key changes nothing. */
    method Touch(key: K)
      requires Valid()
      modifies this`index, this`items, this`time, this`history
      ensures Valid() && history == if key in old(items) then old(history) + [key] else old(history)
      ensures items.Keys == old(items).Keys && latest == old(latest) && freed == old(freed)
      ensures forall k :: k in items ==> items[k].value == old(items)[k].value
    {
      hide Linked, Recency, Take;
      if key in items {
        ghost var r, time0, items0 := Kept(), time, items;
        KeptNext(capacity, history, key);
        LinkedScore(index, items, time, r, key);
        ghost var p :| 0 <= p < |r| && r[p] == key;
        time := time + 1;
        LinkedUse(index, items, time0, r, p, items[key].value, time);
        if items[key].score in index {
          index := index - {items[key].score};
        }
        index := index[time := key];
        items := items[key := items[key].(score := time)];
        history := history + [key];
      }
    }

    /** `LatestKey`: the last key used. */
    method LatestKey() returns (key: Option<K>)
      requires Valid()
      ensures key == if history == [] then None else Some(history[|history| - 1])
    {
      hide Inverse, Ranked;
      if |index| == 0 {
        return None;
      }
      Ends(index, items, time, Kept());
      LinkedScore(index, items, time, Kept(), Kept()[0]);
      var s :| s in index && forall u :: u in index ==> u <= s;    // list_.rbegin()
      return Some(index[s]);
    }

    /** `Get`: the value of the last add of a key that is kept, null for any other key. */
    method Get(key: K) returns (value: Option<V>)
      requires Valid()
      ensures value == if key in Kept() && key in latest then latest[key] else None
    {
      hide Recency, Take, Inverse;
      LinkedScore(index, items, time, Kept(), key);
      return if key in items then items[key].value else None;
    }
  }

  lemma LinkedCount<K(!new), V>(index: map<int, K>, items: map<K, Item<V>>, time: int, r: seq<K>)
    requires Linked(index, items, time, r)
    ensures |index| == |items| == |r|
  {
  }

  lemma NothingLinked<K(!new), V>(index: map<int, K>, items: map<K, Item<V>>)
    requires index == map[] && items == map[]
    ensures Linked(index, items, 0, [])
  {
  }

  lemma ReplacedNew<K(!new), V>(items: map<K, Item<Option<V>>>, freed: set<V>, gone: Option<K>,
                                key: K, value: Option<V>,
                                rest: map<K, Item<Option<V>>>, freed': set<V>, score: int)
    requires key !in items && (gone.None? ==> rest == items && freed' == freed)
    requires gone.Some? ==> gone.value in items && rest == items - {gone.value}
    requires gone.Some? ==> freed' == freed + Pointee(items[gone.value].value)
    ensures Replaced(items, freed, gone, key, value, rest[key := Item(score, value)], freed')
  {
  }

  lemma ReplacedValues<K(!new), V>(items: map<K, Item<Option<V>>>, freed: set<V>, gone: Option<K>,
                                   key: K, value: Option<V>,
                                   items': map<K, Item<Option<V>>>, freed': set<V>)
    requires Replaced(items, freed, gone, key, value, items', freed')
    ensures key in items' && items'[key].value == value
    ensures forall k :: k in items' && k != key ==> k in items && items'[k].value == items[k].value
  {
  }
}
