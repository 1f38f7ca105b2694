/**
  Weighted edit distance between two texts: the recurrence that the table is filled with, and
  the proof that it is the least total cost of any sequence of single edits, at any positions
  and in any order.
*/
module EditCosts {

  datatype Costs = Costs(ins: real, del: real, sub: real)

  ghost predicate NonNegative(w: Costs) { w.ins >= 0.0 && w.del >= 0.0 && w.sub >= 0.0 }

  function Min(a: real, b: real): real { if b < a then b else a }

  function Last<T>(s: seq<T>): T requires s != [] { s[|s| - 1] }
  function Init<T>(s: seq<T>): seq<T> requires s != [] { s[..|s| - 1] }

  function Times(n: nat, x: real): real { n as real * x }

  /** The recurrence; equal last characters are matched without comparing alternatives. */
  function Dist<T(==)>(w: Costs, s: seq<T>, t: seq<T>): real
    decreases |s| + |t|
  {
    if s == [] then Times(|t|, w.ins)
    else if t == [] then Times(|s|, w.del)
    else if Last(s) == Last(t) then Dist(w, Init(s), Init(t))
    else Min(Min(Dist(w, Init(s), t) + w.del, Dist(w, s, Init(t)) + w.ins), Dist(w, Init(s), Init(t)) + w.sub)
  }

  // ---------------------------------------------------------------- edits

  datatype Edit<T> = Insert(pos: nat, letter: T) | Delete(pos: nat) | Substitute(pos: nat, letter: T)

  predicate CanDo<T>(e: Edit<T>, s: seq<T>) {
    if e.Insert? then e.pos <= |s| else e.pos < |s|
  }

  function Do<T>(e: Edit<T>, s: seq<T>): seq<T>
    requires CanDo(e, s)
  {
    match e
    case Insert(p, c) => s[..p] + [c] + s[p..]
    case Delete(p) => s[..p] + s[p + 1..]
    case Substitute(p, c) => s[..p] + [c] + s[p + 1..]
  }

  function Price<T>(w: Costs, e: Edit<T>): real {
    match e
    case Insert(_, _) => w.ins
    case Delete(_) => w.del
    case Substitute(_, _) => w.sub
  }

  /** The edits es, one after the other, turn s into t. */
  predicate Turns<T(==)>(es: seq<Edit<T>>, s: seq<T>, t: seq<T>) {
    if es == [] then s == t else CanDo(es[0], s) && Turns(es[1..], Do(es[0], s), t)
  }

  function Total<T>(w: Costs, es: seq<Edit<T>>): real {
    if es == [] then 0.0 else Price(w, es[0]) + Total(w, es[1..])
  }

  // ---------------------------------------------------------------- symmetry

  function Swap(w: Costs): Costs { Costs(w.del, w.ins, w.sub) }

  lemma {:induction false} Symmetric<T>(w: Costs, s: seq<T>, t: seq<T>)
    ensures Dist(w, s, t) == Dist(Swap(w), t, s)
    decreases |s| + |t|
  {
    if s != [] && t != [] {
      Symmetric(w, Init(s), Init(t));
      Symmetric(w, Init(s), t);
      Symmetric(w, s, Init(t));
    }
  }

  // ---------------------------------------------------------------- one edit at the end

  lemma {:induction false} InsertEnd<T>(w: Costs, s: seq<T>, u: seq<T>, c: T)
    requires NonNegative(w)
    ensures Dist(w, s, u + [c]) <= Dist(w, s, u) + w.ins
    decreases |s| + |u|, 1
  {
    assert Init(u + [c]) == u && Last(u + [c]) == c;
    if s != [] && Last(s) == c {
      DropSource(w, Init(s), u, c);
      assert Init(s) + [c] == s;
    }
  }

  lemma {:induction false} DeleteEnd<T>(w: Costs, s: seq<T>, u: seq<T>, c: T)
    requires NonNegative(w)
    ensures Dist(w, s, u) <= Dist(w, s, u + [c]) + w.del
    decreases |s| + |u|, 1
  {
    assert Init(u + [c]) == u && Last(u + [c]) == c;
    if s != [] {
      AddSource(w, Init(s), u, Last(s));
      assert Init(s) + [Last(s)] == s;
      if Last(s) != c { DeleteEnd(w, Init(s), u, c); }
    }
  }

  // One character more or less in the source
  lemma {:induction false} AddSource<T>(w: Costs, s: seq<T>, u: seq<T>, x: T)
    requires NonNegative(w)
    ensures Dist(w, s + [x], u) <= Dist(w, s, u) + w.del
    decreases |s| + |u|, 2
  {
    InsertEnd(Swap(w), u, s, x);
    Symmetric(w, s + [x], u);
    Symmetric(w, s, u);
  }

  lemma {:induction false} DropSource<T>(w: Costs, s: seq<T>, u: seq<T>, x: T)
    requires NonNegative(w)
    ensures Dist(w, s, u) <= Dist(w, s + [x], u) + w.ins
    decreases |s| + |u|, 2
  {
    DeleteEnd(Swap(w), u, s, x);
    Symmetric(w, s + [x], u);
    Symmetric(w, s, u);
  }

  lemma {:induction false} SubstituteEnd<T>(w: Costs, s: seq<T>, u: seq<T>, c: T, d: T)
    requires NonNegative(w)
    ensures Dist(w, s, u + [d]) <= Dist(w, s, u + [c]) + w.sub
    decreases |s|
  {
    assert Init(u + [c]) == u && Last(u + [c]) == c && Init(u + [d]) == u && Last(u + [d]) == d;
    if s != [] && Last(s) != c {
      SubstituteEnd(w, Init(s), u, c, d);
      DeleteEnd(w, Init(s), u, c);
      InsertEnd(w, s, u, d);
    }
  }

  // ---------------------------------------------------------------- one edit anywhere

  // b costs at most k more than a, whatever the source.
  ghost predicate Within<T(!new)>(w: Costs, a: seq<T>, b: seq<T>, k: real) {
    forall p: seq<T> :: Dist(w, p, b) <= Dist(w, p, a) + k
  }

  /** What holds of two targets holds with any text appended to both. */
  lemma {:induction false} Append<T(!new)>(w: Costs, s: seq<T>, a: seq<T>, b: seq<T>, v: seq<T>, k: real)
    requires Within(w, a, b, k)
    ensures Dist(w, s, b + v) <= Dist(w, s, a + v) + k
    decreases |s| + |v|
  {
    if v == [] {
      assert a + v == a && b + v == b;
    } else if s == [] {
      assert Dist(w, [], b) <= Dist(w, [], a) + k;
      assert (|b| + |v|) as real * w.ins == |b| as real * w.ins + |v| as real * w.ins;
      assert (|a| + |v|) as real * w.ins == |a| as real * w.ins + |v| as real * w.ins;
    } else {
      assert Init(a + v) == a + Init(v) && Init(b + v) == b + Init(v);
      Append(w, Init(s), a, b, Init(v), k);
      Append(w, Init(s), a, b, v, k);
      Append(w, s, a, b, Init(v), k);
    }
  }

  /** One edit changes the distance by at most its price. */
  lemma OneEdit<T(!new)>(w: Costs, s: seq<T>, t: seq<T>, e: Edit<T>)
    requires NonNegative(w) && CanDo(e, t)
    ensures Dist(w, s, Do(e, t)) <= Dist(w, s, t) + Price(w, e)
  {
    hide Dist;
    var u := t[..e.pos];
    match e
    case Insert(p, c) =>
      assert Within(w, u, u + [c], w.ins) by {
        forall q: seq<T> ensures Dist(w, q, u + [c]) <= Dist(w, q, u) + w.ins { InsertEnd(w, q, u, c); }
      }
      Append(w, s, u, u + [c], t[p..], w.ins);
      assert u + t[p..] == t;
    case Delete(p) =>
      var c := t[p];
      assert Within(w, u + [c], u, w.del) by {
        forall q: seq<T> ensures Dist(w, q, u) <= Dist(w, q, u + [c]) + w.del { DeleteEnd(w, q, u, c); }
      }
      Append(w, s, u + [c], u, t[p + 1..], w.del);
      assert u + [c] + t[p + 1..] == t;
    case Substitute(p, d) =>
      var c := t[p];
      assert Within(w, u + [c], u + [d], w.sub) by {
        forall q: seq<T> ensures Dist(w, q, u + [d]) <= Dist(w, q, u + [c]) + w.sub { SubstituteEnd(w, q, u, c, d); }
      }
      Append(w, s, u + [c], u + [d], t[p + 1..], w.sub);
      assert u + [c] + t[p + 1..] == t;
  }

  lemma {:induction false} DistSelf<T>(w: Costs, s: seq<T>)
    ensures Dist(w, s, s) == 0.0
  {
    if s != [] { DistSelf(w, Init(s)); }
  }

  lemma {:induction false} EditsFrom<T(!new)>(w: Costs, origin: seq<T>, es: seq<Edit<T>>, s: seq<T>, t: seq<T>)
    requires NonNegative(w) && Turns(es, s, t)
    ensures Dist(w, origin, t) <= Dist(w, origin, s) + Total(w, es)
    decreases |es|
  {
    hide Dist;
    if es != [] {
      OneEdit(w, origin, s, es[0]);
      EditsFrom(w, origin, es[1..], Do(es[0], s), t);
    }
  }

  /** No sequence of edits from s to t is cheaper than the distance. */
  lemma NoCheaperEdits<T(!new)>(w: Costs, es: seq<Edit<T>>, s: seq<T>, t: seq<T>)
    requires NonNegative(w) && Turns(es, s, t)
    ensures Dist(w, s, t) <= Total(w, es)
  {
    DistSelf(w, s);
    EditsFrom(w, s, es, s, t);
  }

  // ---------------------------------------------------------------- a cheapest sequence of edits

  // Edits of a prefix do not notice what follows it.
  lemma {:induction false} UnderSuffix<T>(es: seq<Edit<T>>, s: seq<T>, t: seq<T>, v: seq<T>)
    requires Turns(es, s, t)
    ensures Turns(es, s + v, t + v)
    decreases |es|
  {
    if es != [] {
      var e := es[0];
      assert Do(e, s + v) == Do(e, s) + v by { DoUnderSuffix(e, s, v); }
      UnderSuffix(es[1..], Do(e, s), t, v);
    }
  }

  lemma DoUnderSuffix<T>(e: Edit<T>, s: seq<T>, v: seq<T>)
    requires CanDo(e, s)
    ensures CanDo(e, s + v) && Do(e, s + v) == Do(e, s) + v
  {
    var p := e.pos;
    assert (s + v)[..p] == s[..p];
    match e
    case Insert(_, c) => SuffixFrom(s, v, p); ConcatAssoc(s[..p] + [c], s[p..], v);
    case Delete(_) => SuffixFrom(s, v, p + 1); ConcatAssoc(s[..p], s[p + 1..], v);
    case Substitute(_, c) => SuffixFrom(s, v, p + 1); ConcatAssoc(s[..p] + [c], s[p + 1..], v);
  }

  lemma SuffixFrom<T>(s: seq<T>, v: seq<T>, p: nat)
    requires p <= |s|
    ensures (s + v)[p..] == s[p..] + v
  {
  }

  lemma ConcatAssoc<T>(a: seq<T>, b: seq<T>, c: seq<T>)
    ensures a + (b + c) == a + b + c
  {
  }

  lemma {:induction false} ThenDo<T>(w: Costs, es: seq<Edit<T>>, s: seq<T>, t: seq<T>, e: Edit<T>)
    requires Turns(es, s, t) && CanDo(e, t)
    ensures Turns(es + [e], s, Do(e, t)) && Total(w, es + [e]) == Total(w, es) + Price(w, e)
    decreases |es|
  {
    if es == [] {
      assert es + [e] == [e];
      assert Turns([e][1..], Do(e, s), Do(e, t));
    } else {
      ThenDo(w, es[1..], Do(es[0], s), t, e);
      assert (es + [e])[1..] == es[1..] + [e];
    }
  }

  lemma FirstDo<T>(w: Costs, es: seq<Edit<T>>, s: seq<T>, t: seq<T>, e: Edit<T>)
    requires CanDo(e, s) && Turns(es, Do(e, s), t)
    ensures Turns([e] + es, s, t) && Total(w, [e] + es) == Price(w, e) + Total(w, es)
  {
    assert ([e] + es)[1..] == es;
  }

  // The three ways to come from a shorter pair of texts
  lemma AfterInsert<T>(w: Costs, es: seq<Edit<T>>, s: seq<T>, t: seq<T>) returns (fs: seq<Edit<T>>)
    requires t != [] && Turns(es, s, Init(t))
    ensures Turns(fs, s, t) && Total(w, fs) == Total(w, es) + w.ins
  {
    var e := Edit.Insert(|t| - 1, Last(t));
    assert Do(e, Init(t)) == t;
    ThenDo(w, es, s, Init(t), e);
    fs := es + [e];
  }

  lemma AfterDelete<T>(w: Costs, es: seq<Edit<T>>, s: seq<T>, t: seq<T>) returns (fs: seq<Edit<T>>)
    requires s != [] && Turns(es, Init(s), t)
    ensures Turns(fs, s, t) && Total(w, fs) == Total(w, es) + w.del
  {
    var e := Edit.Delete(|s| - 1);
    assert Do(e, s) == Init(s);
    FirstDo(w, es, s, t, e);
    fs := [e] + es;
  }

  lemma AfterSubstitute<T>(w: Costs, es: seq<Edit<T>>, s: seq<T>, t: seq<T>) returns (fs: seq<Edit<T>>)
    requires s != [] && t != [] && Turns(es, Init(s), Init(t))
    ensures Turns(fs, s, t) && Total(w, fs) == Total(w, es) + w.sub
  {
    var e := Edit.Substitute(|s| - 1, Last(t));
    assert Do(e, s) == Init(s) + [Last(t)];
    UnderSuffix(es, Init(s), Init(t), [Last(t)]);
    assert Init(t) + [Last(t)] == t;
    FirstDo(w, es, s, t, e);
    fs := [e] + es;
  }

  // One step of the recurrence, at the borders too
  lemma Unfold<T>(w: Costs, s: seq<T>, t: seq<T>)
    ensures s == [] && t == [] ==> Dist(w, s, t) == 0.0
    ensures s == [] && t != [] ==> Dist(w, s, t) == Dist(w, s, Init(t)) + w.ins
    ensures s != [] && t == [] ==> Dist(w, s, t) == Dist(w, Init(s), t) + w.del
    ensures s != [] && t != [] ==>
      if Last(s) == Last(t) then Dist(w, s, t) == Dist(w, Init(s), Init(t))
      else
        || Dist(w, s, t) == Dist(w, Init(s), t) + w.del
        || Dist(w, s, t) == Dist(w, s, Init(t)) + w.ins
        || Dist(w, s, t) == Dist(w, Init(s), Init(t)) + w.sub
  {
    hide Times;
    NoneOf(w.ins);
    NoneOf(w.del);
    if s == [] && t != [] { OneMore(|t| - 1, w.ins); }
    if s != [] && t == [] { OneMore(|s| - 1, w.del); }
  }

  /** Some sequence of edits from s to t costs exactly the distance. */
  lemma {:induction false} CheapestEdits<T>(w: Costs, s: seq<T>, t: seq<T>) returns (es: seq<Edit<T>>)
    ensures Turns(es, s, t) && Total(w, es) == Dist(w, s, t)
    decreases |s| + |t|
  {
    hide Dist, Turns, Total;
    Unfold(w, s, t);
    if s == [] && t == [] {
      es := [];
      NoEdits(w, s, es);
    } else if t != [] && Dist(w, s, t) == Dist(w, s, Init(t)) + w.ins {
      es := CheapestEdits(w, s, Init(t));
      es := AfterInsert(w, es, s, t);
    } else if s != [] && Dist(w, s, t) == Dist(w, Init(s), t) + w.del {
      es := CheapestEdits(w, Init(s), t);
      es := AfterDelete(w, es, s, t);
    } else {
      es := CheapestEdits(w, Init(s), Init(t));
      if Last(s) == Last(t) {
        UnderSuffix(es, Init(s), Init(t), [Last(t)]);
        assert Init(s) + [Last(t)] == s && Init(t) + [Last(t)] == t;
      } else {
        es := AfterSubstitute(w, es, s, t);
      }
    }
  }

  lemma NoEdits<T>(w: Costs, s: seq<T>, es: seq<Edit<T>>)
    requires es == []
    ensures Turns(es, s, s) && Total(w, es) == 0.0
  {
  }

  lemma OneMore(n: nat, x: real)
    ensures Times(n + 1, x) == Times(n, x) + x
  {
  }

  lemma NoneOf(x: real)
    ensures Times(0, x) == 0.0
  {
  }
}
