/**
  The table-filling computation of the weighted edit distance, on a flat array that is either
  the object's own buffer or, for long texts, a fresh one.
*/
module EditDistanceTable {
  import opened Bits
  import opened EditCosts

  const BUFFER: nat := 4096

  // The flat index of row i, column j
  function At(i: nat, j: nat, n: nat): nat { i * n + j }

  lemma AtBelow(i: nat, j: nat, m: nat, n: nat)
    requires i < m && j < n
    ensures At(i, j, n) < m * n
  {
    RowApart(i, m, n);
  }

  // A later row starts at least a full row further on.
  lemma RowApart(i: nat, a: nat, n: nat)
    requires i < a
    ensures i * n + n <= a * n
  {
    assert a * n == i * n + n + (a - i - 1) * n;
    assert (a - i - 1) * n >= 0;
  }

  lemma AtUnique(i: nat, j: nat, a: nat, b: nat, n: nat)
    requires j < n && b < n && (i != a || j != b)
    ensures At(i, j, n) != At(a, b, n)
  {
    if i < a { RowApart(i, a, n); }
    if a < i { RowApart(a, i, n); }
  }

  // Entry (a, b) of the table holds the distance of the prefixes of lengths a and b.
  ghost predicate Entry<T>(d: seq<real>, w: Costs, s: seq<T>, t: seq<T>, a: nat, b: nat)
    requires a <= |s| && b <= |t|
  {
    var k := At(a, b, |t| + 1);
    k < |d| && d[k] == Dist(w, s[..a], t[..b])
  }

  // The borders are filled as far as (p, q), the inside up to row i of column j.
  ghost predicate Filled<T>(d: seq<real>, w: Costs, s: seq<T>, t: seq<T>, p: nat, q: nat, i: nat, j: nat) {
    forall a, b :: 0 <= a <= |s| && 0 <= b <= |t| && Reached(a, b, p, q, i, j) ==> Entry(d, w, s, t, a, b)
  }

  predicate Reached(a: nat, b: nat, p: nat, q: nat, i: nat, j: nat) {
    (b == 0 && a < p) || (a == 0 && b < q) || (0 < a && 0 < b && (b < j || (b == j && a < i)))
  }

  lemma EntryKept<T>(d: seq<real>, w: Costs, s: seq<T>, t: seq<T>, a: nat, b: nat, i: nat, j: nat, v: real)
    requires a <= |s| && b <= |t| && i <= |s| && j <= |t| && At(i, j, |t| + 1) < |d|
    requires Entry(d, w, s, t, a, b) && (a != i || b != j)
    ensures Entry(d[At(i, j, |t| + 1) := v], w, s, t, a, b)
  {
    hide Dist, At;
    AtUnique(a, b, i, j, |t| + 1);
  }

  /** Writing the right value at (i, j) keeps every other entry. */
  lemma Write<T>(d: seq<real>, w: Costs, s: seq<T>, t: seq<T>, p: nat, q: nat, i: nat, j: nat, x: nat, y: nat, v: real)
    requires Filled(d, w, s, t, p, q, i, j) && x <= |s| && y <= |t|
    requires At(x, y, |t| + 1) < |d| && v == Dist(w, s[..x], t[..y])
    ensures y == 0 && x == p ==> Filled(d[At(x, y, |t| + 1) := v], w, s, t, p + 1, q, i, j)
    ensures x == 0 && y == q ==> Filled(d[At(x, y, |t| + 1) := v], w, s, t, p, q + 1, i, j)
    ensures x == i && y == j ==> Filled(d[At(x, y, |t| + 1) := v], w, s, t, p, q, i + 1, j)
  {
    hide Dist, At;
    var d' := d[At(x, y, |t| + 1) := v];
    forall a, b | 0 <= a <= |s| && 0 <= b <= |t| && Entry(d, w, s, t, a, b)
      ensures Entry(d', w, s, t, a, b)
    {
      if a != x || b != y { EntryKept(d, w, s, t, a, b, x, y, v); }
    }
    assert Entry(d', w, s, t, x, y);
  }

  class EditDistance {
    const costMatrix: array<real>

    constructor ()
      ensures fresh(costMatrix) && costMatrix.Length == BUFFER
    {
      costMatrix := new real[BUFFER];
    }

    // The inner loop: column j from the column before
    static method FillColumn<T(==)>(s: seq<T>, t: seq<T>, w: Costs, d: array<real>, j: nat)
      requires 1 <= j <= |t| && d.Length >= (|s| + 1) * (|t| + 1)
      requires Filled(d[..], w, s, t, |s| + 1, |t| + 1, 1, j)
      modifies d
      ensures Filled(d[..], w, s, t, |s| + 1, |t| + 1, |s| + 1, j)
    {
      hide Dist, At, Times, Entry, Filled;
      var m, n := |s| + 1, |t| + 1;
      var i := 1;
      while i < m
        invariant 1 <= i <= m && Filled(d[..], w, s, t, m, n, i, j)
      {
        AtBelow(i, j, m, n);
        AtBelow(i - 1, j, m, n);
        AtBelow(i, j - 1, m, n);
        AtBelow(i - 1, j - 1, m, n);
        Neighbours(d[..], w, s, t, i, j);
        var v;
        if s[i - 1] == t[j - 1] {
          v := d[At(i - 1, j - 1, n)];
        } else {
          var del := d[At(i - 1, j, n)] + w.del;
          var ins := d[At(i, j - 1, n)] + w.ins;
          var sub := d[At(i - 1, j - 1, n)] + w.sub;
          v := Min(Min(del, ins), sub);
        }
        Write(d[..], w, s, t, m, n, i, j, i, j, v);
        d[At(i, j, n)] := v;
        i := i + 1;
      }
    }

    /**
      `LevenshteinDistance`. Whatever the buffer held before, the result is the recurrence's
      value, which EditCosts shows to be the least cost of any sequence of edits.
    */
    method LevenshteinDistance<T(==)>(s: seq<T>, t: seq<T>, w: Costs) returns (dist: real)
      requires costMatrix.Length == BUFFER
      requires (|s| + 1) * (|t| + 1) < 0x1_0000_0000
      modifies costMatrix
      ensures dist == Dist(w, s, t)
    {
      hide Dist, At, Times, Entry, Filled;
      var m, n := |s| + 1, |t| + 1;
      var d := costMatrix;
      if m * n > BUFFER {
        d := new real[m * n];
      }
      NothingYet(d[..], w, s, t);
      var i := 0;
      while i < m
        invariant 0 <= i <= m && Filled(d[..], w, s, t, i, 0, 1, 1)
      {
        AtBelow(i, 0, m, n);
        BorderRow(w, s[..i], t[..0]);
        Write(d[..], w, s, t, i, 0, 1, 1, i, 0, Times(i, w.del));
        d[At(i, 0, n)] := Times(i, w.del);
        i := i + 1;
      }
      var j := 0;
      while j < n
        invariant 0 <= j <= n && Filled(d[..], w, s, t, m, j, 1, 1)
      {
        AtBelow(0, j, m, n);
        BorderColumn(w, s[..0], t[..j]);
        Write(d[..], w, s, t, m, j, 1, 1, 0, j, Times(j, w.ins));
        d[At(0, j, n)] := Times(j, w.ins);
        j := j + 1;
      }
      j := 1;
      while j < n
        invariant 1 <= j <= n && Filled(d[..], w, s, t, m, n, 1, j)
      {
        FillColumn(s, t, w, d, j);
        NextColumn(d[..], w, s, t, j);
        j := j + 1;
      }
      LastEntry(d[..], w, s, t);
      dist := d[m * n - 1];
    }
  }

  lemma NothingYet<T>(d: seq<real>, w: Costs, s: seq<T>, t: seq<T>)
    ensures Filled(d, w, s, t, 0, 0, 1, 1)
  {
  }

  lemma BorderRow<T>(w: Costs, s: seq<T>, t: seq<T>)
    requires t == []
    ensures Dist(w, s, t) == Times(|s|, w.del)
  {
    if s == [] { NoneOf(w.ins); NoneOf(w.del); }
  }

  lemma BorderColumn<T>(w: Costs, s: seq<T>, t: seq<T>)
    requires s == []
    ensures Dist(w, s, t) == Times(|t|, w.ins)
  {
  }

  // The three entries that entry (i, j) is computed from, and its value
  lemma Neighbours<T>(d: seq<real>, w: Costs, s: seq<T>, t: seq<T>, i: nat, j: nat)
    requires 1 <= i <= |s| && 1 <= j <= |t| && Filled(d, w, s, t, |s| + 1, |t| + 1, i, j)
    requires At(i - 1, j, |t| + 1) < |d| && At(i, j - 1, |t| + 1) < |d| && At(i - 1, j - 1, |t| + 1) < |d|
    ensures
      var n := |t| + 1;
      var del, ins, sub := d[At(i - 1, j, n)] + w.del, d[At(i, j - 1, n)] + w.ins, d[At(i - 1, j - 1, n)];
      Dist(w, s[..i], t[..j]) == if s[i - 1] == t[j - 1] then sub else Min(Min(del, ins), sub + w.sub)
  {
    hide At;
    assert Entry(d, w, s, t, i - 1, j) && Entry(d, w, s, t, i, j - 1) && Entry(d, w, s, t, i - 1, j - 1);
    assert Init(s[..i]) == s[..i - 1] && Init(t[..j]) == t[..j - 1];
  }

  lemma NextColumn<T>(d: seq<real>, w: Costs, s: seq<T>, t: seq<T>, j: nat)
    requires j >= 1 && Filled(d, w, s, t, |s| + 1, |t| + 1, |s| + 1, j)
    ensures Filled(d, w, s, t, |s| + 1, |t| + 1, 1, j + 1)
  {
    hide Entry;
  }

  lemma LastEntry<T>(d: seq<real>, w: Costs, s: seq<T>, t: seq<T>)
    requires Filled(d, w, s, t, |s| + 1, |t| + 1, 1, |t| + 1)
    ensures var k := (|s| + 1) * (|t| + 1) - 1; 0 <= k < |d| && d[k] == Dist(w, s, t)
  {
    assert Entry(d, w, s, t, |s|, |t|);
    assert s[..|s|] == s && t[..|t|] == t;
    assert (|s| + 1) * (|t| + 1) == |s| * (|t| + 1) + |t| + 1;
  }

  /** The distance is the minimum over all sequences of edits: attained, and never undercut. */
  lemma DistIsMinimum<T(!new)>(w: Costs, s: seq<T>, t: seq<T>)
    requires NonNegative(w)
    ensures exists es :: Turns(es, s, t) && Total(w, es) == Dist(w, s, t)
    ensures forall es :: Turns(es, s, t) ==> Dist(w, s, t) <= Total(w, es)
  {
    var es := CheapestEdits(w, s, t);
    forall fs | Turns(fs, s, t)
      ensures Dist(w, s, t) <= Total(w, fs)
    {
      NoCheaperEdits(w, fs, s, t);
    }
  }

  // ---------------------------------------------------------------- 32-bit sizes and indices

  // The rows or columns the code counts for a text of the given length, in 32 bits
  function Lines(length: nat): nat { (length + 1) % WORD32 }

  // The entries of the memory the code picks: its buffer, or an array of m * n entries
  function Memory(m: nat, n: nat): nat {
    var entries := m * n % WORD32;
    if entries > BUFFER then entries else BUFFER
  }

  // The index the code computes for entry (i, j)
  function WordIndex(i: nat, j: nat, n: nat): nat { At(i, j, n) % WORD32 }

  /** Both lengths are counted right and every entry of the table is written inside the memory. */
  ghost predicate InMemory(s: nat, t: nat) {
    var m, n := Lines(s), Lines(t);
    && m == s + 1 && n == t + 1
    && forall i, j :: 0 <= i < m && 0 <= j < n ==> WordIndex(i, j, n) < Memory(m, n)
  }

  /** The exact limit: the table stays in its memory if and only if it has fewer than 2^32 entries. */
  lemma InMemoryIff(s: nat, t: nat)
    ensures InMemory(s, t) <==> (s + 1) * (t + 1) < WORD32
  {
    hide At;
    var m, n := s + 1, t + 1;
    if m * n < WORD32 {
      SmallTable(s, t);
    } else if Lines(s) == m && Lines(t) == n {
      TooLarge(m, n);
    }
  }

  lemma SmallTable(s: nat, t: nat)
    requires (s + 1) * (t + 1) < WORD32
    ensures InMemory(s, t)
  {
    hide At;
    var m, n := s + 1, t + 1;
    assert m * n == s * n + n && m * n == t * m + m;
    WordOf(m);
    WordOf(n);
    WordOf(m * n);
    forall i, j | 0 <= i < m && 0 <= j < n
      ensures WordIndex(i, j, n) < Memory(m, n)
    {
      AtBelow(i, j, m, n);
      WordOf(At(i, j, n));
    }
  }

  lemma WordOf(x: nat)
    requires x < WORD32
    ensures x % WORD32 == x
  {
  }

  // The last index of 32 bits belongs to the table but not to any memory.
  lemma TooLarge(m: nat, n: nat)
    requires n > 0 && m * n >= WORD32
    ensures exists i, j :: 0 <= i < m && 0 <= j < n && WordIndex(i, j, n) >= Memory(m, n)
  {
    var i, j := (WORD32 - 1) / n, (WORD32 - 1) % n;
    assert At(i, j, n) == WORD32 - 1;
    if i >= m { MulMonotone(m, i, n); }
    assert WordIndex(i, j, n) == WORD32 - 1 by { WordOf(WORD32 - 1); }
    assert Memory(m, n) <= WORD32 - 1;
  }

  /** Two texts of 65535 characters: the size wraps to 0, and the second row starts outside the buffer. */
  lemma LongTextsOverflow()
    ensures Lines(65535) == 65536 && Memory(65536, 65536) == BUFFER && WordIndex(1, 0, 65536) == 65536 > BUFFER
  {
  }
}
