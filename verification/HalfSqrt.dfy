/**
  The digit-by-digit square root and the half square root built on it.
*/
module HalfSqrt {
  import opened Bits
  import opened HalfFormat
  import opened HalfRounding
  import opened HalfMul

  // ---------------------------------------------------------------- the integer loop

  lemma Square(a: nat, b: nat)
    ensures (a + b) * (a + b) == a * a + 2 * (a * b) + b * b
  {
  }

  lemma DigitStep(radicand: nat, a: nat, h: nat, r: nat)
    requires radicand == a * a + r && radicand < (a + 2 * h) * (a + 2 * h)
    ensures r < 2 * (a * h) + h * h ==> radicand < (a + h) * (a + h)
    ensures r >= 2 * (a * h) + h * h ==>
      radicand == (a + h) * (a + h) + (r - (2 * (a * h) + h * h))
      && radicand < (a + h + h) * (a + h + h)
  {
    Square(a, h);
  }

  lemma {:induction false} EvenPower(k: nat)
    ensures Pow2(2 * k) == Pow2(k) * Pow2(k)
  {
    Pow2Adds(k, k);
  }

  lemma HalfRoot(a: nat, h: nat)
    ensures a * (2 * h) == 2 * (a * h) && a * (2 * h) / 2 == a * h
    ensures (a + h) * h == a * h + h * h
  {
  }

  // The next digit's place value: bit = 4^k, so bit >> 2 is the next one, or 0 after 1
  lemma NextBit(k: nat)
    ensures Pow2(2 * k) / 4 == if k == 0 then 0 else Pow2(2 * (k - 1))
  {
    hide Pow2;
    if k == 0 {
      Pow2Zero();
    } else {
      Pow2Succ(2 * k - 1);
      Pow2Succ(2 * k - 2);
    }
  }

  // What holds with k digits still to be found: a is the root so far.
  ghost predicate Partial(radicand: nat, a: nat, k: nat, m: nat, r: nat, bit: nat) {
    && bit == (if k == 0 then 0 else Pow2(2 * (k - 1)))
    && m == a * Pow2(k) && radicand == a * a + r
    && radicand < (a + Pow2(k)) * (a + Pow2(k))
  }

  lemma PartialStep(radicand: nat, a: nat, k: nat, m: nat, r: nat, bit: nat)
    requires k > 0 && Partial(radicand, a, k, m, r, bit)
    ensures if r < m + bit then Partial(radicand, a, k - 1, m / 2, r, bit / 4)
            else Partial(radicand, a + Pow2(k - 1), k - 1, m / 2 + bit, r - (m + bit), bit / 4)
  {
    hide Pow2;
    var h := Pow2(k - 1);
    Pow2Succ(k - 1);
    EvenPower(k - 1);
    HalfRoot(a, h);
    DigitStep(radicand, a, h, r);
    NextBit(k - 1);
  }

  lemma PartialStart(f: nat, r0: nat, i: nat)
    requires f % 2 == 0 && r0 < Pow2(f + 1) && i <= 1
    ensures Partial(r0 * Pow2(i), 0, f / 2 + 1, 0, r0 * Pow2(i), Pow2(f)) && Bounded(f, 0, f / 2 + 1)
  {
    hide Pow2;
    var k := f / 2 + 1;
    EvenPower(k);
    Pow2Succ(f + 1);
    Pow2Zero(); Pow2Succ(0);
    assert 2 * k == f + 2 && 2 * (k - 1) == f;
    assert 0 * Pow2(k) == 0;
  }

  lemma PartialEnd(radicand: nat, a: nat, k: nat, m: nat, r: nat)
    requires Partial(radicand, a, k, m, r, 0)
    ensures m * m + r == radicand && r <= 2 * m
  {
    hide Pow2;
    Pow2Zero();
    Square(a, 1);
  }

  /**
    `detail::sqrt<F>`: r and exp are updated in place, m is returned. The radicand is shifted
    by one place when the exponent is odd; m is its integer square root and r what remains.
  */
  method DigitSqrt(f: nat, r0: nat, exp0: int) returns (m: nat, r: nat, exp: int)
    requires f % 2 == 0 && r0 < Pow2(f + 1)
    ensures exp0 == 2 * exp + exp0 % 2
    ensures m * m + r == r0 * Pow2(exp0 % 2) && r <= 2 * m
  {
    hide Pow2, Partial, Bounded;
    var i := exp0 % 2;
    r := r0 * Pow2(i);
    exp := (exp0 - i) / 2;
    m := 0;
    ghost var radicand: nat, a: nat, k: nat := r, 0, f / 2 + 1;
    var bit := Pow2(f);
    PartialStart(f, r0, i);
    while bit != 0
      invariant Partial(radicand, a, k, m, r, bit) && Bounded(f, a, k)
      invariant radicand == r0 * Pow2(i)
      decreases bit
    {
      assert k > 0 by { NotDone(radicand, a, k, m, r, bit); }
      assert f <= 30 ==> r < 0x1_0000_0000 && m + bit < 0x1_0000_0000 by {
        FitsWord(f, r0, i, radicand, a, k, m, r, bit);
      }
      BoundedStep(f, a, k);
      PartialStep(radicand, a, k, m, r, bit);
      if r < m + bit {
        m := m / 2;
      } else {
        r := r - (m + bit);
        m := m / 2 + bit;
        a := a + Pow2(k - 1);
      }
      bit, k := bit / 4, k - 1;
    }
    PartialEnd(radicand, a, k, m, r);
  }

  // The root found so far and the digits still to come stay below 2^(f/2+1).
  ghost predicate Bounded(f: nat, a: nat, k: nat) {
    k <= f / 2 + 1 && a + Pow2(k) <= Pow2(f / 2 + 1)
  }

  lemma BoundedStep(f: nat, a: nat, k: nat)
    requires Bounded(f, a, k) && k > 0
    ensures Bounded(f, a, k - 1) && Bounded(f, a + Pow2(k - 1), k - 1)
  {
    hide Pow2;
    Pow2Succ(k - 1);
  }

  lemma Balanced(a: nat, b: nat, c: nat)
    requires a + b <= 2 * c
    ensures a * b <= c * c
  {
    var d := c - b;
    if d >= 0 {
      MulMonotone(a, c + d, b);
      assert (c + d) * b == (c + d) * (c - d);
      assert (c + d) * (c - d) == c * c - d * d;
    } else {
      MulMonotone(a, 2 * c - b, b);
      assert (2 * c - b) * b == (c + d) * (c - d);
      assert (c + d) * (c - d) == c * c - d * d;
    }
    assert d * d >= 0;
  }

  /** In 32 bits nothing wraps, for every even f up to 30. */
  lemma FitsWord(f: nat, r0: nat, i: nat, radicand: nat, a: nat, k: nat, m: nat, r: nat, bit: nat)
    requires f % 2 == 0 && r0 < Pow2(f + 1) && i <= 1 && radicand == r0 * Pow2(i)
    requires Partial(radicand, a, k, m, r, bit) && Bounded(f, a, k) && k > 0
    ensures r < Pow2(f + 2) && m + bit <= Pow2(f + 1)
    ensures f <= 30 ==> Pow2(f + 1) < 0x1_0000_0000 && Pow2(f + 2) <= 0x1_0000_0000
  {
    hide Pow2;
    Pow2Zero(); Pow2Succ(0);
    Pow2Succ(f); Pow2Succ(f + 1);
    EvenPower(f / 2);
    Pow2Succ(f / 2);
    Balanced(a, Pow2(k), Pow2(f / 2));
    Pow2Monotone(2 * (k - 1), f);
    Remains(radicand, a, r);
    if f <= 30 { WordBits(f); }
  }

  lemma Remains(radicand: nat, a: nat, r: nat)
    requires radicand == a * a + r
    ensures r <= radicand
  {
    assert a * a >= 0;
  }

  lemma WordBits(f: nat)
    requires f <= 30
    ensures Pow2(f + 1) < 0x1_0000_0000 && Pow2(f + 2) <= 0x1_0000_0000
  {
    hide Pow2;
    Pow2Succ(f + 1);
    Pow2Monotone(f + 2, 32);
    Pow2Zero();
    Pow2Ten(0); Pow2Ten(10); Pow2Ten(20);
    Pow2Succ(30); Pow2Succ(31);
  }

  lemma NotDone(radicand: nat, a: nat, k: nat, m: nat, r: nat, bit: nat)
    requires Partial(radicand, a, k, m, r, bit) && bit != 0
    ensures k > 0
  {
  }

  // ---------------------------------------------------------------- correct rounding of a root

  /** r is the half nearest to the square root of n, decided by squares of midpoints. */
  ghost predicate NearestRoot(n: nat, r: nat) {
    && r <= INF
    && (r > 0 ==> RootSquare(Val(r - 1) + Val(r)) < 4 * n)
    && (r < INF ==> 4 * n < RootSquare(Val(r) + Val(r + 1)))
  }

  function RootSquare(a: nat): nat { a * a }

  lemma SquareMonotone(a: real, b: real)
    requires a >= b >= 0.0
    ensures a * a >= b * b
  {
    assert a * a >= a * b && a * b >= b * b;
  }

  lemma SquareBelow(a: real, b: real)
    requires a >= 0.0 && b >= 0.0 && a * a < b * b
    ensures a < b
  {
    if a >= b { SquareMonotone(a, b); }
  }

  /** With q the real root, no other half is as near: there are no ties. */
  lemma NearestRootIsNearest(n: nat, r: nat, q: real, h: nat)
    requires NearestRoot(n, r) && q >= 0.0 && q * q == n as real && h <= INF && h != r
    ensures h < r ==> q - Val(h) as real > Val(r) as real - q && q - Val(h) as real > q - Val(r) as real
    ensures h > r ==> Val(h) as real - q > q - Val(r) as real && Val(h) as real - q > Val(r) as real - q
  {
    hide Val;
    assert (2.0 * q) * (2.0 * q) == 4.0 * n as real;
    if h < r {
      ValMonotone(r - 1, r);
      if h < r - 1 { ValMonotone(h, r - 1); }
      BetweenRoots(n, Val(r - 1) + Val(r), q);
    } else {
      ValMonotone(r, r + 1);
      if r + 1 < h { ValMonotone(r + 1, h); }
      BetweenRoots(n, Val(r) + Val(r + 1), q);
    }
  }

  lemma BetweenRoots(n: nat, mid: nat, q: real)
    requires q >= 0.0 && q * q == n as real
    ensures RootSquare(mid) < 4 * n ==> mid as real < 2.0 * q
    ensures 4 * n < RootSquare(mid) ==> 2.0 * q < mid as real
  {
    assert (2.0 * q) * (2.0 * q) == 4.0 * (q * q);
    assert (mid as real) * (mid as real) == RootSquare(mid) as real;
    if RootSquare(mid) < 4 * n { SquareBelow(mid as real, 2.0 * q); }
    if 4 * n < RootSquare(mid) { SquareBelow(2.0 * q, mid as real); }
  }

  lemma SquareStrict(a: nat, b: nat)
    requires a < b
    ensures a * a < b * b
  {
    MulMonotone(a, b, a);
    MulMonotoneStrict(a, b, b);
  }

  lemma SquareScales(a: nat, u: nat)
    ensures RootSquare(a * u) == RootSquare(a) * RootSquare(u)
  {
    Regroup(a, u, a, u);
  }

  lemma RootBetween(m: nat, r: nat, radicand: nat, u: nat, n: nat)
    requires u > 0 && m * m + r == radicand && r <= 2 * m && n == radicand * RootSquare(u)
    ensures RootSquare(m * u) <= n < RootSquare((m + 1) * u)
  {
    var uu := RootSquare(u);
    assert uu > 0 by { MulMonotoneStrict(0, u, u); }
    Square(m, 1);
    SquareScales(m, u);
    SquareScales(m + 1, u);
    MulMonotone(RootSquare(m), radicand, uu);
    MulMonotoneStrict(radicand, RootSquare(m + 1), uu);
  }

  lemma RootMidpoint(m: nat, r: nat, radicand: nat, u: nat, n: nat)
    requires u > 0 && m * m + r == radicand && n == radicand * RootSquare(u)
    ensures r > m ==> RootSquare(m * u + (m + 1) * u) < 4 * n
    ensures r <= m ==> 4 * n < RootSquare(m * u + (m + 1) * u)
  {
    var uu := RootSquare(u);
    assert uu > 0 by { MulMonotoneStrict(0, u, u); }
    assert (2 * m + 1) * u == m * u + (m + 1) * u;
    SquareScales(2 * m + 1, u);
    assert (4 * radicand) * uu == 4 * n;
    Square(2 * m, 1);
    assert (2 * m) * (2 * m) == 4 * (m * m);
    if r > m { MulMonotoneStrict(RootSquare(2 * m + 1), 4 * radicand, uu); }
    else { MulMonotoneStrict(4 * radicand, RootSquare(2 * m + 1), uu); }
  }

  /** Remainder against root decides the rounding; a tie would need r = m + 1/4. */
  lemma RootRounds(n: nat, radicand: nat, u: nat, m: nat, r: nat, v: nat)
    requires u > 0 && n == radicand * RootSquare(u) && m * m + r == radicand && r <= 2 * m
    requires v + 1 < INF && Val(v) == m * u && Val(v + 1) == (m + 1) * u
    ensures NearestRoot(n, Rounded(v, r > m, r != 0))
  {
    hide Val, RootSquare;
    RootBetween(m, r, radicand, u, n);
    RootMidpoint(m, r, radicand, u, n);
    RootBelow(n, Val(v + 1), Val(v + 2), v);
    if v > 0 { RootAbove(n, Val(v - 1), Val(v), v); }
  }

  lemma RootBelow(n: nat, a: nat, b: nat, v: nat)
    requires a == Val(v + 1) && b == Val(v + 2) && n < RootSquare(a)
    ensures 4 * n < RootSquare(a + b)
  {
    hide Val;
    ValMonotone(v + 1, v + 2);
    SquareStrict(2 * a, a + b);
    assert (2 * a) * (2 * a) == 4 * (a * a);
  }

  lemma RootAbove(n: nat, a: nat, b: nat, v: nat)
    requires v > 0 && a == Val(v - 1) && b == Val(v) && RootSquare(b) <= n
    ensures RootSquare(a + b) < 4 * n
  {
    hide Val;
    ValMonotone(v - 1, v);
    SquareStrict(a + b, 2 * b);
    assert (2 * b) * (2 * b) == 4 * (b * b);
  }

  // The radicand handed to the loop, against the square root's exponent
  lemma RadicandScale(v: nat, s: nat, e: int, q: int, i: nat)
    requires e >= -9 && v * 0x400 == s * Pow2(e + 9) && 15 + e == 2 * q + i && i <= 1
    ensures q >= 1 && v * 0x100_0000 == s * 0x400 * Pow2(i) * RootSquare(Pow2(q - 1))
  {
    hide Pow2;
    EvenPower(q - 1);
    RadicandUnits(e, q, i);
    var w, b, j, u := Pow2(e + 9), 0x4000, Pow2(i), Pow2(2 * (q - 1));
    calc {
      v * 0x100_0000;
      v * 0x400 * b;
      s * w * b;
      { MulAssoc3(s, w, b); }
      s * (w * b);
      s * (0x400 * (j * u));
      { MulAssoc3(s * 0x400, j, u); }
      s * 0x400 * j * u;
    }
  }

  lemma RadicandUnits(e: int, q: int, i: nat)
    requires e >= -9 && 15 + e == 2 * q + i && i <= 1
    ensures q >= 1 && Pow2(e + 9) * 0x4000 == 0x400 * (Pow2(i) * Pow2(2 * (q - 1)))
  {
    hide Pow2;
    Pow2Adds(i, 2 * (q - 1));
    assert i + 2 * (q - 1) == e + 13;
    SixteenTimes(e + 9);
  }

  lemma SixteenTimes(n: nat)
    ensures Pow2(n + 4) == 16 * Pow2(n)
  {
    hide Pow2;
    Pow2Succ(n); Pow2Succ(n + 1); Pow2Succ(n + 2); Pow2Succ(n + 3);
  }

  // The root of a radicand in [2^20, 2^22) has eleven bits.
  lemma RootRange(radicand: nat, m: nat, r: nat)
    requires 0x10_0000 <= radicand < 0x40_0000 && m * m + r == radicand && r <= 2 * m
    ensures 0x400 <= m < 0x800
  {
    Square(m, 1);
    if m + 1 < 0x400 { SquareStrict(m + 1, 0x400); }
    else if m > 0x800 { SquareStrict(0x800, m); }
  }

  /** Square root: of a positive finite half, the nearest half to the real root. */
  method Sqrt(arg: Half) returns (r: Half)
    ensures 0 < arg < INF ==> NearestRoot(Val(arg) * 0x100_0000, r)
    ensures IsNaN(arg) ==> r == Quiet(arg)
    ensures !IsNaN(arg) && Negative(arg) && Abs(arg) != 0 ==> r == INVALID
    ensures Abs(arg) == 0 || arg == INF ==> r == arg
  {
    hide Val, Pow2, NearestRoot, Rounded;
    var abs: nat, exp := Abs(arg), 15;
    if abs == 0 || arg >= INF {
      return if abs > INF then Quiet(arg) else if arg > 0x8000 then INVALID else arg;
    }
    abs, exp := Normalise(abs, exp);
    var s := abs % 0x400 + 0x400;
    exp := exp + abs / 0x400;
    ghost var e := exp - 15;
    var m, rem;
    ghost var exp1 := exp;
    assert s * 0x400 < Pow2(21) by { TwentyBits(); }
    m, rem, exp := DigitSqrt(20, s * 0x400, exp);
    RootFields(Val(arg), s, e, m, rem, exp, exp1 % 2);
    RootRoundedBelow((exp - 1) * 0x400 + m, rem > m, rem != 0);
    r := Rounded(exp * 0x400 + m % 0x400, rem > m, rem != 0);
  }

  lemma RootRoundedBelow(v: nat, g: bool, s: bool)
    ensures Rounded(v, g, s) <= v + 1
  {
  }

  lemma RootFields(v: nat, s: nat, e: int, m: nat, rem: nat, q: int, i: nat)
    requires -9 <= e <= 30 && 0x400 <= s < 0x800 && v * 0x400 == s * Pow2(e + 9)
    requires 15 + e == 2 * q + i && i <= 1 && m * m + rem == s * 0x400 * Pow2(i) && rem <= 2 * m
    ensures 1 <= q <= 22 && 0x400 <= m < 0x800 && q * 0x400 + m % 0x400 == (q - 1) * 0x400 + m
    ensures NearestRoot(v * 0x100_0000, Rounded((q - 1) * 0x400 + m, rem > m, rem != 0))
  {
    hide Val, Pow2, NearestRoot, Rounded;
    var radicand := s * 0x400 * Pow2(i);
    Pow2Zero(); Pow2Succ(0);
    RootRange(radicand, m, rem);
    RadicandScale(v, s, e, q, i);
    ValOfFields(q - 1, m);
    ValOfFields(q - 1, m + 1);
    RootRounds(v * 0x100_0000, radicand, Pow2(q - 1), m, rem, (q - 1) * 0x400 + m);
  }
}
