/**
  Multiplication of halfs: normalised significands, an exact 22-bit product, one rounding.
*/
module HalfMul {
  import opened Bits
  import opened HalfFormat
  import opened HalfRounding

  /**
    A magnitude v held as a bit pattern a with its leading bit in place, and the exponent e that
    goes with it: 1024 v is the significand of a times 2^(e+9).
  */
  ghost predicate Normal(v: nat, a: nat, e: int) {
    0x400 <= a < INF && -9 <= e <= 30 && v * 0x400 == (0x400 + a % 0x400) * Pow2(e + 9)
  }

  lemma NormalPattern(a: nat)
    requires 0x400 <= a < INF
    ensures Normal(Val(a), a, a / 0x400)
  {
    hide Pow2;
    var e := a / 0x400;
    Pow2Ten(e - 1);
    MulAssoc3(0x400 + a % 0x400, Pow2(e - 1), 0x400);
  }

  // Ten doublings at most
  lemma NormalSubnormal(v: nat, a: nat, t: nat)
    requires 0x400 <= a < 0x800 && t <= 10 && a * Pow2(10 - t) == v * 0x400
    ensures Normal(v, a, 1 - t)
  {
    hide Pow2;
    assert a % 0x400 == a - 0x400;
  }

  lemma DoubleStep(a: nat, t: nat, w: nat)
    requires t < 10 && a * Pow2(10 - t) == w
    ensures (2 * a) * Pow2(10 - (t + 1)) == w
  {
    hide Pow2;
    Pow2Succ(9 - t);
    MulAssoc3(a, 2, Pow2(9 - t));
  }

  lemma TenBits(a: nat, t: nat)
    requires Pow2(t) <= a < 0x400
    ensures t < 10
  {
    hide Pow2;
    Pow2Zero();
    Pow2Ten(0);
    if t >= 10 { Pow2Monotone(10, t); }
  }

  /** The normalisation loop shared by the operations: `for(; abs<0x400; abs<<=1,--exp)`. */
  method Normalise(abs: nat, exp0: int) returns (a: nat, exp: int)
    requires 0 < abs < INF
    ensures Normal(Val(abs), a, exp - exp0 + a / 0x400)
  {
    hide Pow2, Val;
    a, exp := abs, exp0;
    if a >= 0x400 { NormalPattern(a); }
    ghost var t: nat := 0;
    Pow2Zero(); Pow2Ten(0);
    while a < 0x400
      invariant t <= 10 && exp == exp0 - t
      invariant abs >= 0x400 ==> a == abs && t == 0
      invariant abs < 0x400 ==> a < 0x800 && Pow2(t) <= a && a * Pow2(10 - t) == abs * 0x400
      decreases 0x400 - a
    {
      TenBits(a, t);
      DoubleStep(a, t, abs * 0x400);
      Pow2Succ(t);
      a, exp, t := 2 * a, exp - 1, t + 1;
    }
    if abs < 0x400 {
      SubnormalVal(abs);
      NormalSubnormal(abs, a, t);
    }
  }

  lemma SubnormalVal(a: nat)
    requires a < 0x400
    ensures Val(a) == a
  {
  }

  // ---------------------------------------------------------------- the product

  // m is the product of the significands, w the weight of its unit after scaling by 2^20.
  lemma ProductScaled(vx: nat, vy: nat, sx: nat, sy: nat, ex: int, ey: int)
    requires -9 <= ex && -9 <= ey && vx * 0x400 == sx * Pow2(ex + 9) && vy * 0x400 == sy * Pow2(ey + 9)
    ensures vx * vy * 0x10_0000 == sx * sy * Pow2(ex + ey + 18)
  {
    hide Pow2;
    Pow2Adds(ex + 9, ey + 9);
    var p, q := Pow2(ex + 9), Pow2(ey + 9);
    calc {
      vx * vy * 0x10_0000;
      (vx * 0x400) * (vy * 0x400);
      (sx * p) * (sy * q);
      { Regroup(sx, p, sy, q); }
      sx * sy * (p * q);
    }
  }

  lemma Regroup(a: nat, p: nat, b: nat, q: nat)
    ensures (a * p) * (b * q) == a * b * (p * q)
  {
  }

  lemma ProductRange(sx: nat, sy: nat)
    requires 0x400 <= sx < 0x800 && 0x400 <= sy < 0x800
    ensures 0x10_0000 <= sx * sy < 0x40_0000
  {
    MulMonotone(0x400, sx, sy);
    MulMonotone(sx, 0x7FF, sy);
  }

  // Dropping the lowest bit of a product that is one bit too wide, keeping it as sticky
  lemma ProductHeld(m: nat, i: nat, x: nat, p: nat)
    requires p > 0 && i <= 1 && x == m * p
    ensures i == 0 ==> Held(m, false, x, p)
    ensures i == 1 ==> Held(m / 2, m % 2 == 1, x, 2 * p)
  {
    if i == 1 {
      var k := m / 2;
      assert k * (2 * p) == (2 * k) * p;
      assert (2 * k + 1) * p == (2 * k) * p + p;
      assert (k + 1) * (2 * p) == k * (2 * p) + 2 * p;
    }
  }

  lemma TwentyBits()
    ensures Pow2(20) == 0x10_0000 && Pow2(21) == 0x20_0000 && Pow2(24) == 0x100_0000
  {
    hide Pow2;
    Pow2Zero();
    Pow2Ten(0);
    Pow2Ten(10);
    Pow2Succ(20); Pow2Succ(21); Pow2Succ(22); Pow2Succ(23);
  }

  lemma Unscale(n: nat, k: nat, r: nat)
    requires Nearest(n * Pow2(k), Pow2(24 + k), r)
    ensures Nearest(n, 0x100_0000, r)
  {
    hide Pow2, Nearest;
    TwentyBits();
    Pow2Adds(24, k);
    NearestScales(n, 0x100_0000, Pow2(k), r);
  }

  lemma ProductRounds(n: nat, m: nat, i: nat, e: int)
    requires -18 <= e && 0x10_0000 <= m < 0x40_0000 && i == m / 0x20_0000
    requires n * 0x10_0000 == m * Pow2(e + 18)
    ensures i <= 1
    ensures var v := Finished(20, if i == 0 then m else m / 2, e - 16 + i, i == 1 && m % 2 == 1);
      v <= INF && Nearest(n, 0x100_0000, v)
  {
    hide Pow2, Nearest, Held, Finished;
    TwentyBits();
    var m', s, x := if i == 0 then m else m / 2, i == 1 && m % 2 == 1, n * 0x10_0000;
    ProductHeld(m, i, x, Pow2(e + 18));
    Pow2Succ(e + 18);
    FinishedRounds(20, m', e - 16 + i, s, 34, x);
    Unscale(n, 20, Finished(20, m', e - 16 + i, s));
  }

  lemma SignOfProduct(x: Half, y: Half)
    requires IsFinite(x) && IsFinite(y)
    ensures Magnitude(Value(x) * Value(y)) == Val(Abs(x)) * Val(Abs(y))
    ensures Value(x) * Value(y) == 0 <==> Abs(x) == 0 || Abs(y) == 0
    ensures Value(x) * Value(y) != 0 ==> (Value(x) * Value(y) < 0 <==> Negative(x) != Negative(y))
  {
    hide Val;
    ZeroVal(Abs(x));
    ZeroVal(Abs(y));
    var a: int, b: int := Val(Abs(x)), Val(Abs(y));
    assert (-a) * b == -(a * b) && a * (-b) == -(a * b) && (-a) * (-b) == a * b;
    if a > 0 && b > 0 { MulMonotoneStrict(0, a, b); }
  }

  /** Multiplication. */
  method Multiply(x: Half, y: Half) returns (r: Half)
    ensures IsFinite(x) && IsFinite(y) ==>
      Rounds(Value(x) * Value(y), 0x100_0000, Negative(x) != Negative(y), r)
    ensures IsNaN(x) || IsNaN(y) ==> r == Quiet(if IsNaN(x) then x else y)
    ensures (IsInf(x) && Abs(y) == 0) || (IsInf(y) && Abs(x) == 0) ==> r == INVALID
    ensures (IsInf(x) && !IsNaN(y) && Abs(y) != 0) || (IsInf(y) && !IsNaN(x) && Abs(x) != 0) ==>
      r == SignBit(Negative(x) != Negative(y)) + INF
  {
    hide Pow2, Nearest, Val, FixedToHalf, Normal, Magnitude;
    var absx: nat, absy: nat, exp := Abs(x), Abs(y), -16;
    var neg := Negative(x) != Negative(y);
    if absx >= INF || absy >= INF {
      return if absx > INF || absy > INF then (if absx > INF then Quiet(x) else Quiet(y))
             else if (absx == INF && absy == 0) || (absy == INF && absx == 0) then INVALID
             else SignBit(neg) + INF;
    }
    ghost var n := Value(x) * Value(y);
    SignOfProduct(x, y);
    if absx == 0 || absy == 0 {
      ZeroRounds(n, 0x100_0000, neg);
      return SignBit(neg);
    }
    absx, exp := Normalise(absx, exp);
    ghost var ex := exp + 16 + absx / 0x400;
    absy, exp := Normalise(absy, exp);
    ghost var ey := exp + 16 + absx / 0x400 - ex + absy / 0x400;
    var m := (absx % 0x400 + 0x400) * (absy % 0x400 + 0x400);
    var i := m / 0x20_0000;
    var s := i == 1 && m % 2 == 1;
    exp := exp + absx / 0x400 + absy / 0x400 + i;
    ProductOf(Val(Abs(x)), Val(Abs(y)), absx, absy, ex, ey, m, i);
    var m' := if i == 0 then m else m / 2;
    ghost var v := Finished(20, m', exp, s);
    WithSign(neg, v);
    FixedWithSign(20, m', exp, neg, s);
    SignedResult(n, 0x100_0000, neg, neg, v, SignBit(neg) + v);
    if exp > 29 {
      return SignBit(neg) + INF;
    } else if exp < -11 {
      return SignBit(neg);
    }
    r := FixedToHalf(20, m', exp, SignBit(neg), s);
  }

  lemma ProductOf(vx: nat, vy: nat, ax: nat, ay: nat, ex: int, ey: int, m: nat, i: nat)
    requires Normal(vx, ax, ex) && Normal(vy, ay, ey)
    requires m == (ax % 0x400 + 0x400) * (ay % 0x400 + 0x400) && i == m / 0x20_0000
    ensures 0x10_0000 <= m < 0x40_0000 && i <= 1
    ensures var v := Finished(20, if i == 0 then m else m / 2, ex + ey - 16 + i, i == 1 && m % 2 == 1);
      v <= INF && Nearest(vx * vy, 0x100_0000, v)
  {
    hide Pow2, Nearest, Finished;
    var sx, sy := ax % 0x400 + 0x400, ay % 0x400 + 0x400;
    ProductRange(sx, sy);
    ProductScaled(vx, vy, sx, sy, ex, ey);
    ProductRounds(vx * vy, m, i, ex + ey);
  }

  lemma ZeroRounds(n: int, d: nat, z: bool)
    requires n == 0 && d > 0
    ensures Rounds(n, d, z, SignBit(z))
  {
    hide Nearest;
    assert Val(0) == 0;
    ExactIsNearest(d, 0);
  }
}
