/**
  Fused multiply-add: the exact product and the third operand are aligned as 24-bit mantissas,
  added or subtracted, and rounded once, whatever the cancellation.

  Quantities are scaled by 2^69, so that one unit of a mantissa with exponent `exp` weighs
  2^(exp+79), a whole number for every exponent that occurs.
*/
module HalfFma {
  import opened Bits
  import opened HalfFormat
  import opened HalfRounding
  import opened HalfMul

  function Scaled(n: nat): nat { n * Pow2(69) }

  const TOP: nat := 0x80_0000    // 2^23, the smallest full-width mantissa

  /** m is full-width, a multiple of four, and stands for x. */
  ghost predicate Weighs(m: nat, exp: int, x: nat) {
    TOP <= m < 2 * TOP && m % 4 == 0 && -33 <= exp <= 60 && x == m * Pow2(exp + 79)
  }

  lemma Powers()
    ensures Pow2(2) == 4 && Pow2(3) == 8 && Pow2(13) == 0x2000 && Pow2(23) == TOP && Pow2(24) == 2 * TOP
  {
    hide Pow2;
    Pow2Zero();
    Pow2Succ(0); Pow2Succ(1); Pow2Succ(2);
    Pow2Ten(3);
    Pow2Ten(13);
    Pow2Succ(23);
  }

  // From one pair of units to another
  lemma Rescale(v: nat, a: nat, s: nat, w: nat, b: nat, k: nat, e: nat)
    requires v * a == s * w && w * b == k * e
    ensures v * (a * b) == (s * k) * e
  {
    MulAssoc3(v, a, b);
    MulAssoc3(s, w, b);
    MulAssoc3(s, k, e);
  }

  // m << (3 - i) keeps the product's value.
  lemma ProductWeighs(n: nat, m: nat, i: nat, e: int)
    requires -18 <= e <= 60 && 0x10_0000 <= m < 0x40_0000 && i == m / 0x20_0000
    requires n * 0x10_0000 == m * Pow2(e + 18)
    ensures i <= 1 && Weighs(m * (if i == 0 then 8 else 4), e - 15 + i, Scaled(n))
  {
    hide Pow2, Scaled;
    var k, b := if i == 0 then 8 else 4, Pow2(49);
    ProductUnits(e, i, k);
    Rescale(n, 0x10_0000, m, Pow2(e + 18), b, k, Pow2(e - 15 + i + 79));
    ProductScale(n, b);
  }

  lemma ProductUnits(e: int, i: nat, k: nat)
    requires -18 <= e && i <= 1 && k == if i == 0 then 8 else 4
    ensures Pow2(e + 18) * Pow2(49) == k * Pow2(e - 15 + i + 79)
  {
    hide Pow2;
    Powers();
    Pow2Adds(e + 18, 49);
    Pow2Adds(3 - i, e - 15 + i + 79);
  }

  lemma ProductScale(n: nat, b: nat)
    requires b == Pow2(49)
    ensures n * (0x10_0000 * b) == Scaled(n)
  {
    hide Pow2;
    TwentyBits();
    Pow2Adds(20, 49);
  }

  lemma AddendWeighs(vz: nat, sz: nat, ez: int)
    requires -9 <= ez <= 30 && vz * 0x400 == sz * Pow2(ez + 9) && 0x400 <= sz < 0x800
    ensures Weighs(sz * 0x2000, ez, Scaled(vz * 0x100_0000))
  {
    hide Pow2, Scaled;
    var b := Pow2(83);
    AddendUnits(ez);
    Rescale(vz, 0x400, sz, Pow2(ez + 9), b, 0x2000, Pow2(ez + 79));
    AddendScale(vz, b);
    assert 0x400 * sz * 8 == sz * 0x2000;
  }

  lemma AddendUnits(ez: int)
    requires -9 <= ez
    ensures Pow2(ez + 9) * Pow2(83) == 0x2000 * Pow2(ez + 79)
  {
    hide Pow2;
    Powers();
    Pow2Adds(ez + 9, 83);
    Pow2Adds(13, ez + 79);
  }

  lemma AddendScale(vz: nat, b: nat)
    requires b == Pow2(83)
    ensures vz * (0x400 * b) == Scaled(vz * 0x100_0000)
  {
    hide Pow2;
    var k := Pow2(69);
    assert 0x400 * b == 0x100_0000 * k by {
      Powers();
      Pow2Ten(83);
      Pow2Adds(24, 69);
    }
    MulAssoc3(vz, 0x100_0000, k);
  }

  // ---------------------------------------------------------------- alignment

  /** The smaller operand shifted to the exponent of the larger. */
  lemma Aligned(mb: nat, eb: int, xb: nat, ms: nat, es: int, xs: nat, d: nat, small: nat)
    requires Weighs(mb, eb, xb) && Weighs(ms, es, xs) && d == eb - es && (d == 0 ==> ms <= mb)
    requires small == if d < 23 then Jam(ms, d) else 1
    ensures 1 <= small <= mb && Cell(small, xs, Pow2(eb + 79), 2)
    ensures xs == small * Pow2(eb + 79) || 2 * (mb - small) >= TOP
  {
    hide Pow2, Cell, Jam;
    var w := Pow2(es + 79);
    Powers();
    Pow2Adds(d, es + 79);
    if d >= 23 { JamToSticky(ms, d, 23); }
    JamIsCell(ms, d, w);
    JamBounds(ms, d);
    if d <= 2 {
      LowBitsZero(ms / 4, 2, d);
      JamExact(ms, d, w);
    } else {
      assert small * Pow2(3) <= ms + Pow2(3);
    }
    if d > 0 {
      Pow2Zero(); Pow2Succ(0);
      assert small * Pow2(1) <= ms + Pow2(1);
    }
  }

  /** Comparing exponents first and mantissas second compares the operands. */
  lemma Order(m: nat, exp: int, x: nat, mz: nat, expz: int, xz: nat)
    requires Weighs(m, exp, x) && Weighs(mz, expz, xz)
    ensures (expz > exp || (expz == exp && mz > m)) ==> x < xz
    ensures !(expz > exp || (expz == exp && mz > m)) ==> xz <= x
  {
    hide Pow2;
    if exp == expz {
      MulCompare(m, mz, Pow2(exp + 79));
    } else if exp < expz {
      Ordered(m, exp, mz, expz);
    } else {
      Ordered(mz, expz, m, exp);
    }
  }

  lemma Ordered(m: nat, exp: int, mz: nat, expz: int)
    requires m < 2 * TOP <= 2 * mz && exp < expz && exp + 79 >= 0
    ensures m * Pow2(exp + 79) < mz * Pow2(expz + 79)
  {
    hide Pow2;
    var p := Pow2(exp + 79);
    Pow2Succ(exp + 79);
    Pow2Monotone(exp + 80, expz + 79);
    MulMonotoneStrict(m, 2 * mz, p);
    assert (2 * mz) * p == mz * (2 * p);
    MulMonotone(2 * p, Pow2(expz + 79), mz);
  }

  // ---------------------------------------------------------------- the final rounding

  lemma FmaRounds(n: nat, m: nat, exp: int)
    requires TOP <= m < 2 * TOP && exp + 79 >= 0 && Cell(m, Scaled(n), Pow2(exp + 79), 4)
    ensures Finished(23, m, exp - 1, false) <= INF && Nearest(n, 0x100_0000, Finished(23, m, exp - 1, false))
  {
    hide Pow2, Nearest, Cell, Finished;
    Powers();
    FinishedRounds(23, m, exp - 1, false, 80, Scaled(n));
    Unscale(n, 69, Finished(23, m, exp - 1, false));
  }

  // Left shifts never outrun the scale: m has at most 24 bits.
  lemma ShiftBudget(m: nat, t: nat)
    requires Pow2(t) <= m < TOP
    ensures t < 23
  {
    hide Pow2;
    Powers();
    if t >= 23 { Pow2Monotone(23, t); }
  }

  // Normalisation after a subtraction: `for(; m<0x800000; m<<=1,--exp)`
  method NormaliseDifference(m0: nat, exp0: int, ghost x: nat) returns (m: nat, exp: int)
    requires 0 < m0 < 2 * TOP && exp0 >= -33 && Settling(m0, x, Pow2(exp0 + 79), TOP)
    ensures TOP <= m < 2 * TOP && exp + 79 >= 0 && Cell(m, x, Pow2(exp + 79), 4)
  {
    hide Pow2, Settling, Cell;
    m, exp := m0, exp0;
    ghost var t: nat := 0;
    Pow2Zero();
    while m < TOP
      invariant 0 < m < 2 * TOP && t <= 23 && exp == exp0 - t && Pow2(t) <= m
      invariant Settling(m, x, Pow2(exp + 79), TOP)
      decreases TOP - m
    {
      ShiftBudget(m, t);
      Pow2Succ(t);
      Pow2Succ(exp + 78);
      SettleStep(m, x, Pow2(exp + 78), TOP);
      m, exp, t := 2 * m, exp - 1, t + 1;
    }
    Settled(m, x, Pow2(exp + 79), TOP);
  }

  // Aligns, then adds or subtracts. `zero` reports exact cancellation.
  method Combine(sub: bool, mb: nat, eb: int, ms: nat, es: int, ghost xb: nat, ghost xs: nat)
    returns (zero: bool, m: nat, exp: int)
    requires Weighs(mb, eb, xb) && Weighs(ms, es, xs) && es <= eb && (es == eb ==> ms <= mb)
    ensures sub ==> xs <= xb
    ensures zero == (sub && xb == xs)
    ensures !zero ==> TOP <= m < 2 * TOP && exp + 79 >= 0
    ensures !zero ==> Cell(m, if sub then xb - xs else xb + xs, Pow2(exp + 79), 4)
  {
    hide Pow2, Cell, Settling, Jam;
    m, exp, zero := mb, eb, false;
    var d := eb - es;
    var small := if d < 23 then Jam(ms, d) else 1;
    Aligned(mb, eb, xb, ms, es, xs, d, small);
    if sub {
      DifferenceCell(xb, xs, Pow2(eb + 79), mb, small, TOP);
      m := m - small;
      if m == 0 {
        zero := true;
        return;
      }
      m, exp := NormaliseDifference(m, exp, xb - xs);
    } else {
      m := m + small;
      var i := m / 0x100_0000;
      m := if i == 0 then m else Jam(m, 1);
      SumCell(xb, xs, Pow2(eb + 79), mb, small, i, m, TOP);
      Pow2Succ(eb + 79);
      exp := exp + i;
    }
  }

  // The sign of the sum follows the larger of the product and the third operand.
  lemma SignOfFma(p: int, z: int, negp: bool, negz: bool, vp: nat, vz: nat)
    requires vp > 0 && vz > 0
    requires p == (if negp then -(vp as int) else vp) && z == (if negz then -(vz as int) else vz)
    ensures negp == negz ==> Magnitude(p + z) == vp + vz && (p + z < 0) == negp && p + z != 0
    ensures negp != negz && vp < vz ==> Magnitude(p + z) == vz - vp && (p + z < 0) == negz && p + z != 0
    ensures negp != negz && vz <= vp ==> Magnitude(p + z) == vp - vz && (vz < vp ==> (p + z < 0) == negp && p + z != 0)
  {
  }

  lemma ScaledOrder(a: nat, b: nat)
    ensures Scaled(a) < Scaled(b) <==> a < b
    ensures Scaled(a) + Scaled(b) == Scaled(a + b)
    ensures a <= b ==> Scaled(b) - Scaled(a) == Scaled(b - a)
  {
    hide Pow2;
    MulCompare(a, b, Pow2(69));
    if a <= b { assert Scaled(b) == Scaled(b - a) + Scaled(a); }
  }

  // ---------------------------------------------------------------- the operation

  // The exact product as a 24-bit mantissa
  method Product(x0: nat, y0: nat) returns (m: nat, exp: int)
    requires 0 < x0 < INF && 0 < y0 < INF
    ensures Weighs(m, exp, Scaled(Val(x0) * Val(y0)))
  {
    hide Pow2, Val, Weighs, Scaled, Normal;
    var absx, absy := x0, y0;
    exp := -15;
    absx, exp := Normalise(absx, exp);
    ghost var ex := exp + 15 + absx / 0x400;
    absy, exp := Normalise(absy, exp);
    ghost var ey := exp + 15 + absx / 0x400 - ex + absy / 0x400;
    m := (absx % 0x400 + 0x400) * (absy % 0x400 + 0x400);
    var i := m / 0x20_0000;
    FullWidth(Val(x0), Val(y0), absx, absy, ex, ey, m, i);
    exp := exp + absx / 0x400 + absy / 0x400 + i;
    m := m * (if i == 0 then 8 else 4);
  }

  lemma FullWidth(vx: nat, vy: nat, ax: nat, ay: nat, ex: int, ey: int, m: nat, i: nat)
    requires Normal(vx, ax, ex) && Normal(vy, ay, ey)
    requires m == (ax % 0x400 + 0x400) * (ay % 0x400 + 0x400) && i == m / 0x20_0000
    ensures Weighs(m * (if i == 0 then 8 else 4), ex + ey - 15 + i, Scaled(vx * vy))
  {
    hide Pow2, Weighs, Scaled;
    ProductRange(ax % 0x400 + 0x400, ay % 0x400 + 0x400);
    ProductScaled(vx, vy, ax % 0x400 + 0x400, ay % 0x400 + 0x400, ex, ey);
    ProductWeighs(vx * vy, m, i, ex + ey);
  }

  // The third operand as a 24-bit mantissa
  method Addend(z0: nat) returns (mz: nat, expz: int)
    requires 0 < z0 < INF
    ensures Weighs(mz, expz, Scaled(Val(z0) * 0x100_0000))
  {
    hide Pow2, Val, Weighs, Scaled;
    var absz := z0;
    absz, expz := Normalise(absz, 0);
    expz := expz + absz / 0x400;
    mz := (absz % 0x400 + 0x400) * 0x2000;
    AddendWeighs(Val(z0), absz % 0x400 + 0x400, expz);
  }

  // Puts the larger operand first and combines the two. p and z are the signed exact operands.
  method AddProduct(negp: bool, negz: bool, mp: nat, expp: int, mz0: nat, expz0: int,
                    ghost vp: nat, ghost vz: nat, ghost p: int, ghost z: int)
    returns (zero: bool, neg: bool, m: nat, exp: int)
    requires vp > 0 && vz > 0 && Weighs(mp, expp, Scaled(vp)) && Weighs(mz0, expz0, Scaled(vz))
    requires p == (if negp then -(vp as int) else vp) && z == (if negz then -(vz as int) else vz)
    ensures zero == (p + z == 0) && (zero ==> negp != negz)
    ensures !zero ==> neg == (p + z < 0) && TOP <= m < 2 * TOP && exp + 79 >= 0
    ensures !zero ==> Cell(m, Scaled(Magnitude(p + z)), Pow2(exp + 79), 4)
  {
    hide Pow2, Weighs, Cell, Scaled;
    var mz, expz := mz0, expz0;
    m, exp, neg := mp, expp, negp;
    Order(m, exp, Scaled(vp), mz, expz, Scaled(vz));
    ScaledOrder(vp, vz);
    ScaledOrder(vz, vp);
    SignOfFma(p, z, negp, negz, vp, vz);
    ghost var big, small := vp, vz;
    if expz > exp || (expz == exp && mz > m) {
      m, mz := mz, m;
      exp, expz := expz, exp;
      big, small := vz, vp;
      if negp != negz {
        neg := negz;
      }
    }
    zero, m, exp := Combine(negp != negz, m, exp, mz, expz, Scaled(big), Scaled(small));
  }

  /** Fused multiply-add. */
  method Fma(x: Half, y: Half, z: Half) returns (r: Half)
    ensures IsFinite(x) && IsFinite(y) && IsFinite(z) ==>
      Rounds(Value(x) * Value(y) + Value(z) * 0x100_0000, 0x100_0000,
             Negative(x) != Negative(y) && Negative(z), r)
    ensures IsNaN(x) || IsNaN(y) || IsNaN(z) ==>
      r == Quiet(if IsNaN(x) then x else if IsNaN(y) then y else z)
    ensures !IsNaN(x) && !IsNaN(y) && !IsNaN(z) && (IsInf(x) || IsInf(y)) ==>
      var neg := Negative(x) != Negative(y);
      if Abs(x) == 0 || Abs(y) == 0 || (IsInf(z) && Negative(z) != neg) then r == INVALID
      else r == SignBit(neg) + INF
    ensures IsFinite(x) && IsFinite(y) && IsInf(z) ==> r == z
  {
    hide Pow2, Nearest, Val, FixedToHalf, Magnitude, Cell, Weighs, Scaled;
    var absx: nat, absy: nat, absz: nat := Abs(x), Abs(y), Abs(z);
    var neg := Negative(x) != Negative(y);
    var sub := neg != Negative(z);
    if absx >= INF || absy >= INF || absz >= INF {
      return
        if absx > INF || absy > INF || absz > INF then
          (if absx > INF then Quiet(x) else if absy > INF then Quiet(y) else Quiet(z))
        else if absx == INF then
          (if absy == 0 || (sub && absz == INF) then INVALID else SignBit(neg) + INF)
        else if absy == INF then
          (if absx == 0 || (sub && absz == INF) then INVALID else SignBit(neg) + INF)
        else z;
    }
    ghost var n := Value(x) * Value(y) + Value(z) * 0x100_0000;
    ProductParts(x, y, z);
    if absx == 0 || absy == 0 {
      NoProduct(x, y, z);
      return if absz != 0 then z else if neg && Negative(z) then 0x8000 else 0;
    }
    var m, exp := Product(absx, absy);
    if absz != 0 {
      var mz, expz := Addend(absz);
      var zero;
      zero, neg, m, exp := AddProduct(neg, Negative(z), m, exp, mz, expz, Val(absx) * Val(absy),
                                      Val(absz) * 0x100_0000, Value(x) * Value(y), Value(z) * 0x100_0000);
      if zero {
        ZeroRounds(n, 0x100_0000, false);
        return 0;
      }
    } else {
      ExactCell(m, exp, Magnitude(n));
    }
    FmaRounds(Magnitude(n), m, exp);
    ghost var v := Finished(23, m, exp - 1, false);
    WithSign(neg, v);
    FixedWithSign(23, m, exp - 1, neg, false);
    SignedResult(n, 0x100_0000, neg, Negative(x) != Negative(y) && Negative(z), v, SignBit(neg) + v);
    if exp > 30 {
      return SignBit(neg) + INF;
    } else if exp < -10 {
      return SignBit(neg);
    }
    r := FixedToHalf(23, m, exp - 1, SignBit(neg), false);
  }

  lemma ExactCell(m: nat, exp: int, n: nat)
    requires Weighs(m, exp, Scaled(n))
    ensures TOP <= m < 2 * TOP && exp + 79 >= 0 && Cell(m, Scaled(n), Pow2(exp + 79), 4)
  {
    hide Pow2;
  }

  // The exact operands of the final addition, with their signs
  lemma ProductParts(x: Half, y: Half, z: Half)
    requires IsFinite(x) && IsFinite(y) && IsFinite(z)
    ensures var vp, vz := Val(Abs(x)) * Val(Abs(y)), Val(Abs(z)) * 0x100_0000;
      && Value(x) * Value(y) == (if Negative(x) != Negative(y) then -(vp as int) else vp)
      && Value(z) * 0x100_0000 == (if Negative(z) then -(vz as int) else vz)
      && (vp > 0 <==> Abs(x) != 0 && Abs(y) != 0) && (vz > 0 <==> Abs(z) != 0)
      && (vz == 0 ==> Magnitude(Value(x) * Value(y) + Value(z) * 0x100_0000) == vp)
  {
    hide Val;
    SignOfProduct(x, y);
    ZeroVal(Abs(z));
  }

  // A zero product leaves the third operand.
  lemma NoProduct(x: Half, y: Half, z: Half)
    requires IsFinite(x) && IsFinite(y) && IsFinite(z) && (Abs(x) == 0 || Abs(y) == 0)
    ensures var n, zeroNeg := Value(x) * Value(y) + Value(z) * 0x100_0000, Negative(x) != Negative(y) && Negative(z);
      && (Abs(z) != 0 ==> Rounds(n, 0x100_0000, zeroNeg, z))
      && (Abs(z) == 0 ==> Rounds(n, 0x100_0000, zeroNeg, SignBit(zeroNeg)))
  {
    hide Val, Nearest;
    SignOfProduct(x, y);
    ZeroVal(Abs(z));
    ExactIsNearest(0x100_0000, Abs(z));
  }

  /** Multiplying by one first changes nothing: fma(x, 1, z) and x + z are the same half. */
  lemma FmaByOneIsSum(x: Half, z: Half, sum: Half, fused: Half)
    requires IsFinite(x) && IsFinite(z)
    requires Rounds(Value(x) + Value(z), 1, Negative(x) && Negative(z), sum)
    requires Rounds(Value(x) * Value(0x3C00) + Value(z) * 0x100_0000, 0x100_0000,
                    Negative(x) != Negative(0x3C00) && Negative(z), fused)
    ensures sum == fused
  {
    hide Rounds, Val;
    assert Value(0x3C00) == 0x100_0000 by { ValOfFields(14, 0x400); Pow2Ten(14); TwentyBits(); }
    var n := Value(x) + Value(z);
    assert n * 0x100_0000 == Value(x) * 0x100_0000 + Value(z) * 0x100_0000;
    RoundsUnique(n, 1, 0x100_0000, Negative(x) && Negative(z), sum, fused);
  }

  /** Adding a negative zero changes nothing: fma(x, y, -0) and x * y are the same half. */
  lemma FmaOfNegativeZeroIsProduct(x: Half, y: Half, product: Half, fused: Half)
    requires IsFinite(x) && IsFinite(y)
    requires Rounds(Value(x) * Value(y), 0x100_0000, Negative(x) != Negative(y), product)
    requires Rounds(Value(x) * Value(y) + Value(0x8000) * 0x100_0000, 0x100_0000,
                    Negative(x) != Negative(y) && Negative(0x8000), fused)
    ensures product == fused
  {
    hide Rounds;
    assert Value(0x8000) == 0;
    RoundsUnique(Value(x) * Value(y), 0x100_0000, 1, Negative(x) != Negative(y), product, fused);
  }
}
