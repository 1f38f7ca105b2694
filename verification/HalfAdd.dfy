/**
  Addition of halfs on integer mantissas with three extra bits, proved to be the exact sum
  rounded once (section 5.4.1 of IEEE 754-2008). Masks and shifts by constants are written
  as % and / by the power of two.
*/
module HalfAdd {
  import opened Bits
  import opened HalfFormat
  import opened HalfRounding

  // ---------------------------------------------------------------- alignment

  /** The operands brought to the larger exponent, one unit weighing 2^(exp-1) eighths. */
  lemma Aligned(ax: nat, ay: nat, exp: nat, d: nat, mx: nat, my: nat)
    requires 0 < ay <= ax < INF && exp == Exponent(ax) && exp == Exponent(ay) + d
    requires mx == 8 * Significand(ax)
    requires my == if d < 13 then Jam(8 * Significand(ay), d) else 1
    ensures 1 <= exp <= 30 && (exp == 1 || mx >= 0x2000) && mx < 0x4000 && 1 <= my <= mx
    ensures 8 * Val(ax) == mx * Pow2(exp - 1) && Cell(my, 8 * Val(ay), Pow2(exp - 1), 2)
    ensures 8 * Val(ay) == my * Pow2(exp - 1) || 2 * (mx - my) >= 0x2000
  {
    hide Val, Significand, Exponent, Pow2, Cell, Jam;
    ValSplit(ax);
    ValSplit(ay);
    ExponentMonotone(ay, ax);
    Pow2Adds(d, Exponent(ay) - 1);
    Shifted(Significand(ay), d, Pow2(Exponent(ay) - 1), my);
    assert 8 * (Significand(ay) * Pow2(Exponent(ay) - 1)) == 8 * Significand(ay) * Pow2(Exponent(ay) - 1);
    assert 8 * (Significand(ax) * Pow2(exp - 1)) == 8 * Significand(ax) * Pow2(exp - 1);
  }

  lemma Shifted(s: nat, d: nat, w: nat, my: nat)
    requires 0 < s < 0x800 && w > 0 && my == if d < 13 then Jam(8 * s, d) else 1
    ensures Cell(my, 8 * s * w, Pow2(d) * w, 2) && my >= 1
    ensures if d == 0 then my == 8 * s else my <= 0x2000
    ensures 8 * s * w == my * (Pow2(d) * w) || my <= 0x400
  {
    hide Pow2, Cell, Jam;
    SmallPowers();
    if d >= 13 { JamToSticky(8 * s, d, 13); }
    JamIsCell(8 * s, d, w);
    JamBounds(8 * s, d);
    if d <= 3 {
      LowBitsZero(s, 3, d);
      JamExact(8 * s, d, w);
    } else {
      assert my * Pow2(4) <= 8 * s + Pow2(4);
    }
    if d > 0 { assert my * Pow2(1) <= 8 * s + Pow2(1); }
  }

  lemma EightTimes(n: nat)
    ensures 8 * n % 2 == 0
  {
  }

  lemma SmallPowers()
    ensures Pow2(1) == 2 && Pow2(3) == 8 && Pow2(4) == 16 && Pow2(13) == 0x2000 && Pow2(14) == 0x4000
  {
    Pow2Ten(3);
    Pow2Ten(4);
  }

  // ---------------------------------------------------------------- the final rounding

  // rounded(sign + ((exp-1) << 10) + (m >> 3), (m >> 2) & 1, (m & 3) != 0)
  function Packed(sign: nat, exp: nat, m: nat): nat
    requires exp >= 1
  {
    Rounded(sign + (exp - 1) * 0x400 + m / 8, m / 4 % 2 == 1, m % 4 != 0)
  }

  lemma PackedRounds(neg: bool, exp: nat, m: nat, n: nat)
    requires 1 <= exp <= 30 && m < 0x4000 && (exp == 1 || m >= 0x2000)
    requires Cell(m, 8 * n, Pow2(exp - 1), 4)
    ensures Nearest(n, 1, Packed(0, exp, m)) && Packed(0, exp, m) <= INF
    ensures Packed(SignBit(neg), exp, m) == SignBit(neg) + Packed(0, exp, m)
  {
    hide Pow2, Cell, Nearest;
    SmallPowers();
    assert Pow2(2) == 4 by { Pow2Succ(1); }
    FixedRounds(13, m, exp - 1, false, 0, 8 * n);
    assert FixedToHalf(13, m, exp - 1, 0, false) == Packed(0, exp, m);
    NearestScales(n, 1, 8, Packed(0, exp, m));
    NearestInRange(n, 1, Packed(0, exp, m));
  }

  /** A sum whose exponent passes 30 is beyond every finite half. */
  lemma SumOverflows(exp: nat, m: nat, n: nat)
    requires exp > 30 && 0x2000 <= m < 0x4000 && Cell(m, 8 * n, Pow2(exp - 1), 4)
    ensures Nearest(n, 1, INF)
  {
    hide Pow2, Cell, Nearest;
    SmallPowers();
    FixedOverflows(13, m, exp - 1, false, 0, 8 * n);
    NearestScales(n, 1, 8, INF);
  }

  // Adds or subtracts the aligned mantissas, normalises and rounds. The ghost operands are
  // the magnitudes that the mantissas stand for.
  method AddMantissas(sub: bool, neg: bool, exp0: nat, mx0: nat, my: nat, ghost vx: nat, ghost vy: nat)
    returns (r: Half)
    requires 1 <= exp0 <= 30 && (exp0 == 1 || mx0 >= 0x2000) && 1 <= my <= mx0 < 0x4000 && mx0 % 2 == 0
    requires 8 * vx == mx0 * Pow2(exp0 - 1) && Cell(my, 8 * vy, Pow2(exp0 - 1), 2)
    requires 8 * vy == my * Pow2(exp0 - 1) || 2 * (mx0 - my) >= 0x2000
    ensures sub ==> vx >= vy
    ensures Nearest(if sub then vx - vy else vx + vy, 1, Abs(r)) && Abs(r) <= INF
    ensures Negative(r) == (neg && !(sub && vx == vy))
  {
    hide Pow2, Cell, Nearest, Val, Settling, Packed, Jam, Significand, Exponent, Abs, Negative, SignBit;
    var exp, mx := exp0, mx0;
    ghost var n: nat := vx + vy;
    if sub {
      DifferenceCell(8 * vx, 8 * vy, Pow2(exp - 1), mx, my, 0x2000);
      n := vx - vy;
      mx := mx - my;
      if mx == 0 {
        ZeroVal(0);
        ExactIsNearest(1, 0);
        WithSign(false, 0);
        return 0;
      }
      while mx < 0x2000 && exp > 1
        invariant 1 <= exp <= 30 && 0 < mx < 0x4000
        invariant Settling(mx, 8 * n, Pow2(exp - 1), 0x2000)
        decreases exp
      {
        Pow2Succ(exp - 2);
        SettleStep(mx, 8 * n, Pow2(exp - 2), 0x2000);
        mx, exp := 2 * mx, exp - 1;
      }
      Settled(mx, 8 * n, Pow2(exp - 1), 0x2000);
    } else {
      var i := (mx + my) / 0x4000;
      mx := if i == 0 then mx + my else Jam(mx + my, 1);
      SumCell(8 * vx, 8 * vy, Pow2(exp - 1), mx0, my, i, mx, 0x2000);
      Pow2Succ(exp - 1);
      exp := exp + i;
      if exp > 30 {
        SumOverflows(exp, mx, n);
        WithSign(neg, INF);
        return SignBit(neg) + INF;
      }
    }
    PackedRounds(neg, exp, mx, n);
    WithSign(neg, Packed(0, exp, mx));
    r := Packed(SignBit(neg), exp, mx);
  }

  /** Addition. */
  method Add(x: Half, y: Half) returns (r: Half)
    ensures IsFinite(x) && IsFinite(y) ==>
      Rounds(Value(x) + Value(y), 1, Negative(x) && Negative(y), r)
    ensures IsNaN(x) || IsNaN(y) ==> r == Quiet(if IsNaN(x) then x else y)
    ensures IsInf(x) && IsInf(y) && Negative(x) != Negative(y) ==> r == INVALID
    ensures IsInf(x) && !IsNaN(y) && !(IsInf(y) && Negative(x) != Negative(y)) ==> r == x
    ensures IsInf(y) && !IsNaN(x) && !(IsInf(x) && Negative(x) != Negative(y)) ==> r == y
  {
    hide Pow2, Cell, Nearest, Val, Settling, Rounded, Jam, Significand, Exponent;
    var absx: nat, absy: nat := Abs(x), Abs(y);
    var sub := Negative(x) != Negative(y);
    if absx >= INF || absy >= INF {
      return if absx > INF || absy > INF then (if absx > INF then Quiet(x) else Quiet(y))
             else if absy != INF then x else if sub && absx == INF then INVALID else y;
    }
    ghost var n := Value(x) + Value(y);
    ZeroOperands(x, y);
    if absx == 0 {
      return if absy != 0 then y else if Negative(x) && Negative(y) then 0x8000 else 0;
    }
    if absy == 0 {
      return x;
    }
    var neg := if sub && absy > absx then Negative(y) else Negative(x);
    if absy > absx {
      absx, absy := absy, absx;
    }
    SignOfSum(x, y, absx, absy, neg);
    var exp: nat := Exponent(absx);
    var d := exp - Exponent(absy);
    assert d >= 0 by { ExponentMonotone(absy, absx); }
    var mx := 8 * Significand(absx);
    var my := if d < 13 then Jam(8 * Significand(absy), d) else 1;
    Aligned(absx, absy, exp, d, mx, my);
    assert mx % 2 == 0 by { EightTimes(Significand(absx)); }
    r := AddMantissas(sub, neg, exp, mx, my, Val(absx), Val(absy));
  }

  // With a zero operand the other one is the sum.
  lemma ZeroOperands(x: Half, y: Half)
    requires IsFinite(x) && IsFinite(y)
    ensures Abs(x) == 0 && Abs(y) != 0 ==> Rounds(Value(x) + Value(y), 1, Negative(x) && Negative(y), y)
    ensures Abs(y) == 0 && Abs(x) != 0 ==> Rounds(Value(x) + Value(y), 1, Negative(x) && Negative(y), x)
    ensures Abs(x) == 0 && Abs(y) == 0 ==>
      Rounds(Value(x) + Value(y), 1, Negative(x) && Negative(y), SignBit(Negative(x) && Negative(y)))
  {
    hide Nearest, Val;
    ExactIsNearest(1, Abs(x));
    ExactIsNearest(1, Abs(y));
    ZeroVal(Abs(x));
    ZeroVal(Abs(y));
  }

  // The sign goes with the operand of larger magnitude.
  lemma SignOfSum(x: Half, y: Half, big: nat, small: nat, neg: bool)
    requires Abs(x) != 0 && Abs(y) != 0 && IsFinite(x) && IsFinite(y)
    requires if Abs(y) > Abs(x) then big == Abs(y) && small == Abs(x) else big == Abs(x) && small == Abs(y)
    requires neg == if Negative(x) != Negative(y) && Abs(y) > Abs(x) then Negative(y) else Negative(x)
    ensures var n := Value(x) + Value(y);
      && Magnitude(n) == (if Negative(x) != Negative(y) then Val(big) - Val(small) else Val(big) + Val(small))
      && (n != 0 ==> neg == (n < 0))
      && (n == 0 ==> Negative(x) != Negative(y))
  {
    hide Val;
    if small < big { ValMonotone(small, big); }
    ZeroVal(Abs(x));
    ZeroVal(Abs(y));
  }
}
