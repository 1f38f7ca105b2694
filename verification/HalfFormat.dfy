/**
  IEEE 754 binary16 as bit patterns (sections 3.4 and 4.3.1 of IEEE 754-2008). Every finite
  half is a multiple of 2^-24, so values are integers in that unit. The bit pattern of
  infinity, 0x7C00, stands for 2^16, the value that would follow the largest finite one:
  rounding to nearest over this scale is rounding with overflow as the standard defines it.
*/
module HalfFormat {
  import opened Bits

  type Half = h: nat | h < 0x1_0000

  const INF: nat := 0x7C00

  function Abs(h: Half): nat { h % 0x8000 }
  predicate Negative(h: Half) { h >= 0x8000 }
  predicate IsNaN(h: Half) { Abs(h) > INF }
  predicate IsInf(h: Half) { Abs(h) == INF }
  predicate IsFinite(h: Half) { Abs(h) < INF }

  function SignBit(neg: bool): nat { if neg then 0x8000 else 0 }

  // The spacing of halfs from bit pattern a to its successor
  function Ulp(a: nat): nat { if a < 0x400 then 1 else Pow2(a / 0x400 - 1) }

  // The magnitude of bit pattern a, in units of 2^-24
  function Val(a: nat): nat {
    if a < 0x400 then a else (0x400 + a % 0x400) * Pow2(a / 0x400 - 1)
  }

  function Value(h: Half): int { if Negative(h) then -(Val(Abs(h)) as int) else Val(Abs(h)) }

  lemma ValStep(a: nat)
    ensures Val(a + 1) == Val(a) + Ulp(a)
  {
    if a >= 0x400 {
      var e, m := a / 0x400, a % 0x400;
      if m == 0x3FF {
        assert (a + 1) / 0x400 == e + 1 && (a + 1) % 0x400 == 0;
        assert Pow2(e) == 2 * Pow2(e - 1);
      } else {
        assert (a + 1) / 0x400 == e && (a + 1) % 0x400 == m + 1;
        MulSucc(0x400 + m, Pow2(e - 1));
      }
    } else if a == 0x3FF {
      assert Pow2(0) == 1;
    }
  }

  lemma {:induction false} ValMonotone(a: nat, b: nat)
    requires a < b
    ensures Val(a) < Val(b)
  {
    ValStep(b - 1);
    if a < b - 1 { ValMonotone(a, b - 1); }
  }

  // ---------------------------------------------------------------- rounding to nearest, ties to even

  ghost predicate AboveLower(n: nat, d: nat, r: nat) {
    r > 0 ==>
      var mid := (Val(r - 1) + Val(r)) * d;
      2 * n > mid || (2 * n == mid && r % 2 == 0)
  }

  ghost predicate BelowUpper(n: nat, d: nat, r: nat) {
    r < INF ==>
      var mid := (Val(r) + Val(r + 1)) * d;
      2 * n < mid || (2 * n == mid && r % 2 == 0)
  }

  /** r is the half nearest to n/d (in units of 2^-24), the even one of two equally near. */
  ghost predicate Nearest(n: nat, d: nat, r: nat) {
    r <= INF && AboveLower(n, d, r) && BelowUpper(n, d, r)
  }

  lemma NearestInRange(n: nat, d: nat, r: nat)
    requires Nearest(n, d, r)
    ensures r <= INF
  {
  }

  function Distance(a: int, b: int): nat { if a < b then b - a else a - b }

  lemma MulMonotoneStrict(a: nat, b: nat, c: nat)
    requires a < b && c > 0
    ensures a * c < b * c
  {
    assert b * c == a * c + (b - a) * c;
    assert (b - a) * c >= c by { MulMonotone(1, b - a, c); }
  }

  // a is at least as near to n as b, which is not between a and the far side of the midpoint of a and p
  lemma BeyondMidpoint(n: nat, a: nat, p: nat, b: nat)
    requires (b <= p < a && 2 * n >= p + a) || (a < p <= b && 2 * n <= a + p)
    ensures Distance(n, a) <= Distance(n, b)
    ensures Distance(n, a) == Distance(n, b) ==> 2 * n == p + a
  {
  }

  // What the midpoint conditions say about any other half
  lemma NearerThan(n: nat, d: nat, r: nat, h: nat)
    requires d > 0 && Nearest(n, d, r) && h <= INF && h != r
    ensures Distance(n, Val(r) * d) <= Distance(n, Val(h) * d)
    ensures Distance(n, Val(r) * d) == Distance(n, Val(h) * d) ==> r % 2 == 0
  {
    hide Val, Distance;
    var p := if h < r then r - 1 else r + 1;
    if h < p { ValMonotone(h, p); } else if p < h { ValMonotone(p, h); }
    if h < r {
      ValMonotone(p, r);
      MulMonotone(Val(h), Val(p), d);
      MulMonotoneStrict(Val(p), Val(r), d);
    } else {
      ValMonotone(r, p);
      MulMonotone(Val(p), Val(h), d);
      MulMonotoneStrict(Val(r), Val(p), d);
    }
    assert (Val(p) + Val(r)) * d == Val(p) * d + Val(r) * d;
    BeyondMidpoint(n, Val(r) * d, Val(p) * d, Val(h) * d);
  }

  /** Nearest means what it says: no half is nearer, and of two equally near the result is even. */
  lemma NearestIsNearest(n: nat, d: nat, r: nat)
    requires d > 0 && Nearest(n, d, r)
    ensures forall h :: 0 <= h <= INF && h != r ==>
      && Distance(n, Val(r) * d) <= Distance(n, Val(h) * d)
      && (Distance(n, Val(r) * d) == Distance(n, Val(h) * d) ==> r % 2 == 0)
  {
    forall h | 0 <= h <= INF && h != r
      ensures Distance(n, Val(r) * d) <= Distance(n, Val(h) * d)
      ensures Distance(n, Val(r) * d) == Distance(n, Val(h) * d) ==> r % 2 == 0
    {
      NearerThan(n, d, r, h);
    }
  }

  // Two neighbours cannot both be the nearest.
  lemma NearestUnique(n: nat, d: nat, r: nat, r': nat)
    requires d > 0 && Nearest(n, d, r) && Nearest(n, d, r')
    ensures r == r'
  {
    if r < r' { NotBothNearest(n, d, r, r'); }
    if r' < r { NotBothNearest(n, d, r', r); }
  }

  lemma NotBothNearest(n: nat, d: nat, r: nat, r': nat)
    requires d > 0 && Nearest(n, d, r) && Nearest(n, d, r')
    ensures r >= r'
  {
    hide Val;
    if r < r' {
      if r + 1 < r' { ValMonotone(r + 1, r'); ValMonotone(r, r' - 1); }
      var a, b := Val(r) + Val(r + 1), Val(r' - 1) + Val(r');
      MulMonotone(a, b, d);
      if r + 1 < r' { MulMonotoneStrict(a, b, d); }
    }
  }

  lemma MulAssoc3(a: nat, b: nat, c: nat)
    ensures a * (b * c) == (a * b) * c
  {
  }

  lemma MulCompare(a: nat, b: nat, k: nat)
    requires k > 0
    ensures a < b <==> a * k < b * k
    ensures a == b <==> a * k == b * k
  {
    if a < b { MulMonotoneStrict(a, b, k); }
    if b < a { MulMonotoneStrict(b, a, k); }
  }

  /** Only the ratio matters. */
  lemma NearestScales(n: nat, d: nat, k: nat, r: nat)
    requires k > 0
    ensures Nearest(n * k, d * k, r) == Nearest(n, d, r)
  {
    hide Val;
    if r > 0 { CompareScaled(n, Val(r - 1) + Val(r), d, k); }
    CompareScaled(n, Val(r) + Val(r + 1), d, k);
  }

  lemma CompareScaled(n: nat, v: nat, d: nat, k: nat)
    requires k > 0
    ensures 2 * (n * k) < v * (d * k) <==> 2 * n < v * d
    ensures 2 * (n * k) == v * (d * k) <==> 2 * n == v * d
  {
    MulAssoc3(2, n, k);
    MulAssoc3(v, d, k);
    MulCompare(2 * n, v * d, k);
  }

  /** A representable value rounds to itself. */
  lemma ExactIsNearest(d: nat, r: nat)
    requires d > 0 && r <= INF
    ensures Nearest(Val(r) * d, d, r)
  {
    hide Val;
    if r > 0 {
      ValMonotone(r - 1, r);
      MulMonotoneStrict(Val(r - 1), Val(r), d);
      assert (Val(r - 1) + Val(r)) * d == Val(r - 1) * d + Val(r) * d;
    }
    ValMonotone(r, r + 1);
    MulMonotoneStrict(Val(r), Val(r + 1), d);
    assert (Val(r) + Val(r + 1)) * d == Val(r) * d + Val(r + 1) * d;
  }

  /** From the largest midpoint on, everything rounds to infinity. */
  lemma OverflowIsNearest(n: nat, d: nat)
    requires d > 0 && n >= Val(INF) * d
    ensures Nearest(n, d, INF)
  {
    hide Val;
    ValMonotone(INF - 1, INF);
    MulMonotoneStrict(Val(INF - 1), Val(INF), d);
    assert (Val(INF - 1) + Val(INF)) * d == Val(INF - 1) * d + Val(INF) * d;
  }

  /** Below half the smallest subnormal, everything rounds to zero. */
  lemma UnderflowIsNearest(n: nat, d: nat)
    requires 2 * n < d
    ensures Nearest(n, d, 0)
  {
    assert (Val(0) + Val(1)) * d == d;
  }

  // ---------------------------------------------------------------- results of operations

  const INVALID: Half := 0x7FFF

  // nan | 0x200
  function Quiet(nan: Half): Half {
    if nan / 0x200 % 2 == 1 then nan else
      assert nan / 0x200 < 0x7F by { assert nan / 0x200 < 0x80; }
      nan + 0x200
  }

  /** An invalid operation yields a NaN; a NaN made quiet is one, with bit 9 set and no other bit changed. */
  lemma QuietIsNaN(x: Half, i: nat)
    ensures IsNaN(INVALID) && (IsNaN(x) ==> IsNaN(Quiet(x)))
    ensures Bit(Quiet(x), i) == (i == 9 || Bit(x, i))
  {
    assert Pow2(9) == 0x200;
    BitByDivision(x, 9);
    if x / 0x200 % 2 == 0 { SetBit(x, 9, i); }
  }

  function Magnitude(n: int): nat { if n < 0 then -n else n }

  /** r is n/d rounded to nearest-even; `zeroNeg` is the sign an exact zero gets. */
  ghost predicate Rounds(n: int, d: nat, zeroNeg: bool, r: Half) {
    && Negative(r) == (if n == 0 then zeroNeg else n < 0)
    && Nearest(Magnitude(n), d, Abs(r))
  }

  lemma SignedResult(n: int, d: nat, neg: bool, z: bool, v: nat, r: Half)
    requires v <= INF && Nearest(Magnitude(n), d, v) && r == SignBit(neg) + v
    requires neg == if n == 0 then z else n < 0
    ensures Rounds(n, d, z, r)
  {
    hide Nearest;
  }

  /** Rounding has one answer, and it depends on the ratio only. */
  lemma RoundsUnique(n: int, d: nat, k: nat, z: bool, r: Half, r': Half)
    requires d > 0 && k > 0 && Rounds(n, d, z, r) && Rounds(n * k, d * k, z, r')
    ensures r == r'
  {
    hide Nearest;
    MagnitudeScales(n, k);
    NearestScales(Magnitude(n), d, k, Abs(r'));
    NearestUnique(Magnitude(n), d, Abs(r), Abs(r'));
  }

  lemma MagnitudeScales(n: int, k: nat)
    requires k > 0
    ensures Magnitude(n * k) == Magnitude(n) * k && (n * k == 0 <==> n == 0) && (n * k < 0 <==> n < 0)
  {
    assert (-n) * k == -(n * k);
    if n > 0 { MulMonotoneStrict(0, n, k); }
    if n < 0 { MulMonotoneStrict(0, -n, k); }
  }

  lemma WithSign(neg: bool, v: nat)
    requires v <= INF
    ensures SignBit(neg) + v < 0x1_0000 && Abs(SignBit(neg) + v) == v && Negative(SignBit(neg) + v) == neg
    ensures SignBit(false) == 0
  {
  }

  lemma ZeroVal(a: nat)
    ensures a == 0 <==> Val(a) == 0
  {
    if a > 0 { ValMonotone(0, a); }
  }

  // The significand with its hidden bit, and the exponent that goes with it
  function Significand(a: nat): nat { a % 0x400 + (if a > 0x3FF then 0x400 else 0) }
  function Exponent(a: nat): nat { a / 0x400 + (if a <= 0x3FF then 1 else 0) }

  lemma ValSplit(a: nat)
    ensures Exponent(a) >= 1 && Val(a) == Significand(a) * Pow2(Exponent(a) - 1)
    ensures a < INF ==> Exponent(a) <= 30
    ensures Significand(a) < 0x800 && (Significand(a) >= 0x400 || (Exponent(a) == 1 && a < 0x400))
    ensures a > 0 ==> Significand(a) > 0
  {
    assert Pow2(0) == 1;
  }

  lemma ExponentMonotone(a: nat, b: nat)
    requires a <= b
    ensures Exponent(a) <= Exponent(b)
    ensures Exponent(a) == Exponent(b) ==> Significand(a) <= Significand(b)
  {
  }
}
