/**
  Guard and sticky rounding. An exact quantity X is represented by an integer mantissa m with
  weight P per unit. `Cell(m, X, P, c)` says that X is m units exactly, or that m and X lie
  strictly between the same two consecutive multiples of c units: enough to compare X with any
  multiple of c by looking at m alone.
*/
module HalfRounding {
  import opened Bits
  import opened HalfFormat

  ghost predicate Cell(m: nat, x: nat, p: nat, c: nat)
    requires c > 0
  {
    x == m * p || (m % c != 0 && (m - m % c) * p < x < (m - m % c + c) * p)
  }

  function ShiftRight(m: nat, d: nat): nat { Quotient(m, Pow2(d)) }
  function LowBits(m: nat, d: nat): nat { m % Pow2(d) }

  // `(a >> d) | ((a & ((1 << d) - 1)) != 0)`: a right shift that keeps what it drops in bit 0
  function Jam(a: nat, d: nat): nat {
    var q := ShiftRight(a, d);
    if LowBits(a, d) != 0 && q % 2 == 0 then q + 1 else q
  }

  // The arithmetic of one jam, with t = 2^d
  lemma JamCell(a: nat, t: nat, q: nat, r: nat, w: nat, j: nat)
    requires a == q * t + r && r < t && w > 0
    requires j == if r != 0 && q % 2 == 0 then q + 1 else q
    ensures Cell(j, a * w, t * w, 2)
  {
    assert a * w == q * (t * w) + r * w by { assert (q * t + r) * w == q * (t * w) + r * w; }
    if r != 0 {
      MulMonotoneStrict(r, t, w);
      MulMonotoneStrict(0, r, w);
      assert j % 2 == 1;
      MulSucc(q, t * w);
      if q % 2 == 1 { MulSucc(q - 1, t * w); } else { MulSucc(q + 1, t * w); }
    }
  }

  /** A jammed shift preserves every comparison with an even number of the larger units. */
  lemma JamIsCell(a: nat, d: nat, w: nat)
    requires w > 0
    ensures Cell(Jam(a, d), a * w, Pow2(d) * w, 2)
  {
    hide Pow2, Cell;
    DivMod(a, Pow2(d));
    JamCell(a, Pow2(d), a / Pow2(d), a % Pow2(d), w, Jam(a, d));
  }

  // Bits shifted out entirely leave only the sticky bit.
  lemma JamToSticky(a: nat, d: nat, k: nat)
    requires 0 < a < Pow2(k + 1) && d >= k
    ensures Jam(a, d) == 1
  {
    hide Pow2;
    Pow2Succ(k);
    Pow2Monotone(k, d);
    if d > k { Pow2Monotone(k + 1, d); ModUnique(a, Pow2(d), 0, a); }
    else if a >= Pow2(k) { ModUnique(a, Pow2(d), 1, a - Pow2(d)); }
    else { ModUnique(a, Pow2(d), 0, a); }
  }

  lemma JamBounds(a: nat, d: nat)
    requires a > 0
    ensures 1 <= Jam(a, d)
    ensures d == 0 ==> Jam(a, d) == a
    ensures forall k: nat :: k <= d ==> Jam(a, d) * Pow2(k) <= a + Pow2(k)
  {
    hide Pow2;
    var t := Pow2(d);
    DivMod(a, t);
    if d == 0 { Pow2Zero(); ModUnique(a, 1, a, 0); }
    forall k: nat | k <= d
      ensures Jam(a, d) * Pow2(k) <= a + Pow2(k)
    {
      Pow2Monotone(k, d);
      MulMonotone(Pow2(k), t, a / t);
      MulMonotone(Jam(a, d), a / t + 1, Pow2(k));
    }
  }

  lemma JamExact(a: nat, d: nat, w: nat)
    requires LowBits(a, d) == 0
    ensures a * w == Jam(a, d) * (Pow2(d) * w)
  {
    hide Pow2;
    DivMod(a, Pow2(d));
    MulAssoc3(a / Pow2(d), Pow2(d), w);
  }

  lemma LowBitsZero(n: nat, k: nat, d: nat)
    requires d <= k
    ensures LowBits(n * Pow2(k), d) == 0
  {
    hide Pow2;
    Pow2Adds(k - d, d);
    MulAssoc3(n, Pow2(k - d), Pow2(d));
    ModUnique(n * Pow2(k), Pow2(d), n * Pow2(k - d), 0);
  }

  // ---------------------------------------------------------------- arithmetic on cells

  // x lies strictly inside the interval from f to f + c.
  lemma InCell(m: nat, x: nat, p: nat, c: nat, f: nat, lo: nat, hi: nat)
    requires c > 0 && f % c == 0 && f < m < f + c
    requires f <= lo && hi <= f + c && lo * p < x < hi * p
    ensures Cell(m, x, p, c)
  {
    hide Cell;
    assert m % c == m - f by { ModUnique(m, c, f / c, m - f); }
    MulMonotone(f, lo, p);
    MulMonotone(hi, f + c, p);
    CellIntro(m, x, p, c, f);
  }

  lemma CellIntro(m: nat, x: nat, p: nat, c: nat, f: nat)
    requires c > 0 && m % c == m - f && f < m && f * p < x < (f + c) * p
    ensures Cell(m, x, p, c)
  {
  }

  lemma CoarserCell(m: nat, x: nat, p: nat)
    requires Cell(m, x, p, 2)
    ensures Cell(m, x, p, 4)
  {
    if x != m * p {
      assert m % 2 == 1;
      InCell(m, x, p, 4, m - m % 4, m - 1, m + 1);
    }
  }

  /** Adding a jammed number to an even one. */
  lemma AddCell(b: nat, s: nat, y: nat, p: nat)
    requires b % 2 == 0 && Cell(s, y, p, 2)
    ensures Cell(b + s, b * p + y, p, 2)
  {
    assert (b + s) * p == b * p + s * p;
    if y != s * p {
      assert (b + s - 1) * p == b * p + (s - 1) * p;
      assert (b + s + 1) * p == b * p + (s + 1) * p;
    }
  }

  /** Subtracting a jammed number from an even one: exact, or the result is odd as well. */
  lemma SubCell(b: nat, s: nat, y: nat, p: nat)
    requires b % 2 == 0 && s <= b && Cell(s, y, p, 2)
    ensures y <= b * p && Cell(b - s, b * p - y, p, 2)
  {
    assert (b - s) * p == b * p - s * p;
    MulMonotone(s, b, p);
    if y != s * p {
      assert (b - s - 1) * p == b * p - (s + 1) * p;
      assert (b - s + 1) * p == b * p - (s - 1) * p;
      MulMonotone(s + 1, b, p);
    }
  }

  /** A mantissa that overflows its width is jammed by one bit. */
  lemma CarryCell(m: nat, x: nat, p: nat)
    requires p > 0 && Cell(m, x, p, 2)
    ensures Cell(Jam(m, 1), x, 2 * p, 2)
  {
    var k := m / 2;
    assert Pow2(1) == 2;
    if m % 2 == 1 {
      assert m == 2 * k + 1;
      CellInterval(m, x, p);
      OddCarry(k, x, p, Jam(m, 1));
    } else {
      assert m * p == k * (2 * p);
    }
  }

  lemma CellInterval(m: nat, x: nat, p: nat)
    requires p > 0 && Cell(m, x, p, 2) && m % 2 == 1
    ensures (m - 1) * p < x < (m + 1) * p
  {
    assert (m - 1) * p == m * p - p && (m + 1) * p == m * p + p;
  }

  lemma OddCarry(k: nat, x: nat, p: nat, j: nat)
    requires (2 * k) * p < x < (2 * k + 2) * p && j == k + 1 - k % 2
    ensures Cell(j, x, 2 * p, 2)
  {
    hide Cell;
    assert (2 * k) * p == k * (2 * p);
    assert (2 * k + 2) * p == (k + 1) * (2 * p);
    InCell(j, x, 2 * p, 2, k - k % 2, k, k + 1);
  }

  /**
    Normalisation to the left after a subtraction. `top` is the smallest mantissa of full
    width. The quantity is exact, or it is off by at most one place and then it is held
    precisely enough for that one shift.
  */
  ghost predicate Settling(m: nat, x: nat, p: nat, top: nat) {
    || x == m * p
    || (Cell(m, x, p, 2) && 2 * m >= top)
    || (Cell(m, x, p, 4) && m >= top)
  }

  lemma SettleStep(m: nat, x: nat, p: nat, top: nat)
    requires Settling(m, x, 2 * p, top) && m < top
    ensures Settling(2 * m, x, p, top)
  {
    assert m * (2 * p) == (2 * m) * p;
    if x != m * (2 * p) {
      assert (m - 1) * (2 * p) == (2 * m - 2) * p;
      assert (m + 1) * (2 * p) == (2 * m + 2) * p;
      assert (2 * m) % 4 == 2;
    }
  }

  lemma Settled(m: nat, x: nat, p: nat, top: nat)
    requires Settling(m, x, p, top)
    ensures Cell(m, x, p, 4)
  {
    if Cell(m, x, p, 2) { CoarserCell(m, x, p); }
  }

  /** Adding aligned mantissas, with a jammed shift by one when the sum is too wide. */
  lemma SumCell(xb: nat, xs: nat, p: nat, mb: nat, ms: nat, i: nat, m: nat, top: nat)
    requires p > 0 && mb % 2 == 0 && 1 <= ms <= mb < 2 * top && top % 2 == 0
    requires xb == mb * p && Cell(ms, xs, p, 2)
    requires i == (mb + ms) / (2 * top) && m == if i == 0 then mb + ms else Jam(mb + ms, 1)
    ensures i <= 1 && m < 2 * top && (mb >= top || i == 1 ==> m >= top)
    ensures Cell(m, xb + xs, if i == 0 then p else 2 * p, 4)
  {
    hide Pow2, Cell;
    AddCell(mb, ms, xs, p);
    if mb + ms < 2 * top {
      ModUnique(mb + ms, 2 * top, 0, mb + ms);
    } else {
      ModUnique(mb + ms, 2 * top, 1, mb + ms - 2 * top);
      Pow2Zero();
      Pow2Succ(0);
      CarryCell(mb + ms, xb + xs, p);
    }
    CoarserCell(m, xb + xs, if i == 0 then p else 2 * p);
  }

  /** Subtracting: zero only when the operands are equal, otherwise ready to be normalised. */
  lemma DifferenceCell(xb: nat, xs: nat, p: nat, mb: nat, ms: nat, top: nat)
    requires p > 0 && mb % 2 == 0 && 1 <= ms <= mb
    requires xb == mb * p && Cell(ms, xs, p, 2)
    requires xs == ms * p || 2 * (mb - ms) >= top > 0
    ensures xs <= xb && (mb == ms <==> xb == xs)
    ensures Settling(mb - ms, xb - xs, p, top)
  {
    SubCell(mb, ms, xs, p);
    assert (mb - ms) * p == mb * p - ms * p;
    if mb != ms { MulMonotoneStrict(ms, mb, p); }
    if mb > ms && xs != ms * p {
      MulMonotone(ms + 1, mb, p);
    }
  }

  // ---------------------------------------------------------------- from guard and sticky to nearest

  /** `rounded` in the default mode: value + (g & (s | value)) */
  function Rounded(value: nat, g: bool, s: bool): nat {
    if g && (s || value % 2 == 1) then value + 1 else value
  }

  /**
    The rounding decision. `base` is the value of v and `2 * half` its distance to the next
    half, both scaled by d; g and s say in which part of that interval x lies.
  */
  lemma RoundGuard(x: nat, d: nat, v: nat, base: nat, half: nat, g: bool, s: bool)
    requires d > 0 && half > 0 && v < INF && base == Val(v) * d && base + 2 * half == Val(v + 1) * d
    requires var low := base + (if g then half else 0); if s then low < x < low + half else x == low
    ensures Nearest(x, d, Rounded(v, g, s))
  {
    hide Val, Pow2;
    var r := Rounded(v, g, s);
    assert (Val(v) + Val(v + 1)) * d == 2 * base + 2 * half;
    if r == v {
      if v > 0 {
        ValMonotone(v - 1, v);
        assert (Val(v - 1) + Val(v)) * d == Val(v - 1) * d + base;
        MulMonotoneStrict(Val(v - 1), Val(v), d);
      }
    } else {
      ValMonotone(v + 1, v + 2);
      assert (Val(v + 1) + Val(v + 2)) * d == base + 2 * half + Val(v + 2) * d;
      MulMonotone(Val(v + 1), Val(v + 2), d);
      MulMonotoneStrict(Val(v + 1), Val(v + 2), d);
    }
  }

  /** A mantissa with an extra sticky bit: with s set, x is strictly above m and below m + 1. */
  ghost predicate Held(m: nat, s: bool, x: nat, p: nat) {
    if s then m * p < x < (m + 1) * p else Cell(m, x, p, 4)
  }

  // The sticky information is all in s.
  ghost predicate Plain(m: nat, s: bool, x: nat, p: nat) { s || x == m * p }

  lemma HeldBySticky(m: nat, s: bool, x: nat, p: nat, h: nat, b: nat)
    requires p > 0 && Held(m, s, x, p) && h > 0 && b <= m < b + h
    requires (h % 4 == 0 && b % 4 == 0) || Plain(m, s, x, p)
    ensures if s || m != b then b * p < x < (b + h) * p else x == b * p
  {
    if s || x == m * p {
      PlainBetween(m, s, x, p, h, b);
    } else {
      MulMonotone(b, m - m % 4, p);
      MulMonotone(m - m % 4 + 4, b + h, p);
    }
  }

  lemma PlainBetween(m: nat, s: bool, x: nat, p: nat, h: nat, b: nat)
    requires p > 0 && h > 0 && b <= m < b + h && (if s then m * p < x < (m + 1) * p else x == m * p)
    ensures if s || m != b then b * p < x < (b + h) * p else x == b * p
  {
    MulMonotone(b, m, p);
    MulMonotone(m + 1, b + h, p);
    if !s && m != b {
      MulMonotoneStrict(b, m, p);
      MulMonotoneStrict(m, b + h, p);
    }
  }

  // ---------------------------------------------------------------- encoding

  /** Exponent field e and a significand q that carries its leading bit (or e is zero). */
  lemma ValOfFields(e: nat, q: nat)
    requires q <= 0x800 && (e == 0 || q >= 0x400)
    ensures Val(e * 0x400 + q) == q * Pow2(e)
  {
    hide Pow2;
    var a := e * 0x400 + q;
    if q < 0x400 {
      Pow2Zero();
    } else if q < 0x800 {
      ModUnique(a, 0x400, e + 1, q - 0x400);
    } else {
      ModUnique(a, 0x400, e + 2, 0);
      Pow2Succ(e);
    }
  }

  /** `fixed2half` without normalisation: m in Q1.f, exp the biased exponent less one. */
  function FixedToHalf(f: nat, m: nat, exp: int, sign: nat, s: bool): nat
    requires f >= 11
  {
    if exp < 0 then
      Rounded(sign + ShiftRight(m, f - 10 - exp), ShiftRight(m, f - 11 - exp) % 2 == 1,
              s || LowBits(m, f - 11 - exp) != 0)
    else
      Rounded(sign + exp * 0x400 + ShiftRight(m, f - 10), ShiftRight(m, f - 11) % 2 == 1,
              s || LowBits(m, f - 11) != 0)
  }

  // The mantissa cut at the guard bit, with h the weight of that bit
  lemma Cut(m: nat, h: nat)
    requires h > 0
    ensures m == (m / (2 * h)) * (2 * h) + (if m / h % 2 == 1 then h else 0) + m % h
  {
    var n := m / h;
    DivMod(m, h);
    DivMod(n, 2);
    assert n * h == (n / 2) * (2 * h) + (n % 2) * h by {
      assert ((n / 2) * 2 + n % 2) * h == (n / 2) * (2 * h) + (n % 2) * h;
    }
    assert m / (2 * h) == n / 2 by {
      assert n % 2 == 0 ==> (n % 2) * h == 0;
      assert n % 2 == 1 ==> (n % 2) * h == h;
      ModUnique(m, 2 * h, n / 2, (n % 2) * h + m % h);
    }
  }

  /** Rounding a mantissa cut at the guard bit, of weight h, to the half v or its successor. */
  lemma CutRounds(m: nat, q: nat, g: bool, t: nat, s: bool, x: nat, p: nat, h: nat, v: nat, u: nat, d: nat)
    requires p > 0 && d > 0 && Held(m, s, x, p) && h > 0 && (h % 4 == 0 || Plain(m, s, x, p))
    requires m == q * (2 * h) + (if g then h else 0) + t && t < h
    requires h * p * 2 == u * d && v < INF && Val(v) == q * u && Val(v + 1) == (q + 1) * u
    ensures Nearest(x, d, Rounded(v, g, s || t != 0))
  {
    hide Val, Held, Plain, Nearest, Rounded, Pow2;
    var low := q * (2 * h) + (if g then h else 0);
    FieldsScale(q, h, p, u, d, g);
    assert if s || t != 0 then low * p < x < (low + h) * p else x == low * p by {
      CutBase(q, h, g);
      HeldBySticky(m, s, x, p, h, low);
    }
    RoundGuard(x, d, v, q * u * d, h * p, g, s || t != 0);
  }

  lemma CutBase(q: nat, h: nat, g: bool)
    ensures h % 4 == 0 ==> (q * (2 * h) + (if g then h else 0)) % 4 == 0
  {
    if h % 4 == 0 {
      MultipleOfFour(q, 2 * h);
      SumOfFours(q * (2 * h), if g then h else 0);
    }
  }

  lemma SumOfFours(a: nat, b: nat)
    requires a % 4 == 0 && b % 4 == 0
    ensures (a + b) % 4 == 0
  {
  }

  lemma MultipleOfFour(n: nat, h: nat)
    requires h % 4 == 0
    ensures (n * h) % 4 == 0
  {
    assert n * h == 4 * (n * (h / 4)) by { assert h == 4 * (h / 4); MulAssoc3(n, 4, h / 4); }
  }

  lemma FieldsScale(q: nat, h: nat, p: nat, u: nat, d: nat, g: bool)
    requires h * p * 2 == u * d && p > 0 && h > 0
    ensures (q + 1) * u * d == q * u * d + 2 * (h * p)
    ensures var low := q * (2 * h) + (if g then h else 0);
      low * p == q * u * d + (if g then h * p else 0) && (low + h) * p == low * p + h * p
    ensures h * p > 0
  {
    assert (q + 1) * u * d == q * u * d + u * d;
    assert q * (2 * h) * p == q * (h * p * 2);
    assert q * u * d == q * (u * d);
    MulMonotoneStrict(0, h, p);
  }

  lemma DivBelow(m: nat, t: nat, n: nat)
    requires t > 0 && m < n * t
    ensures m / t < n
  {
    DivMod(m, t);
    if m / t >= n { MulMonotone(n, m / t, t); }
  }

  lemma DivAtLeast(m: nat, t: nat, n: nat)
    requires t > 0 && m >= n * t
    ensures m / t >= n
  {
    DivMod(m, t);
    if m / t < n { MulMonotone(m / t + 1, n, t); MulSucc(m / t, t); }
  }

  lemma FourDivides(n: nat)
    requires n >= 2
    ensures Pow2(n) % 4 == 0
  {
    hide Pow2;
    Pow2Succ(n - 1);
    Pow2Succ(n - 2);
  }

  // 2^(n+10) = 1024 * 2^n
  lemma Pow2Ten(n: nat)
    ensures Pow2(n + 10) == 0x400 * Pow2(n)
  {
    hide Pow2;
    Pow2Succ(n); Pow2Succ(n + 1); Pow2Succ(n + 2); Pow2Succ(n + 3); Pow2Succ(n + 4);
    Pow2Succ(n + 5); Pow2Succ(n + 6); Pow2Succ(n + 7); Pow2Succ(n + 8); Pow2Succ(n + 9);
  }

  lemma HalfTimesWeight(g: nat, k: nat, e: nat, l: nat)
    requires g + k + 1 == e + l
    ensures Pow2(g) * Pow2(k) * 2 == Pow2(e) * Pow2(l)
  {
    hide Pow2;
    Pow2Adds(g, k);
    Pow2Succ(g + k);
    Pow2Adds(e, l);
  }

  // The significand left by a cut at bit g, for m < 2^(f+1)
  lemma CutWidth(f: nat, m: nat, g: nat)
    requires f >= 11 && g >= f - 11 && m < Pow2(f + 1)
    ensures m / Pow2(g + 1) < 0x800
    ensures g == f - 11 && m >= Pow2(f) ==> m / Pow2(g + 1) >= 0x400
  {
    hide Pow2;
    Pow2Monotone(f - 10, g + 1);
    Pow2Ten(f - 10);
    Pow2Succ(f);
    DivBelow(m, Pow2(g + 1), 0x800);
    if g == f - 11 && m >= Pow2(f) { DivAtLeast(m, Pow2(g + 1), 0x400); }
  }

  /**
    `fixed2half` rounds correctly. One unit of m weighs 2^(exp+j); the result is compared in
    units of 2^(j+f-10). Subnormal results, where the mantissa is cut further left, included.
    A mantissa whose own last bit is sticky needs f >= 13, so that this bit lies below the guard.
  */
  lemma FixedRounds(f: nat, m: nat, exp: int, s: bool, j: nat, x: nat)
    requires f >= 11 && m < Pow2(f + 1) && (exp <= 0 || m >= Pow2(f))
    requires exp + j >= 0 && exp <= 29 && Held(m, s, x, Pow2(exp + j))
    requires f >= 13 || Plain(m, s, x, Pow2(exp + j))
    ensures Nearest(x, Pow2(j + f - 10), FixedToHalf(f, m, exp, 0, s))
  {
    hide Val, Held, Plain, Nearest, Rounded, Pow2;
    var e, g := if exp < 0 then 0 else exp, if exp < 0 then f - 11 - exp else f - 11;
    CutFields(f, m, exp, s, e, g);
    HalfTimesWeight(g, exp + j, e, j + f - 10);
    if f >= 13 { FourDivides(g); }
    CutWidth(f, m, g);
    CutAt(m, g);
    var q := ShiftRight(m, g + 1);
    ValOfFields(e, q);
    ValOfFields(e, q + 1);
    CutRounds(m, q, ShiftRight(m, g) % 2 == 1, LowBits(m, g), s, x,
              Pow2(exp + j), Pow2(g), e * 0x400 + q, Pow2(e), Pow2(j + f - 10));
  }

  lemma CutFields(f: nat, m: nat, exp: int, s: bool, e: nat, g: nat)
    requires f >= 11 && e == (if exp < 0 then 0 else exp) && g == (if exp < 0 then f - 11 - exp else f - 11)
    ensures FixedToHalf(f, m, exp, 0, s)
      == Rounded(e * 0x400 + ShiftRight(m, g + 1), ShiftRight(m, g) % 2 == 1, s || LowBits(m, g) != 0)
  {
    hide Pow2, ShiftRight, LowBits, Rounded;
  }

  lemma CutAt(m: nat, g: nat)
    ensures m == ShiftRight(m, g + 1) * (2 * Pow2(g))
      + (if ShiftRight(m, g) % 2 == 1 then Pow2(g) else 0) + LowBits(m, g)
    ensures LowBits(m, g) < Pow2(g)
  {
    hide Pow2;
    Pow2Succ(g);
    Cut(m, Pow2(g));
    DivMod(m, Pow2(g));
  }

  // What a full-width mantissa with sticky information says about the size of x
  lemma HeldBounds(m: nat, s: bool, x: nat, p: nat, f: nat)
    requires p > 0 && f >= 2 && Pow2(f) <= m < Pow2(f + 1) && Held(m, s, x, p)
    ensures Pow2(f) * p <= x < Pow2(f + 1) * p
  {
    hide Pow2, Held;
    FourDivides(f);
    Pow2Succ(f);
    HeldBySticky(m, s, x, p, Pow2(f), Pow2(f));
    assert (Pow2(f) + Pow2(f)) * p == Pow2(f + 1) * p;
    MulMonotoneStrict(Pow2(f), Pow2(f + 1), p);
  }

  /** Exponents beyond the largest overflow, and everything there rounds to infinity. */
  lemma FixedOverflows(f: nat, m: nat, exp: int, s: bool, j: nat, x: nat)
    requires f >= 11 && Pow2(f) <= m < Pow2(f + 1) && exp > 29 && Held(m, s, x, Pow2(exp + j))
    ensures Nearest(x, Pow2(j + f - 10), INF)
  {
    hide Pow2, Held, Nearest, Val;
    HeldBounds(m, s, x, Pow2(exp + j), f);
    var d := Pow2(j + f - 10);
    assert Val(INF) * d <= Pow2(f) * Pow2(exp + j) by {
      ValOfFields(30, 0x400);
      assert 30 * 0x400 + 0x400 == INF;
      Pow2Adds(30, j + f - 10);
      Pow2Ten(30 + (j + f - 10));
      assert 0x400 * Pow2(30) * d == 0x400 * (Pow2(30) * d);
      Pow2Adds(f, exp + j);
      Pow2Monotone(j + f + 30, f + (exp + j));
    }
    OverflowIsNearest(x, d);
  }

  /** Below half the smallest subnormal the result is zero. */
  lemma FixedUnderflows(f: nat, m: nat, exp: int, s: bool, j: nat, x: nat)
    requires f >= 11 && Pow2(f) <= m < Pow2(f + 1) && exp + j >= 0 && exp < -11 && Held(m, s, x, Pow2(exp + j))
    ensures Nearest(x, Pow2(j + f - 10), 0)
  {
    hide Pow2, Held, Nearest, Val;
    HeldBounds(m, s, x, Pow2(exp + j), f);
    Pow2Adds(f + 1, exp + j);
    Pow2Succ(f + 1 + (exp + j));
    Pow2Monotone(f + 2 + exp + j, j + f - 10);
    UnderflowIsNearest(x, Pow2(j + f - 10));
  }

  /** Overflow, underflow or a rounded result, as the exponent says. */
  function Finished(f: nat, m: nat, exp: int, s: bool): nat
    requires f >= 11
  {
    if exp > 29 then INF else if exp < -11 then 0 else FixedToHalf(f, m, exp, 0, s)
  }

  lemma FinishedRounds(f: nat, m: nat, exp: int, s: bool, j: nat, x: nat)
    requires f >= 13 && Pow2(f) <= m < Pow2(f + 1) && exp + j >= 0 && Held(m, s, x, Pow2(exp + j))
    ensures Nearest(x, Pow2(j + f - 10), Finished(f, m, exp, s)) && Finished(f, m, exp, s) <= INF
  {
    hide Pow2, Held, Nearest, FixedToHalf;
    if exp > 29 { FixedOverflows(f, m, exp, s, j, x); }
    else if exp < -11 { FixedUnderflows(f, m, exp, s, j, x); }
    else { FixedRounds(f, m, exp, s, j, x); }
    NearestInRange(x, Pow2(j + f - 10), Finished(f, m, exp, s));
  }

  // The sign bit passes through.
  lemma FixedWithSign(f: nat, m: nat, exp: int, neg: bool, s: bool)
    requires f >= 11
    ensures FixedToHalf(f, m, exp, SignBit(neg), s) == SignBit(neg) + FixedToHalf(f, m, exp, 0, s)
  {
    hide ShiftRight, LowBits;
  }
}
