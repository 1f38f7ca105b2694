/**
  Bitwise operations on natural numbers, defined digit by digit, and the two facts
  about them that the queue's index arithmetic rests on: masking with `2^k - 1` is
  reduction modulo `2^k`, and smearing the top bit downwards turns a number into
  `2^L - 1`.
*/
module Bits {

  function Pow2(k: nat): (p: nat)
    ensures p >= 1
  {
    if k == 0 then 1 else 2 * Pow2(k - 1)
  }

  ghost predicate IsPow2(n: nat) {
    exists k: nat :: n == Pow2(k)
  }

  lemma Doubled(n: nat)
    requires IsPow2(n)
    ensures IsPow2(2 * n)
  {
    var k: nat :| n == Pow2(k);
    assert 2 * n == Pow2(k + 1);
  }

  function Quotient(a: nat, n: nat): nat requires n > 0 { a / n }
  function Remainder(a: nat, n: nat): nat requires n > 0 { a % n }

  lemma DivMod(a: nat, n: nat)
    requires n > 0
    ensures a == (a / n) * n + a % n && a % n < n
  {
  }

  function BitAnd(a: nat, b: nat): nat
    decreases a
  {
    if a == 0 then 0
    else (if a % 2 == 1 && b % 2 == 1 then 1 else 0) + 2 * BitAnd(a / 2, b / 2)
  }

  function BitOr(a: nat, b: nat): nat
    decreases a + b
  {
    if a == 0 then b
    else (if a % 2 == 1 || b % 2 == 1 then 1 else 0) + 2 * BitOr(a / 2, b / 2)
  }

  /** Masking with `n - 1`, for `n` the power of two `2^k`, keeps the low `k` bits. */
  lemma {:induction false} MaskIsMod(a: nat, n: nat, k: nat)
    requires n == Pow2(k)
    ensures BitAnd(a, n - 1) == a % n
  {
    if k == 0 {
      AndZero(a);
    } else if a > 0 {
      var p := n / 2;
      assert n == 2 * p && p == Pow2(k - 1);
      MaskIsMod(a / 2, p, k - 1);
      calc {
        BitAnd(a, n - 1);
        { MaskHalf(a, p); }
        a % 2 + 2 * BitAnd(a / 2, p - 1);
        a % 2 + 2 * ((a / 2) % p);
        { ModDouble(a, p); }
        a % n;
      }
    } else {
      ModUnique(0, n, 0, 0);
    }
  }

  /** One unfolding of `BitAnd` on a mask of the form `2p - 1`. */
  lemma MaskHalf(a: nat, p: nat)
    requires a > 0 && p > 0
    ensures BitAnd(a, 2 * p - 1) == a % 2 + 2 * BitAnd(a / 2, p - 1)
  {
    assert (2 * p - 1) / 2 == p - 1 && (2 * p - 1) % 2 == 1;
  }

  lemma {:induction false} AndZero(a: nat)
    ensures BitAnd(a, 0) == 0
  {
    if a > 0 { AndZero(a / 2); }
  }

  lemma ModDouble(a: nat, p: nat)
    requires p > 0
    ensures a % (2 * p) == a % 2 + 2 * ((a / 2) % p) && a / (2 * p) == a / 2 / p
  {
    var q, r := (a / 2) / p, (a / 2) % p;
    assert a / 2 == q * p + r;
    assert a == q * (2 * p) + (a % 2 + 2 * r);
    ModUnique(a, 2 * p, q, a % 2 + 2 * r);
  }

  lemma MulAtLeast(d: int, n: int)
    requires n > 0
    ensures d >= 1 ==> d * n >= n
    ensures (-d) * n == -(d * n)
  {
  }

  lemma ModUnique(a: int, n: int, q: int, r: int)
    requires n > 0 && a == q * n + r && 0 <= r < n
    ensures a / n == q && a % n == r
  {
    var q', r' := a / n, a % n;
    assert (q' - q) * n == r - r';
    MulAtLeast(q' - q, n);
    MulAtLeast(q - q', n);
  }

  lemma MulMonotone(a: nat, b: nat, c: nat)
    requires a <= b
    ensures a * c <= b * c
  {
    assert b * c == a * c + (b - a) * c;
  }

  lemma MulSucc(n: nat, c: nat)
    ensures (n + 1) * c == n * c + c
  {
  }

  lemma Pow2Zero()
    ensures Pow2(0) == 1
  {
  }

  lemma Pow2Succ(k: nat)
    ensures Pow2(k + 1) == 2 * Pow2(k)
  {
  }

  lemma PowerEight()
    ensures Pow2(8) == 0x100
  {
  }

  lemma {:induction false} Pow2Adds(a: nat, b: nat)
    ensures Pow2(a + b) == Pow2(a) * Pow2(b)
  {
    if a > 0 { Pow2Adds(a - 1, b); }
  }

  lemma {:induction false} Pow2Monotone(a: nat, b: nat)
    requires a <= b
    ensures Pow2(a) <= Pow2(b)
  {
    if a < b { Pow2Monotone(a, b - 1); }
  }

  // ---------------------------------------------------------------- 32-bit words

  const WORD32: nat := 0x1_0000_0000

  type int32 = x: int | -0x8000_0000 <= x < 0x8000_0000

  // x reduced to a 32-bit int
  function Int32(x: int): (r: int32)
    ensures -0x8000_0000 <= x < 0x8000_0000 ==> r == x
    ensures 0 <= x ==> r <= x
  {
    if x % WORD32 < 0x8000_0000 then x % WORD32 else x % WORD32 - WORD32
  }

  lemma WordPower(low: nat)
    requires low <= 32
    ensures Pow2(low) * Pow2(32 - low) == WORD32
    ensures low == 0 ==> Pow2(32) == WORD32
  {
    hide Pow2;
    PowerEight();
    Pow2Adds(8, 8);
    Pow2Adds(16, 16);
    Pow2Adds(low, 32 - low);
  }

  // ---------------------------------------------------------------- single bits

  predicate Bit(x: nat, i: nat) {
    if i == 0 then x % 2 == 1 else Bit(x / 2, i - 1)
  }

  // x >> w
  function Shr(x: nat, w: nat): nat {
    if w == 0 then x else Shr(x / 2, w - 1)
  }

  lemma {:induction false} BitOfShr(x: nat, w: nat, i: nat)
    ensures Bit(Shr(x, w), i) == Bit(x, i + w)
  {
    if w > 0 { BitOfShr(x / 2, w - 1, i); }
  }

  lemma {:induction false} BitOfOr(a: nat, b: nat, i: nat)
    ensures Bit(BitOr(a, b), i) == (Bit(a, i) || Bit(b, i))
  {
    if a == 0 {
      NoBits(i);
    } else if i > 0 {
      assert BitOr(a, b) / 2 == BitOr(a / 2, b / 2);
      BitOfOr(a / 2, b / 2, i - 1);
    }
  }

  // Adding 2^k where bit k is clear sets that bit and no other.
  lemma {:induction false} SetBit(x: nat, k: nat, i: nat)
    requires !Bit(x, k)
    ensures Bit(x + Pow2(k), i) == (i == k || Bit(x, i))
  {
    if k == 0 {
      if i > 0 { assert (x + 1) / 2 == x / 2; }
    } else {
      assert (x + Pow2(k)) / 2 == x / 2 + Pow2(k - 1);
      if i > 0 { SetBit(x / 2, k - 1, i - 1); }
    }
  }

  lemma {:induction false} BitByDivision(x: nat, k: nat)
    ensures Bit(x, k) <==> x / Pow2(k) % 2 == 1
  {
    if k > 0 {
      BitByDivision(x / 2, k - 1);
      ModDouble(x, Pow2(k - 1));
    }
  }

  lemma {:induction false} NoBits(i: nat)
    ensures !Bit(0, i)
  {
    if i > 0 { NoBits(i - 1); }
  }

  lemma {:induction false} OrBelow(a: nat, b: nat, n: nat)
    requires a < Pow2(n) && b < Pow2(n)
    ensures BitOr(a, b) < Pow2(n)
  {
    if n > 0 && a > 0 { OrBelow(a / 2, b / 2, n - 1); }
  }

  lemma {:induction false} ShrBelow(x: nat, w: nat)
    ensures Shr(x, w) <= x
  {
    if w > 0 { ShrBelow(x / 2, w - 1); }
  }

  // The top w of the n bits of x are set.
  ghost predicate TopSet(x: nat, n: nat, w: nat) {
    x < Pow2(n) && forall i :: n - w <= i < n && 0 <= i ==> Bit(x, i)
  }

  /** Or-ing a number with itself shifted by w doubles the number of leading ones. */
  lemma Smear(x: nat, n: nat, w: nat)
    requires TopSet(x, n, w)
    ensures TopSet(BitOr(x, Shr(x, w)), n, 2 * w)
  {
    ShrBelow(x, w);
    OrBelow(x, Shr(x, w), n);
    forall i | n - 2 * w <= i < n && 0 <= i
      ensures Bit(BitOr(x, Shr(x, w)), i)
    {
      BitOfOr(x, Shr(x, w), i);
      BitOfShr(x, w, i);
    }
  }

  lemma {:induction false} AllOnes(x: nat, n: nat)
    requires TopSet(x, n, n)
    ensures x == Pow2(n) - 1
  {
    if n > 0 {
      forall i | 0 <= i < n - 1
        ensures Bit(x / 2, i)
      {
        assert Bit(x, i + 1);
      }
      AllOnes(x / 2, n - 1);
      assert Bit(x, 0);
    }
  }

  /** The number of binary digits of x. */
  function Length(x: nat): (n: nat)
    ensures x < Pow2(n)
    ensures x > 0 ==> n > 0 && x >= Pow2(n - 1)
  {
    if x == 0 then 0 else 1 + Length(x / 2)
  }

  lemma {:induction false} TopBit(x: nat)
    ensures TopSet(x, Length(x), 1)
  {
    if x > 1 {
      TopBit(x / 2);
      assert Bit(x / 2, Length(x / 2) - 1);
    }
  }

  lemma {:induction false} LengthBound(x: nat, n: nat)
    requires x < Pow2(n)
    ensures Length(x) <= n
  {
    if x > 0 { LengthBound(x / 2, n - 1); }
  }
}
