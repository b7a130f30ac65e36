/** The rounding macros of startup.h on 64-bit unsigned words. The masks are written out bit by
    bit, so that ROUND and TRUNC are defined for every alignment the callers can pass, including
    zero and values that are not powers of two. */
module Bits {

  type Byte = x: nat | x < 256

  const TWO64: nat := 0x1_0000_0000_0000_0000

  /** Bitwise AND of two unsigned words of any width. */
  function And(x: nat, y: nat): nat
    decreases y
  {
    if y == 0 then 0 else (x % 2) * (y % 2) + 2 * And(x / 2, y / 2)
  }

  function Pow2(k: nat): (p: nat)
    ensures p > 0
  {
    if k == 0 then 1 else 2 * Pow2(k - 1)
  }

  /** The mask that TRUNC clears: `_a - 1` as a 64-bit value, all ones when `_a` is zero. */
  function MaskOf(a: nat): nat
    requires a < TWO64
  {
    if a == 0 then TWO64 - 1 else a - 1
  }

  /** TRUNC(x, a): x with the bits of a - 1 cleared. */
  function Trunc(x: nat, a: nat): nat
    requires a < TWO64
  {
    AndBounds(x, MaskOf(a));
    x - And(x, MaskOf(a))
  }

  /** Unsigned 64-bit addition, with its wrap-around. */
  function Add64(x: nat, y: nat): (z: nat)
    requires x < TWO64 && y < TWO64
    ensures z < TWO64
  {
    if x + y < TWO64 then x + y else x + y - TWO64
  }

  /** ROUND(x, a), with the 64-bit wrap of x + (a - 1). */
  function Round(x: nat, a: nat): nat
    requires x < TWO64 && a < TWO64
  {
    Trunc(Add64(x, MaskOf(a)), a)
  }

  lemma {:induction false} AndBounds(x: nat, y: nat)
    ensures And(x, y) <= x
    ensures And(x, y) <= y
    decreases y
  {
    if y != 0 {
      AndBounds(x / 2, y / 2);
    }
  }

  /** Bit k of the AND is set exactly if it is set in both words. */
  lemma {:induction false} AndBit(x: nat, y: nat, k: nat)
    ensures And(x, y) / Pow2(k) % 2 == 1 <==> x / Pow2(k) % 2 == 1 && y / Pow2(k) % 2 == 1
    decreases k
  {
    if y == 0 {
    } else if k == 0 {
      Halves(And(x / 2, y / 2), (x % 2) * (y % 2));
    } else {
      AndBit(x / 2, y / 2, k - 1);
      Halves(And(x / 2, y / 2), (x % 2) * (y % 2));
      HalfDivides(x, Pow2(k - 1));
      HalfDivides(y, Pow2(k - 1));
      HalfDivides(And(x, y), Pow2(k - 1));
    }
  }

  lemma Halves(h: nat, b: nat)
    requires b < 2
    ensures (b + 2 * h) / 2 == h && (b + 2 * h) % 2 == b
  {
  }

  lemma HalfDivides(x: nat, p: nat)
    requires p > 0
    ensures x / 2 / p == x / (2 * p)
  {
    DivMod(x / 2, p);
    var q, r := x / 2 / p, x / 2 % p;
    assert x == q * (2 * p) + (2 * r + x % 2) by { Commutes(q, p); }
    DivModUnique(x, 2 * p, q, 2 * r + x % 2);
  }

  /** TRUNC leaves no bit of the mask. */
  lemma {:induction false} Cleared(x: nat, y: nat)
    ensures And(x, y) <= x && And(x - And(x, y), y) == 0
    decreases y
  {
    AndBounds(x, y);
    if y != 0 {
      Cleared(x / 2, y / 2);
      var h := x / 2 - And(x / 2, y / 2);
      var b := x % 2 - (x % 2) * (y % 2);
      assert x - And(x, y) == b + 2 * h;
      Halves(h, b);
    }
  }

  lemma {:induction false} AndLowBits(x: nat, k: nat)
    ensures And(x, Pow2(k) - 1) == x % Pow2(k)
    decreases k
  {
    if k != 0 {
      var y := Pow2(k) - 1;
      assert y / 2 == Pow2(k - 1) - 1 && y % 2 == 1;
      AndLowBits(x / 2, k - 1);
      ModHalves(x, Pow2(k - 1));
    }
  }

  lemma ModHalves(x: nat, p: nat)
    requires p > 0
    ensures x % (2 * p) == x % 2 + 2 * ((x / 2) % p)
  {
    var h := x / 2;
    var q, r := h / p, h % p;
    assert x == (2 * p) * q + (x % 2 + 2 * r);
    DivModUnique(x, 2 * p, q, x % 2 + 2 * r);
  }

  lemma DivModUnique(x: int, d: nat, q: int, r: nat)
    requires d > 0 && r < d && x == d * q + r
    ensures x / d == q && x % d == r
  {
    MultipleOutside(d, q - x / d);
  }

  lemma DivMod(x: nat, d: nat)
    requires d > 0
    ensures x == d * (x / d) + x % d && x % d < d
  {
  }

  /** x in the mixed base a, b: the digits l and m, and the rest k. */
  lemma Fields(x: nat, a: nat, b: nat) returns (h: nat, l: nat, k: nat, m: nat)
    requires a > 0 && b > 0
    ensures l < a && m < b && h == x / a && l == x % a && k == h / b && m == h % b
    ensures a * b > 0 && x / (a * b) == k && x % (a * b) == a * m + l
    ensures (a * m + l) / a == m && (a * m + l) % a == l
  {
    h, l := x / a, x % a;
    k, m := h / b, h % b;
    DivMod(x, a);
    DivMod(h, b);
    MixedDigits(a, b, h, l, k, m);
    DivModUnique(x, a * b, k, a * m + l);
    DivModUnique(a * m + l, a, m, l);
  }

  lemma MixedDigits(a: nat, b: nat, h: nat, l: nat, k: nat, m: nat)
    requires l < a && m < b && h == b * k + m
    ensures a * b > 0 && a * h + l == (a * b) * k + (a * m + l) && a * m + l < a * b
  {
    Distribute(a, b, k, m);
    MulAtMost(a, m, b);
  }

  lemma Distribute(a: nat, b: nat, k: nat, m: nat)
    ensures a * (b * k + m) == (a * b) * k + a * m
  {
  }

  lemma MulAtMost(a: nat, m: nat, b: nat)
    requires m < b
    ensures a * m + a <= a * b
  {
    assert a * b == a * m + a * (b - m);
    assert a * (b - m) == a + a * (b - m - 1);
  }

  lemma MultipleOutside(d: int, m: int)
    requires d >= 0
    ensures m >= 1 ==> d * m >= d
    ensures m <= -1 ==> d * m <= -d
  {
    if m >= 1 {
      assert d * m == d + d * (m - 1);
    } else if m <= -1 {
      assert d * m == -d + d * (m + 1);
    }
  }

  /** What the allocator relies on: rounding up with any nonzero alignment never moves below the
      argument and moves by less than the alignment, power of two or not. */
  lemma RoundBounds(x: nat, a: nat)
    requires 0 < a < TWO64 && x + a <= TWO64
    ensures x <= Round(x, a) < x + a
  {
    AndBounds(x + (a - 1), a - 1);
  }

  /** Rounding stays in the word, also where the sum wraps. */
  lemma RoundInWord(x: nat, a: nat)
    requires x < TWO64 && a < TWO64
    ensures Round(x, a) < TWO64
  {
  }

  /** Truncation with any nonzero alignment moves down by less than the alignment. */
  lemma TruncBounds(x: nat, a: nat)
    requires 0 < a < TWO64
    ensures Trunc(x, a) <= x < Trunc(x, a) + a
  {
    AndBounds(x, a - 1);
  }

  /** An alignment of zero rounds everything to address zero. */
  lemma ZeroAlignment(x: nat)
    requires x < TWO64
    ensures Trunc(x, 0) == 0 && Round(x, 0) == 0
  {
    AndAllOnes(x);
    AndAllOnes(Add64(x, TWO64 - 1));
  }

  lemma AndAllOnes(x: nat)
    requires x < TWO64
    ensures And(x, TWO64 - 1) == x
  {
    Pow2Doubles(64);
    AndLowBits(x, 64);
  }

  lemma Pow2Doubles(k: nat)
    ensures k == 64 ==> Pow2(k) == TWO64
  {
    hide Pow2;
    Pow2Of8();
    Pow2Adds(8, 8);
    Pow2Adds(16, 16);
    Pow2Adds(32, 32);
  }

  lemma Pow2Of8()
    ensures Pow2(8) == 256
  {
  }

  lemma Twice(a: nat, b: nat)
    ensures 2 * a * b == 2 * (a * b)
  {
  }

  lemma {:induction false} Pow2Adds(i: nat, j: nat)
    ensures Pow2(i + j) == Pow2(i) * Pow2(j)
  {
    if i != 0 {
      Pow2Adds(i - 1, j);
      Twice(Pow2(i - 1), Pow2(j));
    }
  }

  /** With a power of two, TRUNC is the largest multiple not above x and ROUND the smallest not
      below it. */
  lemma PowerOfTwoAlignment(x: nat, k: nat)
    requires Pow2(k) < TWO64 && x + Pow2(k) <= TWO64
    ensures Trunc(x, Pow2(k)) == x - x % Pow2(k)
    ensures Trunc(x, Pow2(k)) % Pow2(k) == 0
    ensures Round(x, Pow2(k)) % Pow2(k) == 0
    ensures x % Pow2(k) == 0 ==> Round(x, Pow2(k)) == x
  {
    AlignDown(x, k);
    AlignDown(x + (Pow2(k) - 1), k);
    if x % Pow2(k) == 0 {
      AlignedSum(x, Pow2(k));
    }
  }

  lemma AlignedSum(x: nat, p: nat)
    requires p > 0 && x % p == 0
    ensures (x + (p - 1)) % p == p - 1
  {
    DivModUnique(x + (p - 1), p, x / p, p - 1);
  }

  lemma AlignDown(x: nat, k: nat)
    requires Pow2(k) < TWO64
    ensures Trunc(x, Pow2(k)) == x - x % Pow2(k)
    ensures Trunc(x, Pow2(k)) % Pow2(k) == 0
  {
    AndLowBits(x, k);
    DownToMultiple(x, Pow2(k));
  }

  lemma DownToMultiple(x: nat, p: nat)
    requires p > 0
    ensures x % p <= x && (x - x % p) % p == 0
  {
    DivMod(x, p);
    DivModUnique(x - x % p, p, x / p, 0);
  }

  /** ROUND as callers with a fixed power of two use it: the next multiple. */
  function UpTo(x: nat, a: nat): nat
    requires a > 0
  {
    (x + a - 1) / a * a
  }

  lemma UpToWhole(k: nat, a: nat)
    requires a > 0
    ensures UpTo(k * a, a) == k * a && k * a % a == 0
  {
    DivModUnique(k * a, a, k, 0);
    DivModUnique(k * a + a - 1, a, k, a - 1);
  }

  lemma Commutes(a: nat, b: nat)
    ensures a * b == b * a
  {
  }

  lemma UpToStays(x: nat, a: nat)
    requires a > 0 && x % a == 0
    ensures UpTo(x, a) == x
  {
    hide UpTo;
    DivMod(x, a);
    Commutes(a, x / a);
    UpToWhole(x / a, a);
  }

  lemma UpToTwice(x: nat, a: nat)
    requires a > 0
    ensures UpTo(UpTo(x, a), a) == UpTo(x, a) >= x && UpTo(x, a) % a == 0
  {
    UpToWhole((x + a - 1) / a, a);
    DivMod(x + a - 1, a);
  }

  lemma UpToShifted(k: nat, x: nat, a: nat)
    requires a > 0
    ensures UpTo(k * a + x, a) == k * a + UpTo(x, a)
  {
    var y := x + a - 1;
    DivMod(y, a);
    DivModUnique(k * a + y, a, k + y / a, y % a);
  }

  lemma LastBelow(x: nat, a: nat)
    requires a > 0
    ensures x + (a - 1) - (x + (a - 1)) % a == UpTo(x, a)
  {
    DivMod(x + (a - 1), a);
  }

  /** The next multiple is what the macro computes, for every power of two and where x + a does not
      wrap. */
  lemma UpToIsRound(x: nat, k: nat)
    requires Pow2(k) < TWO64 && x + Pow2(k) <= TWO64
    ensures Round(x, Pow2(k)) == UpTo(x, Pow2(k))
  {
    hide Pow2, Trunc, UpTo;
    AlignDown(x + (Pow2(k) - 1), k);
    LastBelow(x, Pow2(k));
  }

  /** The fixed alignments in use: words of the string sections, of the system page, chunks of a
      section, and both page sizes. */
  lemma FixedAlignments(x: nat)
    requires x + 0x10000 <= TWO64
    ensures Round(x, 4) == UpTo(x, 4) && Round(x, 8) == UpTo(x, 8) && Round(x, 128) == UpTo(x, 128)
    ensures Round(x, 0x1000) == UpTo(x, 0x1000) && Round(x, 0x10000) == UpTo(x, 0x10000)
  {
    hide Round, UpTo;
    FixedPowers();
    UpToIsRound(x, 2);
    UpToIsRound(x, 3);
    UpToIsRound(x, 7);
    UpToIsRound(x, 12);
    UpToIsRound(x, 16);
  }

  lemma FixedPowers()
    ensures Pow2(2) == 4 && Pow2(3) == 8 && Pow2(7) == 128 && Pow2(12) == 0x1000 && Pow2(16) == 0x10000
  {
    Pow2Of8();
    Pow2Adds(8, 4);
    Pow2Adds(8, 8);
    assert Pow2(4) == 16;
  }

  ghost predicate PowerOfTwo(a: nat) { exists k: nat :: a == Pow2(k) }

  lemma {:induction false} AndSelf(x: nat)
    ensures And(x, x) == x
  {
    if x != 0 {
      AndSelf(x / 2);
      assert x % 2 * (x % 2) == x % 2;
    }
  }

  lemma FourTimes(p: nat)
    ensures 4 * p % 4 == 0
  {
  }

  lemma WordOrLess(k: nat)
    ensures Pow2(k) % 4 == 0 || Pow2(k) == 1 || Pow2(k) == 2
  {
    if k >= 2 {
      FourTimes(Pow2(k - 2));
      assert Pow2(k) == 2 * Pow2(k - 1) == 4 * Pow2(k - 2);
    }
  }
}
