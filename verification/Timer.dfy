/** invert_timer_freq.c and timer_tick2ns.c: decimal long division, and tick conversion with 64-bit
    products. */
module Timer {
  import opened Bits
  import opened Wrappers

  const UINT_MAX: nat := 0xFFFF_FFFF
  const LIMIT: nat := UINT_MAX / 10 - 10

  function Pow10(n: nat): (p: nat)
    ensures p > 0
  {
    if n == 0 then 1 else 10 * Pow10(n - 1)
  }

  lemma {:induction false} Pow10Grows(a: nat, b: nat)
    requires a <= b
    ensures Pow10(a) <= Pow10(b)
  {
    if a < b {
      Pow10Grows(a, b - 1);
    }
  }

  lemma {:induction false} Pow10Adds(a: nat, b: nat)
    ensures Pow10(a + b) == Pow10(a) * Pow10(b)
  {
    if b > 0 {
      Pow10Adds(a, b - 1);
      assert Pow10(a) * Pow10(b) == 10 * (Pow10(a) * Pow10(b - 1));
    }
  }

  /** One more digit of the quotient. */
  lemma NextDigit(f: nat, k: nat)
    requires f > 0
    ensures Pow10(k + 1) / f == Pow10(k) / f * 10 + Pow10(k) % f * 10 / f
    ensures Pow10(k + 1) % f == Pow10(k) % f * 10 % f
  {
    ShiftDivide(Pow10(k), f);
  }

  lemma ShiftDivide(x: nat, f: nat)
    requires f > 0
    ensures 10 * x / f == x / f * 10 + x % f * 10 / f
    ensures 10 * x % f == x % f * 10 % f
  {
    DivMod(x, f);
    DivMod(x % f * 10, f);
    TenTimes(x, f, x / f, x % f, x % f * 10 / f, x % f * 10 % f);
  }

  lemma TenTimes(x: nat, f: nat, q: nat, r: nat, d: nat, s: nat)
    requires f > 0 && x == f * q + r && r * 10 == f * d + s && s < f
    ensures 10 * x / f == q * 10 + d && 10 * x % f == s
  {
    Regroup(f, q, d);
    DivModUnique(10 * x, f, q * 10 + d, s);
  }

  lemma Regroup(f: nat, q: nat, d: nat)
    ensures f * (q * 10 + d) == 10 * (f * q) + f * d
  {
  }

  /** The division stops at k digits: it has come out even, or the period is as large as it may
      get. */
  predicate Stops(f: nat, k: nat)
    requires f > 0
  {
    Pow10(k) / f >= LIMIT || Pow10(k) % f == 0
  }

  lemma Below(x: nat, d: nat, b: nat)
    requires d > 0
    ensures x / d < b <==> x < b * d
  {
    if x / d < b {
      assert (x / d + 1) * d <= b * d;
    } else {
      assert b * d <= x / d * d;
    }
  }

  /** The division has stopped after 18 digits. */
  lemma StopsInTime(f: nat, k: nat)
    requires 0 < f <= UINT_MAX / 10 && !Stops(f, k)
    ensures k < 18
  {
    hide Pow10;
    Below(Pow10(k), f, LIMIT);
    Eighteen();
    if k >= 18 {
      Pow10Grows(18, k);
    }
  }

  lemma Eighteen()
    ensures Pow10(18) == 1000000000000000000
  {
    assert Pow10(6) == 1000000;
    Pow10Adds(6, 6);
    Pow10Adds(12, 6);
  }

  /** The variables of the loop when digit k is next. */
  predicate Dividing(f: nat, k: nat, quot: nat, period: nat)
    requires f > 0
  {
    && (k == 0 ==> quot == 1 && period == 0)
    && (k > 0 ==> quot == Pow10(k - 1) % f * 10 && period == Pow10(k - 1) / f < LIMIT)
  }

  /** One digit, and no step leaves the 32 bits. */
  lemma Digit(f: nat, k: nat, quot: nat, period: nat)
    requires 0 < f <= UINT_MAX / 10 && Dividing(f, k, quot, period)
    ensures period * 10 + quot / f == Pow10(k) / f <= UINT_MAX
    ensures quot % f == Pow10(k) % f && quot <= UINT_MAX
  {
    if k > 0 {
      NextDigit(f, k - 1);
      Below(quot, f, 10);
    } else {
      Below(quot, f, 2);
    }
  }

  /** One round: div, period and rem. */
  method NextRound(f: nat, ghost k: nat, quot: nat, period0: nat) returns (period: nat, rem: nat)
    requires 0 < f <= UINT_MAX / 10 && Dividing(f, k, quot, period0)
    ensures period == Pow10(k) / f <= UINT_MAX && rem == Pow10(k) % f
    ensures rem * 10 <= UINT_MAX
    ensures Stops(f, k) <==> period >= LIMIT || rem == 0
    ensures period < LIMIT ==> Dividing(f, k + 1, rem * 10, period)
  {
    hide Pow10;
    Digit(f, k, quot, period0);
    var div;
    div, rem := Divide(quot, f);
    period := period0 * 10 + div;
  }

  method Divide(x: nat, d: nat) returns (q: nat, r: nat)
    requires d > 0
    ensures q == x / d && r == x % d < d
  {
    q, r := x / d, x % d;
  }

  /** The loop of invert_timer_freq, in 32-bit arithmetic: the first k where the division stops. */
  method LongDivision(f: nat) returns (period: nat, k: nat)
    requires 0 < f <= UINT_MAX / 10
    ensures period == Pow10(k) / f <= UINT_MAX
    ensures Stops(f, k) && forall j: nat :: j < k ==> !Stops(f, j)
  {
    hide Pow10, Dividing, Stops;
    var quot: nat := 1;
    period, k := 0, 0;
    Start(f);
    while true
      invariant Dividing(f, k, quot, period)
      invariant forall j: nat :: j < k ==> !Stops(f, j)
      decreases 18 - k
    {
      var rem;
      period, rem := NextRound(f, k, quot, period);
      if period >= UINT_MAX / 10 - 10 {
        break;
      }
      if rem == 0 {
        break;
      }
      StopsInTime(f, k);
      k := k + 1;
      quot := rem * 10;
    }
  }

  lemma Start(f: nat)
    requires f > 0
    ensures Dividing(f, 0, 1, 0)
  {
  }

  /** Where the division does not come out even, the period has as many digits as 32 bits hold: what
      is left out is less than a part in 429496719. */
  lemma Precision(f: nat, k: nat)
    requires 0 < f && Stops(f, k)
    ensures Pow10(k) % f == 0 || (Pow10(k) / f >= 429496719 && 429496719 * (Pow10(k) % f) < Pow10(k))
  {
    hide Pow10;
    var x := Pow10(k);
    DivMod(x, f);
    if x % f != 0 {
      Leftover(f, x / f, x % f, 429496719);
    }
  }

  lemma Leftover(f: nat, q: nat, r: nat, n: nat)
    requires r < f && n <= q && 0 < n
    ensures n * r < f * q + r
  {
    assert n * r <= q * r by { assert q * r - n * r == (q - n) * r; }
    assert q * r <= f * q by { assert f * q - q * r == q * (f - r); }
    if r == 0 {
      assert f * q >= 1;
    }
  }

  /** The frequency the division works with, and the scale it starts from. */
  function Reduced(freq: nat): nat { if freq > UINT_MAX / 10 then freq / 10 else freq }

  function FirstScale(freq: nat): nat { if freq > UINT_MAX / 10 then 1 else 0 }

  function Dropped(freq: nat): nat { if freq > UINT_MAX / 10 then freq % 10 else 0 }

  /** The period against the frequency asked for, with e the negated scale: period * freq is more
      than 10^e - freq, and exceeds 10^e by no more than the dropped digit accounts for. r is what
      the division leaves. */
  lemma PeriodError(freq: nat, k: nat, period: nat, r: nat)
    requires 0 < freq <= UINT_MAX && Pow10(k) == Reduced(freq) * period + r && r < Reduced(freq)
    ensures var e := k + FirstScale(freq);
            && Pow10(e) < (period + 1) * freq
            && period * freq <= Pow10(e) + period * Dropped(freq)
            && (r == 0 && freq <= UINT_MAX / 10 ==> period * freq == Pow10(e))
  {
    hide Reduced, Dropped;
    FrequencySplits(freq);
    if freq > UINT_MAX / 10 {
      assert Pow10(k + 1) == 10 * Pow10(k);
      LargeError(Pow10(k), Reduced(freq), period, r, Dropped(freq));
    } else {
      SmallError(Pow10(k), Reduced(freq), period, r);
    }
  }

  lemma FrequencySplits(freq: nat)
    requires 0 < freq
    ensures Reduced(freq) > 0
    ensures freq == if freq > UINT_MAX / 10 then 10 * Reduced(freq) + Dropped(freq) else Reduced(freq)
  {
  }

  lemma LargeError(x: nat, f: nat, period: nat, r: nat, d: nat)
    requires x == f * period + r && r < f
    ensures 10 * x < (period + 1) * (10 * f + d) && period * (10 * f + d) <= 10 * x + period * d
  {
    assert period * (10 * f + d) == 10 * (f * period) + period * d;
    assert (period + 1) * (10 * f + d) == period * (10 * f + d) + 10 * f + d;
  }

  lemma SmallError(x: nat, f: nat, period: nat, r: nat)
    requires x == f * period + r && r < f
    ensures x < (period + 1) * f && period * f <= x && (r == 0 ==> period * f == x)
  {
    assert (period + 1) * f == f * period + f;
  }

  // ---- ticks to nanoseconds ----

  /** The 64-bit product, or zero where dividing it again shows that it has overflowed. */
  function Product(period: nat, t: nat): nat
    requires period > 0
  {
    var x := period * t % TWO64; if x / period == t then x else 0
  }

  lemma ProductFits(period: nat, t: nat)
    requires period > 0 && t < TWO64
    ensures Product(period, t) == if period * t < TWO64 then period * t else 0
  {
    var y := period * t;
    var x := y % TWO64;
    if y < TWO64 {
      DivModUnique(y, period, t, 0);
    } else {
      Below(x, period, t);
      assert x < TWO64 <= y;
      assert t * period == y;
    }
  }

  /** The first loop of timer_tick2ns with `power` rounds to go; None is a division by zero. */
  function Scale(period: nat, t: nat, ns: nat, power: nat): Option<nat>
    decreases power
  {
    if ns == 0 && period == 0 then None
    else
      var ns1 := if ns == 0 then Product(period, t) else ns;
      if power == 0 then Some(ns1) else Scale(period / 10, t, ns1 / 10, power - 1)
  }

  lemma Tenth(x: nat, p: nat)
    requires p > 0
    ensures x / 10 / Pow10(p - 1) == x / Pow10(p)
    ensures x >= Pow10(p) <==> x / 10 >= Pow10(p - 1)
  {
    var q, d := x / 10 / Pow10(p - 1), Pow10(p - 1);
    var r := x / 10 - q * d;
    assert x == q * Pow10(p) + (10 * r + x % 10) by {
      assert q * Pow10(p) == 10 * (q * d);
    }
    DivModUnique(x, Pow10(p), q, 10 * r + x % 10);
  }

  /** A value with digits enough is just divided. */
  lemma {:induction false} ScaleDivides(period: nat, t: nat, ns: nat, p: nat)
    requires ns >= Pow10(p)
    ensures Scale(period, t, ns, p) == Some(ns / Pow10(p))
    decreases p
  {
    if p > 0 {
      Tenth(ns, p);
      ScaleDivides(period / 10, t, ns / 10, p - 1);
    }
  }

  /** A value without is lost, and the period with it. */
  lemma {:induction false} ScaleDies(period: nat, t: nat, ns: nat, p: nat)
    requires 0 < t && period * t <= ns < Pow10(p)
    ensures Scale(period, t, ns, p).None?
    decreases p
  {
    if ns == 0 {
      assert period == 0 || period * t >= 1;
    } else {
      Tenth(ns, p);
      assert 10 * (period / 10 * t) <= period * t;
      ScaleDies(period / 10, t, ns / 10, p - 1);
    }
  }

  lemma {:induction false} ScaleZero(period: nat, p: nat)
    ensures Scale(period, 0, 0, p) == if period >= Pow10(p) then Some(0) else None
    decreases p
  {
    if period > 0 && p > 0 {
      ProductFits(period, 0);
      Tenth(period, p);
      ScaleZero(period / 10, p - 1);
    }
  }

  /** Where the first product fits, the result is the exact quotient, or the code divides by zero:
      exactly when the period has too few digits and that quotient is zero. */
  lemma ScaleFits(period: nat, t: nat, p: nat)
    requires t < TWO64 && period * t < TWO64
    ensures Scale(period, t, 0, p) ==
              if period * t < Pow10(p) && period < Pow10(p) then None else Some(period * t / Pow10(p))
  {
    hide Pow10;
    if t == 0 {
      ScaleZero(period, p);
      QuotientOfZero(Pow10(p));
    } else if period > 0 {
      ProductFits(period, t);
      AtLeastFactor(period, t);
      FirstProduct(period, t, p, period * t);
    } else {
      NoPeriod(t, p);
    }
  }

  lemma QuotientOfZero(d: nat)
    requires d > 0
    ensures 0 / d == 0
  {
    DivModUnique(0, d, 0, 0);
  }

  lemma AtLeastFactor(period: nat, t: nat)
    requires t > 0
    ensures period <= period * t
  {
  }

  lemma NoPeriod(t: nat, p: nat)
    ensures Scale(0, t, 0, p).None?
  {
  }

  /** From the first product ns on the value is only divided. */
  lemma FirstProduct(period: nat, t: nat, p: nat, ns: nat)
    requires 0 < period <= ns && 0 < t && ns == period * t == Product(period, t)
    ensures Scale(period, t, 0, p) == if ns < Pow10(p) then None else Some(ns / Pow10(p))
  {
    hide Product;
    if p == 0 {
      DivModUnique(ns, 1, ns, 0);
    } else {
      Tenth(ns, p);
      if ns >= Pow10(p) {
        ScaleDivides(period / 10, t, ns / 10, p - 1);
      } else {
        TenthOfProduct(period, t, ns);
        ScaleDies(period / 10, t, ns / 10, p - 1);
      }
    }
  }

  lemma TenthOfProduct(period: nat, t: nat, ns: nat)
    requires ns == period * t
    ensures period / 10 * t <= ns / 10
  {
    var q, r := period / 10, period % 10;
    assert ns == 10 * (q * t) + r * t;
  }

  /** The result after m digits have been dropped from the period before the product. */
  function Reduced10(period: nat, t: nat, p: nat, m: nat): int
    requires m <= p
  {
    period / Pow10(m) * t / Pow10(p - m)
  }

  /** The exact quotient. */
  function Exact(period: nat, t: nat, p: nat): int { period * t / Pow10(p) }

  /** How many digits of the period are dropped before the product fits into 64 bits. */
  function Drops(period: nat, t: nat): nat
    requires t < TWO64
  {
    if period * t < TWO64 || period == 0 then 0 else 1 + Drops(period / 10, t)
  }

  /** It is the least number of digits that does. */
  lemma {:induction false} DropsLeast(period: nat, t: nat, j: nat)
    requires t < TWO64
    ensures j < Drops(period, t) ==> period / Pow10(j) * t >= TWO64
    ensures j == Drops(period, t) ==> period / Pow10(j) * t < TWO64
    decreases period
  {
    hide Pow10;
    ByOne(period);
    if period * t >= TWO64 && j > 0 {
      Tenth(period, j);
      DropsLeast(period / 10, t, j - 1);
    }
  }

  lemma ByOne(x: nat)
    ensures x / Pow10(0) == x
  {
  }

  /** The first loop for every period and every 64-bit tick count. It divides by zero exactly when
      the period has too few digits for the power of ten and the product, taken after as many
      digits were dropped as it takes to fit, does so as well. */
  lemma {:induction false} ScaleExactly(period: nat, t: nat, p: nat)
    requires t < TWO64
    ensures var m := Drops(period, t);
            Scale(period, t, 0, p) ==
              if m > p then Some(0)
              else if period < Pow10(p) && period / Pow10(m) * t < Pow10(p - m) then None
              else Some(Reduced10(period, t, p, m))
    decreases p
  {
    hide Pow10;
    if period * t < TWO64 {
      ByOne(period);
      ScaleFits(period, t, p);
    } else {
      ProductFits(period, t);
      if p > 0 {
        Tenth(period, p);
        Tenth2(period, Drops(period / 10, t));
        ScaleExactly(period / 10, t, p - 1);
      }
    }
  }

  /** 2 GHz: the period has one digit and the power of ten is one, so timer_tick2ns divides by zero
      for less than two ticks, and for all that make the product overflow. */
  lemma TwoGigahertz(t: nat)
    requires t < TWO64
    ensures var f := Reduced(2000000000);
            && f > 0 && Pow10(9) / f == 5 && Stops(f, 9) && (forall j: nat :: j < 9 ==> !Stops(f, j))
            && -9 + (9 + FirstScale(2000000000)) == 1
    ensures Scale(5, t, 0, 1).None? <==> t < 2 || 5 * t >= TWO64
    ensures Exact(5, t, 1) == t / 2
  {
    PowersToNine();
    forall j: nat | j < 9 ensures !Stops(Reduced(2000000000), j) {
      assert j == 0 || j == 1 || j == 2 || j == 3 || j == 4 || j == 5 || j == 6 || j == 7 || j == 8;
    }
    assert Pow10(1) == 10 && Pow10(0) == 1;
    ScaleExactly(5, t, 1);
    assert 5 / Pow10(1) == 0;
    if 5 * t >= TWO64 {
      assert Drops(5, t) == 1;
    }
  }

  lemma PowersToNine()
    ensures Pow10(0) == 1 && Pow10(1) == 10 && Pow10(2) == 100 && Pow10(3) == 1000 && Pow10(4) == 10000
    ensures Pow10(5) == 100000 && Pow10(6) == 1000000 && Pow10(7) == 10000000 && Pow10(8) == 100000000
    ensures Pow10(9) == 1000000000
  {
  }

  /** With a period of enough digits, and an exact result of 64 bits, the loop ends with a product
      taken after some m digits were dropped. */
  lemma ScaleReduces(period: nat, t: nat, p: nat) returns (m: nat)
    requires t < TWO64 && period >= Pow10(p) && Exact(period, t, p) < TWO64
    ensures m <= p && Scale(period, t, 0, p) == Some(Reduced10(period, t, p, m))
    ensures period * t < TWO64 ==> m == 0
  {
    m := Drops(period, t);
    ScaleExactly(period, t, p);
    DropsLeast(period, t, p);
    if m > p {
      ReducedBounds(period, t, p, p);
      ByOne(period / Pow10(p) * t);
    }
  }

  lemma Tenth2(x: nat, m: nat)
    ensures x / 10 / Pow10(m) == x / Pow10(m + 1)
  {
    Tenth(x, m + 1);
  }

  /** Whatever was dropped, the result is never more than the exact quotient, and short of it by no
      more than ticks. */
  lemma ReducedBounds(period: nat, t: nat, p: nat, m: nat)
    requires m <= p
    ensures Reduced10(period, t, p, m) <= Exact(period, t, p) <= Reduced10(period, t, p, m) + t
  {
    Pow10Adds(m, p - m);
    DividedTwice(Pow10(m), Pow10(p - m), t, period);
  }

  lemma DividedTwice(a: nat, b: nat, t: nat, period: nat)
    requires a > 0 && b > 0 && a * b > 0
    ensures period / a * t / b <= period * t / (a * b) <= period / a * t / b + t
  {
    var q, r := period / a, period % a;
    var x: nat := q * t;
    var y := x / b;
    assert y * b <= x < (y + 1) * b by { Below(x, b, y + 1); Below(x, b, y); }
    LowerBound(a, b, q, r, t, y, period);
    UpperBound(a, b, q, r, t, y, period);
    Below(period * t, a * b, y);
    Below(period * t, a * b, y + t + 1);
  }

  lemma LowerBound(a: nat, b: nat, q: nat, r: nat, t: nat, y: nat, period: nat)
    requires period == a * q + r && y * b <= q * t
    ensures y * (a * b) <= period * t
  {
    assert y * (a * b) == a * (y * b) <= a * (q * t);
    assert period * t == a * (q * t) + r * t;
  }

  lemma UpperBound(a: nat, b: nat, q: nat, r: nat, t: nat, y: nat, period: nat)
    requires period == a * q + r && r < a && b > 0 && q * t < (y + 1) * b
    ensures period * t < (y + t + 1) * (a * b)
  {
    var x, z, w := q * t, (y + 1) * b, a * t;
    TimesMonotone(a, x + 1, z);
    TimesMonotone(t, r, a);
    TimesMonotone(w, 1, b);
    Expand(a, b, q, r, t, y);
  }

  lemma TimesMonotone(a: nat, x: nat, y: nat)
    requires x <= y
    ensures a * x <= a * y
  {
  }

  lemma Expand(a: nat, b: nat, q: nat, r: nat, t: nat, y: nat)
    ensures (a * q + r) * t == a * (q * t) + t * r
    ensures (y + t + 1) * (a * b) == a * ((y + 1) * b) + (a * t) * b
    ensures a * (q * t + 1) == a * (q * t) + a
  {
  }

  /** Tick conversion is exact where the first product fits, and otherwise short by no more than the
      number of ticks. */
  lemma ScaleBounds(period: nat, t: nat, p: nat)
    requires t < TWO64 && period >= Pow10(p) && Exact(period, t, p) < TWO64
    ensures Scale(period, t, 0, p).Some?
    ensures var ns := Scale(period, t, 0, p).value;
            && ns <= Exact(period, t, p) <= ns + t
            && (period * t < TWO64 ==> ns == Exact(period, t, p))
  {
    var m := ScaleReduces(period, t, p);
    ReducedBounds(period, t, p, m);
    ByOne(period);
  }

  /** struct qtime_entry, as far as time conversion is concerned. */
  class Qtime {
    var timerPeriod: nat
    var timerScale: int

    constructor ()
    {
      timerPeriod, timerScale := 0, 0;
    }

    /** invert_timer_freq. */
    method InvertTimerFreq(freq0: nat) returns (o: Outcome)
      requires freq0 <= UINT_MAX
      modifies this
      ensures o.Crash? <==> freq0 == 0
      ensures o.Done? ==> exists k: nat ::
                && timerPeriod == Pow10(k) / Reduced(freq0) <= UINT_MAX
                && timerScale == -(k + FirstScale(freq0))
                && Stops(Reduced(freq0), k) && (forall j: nat :: j < k ==> !Stops(Reduced(freq0), j))
                && (timerPeriod >= 429496719 || Pow10(k) % Reduced(freq0) == 0)
    {
      if freq0 == 0 {
        return Crash;
      }
      var freq, scale: int := freq0, 0;
      if freq > UINT_MAX / 10 {
        scale := scale - 1;
        freq := freq / 10;
      }
      var period, k := LongDivision(freq);
      Precision(freq, k);
      timerPeriod := period;
      timerScale := scale - k;
      o := Done;
    }

    /** The product, and the test that it has not overflowed. */
    static method Multiply(period: nat, ticks: nat) returns (ns: nat)
      requires period > 0
      ensures ns == Product(period, ticks) < TWO64
    {
      ns := period * ticks % TWO64;
      if ns / period != ticks {
        ns := 0;
      }
    }

    /** timer_tick2ns. */
    method Tick2Ns(ticks: nat) returns (ns: nat, o: Outcome)
      requires ticks < TWO64 && timerPeriod <= UINT_MAX
      ensures var power := -9 - timerScale;
              var r := Scale(timerPeriod, ticks, 0, if power > 0 then power else 0);
              && (o.Crash? <==> r.None?)
              && (o.Done? ==> ns == if power >= 0 then r.value else r.value * Pow10(-power) % TWO64)
    {
      hide Pow10, Product;
      var power: int := -9 - timerScale;
      var period := timerPeriod;
      ghost var r := Scale(timerPeriod, ticks, 0, if power > 0 then power else 0);
      ns := 0;
      while true
        invariant ns < TWO64
        invariant power < 0 ==> power == -9 - timerScale
        invariant power >= 0 <==> -9 - timerScale >= 0
        invariant r == Scale(period, ticks, ns, if power > 0 then power else 0)
        decreases power
      {
        if ns == 0 {
          if period == 0 {
            return 0, Crash;
          }
          ns := Multiply(period, ticks);
        }
        if power <= 0 {
          break;
        }
        ns, period, power := ns / 10, period / 10, power - 1;
      }
      ghost var n, first: nat := if power < 0 then -power else 0, ns;
      o := Done;
      Wraps(first);
      while power < 0
        invariant power <= 0 && -power <= n
        invariant ns == first * Pow10(n + power) % TWO64
      {
        TimesTen(first, n + power);
        ns, power := ns * 10 % TWO64, power + 1;
      }
    }
  }

  lemma Wraps(x: nat)
    ensures x < TWO64 ==> x == x * Pow10(0) % TWO64
  {
  }

  /** Ten times, modulo 2^64. */
  lemma TimesTen(x: nat, k: nat)
    ensures x * Pow10(k) % TWO64 * 10 % TWO64 == x * Pow10(k + 1) % TWO64
  {
    var y := x * Pow10(k);
    assert x * Pow10(k + 1) == 10 * y;
    var q, r := y / TWO64, y % TWO64;
    DivModUnique(10 * y, TWO64, 10 * q + 10 * r / TWO64, 10 * r % TWO64);
  }
}
