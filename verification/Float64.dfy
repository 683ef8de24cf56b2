// Duration.Seconds of the Go library: whole seconds and a fraction, added as
// float64 (IEEE 754 binary64, round to nearest, ties to even).
module Float64 {
  import opened Powers

  const TWO_52 := 0x10_0000_0000_0000
  const TWO_53 := 0x20_0000_0000_0000
  const TWO_54 := 0x40_0000_0000_0000

  const SECOND := 1_000_000_000

  // A time.Duration is an int64 of nanoseconds.
  const MAX_DURATION := 0x7FFF_FFFF_FFFF_FFFF

  // ---- Rounding ----

  // The integer nearest to n / d, the even one of two.
  function Nearest(n: nat, d: nat): nat
    requires d > 0
  {
    if 2 * (n % d) < d || (2 * (n % d) == d && n / d % 2 == 0) then n / d else n / d + 1
  }

  // mantissa / 2^scale
  datatype Float = Float(mantissa: nat, scale: nat)

  // The scale that brings n / d to 53 bits.
  function Scale(n: nat, d: nat): nat
    requires 0 < n < d * TWO_53
    decreases d * TWO_53 - n
  {
    if n >= d * TWO_52 then 0 else 1 + Scale(2 * n, d)
  }

  // n / d as a float64, below the range where the scale turns negative.
  function Rounded(n: nat, d: nat): Float
    requires d > 0 && n < d * TWO_53
  {
    if n == 0 then Float(0, 0) else Float(Nearest(n * Pow2(Scale(n, d)), d), Scale(n, d))
  }

  lemma Divided(n: int, d: int)
    requires d > 0
    ensures n == n / d * d + n % d
  {
  }

  lemma Times(a: int, b: int, x: int)
    requires a <= b && x >= 0
    ensures a * x <= b * x
  {
    assert b * x - a * x == (b - a) * x;
  }

  lemma HalfBelow(m: int, d: int)
    ensures (2 * m - 1) * d == 2 * (m * d) - d
  {
  }

  // Half-way counts when the target is even.
  lemma NearestAtLeastIff(n: nat, d: nat, m: nat)
    requires d > 0 && m >= 1
    ensures Nearest(n, d) >= m <==> 2 * n > (2 * m - 1) * d || (2 * n == (2 * m - 1) * d && m % 2 == 0)
  {
    Divided(n, d);
    HalfBelow(m, d);
    ProductsApart(n / d, m, d);
  }

  lemma ProductsApart(f: int, m: int, d: int)
    requires d > 0
    ensures f >= m ==> f * d >= m * d
    ensures f == m - 1 ==> f * d == m * d - d
    ensures f <= m - 2 ==> f * d <= m * d - 2 * d
  {
    assert f * d - m * d == (f - m) * d;
    if f >= m {
      Times(0, f - m, d);
    } else if f <= m - 2 {
      Times(f - m, -2, d);
    }
  }

  lemma NearestAtMost(n: nat, d: nat, m: nat)
    requires d > 0 && n <= m * d
    ensures Nearest(n, d) <= m
  {
    NearestAtLeastIff(n, d, m + 1);
    assert (2 * (m + 1) - 1) * d == 2 * (m * d) + d;
  }

  lemma NearestShifted(a: nat, n: nat, d: nat)
    requires d > 0 && a % 2 == 0
    ensures Nearest(a * d + n, d) == a + Nearest(n, d)
  {
    Divided(n, d);
    DividedUniquely(a * d + n, d, a + n / d, n % d);
  }

  lemma DividedUniquely(n: int, d: int, q: int, r: int)
    requires d > 0 && 0 <= r < d && n == q * d + r
    ensures n / d == q && n % d == r
  {
    var q', r' := n / d, n % d;
    Divided(n, d);
    assert d * (q - q') == r' - r;
    assert q - q' >= 1 ==> d * (q - q') >= d;
    assert q - q' <= -1 ==> d * (q - q') <= -d;
  }

  lemma {:induction false} ScaleRange(n: nat, d: nat)
    requires 0 < n < d * TWO_53
    ensures d * TWO_52 <= n * Pow2(Scale(n, d)) < d * TWO_53
    decreases d * TWO_53 - n
  {
    if n < d * TWO_52 {
      ScaleRange(2 * n, d);
      assert n * (2 * Pow2(Scale(2 * n, d))) == 2 * n * Pow2(Scale(2 * n, d));
    }
  }

  lemma {:induction false} ScaleIs(n: nat, d: nat, s: nat)
    requires 0 < n && d * TWO_52 <= n * Pow2(s) < d * TWO_53
    ensures n < d * TWO_53 && Scale(n, d) == s
    decreases s
  {
    if s > 0 {
      assert n * Pow2(s) == 2 * n * Pow2(s - 1);
      Times(1, Pow2(s - 1), 2 * n);
      ScaleIs(2 * n, d, s - 1);
    }
  }

  // ---- Seconds ----

  lemma FractionAtMostOne(n: nat, d: nat)
    requires n < d
    ensures n < d * TWO_53 && Rounded(n, d).mantissa <= Pow2(Rounded(n, d).scale)
  {
    if n > 0 {
      var p := Pow2(Scale(n, d));
      Times(n, d, p);
      NearestAtMost(n * p, d, p);
    }
  }

  // A sum of whole seconds and a fraction of one; int64 seconds are a float64 themselves.
  function Plus(sec: nat, fraction: Float): Float
    requires sec <= MAX_DURATION / SECOND && fraction.mantissa <= Pow2(fraction.scale)
  {
    var one := Pow2(fraction.scale);
    SumInRange(sec, fraction.mantissa, one);
    Rounded(sec * one + fraction.mantissa, one)
  }

  // The conversion to int
  function Whole(x: Float): int {
    x.mantissa / Pow2(x.scale)
  }

  // int(window.Seconds())
  function Seconds(window: nat): int
    requires window <= MAX_DURATION
  {
    FractionAtMostOne(window % SECOND, SECOND);
    Whole(Plus(window / SECOND, Rounded(window % SECOND, SECOND)))
  }

  lemma SumInRange(sec: nat, m: nat, one: nat)
    requires one >= 1 && m <= one && sec <= MAX_DURATION / SECOND
    ensures sec * one + m < one * TWO_53
  {
    Times(sec + 1, TWO_53 - 1, one);
    assert (sec + 1) * one == sec * one + one;
    assert (TWO_53 - 1) * one == TWO_53 * one - one;
  }

  // The float64 is a whole second more than the whole seconds of the window:
  // the nanoseconds missing are few enough for the seconds' magnitude.
  predicate RoundsUp(window: nat)
    requires window >= SECOND
  {
    window % SECOND != 0
    && (SECOND - window % SECOND) * TWO_54 < SECOND * (2 * Pow2(Log2(window / SECOND)) + 1)
  }

  // ---- Adding the fraction to the seconds ----

  lemma RoundedIs(n: nat, d: nat, s: nat)
    requires 0 < n && d > 0 && d * TWO_52 <= n * Pow2(s) < d * TWO_53
    ensures n < d * TWO_53 && Rounded(n, d) == Float(Nearest(n * Pow2(s), d), s)
  {
    ScaleIs(n, d, s);
  }

  lemma SumScale(sec: nat, m: nat, one: nat, n: nat, e: nat, w: nat)
    requires n == sec * one + m && m < one && e <= sec < 2 * e && e * w == TWO_52
    ensures 0 < n && one * TWO_52 <= n * w < one * TWO_53
  {
    Times(e, sec, one);
    Times(sec + 1, 2 * e, one);
    assert (sec + 1) * one == sec * one + one;
    Times(1, e, one);
    Times(e * one, n, w);
    Times(n + 1, 2 * e * one, w);
    assert e * one * w == one * (e * w);
    assert 2 * e * one * w == 2 * (one * (e * w));
    assert (n + 1) * w == n * w + w;
    assert w >= 1;
  }

  lemma SumNearest(sec: nat, m: nat, one: nat, n: nat, w: nat)
    requires n == sec * one + m && one >= 1 && w % 2 == 0
    ensures Nearest(n * w, one) == sec * w + Nearest(m * w, one)
  {
    assert n * w == sec * w * one + m * w;
    assert sec * w == 2 * (sec * (w / 2));
    NearestShifted(sec * w, m * w, one);
  }

  // Below the top of the seconds' binade their sum keeps `t` more bits, one of
  // them at least, and what it adds to the seconds is the fraction rounded to those.
  lemma SumIs(sec: nat, m: nat, one: nat, n: nat, e: nat, t: nat, w: nat)
    requires n == sec * one + m && m < one && e <= sec < 2 * e && e * w == TWO_52
    requires w == Pow2(t) && w % 2 == 0
    ensures n < one * TWO_53
    ensures Rounded(n, one) == Float(sec * w + Nearest(m * w, one), t)
  {
    SumScale(sec, m, one, n, e, w);
    RoundedIs(n, one, t);
    SumNearest(sec, m, one, n, w);
  }

  lemma CutSum(sec: nat, x: nat, w: nat)
    requires w >= 1 && x <= w
    ensures (sec * w + x) / w == sec + (if x == w then 1 else 0)
  {
    if x == w {
      DividedUniquely(sec * w + x, w, sec + 1, 0);
    } else {
      DividedUniquely(sec * w + x, w, sec, x);
    }
  }

  // A fraction m / one of t bits and more rounds to 1 exactly from half a unit below it.
  lemma FractionRoundsUpIff(m: nat, one: nat, w: nat, unit: nat)
    requires m < one && w >= 1 && w % 2 == 0 && one == unit * w
    ensures Nearest(m * w, one) <= w
    ensures Nearest(m * w, one) == w <==> 2 * m >= 2 * one - unit
  {
    Times(m, one, w);
    NearestAtMost(m * w, one, w);
    NearestAtLeastIff(m * w, one, w);
    assert (2 * w - 1) * one == (2 * one - unit) * w;
    assert 2 * (m * w) == 2 * m * w;
    assert (2 * m - (2 * one - unit)) * w == 2 * m * w - (2 * one - unit) * w;
    if 2 * m >= 2 * one - unit {
      Times(0, 2 * m - (2 * one - unit), w);
    } else {
      Times(2 * m - (2 * one - unit), -1, w);
    }
  }

  // ---- The fraction itself ----

  // From half a second up the fraction has 53 bits after the point.
  lemma LargeFraction(nsec: nat)
    requires SECOND <= 2 * nsec && nsec < SECOND
    ensures Rounded(nsec, SECOND) == Float(Nearest(nsec * TWO_53, SECOND), 53)
  {
    assert Pow2(53) == TWO_53 by { BigPowers(); }
    ScaleIs(nsec, SECOND, 53);
  }

  lemma BigPowers()
    ensures Pow2(52) == TWO_52 && Pow2(53) == TWO_53
  {
    assert Pow2(8) == 256;
    assert Pow2(13) == 8192;
    Pow2Sum(13, 13);
    Pow2Sum(26, 26);
  }

  // Below half a second it is at most a half, with more bits.
  lemma SmallFraction(nsec: nat)
    requires 0 < 2 * nsec < SECOND
    ensures var q := Rounded(nsec, SECOND); q.scale >= 54 && 2 * q.mantissa <= Pow2(q.scale)
  {
    var s := Scale(nsec, SECOND);
    ScaleRange(nsec, SECOND);
    BigPowers();
    if s <= 53 {
      Pow2Monotone(s, 53);
      Times(Pow2(s), TWO_53, nsec);
      assert false;
    }
    NearestAtMost(nsec * Pow2(s), SECOND, TWO_53);
    Pow2Monotone(54, s);
    assert Pow2(54) == 2 * Pow2(53);
  }

  // Never half-way: one side has more factors of two.
  lemma NeverHalfWay(nsec: nat, m: nat)
    requires m >= 1
    ensures nsec * TWO_54 != (2 * m - 1) * SECOND
  {
    var x, odd := nsec * 0x1000_0000_0000, (2 * m - 1) * 1_953_125;
    assert nsec * TWO_54 == 1024 * x;
    assert (2 * m - 1) * SECOND == 512 * odd;
    assert odd == 2 * (m * 1_953_125) - 1_953_125;
  }

  lemma LargeMantissaIff(nsec: nat, unit: nat)
    requires SECOND <= 2 * nsec && nsec < SECOND && 1 <= unit < TWO_52
    ensures var m := Nearest(nsec * TWO_53, SECOND);
            m < TWO_53 && (m >= TWO_53 - unit <==> (SECOND - nsec) * TWO_54 < SECOND * (2 * unit + 1))
  {
    NearestAtLeastIff(nsec * TWO_53, SECOND, TWO_53);
    NearestAtLeastIff(nsec * TWO_53, SECOND, TWO_53 - unit);
    NeverHalfWay(nsec, TWO_53 - unit);
    NeverHalfWay(nsec, TWO_53);
  }

  lemma SecondsBelow34Bits(sec: nat)
    requires 1 <= sec < 0x4_0000_0000
    ensures Log2(sec) <= 33 && Pow2(Log2(sec)) <= 0x2_0000_0000
  {
    ThirtyThree();
    Log2Below(sec, 34);
    Pow2Monotone(Log2(sec), 33);
  }

  lemma ThirtyThree()
    ensures Pow2(33) == 0x2_0000_0000 && Pow2(34) == 0x4_0000_0000
  {
    assert Pow2(8) == 256;
    assert Pow2(11) == 2048;
    Pow2Sum(11, 11);
    Pow2Sum(11, 22);
  }

  lemma Log2Below(n: nat, b: nat)
    requires 1 <= n < Pow2(b)
    ensures Log2(n) < b
  {
    if Log2(n) >= b {
      Pow2Monotone(b, Log2(n));
      assert false;
    }
  }

  // Where the binade of the seconds ends, and how many bits are left for the fraction.
  predicate Binade(sec: nat, e: nat, t: nat) {
    e <= sec < 2 * e && t >= 1 && e * Pow2(t) == TWO_52
  }

  lemma WholeOf(sec: nat, x: nat, t: nat, w: nat)
    requires w == Pow2(t) && x <= w
    ensures Whole(Float(sec * w + x, t)) == sec + (if x == w then 1 else 0)
  {
    CutSum(sec, x, w);
  }

  lemma PlusIsRounded(sec: nat, q: Float, one: nat, n: nat)
    requires sec <= MAX_DURATION / SECOND && one == Pow2(q.scale) && q.mantissa <= one && n == sec * one + q.mantissa
    ensures n < one * TWO_53 && Plus(sec, q) == Rounded(n, one)
  {
    SumInRange(sec, q.mantissa, one);
  }

  lemma EvenPower(t: nat)
    requires t >= 1
    ensures Pow2(t) % 2 == 0 && Pow2(t) >= 2
  {
    assert Pow2(t) == 2 * Pow2(t - 1);
  }

  // The fraction rounded to the bits left for it.
  lemma PlusRounds(sec: nat, q: Float, e: nat, t: nat, w: nat, one: nat)
    requires sec <= MAX_DURATION / SECOND && Binade(sec, e, t) && w == Pow2(t)
    requires one == Pow2(q.scale) && q.mantissa < one
    ensures w % 2 == 0
    ensures Plus(sec, q) == Float(sec * w + Nearest(q.mantissa * w, one), t)
  {
    var n := sec * one + q.mantissa;
    EvenPower(t);
    PlusIsRounded(sec, q, one, n);
    SumIs(sec, q.mantissa, one, n, e, t, w);
  }

  lemma WholeSeconds(sec: nat, e: nat, t: nat)
    requires sec <= MAX_DURATION / SECOND && Binade(sec, e, t)
    ensures Whole(Plus(sec, Float(0, 0))) == sec
  {
    var w := Pow2(t);
    PlusRounds(sec, Float(0, 0), e, t, w, 1);
    NearestAtMost(0, 1, 0);
    assert 0 * w == 0;
    WholeOf(sec, 0, t, w);
  }

  lemma PlusIs(sec: nat, q: Float, e: nat, t: nat, one: nat, unit: nat, w: nat)
    requires sec <= MAX_DURATION / SECOND && Binade(sec, e, t) && w == Pow2(t)
    requires one == Pow2(q.scale) && q.mantissa < one && one == unit * w
    ensures Whole(Plus(sec, q)) == sec + (if 2 * q.mantissa >= 2 * one - unit then 1 else 0)
  {
    PlusRounds(sec, q, e, t, w, one);
    FractionRoundsUpIff(q.mantissa, one, w, unit);
    WholeOf(sec, Nearest(q.mantissa * w, one), t, w);
  }

  lemma SmallFractionFalls(nsec: nat, m: nat, one: nat, unit: nat, w: nat)
    requires 0 < 2 * nsec < SECOND && 2 * m <= one && one == unit * w && w >= 2 && unit >= 1
    ensures m < one && 2 * m < 2 * one - unit
  {
    Times(2, w, unit);
  }

  lemma SmallNeverRounds(sec: nat, nsec: nat, e: nat, t: nat)
    requires sec <= MAX_DURATION / SECOND && Binade(sec, e, t) && t <= 52
    requires 0 < 2 * nsec < SECOND
    ensures var q := Rounded(nsec, SECOND); q.mantissa <= Pow2(q.scale) && Whole(Plus(sec, q)) == sec
  {
    SmallFraction(nsec);
    var q := Rounded(nsec, SECOND);
    var one, unit := Pow2(q.scale), Pow2(q.scale - t);
    Pow2Sum(q.scale - t, t);
    Pow2Monotone(1, t);
    SmallFractionFalls(nsec, q.mantissa, one, unit, Pow2(t));
    PlusIs(sec, q, e, t, one, unit, Pow2(t));
  }

  lemma SmallIsShort(nsec: nat, e: nat)
    requires 2 * nsec < SECOND && e <= 0x2_0000_0000
    ensures (SECOND - nsec) * TWO_54 >= SECOND * (2 * e + 1)
  {
  }

  lemma LargeRoundsIff(sec: nat, nsec: nat, e: nat, t: nat)
    requires sec <= MAX_DURATION / SECOND && Binade(sec, e, t) && 1 <= e < TWO_52
    requires SECOND <= 2 * nsec && nsec < SECOND
    ensures var q := Rounded(nsec, SECOND);
            var carry := (SECOND - nsec) * TWO_54 < SECOND * (2 * e + 1);
            q.mantissa <= Pow2(q.scale) && Whole(Plus(sec, q)) == sec + (if carry then 1 else 0)
  {
    LargeFraction(nsec);
    BigPowers();
    LargeMantissaIff(nsec, e);
    PlusIs(sec, Rounded(nsec, SECOND), e, t, TWO_53, 2 * e, Pow2(t));
  }

  // ---- Main results ----

  lemma BinadeOf(sec: nat)
    requires 1 <= sec < 0x4_0000_0000
    ensures var e := Pow2(Log2(sec)); e <= 0x2_0000_0000 && Log2(sec) <= 33 && Binade(sec, e, 52 - Log2(sec))
  {
    SecondsBelow34Bits(sec);
    BigPowers();
    Pow2Sum(Log2(sec), 52 - Log2(sec));
  }

  // Whole seconds, one more exactly when rounding carries.
  lemma SecondsIs(window: nat)
    requires SECOND <= window <= MAX_DURATION
    ensures Seconds(window) == window / SECOND + (if RoundsUp(window) then 1 else 0)
  {
    var sec, nsec := window / SECOND, window % SECOND;
    BinadeOf(sec);
    var e, t := Pow2(Log2(sec)), 52 - Log2(sec);
    if nsec == 0 {
      WholeSeconds(sec, e, t);
    } else if 2 * nsec < SECOND {
      SmallNeverRounds(sec, nsec, e, t);
      SmallIsShort(nsec, e);
    } else {
      LargeRoundsIff(sec, nsec, e, t);
    }
  }

  // Under one second the float64 is at most one.
  lemma SecondsUnderOne(window: nat)
    requires window < SECOND
    ensures Seconds(window) <= 1
  {
    FractionAtMostOne(window, SECOND);
    var q := Rounded(window, SECOND);
    UnitAtMostOne(q.mantissa, Pow2(q.scale));
    assert window / SECOND == 0 && 0 * Pow2(q.scale) + q.mantissa == q.mantissa;
  }

  lemma UnitAtMostOne(n: nat, d: nat)
    requires n <= d && d >= 1
    ensures n < d * TWO_53
    ensures Whole(Rounded(n, d)) <= 1
  {
    if n > 0 {
      var p := Pow2(Scale(n, d));
      Times(n, d, p);
      NearestAtMost(n * p, d, p);
      if Nearest(n * p, d) == p {
        DividedUniquely(p, p, 1, 0);
      } else {
        DividedUniquely(Nearest(n * p, d), p, 0, Nearest(n * p, d));
      }
    }
  }

  // Below 2^24 seconds nothing rounds up: one nanosecond missing is already too many.
  lemma SmallWindowsNeverRoundUp(window: nat)
    requires SECOND <= window < 0x100_0000 * SECOND
    ensures !RoundsUp(window)
  {
    var e := Log2(window / SECOND);
    assert Pow2(8) == 256;
    Pow2Sum(8, 8);
    Pow2Sum(16, 8);
    Log2Below(window / SECOND, 24);
    Pow2Monotone(e, 23);
    assert Pow2(24) == 2 * Pow2(23);
  }

  // From there on some do: this one is a second short of 2^24 + 1 by one nanosecond.
  lemma SomeWindowRoundsUp()
    ensures RoundsUp(0x100_0000 * SECOND + 999_999_999)
  {
    var window := 0x100_0000 * SECOND + 999_999_999;
    assert window / SECOND == 0x100_0000 && window % SECOND == 999_999_999;
    assert Pow2(8) == 256;
    Pow2Sum(8, 8);
    Pow2Sum(16, 8);
    Log2OfPower(24);
  }
}
