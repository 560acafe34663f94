/** The portfolio projection of the Investment Goal Tracker, stated as pure
    functions over exact arithmetic, and the properties the projection has.

    Amounts of money that the user types in (monthly contributions, lump sums)
    are whole numbers, as the app's number inputs produce; the portfolio value
    is a `real`, because compounding at the monthly rate makes it fractional.
 */
module Projection {

  /** Months in a simulated year: the inner loop of the simulation runs this often. */
  const MonthsPerYear: nat := 12

  // ---------------------------------------------------------------------------
  // One month, one year, many years
  // ---------------------------------------------------------------------------

  /** One month: the value grows at the monthly rate, then the month's
      contribution is added at month end. */
  function MonthStep(value: real, rate: real, contribution: real): real
  {
    value * (1.0 + rate) + contribution
  }

  /** The value after `months` successive applications of MonthStep. */
  function Compound(value: real, rate: real, contribution: real, months: nat): real
  {
    if months == 0 then value
    else MonthStep(Compound(value, rate, contribution, months - 1), rate, contribution)
  }

  /** A year: twelve compounded months of the monthly contribution, then the
      lump sum added once, after the last month. */
  function YearEnd(value: real, rate: real, monthly: int, lump: int): real
  {
    Compound(value, rate, monthly as real, MonthsPerYear) + lump as real
  }

  /** The portfolio value at the end of year `k` (years counted from 1);
      the portfolio starts at 0 before the first year. */
  function ValueAfter(rate: real, monthlies: seq<int>, lumps: seq<int>, k: nat): real
    requires k <= |monthlies| && k <= |lumps|
  {
    if k == 0 then 0.0
    else YearEnd(ValueAfter(rate, monthlies, lumps, k - 1), rate, monthlies[k - 1], lumps[k - 1])
  }

  /** What the user puts in during one year: twelve monthly contributions and
      the lump sum. */
  function AnnualContribution(monthly: int, lump: int): int
  {
    monthly * MonthsPerYear + lump
  }

  /** The sum of a sequence of whole amounts. */
  function Sum(s: seq<int>): int
  {
    if s == [] then 0 else Sum(s[..|s| - 1]) + s[|s| - 1]
  }

  /** Every monthly contribution and every lump sum of the first `k` years is
      non-negative. */
  predicate NonNegativeSchedule(monthlies: seq<int>, lumps: seq<int>, k: nat)
    requires k <= |monthlies| && k <= |lumps|
  {
    forall y :: 0 <= y < k ==> monthlies[y] >= 0 && lumps[y] >= 0
  }

  // ---------------------------------------------------------------------------
  // Powers and the monthly rate
  // ---------------------------------------------------------------------------

  /** x raised to a natural power. */
  function Pow(x: real, n: nat): real
  {
    if n == 0 then 1.0 else Pow(x, n - 1) * x
  }

  /** 1 + x + x^2 + ... + x^(n-1). */
  function GeometricSum(x: real, n: nat): real
  {
    if n == 0 then 0.0 else GeometricSum(x, n - 1) + Pow(x, n - 1)
  }

  /** `rate` is the monthly rate equivalent to the annual return `annual`:
      compounding it for twelve months gives the annual growth factor, and the
      growth factor is the positive twelfth root. */
  predicate IsMonthlyRate(annual: real, rate: real)
  {
    1.0 + rate > 0.0 && Pow(1.0 + rate, MonthsPerYear) == 1.0 + annual
  }

  lemma {:induction false} PowAdd(x: real, a: nat, b: nat)
    ensures Pow(x, a + b) == Pow(x, a) * Pow(x, b)
  {
    if b > 0 {
      PowAdd(x, a, b - 1);
      MulAssociative(Pow(x, a), Pow(x, b - 1), x);
      assert Pow(x, a + b) == Pow(x, a + b - 1) * x;
    }
  }

  lemma MulNonNegative(a: real, b: real)
    requires a >= 0.0 && b >= 0.0
    ensures a * b >= 0.0
  {
  }

  lemma {:induction false} PowOne(n: nat)
    ensures Pow(1.0, n) == 1.0
  {
    if n > 0 {
      PowOne(n - 1);
    }
  }

  lemma {:induction false} PowBelowOne(x: real, n: nat)
    requires 0.0 <= x < 1.0 && n >= 1
    ensures 0.0 <= Pow(x, n) < 1.0
  {
    if n > 1 {
      PowBelowOne(x, n - 1);
      var p := Pow(x, n - 1);
      MulNonNegative(p, x);
      MulNonNegative(p, 1.0 - x);
      assert p * x == p - p * (1.0 - x);
    } else {
      assert Pow(x, 1) == Pow(x, 0) * x;
    }
  }

  /** Bernoulli's inequality for a non-negative rate. */
  lemma {:induction false} PowBernoulli(r: real, n: nat)
    requires r >= 0.0
    ensures Pow(1.0 + r, n) >= 1.0 + n as real * r
  {
    if n > 0 {
      PowBernoulli(r, n - 1);
      var p := Pow(1.0 + r, n - 1);
      var q := 1.0 + (n - 1) as real * r;
      MulNonNegative(p - q, r);
      MulNonNegative(q - 1.0, r);
      assert p * (1.0 + r) == p + p * r;
      assert p * r == q * r + (p - q) * r;
      assert q * r == r + (q - 1.0) * r;
    }
  }

  /** For a non-negative annual return (the slider allows 0% to 15%), the
      twelfth root of its growth factor is a monthly rate between 0 and a
      twelfth of the annual return, and it is 0 exactly when the annual return
      is 0. */
  lemma MonthlyRateBounds(annual: real, rate: real)
    requires 0.0 <= annual
    requires IsMonthlyRate(annual, rate)
    ensures 0.0 <= rate <= annual / 12.0
    ensures rate == 0.0 <==> annual == 0.0
  {
    if rate < 0.0 {
      PowBelowOne(1.0 + rate, MonthsPerYear);
      assert false;
    }
    PowBernoulli(rate, MonthsPerYear);
    PowOne(MonthsPerYear);
  }

  // ---------------------------------------------------------------------------
  // The year-by-year recurrence
  // ---------------------------------------------------------------------------

  /** Closed form of the monthly compounding: the starting value grows by the
      twelve-month factor and each contribution grows from the month it is paid. */
  lemma {:induction false} CompoundClosedForm(value: real, rate: real, contribution: real, months: nat)
    ensures Compound(value, rate, contribution, months)
         == value * Pow(1.0 + rate, months) + contribution * GeometricSum(1.0 + rate, months)
  {
    if months > 0 {
      var g := 1.0 + rate;
      CompoundClosedForm(value, rate, contribution, months - 1);
      GeometricSumStep(g, months - 1);
    }
  }

  lemma MulAssociative(a: real, b: real, c: real)
    ensures (a * b) * c == a * (b * c)
  {
  }

  lemma {:induction false} GeometricSumStep(x: real, n: nat)
    ensures GeometricSum(x, n) * x + 1.0 == GeometricSum(x, n + 1)
  {
    if n > 0 {
      GeometricSumStep(x, n - 1);
      calc {
        GeometricSum(x, n) * x + 1.0;
        (GeometricSum(x, n - 1) + Pow(x, n - 1)) * x + 1.0;
        (GeometricSum(x, n - 1) * x + 1.0) + Pow(x, n - 1) * x;
        GeometricSum(x, n) + Pow(x, n);
      }
    }
  }

  /** Raising the starting value by `delta` raises the value after `months`
      months by `delta` compounded over those months. */
  lemma {:induction false} CompoundShift(value: real, delta: real, rate: real, contribution: real, months: nat)
    ensures Compound(value + delta, rate, contribution, months)
         == Compound(value, rate, contribution, months) + delta * Pow(1.0 + rate, months)
  {
    if months > 0 {
      CompoundShift(value, delta, rate, contribution, months - 1);
      var c := Compound(value, rate, contribution, months - 1);
      var p := Pow(1.0 + rate, months - 1);
      assert (c + delta * p) * (1.0 + rate) == c * (1.0 + rate) + delta * (p * (1.0 + rate));
    }
  }

  // ---------------------------------------------------------------------------
  // Zero return
  // ---------------------------------------------------------------------------

  lemma {:induction false} CompoundZeroRate(value: real, contribution: real, months: nat)
    ensures Compound(value, 0.0, contribution, months) == value + months as real * contribution
  {
    if months > 0 {
      CompoundZeroRate(value, contribution, months - 1);
    }
  }

  /** With a 0% return the portfolio holds exactly what was paid in: after
      year k it equals the sum of the first k yearly contributions. */
  lemma {:induction false} ZeroRateValueIsContributions(monthlies: seq<int>, lumps: seq<int>, contributions: seq<int>, k: nat)
    requires k <= |monthlies| && k <= |lumps| && k <= |contributions|
    requires forall y :: 0 <= y < k ==> contributions[y] == AnnualContribution(monthlies[y], lumps[y])
    ensures ValueAfter(0.0, monthlies, lumps, k) == Sum(contributions[..k]) as real
  {
    if k > 0 {
      ZeroRateValueIsContributions(monthlies, lumps, contributions, k - 1);
      CompoundZeroRate(ValueAfter(0.0, monthlies, lumps, k - 1), monthlies[k - 1] as real, MonthsPerYear);
      assert contributions[..k][..k - 1] == contributions[..k - 1];
    }
  }

  /** One year at a 0% return with 1000 a month and no lump sum ends at 12000. */
  lemma OneYearZeroRateExample()
    ensures ValueAfter(0.0, [1000], [0], 1) == 12000.0
    ensures AnnualContribution(1000, 0) == 12000
  {
    ZeroRateValueIsContributions([1000], [0], [12000], 1);
    assert [12000][..1] == [12000];
    assert Sum([12000]) == Sum([]) + 12000;
  }

  // ---------------------------------------------------------------------------
  // Non-negative inputs: a non-negative, non-decreasing portfolio
  // ---------------------------------------------------------------------------

  lemma {:induction false} CompoundAtLeastStart(value: real, rate: real, contribution: real, months: nat)
    requires value >= 0.0 && rate >= 0.0 && contribution >= 0.0
    ensures Compound(value, rate, contribution, months) >= value
  {
    if months > 0 {
      CompoundAtLeastStart(value, rate, contribution, months - 1);
      var c := Compound(value, rate, contribution, months - 1);
      assert c * rate >= 0.0;
      assert c * (1.0 + rate) == c + c * rate;
    }
  }

  /** With a non-negative rate and non-negative contributions, each year ends
      at no less than it started from. */
  lemma YearEndAtLeastStart(value: real, rate: real, monthly: int, lump: int)
    requires value >= 0.0 && rate >= 0.0 && monthly >= 0 && lump >= 0
    ensures YearEnd(value, rate, monthly, lump) >= value
  {
    CompoundAtLeastStart(value, rate, monthly as real, MonthsPerYear);
  }

  lemma {:induction false} ValueNonNegative(rate: real, monthlies: seq<int>, lumps: seq<int>, k: nat)
    requires k <= |monthlies| && k <= |lumps|
    requires rate >= 0.0 && NonNegativeSchedule(monthlies, lumps, k)
    ensures ValueAfter(rate, monthlies, lumps, k) >= 0.0
  {
    if k > 0 {
      ValueNonNegative(rate, monthlies, lumps, k - 1);
      YearEndAtLeastStart(ValueAfter(rate, monthlies, lumps, k - 1), rate, monthlies[k - 1], lumps[k - 1]);
    }
  }

  /** With a non-negative rate and a non-negative schedule, the year-end
      values never decrease: an earlier year never ends above a later one. */
  lemma {:induction false} ValueNonDecreasing(rate: real, monthlies: seq<int>, lumps: seq<int>, i: nat, j: nat)
    requires i <= j <= |monthlies| && j <= |lumps|
    requires rate >= 0.0 && NonNegativeSchedule(monthlies, lumps, j)
    ensures 0.0 <= ValueAfter(rate, monthlies, lumps, i) <= ValueAfter(rate, monthlies, lumps, j)
  {
    if i < j {
      ValueNonDecreasing(rate, monthlies, lumps, i, j - 1);
      ValueNonNegative(rate, monthlies, lumps, j - 1);
      YearEndAtLeastStart(ValueAfter(rate, monthlies, lumps, j - 1), rate, monthlies[j - 1], lumps[j - 1]);
    } else {
      ValueNonNegative(rate, monthlies, lumps, i);
    }
  }

  // ---------------------------------------------------------------------------
  // Lump sums: added at year end, compounding only from the next year on
  // ---------------------------------------------------------------------------

  /** Changing a later year's lump sum does not change the value at the end
      of an earlier year. */
  lemma {:induction false} ValueIgnoresLaterLumps(rate: real, monthlies: seq<int>, lumps: seq<int>, y: nat, lump: int, k: nat)
    requires k <= y < |lumps| && k <= |monthlies|
    ensures ValueAfter(rate, monthlies, lumps[y := lump], k) == ValueAfter(rate, monthlies, lumps, k)
  {
    if k > 0 {
      ValueIgnoresLaterLumps(rate, monthlies, lumps, y, lump, k - 1);
    }
  }

  /** The growth factor of one year: twelve months at the monthly rate. */
  function YearGrowth(rate: real): real
  {
    Pow(1.0 + rate, MonthsPerYear)
  }

  /** j years of the yearly growth factor are 12·j months of the monthly one. */
  lemma {:induction false} YearGrowthPow(rate: real, j: nat)
    ensures Pow(YearGrowth(rate), j) == Pow(1.0 + rate, MonthsPerYear * j)
  {
    if j > 0 {
      YearGrowthPow(rate, j - 1);
      PowAdd(1.0 + rate, MonthsPerYear * (j - 1), MonthsPerYear);
      assert MonthsPerYear * (j - 1) + MonthsPerYear == MonthsPerYear * j;
    }
  }

  /** Raising a year's opening value by `delta` raises its closing value by
      `delta` grown for the whole year. */
  lemma YearEndShift(value: real, delta: real, rate: real, monthly: int, lump: int)
    ensures YearEnd(value + delta, rate, monthly, lump)
         == YearEnd(value, rate, monthly, lump) + delta * YearGrowth(rate)
  {
    CompoundShift(value, delta, rate, monthly as real, MonthsPerYear);
  }

  /** Adding `extra` to the lump sum of year y+1 adds exactly `extra` to the
      value at the end of that year (the lump sum does not compound within its
      own year), and `extra` grown by one year's factor per later year to
      every later year-end value. */
  lemma {:induction false} LumpSumGrowth(rate: real, monthlies: seq<int>, lumps: seq<int>, y: nat, extra: int, k: nat)
    requires y < k <= |monthlies| && k <= |lumps|
    ensures ValueAfter(rate, monthlies, lumps[y := lumps[y] + extra], k)
         == ValueAfter(rate, monthlies, lumps, k) + extra as real * Pow(YearGrowth(rate), k - 1 - y)
  {
    var lumps' := lumps[y := lumps[y] + extra];
    if k == y + 1 {
      ValueIgnoresLaterLumps(rate, monthlies, lumps, y, lumps[y] + extra, y);
    } else {
      LumpSumGrowth(rate, monthlies, lumps, y, extra, k - 1);
      assert lumps'[k - 1] == lumps[k - 1];
      LumpSumGrowthStep(rate, monthlies, lumps, lumps', extra as real, k - 2 - y, k);
    }
  }

  /** One later year of LumpSumGrowth: two schedules that agree on year k
      and whose values after year k-1 differ by `extra * G^j` (G the yearly
      growth factor) differ by `extra * G^(j+1)` after year k. */
  lemma LumpSumGrowthStep(rate: real, monthlies: seq<int>, lumps: seq<int>, lumps': seq<int>, extra: real, j: nat, k: nat)
    requires 1 <= k <= |monthlies| && k <= |lumps| && k <= |lumps'|
    requires lumps'[k - 1] == lumps[k - 1]
    requires ValueAfter(rate, monthlies, lumps', k - 1)
          == ValueAfter(rate, monthlies, lumps, k - 1) + extra * Pow(YearGrowth(rate), j)
    ensures ValueAfter(rate, monthlies, lumps', k)
         == ValueAfter(rate, monthlies, lumps, k) + extra * Pow(YearGrowth(rate), j + 1)
  {
    var g := YearGrowth(rate);
    var grown := extra * Pow(g, j);
    ValueAfterShift(rate, monthlies, lumps, lumps', grown, k);
  }

  /** Two schedules that agree on year k: if their values differ by `delta`
      after year k-1, they differ by `delta` grown for a year after year k. */
  lemma ValueAfterShift(rate: real, monthlies: seq<int>, lumps: seq<int>, lumps': seq<int>, delta: real, k: nat)
    requires 1 <= k <= |monthlies| && k <= |lumps| && k <= |lumps'|
    requires lumps'[k - 1] == lumps[k - 1]
    requires ValueAfter(rate, monthlies, lumps', k - 1) == ValueAfter(rate, monthlies, lumps, k - 1) + delta
    ensures ValueAfter(rate, monthlies, lumps', k) == ValueAfter(rate, monthlies, lumps, k) + delta * YearGrowth(rate)
  {
    YearEndShift(ValueAfter(rate, monthlies, lumps, k - 1), delta, rate, monthlies[k - 1], lumps[k - 1]);
  }

  /** The same growth counted in months: a lump sum added at the end of year
      y+1 is compounded monthly through the twelve months of every later year. */
  lemma LumpSumGrowthMonthly(rate: real, monthlies: seq<int>, lumps: seq<int>, y: nat, extra: int, k: nat)
    requires y < k <= |monthlies| && k <= |lumps|
    ensures ValueAfter(rate, monthlies, lumps[y := lumps[y] + extra], k)
         == ValueAfter(rate, monthlies, lumps, k) + extra as real * Pow(1.0 + rate, MonthsPerYear * (k - 1 - y))
  {
    LumpSumGrowth(rate, monthlies, lumps, y, extra, k);
    YearGrowthPow(rate, k - 1 - y);
  }
}
