/** The Investment Goal Tracker script: the default contribution schedule it
    offers, and its simulation loop over the schedule the user confirms. */
module InvestmentGoalApp {
  import opened Projection

  /** Yearly rise of the default monthly contribution. */
  const DefaultIncrement: int := 50

  /** The monthly contribution the planner proposes for `year` (counted from 1):
      the starting amount, raised by the increment every year. */
  function DefaultMonthly(startingMonthly: int, year: int): int
  {
    startingMonthly + (year - 1) * DefaultIncrement
  }

  /** The proposed monthly contributions of the first `years` years, in year
      order: the first is the starting amount and each next one is exactly one
      increment above the one before. */
  function DefaultMonthlies(startingMonthly: int, years: nat): (r: seq<int>)
    ensures |r| == years
    ensures years > 0 ==> r[0] == startingMonthly
    ensures forall y :: 0 < y < years ==> r[y] == r[y - 1] + DefaultIncrement
    ensures forall y :: 0 <= y < years ==> r[y] == DefaultMonthly(startingMonthly, y + 1)
  {
    if years == 0 then []
    else DefaultMonthlies(startingMonthly, years - 1) + [DefaultMonthly(startingMonthly, years)]
  }

  /** The simulation: the portfolio starts at 0; each year applies twelve
      months of growth at `monthlyRate` followed by that month's contribution,
      then adds the year's lump sum, and records the year-end value and the
      year's total contribution.

      `monthlyRate` is the monthly equivalent of the annual return; the same
      rate is used for every year. */
  method Simulate(years: nat, monthlyRate: real, manualMonthlies: seq<int>, lumpSums: seq<int>)
    returns (portfolioValue: real, portfolioValues: seq<real>, totalContributions: seq<int>)
    requires |manualMonthlies| == years && |lumpSums| == years
    ensures |portfolioValues| == years && |totalContributions| == years
    ensures forall y :: 0 <= y < years ==>
      portfolioValues[y] == ValueAfter(monthlyRate, manualMonthlies, lumpSums, y + 1)
    ensures forall y :: 0 <= y < years ==>
      totalContributions[y] == AnnualContribution(manualMonthlies[y], lumpSums[y])
    ensures years > 0 ==>
      portfolioValues[0] == Compound(0.0, monthlyRate, manualMonthlies[0] as real, MonthsPerYear) + lumpSums[0] as real
    ensures forall y :: 0 < y < years ==>
      portfolioValues[y] == Compound(portfolioValues[y - 1], monthlyRate, manualMonthlies[y] as real, MonthsPerYear) + lumpSums[y] as real
    ensures portfolioValue == ValueAfter(monthlyRate, manualMonthlies, lumpSums, years)
    ensures portfolioValue == if years == 0 then 0.0 else portfolioValues[years - 1]
  {
    portfolioValue := 0.0;
    portfolioValues := [];
    totalContributions := [];

    var year := 0;
    while year < years
      invariant 0 <= year <= years
      invariant |portfolioValues| == year && |totalContributions| == year
      invariant forall y :: 0 <= y < year ==>
        portfolioValues[y] == ValueAfter(monthlyRate, manualMonthlies, lumpSums, y + 1)
      invariant forall y :: 0 <= y < year ==>
        totalContributions[y] == AnnualContribution(manualMonthlies[y], lumpSums[y])
      invariant portfolioValue == ValueAfter(monthlyRate, manualMonthlies, lumpSums, year)
    {
      var monthlyContrib := manualMonthlies[year];
      var lumpSum := lumpSums[year];
      // The script computes this total before the months and never reads it;
      // the recorded total below is the same expression.
      var annualContrib := AnnualContribution(monthlyContrib, lumpSum);

      ghost var opening := portfolioValue;
      var month := 0;
      while month < MonthsPerYear
        invariant 0 <= month <= MonthsPerYear
        invariant portfolioValue == Compound(opening, monthlyRate, monthlyContrib as real, month)
      {
        portfolioValue := portfolioValue * (1.0 + monthlyRate) + monthlyContrib as real;
        month := month + 1;
        assert portfolioValue == MonthStep(Compound(opening, monthlyRate, monthlyContrib as real, month - 1),
                                           monthlyRate, monthlyContrib as real);
      }
      portfolioValue := portfolioValue + lumpSum as real;

      portfolioValues := portfolioValues + [portfolioValue];
      totalContributions := totalContributions + [monthlyContrib * MonthsPerYear + lumpSum];
      assert totalContributions[year] == annualContrib;
      year := year + 1;
    }
  }
}
