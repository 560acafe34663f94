# Investment Goal Tracker — projection model

The Investment Goal Tracker is a single Streamlit script. The user picks a
horizon in years (1 to 50) and an average annual return (0% to 15%). The user
then confirms, year by year, a monthly contribution and a lump sum. The
planner proposes a default monthly contribution that starts at a chosen amount
and rises by 50 every year. The script projects the portfolio year by year and
shows the results as a table, two charts and a summary.

This project models the part of the script that computes: the projection loop
and the default schedule.

- `projection.dfy`, module `Projection`: the projection as pure functions.
  `MonthStep` is one month: growth at the monthly rate, then the month's
  contribution. `Compound` applies `MonthStep` for a number of months.
  `YearEnd` is twelve months followed by the lump sum. `ValueAfter` is the
  value at the end of year k, starting from 0. `AnnualContribution` is a
  year's recorded total. The module also holds the lemmas about these
  functions.
- `simulation.dfy`, module `InvestmentGoalApp`: the script itself.
  `Simulate` is the simulation loop, an outer loop over the years and an inner
  loop over twelve months. Its outputs are the final `portfolioValue`, the
  `portfolioValues` list and the `totalContributions` list. It is proved
  against `ValueAfter` and `AnnualContribution`. `DefaultMonthlies` is the
  proposed monthly schedule.

Amounts typed into the number inputs are whole numbers. The per-year inputs
(lines 25, 27) have an integer default and no `step` argument, so they use the
default integer step. The starting amount (line 15) has an integer default and
an integer step of 50. All of them therefore yield an `int`. Monthly
contributions, lump sums and yearly totals are modelled as unbounded `int`,
the same as Python integers. The portfolio value is a `real`, computed exactly, with no
floating-point rounding.

The script turns the annual return into a monthly rate with a twelfth root.
`Simulate` takes that monthly rate as a parameter instead, and uses it for
every year. The script recomputes the rate each year from an unchanged
annual return, so it also gets the same value every year. The predicate
`IsMonthlyRate` states what the conversion produces: a positive growth factor
`1 + rate` whose twelfth power is `1 + annual`. `MonthlyRateBounds` derives
from this what the slider's range guarantees about the rate.

The script validates nothing. The sliders bound the horizon (1–50, line 13)
and the return (0–15%, line 14). Contributions and lump sums have no lower
bound (lines 25, 27), so they may be negative. `Simulate` accepts every
schedule, and only the growth lemmas require non-negative amounts.

## Model

| member | source | states |
|---|---|---|
| `InvestmentGoalApp.Simulate` | investment_goal_app.py:32-47 | One year-end value and one yearly total are appended per year, in year order, so both lists have exactly `years` entries. Entry y of the values list is `ValueAfter(rate, monthlies, lumps, y+1)`. Entry y of the totals list is monthly×12 + lump for that year. The first value is twelve compounded months from 0 plus the first lump sum. Every later value is twelve compounded months from the previous value plus that year's lump sum. The final `portfolioValue` is the model value after all years, which is the last list entry, or 0 when no year is simulated. |
| `InvestmentGoalApp.DefaultMonthlies` | investment_goal_app.py:22-25 | The default schedule has one entry per year. Entry y is `starting_monthly + (year - 1) * 50` for year = y+1. The first entry is the starting monthly amount. Each next entry is exactly 50 above the one before. |
| `Projection.MonthlyRateBounds` | investment_goal_app.py:14-40 | For any non-negative annual return (the slider gives 0 to 0.15), any monthly rate whose positive growth factor raised to the 12th power gives the annual factor lies between 0 and annual/12. It is 0 exactly when the annual return is 0. |
| `Projection.CompoundClosedForm` | investment_goal_app.py:42-43 | n monthly steps from v equal v·(1+r)^n + c·(1 + (1+r) + … + (1+r)^(n-1)). Each contribution grows from the month it is paid. |
| `Projection.CompoundShift` | investment_goal_app.py:42-43 | Raising the starting value by d raises the value after n months by d·(1+r)^n. |
| `Projection.YearEndShift` | investment_goal_app.py:42-44 | Raising a year's opening value by d raises its closing value by d times the year's growth factor (1+r)^12. |
| `Projection.CompoundZeroRate` | investment_goal_app.py:42-43 | At a monthly rate of 0, n months from v end at v + n·c. |
| `Projection.ZeroRateValueIsContributions` | investment_goal_app.py:32-47 | At a rate of 0, the value after year k equals the sum of the first k recorded yearly totals (monthly×12 + lump). The lemma applies to `Simulate`'s `totalContributions`. |
| `Projection.OneYearZeroRateExample` | investment_goal_app.py:36-47 | One year at 0% with 1000 a month and no lump sum ends at 12000, and its recorded total is 12000. |
| `Projection.CompoundAtLeastStart` | investment_goal_app.py:42-43 | With v, rate and contribution all non-negative, twelve (or any number of) months never end below v. |
| `Projection.YearEndAtLeastStart` | investment_goal_app.py:42-44 | With a non-negative rate, opening value, monthly amount and lump sum, a year never ends below its opening value. |
| `Projection.ValueNonNegative` | investment_goal_app.py:32-44 | With a non-negative rate and a non-negative schedule, every year-end value is ≥ 0. |
| `Projection.ValueNonDecreasing` | investment_goal_app.py:36-46 | With a non-negative rate and a non-negative schedule, for i ≤ j the value after year i is ≥ 0 and ≤ the value after year j. The series of year-end values never decreases. |
| `Projection.ValueIgnoresLaterLumps` | investment_goal_app.py:36-44 | Changing the lump sum of a later year leaves every earlier year-end value unchanged. |
| `Projection.LumpSumGrowth` | investment_goal_app.py:42-46 | Adding e to the lump sum of year y+1 adds exactly e to that year's closing value, so the lump sum does not compound within its own year. It adds e·((1+r)^12)^j, which equals e·(1+r)^(12·j), to the value j years later. |
| `Projection.LumpSumGrowthMonthly` | investment_goal_app.py:42-46 | The same growth counted in months: a lump sum e added at the end of year y+1 adds e·(1+r)^(12·j) to the value j years later, because it is compounded through the twelve months of each later year. |
| `Projection.YearGrowthPow` | investment_goal_app.py:42-43 | j years of the yearly growth factor (1+r)^12 equal 12·j months of the monthly factor 1+r. |
| `Projection.ValueAfterShift` | investment_goal_app.py:36-44 | Two schedules that agree on year k and whose values after year k-1 differ by d have values after year k that differ by d·(1+r)^12. |
| `Projection.LumpSumGrowthStep` | investment_goal_app.py:36-46 | One more year of lump-sum growth: a difference of e·G^j after year k-1 becomes e·G^(j+1) after year k, G being the yearly growth factor, when both schedules agree on year k. |

## Left out

- The twelfth-root conversion `(1 + annual_return) ** (1/12) - 1`: Dafny's `real` has no fractional power. The monthly rate is a parameter of `Simulate`, characterised by `IsMonthlyRate`.
- Floating-point rounding: all amounts are exact (`int` and `real`). The values model the mathematical recurrence, not the rounded floats.
- The Streamlit page: setup, sidebar widgets, per-widget session keys, layout and the user's edits of the proposed schedule. The confirmed schedule, the horizon and the rate are inputs of `Simulate`. No contract uses the horizon range (1–50) or the 15% cap on the return. Only the return's lower bound of 0% appears, as the `0.0 <= annual` precondition of `MonthlyRateBounds`.
- The `int(...)` around the default monthly amount: the starting amount is already an integer, so the conversion changes nothing.
- The pandas table, the currency formatting and the two matplotlib charts: presentation only.
- The target net worth and the progress percentage (final value / target × 100): display only, computed in floating point with no guard against a zero target.
- Determinism: every member here is a function of its inputs, so repeated runs give equal results by construction. No separate property states this.
