# SIP & Compounding Planner — verified model of the simulator

The planner projects the growth of a Systematic Investment Plan (SIP). A fixed
monthly contribution is invested at a fixed annual rate, compounded monthly, on
top of an optional initial lump sum. Contributions are made either at the start
of each month (contribute, then earn) or at the end (earn, then contribute).
This project models the part of `app.py` that computes anything:

- `simulate_sip`: the month-by-month recurrence, the monthly frame
  (month, balance, year) and the yearly frame. The yearly frame holds one row
  per year with the year's last month, `invested = monthly * (year * 12) + initial`
  and `returns = balance - invested`.
- The what-if comparison: the simulator is run at the fixed rates 12, 15 and 18
  percent, with no initial lump sum, and each run's final corpus is recorded.

Money and rates are exact `real`s, so the model describes the arithmetic the
code intends, without floating-point rounding. The one integer computation,
the `invested` column, is also given as the code computes it from
whole-number inputs: in 64-bit integers that wrap on overflow
(`InvestedInt64`). It is proved equal to the exact amount for realistic
inputs, and a concrete input is given where it wraps.

Files and modules:

- `compounding.dfy`, module `Compounding`: the monthly rate, one month's step
  for each timing (`Step`), the balance after `m` months (`BalanceAt`), and
  the facts about the recurrence. These are the closed forms, growth,
  start-versus-end timing and monotonicity in the rate.
- `simulator.dfy`, module `Simulator`: the frames as sequences of records and
  `GroupLast`, the group-by-year-keep-last reduction. `Simulation` is the
  whole simulator as a value of type `Frames`, the pair `df, yearly` that the
  code returns. `Simulate` is the imperative loop, proved equal
  to `Simulation`. The lemmas state the properties of the two frames.
- `whatif.dfy`, module `WhatIf`: the candidate `Rates`, `FinalCorpus` and the
  `Compare` loop.

The `returns` column is the field `gain` of `YearlyRecord`, because `returns`
is a Dafny keyword. A pandas column becomes a field of a record, and a frame
becomes a sequence of records in row order. `np.arange(1, n + 1)` becomes the
month number `k + 1` of row `k`.

## Model

| member | source | states |
|---|---|---|
| `Compounding.MonthlyRate` | app.py:25 | the monthly rate is the annual percentage divided by 1200; it is non-negative exactly when the annual rate is, and zero exactly when the annual rate is |
| `Compounding.Step` | app.py:30-33 | one month of the loop: with start timing the contribution is added and then the balance earns a month's interest; with end timing the balance earns first and the contribution is added after |
| `Compounding.StepAsGrowth` | app.py:30-33 | either timing grows the old balance by one month's interest and adds the contribution's end-of-month worth, monthly·(1+i) for start timing and monthly for end timing |
| `Compounding.BalanceAt` | app.py:28-34 | the loop variable `balance` after m iterations: `initial` before the first month, then one `Step` per month |
| `Compounding.BalanceClosedForm` | app.py:28-34 | the balance after m months equals the lump sum times (1+i)^m plus the contribution times 1 + g + … + g^(m-1); a start-of-period contribution counts as monthly·(1+i) |
| `Compounding.GeometricSumClosedForm` | app.py:28-34 | the contribution factor 1 + g + … + g^(n-1), times (g − 1), equals g^n − 1 |
| `Compounding.AnnuityFormula` | app.py:28-34 | i · balance = i · initial · (1+i)^m + c · ((1+i)^m − 1): the future value of the lump sum plus an annuity, for either timing |
| `Compounding.LumpSumClosedForm` | app.py:28-34 | with no contribution the balance after m months is initial · (1+i)^m under either timing |
| `Compounding.ZeroRateClosedForm` | app.py:25-33 | at a zero rate the balance after m months is initial + m · monthly, under either timing |
| `Compounding.BalanceAtLeastInvested` | app.py:28-34 | with no negative input the balance after m months is at least initial + m · monthly, and each month adds at least the contribution |
| `Compounding.BalanceNonDecreasing` | app.py:29-34 | with no negative input the balance at a later month is never below the balance at an earlier month |
| `Compounding.StartAtLeastEnd` | app.py:30-33 | with no negative input, start-of-period timing never yields a lower balance than end-of-period timing |
| `Compounding.StartEqualsEndIffZeroRate` | app.py:30-33 | with a positive contribution and at least one month, start timing leads end timing by at least monthly · i, and the two are equal if and only if the rate is zero |
| `Compounding.BalanceGrowsWithRate` | app.py:25-34 | with no negative input, a higher rate never yields a lower balance |
| `Simulator.YearOfMonth` | app.py:38 | month m (1-based) lies in year y, that is 12(y−1) < m ≤ 12y |
| `Simulator.Balances` | app.py:28-34 | the list `balances` the loop builds: entry k is the balance after k+1 months |
| `Simulator.MonthlyFrame` | app.py:36-38 | the monthly frame: row k holds month k+1, the k-th balance and the year of month k+1 |
| `Simulator.MonthlyFrameOfBalances` | app.py:28-38 | the monthly frame of the simulated balances has n rows; row k is month k+1, the balance after k+1 months, and year k/12+1 |
| `Simulator.GroupLast` | app.py:40 | `groupby("year").last()`: the last row of each run of equal years, in order |
| `Simulator.LastIndexOfYear` | app.py:40 | returns the index of the last row of a year, with no later row of that year, or −1 when no row has that year |
| `Simulator.MonthlyFrameSorted` | app.py:36-38 | the year column of the monthly frame never decreases, so the key-sorted group-by of the source agrees with grouping runs of rows |
| `Simulator.GroupLastAscending` | app.py:40 | on rows sorted by year, the grouped rows have strictly ascending years and end with the last row |
| `Simulator.GroupLastKeepsLastRow` | app.py:40 | on rows sorted by year, each grouped row is the last row of its year (`IsLastOfYear`: the row at the index `LastIndexOfYear` gives) |
| `Simulator.GroupLastCoversYears` | app.py:40 | every year that occurs in the rows has a grouped row |
| `Simulator.GroupLastOfMonthPrefix` | app.py:36-40 | for the first k months, grouping yields ⌈k/12⌉ rows; row j is month 12j+12, or month k for an unfinished last year |
| `Simulator.GroupLastOfMonths` | app.py:36-40 | for years·12 months, grouping yields exactly `years` rows, and row j is month 12(j+1) |
| `Simulator.Invested` | app.py:41 | the invested amount of year Y: the lump sum plus 12·Y monthly contributions, computed exactly |
| `Simulator.WrapInt64` | app.py:41 | two's-complement 64-bit wrap-around: the result lies in [−2^63, 2^63), differs from the input by a multiple of 2^64, and equals the input when it is in range |
| `Simulator.InvestedInt64` | app.py:41 | the invested column as the code computes it from whole-number inputs: `year * 12`, the product with `monthly` and the sum with `initial` each wrap as int64 |
| `Simulator.InvestedInt64Exact` | app.py:41 | for 0 ≤ monthly ≤ 10^14, 0 ≤ initial ≤ 10^15 and 0 ≤ year ≤ 1000 no int64 operation overflows, and the int64 column equals the exact `Invested` |
| `Simulator.InvestedInt64Wraps` | app.py:41-42 | for monthly = 9007199254740991 (the widget's largest whole number), no lump sum and year 86, the exact amount is positive but the int64 column wraps to a negative number |
| `Simulator.WithInvested` | app.py:41-42 | adds to each grouped row its invested amount and returns = balance − invested |
| `Simulator.YearlyFrameOfMonths` | app.py:38-42 | yearly row y has year y+1, month 12(y+1), that month's balance, invested = monthly·12(y+1) + initial, and returns = balance − invested |
| `Simulator.Simulation` | app.py:24-44 | the monthly frame has years·12 rows; row k has month k+1, year k/12+1 and the balance after k+1 months of the recurrence from `initial`; the yearly frame has one row per year 1..years, holding month 12Y's balance, invested and returns |
| `Simulator.Simulate` | app.py:24-44 | the loop that appends each month's balance, followed by the frame derivation, returns exactly the frames of `Simulation` |
| `Simulator.InvestedGrowsWithYears` | app.py:41 | from year a to year b the invested amount grows by 12(b−a)·monthly: strictly when monthly > 0, not at all when monthly = 0 |
| `Simulator.ZeroRateYearHasNoGain` | app.py:41-42 | at a zero rate the balance at the end of year Y equals the invested amount of year Y |
| `Simulator.ZeroRateHasNoReturns` | app.py:25-42 | at a zero rate row k of the monthly frame holds initial + (k+1)·monthly (`AddsContributions`), and every year's returns are zero (`NoReturns`) |
| `Simulator.LumpSumCompounds` | app.py:24-37 | with no contribution row k of the monthly frame holds initial·(1+i)^(k+1) (`CompoundedLumpSum`) |
| `Simulator.NonNegativeInputsGrow` | app.py:29-42 | with no negative input the monthly balances never decrease (`BalancesNonDecreasing`) and every year's returns are non-negative (`NoLosses`) |
| `Simulator.StartNeverBelowEnd` | app.py:30-42 | with no negative input, every year's balance under start timing is at least that under end timing; they are equal at a zero rate, and with a positive contribution only then |
| `WhatIf.FinalCorpus` | app.py:103-104 | the last yearly balance of a run with no lump sum is the balance after the last of years·12 months of the recurrence |
| `WhatIf.CorpusGrowsWithRate` | app.py:97-105 | with a non-negative contribution, a later and higher candidate rate never gives a smaller final corpus |
| `WhatIf.Compare` | app.py:97-105 | one row per rate 12, 15, 18, in that order; each holds its rate and that run's final corpus; with a non-negative contribution the corpus never falls as the rate rises |

## Left out

- The Streamlit page, sidebar widgets and their clamping (app.py:7-22). The model takes the inputs as parameters. `years` is a `nat`: fractional horizons, which `int(years * 12)` would truncate, are not modelled because the widget yields whole years.
- The mock fund table, its filter, the bar chart and the formatted tables (app.py:46-73). These are static data and display code.
- All charts, `st.metric` and the table formatting (app.py:83-92, app.py:100, app.py:107-119, app.py:121-125). These are presentation.
- The CSV export and download button (app.py:127-128). These are I/O through a library that is not part of this model, so no serialization round trip is modelled.
- The headline figures (app.py:79-81) are not modelled. Note that `total_invested` there omits `initial`, unlike the yearly `invested` (app.py:41), so the headline returns count the lump sum as a return.
- Simulator.Invested: the yearly rows of `Simulation` use the exact invested amount, not the 64-bit integer one. The code computes `invested` in int64 from whole-number inputs (app.py:12-13, 41), and the value wraps silently on overflow; through it, so does `returns` (app.py:42). The wrap is modelled on its own by `InvestedInt64`. `InvestedInt64Exact` bounds the inputs under which the two agree, and `InvestedInt64Wraps` gives an input where they do not. The frames beyond that range are not modelled.
- Floating-point rounding. Balances are exact reals, so `FinalCorpus` and every balance are the exact values that the float computation approximates.
- GroupLast: it groups consecutive rows with equal year. On year-sorted rows this is what pandas' key-sorted group-by-last returns, and the simulator only produces such rows (`MonthlyFrameSorted`). The reordering that pandas does on unsorted frames is not modelled.
- `simulate_sip` places no sign restriction on its inputs, and neither does the model. The growth and timing facts carry the non-negativity assumptions that the widgets enforce (app.py:12-15).
- Determinism of repeated runs needs no lemma: `Simulation` is a function.
