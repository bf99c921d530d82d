/**
 * The SIP simulator: runs the compounding recurrence for years * 12 months,
 * builds the monthly frame (month, balance, year) and reduces it to one row
 * per year holding the year's last month, the amount invested so far and the
 * returns.
 */
module Simulator {
  import opened Compounding

  /** One row of the monthly frame. */
  datatype MonthlyRecord = MonthlyRecord(month: int, balance: real, year: int)

  /** One row of the yearly frame: the last monthly row of `year`, plus the invested and returns (`gain`) columns. */
  datatype YearlyRecord = YearlyRecord(year: int, month: int, balance: real, invested: real, gain: real)

  /** What the simulator returns: the monthly frame `df` and the yearly frame. */
  datatype Frames = Frames(df: seq<MonthlyRecord>, yearly: seq<YearlyRecord>)

  /** The calendar year (1-based) that a 1-based month falls in. */
  function YearOfMonth(month: int): (y: int)
    ensures month >= 1 ==> y >= 1 && 12 * (y - 1) < month <= 12 * y
  {
    (month - 1) / 12 + 1
  }

  /** The balances after months 1..n, as the loop of the simulator appends them. */
  function Balances(initial: real, monthly: real, i: real, start: bool, n: nat): seq<real>
  {
    seq(n, k requires 0 <= k < n => BalanceAt(initial, monthly, i, start, k + 1))
  }

  /** The monthly frame: month numbers 1..n beside the balances, and the derived year column. */
  function MonthlyFrame(balances: seq<real>): seq<MonthlyRecord>
  {
    seq(|balances|, k requires 0 <= k < |balances| => MonthlyRecord(k + 1, balances[k], YearOfMonth(k + 1)))
  }

  /**
   * Group rows by year and keep the last row of each group, in order.
   * Groups are runs of consecutive rows with the same year, which is what a
   * key-sorted group-by gives when the rows are already sorted by year.
   */
  function GroupLast(rows: seq<MonthlyRecord>): seq<MonthlyRecord>
  {
    if |rows| == 0 then []
    else
      var g := GroupLast(rows[..|rows| - 1]);
      var r := rows[|rows| - 1];
      if |g| > 0 && g[|g| - 1].year == r.year then g[..|g| - 1] + [r] else g + [r]
  }

  /** The rows' year column never decreases. */
  predicate YearsSorted(rows: seq<MonthlyRecord>)
  {
    forall a, b :: 0 <= a < b < |rows| ==> rows[a].year <= rows[b].year
  }

  /** The index of the last row of year `y`, or -1 when no row has that year. */
  function LastIndexOfYear(rows: seq<MonthlyRecord>, y: int): (p: int)
    ensures -1 <= p < |rows|
    ensures p >= 0 ==> rows[p].year == y && forall q :: p < q < |rows| ==> rows[q].year != y
    ensures p == -1 ==> forall q :: 0 <= q < |rows| ==> rows[q].year != y
  {
    if |rows| == 0 then -1
    else if rows[|rows| - 1].year == y then |rows| - 1
    else LastIndexOfYear(rows[..|rows| - 1], y)
  }

  /** The last step of GroupLast: the final row either replaces its year's row or opens a new one. */
  lemma GroupLastAppend(rows: seq<MonthlyRecord>)
    requires |rows| > 0
    ensures var gp := GroupLast(rows[..|rows| - 1]);
      var r := rows[|rows| - 1];
      var kept := if |gp| > 0 && gp[|gp| - 1].year == r.year then |gp| - 1 else |gp|;
      GroupLast(rows) == gp[..kept] + [r]
  {
  }

  /** On rows sorted by year, the groups come in strictly ascending year order and end with the last row. */
  lemma {:induction false} GroupLastAscending(rows: seq<MonthlyRecord>)
    requires YearsSorted(rows)
    ensures var g := GroupLast(rows);
      && (forall a, b :: 0 <= a < b < |g| ==> g[a].year < g[b].year)
      && (|rows| > 0 ==> |g| > 0 && g[|g| - 1] == rows[|rows| - 1])
  {
    if |rows| > 0 {
      var n := |rows|;
      var pre := rows[..n - 1];
      GroupLastAscending(pre);
      GroupLastAppend(rows);
      var gp := GroupLast(pre);
      var g := GroupLast(rows);
      var r := rows[n - 1];
      var kept := if |gp| > 0 && gp[|gp| - 1].year == r.year then |gp| - 1 else |gp|;
      assert |gp| > 0 ==> gp[|gp| - 1].year == pre[n - 2].year <= r.year;
      forall a, b | 0 <= a < b < |g|
        ensures g[a].year < g[b].year
      {
        assert g[a] == gp[a];
        if b < kept {
          assert g[b] == gp[b];
        }
      }
    }
  }

  /** `row` is the last of the rows that have its year. */
  predicate IsLastOfYear(rows: seq<MonthlyRecord>, row: MonthlyRecord)
  {
    LastIndexOfYear(rows, row.year) >= 0 && row == rows[LastIndexOfYear(rows, row.year)]
  }

  /** On rows sorted by year, each group's row is the last row of its year. */
  lemma {:induction false} GroupLastKeepsLastRow(rows: seq<MonthlyRecord>)
    requires YearsSorted(rows)
    ensures forall j :: 0 <= j < |GroupLast(rows)| ==> IsLastOfYear(rows, GroupLast(rows)[j])
  {
    if |rows| > 0 {
      var n := |rows|;
      var pre := rows[..n - 1];
      GroupLastKeepsLastRow(pre);
      GroupLastAscending(pre);
      GroupLastAppend(rows);
      var gp := GroupLast(pre);
      var g := GroupLast(rows);
      var r := rows[n - 1];
      var kept := if |gp| > 0 && gp[|gp| - 1].year == r.year then |gp| - 1 else |gp|;
      assert |gp| > 0 ==> gp[|gp| - 1].year == pre[n - 2].year <= r.year;
      forall j | 0 <= j < |g|
        ensures IsLastOfYear(rows, g[j])
      {
        if j < kept {
          assert g[j] == gp[j] && gp[j].year != r.year;
          LastOfYearBeforeLastRow(rows, gp[j]);
        } else {
          assert g[j] == r;
        }
      }
    }
  }

  /** A row that is last of its year before the final row stays last when the final row has another year. */
  lemma LastOfYearBeforeLastRow(rows: seq<MonthlyRecord>, row: MonthlyRecord)
    requires |rows| > 0 && row.year != rows[|rows| - 1].year
    requires IsLastOfYear(rows[..|rows| - 1], row)
    ensures IsLastOfYear(rows, row)
  {
    assert LastIndexOfYear(rows, row.year) == LastIndexOfYear(rows[..|rows| - 1], row.year);
  }

  /** Every year that occurs in the rows has a group. */
  lemma {:induction false} GroupLastCoversYears(rows: seq<MonthlyRecord>)
    ensures forall k :: 0 <= k < |rows| ==>
      exists j :: 0 <= j < |GroupLast(rows)| && GroupLast(rows)[j].year == rows[k].year
  {
    if |rows| > 0 {
      var n := |rows|;
      var pre := rows[..n - 1];
      GroupLastCoversYears(pre);
      GroupLastAppend(rows);
      var gp := GroupLast(pre);
      var g := GroupLast(rows);
      var r := rows[n - 1];
      var kept := if |gp| > 0 && gp[|gp| - 1].year == r.year then |gp| - 1 else |gp|;
      forall k | 0 <= k < n
        ensures exists j :: 0 <= j < |g| && g[j].year == rows[k].year
      {
        if k == n - 1 {
          assert g[|g| - 1].year == rows[k].year;
        } else {
          assert pre[k] == rows[k];
          var j :| 0 <= j < |gp| && gp[j].year == pre[k].year;
          if j < kept {
            assert g[j].year == rows[k].year;
          } else {
            assert g[|g| - 1].year == rows[k].year;
          }
        }
      }
    }
  }

  /** The monthly frame is sorted by year, so GroupLast on it is the group-by-last reduction. */
  lemma MonthlyFrameSorted(balances: seq<real>)
    ensures YearsSorted(MonthlyFrame(balances))
  {
  }

  /** The invested column: the lump sum plus the contributions of `year` full years. */
  function Invested(monthly: real, initial: real, year: int): real
  {
    monthly * ((year * 12) as real) + initial
  }

  /** Two's-complement 64-bit wrap-around, as numpy's int64 arithmetic does on overflow. */
  function WrapInt64(x: int): (r: int)
    ensures -0x8000_0000_0000_0000 <= r < 0x8000_0000_0000_0000
    ensures (x - r) % 0x1_0000_0000_0000_0000 == 0
    ensures -0x8000_0000_0000_0000 <= x < 0x8000_0000_0000_0000 ==> r == x
  {
    (x + 0x8000_0000_0000_0000) % 0x1_0000_0000_0000_0000 - 0x8000_0000_0000_0000
  }

  /**
   * The invested column as the code computes it from whole-number inputs: the
   * year column is int64, so the product and the sum are int64 operations
   * that wrap on overflow.
   */
  function InvestedInt64(monthly: int, initial: int, year: int): int
  {
    WrapInt64(WrapInt64(monthly * WrapInt64(year * 12)) + initial)
  }

  /** Within realistic inputs no int64 operation overflows, and the column is the exact amount. */
  lemma InvestedInt64Exact(monthly: int, initial: int, year: int)
    requires 0 <= monthly <= 100_000_000_000_000 && 0 <= initial <= 1_000_000_000_000_000
    requires 0 <= year <= 1000
    ensures InvestedInt64(monthly, initial, year) as real == Invested(monthly as real, initial as real, year)
  {
    var p := monthly * (year * 12);
    assert 0 <= p <= 100_000_000_000_000 * 12000 by {
      assert monthly * (year * 12) <= 100_000_000_000_000 * (year * 12);
    }
    assert (p as real) == (monthly as real) * ((year * 12) as real);
  }

  /**
   * The widget's largest whole number as the contribution, over 86 years: the
   * int64 product overflows, and the invested column turns negative.
   */
  lemma InvestedInt64Wraps()
    ensures Invested(9_007_199_254_740_991 as real, 0.0, 86) > 0.0
    ensures InvestedInt64(9_007_199_254_740_991, 0, 86) == 9_295_429_630_892_702_712 - 0x1_0000_0000_0000_0000
    ensures InvestedInt64(9_007_199_254_740_991, 0, 86) < 0
  {
  }

  /** Add the invested and returns columns to the per-year rows. */
  function WithInvested(groups: seq<MonthlyRecord>, monthly: real, initial: real): seq<YearlyRecord>
  {
    seq(|groups|, j requires 0 <= j < |groups| =>
      var row := groups[j];
      var invested := Invested(monthly, initial, row.year);
      YearlyRecord(row.year, row.month, row.balance, invested, row.balance - invested))
  }

  /** Row x is month x + 1 and carries that month's year. */
  predicate YearColumnFromMonth(rows: seq<MonthlyRecord>)
  {
    forall x :: 0 <= x < |rows| ==> rows[x].year == YearOfMonth(x + 1)
  }

  /** The year rows within the first k months of a frame whose year column is derived from the month. */
  lemma {:induction false} GroupLastOfMonthPrefix(rows: seq<MonthlyRecord>, k: nat)
    requires k <= |rows| && YearColumnFromMonth(rows)
    ensures var g := GroupLast(rows[..k]);
      && |g| == (k + 11) / 12
      && forall j :: 0 <= j < |g| ==> g[j] == rows[if 12 * j + 11 < k then 12 * j + 11 else k - 1]
  {
    if k > 0 {
      GroupLastOfMonthPrefix(rows, k - 1);
      var prefix := rows[..k];
      assert prefix[..k - 1] == rows[..k - 1];
      var gp := GroupLast(rows[..k - 1]);
      var g := GroupLast(prefix);
      var q := (k - 1) / 12;
      var kept := if (k - 1) % 12 == 0 then |gp| else |gp| - 1;
      assert kept == q && |gp| == (k + 10) / 12 by {
        MonthArithmetic(k);
      }
      assert g == gp[..kept] + [rows[k - 1]] by {
        GroupLastAppend(prefix);
        MonthArithmetic(k);
        assert k - 1 == 12 * q + (k - 1) % 12;
        assert rows[k - 1].year == YearOfMonth(k);
        if |gp| > 0 {
          var last := |gp| - 1;
          if (k - 1) % 12 == 0 {
            assert last == q - 1 && 12 * last + 11 == k - 2;
          } else {
            assert last == q && 12 * last + 11 >= k - 1;
          }
          assert gp[last] == rows[if 12 * last + 11 < k - 1 then 12 * last + 11 else k - 2];
          assert gp[last].year == YearOfMonth(k - 1);
        }
      }
      assert |g| == (k + 11) / 12 by {
        MonthArithmetic(k);
      }
      forall j | 0 <= j < |g|
        ensures g[j] == rows[if 12 * j + 11 < k then 12 * j + 11 else k - 1]
      {
        if j < kept {
          assert 12 * j + 11 < k - 1;
          assert g[j] == gp[j];
        }
      }
    }
  }

  /** Division facts about month k: its year, and the year counts before and after it. */
  lemma MonthArithmetic(k: nat)
    requires k >= 1
    ensures var q := (k - 1) / 12;
      && (k + 11) / 12 == q + 1
      && YearOfMonth(k) == q + 1
      && ((k - 1) % 12 == 0 ==> (k + 10) / 12 == q && (k >= 2 ==> YearOfMonth(k - 1) == q))
      && ((k - 1) % 12 != 0 ==> (k + 10) / 12 == q + 1 && YearOfMonth(k - 1) == q + 1)
  {
  }

  /** The simulator's monthly frame reduces to exactly one row per year, the year's 12th month. */
  lemma GroupLastOfMonths(balances: seq<real>, years: nat)
    requires |balances| == 12 * years
    ensures var g := GroupLast(MonthlyFrame(balances));
      && |g| == years
      && forall j :: 0 <= j < years ==> g[j] == MonthlyFrame(balances)[12 * j + 11]
  {
    var rows := MonthlyFrame(balances);
    GroupLastOfMonthPrefix(rows, |rows|);
    assert rows[..|rows|] == rows;
  }

  /**
   * The simulation as a value: the monthly frame and the yearly frame for
   * `years` years of contributions at `annualRate` percent, from `initial`.
   */
  function Simulation(monthly: real, annualRate: real, years: nat, start: bool, initial: real)
    : (r: Frames)
    ensures |r.df| == years * 12
    ensures forall k :: 0 <= k < |r.df| ==>
      && r.df[k].month == k + 1
      && r.df[k].year == k / 12 + 1
      && r.df[k].balance == BalanceAt(initial, monthly, MonthlyRate(annualRate), start, k + 1)
    ensures |r.yearly| == years
    ensures forall y :: 0 <= y < |r.yearly| ==>
      && r.yearly[y].year == y + 1
      && r.yearly[y].month == 12 * (y + 1)
      && r.yearly[y].balance == r.df[12 * y + 11].balance
      && r.yearly[y].balance == BalanceAt(initial, monthly, MonthlyRate(annualRate), start, 12 * (y + 1))
      && r.yearly[y].invested == Invested(monthly, initial, y + 1)
      && r.yearly[y].gain == r.yearly[y].balance - r.yearly[y].invested
  {
    var balances := Balances(initial, monthly, MonthlyRate(annualRate), start, years * 12);
    MonthlyFrameOfBalances(initial, monthly, MonthlyRate(annualRate), start, years * 12);
    YearlyFrameOfMonths(balances, years, monthly, initial);
    Frames(MonthlyFrame(balances), WithInvested(GroupLast(MonthlyFrame(balances)), monthly, initial))
  }

  /** The monthly frame of the simulated balances, row by row. */
  lemma MonthlyFrameOfBalances(initial: real, monthly: real, i: real, start: bool, n: nat)
    ensures var df := MonthlyFrame(Balances(initial, monthly, i, start, n));
      && |df| == n
      && forall k :: 0 <= k < n ==> df[k] == MonthlyRecord(k + 1, BalanceAt(initial, monthly, i, start, k + 1), k / 12 + 1)
  {
  }

  /** The yearly frame of a whole number of years of monthly rows, row by row. */
  lemma YearlyFrameOfMonths(balances: seq<real>, years: nat, monthly: real, initial: real)
    requires |balances| == 12 * years
    ensures var yearly := WithInvested(GroupLast(MonthlyFrame(balances)), monthly, initial);
      && |yearly| == years
      && forall y :: 0 <= y < years ==>
           var invested := Invested(monthly, initial, y + 1);
           yearly[y] == YearlyRecord(y + 1, 12 * (y + 1), balances[12 * y + 11], invested, balances[12 * y + 11] - invested)
  {
    var df := MonthlyFrame(balances);
    var g := GroupLast(df);
    GroupLastOfMonths(balances, years);
    forall y | 0 <= y < years
      ensures g[y] == MonthlyRecord(12 * (y + 1), balances[12 * y + 11], y + 1)
    {
      assert g[y] == df[12 * y + 11];
      assert YearOfMonth(12 * y + 12) == y + 1;
    }
  }

  /**
   * The simulator: the month-by-month loop appends each new balance, then the
   * frames are derived from the list of balances.
   */
  method Simulate(monthly: real, annualRate: real, years: nat, start: bool, initial: real)
    returns (df: seq<MonthlyRecord>, yearly: seq<YearlyRecord>)
    ensures Frames(df, yearly) == Simulation(monthly, annualRate, years, start, initial)
  {
    var i := MonthlyRate(annualRate);
    var n := years * 12;
    var balances: seq<real> := [];
    var balance := initial;
    for m := 1 to n + 1
      invariant |balances| == m - 1
      invariant balance == BalanceAt(initial, monthly, i, start, m - 1)
      invariant forall k :: 0 <= k < m - 1 ==> balances[k] == BalanceAt(initial, monthly, i, start, k + 1)
    {
      if start {
        balance := (balance + monthly) * (1.0 + i);
      } else {
        balance := balance * (1.0 + i) + monthly;
      }
      balances := balances + [balance];
    }
    assert balances == Balances(initial, monthly, i, start, n);
    df := MonthlyFrame(balances);
    yearly := WithInvested(GroupLast(df), monthly, initial);
  }

  /** Row k of the simulated monthly frame holds the balance after k + 1 months. */
  lemma SimulatedBalance(monthly: real, annualRate: real, years: nat, start: bool, initial: real, k: nat)
    requires k < years * 12
    ensures Simulation(monthly, annualRate, years, start, initial).df[k].balance
      == BalanceAt(initial, monthly, MonthlyRate(annualRate), start, k + 1)
  {
  }

  /** Each further year adds twelve contributions to the invested amount. */
  lemma InvestedGrowsWithYears(monthly: real, initial: real, a: int, b: int)
    requires a < b
    ensures Invested(monthly, initial, b) - Invested(monthly, initial, a) == ((12 * (b - a)) as real) * monthly
    ensures monthly > 0.0 ==> Invested(monthly, initial, a) < Invested(monthly, initial, b)
    ensures monthly == 0.0 ==> Invested(monthly, initial, a) == Invested(monthly, initial, b)
  {
    assert monthly * ((b * 12) as real) - monthly * ((a * 12) as real) == ((12 * (b - a)) as real) * monthly;
    if monthly > 0.0 {
      MulMonotone(1.0, (12 * (b - a)) as real, monthly, monthly);
    }
  }

  /** With a zero rate, the balance at the end of any year is exactly what was invested. */
  lemma ZeroRateYearHasNoGain(monthly: real, initial: real, start: bool, year: nat)
    ensures BalanceAt(initial, monthly, 0.0, start, 12 * year) == Invested(monthly, initial, year)
  {
    ZeroRateClosedForm(initial, monthly, start, 12 * year);
    assert (12 * year) as real == (year * 12) as real;
  }

  /** Row k holds the lump sum plus k + 1 contributions. */
  predicate AddsContributions(rows: seq<MonthlyRecord>, initial: real, monthly: real)
  {
    forall k :: 0 <= k < |rows| ==> rows[k].balance == initial + ((k + 1) as real) * monthly
  }

  /** No year shows any returns. */
  predicate NoReturns(yearly: seq<YearlyRecord>)
  {
    forall y :: 0 <= y < |yearly| ==> yearly[y].gain == 0.0
  }

  /** With a zero rate every month adds exactly the contribution, so no year shows any returns. */
  lemma ZeroRateHasNoReturns(monthly: real, years: nat, start: bool, initial: real)
    ensures AddsContributions(Simulation(monthly, 0.0, years, start, initial).df, initial, monthly)
    ensures NoReturns(Simulation(monthly, 0.0, years, start, initial).yearly)
  {
    var r := Simulation(monthly, 0.0, years, start, initial);
    assert MonthlyRate(0.0) == 0.0;
    ZeroRateRows(r.df, initial, monthly, start);
    ZeroRateYears(r.yearly, initial, monthly, start);
  }

  /** Rows holding the balances of a run at a zero rate hold the lump sum plus the contributions so far. */
  lemma ZeroRateRows(rows: seq<MonthlyRecord>, initial: real, monthly: real, start: bool)
    requires forall k :: 0 <= k < |rows| ==> rows[k].balance == BalanceAt(initial, monthly, 0.0, start, k + 1)
    ensures AddsContributions(rows, initial, monthly)
  {
    forall k | 0 <= k < |rows|
      ensures rows[k].balance == initial + ((k + 1) as real) * monthly
    {
      ZeroRateClosedForm(initial, monthly, start, k + 1);
    }
  }

  /** Yearly rows of a run at a zero rate show no returns. */
  lemma ZeroRateYears(yearly: seq<YearlyRecord>, initial: real, monthly: real, start: bool)
    requires forall y :: 0 <= y < |yearly| ==>
      && yearly[y].balance == BalanceAt(initial, monthly, 0.0, start, 12 * (y + 1))
      && yearly[y].invested == Invested(monthly, initial, y + 1)
      && yearly[y].gain == yearly[y].balance - yearly[y].invested
    ensures NoReturns(yearly)
  {
    forall y | 0 <= y < |yearly|
      ensures yearly[y].gain == 0.0
    {
      ZeroRateYearHasNoGain(monthly, initial, start, y + 1);
    }
  }

  /** Row k holds the lump sum compounded over k + 1 months. */
  predicate CompoundedLumpSum(rows: seq<MonthlyRecord>, initial: real, i: real)
  {
    forall k :: 0 <= k < |rows| ==> rows[k].balance == initial * Pow(1.0 + i, k + 1)
  }

  /** With no contributions the balance is the lump sum compounded monthly. */
  lemma LumpSumCompounds(annualRate: real, years: nat, start: bool, initial: real)
    ensures CompoundedLumpSum(Simulation(0.0, annualRate, years, start, initial).df, initial, MonthlyRate(annualRate))
  {
    var r := Simulation(0.0, annualRate, years, start, initial);
    LumpSumRows(r.df, initial, MonthlyRate(annualRate), start);
  }

  /** Rows holding the balances of a run without contributions hold the compounded lump sum. */
  lemma LumpSumRows(rows: seq<MonthlyRecord>, initial: real, i: real, start: bool)
    requires forall k :: 0 <= k < |rows| ==> rows[k].balance == BalanceAt(initial, 0.0, i, start, k + 1)
    ensures CompoundedLumpSum(rows, initial, i)
  {
    forall k | 0 <= k < |rows|
      ensures rows[k].balance == initial * Pow(1.0 + i, k + 1)
    {
      LumpSumClosedForm(initial, i, start, k + 1);
    }
  }

  /** The balance column never decreases. */
  predicate BalancesNonDecreasing(rows: seq<MonthlyRecord>)
  {
    forall a, b :: 0 <= a <= b < |rows| ==> rows[a].balance <= rows[b].balance
  }

  /** No year shows negative returns. */
  predicate NoLosses(yearly: seq<YearlyRecord>)
  {
    forall y :: 0 <= y < |yearly| ==> yearly[y].gain >= 0.0
  }

  /**
   * With no negative input the monthly balance never decreases and no year
   * shows negative returns.
   */
  lemma NonNegativeInputsGrow(monthly: real, annualRate: real, years: nat, start: bool, initial: real)
    requires monthly >= 0.0 && annualRate >= 0.0 && initial >= 0.0
    ensures BalancesNonDecreasing(Simulation(monthly, annualRate, years, start, initial).df)
    ensures NoLosses(Simulation(monthly, annualRate, years, start, initial).yearly)
  {
    var r := Simulation(monthly, annualRate, years, start, initial);
    GrowingRows(r.df, initial, monthly, MonthlyRate(annualRate), start);
    GrowingYears(r.yearly, initial, monthly, MonthlyRate(annualRate), start);
  }

  /** Rows holding the balances of a run with no negative input never decrease. */
  lemma GrowingRows(rows: seq<MonthlyRecord>, initial: real, monthly: real, i: real, start: bool)
    requires initial >= 0.0 && monthly >= 0.0 && i >= 0.0
    requires forall k :: 0 <= k < |rows| ==> rows[k].balance == BalanceAt(initial, monthly, i, start, k + 1)
    ensures BalancesNonDecreasing(rows)
  {
    forall a, b | 0 <= a <= b < |rows|
      ensures rows[a].balance <= rows[b].balance
    {
      BalanceNonDecreasing(initial, monthly, i, start, a + 1, b + 1);
    }
  }

  /** Yearly rows of a run with no negative input show no negative returns. */
  lemma GrowingYears(yearly: seq<YearlyRecord>, initial: real, monthly: real, i: real, start: bool)
    requires initial >= 0.0 && monthly >= 0.0 && i >= 0.0
    requires forall y :: 0 <= y < |yearly| ==>
      && yearly[y].balance == BalanceAt(initial, monthly, i, start, 12 * (y + 1))
      && yearly[y].invested == Invested(monthly, initial, y + 1)
      && yearly[y].gain == yearly[y].balance - yearly[y].invested
    ensures NoLosses(yearly)
  {
    forall y | 0 <= y < |yearly|
      ensures yearly[y].gain >= 0.0
    {
      var m := 12 * (y + 1);
      BalanceAtLeastInvested(initial, monthly, i, start, m);
      assert (m as real) == ((y + 1) * 12) as real;
    }
  }

  /**
   * With no negative input, start-of-period contributions never leave a year
   * below end-of-period ones; with positive contributions the two agree
   * exactly when the rate is zero.
   */
  lemma StartNeverBelowEnd(monthly: real, annualRate: real, years: nat, initial: real)
    requires monthly >= 0.0 && annualRate >= 0.0 && initial >= 0.0
    ensures var s := Simulation(monthly, annualRate, years, true, initial).yearly;
      var e := Simulation(monthly, annualRate, years, false, initial).yearly;
      && |s| == |e| == years
      && (forall y :: 0 <= y < years ==> s[y].balance >= e[y].balance)
      && (annualRate == 0.0 ==> forall y :: 0 <= y < years ==> s[y].balance == e[y].balance)
      && (monthly > 0.0 ==> forall y :: 0 <= y < years ==> (s[y].balance == e[y].balance <==> annualRate == 0.0))
  {
    var s := Simulation(monthly, annualRate, years, true, initial).yearly;
    var e := Simulation(monthly, annualRate, years, false, initial).yearly;
    var i := MonthlyRate(annualRate);
    forall y | 0 <= y < years
      ensures s[y].balance >= e[y].balance
      ensures annualRate == 0.0 ==> s[y].balance == e[y].balance
      ensures monthly > 0.0 ==> (s[y].balance == e[y].balance <==> annualRate == 0.0)
    {
      StartAtLeastEnd(initial, monthly, i, 12 * (y + 1));
      if annualRate == 0.0 {
        ZeroRateClosedForm(initial, monthly, true, 12 * (y + 1));
        ZeroRateClosedForm(initial, monthly, false, 12 * (y + 1));
      }
      if monthly > 0.0 {
        StartEqualsEndIffZeroRate(initial, monthly, i, 12 * (y + 1));
      }
    }
  }
}
