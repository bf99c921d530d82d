/**
 * The month-by-month compounding recurrence of a Systematic Investment Plan
 * (SIP): a fixed monthly contribution, a fixed annual rate compounded monthly,
 * and an initial lump sum. Money and rates are exact reals.
 */
module Compounding {

  /** The monthly periodic rate for an annual percentage (12.0 means 12%/year). */
  function MonthlyRate(annualRate: real): (i: real)
    ensures i * 1200.0 == annualRate
    ensures annualRate >= 0.0 <==> i >= 0.0
    ensures annualRate == 0.0 <==> i == 0.0
  {
    annualRate / 100.0 / 12.0
  }

  /** What one month's contribution is worth at the end of that month. */
  function Contribution(monthly: real, i: real, start: bool): real
  {
    if start then monthly * (1.0 + i) else monthly
  }

  /**
   * One month of the recurrence. With start-of-period timing the contribution
   * is added first and earns this month's interest; otherwise interest accrues
   * first and the contribution is added at the end of the month.
   */
  function Step(balance: real, monthly: real, i: real, start: bool): real
  {
    if start then (balance + monthly) * (1.0 + i)
    else balance * (1.0 + i) + monthly
  }

  /** Either timing is: grow the balance by one month, then add the contribution's end-of-month worth. */
  lemma StepAsGrowth(balance: real, monthly: real, i: real, start: bool)
    ensures Step(balance, monthly, i, start) == balance * (1.0 + i) + Contribution(monthly, i, start)
  {
  }

  /** The balance after `m` months, starting from `initial` before month 1. */
  function BalanceAt(initial: real, monthly: real, i: real, start: bool, m: nat): real
  {
    if m == 0 then initial
    else Step(BalanceAt(initial, monthly, i, start, m - 1), monthly, i, start)
  }

  /** x to the power n. */
  function Pow(x: real, n: nat): real
  {
    if n == 0 then 1.0 else x * Pow(x, n - 1)
  }

  /** 1 + g + g^2 + ... + g^(n-1): the growth factor of n unit contributions. */
  function GeometricSum(g: real, n: nat): real
  {
    if n == 0 then 0.0 else 1.0 + g * GeometricSum(g, n - 1)
  }

  /** The usual closed form of the geometric sum, (g^n - 1) / (g - 1), stated without division. */
  lemma {:induction false} GeometricSumClosedForm(g: real, n: nat)
    ensures GeometricSum(g, n) * (g - 1.0) == Pow(g, n) - 1.0
  {
    if n > 0 {
      GeometricSumClosedForm(g, n - 1);
      GeometricSumStep(g, GeometricSum(g, n - 1), Pow(g, n - 1));
    }
  }

  /** The algebra of one step of the geometric-sum closed form. */
  lemma GeometricSumStep(g: real, gs: real, pw: real)
    requires gs * (g - 1.0) == pw - 1.0
    ensures (1.0 + g * gs) * (g - 1.0) == g * pw - 1.0
  {
    assert (1.0 + g * gs) * (g - 1.0) == (g - 1.0) + g * (gs * (g - 1.0));
  }

  /**
   * Future value in closed form: the compounded lump sum plus the future value
   * of the annuity. Start-of-period contributions earn one extra month of
   * interest each, i.e. act as end-of-period contributions of monthly * (1 + i).
   */
  lemma {:induction false} BalanceClosedForm(initial: real, monthly: real, i: real, start: bool, m: nat)
    ensures BalanceAt(initial, monthly, i, start, m)
      == initial * Pow(1.0 + i, m) + Contribution(monthly, i, start) * GeometricSum(1.0 + i, m)
  {
    if m > 0 {
      BalanceClosedForm(initial, monthly, i, start, m - 1);
      var g := 1.0 + i;
      var c := Contribution(monthly, i, start);
      StepAsGrowth(BalanceAt(initial, monthly, i, start, m - 1), monthly, i, start);
      GrowOneMonth(initial, c, g, Pow(g, m - 1), GeometricSum(g, m - 1));
    }
  }

  /** The algebra of one step of the closed form. */
  lemma GrowOneMonth(initial: real, c: real, g: real, pw: real, gs: real)
    ensures (initial * pw + c * gs) * g + c == initial * (g * pw) + c * (1.0 + g * gs)
  {
  }

  /**
   * The future-value formula of an annuity, multiplied through by the rate i
   * so that it also holds at i = 0: i * balance = i * initial * g^m + c * (g^m - 1).
   */
  lemma {:induction false} AnnuityFormula(initial: real, monthly: real, i: real, start: bool, m: nat)
    ensures i * BalanceAt(initial, monthly, i, start, m)
      == i * initial * Pow(1.0 + i, m) + Contribution(monthly, i, start) * (Pow(1.0 + i, m) - 1.0)
  {
    BalanceClosedForm(initial, monthly, i, start, m);
    GeometricSumClosedForm(1.0 + i, m);
    AnnuityAlgebra(BalanceAt(initial, monthly, i, start, m), initial, Contribution(monthly, i, start), i,
      Pow(1.0 + i, m), GeometricSum(1.0 + i, m));
  }

  /** The algebra that turns the closed form into the annuity formula. */
  lemma AnnuityAlgebra(balance: real, initial: real, c: real, i: real, pw: real, gs: real)
    requires balance == initial * pw + c * gs
    requires gs * ((1.0 + i) - 1.0) == pw - 1.0
    ensures i * balance == i * initial * pw + c * (pw - 1.0)
  {
    assert gs * i == pw - 1.0;
    assert i * balance == i * initial * pw + c * (gs * i);
  }

  /** With no contributions, the balance is the lump sum compounded monthly. */
  lemma {:induction false} LumpSumClosedForm(initial: real, i: real, start: bool, m: nat)
    ensures BalanceAt(initial, 0.0, i, start, m) == initial * Pow(1.0 + i, m)
  {
    BalanceClosedForm(initial, 0.0, i, start, m);
    assert Contribution(0.0, i, start) == 0.0;
  }

  /** With a zero rate both timings reduce to the lump sum plus m contributions. */
  lemma {:induction false} ZeroRateClosedForm(initial: real, monthly: real, start: bool, m: nat)
    ensures BalanceAt(initial, monthly, 0.0, start, m) == initial + (m as real) * monthly
  {
    if m > 0 {
      ZeroRateClosedForm(initial, monthly, start, m - 1);
    }
  }

  /** With no negative input, one month adds at least the contribution. */
  lemma StepAtLeast(balance: real, monthly: real, i: real, start: bool)
    requires balance >= 0.0 && monthly >= 0.0 && i >= 0.0
    ensures Step(balance, monthly, i, start) >= balance + monthly
  {
    if start {
      MulMonotone(0.0, balance + monthly, 0.0, i);
      assert (balance + monthly) * (1.0 + i) == balance + monthly + (balance + monthly) * i;
    } else {
      MulMonotone(0.0, balance, 0.0, i);
      assert balance * (1.0 + i) == balance + balance * i;
    }
  }

  /**
   * With no negative input, the balance is never below what was put in,
   * and each month adds at least the contribution.
   */
  lemma {:induction false} BalanceAtLeastInvested(initial: real, monthly: real, i: real, start: bool, m: nat)
    requires initial >= 0.0 && monthly >= 0.0 && i >= 0.0
    ensures BalanceAt(initial, monthly, i, start, m) >= initial + (m as real) * monthly
    ensures BalanceAt(initial, monthly, i, start, m) >= initial
    ensures BalanceAt(initial, monthly, i, start, m + 1) >= BalanceAt(initial, monthly, i, start, m) + monthly
  {
    if m > 0 {
      BalanceAtLeastInvested(initial, monthly, i, start, m - 1);
      assert ((m - 1) as real) * monthly + monthly == (m as real) * monthly;
    }
    StepAtLeast(BalanceAt(initial, monthly, i, start, m), monthly, i, start);
  }

  /** With no negative input, the balance never decreases from one month to any later one. */
  lemma {:induction false} BalanceNonDecreasing(initial: real, monthly: real, i: real, start: bool, m1: nat, m2: nat)
    requires initial >= 0.0 && monthly >= 0.0 && i >= 0.0
    requires m1 <= m2
    ensures BalanceAt(initial, monthly, i, start, m1) <= BalanceAt(initial, monthly, i, start, m2)
  {
    if m1 < m2 {
      BalanceNonDecreasing(initial, monthly, i, start, m1, m2 - 1);
      BalanceAtLeastInvested(initial, monthly, i, start, m2 - 1);
    }
  }

  /**
   * One month of each timing from balances s >= e: the start-of-period
   * balance keeps its lead and gains one month's interest on the contribution.
   */
  lemma StartStepLead(s: real, e: real, monthly: real, i: real)
    requires 0.0 <= e <= s && monthly >= 0.0 && i >= 0.0
    ensures Step(s, monthly, i, true) - Step(e, monthly, i, false) >= (s - e) + monthly * i
    ensures i == 0.0 ==> Step(s, monthly, i, true) - Step(e, monthly, i, false) == s - e
  {
    MulMonotone(0.0, s - e, 0.0, i);
    assert Step(s, monthly, i, true) - Step(e, monthly, i, false) == (s - e) + (s - e) * i + monthly * i;
  }

  /** Start-of-period contributions never end below end-of-period ones. */
  lemma {:induction false} StartAtLeastEnd(initial: real, monthly: real, i: real, m: nat)
    requires initial >= 0.0 && monthly >= 0.0 && i >= 0.0
    ensures BalanceAt(initial, monthly, i, true, m) >= BalanceAt(initial, monthly, i, false, m)
  {
    if m > 0 {
      StartAtLeastEnd(initial, monthly, i, m - 1);
      BalanceAtLeastInvested(initial, monthly, i, false, m - 1);
      MulMonotone(0.0, monthly, 0.0, i);
      StartStepLead(BalanceAt(initial, monthly, i, true, m - 1), BalanceAt(initial, monthly, i, false, m - 1), monthly, i);
    }
  }

  /**
   * After at least one month of positive contributions, the two timings agree
   * exactly when the rate is zero: the start-of-period lead is at least one
   * month's interest on one contribution.
   */
  lemma {:induction false} StartEqualsEndIffZeroRate(initial: real, monthly: real, i: real, m: nat)
    requires initial >= 0.0 && monthly > 0.0 && i >= 0.0 && m >= 1
    ensures BalanceAt(initial, monthly, i, true, m) - BalanceAt(initial, monthly, i, false, m) >= monthly * i
    ensures BalanceAt(initial, monthly, i, true, m) == BalanceAt(initial, monthly, i, false, m) <==> i == 0.0
  {
    StartAtLeastEnd(initial, monthly, i, m - 1);
    BalanceAtLeastInvested(initial, monthly, i, false, m - 1);
    StartStepLead(BalanceAt(initial, monthly, i, true, m - 1), BalanceAt(initial, monthly, i, false, m - 1), monthly, i);
    if i == 0.0 {
      ZeroRateClosedForm(initial, monthly, true, m);
      ZeroRateClosedForm(initial, monthly, false, m);
    } else {
      MulPositive(monthly, i);
    }
  }

  /** One month from a larger balance at a higher rate never ends lower. */
  lemma RateStepMonotone(a: real, b: real, monthly: real, i: real, j: real, start: bool)
    requires 0.0 <= a <= b && monthly >= 0.0 && 0.0 <= i <= j
    ensures Step(a, monthly, i, start) <= Step(b, monthly, j, start)
  {
    if start {
      MulMonotone(a + monthly, b + monthly, 1.0 + i, 1.0 + j);
    } else {
      MulMonotone(a, b, 1.0 + i, 1.0 + j);
    }
  }

  /** With no negative input, a higher rate never yields a lower balance. */
  lemma {:induction false} BalanceGrowsWithRate(initial: real, monthly: real, i: real, j: real, start: bool, m: nat)
    requires initial >= 0.0 && monthly >= 0.0 && 0.0 <= i <= j
    ensures BalanceAt(initial, monthly, i, start, m) <= BalanceAt(initial, monthly, j, start, m)
  {
    if m > 0 {
      BalanceGrowsWithRate(initial, monthly, i, j, start, m - 1);
      BalanceAtLeastInvested(initial, monthly, i, start, m - 1);
      RateStepMonotone(BalanceAt(initial, monthly, i, start, m - 1), BalanceAt(initial, monthly, j, start, m - 1),
        monthly, i, j, start);
    }
  }

  /** Products of non-negative factors grow with each factor. */
  lemma MulMonotone(x: real, y: real, a: real, b: real)
    requires 0.0 <= x <= y && 0.0 <= a <= b
    ensures x * a <= y * b
  {
    assert x * a <= x * b;
  }

  /** The product of two positive numbers is positive. */
  lemma MulPositive(x: real, y: real)
    requires x > 0.0 && y > 0.0
    ensures x * y > 0.0
  {
  }
}
