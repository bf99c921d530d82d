/**
 * The what-if comparison: the simulator run once per candidate annual rate,
 * with no initial lump sum, recording each run's final corpus.
 */
module WhatIf {
  import opened Compounding
  import opened Simulator

  /** The candidate annual rates, in percent. */
  const Rates: seq<int> := [12, 15, 18]

  /** One row of the comparison table. */
  datatype ComparisonRow = ComparisonRow(rate: int, finalCorpus: real)

  /**
   * The balance in the last row of the yearly frame of a run at `rate` percent
   * with no initial lump sum: the balance after the last of years * 12 months.
   */
  function FinalCorpus(monthly: real, rate: int, years: nat, start: bool): (c: real)
    requires years >= 1
    ensures c == BalanceAt(0.0, monthly, MonthlyRate(rate as real), start, 12 * years)
  {
    var yearly := Simulation(monthly, rate as real, years, start, 0.0).yearly;
    yearly[|yearly| - 1].balance
  }

  /**
   * Run the simulator for each candidate rate in turn and collect the final
   * corpus of each run. Under non-negative contributions the corpus never
   * falls as the rate rises.
   */
  method Compare(monthly: real, years: nat, start: bool) returns (comparison: seq<ComparisonRow>)
    requires years >= 1
    ensures |comparison| == |Rates|
    ensures forall k :: 0 <= k < |Rates| ==>
      comparison[k] == ComparisonRow(Rates[k], FinalCorpus(monthly, Rates[k], years, start))
    ensures monthly >= 0.0 ==>
      forall a, b :: 0 <= a < b < |comparison| ==> comparison[a].finalCorpus <= comparison[b].finalCorpus
  {
    comparison := [];
    for idx := 0 to |Rates|
      invariant |comparison| == idx
      invariant forall k :: 0 <= k < idx ==>
        comparison[k] == ComparisonRow(Rates[k], FinalCorpus(monthly, Rates[k], years, start))
    {
      var r := Rates[idx];
      var _, yearlyR := Simulate(monthly, r as real, years, start, 0.0);
      var finalVal := yearlyR[|yearlyR| - 1].balance;
      comparison := comparison + [ComparisonRow(r, finalVal)];
    }
    if monthly >= 0.0 {
      CorpusGrowsWithRate(monthly, years, start);
    }
  }

  /** With non-negative contributions, a later (higher) candidate rate never yields a smaller corpus. */
  lemma CorpusGrowsWithRate(monthly: real, years: nat, start: bool)
    requires years >= 1 && monthly >= 0.0
    ensures forall a, b :: 0 <= a < b < |Rates| ==>
      FinalCorpus(monthly, Rates[a], years, start) <= FinalCorpus(monthly, Rates[b], years, start)
  {
    forall a, b | 0 <= a < b < |Rates|
      ensures FinalCorpus(monthly, Rates[a], years, start) <= FinalCorpus(monthly, Rates[b], years, start)
    {
      BalanceGrowsWithRate(0.0, monthly, MonthlyRate(Rates[a] as real), MonthlyRate(Rates[b] as real), start, 12 * years);
    }
  }
}
