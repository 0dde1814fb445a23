/** How the two versions of calculateCrossCorrelation relate. */
module Agreement {
  import opened Wrappers
  import opened Statistics
  import Modified
  import Index

  /**
   * Wherever index.js does not throw, both versions give the same coefficient
   * (two empty series included); where it throws, modified.js gives 0.
   */
  lemma VariantsAgree(sqrt: Root, series1: Option<Series>, series2: Option<Series>)
    ensures Index.StrictCorrelation(sqrt, series1, series2).Success? ==>
              Index.StrictCorrelation(sqrt, series1, series2).value
              == Modified.GuardedCorrelation(sqrt, series1, series2)
    ensures Index.StrictCorrelation(sqrt, series1, series2).Failure? ==>
              Modified.GuardedCorrelation(sqrt, series1, series2) == 0.0
  {
    if series1.Some? && series2.Some? && |series1.value| == |series2.value| == 0 {
      Index.EmptySeriesScoreZero(sqrt);
      assert series1.value == [] && series2.value == [];
    }
  }
}
