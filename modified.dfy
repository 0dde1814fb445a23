/**
 * The revised script (modified.js): a correlation that degrades every
 * degenerate input to 0, and the greedy selector of at most five assets
 * that are pairwise uncorrelated.
 */
module Modified {
  import opened Wrappers
  import opened Statistics

  /** The selector stops once this many assets are selected. */
  const MaxSelected: nat := 5

  /** A candidate is accepted only below this absolute correlation with every selected asset. */
  const Threshold: real := 0.2

  // ---------------------------------------------------------------------------
  // calculateCrossCorrelation, the guarded variant

  /** Both series are present and non-empty, and their lengths agree. */
  predicate Comparable(series1: Option<Series>, series2: Option<Series>)
  {
    && series1.Some? && series2.Some?
    && |series1.value| > 0 && |series2.value| > 0
    && |series1.value| == |series2.value|
  }

  /** The correlation modified.js computes: 0 for every input it will not compare. */
  function GuardedCorrelation(sqrt: Root, series1: Option<Series>, series2: Option<Series>): real
  {
    if Comparable(series1, series2) then Pearson(sqrt, series1.value, series2.value) else 0.0
  }

  method CalculateCrossCorrelation(sqrt: Root, series1: Option<Series>, series2: Option<Series>)
    returns (r: real)
    ensures r == GuardedCorrelation(sqrt, series1, series2)
    ensures !Comparable(series1, series2) ==> r == 0.0
    ensures r == GuardedCorrelation(sqrt, series2, series1)
  {
    GuardedCorrelationSymmetric(sqrt, series1, series2);
    if series1.None? || series2.None? || |series1.value| == 0 || |series2.value| == 0
       || |series1.value| != |series2.value|
    {
      return 0.0;
    }
    var mean1 := Mean(series1.value);
    var mean2 := Mean(series2.value);
    var numerator, denom1, denom2 := Accumulate(series1.value, series2.value, mean1, mean2);
    if denom1 == 0.0 || denom2 == 0.0 {
      return 0.0;
    }
    PositiveProduct(denom1, denom2);
    r := numerator / sqrt(Mul(denom1, denom2));
  }

  /** Swapping the arguments gives the same value, for every input. */
  lemma GuardedCorrelationSymmetric(sqrt: Root, series1: Option<Series>, series2: Option<Series>)
    ensures GuardedCorrelation(sqrt, series1, series2) == GuardedCorrelation(sqrt, series2, series1)
  {
    if Comparable(series1, series2) {
      PearsonSymmetric(sqrt, series1.value, series2.value);
    }
  }

  /** A constant series is uncorrelated with any series, whichever side it is on. */
  lemma ConstantSeriesUncorrelated(sqrt: Root, x: Series, y: Option<Series>, c: real)
    requires forall i :: 0 <= i < |x| ==> x[i] == c
    ensures GuardedCorrelation(sqrt, Some(x), y) == 0.0
    ensures GuardedCorrelation(sqrt, y, Some(x)) == 0.0
  {
    if Comparable(Some(x), y) {
      PearsonConstant(sqrt, x, y.value, c);
    }
  }

  /** The zero-variance guard fires exactly for a constant comparable series. */
  lemma ZeroVarianceIsConstant(x: Series)
    requires |x| > 0
    ensures SqDev(x, Mean(x)) == 0.0 <==> forall i :: 0 <= i < |x| ==> x[i] == x[0]
  {
    SqDevZeroIff(x, Mean(x));
    if forall i :: 0 <= i < |x| ==> x[i] == x[0] {
      ConstantSeriesHasZeroVariance(x, x[0]);
    }
  }

  /** With a genuine square root the value is in [-1, 1], and a varying series has 1 with itself. */
  lemma GuardedCorrelationRange(sqrt: Root, series1: Option<Series>, series2: Option<Series>)
    requires IsSqrt(sqrt)
    ensures -1.0 <= GuardedCorrelation(sqrt, series1, series2) <= 1.0
    ensures series1 == series2 && Comparable(series1, series2)
            && SqDev(series1.value, Mean(series1.value)) != 0.0
            ==> GuardedCorrelation(sqrt, series1, series2) == 1.0
  {
    if Comparable(series1, series2) {
      PearsonBounded(sqrt, series1.value, series2.value);
      if series1 == series2 && SqDev(series1.value, Mean(series1.value)) != 0.0 {
        PearsonSelf(sqrt, series1.value);
      }
    }
  }

  /** The guarded correlation as a value the selector can be given. */
  function ModifiedCorrelation(sqrt: Root): (Option<Series>, Option<Series>) -> real
  {
    (s1: Option<Series>, s2: Option<Series>) => GuardedCorrelation(sqrt, s1, s2)
  }

  // ---------------------------------------------------------------------------
  // selectUncorrelatedAssets

  /** `historicalData[id]`: the series stored under an id, or undefined. */
  function Lookup(historicalData: map<AssetId, Series>, id: AssetId): Option<Series>
  {
    if id in historicalData then Some(historicalData[id]) else None
  }

  /** The `every` test: `current` is below the threshold against each selected asset. */
  predicate UncorrelatedWith(corr: (Option<Series>, Option<Series>) -> real,
                             historicalData: map<AssetId, Series>,
                             current: AssetId, selected: seq<AssetId>)
  {
    forall k :: 0 <= k < |selected| ==>
      Abs(corr(Lookup(historicalData, current), Lookup(historicalData, selected[k]))) < Threshold
  }

  /**
   * The selection the loop makes from state (`remaining`, `selected`): take
   * the head, keep it if it passes the test, until five are kept or none remain.
   */
  function Greedy(remaining: seq<AssetId>, selected: seq<AssetId>,
                  historicalData: map<AssetId, Series>,
                  corr: (Option<Series>, Option<Series>) -> real): seq<AssetId>
    decreases |remaining|
  {
    if |selected| >= MaxSelected || |remaining| == 0 then selected
    else
      var current := remaining[0];
      var next := if UncorrelatedWith(corr, historicalData, current, selected)
                  then selected + [current] else selected;
      Greedy(remaining[1..], next, historicalData, corr)
  }

  /** `s` is `t` with some elements left out, the rest kept in order. */
  predicate IsSubsequence<T(==)>(s: seq<T>, t: seq<T>)
    decreases |t|
  {
    if |s| == 0 then true
    else if |t| == 0 then false
    else (s[0] == t[0] && IsSubsequence(s[1..], t[1..])) || IsSubsequence(s, t[1..])
  }

  /** Every selected asset is below the threshold against every asset selected before it. */
  predicate MutuallyUncorrelated(corr: (Option<Series>, Option<Series>) -> real,
                                 historicalData: map<AssetId, Series>, selected: seq<AssetId>)
  {
    forall j :: 0 <= j < |selected| ==> UncorrelatedWith(corr, historicalData, selected[j], selected[..j])
  }

  /** Every two distinct selected assets are below the threshold, in either order. */
  predicate PairwiseUncorrelated(corr: (Option<Series>, Option<Series>) -> real,
                                 historicalData: map<AssetId, Series>, selected: seq<AssetId>)
  {
    forall a, b :: 0 <= a < |selected| && 0 <= b < |selected| && a != b ==>
      Abs(corr(Lookup(historicalData, selected[a]), Lookup(historicalData, selected[b]))) < Threshold
  }

  method SelectUncorrelatedAssets(cryptocurrencies: array<AssetId>,
                                  historicalData: map<AssetId, Series>,
                                  corr: (Option<Series>, Option<Series>) -> real)
    returns (selectedAssets: seq<AssetId>)
    ensures selectedAssets == Greedy(cryptocurrencies[..], [], historicalData, corr)
    ensures |selectedAssets| <= MaxSelected
    ensures IsSubsequence(selectedAssets, cryptocurrencies[..])
    ensures MutuallyUncorrelated(corr, historicalData, selectedAssets)
    ensures cryptocurrencies.Length > 0 ==> |selectedAssets| > 0 && selectedAssets[0] == cryptocurrencies[0]
  {
    selectedAssets := [];
    // The copy is what gets shifted; the caller's array is never written.
    var remainingCryptos := cryptocurrencies[..];
    while |selectedAssets| < MaxSelected && |remainingCryptos| > 0
      invariant Greedy(remainingCryptos, selectedAssets, historicalData, corr)
             == Greedy(cryptocurrencies[..], [], historicalData, corr)
      decreases |remainingCryptos|
    {
      var currentCrypto := remainingCryptos[0];
      remainingCryptos := remainingCryptos[1..];
      var isUncorrelated := UncorrelatedWith(corr, historicalData, currentCrypto, selectedAssets);
      if isUncorrelated {
        selectedAssets := selectedAssets + [currentCrypto];
      }
    }
    GreedyProperties(cryptocurrencies[..], historicalData, corr);
  }

  /** The properties of a selection from scratch, gathered for callers. */
  lemma GreedyProperties(candidates: seq<AssetId>, historicalData: map<AssetId, Series>,
                         corr: (Option<Series>, Option<Series>) -> real)
    ensures |Greedy(candidates, [], historicalData, corr)| <= MaxSelected
    ensures IsSubsequence(Greedy(candidates, [], historicalData, corr), candidates)
    ensures MutuallyUncorrelated(corr, historicalData, Greedy(candidates, [], historicalData, corr))
    ensures |candidates| > 0 ==> |Greedy(candidates, [], historicalData, corr)| > 0
                                 && Greedy(candidates, [], historicalData, corr)[0] == candidates[0]
  {
    GreedyBounded(candidates, [], historicalData, corr);
    GreedySubsequence(candidates, [], historicalData, corr);
    assert Greedy(candidates, [], historicalData, corr)[0..] == Greedy(candidates, [], historicalData, corr);
    GreedyMutuallyUncorrelated(candidates, [], historicalData, corr);
    if |candidates| > 0 {
      GreedyAcceptsFirst(candidates, historicalData, corr);
    }
  }

  /** Never more than five assets. */
  lemma {:induction false} GreedyBounded(remaining: seq<AssetId>, selected: seq<AssetId>,
                                         historicalData: map<AssetId, Series>,
                                         corr: (Option<Series>, Option<Series>) -> real)
    requires |selected| <= MaxSelected
    ensures |Greedy(remaining, selected, historicalData, corr)| <= MaxSelected
    decreases |remaining|
  {
    if |selected| < MaxSelected && |remaining| > 0 {
      var next := if UncorrelatedWith(corr, historicalData, remaining[0], selected)
                  then selected + [remaining[0]] else selected;
      GreedyBounded(remaining[1..], next, historicalData, corr);
    }
  }

  /** What is selected extends what was selected by an in-order subsequence of what remained. */
  lemma {:induction false} GreedySubsequence(remaining: seq<AssetId>, selected: seq<AssetId>,
                                             historicalData: map<AssetId, Series>,
                                             corr: (Option<Series>, Option<Series>) -> real)
    ensures selected <= Greedy(remaining, selected, historicalData, corr)
    ensures IsSubsequence(Greedy(remaining, selected, historicalData, corr)[|selected|..], remaining)
    decreases |remaining|
  {
    var result := Greedy(remaining, selected, historicalData, corr);
    if |selected| >= MaxSelected || |remaining| == 0 {
      assert result[|selected|..] == [];
    } else {
      var current := remaining[0];
      var accept := UncorrelatedWith(corr, historicalData, current, selected);
      var next := if accept then selected + [current] else selected;
      GreedySubsequence(remaining[1..], next, historicalData, corr);
      var tail := result[|next|..];
      assert IsSubsequence(tail, remaining[1..]);
      if accept {
        var added := result[|selected|..];
        assert added[0] == current && added[1..] == tail;
        assert IsSubsequence(added, remaining);
      } else {
        SubsequenceOfTail(tail, remaining);
      }
    }
  }

  lemma SubsequenceOfTail<T>(s: seq<T>, t: seq<T>)
    requires |t| > 0 && IsSubsequence(s, t[1..])
    ensures IsSubsequence(s, t)
  {
  }

  /** Acceptance keeps every selected asset below the threshold against its predecessors. */
  lemma {:induction false} GreedyMutuallyUncorrelated(remaining: seq<AssetId>, selected: seq<AssetId>,
                                                      historicalData: map<AssetId, Series>,
                                                      corr: (Option<Series>, Option<Series>) -> real)
    requires MutuallyUncorrelated(corr, historicalData, selected)
    ensures MutuallyUncorrelated(corr, historicalData, Greedy(remaining, selected, historicalData, corr))
    decreases |remaining|
  {
    if |selected| < MaxSelected && |remaining| > 0 {
      var current := remaining[0];
      if UncorrelatedWith(corr, historicalData, current, selected) {
        var next := selected + [current];
        forall j | 0 <= j < |next|
          ensures UncorrelatedWith(corr, historicalData, next[j], next[..j])
        {
          if j < |selected| {
            assert next[j] == selected[j] && next[..j] == selected[..j];
          } else {
            assert next[..j] == selected;
          }
        }
        GreedyMutuallyUncorrelated(remaining[1..], next, historicalData, corr);
      } else {
        GreedyMutuallyUncorrelated(remaining[1..], selected, historicalData, corr);
      }
    }
  }

  /** `every` over the empty selection holds, so the first candidate is always taken. */
  lemma GreedyAcceptsFirst(candidates: seq<AssetId>, historicalData: map<AssetId, Series>,
                           corr: (Option<Series>, Option<Series>) -> real)
    requires |candidates| > 0
    ensures |Greedy(candidates, [], historicalData, corr)| > 0
    ensures Greedy(candidates, [], historicalData, corr)[0] == candidates[0]
  {
    assert UncorrelatedWith(corr, historicalData, candidates[0], []);
    assert [] + [candidates[0]] == [candidates[0]];
    assert Greedy(candidates, [], historicalData, corr)
        == Greedy(candidates[1..], [candidates[0]], historicalData, corr);
    GreedySubsequence(candidates[1..], [candidates[0]], historicalData, corr);
  }

  /**
   * A candidate that is left out while fewer than five are selected conflicts
   * with some selected asset: no candidate is rejected without cause.
   */
  lemma {:induction false} GreedyRejectsOnlyCorrelated(remaining: seq<AssetId>, selected: seq<AssetId>,
                                                       historicalData: map<AssetId, Series>,
                                                       corr: (Option<Series>, Option<Series>) -> real)
    requires |selected| <= MaxSelected
    ensures var result := Greedy(remaining, selected, historicalData, corr);
            |result| < MaxSelected ==>
              forall k :: 0 <= k < |remaining| ==>
                remaining[k] in result || !UncorrelatedWith(corr, historicalData, remaining[k], result)
    decreases |remaining|
  {
    var result := Greedy(remaining, selected, historicalData, corr);
    if |selected| < MaxSelected && |remaining| > 0 {
      var current := remaining[0];
      var accept := UncorrelatedWith(corr, historicalData, current, selected);
      var next := if accept then selected + [current] else selected;
      GreedyRejectsOnlyCorrelated(remaining[1..], next, historicalData, corr);
      GreedySubsequence(remaining[1..], next, historicalData, corr);
      if |result| < MaxSelected {
        forall k | 0 <= k < |remaining|
          ensures remaining[k] in result || !UncorrelatedWith(corr, historicalData, remaining[k], result)
        {
          if k > 0 {
            assert remaining[k] == remaining[1..][k - 1];
          } else if accept {
            assert result[|selected|] == current;
          } else {
            ConflictPersists(corr, historicalData, current, selected, result);
          }
        }
      }
    }
  }

  /** A conflict with a prefix is a conflict with the whole sequence. */
  lemma ConflictPersists(corr: (Option<Series>, Option<Series>) -> real,
                         historicalData: map<AssetId, Series>,
                         current: AssetId, prefix: seq<AssetId>, whole: seq<AssetId>)
    requires prefix <= whole
    requires !UncorrelatedWith(corr, historicalData, current, prefix)
    ensures !UncorrelatedWith(corr, historicalData, current, whole)
  {
    var k :| 0 <= k < |prefix|
      && !(Abs(corr(Lookup(historicalData, current), Lookup(historicalData, prefix[k]))) < Threshold);
    assert whole[k] == prefix[k];
  }

  // ---------------------------------------------------------------------------
  // main: the fetched data is an array in fetch order, the selector reads it by id

  predicate IsDigit(c: char) { '0' <= c <= '9' }

  /** Only a string of decimal digits can name an array position. */
  predicate AllDigits(s: string) { forall k :: 0 <= k < |s| ==> IsDigit(s[k]) }

  function DigitChar(d: nat): char
    requires d < 10
  {
    "0123456789"[d]
  }

  /** The property key under which a JavaScript array stores position `i`. */
  function IndexKey(i: nat): (key: string)
    ensures |key| > 0 && (|key| > 1 ==> key[0] != '0')
    ensures AllDigits(key)
  {
    if i < 10 then [DigitChar(i)] else IndexKey(i / 10) + [DigitChar(i % 10)]
  }

  /** A position's key is its decimal numeral, so distinct positions have distinct keys. */
  lemma {:induction false} IndexKeyInjective(i: nat, j: nat)
    ensures IndexKey(i) == IndexKey(j) <==> i == j
  {
    if IndexKey(i) == IndexKey(j) {
      var ki, kj := IndexKey(i), IndexKey(j);
      if i < 10 && j < 10 {
        assert DigitChar(i) == ki[0] == DigitChar(j);
      } else if i >= 10 && j >= 10 {
        assert |IndexKey(i / 10)| == |ki| - 1 == |IndexKey(j / 10)|;
        assert ki[..|ki| - 1] == IndexKey(i / 10) && kj[..|kj| - 1] == IndexKey(j / 10);
        IndexKeyInjective(i / 10, j / 10);
        assert DigitChar(i % 10) == ki[|ki| - 1] == DigitChar(j % 10);
      }
    }
  }

  /** The array that `Promise.all` produces, seen as the object the selector indexes: only position keys are present. */
  function ArrayAsObject(historicalData: seq<Series>): (obj: map<AssetId, Series>)
    ensures forall key :: key in obj ==> AllDigits(key)
    ensures forall i :: 0 <= i < |historicalData| ==> IndexKey(i) in obj
  {
    if |historicalData| == 0 then map[]
    else
      var n := |historicalData| - 1;
      ArrayAsObject(historicalData[..n])[IndexKey(n) := historicalData[n]]
  }

  /** Position `i` of the array is found under its key. */
  lemma {:induction false} ArrayAsObjectLookup(historicalData: seq<Series>, i: nat)
    requires i < |historicalData|
    ensures Lookup(ArrayAsObject(historicalData), IndexKey(i)) == Some(historicalData[i])
    decreases |historicalData|
  {
    var n := |historicalData| - 1;
    if i < n {
      IndexKeyInjective(i, n);
      ArrayAsObjectLookup(historicalData[..n], i);
      assert historicalData[..n][i] == historicalData[i];
    }
  }

  /** The object the selector expects: each id mapped to the series fetched for it (a later duplicate wins). */
  function ById(ids: seq<AssetId>, historicalData: seq<Series>): (obj: map<AssetId, Series>)
    requires |ids| == |historicalData|
    ensures forall k :: 0 <= k < |ids| ==> ids[k] in obj
    ensures forall key :: key in obj ==> key in ids
  {
    if |ids| == 0 then map[]
    else
      var n := |ids| - 1;
      assert ids == ids[..n] + [ids[n]];
      ById(ids[..n], historicalData[..n])[ids[n] := historicalData[n]]
  }

  /** The id at its last position finds the series fetched at that position. */
  lemma {:induction false} ByIdLookup(ids: seq<AssetId>, historicalData: seq<Series>, i: nat)
    requires |ids| == |historicalData| && i < |ids|
    requires forall k :: i < k < |ids| ==> ids[k] != ids[i]
    ensures Lookup(ById(ids, historicalData), ids[i]) == Some(historicalData[i])
    decreases |ids|
  {
    var n := |ids| - 1;
    if i < n {
      assert ids[..n][i] == ids[i];
      ByIdLookup(ids[..n], historicalData[..n], i);
      assert historicalData[..n][i] == historicalData[i];
    }
  }

  /** The guarded correlation scores 0 whenever a side is undefined. */
  lemma UndefinedScoresZero(sqrt: Root)
    ensures forall y :: ModifiedCorrelation(sqrt)(None, y) == 0.0
  {
    forall y: Option<Series>
      ensures ModifiedCorrelation(sqrt)(None, y) == 0.0
    {
      assert !Comparable(None, y);
    }
  }

  /** One step of the loop that accepts the head. */
  lemma GreedyAccepts(remaining: seq<AssetId>, selected: seq<AssetId>,
                      historicalData: map<AssetId, Series>,
                      corr: (Option<Series>, Option<Series>) -> real)
    requires |selected| < MaxSelected && |remaining| > 0
    requires UncorrelatedWith(corr, historicalData, remaining[0], selected)
    ensures Greedy(remaining, selected, historicalData, corr)
         == Greedy(remaining[1..], selected + [remaining[0]], historicalData, corr)
  {
  }

  lemma SliceStep(selected: seq<AssetId>, remaining: seq<AssetId>, m: nat)
    requires 0 < m <= |remaining|
    ensures (selected + [remaining[0]]) + remaining[1..][..m - 1] == selected + remaining[..m]
  {
    assert remaining[1..][..m - 1] == remaining[1..m];
    assert remaining[..m] == [remaining[0]] + remaining[1..m];
  }

  /** Candidates without data are all taken, until five are selected. */
  lemma {:induction false} GreedyTakesUnknown(remaining: seq<AssetId>, selected: seq<AssetId>,
                                              historicalData: map<AssetId, Series>,
                                              corr: (Option<Series>, Option<Series>) -> real)
    requires forall y :: corr(None, y) == 0.0
    requires |selected| <= MaxSelected
    requires forall k :: 0 <= k < |remaining| ==> remaining[k] !in historicalData
    ensures Greedy(remaining, selected, historicalData, corr)
         == selected + remaining[..Min(MaxSelected - |selected|, |remaining|)]
    decreases |remaining|
  {
    var m := Min(MaxSelected - |selected|, |remaining|);
    if m == 0 {
      assert remaining[..m] == [];
    } else {
      var current := remaining[0];
      var next := selected + [current];
      assert UncorrelatedWith(corr, historicalData, current, selected) by {
        assert Lookup(historicalData, current) == None;
      }
      GreedyAccepts(remaining, selected, historicalData, corr);
      var rest := remaining[1..];
      GreedyTakesUnknown(rest, next, historicalData, corr);
      SliceStep(selected, remaining, m);
    }
  }

  /**
   * As written: no coin id is a digit string, so every lookup in the array
   * misses and the result is the first five ids whatever the prices are.
   */
  lemma AsWrittenSelectsPrefix(sqrt: Root, ids: seq<AssetId>, historicalData: seq<Series>)
    requires forall k :: 0 <= k < |ids| ==> !AllDigits(ids[k])
    ensures Greedy(ids, [], ArrayAsObject(historicalData), ModifiedCorrelation(sqrt))
         == ids[..Min(MaxSelected, |ids|)]
  {
    UndefinedScoresZero(sqrt);
    GreedyTakesUnknown(ids, [], ArrayAsObject(historicalData), ModifiedCorrelation(sqrt));
  }

  /** Two coins whose fetched prices are identical. */
  const ExampleIds: seq<AssetId> := ["bitcoin", "ethereum"]
  const ExamplePrices: seq<Series> := [[1.0, 2.0], [1.0, 2.0]]

  /** As written, both identical coins are selected. */
  lemma AsWrittenExample(sqrt: Root)
    ensures Greedy(ExampleIds, [], ArrayAsObject(ExamplePrices), ModifiedCorrelation(sqrt)) == ExampleIds
  {
    var ids := ExampleIds;
    assert !IsDigit(ids[0][0]) && !IsDigit(ids[1][0]);
    assert !AllDigits(ids[0]) && !AllDigits(ids[1]);
    AsWrittenSelectsPrefix(sqrt, ids, ExamplePrices);
    assert ids[..Min(MaxSelected, |ids|)] == ids;
  }

  /** Looked up by id, the second coin is perfectly correlated with the first and is rejected. */
  lemma ByIdExample(sqrt: Root)
    requires IsSqrt(sqrt)
    ensures Greedy(ExampleIds, [], ById(ExampleIds, ExamplePrices), ModifiedCorrelation(sqrt)) == ExampleIds[..1]
  {
    var ids, corr := ExampleIds, ModifiedCorrelation(sqrt);
    var data := ById(ids, ExamplePrices);
    var s: Series := [1.0, 2.0];
    ByIdLookup(ids, ExamplePrices, 0);
    ByIdLookup(ids, ExamplePrices, 1);
    assert Lookup(data, ids[0]) == Some(s) && Lookup(data, ids[1]) == Some(s);
    ZeroVarianceIsConstant(s);
    assert s[1] != s[0];
    GuardedCorrelationRange(sqrt, Some(s), Some(s));
    assert !UncorrelatedWith(corr, data, ids[1], [ids[0]]);
    assert Greedy(ids, [], data, corr) == Greedy(ids[1..], [ids[0]], data, corr);
    assert Greedy(ids[1..], [ids[0]], data, corr) == Greedy(ids[2..], [ids[0]], data, corr);
  }

  /** For the symmetric guarded correlation, testing against earlier picks bounds every pair. */
  lemma MutualIsPairwise(sqrt: Root, historicalData: map<AssetId, Series>, selected: seq<AssetId>)
    requires MutuallyUncorrelated(ModifiedCorrelation(sqrt), historicalData, selected)
    ensures PairwiseUncorrelated(ModifiedCorrelation(sqrt), historicalData, selected)
  {
    var corr := ModifiedCorrelation(sqrt);
    forall a, b | 0 <= a < |selected| && 0 <= b < |selected| && a != b
      ensures Abs(corr(Lookup(historicalData, selected[a]), Lookup(historicalData, selected[b]))) < Threshold
    {
      var x, y := Lookup(historicalData, selected[a]), Lookup(historicalData, selected[b]);
      if a < b {
        assert selected[..b][a] == selected[a];
        assert UncorrelatedWith(corr, historicalData, selected[b], selected[..b]);
        GuardedCorrelationSymmetric(sqrt, x, y);
      } else {
        assert selected[..a][b] == selected[b];
        assert UncorrelatedWith(corr, historicalData, selected[a], selected[..a]);
      }
    }
  }

  /** The selection main evidently means: the data keyed by coin id before it is handed over. */
  method SelectFromFetched(sqrt: Root, cryptocurrencies: array<AssetId>, historicalData: seq<Series>)
    returns (selectedAssets: seq<AssetId>)
    requires cryptocurrencies.Length == |historicalData|
    ensures selectedAssets == Greedy(cryptocurrencies[..], [], ById(cryptocurrencies[..], historicalData),
                                     ModifiedCorrelation(sqrt))
    ensures |selectedAssets| <= MaxSelected
    ensures IsSubsequence(selectedAssets, cryptocurrencies[..])
    ensures MutuallyUncorrelated(ModifiedCorrelation(sqrt), ById(cryptocurrencies[..], historicalData), selectedAssets)
    ensures PairwiseUncorrelated(ModifiedCorrelation(sqrt), ById(cryptocurrencies[..], historicalData), selectedAssets)
  {
    var byId := ById(cryptocurrencies[..], historicalData);
    selectedAssets := SelectUncorrelatedAssets(cryptocurrencies, byId, ModifiedCorrelation(sqrt));
    MutualIsPairwise(sqrt, byId, selectedAssets);
  }
}
