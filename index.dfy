/**
 * The original script (index.js): a correlation that throws on unequal
 * lengths, and the matrix of correlations of every unordered pair of coins,
 * built by two nested loops that skip a pair whose computation throws.
 */
module Index {
  import opened Wrappers
  import opened Statistics

  /** Why a pair is skipped: a series that failed to download (`null`), or unequal lengths. */
  datatype CorrelationError = MissingSeries | LengthMismatch

  /** One entry of the matrix: the pair's label `id1:id2` and its coefficient. */
  datatype PairRecord = PairRecord(pair: string, correlation: real)

  // ---------------------------------------------------------------------------
  // calculateCrossCorrelation, the strict variant

  /** The correlation index.js computes, or the error it throws. */
  function StrictCorrelation(sqrt: Root, series1: Option<Series>, series2: Option<Series>)
    : Result<real, CorrelationError>
  {
    if series1.None? || series2.None? then Failure(MissingSeries)
    else if |series1.value| != |series2.value| then Failure(LengthMismatch)
    else Success(Pearson(sqrt, series1.value, series2.value))
  }

  method CalculateCrossCorrelation(sqrt: Root, series1: Option<Series>, series2: Option<Series>)
    returns (r: Result<real, CorrelationError>)
    ensures r == StrictCorrelation(sqrt, series1, series2)
  {
    // Reading `.length` of a failed download throws before the comparison.
    if series1.None? || series2.None? {
      return Failure(MissingSeries);
    }
    if |series1.value| != |series2.value| {
      return Failure(LengthMismatch);
    }
    var mean1 := Mean(series1.value);
    var mean2 := Mean(series2.value);
    var numerator, denom1, denom2 := Accumulate(series1.value, series2.value, mean1, mean2);
    if denom1 == 0.0 || denom2 == 0.0 {
      return Success(0.0);
    }
    PositiveProduct(denom1, denom2);
    r := Success(numerator / sqrt(Mul(denom1, denom2)));
  }

  /** The computation fails exactly on a missing series or unequal lengths, and is then symmetric. */
  lemma StrictCorrelationOutcome(sqrt: Root, series1: Option<Series>, series2: Option<Series>)
    ensures StrictCorrelation(sqrt, series1, series2).Failure?
            <==> series1.None? || series2.None? || |series1.value| != |series2.value|
    ensures StrictCorrelation(sqrt, series1, series2) == StrictCorrelation(sqrt, series2, series1)
  {
    if series1.Some? && series2.Some? && |series1.value| == |series2.value| {
      PearsonSymmetric(sqrt, series1.value, series2.value);
    }
  }

  /** With a genuine square root, a computed coefficient lies in [-1, 1]. */
  lemma StrictCorrelationBounded(sqrt: Root, series1: Option<Series>, series2: Option<Series>)
    requires IsSqrt(sqrt)
    requires StrictCorrelation(sqrt, series1, series2).Success?
    ensures -1.0 <= StrictCorrelation(sqrt, series1, series2).value <= 1.0
  {
    PearsonBounded(sqrt, series1.value, series2.value);
  }

  /** Two empty downloads have equal lengths: the result is 0, not an error. */
  lemma EmptySeriesScoreZero(sqrt: Root)
    ensures StrictCorrelation(sqrt, Some([]), Some([])) == Success(0.0)
  {
    SqDevNonNegative([], Mean([]));
  }

  /** A correlation computation that may throw. */
  type Correlation = (Option<Series>, Option<Series>) -> Result<real, CorrelationError>

  /** The strict correlation as a value the matrix functions can be given. */
  function StrictCorrelationOf(sqrt: Root): Correlation
  {
    (s1: Option<Series>, s2: Option<Series>) => StrictCorrelation(sqrt, s1, s2)
  }

  // ---------------------------------------------------------------------------
  // The pair enumeration of the nested loops

  /** The positions (i, j) of two coins. */
  type Pair = (nat, nat)

  /** `historicalData[i]`: the series at a position, or undefined past the end. */
  function At(historicalData: seq<Option<Series>>, i: nat): Option<Series>
  {
    if i < |historicalData| then historicalData[i] else None
  }

  /** The matrix label of a pair: `${id1}:${id2}`. */
  function Label(id1: AssetId, id2: AssetId): string
  {
    id1 + ":" + id2
  }

  /** The label is the first id, a colon, then the second id. */
  lemma LabelParts(id1: AssetId, id2: AssetId)
    ensures |Label(id1, id2)| == |id1| + 1 + |id2|
    ensures Label(id1, id2)[..|id1|] == id1 && Label(id1, id2)[|id1|] == ':'
    ensures Label(id1, id2)[|id1| + 1..] == id2
  {
  }

  /** Ids without a colon can be read back from the label: distinct pairs get distinct labels. */
  lemma LabelInjective(a: AssetId, b: AssetId, c: AssetId, d: AssetId)
    requires ':' !in a && ':' !in c
    requires Label(a, b) == Label(c, d)
    ensures a == c && b == d
  {
    LabelParts(a, b);
    LabelParts(c, d);
    if |a| < |c| {
      assert false;
    } else if |c| < |a| {
      assert false;
    }
  }

  /** The inner loop for one `i`: the pairs (i, j) for `lo <= j < hi`, in order. */
  function RowPairs(i: nat, lo: nat, hi: nat): seq<Pair>
    decreases hi - lo
  {
    if hi <= lo then [] else RowPairs(i, lo, hi - 1) + [(i, hi - 1)]
  }

  /** Row `i` holds (i, lo), (i, lo + 1), ..., (i, hi - 1). */
  lemma {:induction false} RowPairsShape(i: nat, lo: nat, hi: nat)
    ensures |RowPairs(i, lo, hi)| == if hi <= lo then 0 else hi - lo
    ensures forall k :: 0 <= k < |RowPairs(i, lo, hi)| ==> RowPairs(i, lo, hi)[k] == (i, lo + k)
    decreases hi - lo
  {
    if lo < hi {
      RowPairsShape(i, lo, hi - 1);
    }
  }

  /** The pairs the loops visit for the rows before `i`: each has a first index below `i` and below its second, below `n`. */
  function PairsUpTo(n: nat, i: nat): seq<Pair>
  {
    if i == 0 then [] else PairsUpTo(n, i - 1) + RowPairs(i - 1, i, n)
  }

  /** Each pair of the rows before `i` has a first index below `i` and below its second, below `n`. */
  lemma {:induction false} PairsUpToBounds(n: nat, i: nat)
    ensures forall k :: 0 <= k < |PairsUpTo(n, i)| ==>
              PairsUpTo(n, i)[k].0 < i && PairsUpTo(n, i)[k].0 < PairsUpTo(n, i)[k].1 < n
  {
    if i > 0 {
      var prev, row := PairsUpTo(n, i - 1), RowPairs(i - 1, i, n);
      PairsUpToBounds(n, i - 1);
      RowPairsShape(i - 1, i, n);
      var ps := PairsUpTo(n, i);
      assert ps == prev + row;
      forall k | 0 <= k < |ps|
        ensures ps[k].0 < i && ps[k].0 < ps[k].1 < n
      {
        if k >= |prev| {
          assert ps[k] == row[k - |prev|];
        } else {
          assert ps[k] == prev[k];
        }
      }
    }
  }

  /** Every pair the loops visit over `n` coins. */
  function AllPairs(n: nat): seq<Pair>
  {
    PairsUpTo(n, n)
  }

  /** The loop order: by first index, then by second. */
  predicate Before(p: Pair, q: Pair)
  {
    p.0 < q.0 || (p.0 == q.0 && p.1 < q.1)
  }

  predicate StrictlyOrdered(ps: seq<Pair>)
  {
    forall a, b :: 0 <= a < b < |ps| ==> Before(ps[a], ps[b])
  }

  lemma OrderedConcat(xs: seq<Pair>, ys: seq<Pair>)
    requires StrictlyOrdered(xs) && StrictlyOrdered(ys)
    requires forall a, b :: 0 <= a < |xs| && 0 <= b < |ys| ==> Before(xs[a], ys[b])
    ensures StrictlyOrdered(xs + ys)
  {
    forall a, b | 0 <= a < b < |xs + ys|
      ensures Before((xs + ys)[a], (xs + ys)[b])
    {
      if b < |xs| {
      } else if a < |xs| {
        assert Before(xs[a], ys[b - |xs|]);
      } else {
        assert Before(ys[a - |xs|], ys[b - |xs|]);
      }
    }
  }

  /** The rows are visited in loop order, so no pair is visited twice. */
  lemma {:induction false} PairsUpToOrdered(n: nat, i: nat)
    ensures StrictlyOrdered(PairsUpTo(n, i))
  {
    if i > 0 {
      var prev, row := PairsUpTo(n, i - 1), RowPairs(i - 1, i, n);
      PairsUpToOrdered(n, i - 1);
      PairsUpToBounds(n, i - 1);
      RowPairsShape(i - 1, i, n);
      assert StrictlyOrdered(row) by {
        forall a, b | 0 <= a < b < |row| ensures Before(row[a], row[b]) {
          assert row[a] == (i - 1, i + a) && row[b] == (i - 1, i + b);
        }
      }
      forall a, b | 0 <= a < |prev| && 0 <= b < |row|
        ensures Before(prev[a], row[b])
      {
        assert row[b].0 == i - 1;
      }
      OrderedConcat(prev, row);
    }
  }

  /** Every pair a < b < n with a < i is visited by the rows before `i`. */
  lemma {:induction false} PairsUpToComplete(n: nat, i: nat)
    ensures forall a: nat, b: nat :: a < i && a < b < n ==> (a, b) in PairsUpTo(n, i)
  {
    if i > 0 {
      var prev, row := PairsUpTo(n, i - 1), RowPairs(i - 1, i, n);
      PairsUpToComplete(n, i - 1);
      RowPairsShape(i - 1, i, n);
      var ps := PairsUpTo(n, i);
      assert ps == prev + row;
      forall a: nat, b: nat | a < i && a < b < n
        ensures (a, b) in ps
      {
        if a < i - 1 {
          assert (a, b) in prev;
        } else {
          assert row[b - i] == (a, b);
          assert ps[|prev| + b - i] == (a, b);
        }
      }
    }
  }

  /** The rows before `i` hold i * (2n - i - 1) / 2 pairs. */
  lemma {:induction false} PairsUpToCount(n: nat, i: nat)
    requires i <= n
    ensures |PairsUpTo(n, i)| * 2 == i * (2 * n - i - 1)
  {
    if i > 0 {
      PairsUpToCount(n, i - 1);
      RowPairsShape(i - 1, i, n);
      RowCount(n, i);
    }
  }

  /** The count after one more row: (i - 1)(2n - i) + 2(n - i) == i(2n - i - 1). */
  lemma RowCount(n: nat, i: nat)
    requires 0 < i <= n
    ensures (i - 1) * (2 * n - (i - 1) - 1) + 2 * (n - i) == i * (2 * n - i - 1)
  {
  }

  /** The loops visit exactly the n(n-1)/2 unordered pairs i < j < n, each once, in loop order. */
  lemma AllPairsShape(n: nat)
    ensures StrictlyOrdered(AllPairs(n))
    ensures forall a: nat, b: nat :: (a, b) in AllPairs(n) <==> a < b < n
    ensures |AllPairs(n)| * 2 == n * (n - 1)
  {
    PairsUpToOrdered(n, n);
    PairsUpToComplete(n, n);
    PairsUpToCount(n, n);
    PairsUpToBounds(n, n);
    forall a: nat, b: nat | (a, b) in AllPairs(n)
      ensures a < b < n
    {
      var k :| 0 <= k < |AllPairs(n)| && AllPairs(n)[k] == (a, b);
    }
  }

  // ---------------------------------------------------------------------------
  // The matrix

  /** `${cryptocurrencies[i]}`: the id at a position, or the text of `undefined` past the end. */
  function IdAt(cryptocurrencies: seq<AssetId>, i: nat): AssetId
  {
    if i < |cryptocurrencies| then cryptocurrencies[i] else "undefined"
  }

  /** What one pair contributes: its record, or nothing when the computation throws. */
  function Entry(corr: Correlation, cryptocurrencies: seq<AssetId>, historicalData: seq<Option<Series>>,
                 p: Pair): (entry: seq<PairRecord>)
    ensures |entry| <= 1
  {
    match corr(At(historicalData, p.0), At(historicalData, p.1))
    case Success(correlation) =>
      [PairRecord(Label(IdAt(cryptocurrencies, p.0), IdAt(cryptocurrencies, p.1)), correlation)]
    case Failure(_) => []
  }

  /** The pair-to-record step as a value. */
  function EntryOf(corr: Correlation, cryptocurrencies: seq<AssetId>, historicalData: seq<Option<Series>>)
    : Pair -> seq<PairRecord>
  {
    p => Entry(corr, cryptocurrencies, historicalData, p)
  }

  /** The records of a sequence of pairs, in order. */
  function FlatMap(f: Pair -> seq<PairRecord>, ps: seq<Pair>): seq<PairRecord>
  {
    if |ps| == 0 then [] else FlatMap(f, ps[..|ps| - 1]) + f(ps[|ps| - 1])
  }

  lemma FlatMapAppend(f: Pair -> seq<PairRecord>, ps: seq<Pair>, p: Pair)
    ensures FlatMap(f, ps + [p]) == FlatMap(f, ps) + f(p)
  {
    assert (ps + [p])[..|ps|] == ps;
  }

  lemma {:induction false} FlatMapConcat(f: Pair -> seq<PairRecord>, xs: seq<Pair>, ys: seq<Pair>)
    ensures FlatMap(f, xs + ys) == FlatMap(f, xs) + FlatMap(f, ys)
    decreases |ys|
  {
    if |ys| == 0 {
      assert xs + ys == xs;
    } else {
      var init, last := ys[..|ys| - 1], ys[|ys| - 1];
      FlatMapConcat(f, xs, init);
      assert xs + ys == (xs + init) + [last];
      FlatMapAppend(f, xs + init, last);
    }
  }

  /** A record is collected exactly when some pair of the sequence contributes it. */
  lemma {:induction false} FlatMapMembers(f: Pair -> seq<PairRecord>, ps: seq<Pair>, r: PairRecord)
    ensures r in FlatMap(f, ps) <==> exists k :: 0 <= k < |ps| && r in f(ps[k])
  {
    if |ps| > 0 {
      var init := ps[..|ps| - 1];
      FlatMapMembers(f, init, r);
      if r in FlatMap(f, init) {
        var k :| 0 <= k < |init| && r in f(init[k]);
        assert ps[k] == init[k];
      }
      if exists k :: 0 <= k < |ps| && r in f(ps[k]) {
        var k :| 0 <= k < |ps| && r in f(ps[k]);
        if k < |init| {
          assert init[k] == ps[k];
        }
      }
    }
  }

  /** When every pair contributes one record, the records are those of the pairs, in order. */
  lemma {:induction false} FlatMapComplete(f: Pair -> seq<PairRecord>, ps: seq<Pair>)
    requires forall k :: 0 <= k < |ps| ==> |f(ps[k])| == 1
    ensures |FlatMap(f, ps)| == |ps|
    ensures forall k :: 0 <= k < |ps| ==> FlatMap(f, ps)[k] == f(ps[k])[0]
  {
    if |ps| > 0 {
      var init := ps[..|ps| - 1];
      FlatMapComplete(f, init);
      forall k | 0 <= k < |ps|
        ensures FlatMap(f, ps)[k] == f(ps[k])[0]
      {
        if k < |init| {
          assert init[k] == ps[k];
        }
      }
    }
  }

  /** The records the inner loop pushes for row `i` with the second index below `j`. */
  function RowEntries(f: Pair -> seq<PairRecord>, i: nat, j: nat): seq<PairRecord>
  {
    if j <= i + 1 then [] else RowEntries(f, i, j - 1) + f((i, j - 1))
  }

  /** The records the outer loop pushes for the rows before `i`, over `n` coins. */
  function MatrixUpTo(f: Pair -> seq<PairRecord>, n: nat, i: nat): seq<PairRecord>
  {
    if i == 0 then [] else MatrixUpTo(f, n, i - 1) + RowEntries(f, i - 1, n)
  }

  /** The matrix the nested loops push. */
  function Matrix(corr: Correlation, cryptocurrencies: seq<AssetId>, historicalData: seq<Option<Series>>)
    : seq<PairRecord>
  {
    MatrixUpTo(EntryOf(corr, cryptocurrencies, historicalData), |cryptocurrencies|, |cryptocurrencies|)
  }

  /** Pushing the entry of (i, j) after the row's earlier entries extends the row by one. */
  lemma RowStep(f: Pair -> seq<PairRecord>, i: nat, j: nat,
                matrix: seq<PairRecord>, before: seq<PairRecord>, after: seq<PairRecord>)
    requires i < j
    requires before == matrix + RowEntries(f, i, j)
    requires after == before + f((i, j))
    ensures after == matrix + RowEntries(f, i, j + 1)
  {
    assert RowEntries(f, i, j + 1) == RowEntries(f, i, j) + f((i, j));
  }


  /** The entry of a pair i < j, from the outcome of its correlation. */
  lemma EntryAt(corr: Correlation, cryptocurrencies: seq<AssetId>, historicalData: seq<Option<Series>>,
                i: nat, j: nat, correlation: Result<real, CorrelationError>)
    requires i < j < |cryptocurrencies|
    requires corr(At(historicalData, i), At(historicalData, j)) == correlation
    ensures EntryOf(corr, cryptocurrencies, historicalData)((i, j))
            == if correlation.Success?
               then [PairRecord(Label(cryptocurrencies[i], cryptocurrencies[j]), correlation.value)]
               else []
  {
  }

  /** The inner loop for row `i`: pushes the records of (i, i + 1), ..., (i, n - 1), skipping pairs that throw. */
  method PushRow(sqrt: Root, cryptocurrencies: seq<AssetId>, historicalData: seq<Option<Series>>,
                 i: nat, matrix: seq<PairRecord>)
    returns (crossCorrelationMatrix: seq<PairRecord>)
    requires i < |cryptocurrencies|
    ensures crossCorrelationMatrix
            == matrix + RowEntries(EntryOf(StrictCorrelationOf(sqrt), cryptocurrencies, historicalData), i, |cryptocurrencies|)
  {
    ghost var f := EntryOf(StrictCorrelationOf(sqrt), cryptocurrencies, historicalData);
    crossCorrelationMatrix := matrix;
    for j := i + 1 to |cryptocurrencies|
      invariant crossCorrelationMatrix == matrix + RowEntries(f, i, j)
    {
      var correlation := CalculateCrossCorrelation(sqrt, At(historicalData, i), At(historicalData, j));
      ghost var before := crossCorrelationMatrix;
      if correlation.Success? {
        crossCorrelationMatrix := crossCorrelationMatrix
          + [PairRecord(Label(cryptocurrencies[i], cryptocurrencies[j]), correlation.value)];
      }
      // A computation that throws is caught and its pair skipped.
      EntryAt(StrictCorrelationOf(sqrt), cryptocurrencies, historicalData, i, j, correlation);
      RowStep(f, i, j, matrix, before, crossCorrelationMatrix);
    }
  }

  /** The outer loop of the matrix builder: the rows in order, so every pair i < j in loop order. */
  method BuildMatrix(sqrt: Root, cryptocurrencies: seq<AssetId>, historicalData: seq<Option<Series>>)
    returns (crossCorrelationMatrix: seq<PairRecord>)
    ensures crossCorrelationMatrix == Matrix(StrictCorrelationOf(sqrt), cryptocurrencies, historicalData)
  {
    ghost var f := EntryOf(StrictCorrelationOf(sqrt), cryptocurrencies, historicalData);
    var n := |cryptocurrencies|;
    crossCorrelationMatrix := [];
    for i := 0 to n
      invariant crossCorrelationMatrix == MatrixUpTo(f, n, i)
    {
      crossCorrelationMatrix := PushRow(sqrt, cryptocurrencies, historicalData, i, crossCorrelationMatrix);
    }
  }

  /** The loops push the records of the pairs in loop order. */
  lemma {:induction false} RowEntriesFlat(f: Pair -> seq<PairRecord>, i: nat, j: nat)
    ensures RowEntries(f, i, j) == FlatMap(f, RowPairs(i, i + 1, j))
    decreases j
  {
    if j > i + 1 {
      RowEntriesFlat(f, i, j - 1);
      FlatMapAppend(f, RowPairs(i, i + 1, j - 1), (i, j - 1));
    }
  }

  lemma {:induction false} MatrixUpToFlat(f: Pair -> seq<PairRecord>, n: nat, i: nat)
    ensures MatrixUpTo(f, n, i) == FlatMap(f, PairsUpTo(n, i))
  {
    if i > 0 {
      var prev, row := PairsUpTo(n, i - 1), RowPairs(i - 1, i, n);
      calc {
        MatrixUpTo(f, n, i);
        MatrixUpTo(f, n, i - 1) + RowEntries(f, i - 1, n);
        { MatrixUpToFlat(f, n, i - 1); RowEntriesFlat(f, i - 1, n); }
        FlatMap(f, prev) + FlatMap(f, row);
        { FlatMapConcat(f, prev, row); }
        FlatMap(f, prev + row);
      }
    }
  }

  /** A record is pushed by the loops over `n` coins exactly when some pair i < j < n contributes it. */
  lemma MatrixPairSound(f: Pair -> seq<PairRecord>, n: nat, r: PairRecord)
    requires r in MatrixUpTo(f, n, n)
    ensures exists i: nat, j: nat :: i < j < n && r in f((i, j))
  {
    var ps := AllPairs(n);
    MatrixUpToFlat(f, n, n);
    FlatMapMembers(f, ps, r);
    PairsUpToBounds(n, n);
    var k :| 0 <= k < |ps| && r in f(ps[k]);
    var i, j := ps[k].0, ps[k].1;
    assert ps[k] == (i, j);
  }

  lemma MatrixPairComplete(f: Pair -> seq<PairRecord>, n: nat, i: nat, j: nat, r: PairRecord)
    requires i < j < n && r in f((i, j))
    ensures r in MatrixUpTo(f, n, n)
  {
    var ps := AllPairs(n);
    MatrixUpToFlat(f, n, n);
    PairsUpToComplete(n, n);
    assert (i, j) in ps;
    var k :| 0 <= k < |ps| && ps[k] == (i, j);
    FlatMapMembers(f, ps, r);
  }

  /** What a pair i < j contributes: its label with its coefficient, when the correlation did not throw. */
  lemma EntryMembers(corr: Correlation, cryptocurrencies: seq<AssetId>, historicalData: seq<Option<Series>>,
                     i: nat, j: nat, r: PairRecord)
    requires i < j < |cryptocurrencies|
    ensures r in Entry(corr, cryptocurrencies, historicalData, (i, j))
            <==> corr(At(historicalData, i), At(historicalData, j)) == Success(r.correlation)
                 && r.pair == Label(cryptocurrencies[i], cryptocurrencies[j])
  {
  }

  /**
   * The matrix holds a record exactly when it is the label and coefficient of
   * a pair i < j whose correlation did not throw.
   */
  lemma MatrixMembers(corr: Correlation, cryptocurrencies: seq<AssetId>, historicalData: seq<Option<Series>>,
                      r: PairRecord)
    ensures r in Matrix(corr, cryptocurrencies, historicalData)
            <==> exists i: nat, j: nat :: i < j < |cryptocurrencies|
                   && corr(At(historicalData, i), At(historicalData, j)) == Success(r.correlation)
                   && r.pair == Label(cryptocurrencies[i], cryptocurrencies[j])
  {
    var n, f := |cryptocurrencies|, EntryOf(corr, cryptocurrencies, historicalData);
    if r in Matrix(corr, cryptocurrencies, historicalData) {
      MatrixPairSound(f, n, r);
      var i: nat, j: nat :| i < j < n && r in f((i, j));
      EntryMembers(corr, cryptocurrencies, historicalData, i, j, r);
    }
    if exists i: nat, j: nat :: i < j < n
         && corr(At(historicalData, i), At(historicalData, j)) == Success(r.correlation)
         && r.pair == Label(cryptocurrencies[i], cryptocurrencies[j])
    {
      var i: nat, j: nat :| i < j < n
         && corr(At(historicalData, i), At(historicalData, j)) == Success(r.correlation)
         && r.pair == Label(cryptocurrencies[i], cryptocurrencies[j]);
      EntryMembers(corr, cryptocurrencies, historicalData, i, j, r);
      MatrixPairComplete(f, n, i, j, r);
    }
  }

  /** All downloads present and of one length: nothing is skipped. */
  predicate AllComparable(historicalData: seq<Option<Series>>)
  {
    forall i, j :: 0 <= i < |historicalData| && 0 <= j < |historicalData| ==>
      historicalData[i].Some? && historicalData[j].Some?
      && |historicalData[i].value| == |historicalData[j].value|
  }

  /** When every pair contributes one record, the loops push those records in loop order. */
  lemma MatrixOnePerPair(f: Pair -> seq<PairRecord>, n: nat)
    requires forall k :: 0 <= k < |AllPairs(n)| ==> |f(AllPairs(n)[k])| == 1
    ensures |MatrixUpTo(f, n, n)| == |AllPairs(n)|
    ensures forall k :: 0 <= k < |AllPairs(n)| ==> MatrixUpTo(f, n, n)[k] == f(AllPairs(n)[k])[0]
  {
    MatrixUpToFlat(f, n, n);
    FlatMapComplete(f, AllPairs(n));
  }

  /** A pair of present, equally long downloads contributes its label and its Pearson coefficient. */
  lemma EntryComparable(sqrt: Root, cryptocurrencies: seq<AssetId>, historicalData: seq<Option<Series>>,
                        i: nat, j: nat)
    requires |historicalData| == |cryptocurrencies| && AllComparable(historicalData)
    requires i < j < |cryptocurrencies|
    ensures Entry(StrictCorrelationOf(sqrt), cryptocurrencies, historicalData, (i, j))
            == [PairRecord(Label(cryptocurrencies[i], cryptocurrencies[j]),
                           Pearson(sqrt, historicalData[i].value, historicalData[j].value))]
  {
    assert historicalData[i].Some? && historicalData[j].Some?
           && |historicalData[i].value| == |historicalData[j].value|;
  }

  /**
   * When every download is present and equally long, nothing is skipped: the
   * matrix has n(n-1)/2 records, the k-th being the coefficient of the k-th
   * pair of the loop order.
   */
  lemma MatrixComplete(sqrt: Root, cryptocurrencies: seq<AssetId>, historicalData: seq<Option<Series>>)
    requires |historicalData| == |cryptocurrencies| && AllComparable(historicalData)
    ensures |Matrix(StrictCorrelationOf(sqrt), cryptocurrencies, historicalData)| == |AllPairs(|cryptocurrencies|)|
    ensures |Matrix(StrictCorrelationOf(sqrt), cryptocurrencies, historicalData)| * 2
            == |cryptocurrencies| * (|cryptocurrencies| - 1)
    ensures forall k :: 0 <= k < |AllPairs(|cryptocurrencies|)| ==>
              var (i, j) := AllPairs(|cryptocurrencies|)[k];
              i < j < |cryptocurrencies|
              && Matrix(StrictCorrelationOf(sqrt), cryptocurrencies, historicalData)[k]
                 == PairRecord(Label(cryptocurrencies[i], cryptocurrencies[j]),
                               Pearson(sqrt, historicalData[i].value, historicalData[j].value))
  {
    var n := |cryptocurrencies|;
    var f := EntryOf(StrictCorrelationOf(sqrt), cryptocurrencies, historicalData);
    var ps := AllPairs(n);
    AllPairsShape(n);
    PairsUpToBounds(n, n);
    forall k | 0 <= k < |ps|
      ensures f(ps[k]) == [PairRecord(Label(cryptocurrencies[ps[k].0], cryptocurrencies[ps[k].1]),
                                      Pearson(sqrt, historicalData[ps[k].0].value, historicalData[ps[k].1].value))]
    {
      EntryComparable(sqrt, cryptocurrencies, historicalData, ps[k].0, ps[k].1);
    }
    MatrixOnePerPair(f, n);
  }
}
