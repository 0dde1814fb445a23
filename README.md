# Crypto-asset diversification: correlation, greedy selection, pair ranking

This project models the analytical core of two versions of a script that
chooses crypto assets for a diversified portfolio. Both versions start from
one price series per coin, fetched over the same time window for a list of
mid-cap coins, and compare the series position by position.

- `index.js`, the original version, computes the Pearson correlation of every
  unordered pair of coins. Its `calculateCrossCorrelation` throws on series of
  unequal length. The matrix builder catches the throw and skips that pair. It
  sorts the matrix by absolute correlation, strongest first, and reports the
  first 46 pairs.
- `modified.js`, the revised version, guards `calculateCrossCorrelation` so
  that every degenerate input gives 0: an absent series, an empty one,
  unequal lengths, or zero variance. It then picks assets greedily: one pass
  over the coin list, accepting a coin only if its absolute correlation with
  every coin already accepted is below 0.2, and stopping at five.

The Dafny modules follow that structure:

| module | file | contents |
|---|---|---|
| `Wrappers` | `wrappers.dfy` | `Option` (a JavaScript `undefined`/`null`) and `Result` (a value or a thrown error) |
| `Statistics` | `statistics.dfy` | sum, mean, deviation products, the accumulation loop both versions share, the guarded Pearson coefficient and its properties (symmetry, the range [-1, 1], self-correlation 1, Cauchy–Schwarz) |
| `Modified` | `modified.dfy` | the guarded correlation, the greedy selector, and what `main` hands the selector |
| `Index` | `index.dfy` | the throwing correlation, the pair enumeration of the nested loops, and the matrix builder |
| `Ranking` | `ranking.dfy` | the stable in-place sort by strength and the top-46 slice |
| `Agreement` | `agreement.dfy` | how the two correlation functions relate |

Arithmetic is over `real`. `Math.sqrt` is a parameter `sqrt` of type
`Root`, a function that is positive on positive arguments, so the final
division is defined. The facts that need a true square root (the range
[-1, 1], self-correlation 1) require `IsSqrt(sqrt)`: the result is
non-negative and squares back to its argument. Symmetry and the guards need
no such fact.

Where the code and its comments disagree, the model follows the code.

- The selector's docstring and `main`'s log line say 46 assets; the loop stops at 5 (`modified.js:84`).
- The comment above the slice says "least absolute correlation"; the comparator puts the strongest first, so the slice keeps the 46 most strongly correlated pairs (`index.js:122-127`).
- The ranking sorts the matrix array in place (`index.js:122-124`). It is modelled as a method on an `array` that rewrites it; it is not a pure function of the matrix.
- index.js accepts two empty series: their lengths are equal, its loop never runs, and both squared deviations are 0, so the result is 0 (`Index.EmptySeriesScoreZero`).

`Ranking.SortedByStrength` defines the sort's outcome as an insertion from the end. The built-in sort is stable and the comparator `|b| - |a|` is consistent, so any stable sort gives this outcome. `Ranking.SortInPlace` is an insertion sort on the array that computes it.

## Model

| member | source | states |
|---|---|---|
| Statistics.MeanScales | modified.js:19-21 | the mean of an empty series is 0 rather than NaN; otherwise the mean times the length is the sum |
| Statistics.Accumulate | modified.js:46-57 | the single loop leaves the cross-deviation sum in `numerator` and the two squared-deviation sums, both non-negative, in `denom1` and `denom2` |
| Statistics.CrossDevSymmetric | modified.js:54 | swapping the series, and their means, leaves the numerator unchanged |
| Statistics.SqDevZeroIff | modified.js:55-60 | a squared-deviation sum is 0 exactly when every element equals the mean |
| Statistics.ConstantSeriesHasZeroVariance | modified.js:55-60 | a non-empty constant series has that constant as its mean and squared deviation 0 |
| Statistics.CauchySchwarz | modified.js:51-57 | the square of the numerator is at most the product of the two denominators |
| Statistics.PearsonSymmetric | modified.js:51-64 | the coefficient is the same with the arguments swapped: the numerator is symmetric and the denominators swap inside a commutative product |
| Statistics.PearsonConstant | modified.js:60-62 | a constant series gives 0 against any series of its length, on either side |
| Statistics.PearsonSelf | modified.js:64 | with a true square root, a series with nonzero variance has coefficient 1 with itself |
| Statistics.PearsonBounded | modified.js:64 | with a true square root the coefficient lies in [-1, 1] |
| Statistics.CoefficientOne | modified.js:60-64 | with a true square root, d / sqrt(d·d) is 1 for d > 0 |
| Statistics.CoefficientBounded | modified.js:60-64 | the guarded division lies in [-1, 1] whenever numerator² ≤ denom1·denom2 |
| Modified.CalculateCrossCorrelation | modified.js:32-65 | the loop-based computation returns the guarded coefficient; it is 0 for an absent, empty or length-mismatched input, and the same with the arguments swapped |
| Modified.GuardedCorrelationSymmetric | modified.js:34-64 | swapping the two series never changes the result, including the degenerate cases |
| Modified.ConstantSeriesUncorrelated | modified.js:60-62 | a constant series scores 0 against anything, on either side |
| Modified.ZeroVarianceIsConstant | modified.js:55-61 | for a non-empty series the zero-variance guard fires exactly when the series is constant |
| Modified.GuardedCorrelationRange | modified.js:60-64 | with a true square root the result is in [-1, 1], and a varying, comparable series scores 1 with itself |
| Modified.SelectUncorrelatedAssets | modified.js:77-107 | the shift/test/push loop over a copy returns the greedy selection; it holds at most 5 ids, is an order-preserving subsequence of the input, is pairwise below the threshold, and starts with the first candidate; the caller's array is not modified |
| Modified.GreedyProperties | modified.js:77-107 | a selection from scratch is bounded by 5, a subsequence of the candidates, mutually uncorrelated, and starts with the first candidate |
| Modified.GreedyBounded | modified.js:84 | the selection never exceeds 5 ids |
| Modified.GreedySubsequence | modified.js:81-101 | the selection is the ids selected so far followed by a subsequence of the remaining candidates, in order |
| Modified.GreedyMutuallyUncorrelated | modified.js:89-101 | each selected id is below 0.2 in absolute correlation with every id selected before it |
| Modified.GreedyAcceptsFirst | modified.js:89 | `every` over the empty selection is true, so the first candidate is always selected |
| Modified.GreedyRejectsOnlyCorrelated | modified.js:84-102 | when fewer than 5 are selected, every candidate left out conflicts with some selected id |
| Modified.ConflictPersists | modified.js:89-97 | a candidate that conflicts with a prefix of the selection conflicts with the whole selection |
| Modified.IndexKey | modified.js:145-152 | the property key of an array position is a non-empty digit string with no leading zero |
| Modified.IndexKeyInjective | modified.js:145-152 | a position's key is its decimal numeral: two positions have the same key exactly when they are equal |
| Modified.ArrayAsObject | modified.js:145-152 | the array from `Promise.all`, indexed as an object, has only digit-string keys, and every position's key is present |
| Modified.ArrayAsObjectLookup | modified.js:145-152 | looking up a position's key in the array-as-object finds the series fetched at that position |
| Modified.ById | modified.js:161-164 | the id-keyed data the selector expects holds every coin id and nothing else |
| Modified.ByIdLookup | modified.js:91-93 | looking up an id in the id-keyed data finds the series fetched at that id's last position |
| Modified.UndefinedScoresZero | modified.js:34-40 | an undefined series scores 0 against anything |
| Modified.GreedyTakesUnknown | modified.js:84-102 | candidates with no data all pass the test, so the first ones are taken until five are selected (the proof step `Modified.GreedyAccepts` unfolds one accepting iteration) |
| Modified.AsWrittenSelectsPrefix | modified.js:161-164 | as `main` calls it, with the positional array, the selection is the first min(5, n) coins whatever their prices |
| Modified.AsWrittenExample | modified.js:161-164 | as written, two coins with identical prices are both selected |
| Modified.ByIdExample | modified.js:89-101 | with the data keyed by id, the second of two identical, varying coins is rejected |
| Modified.MutualIsPairwise | modified.js:89-101 | with the symmetric guarded correlation, testing each pick against the earlier ones puts every two distinct selected assets below 0.2, in either order |
| Modified.SelectFromFetched | modified.js:145-164 | `main` with the fetched series keyed by coin id: the greedy selection over those series, bounded by 5, an order-preserving subsequence, and every two distinct selected coins below 0.2 in either order |
| Index.CalculateCrossCorrelation | index.js:22-47 | the loop-based computation returns the strict result: an error for an absent series or unequal lengths, otherwise the guarded coefficient |
| Index.StrictCorrelationOutcome | index.js:23-25 | the computation throws exactly when a series is absent or the lengths differ, and the outcome is symmetric in its arguments |
| Index.StrictCorrelationBounded | index.js:46 | with a true square root a computed coefficient lies in [-1, 1] |
| Index.EmptySeriesScoreZero | index.js:34-44 | two empty series do not throw: the loop never runs and the zero-variance guard gives 0 |
| Index.LabelParts | index.js:112 | the label is the first id, a colon, then the second id |
| Index.LabelInjective | index.js:112 | for ids without a colon, equal labels mean equal pairs of ids |
| Index.RowPairsShape | index.js:105 | the inner loop visits (i, lo), (i, lo + 1), …, (i, hi − 1) in order |
| Index.PairsUpToBounds | index.js:104-105 | every pair of the first i rows has its first index below i and below its second, which is below n |
| Index.PairsUpToOrdered | index.js:104-105 | the rows appear by first index, then by second: no pair is visited twice |
| Index.PairsUpToComplete | index.js:104-105 | every pair a < b < n with a < i is visited in the first i rows |
| Index.PairsUpToCount | index.js:104-105 | the first i rows hold i(2n − i − 1)/2 pairs |
| Index.AllPairsShape | index.js:104-105 | the loops visit exactly the pairs a < b < n, each once, in loop order, n(n − 1)/2 of them |
| Index.Entry | index.js:106-117 | a pair contributes at most one record, as one try/catch push does (the proof step `Index.EntryAt` unfolds it for a pair in range) |
| Index.EntryMembers | index.js:106-117 | a record comes from pair (i, j) exactly when the computation for i, j succeeds with its value and its label is `ids[i]:ids[j]` |
| Index.PushRow | index.js:105-118 | the inner loop appends the records of row i in order, skipping pairs that throw |
| Index.BuildMatrix | index.js:103-119 | the nested loops build exactly the matrix of every pair i < j in loop order, without the pairs that throw |
| Index.MatrixPairSound | index.js:103-119 | every record of the matrix comes from some pair i < j < n |
| Index.MatrixPairComplete | index.js:103-119 | every record produced by a pair i < j < n is in the matrix |
| Index.MatrixMembers | index.js:103-119 | a record is in the matrix exactly when some pair i < j succeeds with its value under its label |
| Index.MatrixOnePerPair | index.js:103-119 | when every pair produces one record, the matrix lists them in loop order |
| Index.MatrixComplete | index.js:103-119 | when every series is present and all have one length, nothing is skipped (the proof step `Index.EntryComparable` gives each such pair's record): n(n − 1)/2 records, the k-th being the label and coefficient of the k-th pair in loop order |
| Ranking.InsertLastPermutes | index.js:122-124 | one insertion adds exactly the inserted record |
| Ranking.InsertLastOrdered | index.js:122-124 | inserting into a list ordered strongest first keeps it ordered |
| Ranking.InsertLastStable | index.js:122-124 | an insertion places the record after every record of its strength |
| Ranking.SortedPermutes | index.js:122-124 | the sorted list is a permutation of the matrix |
| Ranking.SortedOrdered | index.js:122-124 | the sorted list is non-increasing in absolute correlation |
| Ranking.SortedStable | index.js:122-124 | records of equal absolute correlation keep their matrix order |
| Ranking.SortedLength | index.js:122-124 | sorting keeps the length |
| Ranking.InsertLastAt | index.js:122-124 | putting a record after the stronger-or-equal records and before the weaker ones is the insertion |
| Ranking.InsertInPlace | index.js:122-124 | one step of the in-place sort inserts `a[i]` into the sorted prefix and leaves the rest of the array alone |
| Ranking.SortInPlace | index.js:122-124 | the array is rewritten in place to the stable sort of its old contents, strongest first |
| Ranking.TopPairs | index.js:127 | `slice(0, 46)` keeps the first min(46, n) records, and on a sorted list none of them is weaker than a record left out |
| Ranking.RankPairs | index.js:122-127 | the matrix, sorted in place, is an ordered permutation; the selection is its first min(46, n) records, drawn from the matrix and at least as strong as every record left out |
| Ranking.Analyse | index.js:103-127 | the whole index.js analysis: the sorted matrix is a permutation of the matrix of every pair that did not throw, ordered strongest first, and the report is its top 46 |
| Agreement.VariantsAgree | index.js:22-47 | wherever index.js does not throw, both versions give the same coefficient; where it throws, modified.js gives 0 |

## Left out

- Fetching (`fetchHistoricalData`, `getCryptocurrencies`): HTTP calls to a market-data service. Their results are parameters. Each series is a `Series`; index.js models a failed download (`null`) as `None`, and modified.js's `[]` fallback is an empty series.
- The market-cap filter and the id projection in `getCryptocurrencies`: they depend on the response shape of the service. The coin list is a parameter.
- Request pacing (`delay` inside `Promise.all`), writing `data.json`, and every console message: these are scheduling and output, not logic.
- Floating point: arithmetic is over `real`. IEEE rounding, NaN and infinities are not modelled. Neither is the NaN mean index.js computes for an empty series, which the model never reads because the loop that uses it does not run.
- `Math.sqrt` is a parameter, not a computation. Results that need a true square root require `IsSqrt`.
- JavaScript's TypeError on `null.length` in index.js is modelled only as the pair being skipped (`MissingSeries`), not as the exception's mechanics.
- Modified.ArrayAsObject: it holds only the position keys of the array. Inherited properties such as `length` are not modelled; a coin id of that name does not occur in practice.
- The order of the built-in sort's comparisons: only the outcome of a stable sort with this comparator is modelled, by an insertion sort.
- The inner loop of the matrix builder is a method of its own (`Index.PushRow`), called once per row by `Index.BuildMatrix`; its statements, their order and the state they change are those of the source.
- Labels of positions past the end of the id list use the text `undefined`, as template interpolation would; the loops never reach such positions.

## Findings

| source | as written | input that shows it | evidently intended | confidence | as-written member | corrected member |
|---|---|---|---|---|---|---|
| modified.js:145-164 | `main` passes the array that `Promise.all` returns, indexed by position, while the selector reads `historicalData[currentCrypto]` by coin id (modified.js:91-93). Every lookup is `undefined`, every correlation is 0, and the selection is the first five coins whatever their prices | coins `bitcoin` and `ethereum` with identical prices `[1, 2]`: both are selected although their correlation is 1 | the series keyed by coin id, so that the 0.2 threshold applies to the fetched prices | high, not executed | Modified.AsWrittenSelectsPrefix | Modified.SelectFromFetched |
