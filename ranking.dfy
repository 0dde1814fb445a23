/**
 * The ranking step of index.js: the matrix is sorted in place by the
 * comparator `(a, b) => |b.correlation| - |a.correlation|`, strongest first,
 * and its first 46 records are kept.
 *
 * The built-in sort is stable and the comparator is consistent, so its
 * outcome is fixed: the strongest record first, records of equal strength in
 * their matrix order. `SortedByStrength` defines that outcome by insertion
 * from the end, and `SortInPlace` computes it on the array.
 */
module Ranking {
  import opened Wrappers
  import opened Statistics
  import opened Index

  /** The comparator's key: the absolute correlation. */
  function Strength(p: PairRecord): real
  {
    Abs(p.correlation)
  }

  /** Strongest first. */
  predicate NonIncreasing(s: seq<PairRecord>)
  {
    forall a, b :: 0 <= a < b < |s| ==> Strength(s[a]) >= Strength(s[b])
  }

  /** The records of one strength, in their order: what a stable sort keeps in place. */
  function OfStrength(s: seq<PairRecord>, v: real): seq<PairRecord>
  {
    if |s| == 0 then []
    else OfStrength(s[..|s| - 1], v) + (if Strength(s[|s| - 1]) == v then [s[|s| - 1]] else [])
  }

  /** `x` placed after every record of `t` at least as strong as itself, scanning from the end. */
  function InsertLast(t: seq<PairRecord>, x: PairRecord): seq<PairRecord>
  {
    if |t| == 0 || Strength(t[|t| - 1]) >= Strength(x) then t + [x]
    else InsertLast(t[..|t| - 1], x) + [t[|t| - 1]]
  }

  /** The outcome of the stable sort of `s` by the comparator. */
  function SortedByStrength(s: seq<PairRecord>): seq<PairRecord>
  {
    if |s| == 0 then [] else InsertLast(SortedByStrength(s[..|s| - 1]), s[|s| - 1])
  }

  // ---------------------------------------------------------------------------
  // The three properties of the sort

  lemma {:induction false} InsertLastPermutes(t: seq<PairRecord>, x: PairRecord)
    ensures multiset(InsertLast(t, x)) == multiset(t) + multiset{x}
  {
    if |t| > 0 && Strength(t[|t| - 1]) < Strength(x) {
      var init, last := t[..|t| - 1], t[|t| - 1];
      InsertLastPermutes(init, x);
      assert t == init + [last];
    }
  }

  lemma {:induction false} InsertLastOrdered(t: seq<PairRecord>, x: PairRecord)
    requires NonIncreasing(t)
    ensures NonIncreasing(InsertLast(t, x))
  {
    if |t| > 0 && Strength(t[|t| - 1]) < Strength(x) {
      var init, last := t[..|t| - 1], t[|t| - 1];
      var u := InsertLast(init, x);
      InsertLastOrdered(init, x);
      InsertLastPermutes(init, x);
      forall k | 0 <= k < |u|
        ensures Strength(u[k]) >= Strength(last)
      {
        assert u[k] in multiset(u);
        if u[k] != x {
          assert u[k] in multiset(init);
          var m :| 0 <= m < |init| && init[m] == u[k];
          assert t[m] == u[k];
        }
      }
      assert InsertLast(t, x) == u + [last];
    }
  }

  lemma OfStrengthAppend(s: seq<PairRecord>, y: PairRecord, v: real)
    ensures OfStrength(s + [y], v) == OfStrength(s, v) + (if Strength(y) == v then [y] else [])
  {
    assert (s + [y])[..|s|] == s;
  }

  lemma {:induction false} InsertLastStable(t: seq<PairRecord>, x: PairRecord, v: real)
    ensures OfStrength(InsertLast(t, x), v) == OfStrength(t, v) + (if Strength(x) == v then [x] else [])
  {
    if |t| == 0 || Strength(t[|t| - 1]) >= Strength(x) {
      OfStrengthAppend(t, x, v);
    } else {
      var init, last := t[..|t| - 1], t[|t| - 1];
      InsertLastStable(init, x, v);
      OfStrengthAppend(InsertLast(init, x), last, v);
    }
  }

  /** The sort permutes the matrix. */
  lemma {:induction false} SortedPermutes(s: seq<PairRecord>)
    ensures multiset(SortedByStrength(s)) == multiset(s)
  {
    if |s| > 0 {
      var init := s[..|s| - 1];
      SortedPermutes(init);
      InsertLastPermutes(SortedByStrength(init), s[|s| - 1]);
      assert s == init + [s[|s| - 1]];
    }
  }

  /** The sort puts the strongest record first. */
  lemma {:induction false} SortedOrdered(s: seq<PairRecord>)
    ensures NonIncreasing(SortedByStrength(s))
  {
    if |s| > 0 {
      SortedOrdered(s[..|s| - 1]);
      InsertLastOrdered(SortedByStrength(s[..|s| - 1]), s[|s| - 1]);
    }
  }

  /** The sort keeps records of equal strength in their matrix order. */
  lemma {:induction false} SortedStable(s: seq<PairRecord>, v: real)
    ensures OfStrength(SortedByStrength(s), v) == OfStrength(s, v)
  {
    if |s| > 0 {
      SortedStable(s[..|s| - 1], v);
      InsertLastStable(SortedByStrength(s[..|s| - 1]), s[|s| - 1], v);
    }
  }

  /** The sort changes no length. */
  lemma SortedLength(s: seq<PairRecord>)
    ensures |SortedByStrength(s)| == |s|
  {
    SortedPermutes(s);
    assert |multiset(SortedByStrength(s))| == |multiset(s)|;
  }

  // ---------------------------------------------------------------------------
  // The in-place sort

  /** Inserting `x` at `j`, after the records at least as strong and before the weaker ones, is `InsertLast`. */
  lemma {:induction false} InsertLastAt(t: seq<PairRecord>, x: PairRecord, j: nat)
    requires j <= |t|
    requires j == 0 || Strength(t[j - 1]) >= Strength(x)
    requires forall k :: j <= k < |t| ==> Strength(t[k]) < Strength(x)
    ensures InsertLast(t, x) == t[..j] + [x] + t[j..]
  {
    if j < |t| {
      var init, last := t[..|t| - 1], t[|t| - 1];
      assert Strength(last) < Strength(x);
      assert j == 0 || init[j - 1] == t[j - 1];
      assert forall k :: j <= k < |init| ==> init[k] == t[k];
      InsertLastAt(init, x, j);
      calc {
        InsertLast(t, x);
        InsertLast(init, x) + [last];
        init[..j] + [x] + init[j..] + [last];
        { assert t[..j] == init[..j]; assert t[j..] == init[j..] + [last]; }
        t[..j] + [x] + t[j..];
      }
    }
  }

  /** Copying position j - 1 up to j moves the gap of the insertion down by one. */
  lemma ShiftStep(b: seq<PairRecord>, t: seq<PairRecord>, rest: seq<PairRecord>, j: nat, i: nat)
    requires 0 < j <= i < |b| && |t| == i
    requires b[..j] == t[..j] && b[j + 1..i + 1] == t[j..] && b[i + 1..] == rest
    ensures b[j := b[j - 1]][..j - 1] == t[..j - 1]
    ensures b[j := b[j - 1]][j..i + 1] == t[j - 1..]
    ensures b[j := b[j - 1]][i + 1..] == rest
  {
    var c := b[j := b[j - 1]];
    assert c[j..i + 1] == [t[j - 1]] + t[j..];
  }

  /** Writing `x` into the gap at j gives the prefix with `x` inserted at j. */
  lemma Place(b: seq<PairRecord>, t: seq<PairRecord>, rest: seq<PairRecord>, x: PairRecord, j: nat, i: nat)
    requires j <= i < |b| && |t| == i
    requires b[..j] == t[..j] && b[j + 1..i + 1] == t[j..] && b[i + 1..] == rest
    ensures b[j := x][..i + 1] == t[..j] + [x] + t[j..]
    ensures b[j := x][i + 1..] == rest
  {
    var c := b[j := x];
    assert c[..i + 1] == c[..j] + [x] + c[j + 1..i + 1];
  }

  /** One step of the sort: `a[i]` moves down past the weaker records of the sorted `a[..i]`. */
  method InsertInPlace(a: array<PairRecord>, i: nat)
    requires i < a.Length
    modifies a
    ensures a[..i + 1] == InsertLast(old(a[..i]), old(a[i]))
    ensures a[i + 1..] == old(a[i + 1..])
  {
    ghost var t := a[..i];
    ghost var rest := a[i + 1..];
    var x := a[i];
    var j := i;
    while j > 0 && Strength(a[j - 1]) < Strength(x)
      invariant 0 <= j <= i
      invariant a[..j] == t[..j]
      invariant a[j + 1..i + 1] == t[j..]
      invariant a[i + 1..] == rest
      invariant forall k :: j <= k < i ==> Strength(t[k]) < Strength(x)
    {
      ghost var b := a[..];
      assert a[j - 1] == t[j - 1];
      a[j] := a[j - 1];
      assert a[..] == b[j := b[j - 1]];
      ShiftStep(b, t, rest, j, i);
      j := j - 1;
    }
    ghost var b := a[..];
    a[j] := x;
    assert a[..] == b[j := x];
    Place(b, t, rest, x, j, i);
    InsertLastAt(t, x, j);
  }

  /** Sorts the records in place, strongest first, keeping equal strengths in order. */
  method SortInPlace(a: array<PairRecord>)
    modifies a
    ensures a[..] == SortedByStrength(old(a[..]))
  {
    ghost var original := a[..];
    for i := 0 to a.Length
      invariant a[..i] == SortedByStrength(original[..i])
      invariant a[i..] == original[i..]
    {
      assert a[i] == original[i];
      InsertInPlace(a, i);
      assert original[..i + 1][..i] == original[..i];
    }
    assert original[..a.Length] == original;
  }

  // ---------------------------------------------------------------------------
  // The top of the ranking

  /** How many pairs are reported. */
  const TopCount: nat := 46

  /**
   * `slice(0, 46)` of the sorted matrix: its first min(46, n) records, none
   * weaker than a record left out.
   */
  function TopPairs(sorted: seq<PairRecord>): (selectedPairs: seq<PairRecord>)
    ensures |selectedPairs| == Min(TopCount, |sorted|)
    ensures selectedPairs == sorted[..|selectedPairs|]
    ensures NonIncreasing(sorted) ==>
              forall a, b :: 0 <= a < |selectedPairs| <= b < |sorted| ==>
                Strength(selectedPairs[a]) >= Strength(sorted[b])
  {
    sorted[..Min(TopCount, |sorted|)]
  }

  /**
   * The ranking block of index.js: the matrix sorted in place and its top 46
   * pairs; the selection is drawn from the matrix and dominates what is left.
   */
  method RankPairs(crossCorrelationMatrix: seq<PairRecord>)
    returns (sorted: seq<PairRecord>, selectedPairs: seq<PairRecord>)
    ensures sorted == SortedByStrength(crossCorrelationMatrix)
    ensures |sorted| == |crossCorrelationMatrix|
    ensures multiset(sorted) == multiset(crossCorrelationMatrix) && NonIncreasing(sorted)
    ensures |selectedPairs| == Min(TopCount, |crossCorrelationMatrix|)
    ensures selectedPairs == sorted[..|selectedPairs|]
    ensures forall r :: r in selectedPairs ==> r in crossCorrelationMatrix
    ensures forall a, b :: 0 <= a < |selectedPairs| <= b < |sorted| ==>
              Strength(selectedPairs[a]) >= Strength(sorted[b])
  {
    var a := new PairRecord[|crossCorrelationMatrix|](k requires 0 <= k < |crossCorrelationMatrix| =>
                                                       crossCorrelationMatrix[k]);
    assert a[..] == crossCorrelationMatrix;
    SortInPlace(a);
    sorted := a[..];
    SortedPermutes(crossCorrelationMatrix);
    SortedOrdered(crossCorrelationMatrix);
    SortedLength(crossCorrelationMatrix);
    selectedPairs := TopPairs(sorted);
    forall r | r in selectedPairs
      ensures r in crossCorrelationMatrix
    {
      assert r in multiset(sorted);
    }
  }

  /** The whole of the index.js analysis: the matrix of every pair, ranked, and its top 46. */
  method Analyse(sqrt: Root, cryptocurrencies: seq<AssetId>, historicalData: seq<Option<Series>>)
    returns (crossCorrelationMatrix: seq<PairRecord>, selectedPairs: seq<PairRecord>)
    ensures multiset(crossCorrelationMatrix)
            == multiset(Matrix(StrictCorrelationOf(sqrt), cryptocurrencies, historicalData))
    ensures crossCorrelationMatrix == SortedByStrength(Matrix(StrictCorrelationOf(sqrt), cryptocurrencies, historicalData))
    ensures NonIncreasing(crossCorrelationMatrix)
    ensures selectedPairs == TopPairs(crossCorrelationMatrix)
  {
    var matrix := BuildMatrix(sqrt, cryptocurrencies, historicalData);
    crossCorrelationMatrix, selectedPairs := RankPairs(matrix);
  }
}
