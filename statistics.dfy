/**
 * Column statistics: `mean`, `median` and `standardDeviation`, each over one
 * column of the loaded table.
 */
module Statistics {
  import opened Frame
  import opened Order

  /** The running `sum` of the loops, added up from the first cell onwards. */
  function Sum(s: seq<real>): real {
    if s == [] then 0.0 else Sum(s[..|s| - 1]) + s[|s| - 1]
  }

  lemma SumAppend(s: seq<real>, x: real)
    ensures Sum(s + [x]) == Sum(s) + x
  {
    assert (s + [x])[..|s|] == s;
  }

  /** The arithmetic mean. */
  function Average(s: seq<real>): real
    requires |s| > 0
  {
    Sum(s) / |s| as real
  }

  lemma {:induction false} SumOfConstant(s: seq<real>, v: real)
    requires forall i :: 0 <= i < |s| ==> s[i] == v
    ensures Sum(s) == |s| as real * v
  {
    if s != [] {
      SumOfConstant(s[..|s| - 1], v);
    }
  }

  lemma {:induction false} SumBounds(s: seq<real>, lo: real, hi: real)
    requires forall i :: 0 <= i < |s| ==> lo <= s[i] <= hi
    ensures |s| as real * lo <= Sum(s) <= |s| as real * hi
  {
    if s != [] {
      SumBounds(s[..|s| - 1], lo, hi);
    }
  }

  /** A column whose cells all equal `v` has mean `v`. */
  lemma AverageOfConstant(s: seq<real>, v: real)
    requires |s| > 0
    requires forall i :: 0 <= i < |s| ==> s[i] == v
    ensures Average(s) == v
  {
    SumOfConstant(s, v);
  }

  /** The mean lies within any bounds of the values. */
  lemma AverageBounds(s: seq<real>, lo: real, hi: real)
    requires |s| > 0
    requires forall i :: 0 <= i < |s| ==> lo <= s[i] <= hi
    ensures lo <= Average(s) <= hi
  {
    SumBounds(s, lo, hi);
    var n := |s| as real;
    assert Average(s) * n == Sum(s);
  }

  /** `mean`: sums the column row by row and divides by `rows`. */
  method Mean(df: CsvData, col: int) returns (r: real)
    requires df.Valid() && 0 <= col < df.cols
    ensures r == Average(Column(df, col))
  {
    ghost var c := Column(df, col);
    var sum := 0.0;
    for row := 0 to df.rows
      invariant sum == Sum(c[..row])
    {
      assert c[..row + 1][..row] == c[..row];
      sum := sum + df.dataFrame[row][col];
    }
    assert c[..df.rows] == c;
    r := sum / df.rows as real;
  }

  /** The accumulated squares of the distances of the values from `m`. */
  function SquaredDeviations(s: seq<real>, m: real): real {
    if s == [] then 0.0
    else SquaredDeviations(s[..|s| - 1], m) + (s[|s| - 1] - m) * (s[|s| - 1] - m)
  }

  lemma SquaredDeviationsAppend(s: seq<real>, x: real, m: real)
    ensures SquaredDeviations(s + [x], m) == SquaredDeviations(s, m) + (x - m) * (x - m)
  {
    assert (s + [x])[..|s|] == s;
  }

  /** The population variance: the mean squared distance from the mean. */
  function Variance(s: seq<real>): real
    requires |s| > 0
  {
    SquaredDeviations(s, Average(s)) / |s| as real
  }

  /** A square is never negative. */
  lemma SquareNonNegative(d: real)
    ensures d * d >= 0.0
  {
    if d < 0.0 {
      assert d * d == (-d) * (-d);
    }
  }

  lemma {:induction false} SquaredDeviationsNonNegative(s: seq<real>, m: real)
    ensures SquaredDeviations(s, m) >= 0.0
  {
    if s != [] {
      SquaredDeviationsNonNegative(s[..|s| - 1], m);
      SquareNonNegative(s[|s| - 1] - m);
    }
  }

  /** Distances from `m` of values that all equal `m` add up to zero. */
  lemma {:induction false} SquaredDeviationsOfConstant(s: seq<real>, m: real)
    requires forall i :: 0 <= i < |s| ==> s[i] == m
    ensures SquaredDeviations(s, m) == 0.0
  {
    if s != [] {
      SquaredDeviationsOfConstant(s[..|s| - 1], m);
    }
  }

  lemma VarianceNonNegative(s: seq<real>)
    requires |s| > 0
    ensures Variance(s) >= 0.0
  {
    SquaredDeviationsNonNegative(s, Average(s));
  }

  /** A column whose cells all equal `v` has variance zero. */
  lemma VarianceOfConstant(s: seq<real>, v: real)
    requires |s| > 0
    requires forall i :: 0 <= i < |s| ==> s[i] == v
    ensures Variance(s) == 0.0
  {
    AverageOfConstant(s, v);
    SquaredDeviationsOfConstant(s, v);
  }

  /**
   * `standardDeviation`: takes the mean, accumulates the squared distances
   * from it and divides by `rows`. No square root is taken, so the result is
   * the population variance.
   */
  method StandardDeviation(df: CsvData, col: int) returns (r: real)
    requires df.Valid() && 0 <= col < df.cols
    ensures r == Variance(Column(df, col))
  {
    ghost var c := Column(df, col);
    var sum := 0.0;
    var meanVal := Mean(df, col);
    for row := 0 to df.rows
      invariant sum == SquaredDeviations(c[..row], meanVal)
    {
      var distance := df.dataFrame[row][col] - meanVal;
      assert c[..row + 1][..row] == c[..row];
      sum := sum + distance * distance;
    }
    assert c[..df.rows] == c;
    r := sum / df.rows as real;
  }

  /**
   * The selection step of `median`: the middle element for an odd count, the
   * average of the two middle elements for an even count.
   */
  function MiddleValue(s: seq<real>): (r: real)
    requires |s| > 0
    ensures Ascending(s) ==> s[0] <= r <= s[|s| - 1]
  {
    if |s| % 2 == 1 then s[(|s| - 1) / 2]
    else (s[|s| / 2] + s[|s| / 2 - 1]) / 2.0
  }

  /** The median: the middle of the sorted copy. */
  ghost function MedianOf(s: seq<real>): real
    requires |s| > 0
  {
    MiddleValue(SortedOf(s))
  }

  /**
   * `median`: copies the column into a fresh scratch buffer, sorts it with
   * `compareVectors` and selects from the sorted buffer. The table itself is
   * a value here and cannot be written.
   */
  method Median(df: CsvData, col: int) returns (r: real)
    requires df.Valid() && 0 <= col < df.cols
    ensures r == MedianOf(Column(df, col))
  {
    var n := df.rows;
    ghost var c := Column(df, col);
    var sortedFeature := CreateFloatVector(n);
    for index := 0 to n
      invariant sortedFeature[..index] == c[..index]
    {
      sortedFeature[index] := df.dataFrame[index][col];
    }
    assert sortedFeature[..] == c[..n] == c;
    Sort(sortedFeature);
    r := MiddleValue(sortedFeature[..]);
  }

  /**
   * The selection as the C code performs it: it reads the middle rows of the
   * table's own column, not of the sorted scratch buffer.
   */
  function PositionalMedian(df: CsvData, col: int): (r: real)
    requires df.Valid() && 0 <= col < df.cols
    ensures r == MiddleValue(Column(df, col))
  {
    if df.rows % 2 == 1 then df.dataFrame[(df.rows - 1) / 2][col]
    else (df.dataFrame[df.rows / 2][col] + df.dataFrame[df.rows / 2 - 1][col]) / 2.0
  }

  /** On a column that is already ascending, the C code's selection is the median. */
  lemma PositionalMedianOfAscendingColumn(df: CsvData, col: int)
    requires df.Valid() && 0 <= col < df.cols
    requires Ascending(Column(df, col))
    ensures PositionalMedian(df, col) == MedianOf(Column(df, col))
  {
    AscendingIsSorted(Column(df, col));
  }

  /** On the column 5, 1, 3 the C code yields 1 where the median is 3. */
  lemma PositionalMedianCounterexample()
    ensures var df := CsvData(3, 1, [[5.0], [1.0], [3.0]]);
      && df.Valid()
      && PositionalMedian(df, 0) == 1.0
      && MedianOf(Column(df, 0)) == 3.0
  {
    var df := CsvData(3, 1, [[5.0], [1.0], [3.0]]);
    assert Column(df, 0) == [5.0, 1.0, 3.0];
    SortedExample();
  }

  lemma SortedExample()
    ensures SortedOf([5.0, 1.0, 3.0]) == [1.0, 3.0, 5.0]
  {
    var sorted := [1.0, 3.0, 5.0];
    assert Ascending(sorted) by {
      forall i, j | 0 <= i < j < 3 ensures sorted[i] <= sorted[j] {}
    }
    assert multiset([5.0, 1.0, 3.0]) == multiset(sorted);
    AscendingPermutationUnique(SortedOf([5.0, 1.0, 3.0]), sorted);
  }

  /** A column whose cells all equal `v` has median `v`. */
  lemma MedianOfConstant(s: seq<real>, v: real)
    requires |s| > 0
    requires forall i :: 0 <= i < |s| ==> s[i] == v
    ensures MedianOf(s) == v
  {
    AscendingIsSorted(s);
  }

  /** The median lies within any bounds of the values. */
  lemma MedianBounds(s: seq<real>, lo: real, hi: real)
    requires |s| > 0
    requires forall i :: 0 <= i < |s| ==> lo <= s[i] <= hi
    ensures lo <= MedianOf(s) <= hi
  {
    var t := SortedOf(s);
    assert |t| == |multiset(t)| == |multiset(s)| == |s|;
    assert t[0] in multiset(s) && t[|t| - 1] in multiset(s);
  }

  /**
   * On the column 2, 4, 4, 4, 5, 5, 7, 9 the result is 4, the variance, where
   * the documented square root would give 2.
   */
  lemma VarianceExample()
    ensures Variance([2.0, 4.0, 4.0, 4.0, 5.0, 5.0, 7.0, 9.0]) == 4.0
  {
    assert [2.0] == [] + [2.0];
    SumAppend([], 2.0);
    SquaredDeviationsAppend([], 2.0, 5.0);
    assert [2.0, 4.0] == [2.0] + [4.0];
    SumAppend([2.0], 4.0);
    SquaredDeviationsAppend([2.0], 4.0, 5.0);
    assert [2.0, 4.0, 4.0] == [2.0, 4.0] + [4.0];
    SumAppend([2.0, 4.0], 4.0);
    SquaredDeviationsAppend([2.0, 4.0], 4.0, 5.0);
    assert [2.0, 4.0, 4.0, 4.0] == [2.0, 4.0, 4.0] + [4.0];
    SumAppend([2.0, 4.0, 4.0], 4.0);
    SquaredDeviationsAppend([2.0, 4.0, 4.0], 4.0, 5.0);
    assert [2.0, 4.0, 4.0, 4.0, 5.0] == [2.0, 4.0, 4.0, 4.0] + [5.0];
    SumAppend([2.0, 4.0, 4.0, 4.0], 5.0);
    SquaredDeviationsAppend([2.0, 4.0, 4.0, 4.0], 5.0, 5.0);
    assert [2.0, 4.0, 4.0, 4.0, 5.0, 5.0] == [2.0, 4.0, 4.0, 4.0, 5.0] + [5.0];
    SumAppend([2.0, 4.0, 4.0, 4.0, 5.0], 5.0);
    SquaredDeviationsAppend([2.0, 4.0, 4.0, 4.0, 5.0], 5.0, 5.0);
    assert [2.0, 4.0, 4.0, 4.0, 5.0, 5.0, 7.0] == [2.0, 4.0, 4.0, 4.0, 5.0, 5.0] + [7.0];
    SumAppend([2.0, 4.0, 4.0, 4.0, 5.0, 5.0], 7.0);
    SquaredDeviationsAppend([2.0, 4.0, 4.0, 4.0, 5.0, 5.0], 7.0, 5.0);
    assert [2.0, 4.0, 4.0, 4.0, 5.0, 5.0, 7.0, 9.0] == [2.0, 4.0, 4.0, 4.0, 5.0, 5.0, 7.0] + [9.0];
    SumAppend([2.0, 4.0, 4.0, 4.0, 5.0, 5.0, 7.0], 9.0);
    SquaredDeviationsAppend([2.0, 4.0, 4.0, 4.0, 5.0, 5.0, 7.0], 9.0, 5.0);
    assert Average([2.0, 4.0, 4.0, 4.0, 5.0, 5.0, 7.0, 9.0]) == 5.0;
  }
}
