/**
 * Model of `mean` (backend/utils/misc.ts:19-28) and of the radicand of
 * `stdDev` (backend/utils/misc.ts:11-17), over exact reals.
 *
 * JavaScript numbers are doubles; here they are idealised as `real`, so the
 * order in which `reduce` adds its operands does not change the result.
 */
module Statistics {

  /** The sum of a sequence, defined independently of how the source folds it. */
  function Sum(s: seq<real>): real {
    if |s| == 0 then 0.0 else s[0] + Sum(s[1..])
  }

  /** Adding an element at the end adds it to the sum. */
  lemma {:induction false} SumSnoc(s: seq<real>, x: real)
    ensures Sum(s + [x]) == Sum(s) + x
    decreases |s|
  {
    if |s| == 0 {
      assert s + [x] == [x];
    } else {
      assert (s + [x])[1..] == s[1..] + [x];
      SumSnoc(s[1..], x);
    }
  }

  /** `reduce((a, b) => a + b)` with no initial value: the first element seeds
      the accumulator and the rest are added from left to right. On an empty
      array the source throws, hence the precondition. */
  function ReduceAdd(s: seq<real>): (r: real)
    requires |s| > 0
    ensures r == Sum(s)
    decreases |s|
  {
    if |s| == 1 then s[0]
    else
      var init := s[..|s| - 1];
      assert s == init + [s[|s| - 1]];
      SumSnoc(init, s[|s| - 1]);
      ReduceAdd(init) + s[|s| - 1]
  }

  /** `mean(population)`: the empty array makes `reduce` throw, the handler
      returns 0; otherwise the sum divided by the length. */
  function Mean(s: seq<real>): (r: real)
    ensures |s| == 0 ==> r == 0.0
    ensures |s| > 0 ==> r == Sum(s) / (|s| as real)
    ensures |s| == 1 ==> r == s[0]
  {
    if |s| == 0 then 0.0 else ReduceAdd(s) / (|s| as real)
  }

  /** The least element. */
  function Min(s: seq<real>): (m: real)
    requires |s| > 0
    ensures forall i :: 0 <= i < |s| ==> m <= s[i]
    ensures exists i :: 0 <= i < |s| && m == s[i]
    decreases |s|
  {
    if |s| == 1 then s[0]
    else
      var rest := Min(s[1..]);
      assert forall i :: 1 <= i < |s| ==> s[1..][i - 1] == s[i];
      if s[0] <= rest then s[0] else rest
  }

  /** The greatest element. */
  function Max(s: seq<real>): (m: real)
    requires |s| > 0
    ensures forall i :: 0 <= i < |s| ==> s[i] <= m
    ensures exists i :: 0 <= i < |s| && m == s[i]
    decreases |s|
  {
    if |s| == 1 then s[0]
    else
      var rest := Max(s[1..]);
      assert forall i :: 1 <= i < |s| ==> s[1..][i - 1] == s[i];
      if rest <= s[0] then s[0] else rest
  }

  /** A sum of `n` terms, each at least `lo`, is at least `n * lo`. */
  lemma {:induction false} SumAtLeast(s: seq<real>, lo: real)
    requires forall i :: 0 <= i < |s| ==> lo <= s[i]
    ensures (|s| as real) * lo <= Sum(s)
    decreases |s|
  {
    if |s| > 0 {
      assert forall i :: 0 <= i < |s[1..]| ==> s[1..][i] == s[i + 1];
      SumAtLeast(s[1..], lo);
      assert (|s| as real) * lo == lo + (|s[1..]| as real) * lo;
    }
  }

  /** A sum of `n` terms, each at most `hi`, is at most `n * hi`. */
  lemma {:induction false} SumAtMost(s: seq<real>, hi: real)
    requires forall i :: 0 <= i < |s| ==> s[i] <= hi
    ensures Sum(s) <= (|s| as real) * hi
    decreases |s|
  {
    if |s| > 0 {
      assert forall i :: 0 <= i < |s[1..]| ==> s[1..][i] == s[i + 1];
      SumAtMost(s[1..], hi);
      assert (|s| as real) * hi == hi + (|s[1..]| as real) * hi;
    }
  }

  /** Dividing by a positive count keeps a lower bound. */
  lemma DivideLowerBound(n: real, total: real, lo: real)
    requires 0.0 < n
    requires n * lo <= total
    ensures lo <= total / n
  {
  }

  /** Dividing by a positive count keeps an upper bound. */
  lemma DivideUpperBound(n: real, total: real, hi: real)
    requires 0.0 < n
    requires total <= n * hi
    ensures total / n <= hi
  {
  }

  /** A lower bound on every element is a lower bound on the mean. */
  lemma MeanAtLeast(s: seq<real>, lo: real)
    requires |s| > 0
    requires forall i :: 0 <= i < |s| ==> lo <= s[i]
    ensures lo <= Mean(s)
  {
    SumAtLeast(s, lo);
    DivideLowerBound(|s| as real, Sum(s), lo);
  }

  /** An upper bound on every element is an upper bound on the mean. */
  lemma MeanAtMost(s: seq<real>, hi: real)
    requires |s| > 0
    requires forall i :: 0 <= i < |s| ==> s[i] <= hi
    ensures Mean(s) <= hi
  {
    SumAtMost(s, hi);
    DivideUpperBound(|s| as real, Sum(s), hi);
  }

  /** The mean of a non-empty sequence lies between its least and greatest element. */
  lemma MeanBounds(s: seq<real>)
    requires |s| > 0
    ensures Min(s) <= Mean(s) <= Max(s)
  {
    MeanAtLeast(s, Min(s));
    MeanAtMost(s, Max(s));
  }

  /** The mean of a sequence whose elements all equal `c` is `c`. */
  lemma MeanOfConstant(s: seq<real>, c: real)
    requires |s| > 0
    requires forall i :: 0 <= i < |s| ==> s[i] == c
    ensures Mean(s) == c
  {
    MeanAtLeast(s, c);
    MeanAtMost(s, c);
  }

  /** `Math.pow(x, 2)`. */
  function Square(x: real): real {
    x * x
  }

  lemma ProductOfPositives(x: real)
    requires 0.0 < x
    ensures 0.0 < x * x
  {
  }

  lemma ProductOfNegatives(x: real)
    requires x < 0.0
    ensures 0.0 < x * x
  {
  }

  /** The square of a non-zero number is positive. */
  lemma SquarePositive(x: real)
    requires x != 0.0
    ensures 0.0 < Square(x)
  {
    if x < 0.0 {
      calc {
        Square(x);
      ==
        x * x;
      >  { ProductOfNegatives(x); }
        0.0;
      }
    } else {
      calc {
        Square(x);
      ==
        x * x;
      >  { ProductOfPositives(x); }
        0.0;
      }
    }
  }

  /** `population.map((x) => Math.pow(x - mean, 2))`: never negative, zero
      exactly at the elements equal to `m`. */
  function SquaredDeviations(s: seq<real>, m: real): (d: seq<real>)
    ensures |d| == |s|
    ensures forall i :: 0 <= i < |s| ==> 0.0 <= d[i]
    ensures forall i :: 0 <= i < |s| ==> (d[i] == 0.0 <==> s[i] == m)
  {
    var d := seq(|s|, i requires 0 <= i < |s| => Square(s[i] - m));
    SquaredDeviationsSign(s, m, d);
    d
  }

  lemma SquaredDeviationsSign(s: seq<real>, m: real, d: seq<real>)
    requires |d| == |s|
    requires forall i :: 0 <= i < |s| ==> d[i] == Square(s[i] - m)
    ensures forall i :: 0 <= i < |s| ==> 0.0 <= d[i]
    ensures forall i :: 0 <= i < |s| ==> (d[i] == 0.0 <==> s[i] == m)
  {
    forall i | 0 <= i < |s|
      ensures 0.0 <= d[i]
      ensures d[i] == 0.0 <==> s[i] == m
    {
      if s[i] == m {
        assert d[i] == Square(0.0);
      } else {
        SquarePositive(s[i] - m);
      }
    }
  }

  /** A sum of non-negative terms is non-negative, and it is zero only when
      every term is. */
  lemma {:induction false} SumNonNegative(s: seq<real>)
    requires forall i :: 0 <= i < |s| ==> 0.0 <= s[i]
    ensures 0.0 <= Sum(s)
    ensures Sum(s) == 0.0 ==> forall i :: 0 <= i < |s| ==> s[i] == 0.0
    decreases |s|
  {
    if |s| > 0 {
      assert forall i :: 0 <= i < |s[1..]| ==> s[1..][i] == s[i + 1];
      SumNonNegative(s[1..]);
      if Sum(s) == 0.0 {
        assert s[0] == 0.0 && Sum(s[1..]) == 0.0;
        assert forall i :: 1 <= i < |s| ==> s[i] == s[1..][i - 1];
      }
    }
  }

  /** What `stdDev` passes to `Math.sqrt`: the mean of the squared deviations
      from the mean. An empty population makes the first `reduce` throw and
      nothing catches it, hence the precondition. The value is never
      negative, so the square root is always defined. */
  function VarianceRadicand(s: seq<real>): (r: real)
    requires |s| > 0
    ensures 0.0 <= r
  {
    var n := |s| as real;
    var m := ReduceAdd(s) / n;
    var d := SquaredDeviations(s, m);
    SumNonNegative(d);
    ReduceAdd(d) / n
  }

  /** Expanding one squared deviation. */
  lemma SquareOfDifference(x: real, m: real)
    ensures Square(x - m) == Square(x) - 2.0 * m * x + Square(m)
  {
  }

  /** The sum of the squared deviations from `m`, written as one recursion. */
  function SumOfSquares(s: seq<real>, m: real): real {
    if |s| == 0 then 0.0 else Square(s[0] - m) + SumOfSquares(s[1..], m)
  }

  /** Dropping the first element commutes with taking deviations. */
  lemma SquaredDeviationsTail(s: seq<real>, m: real)
    requires |s| > 0
    ensures SquaredDeviations(s, m)[0] == Square(s[0] - m)
    ensures SquaredDeviations(s, m)[1..] == SquaredDeviations(s[1..], m)
  {
    var d := SquaredDeviations(s, m);
    var e := SquaredDeviations(s[1..], m);
    assert |d[1..]| == |e|;
    forall i | 0 <= i < |e|
      ensures d[1..][i] == e[i]
    {
      assert s[1..][i] == s[i + 1];
    }
  }

  /** Summing the mapped sequence is the single recursion. */
  lemma {:induction false} SumOfSquaredDeviations(s: seq<real>, m: real)
    ensures Sum(SquaredDeviations(s, m)) == SumOfSquares(s, m)
    decreases |s|
  {
    if |s| > 0 {
      SquaredDeviationsTail(s, m);
      SumOfSquaredDeviations(s[1..], m);
    }
  }

  /** The cross terms `2 m x`, summed. */
  function CrossTerms(s: seq<real>, m: real): real {
    if |s| == 0 then 0.0 else 2.0 * m * s[0] + CrossTerms(s[1..], m)
  }

  /** `Square(m)` once per element. */
  function Offsets(s: seq<real>, m: real): real {
    if |s| == 0 then 0.0 else Square(m) + Offsets(s[1..], m)
  }

  /** Expanding the squared deviations term by term. */
  lemma {:induction false} ExpandTermwise(s: seq<real>, m: real)
    ensures SumOfSquares(s, m) == SumOfSquares(s, 0.0) - CrossTerms(s, m) + Offsets(s, m)
    decreases |s|
  {
    if |s| > 0 {
      ExpandTermwise(s[1..], m);
      SquareOfDifference(s[0], m);
      assert Square(s[0] - 0.0) == Square(s[0]);
    }
  }

  /** The cross terms add up to `2m` times the sum. */
  lemma {:induction false} CrossTermsFactor(s: seq<real>, m: real)
    ensures CrossTerms(s, m) == 2.0 * m * Sum(s)
    decreases |s|
  {
    if |s| > 0 {
      CrossTermsFactor(s[1..], m);
    }
  }

  /** The offsets add up to `n` times `Square(m)`. */
  lemma {:induction false} OffsetsFactor(s: seq<real>, m: real)
    ensures Offsets(s, m) == (|s| as real) * Square(m)
    decreases |s|
  {
    if |s| > 0 {
      OffsetsFactor(s[1..], m);
    }
  }

  /** The sum of the squared deviations from `m`, expanded: the sum of squares,
      less `2m` times the sum, plus `n` times the square of `m`. */
  lemma ExpandSumOfSquares(s: seq<real>, m: real)
    ensures SumOfSquares(s, m) == SumOfSquares(s, 0.0) - 2.0 * m * Sum(s) + (|s| as real) * Square(m)
  {
    ExpandTermwise(s, m);
    CrossTermsFactor(s, m);
    OffsetsFactor(s, m);
  }

  /** Undoing a division by a positive number. */
  lemma MultiplyBack(n: real, total: real, q: real)
    requires 0.0 < n
    requires q == total / n
    ensures total == n * q
  {
  }

  /** The sum is `n` times the mean. */
  lemma SumIsLengthTimesMean(s: seq<real>)
    requires |s| > 0
    ensures Sum(s) == (|s| as real) * Mean(s)
  {
    MultiplyBack(|s| as real, Sum(s), Mean(s));
  }

  /** When the total is `n` times `m`, the cross term `2 m total` is twice
      the offset `n Square(m)`. */
  lemma CancelCrossTerm(n: real, m: real, total: real, squares: real)
    requires total == n * m
    ensures squares - 2.0 * m * total + n * Square(m) == squares - n * Square(m)
  {
  }

  /** Dividing a difference by a positive number. */
  lemma DivideDifference(n: real, a: real, b: real, d: real)
    requires 0.0 < n
    requires d == a - n * b
    ensures d / n == a / n - b
  {
  }

  /** At the mean, the cross term is twice the offset. */
  lemma CancelAtMean(s: seq<real>, m: real)
    requires Sum(s) == (|s| as real) * m
    ensures SumOfSquares(s, 0.0) - 2.0 * m * Sum(s) + (|s| as real) * Square(m)
         == SumOfSquares(s, 0.0) - (|s| as real) * Square(m)
  {
    CancelCrossTerm(|s| as real, m, Sum(s), SumOfSquares(s, 0.0));
  }

  /** Centring at the mean: when the sum is `n` times `m`, the sum of the
      squared deviations from `m` is the sum of squares less `n` times the
      square of `m`. */
  lemma CentredSumOfSquares(s: seq<real>, m: real)
    requires Sum(s) == (|s| as real) * m
    ensures SumOfSquares(s, m) == SumOfSquares(s, 0.0) - (|s| as real) * Square(m)
  {
    ExpandSumOfSquares(s, m);
    CancelAtMean(s, m);
  }

  /** Dividing the centred identity by `n`. */
  lemma DivideCentred(s: seq<real>, m: real)
    requires |s| > 0
    requires SumOfSquares(s, m) == SumOfSquares(s, 0.0) - (|s| as real) * Square(m)
    ensures SumOfSquares(s, m) / (|s| as real) == SumOfSquares(s, 0.0) / (|s| as real) - Square(m)
  {
    DivideDifference(|s| as real, SumOfSquares(s, 0.0), Square(m), SumOfSquares(s, m));
  }

  /** The centred identity, divided by `n`. */
  lemma CentredMeanOfSquares(s: seq<real>, m: real)
    requires |s| > 0
    requires Sum(s) == (|s| as real) * m
    ensures SumOfSquares(s, m) / (|s| as real) == SumOfSquares(s, 0.0) / (|s| as real) - Square(m)
  {
    CentredSumOfSquares(s, m);
    DivideCentred(s, m);
  }

  /** The radicand, as the sum of the squared deviations from the mean over `n`. */
  lemma RadicandAsSumOfSquares(s: seq<real>)
    requires |s| > 0
    ensures VarianceRadicand(s) == SumOfSquares(s, Mean(s)) / (|s| as real)
  {
    SumOfSquaredDeviations(s, Mean(s));
  }

  /** The mean of the squares, as the sum of the squares over `n`. */
  lemma MeanSquareAsSumOfSquares(s: seq<real>)
    requires |s| > 0
    ensures Mean(SquaredDeviations(s, 0.0)) == SumOfSquares(s, 0.0) / (|s| as real)
  {
    SumOfSquaredDeviations(s, 0.0);
  }

  /** The radicand is the mean of the squares less the square of the mean,
      the textbook second form of the population variance (the squared
      deviations from 0 are the squares). */
  lemma VarianceIsMeanSquareLessSquareMean(s: seq<real>)
    requires |s| > 0
    ensures VarianceRadicand(s) == Mean(SquaredDeviations(s, 0.0)) - Square(Mean(s))
  {
    calc {
      VarianceRadicand(s);
    == { RadicandAsSumOfSquares(s); }
      SumOfSquares(s, Mean(s)) / (|s| as real);
    == { SumIsLengthTimesMean(s); CentredMeanOfSquares(s, Mean(s)); }
      SumOfSquares(s, 0.0) / (|s| as real) - Square(Mean(s));
    == { MeanSquareAsSumOfSquares(s); }
      Mean(SquaredDeviations(s, 0.0)) - Square(Mean(s));
    }
  }

  /** A zero radicand means every element equals the mean. */
  lemma VarianceZeroOnlyIfConstant(s: seq<real>)
    requires |s| > 0
    requires VarianceRadicand(s) == 0.0
    ensures forall i :: 0 <= i < |s| ==> s[i] == Mean(s)
  {
    var m := Mean(s);
    var d := SquaredDeviations(s, m);
    assert Sum(d) / (|s| as real) == 0.0;
    assert Sum(d) == 0.0;
    SumNonNegative(d);
  }

  /** Equal elements give a zero radicand. */
  lemma ConstantHasZeroVariance(s: seq<real>, c: real)
    requires |s| > 0
    requires forall i :: 0 <= i < |s| ==> s[i] == c
    ensures VarianceRadicand(s) == 0.0
  {
    MeanOfConstant(s, c);
    var d := SquaredDeviations(s, c);
    assert forall i :: 0 <= i < |d| ==> d[i] == 0.0;
    SumAtMost(d, 0.0);
    SumNonNegative(d);
  }

  /** The radicand is zero exactly when all elements are equal. */
  lemma VarianceZeroIffConstant(s: seq<real>)
    requires |s| > 0
    ensures VarianceRadicand(s) == 0.0 <==> forall i, j :: 0 <= i < |s| && 0 <= j < |s| ==> s[i] == s[j]
  {
    if VarianceRadicand(s) == 0.0 {
      VarianceZeroOnlyIfConstant(s);
    }
    if forall i, j :: 0 <= i < |s| && 0 <= j < |s| ==> s[i] == s[j] {
      ConstantHasZeroVariance(s, s[0]);
    }
  }

  /** Worked examples. */
  lemma MeanExamples()
    ensures Mean([]) == 0.0
    ensures Mean([2.0, 4.0, 6.0]) == 4.0
  {
  }

  /** The population variance of 2, 4, 4, 4, 5, 5, 7, 9 is 4, so `stdDev` gives 2. */
  lemma VarianceExample()
    ensures VarianceRadicand([2.0, 4.0, 4.0, 4.0, 5.0, 5.0, 7.0, 9.0]) == 4.0
  {
    var s := [2.0, 4.0, 4.0, 4.0, 5.0, 5.0, 7.0, 9.0];
    assert Sum(s) == 40.0;
    assert Mean(s) == 5.0;
    var d := SquaredDeviations(s, 5.0);
    assert d == [9.0, 1.0, 1.0, 1.0, 0.0, 0.0, 4.0, 16.0];
    assert Sum([9.0, 1.0, 1.0, 1.0, 0.0, 0.0, 4.0, 16.0]) == 32.0;
  }
}
