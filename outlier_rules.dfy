/**
 * The two outlier rules of `OutlierHandler` and the closed choice between
 * them. A rule is handed only rows whose value in the column is present (the
 * handler drops the missing ones first) and selects the outlier rows, in
 * their original order.
 */
module OutlierRules {
  import opened DataFrame
  import opened Statistics

  /** `OutlierCalculationMethod`: the closed set of rules a handler can use. */
  datatype OutlierCalculationMethod = Interquartile | ZScore

  /** The interquartile rule's fences lie this many interquartile ranges beyond Q1 and Q3. */
  const IqrThreshold: real := 1.5

  /** The z-score rule flags values whose absolute z-score exceeds this. */
  const ZScoreThreshold: real := 3.0

  predicate AllPresent(rows: seq<Row>, c: string)
  {
    forall x :: x in rows ==> Cell(x, c).Some?
  }

  /** The column of a table without missing values, as a sequence `df[c]`. */
  function Values(rows: seq<Row>, c: string): (vs: seq<real>)
    requires AllPresent(rows, c)
    ensures |vs| == |rows|
    ensures forall i :: 0 <= i < |rows| ==> vs[i] == Cell(rows[i], c).value
  {
    if rows == [] then [] else [Cell(rows[0], c).value] + Values(rows[1..], c)
  }

  /** Tukey's rule: `v` lies more than 1.5 interquartile ranges below Q1 or above Q3. */
  predicate OutsideFences(v: real, q1: real, q3: real)
    ensures q1 <= q3 && OutsideFences(v, q1, q3) ==> v < q1 || v > q3
  {
    var iqr := q3 - q1;
    v < q1 - IqrThreshold * iqr || v > q3 + IqrThreshold * iqr
  }

  /**
   * `v` lies more than three standard deviations from the mean, where the
   * standard deviation is the square root of `variance`.
   */
  predicate BeyondThreeSigma(v: real, mean: real, variance: real)
    ensures variance >= 0.0 && BeyondThreeSigma(v, mean, variance) ==> v != mean
  {
    Square(v - mean) > ZScoreThreshold * ZScoreThreshold * variance
  }

  function Abs(x: real): real
  {
    if x < 0.0 then -x else x
  }

  lemma QuotientAboveThree(a: real, sd: real)
    requires sd > 0.0
    ensures a / sd > 3.0 <==> a > 3.0 * sd
  {
    var z := a / sd;
    assert a == z * sd;
    if z > 3.0 {
      assert z * sd > 3.0 * sd;
    } else {
      assert z * sd <= 3.0 * sd;
    }
  }

  lemma ProductSign(x: real, y: real)
    ensures x > 0.0 && y > 0.0 ==> x * y > 0.0
    ensures x <= 0.0 && y >= 0.0 ==> x * y <= 0.0
  {
  }

  lemma SquareAbove(a: real, t: real)
    requires a >= 0.0 && t >= 0.0
    ensures a * a > t * t <==> a > t
  {
    assert a * a - t * t == (a - t) * (a + t);
    ProductSign(a - t, a + t);
    if a > t {
      assert (a - t) * (a + t) > 0.0;
    } else {
      assert (a - t) * (a + t) <= 0.0;
    }
  }

  /** The squared form of the z-score rule is the rule |v - mean| / sd > 3. */
  lemma ZScoreRuleIsStandardScore(v: real, mean: real, sd: real)
    requires sd > 0.0
    ensures BeyondThreeSigma(v, mean, sd * sd) <==> Abs(v - mean) / sd > ZScoreThreshold
  {
    var a := Abs(v - mean);
    assert Square(v - mean) == a * a;
    assert ZScoreThreshold * ZScoreThreshold * (sd * sd) == (3.0 * sd) * (3.0 * sd);
    QuotientAboveThree(a, sd);
    SquareAbove(a, 3.0 * sd);
  }

  /** The mask `(df[c] < q1 - 1.5 * iqr) | (df[c] > q3 + 1.5 * iqr)`. */
  function FenceMask(c: string, q1: real, q3: real): (m: Mask)
    ensures forall x :: Holds(m, x) <==> Cell(x, c).Some? && OutsideFences(Cell(x, c).value, q1, q3)
  {
    var iqr := q3 - q1;
    Or(Lt(c, q1 - IqrThreshold * iqr), Gt(c, q3 + IqrThreshold * iqr))
  }

  /** The mask `abs(zscore(df[c])) > 3` for a column of the given mean and variance. */
  function ZScoreMask(c: string, mean: real, variance: real): (m: Mask)
    ensures forall x :: Holds(m, x) <==> Cell(x, c).Some? && BeyondThreeSigma(Cell(x, c).value, mean, variance)
  {
    AbsZScoreAbove(c, mean, variance, ZScoreThreshold)
  }

  /**
   * The interquartile rule: Q1 and Q3 of the column by linear interpolation,
   * then the rows outside Tukey's fences. With no rows the quartiles are
   * undefined (NaN), no comparison holds and nothing is selected.
   */
  function InterquartileOutliers(rows: seq<Row>, c: string): (r: seq<Row>)
    requires AllPresent(rows, c)
    ensures rows == [] ==> r == []
    ensures rows != [] ==>
      forall x :: x in r <==>
        x in rows &&
        OutsideFences(Cell(x, c).value, LowerQuartile(Values(rows, c)), UpperQuartile(Values(rows, c)))
    ensures OrderedSelection(r, rows)
  {
    if rows == [] then []
    else
      var vs := Values(rows, c);
      var m := FenceMask(c, LowerQuartile(vs), UpperQuartile(vs));
      WhereSelects(rows, m);
      Where(rows, m)
  }

  /**
   * The z-score rule: the rows whose absolute z-score (population standard
   * deviation) exceeds 3. With no rows nothing is selected.
   */
  function ZScoreOutliers(rows: seq<Row>, c: string): (r: seq<Row>)
    requires AllPresent(rows, c)
    ensures rows == [] ==> r == []
    ensures rows != [] ==>
      forall x :: x in r <==>
        x in rows &&
        BeyondThreeSigma(Cell(x, c).value, Mean(Values(rows, c)), Variance(Values(rows, c)))
    ensures OrderedSelection(r, rows)
  {
    if rows == [] then []
    else
      var vs := Values(rows, c);
      var m := ZScoreMask(c, Mean(vs), Variance(vs));
      WhereSelects(rows, m);
      Where(rows, m)
  }

  /** The dispatch table of the constructor: each method selects its own rule. */
  function DetectOutliers(calculationMethod: OutlierCalculationMethod, rows: seq<Row>, c: string): (r: seq<Row>)
    requires AllPresent(rows, c)
    ensures calculationMethod == Interquartile ==> r == InterquartileOutliers(rows, c)
    ensures calculationMethod == ZScore ==> r == ZScoreOutliers(rows, c)
  {
    match calculationMethod
    case Interquartile => InterquartileOutliers(rows, c)
    case ZScore => ZScoreOutliers(rows, c)
  }

  /** Both rules select a subsequence of their input: rows of the input, in order. */
  lemma DetectOutliersSelects(calculationMethod: OutlierCalculationMethod, rows: seq<Row>, c: string)
    requires AllPresent(rows, c)
    ensures forall x :: x in DetectOutliers(calculationMethod, rows, c) ==> x in rows
    ensures exists m :: DetectOutliers(calculationMethod, rows, c) == Where(rows, m)
  {
    if rows == [] {
      assert DetectOutliers(calculationMethod, rows, c) == Where(rows, IsNa(c));
    }
  }

  /**
   * Every interquartile outlier lies strictly outside [Q1, Q3]: the fences
   * are never inside the quartiles, as the interquartile range is never negative.
   */
  lemma InterquartileOutliersOutsideQuartiles(rows: seq<Row>, c: string)
    requires AllPresent(rows, c) && rows != []
    ensures forall x :: x in InterquartileOutliers(rows, c) ==>
      Cell(x, c).value < LowerQuartile(Values(rows, c)) ||
      Cell(x, c).value > UpperQuartile(Values(rows, c))
  {
    QuartilesOrdered(Values(rows, c));
  }

  /** A value at most three standard deviations from the mean is never flagged. */
  lemma NotBeyondThreeSigma(d: real, n: real, variance: real)
    requires variance >= 0.0 && n <= 10.0
    requires Square(d) <= (n - 1.0) * variance
    ensures Square(d) <= ZScoreThreshold * ZScoreThreshold * variance
  {
    assert (n - 1.0) * variance <= 9.0 * variance;
  }

  lemma {:induction false} CountIsLength(s: seq<real>)
    ensures Count(s) == |s| as real
  {
    if s != [] {
      CountIsLength(s[1..]);
    }
  }

  /**
   * No absolute population z-score exceeds sqrt(n - 1), so no value of a
   * column of at most ten values lies beyond three standard deviations.
   */
  lemma SmallColumnWithinThreeSigma(vs: seq<real>, i: nat)
    requires i < |vs| <= 10
    ensures !BeyondThreeSigma(vs[i], Mean(vs), Variance(vs))
  {
    CountIsLength(vs);
    DeviationBound(vs, i);
    NotBeyondThreeSigma(vs[i] - Mean(vs), Count(vs), Variance(vs));
  }

  /** The z-score rule flags nothing in a column of ten or fewer present values. */
  lemma ZScoreNeedsMoreThanTenRows(rows: seq<Row>, c: string)
    requires AllPresent(rows, c) && |rows| <= 10
    ensures ZScoreOutliers(rows, c) == []
  {
    if rows != [] {
      var vs := Values(rows, c);
      var m := ZScoreMask(c, Mean(vs), Variance(vs));
      forall x | x in rows
        ensures !Holds(m, x)
      {
        var i :| 0 <= i < |rows| && rows[i] == x;
        SmallColumnWithinThreeSigma(vs, i);
      }
      WhereNone(rows, m);
    }
  }

  /** A column whose values all coincide (zero variance) has no z-score outliers. */
  lemma ZScoreFlagsNothingWithoutSpread(rows: seq<Row>, c: string)
    requires AllPresent(rows, c) && rows != [] && Variance(Values(rows, c)) == 0.0
    ensures ZScoreOutliers(rows, c) == []
  {
    var vs := Values(rows, c);
    var m := ZScoreMask(c, Mean(vs), Variance(vs));
    forall x | x in rows
      ensures !Holds(m, x)
    {
      var i :| 0 <= i < |rows| && rows[i] == x;
      DeviationBound(vs, i);
    }
    WhereNone(rows, m);
  }
}
