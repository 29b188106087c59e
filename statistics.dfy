/**
 * The statistics the two outlier rules use, in exact reals: the sum, mean and
 * population variance that `scipy.stats.zscore` divides by (ddof = 0), and the
 * quartiles that `Series.quantile` computes by linear interpolation between
 * the ranked values.
 */
module Statistics {

  function Sum(s: seq<real>): real
  {
    if s == [] then 0.0 else s[0] + Sum(s[1..])
  }

  /** The number of values, as a real (keeps the arithmetic below free of integer-to-real conversions). */
  function Count(s: seq<real>): (c: real)
    ensures c >= 0.0
    ensures s != [] ==> c >= 1.0
  {
    if s == [] then 0.0 else 1.0 + Count(s[1..])
  }

  /** The arithmetic mean: the value that, taken once per value, makes up the sum. */
  function Mean(s: seq<real>): (m: real)
    requires |s| > 0
    ensures Count(s) * m == Sum(s)
  {
    Sum(s) / Count(s)
  }

  function Square(x: real): (r: real)
    ensures r >= 0.0
  {
    x * x
  }

  /** The sum of squared deviations of `s` from `m`. */
  function SquaredDeviations(s: seq<real>, m: real): (d: real)
    ensures d >= 0.0
  {
    if s == [] then 0.0 else Square(s[0] - m) + SquaredDeviations(s[1..], m)
  }

  /** Population variance, the square of the deviation `zscore` divides by. */
  function Variance(s: seq<real>): (v: real)
    requires |s| > 0
    ensures v >= 0.0
  {
    SquaredDeviations(s, Mean(s)) / Count(s)
  }

  /** The sum of the deviations of `s` from `m`. */
  function Deviations(s: seq<real>, m: real): real
  {
    if s == [] then 0.0 else (s[0] - m) + Deviations(s[1..], m)
  }

  lemma {:induction false} DeviationsFromSum(s: seq<real>, m: real)
    ensures Deviations(s, m) == Sum(s) - Count(s) * m
  {
    if s != [] {
      DeviationsFromSum(s[1..], m);
      var c := Count(s[1..]);
      assert (1.0 + c) * m == m + c * m;
    }
  }

  /** Deviations from the mean cancel out. */
  lemma DeviationsFromMean(s: seq<real>)
    requires |s| > 0
    ensures Deviations(s, Mean(s)) == 0.0
  {
    DeviationsFromSum(s, Mean(s));
    var n := Count(s);
    assert Mean(s) == Sum(s) / n;
    assert n * (Sum(s) / n) == Sum(s);
  }

  lemma {:induction false} CountConcat(a: seq<real>, b: seq<real>)
    ensures Count(a + b) == Count(a) + Count(b)
  {
    if a == [] {
      assert a + b == b;
    } else {
      assert (a + b)[1..] == a[1..] + b;
      CountConcat(a[1..], b);
    }
  }

  lemma {:induction false} DeviationsConcat(a: seq<real>, b: seq<real>, m: real)
    ensures Deviations(a + b, m) == Deviations(a, m) + Deviations(b, m)
  {
    if a == [] {
      assert a + b == b;
    } else {
      assert (a + b)[1..] == a[1..] + b;
      DeviationsConcat(a[1..], b, m);
    }
  }

  lemma {:induction false} SquaredDeviationsConcat(a: seq<real>, b: seq<real>, m: real)
    ensures SquaredDeviations(a + b, m) == SquaredDeviations(a, m) + SquaredDeviations(b, m)
  {
    if a == [] {
      assert a + b == b;
    } else {
      assert (a + b)[1..] == a[1..] + b;
      SquaredDeviationsConcat(a[1..], b, m);
    }
  }

  /** The algebraic step of DeviationsCauchySchwarz: adding one term keeps the bound. */
  lemma CauchySchwarzStep(k: real, a: real, q: real, b: real)
    requires k >= 0.0 && q >= 0.0 && Square(a) <= k * q
    requires k == 0.0 ==> a == 0.0
    ensures Square(b + a) <= (k + 1.0) * (Square(b) + q)
  {
    if k > 0.0 {
      var e := k * b - a;
      assert e * e >= 0.0;
      assert k * (k * b * b + q - 2.0 * a * b) == e * e + (k * q - a * a);
      assert k * b * b + q - 2.0 * a * b >= 0.0;
    }
  }

  /** `sum^2 <= count * squares`: the shape of the Cauchy-Schwarz inequality for `count` terms. */
  predicate CauchySchwarzBound(sum: real, count: real, squares: real)
  {
    Square(sum) <= count * squares
  }

  /**
   * Cauchy-Schwarz for deviations: the square of the summed deviations of
   * `t` from `m` is at most |t| times the summed squared deviations.
   */
  lemma {:induction false} DeviationsCauchySchwarz(t: seq<real>, m: real)
    ensures CauchySchwarzBound(Deviations(t, m), Count(t), SquaredDeviations(t, m))
  {
    if t != [] {
      var rest := t[1..];
      DeviationsCauchySchwarz(rest, m);
      assert rest == [] ==> Deviations(rest, m) == 0.0;
      CauchySchwarzStep(Count(rest), Deviations(rest, m), SquaredDeviations(rest, m), t[0] - m);
    }
  }

  /**
   * The algebraic step of DeviationBoundFrom: when the other n - 1 deviations
   * sum to -d, Cauchy-Schwarz over them gives n d^2 <= (n - 1) total, that
   * is d^2 <= (n - 1) * (total / n).
   */
  lemma RemovedDeviationStep(n: real, d: real, total: real, variance: real)
    requires n >= 1.0 && variance == total / n
    requires CauchySchwarzBound(-d, n - 1.0, total - Square(d))
    ensures Square(d) <= (n - 1.0) * variance
  {
    assert Square(-d) == d * d;
    assert n * (d * d) <= (n - 1.0) * total;
    assert (n - 1.0) * (total / n) == ((n - 1.0) * total) / n;
  }

  /** Taking the value at position `k` out of `s`. */
  lemma RemoveAt(s: seq<real>, k: nat, m: real)
    requires k < |s|
    ensures Deviations(s, m) == Deviations(s[..k] + s[k + 1..], m) + (s[k] - m)
    ensures SquaredDeviations(s, m) == SquaredDeviations(s[..k] + s[k + 1..], m) + Square(s[k] - m)
    ensures Count(s) == Count(s[..k] + s[k + 1..]) + 1.0
  {
    var front, back := s[..k], s[k + 1..];
    assert s == front + ([s[k]] + back);
    assert ([s[k]] + back)[1..] == back;
    assert Deviations(s, m) == Deviations(front + back, m) + (s[k] - m) by {
      DeviationsConcat(front, [s[k]] + back, m);
      DeviationsConcat(front, back, m);
    }
    assert SquaredDeviations(s, m) == SquaredDeviations(front + back, m) + Square(s[k] - m) by {
      SquaredDeviationsConcat(front, [s[k]] + back, m);
      SquaredDeviationsConcat(front, back, m);
    }
    assert Count(s) == Count(front + back) + 1.0 by {
      CountConcat(front, [s[k]] + back);
      CountConcat(front, back);
    }
  }

  /**
   * Cauchy-Schwarz over all values but the one at `k`, stated in terms of
   * the whole sequence: the others deviate from `m` by -(s[k] - m) in sum.
   */
  lemma OthersCauchySchwarz(s: seq<real>, k: nat, m: real)
    requires k < |s| && Deviations(s, m) == 0.0
    ensures CauchySchwarzBound(-(s[k] - m), Count(s) - 1.0, SquaredDeviations(s, m) - Square(s[k] - m))
  {
    RemoveAt(s, k, m);
    DeviationsCauchySchwarz(s[..k] + s[k + 1..], m);
  }

  /**
   * For a centre `m` from which the deviations cancel out, no value's squared
   * deviation exceeds n - 1 times the mean squared deviation.
   */
  lemma DeviationBoundFrom(s: seq<real>, k: nat, m: real, variance: real)
    requires k < |s| && Deviations(s, m) == 0.0
    requires variance == SquaredDeviations(s, m) / Count(s)
    ensures Square(s[k] - m) <= (Count(s) - 1.0) * variance
  {
    OthersCauchySchwarz(s, k, m);
    RemovedDeviationStep(Count(s), s[k] - m, SquaredDeviations(s, m), variance);
  }

  /**
   * No value lies further from the mean than sqrt(n - 1) population standard
   * deviations: (v - mean)^2 <= (n - 1) * variance.
   */
  lemma DeviationBound(s: seq<real>, k: nat)
    requires k < |s|
    ensures Square(s[k] - Mean(s)) <= (Count(s) - 1.0) * Variance(s)
  {
    DeviationsFromMean(s);
    DeviationBoundFrom(s, k, Mean(s), Variance(s));
  }

  predicate Sorted(s: seq<real>)
  {
    forall i, j :: 0 <= i < j < |s| ==> s[i] <= s[j]
  }

  function Insert(x: real, s: seq<real>): (r: seq<real>)
    requires Sorted(s)
    ensures |r| == |s| + 1
    ensures r[0] == (if s == [] || x <= s[0] then x else s[0])
    ensures Sorted(r)
    ensures multiset(r) == multiset(s) + multiset{x}
  {
    if s == [] then [x]
    else if x <= s[0] then [x] + s
    else
      assert s == [s[0]] + s[1..];
      [s[0]] + Insert(x, s[1..])
  }

  /** The values in ascending order (the ranking `quantile` interpolates over). */
  function SortAscending(s: seq<real>): (r: seq<real>)
    ensures Sorted(r)
    ensures multiset(r) == multiset(s)
    ensures |r| == |s|
  {
    if s == [] then []
    else
      assert s == [s[0]] + s[1..];
      Insert(s[0], SortAscending(s[1..]))
  }

  /**
   * The value of a sorted sequence at the fractional rank `quarters / 4`,
   * interpolating linearly between the two neighbouring ranks.
   */
  function RankValue(s: seq<real>, quarters: nat): real
    requires Sorted(s) && |s| > 0 && quarters <= 4 * (|s| - 1)
  {
    var j := quarters / 4;
    var f := quarters % 4;
    if f == 0 then s[j] else s[j] + ((f as real) / 4.0) * (s[j + 1] - s[j])
  }

  /** A fractional rank that is not whole lies between its two neighbours. */
  lemma RankValueBetween(s: seq<real>, quarters: nat)
    requires Sorted(s) && |s| > 0 && quarters <= 4 * (|s| - 1)
    ensures s[quarters / 4] <= RankValue(s, quarters)
    ensures quarters % 4 != 0 ==> RankValue(s, quarters) <= s[quarters / 4 + 1]
  {
    var j := quarters / 4;
    var f := quarters % 4;
    if f != 0 {
      var d := s[j + 1] - s[j];
      assert d >= 0.0;
      if f == 1 { assert RankValue(s, quarters) == s[j] + d / 4.0; }
      else if f == 2 { assert RankValue(s, quarters) == s[j] + d / 2.0; }
      else { assert f == 3 && (f as real) == 3.0; }
    }
  }

  lemma ScaleMonotone(x: real, y: real, d: real)
    requires x <= y && d >= 0.0
    ensures x * d <= y * d
  {
    assert y * d - x * d == (y - x) * d;
  }

  /** Interpolation is monotone in the rank. */
  lemma RankValueMonotone(s: seq<real>, a: nat, b: nat)
    requires Sorted(s) && |s| > 0 && a <= b <= 4 * (|s| - 1)
    ensures RankValue(s, a) <= RankValue(s, b)
  {
    RankValueBetween(s, a);
    RankValueBetween(s, b);
    var ja, jb := a / 4, b / 4;
    if ja == jb && a % 4 != 0 {
      var d := s[ja + 1] - s[ja];
      assert b % 4 != 0 && a % 4 <= b % 4;
      var fa, fb := (a % 4) as real, (b % 4) as real;
      assert fa <= fb;
      ScaleMonotone(fa / 4.0, fb / 4.0, d);
      assert RankValue(s, a) == s[ja] + fa / 4.0 * d;
      assert RankValue(s, b) == s[ja] + fb / 4.0 * d;
    } else if a % 4 == 0 {
      assert RankValue(s, a) == s[ja] && s[ja] <= s[jb];
    } else {
      assert ja < jb;
      assert s[ja + 1] <= s[jb];
    }
  }

  /**
   * The first quartile: `quantile(0.25)` over the values, by linear
   * interpolation. Its rank among the sorted values is (n - 1) / 4, so it is
   * the sorted value at that rank when the rank is whole, and otherwise lies
   * between the sorted values at the two ranks around it.
   */
  function LowerQuartile(s: seq<real>): (q: real)
    requires |s| > 0
    ensures SortAscending(s)[(|s| - 1) / 4] <= q
    ensures (|s| - 1) % 4 == 0 ==> q == SortAscending(s)[(|s| - 1) / 4]
    ensures (|s| - 1) % 4 != 0 ==> q <= SortAscending(s)[(|s| - 1) / 4 + 1]
  {
    RankValueBetween(SortAscending(s), |s| - 1);
    RankValue(SortAscending(s), |s| - 1)
  }

  /**
   * The third quartile: `quantile(0.75)` over the values, by linear
   * interpolation at the rank 3 (n - 1) / 4 among the sorted values.
   */
  function UpperQuartile(s: seq<real>): (q: real)
    requires |s| > 0
    ensures SortAscending(s)[3 * (|s| - 1) / 4] <= q
    ensures (3 * (|s| - 1)) % 4 == 0 ==> q == SortAscending(s)[3 * (|s| - 1) / 4]
    ensures (3 * (|s| - 1)) % 4 != 0 ==> q <= SortAscending(s)[3 * (|s| - 1) / 4 + 1]
  {
    RankValueBetween(SortAscending(s), 3 * (|s| - 1));
    RankValue(SortAscending(s), 3 * (|s| - 1))
  }

  /** The first quartile is at most the third, so the interquartile range is never negative. */
  lemma QuartilesOrdered(s: seq<real>)
    requires |s| > 0
    ensures LowerQuartile(s) <= UpperQuartile(s)
  {
    RankValueMonotone(SortAscending(s), |s| - 1, 3 * (|s| - 1));
  }

  /** Both quartiles lie within the range of the values. */
  lemma QuartilesWithinRange(s: seq<real>)
    requires |s| > 0
    ensures exists i :: 0 <= i < |s| && s[i] <= LowerQuartile(s)
    ensures exists i :: 0 <= i < |s| && LowerQuartile(s) <= s[i]
    ensures exists i :: 0 <= i < |s| && s[i] <= UpperQuartile(s)
    ensures exists i :: 0 <= i < |s| && UpperQuartile(s) <= s[i]
  {
    var sorted := SortAscending(s);
    var last := 4 * (|s| - 1);
    assert RankValue(sorted, 0) == sorted[0];
    assert RankValue(sorted, last) == sorted[|s| - 1];
    RankValueMonotone(sorted, 0, |s| - 1);
    RankValueMonotone(sorted, 3 * (|s| - 1), last);
    assert sorted[0] in multiset(s) && sorted[|s| - 1] in multiset(s);
    var i :| 0 <= i < |s| && s[i] == sorted[0];
    var j :| 0 <= j < |s| && s[j] == sorted[|s| - 1];
    QuartilesOrdered(s);
  }
}
