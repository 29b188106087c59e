/**
 * Worked examples of the handler on small tables: the interquartile rule
 * on a column with a missing value and one far value, the z-score rule on
 * any table of at most ten rows, and a table whose index labels repeat, which trips the
 * mismatch warning of the report. Sequences are written as chains of
 * `[x] + s` so that each step of a computation is one small lemma call.
 */
module Scenarios {
  import opened DataFrame
  import opened Statistics
  import opened OutlierRules
  import opened OutlierHandling

  // Single steps of the recursive definitions, on a sequence `[x] + s`.

  lemma SortCons(x: real, s: seq<real>)
    ensures SortAscending([x] + s) == Insert(x, SortAscending(s))
  {
    assert ([x] + s)[1..] == s;
  }

  lemma InsertFront(x: real, s: seq<real>)
    requires Sorted(s) && (s == [] || x <= s[0])
    ensures Insert(x, s) == [x] + s
  {
  }

  lemma InsertPast(x: real, y: real, s: seq<real>)
    requires Sorted([y] + s) && x > y
    ensures Sorted(s)
    ensures Insert(x, [y] + s) == [y] + Insert(x, s)
  {
    assert ([y] + s)[1..] == s;
  }

  lemma WhereKeep(x: Row, rows: seq<Row>, m: Mask)
    requires Holds(m, x)
    ensures Where([x] + rows, m) == [x] + Where(rows, m)
  {
    assert ([x] + rows)[1..] == rows;
  }

  lemma WhereSkip(x: Row, rows: seq<Row>, m: Mask)
    requires !Holds(m, x)
    ensures Where([x] + rows, m) == Where(rows, m)
  {
    assert ([x] + rows)[1..] == rows;
  }

  lemma WhereEmpty(m: Mask)
    ensures Where([], m) == []
  {
  }

  lemma ValuesEmpty(c: string)
    ensures AllPresent([], c) && Values([], c) == []
  {
  }

  lemma ValuesCons(x: Row, rows: seq<Row>, c: string)
    requires Cell(x, c).Some? && AllPresent(rows, c)
    ensures AllPresent([x] + rows, c)
    ensures Values([x] + rows, c) == [Cell(x, c).value] + Values(rows, c)
  {
    assert ([x] + rows)[1..] == rows;
  }

  /** A chain `[a] + ([b] + ...)` is the display of its elements. */
  lemma ChainIsDisplay(a: Row, b: Row, c: Row, d: Row, e: Row, f: Row)
    ensures [a] + ([b] + ([c] + [])) == [a, b, c]
    ensures [a] + ([b] + ([c] + ([d] + []))) == [a, b, c, d]
    ensures [a] + ([b] + ([c] + ([d] + ([e] + [])))) == [a, b, c, d, e]
    ensures [a] + ([b] + ([c] + ([d] + ([e] + ([f] + []))))) == [a, b, c, d, e, f]
  {
  }

  // The column [10, 12, 11, 13, NaN, 200] under the interquartile rule.

  /** The present values sort to [10, 11, 12, 13, 200]: Q1 = 11 and Q3 = 13. */
  lemma SpreadQuartiles()
    ensures LowerQuartile([10.0] + ([12.0] + ([11.0] + ([13.0] + ([200.0] + []))))) == 11.0
    ensures UpperQuartile([10.0] + ([12.0] + ([11.0] + ([13.0] + ([200.0] + []))))) == 13.0
  {
    var a := [200.0] + [];
    var b := [13.0] + a;
    var c := [11.0] + b;
    var d := [12.0] + c;
    SortCons(200.0, []);
    InsertFront(200.0, []);
    SortCons(13.0, a);
    InsertFront(13.0, a);
    SortCons(11.0, b);
    InsertFront(11.0, b);
    SortCons(12.0, c);
    InsertPast(12.0, 11.0, b);
    InsertFront(12.0, b);
    SortCons(10.0, d);
    InsertFront(10.0, [11.0] + ([12.0] + b));
    var sorted := [10.0] + ([11.0] + ([12.0] + b));
    assert SortAscending([10.0] + d) == sorted;
    assert sorted[1] == 11.0 && sorted[3] == 13.0;
  }

  /** Splitting six rows whose fifth value is missing. */
  lemma SpreadMissing(r0: Row, r1: Row, r2: Row, r3: Row, r4: Row, r5: Row)
    requires Cell(r0, "value").Some? && Cell(r1, "value").Some? && Cell(r2, "value").Some?
    requires Cell(r3, "value").Some? && Cell(r4, "value").None? && Cell(r5, "value").Some?
    ensures Where([r0] + ([r1] + ([r2] + ([r3] + ([r4] + ([r5] + []))))), IsNa("value")) == [r4] + []
    ensures Where([r0] + ([r1] + ([r2] + ([r3] + ([r4] + ([r5] + []))))), Not(IsNa("value"))) ==
      [r0] + ([r1] + ([r2] + ([r3] + ([r5] + []))))
  {
    hide Where;
    var na := IsNa("value");
    WhereEmpty(na);
    WhereSkip(r5, [], na);
    WhereKeep(r4, [r5] + [], na);
    WhereSkip(r3, [r4] + ([r5] + []), na);
    WhereSkip(r2, [r3] + ([r4] + ([r5] + [])), na);
    WhereSkip(r1, [r2] + ([r3] + ([r4] + ([r5] + []))), na);
    WhereSkip(r0, [r1] + ([r2] + ([r3] + ([r4] + ([r5] + [])))), na);
    var some := Not(IsNa("value"));
    WhereEmpty(some);
    WhereKeep(r5, [], some);
    WhereSkip(r4, [r5] + [], some);
    WhereKeep(r3, [r4] + ([r5] + []), some);
    WhereKeep(r2, [r3] + ([r4] + ([r5] + [])), some);
    WhereKeep(r1, [r2] + ([r3] + ([r4] + ([r5] + []))), some);
    WhereKeep(r0, [r1] + ([r2] + ([r3] + ([r4] + ([r5] + [])))), some);
  }

  /** The interquartile rule on the present values 10, 12, 11, 13, 200 flags 200 alone. */
  lemma SpreadOutliers(r0: Row, r1: Row, r2: Row, r3: Row, r5: Row)
    requires Cell(r0, "value") == Some(10.0) && Cell(r1, "value") == Some(12.0) && Cell(r2, "value") == Some(11.0)
    requires Cell(r3, "value") == Some(13.0) && Cell(r5, "value") == Some(200.0)
    ensures AllPresent([r0] + ([r1] + ([r2] + ([r3] + ([r5] + [])))), "value")
    ensures InterquartileOutliers([r0] + ([r1] + ([r2] + ([r3] + ([r5] + [])))), "value") == [r5] + []
  {
    hide Where, Values;
    var present := [r0] + ([r1] + ([r2] + ([r3] + ([r5] + []))));
    ValuesEmpty("value");
    ValuesCons(r5, [], "value");
    ValuesCons(r3, [r5] + [], "value");
    ValuesCons(r2, [r3] + ([r5] + []), "value");
    ValuesCons(r1, [r2] + ([r3] + ([r5] + [])), "value");
    ValuesCons(r0, [r1] + ([r2] + ([r3] + ([r5] + []))), "value");
    assert Values(present, "value") == [10.0] + ([12.0] + ([11.0] + ([13.0] + ([200.0] + []))));
    SpreadQuartiles();
    var fences := FenceMask("value", 11.0, 13.0);
    WhereEmpty(fences);
    WhereKeep(r5, [], fences);
    WhereSkip(r3, [r5] + [], fences);
    WhereSkip(r2, [r3] + ([r5] + []), fences);
    WhereSkip(r1, [r2] + ([r3] + ([r5] + [])), fences);
    WhereSkip(r0, [r1] + ([r2] + ([r3] + ([r5] + []))), fences);
  }

  /** Removing the label of the last of five rows, when no other row carries it. */
  lemma SpreadNonOutliers(r0: Row, r1: Row, r2: Row, r3: Row, r5: Row)
    requires r5.id != r0.id && r5.id != r1.id && r5.id != r2.id && r5.id != r3.id
    ensures Where([r0] + ([r1] + ([r2] + ([r3] + ([r5] + [])))), Not(IndexIn(Ids([r5] + [])))) ==
      [r0] + ([r1] + ([r2] + ([r3] + [])))
  {
    hide Where;
    assert Ids([r5] + []) == {r5.id};
    var keep := Not(IndexIn({r5.id}));
    WhereEmpty(keep);
    WhereSkip(r5, [], keep);
    WhereKeep(r3, [r5] + [], keep);
    WhereKeep(r2, [r3] + ([r5] + []), keep);
    WhereKeep(r1, [r2] + ([r3] + ([r5] + [])), keep);
    WhereKeep(r0, [r1] + ([r2] + ([r3] + ([r5] + []))), keep);
  }

  /**
   * The interquartile rule on the column [10, 12, 11, 13, NaN, 200] with
   * distinct labels: Q1 = 11 and Q3 = 13 put the fences at 8 and 16, so
   * 200 is the one outlier, the NaN row the one missing row and the four
   * other rows the non-outliers.
   */
  lemma InterquartileFlagsTheFarValue(h: OutlierHandler, r0: Row, r1: Row, r2: Row, r3: Row, r4: Row, r5: Row)
    requires h.calculationMethod == Interquartile
    requires Cell(r0, "value") == Some(10.0) && Cell(r1, "value") == Some(12.0) && Cell(r2, "value") == Some(11.0)
    requires Cell(r3, "value") == Some(13.0) && Cell(r4, "value") == None && Cell(r5, "value") == Some(200.0)
    requires r5.id != r0.id && r5.id != r1.id && r5.id != r2.id && r5.id != r3.id
    ensures var t := Table([Column("value", true)], [r0, r1, r2, r3, r4, r5]);
      h.GetMissing(t, "value") == Ok([r4]) &&
      h.GetOutliers(t, "value") == Ok([r5]) &&
      h.GetNonOutliers(t, "value") == Ok([r0, r1, r2, r3])
  {
    hide Where, Values, Cell, OrderedSelection, Subsequence;
    var t := Table([Column("value", true)], [r0, r1, r2, r3, r4, r5]);
    ChainIsDisplay(r0, r1, r2, r3, r4, r5);
    assert t.rows == [r0] + ([r1] + ([r2] + ([r3] + ([r4] + ([r5] + [])))));
    assert HasColumn(t, "value") by { assert t.columns[0].name == "value"; }
    SpreadMissing(r0, r1, r2, r3, r4, r5);
    SpreadOutliers(r0, r1, r2, r3, r5);
    SpreadNonOutliers(r0, r1, r2, r3, r5);
    var present := [r0] + ([r1] + ([r2] + ([r3] + ([r5] + []))));
    assert h.GetNonMissing(t, "value") == Ok(present);
    assert h.GetOutliers(t, "value") == Ok([r5] + []);
    assert [r5] + [] == [r5];
    assert [r4] + [] == [r4];
    assert h.GetMissing(t, "value") == Ok([r4]);
    assert h.FilterOut(present, [r5] + []) == [r0] + ([r1] + ([r2] + ([r3] + [])));
    assert h.GetNonOutliers(t, "value") == Ok([r0, r1, r2, r3]);
  }

  /**
   * The z-score rule never flags anything in a table of at most ten rows:
   * the column [1, 2, 3, 4, 5, 100], say, keeps 100 (its z-score is at most
   * sqrt(5) < 3).
   */
  lemma ZScoreFlagsNothingInSmallTables(h: OutlierHandler, t: Table, c: string)
    requires h.calculationMethod == ZScore && HasColumn(t, c) && |t.rows| <= 10
    ensures h.GetOutliers(t, c) == Ok([])
  {
    ZScoreNeedsMoreThanTenRows(h.GetNonMissing(t, c).value, c);
  }

  // The column [1, 1, 1, 1, 100] whose last two rows share a label.

  /** The values are sorted already: Q1 = Q3 = 1. */
  lemma RepeatedQuartiles()
    ensures LowerQuartile([1.0] + ([1.0] + ([1.0] + ([1.0] + ([100.0] + []))))) == 1.0
    ensures UpperQuartile([1.0] + ([1.0] + ([1.0] + ([1.0] + ([100.0] + []))))) == 1.0
  {
    var a := [100.0] + [];
    var b := [1.0] + a;
    var c := [1.0] + b;
    var d := [1.0] + c;
    SortCons(100.0, []);
    InsertFront(100.0, []);
    SortCons(1.0, a);
    InsertFront(1.0, a);
    SortCons(1.0, b);
    InsertFront(1.0, b);
    SortCons(1.0, c);
    InsertFront(1.0, c);
    SortCons(1.0, d);
    InsertFront(1.0, d);
    var sorted := [1.0] + d;
    assert SortAscending(sorted) == sorted;
    assert sorted[1] == 1.0 && sorted[3] == 1.0;
  }

  /** Five rows without a missing value. */
  lemma RepeatedPresent(r0: Row, r1: Row, r2: Row, r3: Row, r4: Row)
    requires Cell(r0, "value").Some? && Cell(r1, "value").Some? && Cell(r2, "value").Some?
    requires Cell(r3, "value").Some? && Cell(r4, "value").Some?
    ensures Where([r0] + ([r1] + ([r2] + ([r3] + ([r4] + [])))), IsNa("value")) == []
    ensures Where([r0] + ([r1] + ([r2] + ([r3] + ([r4] + [])))), Not(IsNa("value"))) ==
      [r0] + ([r1] + ([r2] + ([r3] + ([r4] + []))))
  {
    hide Where;
    var na := IsNa("value");
    WhereEmpty(na);
    WhereSkip(r4, [], na);
    WhereSkip(r3, [r4] + [], na);
    WhereSkip(r2, [r3] + ([r4] + []), na);
    WhereSkip(r1, [r2] + ([r3] + ([r4] + [])), na);
    WhereSkip(r0, [r1] + ([r2] + ([r3] + ([r4] + []))), na);
    var some := Not(IsNa("value"));
    WhereEmpty(some);
    WhereKeep(r4, [], some);
    WhereKeep(r3, [r4] + [], some);
    WhereKeep(r2, [r3] + ([r4] + []), some);
    WhereKeep(r1, [r2] + ([r3] + ([r4] + [])), some);
    WhereKeep(r0, [r1] + ([r2] + ([r3] + ([r4] + []))), some);
  }

  /** The interquartile rule on the values 1, 1, 1, 1, 100 flags 100 alone. */
  lemma RepeatedOutliers(r0: Row, r1: Row, r2: Row, r3: Row, r4: Row)
    requires Cell(r0, "value") == Some(1.0) && Cell(r1, "value") == Some(1.0) && Cell(r2, "value") == Some(1.0)
    requires Cell(r3, "value") == Some(1.0) && Cell(r4, "value") == Some(100.0)
    ensures AllPresent([r0] + ([r1] + ([r2] + ([r3] + ([r4] + [])))), "value")
    ensures InterquartileOutliers([r0] + ([r1] + ([r2] + ([r3] + ([r4] + [])))), "value") == [r4] + []
  {
    hide Where, Values;
    var rows := [r0] + ([r1] + ([r2] + ([r3] + ([r4] + []))));
    ValuesEmpty("value");
    ValuesCons(r4, [], "value");
    ValuesCons(r3, [r4] + [], "value");
    ValuesCons(r2, [r3] + ([r4] + []), "value");
    ValuesCons(r1, [r2] + ([r3] + ([r4] + [])), "value");
    ValuesCons(r0, [r1] + ([r2] + ([r3] + ([r4] + []))), "value");
    assert Values(rows, "value") == [1.0] + ([1.0] + ([1.0] + ([1.0] + ([100.0] + []))));
    RepeatedQuartiles();
    var fences := FenceMask("value", 1.0, 1.0);
    WhereEmpty(fences);
    WhereKeep(r4, [], fences);
    WhereSkip(r3, [r4] + [], fences);
    WhereSkip(r2, [r3] + ([r4] + []), fences);
    WhereSkip(r1, [r2] + ([r3] + ([r4] + [])), fences);
    WhereSkip(r0, [r1] + ([r2] + ([r3] + ([r4] + []))), fences);
  }

  /** Removing the label of the last of five rows also removes the fourth, which carries it too. */
  lemma RepeatedNonOutliers(r0: Row, r1: Row, r2: Row, r3: Row, r4: Row)
    requires r3.id == r4.id && r4.id != r0.id && r4.id != r1.id && r4.id != r2.id
    ensures Where([r0] + ([r1] + ([r2] + ([r3] + ([r4] + [])))), Not(IndexIn(Ids([r4] + [])))) ==
      [r0] + ([r1] + ([r2] + []))
  {
    hide Where;
    assert Ids([r4] + []) == {r4.id};
    var keep := Not(IndexIn({r4.id}));
    WhereEmpty(keep);
    WhereSkip(r4, [], keep);
    WhereSkip(r3, [r4] + [], keep);
    WhereKeep(r2, [r3] + ([r4] + []), keep);
    WhereKeep(r1, [r2] + ([r3] + ([r4] + [])), keep);
    WhereKeep(r0, [r1] + ([r2] + ([r3] + ([r4] + []))), keep);
  }

  /**
   * Why the labels must be distinct: in the column [1, 1, 1, 1, 100] whose
   * last two rows share a label, 100 is the one outlier, removing it by
   * label also removes the other row with that label, the counts add up
   * to 4 of the 5 rows, and the report warns about the column.
   */
  lemma RepeatedLabelsTripTheWarning(h: OutlierHandler, r0: Row, r1: Row, r2: Row, r3: Row, r4: Row)
    requires h.calculationMethod == Interquartile
    requires Cell(r0, "value") == Some(1.0) && Cell(r1, "value") == Some(1.0) && Cell(r2, "value") == Some(1.0)
    requires Cell(r3, "value") == Some(1.0) && Cell(r4, "value") == Some(100.0)
    requires r3.id == r4.id && r4.id != r0.id && r4.id != r1.id && r4.id != r2.id
    ensures var t := Table([Column("value", true)], [r0, r1, r2, r3, r4]);
      h.GetMissing(t, "value") == Ok([]) &&
      h.GetOutliers(t, "value") == Ok([r4]) &&
      h.GetNonOutliers(t, "value") == Ok([r0, r1, r2]) &&
      h.Mismatch(t, "value") &&
      Flagged(t.columns, [], h.MismatchOf(t), 1) == ["value"]
  {
    hide Where, Values, Cell, OrderedSelection, Subsequence;
    var t := Table([Column("value", true)], [r0, r1, r2, r3, r4]);
    var rows := [r0] + ([r1] + ([r2] + ([r3] + ([r4] + []))));
    ChainIsDisplay(r0, r1, r2, r3, r4, r4);
    assert t.rows == rows;
    assert HasColumn(t, "value") by { assert t.columns[0].name == "value"; }
    RepeatedPresent(r0, r1, r2, r3, r4);
    RepeatedOutliers(r0, r1, r2, r3, r4);
    RepeatedNonOutliers(r0, r1, r2, r3, r4);
    assert h.GetMissing(t, "value") == Ok([]);
    assert h.GetNonMissing(t, "value") == Ok(rows);
    assert h.GetOutliers(t, "value") == Ok([r4] + []);
    assert [r4] + [] == [r4];
    assert h.FilterOut(rows, [r4] + []) == [r0] + ([r1] + ([r2] + []));
    assert h.GetNonOutliers(t, "value") == Ok([r0, r1, r2]);
    assert h.Mismatch(t, "value");
    assert Selected(t.columns[0], []);
  }

  /** A handler built without arguments uses the z-score rule. */
  method DefaultHandler() returns (calculationMethod: OutlierCalculationMethod)
    ensures calculationMethod == ZScore
  {
    var h := new OutlierHandler();
    calculationMethod := h.calculationMethod;
  }
}
