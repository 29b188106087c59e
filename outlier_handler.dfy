/**
 * `OutlierHandler`: for one column of a table it splits the rows into the
 * missing, the outlier and the non-outlier rows, and over the numeric
 * columns of a table it builds a report of the three counts and their
 * percentages of the row count.
 */
module OutlierHandling {
  import opened DataFrame
  import opened OutlierRules

  /** The exceptions the handler lets escape. */
  datatype Error =
    | KeyError(column: string)   // the table has no such column
    | ZeroDivisionError          // a percentage of a table without rows

  datatype Result<T> = Ok(value: T) | Err(error: Error)

  /** `p` is `part` as a percentage of `whole`. */
  predicate IsPercentage(p: real, part: nat, whole: nat)
  {
    p * (whole as real) == 100.0 * (part as real)
  }

  /** `percentage(part, whole)`: `part` as a percentage of `whole`, without the rounding. */
  function Percentage(part: nat, whole: nat): (r: Result<real>)
    ensures whole == 0 ==> r == Err(ZeroDivisionError)
    ensures whole > 0 ==> r.Ok? && IsPercentage(r.value, part, whole)
    ensures whole > 0 && part <= whole ==> 0.0 <= r.value <= 100.0
  {
    if whole == 0 then Err(ZeroDivisionError)
    else Ok(100.0 * (part as real) / (whole as real))
  }

  /** Percentages of three real parts that make up a positive whole add up to 100. */
  lemma ShareOfWhole(p: real, q: real, s: real, x: real, y: real, z: real, w: real)
    requires w > 0.0 && x + y + z == w
    requires p * w == 100.0 * x && q * w == 100.0 * y && s * w == 100.0 * z
    ensures p + q + s == 100.0
  {
    var e := p + q + s - 100.0;
    assert e * w == p * w + q * w + s * w - 100.0 * w;
    assert e == (e * w) / w;
  }

  /** Three parts that make up the whole make up a hundred percent. */
  lemma PercentagesAddUp(p: real, q: real, s: real, a: nat, b: nat, c: nat, whole: nat)
    requires whole > 0 && a + b + c == whole
    requires IsPercentage(p, a, whole) && IsPercentage(q, b, whole) && IsPercentage(s, c, whole)
    ensures p + q + s == 100.0
  {
    ShareOfWhole(p, q, s, a as real, b as real, c as real, whole as real);
  }

  /** The sub-tables a report entry carries when `output_dataframes` is set. */
  datatype ReportFrames = ReportFrames(missing: seq<Row>, outliers: seq<Row>, nonOutliers: seq<Row>)

  /** One column's entry of `get_outliers_information`. */
  datatype ColumnReport = ColumnReport(
    missingCount: nat, missingPercentage: real,
    outlierCount: nat, outlierPercentage: real,
    nonOutlierCount: nat, nonOutlierPercentage: real,
    frames: Option<ReportFrames>)

  /** A column enters the report when it is numeric and, if a selection is given, selected. */
  predicate Selected(col: Column, columns: seq<string>)
  {
    col.numeric && (|columns| == 0 || col.name in columns)
  }

  /** Among the first `n` of `cols` there is a selected column named `c`. */
  predicate SelectedAmong(cols: seq<Column>, columns: seq<string>, n: nat, c: string)
    requires n <= |cols|
  {
    exists j :: 0 <= j < n && Selected(cols[j], columns) && cols[j].name == c
  }

  lemma SelectedAmongNext(cols: seq<Column>, columns: seq<string>, n: nat, c: string)
    requires n < |cols|
    ensures SelectedAmong(cols, columns, n + 1, c) <==>
      SelectedAmong(cols, columns, n, c) || (Selected(cols[n], columns) && c == cols[n].name)
  {
    if SelectedAmong(cols, columns, n + 1, c) && !SelectedAmong(cols, columns, n, c) {
      var j :| 0 <= j < n + 1 && Selected(cols[j], columns) && cols[j].name == c;
      assert j == n;
    }
  }

  /**
   * The map a loop over the first `n` of `cols` builds when each selected
   * column stores `entry` of its name: the shape of the report.
   */
  ghost function Collect(cols: seq<Column>, columns: seq<string>, entry: string -> ColumnReport, n: nat): map<string, ColumnReport>
    requires n <= |cols|
  {
    if n == 0 then map[]
    else
      var before := Collect(cols, columns, entry, n - 1);
      if Selected(cols[n - 1], columns) then before[cols[n - 1].name := entry(cols[n - 1].name)] else before
  }

  /** The collected map has a key exactly for each selected column. */
  lemma {:induction false} CollectKeys(cols: seq<Column>, columns: seq<string>, entry: string -> ColumnReport, n: nat, c: string)
    requires n <= |cols|
    ensures c in Collect(cols, columns, entry, n) <==> SelectedAmong(cols, columns, n, c)
  {
    if n > 0 {
      CollectKeys(cols, columns, entry, n - 1, c);
      SelectedAmongNext(cols, columns, n - 1, c);
    }
  }

  /** Each collected entry is the entry of its own column. */
  lemma {:induction false} CollectEntry(cols: seq<Column>, columns: seq<string>, entry: string -> ColumnReport, n: nat, c: string)
    requires n <= |cols| && c in Collect(cols, columns, entry, n)
    ensures Collect(cols, columns, entry, n)[c] == entry(c)
  {
    if !(Selected(cols[n - 1], columns) && c == cols[n - 1].name) {
      CollectEntry(cols, columns, entry, n - 1, c);
    }
  }

  /** The names of the selected columns, among the first `n` of `cols`, that `bad` flags, in order. */
  ghost function Flagged(cols: seq<Column>, columns: seq<string>, bad: string -> bool, n: nat): seq<string>
    requires n <= |cols|
  {
    if n == 0 then []
    else
      var flag := Selected(cols[n - 1], columns) && bad(cols[n - 1].name);
      Flagged(cols, columns, bad, n - 1) + (if flag then [cols[n - 1].name] else [])
  }

  /** One more column: its name is appended exactly when `flag`, its verdict, holds. */
  lemma FlaggedNext(cols: seq<Column>, columns: seq<string>, bad: string -> bool, n: nat, flag: bool)
    requires n < |cols| && flag == (Selected(cols[n], columns) && bad(cols[n].name))
    ensures Flagged(cols, columns, bad, n + 1) == Flagged(cols, columns, bad, n) + (if flag then [cols[n].name] else [])
  {
  }

  /** One more column: its entry is stored under its name when it is selected. */
  lemma CollectNext(cols: seq<Column>, columns: seq<string>, entry: string -> ColumnReport, n: nat, e: ColumnReport)
    requires n < |cols| && e == entry(cols[n].name)
    ensures Collect(cols, columns, entry, n + 1) ==
      if Selected(cols[n], columns) then Collect(cols, columns, entry, n)[cols[n].name := e] else Collect(cols, columns, entry, n)
  {
  }

  /** Nothing is flagged when `bad` holds of no selected column. */
  lemma {:induction false} FlaggedNone(cols: seq<Column>, columns: seq<string>, bad: string -> bool, n: nat)
    requires n <= |cols|
    requires forall j :: 0 <= j < n && Selected(cols[j], columns) ==> !bad(cols[j].name)
    ensures Flagged(cols, columns, bad, n) == []
  {
    if n > 0 {
      FlaggedNone(cols, columns, bad, n - 1);
    }
  }

  /** A name is flagged exactly when a selected column carries it and `bad` holds of it. */
  lemma {:induction false} FlaggedMembers(cols: seq<Column>, columns: seq<string>, bad: string -> bool, n: nat, c: string)
    requires n <= |cols|
    ensures c in Flagged(cols, columns, bad, n) <==> SelectedAmong(cols, columns, n, c) && bad(c)
  {
    if n > 0 {
      FlaggedMembers(cols, columns, bad, n - 1, c);
      SelectedAmongNext(cols, columns, n - 1, c);
    }
  }

  class OutlierHandler {
    const calculationMethod: OutlierCalculationMethod

    /** The rule is fixed at construction; the default is the z-score rule. */
    constructor (calculationMethod: OutlierCalculationMethod := ZScore)
      ensures this.calculationMethod == calculationMethod
    {
      this.calculationMethod := calculationMethod;
    }

    /** `get_missing`: the rows whose value in column `c` is missing. */
    function GetMissing(t: Table, c: string): (r: Result<seq<Row>>)
      ensures r.Err? <==> !HasColumn(t, c)
      ensures r.Err? ==> r.error == KeyError(c)
      ensures r.Ok? ==> forall x :: x in r.value <==> x in t.rows && Cell(x, c).None?
      ensures r.Ok? ==> OrderedSelection(r.value, t.rows)
    {
      WhereSelects(t.rows, IsNa(c));
      if !HasColumn(t, c) then Err(KeyError(c)) else Ok(Where(t.rows, IsNa(c)))
    }

    /** `get_non_missing`: the rows whose value in column `c` is present. */
    function GetNonMissing(t: Table, c: string): (r: Result<seq<Row>>)
      ensures r.Err? <==> !HasColumn(t, c)
      ensures r.Err? ==> r.error == KeyError(c)
      ensures r.Ok? ==> forall x :: x in r.value <==> x in t.rows && Cell(x, c).Some?
      ensures r.Ok? ==> AllPresent(r.value, c)
      ensures r.Ok? ==> OrderedSelection(r.value, t.rows)
    {
      assert forall x :: Holds(Not(IsNa(c)), x) <==> Cell(x, c).Some?;
      WhereSelects(t.rows, Not(IsNa(c)));
      if !HasColumn(t, c) then Err(KeyError(c)) else Ok(Where(t.rows, Not(IsNa(c))))
    }

    /**
     * `get_outliers`: the rule chosen at construction, applied to the
     * non-missing rows only.
     */
    function GetOutliers(t: Table, c: string): (r: Result<seq<Row>>)
      ensures r.Err? <==> !HasColumn(t, c)
      ensures r.Err? ==> r.error == KeyError(c)
      ensures r.Ok? ==> forall x :: x in r.value ==> x in GetNonMissing(t, c).value
      ensures r.Ok? && calculationMethod == Interquartile ==>
        r.value == InterquartileOutliers(GetNonMissing(t, c).value, c)
      ensures r.Ok? && calculationMethod == ZScore ==>
        r.value == ZScoreOutliers(GetNonMissing(t, c).value, c)
      ensures r.Ok? ==> OrderedSelection(r.value, GetNonMissing(t, c).value)
    {
      match GetNonMissing(t, c)
      case Err(e) => Err(e)
      case Ok(nonMissing) =>
        DetectOutliersSelects(calculationMethod, nonMissing, c);
        Ok(DetectOutliers(calculationMethod, nonMissing, c))
    }

    /** `__filter_dataframe_out`: the rows whose index label is not a label of `filter`. */
    function FilterOut(rows: seq<Row>, filter: seq<Row>): (r: seq<Row>)
      ensures forall x :: x in r <==> x in rows && !SharesId(x, filter)
      ensures OrderedSelection(r, rows)
    {
      assert forall x :: Holds(Not(IndexIn(Ids(filter))), x) <==> !SharesId(x, filter);
      WhereSelects(rows, Not(IndexIn(Ids(filter))));
      Where(rows, Not(IndexIn(Ids(filter))))
    }

    /**
     * `get_non_outliers`: the non-missing rows without the outliers, matched
     * by index label. Such a row is neither missing nor an outlier.
     */
    function GetNonOutliers(t: Table, c: string): (r: Result<seq<Row>>)
      ensures r.Err? <==> !HasColumn(t, c)
      ensures r.Err? ==> r.error == KeyError(c)
      ensures r.Ok? ==> forall x :: x in r.value <==>
        x in GetNonMissing(t, c).value && !SharesId(x, GetOutliers(t, c).value)
      ensures r.Ok? ==> forall x :: x in r.value ==>
        x !in GetMissing(t, c).value && x !in GetOutliers(t, c).value
      ensures r.Ok? ==> OrderedSelection(r.value, GetNonMissing(t, c).value)
    {
      match GetNonMissing(t, c)
      case Err(e) => Err(e)
      case Ok(nonMissing) =>
        match GetOutliers(t, c)
        case Err(e) => Err(e)
        case Ok(outliers) => Ok(FilterOut(nonMissing, outliers))
    }

    /**
     * The partition theorem: when the index labels are distinct, the
     * missing, outlier and non-outlier rows of a column are pairwise
     * disjoint, together hold every row, and their counts add up to the
     * row count.
     */
    lemma Partition(t: Table, c: string)
      requires HasColumn(t, c) && UniqueIds(t.rows)
      ensures forall x :: x in t.rows <==>
        x in GetMissing(t, c).value || x in GetOutliers(t, c).value || x in GetNonOutliers(t, c).value
      ensures forall x :: !(x in GetMissing(t, c).value && x in GetOutliers(t, c).value)
      ensures forall x :: !(x in GetMissing(t, c).value && x in GetNonOutliers(t, c).value)
      ensures forall x :: !(x in GetOutliers(t, c).value && x in GetNonOutliers(t, c).value)
      ensures |GetMissing(t, c).value| + |GetOutliers(t, c).value| + |GetNonOutliers(t, c).value| == |t.rows|
    {
      var nonMissing := GetNonMissing(t, c).value;
      WhereComplement(t.rows, IsNa(c));
      WhereKeepsUniqueIds(t.rows, Not(IsNa(c)));
      DetectOutliersSelects(calculationMethod, nonMissing, c);
      var m :| DetectOutliers(calculationMethod, nonMissing, c) == Where(nonMissing, m);
      ExcludeSelected(nonMissing, m);
      WhereComplement(nonMissing, m);
    }

    /** The report entry of column `c`, as `get_outliers_information` builds it. */
    function Report(t: Table, c: string, withFrames: bool): (r: ColumnReport)
      requires HasColumn(t, c) && |t.rows| > 0
      ensures r.missingCount == |GetMissing(t, c).value|
      ensures r.outlierCount == |GetOutliers(t, c).value|
      ensures r.nonOutlierCount == |GetNonOutliers(t, c).value|
      ensures IsPercentage(r.missingPercentage, r.missingCount, |t.rows|)
      ensures IsPercentage(r.outlierPercentage, r.outlierCount, |t.rows|)
      ensures IsPercentage(r.nonOutlierPercentage, r.nonOutlierCount, |t.rows|)
      ensures r.frames.Some? <==> withFrames
      ensures r.frames.Some? ==>
        r.frames.value == ReportFrames(GetMissing(t, c).value, GetOutliers(t, c).value, GetNonOutliers(t, c).value)
    {
      var missing := GetMissing(t, c).value;
      var outliers := GetOutliers(t, c).value;
      var nonOutliers := GetNonOutliers(t, c).value;
      var total := |t.rows|;
      ColumnReport(
        |missing|, Percentage(|missing|, total).value,
        |outliers|, Percentage(|outliers|, total).value,
        |nonOutliers|, Percentage(|nonOutliers|, total).value,
        if withFrames then Some(ReportFrames(missing, outliers, nonOutliers)) else None)
    }

    /** With distinct index labels the counts of a report entry cover the table exactly. */
    lemma ReportAddsUp(t: Table, c: string, withFrames: bool)
      requires HasColumn(t, c) && |t.rows| > 0 && UniqueIds(t.rows)
      ensures Report(t, c, withFrames).missingCount + Report(t, c, withFrames).outlierCount +
        Report(t, c, withFrames).nonOutlierCount == |t.rows|
      ensures Report(t, c, withFrames).missingPercentage + Report(t, c, withFrames).outlierPercentage +
        Report(t, c, withFrames).nonOutlierPercentage == 100.0
    {
      Partition(t, c);
      var r := Report(t, c, withFrames);
      PercentagesAddUp(r.missingPercentage, r.outlierPercentage, r.nonOutlierPercentage,
        r.missingCount, r.outlierCount, r.nonOutlierCount, |t.rows|);
    }

    /** The count test of `get_outliers_information`: the three counts of column `c` miss the row count. */
    predicate Mismatch(t: Table, c: string)
      requires HasColumn(t, c)
      ensures |t.rows| == 0 ==> !Mismatch(t, c)
    {
      |GetMissing(t, c).value| + |GetOutliers(t, c).value| + |GetNonOutliers(t, c).value| != |t.rows|
    }

    /** With distinct index labels the count test of the report always passes. */
    lemma NoMismatchWithUniqueIds(t: Table, c: string)
      requires HasColumn(t, c) && UniqueIds(t.rows)
      ensures !Mismatch(t, c)
    {
      Partition(t, c);
    }

    /** The report entry of each column of `t`. */
    ghost function EntryOf(t: Table, withFrames: bool): string -> ColumnReport
    {
      c => if HasColumn(t, c) && |t.rows| > 0 then Report(t, c, withFrames) else ColumnReport(0, 0.0, 0, 0.0, 0, 0.0, None)
    }

    /** The columns of `t` whose counts miss the row count. */
    ghost function MismatchOf(t: Table): string -> bool
    {
      c => HasColumn(t, c) && Mismatch(t, c)
    }

    /** With distinct index labels the mismatch warning never fires. */
    lemma NoWarningsWithUniqueIds(t: Table, columns: seq<string>)
      requires UniqueIds(t.rows)
      ensures Flagged(t.columns, columns, MismatchOf(t), |t.columns|) == []
    {
      forall j | 0 <= j < |t.columns|
        ensures !MismatchOf(t)(t.columns[j].name)
      {
        if HasColumn(t, t.columns[j].name) {
          NoMismatchWithUniqueIds(t, t.columns[j].name);
        }
      }
      FlaggedNone(t.columns, columns, MismatchOf(t), |t.columns|);
    }

    /** A table without rows has three empty groups per column, so nothing to warn about. */
    lemma NoWarningsWithoutRows(t: Table, columns: seq<string>, n: nat)
      requires n <= |t.columns| && |t.rows| == 0
      ensures Flagged(t.columns, columns, MismatchOf(t), n) == []
    {
      FlaggedNone(t.columns, columns, MismatchOf(t), n);
    }

    /**
     * The body of the loop of `get_outliers_information` for one reported
     * column: the three groups, the count test, and the entry, whose
     * percentages divide by the row count.
     */
    method ColumnInformation(t: Table, c: string, withFrames: bool)
      returns (entry: Result<ColumnReport>, mismatch: bool)
      requires HasColumn(t, c)
      ensures mismatch == MismatchOf(t)(c)
      ensures entry.Err? <==> |t.rows| == 0
      ensures entry.Err? ==> entry.error == ZeroDivisionError
      ensures entry.Ok? ==> entry.value == EntryOf(t, withFrames)(c)
    {
      var total := |t.rows|;
      var missing := GetMissing(t, c).value;
      var outliers := GetOutliers(t, c).value;
      var nonOutliers := GetNonOutliers(t, c).value;
      mismatch := |missing| + |outliers| + |nonOutliers| != total;
      var missingPercentage := Percentage(|missing|, total);
      if missingPercentage.Err? {
        return Err(missingPercentage.error), mismatch;
      }
      entry := Ok(Report(t, c, withFrames));
    }

    /**
     * `get_outliers_information` without the logging: one entry per
     * selected numeric column, in column order, with the sub-tables when
     * `outputDataframes` holds; `warnings` lists the columns whose counts
     * miss the row count. A table without rows makes the first selected
     * column's percentage divide by zero.
     */
    method GetOutliersInformation(t: Table, outputDataframes: bool := true, columns: seq<string> := [])
      returns (result: Result<map<string, ColumnReport>>, warnings: seq<string>)
      ensures result.Err? <==>
        |t.rows| == 0 && exists j :: 0 <= j < |t.columns| && Selected(t.columns[j], columns)
      ensures result.Err? ==> result.error == ZeroDivisionError
      ensures result.Ok? ==> result.value == Collect(t.columns, columns, EntryOf(t, outputDataframes), |t.columns|)
      ensures warnings == Flagged(t.columns, columns, MismatchOf(t), |t.columns|)
      ensures UniqueIds(t.rows) ==> warnings == []
      ensures result.Ok? && UniqueIds(t.rows) ==> forall c :: c in result.value ==>
        result.value[c].missingCount + result.value[c].outlierCount + result.value[c].nonOutlierCount == |t.rows| &&
        result.value[c].missingPercentage + result.value[c].outlierPercentage + result.value[c].nonOutlierPercentage == 100.0
    {
      hide EntryOf, MismatchOf;
      var total := |t.rows|;
      var reports: map<string, ColumnReport> := map[];
      warnings := [];
      var i := 0;
      while i < |t.columns|
        invariant 0 <= i <= |t.columns|
        invariant reports == Collect(t.columns, columns, EntryOf(t, outputDataframes), i)
        invariant total == 0 ==> forall j :: 0 <= j < i ==> !Selected(t.columns[j], columns)
        invariant warnings == Flagged(t.columns, columns, MismatchOf(t), i)
      {
        var column := t.columns[i];
        if column.numeric && (|columns| == 0 || column.name in columns) {
          assert HasColumn(t, column.name) by { assert t.columns[i].name == column.name; }
          var entry, mismatch := ColumnInformation(t, column.name, outputDataframes);
          FlaggedNext(t.columns, columns, MismatchOf(t), i, mismatch);
          ghost var flagged := Flagged(t.columns, columns, MismatchOf(t), i);
          if mismatch {
            warnings := warnings + [column.name];
          }
          assert warnings == flagged + (if mismatch then [column.name] else []);
          if entry.Err? {
            NoWarningsWithoutRows(t, columns, i + 1);
            NoWarningsWithoutRows(t, columns, |t.columns|);
            return Err(entry.error), warnings;
          }
          CollectNext(t.columns, columns, EntryOf(t, outputDataframes), i, entry.value);
          reports := reports[column.name := entry.value];
        } else {
          FlaggedNext(t.columns, columns, MismatchOf(t), i, false);
        }
        i := i + 1;
      }
      result := Ok(reports);
      if UniqueIds(t.rows) {
        NoWarningsWithUniqueIds(t, columns);
        if total > 0 {
          EveryEntryAddsUp(t, outputDataframes, columns);
        } else {
          forall c | c in reports
            ensures false
          {
            CollectKeys(t.columns, columns, EntryOf(t, outputDataframes), |t.columns|, c);
          }
        }
      }
    }

    /**
     * What the report promises: an entry for each selected numeric column
     * and for nothing else, each entry the `Report` of its column, and, with
     * distinct index labels, counts that cover the table.
     */
    lemma ReportContents(t: Table, withFrames: bool, columns: seq<string>, c: string)
      requires |t.rows| > 0
      ensures c in Collect(t.columns, columns, EntryOf(t, withFrames), |t.columns|) <==>
        SelectedAmong(t.columns, columns, |t.columns|, c)
      ensures c in Collect(t.columns, columns, EntryOf(t, withFrames), |t.columns|) ==>
        HasColumn(t, c) && Collect(t.columns, columns, EntryOf(t, withFrames), |t.columns|)[c] == Report(t, c, withFrames)
      ensures c in Collect(t.columns, columns, EntryOf(t, withFrames), |t.columns|) && UniqueIds(t.rows) ==>
        var r := Collect(t.columns, columns, EntryOf(t, withFrames), |t.columns|)[c];
        r.missingCount + r.outlierCount + r.nonOutlierCount == |t.rows| &&
        r.missingPercentage + r.outlierPercentage + r.nonOutlierPercentage == 100.0
    {
      CollectKeys(t.columns, columns, EntryOf(t, withFrames), |t.columns|, c);
      if c in Collect(t.columns, columns, EntryOf(t, withFrames), |t.columns|) {
        var j :| 0 <= j < |t.columns| && Selected(t.columns[j], columns) && t.columns[j].name == c;
        assert HasColumn(t, c);
        CollectEntry(t.columns, columns, EntryOf(t, withFrames), |t.columns|, c);
        if UniqueIds(t.rows) {
          ReportAddsUp(t, c, withFrames);
        }
      }
    }

    /** With distinct index labels every entry of the report covers the table exactly. */
    lemma EveryEntryAddsUp(t: Table, withFrames: bool, columns: seq<string>)
      requires |t.rows| > 0 && UniqueIds(t.rows)
      ensures forall c :: c in Collect(t.columns, columns, EntryOf(t, withFrames), |t.columns|) ==>
        var r := Collect(t.columns, columns, EntryOf(t, withFrames), |t.columns|)[c];
        r.missingCount + r.outlierCount + r.nonOutlierCount == |t.rows| &&
        r.missingPercentage + r.outlierPercentage + r.nonOutlierPercentage == 100.0
    {
      forall c | c in Collect(t.columns, columns, EntryOf(t, withFrames), |t.columns|)
        ensures var r := Collect(t.columns, columns, EntryOf(t, withFrames), |t.columns|)[c];
          r.missingCount + r.outlierCount + r.nonOutlierCount == |t.rows| &&
          r.missingPercentage + r.outlierPercentage + r.nonOutlierPercentage == 100.0
      {
        ReportContents(t, withFrames, columns, c);
      }
    }

    /** The warning is printed for a column exactly when it is reported and its counts miss the row count. */
    lemma WarningContents(t: Table, columns: seq<string>, c: string)
      ensures c in Flagged(t.columns, columns, MismatchOf(t), |t.columns|) <==>
        SelectedAmong(t.columns, columns, |t.columns|, c) && HasColumn(t, c) && Mismatch(t, c)
    {
      FlaggedMembers(t.columns, columns, MismatchOf(t), |t.columns|, c);
    }
  }
}
