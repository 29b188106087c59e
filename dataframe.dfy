/**
 * The part of a pandas DataFrame that the outlier handler relies on: rows
 * addressed by an index label, cells looked up by column name, and boolean
 * row selection `df[mask]`. A missing cell (NaN or None) is `None`.
 */
module DataFrame {

  datatype Option<+T> = None | Some(value: T)

  /** One row: its index label and its cells by column name. */
  datatype Row = Row(id: int, cells: map<string, Option<real>>)

  /** A column header; `numeric` stands for pandas' `is_numeric_dtype`. */
  datatype Column = Column(name: string, numeric: bool)

  datatype Table = Table(columns: seq<Column>, rows: seq<Row>)

  /** The value of column `c` in row `r`; a cell the row does not hold reads as missing. */
  function Cell(r: Row, c: string): Option<real>
  {
    if c in r.cells then r.cells[c] else None
  }

  predicate HasColumn(t: Table, c: string)
  {
    exists i :: 0 <= i < |t.columns| && t.columns[i].name == c
  }

  /** The index labels of a set of rows. */
  function Ids(rows: seq<Row>): set<int>
  {
    set x | x in rows :: x.id
  }

  /** Some row of `rows` carries the index label of `x`. */
  predicate SharesId(x: Row, rows: seq<Row>)
  {
    x.id in Ids(rows)
  }

  /** No two positions of `rows` carry the same index label. */
  predicate UniqueIds(rows: seq<Row>)
  {
    forall i, j :: 0 <= i < |rows| && 0 <= j < |rows| && i != j ==> rows[i].id != rows[j].id
  }

  /**
   * The boolean masks the handler builds. Comparisons with a missing value
   * are false, as they are for NaN. `AbsZScoreAbove(c, mean, variance, k)`
   * is `abs(zscore(df[c])) > k` written without the square root: the
   * score |v - mean| / sqrt(variance) exceeds k >= 0 exactly when
   * (v - mean)^2 > k^2 * variance (see OutlierRules.ZScoreRuleIsStandardScore).
   */
  datatype Mask =
    | IsNa(column: string)
    | Lt(column: string, bound: real)
    | Gt(column: string, bound: real)
    | AbsZScoreAbove(column: string, mean: real, variance: real, threshold: real)
    | IndexIn(ids: set<int>)
    | Or(left: Mask, right: Mask)
    | Not(inner: Mask)

  /** Whether row `r` passes mask `m`; a comparison never holds of a missing value. */
  predicate Holds(m: Mask, r: Row)
    ensures (m.Lt? || m.Gt? || m.AbsZScoreAbove?) && Holds(m, r) ==> Cell(r, m.column).Some?
  {
    match m
    case IsNa(c) => Cell(r, c).None?
    case Lt(c, b) => Cell(r, c).Some? && Cell(r, c).value < b
    case Gt(c, b) => Cell(r, c).Some? && Cell(r, c).value > b
    case AbsZScoreAbove(c, mean, variance, k) =>
      Cell(r, c).Some? &&
      (Cell(r, c).value - mean) * (Cell(r, c).value - mean) > k * k * variance
    case IndexIn(ids) => r.id in ids
    case Or(a, b) => Holds(a, r) || Holds(b, r)
    case Not(a) => !Holds(a, r)
  }

  /** `df[mask]`: the rows for which the mask holds, in their original order. */
  function Where(rows: seq<Row>, m: Mask): (r: seq<Row>)
    ensures |r| <= |rows|
    ensures forall x :: x in r <==> x in rows && Holds(m, x)
  {
    if rows == [] then []
    else (if Holds(m, rows[0]) then [rows[0]] else []) + Where(rows[1..], m)
  }

  /** `r` is `rows` with some positions dropped: what it keeps stays in its original order. */
  predicate Subsequence(r: seq<Row>, rows: seq<Row>)
    decreases |rows|
  {
    if r == [] then true
    else if rows == [] then false
    else if r[0] == rows[0] then Subsequence(r[1..], rows[1..])
    else Subsequence(r, rows[1..])
  }

  /**
   * `r` selects from `rows`: a subsequence that keeps every copy of each row
   * it keeps. Together with which rows it keeps, this fixes `r` completely.
   */
  predicate OrderedSelection(r: seq<Row>, rows: seq<Row>)
  {
    Subsequence(r, rows) && forall x :: x in r ==> multiset(r)[x] == multiset(rows)[x]
  }

  /** `df[mask]` keeps the rows it selects in their original order. */
  lemma {:induction false} WhereInOrder(rows: seq<Row>, m: Mask)
    ensures Subsequence(Where(rows, m), rows)
  {
    if rows != [] {
      var w := Where(rows[1..], m);
      WhereInOrder(rows[1..], m);
      var r := Where(rows, m);
      if Holds(m, rows[0]) {
        assert r == [rows[0]] + w;
        assert r[0] == rows[0] && r[1..] == w;
        assert Subsequence(r, rows);
      } else {
        assert r == w;
        if w != [] {
          assert w[0] in w;
          assert Holds(m, w[0]) && w[0] != rows[0];
          assert Subsequence(w, rows) == Subsequence(w, rows[1..]);
        }
      }
    }
  }

  /** `df[mask]` keeps every copy of each row it selects, and no other row. */
  lemma {:induction false} WhereCopies(rows: seq<Row>, m: Mask)
    ensures forall x :: multiset(Where(rows, m))[x] == if Holds(m, x) then multiset(rows)[x] else 0
  {
    if rows != [] {
      WhereCopies(rows[1..], m);
      assert rows == [rows[0]] + rows[1..];
    }
  }

  /**
   * `df[mask]` keeps the selected rows in their original order, each as
   * often as it occurs, and nothing else.
   */
  lemma WhereSelects(rows: seq<Row>, m: Mask)
    ensures OrderedSelection(Where(rows, m), rows)
  {
    WhereInOrder(rows, m);
    WhereCopies(rows, m);
  }

  /** Selection keeps the original order: it distributes over concatenation. */
  lemma {:induction false} WhereConcat(a: seq<Row>, b: seq<Row>, m: Mask)
    ensures Where(a + b, m) == Where(a, m) + Where(b, m)
  {
    if a == [] {
      assert a + b == b;
    } else {
      assert (a + b)[0] == a[0];
      assert (a + b)[1..] == a[1..] + b;
      WhereConcat(a[1..], b, m);
    }
  }

  /** A mask and its negation split the rows between them. */
  lemma {:induction false} WhereComplement(rows: seq<Row>, m: Mask)
    ensures |Where(rows, m)| + |Where(rows, Not(m))| == |rows|
  {
    if rows != [] {
      WhereComplement(rows[1..], m);
    }
  }

  /** A mask that holds on no row selects nothing. */
  lemma {:induction false} WhereNone(rows: seq<Row>, m: Mask)
    requires forall x :: x in rows ==> !Holds(m, x)
    ensures Where(rows, m) == []
  {
    if rows != [] {
      assert forall x :: x in rows[1..] ==> x in rows;
      WhereNone(rows[1..], m);
    }
  }

  lemma UniqueIdsTail(rows: seq<Row>)
    requires rows != [] && UniqueIds(rows)
    ensures UniqueIds(rows[1..])
    ensures rows[0].id !in Ids(rows[1..])
  {
    var tail := rows[1..];
    forall i, j | 0 <= i < |tail| && 0 <= j < |tail| && i != j
      ensures tail[i].id != tail[j].id
    {
      assert tail[i] == rows[i + 1] && tail[j] == rows[j + 1];
    }
    forall y | y in tail
      ensures y.id != rows[0].id
    {
      var k :| 0 <= k < |tail| && tail[k] == y;
      assert rows[k + 1] == y;
    }
  }

  lemma UniqueIdsCons(x: Row, rows: seq<Row>)
    requires UniqueIds(rows) && x.id !in Ids(rows)
    ensures UniqueIds([x] + rows)
  {
    var s := [x] + rows;
    forall i, j | 0 <= i < |s| && 0 <= j < |s| && i != j
      ensures s[i].id != s[j].id
    {
      if i > 0 && j > 0 {
        assert s[i] == rows[i - 1] && s[j] == rows[j - 1];
      } else if i == 0 {
        assert s[j] == rows[j - 1] && s[j] in rows;
      } else {
        assert s[i] == rows[i - 1] && s[i] in rows;
      }
    }
  }

  /** Selecting rows never introduces a duplicate index label. */
  lemma {:induction false} WhereKeepsUniqueIds(rows: seq<Row>, m: Mask)
    requires UniqueIds(rows)
    ensures UniqueIds(Where(rows, m))
  {
    if rows != [] {
      UniqueIdsTail(rows);
      WhereKeepsUniqueIds(rows[1..], m);
      var rest := Where(rows[1..], m);
      if Holds(m, rows[0]) {
        assert Ids(rest) <= Ids(rows[1..]);
        UniqueIdsCons(rows[0], rest);
      }
    }
  }

  /** When the rows have distinct labels, two rows with one label are one row. */
  lemma SameIdSameRow(rows: seq<Row>, x: Row, y: Row)
    requires UniqueIds(rows) && x in rows && y in rows && x.id == y.id
    ensures x == y
  {
    var i :| 0 <= i < |rows| && rows[i] == x;
    var j :| 0 <= j < |rows| && rows[j] == y;
  }

  /**
   * Removing the rows whose label lies in a set `s` is the same as removing
   * the rows of a mask `m`, when `s` and `m` agree on every row.
   */
  lemma {:induction false} ExcludeIdsAgree(rows: seq<Row>, s: set<int>, m: Mask)
    requires forall x :: x in rows ==> (x.id in s <==> Holds(m, x))
    ensures Where(rows, Not(IndexIn(s))) == Where(rows, Not(m))
  {
    if rows != [] {
      assert forall x :: x in rows[1..] ==> x in rows;
      ExcludeIdsAgree(rows[1..], s, m);
      assert Holds(Not(IndexIn(s)), rows[0]) == Holds(Not(m), rows[0]);
    }
  }

  /**
   * With distinct labels, removing by label the rows a mask selects leaves
   * exactly the rows the mask rejects, in order.
   */
  lemma ExcludeSelected(rows: seq<Row>, m: Mask)
    requires UniqueIds(rows)
    ensures Where(rows, Not(IndexIn(Ids(Where(rows, m))))) == Where(rows, Not(m))
  {
    var sel := Where(rows, m);
    forall x | x in rows
      ensures x.id in Ids(sel) <==> Holds(m, x)
    {
      if x.id in Ids(sel) {
        var y :| y in sel && y.id == x.id;
        SameIdSameRow(rows, x, y);
      }
    }
    ExcludeIdsAgree(rows, Ids(sel), m);
  }
}
