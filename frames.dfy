/**
 * The table model: a pandas DataFrame whose rows are keyed by
 * (location, date) and whose other columns hold optional numbers.
 */
module Frames {
  import opened Wrappers
  import opened SeqUtil
  import opened Sorting

  type Location = string

  /** A calendar date as an opaque, totally ordered key (a day number). */
  type Date = int

  /** A column name. */
  type Name = string

  /** A numeric cell; None is pandas' NaN. */
  type Cell = Option<real>

  /** One row: the key columns `location` and `date` (None is NaT), and the other columns by name. */
  datatype Row = Row(loc: Location, date: Option<Date>, cells: map<Name, Cell>)

  /** A table: its non-key column names in order, and its rows in order. */
  datatype Frame = Frame(cols: seq<Name>, rows: seq<Row>)

  function ColSet(cols: seq<Name>): set<Name>
  {
    set c | c in cols
  }

  /** Column names are unique and every row has a cell for exactly those columns. */
  ghost predicate WellFormed(f: Frame)
  {
    && Distinct(f.cols)
    && forall i :: 0 <= i < |f.rows| ==> f.rows[i].cells.Keys == ColSet(f.cols)
  }

  /** No two rows share a (location, date) key. */
  ghost predicate RowKeysUnique(rows: seq<Row>)
  {
    forall i, j :: 0 <= i < j < |rows| ==> (rows[i].loc, rows[i].date) != (rows[j].loc, rows[j].date)
  }

  /** No cell and no date is missing. */
  ghost predicate NoNulls(f: Frame)
  {
    forall i :: 0 <= i < |f.rows| ==>
      && f.rows[i].date.Some?
      && forall c :: c in f.rows[i].cells ==> f.rows[i].cells[c].Some?
  }

  /** pandas `frame[c]`. */
  function Column(f: Frame, c: Name): (s: seq<Cell>)
    requires WellFormed(f) && c in f.cols
    ensures |s| == |f.rows|
  {
    seq(|f.rows|, i requires 0 <= i < |f.rows| => f.rows[i].cells[c])
  }

  /** The column holding the population, read by the fill and the per-100k columns and by the charts. */
  const Population: Name := "population"

  function RowLoc(x: Row): Location
  {
    x.loc
  }

  /** The location of each row, in order. */
  function Locs(rows: seq<Row>): (s: seq<Location>)
    ensures |s| == |rows|
  {
    Project(rows, RowLoc)
  }

  function Dates(rows: seq<Row>): (s: seq<Option<Date>>)
    ensures |s| == |rows|
  {
    seq(|rows|, i requires 0 <= i < |rows| => rows[i].date)
  }

  /**
   * pandas `frame[c] = s`: overwrites column c where it is (an existing column
   * keeps its position) or appends it as the last column; nothing else changes.
   */
  function Assign(f: Frame, c: Name, s: seq<Cell>): (r: Frame)
    requires WellFormed(f) && |s| == |f.rows|
    ensures WellFormed(r)
    ensures r.cols == if c in f.cols then f.cols else f.cols + [c]
    ensures Column(r, c) == s
    ensures forall d :: d in f.cols && d != c ==> Column(r, d) == Column(f, d)
    ensures Locs(r.rows) == Locs(f.rows) && Dates(r.rows) == Dates(f.rows)
  {
    var cols := if c in f.cols then f.cols else f.cols + [c];
    var r := Frame(cols, seq(|f.rows|, i requires 0 <= i < |f.rows| => f.rows[i].(cells := f.rows[i].cells[c := s[i]])));
    assert ColSet(cols) == ColSet(f.cols) + {c};
    assert Distinct(cols) by {
      if c !in f.cols {
        forall i, j | 0 <= i < j < |cols|
          ensures cols[i] != cols[j]
        {
          if j == |f.cols| {
            assert cols[i] == f.cols[i];
          }
        }
      }
    }
    r
  }

  /** Python string order: lexicographic by code point, a proper prefix first. */
  predicate StrLe(a: string, b: string)
    decreases |a|
  {
    |a| == 0 || (|b| > 0 && (a[0] < b[0] || (a[0] == b[0] && StrLe(a[1..], b[1..]))))
  }

  lemma {:induction false} StrLeTotal(a: string, b: string)
    ensures StrLe(a, b) || StrLe(b, a)
    decreases |a|
  {
    if |a| > 0 && |b| > 0 && a[0] == b[0] {
      StrLeTotal(a[1..], b[1..]);
    }
  }

  lemma {:induction false} StrLeAntisymmetric(a: string, b: string)
    requires StrLe(a, b) && StrLe(b, a)
    ensures a == b
    decreases |a|
  {
    if |a| > 0 {
      StrLeAntisymmetric(a[1..], b[1..]);
      assert a == [a[0]] + a[1..] && b == [b[0]] + b[1..];
    }
  }

  lemma {:induction false} StrLeTransitive(a: string, b: string, c: string)
    requires StrLe(a, b) && StrLe(b, c)
    ensures StrLe(a, c)
    decreases |a|
  {
    if |a| > 0 && a[0] == b[0] && b[0] == c[0] {
      StrLeTransitive(a[1..], b[1..], c[1..]);
    }
  }

  /** pandas date order for sorting: known dates ascending, NaT last. */
  predicate DateLe(a: Option<Date>, b: Option<Date>)
  {
    match (a, b)
    case (Some(x), Some(y)) => x <= y
    case (Some(_), None) => true
    case (None, Some(_)) => false
    case (None, None) => true
  }

  /** The order of `sort_values(['location', 'date'])`. */
  predicate RowLe(x: Row, y: Row)
  {
    if x.loc != y.loc then StrLe(x.loc, y.loc) else DateLe(x.date, y.date)
  }

  lemma RowLeIsTotalPreorder()
    ensures TotalPreorder(RowLe)
  {
    forall x: Row, y: Row
      ensures RowLe(x, y) || RowLe(y, x)
    {
      StrLeTotal(x.loc, y.loc);
    }
    forall x: Row, y: Row, z: Row | RowLe(x, y) && RowLe(y, z)
      ensures RowLe(x, z)
    {
      if x.loc != y.loc && y.loc != z.loc {
        StrLeTransitive(x.loc, y.loc, z.loc);
        if x.loc == z.loc {
          StrLeAntisymmetric(x.loc, y.loc);
        }
      }
    }
  }

  /**
   * `sort_values(['location', 'date'])`: the same columns and the same rows,
   * reordered so that locations ascend and, within a location, dates ascend
   * with NaT last.
   */
  function SortByKey(f: Frame): (r: Frame)
    requires WellFormed(f)
    ensures WellFormed(r) && r.cols == f.cols
    ensures multiset(r.rows) == multiset(f.rows)
    ensures Sorted(r.rows, RowLe)
  {
    var rows := Sort(f.rows, RowLe);
    RowLeIsTotalPreorder();
    SortIsSorted(f.rows, RowLe);
    forall i | 0 <= i < |rows|
      ensures rows[i].cells.Keys == ColSet(f.cols)
    {
      assert rows[i] in multiset(f.rows);
    }
    Frame(f.cols, rows)
  }
}
