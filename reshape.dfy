/**
 * `melt_jhu`: a wide Johns Hopkins time series (one column per date) is
 * melted to one observation per (row, date column) and then summed per
 * (country, date), which folds a country's provinces into one national row.
 */
module Reshape {
  import opened Wrappers
  import opened SeqUtil
  import opened Frames

  /** A row of the wide table: Country/Region, Province/State, Lat, Long, then one cell per date column. */
  datatype WideRow = WideRow(country: Location, province: Option<string>, lat: Option<real>, long: Option<real>, cells: seq<Cell>)

  /** A wide table: the labels of its date columns, as read from the CSV header, and its rows. */
  datatype WideTable = WideTable(labels: seq<string>, rows: seq<WideRow>)

  /** CSV headers are unique and every row has one cell per date column. */
  ghost predicate WideValid(t: WideTable)
  {
    && Distinct(t.labels)
    && forall i :: 0 <= i < |t.rows| ==> |t.rows[i].cells| == |t.labels|
  }

  /** One row of the melted table: the country, the date-column header and the cell. */
  datatype Obs = Obs(country: Location, header: string, value: Cell)

  /** One row of `melt_jhu`'s result: a country, a date header and the summed value. */
  datatype MetricRow = MetricRow(loc: Location, header: string, value: real)

  /** pandas `sum` skips NaN. */
  function Known(x: Cell): real
  {
    x.GetOr(0.0)
  }

  /** The melted observations of date column j, one per row, in row order. */
  function ColumnObs(rows: seq<WideRow>, header: string, j: nat): seq<Obs>
    requires forall i :: 0 <= i < |rows| ==> j < |rows[i].cells|
  {
    seq(|rows|, i requires 0 <= i < |rows| => Obs(rows[i].country, header, rows[i].cells[j]))
  }

  /** The melt of the first k date columns: pandas stacks the value columns one after another. */
  function MeltUpTo(t: WideTable, k: nat): seq<Obs>
    requires WideValid(t) && k <= |t.labels|
  {
    if k == 0 then [] else MeltUpTo(t, k - 1) + ColumnObs(t.rows, t.labels[k - 1], k - 1)
  }

  /** `df.melt(id_vars=[...], var_name='date')`: every non-identifier column is a date. */
  function Melt(t: WideTable): seq<Obs>
    requires WideValid(t)
  {
    MeltUpTo(t, |t.labels|)
  }

  /** The sum of the known values of the observations keyed (c, l). */
  function SumFor(obs: seq<Obs>, c: Location, l: string): real
  {
    if obs == [] then 0.0
    else
      var o := obs[|obs| - 1];
      SumFor(obs[..|obs| - 1], c, l) + (if o.country == c && o.header == l then Known(o.value) else 0.0)
  }

  function ObsKeys(obs: seq<Obs>): seq<(Location, string)>
  {
    seq(|obs|, i requires 0 <= i < |obs| => (obs[i].country, obs[i].header))
  }

  /**
   * `groupby(['Country/Region', 'date'], as_index=False)[value].sum()`. The
   * keys come in order of first occurrence here; pandas sorts them, and the
   * outer merge that follows reorders the rows again.
   */
  function GroupSum(obs: seq<Obs>): seq<MetricRow>
  {
    var keys := Dedup(ObsKeys(obs));
    seq(|keys|, i requires 0 <= i < |keys| => MetricRow(keys[i].0, keys[i].1, SumFor(obs, keys[i].0, keys[i].1)))
  }

  /** `melt_jhu(df, value_name)`. */
  function MeltJhu(t: WideTable): seq<MetricRow>
    requires WideValid(t)
  {
    GroupSum(Melt(t))
  }

  /**
   * The reference the reshape is checked against, read along the original
   * wide table: the sum, over the rows of country c, of the cell in date
   * column j, missing cells skipped.
   */
  function CellSum(rows: seq<WideRow>, c: Location, j: nat): real
    requires forall i :: 0 <= i < |rows| ==> j < |rows[i].cells|
  {
    if rows == [] then 0.0
    else
      var r := rows[|rows| - 1];
      CellSum(rows[..|rows| - 1], c, j) + (if r.country == c then Known(r.cells[j]) else 0.0)
  }

  function Countries(t: WideTable): set<Location>
  {
    set r | r in t.rows :: r.country
  }

  /** The metric table has a row keyed (c, l). */
  ghost predicate HasKey(m: seq<MetricRow>, c: Location, l: string)
  {
    exists i :: 0 <= i < |m| && m[i].loc == c && m[i].header == l
  }

  /** No two rows share a (location, date header) key. */
  ghost predicate MetricKeysUnique(m: seq<MetricRow>)
  {
    forall i, j :: 0 <= i < j < |m| ==> (m[i].loc, m[i].header) != (m[j].loc, m[j].header)
  }

  lemma {:induction false} SumForConcat(a: seq<Obs>, b: seq<Obs>, c: Location, l: string)
    ensures SumFor(a + b, c, l) == SumFor(a, c, l) + SumFor(b, c, l)
    decreases |b|
  {
    if b == [] {
      assert a + b == a;
    } else {
      assert (a + b)[..|a + b| - 1] == a + b[..|b| - 1];
      assert (a + b)[|a + b| - 1] == b[|b| - 1];
      SumForConcat(a, b[..|b| - 1], c, l);
    }
  }

  /** Summing one melted date column gives that column's per-country sum, or nothing for another header. */
  lemma {:induction false} SumForColumn(rows: seq<WideRow>, header: string, j: nat, c: Location, l: string)
    requires forall i :: 0 <= i < |rows| ==> j < |rows[i].cells|
    ensures SumFor(ColumnObs(rows, header, j), c, l) == if header == l then CellSum(rows, c, j) else 0.0
    decreases |rows|
  {
    if rows != [] {
      var front := rows[..|rows| - 1];
      assert ColumnObs(rows, header, j)[..|rows| - 1] == ColumnObs(front, header, j);
      SumForColumn(front, header, j, c, l);
    }
  }

  lemma {:induction false} SumForMeltUpTo(t: WideTable, k: nat, c: Location, j: nat)
    requires WideValid(t) && k <= |t.labels| && j < |t.labels|
    ensures SumFor(MeltUpTo(t, k), c, t.labels[j]) == if j < k then CellSum(t.rows, c, j) else 0.0
  {
    if k > 0 {
      var l := t.labels[j];
      var front := MeltUpTo(t, k - 1);
      var col := ColumnObs(t.rows, t.labels[k - 1], k - 1);
      assert SumFor(MeltUpTo(t, k), c, l) == SumFor(front, c, l) + SumFor(col, c, l) by {
        assert MeltUpTo(t, k) == front + col;
        SumForConcat(front, col, c, l);
      }
      assert SumFor(col, c, l) == if k - 1 == j then CellSum(t.rows, c, j) else 0.0 by {
        SumForColumn(t.rows, t.labels[k - 1], k - 1, c, l);
        if k - 1 != j {
          assert t.labels[k - 1] != t.labels[j];
        }
      }
      assert SumFor(front, c, l) == if j < k - 1 then CellSum(t.rows, c, j) else 0.0 by {
        SumForMeltUpTo(t, k - 1, c, j);
      }
    }
  }

  /** The melt holds an observation keyed (c, l) exactly when l is one of the first k labels and c a country of some row. */
  lemma {:induction false} MeltUpToKeys(t: WideTable, k: nat, c: Location, l: string)
    requires WideValid(t) && k <= |t.labels|
    ensures (c, l) in ObsKeys(MeltUpTo(t, k)) <==> l in t.labels[..k] && c in Countries(t)
  {
    if k > 0 {
      var front := MeltUpTo(t, k - 1);
      var col := ColumnObs(t.rows, t.labels[k - 1], k - 1);
      MeltUpToKeys(t, k - 1, c, l);
      assert ObsKeys(front + col) == ObsKeys(front) + ObsKeys(col);
      assert t.labels[..k] == t.labels[..k - 1] + [t.labels[k - 1]];
      if c in Countries(t) && l == t.labels[k - 1] {
        var r :| r in t.rows && r.country == c;
        var i :| 0 <= i < |t.rows| && t.rows[i] == r;
        assert ObsKeys(col)[i] == (c, l);
      }
      if (c, l) in ObsKeys(col) {
        var i :| 0 <= i < |col| && ObsKeys(col)[i] == (c, l);
        assert t.rows[i] in t.rows;
      }
    }
  }

  /**
   * The reshape of lines 89-96 yields exactly one row per pair of a country
   * of the wide table and a date header, and that row's value is the sum over
   * the country's province rows of that date's cell, missing cells skipped.
   */
  lemma MeltJhuSpec(t: WideTable)
    requires WideValid(t)
    ensures MetricKeysUnique(MeltJhu(t))
    ensures forall c, l :: HasKey(MeltJhu(t), c, l) <==> l in t.labels && c in Countries(t)
    ensures forall i, j :: 0 <= i < |MeltJhu(t)| && 0 <= j < |t.labels| && t.labels[j] == MeltJhu(t)[i].header ==>
      MeltJhu(t)[i].value == CellSum(t.rows, MeltJhu(t)[i].loc, j)
  {
    var obs := Melt(t);
    var keys := Dedup(ObsKeys(obs));
    var m := MeltJhu(t);
    assert t.labels[..|t.labels|] == t.labels;
    forall c, l
      ensures HasKey(m, c, l) <==> l in t.labels && c in Countries(t)
    {
      MeltUpToKeys(t, |t.labels|, c, l);
      if HasKey(m, c, l) {
        var i :| 0 <= i < |m| && m[i].loc == c && m[i].header == l;
        assert keys[i] == (c, l);
      }
      if (c, l) in ObsKeys(obs) {
        var i :| 0 <= i < |keys| && keys[i] == (c, l);
        assert m[i].loc == c && m[i].header == l;
      }
    }
    forall i, j | 0 <= i < |m| && 0 <= j < |t.labels| && t.labels[j] == m[i].header
      ensures m[i].value == CellSum(t.rows, m[i].loc, j)
    {
      SumForMeltUpTo(t, |t.labels|, m[i].loc, j);
    }
  }
}
