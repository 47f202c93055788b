/**
 * The cleaning steps of `load_and_merge_data` after the merges
 * (covid_analysis.py:121-131): the population fill, the per-100k columns,
 * the sort by (location, date), the per-location forward fill and the final
 * zero fill. Each step is a function on frames; `LoadAndMerge` performs them
 * one after another on a working frame, filling columns held in arrays in
 * place, and is proved to produce `MergedDataset`.
 */
module Pipeline {
  import opened Wrappers
  import opened SeqUtil
  import opened Sorting
  import opened Fill
  import opened Frames
  import opened Reshape
  import opened Joins

  // ---------------------------------------------------------------------
  // Per-100k columns (lines 124-126)
  // ---------------------------------------------------------------------

  /** The columns that get a per-100k companion, in loop order. */
  const RateColumns: seq<Name> := ["confirmed", "deaths", "recovered", "new_cases", "new_deaths", "new_vaccinations"]

  function RateName(c: Name): Name
  {
    c + "_per100k"
  }

  /**
   * One cell of `merged[col] / merged['population'] * 1e5`: missing when the
   * source cell or the population is missing; a population of zero also gives
   * a missing cell here.
   */
  function Rate(x: Cell, pop: Cell): (r: Cell)
    ensures r.None? <==> x.None? || pop.None? || pop.value == 0.0
    ensures r.Some? ==> r.value * pop.value == x.value * 100000.0
  {
    if x.None? || pop.None? || pop.value == 0.0 then None
    else Some(x.value / pop.value * 100000.0)
  }

  function RateColumn(xs: seq<Cell>, pops: seq<Cell>): (r: seq<Cell>)
    requires |xs| == |pops|
    ensures |r| == |xs|
  {
    seq(|xs|, i requires 0 <= i < |xs| => Rate(xs[i], pops[i]))
  }

  /**
   * One turn of the loop: when column c exists, `<c>_per100k` is added (or
   * overwritten) with the rate of c against the population; every other
   * column, the locations and the dates stay as they were.
   */
  function DeriveRate(f: Frame, c: Name): (r: Frame)
    requires WellFormed(f) && Population in f.cols
    ensures WellFormed(r) && Population in r.cols
    ensures ColSet(r.cols) == ColSet(f.cols) + (if c in f.cols then {RateName(c)} else {})
    ensures c in f.cols ==> Column(r, RateName(c)) == RateColumn(Column(f, c), Column(f, Population))
    ensures forall d :: d in f.cols && d != RateName(c) ==> d in r.cols && Column(r, d) == Column(f, d)
    ensures Locs(r.rows) == Locs(f.rows) && Dates(r.rows) == Dates(f.rows)
  {
    if c in f.cols then
      var r := Assign(f, RateName(c), RateColumn(Column(f, c), Column(f, Population)));
      assert ColSet(r.cols) == ColSet(f.cols) + {RateName(c)};
      r
    else f
  }

  /** The loop over `names`, in order. */
  function DeriveRates(f: Frame, names: seq<Name>): (r: Frame)
    requires WellFormed(f) && Population in f.cols
    ensures WellFormed(r) && Population in r.cols
    ensures Locs(r.rows) == Locs(f.rows) && Dates(r.rows) == Dates(f.rows)
  {
    if names == [] then f
    else DeriveRate(DeriveRates(f, names[..|names| - 1]), names[|names| - 1])
  }

  /** No derived name is the name of a source column or of the population. */
  ghost predicate RateNamesFresh(names: seq<Name>)
  {
    forall i, j :: 0 <= i < |names| && 0 <= j < |names| ==> RateName(names[i]) != names[j] && RateName(names[i]) != Population
  }

  lemma RateColumnsFresh()
    ensures RateNamesFresh(RateColumns)
  {
    forall i, j | 0 <= i < |RateColumns| && 0 <= j < |RateColumns|
      ensures RateName(RateColumns[i]) != RateColumns[j] && RateName(RateColumns[i]) != Population
    {
      // the derived names are 14, 17, 18 or 24 characters long, the others 6, 9, 10 or 16
      assert |RateName(RateColumns[i])| == |RateColumns[i]| + 8;
    }
  }

  /** The derived names of the listed names that the frame has. */
  ghost function Derived(f: Frame, names: seq<Name>): set<Name>
  {
    set c | c in names && c in f.cols :: RateName(c)
  }

  /** The per-100k loop adds exactly the columns `<c>_per100k` for the listed names c the frame has. */
  lemma {:induction false} DeriveRatesCols(f: Frame, names: seq<Name>)
    requires WellFormed(f) && Population in f.cols && RateNamesFresh(names)
    ensures ColSet(DeriveRates(f, names).cols) == ColSet(f.cols) + Derived(f, names)
  {
    if names != [] {
      var front := names[..|names| - 1];
      var c := names[|names| - 1];
      assert RateNamesFresh(front);
      DeriveRatesCols(f, front);
      var g := DeriveRates(f, front);
      var r := DeriveRates(f, names);
      assert r == DeriveRate(g, c);
      assert c !in Derived(f, front) by {
        forall x | x in front
          ensures RateName(x) != c
        {
          var i :| 0 <= i < |front| && front[i] == x;
          assert names[i] == x && names[|front|] == c;
        }
      }
      DeriveRateCols(f, g, front, c);
      assert names == front + [c];
    }
  }

  /** One turn of the loop, on the column sets. */
  lemma DeriveRateCols(f: Frame, g: Frame, front: seq<Name>, c: Name)
    requires WellFormed(g) && Population in g.cols
    requires ColSet(g.cols) == ColSet(f.cols) + Derived(f, front) && c !in Derived(f, front)
    ensures ColSet(DeriveRate(g, c).cols) == ColSet(f.cols) + Derived(f, front + [c])
  {
    assert c in g.cols <==> c in ColSet(g.cols);
    assert c in f.cols <==> c in ColSet(f.cols);
    DerivedSnoc(f, front, c);
  }

  lemma DerivedSnoc(f: Frame, front: seq<Name>, c: Name)
    ensures Derived(f, front + [c]) == Derived(f, front) + (if c in f.cols then {RateName(c)} else {})
  {
    assert forall x :: x in front + [c] <==> x in front || x == c;
  }

  lemma RateNameInjective(a: Name, b: Name)
    requires RateName(a) == RateName(b)
    ensures a == b
  {
    assert |a| == |b|;
    assert a == RateName(a)[..|a|] && b == RateName(b)[..|b|];
  }

  /**
   * After the per-100k loop a derived column `<c>_per100k` of a listed name c
   * is present exactly when column c was, or when it was there already.
   */
  lemma DeriveRatesAddsExactly(f: Frame, names: seq<Name>)
    requires WellFormed(f) && Population in f.cols && RateNamesFresh(names)
    ensures forall c :: c in names ==> (RateName(c) in DeriveRates(f, names).cols <==> c in f.cols || RateName(c) in f.cols)
  {
    DeriveRatesCols(f, names);
    forall c | c in names
      ensures RateName(c) in DeriveRates(f, names).cols <==> c in f.cols || RateName(c) in f.cols
    {
      if RateName(c) in Derived(f, names) {
        var x :| x in names && x in f.cols && RateName(x) == RateName(c);
        RateNameInjective(x, c);
      }
      assert RateName(c) in DeriveRates(f, names).cols <==> RateName(c) in ColSet(DeriveRates(f, names).cols);
    }
  }

  /** No earlier turn writes a later turn's source column: the loop reads the source columns of f. */
  lemma SourceNotDerived(f: Frame, front: seq<Name>, c: Name)
    requires WellFormed(f) && Population in f.cols && RateNamesFresh(front + [c])
    ensures c in DeriveRates(f, front).cols <==> c in f.cols
  {
    var names := front + [c];
    assert RateNamesFresh(front) by {
      forall i, j | 0 <= i < |front| && 0 <= j < |front|
        ensures RateName(front[i]) != front[j] && RateName(front[i]) != Population
      {
        assert names[i] == front[i] && names[j] == front[j];
      }
    }
    DeriveRatesCols(f, front);
    forall x | x in front
      ensures RateName(x) != c
    {
      var i :| 0 <= i < |front| && front[i] == x;
      assert names[i] == x && names[|front|] == c;
    }
    assert c in ColSet(DeriveRates(f, front).cols) <==> c in ColSet(f.cols);
  }

  /**
   * After the per-100k loop each derived column holds, cell by cell, the rate
   * of its source column against the population.
   */
  lemma {:induction false} DeriveRatesColumns(f: Frame, names: seq<Name>)
    requires WellFormed(f) && Population in f.cols && RateNamesFresh(names)
    ensures forall c :: c in names && c in f.cols ==>
      && RateName(c) in DeriveRates(f, names).cols
      && Column(DeriveRates(f, names), RateName(c)) == RateColumn(Column(f, c), Column(f, Population))
  {
    if names != [] {
      var front := names[..|names| - 1];
      var c := names[|names| - 1];
      assert front + [c] == names;
      assert RateNamesFresh(front);
      DeriveRatesColumns(f, front);
      var g := DeriveRates(f, front);
      var r := DeriveRates(f, names);
      assert r == DeriveRate(g, c);
      assert Column(g, Population) == Column(f, Population) by {
        DeriveRatesKeeps(f, front);
        forall y | y in front
          ensures Population != RateName(y)
        {
          var i :| 0 <= i < |front| && front[i] == y;
        }
      }
      assert c in g.cols <==> c in f.cols by {
        SourceNotDerived(f, front, c);
      }
      if c in f.cols {
        assert Column(g, c) == Column(f, c) by {
          DeriveRatesKeeps(f, front);
          forall y | y in front
            ensures c != RateName(y)
          {
            var i :| 0 <= i < |front| && front[i] == y;
            assert names[i] == y && names[|front|] == c;
          }
        }
      }
      forall x | x in names && x in f.cols
        ensures RateName(x) in r.cols && Column(r, RateName(x)) == RateColumn(Column(f, x), Column(f, Population))
      {
        if x != c {
          assert x in front;
          if RateName(x) == RateName(c) {
            RateNameInjective(x, c);
          }
        }
      }
    }
  }

  /** The per-100k loop changes no column other than the derived ones. */
  lemma {:induction false} DeriveRatesKeeps(f: Frame, names: seq<Name>)
    requires WellFormed(f) && Population in f.cols
    ensures forall d :: d in f.cols && (forall c :: c in names ==> d != RateName(c)) ==>
      d in DeriveRates(f, names).cols && Column(DeriveRates(f, names), d) == Column(f, d)
  {
    if names != [] {
      var front := names[..|names| - 1];
      DeriveRatesKeeps(f, front);
      assert forall x :: x in front ==> x in names;
    }
  }

  // ---------------------------------------------------------------------
  // Per-location forward fill (lines 129-130)
  // ---------------------------------------------------------------------

  /** The frame with its date column replaced by ds. */
  function SetDates(f: Frame, ds: seq<Option<Date>>): (r: Frame)
    requires WellFormed(f) && |ds| == |f.rows|
    ensures WellFormed(r) && r.cols == f.cols && Locs(r.rows) == Locs(f.rows) && Dates(r.rows) == ds
    ensures forall c :: c in f.cols ==> Column(r, c) == Column(f, c)
  {
    Frame(f.cols, seq(|f.rows|, i requires 0 <= i < |f.rows| => f.rows[i].(date := ds[i])))
  }

  /** The per-location forward fill applied to the columns cs, one after another. */
  function GroupFillCols(f: Frame, cs: seq<Name>): (r: Frame)
    requires WellFormed(f) && forall i :: 0 <= i < |cs| ==> cs[i] in f.cols
    ensures WellFormed(r) && r.cols == f.cols && Locs(r.rows) == Locs(f.rows) && Dates(r.rows) == Dates(f.rows)
  {
    if cs == [] then f
    else
      var g := GroupFillCols(f, cs[..|cs| - 1]);
      var c := cs[|cs| - 1];
      Assign(g, c, GFill(Locs(f.rows), Column(g, c)))
  }

  /**
   * `groupby('location').apply(lambda g: g.fillna(method='ffill'))`: every
   * column, the date column included, is forward filled within each location.
   * The frame is sorted by location, so concatenating the groups in location
   * order keeps the row order.
   */
  function GroupFill(f: Frame): (r: Frame)
    requires WellFormed(f)
  {
    SetDates(GroupFillCols(f, f.cols), GFill(Locs(f.rows), Dates(f.rows)))
  }

  /** Filling the columns cs changes each of them to its per-location fill and leaves the others alone. */
  lemma {:induction false} GroupFillColsSpec(f: Frame, cs: seq<Name>)
    requires WellFormed(f) && Distinct(cs) && forall i :: 0 <= i < |cs| ==> cs[i] in f.cols
    ensures forall c :: c in cs ==> Column(GroupFillCols(f, cs), c) == GFill(Locs(f.rows), Column(f, c))
    ensures forall c :: c in f.cols && c !in cs ==> Column(GroupFillCols(f, cs), c) == Column(f, c)
  {
    if cs != [] {
      var front := cs[..|cs| - 1];
      var c := cs[|cs| - 1];
      DistinctConcat(front, [c]);
      assert front + [c] == cs;
      GroupFillColsSpec(f, front);
      assert c !in front;
      assert forall x :: x in cs <==> x in front || x == c;
    }
  }

  /**
   * The per-location forward fill keeps the columns, the row count and the
   * locations; each column and the date column become their per-location
   * forward fill (whose cells `Fill.GFillStaysInGroup` describes).
   */
  lemma GroupFillSpec(f: Frame)
    requires WellFormed(f)
    ensures WellFormed(GroupFill(f)) && GroupFill(f).cols == f.cols
    ensures Locs(GroupFill(f).rows) == Locs(f.rows)
    ensures Dates(GroupFill(f).rows) == GFill(Locs(f.rows), Dates(f.rows))
    ensures forall c :: c in f.cols ==> Column(GroupFill(f), c) == GFill(Locs(f.rows), Column(f, c))
  {
    GroupFillColsSpec(f, f.cols);
  }

  /**
   * Filling missing dates within a location keeps that location's dates in
   * order when they were: a missing date sorts last, and is filled with the
   * latest known date of its location or stays missing.
   */
  lemma FilledDatesOrdered(keys: seq<Location>, ds: seq<Option<Date>>, i: nat, j: nat)
    requires |keys| == |ds| && i < j < |ds| && keys[i] == keys[j]
    requires forall a, b :: 0 <= a < b < |ds| && keys[a] == keys[b] ==> DateLe(ds[a], ds[b])
    ensures DateLe(GFill(keys, ds)[i], GFill(keys, ds)[j])
  {
    var g := GFill(keys, ds);
    GFillStaysInGroup(keys, ds, i);
    GFillStaysInGroup(keys, ds, j);
    if ds[j].None? {
      if g[i].None? {
        forall m | 0 <= m <= j && keys[m] == keys[j]
          ensures ds[m].None?
        {
          if i < m {
            assert DateLe(ds[i], ds[m]);
          }
        }
      } else {
        var m :| 0 <= m <= i && keys[m] == keys[i] && ds[m] == g[i] &&
          forall x :: m < x <= i && keys[x] == keys[i] ==> ds[x].None?;
        var p :| 0 <= p <= j && keys[p] == keys[j] && ds[p] == g[j] &&
          forall x :: p < x <= j && keys[x] == keys[j] ==> ds[x].None?;
        if m < p {
          assert DateLe(ds[m], ds[p]);
        }
      }
    } else {
      assert DateLe(ds[i], ds[j]);
    }
  }

  /** The per-location forward fill keeps the frame sorted by (location, date). */
  lemma GroupFillKeepsOrder(f: Frame)
    requires WellFormed(f) && Sorted(f.rows, RowLe)
    ensures Sorted(GroupFill(f).rows, RowLe)
  {
    var r := GroupFill(f);
    GroupFillSpec(f);
    var keys := Locs(f.rows);
    var ds := Dates(f.rows);
    forall a, b | 0 <= a < b < |ds| && keys[a] == keys[b]
      ensures DateLe(ds[a], ds[b])
    {
      assert RowLe(f.rows[a], f.rows[b]);
    }
    forall i, j | 0 <= i < j < |r.rows|
      ensures RowLe(r.rows[i], r.rows[j])
    {
      assert r.rows[i].loc == keys[i] && r.rows[j].loc == keys[j];
      assert r.rows[i].date == GFill(keys, ds)[i] && r.rows[j].date == GFill(keys, ds)[j];
      assert RowLe(f.rows[i], f.rows[j]);
      if keys[i] == keys[j] {
        FilledDatesOrdered(keys, ds, i, j);
      }
    }
  }

  // ---------------------------------------------------------------------
  // Zero fill (line 131)
  // ---------------------------------------------------------------------

  /**
   * `fillna(0)`: every missing cell becomes 0 and every missing date becomes
   * the date 0; known cells and dates are kept, and nothing is missing after.
   */
  function ZeroFill(f: Frame): (r: Frame)
    requires WellFormed(f)
    ensures WellFormed(r) && r.cols == f.cols && Locs(r.rows) == Locs(f.rows) && NoNulls(r)
    ensures forall i :: 0 <= i < |f.rows| ==>
      r.rows[i].date == if f.rows[i].date.Some? then f.rows[i].date else Some(0)
    ensures forall i, c :: 0 <= i < |f.rows| && c in f.rows[i].cells ==>
      r.rows[i].cells[c] == if f.rows[i].cells[c].Some? then f.rows[i].cells[c] else Some(0.0)
  {
    Frame(f.cols, seq(|f.rows|, i requires 0 <= i < |f.rows| =>
      Row(f.rows[i].loc, Some(f.rows[i].date.GetOr(0)),
        map c | c in f.rows[i].cells :: Some(f.rows[i].cells[c].GetOr(0.0)))))
  }

  // ---------------------------------------------------------------------
  // The whole of load_and_merge_data (lines 74-136)
  // ---------------------------------------------------------------------

  /** The population fill of line 122: forward fill, then backward fill, over the rows in their current order. */
  function FillPopulation(f: Frame): (r: Frame)
    requires WellFormed(f) && Population in f.cols
    ensures WellFormed(r) && r.cols == f.cols
    ensures Locs(r.rows) == Locs(f.rows) && Dates(r.rows) == Dates(f.rows)
    ensures forall d :: d in f.cols && d != Population ==> Column(r, d) == Column(f, d)
  {
    Assign(f, Population, BFill(FFill(Column(f, Population))))
  }

  /**
   * The population fill, on the frame: a known population is kept; a missing
   * one takes the nearest known population above it, or, above the first
   * known one, that first one; if any row has a population, every row has one
   * after; every other column is unchanged.
   */
  lemma FillPopulationSpec(f: Frame)
    requires WellFormed(f) && Population in f.cols
    ensures forall i :: 0 <= i < |f.rows| && Column(f, Population)[i].Some? ==>
      Column(FillPopulation(f), Population)[i] == Column(f, Population)[i]
    ensures forall i :: 0 <= i < |f.rows| ==>
      var pops := Column(f, Population);
      Column(FillPopulation(f), Population)[i] == if LastKnown(pops, i).Some? then LastKnown(pops, i) else NextKnown(pops, 0)
    ensures (exists j :: 0 <= j < |f.rows| && Column(f, Population)[j].Some?) ==>
      forall i :: 0 <= i < |f.rows| ==> Column(FillPopulation(f), Population)[i].Some?
  {
    FFillThenBFill(Column(f, Population));
  }

  /** The steps after the panel merge, on the metrics frame `jhu` and the panel `owid`. */
  function Cleaned(jhu: Frame, owid: Frame): Result<Frame>
    requires WellFormed(jhu) && WellFormed(owid)
  {
    match LeftJoin(jhu, owid)
    case Err(e) => Err(e)
    case Ok(merged) =>
      if Population !in merged.cols then Err(MissingColumn(Population))
      else Ok(ZeroFill(GroupFill(SortByKey(DeriveRates(FillPopulation(merged), RateColumns)))))
  }

  /** The table `load_and_merge_data` returns, from the three wide tables and the panel it reads. */
  function MergedDataset(conf: WideTable, deaths: WideTable, recov: WideTable, owid: Frame,
                         parse: string -> Option<Date>): Result<Frame>
    requires WideValid(conf) && WideValid(deaths) && WideValid(recov) && WellFormed(owid)
  {
    Cleaned(JhuFrame(conf, deaths, recov, parse), owid)
  }

  /** StrLe is reflexive. */
  lemma StrLeRefl(a: string)
    ensures StrLe(a, a)
  {
    StrLeTotal(a, a);
  }

  /** Sorting keeps the set of locations and leaves them in ascending order. */
  lemma SortLocations(f: Frame)
    requires WellFormed(f)
    ensures forall l :: l in Locs(SortByKey(f).rows) <==> l in Locs(f.rows)
    ensures forall i, j :: 0 <= i < j < |f.rows| ==> StrLe(Locs(SortByKey(f).rows)[i], Locs(SortByKey(f).rows)[j])
  {
    var rows := SortByKey(f).rows;
    forall l
      ensures l in Locs(rows) <==> l in Locs(f.rows)
    {
      if l in Locs(f.rows) {
        var i :| 0 <= i < |f.rows| && Locs(f.rows)[i] == l;
        assert f.rows[i] in multiset(rows);
        var k :| 0 <= k < |rows| && rows[k] == f.rows[i];
        assert Locs(rows)[k] == l;
      }
      if l in Locs(rows) {
        var k :| 0 <= k < |rows| && Locs(rows)[k] == l;
        assert rows[k] in multiset(f.rows);
        var i :| 0 <= i < |f.rows| && f.rows[i] == rows[k];
        assert Locs(f.rows)[i] == l;
      }
    }
    forall i, j | 0 <= i < j < |f.rows|
      ensures StrLe(Locs(rows)[i], Locs(rows)[j])
    {
      assert RowLe(rows[i], rows[j]);
      StrLeRefl(rows[i].loc);
    }
  }

  /** Every row has a known date. */
  ghost predicate AllDated(rows: seq<Row>)
  {
    forall i :: 0 <= i < |rows| ==> rows[i].date.Some?
  }

  /** Rows with the same locations and the same dates have the same keys. */
  lemma KeysFollowLocsDates(a: seq<Row>, b: seq<Row>)
    requires Locs(a) == Locs(b) && Dates(a) == Dates(b) && RowKeysUnique(a)
    ensures RowKeysUnique(b) && (AllDated(a) ==> AllDated(b))
  {
    forall i, j | 0 <= i < j < |b|
      ensures (b[i].loc, b[i].date) != (b[j].loc, b[j].date)
    {
      assert Locs(a)[i] == a[i].loc && Locs(a)[j] == a[j].loc;
      assert Dates(a)[i] == a[i].date && Dates(a)[j] == a[j].date;
    }
    forall i | 0 <= i < |b| && AllDated(a)
      ensures b[i].date.Some?
    {
      assert Dates(a)[i] == a[i].date;
    }
  }

  /** Reordering rows keeps their keys unique and their dates known. */
  lemma KeysUniquePermutation(a: seq<Row>, b: seq<Row>)
    requires multiset(a) == multiset(b) && RowKeysUnique(a)
    ensures RowKeysUnique(b) && (AllDated(a) ==> AllDated(b))
  {
    DistinctPermutation(a, b);
    forall i, j | 0 <= i < j < |b|
      ensures (b[i].loc, b[i].date) != (b[j].loc, b[j].date)
    {
      assert b[i] in multiset(a) && b[j] in multiset(a);
      var p :| 0 <= p < |a| && a[p] == b[i];
      var q :| 0 <= q < |a| && a[q] == b[j];
    }
    forall i | 0 <= i < |b|
      ensures b[i] in a
    {
      assert b[i] in multiset(a);
    }
  }

  /** With unique panel keys the merge keeps each metrics row's location and date, in order. */
  lemma LeftJoinKeepsKeys(jhu: Frame, owid: Frame)
    requires WellFormed(jhu) && WellFormed(owid) && LeftJoin(jhu, owid).Ok? && RowKeysUnique(owid.rows)
    ensures Locs(LeftJoin(jhu, owid).value.rows) == Locs(jhu.rows)
    ensures Dates(LeftJoin(jhu, owid).value.rows) == Dates(jhu.rows)
  {
    var merged := LeftJoin(jhu, owid).value;
    LeftJoinSpec(jhu, owid);
    forall i | 0 <= i < |jhu.rows|
      ensures Locs(merged.rows)[i] == Locs(jhu.rows)[i] && Dates(merged.rows)[i] == Dates(jhu.rows)[i]
    {
      assert Extends(merged.rows[i], jhu.rows[i]);
    }
  }

  /** The (location, date) keys of the rows, as a set. */
  ghost function KeySet(rows: seq<Row>): set<(Location, Option<Date>)>
  {
    set i | 0 <= i < |rows| :: (rows[i].loc, rows[i].date)
  }

  /** Rows with the same locations and the same dates have the same key set. */
  lemma KeySetFromLocsDates(a: seq<Row>, b: seq<Row>)
    requires Locs(a) == Locs(b) && Dates(a) == Dates(b)
    ensures KeySet(a) == KeySet(b)
  {
    forall k | k in KeySet(a)
      ensures k in KeySet(b)
    {
      var i :| 0 <= i < |a| && k == (a[i].loc, a[i].date);
      assert Locs(a)[i] == a[i].loc && Dates(a)[i] == a[i].date;
      assert Locs(b)[i] == b[i].loc && Dates(b)[i] == b[i].date;
    }
    forall k | k in KeySet(b)
      ensures k in KeySet(a)
    {
      var i :| 0 <= i < |b| && k == (b[i].loc, b[i].date);
      assert Locs(a)[i] == a[i].loc && Dates(a)[i] == a[i].date;
      assert Locs(b)[i] == b[i].loc && Dates(b)[i] == b[i].date;
    }
  }

  /** Reordering rows keeps their key set and keeps their dates known. */
  lemma KeySetPermutation(a: seq<Row>, b: seq<Row>)
    requires multiset(a) == multiset(b)
    ensures KeySet(a) == KeySet(b) && (AllDated(a) ==> AllDated(b))
  {
    forall k | k in KeySet(a)
      ensures k in KeySet(b)
    {
      var i :| 0 <= i < |a| && k == (a[i].loc, a[i].date);
      assert a[i] in multiset(b);
      var j :| 0 <= j < |b| && b[j] == a[i];
    }
    forall k | k in KeySet(b)
      ensures k in KeySet(a)
    {
      var i :| 0 <= i < |b| && k == (b[i].loc, b[i].date);
      assert b[i] in multiset(a);
      var j :| 0 <= j < |a| && a[j] == b[i];
    }
    forall i | 0 <= i < |b|
      ensures b[i] in a
    {
      assert b[i] in multiset(a);
    }
  }

  /** Rows with the same dates as rows with known dates have known dates. */
  lemma DatedFromDates(a: seq<Row>, b: seq<Row>)
    requires Dates(a) == Dates(b) && AllDated(a)
    ensures AllDated(b)
  {
    forall i | 0 <= i < |b|
      ensures b[i].date.Some?
    {
      assert Dates(a)[i] == a[i].date && Dates(b)[i] == b[i].date;
    }
  }

  /** The per-location fill and the zero fill change no location and no known date. */
  lemma FillsKeepLocsDates(sorted: Frame)
    requires WellFormed(sorted) && AllDated(sorted.rows)
    ensures Locs(ZeroFill(GroupFill(sorted)).rows) == Locs(sorted.rows)
    ensures Dates(ZeroFill(GroupFill(sorted)).rows) == Dates(sorted.rows)
  {
    var g := GroupFill(sorted);
    GroupFillSpec(sorted);
    assert Dates(g.rows) == Dates(sorted.rows) by {
      forall i | 0 <= i < |sorted.rows|
        ensures Dates(sorted.rows)[i].Some?
      {
        assert Dates(sorted.rows)[i] == sorted.rows[i].date;
      }
    }
    DatedFromDates(sorted.rows, g.rows);
    var r := ZeroFill(g);
    assert Dates(r.rows) == Dates(g.rows) by {
      forall i | 0 <= i < |g.rows|
        ensures Dates(r.rows)[i] == Dates(g.rows)[i]
      {
        assert g.rows[i].date.Some?;
      }
    }
  }

  /** The per-location fill and the zero fill keep unique, known keys unique. */
  lemma FillsKeepKeys(sorted: Frame)
    requires WellFormed(sorted) && RowKeysUnique(sorted.rows) && AllDated(sorted.rows)
    ensures RowKeysUnique(ZeroFill(GroupFill(sorted)).rows)
  {
    FillsKeepLocsDates(sorted);
    KeysFollowLocsDates(sorted.rows, ZeroFill(GroupFill(sorted)).rows);
  }

  /** The steps after the panel merge keep the key set when every date is known. */
  lemma CleaningKeepsKeySet(merged: Frame)
    requires WellFormed(merged) && Population in merged.cols && AllDated(merged.rows)
    ensures KeySet(ZeroFill(GroupFill(SortByKey(DeriveRates(FillPopulation(merged), RateColumns)))).rows) == KeySet(merged.rows)
  {
    var rated := DeriveRates(FillPopulation(merged), RateColumns);
    KeySetFromLocsDates(merged.rows, rated.rows);
    DatedFromDates(merged.rows, rated.rows);
    var sorted := SortByKey(rated);
    KeySetPermutation(rated.rows, sorted.rows);
    FillsKeepLocsDates(sorted);
    KeySetFromLocsDates(sorted.rows, ZeroFill(GroupFill(sorted)).rows);
  }

  /** Every key of ls is a key of out when every row of ls is extended by a row of out. */
  lemma KeysCovered(out: seq<Row>, ls: seq<Row>)
    requires forall i :: 0 <= i < |ls| ==> exists k :: 0 <= k < |out| && Extends(out[k], ls[i])
    ensures KeySet(ls) <= KeySet(out)
  {
    forall key | key in KeySet(ls)
      ensures key in KeySet(out)
    {
      var i :| 0 <= i < |ls| && key == (ls[i].loc, ls[i].date);
      var k :| 0 <= k < |out| && Extends(out[k], ls[i]);
      assert key == (out[k].loc, out[k].date);
    }
  }

  /** Every key of out is a key of ls, with its date known when those of ls are, when every row of out extends a row of ls. */
  lemma KeysDrawn(out: seq<Row>, ls: seq<Row>)
    requires forall k :: 0 <= k < |out| ==> exists i :: 0 <= i < |ls| && Extends(out[k], ls[i])
    ensures KeySet(out) <= KeySet(ls)
    ensures AllDated(ls) ==> AllDated(out)
  {
    forall key | key in KeySet(out)
      ensures key in KeySet(ls)
    {
      var k :| 0 <= k < |out| && key == (out[k].loc, out[k].date);
      var i :| 0 <= i < |ls| && Extends(out[k], ls[i]);
      assert key == (ls[i].loc, ls[i].date);
    }
    forall k | 0 <= k < |out| && AllDated(ls)
      ensures out[k].date.Some?
    {
      var i :| 0 <= i < |ls| && Extends(out[k], ls[i]);
    }
  }

  /**
   * The panel merge keeps the metrics frame's key set, repeated panel keys
   * or not: every metrics row is extended by some merged row, and every
   * merged row extends some metrics row.
   */
  lemma LeftJoinKeySet(jhu: Frame, owid: Frame)
    requires WellFormed(jhu) && WellFormed(owid) && LeftJoin(jhu, owid).Ok?
    ensures KeySet(LeftJoin(jhu, owid).value.rows) == KeySet(jhu.rows)
    ensures AllDated(jhu.rows) ==> AllDated(LeftJoin(jhu, owid).value.rows)
  {
    var out := LeftJoin(jhu, owid).value.rows;
    assert out == LeftJoinRows(jhu, owid, jhu.rows);
    assert KeySet(jhu.rows) <= KeySet(out) by {
      LeftJoinKeepsLeftRows(jhu, owid, jhu.rows);
      KeysCovered(out, jhu.rows);
    }
    assert KeySet(out) <= KeySet(jhu.rows) && (AllDated(jhu.rows) ==> AllDated(out)) by {
      LeftJoinAddsNoRows(jhu, owid, jhu.rows);
      KeysDrawn(out, jhu.rows);
    }
  }

  /**
   * With every metrics date known, the cleaned table has exactly the
   * (location, date) keys of the metrics frame: the panel adds none, even
   * when it repeats a key, and no later step moves a known date.
   */
  lemma CleanedKeySet(jhu: Frame, owid: Frame)
    requires WellFormed(jhu) && WellFormed(owid) && Cleaned(jhu, owid).Ok?
    requires AllDated(jhu.rows)
    ensures KeySet(Cleaned(jhu, owid).value.rows) == KeySet(jhu.rows)
  {
    var merged := LeftJoin(jhu, owid).value;
    LeftJoinKeySet(jhu, owid);
    CleaningKeepsKeySet(merged);
  }

  /** The steps after the panel merge keep unique, known keys unique. */
  lemma CleaningKeepsKeys(merged: Frame)
    requires WellFormed(merged) && Population in merged.cols
    requires RowKeysUnique(merged.rows) && AllDated(merged.rows)
    ensures RowKeysUnique(ZeroFill(GroupFill(SortByKey(DeriveRates(FillPopulation(merged), RateColumns)))).rows)
  {
    var rated := DeriveRates(FillPopulation(merged), RateColumns);
    KeysFollowLocsDates(merged.rows, rated.rows);
    var sorted := SortByKey(rated);
    KeysUniquePermutation(rated.rows, sorted.rows);
    FillsKeepKeys(sorted);
  }

  /**
   * With unique metrics keys, unique panel keys and every date known, the
   * cleaned table has no two rows with one (location, date) key: no step
   * adds a row or changes a known key.
   */
  lemma CleanedKeysUnique(jhu: Frame, owid: Frame)
    requires WellFormed(jhu) && WellFormed(owid) && Cleaned(jhu, owid).Ok?
    requires RowKeysUnique(jhu.rows) && RowKeysUnique(owid.rows) && AllDated(jhu.rows)
    ensures RowKeysUnique(Cleaned(jhu, owid).value.rows)
  {
    var merged := LeftJoin(jhu, owid).value;
    LeftJoinKeepsKeys(jhu, owid);
    KeysFollowLocsDates(jhu.rows, merged.rows);
    CleaningKeepsKeys(merged);
  }

  /** Two rows of one location, dated and then undated, sort in that order. */
  lemma SortTwoRows(f: Frame)
    requires WellFormed(f) && |f.rows| == 2
    requires f.rows[0].loc == f.rows[1].loc && f.rows[0].date.Some? && f.rows[1].date.None?
    ensures |SortByKey(f).rows| == 2
    ensures Locs(SortByKey(f).rows) == Locs(f.rows) && Dates(SortByKey(f).rows) == Dates(f.rows)
  {
    var rows := SortByKey(f).rows;
    assert |rows| == 2 by {
      assert |multiset(rows)| == |multiset(f.rows)|;
    }
    assert rows[0] in multiset(f.rows) && rows[1] in multiset(f.rows);
    assert f.rows[0] in multiset(rows) && f.rows[1] in multiset(rows);
    assert RowLe(rows[0], rows[1]);
    assert Locs(rows)[0] == rows[0].loc && Locs(rows)[1] == rows[1].loc;
    assert Locs(f.rows)[0] == f.rows[0].loc && Locs(f.rows)[1] == f.rows[1].loc;
  }

  /** The per-location fill dates an undated row that follows a dated row of its location. */
  lemma FillTwoRows(f: Frame)
    requires WellFormed(f) && |f.rows| == 2
    requires Locs(f.rows)[0] == Locs(f.rows)[1] && Dates(f.rows)[0].Some? && Dates(f.rows)[1].None?
    ensures var r := ZeroFill(GroupFill(f)).rows;
      |r| == 2 && r[0].loc == r[1].loc && r[0].date == r[1].date == Dates(f.rows)[0]
  {
    var g := GroupFill(f);
    GroupFillSpec(f);
    GFillStaysInGroup(Locs(f.rows), Dates(f.rows), 1);
    assert Dates(g.rows)[0] == g.rows[0].date && Dates(g.rows)[1] == g.rows[1].date;
    var r := ZeroFill(g);
    assert Locs(r.rows)[0] == r.rows[0].loc && Locs(r.rows)[1] == r.rows[1].loc;
  }

  /**
   * The keys can repeat when a date is missing: a metrics frame whose two rows
   * share a location, the first dated and the second not (an unparseable date
   * header), has unique keys, yet the per-location forward fill of line 130
   * gives the second row the first row's date, so the cleaned table holds
   * one (location, date) key twice.
   */
  lemma MissingDateRepeatsKey(jhu: Frame, owid: Frame)
    requires WellFormed(jhu) && WellFormed(owid) && RowKeysUnique(owid.rows) && Cleaned(jhu, owid).Ok?
    requires |jhu.rows| == 2 && jhu.rows[0].loc == jhu.rows[1].loc
    requires jhu.rows[0].date.Some? && jhu.rows[1].date.None?
    ensures RowKeysUnique(jhu.rows)
    ensures !RowKeysUnique(Cleaned(jhu, owid).value.rows)
  {
    assert RowKeysUnique(jhu.rows) by {
      forall i, j | 0 <= i < j < |jhu.rows|
        ensures jhu.rows[i].date != jhu.rows[j].date
      {
        assert i == 0 && j == 1;
      }
    }
    var merged := LeftJoin(jhu, owid).value;
    LeftJoinKeepsKeys(jhu, owid);
    var rated := DeriveRates(FillPopulation(merged), RateColumns);
    assert Cleaned(jhu, owid) == Ok(ZeroFill(GroupFill(SortByKey(rated))));
    assert Locs(rated.rows) == Locs(jhu.rows) && Dates(rated.rows) == Dates(jhu.rows);
    assert Locs(jhu.rows)[0] == jhu.rows[0].loc && Locs(jhu.rows)[1] == jhu.rows[1].loc;
    assert Dates(jhu.rows)[0] == jhu.rows[0].date && Dates(jhu.rows)[1] == jhu.rows[1].date;
    assert Locs(rated.rows)[0] == rated.rows[0].loc && Locs(rated.rows)[1] == rated.rows[1].loc;
    assert Dates(rated.rows)[0] == rated.rows[0].date && Dates(rated.rows)[1] == rated.rows[1].date;
    SortTwoRows(rated);
    var sorted := SortByKey(rated);
    FillTwoRows(sorted);
    var r := ZeroFill(GroupFill(sorted)).rows;
    assert (r[0].loc, r[0].date) == (r[1].loc, r[1].date);
    assert !RowKeysUnique(r);
    assert Cleaned(jhu, owid).value.rows == r;
  }

  /** An instance: location "A" dated day 1, then undated, against an empty panel. */
  lemma MissingDateExample()
    ensures
      var jhu := Frame([], [Row("A", Some(1), map[]), Row("A", None, map[])]);
      var owid := Frame([Population], []);
      && WellFormed(jhu) && WellFormed(owid) && Cleaned(jhu, owid).Ok?
      && !RowKeysUnique(Cleaned(jhu, owid).value.rows)
  {
    var jhu := Frame([], [Row("A", Some(1), map[]), Row("A", None, map[])]);
    var owid := Frame([Population], []);
    assert ColSet(owid.cols) == {Population};
    assert JoinedCols(jhu, owid) == [Population] by {
      assert PanelNames(jhu.cols, owid.cols)[0] == Population;
    }
    assert LeftJoin(jhu, owid).Ok? && Population in LeftJoin(jhu, owid).value.cols;
    MissingDateRepeatsKey(jhu, owid);
  }

  /**
   * What `load_and_merge_data` promises of the table it returns: it fails
   * exactly when the panel merge would give two columns one name or when the
   * merged frame has no population column; otherwise the table has the merged
   * columns plus `<c>_per100k` for each listed c among them, no missing cell or
   * date, the locations of the metrics frame and no other, in ascending order,
   * and at least one row per metrics row, exactly one when the panel has no
   * repeated (location, date) key; when no metrics date is missing, its
   * (location, date) keys are exactly those of the metrics frame; its
   * (location, date) keys are unique when
   * those of the metrics frame and of the panel are and no date is missing
   * (`MissingDateRepeatsKey` shows why the last condition is needed).
   */
  lemma CleanedSpec(jhu: Frame, owid: Frame)
    requires WellFormed(jhu) && WellFormed(owid)
    ensures Cleaned(jhu, owid).Err? <==> !Distinct(JoinedCols(jhu, owid)) || Population !in JoinedCols(jhu, owid)
    ensures Cleaned(jhu, owid).Ok? ==>
      var r := Cleaned(jhu, owid).value;
      && WellFormed(r) && NoNulls(r)
      && ColSet(r.cols) == ColSet(JoinedCols(jhu, owid)) + (set c | c in RateColumns && c in JoinedCols(jhu, owid) :: RateName(c))
      && (forall l :: l in Locs(r.rows) <==> l in Locs(jhu.rows))
      && (forall i, j :: 0 <= i < j < |r.rows| ==> StrLe(r.rows[i].loc, r.rows[j].loc))
      && |r.rows| >= |jhu.rows|
      && (RowKeysUnique(owid.rows) ==> |r.rows| == |jhu.rows|)
      && (RowKeysUnique(jhu.rows) && RowKeysUnique(owid.rows) && AllDated(jhu.rows) ==> RowKeysUnique(r.rows))
      && (AllDated(jhu.rows) ==> KeySet(r.rows) == KeySet(jhu.rows))
  {
    if Cleaned(jhu, owid).Ok? {
      CleanedShape(jhu, owid);
      if RowKeysUnique(jhu.rows) && RowKeysUnique(owid.rows) && AllDated(jhu.rows) {
        CleanedKeysUnique(jhu, owid);
      }
      if AllDated(jhu.rows) {
        CleanedKeySet(jhu, owid);
      }
    }
  }

  /** The columns, locations, location order and row count of the cleaned table. */
  lemma CleanedShape(jhu: Frame, owid: Frame)
    requires WellFormed(jhu) && WellFormed(owid) && Cleaned(jhu, owid).Ok?
    ensures
      var r := Cleaned(jhu, owid).value;
      && WellFormed(r) && NoNulls(r)
      && ColSet(r.cols) == ColSet(JoinedCols(jhu, owid)) + (set c | c in RateColumns && c in JoinedCols(jhu, owid) :: RateName(c))
      && (forall l :: l in Locs(r.rows) <==> l in Locs(jhu.rows))
      && (forall i, j :: 0 <= i < j < |r.rows| ==> StrLe(r.rows[i].loc, r.rows[j].loc))
      && |r.rows| >= |jhu.rows|
      && (RowKeysUnique(owid.rows) ==> |r.rows| == |jhu.rows|)
  {
    var merged := LeftJoin(jhu, owid).value;
    LeftJoinLocations(jhu, owid);
    var filled := FillPopulation(merged);
    RateColumnsFresh();
    DeriveRatesCols(filled, RateColumns);
    var rated := DeriveRates(filled, RateColumns);
    var sorted := SortByKey(rated);
    SortLocations(rated);
    GroupFillSpec(sorted);
    var r := Cleaned(jhu, owid).value;
    assert r == ZeroFill(GroupFill(sorted));
    assert Locs(r.rows) == Locs(sorted.rows);
    forall i, j | 0 <= i < j < |r.rows|
      ensures StrLe(r.rows[i].loc, r.rows[j].loc)
    {
      assert r.rows[i].loc == Locs(r.rows)[i] && r.rows[j].loc == Locs(r.rows)[j];
    }
  }

  /** A copy of column c in a new array. */
  method ColumnArray(f: Frame, c: Name) returns (a: array<Cell>)
    requires WellFormed(f) && c in f.cols
    ensures fresh(a) && a[..] == Column(f, c)
  {
    a := new Cell[|f.rows|](i requires 0 <= i < |f.rows| => f.rows[i].cells[c]);
  }

  /** One more column of the group fill. */
  lemma GroupFillColsStep(f: Frame, k: nat)
    requires WellFormed(f) && k < |f.cols|
    ensures GroupFillCols(f, f.cols[..k + 1]) ==
      Assign(GroupFillCols(f, f.cols[..k]), f.cols[k], GFill(Locs(f.rows), Column(GroupFillCols(f, f.cols[..k]), f.cols[k])))
  {
    var cs := f.cols[..k + 1];
    assert cs[..|cs| - 1] == f.cols[..k];
    assert cs[|cs| - 1] == f.cols[k];
  }

  /** The per-location forward fill, column by column, each filled in place in an array. */
  method GroupFillFrame(f: Frame) returns (r: Frame)
    requires WellFormed(f)
    ensures r == GroupFill(f)
  {
    var keys := Locs(f.rows);
    r := f;
    for k := 0 to |f.cols|
      invariant r == GroupFillCols(f, f.cols[..k])
    {
      var c := f.cols[k];
      var a := ColumnArray(r, c);
      GroupForwardFill(keys, a);
      GroupFillColsStep(f, k);
      r := Assign(r, c, a[..]);
    }
    assert f.cols[..|f.cols|] == f.cols;
    var d := new Option<Date>[|r.rows|](i requires 0 <= i < |r.rows| => r.rows[i].date);
    assert d[..] == Dates(f.rows);
    GroupForwardFill(keys, d);
    r := SetDates(r, d[..]);
  }

  /** Line 122 in place: the population column is copied out, forward then backward filled, and put back. */
  method FillPopulationColumn(f: Frame) returns (r: Frame)
    requires WellFormed(f) && Population in f.cols
    ensures r == FillPopulation(f)
  {
    var pop := ColumnArray(f, Population);
    ForwardFill(pop);
    BackwardFill(pop);
    r := Assign(f, Population, pop[..]);
  }

  /** Lines 124-126: one loop turn per listed name, each adding its per-100k column when the source exists. */
  method AddRateColumns(f: Frame) returns (r: Frame)
    requires WellFormed(f) && Population in f.cols
    ensures r == DeriveRates(f, RateColumns)
  {
    r := f;
    for k := 0 to |RateColumns|
      invariant WellFormed(r) && Population in r.cols
      invariant r == DeriveRates(f, RateColumns[..k])
    {
      var col := RateColumns[k];
      if col in r.cols {
        r := Assign(r, RateName(col), RateColumn(Column(r, col), Column(r, Population)));
      }
      assert RateColumns[..k + 1][..k] == RateColumns[..k];
    }
    assert RateColumns[..|RateColumns|] == RateColumns;
  }

  /** Lines 112-131 step by step, on the metrics frame and the panel. */
  method Clean(jhu: Frame, owid: Frame) returns (r: Result<Frame>)
    requires WellFormed(jhu) && WellFormed(owid)
    ensures r == Cleaned(jhu, owid)
  {
    var joined := LeftJoin(jhu, owid);
    if joined.Err? {
      return Err(joined.error);
    }
    var merged := joined.value;
    if Population !in merged.cols {
      return Err(MissingColumn(Population));
    }
    merged := FillPopulationColumn(merged);
    merged := AddRateColumns(merged);
    merged := SortByKey(merged);
    merged := GroupFillFrame(merged);
    merged := ZeroFill(merged);
    return Ok(merged);
  }

  /**
   * `load_and_merge_data` without its file reads and writes: the three wide
   * tables are melted and merged, then the panel is merged on and the result
   * cleaned.
   */
  method LoadAndMerge(conf: WideTable, deaths: WideTable, recov: WideTable, owid: Frame,
                      parse: string -> Option<Date>) returns (r: Result<Frame>)
    requires WideValid(conf) && WideValid(deaths) && WideValid(recov) && WellFormed(owid)
    ensures r == MergedDataset(conf, deaths, recov, owid, parse)
  {
    var jhu := JhuFrame(conf, deaths, recov, parse);
    r := Clean(jhu, owid);
  }
}
