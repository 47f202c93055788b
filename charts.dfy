/**
 * The row and location selections the charts make before drawing
 * (covid_analysis.py:150, 179-182, 208): the locations with the largest
 * `confirmed` maximum, and the latest row of each location ranked by
 * `deaths_per100k`. Drawing is not modelled.
 */
module Charts {
  import opened Wrappers
  import opened SeqUtil
  import opened Sorting
  import opened Frames

  /** Countries drawn in the cases chart (line 150). */
  const CasesChartCount: nat := 6
  /** Countries drawn in the policy chart (line 208). */
  const PolicyChartCount: nat := 4
  /** Bars drawn in the deaths-versus-vaccination chart (line 182). */
  const DeathsChartCount: nat := 20
  /** Only locations with more people than this are ranked there (line 181). */
  const PopulationFloor: real := 1000000.0

  function Min(a: nat, b: nat): nat
  {
    if a <= b then a else b
  }

  // ---------------------------------------------------------------------
  // Ranking by a score, descending
  // ---------------------------------------------------------------------

  /** `sort_values(ascending=False)` order: larger scores first, missing scores last. */
  predicate Before(a: Cell, b: Cell)
  {
    b.None? || (a.Some? && a.value >= b.value)
  }

  function ByScore<T>(score: T -> Cell): (T, T) -> bool
  {
    (x: T, y: T) => Before(score(x), score(y))
  }

  lemma ByScoreIsTotalPreorder<T(!new)>(score: T -> Cell)
    ensures TotalPreorder(ByScore(score))
  {
    var le := ByScore(score);
    forall a: T, b: T, c: T | le(a, b) && le(b, c)
      ensures le(a, c)
    {
      assert Before(score(a), score(b)) && Before(score(b), score(c));
    }
  }

  /** `sort_values(ascending=False).head(n)` on a sequence ranked by `score`. */
  function TopBy<T(==)>(s: seq<T>, score: T -> Cell, n: nat): (r: seq<T>)
    ensures |r| == Min(n, |s|)
  {
    var sorted := Sort(s, ByScore(score));
    sorted[..Min(n, |sorted|)]
  }

  /** The first n by score are taken from s and come in descending score order. */
  lemma TopBySpec<T(!new)>(s: seq<T>, score: T -> Cell, n: nat)
    ensures multiset(TopBy(s, score, n)) <= multiset(s)
    ensures forall i, j :: 0 <= i < j < |TopBy(s, score, n)| ==>
      Before(score(TopBy(s, score, n)[i]), score(TopBy(s, score, n)[j]))
  {
    var sorted := Sort(s, ByScore(score));
    var r := TopBy(s, score, n);
    ByScoreIsTotalPreorder(score);
    SortIsSorted(s, ByScore(score));
    assert sorted == r + sorted[|r|..];
    forall i, j | 0 <= i < j < |r|
      ensures Before(score(r[i]), score(r[j]))
    {
      assert ByScore(score)(sorted[i], sorted[j]);
    }
  }

  /** Every element the first n by score leave out scores no higher than any element kept. */
  lemma TopByMaximal<T(!new)>(s: seq<T>, score: T -> Cell, n: nat)
    ensures forall x, y :: x in multiset(s) - multiset(TopBy(s, score, n)) && y in TopBy(s, score, n) ==>
      Before(score(y), score(x))
  {
    var le := ByScore(score);
    var sorted := Sort(s, le);
    var m := Min(n, |sorted|);
    var top := TopBy(s, score, n);
    assert top == sorted[..m];
    assert multiset(s) - multiset(top) == multiset(sorted[m..]) by {
      PrefixComplement(s, sorted, m);
    }
    assert forall x, y :: x in multiset(sorted[m..]) && y in sorted[..m] ==> le(y, x) by {
      ByScoreIsTotalPreorder(score);
      SortIsSorted(s, le);
      SortedPrefixFirst(sorted, m, le);
    }
    forall x, y | x in multiset(s) - multiset(top) && y in top
      ensures Before(score(y), score(x))
    {
      assert le(y, x);
    }
  }

  /** What a prefix of a permutation of s leaves of s is the rest of the permutation. */
  lemma PrefixComplement<T>(s: seq<T>, p: seq<T>, m: nat)
    requires multiset(p) == multiset(s) && m <= |p|
    ensures multiset(s) - multiset(p[..m]) == multiset(p[m..])
  {
    assert p == p[..m] + p[m..];
  }

  /** In a sorted sequence every element of a prefix is `le` every element after it. */
  lemma SortedPrefixFirst<T>(sorted: seq<T>, m: nat, le: (T, T) -> bool)
    requires m <= |sorted| && Sorted(sorted, le)
    ensures forall x, y :: x in multiset(sorted[m..]) && y in sorted[..m] ==> le(y, x)
  {
    forall x, y | x in multiset(sorted[m..]) && y in sorted[..m]
      ensures le(y, x)
    {
      var k :| 0 <= k < |sorted[m..]| && sorted[m..][k] == x;
      var i :| 0 <= i < m && sorted[..m][i] == y;
      assert sorted[i] == y && sorted[m + k] == x;
    }
  }

  // ---------------------------------------------------------------------
  // Top locations by maximum confirmed (lines 150, 208)
  // ---------------------------------------------------------------------

  /** `groupby('location')[c].max()` for one location: the largest known cell of its rows, missing when none is known. */
  function GroupMax(rows: seq<Row>, loc: Location, c: Name): (r: Cell)
    requires forall i :: 0 <= i < |rows| ==> c in rows[i].cells
    ensures r.None? <==> forall i :: 0 <= i < |rows| && rows[i].loc == loc ==> rows[i].cells[c].None?
    ensures r.Some? ==> exists i :: 0 <= i < |rows| && rows[i].loc == loc && rows[i].cells[c] == r
    ensures forall i :: 0 <= i < |rows| && rows[i].loc == loc && rows[i].cells[c].Some? ==>
      r.Some? && rows[i].cells[c].value <= r.value
  {
    if rows == [] then None
    else
      var front := rows[..|rows| - 1];
      var last := rows[|rows| - 1];
      var m := GroupMax(front, loc, c);
      assert forall i :: 0 <= i < |front| ==> front[i] == rows[i];
      if last.loc != loc || last.cells[c].None? then m
      else if m.None? || m.value <= last.cells[c].value then last.cells[c]
      else m
  }

  /** A location with its maximum of the ranking column. */
  datatype Ranked = Ranked(loc: Location, best: Cell)

  function Best(e: Ranked): Cell
  {
    e.best
  }

  /** One entry per location, in order of first appearance. */
  function Rankings(f: Frame, c: Name): (r: seq<Ranked>)
    requires WellFormed(f) && c in f.cols
    ensures |r| == |Dedup(Locs(f.rows))|
  {
    var locs := Dedup(Locs(f.rows));
    seq(|locs|, i requires 0 <= i < |locs| => Ranked(locs[i], GroupMax(f.rows, locs[i], c)))
  }

  function EntryLoc(e: Ranked): Location
  {
    e.loc
  }

  /** The locations of ranking entries, in order. */
  function LocationsOf(s: seq<Ranked>): seq<Location>
  {
    Project(s, EntryLoc)
  }

  /** `df.groupby('location')['confirmed'].max().sort_values(ascending=False).head(n).index`. */
  function TopLocations(f: Frame, n: nat): (r: seq<Location>)
    requires WellFormed(f) && "confirmed" in f.cols
  {
    LocationsOf(TopEntries(f, n))
  }

  /**
   * What `.sort_values(ascending=False).head(n).index` promises of the
   * selected locations: as many as there are locations, up to n, each a
   * location of the frame and none twice, in descending order of their
   * maximum `confirmed`, and no location left out ranks above one kept.
   */
  ghost predicate IsTopSelection(f: Frame, r: seq<Location>, n: nat)
    requires WellFormed(f) && "confirmed" in f.cols
  {
    && |r| == Min(n, |Dedup(Locs(f.rows))|)
    && Distinct(r)
    && (forall i :: 0 <= i < |r| ==> r[i] in Locs(f.rows))
    && (forall i, j :: 0 <= i < j < |r| ==>
          Before(GroupMax(f.rows, r[i], "confirmed"), GroupMax(f.rows, r[j], "confirmed")))
    && (forall l, i :: l in Locs(f.rows) && l !in r && 0 <= i < |r| ==>
          Before(GroupMax(f.rows, r[i], "confirmed"), GroupMax(f.rows, l, "confirmed")))
  }

  /** The six countries of the cases chart. */
  function CasesChartLocations(f: Frame): (r: seq<Location>)
    requires WellFormed(f) && "confirmed" in f.cols
    ensures IsTopSelection(f, r, CasesChartCount)
  {
    TopLocationsSpec(f, CasesChartCount);
    TopLocationsMaximal(f, CasesChartCount);
    TopLocations(f, CasesChartCount)
  }

  /** The four countries of the policy chart. */
  function PolicyChartLocations(f: Frame): (r: seq<Location>)
    requires WellFormed(f) && "confirmed" in f.cols
    ensures IsTopSelection(f, r, PolicyChartCount)
  {
    TopLocationsSpec(f, PolicyChartCount);
    TopLocationsMaximal(f, PolicyChartCount);
    TopLocations(f, PolicyChartCount)
  }

  lemma RankingsSpec(f: Frame, c: Name)
    requires WellFormed(f) && c in f.cols
    ensures Distinct(LocationsOf(Rankings(f, c)))
    ensures forall e :: e in Rankings(f, c) ==> e.best == GroupMax(f.rows, e.loc, c) && e.loc in Locs(f.rows)
    ensures forall l :: l in Locs(f.rows) ==> Ranked(l, GroupMax(f.rows, l, c)) in Rankings(f, c)
  {
    var r := Rankings(f, c);
    var locs := Dedup(Locs(f.rows));
    assert LocationsOf(r) == locs;
    forall l | l in Locs(f.rows)
      ensures Ranked(l, GroupMax(f.rows, l, c)) in r
    {
      var i :| 0 <= i < |Locs(f.rows)| && Locs(f.rows)[i] == l;
      var k :| 0 <= k < |locs| && locs[k] == l;
      assert r[k] == Ranked(l, GroupMax(f.rows, l, c));
    }
  }

  /** Entries of one location carry the same maximum, so distinct entries have distinct locations. */
  lemma DistinctLocations(s: seq<Ranked>, f: Frame, c: Name)
    requires WellFormed(f) && c in f.cols
    requires Distinct(s) && forall e :: e in s ==> e.best == GroupMax(f.rows, e.loc, c)
    ensures Distinct(LocationsOf(s))
  {
    forall i, j | 0 <= i < j < |s|
      ensures s[i].loc != s[j].loc
    {
      assert s[i] in s && s[j] in s;
    }
  }

  /** The entries kept by the top-n selection. */
  function TopEntries(f: Frame, n: nat): seq<Ranked>
    requires WellFormed(f) && "confirmed" in f.cols
  {
    TopBy(Rankings(f, "confirmed"), Best, n)
  }

  /** The kept entries are entries of the frame's locations, each with its maximum. */
  lemma TopEntriesSpec(f: Frame, n: nat)
    requires WellFormed(f) && "confirmed" in f.cols
    ensures forall e :: e in TopEntries(f, n) ==> e in Rankings(f, "confirmed")
    ensures forall e :: e in TopEntries(f, n) ==> e.best == GroupMax(f.rows, e.loc, "confirmed") && e.loc in Locs(f.rows)
  {
    var top := TopEntries(f, n);
    RankingsSpec(f, "confirmed");
    TopBySpec(Rankings(f, "confirmed"), Best, n);
    forall e | e in top
      ensures e in Rankings(f, "confirmed")
    {
      assert e in multiset(top);
    }
  }

  /** The kept locations are distinct. */
  lemma TopEntriesDistinct(f: Frame, n: nat)
    requires WellFormed(f) && "confirmed" in f.cols
    ensures Distinct(TopLocations(f, n))
  {
    var c := "confirmed";
    var all := Rankings(f, c);
    var top := TopEntries(f, n);
    var sorted := Sort(all, ByScore(Best));
    RankingsSpec(f, c);
    TopEntriesSpec(f, n);
    forall i, j | 0 <= i < j < |all|
      ensures all[i] != all[j]
    {
      assert LocationsOf(all)[i] == all[i].loc && LocationsOf(all)[j] == all[j].loc;
    }
    DistinctPermutation(all, sorted);
    assert top == sorted[..|top|];
    DistinctLocations(top, f, c);
  }

  /**
   * The top-n selection: min(n, number of locations) distinct locations of
   * the frame, in descending order of their maximum `confirmed` (a location
   * with no known value last).
   */
  lemma TopLocationsSpec(f: Frame, n: nat)
    requires WellFormed(f) && "confirmed" in f.cols
    ensures |TopLocations(f, n)| == Min(n, |Dedup(Locs(f.rows))|) && |TopLocations(f, n)| <= n
    ensures Distinct(TopLocations(f, n))
    ensures forall i :: 0 <= i < |TopLocations(f, n)| ==> TopLocations(f, n)[i] in Locs(f.rows)
    ensures forall i, j :: 0 <= i < j < |TopLocations(f, n)| ==>
      Before(GroupMax(f.rows, TopLocations(f, n)[i], "confirmed"), GroupMax(f.rows, TopLocations(f, n)[j], "confirmed"))
  {
    var top := TopEntries(f, n);
    var r := TopLocations(f, n);
    TopEntriesSpec(f, n);
    TopEntriesDistinct(f, n);
    TopBySpec(Rankings(f, "confirmed"), Best, n);
    forall i | 0 <= i < |r|
      ensures r[i] in Locs(f.rows) && Best(top[i]) == GroupMax(f.rows, r[i], "confirmed")
    {
      assert top[i] in top;
    }
  }

  /** No location left out by the top-n selection has a larger maximum `confirmed` than one kept. */
  lemma TopLocationsMaximal(f: Frame, n: nat)
    requires WellFormed(f) && "confirmed" in f.cols
    ensures forall l, i :: l in Locs(f.rows) && l !in TopLocations(f, n) && 0 <= i < |TopLocations(f, n)| ==>
      Before(GroupMax(f.rows, TopLocations(f, n)[i], "confirmed"), GroupMax(f.rows, l, "confirmed"))
  {
    forall l, i | l in Locs(f.rows) && l !in TopLocations(f, n) && 0 <= i < |TopLocations(f, n)|
      ensures Before(GroupMax(f.rows, TopLocations(f, n)[i], "confirmed"), GroupMax(f.rows, l, "confirmed"))
    {
      LeftOutRanksLower(f, n, l, i);
    }
  }

  lemma LeftOutRanksLower(f: Frame, n: nat, l: Location, i: nat)
    requires WellFormed(f) && "confirmed" in f.cols
    requires l in Locs(f.rows) && l !in TopLocations(f, n) && i < |TopLocations(f, n)|
    ensures Before(GroupMax(f.rows, TopLocations(f, n)[i], "confirmed"), GroupMax(f.rows, l, "confirmed"))
  {
    var c := "confirmed";
    var all := Rankings(f, c);
    var top := TopEntries(f, n);
    var r := TopLocations(f, n);
    var e := Ranked(l, GroupMax(f.rows, l, c));
    assert e !in multiset(top) by {
      forall k | 0 <= k < |top|
        ensures top[k] != e
      {
        assert r[k] == top[k].loc;
      }
    }
    assert e in multiset(all) by {
      RankingsSpec(f, c);
    }
    TopByMaximal(all, Best, n);
    assert top[i] in top;
    assert Before(Best(top[i]), Best(e));
    assert top[i].best == GroupMax(f.rows, r[i], c) by {
      TopEntriesSpec(f, n);
    }
  }

  /** With at most n locations the top-n selection keeps every location. */
  lemma TopLocationsAll(f: Frame, n: nat)
    requires WellFormed(f) && "confirmed" in f.cols && |Dedup(Locs(f.rows))| <= n
    ensures forall l :: l in Locs(f.rows) ==> l in TopLocations(f, n)
  {
    forall l | l in Locs(f.rows)
      ensures l in TopLocations(f, n)
    {
      KeptWhenFew(f, n, l);
    }
  }

  /** With no more than n elements, all of them are kept. */
  lemma TopByAll<T>(s: seq<T>, score: T -> Cell, n: nat)
    requires |s| <= n
    ensures multiset(TopBy(s, score, n)) == multiset(s)
  {
    var sorted := Sort(s, ByScore(score));
    assert TopBy(s, score, n) == sorted;
  }

  /** With at most n locations, each one is kept. */
  lemma KeptWhenFew(f: Frame, n: nat, l: Location)
    requires WellFormed(f) && "confirmed" in f.cols && |Dedup(Locs(f.rows))| <= n && l in Locs(f.rows)
    ensures l in TopLocations(f, n)
  {
    var c := "confirmed";
    var all := Rankings(f, c);
    var top := TopEntries(f, n);
    TopByAll(all, Best, n);
    var e := Ranked(l, GroupMax(f.rows, l, c));
    assert e in all by {
      RankingsSpec(f, c);
    }
    assert e in multiset(top);
    var k :| 0 <= k < |top| && top[k] == e;
    assert TopLocations(f, n)[k] == l;
  }


  // ---------------------------------------------------------------------
  // Latest rows ranked by deaths per 100k (lines 179-182)
  // ---------------------------------------------------------------------

  /** pandas date order for `max`: NaT ranks below every date. */
  function DateMax(a: Option<Date>, b: Option<Date>): Option<Date>
  {
    if a.None? then b else if b.None? then a else if a.value >= b.value then a else b
  }

  /** `groupby('location')['date'].max()` for one location: its latest known date, NaT when it has none. */
  function LatestDate(rows: seq<Row>, loc: Location): (r: Option<Date>)
    ensures r.None? <==> forall i :: 0 <= i < |rows| && rows[i].loc == loc ==> rows[i].date.None?
    ensures r.Some? ==> exists i :: 0 <= i < |rows| && rows[i].loc == loc && rows[i].date == r
    ensures forall i :: 0 <= i < |rows| && rows[i].loc == loc && rows[i].date.Some? ==>
      r.Some? && rows[i].date.value <= r.value
  {
    if rows == [] then None
    else
      var front := rows[..|rows| - 1];
      var last := rows[|rows| - 1];
      assert forall i :: 0 <= i < |front| ==> front[i] == rows[i];
      if last.loc != loc then LatestDate(front, loc) else DateMax(LatestDate(front, loc), last.date)
  }

  /** The rows of `s` that satisfy p, in order. */
  function Filter(s: seq<Row>, p: Row -> bool): (r: seq<Row>)
    ensures forall x :: x in r <==> x in s && p(x)
    ensures multiset(r) <= multiset(s)
  {
    if s == [] then []
    else
      var front := s[..|s| - 1];
      var last := s[|s| - 1];
      assert s == front + [last];
      Filter(front, p) + if p(last) then [last] else []
  }

  /**
   * The inner merge with the latest dates: the rows dated at their
   * location's latest date. pandas matches NaT with NaT, so a location with
   * no known date keeps all its rows.
   */
  function LatestRows(rows: seq<Row>): seq<Row>
  {
    Filter(rows, (x: Row) => x.date == LatestDate(rows, x.loc))
  }

  /** `merged_latest['population'] > 1e6`: false for a missing (NaN) population. */
  predicate Populous(x: Row)
  {
    Population in x.cells && x.cells[Population].Some? && x.cells[Population].value > PopulationFloor
  }

  const DeathRate: Name := "deaths_per100k"

  function DeathRateOf(x: Row): Cell
  {
    if DeathRate in x.cells then x.cells[DeathRate] else None
  }

  /**
   * The rows ranked for the deaths-versus-vaccination chart: latest rows of
   * populous locations. The frame must have the `population` and
   * `deaths_per100k` columns; pandas raises KeyError without them.
   */
  function Candidates(f: Frame): (r: seq<Row>)
    requires WellFormed(f) && Population in f.cols && DeathRate in f.cols
    ensures forall x :: x in r <==> x in f.rows && x.date == LatestDate(f.rows, x.loc) && Populous(x)
  {
    Filter(LatestRows(f.rows), Populous)
  }

  /** `.sort_values('deaths_per100k', ascending=False).head(20)` on the candidates. */
  function DeathsChartRows(f: Frame): seq<Row>
    requires WellFormed(f) && Population in f.cols && DeathRate in f.cols
  {
    TopBy(Candidates(f), DeathRateOf, DeathsChartCount)
  }

  /**
   * The deaths chart shows at most 20 candidate rows, in descending order of
   * deaths per 100k; no candidate left out has a higher rate than a row shown.
   */
  lemma DeathsChartRowsSpec(f: Frame)
    requires WellFormed(f) && Population in f.cols && DeathRate in f.cols
    ensures |DeathsChartRows(f)| <= DeathsChartCount
    ensures forall x :: x in DeathsChartRows(f) ==> x in Candidates(f)
    ensures forall i, j :: 0 <= i < j < |DeathsChartRows(f)| ==>
      Before(DeathRateOf(DeathsChartRows(f)[i]), DeathRateOf(DeathsChartRows(f)[j]))
    ensures forall x, y :: x in multiset(Candidates(f)) - multiset(DeathsChartRows(f)) && y in DeathsChartRows(f) ==>
      Before(DeathRateOf(y), DeathRateOf(x))
  {
    var r := DeathsChartRows(f);
    TopBySpec(Candidates(f), DeathRateOf, DeathsChartCount);
    TopByMaximal(Candidates(f), DeathRateOf, DeathsChartCount);
    forall x | x in r
      ensures x in Candidates(f)
    {
      assert x in multiset(r);
    }
  }
}
