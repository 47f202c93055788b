/**
 * The key alignment of `load_and_merge_data`: the outer merges of the three
 * melted Johns Hopkins tables on (Country/Region, date), the date parsing and
 * renaming that turn the result into a frame, and the left merge with the
 * daily panel on (location, date).
 */
module Joins {
  import opened Wrappers
  import opened SeqUtil
  import opened Frames
  import opened Reshape

  // ---------------------------------------------------------------------
  // Outer merges of the metric tables (lines 103-104)
  // ---------------------------------------------------------------------

  /** A row of the merged metric table before its dates are parsed: key and one cell per metric merged so far. */
  datatype KeyedRow = KeyedRow(loc: Location, header: string, cells: seq<Cell>)

  function Key(r: KeyedRow): (Location, string)
  {
    (r.loc, r.header)
  }

  ghost predicate HasKeyIn(rows: seq<KeyedRow>, k: (Location, string))
  {
    exists i :: 0 <= i < |rows| && Key(rows[i]) == k
  }

  ghost predicate KeysUnique(rows: seq<KeyedRow>)
  {
    forall i, j :: 0 <= i < j < |rows| ==> Key(rows[i]) != Key(rows[j])
  }

  ghost predicate Widths(rows: seq<KeyedRow>, w: nat)
  {
    forall i :: 0 <= i < |rows| ==> |rows[i].cells| == w
  }

  /** A melted metric table as a one-cell keyed table. */
  function Lift(m: seq<MetricRow>): (r: seq<KeyedRow>)
    ensures |r| == |m| && Widths(r, 1)
    ensures forall i :: 0 <= i < |m| ==> Key(r[i]) == (m[i].loc, m[i].header) && r[i].cells == [Some(m[i].value)]
  {
    seq(|m|, i requires 0 <= i < |m| => KeyedRow(m[i].loc, m[i].header, [Some(m[i].value)]))
  }

  /** n missing cells: the columns of the side of an outer merge that lacks the key. */
  function Nones(n: nat): (r: seq<Cell>)
    ensures |r| == n && forall i :: 0 <= i < n ==> r[i].None?
  {
    seq(n, _ => None)
  }

  /** The rows of `rows` keyed k, in order. */
  function Matches(rows: seq<KeyedRow>, k: (Location, string)): seq<KeyedRow>
  {
    if rows == [] then []
    else
      var last := rows[|rows| - 1];
      Matches(rows[..|rows| - 1], k) + if Key(last) == k then [last] else []
  }

  /** The cells one side of a merge contributes for key k: those of its matching row, or w missing cells. */
  function CellsAt(rows: seq<KeyedRow>, k: (Location, string), w: nat): seq<Cell>
  {
    var ms := Matches(rows, k);
    if ms == [] then Nones(w) else ms[0].cells
  }

  /** The merged rows for one left row: one per matching right row, or one padded with missing cells. */
  function JoinLeftRow(l: KeyedRow, ms: seq<KeyedRow>, wr: nat): seq<KeyedRow>
  {
    if ms == [] then [KeyedRow(l.loc, l.header, l.cells + Nones(wr))]
    else seq(|ms|, i requires 0 <= i < |ms| => KeyedRow(l.loc, l.header, l.cells + ms[i].cells))
  }

  /** The part of an outer merge that starts from the left rows. */
  function LeftPart(left: seq<KeyedRow>, right: seq<KeyedRow>, wr: nat): seq<KeyedRow>
  {
    if left == [] then []
    else
      var l := left[|left| - 1];
      LeftPart(left[..|left| - 1], right, wr) + JoinLeftRow(l, Matches(right, Key(l)), wr)
  }

  /** The right rows whose key the left table lacks, padded on the left with missing cells. */
  function RightOnly(left: seq<KeyedRow>, right: seq<KeyedRow>, wl: nat): seq<KeyedRow>
  {
    if right == [] then []
    else
      var r := right[|right| - 1];
      RightOnly(left, right[..|right| - 1], wl) +
        if Matches(left, Key(r)) == [] then [KeyedRow(r.loc, r.header, Nones(wl) + r.cells)] else []
  }

  /**
   * `left.merge(right, on=['Country/Region', 'date'], how='outer')` where the
   * left rows carry wl metric cells and the right rows wr. Row order is left
   * unspecified here: pandas sorts the keys.
   */
  function OuterJoin(left: seq<KeyedRow>, right: seq<KeyedRow>, wl: nat, wr: nat): seq<KeyedRow>
  {
    LeftPart(left, right, wr) + RightOnly(left, right, wl)
  }

  lemma {:induction false} MatchesSpec(rows: seq<KeyedRow>, k: (Location, string))
    ensures forall x :: x in Matches(rows, k) ==> Key(x) == k
    ensures Matches(rows, k) == [] <==> !HasKeyIn(rows, k)
    ensures KeysUnique(rows) ==> forall i :: 0 <= i < |rows| && Key(rows[i]) == k ==> Matches(rows, k) == [rows[i]]
  {
    if rows != [] {
      var front := rows[..|rows| - 1];
      var last := rows[|rows| - 1];
      MatchesSpec(front, k);
      assert forall i :: 0 <= i < |front| ==> front[i] == rows[i];
      if HasKeyIn(rows, k) && Key(last) != k {
        var i :| 0 <= i < |rows| && Key(rows[i]) == k;
        assert Key(front[i]) == k;
      }
      if KeysUnique(rows) {
        assert KeysUnique(front);
        if Key(last) == k {
          assert !HasKeyIn(front, k);
        }
      }
    }
  }

  /** Against right keys that are unique, a left row gets one merged row. */
  lemma JoinLeftRowUnique(l: KeyedRow, right: seq<KeyedRow>, wr: nat)
    requires KeysUnique(right) && Widths(right, wr)
    ensures JoinLeftRow(l, Matches(right, Key(l)), wr) == [KeyedRow(l.loc, l.header, l.cells + CellsAt(right, Key(l), wr))]
  {
    var ms := Matches(right, Key(l));
    if ms != [] {
      assert ms == [ms[0]] by {
        MatchesSpec(right, Key(l));
        assert ms[0] in ms;
        var j :| 0 <= j < |right| && Key(right[j]) == Key(l);
        assert ms == [right[j]];
      }
    }
  }

  /** Against right keys that are unique, the left part has one row per left row, extended by the right cells for its key. */
  lemma {:induction false} LeftPartSpec(left: seq<KeyedRow>, right: seq<KeyedRow>, wr: nat)
    requires KeysUnique(right) && Widths(right, wr)
    ensures |LeftPart(left, right, wr)| == |left|
    ensures forall i :: 0 <= i < |left| ==>
      LeftPart(left, right, wr)[i] == KeyedRow(left[i].loc, left[i].header, left[i].cells + CellsAt(right, Key(left[i]), wr))
  {
    if left != [] {
      var front := left[..|left| - 1];
      var l := left[|left| - 1];
      LeftPartSpec(front, right, wr);
      var tail := [KeyedRow(l.loc, l.header, l.cells + CellsAt(right, Key(l), wr))];
      JoinLeftRowUnique(l, right, wr);
      var lp := LeftPart(left, right, wr);
      var lpf := LeftPart(front, right, wr);
      assert lp == lpf + tail;
      forall i | 0 <= i < |left|
        ensures lp[i] == KeyedRow(left[i].loc, left[i].header, left[i].cells + CellsAt(right, Key(left[i]), wr))
      {
        if i < |front| {
          assert lp[i] == lpf[i] && left[i] == front[i];
        }
      }
    }
  }

  lemma HasKeyInConcat(a: seq<KeyedRow>, b: seq<KeyedRow>, k: (Location, string))
    ensures HasKeyIn(a + b, k) <==> HasKeyIn(a, k) || HasKeyIn(b, k)
  {
    if HasKeyIn(a + b, k) {
      var i :| 0 <= i < |a + b| && Key((a + b)[i]) == k;
      if i >= |a| {
        assert Key(b[i - |a|]) == k;
      } else {
        assert Key(a[i]) == k;
      }
    }
    if HasKeyIn(a, k) {
      var i :| 0 <= i < |a| && Key(a[i]) == k;
      assert Key((a + b)[i]) == k;
    }
    if HasKeyIn(b, k) {
      var i :| 0 <= i < |b| && Key(b[i]) == k;
      assert Key((a + b)[|a| + i]) == k;
    }
  }

  /** The keys of the right-only rows are exactly the right keys the left lacks. */
  lemma {:induction false} RightOnlyKeys(left: seq<KeyedRow>, right: seq<KeyedRow>, wl: nat)
    ensures forall k :: HasKeyIn(RightOnly(left, right, wl), k) <==> HasKeyIn(right, k) && !HasKeyIn(left, k)
  {
    if right != [] {
      var front := right[..|right| - 1];
      var r := right[|right| - 1];
      RightOnlyKeys(left, front, wl);
      var ro := RightOnly(left, front, wl);
      var tail := if Matches(left, Key(r)) == [] then [KeyedRow(r.loc, r.header, Nones(wl) + r.cells)] else [];
      assert RightOnly(left, right, wl) == ro + tail;
      assert right == front + [r];
      MatchesSpec(left, Key(r));
      forall k
        ensures HasKeyIn(ro + tail, k) <==> HasKeyIn(right, k) && !HasKeyIn(left, k)
      {
        HasKeyInConcat(ro, tail, k);
        HasKeyInConcat(front, [r], k);
        HasKeyInSingle(r, k);
        if tail != [] {
          HasKeyInSingle(tail[0], k);
        }
      }
    }
  }

  lemma HasKeyInSingle(r: KeyedRow, k: (Location, string))
    ensures HasKeyIn([r], k) <==> Key(r) == k
  {
    if Key(r) == k {
      assert Key([r][0]) == k;
    }
  }

  /** Each right-only row is a right row padded on the left with missing cells. */
  lemma {:induction false} RightOnlyCells(left: seq<KeyedRow>, right: seq<KeyedRow>, wl: nat)
    ensures forall i :: 0 <= i < |RightOnly(left, right, wl)| ==>
      exists j :: 0 <= j < |right| && Key(right[j]) == Key(RightOnly(left, right, wl)[i]) &&
        RightOnly(left, right, wl)[i].cells == Nones(wl) + right[j].cells
  {
    if right != [] {
      var front := right[..|right| - 1];
      var r := right[|right| - 1];
      RightOnlyCells(left, front, wl);
      var ro := RightOnly(left, front, wl);
      var tail := if Matches(left, Key(r)) == [] then [KeyedRow(r.loc, r.header, Nones(wl) + r.cells)] else [];
      var all := RightOnly(left, right, wl);
      assert all == ro + tail;
      forall i | 0 <= i < |all|
        ensures exists j :: 0 <= j < |right| && Key(right[j]) == Key(all[i]) && all[i].cells == Nones(wl) + right[j].cells
      {
        if i < |ro| {
          assert all[i] == ro[i];
          var j :| 0 <= j < |front| && Key(front[j]) == Key(ro[i]) && ro[i].cells == Nones(wl) + front[j].cells;
          assert right[j] == front[j];
        } else {
          assert all[i] == tail[0];
          assert Key(right[|right| - 1]) == Key(all[i]) && all[i].cells == Nones(wl) + right[|right| - 1].cells;
        }
      }
    } else {
      assert RightOnly(left, right, wl) == [];
    }
  }

  /** Against right keys that are unique, no key occurs twice among the right-only rows. */
  lemma {:induction false} RightOnlyUnique(left: seq<KeyedRow>, right: seq<KeyedRow>, wl: nat)
    requires KeysUnique(right)
    ensures KeysUnique(RightOnly(left, right, wl))
  {
    if right != [] {
      var front := right[..|right| - 1];
      var r := right[|right| - 1];
      assert forall i :: 0 <= i < |front| ==> front[i] == right[i];
      assert KeysUnique(front);
      RightOnlyUnique(left, front, wl);
      RightOnlyKeys(left, front, wl);
      var ro := RightOnly(left, front, wl);
      var all := RightOnly(left, right, wl);
      assert !HasKeyIn(front, Key(r));
      assert !HasKeyIn(ro, Key(r));
      forall i, j | 0 <= i < j < |all|
        ensures Key(all[i]) != Key(all[j])
      {
        if j >= |ro| {
          assert Key(all[j]) == Key(r);
          assert all[i] == ro[i];
        } else {
          assert all[i] == ro[i] && all[j] == ro[j];
        }
      }
    }
  }

  /** The right-only rows: unique keys, exactly the right keys the left lacks, each a right row padded on the left. */
  lemma RightOnlySpec(left: seq<KeyedRow>, right: seq<KeyedRow>, wl: nat)
    requires KeysUnique(right)
    ensures KeysUnique(RightOnly(left, right, wl))
    ensures forall k :: HasKeyIn(RightOnly(left, right, wl), k) <==> HasKeyIn(right, k) && !HasKeyIn(left, k)
    ensures forall i :: 0 <= i < |RightOnly(left, right, wl)| ==>
      exists j :: 0 <= j < |right| && Key(right[j]) == Key(RightOnly(left, right, wl)[i]) &&
        RightOnly(left, right, wl)[i].cells == Nones(wl) + right[j].cells
  {
    RightOnlyUnique(left, right, wl);
    RightOnlyKeys(left, right, wl);
    RightOnlyCells(left, right, wl);
  }

  /** The cells a unique-keyed table contributes for the key of one of its own rows are that row's cells. */
  lemma CellsAtOwnRow(rows: seq<KeyedRow>, i: nat, w: nat)
    requires KeysUnique(rows) && i < |rows|
    ensures CellsAt(rows, Key(rows[i]), w) == rows[i].cells
  {
    MatchesSpec(rows, Key(rows[i]));
  }

  /** A row of the left part carries the left cells for its key, then the right cells. */
  lemma LeftPartRowCells(left: seq<KeyedRow>, right: seq<KeyedRow>, wl: nat, wr: nat, i: nat)
    requires KeysUnique(left) && KeysUnique(right) && Widths(right, wr)
    requires i < |left|
    ensures |LeftPart(left, right, wr)| == |left|
    ensures Key(LeftPart(left, right, wr)[i]) == Key(left[i])
    ensures LeftPart(left, right, wr)[i].cells ==
      CellsAt(left, Key(left[i]), wl) + CellsAt(right, Key(left[i]), wr)
  {
    LeftPartSpec(left, right, wr);
    CellsAtOwnRow(left, i, wl);
  }

  /** A right-only row carries missing left cells for its key, then the right cells. */
  lemma RightOnlyRowCells(left: seq<KeyedRow>, right: seq<KeyedRow>, wl: nat, wr: nat, i: nat)
    requires KeysUnique(right)
    requires i < |RightOnly(left, right, wl)|
    ensures var x := RightOnly(left, right, wl)[i];
      x.cells == CellsAt(left, Key(x), wl) + CellsAt(right, Key(x), wr)
  {
    var ro := RightOnly(left, right, wl);
    assert exists j :: 0 <= j < |right| && Key(right[j]) == Key(ro[i]) && ro[i].cells == Nones(wl) + right[j].cells by {
      RightOnlyCells(left, right, wl);
    }
    var j :| 0 <= j < |right| && Key(right[j]) == Key(ro[i]) && ro[i].cells == Nones(wl) + right[j].cells;
    CellsAtOwnRow(right, j, wr);
    assert HasKeyIn(ro, Key(ro[i]));
    assert !HasKeyIn(left, Key(ro[i])) by {
      RightOnlyKeys(left, right, wl);
    }
    MatchesSpec(left, Key(ro[i]));
  }

  /** A row of the outer merge carries the left cells for its key, then the right cells. */
  lemma OuterJoinRowCells(left: seq<KeyedRow>, right: seq<KeyedRow>, wl: nat, wr: nat, i: nat)
    requires KeysUnique(left) && KeysUnique(right) && Widths(right, wr)
    requires i < |OuterJoin(left, right, wl, wr)|
    ensures var x := OuterJoin(left, right, wl, wr)[i];
      x.cells == CellsAt(left, Key(x), wl) + CellsAt(right, Key(x), wr)
  {
    var lp := LeftPart(left, right, wr);
    var ro := RightOnly(left, right, wl);
    var all := lp + ro;
    LeftPartSpec(left, right, wr);
    if i >= |lp| {
      assert all[i] == ro[i - |lp|];
      RightOnlyRowCells(left, right, wl, wr, i - |lp|);
    } else {
      assert all[i] == lp[i];
      LeftPartRowCells(left, right, wl, wr, i);
    }
  }

  /** The left part has the keys of the left table. */
  lemma LeftPartKeyAt(left: seq<KeyedRow>, right: seq<KeyedRow>, wr: nat, k: (Location, string))
    requires KeysUnique(right) && Widths(right, wr)
    ensures HasKeyIn(LeftPart(left, right, wr), k) <==> HasKeyIn(left, k)
  {
    var lp := LeftPart(left, right, wr);
    LeftPartSpec(left, right, wr);
    if HasKeyIn(left, k) {
      var i :| 0 <= i < |left| && Key(left[i]) == k;
      assert Key(lp[i]) == k;
    }
    if HasKeyIn(lp, k) {
      var i :| 0 <= i < |lp| && Key(lp[i]) == k;
      assert Key(left[i]) == k;
    }
  }

  lemma OuterJoinKeyAt(left: seq<KeyedRow>, right: seq<KeyedRow>, wl: nat, wr: nat, k: (Location, string))
    requires KeysUnique(right) && Widths(right, wr)
    ensures HasKeyIn(OuterJoin(left, right, wl, wr), k) <==> HasKeyIn(left, k) || HasKeyIn(right, k)
  {
    HasKeyInConcat(LeftPart(left, right, wr), RightOnly(left, right, wl), k);
    LeftPartKeyAt(left, right, wr, k);
    RightOnlyKeys(left, right, wl);
  }

  /** The keys of the outer merge are those of either table. */
  lemma OuterJoinKeys(left: seq<KeyedRow>, right: seq<KeyedRow>, wl: nat, wr: nat)
    requires KeysUnique(right) && Widths(right, wr)
    ensures forall k :: HasKeyIn(OuterJoin(left, right, wl, wr), k) <==> HasKeyIn(left, k) || HasKeyIn(right, k)
  {
    forall k
      ensures HasKeyIn(OuterJoin(left, right, wl, wr), k) <==> HasKeyIn(left, k) || HasKeyIn(right, k)
    {
      OuterJoinKeyAt(left, right, wl, wr, k);
    }
  }

  /** No key occurs twice in the outer merge of two tables whose keys are unique. */
  lemma OuterJoinUnique(left: seq<KeyedRow>, right: seq<KeyedRow>, wl: nat, wr: nat)
    requires KeysUnique(left) && KeysUnique(right) && Widths(right, wr)
    ensures KeysUnique(OuterJoin(left, right, wl, wr))
  {
    var lp := LeftPart(left, right, wr);
    var ro := RightOnly(left, right, wl);
    var all := lp + ro;
    LeftPartSpec(left, right, wr);
    RightOnlyUnique(left, right, wl);
    RightOnlyKeys(left, right, wl);
    forall i, j | 0 <= i < j < |all|
      ensures Key(all[i]) != Key(all[j])
    {
      if j < |lp| {
        assert all[i] == lp[i] && all[j] == lp[j];
      } else if i >= |lp| {
        assert all[i] == ro[i - |lp|] && all[j] == ro[j - |lp|];
      } else {
        assert all[i] == lp[i] && all[j] == ro[j - |lp|];
        assert HasKeyIn(ro, Key(all[j]));
        assert HasKeyIn(left, Key(left[i]));
      }
    }
  }

  /** Each row of the outer merge carries the left cells for its key, then the right cells. */
  lemma OuterJoinCells(left: seq<KeyedRow>, right: seq<KeyedRow>, wl: nat, wr: nat)
    requires KeysUnique(left) && KeysUnique(right) && Widths(right, wr)
    ensures forall i :: 0 <= i < |OuterJoin(left, right, wl, wr)| ==>
      var x := OuterJoin(left, right, wl, wr)[i];
      x.cells == CellsAt(left, Key(x), wl) + CellsAt(right, Key(x), wr)
  {
    forall i | 0 <= i < |OuterJoin(left, right, wl, wr)|
      ensures var x := OuterJoin(left, right, wl, wr)[i];
        x.cells == CellsAt(left, Key(x), wl) + CellsAt(right, Key(x), wr)
    {
      OuterJoinRowCells(left, right, wl, wr, i);
    }
  }

  /**
   * The outer merge of two tables with unique keys: the keys are unique and
   * are the union of both key sets, and each row's cells are the left row's
   * cells for its key followed by the right row's, missing where a side lacks
   * the key.
   */
  lemma OuterJoinSpec(left: seq<KeyedRow>, right: seq<KeyedRow>, wl: nat, wr: nat)
    requires KeysUnique(left) && KeysUnique(right) && Widths(left, wl) && Widths(right, wr)
    ensures KeysUnique(OuterJoin(left, right, wl, wr))
    ensures forall k :: HasKeyIn(OuterJoin(left, right, wl, wr), k) <==> HasKeyIn(left, k) || HasKeyIn(right, k)
    ensures forall i :: 0 <= i < |OuterJoin(left, right, wl, wr)| ==>
      var x := OuterJoin(left, right, wl, wr)[i];
      x.cells == CellsAt(left, Key(x), wl) + CellsAt(right, Key(x), wr)
  {
    OuterJoinCells(left, right, wl, wr);
    OuterJoinKeys(left, right, wl, wr);
    OuterJoinUnique(left, right, wl, wr);
  }

  // ---------------------------------------------------------------------
  // The three metrics together, dates parsed (lines 98-106)
  // ---------------------------------------------------------------------

  /** The value of the melted metric row keyed k, or None. */
  function ValueAt(m: seq<MetricRow>, k: (Location, string)): Cell
  {
    if m == [] then None
    else if (m[0].loc, m[0].header) == k then Some(m[0].value)
    else ValueAt(m[1..], k)
  }

  lemma {:induction false} ValueAtSpec(m: seq<MetricRow>, k: (Location, string))
    ensures ValueAt(m, k).None? <==> !HasKey(m, k.0, k.1)
    ensures MetricKeysUnique(m) ==>
      forall i :: 0 <= i < |m| && (m[i].loc, m[i].header) == k ==> ValueAt(m, k) == Some(m[i].value)
  {
    if m != [] {
      ValueAtSpec(m[1..], k);
      assert forall i :: 1 <= i < |m| ==> m[1..][i - 1] == m[i];
      if HasKey(m, k.0, k.1) && (m[0].loc, m[0].header) != k {
        var i :| 0 <= i < |m| && m[i].loc == k.0 && m[i].header == k.1;
        assert HasKey(m[1..], k.0, k.1) by {
          assert m[1..][i - 1] == m[i];
        }
      }
    }
  }

  /** Lifting a melted table keeps its keys, and the cell it contributes to a merge is its value for the key. */
  lemma LiftSpec(m: seq<MetricRow>)
    requires MetricKeysUnique(m)
    ensures KeysUnique(Lift(m))
    ensures forall k :: HasKeyIn(Lift(m), k) <==> HasKey(m, k.0, k.1)
    ensures forall k :: CellsAt(Lift(m), k, 1) == [ValueAt(m, k)]
  {
    var lm := Lift(m);
    forall k
      ensures HasKeyIn(lm, k) <==> HasKey(m, k.0, k.1)
    {
      if HasKey(m, k.0, k.1) {
        var i :| 0 <= i < |m| && m[i].loc == k.0 && m[i].header == k.1;
        assert Key(lm[i]) == k;
      }
    }
    forall k
      ensures CellsAt(lm, k, 1) == [ValueAt(m, k)]
    {
      ValueAtSpec(m, k);
      MatchesSpec(lm, k);
      if HasKeyIn(lm, k) {
        var i :| 0 <= i < |lm| && Key(lm[i]) == k;
        CellsAtOwnRow(lm, i, 1);
      }
    }
  }

  /** `df_conf_long.merge(df_deaths_long, ...).merge(df_recov_long, ...)`: cells are confirmed, deaths, recovered. */
  function MergeMetrics(conf: seq<MetricRow>, deaths: seq<MetricRow>, recov: seq<MetricRow>): seq<KeyedRow>
  {
    OuterJoin(OuterJoin(Lift(conf), Lift(deaths), 1, 1), Lift(recov), 2, 1)
  }

  /** The cells of a one-column lifted table for a key are its value for the key. */
  lemma LiftCellsAt(m: seq<MetricRow>, k: (Location, string))
    requires MetricKeysUnique(m)
    ensures KeysUnique(Lift(m))
    ensures CellsAt(Lift(m), k, 1) == [ValueAt(m, k)]
  {
    LiftSpec(m);
  }

  /** For any key, the first merge contributes the confirmed and the deaths value. */
  lemma FirstMergeCellsAt(conf: seq<MetricRow>, deaths: seq<MetricRow>, k: (Location, string))
    requires MetricKeysUnique(conf) && MetricKeysUnique(deaths)
    ensures CellsAt(OuterJoin(Lift(conf), Lift(deaths), 1, 1), k, 2) == [ValueAt(conf, k), ValueAt(deaths, k)]
  {
    var lc := Lift(conf);
    var ld := Lift(deaths);
    var first := OuterJoin(lc, ld, 1, 1);
    LiftCellsAt(conf, k);
    LiftCellsAt(deaths, k);
    MatchesSpec(first, k);
    if HasKeyIn(first, k) {
      FirstMergeHit(lc, ld, k);
    } else {
      FirstMergeMiss(lc, ld, k);
    }
  }

  lemma FirstMergeHit(lc: seq<KeyedRow>, ld: seq<KeyedRow>, k: (Location, string))
    requires KeysUnique(lc) && KeysUnique(ld) && Widths(ld, 1)
    requires HasKeyIn(OuterJoin(lc, ld, 1, 1), k)
    ensures CellsAt(OuterJoin(lc, ld, 1, 1), k, 2) == CellsAt(lc, k, 1) + CellsAt(ld, k, 1)
  {
    var first := OuterJoin(lc, ld, 1, 1);
    var j :| 0 <= j < |first| && Key(first[j]) == k;
    assert KeysUnique(first) by {
      OuterJoinUnique(lc, ld, 1, 1);
    }
    CellsAtOwnRow(first, j, 2);
    OuterJoinRowCells(lc, ld, 1, 1, j);
  }

  lemma FirstMergeMiss(lc: seq<KeyedRow>, ld: seq<KeyedRow>, k: (Location, string))
    requires KeysUnique(ld) && Widths(ld, 1)
    requires !HasKeyIn(OuterJoin(lc, ld, 1, 1), k)
    ensures CellsAt(OuterJoin(lc, ld, 1, 1), k, 2) == [None, None]
    ensures CellsAt(lc, k, 1) == [None] && CellsAt(ld, k, 1) == [None]
  {
    assert !HasKeyIn(lc, k) && !HasKeyIn(ld, k) by {
      OuterJoinKeyAt(lc, ld, 1, 1, k);
    }
    MatchesSpec(OuterJoin(lc, ld, 1, 1), k);
    MatchesSpec(lc, k);
    MatchesSpec(ld, k);
    SmallNones();
  }

  lemma SmallNones()
    ensures Nones(1) == [None] && Nones(2) == [None, None]
  {
  }

  /** The first merge, of confirmed with deaths: unique keys, and for any key its two values. */
  lemma FirstMergeSpec(conf: seq<MetricRow>, deaths: seq<MetricRow>)
    requires MetricKeysUnique(conf) && MetricKeysUnique(deaths)
    ensures KeysUnique(OuterJoin(Lift(conf), Lift(deaths), 1, 1))
    ensures Widths(OuterJoin(Lift(conf), Lift(deaths), 1, 1), 2)
    ensures forall k :: HasKeyIn(OuterJoin(Lift(conf), Lift(deaths), 1, 1), k) <==> HasKey(conf, k.0, k.1) || HasKey(deaths, k.0, k.1)
    ensures forall k :: CellsAt(OuterJoin(Lift(conf), Lift(deaths), 1, 1), k, 2) == [ValueAt(conf, k), ValueAt(deaths, k)]
  {
    var first := OuterJoin(Lift(conf), Lift(deaths), 1, 1);
    LiftSpec(conf);
    LiftSpec(deaths);
    OuterJoinUnique(Lift(conf), Lift(deaths), 1, 1);
    OuterJoinKeys(Lift(conf), Lift(deaths), 1, 1);
    forall k
      ensures CellsAt(first, k, 2) == [ValueAt(conf, k), ValueAt(deaths, k)]
    {
      FirstMergeCellsAt(conf, deaths, k);
    }
    forall i | 0 <= i < |first|
      ensures |first[i].cells| == 2
    {
      CellsAtOwnRow(first, i, 2);
      FirstMergeCellsAt(conf, deaths, Key(first[i]));
    }
  }

  /**
   * Outer-merging the confirmed, deaths and recovered tables gives unique
   * keys, whose set is the union of the three key sets, and each metric cell
   * is that table's value for the key, missing exactly where the table lacks
   * the key.
   */
  lemma MergeMetricsSpec(conf: seq<MetricRow>, deaths: seq<MetricRow>, recov: seq<MetricRow>)
    requires MetricKeysUnique(conf) && MetricKeysUnique(deaths) && MetricKeysUnique(recov)
    ensures KeysUnique(MergeMetrics(conf, deaths, recov))
    ensures forall k :: HasKeyIn(MergeMetrics(conf, deaths, recov), k) <==>
      HasKey(conf, k.0, k.1) || HasKey(deaths, k.0, k.1) || HasKey(recov, k.0, k.1)
    ensures forall i :: 0 <= i < |MergeMetrics(conf, deaths, recov)| ==>
      var x := MergeMetrics(conf, deaths, recov)[i];
      x.cells == [ValueAt(conf, Key(x)), ValueAt(deaths, Key(x)), ValueAt(recov, Key(x))]
  {
    FirstMergeSpec(conf, deaths);
    LiftSpec(recov);
    var first := OuterJoin(Lift(conf), Lift(deaths), 1, 1);
    OuterJoinSpec(first, Lift(recov), 2, 1);
  }

  /** The metric columns of the Johns Hopkins frame, in merge order. */
  const MetricNames: seq<Name> := ["confirmed", "deaths", "recovered"]

  /**
   * `pd.to_datetime(df_jhu['date'], errors='coerce')` and the renaming of
   * Country/Region to location: `parse` stands for the date parser, None for
   * a label it cannot read.
   */
  function ToFrame(rows: seq<KeyedRow>, parse: string -> Option<Date>): (f: Frame)
    requires Widths(rows, 3)
    ensures WellFormed(f) && f.cols == MetricNames && |f.rows| == |rows|
    ensures forall i :: 0 <= i < |rows| ==>
      && f.rows[i].loc == rows[i].loc && f.rows[i].date == parse(rows[i].header)
      && f.rows[i].cells == map["confirmed" := rows[i].cells[0], "deaths" := rows[i].cells[1], "recovered" := rows[i].cells[2]]
  {
    assert ColSet(MetricNames) == {"confirmed", "deaths", "recovered"};
    Frame(MetricNames, seq(|rows|, i requires 0 <= i < |rows| =>
      Row(rows[i].loc, parse(rows[i].header),
          map["confirmed" := rows[i].cells[0], "deaths" := rows[i].cells[1], "recovered" := rows[i].cells[2]])))
  }

  /** Lines 84-106: the three wide tables melted, outer-merged and turned into a frame keyed by (location, date). */
  function JhuFrame(conf: WideTable, deaths: WideTable, recov: WideTable, parse: string -> Option<Date>): (f: Frame)
    requires WideValid(conf) && WideValid(deaths) && WideValid(recov)
    ensures WellFormed(f) && f.cols == MetricNames
    ensures |f.rows| == |MergeMetrics(MeltJhu(conf), MeltJhu(deaths), MeltJhu(recov))|
  {
    MeltJhuSpec(conf);
    MeltJhuSpec(deaths);
    MeltJhuSpec(recov);
    var merged := MergeMetrics(MeltJhu(conf), MeltJhu(deaths), MeltJhu(recov));
    MergeMetricsSpec(MeltJhu(conf), MeltJhu(deaths), MeltJhu(recov));
    ToFrame(merged, parse)
  }

  /** Date parsing keeps (location, date) keys unique when it reads no two merged labels as one date. */
  lemma ParseKeepsKeysUnique(rows: seq<KeyedRow>, parse: string -> Option<Date>)
    requires Widths(rows, 3) && KeysUnique(rows)
    requires forall i, j :: 0 <= i < |rows| && 0 <= j < |rows| && rows[i].header != rows[j].header ==>
      parse(rows[i].header) != parse(rows[j].header)
    ensures RowKeysUnique(ToFrame(rows, parse).rows)
  {
    var f := ToFrame(rows, parse);
    forall i, j | 0 <= i < j < |f.rows|
      ensures (f.rows[i].loc, f.rows[i].date) != (f.rows[j].loc, f.rows[j].date)
    {
      assert Key(rows[i]) != Key(rows[j]);
    }
  }

  // ---------------------------------------------------------------------
  // Left merge with the daily panel (lines 112-119)
  // ---------------------------------------------------------------------

  /** The merged name of panel column c: suffixed `_owid` when the left frame has a column of that name. */
  function PanelName(lcols: seq<Name>, c: Name): Name
  {
    if c in lcols then c + "_owid" else c
  }

  function PanelNames(lcols: seq<Name>, rcols: seq<Name>): (r: seq<Name>)
    ensures |r| == |rcols|
  {
    seq(|rcols|, i requires 0 <= i < |rcols| => PanelName(lcols, rcols[i]))
  }

  /** The columns of the merged frame: the left ones, then the panel's under their merged names. */
  function JoinedCols(left: Frame, right: Frame): seq<Name>
  {
    left.cols + PanelNames(left.cols, right.cols)
  }

  /** The panel part of a merged row, under the merged names: the cells of panel row p, or all missing. */
  function PanelCells(lcols: seq<Name>, rcols: seq<Name>, p: Option<Row>): (m: map<Name, Cell>)
    requires Distinct(PanelNames(lcols, rcols))
    ensures m.Keys == ColSet(PanelNames(lcols, rcols))
    ensures forall j :: 0 <= j < |rcols| ==>
      && PanelName(lcols, rcols[j]) in m
      && m[PanelName(lcols, rcols[j])] == if p.Some? && rcols[j] in p.value.cells then p.value.cells[rcols[j]] else None
  {
    var names := PanelNames(lcols, rcols);
    var m := map j | 0 <= j < |rcols| :: names[j] := if p.Some? && rcols[j] in p.value.cells then p.value.cells[rcols[j]] else None;
    assert forall j :: 0 <= j < |rcols| ==> names[j] in m;
    m
  }

  /** A left row extended with panel row p (or with missing panel cells when p is None). */
  function JoinRow(left: Frame, right: Frame, l: Row, p: Option<Row>): Row
    requires Distinct(JoinedCols(left, right))
  {
    DistinctConcat(left.cols, PanelNames(left.cols, right.cols));
    Row(l.loc, l.date, l.cells + PanelCells(left.cols, right.cols, p))
  }

  /** The panel rows with key (loc, date), in order; pandas matches NaT with NaT. */
  function PanelMatches(rows: seq<Row>, loc: Location, date: Option<Date>): seq<Row>
  {
    if rows == [] then []
    else
      var last := rows[|rows| - 1];
      PanelMatches(rows[..|rows| - 1], loc, date) + if last.loc == loc && last.date == date then [last] else []
  }

  /** The first panel row with key (loc, date). */
  function FindRow(rows: seq<Row>, loc: Location, date: Option<Date>): (r: Option<Row>)
    ensures r.None? <==> forall i :: 0 <= i < |rows| ==> (rows[i].loc, rows[i].date) != (loc, date)
    ensures r.Some? ==> r.value in rows && r.value.loc == loc && r.value.date == date
  {
    PanelMatchesSpec(rows, loc, date);
    var ms := PanelMatches(rows, loc, date);
    if ms == [] then None else assert ms[0] in ms; Some(ms[0])
  }

  /** The merged rows of one left row: one per matching panel row, or one with missing panel cells. */
  function JoinOne(left: Frame, right: Frame, l: Row): seq<Row>
    requires Distinct(JoinedCols(left, right))
  {
    var ms := PanelMatches(right.rows, l.loc, l.date);
    if ms == [] then [JoinRow(left, right, l, None)]
    else seq(|ms|, j requires 0 <= j < |ms| => JoinRow(left, right, l, Some(ms[j])))
  }

  /** The merged rows of each left row, one group per left row. */
  function JoinEach(left: Frame, right: Frame, ls: seq<Row>): seq<seq<Row>>
    requires Distinct(JoinedCols(left, right))
  {
    seq(|ls|, i requires 0 <= i < |ls| => JoinOne(left, right, ls[i]))
  }

  /** The merged rows in left order: the groups of the left rows one after another. */
  function LeftJoinRows(left: Frame, right: Frame, ls: seq<Row>): seq<Row>
    requires Distinct(JoinedCols(left, right))
  {
    Concat(JoinEach(left, right, ls))
  }

  /**
   * `pd.merge(df_jhu, df_owid, on=['location', 'date'], how='left',
   * suffixes=('', '_owid'))`, rows in left order. It fails when the suffix
   * would give two columns of the result one name.
   */
  function LeftJoin(left: Frame, right: Frame): (r: Result<Frame>)
    requires WellFormed(left) && WellFormed(right)
    ensures r.Err? <==> !Distinct(JoinedCols(left, right))
    ensures r.Ok? ==> WellFormed(r.value) && r.value.cols == JoinedCols(left, right)
  {
    var cols := JoinedCols(left, right);
    if Distinct(cols) then
      LeftJoinRowsWellFormed(left, right, left.rows);
      Ok(Frame(cols, LeftJoinRows(left, right, left.rows)))
    else Err(DuplicateColumns(cols))
  }

  lemma LeftJoinRowsWellFormed(left: Frame, right: Frame, ls: seq<Row>)
    requires WellFormed(left) && Distinct(JoinedCols(left, right))
    requires forall i :: 0 <= i < |ls| ==> ls[i].cells.Keys == ColSet(left.cols)
    ensures forall i :: 0 <= i < |LeftJoinRows(left, right, ls)| ==>
      LeftJoinRows(left, right, ls)[i].cells.Keys == ColSet(JoinedCols(left, right))
  {
    var out := LeftJoinRows(left, right, ls);
    var each := JoinEach(left, right, ls);
    ConcatMembers(each);
    forall k | 0 <= k < |out|
      ensures out[k].cells.Keys == ColSet(JoinedCols(left, right))
    {
      assert out[k] in out;
      var i :| 0 <= i < |each| && out[k] in each[i];
      JoinOneKeys(left, right, ls[i]);
    }
  }

  /** Every merged row of one left row has the merged columns. */
  lemma JoinOneKeys(left: Frame, right: Frame, l: Row)
    requires Distinct(JoinedCols(left, right)) && l.cells.Keys == ColSet(left.cols)
    ensures forall x :: x in JoinOne(left, right, l) ==> x.cells.Keys == ColSet(JoinedCols(left, right))
  {
    assert ColSet(JoinedCols(left, right)) == ColSet(left.cols) + ColSet(PanelNames(left.cols, right.cols));
  }

  /** Row o is row l with more columns: same key, and the same cell in every column of l. */
  ghost predicate Extends(o: Row, l: Row)
  {
    && o.loc == l.loc && o.date == l.date
    && forall c :: c in l.cells ==> c in o.cells && o.cells[c] == l.cells[c]
  }

  lemma JoinRowSpec(left: Frame, right: Frame, l: Row, p: Option<Row>)
    requires Distinct(JoinedCols(left, right)) && l.cells.Keys == ColSet(left.cols)
    ensures Extends(JoinRow(left, right, l, p), l)
    ensures forall j :: 0 <= j < |right.cols| ==>
      JoinRow(left, right, l, p).cells[PanelName(left.cols, right.cols[j])] ==
        if p.Some? && right.cols[j] in p.value.cells then p.value.cells[right.cols[j]] else None
  {
    DistinctConcat(left.cols, PanelNames(left.cols, right.cols));
    var names := PanelNames(left.cols, right.cols);
    forall c | c in l.cells
      ensures c !in ColSet(names)
    {
      var i :| 0 <= i < |left.cols| && left.cols[i] == c;
      assert forall j :: 0 <= j < |names| ==> names[j] != left.cols[i];
    }
  }

  lemma {:induction false} PanelMatchesMembers(rows: seq<Row>, loc: Location, date: Option<Date>)
    ensures forall x :: x in PanelMatches(rows, loc, date) ==> x in rows && x.loc == loc && x.date == date
  {
    if rows != [] {
      var front := rows[..|rows| - 1];
      PanelMatchesMembers(front, loc, date);
      assert forall x :: x in front ==> x in rows;
    }
  }

  lemma {:induction false} PanelMatchesEmpty(rows: seq<Row>, loc: Location, date: Option<Date>)
    ensures PanelMatches(rows, loc, date) == [] <==> forall i :: 0 <= i < |rows| ==> (rows[i].loc, rows[i].date) != (loc, date)
  {
    if rows != [] {
      var front := rows[..|rows| - 1];
      PanelMatchesEmpty(front, loc, date);
      assert forall i :: 0 <= i < |front| ==> front[i] == rows[i];
    }
  }

  lemma {:induction false} PanelMatchesUnique(rows: seq<Row>, loc: Location, date: Option<Date>, i: nat)
    requires RowKeysUnique(rows) && i < |rows| && rows[i].loc == loc && rows[i].date == date
    ensures PanelMatches(rows, loc, date) == [rows[i]]
  {
    var front := rows[..|rows| - 1];
    var last := rows[|rows| - 1];
    assert forall j :: 0 <= j < |front| ==> front[j] == rows[j];
    if i < |front| {
      assert RowKeysUnique(front);
      PanelMatchesUnique(front, loc, date, i);
      assert (last.loc, last.date) != (loc, date);
    } else {
      assert forall j :: 0 <= j < |front| ==> (front[j].loc, front[j].date) != (loc, date);
      PanelMatchesEmpty(front, loc, date);
    }
  }

  /**
   * The panel rows matching a key are panel rows with that key; there are
   * none exactly when no panel row has the key, and with unique panel keys
   * there is exactly the one that has it.
   */
  lemma PanelMatchesSpec(rows: seq<Row>, loc: Location, date: Option<Date>)
    ensures forall x :: x in PanelMatches(rows, loc, date) ==> x in rows && x.loc == loc && x.date == date
    ensures PanelMatches(rows, loc, date) == [] <==> forall i :: 0 <= i < |rows| ==> (rows[i].loc, rows[i].date) != (loc, date)
    ensures RowKeysUnique(rows) ==>
      forall i :: 0 <= i < |rows| && rows[i].loc == loc && rows[i].date == date ==> PanelMatches(rows, loc, date) == [rows[i]]
  {
    PanelMatchesMembers(rows, loc, date);
    PanelMatchesEmpty(rows, loc, date);
    if RowKeysUnique(rows) {
      forall i | 0 <= i < |rows| && rows[i].loc == loc && rows[i].date == date
        ensures PanelMatches(rows, loc, date) == [rows[i]]
      {
        PanelMatchesUnique(rows, loc, date, i);
      }
    }
  }

  /** Every merged row of one left row extends it, and there is at least one. */
  lemma JoinOneExtends(left: Frame, right: Frame, l: Row)
    requires Distinct(JoinedCols(left, right)) && l.cells.Keys == ColSet(left.cols)
    ensures |JoinOne(left, right, l)| >= 1
    ensures forall k :: 0 <= k < |JoinOne(left, right, l)| ==> Extends(JoinOne(left, right, l)[k], l)
  {
    var ms := PanelMatches(right.rows, l.loc, l.date);
    var one := JoinOne(left, right, l);
    forall k | 0 <= k < |one|
      ensures Extends(one[k], l)
    {
      if ms == [] {
        JoinRowSpec(left, right, l, None);
      } else {
        JoinRowSpec(left, right, l, Some(ms[k]));
      }
    }
  }

  /**
   * The left merge keeps every row of the metrics frame: every left row is
   * extended by some merged row, and there are at least as many merged rows
   * as left rows.
   */
  lemma LeftJoinKeepsLeftRows(left: Frame, right: Frame, ls: seq<Row>)
    requires WellFormed(left) && Distinct(JoinedCols(left, right))
    requires forall i :: 0 <= i < |ls| ==> ls[i].cells.Keys == ColSet(left.cols)
    ensures |LeftJoinRows(left, right, ls)| >= |ls|
    ensures forall i :: 0 <= i < |ls| ==>
      exists k :: 0 <= k < |LeftJoinRows(left, right, ls)| && Extends(LeftJoinRows(left, right, ls)[k], ls[i])
  {
    var out := LeftJoinRows(left, right, ls);
    var each := JoinEach(left, right, ls);
    forall i | 0 <= i < |each|
      ensures |each[i]| >= 1 && Extends(each[i][0], ls[i])
    {
      JoinOneExtends(left, right, ls[i]);
    }
    ConcatLength(each);
    ConcatMembers(each);
    forall i | 0 <= i < |ls|
      ensures exists k :: 0 <= k < |out| && Extends(out[k], ls[i])
    {
      assert each[i][0] in each[i];
      assert each[i][0] in out;
      var k :| 0 <= k < |out| && out[k] == each[i][0];
    }
  }

  /** Every merged row extends some left row: the left merge adds no row of its own. */
  lemma LeftJoinAddsNoRows(left: Frame, right: Frame, ls: seq<Row>)
    requires WellFormed(left) && Distinct(JoinedCols(left, right))
    requires forall i :: 0 <= i < |ls| ==> ls[i].cells.Keys == ColSet(left.cols)
    ensures forall k :: 0 <= k < |LeftJoinRows(left, right, ls)| ==>
      exists i :: 0 <= i < |ls| && Extends(LeftJoinRows(left, right, ls)[k], ls[i])
  {
    var out := LeftJoinRows(left, right, ls);
    var each := JoinEach(left, right, ls);
    ConcatMembers(each);
    forall k | 0 <= k < |out|
      ensures exists i :: 0 <= i < |ls| && Extends(out[k], ls[i])
    {
      assert out[k] in out;
      var i :| 0 <= i < |each| && out[k] in each[i];
      var j :| 0 <= j < |each[i]| && each[i][j] == out[k];
      JoinOneExtends(left, right, ls[i]);
    }
  }

  /** With unique panel keys a left row has exactly one merged row. */
  lemma JoinOneUnique(left: Frame, right: Frame, l: Row)
    requires Distinct(JoinedCols(left, right)) && RowKeysUnique(right.rows)
    ensures JoinOne(left, right, l) == [JoinRow(left, right, l, FindRow(right.rows, l.loc, l.date))]
  {
    var ms := PanelMatches(right.rows, l.loc, l.date);
    if ms != [] {
      assert ms[0] in right.rows && ms[0].loc == l.loc && ms[0].date == l.date by {
        assert ms[0] in ms;
        PanelMatchesMembers(right.rows, l.loc, l.date);
      }
      var j :| 0 <= j < |right.rows| && right.rows[j] == ms[0];
      PanelMatchesUnique(right.rows, l.loc, l.date, j);
      JoinOneSingle(left, right, l, ms[0]);
    }
  }

  lemma JoinOneSingle(left: Frame, right: Frame, l: Row, x: Row)
    requires Distinct(JoinedCols(left, right)) && PanelMatches(right.rows, l.loc, l.date) == [x]
    ensures JoinOne(left, right, l) == [JoinRow(left, right, l, FindRow(right.rows, l.loc, l.date))]
  {
  }

  /**
   * With unique panel keys the left merge keeps the row count and the row
   * order: merged row i is left row i extended with the panel row of its key,
   * with missing cells in every panel column when there is none.
   */
  lemma LeftJoinUniquePanel(left: Frame, right: Frame, ls: seq<Row>)
    requires Distinct(JoinedCols(left, right)) && RowKeysUnique(right.rows)
    ensures |LeftJoinRows(left, right, ls)| == |ls|
    ensures forall i :: 0 <= i < |ls| ==>
      LeftJoinRows(left, right, ls)[i] == JoinRow(left, right, ls[i], FindRow(right.rows, ls[i].loc, ls[i].date))
  {
    var each := JoinEach(left, right, ls);
    forall i | 0 <= i < |each|
      ensures each[i] == [JoinRow(left, right, ls[i], FindRow(right.rows, ls[i].loc, ls[i].date))]
    {
      JoinOneUnique(left, right, ls[i]);
    }
    ConcatSingles(each);
  }

  /**
   * The left merge on unique panel keys, stated on the frames: the merge
   * succeeds exactly when the merged names are distinct; then row i keeps
   * left row i's key and cells, and each panel column holds the matching
   * panel row's cell, or is missing when no panel row has that key.
   */
  lemma LeftJoinSpec(left: Frame, right: Frame)
    requires WellFormed(left) && WellFormed(right) && RowKeysUnique(right.rows)
    requires LeftJoin(left, right).Ok?
    ensures |LeftJoin(left, right).value.rows| == |left.rows|
    ensures forall i :: 0 <= i < |left.rows| ==> Extends(LeftJoin(left, right).value.rows[i], left.rows[i])
    ensures forall i, j :: 0 <= i < |left.rows| && 0 <= j < |right.cols| ==>
      var p := FindRow(right.rows, left.rows[i].loc, left.rows[i].date);
      LeftJoin(left, right).value.rows[i].cells[PanelName(left.cols, right.cols[j])] ==
        if p.Some? then p.value.cells[right.cols[j]] else None
  {
    var out := LeftJoin(left, right).value;
    LeftJoinUniquePanel(left, right, left.rows);
    forall i | 0 <= i < |left.rows|
      ensures Extends(out.rows[i], left.rows[i])
      ensures forall j :: 0 <= j < |right.cols| ==>
        var p := FindRow(right.rows, left.rows[i].loc, left.rows[i].date);
        out.rows[i].cells[PanelName(left.cols, right.cols[j])] == if p.Some? then p.value.cells[right.cols[j]] else None
    {
      JoinFoundRow(left, right, left.rows[i]);
    }
  }

  /** A left row merged with the panel row of its key, cell by cell. */
  lemma JoinFoundRow(left: Frame, right: Frame, l: Row)
    requires WellFormed(right) && Distinct(JoinedCols(left, right)) && l.cells.Keys == ColSet(left.cols)
    ensures Extends(JoinRow(left, right, l, FindRow(right.rows, l.loc, l.date)), l)
    ensures forall j :: 0 <= j < |right.cols| ==>
      var p := FindRow(right.rows, l.loc, l.date);
      JoinRow(left, right, l, p).cells[PanelName(left.cols, right.cols[j])] ==
        if p.Some? then p.value.cells[right.cols[j]] else None
  {
    var p := FindRow(right.rows, l.loc, l.date);
    JoinRowSpec(left, right, l, p);
    if p.Some? {
      var k :| 0 <= k < |right.rows| && right.rows[k] == p.value;
      assert p.value.cells.Keys == ColSet(right.cols);
    }
  }

  /** Every location of the metrics frame has a merged row. */
  lemma LeftJoinLocationsKept(left: Frame, right: Frame, l: Location)
    requires WellFormed(left) && WellFormed(right) && LeftJoin(left, right).Ok? && l in Locs(left.rows)
    ensures l in Locs(LeftJoin(left, right).value.rows)
  {
    var out := LeftJoin(left, right).value.rows;
    LeftJoinKeepsLeftRows(left, right, left.rows);
    var i :| 0 <= i < |left.rows| && Locs(left.rows)[i] == l;
    var k :| 0 <= k < |out| && Extends(out[k], left.rows[i]);
    assert Locs(out)[k] == l;
  }

  /** Every merged row has a location of the metrics frame. */
  lemma LeftJoinLocationsFrom(left: Frame, right: Frame, l: Location)
    requires WellFormed(left) && WellFormed(right) && LeftJoin(left, right).Ok? && l in Locs(LeftJoin(left, right).value.rows)
    ensures l in Locs(left.rows)
  {
    var out := LeftJoin(left, right).value.rows;
    LeftJoinAddsNoRows(left, right, left.rows);
    var k :| 0 <= k < |out| && Locs(out)[k] == l;
    var i :| 0 <= i < |left.rows| && Extends(out[k], left.rows[i]);
    assert Locs(left.rows)[i] == l;
  }

  /**
   * The left merge keeps the set of locations, and has at least one row per
   * metrics row, exactly one when the panel repeats no (location, date) key.
   */
  lemma LeftJoinLocations(left: Frame, right: Frame)
    requires WellFormed(left) && WellFormed(right) && LeftJoin(left, right).Ok?
    ensures forall l :: l in Locs(LeftJoin(left, right).value.rows) <==> l in Locs(left.rows)
    ensures |LeftJoin(left, right).value.rows| >= |left.rows|
    ensures RowKeysUnique(right.rows) ==> |LeftJoin(left, right).value.rows| == |left.rows|
  {
    forall l
      ensures l in Locs(LeftJoin(left, right).value.rows) <==> l in Locs(left.rows)
    {
      if l in Locs(left.rows) {
        LeftJoinLocationsKept(left, right, l);
      }
      if l in Locs(LeftJoin(left, right).value.rows) {
        LeftJoinLocationsFrom(left, right, l);
      }
    }
    LeftJoinKeepsLeftRows(left, right, left.rows);
    if RowKeysUnique(right.rows) {
      LeftJoinUniquePanel(left, right, left.rows);
    }
  }
}
