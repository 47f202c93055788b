/**
 * Gap filling on one column of cells: pandas `fillna(method='ffill')`,
 * `fillna(method='bfill')` and the per-group forward fill of
 * `groupby(...).apply(lambda g: g.fillna(method='ffill'))`.
 * Each fill is specified by a function on sequences and carried out by a
 * method that walks an array once, carrying the last value seen.
 */
module Fill {
  import opened Wrappers

  /** The most recent known cell at an index <= i; None when every cell up to i is missing. */
  function LastKnown<T>(s: seq<Option<T>>, i: int): Option<T>
    requires i < |s|
    decreases i
  {
    if i < 0 then None
    else if s[i].Some? then s[i]
    else LastKnown(s, i - 1)
  }

  /** The first known cell at an index >= i; None when every cell from i on is missing. */
  function NextKnown<T>(s: seq<Option<T>>, i: nat): Option<T>
    decreases |s| - i
  {
    if i >= |s| then None
    else if s[i].Some? then s[i]
    else NextKnown(s, i + 1)
  }

  /** Forward fill: every missing cell takes the most recent known cell before it. */
  function FFill<T>(s: seq<Option<T>>): (r: seq<Option<T>>)
    ensures |r| == |s|
    ensures forall i :: 0 <= i < |s| && s[i].Some? ==> r[i] == s[i]
  {
    seq(|s|, i requires 0 <= i < |s| => LastKnown(s, i))
  }

  /** Backward fill: every missing cell takes the first known cell after it. */
  function BFill<T>(s: seq<Option<T>>): (r: seq<Option<T>>)
    ensures |r| == |s|
    ensures forall i :: 0 <= i < |s| && s[i].Some? ==> r[i] == s[i]
  {
    seq(|s|, i requires 0 <= i < |s| => NextKnown(s, i))
  }

  /** LastKnown is the nearest known cell at or before i, and is missing only when all of s[..i+1] is. */
  lemma {:induction false} LastKnownIsNearest<T>(s: seq<Option<T>>, i: int)
    requires -1 <= i < |s|
    ensures LastKnown(s, i).None? <==> forall j :: 0 <= j <= i ==> s[j].None?
    ensures LastKnown(s, i).Some? ==>
      exists j :: 0 <= j <= i && s[j] == LastKnown(s, i) && forall k :: j < k <= i ==> s[k].None?
  {
    if i >= 0 {
      if s[i].Some? {
        assert s[i] == LastKnown(s, i);
      } else {
        LastKnownIsNearest(s, i - 1);
        if LastKnown(s, i).Some? {
          var j :| 0 <= j <= i - 1 && s[j] == LastKnown(s, i - 1) && forall k :: j < k <= i - 1 ==> s[k].None?;
          assert forall k :: j < k <= i ==> s[k].None?;
        }
      }
    }
  }

  /** NextKnown is the nearest known cell at or after i, and is missing only when all of s[i..] is. */
  lemma {:induction false} NextKnownIsNearest<T>(s: seq<Option<T>>, i: nat)
    requires i <= |s|
    ensures NextKnown(s, i).None? <==> forall j :: i <= j < |s| ==> s[j].None?
    ensures NextKnown(s, i).Some? ==>
      exists j :: i <= j < |s| && s[j] == NextKnown(s, i) && forall k :: i <= k < j ==> s[k].None?
    decreases |s| - i
  {
    if i < |s| {
      if s[i].Some? {
        assert s[i] == NextKnown(s, i);
      } else {
        NextKnownIsNearest(s, i + 1);
        if NextKnown(s, i).Some? {
          var j :| i + 1 <= j < |s| && s[j] == NextKnown(s, i + 1) && forall k :: i + 1 <= k < j ==> s[k].None?;
          assert forall k :: i <= k < j ==> s[k].None?;
        }
      }
    }
  }

  /** Scanning forward from i over missing cells, NextKnown stops at the first known cell f. */
  lemma {:induction false} NextKnownSkipsGap<T>(s: seq<Option<T>>, i: nat, f: nat)
    requires i <= f < |s| && s[f].Some?
    requires forall k :: i <= k < f ==> s[k].None?
    ensures NextKnown(s, i) == s[f]
    decreases f - i
  {
    if i < f {
      NextKnownSkipsGap(s, i + 1, f);
    }
  }

  /**
   * The population fill `fillna(method='ffill').fillna(method='bfill')`: a cell
   * with a known cell at or before it gets the nearest such one; a cell in the
   * leading gap gets the first known cell of the column; at least one known
   * cell leaves no cell missing.
   */
  lemma {:induction false} FFillThenBFill<T>(s: seq<Option<T>>)
    ensures |BFill(FFill(s))| == |s|
    ensures forall i :: 0 <= i < |s| ==>
      BFill(FFill(s))[i] == if LastKnown(s, i).Some? then LastKnown(s, i) else NextKnown(s, 0)
    ensures (exists j :: 0 <= j < |s| && s[j].Some?) ==> forall i :: 0 <= i < |s| ==> BFill(FFill(s))[i].Some?
  {
    var t := FFill(s);
    NextKnownIsNearest(s, 0);
    forall i | 0 <= i < |s|
      ensures BFill(t)[i] == if LastKnown(s, i).Some? then LastKnown(s, i) else NextKnown(s, 0)
    {
      if LastKnown(s, i).None? {
        LastKnownIsNearest(s, i);
        if NextKnown(s, 0).None? {
          forall k | i <= k < |t|
            ensures t[k].None?
          {
            LastKnownIsNearest(s, k);
          }
          NextKnownIsNearest(t, i);
        } else {
          var f :| 0 <= f < |s| && s[f] == NextKnown(s, 0) && forall k :: 0 <= k < f ==> s[k].None?;
          forall k | i <= k < f
            ensures t[k].None?
          {
            LastKnownIsNearest(s, k);
          }
          NextKnownSkipsGap(t, i, f);
        }
      }
    }
  }

  /** The most recent known cell at an index <= i among the rows whose key is k. */
  function LastKnownFor<K(==), T>(keys: seq<K>, s: seq<Option<T>>, k: K, i: int): Option<T>
    requires |keys| == |s| && i < |s|
    decreases i
  {
    if i < 0 then None
    else if keys[i] == k && s[i].Some? then s[i]
    else LastKnownFor(keys, s, k, i - 1)
  }

  /** Forward fill within groups: a missing cell takes the most recent known cell of a row with its own key. */
  function GFill<K(==), T>(keys: seq<K>, s: seq<Option<T>>): (r: seq<Option<T>>)
    requires |keys| == |s|
    ensures |r| == |s|
    ensures forall i :: 0 <= i < |s| && s[i].Some? ==> r[i] == s[i]
  {
    seq(|s|, i requires 0 <= i < |s| => LastKnownFor(keys, s, keys[i], i))
  }

  /** LastKnownFor is the nearest known cell of a k-row at or before i, and looks at no other rows. */
  lemma {:induction false} LastKnownForIsNearest<K, T>(keys: seq<K>, s: seq<Option<T>>, k: K, i: int)
    requires |keys| == |s| && -1 <= i < |s|
    ensures LastKnownFor(keys, s, k, i).None? <==> forall j :: 0 <= j <= i && keys[j] == k ==> s[j].None?
    ensures LastKnownFor(keys, s, k, i).Some? ==>
      exists j :: 0 <= j <= i && keys[j] == k && s[j] == LastKnownFor(keys, s, k, i) &&
        forall m :: j < m <= i && keys[m] == k ==> s[m].None?
  {
    if i >= 0 {
      if keys[i] == k && s[i].Some? {
        assert s[i] == LastKnownFor(keys, s, k, i);
      } else {
        LastKnownForIsNearest(keys, s, k, i - 1);
        if LastKnownFor(keys, s, k, i).Some? {
          var j :| 0 <= j <= i - 1 && keys[j] == k && s[j] == LastKnownFor(keys, s, k, i - 1) &&
            forall m :: j < m <= i - 1 && keys[m] == k ==> s[m].None?;
          assert forall m :: j < m <= i && keys[m] == k ==> s[m].None?;
        }
      }
    }
  }

  /**
   * The per-group forward fill never carries a value across groups: a filled
   * cell comes from an earlier row of the same key with no known cell of that
   * key in between, and a cell stays missing exactly when no row of its key up
   * to it is known.
   */
  lemma GFillStaysInGroup<K, T>(keys: seq<K>, s: seq<Option<T>>, i: nat)
    requires |keys| == |s| && i < |s|
    ensures GFill(keys, s)[i].None? <==> forall j :: 0 <= j <= i && keys[j] == keys[i] ==> s[j].None?
    ensures GFill(keys, s)[i].Some? ==>
      exists j :: 0 <= j <= i && keys[j] == keys[i] && s[j] == GFill(keys, s)[i] &&
        forall m :: j < m <= i && keys[m] == keys[i] ==> s[m].None?
  {
    LastKnownForIsNearest(keys, s, keys[i], i);
  }

  /** pandas `fillna(method='ffill')` on a column held in an array. */
  method ForwardFill<T>(a: array<Option<T>>)
    modifies a
    ensures a[..] == FFill(old(a[..]))
  {
    ghost var s := a[..];
    var last: Option<T> := None;
    var i := 0;
    while i < a.Length
      invariant 0 <= i <= a.Length
      invariant last == LastKnown(s, i - 1)
      invariant forall j :: 0 <= j < i ==> a[j] == LastKnown(s, j)
      invariant forall j :: i <= j < a.Length ==> a[j] == s[j]
    {
      if a[i].Some? {
        last := a[i];
      } else {
        a[i] := last;
      }
      i := i + 1;
    }
  }

  /** pandas `fillna(method='bfill')` on a column held in an array. */
  method BackwardFill<T>(a: array<Option<T>>)
    modifies a
    ensures a[..] == BFill(old(a[..]))
  {
    ghost var s := a[..];
    var next: Option<T> := None;
    var i := a.Length;
    while i > 0
      invariant 0 <= i <= a.Length
      invariant next == NextKnown(s, i)
      invariant forall j :: i <= j < a.Length ==> a[j] == NextKnown(s, j)
      invariant forall j :: 0 <= j < i ==> a[j] == s[j]
    {
      i := i - 1;
      if a[i].Some? {
        next := a[i];
      } else {
        a[i] := next;
      }
    }
  }

  /** Forward fill of one column within the groups given by `keys`, carrying one last value per key. */
  method GroupForwardFill<K(==,!new), T>(keys: seq<K>, a: array<Option<T>>)
    requires |keys| == a.Length
    modifies a
    ensures a[..] == GFill(keys, old(a[..]))
  {
    ghost var s := a[..];
    var last: map<K, T> := map[];
    var i := 0;
    while i < a.Length
      invariant 0 <= i <= a.Length
      invariant forall k :: LastKnownFor(keys, s, k, i - 1) == (if k in last then Some(last[k]) else None)
      invariant forall j :: 0 <= j < i ==> a[j] == LastKnownFor(keys, s, keys[j], j)
      invariant forall j :: i <= j < a.Length ==> a[j] == s[j]
    {
      ghost var prev := last;
      assert a[i] == s[i];
      if a[i].Some? {
        last := last[keys[i] := a[i].value];
      } else if keys[i] in last {
        a[i] := Some(last[keys[i]]);
      }
      forall k: K
        ensures LastKnownFor(keys, s, k, i) == (if k in last then Some(last[k]) else None)
      {
        assert LastKnownFor(keys, s, k, i - 1) == (if k in prev then Some(prev[k]) else None);
        assert LastKnownFor(keys, s, k, i) ==
          if keys[i] == k && s[i].Some? then s[i] else LastKnownFor(keys, s, k, i - 1);
      }
      i := i + 1;
    }
  }
}
