/** Small facts about sequences used by the table model. */
module SeqUtil {

  /** No element occurs twice. */
  predicate Distinct<T(==)>(s: seq<T>)
  {
    forall i, j :: 0 <= i < j < |s| ==> s[i] != s[j]
  }

  /** The sequence of `f` applied to each element of `s`, in order. */
  function Project<A, B>(s: seq<A>, f: A -> B): (r: seq<B>)
    ensures |r| == |s|
    ensures forall i :: 0 <= i < |s| ==> r[i] == f(s[i])
  {
    seq(|s|, i requires 0 <= i < |s| => f(s[i]))
  }

  /** The elements of `s` in order of first occurrence, each once (the key set of a pandas groupby). */
  function Dedup<T(==)>(s: seq<T>): (r: seq<T>)
    ensures Distinct(r)
    ensures forall i :: 0 <= i < |s| ==> s[i] in r
    ensures forall i :: 0 <= i < |r| ==> r[i] in s
    ensures |r| <= |s|
  {
    if s == [] then []
    else
      var d := Dedup(s[..|s| - 1]);
      assert s == s[..|s| - 1] + [s[|s| - 1]];
      if s[|s| - 1] in d then d else d + [s[|s| - 1]]
  }

  /** The two halves of a distinct concatenation are distinct and share no element. */
  lemma {:induction false} DistinctConcat<T>(a: seq<T>, b: seq<T>)
    requires Distinct(a + b)
    ensures Distinct(a) && Distinct(b)
    ensures forall i, j :: 0 <= i < |a| && 0 <= j < |b| ==> a[i] != b[j]
  {
    forall i, j | 0 <= i < |a| && 0 <= j < |b|
      ensures a[i] != b[j]
    {
      assert (a + b)[i] == a[i] && (a + b)[|a| + j] == b[j];
    }
    forall i, j | 0 <= i < j < |a|
      ensures a[i] != a[j]
    {
      assert (a + b)[i] == a[i] && (a + b)[j] == a[j];
    }
    forall i, j | 0 <= i < j < |b|
      ensures b[i] != b[j]
    {
      assert (a + b)[|a| + i] == b[i] && (a + b)[|a| + j] == b[j];
    }
  }

  /** An element of a distinct sequence occurs at most once. */
  lemma {:induction false} DistinctCount<T>(s: seq<T>, x: T)
    requires Distinct(s)
    ensures multiset(s)[x] <= 1
  {
    if s != [] {
      var rest := s[1..];
      assert s == [s[0]] + rest;
      assert Distinct(rest) by {
        forall i, j | 0 <= i < j < |rest|
          ensures rest[i] != rest[j]
        {
          assert rest[i] == s[i + 1] && rest[j] == s[j + 1];
        }
      }
      DistinctCount(rest, x);
      if s[0] == x {
        forall i | 0 <= i < |rest|
          ensures rest[i] != x
        {
          assert rest[i] == s[i + 1];
        }
        assert x !in rest;
      }
    }
  }

  /** An element at two indices occurs at least twice. */
  lemma RepeatCount<T>(s: seq<T>, i: nat, j: nat)
    requires i < j < |s| && s[i] == s[j]
    ensures multiset(s)[s[i]] >= 2
  {
    assert s == s[..j] + s[j..];
    assert s[..j][i] == s[i] && s[j..][0] == s[j];
    assert s[i] in multiset(s[..j]) && s[j] in multiset(s[j..]);
  }

  /** A permutation of a distinct sequence is distinct. */
  lemma DistinctPermutation<T>(a: seq<T>, b: seq<T>)
    requires multiset(a) == multiset(b) && Distinct(a)
    ensures Distinct(b)
  {
    forall i, j | 0 <= i < j < |b|
      ensures b[i] != b[j]
    {
      DistinctCount(a, b[i]);
      if b[i] == b[j] {
        RepeatCount(b, i, j);
      }
    }
  }

  /** The concatenation of a sequence of sequences, in order. */
  function Concat<T>(ss: seq<seq<T>>): seq<T>
  {
    if ss == [] then [] else Concat(ss[..|ss| - 1]) + ss[|ss| - 1]
  }

  /** An element is in the concatenation exactly when it is in one of the parts. */
  lemma {:induction false} ConcatMembers<T>(ss: seq<seq<T>>)
    ensures forall x :: x in Concat(ss) <==> exists i :: 0 <= i < |ss| && x in ss[i]
  {
    if ss != [] {
      var front := ss[..|ss| - 1];
      ConcatMembers(front);
      assert forall i :: 0 <= i < |front| ==> front[i] == ss[i];
      forall x | exists i :: 0 <= i < |ss| && x in ss[i]
        ensures x in Concat(ss)
      {
        var i :| 0 <= i < |ss| && x in ss[i];
        if i < |front| {
          assert x in front[i];
        }
      }
    }
  }

  /** Non-empty parts give a concatenation at least as long as the number of parts. */
  lemma {:induction false} ConcatLength<T>(ss: seq<seq<T>>)
    requires forall i :: 0 <= i < |ss| ==> |ss[i]| >= 1
    ensures |Concat(ss)| >= |ss|
  {
    if ss != [] {
      var front := ss[..|ss| - 1];
      assert forall i :: 0 <= i < |front| ==> front[i] == ss[i];
      ConcatLength(front);
    }
  }

  /** One-element parts concatenate to the sequence of those elements. */
  lemma {:induction false} ConcatSingles<T>(ss: seq<seq<T>>)
    requires forall i :: 0 <= i < |ss| ==> |ss[i]| == 1
    ensures |Concat(ss)| == |ss|
    ensures forall i :: 0 <= i < |ss| ==> Concat(ss)[i] == ss[i][0]
  {
    if ss != [] {
      var front := ss[..|ss| - 1];
      assert forall i :: 0 <= i < |front| ==> front[i] == ss[i];
      ConcatSingles(front);
    }
  }
}
