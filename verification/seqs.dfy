/** The array helpers the source uses everywhere (`filter`, `findIndex`, `find`),
    written once over Dafny sequences. */
module Seqs {
  import opened Wrappers

  /** `s.filter(p)`: the elements satisfying `p`, in their original order. */
  function Filter<T>(s: seq<T>, p: T -> bool): (r: seq<T>)
    ensures |r| <= |s|
    ensures forall i :: 0 <= i < |r| ==> r[i] in s && p(r[i])
    ensures forall i :: 0 <= i < |s| && p(s[i]) ==> s[i] in r
  {
    if |s| == 0 then []
    else
      var init := s[..|s| - 1];
      assert s == init + [s[|s| - 1]];
      Filter(init, p) + (if p(s[|s| - 1]) then [s[|s| - 1]] else [])
  }

  /** An element survives filtering exactly when it is in `s` and passes. */
  lemma FilterMembers<T>(s: seq<T>, p: T -> bool)
    ensures forall x :: x in Filter(s, p) <==> x in s && p(x)
  {
  }

  /** Filtering distributes over concatenation. */
  lemma {:induction false} FilterAppend<T>(s: seq<T>, t: seq<T>, p: T -> bool)
    ensures Filter(s + t, p) == Filter(s, p) + Filter(t, p)
    decreases |t|
  {
    if |t| == 0 {
      assert s + t == s;
    } else {
      var t' := t[..|t| - 1];
      var x := t[|t| - 1];
      assert (s + t)[..|s + t| - 1] == s + t';
      FilterAppend(s, t', p);
    }
  }

  /** Filtering keeps everything when every element passes. */
  lemma {:induction false} FilterAll<T>(s: seq<T>, p: T -> bool)
    requires forall i :: 0 <= i < |s| ==> p(s[i])
    ensures Filter(s, p) == s
    decreases |s|
  {
    if |s| > 0 {
      FilterAll(s[..|s| - 1], p);
      assert s == s[..|s| - 1] + [s[|s| - 1]];
    }
  }

  /** Filtering drops everything when no element passes. */
  lemma {:induction false} FilterNone<T>(s: seq<T>, p: T -> bool)
    requires forall i :: 0 <= i < |s| ==> !p(s[i])
    ensures Filter(s, p) == []
    decreases |s|
  {
    if |s| > 0 {
      FilterNone(s[..|s| - 1], p);
    }
  }

  /** Two predicates that agree on every element of `s` filter it the same way. */
  lemma {:induction false} FilterCongruent<T>(s: seq<T>, p: T -> bool, q: T -> bool)
    requires forall i :: 0 <= i < |s| ==> p(s[i]) == q(s[i])
    ensures Filter(s, p) == Filter(s, q)
    decreases |s|
  {
    if |s| > 0 {
      FilterCongruent(s[..|s| - 1], p, q);
    }
  }

  /** Filtering a sequence extended by one element. */
  lemma FilterSnoc<T>(s: seq<T>, x: T, p: T -> bool)
    ensures Filter(s + [x], p) == Filter(s, p) + (if p(x) then [x] else [])
  {
    assert (s + [x])[..|s + [x]| - 1] == s;
  }

  /** Filtering by `p` and then by `q` is filtering once by their conjunction. */
  lemma {:induction false} FilterFilter<T>(s: seq<T>, p: T -> bool, q: T -> bool, both: T -> bool)
    requires forall i :: 0 <= i < |s| ==> both(s[i]) == (p(s[i]) && q(s[i]))
    ensures Filter(Filter(s, p), q) == Filter(s, both)
    decreases |s|
  {
    if |s| > 0 {
      var init := s[..|s| - 1];
      var x := s[|s| - 1];
      FilterFilter(init, p, q, both);
      FilterAppend(Filter(init, p), if p(x) then [x] else [], q);
      if p(x) {
        assert Filter([x], q) == (if q(x) then [x] else []) by {
          FilterSnoc([], x, q);
          assert [] + [x] == [x];
        }
      }
    }
  }

  /** Two filters can be applied in either order. */
  lemma {:induction false} FilterCommute<T>(s: seq<T>, p: T -> bool, q: T -> bool)
    ensures Filter(Filter(s, p), q) == Filter(Filter(s, q), p)
    decreases |s|
  {
    if |s| == 0 {
      assert Filter(s, p) == [];
      assert Filter(s, q) == [];
    } else {
      var s' := s[..|s| - 1];
      var x := s[|s| - 1];
      assert s == s' + [x];
      FilterCommute(s', p, q);
      var ps, qs := Filter(s', p), Filter(s', q);
      FilterSnoc(s', x, p);
      FilterSnoc(s', x, q);
      if p(x) && q(x) {
        FilterSnoc(ps, x, q);
        FilterSnoc(qs, x, p);
        assert Filter(Filter(s, p), q) == Filter(ps, q) + [x];
        assert Filter(Filter(s, q), p) == Filter(qs, p) + [x];
      } else if p(x) {
        FilterSnoc(ps, x, q);
        assert Filter(s, q) == qs + [];
        assert Filter(s, q) == qs;
        assert Filter(Filter(s, p), q) == Filter(ps, q) + [];
      } else if q(x) {
        FilterSnoc(qs, x, p);
        assert Filter(s, p) == ps + [];
        assert Filter(s, p) == ps;
        assert Filter(Filter(s, q), p) == Filter(qs, p) + [];
      } else {
        assert Filter(s, p) == ps + [];
        assert Filter(s, p) == ps;
        assert Filter(s, q) == qs + [];
        assert Filter(s, q) == qs;
      }
    }
  }

  /** A key that tells the elements of `s` apart still tells apart those of any filter of `s`. */
  lemma {:induction false} FilterKeepsDistinct<T, K>(s: seq<T>, p: T -> bool, f: T -> K)
    requires forall i, j :: 0 <= i < j < |s| ==> f(s[i]) != f(s[j])
    ensures forall i, j :: 0 <= i < j < |Filter(s, p)| ==> f(Filter(s, p)[i]) != f(Filter(s, p)[j])
    decreases |s|
  {
    if |s| > 0 {
      var s' := s[..|s| - 1];
      var x := s[|s| - 1];
      assert s == s' + [x];
      FilterSnoc(s', x, p);
      FilterKeepsDistinct(s', p, f);
      var r' := Filter(s', p);
      forall i | 0 <= i < |r'|
        ensures f(r'[i]) != f(x)
      {
        var j :| 0 <= j < |s'| && s'[j] == r'[i];
      }
    }
  }

  /** Filtering out a single element that fails the predicate shortens the sequence by one. */
  lemma {:induction false} FilterDropsOne<T>(s: seq<T>, p: T -> bool, k: int)
    requires 0 <= k < |s| && !p(s[k])
    requires forall i :: 0 <= i < |s| && i != k ==> p(s[i])
    ensures |Filter(s, p)| == |s| - 1
    decreases |s|
  {
    var s' := s[..|s| - 1];
    var x := s[|s| - 1];
    assert s == s' + [x];
    FilterSnoc(s', x, p);
    if k == |s| - 1 {
      FilterAll(s', p);
    } else {
      FilterDropsOne(s', p, k);
    }
  }

  /** `s.findIndex(p)`: the index of the first element satisfying `p`, or -1. */
  function IndexWhere<T>(s: seq<T>, p: T -> bool): (k: int)
    ensures -1 <= k < |s|
    ensures k >= 0 ==> p(s[k]) && forall j :: 0 <= j < k ==> !p(s[j])
    ensures k < 0 ==> forall j :: 0 <= j < |s| ==> !p(s[j])
  {
    if |s| == 0 then -1
    else if p(s[0]) then 0
    else
      var k := IndexWhere(s[1..], p);
      if k < 0 then -1 else k + 1
  }

  /** Two predicates that agree on every element find the same index. */
  lemma IndexWhereCongruent<T>(s: seq<T>, t: seq<T>, p: T -> bool, q: T -> bool)
    requires |s| == |t|
    requires forall i :: 0 <= i < |s| ==> p(s[i]) == q(t[i])
    ensures IndexWhere(s, p) == IndexWhere(t, q)
  {
    var k, k' := IndexWhere(s, p), IndexWhere(t, q);
    if k >= 0 && k' >= 0 {
      assert !(k < k') && !(k' < k);
    }
  }

  /** `s.find(p)`: the first element satisfying `p`, or `undefined`. */
  function Find<T>(s: seq<T>, p: T -> bool): (r: Option<T>)
    ensures r.None? <==> forall j :: 0 <= j < |s| ==> !p(s[j])
    ensures r.Some? ==> r.value in s && p(r.value)
    ensures r.Some? ==> exists k :: 0 <= k < |s| && s[k] == r.value && forall j :: 0 <= j < k ==> !p(s[j])
  {
    var k := IndexWhere(s, p);
    if k < 0 then None else Some(s[k])
  }
}
