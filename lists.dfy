/** Generic facts about the list and map shapes the bookstore builds in its
    loops: keeping the elements that pass a test, and summing map values. */
module Lists {

  /** Some element is in a non-empty set. */
  lemma ElementExists<T>(s: set<T>)
    requires s != {}
    ensures exists x :: x in s
  {
    if forall x :: x !in s {
      assert false;
    }
  }

  /** The elements of `s` that pass `p`, in their order in `s`: what a loop
      that appends each passing element to an empty ArrayList yields. */
  function Filter<T>(s: seq<T>, p: T -> bool): (r: seq<T>)
    ensures |r| <= |s|
    ensures forall i :: 0 <= i < |r| ==> p(r[i])
  {
    if s == [] then []
    else if p(s[|s| - 1]) then Filter(s[..|s| - 1], p) + [s[|s| - 1]]
    else Filter(s[..|s| - 1], p)
  }

  /** One more loop iteration. */
  lemma FilterSnoc<T>(s: seq<T>, p: T -> bool, i: int)
    requires 0 <= i < |s|
    ensures Filter(s[..i + 1], p) == Filter(s[..i], p) + (if p(s[i]) then [s[i]] else [])
  {
    assert s[..i + 1][..i] == s[..i];
  }

  /** An element is kept exactly when it is in `s` and passes `p`. */
  lemma {:induction false} FilterMembership<T>(s: seq<T>, p: T -> bool, x: T)
    ensures x in Filter(s, p) <==> x in s && p(x)
  {
    if s != [] {
      var init := s[..|s| - 1];
      assert s == init + [s[|s| - 1]];
      FilterMembership(init, p, x);
    }
  }

  /** Each value is kept as often as it occurs in `s` when it passes `p`,
      and never otherwise. */
  lemma {:induction false} FilterMultiplicity<T>(s: seq<T>, p: T -> bool, x: T)
    ensures multiset(Filter(s, p))[x] == if p(x) then multiset(s)[x] else 0
  {
    if s != [] {
      var init := s[..|s| - 1];
      assert s == init + [s[|s| - 1]];
      FilterMultiplicity(init, p, x);
    }
  }

  /** Every prefix of the kept elements is what a prefix of `s` keeps: the
      loop stopped early has kept exactly the first ones. */
  lemma {:induction false} FilterPrefix<T>(s: seq<T>, p: T -> bool, m: int)
    requires 0 <= m <= |Filter(s, p)|
    ensures exists k :: 0 <= k <= |s| && Filter(s[..k], p) == Filter(s, p)[..m]
  {
    if s == [] {
      assert Filter(s[..0], p) == Filter(s, p)[..m];
    } else {
      var init := s[..|s| - 1];
      if m <= |Filter(init, p)| {
        FilterPrefix(init, p, m);
        var k :| 0 <= k <= |init| && Filter(init[..k], p) == Filter(init, p)[..m];
        assert init[..k] == s[..k];
        assert Filter(s, p)[..m] == Filter(init, p)[..m];
      } else {
        assert s[..|s|] == s;
        assert Filter(s, p)[..m] == Filter(s, p);
      }
    }
  }

  /** `xs` can be obtained from `ys` by deleting elements; matching from the
      back of both lists, greedily. */
  predicate Subsequence<T(==)>(xs: seq<T>, ys: seq<T>)
    decreases |ys|
  {
    if xs == [] then true
    else if ys == [] then false
    else if xs[|xs| - 1] == ys[|ys| - 1] then Subsequence(xs[..|xs| - 1], ys[..|ys| - 1])
    else Subsequence(xs, ys[..|ys| - 1])
  }

  /** Dropping the last element of a subsequence leaves a subsequence. */
  lemma {:induction false} SubsequenceDropLast<T>(xs: seq<T>, ys: seq<T>)
    requires xs != [] && Subsequence(xs, ys)
    ensures Subsequence(xs[..|xs| - 1], ys)
    decreases |ys|, 1
  {
    var front := xs[..|xs| - 1];
    if front != [] {
      if xs[|xs| - 1] == ys[|ys| - 1] {
        SubsequenceWeaken(front, ys[..|ys| - 1], ys);
      } else {
        SubsequenceDropLast(xs, ys[..|ys| - 1]);
        SubsequenceWeaken(front, ys[..|ys| - 1], ys);
      }
    }
  }

  /** A subsequence of all but the last element of `ys` is one of `ys`. */
  lemma SubsequenceWeaken<T>(xs: seq<T>, init: seq<T>, ys: seq<T>)
    requires ys != [] && init == ys[..|ys| - 1] && Subsequence(xs, init)
    ensures Subsequence(xs, ys)
    decreases |ys|, 0
  {
    if xs != [] && xs[|xs| - 1] == ys[|ys| - 1] {
      SubsequenceDropLast(xs, init);
    }
  }

  /** Every prefix of a subsequence is a subsequence. */
  lemma {:induction false} SubsequencePrefix<T>(xs: seq<T>, ys: seq<T>, k: int)
    requires 0 <= k <= |xs| && Subsequence(xs, ys)
    ensures Subsequence(xs[..k], ys)
    decreases |xs| - k
  {
    if k < |xs| {
      SubsequenceDropLast(xs, ys);
      assert xs[..|xs| - 1][..k] == xs[..k];
      SubsequencePrefix(xs[..|xs| - 1], ys, k);
    } else {
      assert xs[..k] == xs;
    }
  }

  /** The kept elements keep their relative order. */
  lemma {:induction false} FilterSubsequence<T>(s: seq<T>, p: T -> bool)
    ensures Subsequence(Filter(s, p), s)
  {
    if s != [] {
      var init := s[..|s| - 1];
      FilterSubsequence(init, p);
      if !p(s[|s| - 1]) {
        SubsequenceWeaken(Filter(init, p), init, s);
      }
    }
  }

  /** The sum of the values of a map. */
  ghost function SumValues<K>(m: map<K, nat>): nat
    decreases |m|
  {
    if m == map[] then 0
    else
      ElementExists(m.Keys);
      var k :| k in m;
      m[k] + SumValues(m - {k})
  }

  /** Any one key can be taken out first. */
  lemma {:induction false} SumValuesRemove<K>(m: map<K, nat>, k: K)
    requires k in m
    ensures SumValues(m) == m[k] + SumValues(m - {k})
    decreases |m|
  {
    var j :| j in m && SumValues(m) == m[j] + SumValues(m - {j});
    if j != k {
      SumValuesRemove(m - {j}, k);
      SumValuesRemove(m - {k}, j);
      assert m - {j} - {k} == m - {k} - {j};
    }
  }

  /** Adding one to the value at `k` (0 when absent) adds one to the sum. */
  lemma SumValuesIncrement<K>(m: map<K, nat>, k: K)
    ensures SumValues(m[k := (if k in m then m[k] else 0) + 1]) == SumValues(m) + 1
  {
    var m' := m[k := (if k in m then m[k] else 0) + 1];
    SumValuesRemove(m', k);
    assert m' - {k} == m - {k};
    if k in m {
      SumValuesRemove(m, k);
    } else {
      assert m - {k} == m;
    }
  }
}
