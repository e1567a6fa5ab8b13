/** `Array.prototype.filter` and the facts about it that the views rely on:
    the result keeps exactly the elements that pass the test, in their
    original order. */
module Seqs {

  /** `s.filter(p)`. */
  function Filter<T(!new)>(p: T -> bool, s: seq<T>): (r: seq<T>)
    ensures |r| <= |s|
    ensures forall x :: x in r <==> x in s && p(x)
  {
    if s == [] then []
    else if p(s[0]) then [s[0]] + Filter(p, s[1..])
    else Filter(p, s[1..])
  }

  /** Each element occurs in the result as often as in the input if it passes,
      and not at all otherwise. */
  lemma {:induction false} FilterMultiset<T(!new)>(p: T -> bool, s: seq<T>, x: T)
    ensures multiset(Filter(p, s))[x] == if p(x) then multiset(s)[x] else 0
  {
    if s != [] {
      FilterMultiset(p, s[1..], x);
      assert s == [s[0]] + s[1..];
    }
  }

  /** `a` is obtained from `b` by deleting elements, order kept. */
  ghost predicate IsSubsequence<T(!new)>(a: seq<T>, b: seq<T>)
    decreases |b|
  {
    a == [] || (b != [] && ((a[0] == b[0] && IsSubsequence(a[1..], b[1..])) || IsSubsequence(a, b[1..])))
  }

  /** The filter result is a subsequence of its input. */
  lemma {:induction false} FilterIsSubsequence<T(!new)>(p: T -> bool, s: seq<T>)
    ensures IsSubsequence(Filter(p, s), s)
  {
    if s != [] {
      FilterIsSubsequence(p, s[1..]);
      var r := Filter(p, s);
      if p(s[0]) {
        assert r[0] == s[0] && r[1..] == Filter(p, s[1..]);
      }
    }
  }

  /** Filtering distributes over concatenation. */
  lemma {:induction false} FilterConcat<T(!new)>(p: T -> bool, a: seq<T>, b: seq<T>)
    ensures Filter(p, a + b) == Filter(p, a) + Filter(p, b)
  {
    if a == [] {
      assert a + b == b;
    } else {
      assert (a + b)[0] == a[0] && (a + b)[1..] == a[1..] + b;
      FilterConcat(p, a[1..], b);
    }
  }

  /** Appending one element adds it to the filter result exactly when it passes. */
  lemma FilterSnoc<T(!new)>(p: T -> bool, a: seq<T>, x: T)
    ensures Filter(p, a + [x]) == Filter(p, a) + (if p(x) then [x] else [])
  {
    FilterConcat(p, a, [x]);
    assert [x][1..] == [];
  }

  /** Filtering a non-empty sequence is filtering all but its last element, then that
      element if it passes. */
  lemma FilterInit<T(!new)>(p: T -> bool, s: seq<T>)
    requires |s| > 0
    ensures Filter(p, s) == Filter(p, s[..|s| - 1]) + (if p(s[|s| - 1]) then [s[|s| - 1]] else [])
  {
    var init, x := s[..|s| - 1], s[|s| - 1];
    assert init + [x] == s;
    FilterSnoc(p, init, x);
  }

  /** A last element that passes is the last element kept. */
  lemma FilterKeepsLast<T(!new)>(p: T -> bool, s: seq<T>)
    requires |s| > 0 && p(s[|s| - 1])
    ensures |Filter(p, s)| > 0 && Filter(p, s)[|Filter(p, s)| - 1] == s[|s| - 1]
  {
    FilterInit(p, s);
  }

  /** Tests that agree on every element of `s` filter it alike. */
  lemma {:induction false} FilterAgree<T(!new)>(p: T -> bool, q: T -> bool, s: seq<T>)
    requires forall i :: 0 <= i < |s| ==> p(s[i]) == q(s[i])
    ensures Filter(p, s) == Filter(q, s)
  {
    if s != [] {
      FilterAgree(p, q, s[1..]);
    }
  }

  /** A test every element passes keeps the whole sequence. */
  lemma {:induction false} FilterKeepsAll<T(!new)>(p: T -> bool, s: seq<T>)
    requires forall i :: 0 <= i < |s| ==> p(s[i])
    ensures Filter(p, s) == s
  {
    if s != [] {
      FilterKeepsAll(p, s[1..]);
    }
  }

  /** The first element kept is the earliest element of the input that passes. */
  lemma {:induction false} FilterFirst<T(!new)>(p: T -> bool, s: seq<T>)
    requires Filter(p, s) != []
    ensures exists i :: 0 <= i < |s| && s[i] == Filter(p, s)[0] && p(s[i]) &&
                        forall j :: 0 <= j < i ==> !p(s[j])
  {
    if !p(s[0]) {
      FilterFirst(p, s[1..]);
      var i :| 0 <= i < |s| - 1 && s[1..][i] == Filter(p, s[1..])[0] && p(s[1..][i]) &&
               forall j :: 0 <= j < i ==> !p(s[1..][j]);
      assert forall j :: 1 <= j < i + 1 ==> s[j] == s[1..][j - 1];
      assert s[i + 1] == Filter(p, s)[0];
    } else {
      assert s[0] == Filter(p, s)[0];
    }
  }

  /** The last element kept is the latest element of the input that passes. */
  lemma {:induction false} FilterLast<T(!new)>(p: T -> bool, s: seq<T>)
    requires Filter(p, s) != []
    ensures exists i :: 0 <= i < |s| && s[i] == Filter(p, s)[|Filter(p, s)| - 1] && p(s[i]) &&
                        forall j :: i < j < |s| ==> !p(s[j])
    decreases |s|
  {
    var n := |s|;
    var init := s[..n - 1];
    var f := Filter(p, s);
    FilterInit(p, s);
    if p(s[n - 1]) {
      FilterKeepsLast(p, s);
      assert 0 <= n - 1 < |s| && s[n - 1] == f[|f| - 1] && p(s[n - 1]);
    } else {
      assert f == Filter(p, init) + [];
      assert f == Filter(p, init);
      FilterLast(p, init);
      var i :| 0 <= i < n - 1 && init[i] == f[|f| - 1] && p(init[i]) &&
               forall j :: i < j < n - 1 ==> !p(init[j]);
      forall j | i < j < n
        ensures !p(s[j])
      {
        if j < n - 1 {
          assert s[j] == init[j];
        }
      }
      assert s[i] == init[i];
      assert 0 <= i < |s| && s[i] == f[|f| - 1] && p(s[i]);
    }
  }
}
