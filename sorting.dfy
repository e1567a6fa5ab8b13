/** `Array.prototype.sort(compareFn)`: a stable sort driven by a comparator that
    returns a negative number when its first argument must come first, a
    positive one when its second must, and zero when the two may stay in
    either order. Elements the comparator calls equal keep their input order
    (stability, required of `sort` since ES2019). */
module Sorting {
  import opened Seqs

  /** The comparator puts `a` strictly before `b`. */
  predicate Precedes<T>(cmp: (T, T) -> real, a: T, b: T) {
    cmp(a, b) < 0.0
  }

  /** A consistent comparator: swapping the arguments flips the sign, and
      "need not come after" is transitive. */
  ghost predicate Consistent<T(!new)>(cmp: (T, T) -> real) {
    (forall a, b :: cmp(a, b) > 0.0 <==> cmp(b, a) < 0.0) &&
    (forall a, b, d :: !Precedes(cmp, a, b) && !Precedes(cmp, b, d) ==> !Precedes(cmp, a, d))
  }

  /** `key` is what the comparator looks at: elements with the same key never precede each other. */
  ghost predicate KeyedBy<T(!new), K>(cmp: (T, T) -> real, key: T -> K) {
    forall a, b :: Precedes(cmp, a, b) ==> key(a) != key(b)
  }

  // ---------------------------------------------------------------------------
  // The sort as a function

  /** Insert `x` into `t` from the right: it moves left past every element it must precede. */
  function Insert<T>(cmp: (T, T) -> real, x: T, t: seq<T>): (r: seq<T>)
    ensures |r| == |t| + 1
    decreases |t|
  {
    if t == [] then [x]
    else if Precedes(cmp, x, t[|t| - 1]) then Insert(cmp, x, t[..|t| - 1]) + [t[|t| - 1]]
    else t + [x]
  }

  /** Insertion sort, left to right. */
  function Sort<T>(cmp: (T, T) -> real, s: seq<T>): (r: seq<T>)
    ensures |r| == |s|
    decreases |s|
  {
    if s == [] then [] else Insert(cmp, s[|s| - 1], Sort(cmp, s[..|s| - 1]))
  }

  /** No element must precede an earlier one. */
  ghost predicate Sorted<T>(cmp: (T, T) -> real, r: seq<T>) {
    forall i, j :: 0 <= i < j < |r| ==> !Precedes(cmp, r[j], r[i])
  }

  /** The elements whose key is `k`. */
  function HasKey<T, K(==)>(key: T -> K, k: K): T -> bool {
    x => key(x) == k
  }

  /** Elements with equal keys appear in `r` in the same order as in `s`. */
  ghost predicate StableWrt<T(!new), K(!new)>(key: T -> K, r: seq<T>, s: seq<T>) {
    forall k :: Filter(HasKey(key, k), r) == Filter(HasKey(key, k), s)
  }

  /** Where the insertion stops: after the last element `x` need not precede. */
  lemma {:induction false} InsertAt<T>(cmp: (T, T) -> real, x: T, t: seq<T>, j: nat)
    requires j <= |t|
    requires forall k :: j <= k < |t| ==> Precedes(cmp, x, t[k])
    requires j == 0 || !Precedes(cmp, x, t[j - 1])
    ensures Insert(cmp, x, t) == t[..j] + [x] + t[j..]
    decreases |t|
  {
    if |t| == j {
      assert t[..j] == t && t[j..] == [];
    } else {
      var init := t[..|t| - 1];
      assert forall k :: j <= k < |init| ==> init[k] == t[k];
      assert j == 0 || init[j - 1] == t[j - 1];
      InsertAt(cmp, x, init, j);
      assert init[..j] == t[..j];
      assert init[j..] + [t[|t| - 1]] == t[j..];
    }
  }

  lemma {:induction false} InsertPermutes<T>(cmp: (T, T) -> real, x: T, t: seq<T>)
    ensures |Insert(cmp, x, t)| == |t| + 1
    ensures multiset(Insert(cmp, x, t)) == multiset(t) + multiset{x}
    decreases |t|
  {
    if t != [] {
      var init := t[..|t| - 1];
      assert t == init + [t[|t| - 1]];
      InsertPermutes(cmp, x, init);
    }
  }

  lemma {:induction false} InsertSorted<T(!new)>(cmp: (T, T) -> real, x: T, t: seq<T>)
    requires Consistent(cmp)
    requires Sorted(cmp, t)
    ensures Sorted(cmp, Insert(cmp, x, t))
    decreases |t|
  {
    if t != [] {
      var n := |t|;
      var last := t[n - 1];
      var init := t[..n - 1];
      if Precedes(cmp, x, last) {
        InsertSorted(cmp, x, init);
        var u := Insert(cmp, x, init);
        InsertPermutes(cmp, x, init);
        forall i | 0 <= i < |u|
          ensures !Precedes(cmp, last, u[i])
        {
          assert u[i] in multiset(u);
          if u[i] != x {
            assert u[i] in multiset(init);
            var m :| 0 <= m < n - 1 && init[m] == u[i];
            assert t[m] == init[m];
          }
        }
        assert Insert(cmp, x, t) == u + [last];
      } else {
        forall i | 0 <= i < n
          ensures !Precedes(cmp, x, t[i])
        {
          if i < n - 1 {
            assert !Precedes(cmp, last, t[i]);
          }
        }
      }
    }
  }

  lemma {:induction false} InsertStable<T(!new), K>(cmp: (T, T) -> real, key: T -> K, x: T, t: seq<T>, k: K)
    requires forall b :: Precedes(cmp, x, b) ==> key(x) != key(b)
    ensures Filter(HasKey(key, k), Insert(cmp, x, t)) ==
            Filter(HasKey(key, k), t) + (if key(x) == k then [x] else [])
    decreases |t|
  {
    var p := HasKey(key, k);
    if t == [] {
      FilterSnoc(p, [], x);
      assert [] + [x] == [x];
    } else {
      var n := |t|;
      var last := t[n - 1];
      var init := t[..n - 1];
      assert t == init + [last];
      FilterSnoc(p, init, last);
      if Precedes(cmp, x, last) {
        InsertStable(cmp, key, x, init, k);
        FilterSnoc(p, Insert(cmp, x, init), last);
      } else {
        FilterSnoc(p, t, x);
      }
    }
  }

  /** With a consistent comparator, the sort returns a sorted permutation of its input in
      which elements with equal keys keep their input order. */
  lemma {:induction false} SortCorrect<T(!new), K(!new)>(cmp: (T, T) -> real, key: T -> K, s: seq<T>)
    requires Consistent(cmp) && KeyedBy(cmp, key)
    ensures |Sort(cmp, s)| == |s|
    ensures multiset(Sort(cmp, s)) == multiset(s)
    ensures Sorted(cmp, Sort(cmp, s))
    ensures StableWrt(key, Sort(cmp, s), s)
    decreases |s|
  {
    if s != [] {
      var n := |s|;
      var init := s[..n - 1];
      assert s == init + [s[n - 1]];
      SortCorrect(cmp, key, init);
      var t := Sort(cmp, init);
      InsertPermutes(cmp, s[n - 1], t);
      InsertSorted(cmp, s[n - 1], t);
      forall k
        ensures Filter(HasKey(key, k), Sort(cmp, s)) == Filter(HasKey(key, k), s)
      {
        InsertStable(cmp, key, s[n - 1], t, k);
        FilterSnoc(HasKey(key, k), init, s[n - 1]);
      }
    }
  }

  /** An element never precedes itself under a consistent comparator. */
  lemma PrecedesIrreflexive<T(!new)>(cmp: (T, T) -> real, x: T)
    requires Consistent(cmp)
    ensures !Precedes(cmp, x, x)
  {
    assert cmp(x, x) > 0.0 <==> cmp(x, x) < 0.0;
  }

  /** No element of the input must precede the first element of the result, and the last
      element of the result must precede none. */
  lemma SortBounds<T(!new), K(!new)>(cmp: (T, T) -> real, key: T -> K, s: seq<T>)
    requires Consistent(cmp) && KeyedBy(cmp, key) && |s| > 0
    ensures forall j :: 0 <= j < |s| ==> !Precedes(cmp, s[j], Sort(cmp, s)[0])
    ensures forall j :: 0 <= j < |s| ==> !Precedes(cmp, Sort(cmp, s)[|s| - 1], s[j])
  {
    SortCorrect(cmp, key, s);
    var r := Sort(cmp, s);
    forall j | 0 <= j < |s|
      ensures !Precedes(cmp, s[j], r[0]) && !Precedes(cmp, r[|r| - 1], s[j])
    {
      assert s[j] in multiset(r);
      var m :| 0 <= m < |r| && r[m] == s[j];
      if m == 0 {
        PrecedesIrreflexive(cmp, r[0]);
      }
      if m == |r| - 1 {
        PrecedesIrreflexive(cmp, r[m]);
      }
    }
  }

  /** The elements with the key of `x` in the sorted result, in input order. */
  lemma StableClass<T(!new), K(!new)>(cmp: (T, T) -> real, key: T -> K, s: seq<T>, x: T)
    requires Consistent(cmp) && KeyedBy(cmp, key)
    ensures Filter(HasKey(key, key(x)), Sort(cmp, s)) == Filter(HasKey(key, key(x)), s)
  {
    SortCorrect(cmp, key, s);
  }

  /** If `r` and `s` keep the elements with key `k` in the same order, the first element of
      `r` with that key is the first of `s` with it... */
  lemma FirstOfClass<T(!new), K(!new)>(key: T -> K, k: K, r: seq<T>, s: seq<T>)
    requires Filter(HasKey(key, k), r) == Filter(HasKey(key, k), s) && |r| > 0 && key(r[0]) == k
    ensures exists i :: 0 <= i < |s| && s[i] == r[0] && forall j :: 0 <= j < i ==> key(s[j]) != k
  {
    var p := HasKey(key, k);
    assert Filter(p, r)[0] == r[0];
    FilterFirst(p, s);
    var i :| 0 <= i < |s| && s[i] == Filter(p, s)[0] && p(s[i]) && forall j :: 0 <= j < i ==> !p(s[j]);
    assert forall j :: 0 <= j < i ==> key(s[j]) != k;
  }

  /** ... and the last element of `r` with it is the last of `s` with it. */
  lemma LastOfClass<T(!new), K(!new)>(key: T -> K, k: K, r: seq<T>, s: seq<T>)
    requires Filter(HasKey(key, k), r) == Filter(HasKey(key, k), s) && |r| > 0 && key(r[|r| - 1]) == k
    ensures exists i :: 0 <= i < |s| && s[i] == r[|r| - 1] && forall j :: i < j < |s| ==> key(s[j]) != k
  {
    var p := HasKey(key, k);
    var n := |r|;
    FilterKeepsLast(p, r);
    var f := Filter(p, s);
    assert f[|f| - 1] == r[n - 1];
    FilterLast(p, s);
    var i :| 0 <= i < |s| && s[i] == f[|f| - 1] && p(s[i]) && forall j :: i < j < |s| ==> !p(s[j]);
    assert forall j :: i < j < |s| ==> key(s[j]) != k;
  }

  /** The first element of the result is the earliest element of the input that nothing
      must precede. */
  lemma SortFirst<T(!new), K(!new)>(cmp: (T, T) -> real, key: T -> K, s: seq<T>)
    requires Consistent(cmp) && KeyedBy(cmp, key) && |s| > 0
    ensures exists i :: 0 <= i < |s| && s[i] == Sort(cmp, s)[0] &&
              (forall j :: 0 <= j < |s| ==> !Precedes(cmp, s[j], s[i])) &&
              (forall j :: 0 <= j < i ==> key(s[j]) != key(s[i]))
  {
    var r := Sort(cmp, s);
    StableClass(cmp, key, s, r[0]);
    FirstOfClass(key, key(r[0]), r, s);
    var i :| 0 <= i < |s| && s[i] == r[0] && forall j :: 0 <= j < i ==> key(s[j]) != key(r[0]);
    SortBounds(cmp, key, s);
  }

  /** The last element of the result is the latest element of the input that must precede
      nothing. */
  lemma SortLast<T(!new), K(!new)>(cmp: (T, T) -> real, key: T -> K, s: seq<T>)
    requires Consistent(cmp) && KeyedBy(cmp, key) && |s| > 0
    ensures exists i :: 0 <= i < |s| && s[i] == Sort(cmp, s)[|s| - 1] &&
              (forall j :: 0 <= j < |s| ==> !Precedes(cmp, s[i], s[j])) &&
              (forall j :: i < j < |s| ==> key(s[j]) != key(s[i]))
  {
    var r := Sort(cmp, s);
    var n := |r|;
    StableClass(cmp, key, s, r[n - 1]);
    LastOfClass(key, key(r[n - 1]), r, s);
    var i :| 0 <= i < |s| && s[i] == r[n - 1] && forall j :: i < j < |s| ==> key(s[j]) != key(r[n - 1]);
    SortBounds(cmp, key, s);
  }

  // ---------------------------------------------------------------------------
  // The sort in place

  /** One step of the in-place sort: `a[i]` is moved left past the elements of the sorted
      prefix `a[..i]` that it must precede. */
  method InsertInPlace<T(!new)>(cmp: (T, T) -> real, a: array<T>, i: nat)
    requires Consistent(cmp) && i < a.Length
    modifies a
    ensures a[..i + 1] == Insert(cmp, old(a[i]), old(a[..i]))
    ensures a[i + 1..] == old(a[i + 1..])
  {
    ghost var t := a[..i];
    var x := a[i];
    var j := i;
    while j > 0 && cmp(a[j - 1], x) > 0.0
      invariant 0 <= j <= i
      invariant forall k :: 0 <= k < j ==> a[k] == t[k]
      invariant forall k :: j < k <= i ==> a[k] == t[k - 1]
      invariant forall k :: i < k < a.Length ==> a[k] == old(a[k])
      invariant forall k :: j <= k < i ==> Precedes(cmp, x, t[k])
    {
      a[j] := a[j - 1];
      j := j - 1;
    }
    a[j] := x;
    InsertAt(cmp, x, t, j);
    assert a[..i + 1] == t[..j] + [x] + t[j..];
  }

  /** `a.sort(cmp)`, by insertion: each element in turn is inserted into the sorted prefix
      before it. */
  method SortInPlace<T(!new)>(cmp: (T, T) -> real, a: array<T>)
    requires Consistent(cmp)
    modifies a
    ensures a[..] == Sort(cmp, old(a[..]))
  {
    ghost var input := a[..];
    var i := 0;
    while i < a.Length
      invariant 0 <= i <= a.Length
      invariant a[..i] == Sort(cmp, input[..i])
      invariant a[i..] == input[i..]
    {
      assert input[..i + 1] == input[..i] + [input[i]];
      InsertInPlace(cmp, a, i);
      i := i + 1;
    }
    assert input[..a.Length] == input;
  }

  /** `[...s].sort(cmp)`: sorting a fresh copy leaves `s` itself untouched. */
  method SortedCopy<T(!new), K(!new)>(cmp: (T, T) -> real, ghost key: T -> K, s: seq<T>) returns (r: seq<T>)
    requires Consistent(cmp) && KeyedBy(cmp, key)
    ensures r == Sort(cmp, s)
    ensures |r| == |s| && multiset(r) == multiset(s)
    ensures Sorted(cmp, r) && StableWrt(key, r, s)
  {
    var a := new T[|s|](i requires 0 <= i < |s| => s[i]);
    assert a[..] == s;
    SortInPlace(cmp, a);
    r := a[..];
    SortCorrect(cmp, key, s);
  }
}
