/** String operations the dashboard and its maintenance scripts rely on:
    substring search (`String.prototype.includes`), global replacement of a
    literal pattern (`replace(/pattern/g, rep)`) and ASCII lower-casing
    (`toLowerCase`). */
module Text {

  /** `t` begins with `w`. */
  predicate StartsWith(t: string, w: string) {
    |w| <= |t| && t[..|w|] == w
  }

  /** `t.includes(q)`: `q` occurs somewhere in `t` (the empty string occurs everywhere). */
  predicate Occurs(t: string, q: string)
    decreases |t|
  {
    StartsWith(t, q) || (|t| > 0 && Occurs(t[1..], q))
  }

  /** `s.replace(/p/g, r)` for a literal, non-empty pattern `p`: scan from the
      left; at a position where `p` starts, emit `r` and continue after the
      match; elsewhere copy one character. */
  function ReplaceAll(s: string, p: string, r: string): string
    requires |p| > 0
    decreases |s|
  {
    if StartsWith(s, p) then r + ReplaceAll(s[|p|..], p, r)
    else if s == [] then []
    else [s[0]] + ReplaceAll(s[1..], p, r)
  }

  /** `toLowerCase` on one character, restricted to ASCII letters. */
  function LowerChar(c: char): char {
    if 'A' <= c <= 'Z' then (c as int + 32) as char else c
  }

  /** `toLowerCase` on a string, character by character. */
  function Lower(s: string): (r: string)
    ensures |r| == |s|
    ensures forall i :: 0 <= i < |s| ==> !('A' <= r[i] <= 'Z')
    ensures forall i :: 0 <= i < |s| && !('A' <= s[i] <= 'Z') ==> r[i] == s[i]
  {
    seq(|s|, i requires 0 <= i < |s| => LowerChar(s[i]))
  }

  // ---------------------------------------------------------------------------
  // Substring search

  lemma StartsWithSplit(t: string, w: string)
    requires |w| > 0
    ensures StartsWith(t, w) <==> |t| > 0 && t[0] == w[0] && StartsWith(t[1..], w[1..])
  {
    if |t| > 0 && |w| <= |t| {
      assert t[..|w|] == [t[0]] + t[1..][..|w| - 1];
      assert w == [w[0]] + w[1..];
    }
  }

  /** `Occurs` agrees with the positional definition of a substring. */
  lemma {:induction false} OccursAt(t: string, q: string)
    ensures Occurs(t, q) <==> exists i :: 0 <= i <= |t| && StartsWith(t[i..], q)
    decreases |t|
  {
    if StartsWith(t, q) {
      assert t[0..] == t;
    } else if |t| > 0 {
      OccursAt(t[1..], q);
      if exists i :: 0 <= i <= |t| && StartsWith(t[i..], q) {
        var i :| 0 <= i <= |t| && StartsWith(t[i..], q);
        assert i != 0;
        assert t[1..][i - 1..] == t[i..];
      }
      if Occurs(t[1..], q) {
        var i :| 0 <= i <= |t| - 1 && StartsWith(t[1..][i..], q);
        assert t[1..][i..] == t[i + 1..];
      }
    } else {
      assert forall i :: 0 <= i <= |t| ==> t[i..] == t;
    }
  }

  /** The empty string is found in every string. */
  lemma OccursEmpty(t: string)
    ensures Occurs(t, "")
  {
    assert StartsWith(t, "");
  }

  /** An occurrence in a suffix is an occurrence in the whole text. */
  lemma {:induction false} OccursInSuffix(t: string, q: string, d: nat)
    requires d <= |t| && Occurs(t[d..], q)
    ensures Occurs(t, q)
    decreases d
  {
    if d > 0 {
      assert t[1..][d - 1..] == t[d..];
      OccursInSuffix(t[1..], q, d - 1);
    }
  }

  /** Where `q` occurs, so does every suffix of `q`. */
  lemma {:induction false} OccursSuffixOfPattern(t: string, q: string, d: nat)
    requires d <= |q|
    ensures Occurs(t, q) ==> Occurs(t, q[d..])
    decreases |t|
  {
    if StartsWith(t, q) {
      assert t[d..][..|q| - d] == q[d..];
      assert StartsWith(t[d..], q[d..]);
      OccursInSuffix(t, q[d..], d);
    } else if |t| > 0 {
      OccursSuffixOfPattern(t[1..], q, d);
    }
  }

  /** One differing position rules a prefix out. */
  lemma StartsWithMismatch(t: string, w: string, i: nat)
    requires i < |w| && i < |t| && t[i] != w[i]
    ensures !StartsWith(t, w)
  {
    if |w| <= |t| {
      assert t[..|w|][i] == t[i];
    }
  }

  /** A text lacking one of the pattern's characters does not contain the pattern. */
  lemma AbsentWithout(t: string, q: string, k: nat)
    requires k < |q| && q[k] !in t
    ensures !Occurs(t, q)
  {
    OccursAt(t, q);
  }

  /** A text that does not start with the pattern, and whose tail lacks one of the
      pattern's characters, does not contain it. */
  lemma AbsentPastHead(t: string, q: string, k: nat)
    requires |t| > 0 && !StartsWith(t, q) && k < |q| && q[k] !in t[1..]
    ensures !Occurs(t, q)
  {
    AbsentWithout(t[1..], q, k);
  }

  /** An occurrence of `q` in `a + b` either starts inside `a` or lies in `b`. */
  lemma {:induction false} OccursConcat(a: string, b: string, q: string)
    requires Occurs(a + b, q)
    ensures (exists k :: 0 <= k < |a| && StartsWith(a[k..] + b, q)) || Occurs(b, q)
    decreases |a|
  {
    if a == [] {
      assert a + b == b;
    } else if StartsWith(a + b, q) {
      assert a[0..] + b == a + b;
    } else {
      assert (a + b)[1..] == a[1..] + b;
      OccursConcat(a[1..], b, q);
      if exists k :: 0 <= k < |a| - 1 && StartsWith(a[1..][k..] + b, q) {
        var k :| 0 <= k < |a| - 1 && StartsWith(a[1..][k..] + b, q);
        assert a[1..][k..] == a[k + 1..];
      }
    }
  }

  // ---------------------------------------------------------------------------
  // Global replacement

  /** Text without the pattern is returned unchanged. */
  lemma {:induction false} ReplaceAllAbsent(s: string, p: string, r: string)
    requires |p| > 0 && !Occurs(s, p)
    ensures ReplaceAll(s, p, r) == s
    decreases |s|
  {
    if s != [] {
      ReplaceAllAbsent(s[1..], p, r);
    }
  }

  /** If the replacement starts with a character that `w` never uses, the
      output can begin with `w` only where the input already did. */
  lemma {:induction false} ReplaceAllPrefix(x: string, p: string, r: string, w: string)
    requires |p| > 0 && |r| > 0
    requires forall i :: 0 <= i < |w| ==> w[i] != r[0]
    requires StartsWith(ReplaceAll(x, p, r), w)
    ensures StartsWith(x, w)
    decreases |x|
  {
    if |w| > 0 {
      var out := ReplaceAll(x, p, r);
      StartsWithSplit(out, w);
      if StartsWith(x, p) {
        assert false;
      } else if x == [] {
      } else {
        assert out == [x[0]] + ReplaceAll(x[1..], p, r);
        assert out[1..] == ReplaceAll(x[1..], p, r);
        ReplaceAllPrefix(x[1..], p, r, w[1..]);
        StartsWithSplit(x, w);
      }
    }
  }

  /** No suffix of `r` (starting inside `r`) is a prefix of `q`, and `q` begins
      at no position of `r`: an occurrence of `q` can never start inside a
      copy of `r`, whatever follows it. */
  predicate NoOverlap(r: string, q: string) {
    forall k :: 0 <= k < |r| ==> !StartsWith(r[k..], q) && !StartsWith(q, r[k..])
  }

  /** Whatever follows it, a text that starts with `q` and begins with `u`
      either has `q` inside `u` or `u` inside `q`. */
  lemma StartsWithConcat(u: string, t: string, q: string)
    requires StartsWith(u + t, q)
    ensures StartsWith(u, q) || StartsWith(q, u)
  {
    if |q| <= |u| {
      assert (u + t)[..|q|] == u[..|q|];
    } else {
      assert q[..|u|] == (u + t)[..|q|][..|u|];
      assert (u + t)[..|q|][..|u|] == u;
    }
  }

  /** `r` and `q` do not overlap when they differ at some position `i` both have and the
      first character of `q` occurs in `r` only at its start. */
  lemma NoOverlapFromHead(r: string, q: string, i: nat)
    requires i < |r| && i < |q| && r[i] != q[i]
    requires q[0] !in r[1..]
    ensures NoOverlap(r, q)
  {
    StartsWithMismatch(r, q, i);
    StartsWithMismatch(q, r, i);
    forall k | 0 <= k < |r|
      ensures !StartsWith(r[k..], q) && !StartsWith(q, r[k..])
    {
      if k == 0 {
        assert r[k..] == r;
      } else {
        assert r[k] == r[1..][k - 1];
        StartsWithMismatch(r[k..], q, 0);
        StartsWithMismatch(q, r[k..], 0);
      }
    }
  }

  lemma NoStartInside(r: string, t: string, q: string, k: nat)
    requires NoOverlap(r, q) && k < |r|
    ensures !StartsWith(r[k..] + t, q)
  {
    if StartsWith(r[k..] + t, q) {
      StartsWithConcat(r[k..], t, q);
      assert false;
    }
  }

  /** The heart of the sanitiser proofs: after `ReplaceAll(s, p, r)`, the text `q`
      does not occur, provided `q` is the pattern itself (every occurrence is
      consumed) or did not occur before, and no copy of `r` can start or extend
      an occurrence of `q`. */
  lemma {:induction false} ReplaceAllAvoids(s: string, p: string, r: string, q: string)
    requires |p| > 0 && |r| > 0 && |q| > 0
    requires forall i :: 1 <= i < |q| ==> q[i] != r[0]
    requires NoOverlap(r, q)
    requires q == p || !Occurs(s, q)
    ensures !Occurs(ReplaceAll(s, p, r), q)
    decreases |s|
  {
    var out := ReplaceAll(s, p, r);
    if StartsWith(s, p) {
      var rest := s[|p|..];
      if q != p && Occurs(rest, q) {
        OccursInSuffix(s, q, |p|);
      }
      ReplaceAllAvoids(rest, p, r, q);
      var tail := ReplaceAll(rest, p, r);
      assert out == r + tail;
      if Occurs(out, q) {
        OccursConcat(r, tail, q);
        if exists k :: 0 <= k < |r| && StartsWith(r[k..] + tail, q) {
          var k :| 0 <= k < |r| && StartsWith(r[k..] + tail, q);
          NoStartInside(r, tail, q, k);
        }
        assert false;
      }
    } else if s == [] {
    } else {
      var tail := ReplaceAll(s[1..], p, r);
      ReplaceAllAvoids(s[1..], p, r, q);
      assert out == [s[0]] + tail;
      assert out[1..] == tail;
      if StartsWith(out, q) {
        StartsWithSplit(out, q);
        assert forall i :: 0 <= i < |q[1..]| ==> q[1..][i] != r[0];
        ReplaceAllPrefix(s[1..], p, r, q[1..]);
        StartsWithSplit(s, q);
        assert false;
      }
    }
  }

  /** Replacing `p` by `r` and then `r` by `p` restores text in which `r` did
      not occur. */
  lemma {:induction false} ReplaceAllInverse(s: string, p: string, r: string)
    requires |p| > 0 && |r| > 0
    requires forall i :: 1 <= i < |r| ==> r[i] != r[0]
    requires !Occurs(s, r)
    ensures ReplaceAll(ReplaceAll(s, p, r), r, p) == s
    decreases |s|
  {
    var out := ReplaceAll(s, p, r);
    if StartsWith(s, p) {
      var rest := s[|p|..];
      if Occurs(rest, r) {
        OccursInSuffix(s, r, |p|);
      }
      ReplaceAllInverse(rest, p, r);
      var tail := ReplaceAll(rest, p, r);
      assert out == r + tail;
      assert StartsWith(out, r);
      assert out[|r|..] == tail;
      assert s == p + rest;
    } else if s == [] {
    } else {
      var tail := ReplaceAll(s[1..], p, r);
      ReplaceAllInverse(s[1..], p, r);
      assert out == [s[0]] + tail;
      assert out[1..] == tail;
      if StartsWith(out, r) {
        StartsWithSplit(out, r);
        assert forall i :: 0 <= i < |r[1..]| ==> r[1..][i] != r[0];
        ReplaceAllPrefix(s[1..], p, r, r[1..]);
        StartsWithSplit(s, r);
        assert false;
      }
      assert s == [s[0]] + s[1..];
    }
  }

  // ---------------------------------------------------------------------------
  // Lower-casing

  /** Lower-casing is idempotent. */
  lemma LowerIdempotent(s: string)
    ensures Lower(Lower(s)) == Lower(s)
  {
  }
}
