/** Substring facts shared by the models of PHP's string builtins. */
module Strings {

  /** No character of `a` occurs anywhere in `b`. */
  predicate Disjoint(a: string, b: string) {
    forall i, j :: 0 <= i < |a| && 0 <= j < |b| ==> a[i] != b[j]
  }

  /** `q` occurs in `s` as a contiguous slice (what PHP's `strstr` looks for). */
  predicate Occurs(q: string, s: string)
    decreases |s|
  {
    q <= s || (|s| > 0 && Occurs(q, s[1..]))
  }

  /** Occurs agrees with the positional definition: some suffix of `s` starts with `q`. */
  lemma {:induction false} OccursAt(q: string, s: string)
    ensures Occurs(q, s) <==> exists i :: 0 <= i <= |s| && q <= s[i..]
    decreases |s|
  {
    if Occurs(q, s) {
      if q <= s {
        assert s[0..] == s;
      } else {
        OccursAt(q, s[1..]);
        var i :| 0 <= i <= |s[1..]| && q <= s[1..][i..];
        assert s[1..][i..] == s[i + 1..];
      }
    }
    if exists i :: 0 <= i <= |s| && q <= s[i..] {
      var i :| 0 <= i <= |s| && q <= s[i..];
      if i == 0 {
        assert s[0..] == s;
      } else {
        assert s[1..][i - 1..] == s[i..];
        OccursAt(q, s[1..]);
      }
    }
  }

  /** An occurrence in a suffix is an occurrence in the whole string. */
  lemma {:induction false} OccursInSuffix(q: string, s: string, k: nat)
    requires k <= |s|
    requires Occurs(q, s[k..])
    ensures Occurs(q, s)
    decreases k
  {
    if k > 0 {
      assert s[1..][k - 1..] == s[k..];
      OccursInSuffix(q, s[1..], k - 1);
    }
  }

  /** An occurrence of a non-empty `q` cannot start inside a prefix `a` that
      does not contain the first character of `q`, so it lies in `b`. */
  lemma {:induction false} OccursPastPrefix(q: string, a: string, b: string)
    requires |q| > 0 && forall k :: 0 <= k < |a| ==> a[k] != q[0]
    requires Occurs(q, a + b)
    ensures Occurs(q, b)
    decreases |a|
  {
    if a != [] {
      assert !(q <= a + b) by {
        assert q[0] != (a + b)[0];
      }
      assert (a + b)[1..] == a[1..] + b;
      OccursPastPrefix(q, a[1..], b);
    } else {
      assert a + b == b;
    }
  }
}
