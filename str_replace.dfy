/** PHP's `str_replace`, as used by the `html2escpos` filter: a single-pattern
    pass, and the array form that runs one pass per search entry, in order. */
module Replace {
  import opened Strings

  /** One pass of `str_replace($search, $replace, $subject)` with string
      arguments: scan left to right and replace every non-overlapping
      occurrence of `search`; the scan resumes after each replaced match.
      An empty search string leaves the subject unchanged. */
  function ReplaceAll(subject: string, search: string, replace: string): string
    decreases |subject|
  {
    if search == [] || subject == [] then subject
    else if search <= subject then replace + ReplaceAll(subject[|search|..], search, replace)
    else [subject[0]] + ReplaceAll(subject[1..], search, replace)
  }

  /** The number of replacements one pass performs. */
  function Matches(subject: string, search: string): nat
    decreases |subject|
  {
    if search == [] || subject == [] then 0
    else if search <= subject then 1 + Matches(subject[|search|..], search)
    else Matches(subject[1..], search)
  }

  /** The array form `str_replace(array $search, array $replace, $subject)`:
      each search entry is replaced, in array order, in the result of the
      previous pass; a search entry without a matching replacement entry is
      replaced by the empty string. */
  function StrReplace(search: seq<string>, replace: seq<string>, subject: string): string
    decreases |search|
  {
    if search == [] then subject
    else
      var rep := if replace == [] then "" else replace[0];
      var rest := if replace == [] then [] else replace[1..];
      StrReplace(search[1..], rest, ReplaceAll(subject, search[0], rep))
  }

  /** Each replacement exchanges |search| characters for |replace| ones. */
  lemma {:induction false} ReplaceAllLength(s: string, p: string, r: string)
    ensures |ReplaceAll(s, p, r)| + Matches(s, p) * |p| == |s| + Matches(s, p) * |r|
    decreases |s|
  {
    if p == [] || s == [] {
    } else if p <= s {
      var tail := ReplaceAll(s[|p|..], p, r);
      var m := Matches(s[|p|..], p);
      ReplaceAllLength(s[|p|..], p, r);
      assert |ReplaceAll(s, p, r)| == |r| + |tail|;
      assert Matches(s, p) == m + 1;
      MulSucc(m, |p|);
      MulSucc(m, |r|);
    } else {
      ReplaceAllLength(s[1..], p, r);
    }
  }

  /** A subject without an occurrence of the pattern is returned unchanged. */
  lemma {:induction false} ReplaceAllAbsent(s: string, p: string, r: string)
    requires !Occurs(p, s)
    ensures ReplaceAll(s, p, r) == s && Matches(s, p) == 0
    decreases |s|
  {
    if p != [] && s != [] {
      assert s == [s[0]] + s[1..];
      ReplaceAllAbsent(s[1..], p, r);
    }
  }

  /** A prefix that shares no character with the replacement, found in the
      output, was already a prefix of the subject. */
  lemma {:induction false} ReplaceAllPrefix(q: string, s: string, p: string, r: string)
    requires |r| > 0 && Disjoint(q, r)
    requires q <= ReplaceAll(s, p, r)
    ensures q <= s
    decreases |s|
  {
    if p == [] || s == [] || q == [] {
    } else if p <= s {
      HeadOfPrefix(q, r, ReplaceAll(s[|p|..], p, r));
      assert false;
    } else {
      var tail := ReplaceAll(s[1..], p, r);
      assert q[1..] <= tail;
      ReplaceAllPrefix(q[1..], s[1..], p, r);
      assert q == [q[0]] + q[1..];
      assert s == [s[0]] + s[1..];
    }
  }

  /** A pass whose replacement shares no character with `q` creates no new
      occurrence of `q`: matches cannot straddle a replacement. */
  lemma {:induction false} ReplaceAllCreatesNothing(s: string, p: string, r: string, q: string)
    requires |r| > 0 && Disjoint(q, r)
    requires Occurs(q, ReplaceAll(s, p, r))
    ensures Occurs(q, s)
    decreases |s|
  {
    if p == [] || s == [] || q == [] {
    } else if p <= s {
      var tail := ReplaceAll(s[|p|..], p, r);
      OccursPastPrefix(q, r, tail);
      ReplaceAllCreatesNothing(s[|p|..], p, r, q);
      OccursInSuffix(q, s, |p|);
    } else {
      var tail := ReplaceAll(s[1..], p, r);
      if q <= [s[0]] + tail {
        assert q[1..] <= tail;
        ReplaceAllPrefix(q[1..], s[1..], p, r);
        assert q == [q[0]] + q[1..];
        assert s == [s[0]] + s[1..];
      } else {
        assert ([s[0]] + tail)[1..] == tail;
        ReplaceAllCreatesNothing(s[1..], p, r, q);
      }
    }
  }

  /** After a pass no occurrence of the search string is left, provided the
      replacement is non-empty and shares no character with it. */
  lemma {:induction false} ReplaceAllRemoves(s: string, p: string, r: string)
    requires |p| > 0 && |r| > 0 && Disjoint(p, r)
    ensures !Occurs(p, ReplaceAll(s, p, r))
    decreases |s|
  {
    if s == [] {
    } else if p <= s {
      var tail := ReplaceAll(s[|p|..], p, r);
      ReplaceAllRemoves(s[|p|..], p, r);
      if Occurs(p, r + tail) {
        OccursPastPrefix(p, r, tail);
      }
    } else {
      var tail := ReplaceAll(s[1..], p, r);
      ReplaceAllRemoves(s[1..], p, r);
      if p <= [s[0]] + tail {
        assert p[1..] <= tail;
        assert Disjoint(p[1..], r) by {
          forall i, j | 0 <= i < |p[1..]| && 0 <= j < |r| ensures p[1..][i] != r[j] {
            assert p[1..][i] == p[i + 1];
          }
        }
        ReplaceAllPrefix(p[1..], s[1..], p, r);
        assert false;
      }
      assert ([s[0]] + tail)[1..] == tail;
    }
  }

  /** The replacement table of an array `str_replace` that is safe to chain:
      as many replacements as search strings, all non-empty, and no
      replacement shares a character with any search string. */
  predicate ChainSafe(search: seq<string>, replace: seq<string>) {
    |search| == |replace| &&
    (forall i :: 0 <= i < |search| ==> |search[i]| > 0 && |replace[i]| > 0) &&
    (forall i, j :: 0 <= i < |search| && 0 <= j < |replace| ==> Disjoint(search[i], replace[j]))
  }

  /** Later passes of a chain-safe table never create an occurrence of an
      earlier search string. */
  lemma {:induction false} StrReplaceCreatesNothing(search: seq<string>, replace: seq<string>, s: string, q: string)
    requires |search| == |replace|
    requires forall j :: 0 <= j < |replace| ==> |replace[j]| > 0 && Disjoint(q, replace[j])
    requires Occurs(q, StrReplace(search, replace, s))
    ensures Occurs(q, s)
    decreases |search|
  {
    if search != [] {
      var s1 := ReplaceAll(s, search[0], replace[0]);
      StrReplaceCreatesNothing(search[1..], replace[1..], s1, q);
      ReplaceAllCreatesNothing(s, search[0], replace[0], q);
    }
  }

  /** The array form leaves none of its search strings in the result. */
  lemma {:induction false} StrReplaceRemovesAll(search: seq<string>, replace: seq<string>, s: string)
    requires ChainSafe(search, replace)
    ensures forall q :: q in search ==> !Occurs(q, StrReplace(search, replace, s))
    decreases |search|
  {
    if search != [] {
      var s1 := ReplaceAll(s, search[0], replace[0]);
      assert ChainSafe(search[1..], replace[1..]) by {
        forall i, j | 0 <= i < |search[1..]| && 0 <= j < |replace[1..]|
          ensures Disjoint(search[1..][i], replace[1..][j])
        {
          assert search[1..][i] == search[i + 1] && replace[1..][j] == replace[j + 1];
        }
      }
      StrReplaceRemovesAll(search[1..], replace[1..], s1);
      ReplaceAllRemoves(s, search[0], replace[0]);
      if Occurs(search[0], StrReplace(search, replace, s)) {
        StrReplaceCreatesNothing(search[1..], replace[1..], s1, search[0]);
      }
      forall q | q in search ensures !Occurs(q, StrReplace(search, replace, s)) {
        if q != search[0] {
          assert q in search[1..];
        }
      }
    }
  }

  /** The array form leaves alone a subject in which none of its search
      strings occurs. */
  lemma {:induction false} StrReplaceAbsent(search: seq<string>, replace: seq<string>, s: string)
    requires forall i :: 0 <= i < |search| ==> !Occurs(search[i], s)
    ensures StrReplace(search, replace, s) == s
    decreases |search|
  {
    if search != [] {
      var rep := if replace == [] then "" else replace[0];
      ReplaceAllAbsent(s, search[0], rep);
      forall i | 0 <= i < |search[1..]| ensures !Occurs(search[1..][i], s) {
        assert search[1..][i] == search[i + 1];
      }
      StrReplaceAbsent(search[1..], if replace == [] then [] else replace[1..], s);
    }
  }

  /** When no replacement is longer than its search string, the array form
      never lengthens the subject. */
  lemma {:induction false} StrReplaceShrinks(search: seq<string>, replace: seq<string>, s: string)
    requires |search| == |replace|
    requires forall i :: 0 <= i < |search| ==> |replace[i]| <= |search[i]|
    ensures |StrReplace(search, replace, s)| <= |s|
    decreases |search|
  {
    if search != [] {
      var s1 := ReplaceAll(s, search[0], replace[0]);
      ReplaceAllLength(s, search[0], replace[0]);
      var m := Matches(s, search[0]);
      assert m * |replace[0]| <= m * |search[0]| by {
        MulMonotone(m, |replace[0]|, |search[0]|);
      }
      StrReplaceShrinks(search[1..], replace[1..], s1);
    }
  }

  lemma HeadOfPrefix(q: string, a: string, b: string)
    requires |q| > 0 && |a| > 0 && q <= a + b
    ensures q[0] == a[0]
  {
    assert q[0] == (a + b)[0];
  }

  lemma MulSucc(m: nat, a: nat)
    ensures (m + 1) * a == m * a + a
  {
  }

  lemma MulMonotone(m: nat, a: nat, b: nat)
    requires a <= b
    ensures m * a <= m * b
  {
  }
}
