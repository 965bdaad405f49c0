/** Sequences of rows and the one relational operation everything else is built from: WHERE. */
module Rows {
  import opened Wrappers

  /** The rows of `s` that satisfy `p`, in their original order: what a WHERE clause keeps. */
  function Filter<T(!new)>(s: seq<T>, p: T -> bool): (r: seq<T>)
    ensures |r| <= |s|
    ensures forall x :: x in r <==> x in s && p(x)
    ensures forall x :: multiset(r)[x] == if p(x) then multiset(s)[x] else 0
    ensures (forall i :: 0 <= i < |s| ==> p(s[i])) ==> r == s
  {
    if s == [] then []
    else
      var head := if p(s[0]) then [s[0]] else [];
      var rest := Filter(s[1..], p);
      assert s == [s[0]] + s[1..];
      assert multiset(s) == multiset([s[0]]) + multiset(s[1..]);
      assert multiset(head + rest) == multiset(head) + multiset(rest);
      head + rest
  }

  /** The first row of `s`, in storage order, that satisfies `p`: what WHERE p LIMIT 1 finds. */
  function First<T>(s: seq<T>, p: T -> bool): (r: Option<T>)
    ensures r.Some? <==> exists x :: x in s && p(x)
    ensures r.Some? ==> r.value in s && p(r.value)
  {
    if s == [] then None
    else if p(s[0]) then Some(s[0])
    else First(s[1..], p)
  }

  /** The lists of `ss` one after another. */
  function Flatten<T>(ss: seq<seq<T>>): (r: seq<T>)
    ensures ss == [] ==> r == []
  {
    if ss == [] then [] else ss[0] + Flatten(ss[1..])
  }

  /** A value is in the flattened list exactly when one of the lists holds it. */
  lemma {:induction false} FlattenHas<T>(ss: seq<seq<T>>, x: T)
    ensures x in Flatten(ss) <==> exists i :: 0 <= i < |ss| && x in ss[i]
  {
    if ss != [] {
      FlattenHas(ss[1..], x);
      if x in Flatten(ss[1..]) {
        var i :| 0 <= i < |ss[1..]| && x in ss[1..][i];
        assert x in ss[i + 1];
      }
      if exists i :: 0 <= i < |ss| && x in ss[i] {
        var i :| 0 <= i < |ss| && x in ss[i];
        if i > 0 {
          assert x in ss[1..][i - 1];
        }
      }
    }
  }

  /** No value occurs twice in `s` (a primary key over whole rows). */
  predicate NoDuplicates<T(==)>(s: seq<T>) {
    forall i, j :: 0 <= i < j < |s| ==> s[i] != s[j]
  }

  /** A value stored at two positions is counted twice. */
  lemma RepeatedCountsTwice<T>(s: seq<T>, i: int, j: int)
    requires 0 <= i < j < |s| && s[i] == s[j]
    ensures multiset(s)[s[i]] >= 2
  {
    assert s == s[..j] + s[j..];
    assert s[i] in s[..j];
    assert s[j..][0] == s[j];
  }

  /** In a sequence without duplicates every value occurs at most once. */
  lemma {:induction false} NoDuplicatesCount<T>(s: seq<T>, x: T)
    requires NoDuplicates(s)
    ensures multiset(s)[x] == if x in s then 1 else 0
  {
    if s != [] {
      assert s == [s[0]] + s[1..];
      assert NoDuplicates(s[1..]) by {
        forall i, j | 0 <= i < j < |s[1..]| ensures s[1..][i] != s[1..][j] {
          assert s[1..][i] == s[i + 1] && s[1..][j] == s[j + 1];
        }
      }
      NoDuplicatesCount(s[1..], x);
      if s[0] == x {
        assert x !in s[1..] by {
          forall k | 0 <= k < |s[1..]| ensures s[1..][k] != x {
            assert s[1..][k] == s[k + 1];
          }
        }
      }
    }
  }

  /** The index-wise and the counting formulation of "no duplicates" agree. */
  lemma NoDuplicatesIffSingletons<T>(s: seq<T>)
    ensures NoDuplicates(s) <==> forall x :: multiset(s)[x] <= 1
  {
    if NoDuplicates(s) {
      forall x ensures multiset(s)[x] <= 1 {
        NoDuplicatesCount(s, x);
      }
    } else {
      var i, j :| 0 <= i < j < |s| && s[i] == s[j];
      RepeatedCountsTwice(s, i, j);
    }
  }

  /**
   * When at most one distinct row of `s` fails `p`, and it occurs once (as when `p` is "key
   * differs from k" and the key is unique), DELETE ... WHERE NOT p removes exactly one row if
   * some row fails `p`, and none otherwise.
   */
  lemma {:induction false} FilterDropsAtMostOne<T(!new)>(s: seq<T>, p: T -> bool)
    requires forall x :: !p(x) ==> multiset(s)[x] <= 1
    requires forall a, b :: a in s && b in s && !p(a) && !p(b) ==> a == b
    ensures |s| - |Filter(s, p)| == if exists x :: x in s && !p(x) then 1 else 0
  {
    if s != [] {
      var t := s[1..];
      assert s == [s[0]] + t;
      assert forall x :: multiset(t)[x] <= multiset(s)[x];
      FilterDropsAtMostOne(t, p);
      if !p(s[0]) {
        assert s[0] !in t;
        assert forall i :: 0 <= i < |t| ==> p(t[i]) by {
          forall i | 0 <= i < |t| ensures p(t[i]) {
            assert t[i] in s;
          }
        }
      } else {
        assert (exists x :: x in s && !p(x)) <==> (exists x :: x in t && !p(x));
      }
    }
  }

  /** When exactly one row `x` of `s` satisfies `p` and it occurs once, the WHERE p selection is just [x]. */
  lemma {:induction false} FilterSelectsOne<T(!new)>(s: seq<T>, p: T -> bool, x: T)
    requires x in s && p(x) && multiset(s)[x] == 1
    requires forall y :: y in s && p(y) ==> y == x
    ensures Filter(s, p) == [x]
  {
    var t := s[1..];
    assert s == [s[0]] + t;
    if s[0] == x {
      assert x !in t;
      assert forall y :: y !in Filter(t, p);
    } else {
      assert !p(s[0]);
      FilterSelectsOne(t, p, x);
    }
  }
}
