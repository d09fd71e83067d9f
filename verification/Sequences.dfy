/** Sequences that stand for lists of objects: each at most once, and with some of them taken out. */
module Sequences {
  ghost predicate Distinct<T>(s: seq<T>) {
    forall i, j :: 0 <= i < j < |s| ==> s[i] != s[j]
  }

  /** A list without one element. */
  function Sans<T(==)>(s: seq<T>, x: T): seq<T> {
    if s == [] then [] else (if s[0] == x then [] else [s[0]]) + Sans(s[1..], x)
  }

  /** A list without some elements. */
  function Without<T(==)>(s: seq<T>, gone: set<T>): seq<T> {
    if s == [] then [] else (if s[0] in gone then [] else [s[0]]) + Without(s[1..], gone)
  }

  lemma {:induction false} SansMember<T>(s: seq<T>, x: T, y: T)
    ensures y in Sans(s, x) <==> y in s && y != x
  {
    if s == [] {
    } else {
      SansMember(s[1..], x, y);
      assert y in s <==> y == s[0] || y in s[1..];
    }
  }

  lemma {:induction false} SansAbsent<T>(s: seq<T>, x: T)
    requires x !in s
    ensures Sans(s, x) == s
  {
    if s == [] {
    } else {
      SansAbsent(s[1..], x);
    }
  }

  lemma {:induction false} SansDistinct<T>(s: seq<T>, x: T)
    requires Distinct(s)
    ensures Distinct(Sans(s, x))
  {
    if s == [] {
    } else {
      SansDistinct(s[1..], x);
      assert s[0] !in s[1..];
      SansMember(s[1..], x, s[0]);
      var rest := Sans(s[1..], x);
      if s[0] != x { assert forall i :: 0 < i <= |rest| ==> ([s[0]] + rest)[i] == rest[i - 1]; }
    }
  }

  lemma NoneTwice<T>()
    ensures Distinct<T>([])
  {
  }

  lemma JoinedDistinct<T>(s: seq<T>, x: T)
    requires Distinct(s) && x !in s
    ensures Distinct([x] + s) && Distinct(s + [x])
  {
    var h := [x] + s;
    assert forall i :: 0 < i < |h| ==> h[i] == s[i - 1] && h[i] in s;
  }

  /** Taking out what stands between `a` and `b`. */
  lemma {:induction false} SansMiddle<T>(a: seq<T>, x: T, b: seq<T>)
    requires Distinct(a + [x] + b)
    ensures Sans(a + [x] + b, x) == a + b
  {
    var s := a + [x] + b;
    if a == [] {
      assert s[1..] == b;
      assert forall i :: 0 <= i < |b| ==> b[i] == s[i + 1] && s[i + 1] != s[0];
      SansAbsent(b, x);
    } else {
      assert s[1..] == a[1..] + [x] + b;
      assert s[0] == a[0] && s[|a|] == x;
      SansMiddle(a[1..], x, b);
      assert [a[0]] + (a[1..] + b) == a + b;
    }
  }

  /** Several lists, after one element has left or joined one of them. */
  function Leaving<T(==)>(ls: seq<seq<T>>, i: nat, x: T): (r: seq<seq<T>>)
    requires i < |ls|
    ensures |r| == |ls|
  {
    ls[i := Sans(ls[i], x)]
  }

  function AtHead<T>(ls: seq<seq<T>>, i: nat, x: T): (r: seq<seq<T>>)
    requires i < |ls|
    ensures |r| == |ls|
  {
    ls[i := [x] + ls[i]]
  }

  function AtTail<T>(ls: seq<seq<T>>, i: nat, x: T): (r: seq<seq<T>>)
    requires i < |ls|
    ensures |r| == |ls|
  {
    ls[i := ls[i] + [x]]
  }

  lemma Regroup<T>(a: seq<T>, x: T, b: seq<T>)
    ensures a + ([x] + b) == a + [x] + b && (a + []) + b == a + b
  {
  }

  /** A list still ends with what comes in `was` from its `k`-th element on. */
  ghost predicate EndsWith<T>(s: seq<T>, was: seq<T>, k: nat) {
    k <= |was| && |was| - k <= |s| && s[|s| - (|was| - k)..] == was[k..]
  }

  lemma InMiddle<T>(s: seq<T>, was: seq<T>, k: nat)
    requires EndsWith(s, was, k) && k < |was|
    ensures s == s[..|s| - (|was| - k)] + [was[k]] + was[k + 1..]
  {
    var n := |s| - (|was| - k);
    assert s[n..] == was[k..] == [was[k]] + was[k + 1..];
    assert s == s[..n] + s[n..];
    Regroup(s[..n], was[k], was[k + 1..]);
  }

  lemma EndsWithBoth<T>(a: seq<T>, x: T, b: seq<T>)
    ensures (a + [x] + b)[|a| + 1..] == b && (a + b)[|a|..] == b && ([x] + (a + b))[|a| + 1..] == b
  {
  }

  lemma {:induction false} WithoutAnother<T>(s: seq<T>, gone: set<T>, x: T)
    ensures Sans(Without(s, gone), x) == Without(s, gone + {x})
  {
    if s == [] {
    } else {
      WithoutAnother(s[1..], gone, x);
      if s[0] in gone {
        assert Without(s, gone) == Without(s[1..], gone);
      } else {
        SansFirst(s[0], Without(s[1..], gone), x);
      }
    }
  }

  lemma SansFirst<T>(y: T, s: seq<T>, x: T)
    ensures Sans([y] + s, x) == (if y == x then [] else [y]) + Sans(s, x)
  {
    assert ([y] + s)[1..] == s;
  }

  lemma {:induction false} WithoutNothing<T>(s: seq<T>)
    ensures Without(s, {}) == s
  {
    if s == [] {
    } else {
      WithoutNothing(s[1..]);
    }
  }
}
