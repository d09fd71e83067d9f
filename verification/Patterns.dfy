/** The order on patterns, and what "the longest registered prefix" means. */
module Patterns {
  import opened Bytes

  /** Length of the longest common prefix: where `strncmp` finds its difference. */
  function Agree(a: seq<byte>, b: seq<byte>): (d: nat)
    ensures d <= |a| && d <= |b| && a[..d] == b[..d]
    ensures d < |a| && d < |b| ==> a[d] != b[d]
  {
    if a == [] || b == [] || a[0] != b[0] then 0
    else
      var d := 1 + Agree(a[1..], b[1..]);
      assert a[..d] == [a[0]] + a[1..][..d - 1];
      assert b[..d] == [b[0]] + b[1..][..d - 1];
      d
  }

  /** `strncmp(a, b, n)` for strings shorter than `n`: unsigned bytes at the first difference. */
  function Compare(a: seq<byte>, b: seq<byte>): int {
    At(a, Agree(a, b)) - At(b, Agree(a, b))
  }

  ghost predicate Above(a: seq<byte>, b: seq<byte>) {
    Compare(a, b) > 0
  }

  lemma AgreeIs(a: seq<byte>, b: seq<byte>, d: nat)
    requires d <= |a| && d <= |b| && a[..d] == b[..d]
    ensures Agree(a, b) >= d
    ensures At(a, d) != At(b, d) ==> Agree(a, b) == d
  {
    var g := Agree(a, b);
    assert forall i :: 0 <= i < d ==> a[i] == a[..d][i] == b[..d][i] == b[i];
    assert forall i :: 0 <= i < g ==> a[i] == a[..g][i] == b[..g][i] == b[i];
  }

  lemma CompareSymmetric(a: seq<byte>, b: seq<byte>)
    ensures Compare(a, b) == -Compare(b, a)
    ensures Agree(a, b) == Agree(b, a)
  {
    AgreeIs(a, b, Agree(b, a));
    AgreeIs(b, a, Agree(a, b));
  }

  /** Equal for `strncmp` is equal. */
  lemma CompareZero(a: seq<byte>, b: seq<byte>)
    requires IsText(a) && IsText(b)
    ensures Compare(a, b) == 0 <==> a == b
  {
    var g := Agree(a, b);
    if a == b {
      AgreeIs(a, b, |a|);
    }
    assert a[..g] == b[..g];
  }

  lemma AboveTransitive(a: seq<byte>, b: seq<byte>, c: seq<byte>)
    requires Above(a, b) && Above(b, c)
    ensures Above(a, c)
  {
    var g, h := Agree(a, b), Agree(b, c);
    var m := if g < h then g else h;
    assert a[..m] == a[..g][..m] && c[..m] == c[..h][..m];
    assert a[..m] == b[..g][..m] == b[..m] == b[..h][..m];
    assert g <= |b|;
    if g < h {
      assert b[g] == b[..h][g] == c[..h][g] == c[g];
      AgreeIs(a, c, g);
    } else {
      if h < g {
        assert a[h] == a[..g][h] == b[..g][h] == b[h];
      }
      AgreeIs(a, c, h);
    }
  }

  /** A proper prefix stands below the string it begins. */
  lemma PrefixBelow(p: seq<byte>, s: seq<byte>)
    requires IsText(s) && p < s
    ensures Above(s, p)
  {
    assert s[..|p|] == p;
    assert p[..|p|] == p;
    AgreeIs(s, p, |p|);
  }

  /** Descending and free of duplicates: how the item array is kept. */
  ghost predicate Descending(ps: seq<seq<byte>>) {
    forall i, j :: 0 <= i < j < |ps| ==> Above(ps[i], ps[j])
  }

  ghost predicate AllText(ps: seq<seq<byte>>) {
    forall i :: 0 <= i < |ps| ==> IsText(ps[i])
  }

  /** `r` is the index of the longest pattern that is a prefix of `s`, or -1 when none is one. */
  ghost predicate IsLongest(ps: seq<seq<byte>>, s: seq<byte>, r: int) {
    && -1 <= r < |ps|
    && (r == -1 ==> forall k :: 0 <= k < |ps| ==> !(ps[k] <= s))
    && (r >= 0 ==> ps[r] <= s && forall k :: 0 <= k < |ps| && ps[k] <= s ==> |ps[k]| <= |ps[r]|)
  }

  /** There is one longest prefix at most. */
  lemma LongestUnique(ps: seq<seq<byte>>, s: seq<byte>, a: int, b: int)
    requires Descending(ps) && AllText(ps) && IsLongest(ps, s, a) && IsLongest(ps, s, b)
    ensures a == b
  {
    if a != b {
      assert a >= 0 && b >= 0;
      assert |ps[a]| == |ps[b]|;
      assert ps[a] == s[..|ps[a]|] == ps[b];
      CompareZero(ps[a], ps[b]);
      assert false;
    }
  }

  /** Two patterns whose first difference pits a byte below 128 against one above:
      the array order and the `char` comparison of the matcher disagree there. */
  ghost predicate Clash(a: seq<byte>, b: seq<byte>) {
    var d := Agree(a, b);
    d < |a| && d < |b| && (a[d] < 128) != (b[d] < 128)
  }

  ghost predicate Compatible(ps: seq<seq<byte>>) {
    forall i, j :: 0 <= i < |ps| && 0 <= j < |ps| ==> !Clash(ps[i], ps[j])
  }
}
