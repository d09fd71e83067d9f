/** When the search answers the longest registered prefix. */
module TrieCorrect {
  import opened Bytes
  import opened Patterns
  import opened Trie

  /** The state of the search: `str` begins like the range, and every longer candidate is in it. */
  ghost predicate OnTrack(ps: seq<seq<byte>>, str: seq<byte>, d: nat, s: int, e: int) {
    && Range(ps, d, s, e)
    && ps[s][..d] <= str
    && forall k :: 0 <= k < |ps| && ps[k] <= str && |ps[k]| > d ==> s <= k <= e
  }

  /** Prefixes of one string stand in the order of their lengths. */
  lemma LongerFirst(ps: seq<seq<byte>>, str: seq<byte>, i: int, j: int)
    requires Descending(ps) && AllText(ps)
    requires 0 <= i < |ps| && 0 <= j < |ps| && ps[i] <= str && ps[j] <= str && |ps[i]| < |ps[j]|
    ensures j < i
  {
    assert ps[i] == str[..|ps[i]|] && ps[j] == str[..|ps[j]|];
    PrefixBelow(ps[i], ps[j]);
    CompareSymmetric(ps[i], ps[j]);
  }

  /** Stuck with no longer candidate left, the fall-back of any pattern of the range is right. */
  lemma StuckIsLongest(ps: seq<seq<byte>>, str: seq<byte>, d: nat, s: int, e: int, m: int)
    requires Descending(ps) && AllText(ps) && OnTrack(ps, str, d, s, e) && s <= m <= e && |ps[m]| > d
    requires forall k :: s <= k <= e && ps[k] <= str ==> |ps[k]| <= d
    ensures IsLongest(ps, str, Fallback(ps, m, d, m + 1))
  {
    hide Descending, AllText, Compare;
    var r := Fallback(ps, m, d, m + 1);
    assert ps[m][..d] == ps[s][..d] == str[..d];
    assert r >= 0 ==> ps[r] == ps[m][..d][..|ps[r]|] == str[..d][..|ps[r]|];
    forall k | 0 <= k < |ps| && ps[k] <= str
      ensures r >= 0 && |ps[k]| <= |ps[r]|
    {
      assert |ps[k]| <= d;
      assert ps[k] == str[..d][..|ps[k]|] == ps[m][..d][..|ps[k]|] == ps[m][..|ps[k]|];
      LongerFirst(ps, ps[m], k, m);
      if r >= 0 && |ps[k]| > |ps[r]| {
        LongerFirst(ps, str, r, k);
      }
    }
  }

  lemma EndedIsLongest(ps: seq<seq<byte>>, str: seq<byte>, d: nat, s: int, e: int)
    requires Descending(ps) && AllText(ps) && OnTrack(ps, str, d, s, e) && At(ps[s], d) == 0
    ensures IsLongest(ps, str, s)
  {
    assert |ps[s]| == d && ps[s] == ps[s][..d];
    if s < e { RangeOrder(ps, d, s, e, s, e); }
  }

  /** Equal bytes at depth `d`: every longer candidate is in the center group. */
  lemma DescendsOnTrack(ps: seq<seq<byte>>, str: seq<byte>, d: nat, s: int, e: int, bs: int, be: int)
    requires OnTrack(ps, str, d, s, e) && GroupSplits(ps, d, s, e, bs, be)
    requires At(str, d) == At(ps[bs], d)
    ensures OnTrack(ps, str, d + 1, bs, be)
  {
    assert ps[bs][..d] == str[..d];
    assert ps[bs][..d + 1] == ps[bs][..d] + [ps[bs][d]] == str[..d + 1];
    forall k | 0 <= k < |ps| && ps[k] <= str && |ps[k]| > d + 1
      ensures bs <= k <= be
    {
      assert ps[k][d] == str[d];
    }
  }

  /** With no clash, the `char` comparison sends every longer candidate to the side it is on. */
  lemma RightSide(ps: seq<seq<byte>>, str: seq<byte>, d: nat, s: int, e: int, bs: int, be: int, k: int)
    requires OnTrack(ps, str, d, s, e) && GroupSplits(ps, d, s, e, bs, be) && Compatible(ps)
    requires s <= k <= e && ps[k] <= str && |ps[k]| > d && At(str, d) != At(ps[bs], d)
    ensures Signed(At(str, d)) > Signed(At(ps[bs], d)) <==> k < bs
    ensures Signed(At(str, d)) < Signed(At(ps[bs], d)) <==> k > be
  {
    assert ps[k][d] == str[d];
    AgreeIs(ps[k], ps[bs], d);
    assert !Clash(ps[k], ps[bs]);
  }

  /** Different bytes: the search goes on where every longer candidate is, or is stuck for good. */
  lemma SideOnTrack(ps: seq<seq<byte>>, str: seq<byte>, d: nat, s: int, e: int, bs: int, be: int)
    requires Descending(ps) && AllText(ps) && Compatible(ps)
    requires OnTrack(ps, str, d, s, e) && GroupSplits(ps, d, s, e, bs, be)
    requires At(str, d) != At(ps[bs], d)
    ensures var c, pc := Signed(At(str, d)), Signed(At(ps[bs], d));
      && (c > pc ==> if bs > s then OnTrack(ps, str, d, s, bs - 1) else IsLongest(ps, str, Fallback(ps, bs, d, bs + 1)))
      && (c < pc ==> if be < e then OnTrack(ps, str, d, be + 1, e) else IsLongest(ps, str, Fallback(ps, bs, d, bs + 1)))
  {
    hide Descending, AllText, Compatible, IsLongest, Fallback;
    var c, pc := Signed(At(str, d)), Signed(At(ps[bs], d));
    forall k | s <= k <= e && ps[k] <= str && |ps[k]| > d
      ensures if c > pc then k < bs else k > be
    {
      RightSide(ps, str, d, s, e, bs, be, k);
    }
    if (c > pc && bs == s) || (c < pc && be == e) {
      StuckIsLongest(ps, str, d, s, e, bs);
    }
  }

  lemma SplitsBounds(ps: seq<seq<byte>>, d: nat, s: int, e: int, bs: int, be: int)
    requires GroupSplits(ps, d, s, e, bs, be)
    ensures 0 <= s <= bs <= be <= e < |ps| && d < |ps[bs]|
    ensures Range(ps, d + 1, bs, be) && (bs > s ==> Range(ps, d, s, bs - 1)) && (be < e ==> Range(ps, d, be + 1, e))
  {
  }

  /** On a set of patterns without clashes the search finds the longest prefix. */
  lemma {:induction false} SearchIsLongest(ps: seq<seq<byte>>, max: nat, str: seq<byte>, d: nat, s: int, e: int)
    requires Descending(ps) && AllText(ps) && Compatible(ps) && OnTrack(ps, str, d, s, e)
    requires forall k :: 0 <= k < |ps| ==> |ps[k]| < max
    ensures IsLongest(ps, str, Search(ps, max, str, d, s, e))
    decreases max - d, e - s
  {
    hide Search, GroupStart, GroupEnd, RunStart, RunEnd, Descending, AllText, Compatible, IsLongest, Fallback,
      GroupSplits;
    SearchEnd(ps, max, str, d, s, e);
    if At(ps[s], d) == 0 {
      EndedIsLongest(ps, str, d, s, e);
    } else {
      var bs, be := GroupStart(ps, d, s, e), GroupEnd(ps, d, s, e);
      SearchNode(ps, max, str, d, s, e, bs, be);
      SplitsBounds(ps, d, s, e, bs, be);
      var c, pc := Signed(At(str, d)), Signed(At(ps[bs], d));
      if c == pc {
        DescendsOnTrack(ps, str, d, s, e, bs, be);
        SearchIsLongest(ps, max, str, d + 1, bs, be);
      } else {
        SideOnTrack(ps, str, d, s, e, bs, be);
        if c > pc && bs > s {
          SearchIsLongest(ps, max, str, d, s, bs - 1);
        } else if c < pc && be < e {
          SearchIsLongest(ps, max, str, d, be + 1, e);
        }
      }
    }
  }

  /** The answer comes out of the range, or is a proper prefix of a pattern in it. */
  lemma {:induction false} SearchStays(ps: seq<seq<byte>>, max: nat, str: seq<byte>, d: nat, s: int, e: int)
    requires Range(ps, d, s, e) && Descending(ps) && AllText(ps)
    ensures var r := Search(ps, max, str, d, s, e);
      r == -1 || s <= r <= e || exists m :: s <= m <= e && ps[r] <= ps[m]
    decreases max - d, e - s
  {
    hide Search, GroupStart, GroupEnd, RunStart, RunEnd, Descending, AllText, GroupSplits, Range;
    SearchEnd(ps, max, str, d, s, e);
    InRange(ps, d, s, e);
    if d >= max || At(ps[s], d) == 0 {
    } else {
      var bs, be := GroupStart(ps, d, s, e), GroupEnd(ps, d, s, e);
      SearchNode(ps, max, str, d, s, e, bs, be);
      SplitsBounds(ps, d, s, e, bs, be);
      var c, pc := Signed(At(str, d)), Signed(At(ps[bs], d));
      if c == pc {
        SearchStays(ps, max, str, d + 1, bs, be);
      } else if c > pc && bs > s {
        SearchStays(ps, max, str, d, s, bs - 1);
      } else if c < pc && be < e {
        SearchStays(ps, max, str, d, be + 1, e);
      }
    }
  }

  lemma InRange(ps: seq<seq<byte>>, d: nat, s: int, e: int)
    requires Range(ps, d, s, e)
    ensures 0 <= s <= e < |ps| && d <= |ps[s]|
  {
  }

  lemma EndedWhole(ps: seq<seq<byte>>, s: int, d: nat)
    requires 0 <= s < |ps| && AllText(ps) && d <= |ps[s]| && At(ps[s], d) == 0
    ensures ps[s] == ps[s][..d]
  {
  }

  /** Right or wrong, an answer is always a prefix of the string. */
  lemma {:induction false} SearchIsSound(ps: seq<seq<byte>>, max: nat, str: seq<byte>, d: nat, s: int, e: int)
    requires Range(ps, d, s, e) && Descending(ps) && AllText(ps) && ps[s][..d] <= str
    ensures var r := Search(ps, max, str, d, s, e); r == -1 || ps[r] <= str
    decreases max - d, e - s
  {
    hide Search, GroupStart, GroupEnd, RunStart, RunEnd, Descending, AllText, GroupSplits, Range;
    SearchEnd(ps, max, str, d, s, e);
    InRange(ps, d, s, e);
    if d >= max {
    } else if At(ps[s], d) == 0 {
      EndedWhole(ps, s, d);
    } else {
      var bs, be := GroupStart(ps, d, s, e), GroupEnd(ps, d, s, e);
      SearchNode(ps, max, str, d, s, e, bs, be);
      SplitsBounds(ps, d, s, e, bs, be);
      StillPrefix(ps, str, d, s, e, bs, be);
      var c, pc := Signed(At(str, d)), Signed(At(ps[bs], d));
      if c == pc {
        SearchIsSound(ps, max, str, d + 1, bs, be);
      } else if c > pc && bs > s {
        SearchIsSound(ps, max, str, d, s, bs - 1);
      } else if c < pc && be < e {
        SearchIsSound(ps, max, str, d, be + 1, e);
      }
    }
  }

  /** The string begins like the parts of the range, and like what it falls back to. */
  lemma StillPrefix(ps: seq<seq<byte>>, str: seq<byte>, d: nat, s: int, e: int, bs: int, be: int)
    requires Range(ps, d, s, e) && GroupSplits(ps, d, s, e, bs, be) && ps[s][..d] <= str
    ensures Signed(At(str, d)) == Signed(At(ps[bs], d)) ==> ps[bs][..d + 1] <= str
    ensures be < e ==> ps[be + 1][..d] <= str
    ensures var r := Fallback(ps, bs, d, bs + 1); r == -1 || ps[r] <= str
  {
    hide Fallback;
    if At(str, d) == At(ps[bs], d) {
      assert ps[bs][..d + 1] == ps[bs][..d] + [ps[bs][d]] == str[..d + 1];
    }
    var r := Fallback(ps, bs, d, bs + 1);
    assert r >= 0 ==> ps[r] == ps[bs][..d][..|ps[r]|] == str[..d][..|ps[r]|];
  }

  /** A concrete pair: with the patterns "/\xc8" and "/a", "/a" itself goes unmatched. */
  lemma ClashExample()
    ensures var ps: seq<seq<byte>> := [[47, 200], [47, 97]];
      Range(ps, 0, 0, 1) && Descending(ps) && AllText(ps) && Search(ps, 16, ps[1], 0, 0, 1) == -1
  {
    hide Search, Fallback;
    var ps: seq<seq<byte>> := [[47, 200], [47, 97]];
    var str := ps[1];
    TwoPatterns(ps);
    SearchNode(ps, 16, str, 0, 0, 1, 0, 1);
    SearchNode(ps, 16, str, 1, 0, 1, 0, 0);
  }

  lemma TwoPatterns(ps: seq<seq<byte>>)
    requires ps == [[47, 200], [47, 97]]
    ensures Descending(ps) && AllText(ps) && Range(ps, 0, 0, 1) && Range(ps, 1, 0, 1)
    ensures GroupStart(ps, 0, 0, 1) == 0 && GroupEnd(ps, 0, 0, 1) == 1
    ensures GroupStart(ps, 1, 0, 1) == 0 && GroupEnd(ps, 1, 0, 1) == 0 && Fallback(ps, 0, 1, 1) == -1
  {
    AgreeIs(ps[0], ps[1], 1);
    assert ps[0][..1] == [47] == ps[1][..1];
  }

  /** Sent to the wrong side of the center group, the search misses its pattern. */
  lemma WrongSideMisses(ps: seq<seq<byte>>, max: nat, d: nat, s: int, e: int, k: int)
    requires Range(ps, d, s, e) && Descending(ps) && AllText(ps) && d < max && At(ps[s], d) != 0
    requires s <= k <= e && |ps[k]| > d
    requires var bs, be := GroupStart(ps, d, s, e), GroupEnd(ps, d, s, e);
      || (k < bs && Signed(At(ps[k], d)) < Signed(At(ps[bs], d)))
      || (k > be && Signed(At(ps[k], d)) > Signed(At(ps[bs], d)))
    ensures Search(ps, max, ps[k], d, s, e) != k
  {
    hide Search, GroupStart, GroupEnd, RunStart, RunEnd, Descending, AllText;
    var bs, be := GroupStart(ps, d, s, e), GroupEnd(ps, d, s, e);
    SearchNode(ps, max, ps[k], d, s, e, bs, be);
    if k < bs && be < e {
      SearchStays(ps, max, ps[k], d, be + 1, e);
    } else if k > be && bs > s {
      SearchStays(ps, max, ps[k], d, s, bs - 1);
    }
  }

  /** Any clash inside a range makes the search miss some pattern of it. */
  lemma {:induction false} ClashMisses(ps: seq<seq<byte>>, max: nat, d: nat, s: int, e: int, i: int, j: int)
    returns (k: int)
    requires Range(ps, d, s, e) && Descending(ps) && AllText(ps)
    requires forall x :: 0 <= x < |ps| ==> |ps[x]| < max
    requires s <= i <= e && s <= j <= e && Clash(ps[i], ps[j])
    ensures s <= k <= e && |ps[k]| > d && Search(ps, max, ps[k], d, s, e) != k
    decreases max - d, e - s
  {
    hide Search, Onward, GroupStart, GroupEnd, RunStart, RunEnd, Descending, AllText;
    AgreeIs(ps[i], ps[j], d);
    assert At(ps[s], d) != 0 by { if s < e { RangeOrder(ps, d, s, e, s, e); } }
    var bs, be := GroupStart(ps, d, s, e), GroupEnd(ps, d, s, e);
    GroupIsRange(ps, d, s, e);
    var pc := At(ps[bs], d);
    if bs <= i <= be && bs <= j <= be {
      k := ClashMisses(ps, max, d + 1, bs, be, i, j);
      CenterMisses(ps, max, d, s, e, k);
    } else if (At(ps[i], d) < 128) != (pc < 128) {
      k := i;
      WrongSideMisses(ps, max, d, s, e, k);
    } else if (At(ps[j], d) < 128) != (pc < 128) {
      k := j;
      WrongSideMisses(ps, max, d, s, e, k);
    } else {
      SameByte(ps, d, i, j);
      if i < bs {
        k := ClashMisses(ps, max, d, s, bs - 1, i, j);
        SideMisses(ps, max, d, s, e, k);
      } else {
        k := ClashMisses(ps, max, d, be + 1, e, i, j);
        SideMisses(ps, max, d, s, e, k);
      }
    }
  }

  lemma CenterMisses(ps: seq<seq<byte>>, max: nat, d: nat, s: int, e: int, k: int)
    requires Range(ps, d, s, e) && Descending(ps) && AllText(ps) && d < max && At(ps[s], d) != 0
    requires var bs, be := GroupStart(ps, d, s, e), GroupEnd(ps, d, s, e);
      && bs <= k <= be && At(ps[k], d) == At(ps[bs], d)
      && Range(ps, d + 1, bs, be) && Search(ps, max, ps[k], d + 1, bs, be) != k
    ensures Search(ps, max, ps[k], d, s, e) != k
  {
    hide Search, GroupStart, GroupEnd, RunStart, RunEnd, Descending, AllText;
    SearchNode(ps, max, ps[k], d, s, e, GroupStart(ps, d, s, e), GroupEnd(ps, d, s, e));
  }

  lemma SameByte(ps: seq<seq<byte>>, d: nat, i: int, j: int)
    requires 0 <= i < |ps| && 0 <= j < |ps| && Clash(ps[i], ps[j]) && Agree(ps[i], ps[j]) >= d
    requires At(ps[i], d) < 128 <==> At(ps[j], d) < 128
    ensures At(ps[i], d) == At(ps[j], d)
  {
    var g := Agree(ps[i], ps[j]);
    assert g > d ==> ps[i][..g][d] == ps[j][..g][d];
  }

  /** A miss on one side of the center group is a miss on the whole range. */
  lemma SideMisses(ps: seq<seq<byte>>, max: nat, d: nat, s: int, e: int, k: int)
    requires Range(ps, d, s, e) && Descending(ps) && AllText(ps) && d < max && At(ps[s], d) != 0
    requires s <= k <= e && |ps[k]| > d
    requires var bs, be := GroupStart(ps, d, s, e), GroupEnd(ps, d, s, e);
      || (s <= k < bs && Range(ps, d, s, bs - 1) && Search(ps, max, ps[k], d, s, bs - 1) != k)
      || (be < k <= e && Range(ps, d, be + 1, e) && Search(ps, max, ps[k], d, be + 1, e) != k)
    ensures Search(ps, max, ps[k], d, s, e) != k
  {
    hide Search, GroupStart, GroupEnd, RunStart, RunEnd, Descending, AllText;
    var bs, be := GroupStart(ps, d, s, e), GroupEnd(ps, d, s, e);
    SearchNode(ps, max, ps[k], d, s, e, bs, be);
    if k < bs && Signed(At(ps[k], d)) < Signed(At(ps[bs], d)) {
      WrongSideMisses(ps, max, d, s, e, k);
    } else if k > be && Signed(At(ps[k], d)) > Signed(At(ps[bs], d)) {
      WrongSideMisses(ps, max, d, s, e, k);
    }
  }

  /** A clash makes the search wrong for one of the patterns themselves. */
  lemma ClashIsWrong(ps: seq<seq<byte>>, max: nat, i: int, j: int) returns (k: int)
    requires Descending(ps) && AllText(ps)
    requires forall x :: 0 <= x < |ps| ==> |ps[x]| < max
    requires 0 <= i < |ps| && 0 <= j < |ps| && Clash(ps[i], ps[j])
    ensures 0 <= k < |ps| && Range(ps, 0, 0, |ps| - 1)
    ensures !IsLongest(ps, ps[k], Search(ps, max, ps[k], 0, 0, |ps| - 1))
  {
    hide Search, Clash, Descending, AllText, Range, IsLongest;
    WholeRange(ps);
    k := ClashMisses(ps, max, 0, 0, |ps| - 1, i, j);
    OwnLongest(ps, k);
    var r := Search(ps, max, ps[k], 0, 0, |ps| - 1);
    if IsLongest(ps, ps[k], r) {
      LongestUnique(ps, ps[k], k, r);
    }
  }

  lemma WholeRange(ps: seq<seq<byte>>)
    requires ps != []
    ensures Range(ps, 0, 0, |ps| - 1)
  {
  }

  lemma OwnLongest(ps: seq<seq<byte>>, k: int)
    requires 0 <= k < |ps|
    ensures IsLongest(ps, ps[k], k)
  {
  }

  /** The exact condition: the search is right for every string if and only if no two
      registered patterns clash. */
  lemma AlwaysRightIffCompatible(ps: seq<seq<byte>>, max: nat)
    requires ps != [] && Descending(ps) && AllText(ps)
    requires forall k :: 0 <= k < |ps| ==> |ps[k]| < max
    ensures Range(ps, 0, 0, |ps| - 1)
    ensures (forall str :: IsText(str) ==> IsLongest(ps, str, Search(ps, max, str, 0, 0, |ps| - 1)))
       <==> Compatible(ps)
  {
    hide Search, Clash, IsLongest, Descending, AllText;
    if Compatible(ps) {
      forall str | IsText(str)
        ensures IsLongest(ps, str, Search(ps, max, str, 0, 0, |ps| - 1))
      {
        SearchIsLongest(ps, max, str, 0, 0, |ps| - 1);
      }
    } else {
      var i, j :| 0 <= i < |ps| && 0 <= j < |ps| && Clash(ps[i], ps[j]);
      var k := ClashIsWrong(ps, max, i, j);
      PatternIsText(ps, k);
    }
  }

  lemma PatternIsText(ps: seq<seq<byte>>, k: int)
    requires AllText(ps) && 0 <= k < |ps|
    ensures IsText(ps[k])
  {
  }

  /** Bytes below 128, the whole of ASCII, never clash. */
  lemma AsciiNeverClashes(ps: seq<seq<byte>>)
    requires forall i, x :: 0 <= i < |ps| && 0 <= x < |ps[i]| ==> ps[i][x] < 128
    ensures Compatible(ps)
  {
  }
}
