/** The search the compiled tables encode: a ternary search over index ranges of the
    descending pattern array, with a fall-back to a shorter prefix when it gets stuck. */
module Trie {
  import opened Bytes
  import opened Patterns

  /** Patterns `s..e` agree on their first `d` bytes. */
  ghost predicate Range(ps: seq<seq<byte>>, d: nat, s: int, e: int) {
    && 0 <= s <= e < |ps| && d <= |ps[s]|
    && forall k :: s <= k <= e ==> d <= |ps[k]| && ps[k][..d] == ps[s][..d]
  }

  /** First index, going down from `m`, of the run of byte `c` at depth `d`. */
  ghost function RunStart(ps: seq<seq<byte>>, d: nat, s: int, m: int, c: byte): (r: int)
    requires 0 <= s <= m < |ps| && At(ps[m], d) == c
    ensures s <= r <= m
    ensures forall k :: r <= k <= m ==> At(ps[k], d) == c
    ensures r > s ==> At(ps[r - 1], d) != c
    decreases m - s
  {
    if m > s && At(ps[m - 1], d) == c then RunStart(ps, d, s, m - 1, c) else m
  }

  ghost function RunEnd(ps: seq<seq<byte>>, d: nat, m: int, e: int, c: byte): (r: int)
    requires 0 <= m <= e < |ps| && At(ps[m], d) == c
    ensures m <= r <= e
    ensures forall k :: m <= k <= r ==> At(ps[k], d) == c
    ensures r < e ==> At(ps[r + 1], d) != c
    decreases e - m
  {
    if m < e && At(ps[m + 1], d) == c then RunEnd(ps, d, m + 1, e, c) else m
  }

  /** The center group of a range: the run of equal bytes around the middle index. */
  ghost function GroupStart(ps: seq<seq<byte>>, d: nat, s: int, e: int): int
    requires 0 <= s <= e < |ps|
  {
    RunStart(ps, d, s, (s + e) / 2, At(ps[(s + e) / 2], d))
  }

  ghost function GroupEnd(ps: seq<seq<byte>>, d: nat, s: int, e: int): int
    requires 0 <= s <= e < |ps|
  {
    RunEnd(ps, d, (s + e) / 2, e, At(ps[(s + e) / 2], d))
  }

  /** The row that stands for a range in the tables. */
  ghost function Entry(ps: seq<seq<byte>>, max: nat, d: nat, s: int, e: int): (r: int)
    requires 0 <= s <= e < |ps|
    ensures s <= r <= e
  {
    if d >= max || At(ps[s], d) == 0 then s else GroupStart(ps, d, s, e)
  }

  /** First pattern after `m` that is a prefix of it, `d` bytes long at most. */
  ghost function Fallback(ps: seq<seq<byte>>, m: int, d: nat, k: int): (r: int)
    requires 0 <= m < |ps| && m < k <= |ps|
    ensures r == -1 || (k <= r < |ps| && |ps[r]| <= d && ps[r] <= ps[m])
    ensures forall i :: k <= i < (if r == -1 then |ps| else r) ==> !(|ps[i]| <= d && ps[i] <= ps[m])
    decreases |ps| - k
  {
    if k == |ps| then -1
    else if |ps[k]| <= d && ps[k] <= ps[m] then k
    else Fallback(ps, m, d, k + 1)
  }

  /** Index of the pattern the matcher answers for `str`, or -1. */
  ghost function Search(ps: seq<seq<byte>>, max: nat, str: seq<byte>, d: nat, s: int, e: int): (r: int)
    requires Range(ps, d, s, e) && Descending(ps) && AllText(ps)
    ensures -1 <= r < |ps|
    decreases max - d, e - s
  {
    if d >= max then -1
    else if At(ps[s], d) == 0 then s
    else
      var bs, be := GroupStart(ps, d, s, e), GroupEnd(ps, d, s, e);
      GroupIsRange(ps, d, s, e);
      var c, pc := Signed(At(str, d)), Signed(At(ps[bs], d));
      if c == pc then Search(ps, max, str, d + 1, bs, be)
      else if c > pc then
        if bs == s then Fallback(ps, bs, d, bs + 1) else Search(ps, max, str, d, s, bs - 1)
      else
        if be == e then Fallback(ps, bs, d, bs + 1) else Search(ps, max, str, d, be + 1, e)
  }

  /** Bytes at depth `d` descend along a range, and only the last pattern can end there. */
  lemma RangeOrder(ps: seq<seq<byte>>, d: nat, s: int, e: int, i: int, j: int)
    requires Range(ps, d, s, e) && Descending(ps) && AllText(ps) && s <= i < j <= e
    ensures At(ps[i], d) >= At(ps[j], d) && At(ps[i], d) != 0
    ensures At(ps[i], d) != At(ps[j], d) ==> Agree(ps[i], ps[j]) == d
  {
    AgreeIs(ps[i], ps[j], d);
    assert Above(ps[i], ps[j]);
  }

  ghost predicate GroupSplits(ps: seq<seq<byte>>, d: nat, s: int, e: int, bs: int, be: int) {
    && 0 <= s <= bs <= be <= e < |ps|
    && At(ps[bs], d) != 0
    && Range(ps, d + 1, bs, be)
    && (bs > s ==> Range(ps, d, s, bs - 1))
    && (be < e ==> Range(ps, d, be + 1, e))
    && (forall k :: s <= k < bs ==> At(ps[k], d) > At(ps[bs], d))
    && (forall k :: be < k <= e ==> At(ps[k], d) < At(ps[bs], d))
    && (forall k :: bs <= k <= be ==> At(ps[k], d) == At(ps[bs], d))
  }

  /** Where the search goes on from a center group. */
  ghost function Onward(ps: seq<seq<byte>>, max: nat, str: seq<byte>, d: nat, s: int, e: int, bs: int, be: int): int
    requires Descending(ps) && AllText(ps) && GroupSplits(ps, d, s, e, bs, be)
  {
    var c, pc := Signed(At(str, d)), Signed(At(ps[bs], d));
    if c == pc then Search(ps, max, str, d + 1, bs, be)
    else if c > pc then
      if bs == s then Fallback(ps, bs, d, bs + 1) else Search(ps, max, str, d, s, bs - 1)
    else
      if be == e then Fallback(ps, bs, d, bs + 1) else Search(ps, max, str, d, be + 1, e)
  }

  lemma SearchNode(ps: seq<seq<byte>>, max: nat, str: seq<byte>, d: nat, s: int, e: int, bs: int, be: int)
    requires Range(ps, d, s, e) && Descending(ps) && AllText(ps) && d < max && At(ps[s], d) != 0
    requires bs == GroupStart(ps, d, s, e) && be == GroupEnd(ps, d, s, e)
    ensures GroupSplits(ps, d, s, e, bs, be)
    ensures Search(ps, max, str, d, s, e) == Onward(ps, max, str, d, s, e, bs, be)
  {
    hide GroupSplits, GroupStart, GroupEnd, RunStart, RunEnd, Descending, AllText, Fallback;
    GroupIsRange(ps, d, s, e);
  }

  lemma SearchEnd(ps: seq<seq<byte>>, max: nat, str: seq<byte>, d: nat, s: int, e: int)
    requires Range(ps, d, s, e) && Descending(ps) && AllText(ps)
    ensures d >= max ==> Search(ps, max, str, d, s, e) == -1
    ensures d < max && At(ps[s], d) == 0 ==> Search(ps, max, str, d, s, e) == s
  {
  }

  lemma LongerAlike(ps: seq<seq<byte>>, d: nat, s: int, e: int, bs: int, be: int, c: byte)
    requires Range(ps, d, s, e) && s <= bs <= be <= e && c != 0
    requires forall k :: bs <= k <= be ==> At(ps[k], d) == c
    ensures Range(ps, d + 1, bs, be)
  {
    forall k | bs <= k <= be
      ensures d + 1 <= |ps[k]| && ps[k][..d + 1] == ps[s][..d] + [c]
    {
      assert ps[k][..d + 1] == ps[k][..d] + [ps[k][d]];
    }
  }

  ghost predicate Falling(ps: seq<seq<byte>>, d: nat, s: int, e: int) {
    0 <= s <= e < |ps| && forall i, j :: s <= i <= j <= e ==> At(ps[i], d) >= At(ps[j], d)
  }

  lemma RangeFalls(ps: seq<seq<byte>>, d: nat, s: int, e: int)
    requires Range(ps, d, s, e) && Descending(ps) && AllText(ps)
    ensures Falling(ps, d, s, e)
    ensures s < e ==> At(ps[(s + e) / 2], d) != 0
  {
    forall i, j | s <= i < j <= e
      ensures At(ps[i], d) >= At(ps[j], d) && At(ps[i], d) != 0
    {
      RangeOrder(ps, d, s, e, i, j);
    }
    if s < e { RangeOrder(ps, d, s, e, (s + e) / 2, e); }
  }

  /** The center group is a range one byte deeper; what lies outside it differs there. */
  lemma GroupIsRange(ps: seq<seq<byte>>, d: nat, s: int, e: int)
    requires Range(ps, d, s, e) && Descending(ps) && AllText(ps) && At(ps[s], d) != 0
    ensures GroupSplits(ps, d, s, e, GroupStart(ps, d, s, e), GroupEnd(ps, d, s, e))
  {
    RangeFalls(ps, d, s, e);
    GroupOfFalling(ps, d, s, e, (s + e) / 2, At(ps[(s + e) / 2], d));
  }

  lemma GroupOfFalling(ps: seq<seq<byte>>, d: nat, s: int, e: int, m: int, c: byte)
    requires Range(ps, d, s, e) && Falling(ps, d, s, e) && s <= m <= e && At(ps[m], d) == c && c != 0
    ensures GroupSplits(ps, d, s, e, RunStart(ps, d, s, m, c), RunEnd(ps, d, m, e, c))
  {
    var bs, be := RunStart(ps, d, s, m, c), RunEnd(ps, d, m, e, c);
    forall k | bs <= k <= be ensures At(ps[k], d) == c {}
    LongerAlike(ps, d, s, e, bs, be, c);
    assert forall k :: s <= k < bs ==> At(ps[k], d) >= At(ps[bs - 1], d) > c;
    assert forall k :: be < k <= e ==> At(ps[k], d) <= At(ps[be + 1], d) < c;
  }
}
