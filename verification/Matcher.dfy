/** The fall-back table and the loop that matches against the compiled tables. */
module Matcher {
  import opened Bytes
  import opened Patterns
  import opened Trie
  import opened JumpTables

  /** Row `row` of the fall-back table is written, one slot per byte of its pattern. */
  ghost predicate FallsBack(ps: seq<seq<byte>>, max: nat, els: seq<schar>, row: nat)
    requires row < |ps|
  {
    forall col: nat :: col < |ps[row]| && col < max ==>
      Slot(row, col, max) < |els| && els[Slot(row, col, max)] == Fallback(ps, row, col, row + 1)
  }

  lemma RowStays(ps: seq<seq<byte>>, max: nat, a: seq<schar>, b: seq<schar>, row: nat, other: nat)
    requires row < |ps| && other < |ps| && row != other && |a| == |b| == |ps| * max
    requires FallsBack(ps, max, a, row)
    requires forall r: nat, col: nat :: r < |ps| && col < max && r != other ==>
      Slot(r, col, max) < |a| && a[Slot(r, col, max)] == b[Slot(r, col, max)]
    ensures FallsBack(ps, max, b, row)
  {
  }

  /** The first pattern after `idx` that is a prefix of it and at most `d` bytes long. */
  method FirstShortPrefix(ps: seq<seq<byte>>, lengths: array<int>, idx: nat, d: nat) returns (m: schar)
    requires idx < |ps| < 128 && d < |ps[idx]|
    requires lengths.Length == |ps| && forall i :: 0 <= i < |ps| ==> lengths[i] == |ps[i]|
    ensures m == Fallback(ps, idx, d, idx + 1)
  {
    m := -1;
    var k: nat := idx + 1;
    while k < |ps|
      invariant idx < k <= |ps|
      invariant Fallback(ps, idx, d, k) == Fallback(ps, idx, d, idx + 1)
    {
      if lengths[k] >= d + 1 {
        k := k + 1;
        continue;
      } else if ps[idx][..lengths[k]] != ps[k][..lengths[k]] {
        k := k + 1;
        continue;
      } else {
        return k;
      }
    }
  }

  /** For every depth of one pattern, the first later pattern that is a short enough prefix. */
  method FindSomeoneElseMatched(ps: seq<seq<byte>>, lengths: array<int>, max: nat, els: array<schar>, idx: nat)
    requires Ready(ps, max) && idx < |ps| && els.Length == |ps| * max
    requires lengths.Length == |ps| && forall i :: 0 <= i < |ps| ==> lengths[i] == |ps[i]|
    modifies els
    ensures FallsBack(ps, max, els[..], idx)
    ensures forall r: nat, col: nat :: r < |ps| && col < max && r != idx ==>
      Slot(r, col, max) < els.Length && els[Slot(r, col, max)] == old(els[Slot(r, col, max)])
  {
    hide Slot, Descending, AllText;
    forall r: nat, col: nat | r < |ps| && col < max ensures Slot(r, col, max) < |ps| * max {
      SlotInside(r, col, |ps|, max);
    }
    var i: nat := 0;
    while i < lengths[idx]
      invariant i <= |ps[idx]|
      invariant forall col: nat :: col < i ==> els[Slot(idx, col, max)] == Fallback(ps, idx, col, idx + 1)
      invariant forall r: nat, col: nat :: r < |ps| && col < max && r != idx ==>
        els[Slot(r, col, max)] == old(els[Slot(r, col, max)])
    {
      var m := FirstShortPrefix(ps, lengths, idx, i);
      forall r: nat, col: nat | r < |ps| && col < max && !(r == idx && col == i)
        ensures Slot(r, col, max) != Slot(idx, i, max)
      {
        SlotsDistinct(r, col, idx, i, max);
      }
      els[Slot(idx, i, max)] := m;
      i := i + 1;
    }
  }

  method FillSomeoneElseMatchedTable(ps: seq<seq<byte>>, lengths: array<int>, max: nat, els: array<schar>)
    requires Ready(ps, max) && els.Length == |ps| * max
    requires lengths.Length == |ps| && forall i :: 0 <= i < |ps| ==> lengths[i] == |ps[i]|
    modifies els
    ensures forall row: nat :: row < |ps| ==> FallsBack(ps, max, els[..], row)
  {
    hide Slot, Ready;
    var i: nat := 0;
    while i < |ps|
      invariant i <= |ps|
      invariant forall row: nat :: row < i ==> FallsBack(ps, max, els[..], row)
    {
      ghost var before := els[..];
      FindSomeoneElseMatched(ps, lengths, max, els, i);
      forall row: nat | row < i ensures FallsBack(ps, max, els[..], row) {
        RowStays(ps, max, before, els[..], row, i);
      }
      i := i + 1;
    }
  }

  /** What the loop keeps: `m` stands for the range, whose prefix the string has. */
  ghost predicate Walking(ps: seq<seq<byte>>, max: nat, t: Tables, str: seq<byte>, d: nat, s: int, e: int)
    requires Ready(ps, max) && Sized(t, |ps|, max)
  {
    Range(ps, d, s, e) && ps[s][..d] <= str && Filled(ps, max, t, d, s, e)
  }

  ghost predicate PartsFilled(ps: seq<seq<byte>>, max: nat, t: Tables, d: nat, s: int, e: int, bs: int, be: int)
    requires Ready(ps, max) && Sized(t, |ps|, max) && GroupSplits(ps, d, s, e, bs, be)
  {
    && (bs > s ==> Filled(ps, max, t, d, s, bs - 1))
    && (be < e ==> Filled(ps, max, t, d, be + 1, e))
    && Filled(ps, max, t, d + 1, bs, be)
  }

  /** One look at the tables: the slot of a range's entry leads where the search goes. */
  lemma AtNode(ps: seq<seq<byte>>, max: nat, t: Tables, str: seq<byte>, d: nat, s: int, e: int, bs: int, be: int)
    requires Ready(ps, max) && Sized(t, |ps|, max) && Walking(ps, max, t, str, d, s, e)
    requires d < max && At(ps[s], d) != 0 && bs == GroupStart(ps, d, s, e) && be == GroupEnd(ps, d, s, e)
    ensures GroupSplits(ps, d, s, e, bs, be) && Slot(bs, d, max) < |ps| * max
    ensures var i := Slot(bs, d, max);
      && t.hi[i] == (if bs == s then -1 else Entry(ps, max, d, s, bs - 1))
      && t.lo[i] == (if be == e then -1 else Entry(ps, max, d, be + 1, e))
      && t.nx[i] == Entry(ps, max, d + 1, bs, be)
    ensures PartsFilled(ps, max, t, d, s, e, bs, be)
  {
    hide Descending, AllText, RunStart, RunEnd, GroupStart, GroupEnd, Entry, Slot, Range;
    GroupIsRange(ps, d, s, e);
    SlotInside(bs, d, |ps|, max);
  }

  /** The range the loop looks at next, or the fall-back when there is none. */
  lemma SearchStep(ps: seq<seq<byte>>, max: nat, str: seq<byte>, d: nat, s: int, e: int, bs: int, be: int)
    requires Range(ps, d, s, e) && Ready(ps, max) && ps[s][..d] <= str
    requires d < max && At(ps[s], d) != 0 && bs == GroupStart(ps, d, s, e) && be == GroupEnd(ps, d, s, e)
    ensures GroupSplits(ps, d, s, e, bs, be)
    ensures Search(ps, max, str, d, s, e) == Onward(ps, max, str, d, s, e, bs, be)
    ensures At(str, d) == At(ps[bs], d) ==> ps[bs][..d + 1] <= str
    ensures bs > s ==> ps[s][..d] <= str
    ensures be < e ==> ps[be + 1][..d] <= str
  {
    hide Search, Onward, Descending, AllText, RunStart, RunEnd, GroupStart, GroupEnd, Fallback;
    SearchNode(ps, max, str, d, s, e, bs, be);
    if At(str, d) == At(ps[bs], d) {
      assert ps[bs][..d + 1] == ps[bs][..d] + [ps[bs][d]] == str[..d + 1];
    }
  }

  lemma SearchEnded(ps: seq<seq<byte>>, max: nat, str: seq<byte>, d: nat, s: int, e: int)
    requires Range(ps, d, s, e) && Ready(ps, max) && (d >= max || At(ps[s], d) == 0)
    ensures Search(ps, max, str, d, s, e) == if d >= max then -1 else s
  {
  }

  /** A range's entry ends at its depth exactly when the range's first pattern does. */
  lemma EntryByte(ps: seq<seq<byte>>, max: nat, d: nat, s: int, e: int)
    requires Range(ps, d, s, e) && Ready(ps, max) && d < max
    ensures At(ps[Entry(ps, max, d, s, e)], d) == 0 <==> At(ps[s], d) == 0
    ensures Entry(ps, max, d, s, e) == if At(ps[s], d) == 0 then s else GroupStart(ps, d, s, e)
  {
    if At(ps[s], d) != 0 {
      GroupIsRange(ps, d, s, e);
    }
  }

  /** The matching loop: each round goes one byte deeper or to a smaller range, so it ends,
      and it answers exactly what the range search answers. */
  method Walk(ps: seq<seq<byte>>, max: nat, hi: array<schar>, lo: array<schar>, nx: array<schar>, els: array<schar>,
              enter: schar, str: seq<byte>)
    returns (r: int)
    requires ps != [] && Ready(ps, max) && Sized(Snapshot(hi, lo, nx), |ps|, max)
    requires Filled(ps, max, Snapshot(hi, lo, nx), 0, 0, |ps| - 1)
    requires forall row: nat :: row < |ps| ==> FallsBack(ps, max, els[..], row)
    requires enter == Entry(ps, max, 0, 0, |ps| - 1) && IsText(str)
    ensures r == Search(ps, max, str, 0, 0, |ps| - 1)
  {
    hide Search, Filled, Descending, AllText, RunStart, RunEnd, GroupStart, GroupEnd, Fallback, Entry, Slot;
    var m: int, depth: nat := enter, 0;
    ghost var s, e := 0, |ps| - 1;
    ghost var t := Snapshot(hi, lo, nx);
    while depth < max
      invariant depth <= max && Walking(ps, max, t, str, depth, s, e) && m == Entry(ps, max, depth, s, e)
      invariant Search(ps, max, str, depth, s, e) == Search(ps, max, str, 0, 0, |ps| - 1)
      decreases max - depth, e - s
    {
      assert depth <= |str|;
      EntryByte(ps, max, depth, s, e);
      var c, pc := At(str, depth), At(ps[m], depth);
      if pc == 0 {
        SearchEnded(ps, max, str, depth, s, e);
        return m;
      }
      ghost var be := GroupEnd(ps, depth, s, e);
      AtNode(ps, max, t, str, depth, s, e, m, be);
      SearchStep(ps, max, str, depth, s, e, m, be);
      var n: int;
      if c == pc {
        n := nx[Slot(m, depth, max)];
        if n == -1 {
          break;
        } else {
          s, e := m, be;
          m := n;
          depth := depth + 1;
          continue;
        }
      } else if Signed(c) > Signed(pc) {
        n := hi[Slot(m, depth, max)];
        if n == -1 {
          break;
        } else {
          e := m - 1;
          m := n;
          continue;
        }
      } else {
        n := lo[Slot(m, depth, max)];
        if n == -1 {
          break;
        } else {
          s := be + 1;
          m := n;
          continue;
        }
      }
    }
    if depth >= max {
      SearchEnded(ps, max, str, depth, s, e);
      return -1;
    }
    assert FallsBack(ps, max, els[..], m);
    return els[Slot(m, depth, max)];
  }
}
