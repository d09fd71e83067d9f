/** The flat tables of the compiled head-match tree, how they are filled and what they encode. */
module JumpTables {
  import opened Bytes
  import opened Patterns
  import opened Trie

  /** A plain `char` used as a row number, -1 for "nowhere". */
  type schar = x: int | -128 <= x < 128

  /** Slot of row `row` at depth `col`: `(row << max_shift) + col`. */
  function Slot(row: nat, col: nat, max: nat): nat {
    row * max + col
  }

  lemma {:induction false} RowsApart(a: nat, b: nat, max: nat)
    requires a < b
    ensures a * max + max <= b * max
  {
    assert b * max == (b - 1) * max + max;
    if a >= b - 1 {
    } else {
      RowsApart(a, b - 1, max);
    }
  }

  /** No two (row, depth) pairs share a slot. */
  lemma SlotsDistinct(row: nat, col: nat, row': nat, col': nat, max: nat)
    requires col < max && col' < max
    ensures Slot(row, col, max) == Slot(row', col', max) <==> row == row' && col == col'
  {
    if row < row' {
      RowsApart(row, row', max);
    } else if row' < row {
      RowsApart(row', row, max);
    }
  }

  lemma SlotInside(row: nat, col: nat, rows: nat, max: nat)
    requires row < rows && col < max
    ensures Slot(row, col, max) < rows * max
  {
    RowsApart(row, rows, max);
  }

  /** The three jump tables as values. */
  datatype Tables = Tables(hi: seq<schar>, lo: seq<schar>, nx: seq<schar>)

  ghost predicate Sized(t: Tables, rows: nat, max: nat) {
    |t.hi| == |t.lo| == |t.nx| == rows * max
  }

  ghost predicate Ready(ps: seq<seq<byte>>, max: nat) {
    && Descending(ps) && AllText(ps) && |ps| < 128
    && forall k :: 0 <= k < |ps| ==> |ps[k]| <= max
  }

  /** The tables agree on one slot. */
  ghost predicate SameSlot(t: Tables, u: Tables, i: nat) {
    && i < |t.hi| && i < |t.lo| && i < |t.nx| && i < |u.hi| && i < |u.lo| && i < |u.nx|
    && t.hi[i] == u.hi[i] && t.lo[i] == u.lo[i] && t.nx[i] == u.nx[i]
  }

  /** Slots of rows `s..e` at depth `d` or deeper. */
  ghost predicate SameRegion(t: Tables, u: Tables, max: nat, d: nat, s: nat, e: int) {
    forall row: nat, col: nat :: s <= row <= e && d <= col < max ==> SameSlot(t, u, Slot(row, col, max))
  }

  ghost predicate SameOutside(t: Tables, u: Tables, rows: nat, max: nat, d: nat, s: nat, e: int) {
    forall row: nat, col: nat :: row < rows && col < max && !(s <= row <= e && d <= col)
      ==> SameSlot(t, u, Slot(row, col, max))
  }

  /** One group's slot: where to go for a higher, a lower and an equal byte. */
  ghost predicate SlotFilled(ps: seq<seq<byte>>, max: nat, t: Tables, d: nat, s: int, e: int)
    requires Range(ps, d, s, e) && Ready(ps, max) && Sized(t, |ps|, max)
    requires d < max && At(ps[s], d) != 0
  {
    var bs, be := GroupStart(ps, d, s, e), GroupEnd(ps, d, s, e);
    var i := Slot(bs, d, max);
    SlotInside(bs, d, |ps|, max);
    && t.hi[i] == (if bs == s then -1 else Entry(ps, max, d, s, bs - 1))
    && t.lo[i] == (if be == e then -1 else Entry(ps, max, d, be + 1, e))
    && t.nx[i] == Entry(ps, max, d + 1, bs, be)
  }

  /** The tables encode the search over a range. */
  ghost predicate Filled(ps: seq<seq<byte>>, max: nat, t: Tables, d: nat, s: int, e: int)
    requires Range(ps, d, s, e) && Ready(ps, max) && Sized(t, |ps|, max)
    decreases max - d, e - s
  {
    d >= max || At(ps[s], d) == 0 ||
    (var bs, be := GroupStart(ps, d, s, e), GroupEnd(ps, d, s, e);
     GroupIsRange(ps, d, s, e);
     && SlotFilled(ps, max, t, d, s, e)
     && (bs > s ==> Filled(ps, max, t, d, s, bs - 1))
     && (be < e ==> Filled(ps, max, t, d, be + 1, e))
     && Filled(ps, max, t, d + 1, bs, be))
  }

  lemma FilledTrivially(ps: seq<seq<byte>>, max: nat, t: Tables, d: nat, s: int, e: int)
    requires Range(ps, d, s, e) && Ready(ps, max) && Sized(t, |ps|, max) && (d >= max || At(ps[s], d) == 0)
    ensures Filled(ps, max, t, d, s, e)
  {
  }

  /** What a range encodes sits in its own rows at its own depth or deeper: writing
      elsewhere leaves it alone. */
  lemma {:induction false} FilledStays(ps: seq<seq<byte>>, max: nat, t: Tables, u: Tables, d: nat, s: int, e: int)
    requires Range(ps, d, s, e) && Ready(ps, max) && Sized(t, |ps|, max) && Sized(u, |ps|, max)
    requires Filled(ps, max, t, d, s, e) && SameRegion(t, u, max, d, s, e)
    ensures Filled(ps, max, u, d, s, e)
    decreases max - d, e - s
  {
    hide Descending, AllText, GroupStart, GroupEnd, Entry, Slot, RunStart, RunEnd;
    if d >= max || At(ps[s], d) == 0 {
    } else {
      GroupIsRange(ps, d, s, e);
      var bs, be := GroupStart(ps, d, s, e), GroupEnd(ps, d, s, e);
      assert SameSlot(t, u, Slot(bs, d, max));
      if bs > s { FilledStays(ps, max, t, u, d, s, bs - 1); }
      if be < e { FilledStays(ps, max, t, u, d, be + 1, e); }
      FilledStays(ps, max, t, u, d + 1, bs, be);
    }
  }

  /** Only slot `i` may differ. */
  ghost predicate WrittenAt(t: Tables, u: Tables, i: nat) {
    && |t.hi| == |u.hi| && |t.lo| == |u.lo| && |t.nx| == |u.nx|
    && forall k: nat :: k < |t.hi| && k < |t.lo| && k < |t.nx| && k != i ==> SameSlot(t, u, k)
  }

  lemma SameOutsideItself(t: Tables, rows: nat, max: nat, d: nat, s: nat, e: int)
    requires Sized(t, rows, max)
    ensures SameOutside(t, t, rows, max, d, s, e)
  {
    forall row: nat, col: nat | row < rows && col < max
      ensures SameSlot(t, t, Slot(row, col, max))
    {
      SlotInside(row, col, rows, max);
    }
  }

  lemma WriteHiLo(t: Tables, i: nat, h: schar, l: schar)
    requires |t.hi| == |t.lo| == |t.nx| && i < |t.hi|
    ensures WrittenAt(t, Tables(t.hi[i := h], t.lo[i := l], t.nx), i)
  {
  }

  lemma WriteNext(t: Tables, i: nat, n: schar)
    requires |t.hi| == |t.lo| == |t.nx| && i < |t.hi|
    ensures WrittenAt(t, Tables(t.hi, t.lo, t.nx[i := n]), i)
  {
  }

  /** The states a call passes through: after the higher side, the lower side, the first
      write, the deeper group and the last write. */
  ghost predicate Stages(rows: nat, max: nat, t0: Tables, t1: Tables, t2: Tables, t3: Tables, t4: Tables, t5: Tables,
                         d: nat, s: nat, e: nat, bs: nat, be: nat) {
    && s <= bs <= be <= e < rows && d < max
    && SameOutside(t0, t1, rows, max, d, s, bs - 1)
    && SameOutside(t1, t2, rows, max, d, be + 1, e)
    && WrittenAt(t2, t3, Slot(bs, d, max)) && Sized(t2, rows, max)
    && SameOutside(t3, t4, rows, max, d + 1, bs, be)
    && WrittenAt(t4, t5, Slot(bs, d, max)) && Sized(t4, rows, max)
  }

  lemma WrittenElsewhere(rows: nat, max: nat, t: Tables, u: Tables, bs: nat, d: nat, row: nat, col: nat)
    requires WrittenAt(t, u, Slot(bs, d, max)) && Sized(t, rows, max)
    requires bs < rows && d < max && row < rows && col < max && !(row == bs && col == d)
    ensures SameSlot(t, u, Slot(row, col, max))
  {
    SlotInside(row, col, rows, max);
    SlotsDistinct(row, col, bs, d, max);
  }

  lemma StagesKeep(rows: nat, max: nat, t0: Tables, t1: Tables, t2: Tables, t3: Tables, t4: Tables, t5: Tables,
                   d: nat, s: nat, e: nat, bs: nat, be: nat, row: nat, col: nat)
    requires Stages(rows, max, t0, t1, t2, t3, t4, t5, d, s, e, bs, be) && row < rows && col < max
    ensures row < bs && d <= col && s <= row ==> SameSlot(t1, t5, Slot(row, col, max))
    ensures be < row && d <= col && row <= e ==> SameSlot(t2, t5, Slot(row, col, max))
    ensures bs <= row <= be && d < col ==> SameSlot(t4, t5, Slot(row, col, max))
    ensures row == bs && col == d ==> SameSlot(t3, t4, Slot(row, col, max))
    ensures !(s <= row <= e && d <= col) ==> SameSlot(t0, t5, Slot(row, col, max))
  {
    hide Slot, WrittenAt;
    if !(row == bs && col == d) {
      WrittenElsewhere(rows, max, t2, t3, bs, d, row, col);
      WrittenElsewhere(rows, max, t4, t5, bs, d, row, col);
    }
  }

  lemma StagesAgree(rows: nat, max: nat, t0: Tables, t1: Tables, t2: Tables, t3: Tables, t4: Tables, t5: Tables,
                    d: nat, s: nat, e: nat, bs: nat, be: nat)
    requires Stages(rows, max, t0, t1, t2, t3, t4, t5, d, s, e, bs, be)
    ensures SameRegion(t1, t5, max, d, s, bs - 1)
    ensures SameRegion(t2, t5, max, d, be + 1, e)
    ensures SameRegion(t4, t5, max, d + 1, bs, be)
    ensures SameSlot(t3, t4, Slot(bs, d, max))
    ensures SameOutside(t0, t5, rows, max, d, s, e)
  {
    assert s <= bs <= be <= e < rows && d < max;
    hide SameSlot, Slot, Stages;
    forall row: nat, col: nat | row < rows && col < max
      ensures row < bs && d <= col && s <= row ==> SameSlot(t1, t5, Slot(row, col, max))
      ensures be < row && d <= col && row <= e ==> SameSlot(t2, t5, Slot(row, col, max))
      ensures bs <= row <= be && d < col ==> SameSlot(t4, t5, Slot(row, col, max))
      ensures !(s <= row <= e && d <= col) ==> SameSlot(t0, t5, Slot(row, col, max))
    {
      StagesKeep(rows, max, t0, t1, t2, t3, t4, t5, d, s, e, bs, be, row, col);
    }
    StagesKeep(rows, max, t0, t1, t2, t3, t4, t5, d, s, e, bs, be, bs, d);
  }

  lemma SlotIsFilled(ps: seq<seq<byte>>, max: nat, t3: Tables, t4: Tables, t5: Tables, d: nat, s: nat, e: nat,
                     higher: schar, lower: schar, next: schar)
    requires Range(ps, d, s, e) && Ready(ps, max) && d < max && At(ps[s], d) != 0 && Sized(t5, |ps|, max)
    requires GroupSplits(ps, d, s, e, GroupStart(ps, d, s, e), GroupEnd(ps, d, s, e))
    requires var i := Slot(GroupStart(ps, d, s, e), d, max);
      SameSlot(t3, t4, i) && t3.hi[i] == higher && t3.lo[i] == lower && t4.hi == t5.hi && t4.lo == t5.lo
      && i < |t5.nx| && t5.nx[i] == next
    requires higher == if GroupStart(ps, d, s, e) == s then -1 else Entry(ps, max, d, s, GroupStart(ps, d, s, e) - 1)
    requires lower == if GroupEnd(ps, d, s, e) == e then -1 else Entry(ps, max, d, GroupEnd(ps, d, s, e) + 1, e)
    requires next == Entry(ps, max, d + 1, GroupStart(ps, d, s, e), GroupEnd(ps, d, s, e))
    ensures SlotFilled(ps, max, t5, d, s, e)
  {
    hide Descending, AllText, GroupStart, GroupEnd, Entry, Slot;
  }

  /** The group's slot, both sides and the deeper group together fill the range. */
  lemma FilledByParts(ps: seq<seq<byte>>, max: nat, t1: Tables, t2: Tables, t4: Tables, t5: Tables,
                      d: nat, s: nat, e: nat, bs: nat, be: nat)
    requires Range(ps, d, s, e) && Ready(ps, max) && d < max && At(ps[s], d) != 0
    requires bs == GroupStart(ps, d, s, e) && be == GroupEnd(ps, d, s, e) && GroupSplits(ps, d, s, e, bs, be)
    requires Sized(t1, |ps|, max) && Sized(t2, |ps|, max) && Sized(t4, |ps|, max) && Sized(t5, |ps|, max)
    requires SameRegion(t1, t5, max, d, s, bs - 1) && (bs > s ==> Filled(ps, max, t1, d, s, bs - 1))
    requires SameRegion(t2, t5, max, d, be + 1, e) && (be < e ==> Filled(ps, max, t2, d, be + 1, e))
    requires SameRegion(t4, t5, max, d + 1, bs, be) && Filled(ps, max, t4, d + 1, bs, be)
    requires SlotFilled(ps, max, t5, d, s, e)
    ensures Filled(ps, max, t5, d, s, e)
  {
    hide Descending, AllText, GroupStart, GroupEnd, SlotFilled, SameRegion, Range;
    if bs > s { FilledStays(ps, max, t1, t5, d, s, bs - 1); }
    if be < e { FilledStays(ps, max, t2, t5, d, be + 1, e); }
    FilledStays(ps, max, t4, t5, d + 1, bs, be);
  }

  /** The run of equal bytes around the middle of a range. */
  method FindCenterGroupBorder(ps: seq<seq<byte>>, d: nat, start: int, end: int) returns (bs: int, be: int)
    requires 0 <= start <= end < |ps|
    ensures bs == GroupStart(ps, d, start, end) && be == GroupEnd(ps, d, start, end)
  {
    var m := (start + end) / 2;
    var c := At(ps[m], d);
    bs := m;
    var i := m - 1;
    while i >= start
      invariant start - 1 <= i == bs - 1 && bs <= m && At(ps[bs], d) == c
      invariant RunStart(ps, d, start, bs, c) == RunStart(ps, d, start, m, c)
    {
      if At(ps[i], d) == c {
        bs := i;
      } else {
        break;
      }
      i := i - 1;
    }
    be := m;
    i := m + 1;
    while i <= end
      invariant m < i == be + 1 <= end + 1 && At(ps[be], d) == c
      invariant RunEnd(ps, d, be, end, c) == RunEnd(ps, d, m, end, c)
    {
      if At(ps[i], d) == c {
        be := i;
      } else {
        break;
      }
      i := i + 1;
    }
  }

  ghost function Snapshot(hi: array<schar>, lo: array<schar>, nx: array<schar>): Tables
    reads hi, lo, nx
  {
    Tables(hi[..], lo[..], nx[..])
  }

  /** Recursively fills the tables for one range: first both sides of its center group,
      then the group's own slot, then the group one byte deeper. */
  method FillJumpTables(ps: seq<seq<byte>>, max: nat, hi: array<schar>, lo: array<schar>, nx: array<schar>,
                        depth: nat, start: int, end: int)
    returns (r: schar)
    requires Range(ps, depth, start, end) && Ready(ps, max)
    requires hi != lo && lo != nx && nx != hi && Sized(Snapshot(hi, lo, nx), |ps|, max)
    modifies hi, lo, nx
    ensures r == Entry(ps, max, depth, start, end)
    ensures Filled(ps, max, Snapshot(hi, lo, nx), depth, start, end)
    ensures SameOutside(old(Snapshot(hi, lo, nx)), Snapshot(hi, lo, nx), |ps|, max, depth, start, end)
    decreases max - depth, end - start
  {
    hide Slot, Descending, AllText, RunStart, RunEnd, GroupStart, GroupEnd, Filled, SlotFilled, SameOutside, WrittenAt,
      SameSlot;
    ghost var t0 := Snapshot(hi, lo, nx);
    SameOutsideItself(t0, |ps|, max, depth, start, end);
    if depth >= max || At(ps[start], depth) == 0 {
      FilledTrivially(ps, max, t0, depth, start, end);
      return start;
    }
    var bs, be := FindCenterGroupBorder(ps, depth, start, end);
    GroupIsRange(ps, depth, start, end);
    var higher: schar, lower: schar := -1, -1;
    if bs != start {
      higher := FillJumpTables(ps, max, hi, lo, nx, depth, start, bs - 1);
    } else {
      SameOutsideItself(t0, |ps|, max, depth, start, bs - 1);
    }
    ghost var t1 := Snapshot(hi, lo, nx);
    assert SameOutside(t0, t1, |ps|, max, depth, start, bs - 1);
    if be != end {
      lower := FillJumpTables(ps, max, hi, lo, nx, depth, be + 1, end);
    } else {
      SameOutsideItself(t1, |ps|, max, depth, be + 1, end);
    }
    ghost var t2 := Snapshot(hi, lo, nx);
    assert SameOutside(t1, t2, |ps|, max, depth, be + 1, end);
    SlotInside(bs, depth, |ps|, max);
    var idx := Slot(bs, depth, max);
    hi[idx] := higher;
    lo[idx] := lower;
    ghost var t3 := Snapshot(hi, lo, nx);
    WriteHiLo(t2, idx, higher, lower);
    assert t3 == Tables(t2.hi[idx := higher], t2.lo[idx := lower], t2.nx);
    var next := FillJumpTables(ps, max, hi, lo, nx, depth + 1, bs, be);
    ghost var t4 := Snapshot(hi, lo, nx);
    assert SameOutside(t3, t4, |ps|, max, depth + 1, bs, be);
    nx[idx] := next;
    ghost var t5 := Snapshot(hi, lo, nx);
    WriteNext(t4, idx, next);
    assert t5 == Tables(t4.hi, t4.lo, t4.nx[idx := next]);
    StagesAgree(|ps|, max, t0, t1, t2, t3, t4, t5, depth, start, end, bs, be);
    SlotIsFilled(ps, max, t3, t4, t5, depth, start, end, higher, lower, next);
    FilledByParts(ps, max, t1, t2, t4, t5, depth, start, end, bs, be);
    r := bs;
  }
}
