/** Putting one node into the place of another: links, colour and mark are handed over. */
module RbRename {
  import opened RbNodes
  import opened RbColors
  import opened RbLack
  import opened RbSteps

  /** A pointer after `e` has taken the place of `gone`. */
  function Swap<K>(c: Node?<K>, gone: Node<K>, e: Node<K>): Node?<K> {
    if c == gone then e else c
  }

  ghost function SwapIn<K>(s: set<Node<K>>, gone: Node<K>, e: Node<K>): set<Node<K>> {
    if gone in s then s - {gone} + {e} else s
  }

  /** Node `n`, which stands where `was` stood. */
  ghost predicate RenamedAt<K>(f: Shape<K>, g: Shape<K>, gone: Node<K>, e: Node<K>, was: Node<K>) {
    && was in f.cells && was in f.marks
    && var n := if was == gone then e else was;
      && n in g.cells && n in g.marks
      && g.cells[n] ==
        Cell(Swap(f.Left(was), gone, e), Swap(f.Right(was), gone, e), Swap(f.Parent(was), gone, e), f.cells[was].red)
      && g.marks[n] == Mark(SwapIn(f.marks[was].sub, gone, e), f.marks[was].black)
  }

  ghost predicate Renamed<K>(f: Shape<K>, g: Shape<K>, gone: Node<K>, e: Node<K>) {
    && gone in f.cells && e !in f.cells
    && g.cells.Keys == f.cells.Keys - {gone} + {e} && g.marks.Keys == f.marks.Keys - {gone} + {e}
    && g.root == Swap(f.root, gone, e) && g.cmp == f.cmp && g.flip == f.flip
    && forall n {:trigger RenamedAt(f, g, gone, e, n)} :: n in f.cells ==> RenamedAt(f, g, gone, e, n)
  }

  /** The new node stands to every other one as the one it replaces did. */
  ghost predicate SamePlace<K>(f: Shape<K>, gone: Node<K>, e: Node<K>, m: Node<K>) {
    && (Before(f, m, gone) <==> Before(f, m, e))
    && (Before(f, gone, m) <==> Before(f, e, m))
  }

  /** The node that stood where `n` stands now. */
  ghost function Was<K>(n: Node<K>, gone: Node<K>, e: Node<K>): Node<K> {
    if n == e then gone else n
  }

  lemma RenamedKey<K(!new)>(f: Shape<K>, g: Shape<K>, gone: Node<K>, e: Node<K>, n: Node<K>)
    requires Renamed(f, g, gone, e) && n in g.cells
    ensures Was(n, gone, e) in f.cells && RenamedAt(f, g, gone, e, Was(n, gone, e))
    ensures g.cmp == f.cmp && g.flip == f.flip && e !in f.cells && n != gone && gone in f.cells
  {
    assert RenamedAt(f, g, gone, e, Was(n, gone, e));
  }

  lemma RenamedSub<K(!new)>(f: Shape<K>, g: Shape<K>, gone: Node<K>, e: Node<K>, c: Node?<K>, m: Node<K>)
    requires f.marks.Keys == f.cells.Keys && Renamed(f, g, gone, e) && (c != null ==> c in f.cells) && m in g.cells
    requires c != null && c in f.marks ==> f.marks[c].sub <= f.cells.Keys
    ensures m in Sub(g, Swap(c, gone, e)) <==> Was(m, gone, e) in Sub(f, c)
  {
    if c != null { assert RenamedAt(f, g, gone, e, c); }
  }

  lemma RenamedLinks<K(!new)>(f: Shape<K>, g: Shape<K>, gone: Node<K>, e: Node<K>, n: Node<K>)
    requires Linked(f) && Renamed(f, g, gone, e) && n in g.cells
    ensures Links(g, n) && g.marks[n].sub <= g.cells.Keys
  {
    hide Covers, RootCovers, TotalOrder;
    RenamedKey(f, g, gone, e, n);
    var w := Was(n, gone, e);
    assert Links(f, w) && f.marks[w].sub <= f.cells.Keys;
    if f.Left(w) != null { assert RenamedAt(f, g, gone, e, f.Left(w)) && Links(f, f.Left(w)); }
    if f.Right(w) != null { assert RenamedAt(f, g, gone, e, f.Right(w)) && Links(f, f.Right(w)); }
    if f.Parent(w) != null { assert RenamedAt(f, g, gone, e, f.Parent(w)); }
  }

  lemma RenamedCovers<K(!new)>(f: Shape<K>, g: Shape<K>, gone: Node<K>, e: Node<K>, n: Node<K>, m: Node<K>)
    requires Linked(f) && Renamed(f, g, gone, e) && n in g.cells && m in g.cells
    requires forall k :: k in f.cells && k != gone ==> SamePlace(f, gone, e, k)
    ensures Covers(g, n, m)
  {
    RenamedKey(f, g, gone, e, n);
    RenamedKey(f, g, gone, e, m);
    hide RootCovers, TotalOrder, Sub;
    var w, v := Was(n, gone, e), Was(m, gone, e);
    assert Covers(f, w, v) && Links(f, w);
    if f.Left(w) != null { assert f.marks[f.Left(w)].sub <= f.cells.Keys; }
    if f.Right(w) != null { assert f.marks[f.Right(w)].sub <= f.cells.Keys; }
    assert f.marks[w].sub <= f.cells.Keys;
    RenamedSub(f, g, gone, e, f.Left(w), m);
    RenamedSub(f, g, gone, e, f.Right(w), m);
    hide Renamed, Linked;
    RenamedOrder(f, g, gone, e, n, m);
    RenamedOrder(f, g, gone, e, m, n);
  }

  lemma RenamedOrder<K(!new)>(f: Shape<K>, g: Shape<K>, gone: Node<K>, e: Node<K>, n: Node<K>, m: Node<K>)
    requires Was(n, gone, e) in f.cells && Was(m, gone, e) in f.cells && g.cmp == f.cmp && g.flip == f.flip
    requires forall k :: k in f.cells && k != gone ==> SamePlace(f, gone, e, k)
    ensures n != m && n != gone && m != gone ==> (Before(f, Was(m, gone, e), Was(n, gone, e)) <==> Before(g, m, n))
  {
    if n == e && m != gone && m != n { assert SamePlace(f, gone, e, m); }
    if m == e && n != gone && m != n { assert SamePlace(f, gone, e, n); }
  }

  lemma RenamedRootCovers<K(!new)>(f: Shape<K>, g: Shape<K>, gone: Node<K>, e: Node<K>, n: Node<K>)
    requires Linked(f) && Renamed(f, g, gone, e) && n in g.cells
    ensures RootCovers(g, n)
  {
    hide Covers, TotalOrder, Links;
    RenamedKey(f, g, gone, e, n);
    assert RootCovers(f, Was(n, gone, e));
    assert f.marks[f.root].sub <= f.cells.Keys;
    RenamedSub(f, g, gone, e, f.root, n);
  }

  lemma RenamedLinked<K(!new)>(f: Shape<K>, g: Shape<K>, gone: Node<K>, e: Node<K>)
    requires Linked(f) && Renamed(f, g, gone, e)
    requires forall k :: k in f.cells && k != gone ==> SamePlace(f, gone, e, k)
    ensures Linked(g)
  {
    hide Covers, RootCovers, TotalOrder, Links, RenamedAt, SamePlace;
    forall n | n in g.cells ensures Links(g, n) && RootCovers(g, n) && g.marks[n].sub <= g.cells.Keys {
      RenamedLinks(f, g, gone, e, n);
      RenamedRootCovers(f, g, gone, e, n);
    }
    forall n, m | n in g.cells && m in g.cells ensures Covers(g, n, m) {
      RenamedCovers(f, g, gone, e, n, m);
    }
  }

  lemma RenamedColors<K(!new)>(f: Shape<K>, g: Shape<K>, gone: Node<K>, e: Node<K>, but: Node?<K>, n: Node<K>)
    requires Linked(f) && Renamed(f, g, gone, e) && n in g.cells
    ensures Even(f, Was(n, gone, e)) ==> Even(g, n)
    ensures NoRedRed(f, Was(n, gone, e), but) ==> NoRedRed(g, n, Swap(but, gone, e))
    ensures ShortLeft(f, Was(n, gone, e)) ==> ShortLeft(g, n)
    ensures ShortRight(f, Was(n, gone, e)) ==> ShortRight(g, n)
  {
    hide Covers, RootCovers, TotalOrder;
    RenamedKey(f, g, gone, e, n);
    var w := Was(n, gone, e);
    assert Links(f, w);
    if f.Left(w) != null { assert RenamedAt(f, g, gone, e, f.Left(w)); }
    if f.Right(w) != null { assert RenamedAt(f, g, gone, e, f.Right(w)); }
  }

  lemma RenamedRed<K(!new)>(f: Shape<K>, g: Shape<K>, gone: Node<K>, e: Node<K>, n: Node?<K>)
    requires f.marks.Keys == f.cells.Keys && Renamed(f, g, gone, e) && (n != null ==> n in f.cells)
    ensures Red(g, Swap(n, gone, e)) <==> Red(f, n)
  {
    if n != null { assert RenamedAt(f, g, gone, e, n); }
  }

  lemma RenamedRedBlack<K(!new)>(f: Shape<K>, g: Shape<K>, gone: Node<K>, e: Node<K>)
    requires RedBlack(f) && Renamed(f, g, gone, e)
    requires forall k :: k in f.cells && k != gone ==> SamePlace(f, gone, e, k)
    ensures RedBlack(g)
  {
    hide Covers, RootCovers, TotalOrder, Links, RenamedAt, SamePlace;
    RenamedLinked(f, g, gone, e);
    RenamedRed(f, g, gone, e, f.root);
    forall n | n in g.cells ensures Even(g, n) && NoRedRed(g, n, null) {
      RenamedColors(f, g, gone, e, null, n);
    }
  }

  lemma RenamedLacking<K(!new)>(f: Shape<K>, g: Shape<K>, gone: Node<K>, e: Node<K>, p: Node?<K>, c: Node?<K>)
    requires Lacking(f, p, c) && Renamed(f, g, gone, e)
    requires forall k :: k in f.cells && k != gone ==> SamePlace(f, gone, e, k)
    ensures Lacking(g, Swap(p, gone, e), Swap(c, gone, e))
  {
    LackingLinked(f, p, c);
    RenamedLinked(f, g, gone, e);
    RenamedRed(f, g, gone, e, f.root);
    if p != null {
      assert RenamedAt(f, g, gone, e, p);
      RenamedColors(f, g, gone, e, c, Swap(p, gone, e));
    }
    hide Covers, RootCovers, TotalOrder, Links, RenamedAt, SamePlace, Even, NoRedRed, ShortLeft, ShortRight;
    forall n | n in g.cells
      ensures n != Swap(p, gone, e) ==> Even(g, n)
      ensures n != Swap(c, gone, e) ==> NoRedRed(g, n, Swap(c, gone, e))
    {
      var w := Was(n, gone, e);
      RenamedColors(f, g, gone, e, c, n);
      if n != Swap(p, gone, e) { assert w != p; assert Even(f, w); }
      if n != Swap(c, gone, e) { assert w != c; assert NoRedRed(f, w, c); }
    }
  }

  ghost function RenamedMark<K>(m: Mark<K>, gone: Node<K>, e: Node<K>): Mark<K> {
    Mark(SwapIn(m.sub, gone, e), m.black)
  }

  ghost function RenamedMarks<K>(f: Shape<K>, gone: Node<K>, e: Node<K>): map<Node<K>, Mark<K>>
    requires gone in f.marks
  {
    (map n | n in f.marks && n != gone :: RenamedMark(f.marks[n], gone, e))[e := RenamedMark(f.marks[gone], gone, e)]
  }

  ghost predicate TakesPlace<K>(f: Shape<K>, gone: Node<K>, e: Node<K>) {
    && gone in f.cells && gone in f.marks && e !in f.cells && e !in f.marks
    && (f.Parent(gone) != null ==> f.Parent(gone) in f.cells)
    && (f.Left(gone) != null ==> f.Left(gone) in f.cells)
    && (f.Right(gone) != null ==> f.Right(gone) in f.cells)
  }

  /** The three links to the old node now lead to the new one. */
  ghost function Relinked<K>(f: Shape<K>, gone: Node<K>, e: Node<K>): (g: Shape<K>)
    requires TakesPlace(f, gone, e)
    ensures g.cells.Keys == f.cells.Keys && g.marks == f.marks
  {
    Adopt(Adopt(Hook(f, f.Parent(gone), gone, e), f.Left(gone), e), f.Right(gone), e)
  }

  /** Who points to `gone`: its parent on one side, and its children. */
  lemma PointersTo<K(!new)>(f: Shape<K>, gone: Node<K>, n: Node<K>)
    requires Linked(f) && gone in f.cells && n in f.cells
    ensures f.Left(n) == gone || f.Right(n) == gone <==> f.Parent(gone) == n
    ensures f.Left(n) == gone ==> f.Right(n) != gone
    ensures f.Parent(n) == gone <==> f.Left(gone) == n || f.Right(gone) == n
    ensures f.Parent(gone) == n ==> f.Parent(n) != gone
    ensures f.Parent(gone) == null <==> f.root == gone
  {
    hide Covers, RootCovers, TotalOrder;
    assert Links(f, gone) && Links(f, n);
    OnlyParentPoints(f, gone, n);
    OnlyParentPoints(f, n, gone);
  }

  lemma RelinkedCell<K(!new)>(f: Shape<K>, gone: Node<K>, e: Node<K>, n: Node<K>)
    requires TakesPlace(f, gone, e) && n in f.cells
    requires f.Parent(gone) != null ==> f.Parent(gone) != f.Left(gone) && f.Parent(gone) != f.Right(gone)
    ensures Relinked(f, gone, e).cells[n] == (
      if n == f.Parent(gone) then (if f.Left(n) == gone then f.cells[n].(left := e) else f.cells[n].(right := e))
      else if n == f.Left(gone) || n == f.Right(gone) then f.cells[n].(parent := e)
      else f.cells[n])
    ensures Relinked(f, gone, e).root == if f.Parent(gone) == null then e else f.root
    ensures Relinked(f, gone, e).cmp == f.cmp && Relinked(f, gone, e).flip == f.flip
  {
  }

  lemma RelinkedAt<K(!new)>(f: Shape<K>, gone: Node<K>, e: Node<K>, n: Node<K>)
    requires Linked(f) && TakesPlace(f, gone, e) && n in f.cells
    ensures Swapped(f, n, gone, e, if n == gone then f.cells[n] else Relinked(f, gone, e).cells[n])
    ensures Relinked(f, gone, e).root == Swap(f.root, gone, e)
    ensures Relinked(f, gone, e).cmp == f.cmp && Relinked(f, gone, e).flip == f.flip
  {
    hide Linked, Relinked;
    PointersTo(f, gone, n);
    PointersTo(f, gone, gone);
    if f.Parent(gone) != null { PointersTo(f, gone, f.Parent(gone)); }
    RelinkedCell(f, gone, e, n);
  }

  ghost predicate Swapped<K>(f: Shape<K>, n: Node<K>, gone: Node<K>, e: Node<K>, c: Cell<K>) {
    && n in f.cells
    && c == Cell(Swap(f.Left(n), gone, e), Swap(f.Right(n), gone, e), Swap(f.Parent(n), gone, e), f.cells[n].red)
  }

  /** The fields are copied to `e`, which now is a node, and `gone` no longer is. */
  ghost predicate Copied<K>(f: Shape<K>, h: Shape<K>, g: Shape<K>, gone: Node<K>, e: Node<K>) {
    && gone in f.cells && gone in f.marks && e !in f.cells
    && h.cells.Keys == f.cells.Keys && h.root == Swap(f.root, gone, e) && h.cmp == f.cmp && h.flip == f.flip
    && g == h.(cells := (h.cells - {gone})[e := f.cells[gone]], marks := RenamedMarks(f, gone, e))
  }

  lemma RenamedByCell<K(!new)>(f: Shape<K>, h: Shape<K>, g: Shape<K>, gone: Node<K>, e: Node<K>, n: Node<K>)
    requires f.marks.Keys == f.cells.Keys && Copied(f, h, g, gone, e) && n in f.cells
    requires Swapped(f, n, gone, e, if n == gone then f.cells[n] else h.cells[n])
    ensures RenamedAt(f, g, gone, e, n)
  {
    hide Swap, SwapIn;
  }

  lemma RenamedByCells<K(!new)>(f: Shape<K>, h: Shape<K>, g: Shape<K>, gone: Node<K>, e: Node<K>)
    requires f.marks.Keys == f.cells.Keys && Copied(f, h, g, gone, e)
    requires forall n :: n in f.cells ==> Swapped(f, n, gone, e, if n == gone then f.cells[n] else h.cells[n])
    ensures Renamed(f, g, gone, e)
  {
    hide RenamedAt, Swapped;
    forall n | n in f.cells ensures RenamedAt(f, g, gone, e, n) {
      RenamedByCell(f, h, g, gone, e, n);
    }
  }

  /** Copying the fields and relinking is renaming. */
  lemma RenameByWrites<K(!new)>(f: Shape<K>, g: Shape<K>, gone: Node<K>, e: Node<K>)
    requires Linked(f) && TakesPlace(f, gone, e) && Copied(f, Relinked(f, gone, e), g, gone, e)
    ensures Renamed(f, g, gone, e)
  {
    assert f.marks.Keys == f.cells.Keys;
    hide Relinked, Swap, Renamed, Swapped, Linked, Copied;
    var h := Relinked(f, gone, e);
    forall n | n in f.cells ensures Swapped(f, n, gone, e, if n == gone then f.cells[n] else h.cells[n]) {
      RelinkedAt(f, gone, e, n);
    }
    RenamedByCells(f, h, g, gone, e);
  }
}
