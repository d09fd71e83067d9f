/** Hanging a new red leaf into the tree. */
module RbHang {
  import opened RbNodes
  import opened RbColors
  import opened RbPaths

  /** `p` lies where a descent for the key of `z` comes by: on the side of every node above it. */
  ghost predicate OnPath<K>(f: Shape<K>, z: Node<K>, p: Node<K>, n: Node<K>) {
    && n in f.cells
    && (p in Sub(f, f.Left(n)) ==> Before(f, z, n))
    && (p in Sub(f, f.Right(n)) ==> Before(f, n, z))
  }

  ghost predicate PathTo<K>(f: Shape<K>, z: Node<K>, p: Node<K>) {
    p in f.cells && forall n {:trigger OnPath(f, z, p, n)} :: n in f.cells ==> OnPath(f, z, p, n)
  }

  lemma PathStarts<K(!new)>(f: Shape<K>, z: Node<K>)
    requires Linked(f) && f.root != null
    ensures PathTo(f, z, f.root)
  {
    hide TotalOrder, Before;
    assert Links(f, f.root);
    forall n | n in f.cells ensures OnPath(f, z, f.root, n) {
      assert Links(f, n) && Covers(f, n, f.root);
      if f.root in Sub(f, f.Left(n)) {
        RootAlone(f, n, f.Left(n));
      } else if f.root in Sub(f, f.Right(n)) {
        RootAlone(f, n, f.Right(n));
      }
    }
  }

  lemma RootAlone<K(!new)>(f: Shape<K>, n: Node<K>, c: Node<K>)
    requires Linked(f) && n in f.cells && (f.Left(n) == c || f.Right(n) == c) && f.root != null
    ensures f.root !in Sub(f, c)
  {
    hide TotalOrder, Before;
    assert Links(f, n) && Links(f, f.root) && Links(f, c) && RootCovers(f, n) && RootCovers(f, f.root);
    if f.root in Sub(f, c) {
      if f.root != c {
        ParentInside(f, c, f.root);
      }
    }
  }

  /** One step of the descent stays on the path. */
  lemma PathStep<K(!new)>(f: Shape<K>, z: Node<K>, p: Node<K>, c: Node<K>)
    requires Linked(f) && PathTo(f, z, p) && p in f.cells && c in f.cells
    requires (f.Left(p) == c && Before(f, z, p)) || (f.Right(p) == c && Before(f, p, z))
    ensures PathTo(f, z, c)
  {
    hide TotalOrder, Before;
    assert Links(f, p) && Links(f, c);
    forall n | n in f.cells ensures OnPath(f, z, c, n) {
      assert OnPath(f, z, p, n) && Links(f, n) && Covers(f, n, c) && Covers(f, p, c) && Covers(f, c, c);
      if c in Sub(f, f.Left(n)) {
        if c != f.Left(n) { ParentInside(f, f.Left(n), c); }
      }
      if c in Sub(f, f.Right(n)) {
        if c != f.Right(n) { ParentInside(f, f.Right(n), c); }
      }
    }
  }

  /** What happens to a node when `z` is hung below `p`. */
  ghost predicate HungAt<K>(f: Shape<K>, g: Shape<K>, p: Node<K>, z: Node<K>, left: bool, n: Node<K>) {
    && n in f.cells && n in f.marks && n in g.cells && n in g.marks
    && g.marks[n].black == f.marks[n].black
    && g.marks[n].sub == (if p in f.marks[n].sub then f.marks[n].sub + {z} else f.marks[n].sub)
    && g.cells[n] == if n != p then f.cells[n] else if left then f.cells[n].(left := z) else f.cells[n].(right := z)
  }

  ghost predicate Hung<K>(f: Shape<K>, g: Shape<K>, p: Node<K>, z: Node<K>, left: bool) {
    && p in f.cells && z !in f.cells && z !in f.marks
    && g.cells.Keys == f.cells.Keys + {z} && g.marks.Keys == f.marks.Keys + {z}
    && g.root == f.root && g.cmp == f.cmp && g.flip == f.flip
    && g.cells[z] == Cell(null, null, p, true) && g.marks[z] == Mark({z}, 0)
    && (if left then f.Left(p) == null else f.Right(p) == null)
    && forall n {:trigger HungAt(f, g, p, z, left, n)} :: n in f.cells ==> HungAt(f, g, p, z, left, n)
  }

  lemma HungLinks<K(!new)>(f: Shape<K>, g: Shape<K>, p: Node<K>, z: Node<K>, left: bool, n: Node<K>)
    requires Linked(f) && Hung(f, g, p, z, left) && n in g.cells
    ensures Links(g, n) && RootCovers(g, n) && g.marks[n].sub <= g.cells.Keys
  {
    hide Covers, TotalOrder;
    assert HungAt(f, g, p, z, left, p) && Links(f, p) && RootCovers(f, p) && HungAt(f, g, p, z, left, f.root);
    if n != z {
      assert Links(f, n) && RootCovers(f, n) && HungAt(f, g, p, z, left, n) && f.marks[n].sub <= f.cells.Keys;
      if f.Left(n) != null { assert HungAt(f, g, p, z, left, f.Left(n)); }
      if f.Right(n) != null { assert HungAt(f, g, p, z, left, f.Right(n)); }
      if f.Parent(n) != null { assert HungAt(f, g, p, z, left, f.Parent(n)); }
    }
  }

  lemma HungCovers<K(!new)>(f: Shape<K>, g: Shape<K>, p: Node<K>, z: Node<K>, left: bool, n: Node<K>, m: Node<K>)
    requires Linked(f) && Hung(f, g, p, z, left) && n in g.cells && m in g.cells && PathTo(f, z, p)
    requires if left then Before(f, z, p) else Before(f, p, z)
    ensures Covers(g, n, m)
  {
    hide RootCovers, TotalOrder;
    if n == z {
      if m != z { assert HungAt(f, g, p, z, left, m); }
    } else {
      assert Links(f, n) && HungAt(f, g, p, z, left, n) && OnPath(f, z, p, n) && Covers(f, n, p) &&
        f.marks[n].sub <= f.cells.Keys;
      if f.Left(n) != null { assert HungAt(f, g, p, z, left, f.Left(n)) && f.marks[f.Left(n)].sub <= f.cells.Keys; }
      if f.Right(n) != null { assert HungAt(f, g, p, z, left, f.Right(n)) && f.marks[f.Right(n)].sub <= f.cells.Keys; }
      if m != z { assert Covers(f, n, m); }
    }
  }

  lemma HungColors<K(!new)>(f: Shape<K>, g: Shape<K>, p: Node<K>, z: Node<K>, left: bool, n: Node<K>)
    requires RedBlack(f) && Hung(f, g, p, z, left) && n in g.cells
    ensures Even(g, n) && NoRedRed(g, n, z)
  {
    hide RootCovers, Covers, TotalOrder;
    if n != z {
      assert Links(f, n) && Even(f, n) && NoRedRed(f, n, null) && HungAt(f, g, p, z, left, n);
      if f.Left(n) != null { assert HungAt(f, g, p, z, left, f.Left(n)); }
      if f.Right(n) != null { assert HungAt(f, g, p, z, left, f.Right(n)); }
    }
  }

  /** The tree with the new leaf is ready for `RB_INSERT_COLOR`. */
  lemma HungInserting<K(!new)>(f: Shape<K>, g: Shape<K>, p: Node<K>, z: Node<K>, left: bool)
    requires RedBlack(f) && Hung(f, g, p, z, left) && PathTo(f, z, p)
    requires if left then Before(f, z, p) else Before(f, p, z)
    ensures Inserting(g, z)
  {
    hide Covers, RootCovers, TotalOrder, Even, NoRedRed, Links, PathTo, Before;
    forall n | n in g.cells ensures Links(g, n) && RootCovers(g, n) && g.marks[n].sub <= g.cells.Keys {
      HungLinks(f, g, p, z, left, n);
    }
    forall n, m | n in g.cells && m in g.cells ensures Covers(g, n, m) {
      HungCovers(f, g, p, z, left, n, m);
    }
    forall n | n in g.cells ensures Even(g, n) && NoRedRed(g, n, z) {
      HungColors(f, g, p, z, left, n);
    }
    assert f.root != null by { RootPresent(f, p); }
    assert HungAt(f, g, p, z, left, f.root);
  }

  lemma RootPresent<K(!new)>(f: Shape<K>, p: Node<K>)
    requires Linked(f) && p in f.cells
    ensures f.root != null
  {
    assert RootCovers(f, p);
  }

  /** The first node of a tree. */
  lemma FirstInserting<K(!new)>(f: Shape<K>, g: Shape<K>, z: Node<K>)
    requires Linked(f) && f.root == null
    requires g.root == z && g.cells == map[z := Cell(null, null, null, true)] && g.marks == map[z := Mark({z}, 0)]
    requires g.cmp == f.cmp && g.flip == f.flip
    ensures f.cells.Keys == {} && Inserting(g, z)
  {
    if f.cells.Keys != {} {
      var n :| n in f.cells;
      RootPresent(f, n);
    }
  }

  /** The marks after hanging `z` below `p`: every subtree with `p` gains `z`. */
  ghost function HungMarks<K>(f: Shape<K>, p: Node<K>, z: Node<K>): map<Node<K>, Mark<K>> {
    (map n | n in f.marks :: if p in f.marks[n].sub then f.marks[n].(sub := f.marks[n].sub + {z}) else f.marks[n])
    [z := Mark({z}, 0)]
  }

  /** Writing the new leaf and the parent's link is hanging it. */
  lemma HungByWrites<K(!new)>(f: Shape<K>, g: Shape<K>, p: Node<K>, z: Node<K>, left: bool)
    requires Linked(f) && p in f.cells && z !in f.cells && (if left then f.Left(p) == null else f.Right(p) == null)
    requires g.root == f.root && g.cmp == f.cmp && g.flip == f.flip && g.marks == HungMarks(f, p, z)
    requires g.cells ==
      f.cells[z := Cell(null, null, p, true)][p := if left then f.cells[p].(left := z) else f.cells[p].(right := z)]
    ensures Hung(f, g, p, z, left)
  {
    hide Covers, RootCovers, TotalOrder, Links;
    forall n | n in f.cells ensures HungAt(f, g, p, z, left, n) {}
  }
}
