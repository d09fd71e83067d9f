/** Subtrees along the paths of the tree: what a descent or a climb may rely on. */
module RbPaths {
  import opened RbNodes
  import opened RbColors

  lemma ChildInside<K(!new)>(f: Shape<K>, n: Node<K>, c: Node<K>)
    requires Linked(f) && n in f.cells && (f.Left(n) == c || f.Right(n) == c)
    ensures c in f.cells && f.marks[c].sub < f.marks[n].sub && c in f.marks[c].sub && n in f.marks[n].sub
  {
    hide RootCovers, TotalOrder, Before;
    assert Links(f, n) && Covers(f, c, c) && Covers(f, n, n);
    forall m | m in f.marks[c].sub ensures m in f.marks[n].sub && m != n {
      assert f.marks[c].sub <= f.cells.Keys;
      assert Covers(f, n, m);
    }
    assert n !in f.marks[c].sub;
  }

  /** A node below `d` other than `d` has its parent below `d`. */
  lemma {:induction false} ParentInside<K(!new)>(f: Shape<K>, d: Node<K>, c: Node<K>)
    requires Linked(f) && d in f.cells && c in f.cells && c in f.marks[d].sub && c != d
    ensures f.Parent(c) != null && f.Parent(c) in f.cells && f.Parent(c) in f.marks[d].sub
    decreases f.marks[d].sub
  {
    hide RootCovers, TotalOrder, Before;
    assert Links(f, d) && Links(f, c) && Covers(f, d, c) && Covers(f, d, d);
    var e := if c in Sub(f, f.Left(d)) then f.Left(d) else f.Right(d);
    ChildInside(f, d, e);
    if c == e {
    } else {
      ParentInside(f, e, c);
    }
  }

  /** The child of a node below `d` is below `d`. */
  lemma {:induction false} SubtreeInside<K(!new)>(f: Shape<K>, d: Node<K>, e: Node<K>, k: Node<K>)
    requires Linked(f) && d in f.cells && e in f.cells && e in f.marks[d].sub && k in f.marks[e].sub
    ensures k in f.marks[d].sub
    decreases f.marks[d].sub
  {
    hide RootCovers, TotalOrder, Before;
    if e == d {
    } else {
      assert Links(f, d) && Covers(f, d, e);
      var c := if e in Sub(f, f.Left(d)) then f.Left(d) else f.Right(d);
      ChildInside(f, d, c);
      SubtreeInside(f, c, e, k);
    }
  }

  /** A node outside a subtree is on the same side of all of it. */
  lemma {:induction false} SameSide<K(!new)>(f: Shape<K>, d: Node<K>, e: Node<K>, k: Node<K>, m: Node<K>)
    requires Linked(f) && {d, e, k, m} <= f.cells.Keys
    requires e in f.marks[d].sub && m in f.marks[d].sub && m !in f.marks[e].sub && k in f.marks[e].sub
    ensures Before(f, e, m) <==> Before(f, k, m)
    ensures Before(f, e, m) || Before(f, m, e)
    decreases f.marks[d].sub
  {
    hide RootCovers, TotalOrder, Before;
    assert Links(f, d) && Covers(f, d, e) && Covers(f, d, m) && Covers(f, d, k);
    assert d != e;
    var x := if e in Sub(f, f.Left(d)) then f.Left(d) else f.Right(d);
    ChildInside(f, d, x);
    SubtreeInside(f, x, e, k);
    if m == d {
      BeforeOnce(f, e, m);
      BeforeOnce(f, k, m);
    } else if m in f.marks[x].sub {
      SameSide(f, x, e, k, m);
    } else if e in Sub(f, f.Left(d)) {
      BeforeTransits(f, e, d, m);
      BeforeTransits(f, k, d, m);
    } else {
      BeforeTransits(f, m, d, e);
      BeforeTransits(f, m, d, k);
      BeforeOnce(f, e, m);
      BeforeOnce(f, k, m);
    }
  }

  lemma BeforeOnce<K(!new)>(f: Shape<K>, a: Node<K>, b: Node<K>)
    requires TotalOrder(f.cmp)
    ensures !(Before(f, a, b) && Before(f, b, a))
  {
  }

  /** Different nodes of one tree have different keys. */
  lemma DistinctKeys<K(!new)>(f: Shape<K>, a: Node<K>, b: Node<K>)
    requires Linked(f) && a in f.cells && b in f.cells && a != b
    ensures Before(f, a, b) || Before(f, b, a)
  {
    hide TotalOrder;
    assert RootCovers(f, a) && RootCovers(f, b);
    if b in f.marks[a].sub {
      assert Covers(f, a, b);
    } else {
      assert Covers(f, a, a);
      SameSide(f, f.root, a, a, b);
    }
  }
}
