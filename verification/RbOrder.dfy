/** Neighbours in the order of the keys, found by links alone. */
module RbOrder {
  import opened RbNodes
  import opened RbColors
  import opened RbPaths

  /** No node lies between `e` and `r`; without an `r`, none lies behind `e`. */
  ghost predicate NextTo<K>(f: Shape<K>, e: Node<K>, r: Node?<K>, m: Node<K>) {
    Before(f, e, m) ==> r != null && (m == r || Before(f, r, m))
  }

  /** `r` is the first node behind `e` in the order. */
  ghost predicate IsNext<K>(f: Shape<K>, e: Node<K>, r: Node?<K>) {
    && e in f.cells && (r != null ==> r in f.cells && Before(f, e, r))
    && forall m {:trigger NextTo(f, e, r, m)} :: m in f.cells ==> NextTo(f, e, r, m)
  }

  /** Of the nodes below `top`, those not below `e` come after `e`. */
  ghost predicate Leftmost<K>(f: Shape<K>, top: Node<K>, e: Node<K>) {
    && top in f.cells && e in f.cells && top in f.marks && e in f.marks && e in f.marks[top].sub
    && forall m {:trigger Before(f, e, m)} :: m in f.marks[top].sub && m !in f.marks[e].sub ==> Before(f, e, m)
  }

  lemma LeftmostStarts<K(!new)>(f: Shape<K>, top: Node<K>)
    requires Linked(f) && top in f.cells
    ensures Leftmost(f, top, top)
  {
    assert Covers(f, top, top);
  }

  lemma LeftmostStep<K(!new)>(f: Shape<K>, top: Node<K>, e: Node<K>)
    requires Linked(f) && Leftmost(f, top, e) && f.Left(e) != null
    ensures Leftmost(f, top, f.Left(e)) && Sub(f, f.Left(e)) < Sub(f, e)
  {
    hide TotalOrder, RootCovers, Before;
    var l := f.Left(e);
    assert Links(f, e) && Covers(f, e, l) && Covers(f, l, l);
    ChildInside(f, e, l);
    SubtreeInside(f, top, e, l);
    assert f.marks[top].sub <= f.cells.Keys;
    forall m | m in f.marks[top].sub && m !in f.marks[l].sub ensures Before(f, l, m) {
      assert Covers(f, e, m);
      if m != e { BeforeTransits(f, l, e, m); }
    }
  }

  /** Below `top` nothing comes before the leftmost node. */
  lemma LeftmostEnd<K(!new)>(f: Shape<K>, top: Node<K>, e: Node<K>, m: Node<K>)
    requires Linked(f) && Leftmost(f, top, e) && f.Left(e) == null && m in f.marks[top].sub && m != e
    ensures Before(f, e, m)
  {
    hide TotalOrder, RootCovers;
    assert f.marks[top].sub <= f.cells.Keys;
    assert Covers(f, e, m);
  }

  /** The leftmost node of the right subtree comes next. */
  lemma RightThenLeftmost<K(!new)>(f: Shape<K>, n: Node<K>, e: Node<K>)
    requires Linked(f) && n in f.cells && f.Right(n) != null && Leftmost(f, f.Right(n), e) && f.Left(e) == null
    ensures IsNext(f, n, e) && e != n
  {
    hide TotalOrder, RootCovers, Leftmost, Before;
    var r := f.Right(n);
    assert Links(f, n) && f.root != null && RootCovers(f, n) by { RootIsThere(f, n); }
    ChildInside(f, n, r);
    assert e in f.cells && e in f.marks[r].sub by { LeftmostInside(f, r, e); }
    assert Covers(f, n, e);
    forall m | m in f.cells ensures NextTo(f, n, e, m) {
      assert Covers(f, n, m);
      if Before(f, n, m) && m != e {
        BeforeOnce(f, n, m);
        if m in f.marks[r].sub {
          LeftmostEnd(f, r, e, m);
        } else if m == n {
          NeverBeforeItself(f, n);
        } else {
          assert m !in f.marks[n].sub;
          RootIsThere(f, m);
          RootIsThere(f, n);
          SameSide(f, f.root, n, e, m);
        }
      }
    }
  }

  lemma LeftmostInside<K>(f: Shape<K>, top: Node<K>, e: Node<K>)
    requires Leftmost(f, top, e)
    ensures top in f.cells && e in f.cells && top in f.marks && e in f.marks && e in f.marks[top].sub
  {
  }

  lemma RootIsThere<K(!new)>(f: Shape<K>, n: Node<K>)
    requires Linked(f) && n in f.cells
    ensures f.root != null && f.root in f.cells && n in f.marks[f.root].sub && RootCovers(f, n) && n in f.marks[n].sub
  {
    hide TotalOrder;
    assert RootCovers(f, n) && Covers(f, n, n);
  }

  lemma NeverBeforeItself<K(!new)>(f: Shape<K>, n: Node<K>)
    requires TotalOrder(f.cmp)
    ensures !Before(f, n, n)
  {
  }

  /** A climb from `n` has come to `e`: below `e` nothing comes after `n`. */
  ghost predicate Rightmost<K>(f: Shape<K>, e: Node<K>, n: Node<K>) {
    && e in f.cells && e in f.marks && n in f.cells && n in f.marks[e].sub
    && forall m {:trigger Before(f, m, n)} :: m in f.marks[e].sub && m != n ==> Before(f, m, n)
  }

  lemma RightmostStarts<K(!new)>(f: Shape<K>, n: Node<K>)
    requires Linked(f) && n in f.cells && f.Right(n) == null
    ensures Rightmost(f, n, n)
  {
    hide TotalOrder, RootCovers;
    assert Covers(f, n, n) && f.marks[n].sub <= f.cells.Keys;
    forall m | m in f.marks[n].sub && m != n ensures Before(f, m, n) {
      assert Covers(f, n, m);
    }
  }

  lemma RightmostStep<K(!new)>(f: Shape<K>, e: Node<K>, n: Node<K>)
    requires Linked(f) && Rightmost(f, e, n) && f.Parent(e) != null && f.Parent(e) in f.cells &&
      f.Right(f.Parent(e)) == e
    ensures Rightmost(f, f.Parent(e), n) && Outside(f, f.Parent(e)) < Outside(f, e)
  {
    hide TotalOrder, RootCovers, Before;
    OutsideShrinks(f, e, f.Parent(e));
    var p := f.Parent(e);
    ChildInside(f, p, e);
    assert Covers(f, p, n) && Links(f, p) && f.marks[p].sub <= f.cells.Keys;
    forall m | m in f.marks[p].sub && m != n ensures Before(f, m, n) {
      assert Covers(f, p, m);
      if m !in f.marks[e].sub {
        if m != p { BeforeTransits(f, m, p, n); }
      }
    }
  }

  /** The parent whose left side the climb came from comes next. */
  lemma RightmostEnd<K(!new)>(f: Shape<K>, e: Node<K>, n: Node<K>)
    requires Linked(f) && Rightmost(f, e, n)
    requires f.Parent(e) != null ==> f.Parent(e) in f.cells && f.Left(f.Parent(e)) == e
    ensures IsNext(f, n, f.Parent(e))
  {
    hide TotalOrder, RootCovers, Before;
    var p := f.Parent(e);
    assert Links(f, e);
    if p != null { assert Covers(f, p, n); ChildInside(f, p, e); }
    forall m | m in f.cells ensures NextTo(f, n, p, m) {
      if Before(f, n, m) {
        if m in f.marks[e].sub {
          if m != n { BeforeOnce(f, n, m); } else { NeverBeforeItself(f, n); }
          assert false;
        }
        RootIsThere(f, m);
        RootIsThere(f, n);
        RootIsThere(f, e);
        if p != null && m != p {
          assert Covers(f, p, m);
          if m !in f.marks[p].sub { RootIsThere(f, p); SameSide(f, f.root, p, n, m); }
        }
      }
    }
  }
}
