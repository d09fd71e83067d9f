/** First and last node, the walk through all nodes, and how deep the tree can be. */
module RbWalk {
  import opened RbNodes
  import opened RbColors
  import opened RbPaths
  import opened RbOrder
  import opened RbTree
  import opened RbRemove

  /** The shape whose left is where `val` asks to go. */
  ghost function Facing<K>(f: Shape<K>, val: int): (g: Shape<K>)
    ensures g.root == f.root && g.cells.Keys == f.cells.Keys && g.marks == f.marks
  {
    if val < 0 then f else Mirror(f)
  }

  lemma FacingLinked<K(!new)>(f: Shape<K>, val: int)
    requires Linked(f)
    ensures Linked(Facing(f, val))
    ensures forall n :: n in f.cells ==> Facing(f, val).Left(n) == if val < 0 then f.Left(n) else f.Right(n)
    ensures forall a, b :: Before(Facing(f, val), a, b) == if val < 0 then Before(f, a, b) else Before(f, b, a)
  {
    hide Linked;
    if val >= 0 { MirrorLinked(f); }
  }

  /** No node comes before the end a descent along one side has reached. */
  lemma EndIsFirst<K(!new)>(f: Shape<K>, e: Node<K>, m: Node<K>)
    requires Linked(f) && f.root != null && Leftmost(f, f.root, e) && f.Left(e) == null && m in f.cells && m != e
    ensures Before(f, e, m)
  {
    RootIsThere(f, m);
    LeftmostEnd(f, f.root, e, m);
  }

  /** The least node for a negative `val`, else the greatest. */
  method MinMax<K(!new)>(head: Head<K>, val: int) returns (parent: Node?<K>)
    requires Linked(head.View())
    ensures parent == null <==> head.nodes == {}
    ensures parent != null ==> parent in head.nodes
    ensures forall m :: m in head.nodes && m != parent && parent != null ==>
      if val < 0 then Before(head.View(), parent, m) else Before(head.View(), m, parent)
  {
    ghost var f := head.View();
    ghost var g := Facing(f, val);
    FacingLinked(f, val);
    if head.root != null { LeftmostStarts(g, head.root); }
    forall n | n in head.nodes ensures head.root != null { RootIsThere(f, n); }
    hide Linked, Leftmost, Facing, Before;
    var tmp := head.root;
    parent := null;
    while tmp != null
      invariant tmp != null ==> tmp in head.nodes && Leftmost(g, g.root, tmp)
      invariant parent == null ==> tmp == head.root
      invariant parent != null ==> parent in head.nodes && Leftmost(g, g.root, parent) && tmp == g.Left(parent)
      decreases tmp != null, Sub(g, tmp)
    {
      parent := tmp;
      if g.Left(parent) != null {
        LeftmostStep(g, g.root, parent);
        LeftmostInside(g, g.root, g.Left(parent));
      }
      if val < 0 {
        tmp := tmp.left;
      } else {
        tmp := tmp.right;
      }
    }
    if parent != null {
      forall m | m in head.nodes && m != parent ensures Before(g, parent, m) {
        EndIsFirst(g, parent, m);
      }
    }
  }

  /** What the walk has still to visit: `x` and what comes after it. */
  ghost predicate Ahead<K>(f: Shape<K>, x: Node?<K>, m: Node<K>) {
    x != null && (m == x || Before(f, x, m))
  }

  ghost predicate Ascending<K>(f: Shape<K>, s: seq<Node<K>>) {
    forall i, j :: 0 <= i < j < |s| ==> Before(f, s[i], s[j])
  }

  /** The walk stands at `x` and has been, in order, where it is not ahead. */
  ghost predicate Walked<K>(f: Shape<K>, seen: seq<Node<K>>, x: Node?<K>) {
    && (x != null ==> x in f.cells) && Ascending(f, seen)
    && (forall m :: m in seen ==> m in f.cells && (x != null ==> Before(f, m, x)))
    && (forall m {:trigger Ahead(f, x, m)} :: m in f.cells ==> m in seen || Ahead(f, x, m))
  }

  lemma WalkStep<K(!new)>(f: Shape<K>, seen: seq<Node<K>>, x: Node<K>, y: Node?<K>)
    requires Linked(f) && Walked(f, seen, x) && IsNext(f, x, y)
    ensures Walked(f, seen + [x], y) && x !in seen
  {
    hide Linked;
    assert TotalOrder(f.cmp) by { LinkedOrder(f); }
    if x in seen { NeverBeforeItself(f, x); }
    forall m | m in seen ensures m in f.cells && (y != null ==> Before(f, m, y)) {
      if y != null { BeforeTransits(f, m, x, y); }
    }
    forall m | m in f.cells ensures m in seen + [x] || Ahead(f, y, m) {
      assert Ahead(f, x, m) || m in seen;
      assert NextTo(f, x, y, m);
    }
  }

  lemma LinkedOrder<K(!new)>(f: Shape<K>)
    requires Linked(f)
    ensures TotalOrder(f.cmp)
  {
  }

  lemma WalkStarts<K(!new)>(f: Shape<K>, x: Node?<K>)
    requires x != null ==> x in f.cells
    requires x == null ==> f.cells.Keys == {}
    requires forall m :: m in f.cells && m != x && x != null ==> Before(f, x, m)
    ensures Walked(f, [], x)
  {
  }

  /** `RB_FOREACH`: from the least node along the next ones. */
  method Foreach<K(!new)>(head: Head<K>) returns (seen: seq<Node<K>>)
    requires head.Valid()
    ensures Ascending(head.View(), seen)
    ensures forall m :: m in seen <==> m in head.nodes
  {
    hide Linked, RedBlack, IsNext;
    ghost var f := head.View();
    RedBlackLinked(f);
    seen := [];
    ghost var unseen := head.nodes;
    var x := MinMax(head, -1);
    WalkStarts(f, x);
    while x != null
      invariant x != null ==> x in head.nodes
      invariant Walked(f, seen, x)
      invariant unseen <= head.nodes && forall m :: m in unseen <==> m in head.nodes && m !in seen
      decreases unseen
    {
      hide Walked;
      var y := Next(head, x);
      WalkStep(f, seen, x, y);
      seen := seen + [x];
      unseen := unseen - {x};
      x := y;
    }
    assert forall m :: m in f.cells ==> !Ahead(f, null, m);
  }

  /** Nodes on the longest way down from a child pointer. */
  ghost function Height<K(!new)>(f: Shape<K>, c: Node?<K>): nat
    requires Linked(f) && (c != null ==> c in f.cells)
    decreases Sub(f, c)
  {
    if c == null then 0 else
      ChildrenInside(f, c);
      1 + (if Height(f, f.Left(c)) > Height(f, f.Right(c)) then Height(f, f.Left(c)) else Height(f, f.Right(c)))
  }

  lemma ChildrenInside<K(!new)>(f: Shape<K>, c: Node<K>)
    requires Linked(f) && c in f.cells
    ensures f.Left(c) != null ==> f.Left(c) in f.cells
    ensures f.Right(c) != null ==> f.Right(c) in f.cells
    ensures Sub(f, f.Left(c)) < Sub(f, c) && Sub(f, f.Right(c)) < Sub(f, c)
    ensures Sub(f, f.Left(c)) !! Sub(f, f.Right(c))
    ensures Sub(f, c) == {c} + Sub(f, f.Left(c)) + Sub(f, f.Right(c))
    ensures c !in Sub(f, f.Left(c)) && c !in Sub(f, f.Right(c))
  {
    hide RootCovers, TotalOrder, Before;
    assert Links(f, c) && Covers(f, c, c) && f.marks[c].sub <= f.cells.Keys;
    if f.Left(c) != null { assert f.marks[f.Left(c)].sub <= f.cells.Keys; }
    if f.Right(c) != null { assert f.marks[f.Right(c)].sub <= f.cells.Keys; }
    forall m | m in f.cells
      ensures m in Sub(f, c) <==> m == c || m in Sub(f, f.Left(c)) || m in Sub(f, f.Right(c))
      ensures !(m in Sub(f, f.Left(c)) && m in Sub(f, f.Right(c)))
    {
      assert Covers(f, c, m);
    }
  }

  ghost function Pow2(n: nat): nat {
    if n == 0 then 1 else 2 * Pow2(n - 1)
  }

  /** Red nodes at most double the way, and the black height needs that many nodes. */
  lemma {:induction false} Balanced<K(!new)>(f: Shape<K>, c: Node?<K>)
    requires RedBlack(f) && (c != null ==> c in f.cells)
    ensures Black(f, c) >= 0
    ensures Height(f, c) <= 2 * Black(f, c) + (if Red(f, c) then 1 else 0)
    ensures Pow2(Black(f, c)) <= |Sub(f, c)| + 1
    decreases Sub(f, c)
  {
    if c == null {
    } else {
      hide RedBlack, Height, Black, Pow2;
      ChildrenInside(f, c);
      Balanced(f, f.Left(c));
      Balanced(f, f.Right(c));
      BalancedHere(f, c);
    }
  }

  /** What is known of a child pointer's subtree. */
  ghost predicate IsBalanced<K(!new)>(f: Shape<K>, c: Node?<K>)
    requires Linked(f) && (c != null ==> c in f.cells)
  {
    && Black(f, c) >= 0 && Height(f, c) <= 2 * Black(f, c) + (if Red(f, c) then 1 else 0)
    && Pow2(Black(f, c)) <= |Sub(f, c)| + 1
  }

  lemma BalancedHere<K(!new)>(f: Shape<K>, c: Node<K>)
    requires RedBlack(f) && c in f.cells
    requires f.Left(c) != null ==> f.Left(c) in f.cells
    requires f.Right(c) != null ==> f.Right(c) in f.cells
    requires IsBalanced(f, f.Left(c)) && IsBalanced(f, f.Right(c))
    ensures IsBalanced(f, c)
  {
    hide Linked, Sub;
    ChildrenInside(f, c);
    assert Even(f, c) && NoRedRed(f, c, null);
    SubSize(f, c);
  }

  lemma SubSize<K(!new)>(f: Shape<K>, c: Node<K>)
    requires Linked(f) && c in f.cells
    requires f.Left(c) != null ==> f.Left(c) in f.cells
    requires f.Right(c) != null ==> f.Right(c) in f.cells
    ensures |Sub(f, c)| == 1 + |Sub(f, f.Left(c))| + |Sub(f, f.Right(c))|
  {
    hide Linked, Sub;
    ChildrenInside(f, c);
    var l, r := Sub(f, f.Left(c)), Sub(f, f.Right(c));
    assert |{c} + l + r| == 1 + |l| + |r|;
  }

  lemma {:induction false} Pow2Double(n: nat)
    ensures Pow2(2 * n) == Pow2(n) * Pow2(n) && Pow2(n) >= 1
  {
    if n == 0 {
    } else {
      Pow2Double(n - 1);
      assert Pow2(2 * n) == 2 * Pow2(2 * n - 1) == 4 * Pow2(2 * (n - 1));
    }
  }

  lemma {:induction false} Pow2Grows(a: nat, b: nat)
    requires a <= b
    ensures Pow2(a) <= Pow2(b)
    decreases b
  {
    if a >= b {
    } else {
      Pow2Grows(a, b - 1);
    }
  }

  lemma SquaresGrow(a: nat, b: nat)
    requires a <= b
    ensures a * a <= b * b
  {
    assert b * b == a * a + (b - a) * (b + a);
  }

  /** The height `h` of a tree of `n` nodes is at most `2 lg (n + 1)`: `2^h <= (n + 1)^2`. */
  lemma HeightBound<K(!new)>(f: Shape<K>)
    requires RedBlack(f)
    ensures f.root != null ==> f.root in f.cells
    ensures Pow2(Height(f, f.root)) <= (|f.cells| + 1) * (|f.cells| + 1)
  {
    assert f.root != null ==> f.root in f.cells;
    Balanced(f, f.root);
    var b := Black(f, f.root);
    Pow2Grows(Height(f, f.root), 2 * b);
    Pow2Double(b);
    RootCoversAll(f);
    SquaresGrow(Pow2(b), |f.cells| + 1);
  }

  lemma RootCoversAll<K(!new)>(f: Shape<K>)
    requires Linked(f)
    ensures Sub(f, f.root) == f.cells.Keys && |Sub(f, f.root)| == |f.cells|
  {
    hide Covers, TotalOrder;
    forall n | n in f.cells ensures n in Sub(f, f.root) {
      assert RootCovers(f, n);
    }
    assert |f.cells| == |f.cells.Keys|;
  }
}
