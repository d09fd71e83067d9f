/** Removal, and walking through the nodes in order. */
module RbRemove {
  import opened RbNodes
  import opened RbColors
  import opened RbLack
  import opened RbSteps
  import opened RbPaths
  import opened RbOrder
  import opened RbSplice
  import opened RbRename
  import opened RbTree
  import opened RbRemoveColor

  /** The child takes the place of `z`, which is no node of the tree any more. */
  method SpliceOut<K(!new)>(head: Head<K>, z: Node<K>, child: Node?<K>)
    requires Linked(head.View()) && z in head.nodes && OnlyChild(head.View(), z, child)
    modifies head`root, head`marks, head`nodes, head.nodes`left, head.nodes`right, head.nodes`parent
    ensures Spliced(old(head.View()), head.View(), z, child) && head.nodes == old(head.nodes) - {z}
  {
    hide Linked, OnlyChild, Spliced, SplicedMarks;
    ghost var f := head.View();
    SpliceFacts(f, z, child);
    var parent := z.parent;
    head.AdoptChild(child, parent);
    head.HookChild(parent, z, child);
    head.Drop(z, SplicedMarks(f, z));
    SpliceByWrites(f, head.View(), z, child);
  }

  /** All links to `gone` now lead to `e`. */
  method Relink<K(!new)>(head: Head<K>, gone: Node<K>, e: Node<K>)
    requires TakesPlace(head.View(), gone, e)
    modifies head`root, head.nodes`left, head.nodes`right, head.nodes`parent
    ensures head.View() == Relinked(old(head.View()), gone, e)
  {
    var parent, left, right := gone.parent, gone.left, gone.right;
    head.HookChild(parent, gone, e);
    head.AdoptChild(left, e);
    head.AdoptChild(right, e);
  }

  /** `e`, which is in no tree, gets the links and the colour of `gone` and all links to it. */
  method TakePlace<K(!new)>(head: Head<K>, gone: Node<K>, e: Node<K>)
    requires Linked(head.View()) && gone in head.nodes && e !in head.nodes
    modifies head`root, head`marks, head`nodes, e`left, e`right, e`parent, e`red
    modifies head.nodes`left, head.nodes`right, head.nodes`parent
    ensures Renamed(old(head.View()), head.View(), gone, e) && head.nodes == old(head.nodes) - {gone} + {e}
  {
    hide Linked, Renamed, RenamedMarks, Relinked, Swap, Swapped, TakesPlace;
    ghost var f := head.View();
    TakesPlaceNow(f, gone, e);
    RelinkedAt(f, gone, e, gone);
    CopyFields(head, gone, e);
    Relink(head, gone, e);
    ghost var h := head.View();
    head.Exchange(gone, e, RenamedMarks(f, gone, e));
    CopiedNow(f, h, head.View(), gone, e);
    RenameByWrites(f, head.View(), gone, e);
  }

  method CopyFields<K(!new)>(head: Head<K>, gone: Node<K>, e: Node<K>)
    requires gone in head.nodes && e !in head.nodes
    modifies e`left, e`right, e`parent, e`red
    ensures head.View() == old(head.View()) && Cell(e.left, e.right, e.parent, e.red) == head.View().cells[gone]
  {
    e.left, e.right, e.parent, e.red := gone.left, gone.right, gone.parent, gone.red;
    assert head.View().cells == old(head.View()).cells;
  }

  lemma CopiedNow<K(!new)>(f: Shape<K>, h: Shape<K>, g: Shape<K>, gone: Node<K>, e: Node<K>)
    requires gone in f.cells && gone in f.marks && e !in f.cells && h.cells.Keys == f.cells.Keys
    requires h.root == Swap(f.root, gone, e) && h.cmp == f.cmp && h.flip == f.flip
    requires g == h.(cells := (h.cells - {gone})[e := f.cells[gone]], marks := RenamedMarks(f, gone, e))
    ensures Copied(f, h, g, gone, e)
  {
  }

  lemma TakesPlaceNow<K(!new)>(f: Shape<K>, gone: Node<K>, e: Node<K>)
    requires Linked(f) && gone in f.cells && e !in f.cells
    ensures TakesPlace(f, gone, e) && f.marks.Keys == f.cells.Keys
  {
    hide Covers, RootCovers, TotalOrder;
    assert Links(f, gone);
  }

  /** All other nodes are on the same side of a node and of the next one. */
  lemma NextSamePlace<K(!new)>(f: Shape<K>, g: Shape<K>, n: Node<K>, e: Node<K>, m: Node<K>)
    requires Linked(f) && IsNext(f, n, e) && m in f.cells && m != n && m != e && g.cmp == f.cmp && g.flip == f.flip
    ensures SamePlace(g, n, e, m)
  {
    assert NextTo(f, n, e, m);
    DistinctKeys(f, n, m);
    DistinctKeys(f, e, m);
    hide Linked, IsNext;
    if Before(f, m, n) { BeforeTransits(f, m, n, e); BeforeOnce(f, m, n); BeforeOnce(f, m, e); }
    if Before(f, n, m) { BeforeOnce(f, n, m); BeforeOnce(f, e, m); }
    assert Before(g, m, n) == Before(f, m, n) && Before(g, m, e) == Before(f, m, e);
    assert Before(g, n, m) == Before(f, n, m) && Before(g, e, m) == Before(f, e, m);
  }

  /** The leftmost node of a subtree. */
  method GoLeft<K(!new)>(head: Head<K>, top: Node<K>) returns (elm: Node<K>)
    requires Linked(head.View()) && top in head.nodes
    ensures elm in head.nodes && Leftmost(head.View(), top, elm) && elm.left == null
  {
    elm := top;
    LeftmostStarts(head.View(), top);
    while elm.left != null
      invariant elm in head.nodes && Leftmost(head.View(), top, elm)
      decreases Sub(head.View(), elm)
    {
      hide Linked;
      LeftmostStep(head.View(), top, elm);
      elm := elm.left;
    }
  }

  /** The next node up in the order, or none after the last one. */
  method Next<K(!new)>(head: Head<K>, from: Node<K>) returns (elm: Node?<K>)
    requires Linked(head.View()) && from in head.nodes
    ensures elm != null ==> elm in head.nodes
    ensures IsNext(head.View(), from, elm)
  {
    hide Linked, Leftmost, Rightmost, IsNext;
    ghost var f := head.View();
    if from.right != null {
      ChildInside(f, from, from.right);
      elm := GoLeft(head, from.right);
      RightThenLeftmost(f, from, elm);
    } else {
      elm := from;
      RightmostStarts(f, from);
      NextStands(f, from);
      while elm.parent != null && elm == elm.parent.right
        invariant elm != null && elm in head.nodes && Rightmost(f, elm, from) && NextStand(f, elm)
        decreases Outside(f, elm)
      {
        RightmostStep(f, elm, from);
        elm := elm.parent;
        NextStands(f, elm);
      }
      RightmostEnd(f, elm, from);
      elm := elm.parent;
    }
  }

  ghost predicate NextStand<K>(f: Shape<K>, e: Node<K>) {
    && e in f.cells
    && (f.Parent(e) != null ==> f.Parent(e) in f.cells && (f.Left(f.Parent(e)) == e || f.Right(f.Parent(e)) == e))
  }

  lemma NextStands<K(!new)>(f: Shape<K>, e: Node<K>)
    requires Linked(f) && e in f.cells
    ensures NextStand(f, e)
  {
    assert Links(f, e);
  }

  /** A node with two children: the next node leaves its place and takes over this one. */
  method ReplaceByNext<K(!new)>(head: Head<K>, elm: Node<K>, next: Node<K>)
      returns (parent: Node?<K>, child: Node?<K>, red: bool)
    requires head.Valid() && elm in head.nodes && next in head.nodes && next.left == null &&
      IsNext(head.View(), elm, next)
    modifies head`root, head`marks, head`nodes, head.nodes`left, head.nodes`right, head.nodes`parent, head.nodes`red
    ensures head.nodes == old(head.nodes) - {elm}
    ensures if red then RedBlack(head.View()) else Lacking(head.View(), parent, child)
  {
    hide Linked, RedBlack, Lacking, IsNext, Spliced, Renamed;
    ghost var f := head.View();
    RedBlackLinked(f);
    NextIsOther(f, elm, next);
    child, parent, red := next.right, next.parent, next.red;
    SpliceOut(head, next, child);
    ghost var g := head.View();
    SplicedLinked(f, g, next, child);
    if parent == elm {
      parent := next;
    }
    TakePlace(head, elm, next);
    RemovedInner(f, g, head.View(), elm, next, child);
  }

  lemma NextIsOther<K(!new)>(f: Shape<K>, elm: Node<K>, next: Node<K>)
    requires Linked(f) && IsNext(f, elm, next)
    ensures next != elm
  {
    NeverBeforeItself(f, elm);
  }

  method RemoveInner<K(!new)>(head: Head<K>, elm: Node<K>)
    requires head.Valid() && elm in head.nodes && elm.left != null && elm.right != null
    modifies head`root, head`marks, head`nodes, head.nodes`left, head.nodes`right, head.nodes`parent, head.nodes`red
    ensures head.Valid() && head.nodes == old(head.nodes) - {elm}
  {
    hide Linked, RedBlack, Lacking, IsNext, Leftmost;
    ghost var f := head.View();
    RedBlackLinked(f);
    ChildInside(f, elm, elm.right);
    var next := GoLeft(head, elm.right);
    RightThenLeftmost(f, elm, next);
    var parent, child, red := ReplaceByNext(head, elm, next);
    if !red {
      RemoveColor(head, parent, child);
    }
  }

  lemma RemovedInner<K(!new)>(f: Shape<K>, g: Shape<K>, h: Shape<K>, elm: Node<K>, next: Node<K>, child: Node?<K>)
    requires RedBlack(f) && IsNext(f, elm, next) && next in f.cells && child == f.Right(next)
    requires Spliced(f, g, next, child) && Renamed(g, h, elm, next)
    ensures if f.cells[next].red then RedBlack(h) else Lacking(h, Swap(f.Parent(next), elm, next), child)
  {
    hide RedBlack, Lacking, Linked, SamePlace;
    RedBlackLinked(f);
    SplicedKeeps(f, g, next, child);
    forall k | k in g.cells && k != elm ensures SamePlace(g, elm, next, k) {
      NextSamePlace(f, g, elm, next, k);
    }
    RightNotBefore(f, elm, next);
    hide Spliced, IsNext, Renamed;
    if f.cells[next].red {
      RenamedRedBlack(g, h, elm, next);
    } else {
      RenamedLacking(g, h, elm, next, f.Parent(next), child);
    }
  }

  lemma RightNotBefore<K(!new)>(f: Shape<K>, elm: Node<K>, next: Node<K>)
    requires Linked(f) && IsNext(f, elm, next) && next in f.cells && elm in f.cells
    ensures f.Right(next) != elm
  {
    hide RootCovers;
    if f.Right(next) == elm {
      assert Covers(f, next, elm) && Covers(f, elm, elm) && Links(f, next);
      BeforeOnce(f, elm, next);
    }
  }

  /** Takes a node out of the tree and puts the colours in order again. */
  method Remove<K(!new)>(head: Head<K>, elm: Node<K>) returns (removed: Node<K>)
    requires head.Valid() && elm in head.nodes
    modifies head`root, head`marks, head`nodes, head.nodes`left, head.nodes`right, head.nodes`parent, head.nodes`red
    ensures head.Valid() && head.nodes == old(head.nodes) - {elm} && removed == elm
  {
    hide Linked, RedBlack, Lacking, Spliced;
    ghost var f := head.View();
    RedBlackLinked(f);
    var child;
    if elm.left == null {
      child := elm.right;
    } else if elm.right == null {
      child := elm.left;
    } else {
      RemoveInner(head, elm);
      return elm;
    }
    var parent, red := elm.parent, elm.red;
    SpliceOut(head, elm, child);
    SplicedKeeps(f, head.View(), elm, child);
    if !red {
      RemoveColor(head, parent, child);
    }
    return elm;
  }
}
