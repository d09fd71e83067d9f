/** `RB_REMOVE_COLOR` on the linked nodes. */
module RbRemoveColor {
  import opened RbNodes
  import opened RbColors
  import opened RbLack
  import opened RbTree

  /** The nodes a climb of the loop has still to come to. */
  ghost function Above<K>(f: Shape<K>, p: Node?<K>): set<Node<K>> {
    if p == null then {} else Outside(f, p)
  }

  lemma SinkClimbs<K(!new)>(f: Shape<K>, g: Shape<K>, p: Node<K>)
    requires Linked(f) && SameLinks(f, g) && p in f.cells
    ensures SameNodes(f, g) && p in g.cells && g.Parent(p) == f.Parent(p)
    ensures f.Parent(p) != null ==> f.Parent(p) in f.cells && Above(g, f.Parent(p)) < Above(f, p)
  {
    assert Links(f, p) && SameLinkAt(f, g, p);
    SameLinksNodes(f, g);
    if f.Parent(p) != null {
      OutsideShrinks(f, p, f.Parent(p));
      assert SameLinkAt(f, g, f.Parent(p));
    }
  }

  /** The sibling is red: it takes the place of `parent`, and one of its children becomes the sibling. */
  method RedSiblingLeft<K(!new)>(head: Head<K>, parent: Node<K>, ghost elm: Node?<K>)
    requires Lacking(head.View(), parent, elm) && parent in head.nodes && parent.left == elm && !Red(head.View(), elm)
    requires Red(head.View(), parent.right)
    modifies head`root, head`marks, head.nodes`left, head.nodes`right, head.nodes`parent, head.nodes`red
    ensures Lacking(head.View(), parent, elm) && parent.left == elm && parent.red && !Red(head.View(), elm)
    ensures !Red(head.View(), parent.right) && SameNodes(old(head.View()), head.View())
  {
    hide Lacking, SameLinks, SwapColors, Linked, TurnedLeft, SameNodes;
    ghost var f := head.View();
    SiblingFacts(f, parent, elm);
    LackingLinked(f, parent, elm);
    var tmp := parent.right;
    head.SetBlackRed(tmp, parent);
    ghost var f1 := head.View();
    SwapLinked(f, f1, tmp, parent);
    tmp := head.RotateLeft(parent);
    RedSiblingKeeps(f, f1, head.View(), parent, elm);
    TurnLeftNodes(f1, head.View(), parent);
    NodesTransit(f, f1, head.View());
  }

  /** The mirror image. */
  method RedSiblingRight<K(!new)>(head: Head<K>, parent: Node<K>, ghost elm: Node?<K>)
    requires Lacking(head.View(), parent, elm) && parent in head.nodes && parent.right == elm && !Red(head.View(), elm)
    requires Red(head.View(), parent.left)
    modifies head`root, head`marks, head.nodes`left, head.nodes`right, head.nodes`parent, head.nodes`red
    ensures Lacking(head.View(), parent, elm) && parent.right == elm && parent.red && !Red(head.View(), elm)
    ensures !Red(head.View(), parent.left) && SameNodes(old(head.View()), head.View())
  {
    hide Lacking, SameLinks, SwapColors, Linked, TurnedRight, SameNodes;
    ghost var f := head.View();
    SiblingRightFacts(f, parent, elm);
    LackingLinked(f, parent, elm);
    var tmp := parent.left;
    head.SetBlackRed(tmp, parent);
    ghost var f1 := head.View();
    SwapLinked(f, f1, tmp, parent);
    tmp := head.RotateRight(parent);
    RedSiblingRightKeeps(f, f1, head.View(), parent, elm);
    TurnRightNodes(f1, head.View(), parent);
    NodesTransit(f, f1, head.View());
  }

  lemma SinkFacts<K(!new)>(f: Shape<K>, p: Node<K>, c: Node?<K>, tmp: Node<K>)
    requires Lacking(f, p, c) && {p, tmp} <= f.cells.Keys && f.marks.Keys == f.cells.Keys && BlackFamily(f, tmp)
    requires (f.Left(p) == c && f.Right(p) == tmp) || (f.Right(p) == c && f.Left(p) == tmp)
    ensures Linked(f) && p != tmp && f.marks[tmp].black >= 1 && f.marks[p].black >= 1
  {
    hide Linked, Lacking;
    LackingLinked(f, p, c);
    if f.Left(p) == c { SiblingFacts(f, p, c); } else { SiblingRightFacts(f, p, c); }
  }

  lemma SinkKeeps<K(!new)>(f: Shape<K>, g: Shape<K>, p: Node<K>, c: Node?<K>, tmp: Node<K>)
    requires Lacking(f, p, c) && {p, tmp} <= f.cells.Keys && BlackFamily(f, tmp) && !Red(f, c)
    requires (f.Left(p) == c && f.Right(p) == tmp) || (f.Right(p) == c && f.Left(p) == tmp)
    requires SinkStep(f, g, p, tmp)
    ensures Lacking(g, f.Parent(p), p) && g.cells[p].red == f.cells[p].red
    ensures SameNodes(f, g) && g.Parent(p) == f.Parent(p)
    ensures f.Parent(p) != null ==> Above(g, f.Parent(p)) < Above(f, p)
  {
    hide Linked, Lacking, SinkStep, BlackFamily, Above, SameNodes;
    LackingLinked(f, p, c);
    if f.Left(p) == c { SinkMoves(f, g, p, c); } else { SinkRightMoves(f, g, p, c); }
    SinkClimbs(f, g, p);
  }

  /** The sibling has black children: it turns red, and now `parent` is one black node short. */
  method Sink<K(!new)>(head: Head<K>, parent: Node<K>, tmp: Node<K>, ghost elm: Node?<K>)
    requires Lacking(head.View(), parent, elm) && {parent, tmp} <= head.nodes && !Red(head.View(), elm)
    requires head.marks.Keys == head.nodes
    requires (parent.left == elm && parent.right == tmp) || (parent.right == elm && parent.left == tmp)
    requires BlackFamily(head.View(), tmp)
    modifies head`marks, tmp`red
    ensures Lacking(head.View(), parent.parent, parent) && SameNodes(old(head.View()), head.View())
    ensures parent.red == old(parent.red)
    ensures parent.parent != null ==> Above(head.View(), parent.parent) < Above(old(head.View()), parent)
  {
    hide Lacking, PaintedStep, SameLinks, SinkStep, Painted, Linked, SameNodes, Above, BlackFamily;
    ghost var f := head.View();
    SinkFacts(f, parent, elm, tmp);
    PaintedIsStep(f, tmp, true, f.marks[tmp].black - 1);
    head.Paint(tmp, true, f.marks[tmp].black - 1);
    ghost var f1 := head.View();
    PaintedIsStep(f1, parent, parent.red, f.marks[parent].black - 1);
    head.Remark(parent, f.marks[parent].black - 1);
    PaintSink(f, f1, head.View(), parent, tmp);
    SinkKeeps(f, head.View(), parent, elm, tmp);
  }

  lemma SwapStays<K(!new)>(f: Shape<K>, g: Shape<K>, black: Node<K>, red: Node<K>)
    requires SwapColors(f, g, black, red) && f.marks.Keys == f.cells.Keys && red in f.cells
    ensures red in g.cells && g.Left(red) == f.Left(red) && g.Right(red) == f.Right(red)
  {
    assert SameLinkAt(f, g, red);
  }

  lemma FarLinked<K(!new)>(f: Shape<K>, g: Shape<K>, p: Node<K>, c: Node?<K>, tmp: Node<K>, far: Node<K>)
    requires Linked(f) && FarStep(f, g, p, c, tmp, far)
    ensures Linked(g) && SameNodes(f, g) && p in g.cells && g.Left(p) == f.Left(p) && g.Right(p) == f.Right(p)
  {
    SameLinksLinked(f, g);
    SameLinksNodes(f, g);
    assert SameLinkAt(f, g, p);
  }

  /** The sibling takes the colour of `parent`, which turns black, and so does the far child. */
  method FarPaint<K(!new)>(head: Head<K>, parent: Node<K>, tmp: Node<K>, far: Node<K>, ghost elm: Node?<K>)
    requires head.marks.Keys == head.nodes && {parent, tmp, far} <= head.nodes && parent != tmp && tmp != far &&
      far != parent
    requires Black(head.View(), elm) >= 0
    modifies head`marks, parent`red, tmp`red, far`red
    ensures FarStep(old(head.View()), head.View(), parent, elm, tmp, far)
  {
    hide PaintedStep, SameLinks, FarStep, Painted;
    ghost var f := head.View();
    PaintedIsStep(f, tmp, parent.red, f.marks[parent].black);
    head.Paint(tmp, parent.red, f.marks[parent].black);
    ghost var f1 := head.View();
    PaintedIsStep(f1, parent, false, Black(f, elm) + 1);
    head.Paint(parent, false, Black(f, elm) + 1);
    ghost var f2 := head.View();
    PaintedIsStep(f2, far, false, f.marks[far].black + 1);
    head.Paint(far, false, f.marks[far].black + 1);
    PaintFar(f, f1, f2, head.View(), parent, elm, tmp, far);
  }

  /** A black sibling whose near child alone is red: turned, the red child is the far one. */
  method NearRedLeft<K(!new)>(head: Head<K>, parent: Node<K>, tmp: Node<K>, ghost elm: Node?<K>)
    requires Lacking(head.View(), parent, elm) && {parent, tmp} <= head.nodes && parent.left == elm &&
      parent.right == tmp
    requires !Red(head.View(), elm) && !tmp.red && Red(head.View(), tmp.left) && !Red(head.View(), tmp.right)
    modifies head`root, head`marks, head.nodes`left, head.nodes`right, head.nodes`parent, head.nodes`red
    ensures Lacking(head.View(), parent, elm) && parent.left == elm && parent.right == old(tmp.left)
    ensures parent.right != null && parent.right in head.nodes && !parent.right.red &&
      Red(head.View(), parent.right.right)
    ensures !Red(head.View(), elm) && SameNodes(old(head.View()), head.View())
  {
    hide Lacking, SameLinks, SwapColors, Linked, TurnedRight, SameNodes;
    ghost var f := head.View();
    SiblingFacts(f, parent, elm);
    LackingLinked(f, parent, elm);
    var near: Node := tmp.left;
    head.SetBlackRed(near, tmp);
    ghost var f1 := head.View();
    SwapLinked(f, f1, near, tmp);
    SwapStays(f, f1, near, tmp);
    near := head.RotateRight(tmp);
    NearRedKeeps(f, f1, head.View(), parent, elm, tmp, near);
    TurnRightNodes(f1, head.View(), tmp);
    NodesTransit(f, f1, head.View());
  }

  /** A black sibling with a red far child: one more turn, and no side is short any more. */
  method FarRedLeft<K(!new)>(head: Head<K>, parent: Node<K>, tmp: Node<K>, ghost elm: Node?<K>)
    requires Lacking(head.View(), parent, elm) && {parent, tmp} <= head.nodes && parent.left == elm &&
      parent.right == tmp
    requires !Red(head.View(), elm) && !tmp.red && Red(head.View(), tmp.right)
    modifies head`root, head`marks, head.nodes`left, head.nodes`right, head.nodes`parent, head.nodes`red
    ensures RedBlack(head.View()) && SameNodes(old(head.View()), head.View())
  {
    hide Lacking, RedBlack, SameLinks, FarStep, Linked, TurnedLeft, SameNodes;
    ghost var f := head.View();
    SiblingFacts(f, parent, elm);
    LackingLinked(f, parent, elm);
    ghost var far: Node := tmp.right;
    FarPaint(head, parent, tmp, tmp.right, elm);
    ghost var f1 := head.View();
    FarLinked(f, f1, parent, elm, tmp, far);
    var turned := head.RotateLeft(parent);
    FarRedRepairs(f, f1, head.View(), parent, elm, tmp, far);
    TurnLeftNodes(f1, head.View(), parent);
    NodesTransit(f, f1, head.View());
  }

  /** The mirror image. */
  method NearRedRight<K(!new)>(head: Head<K>, parent: Node<K>, tmp: Node<K>, ghost elm: Node?<K>)
    requires Lacking(head.View(), parent, elm) && {parent, tmp} <= head.nodes && parent.right == elm &&
      parent.left == tmp
    requires !Red(head.View(), elm) && !tmp.red && Red(head.View(), tmp.right) && !Red(head.View(), tmp.left)
    modifies head`root, head`marks, head.nodes`left, head.nodes`right, head.nodes`parent, head.nodes`red
    ensures Lacking(head.View(), parent, elm) && parent.right == elm && parent.left == old(tmp.right)
    ensures parent.left != null && parent.left in head.nodes && !parent.left.red && Red(head.View(), parent.left.left)
    ensures !Red(head.View(), elm) && SameNodes(old(head.View()), head.View())
  {
    hide Lacking, SameLinks, SwapColors, Linked, TurnedLeft, SameNodes;
    ghost var f := head.View();
    SiblingRightFacts(f, parent, elm);
    LackingLinked(f, parent, elm);
    var near: Node := tmp.right;
    head.SetBlackRed(near, tmp);
    ghost var f1 := head.View();
    SwapLinked(f, f1, near, tmp);
    SwapStays(f, f1, near, tmp);
    near := head.RotateLeft(tmp);
    NearRedRightKeeps(f, f1, head.View(), parent, elm, tmp, near);
    TurnLeftNodes(f1, head.View(), tmp);
    NodesTransit(f, f1, head.View());
  }

  /** The mirror image. */
  method FarRedRight<K(!new)>(head: Head<K>, parent: Node<K>, tmp: Node<K>, ghost elm: Node?<K>)
    requires Lacking(head.View(), parent, elm) && {parent, tmp} <= head.nodes && parent.right == elm &&
      parent.left == tmp
    requires !Red(head.View(), elm) && !tmp.red && Red(head.View(), tmp.left)
    modifies head`root, head`marks, head.nodes`left, head.nodes`right, head.nodes`parent, head.nodes`red
    ensures RedBlack(head.View()) && SameNodes(old(head.View()), head.View())
  {
    hide Lacking, RedBlack, SameLinks, FarStep, Linked, TurnedRight, SameNodes;
    ghost var f := head.View();
    SiblingRightFacts(f, parent, elm);
    LackingLinked(f, parent, elm);
    ghost var far: Node := tmp.left;
    FarPaint(head, parent, tmp, tmp.left, elm);
    ghost var f1 := head.View();
    FarLinked(f, f1, parent, elm, tmp, far);
    var turned := head.RotateRight(parent);
    FarRedRightRepairs(f, f1, head.View(), parent, elm, tmp, far);
    TurnRightNodes(f1, head.View(), parent);
    NodesTransit(f, f1, head.View());
  }

  /** What a round leaves: the lack one node further up, or none. */
  ghost predicate Rounded<K(!new)>(f: Shape<K>, g: Shape<K>, p: Node<K>, up: Node?<K>, next: Node?<K>, done: bool) {
    && SameNodes(f, g) && next == (if done then g.root else p)
    && (done ==> RedBlack(g))
    && (!done ==> Lacking(g, up, next) && (up != null ==> Red(g, next) || Above(g, up) < Above(f, p)))
  }

  lemma SiblingChildren<K(!new)>(f: Shape<K>, p: Node<K>, c: Node?<K>, tmp: Node<K>)
    requires Lacking(f, p, c) && tmp in f.cells
    ensures f.Left(tmp) != null ==> f.Left(tmp) in f.cells
    ensures f.Right(tmp) != null ==> f.Right(tmp) in f.cells
  {
    LackingLinked(f, p, c);
    hide Lacking;
    assert Links(f, tmp);
  }

  /** A red sibling first gives way to a black one. */
  method BlackSiblingLeft<K(!new)>(head: Head<K>, parent: Node<K>, ghost elm: Node?<K>) returns (tmp: Node<K>)
    requires Lacking(head.View(), parent, elm) && parent in head.nodes && parent.left == elm && !Red(head.View(), elm)
    modifies head`root, head`marks, head.nodes`left, head.nodes`right, head.nodes`parent, head.nodes`red
    ensures Lacking(head.View(), parent, elm) && parent.left == elm && !Red(head.View(), elm)
    ensures parent.right == tmp && tmp in head.nodes && !tmp.red && head.marks.Keys == head.nodes
    ensures SameNodes(old(head.View()), head.View()) && (parent.red || head.View() == old(head.View()))
  {
    hide Lacking, Linked, SameNodes;
    SiblingFacts(head.View(), parent, elm);
    tmp := parent.right;
    SameNodesItself(head.View());
    if tmp.red {
      RedSiblingLeft(head, parent, elm);
      SiblingFacts(head.View(), parent, elm);
      tmp := parent.right;
    }
  }

  /** A black sibling with a red child ends the loop. */
  method RepairLeft<K(!new)>(head: Head<K>, parent: Node<K>, sibling: Node<K>, ghost elm: Node?<K>)
    requires Lacking(head.View(), parent, elm) && {parent, sibling} <= head.nodes && parent.left == elm
    requires parent.right == sibling && !Red(head.View(), elm) && !sibling.red
    requires Red(head.View(), sibling.left) || Red(head.View(), sibling.right)
    modifies head`root, head`marks, head.nodes`left, head.nodes`right, head.nodes`parent, head.nodes`red
    ensures RedBlack(head.View()) && SameNodes(old(head.View()), head.View())
  {
    hide Lacking, Linked, SameNodes, RedBlack;
    ghost var f := head.View();
    SiblingFacts(f, parent, elm);
    SameNodesItself(f);
    var tmp := sibling;
    if tmp.right == null || !tmp.right.red {
      NearRedLeft(head, parent, tmp, elm);
      tmp := parent.right;
    }
    ghost var f1 := head.View();
    FarRedLeft(head, parent, tmp, elm);
    NodesTransit(f, f1, head.View());
  }

  /** One round of the loop, the short side being the left one. */
  method RoundLeft<K(!new)>(head: Head<K>, parent: Node<K>, elm: Node?<K>)
    returns (up: Node?<K>, next: Node?<K>, done: bool)
    requires Lacking(head.View(), parent, elm) && parent in head.nodes && parent.left == elm && !Red(head.View(), elm)
    modifies head`root, head`marks, head.nodes`left, head.nodes`right, head.nodes`parent, head.nodes`red
    ensures Rounded(old(head.View()), head.View(), parent, up, next, done)
  {
    hide Lacking, Linked, Above, SameNodes, RedBlack;
    ghost var f := head.View();
    var tmp := BlackSiblingLeft(head, parent, elm);
    ghost var f1 := head.View();
    SiblingChildren(f1, parent, elm, tmp);
    if (tmp.left == null || !tmp.left.red) && (tmp.right == null || !tmp.right.red) {
      Sink(head, parent, tmp, elm);
      up, next, done := parent.parent, parent, false;
    } else {
      RepairLeft(head, parent, tmp, elm);
      up, next, done := parent.parent, head.root, true;
    }
    NodesTransit(f, f1, head.View());
  }

  /** The mirror image. */
  method BlackSiblingRight<K(!new)>(head: Head<K>, parent: Node<K>, ghost elm: Node?<K>) returns (tmp: Node<K>)
    requires Lacking(head.View(), parent, elm) && parent in head.nodes && parent.right == elm && !Red(head.View(), elm)
    modifies head`root, head`marks, head.nodes`left, head.nodes`right, head.nodes`parent, head.nodes`red
    ensures Lacking(head.View(), parent, elm) && parent.right == elm && !Red(head.View(), elm)
    ensures parent.left == tmp && tmp in head.nodes && !tmp.red && head.marks.Keys == head.nodes
    ensures SameNodes(old(head.View()), head.View()) && (parent.red || head.View() == old(head.View()))
  {
    hide Lacking, Linked, SameNodes;
    SiblingRightFacts(head.View(), parent, elm);
    tmp := parent.left;
    SameNodesItself(head.View());
    if tmp.red {
      RedSiblingRight(head, parent, elm);
      SiblingRightFacts(head.View(), parent, elm);
      tmp := parent.left;
    }
  }

  /** A black sibling with a red child ends the loop. */
  method RepairRight<K(!new)>(head: Head<K>, parent: Node<K>, sibling: Node<K>, ghost elm: Node?<K>)
    requires Lacking(head.View(), parent, elm) && {parent, sibling} <= head.nodes && parent.right == elm
    requires parent.left == sibling && !Red(head.View(), elm) && !sibling.red
    requires Red(head.View(), sibling.left) || Red(head.View(), sibling.right)
    modifies head`root, head`marks, head.nodes`left, head.nodes`right, head.nodes`parent, head.nodes`red
    ensures RedBlack(head.View()) && SameNodes(old(head.View()), head.View())
  {
    hide Lacking, Linked, SameNodes, RedBlack;
    ghost var f := head.View();
    SiblingRightFacts(f, parent, elm);
    SameNodesItself(f);
    var tmp := sibling;
    if tmp.left == null || !tmp.left.red {
      NearRedRight(head, parent, tmp, elm);
      tmp := parent.left;
    }
    ghost var f1 := head.View();
    FarRedRight(head, parent, tmp, elm);
    NodesTransit(f, f1, head.View());
  }

  /** One round of the loop, the short side being the right one. */
  method RoundRight<K(!new)>(head: Head<K>, parent: Node<K>, elm: Node?<K>)
    returns (up: Node?<K>, next: Node?<K>, done: bool)
    requires Lacking(head.View(), parent, elm) && parent in head.nodes && parent.right == elm && !Red(head.View(), elm)
    modifies head`root, head`marks, head.nodes`left, head.nodes`right, head.nodes`parent, head.nodes`red
    ensures Rounded(old(head.View()), head.View(), parent, up, next, done)
  {
    hide Lacking, Linked, Above, SameNodes, RedBlack;
    ghost var f := head.View();
    var tmp := BlackSiblingRight(head, parent, elm);
    ghost var f1 := head.View();
    SiblingChildren(f1, parent, elm, tmp);
    if (tmp.left == null || !tmp.left.red) && (tmp.right == null || !tmp.right.red) {
      Sink(head, parent, tmp, elm);
      up, next, done := parent.parent, parent, false;
    } else {
      RepairRight(head, parent, tmp, elm);
      up, next, done := parent.parent, head.root, true;
    }
    NodesTransit(f, f1, head.View());
  }

  /** Takes away the lack that removing a black node left at the child `missing` of `above`. */
  method RemoveColor<K(!new)>(head: Head<K>, above: Node?<K>, missing: Node?<K>)
    requires Lacking(head.View(), above, missing)
    modifies head`root, head`marks, head.nodes`left, head.nodes`right, head.nodes`parent, head.nodes`red
    ensures RedBlack(head.View()) && SameNodes(old(head.View()), head.View())
  {
    hide Lacking, Linked, Above, SameNodes, RedBlack;
    var parent, elm := above, missing;
    var done := false;
    LackingLinked(head.View(), parent, elm);
    SameNodesItself(head.View());
    while !done && (elm == null || !elm.red) && elm != head.root
      invariant SameNodes(old(head.View()), head.View())
      invariant done ==> RedBlack(head.View()) && elm == head.root
      invariant !done ==> Lacking(head.View(), parent, elm)
      invariant elm != null ==> elm in head.nodes
      decreases if !done && (elm == null || !elm.red) && elm != head.root then 1 else 0, Above(head.View(), parent)
    {
      ghost var f := head.View();
      LackingLinked(f, parent, elm);
      if parent.left == elm {
        parent, elm, done := RoundLeft(head, parent, elm);
      } else {
        parent, elm, done := RoundRight(head, parent, elm);
      }
      NodesTransit(old(head.View()), f, head.View());
      if !done { LackingLinked(head.View(), parent, elm); } else { RootInside(head.View()); }
    }
    ghost var f := head.View();
    BlackenEnd(head, parent, elm, done);
    NodesTransit(old(head.View()), f, head.View());
  }

  lemma RootInside<K(!new)>(f: Shape<K>)
    requires RedBlack(f)
    ensures f.marks.Keys == f.cells.Keys && (f.root != null ==> f.root in f.cells)
  {
  }

  /** The last write: the node the loop ended at turns black. */
  method BlackenEnd<K(!new)>(head: Head<K>, ghost parent: Node?<K>, elm: Node?<K>, ghost done: bool)
    requires elm != null ==> elm in head.nodes
    requires done ==> RedBlack(head.View()) && elm == head.root
    requires !done ==> Lacking(head.View(), parent, elm) && ((elm != null && elm.red) || elm == head.root)
    modifies head`marks, head.nodes`red
    ensures RedBlack(head.View()) && SameNodes(old(head.View()), head.View())
  {
    hide Lacking, Linked, SameNodes, RedBlack, PaintedStep, Painted;
    ghost var f := head.View();
    SameNodesItself(f);
    if elm != null {
      ghost var black := if elm.red then 1 else 0;
      if done { RootInside(f); RedBlackRoot(f); } else { LackingLinked(f, parent, elm); }
      PaintedIsStep(f, elm, false, f.marks[elm].black + black);
      head.Paint(elm, false, f.marks[elm].black + black);
      PaintedNodes(f, head.View(), elm, f.marks[elm].black + black);
      if f.cells[elm].red {
        PaintRepairs(f, head.View(), parent, elm);
      } else {
        PaintedIdly(f, head.View(), elm);
        if !done { RootRepairs(f, parent, elm); }
      }
    } else if !done {
      RootRepairs(f, parent, elm);
    }
  }

  lemma RedBlackRoot<K(!new)>(f: Shape<K>)
    requires RedBlack(f)
    ensures !Red(f, f.root)
  {
  }

  lemma PaintedNodes<K(!new)>(f: Shape<K>, g: Shape<K>, n: Node<K>, black: int)
    requires f.marks.Keys == f.cells.Keys && PaintedStep(f, g, n, false, black)
    ensures SameNodes(f, g)
  {
    SameLinksNodes(f, g);
  }

  lemma PaintedIdly<K(!new)>(f: Shape<K>, g: Shape<K>, n: Node<K>)
    requires f.marks.Keys == f.cells.Keys && n in f.cells && !f.cells[n].red &&
      g == Painted(f, n, false, f.marks[n].black)
    ensures g == f
  {
  }
}
