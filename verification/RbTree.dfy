/** The red-black tree operations on linked nodes. */
module RbTree {
  import opened RbNodes
  import opened RbColors
  import opened RbSteps
  import opened RbPaths
  import opened RbHang

  class Head<K(!new)> {
    constructor (cmp: (K, K) -> int)
      ensures this.cmp == cmp && root == null && nodes == {} && marks == map[]
    {
      this.cmp := cmp;
      root, nodes, marks := null, {}, map[];
    }

    const cmp: (K, K) -> int
    var root: Node?<K>
    ghost var nodes: set<Node<K>>
    ghost var marks: map<Node<K>, Mark<K>>

    /** All fields of all nodes of the tree, as they are now. */
    ghost function View(): (f: Shape<K>)
      reads this, nodes
      ensures f.cells.Keys == nodes && f.marks == marks && f.root == root && f.cmp == cmp && !f.flip
    {
      Shape(root, map n | n in nodes :: Cell(n.left, n.right, n.parent, n.red), marks, cmp, false)
    }

    method SetRoot(r: Node?<K>)
      modifies this`root
      ensures View() == old(View()).SetRoot(r)
    {
      root := r;
    }

    method SetLeft(n: Node<K>, c: Node?<K>)
      requires n in nodes
      modifies n`left
      ensures View() == old(View()).SetLeft(n, c)
    {
      n.left := c;
    }

    method SetRight(n: Node<K>, c: Node?<K>)
      requires n in nodes
      modifies n`right
      ensures View() == old(View()).SetRight(n, c)
    {
      n.right := c;
    }

    method SetParent(n: Node<K>, p: Node?<K>)
      requires n in nodes
      modifies n`parent
      ensures View() == old(View()).SetParent(n, p)
    {
      n.parent := p;
    }

    method SetRed(n: Node<K>, red: bool)
      requires n in nodes
      modifies n`red
      ensures View() == old(View()).SetRed(n, red)
    {
      n.red := red;
    }

    ghost method SetMarks(m: map<Node<K>, Mark<K>>)
      modifies this`marks
      ensures View() == old(View()).(marks := m)
    {
      marks := m;
    }

    /** `z` is no longer a node of the tree. */
    ghost method Drop(z: Node<K>, m: map<Node<K>, Mark<K>>)
      modifies this`nodes, this`marks
      ensures nodes == old(nodes) - {z}
      ensures var f := old(View()); View() == f.(cells := f.cells - {z}, marks := m)
    {
      nodes, marks := nodes - {z}, m;
    }

    /** `e` is a node of the tree and `gone` no longer is. */
    ghost method Exchange(gone: Node<K>, e: Node<K>, m: map<Node<K>, Mark<K>>)
      modifies this`nodes, this`marks
      ensures nodes == old(nodes) - {gone} + {e}
      ensures var f := old(View());
        View() == f.(cells := (f.cells - {gone})[e := Cell(e.left, e.right, e.parent, e.red)], marks := m)
    {
      nodes, marks := nodes - {gone} + {e}, m;
    }

    method HookChild(p: Node?<K>, from: Node<K>, to: Node?<K>)
      requires p != null ==> p in nodes
      modifies this`root, nodes`left, nodes`right
      ensures View() == Hook(old(View()), p, from, to)
    {
      if p != null {
        if p.left == from {
          SetLeft(p, to);
        } else {
          SetRight(p, to);
        }
      } else {
        SetRoot(to);
      }
    }

    method AdoptChild(c: Node?<K>, p: Node?<K>)
      requires c != null ==> c in nodes
      modifies nodes`parent
      ensures View() == Adopt(old(View()), c, p)
    {
      if c != null {
        SetParent(c, p);
      }
    }

    method RotateLeft(elm: Node<K>) returns (tmp: Node<K>)
      requires Linked(View()) && elm in nodes && elm.right != null
      modifies this`root, this`marks, nodes`left, nodes`right, nodes`parent
      ensures TurnedLeft(old(View()), View(), elm) && tmp == old(elm.right)
    {
      hide Linked, LeftTurn, LeftTurnMarks;
      ghost var f := View();
      LeftStepsFits(f, elm);
      LeftTurnFacts(f, elm);
      tmp := elm.right;
      var inner, parent := tmp.left, elm.parent;
      SetRight(elm, inner);
      AdoptChild(inner, elm);
      SetParent(tmp, parent);
      HookChild(parent, elm, tmp);
      SetLeft(tmp, elm);
      SetParent(elm, tmp);
      assert View() == LeftSteps(f, elm, tmp);
      SetMarks(LeftTurnMarks(f, elm));
      LeftStepsTurn(f, elm, View());
    }

    method RotateRight(elm: Node<K>) returns (tmp: Node<K>)
      requires Linked(View()) && elm in nodes && elm.left != null
      modifies this`root, this`marks, nodes`left, nodes`right, nodes`parent
      ensures TurnedRight(old(View()), View(), elm) && tmp == old(elm.left)
    {
      hide Linked, RightTurn, RightTurnMarks;
      ghost var f := View();
      RightStepsFits(f, elm);
      RightTurnFacts(f, elm);
      tmp := elm.left;
      var inner, parent := tmp.right, elm.parent;
      SetLeft(elm, inner);
      AdoptChild(inner, elm);
      SetParent(tmp, parent);
      HookChild(parent, elm, tmp);
      SetRight(tmp, elm);
      SetParent(elm, tmp);
      assert View() == RightSteps(f, elm, tmp);
      SetMarks(RightTurnMarks(f, elm));
      RightStepsTurn(f, elm, View());
    }

    /** Colours a node; its black height follows. */
    method Paint(n: Node<K>, red: bool, ghost black: nat)
      requires n in nodes && n in marks
      modifies this`marks, n`red
      ensures View() == Painted(old(View()), n, red, black)
    {
      SetRed(n, red);
      SetMarks(marks[n := marks[n].(black := black)]);
    }

    /** The colour stays, the black height changes. */
    ghost method Remark(n: Node<K>, black: nat)
      requires n in nodes && n in marks
      modifies this`marks
      ensures View() == Painted(old(View()), n, n.red, black)
    {
      marks := marks[n := marks[n].(black := black)];
      assert View().cells == old(View()).SetRed(n, n.red).cells;
    }

    /** `RB_SET_BLACKRED`. */
    method SetBlackRed(black: Node<K>, red: Node<K>)
      requires marks.Keys == nodes && {black, red} <= nodes && black != red && marks[red].black >= 1
      modifies this`marks, black`red, red`red
      ensures SwapColors(old(View()), View(), black, red)
    {
      hide PaintedStep, SameLinks, SwapColors, Painted;
      ghost var f := View();
      PaintedIsStep(f, black, false, f.marks[black].black + 1);
      Paint(black, false, f.marks[black].black + 1);
      ghost var f1 := View();
      PaintedIsStep(f1, red, true, f.marks[red].black - 1);
      Paint(red, true, f.marks[red].black - 1);
      PaintSwap(f, f1, View(), black, red);
    }

    method InsertColorUncle(uncle: Node<K>, parent: Node<K>, gparent: Node<K>, ghost elm: Node<K>)
      requires Inserting(View(), elm) && Family(View(), elm, uncle, parent, gparent)
      requires uncle.red && parent.red && {uncle, parent, gparent} <= nodes && marks.Keys == nodes
      requires uncle != parent && parent != gparent && gparent != uncle
      modifies this`marks, nodes`red
      ensures Inserting(View(), gparent) && SameLinks(old(View()), View())
    {
      hide Inserting, Family, PaintedStep, SameLinks, RedUncleStep, Painted;
      ghost var f := View();
      PaintedIsStep(f, uncle, false, f.marks[uncle].black + 1);
      Paint(uncle, false, f.marks[uncle].black + 1);
      ghost var f1 := View();
      PaintedIsStep(f1, parent, false, f.marks[parent].black + 1);
      Paint(parent, false, f.marks[parent].black + 1);
      ghost var f2 := View();
      PaintedIsStep(f2, gparent, true, f.marks[gparent].black);
      Paint(gparent, true, f.marks[gparent].black);
      PaintRedUncle(f, f1, f2, View(), uncle, parent, gparent);
      RedUncleKeeps(f, View(), elm, uncle, parent, gparent);
      RedUncleSameLinks(f, View(), uncle, parent, gparent);
    }

    /** The red right child of a red right child: colours are exchanged and the grandparent goes down. */
    method InsertColorOuterLeft(elm: Node<K>, parent: Node<K>, gparent: Node<K>)
      requires Inserting(View(), elm) && {elm, parent, gparent} <= nodes && parent != gparent && marks.Keys == nodes
      requires parent.red && parent.right == elm && gparent.right == parent && !Red(View(), gparent.left)
      requires marks[gparent].black >= 1
      modifies this`root, this`marks, nodes`left, nodes`right, nodes`parent, nodes`red
      ensures Inserting(View(), elm) && !parent.red && elm.parent == parent
      ensures SameNodes(old(View()), View())
    {
      hide Inserting, SameLinks, SwapColors, Linked, TurnedLeft, SameNodes;
      ghost var f := View();
      InsertingLinked(f, elm);
      SetBlackRed(parent, gparent);
      ghost var f2 := View();
      SwapLinked(f, f2, parent, gparent);
      var tmp := RotateLeft(gparent);
      OuterTurnKeeps(f, f2, View(), elm, parent, gparent);
      TurnLeftNodes(f2, View(), gparent);
      NodesTransit(f, f2, View());
    }

    /** The mirror image. */
    method InsertColorOuterRight(elm: Node<K>, parent: Node<K>, gparent: Node<K>)
      requires Inserting(View(), elm) && {elm, parent, gparent} <= nodes && parent != gparent && marks.Keys == nodes
      requires parent.red && parent.left == elm && gparent.left == parent && !Red(View(), gparent.right)
      requires marks[gparent].black >= 1
      modifies this`root, this`marks, nodes`left, nodes`right, nodes`parent, nodes`red
      ensures Inserting(View(), elm) && !parent.red && elm.parent == parent
      ensures SameNodes(old(View()), View())
    {
      hide Inserting, SameLinks, SwapColors, Linked, TurnedRight, SameNodes;
      ghost var f := View();
      InsertingLinked(f, elm);
      SetBlackRed(parent, gparent);
      ghost var f2 := View();
      SwapLinked(f, f2, parent, gparent);
      var tmp := RotateRight(gparent);
      OuterTurnRightKeeps(f, f2, View(), elm, parent, gparent);
      TurnRightNodes(f2, View(), gparent);
      NodesTransit(f, f2, View());
    }

    /** One round of the loop, the parent being the left child of the grandparent. */
    method InsertColorLeft(first: Node<K>) returns (elm: Node<K>)
      requires Inserting(View(), first) && first in nodes && Red(View(), first.parent) && first.parent in nodes
      requires first.parent.parent != null && first.parent.parent in nodes && first.parent.parent.left == first.parent
      modifies this`root, this`marks, nodes`left, nodes`right, nodes`parent, nodes`red
      ensures Inserting(View(), elm) && elm in nodes && SameNodes(old(View()), View())
      ensures Red(View(), elm.parent) ==> Outside(View(), elm) < Outside(old(View()), first)
    {
      hide Inserting, SameLinks, Linked, SameNodes, TurnedLeft, TurnedRight, Family, Outside;
      ghost var f := View();
      elm := first;
      InsertingLinked(f, elm);
      RedParent(f, elm);
      var parent := elm.parent;
      var gparent: Node := parent.parent;
      FamilyOf(f, elm, parent, gparent);
      var tmp := gparent.right;
      if tmp != null && tmp.red {
        InsertColorUncle(tmp, parent, gparent, elm);
        ClimbTwice(f, View(), elm, parent, gparent);
        return gparent;
      }
      if parent.right == elm {
        tmp := RotateLeft(parent);
        InnerTurnKeeps(f, View(), parent, elm);
        InnerTurnLeftStays(f, View(), parent, elm, gparent);
        tmp := parent;
        parent := elm;
        elm := tmp;
        InsertingLinked(View(), elm);
      } else {
        SameNodesItself(f);
      }
      ghost var g := View();
      InsertColorOuterRight(elm, parent, gparent);
      NodesTransit(f, g, View());
    }

    /** One round of the loop, the parent being the right child of the grandparent. */
    method InsertColorRight(first: Node<K>) returns (elm: Node<K>)
      requires Inserting(View(), first) && first in nodes && Red(View(), first.parent) && first.parent in nodes
      requires first.parent.parent != null && first.parent.parent in nodes && first.parent.parent.right == first.parent
      modifies this`root, this`marks, nodes`left, nodes`right, nodes`parent, nodes`red
      ensures Inserting(View(), elm) && elm in nodes && SameNodes(old(View()), View())
      ensures Red(View(), elm.parent) ==> Outside(View(), elm) < Outside(old(View()), first)
    {
      hide Inserting, SameLinks, Linked, SameNodes, TurnedLeft, TurnedRight, Family, Outside;
      ghost var f := View();
      elm := first;
      InsertingLinked(f, elm);
      RedParent(f, elm);
      var parent := elm.parent;
      var gparent: Node := parent.parent;
      FamilyOf(f, elm, parent, gparent);
      var tmp := gparent.left;
      if tmp != null && tmp.red {
        InsertColorUncle(tmp, parent, gparent, elm);
        ClimbTwice(f, View(), elm, parent, gparent);
        return gparent;
      }
      if parent.left == elm {
        tmp := RotateRight(parent);
        InnerTurnRightKeeps(f, View(), parent, elm);
        InnerTurnRightStays(f, View(), parent, elm, gparent);
        tmp := parent;
        parent := elm;
        elm := tmp;
        InsertingLinked(View(), elm);
      } else {
        SameNodesItself(f);
      }
      ghost var g := View();
      InsertColorOuterLeft(elm, parent, gparent);
      NodesTransit(f, g, View());
    }

    /** Restores the red-black conditions after `elm` was hung in as a red leaf. */
    method InsertColor(inserted: Node<K>)
      requires Inserting(View(), inserted)
      modifies this`root, this`marks, nodes`left, nodes`right, nodes`parent, nodes`red
      ensures RedBlack(View()) && SameNodes(old(View()), View())
    {
      hide Inserting, SameNodes, RedBlack, PaintedStep, Painted, RootStep;
      var elm := inserted;
      InsertingLinked(View(), elm);
      SameNodesItself(View());
      while elm.parent != null && elm.parent.red
        invariant elm in nodes && Inserting(View(), elm) && marks.Keys == nodes
        invariant elm.parent != null ==> elm.parent in nodes
        invariant SameNodes(old(View()), View())
        decreases if elm.parent != null && elm.parent.red then 1 else 0, Outside(View(), elm)
      {
        ghost var f := View();
        RedParent(f, elm);
        if elm.parent == elm.parent.parent.left {
          elm := InsertColorLeft(elm);
        } else {
          elm := InsertColorRight(elm);
        }
        NodesTransit(old(View()), f, View());
        InsertingLinked(View(), elm);
      }
      ghost var f := View();
      InsertingLinked(f, elm);
      ghost var b := f.marks[root].black + (if root.red then 1 else 0);
      PaintedIsStep(f, root, false, b);
      Paint(root, false, b);
      RootStepPainted(f, View(), b);
      InsertedIsRedBlack(f, View(), elm);
      RootStepNodes(f, View());
      NodesTransit(old(View()), f, View());
    }

    /** A red-black search tree of exactly `nodes`. */
    ghost predicate Valid()
      reads this, nodes
    {
      RedBlack(View())
    }

    /** Every node that the descent has left behind has another key. */
    ghost predicate Passed(key: K, tmp: Node?<K>)
      reads this, nodes
    {
      forall m :: m in nodes && m !in Sub(View(), tmp) ==> cmp(key, m.key) != 0
    }

    /** One step of a descent for `key`. */
    lemma PassOn(key: K, tmp: Node<K>)
      requires Linked(View()) && tmp in nodes && Passed(key, tmp)
      ensures cmp(key, tmp.key) < 0 ==> Passed(key, tmp.left)
      ensures cmp(key, tmp.key) > 0 ==> Passed(key, tmp.right)
      ensures tmp.left != null ==> tmp.left in nodes && Sub(View(), tmp.left) < Sub(View(), tmp)
      ensures tmp.right != null ==> tmp.right in nodes && Sub(View(), tmp.right) < Sub(View(), tmp)
    {
      hide RootCovers;
      var f := View();
      assert Links(f, tmp);
      if tmp.left != null { ChildInside(f, tmp, tmp.left); }
      if tmp.right != null { ChildInside(f, tmp, tmp.right); }
      forall m | m in nodes && m in Sub(f, tmp)
        ensures cmp(key, tmp.key) < 0 && m !in Sub(f, tmp.left) ==> cmp(key, m.key) != 0
        ensures cmp(key, tmp.key) > 0 && m !in Sub(f, tmp.right) ==> cmp(key, m.key) != 0
      {
        assert Covers(f, tmp, m);
      }
    }

    lemma PassStart(key: K)
      requires Linked(View())
      ensures Passed(key, root) && (root != null ==> root in nodes)
    {
      forall m | m in nodes ensures m in Sub(View(), root) {
        assert RootCovers(View(), m);
      }
    }

    lemma PassEnd(key: K)
      requires Passed(key, null)
      ensures forall m :: m in nodes ==> cmp(key, m.key) != 0
    {
    }

    /** The node with a key equivalent to the sought one, if there is one. */
    method Find(key: K) returns (r: Node?<K>)
      requires Valid()
      ensures r != null ==> r in nodes && cmp(key, r.key) == 0
      ensures r == null ==> forall m :: m in nodes ==> cmp(key, m.key) != 0
    {
      hide Linked, RedBlack, Passed, Sub;
      RedBlackLinked(View());
      r := root;
      PassStart(key);
      while r != null
        invariant r != null ==> r in nodes
        invariant Passed(key, r)
        decreases r != null, Sub(View(), r)
      {
        var comp := cmp(key, r.key);
        PassOn(key, r);
        if comp < 0 {
          r := r.left;
        } else if comp > 0 {
          r := r.right;
        } else {
          return;
        }
      }
      PassEnd(key);
    }

    /** Where a descent for a new node stands: `tmp` below `parent` on the side `comp` says. */
    ghost predicate Descending(elm: Node<K>, parent: Node?<K>, tmp: Node?<K>, comp: int)
      reads this, nodes
    {
      && (tmp != null ==> tmp in nodes && PathTo(View(), elm, tmp))
      && (if parent == null then tmp == root
          else parent in nodes && PathTo(View(), elm, parent)
               && ((comp < 0 && parent.left == tmp && Before(View(), elm, parent))
                   || (comp > 0 && parent.right == tmp && Before(View(), parent, elm))))
    }

    lemma DescendOn(elm: Node<K>, tmp: Node<K>)
      requires Linked(View()) && tmp in nodes && PathTo(View(), elm, tmp)
      ensures cmp(elm.key, tmp.key) < 0 ==> Descending(elm, tmp, tmp.left, cmp(elm.key, tmp.key))
      ensures cmp(elm.key, tmp.key) > 0 ==> Descending(elm, tmp, tmp.right, cmp(elm.key, tmp.key))
    {
      hide PathTo, Covers, RootCovers;
      var f := View();
      assert Links(f, tmp);
      if cmp(elm.key, tmp.key) < 0 && tmp.left != null { PathStep(f, elm, tmp, tmp.left); }
      if cmp(elm.key, tmp.key) > 0 && tmp.right != null { PathStep(f, elm, tmp, tmp.right); }
    }

    lemma DescendStart(elm: Node<K>)
      requires Linked(View())
      ensures Descending(elm, null, root, 0)
    {
      hide PathTo;
      if root != null { PathStarts(View(), elm); }
    }

    /** The place for a new node, or the node that has an equivalent key. */
    method Descend(elm: Node<K>) returns (there: Node?<K>, parent: Node?<K>, comp: int)
      requires Valid()
      ensures there != null ==> there in nodes && cmp(elm.key, there.key) == 0
      ensures there == null ==>
        Descending(elm, parent, null, comp) && forall m :: m in nodes ==> cmp(elm.key, m.key) != 0
    {
      RedBlackLinked(View());
      PassStart(elm.key);
      DescendStart(elm);
      parent, comp := null, 0;
      var tmp := root;
      while tmp != null
        invariant Descending(elm, parent, tmp, comp) && Passed(elm.key, tmp)
        decreases tmp != null, Sub(View(), tmp)
      {
        hide Linked, RedBlack, Passed, Sub, PathTo, Before;
        parent := tmp;
        comp := cmp(elm.key, parent.key);
        PassOn(elm.key, tmp);
        DescendOn(elm, tmp);
        if comp < 0 {
          tmp := tmp.left;
        } else if comp > 0 {
          tmp := tmp.right;
        } else {
          return tmp, parent, comp;
        }
      }
      PassEnd(elm.key);
      there := null;
    }

    /** Hangs in a new node, or answers the one that has an equivalent key already. */
    method Insert(elm: Node<K>) returns (there: Node?<K>)
      requires Valid() && elm !in nodes
      modifies this`root, this`marks, this`nodes, elm, nodes`left, nodes`right, nodes`parent, nodes`red
      ensures Valid()
      ensures there != null ==>
        there in nodes && cmp(elm.key, there.key) == 0 && nodes == old(nodes) && View() == old(View())
      ensures there == null ==> nodes == old(nodes) + {elm} && forall m :: m in old(nodes) ==> cmp(elm.key, m.key) != 0
    {
      var parent, comp;
      there, parent, comp := Descend(elm);
      if there != null {
        return;
      }
      Hang(elm, parent, comp);
      InsertColor(elm);
    }

    /** Makes `elm` a red leaf below `parent`, or the only node. */
    method Hang(elm: Node<K>, parent: Node?<K>, comp: int)
      requires Valid() && elm !in nodes && Descending(elm, parent, null, comp)
      modifies this`root, this`marks, this`nodes, elm, nodes`left, nodes`right
      ensures Inserting(View(), elm) && nodes == old(nodes) + {elm}
    {
      hide RedBlack, Linked, PathTo, Before, HungMarks, Inserting, Hung;
      ghost var f := View();
      RedBlackLinked(f);
      if parent != null {
        var left := comp < 0;
        HangBelow(elm, parent, left);
        HungByWrites(f, View(), parent, elm, left);
        HungInserting(f, View(), parent, elm, left);
      } else {
        elm.parent, elm.left, elm.right, elm.red := null, null, null, true;
        root := elm;
        nodes, marks := {elm}, map[elm := Mark({elm}, 0)];
        FirstInserting(f, View(), elm);
      }
    }

    method HangBelow(elm: Node<K>, parent: Node<K>, left: bool)
      requires elm !in nodes && parent in nodes
      modifies this`marks, this`nodes, elm, parent`left, parent`right
      ensures nodes == old(nodes) + {elm}
      ensures var f := old(View());
        && View().root == f.root && View().marks == HungMarks(f, parent, elm)
        && View().cells == f.cells[elm := Cell(null, null, parent, true)]
             [parent := if left then f.cells[parent].(left := elm) else f.cells[parent].(right := elm)]
    {
      hide HungMarks;
      ghost var want := View().cells[elm := Cell(null, null, parent, true)]
        [parent := if left then View().cells[parent].(left := elm) else View().cells[parent].(right := elm)];
      marks := HungMarks(View(), parent, elm);
      elm.parent, elm.left, elm.right, elm.red := parent, null, null, true;
      if left {
        parent.left := elm;
      } else {
        parent.right := elm;
      }
      nodes := nodes + {elm};
      forall n | n in nodes ensures View().cells[n] == want[n] {
      }
      assert View().cells == want;
    }
  }
}
