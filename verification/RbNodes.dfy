/** Red-black tree nodes with parent pointers, and what it means for them to be linked.
    A `Shape` is the content of all the link and colour fields at one moment, together with
    ghost marks that place every node on a line. */
module RbNodes {
  class Node<K> {
    const key: K
    var left: Node?<K>
    var right: Node?<K>
    var parent: Node?<K>
    var red: bool

    constructor (key: K)
      ensures this.key == key
    {
      this.key := key;
      left, right, parent, red := null, null, null, false;
    }
  }

  /** A comparator as `memcmp`-like functions are: a total preorder, zero for equivalent keys. */
  ghost predicate TotalOrder<K(!new)>(cmp: (K, K) -> int) {
    && (forall a, b :: cmp(a, b) < 0 <==> cmp(b, a) > 0)
    && (forall a, b, c :: cmp(a, b) <= 0 && cmp(b, c) <= 0 ==> cmp(a, c) <= 0)
    && (forall a, b, c :: cmp(a, b) < 0 && cmp(b, c) <= 0 ==> cmp(a, c) < 0)
    && (forall a, b, c :: cmp(a, b) <= 0 && cmp(b, c) < 0 ==> cmp(a, c) < 0)
  }

  /** The fields of one node. */
  datatype Cell<K> = Cell(left: Node?<K>, right: Node?<K>, parent: Node?<K>, red: bool)

  /** The nodes of a node's subtree, and the number of black nodes on the way down to a leaf. */
  datatype Mark<K> = Mark(sub: set<Node<K>>, black: nat)

  /** `flip` exchanges the two directions of the order, see `Mirror`. */
  datatype Shape<!K> = Shape(root: Node?<K>, cells: map<Node<K>, Cell<K>>, marks: map<Node<K>, Mark<K>>,
                            cmp: (K, K) -> int, flip: bool) {
    function Left(n: Node<K>): Node?<K> requires n in cells { cells[n].left }
    function Right(n: Node<K>): Node?<K> requires n in cells { cells[n].right }
    function Parent(n: Node<K>): Node?<K> requires n in cells { cells[n].parent }

    function SetRoot(r: Node?<K>): Shape<K> { this.(root := r) }
    function SetLeft(n: Node<K>, c: Node?<K>): Shape<K> requires n in cells {
      this.(cells := cells[n := cells[n].(left := c)])
    }
    function SetRight(n: Node<K>, c: Node?<K>): Shape<K> requires n in cells {
      this.(cells := cells[n := cells[n].(right := c)])
    }
    function SetParent(n: Node<K>, p: Node?<K>): Shape<K> requires n in cells {
      this.(cells := cells[n := cells[n].(parent := p)])
    }
    function SetRed(n: Node<K>, red: bool): Shape<K> requires n in cells {
      this.(cells := cells[n := cells[n].(red := red)])
    }
    function SetMark(n: Node<K>, m: Mark<K>): Shape<K> { this.(marks := marks[n := m]) }
  }

  /** The comparator puts `a` before `b`. */
  ghost predicate Before<K>(f: Shape<K>, a: Node<K>, b: Node<K>) {
    (if f.flip then f.cmp(b.key, a.key) else f.cmp(a.key, b.key)) < 0
  }

  /** The subtree of a child pointer. */
  ghost function Sub<K>(f: Shape<K>, c: Node?<K>): set<Node<K>> {
    if c != null && c in f.marks then f.marks[c].sub else {}
  }

  /** A child points back to its parent. */
  ghost predicate ChildOk<K>(f: Shape<K>, n: Node<K>, c: Node?<K>) {
    c != null ==> c in f.cells && c in f.marks && f.Parent(c) == n
  }

  /** The parent knows the child it points to; only the root has no parent. */
  ghost predicate ParentOk<K>(f: Shape<K>, n: Node<K>, p: Node?<K>) {
    && (p != null ==> p in f.cells && (f.Left(p) == n || f.Right(p) == n))
    && (p == null <==> n == f.root)
  }

  ghost predicate Links<K>(f: Shape<K>, n: Node<K>) {
    && n in f.cells && n in f.marks
    && ChildOk(f, n, f.Left(n)) && ChildOk(f, n, f.Right(n)) && ParentOk(f, n, f.Parent(n))
    && (f.Left(n) != null ==> f.Left(n) != f.Right(n))
  }

  /** Whether `m` is below `n`, on which side, and that this is the side its key asks for. */
  ghost predicate Covers<K>(f: Shape<K>, n: Node<K>, m: Node<K>) {
    && n in f.cells && n in f.marks
    && (m in f.marks[n].sub <==> m == n || m in Sub(f, f.Left(n)) || m in Sub(f, f.Right(n)))
    && !(m in Sub(f, f.Left(n)) && m in Sub(f, f.Right(n)))
    && (m in Sub(f, f.Left(n)) ==> Before(f, m, n) && m != n)
    && (m in Sub(f, f.Right(n)) ==> Before(f, n, m) && m != n)
  }

  ghost predicate RootCovers<K>(f: Shape<K>, m: Node<K>) {
    f.root != null && f.root in f.marks && m in f.marks[f.root].sub
  }

  /** The links make one tree of all the nodes, and it is a search tree. */
  ghost predicate Linked<K(!new)>(f: Shape<K>) {
    && f.marks.Keys == f.cells.Keys && TotalOrder(f.cmp)
    && (f.root != null ==> f.root in f.cells)
    && (forall n {:trigger Links(f, n)} :: n in f.cells ==> Links(f, n))
    && (forall n {:trigger RootCovers(f, n)} :: n in f.cells ==> RootCovers(f, n))
    && (forall n {:trigger f.marks[n]} :: n in f.cells ==> f.marks[n].sub <= f.cells.Keys)
    && (forall n, m {:trigger Covers(f, n, m)} :: n in f.cells && m in f.cells ==> Covers(f, n, m))
  }

  ghost predicate CanTurnLeft<K>(f: Shape<K>, elm: Node<K>) {
    elm in f.cells && elm in f.marks && f.Right(elm) != null && f.Right(elm) in f.cells && f.Right(elm) in f.marks
  }

  /** The link fields of a node after a left rotation at `elm`. */
  ghost function LeftTurn<K>(f: Shape<K>, elm: Node<K>, n: Node<K>): Cell<K>
    requires CanTurnLeft(f, elm) && n in f.cells
  {
    var tmp, c := f.Right(elm), f.cells[n];
    if n == elm then c.(right := f.Left(tmp), parent := tmp)
    else if n == tmp then c.(left := elm, parent := f.Parent(elm))
    else Cell(if c.left == elm then tmp else c.left,
              if c.right == elm then tmp else c.right,
              if n == f.Left(tmp) then elm else c.parent, c.red)
  }

  ghost function LeftTurnMark<K>(f: Shape<K>, elm: Node<K>, n: Node<K>): Mark<K>
    requires CanTurnLeft(f, elm) && n in f.marks
  {
    var tmp := f.Right(elm);
    if n == elm then f.marks[n].(sub := {elm} + Sub(f, f.Left(elm)) + Sub(f, f.Left(tmp)))
    else if n == tmp then f.marks[n].(sub := f.marks[elm].sub)
    else f.marks[n]
  }

  ghost predicate TurnedAt<K>(f: Shape<K>, g: Shape<K>, elm: Node<K>, n: Node<K>) {
    && CanTurnLeft(f, elm) && n in f.cells && n in f.marks && n in g.cells && n in g.marks
    && g.cells[n] == LeftTurn(f, elm, n) && g.marks[n] == LeftTurnMark(f, elm, n)
  }

  /** `g` is `f` after `RB_ROTATE_LEFT` at `elm`. */
  ghost predicate TurnedLeft<K>(f: Shape<K>, g: Shape<K>, elm: Node<K>) {
    && CanTurnLeft(f, elm)
    && g.cells.Keys == f.cells.Keys && g.marks.Keys == f.marks.Keys
    && g.root == (if f.root == elm then f.Right(elm) else f.root) && g.cmp == f.cmp && g.flip == f.flip
    && forall n {:trigger TurnedAt(f, g, elm, n)} :: n in f.cells ==> TurnedAt(f, g, elm, n)
  }

  lemma TurnDown<K(!new)>(f: Shape<K>, g: Shape<K>, elm: Node<K>, n: Node<K>)
    requires Linked(f) && TurnedLeft(f, g, elm) && n in f.cells
    ensures n in g.cells && n in g.marks && ChildOk(g, n, g.Left(n)) && ChildOk(g, n, g.Right(n))
    ensures g.Left(n) != null ==> g.Left(n) != g.Right(n)
  {
    hide Covers, RootCovers, ParentOk, LeftTurnMark, TotalOrder;
    LeftTurnFacts(f, elm);
    var tmp := f.Right(elm);
    assert TurnedAt(f, g, elm, elm) && TurnedAt(f, g, elm, tmp) && TurnedAt(f, g, elm, n);
    assert Links(f, elm) && Links(f, tmp) && Links(f, n);
    if f.Left(n) != null { assert TurnedAt(f, g, elm, f.Left(n)) && Links(f, f.Left(n)); }
    if f.Right(n) != null { assert TurnedAt(f, g, elm, f.Right(n)) && Links(f, f.Right(n)); }
    if n == elm && f.Left(tmp) != null { assert TurnedAt(f, g, elm, f.Left(tmp)) && Links(f, f.Left(tmp)); }
  }

  lemma TurnUp<K(!new)>(f: Shape<K>, g: Shape<K>, elm: Node<K>, n: Node<K>)
    requires Linked(f) && TurnedLeft(f, g, elm) && n in f.cells
    ensures n in g.cells && ParentOk(g, n, g.Parent(n))
  {
    hide Covers, RootCovers, LeftTurnMark, TotalOrder;
    LeftTurnFacts(f, elm);
    var tmp := f.Right(elm);
    assert TurnedAt(f, g, elm, elm) && TurnedAt(f, g, elm, tmp) && TurnedAt(f, g, elm, n);
    assert Links(f, elm) && Links(f, tmp) && Links(f, n);
    if f.Parent(n) != null { assert TurnedAt(f, g, elm, f.Parent(n)); }
    if n == tmp && f.Parent(elm) != null { assert TurnedAt(f, g, elm, f.Parent(elm)); }
  }

  lemma BeforeTransits<K(!new)>(f: Shape<K>, a: Node<K>, b: Node<K>, c: Node<K>)
    requires TotalOrder(f.cmp) && Before(f, a, b) && Before(f, b, c)
    ensures Before(f, a, c)
  {
  }

  lemma TurnCoversMoved<K(!new)>(f: Shape<K>, g: Shape<K>, elm: Node<K>, n: Node<K>, m: Node<K>)
    requires Linked(f) && TurnedLeft(f, g, elm) && n in f.cells && m in f.cells && (n == elm || n == f.Right(elm))
    ensures Covers(g, n, m)
  {
    hide RootCovers, ParentOk, TotalOrder;
    LeftTurnFacts(f, elm);
    var tmp := f.Right(elm);
    assert Covers(f, elm, m) && Covers(f, tmp, m) && Covers(f, tmp, tmp) && Covers(f, elm, tmp);
    if Before(f, m, elm) { BeforeTransits(f, m, elm, tmp); }
    assert TurnedAt(f, g, elm, elm) && TurnedAt(f, g, elm, tmp) && TurnedAt(f, g, elm, m);
    assert Links(f, elm) && Links(f, tmp);
    if n == elm {
      if f.Left(n) != null { assert TurnedAt(f, g, elm, f.Left(n)); }
      if f.Left(tmp) != null { assert TurnedAt(f, g, elm, f.Left(tmp)); }
    } else {
      if f.Right(n) != null { assert TurnedAt(f, g, elm, f.Right(n)); }
    }
  }

  lemma TurnCovers<K(!new)>(f: Shape<K>, g: Shape<K>, elm: Node<K>, n: Node<K>, m: Node<K>)
    requires Linked(f) && TurnedLeft(f, g, elm) && n in f.cells && m in f.cells
    ensures Covers(g, n, m)
  {
    var tmp := f.Right(elm);
    if n == elm || n == tmp {
      TurnCoversMoved(f, g, elm, n, m);
    } else {
      LeftTurnFacts(f, elm);
      hide RootCovers, ParentOk, TotalOrder;
      assert TurnedAt(f, g, elm, elm) && TurnedAt(f, g, elm, tmp) && TurnedAt(f, g, elm, n) && TurnedAt(f, g, elm, m);
      assert Covers(f, n, m) && Links(f, elm) && Links(f, n);
      if f.Left(n) != null { assert TurnedAt(f, g, elm, f.Left(n)); }
      if f.Right(n) != null { assert TurnedAt(f, g, elm, f.Right(n)); }
    }
  }

  lemma TurnSub<K(!new)>(f: Shape<K>, g: Shape<K>, elm: Node<K>, n: Node<K>)
    requires Linked(f) && TurnedLeft(f, g, elm) && n in f.cells
    ensures g.marks[n].sub <= f.cells.Keys
  {
    hide Covers, RootCovers, TotalOrder, LeftTurn;
    assert TurnedAt(f, g, elm, n) && Links(f, elm) && Links(f, f.Right(elm));
    assert f.marks[elm].sub <= f.cells.Keys && f.marks[n].sub <= f.cells.Keys;
  }

  lemma TurnRootCovers<K(!new)>(f: Shape<K>, g: Shape<K>, elm: Node<K>, n: Node<K>)
    requires Linked(f) && TurnedLeft(f, g, elm) && n in f.cells
    ensures RootCovers(g, n)
  {
    hide Covers, TotalOrder;
    LeftTurnFacts(f, elm);
    assert RootCovers(f, n) && Links(f, elm) && Links(f, f.Right(elm)) && TurnedAt(f, g, elm, n);
    assert TurnedAt(f, g, elm, f.Right(elm)) && TurnedAt(f, g, elm, f.root);
  }

  /** A rotation keeps one search tree of the same nodes. */
  lemma TurnLinked<K(!new)>(f: Shape<K>, g: Shape<K>, elm: Node<K>)
    requires Linked(f) && TurnedLeft(f, g, elm)
    ensures Linked(g)
  {
    hide ChildOk, ParentOk, Covers, LeftTurn, LeftTurnMark, TotalOrder;
    forall n | n in f.cells ensures Links(g, n) {
      TurnDown(f, g, elm, n);
      TurnUp(f, g, elm, n);
    }
    forall n | n in f.cells ensures RootCovers(g, n) {
      TurnRootCovers(f, g, elm, n);
    }
    forall n | n in f.cells ensures g.marks[n].sub <= f.cells.Keys {
      TurnSub(f, g, elm, n);
    }
    forall n, m | n in f.cells && m in f.cells ensures Covers(g, n, m) {
      TurnCovers(f, g, elm, n, m);
    }
    if f.root != null && g.root != null { assert Links(f, f.root); }
  }

  ghost predicate CanTurnRight<K>(f: Shape<K>, elm: Node<K>) {
    elm in f.cells && elm in f.marks && f.Left(elm) != null && f.Left(elm) in f.cells && f.Left(elm) in f.marks
  }

  ghost function RightTurn<K>(f: Shape<K>, elm: Node<K>, n: Node<K>): Cell<K>
    requires CanTurnRight(f, elm) && n in f.cells
  {
    var tmp, c := f.Left(elm), f.cells[n];
    if n == elm then c.(left := f.Right(tmp), parent := tmp)
    else if n == tmp then c.(right := elm, parent := f.Parent(elm))
    else Cell(if c.left == elm then tmp else c.left,
              if c.right == elm then tmp else c.right,
              if n == f.Right(tmp) then elm else c.parent, c.red)
  }

  ghost function RightTurnMark<K>(f: Shape<K>, elm: Node<K>, n: Node<K>): Mark<K>
    requires CanTurnRight(f, elm) && n in f.marks
  {
    var tmp := f.Left(elm);
    if n == elm then f.marks[n].(sub := {elm} + Sub(f, f.Right(tmp)) + Sub(f, f.Right(elm)))
    else if n == tmp then f.marks[n].(sub := f.marks[elm].sub)
    else f.marks[n]
  }

  ghost predicate TurnedRightAt<K>(f: Shape<K>, g: Shape<K>, elm: Node<K>, n: Node<K>) {
    && CanTurnRight(f, elm) && n in f.cells && n in f.marks && n in g.cells && n in g.marks
    && g.cells[n] == RightTurn(f, elm, n) && g.marks[n] == RightTurnMark(f, elm, n)
  }

  /** `g` is `f` after `RB_ROTATE_RIGHT` at `elm`. */
  ghost predicate TurnedRight<K>(f: Shape<K>, g: Shape<K>, elm: Node<K>) {
    && CanTurnRight(f, elm)
    && g.cells.Keys == f.cells.Keys && g.marks.Keys == f.marks.Keys
    && g.root == (if f.root == elm then f.Left(elm) else f.root) && g.cmp == f.cmp && g.flip == f.flip
    && forall n {:trigger TurnedRightAt(f, g, elm, n)} :: n in f.cells ==> TurnedRightAt(f, g, elm, n)
  }

  /** Left and right exchanged, and the order with them: what holds of one side then holds
      of the other. */
  ghost function Mirror<K>(f: Shape<K>): (g: Shape<K>)
    ensures g.root == f.root && g.cells.Keys == f.cells.Keys && g.marks == f.marks
  {
    f.(cells := map n | n in f.cells :: Cell(f.Right(n), f.Left(n), f.Parent(n), f.cells[n].red), flip := !f.flip)
  }

  lemma MirrorTwice<K>(f: Shape<K>)
    ensures Mirror(Mirror(f)) == f
  {
  }

  lemma MirrorCovers<K>(f: Shape<K>, n: Node<K>, m: Node<K>)
    requires Covers(f, n, m)
    ensures Covers(Mirror(f), n, m)
  {
  }

  lemma MirrorLinked<K(!new)>(f: Shape<K>)
    requires Linked(f)
    ensures Linked(Mirror(f))
  {
    hide Covers, TotalOrder;
    var g := Mirror(f);
    forall n | n in f.cells ensures Links(g, n) && RootCovers(g, n) {
      assert Links(f, n) && RootCovers(f, n);
    }
    forall n, m | n in f.cells && m in f.cells ensures Covers(g, n, m) {
      assert Covers(f, n, m);
      MirrorCovers(f, n, m);
    }
  }

  lemma MirrorTurnAt<K>(f: Shape<K>, g: Shape<K>, elm: Node<K>, n: Node<K>)
    requires TurnedRightAt(f, g, elm, n) && elm in f.marks
    ensures TurnedAt(Mirror(f), Mirror(g), elm, n)
  {
    var f', g' := Mirror(f), Mirror(g);
    assert f'.cells[n] == Cell(f.Right(n), f.Left(n), f.Parent(n), f.cells[n].red);
    assert g'.cells[n] == Cell(g.Right(n), g.Left(n), g.Parent(n), g.cells[n].red);
    assert f'.Right(elm) == f.Left(elm);
    var tmp := f.Left(elm);
    assert f'.Left(tmp) == f.Right(tmp);
    hide Mirror;
    assert g'.cells[n] == LeftTurn(f', elm, n);
  }

  lemma MirrorTurn<K(!new)>(f: Shape<K>, g: Shape<K>, elm: Node<K>)
    requires TurnedRight(f, g, elm) && f.marks.Keys == f.cells.Keys
    ensures TurnedLeft(Mirror(f), Mirror(g), elm)
  {
    hide LeftTurn, LeftTurnMark, RightTurn, RightTurnMark;
    forall n | n in f.cells ensures TurnedAt(Mirror(f), Mirror(g), elm, n) {
      assert TurnedRightAt(f, g, elm, n);
      MirrorTurnAt(f, g, elm, n);
    }
  }

  lemma TurnRightLinked<K(!new)>(f: Shape<K>, g: Shape<K>, elm: Node<K>)
    requires Linked(f) && TurnedRight(f, g, elm)
    ensures Linked(g)
  {
    MirrorLinked(f);
    MirrorTurn(f, g, elm);
    TurnLinked(Mirror(f), Mirror(g), elm);
    MirrorLinked(Mirror(g));
    MirrorTwice(g);
  }

  /** Only its parent points down to a node, and on one side only. */
  lemma OnlyParentPoints<K(!new)>(f: Shape<K>, c: Node<K>, n: Node<K>)
    requires Linked(f) && c in f.cells && n in f.cells
    ensures f.Left(n) == c || f.Right(n) == c ==> f.Parent(c) == n && f.Left(n) != f.Right(n)
    ensures f.Parent(c) == n ==> f.Left(n) == c || f.Right(n) == c
    ensures f.Parent(n) != n && f.Left(n) != n && f.Right(n) != n
    ensures f.Parent(c) == n ==> f.Left(c) != n && f.Right(c) != n
  {
    hide RootCovers, TotalOrder, Before;
    assert Links(f, n) && Links(f, c) && Covers(f, n, n) && Covers(f, c, c) && Covers(f, n, c) && Covers(f, c, n);
    if f.Parent(n) != null { assert Links(f, f.Parent(n)); }
  }

  /** The nodes a left rotation writes to are all there, and distinct where it matters. */
  lemma LeftTurnFacts<K(!new)>(f: Shape<K>, elm: Node<K>)
    requires Linked(f) && elm in f.cells && f.Right(elm) != null
    ensures CanTurnLeft(f, elm) && f.marks.Keys == f.cells.Keys
    ensures var tmp, p := f.Right(elm), f.Parent(elm);
      && tmp != elm && p != elm && p != tmp && f.Left(tmp) != elm && f.Left(tmp) != tmp && f.Parent(tmp) == elm
      && (f.Left(tmp) != null ==> f.Left(tmp) in f.cells)
      && (p != null ==> p in f.cells && (f.Left(p) == elm || f.Right(p) == elm))
      && (p == null <==> f.root == elm)
    ensures forall n :: n in f.cells && (f.Left(n) == elm || f.Right(n) == elm) ==>
      n == f.Parent(elm) && f.Left(n) != f.Right(n)
  {
    hide Covers, RootCovers, TotalOrder;
    var tmp := f.Right(elm);
    assert Links(f, elm) && Links(f, tmp);
    OnlyParentPoints(f, elm, tmp);
    OnlyParentPoints(f, tmp, elm);
    forall n | n in f.cells && (f.Left(n) == elm || f.Right(n) == elm)
      ensures n == f.Parent(elm) && f.Left(n) != f.Right(n)
    {
      OnlyParentPoints(f, elm, n);
    }
  }

  lemma RightTurnFacts<K(!new)>(f: Shape<K>, elm: Node<K>)
    requires Linked(f) && elm in f.cells && f.Left(elm) != null
    ensures CanTurnRight(f, elm) && f.marks.Keys == f.cells.Keys
    ensures var tmp, p := f.Left(elm), f.Parent(elm);
      && tmp != elm && p != elm && p != tmp && f.Right(tmp) != elm && f.Right(tmp) != tmp && f.Parent(tmp) == elm
      && (f.Right(tmp) != null ==> f.Right(tmp) in f.cells)
      && (p != null ==> p in f.cells && (f.Left(p) == elm || f.Right(p) == elm))
      && (p == null <==> f.root == elm)
    ensures forall n :: n in f.cells && (f.Left(n) == elm || f.Right(n) == elm) ==>
      n == f.Parent(elm) && f.Left(n) != f.Right(n)
  {
    hide Covers, RootCovers, TotalOrder;
    var tmp := f.Left(elm);
    assert Links(f, elm) && Links(f, tmp);
    OnlyParentPoints(f, elm, tmp);
    OnlyParentPoints(f, tmp, elm);
    forall n | n in f.cells && (f.Left(n) == elm || f.Right(n) == elm)
      ensures n == f.Parent(elm) && f.Left(n) != f.Right(n)
    {
      OnlyParentPoints(f, elm, n);
    }
  }

  lemma MirrorTurnBackAt<K>(f: Shape<K>, g: Shape<K>, elm: Node<K>, n: Node<K>)
    requires TurnedAt(f, g, elm, n) && elm in f.marks
    ensures TurnedRightAt(Mirror(f), Mirror(g), elm, n)
  {
    var f', g' := Mirror(f), Mirror(g);
    assert f'.cells[n] == Cell(f.Right(n), f.Left(n), f.Parent(n), f.cells[n].red);
    assert g'.cells[n] == Cell(g.Right(n), g.Left(n), g.Parent(n), g.cells[n].red);
    assert f'.Left(elm) == f.Right(elm);
    var tmp := f.Right(elm);
    assert f'.Right(tmp) == f.Left(tmp);
    hide Mirror;
    assert g'.cells[n] == RightTurn(f', elm, n);
  }

  lemma MirrorTurnBack<K(!new)>(f: Shape<K>, g: Shape<K>, elm: Node<K>)
    requires TurnedLeft(f, g, elm) && f.marks.Keys == f.cells.Keys
    ensures TurnedRight(Mirror(f), Mirror(g), elm)
  {
    hide LeftTurn, LeftTurnMark, RightTurn, RightTurnMark;
    forall n | n in f.cells ensures TurnedRightAt(Mirror(f), Mirror(g), elm, n) {
      assert TurnedAt(f, g, elm, n);
      MirrorTurnBackAt(f, g, elm, n);
    }
  }
}
