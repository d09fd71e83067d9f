/** Taking a node with at most one child out of the tree: the child takes its place. */
module RbSplice {
  import opened RbNodes
  import opened RbColors
  import opened RbLack
  import opened RbPaths
  import opened RbSteps

  /** The link fields and marks of another node after `z` is taken out. */
  ghost predicate SplicedAt<K>(f: Shape<K>, g: Shape<K>, z: Node<K>, child: Node?<K>, n: Node<K>) {
    && z in f.cells && n in f.cells && n in f.marks && n in g.cells && n in g.marks
    && g.cells[n] == Cell(if f.Left(n) == z then child else f.Left(n),
                          if f.Right(n) == z then child else f.Right(n),
                          if n == child then f.Parent(z) else f.Parent(n), f.cells[n].red)
    && g.marks[n] == Mark(f.marks[n].sub - {z}, f.marks[n].black)
  }

  /** `child` is the only child `z` may have. */
  ghost predicate OnlyChild<K>(f: Shape<K>, z: Node<K>, child: Node?<K>) {
    z in f.cells && ((f.Left(z) == null && f.Right(z) == child) || (f.Right(z) == null && f.Left(z) == child))
  }

  /** `g` is `f` without `z`. */
  ghost predicate Spliced<K>(f: Shape<K>, g: Shape<K>, z: Node<K>, child: Node?<K>) {
    && OnlyChild(f, z, child)
    && g.cells.Keys == f.cells.Keys - {z} && g.marks.Keys == f.marks.Keys - {z}
    && g.root == (if f.root == z then child else f.root) && g.cmp == f.cmp && g.flip == f.flip
    && forall n {:trigger SplicedAt(f, g, z, child, n)} :: n in f.cells && n != z ==> SplicedAt(f, g, z, child, n)
  }

  lemma SpliceFacts<K(!new)>(f: Shape<K>, z: Node<K>, child: Node?<K>)
    requires Linked(f) && OnlyChild(f, z, child)
    ensures f.marks.Keys == f.cells.Keys && child != z && f.Parent(z) != z
    ensures child != null ==> child in f.cells && f.Parent(child) == z && f.Parent(z) != child
    ensures f.Parent(z) != null ==>
      f.Parent(z) in f.cells && (f.Left(f.Parent(z)) == z || f.Right(f.Parent(z)) == z) &&
        f.Left(f.Parent(z)) != f.Right(f.Parent(z))
    ensures f.Parent(z) == null <==> f.root == z
    ensures child != null && f.Parent(z) != null ==> f.Left(f.Parent(z)) != child && f.Right(f.Parent(z)) != child
  {
    hide Covers, RootCovers, TotalOrder;
    assert Links(f, z);
    OnlyParentPoints(f, z, z);
    if child != null {
      assert Links(f, child);
      OnlyParentPoints(f, child, z);
      if f.Parent(z) != null { OnlyParentPoints(f, child, f.Parent(z)); }
    }
    if f.Parent(z) != null { OnlyParentPoints(f, z, f.Parent(z)); }
  }

  /** The subtree of a child pointer loses `z`. */
  lemma SplicedSub<K(!new)>(f: Shape<K>, g: Shape<K>, z: Node<K>, child: Node?<K>, c: Node?<K>, m: Node<K>)
    requires Linked(f) && Spliced(f, g, z, child) && (c != null ==> c in f.cells) && m in f.cells && m != z
    ensures m in Sub(g, if c == z then child else c) <==> m in Sub(f, c)
  {
    hide RootCovers, TotalOrder, Links;
    SpliceFacts(f, z, child);
    assert Covers(f, z, m);
    if c != null && c != z { assert SplicedAt(f, g, z, child, c); }
    if c == z && child != null { assert SplicedAt(f, g, z, child, child); }
  }

  lemma SplicedCovers<K(!new)>(f: Shape<K>, g: Shape<K>, z: Node<K>, child: Node?<K>, n: Node<K>, m: Node<K>)
    requires Linked(f) && Spliced(f, g, z, child) && n in g.cells && m in g.cells
    ensures Covers(g, n, m)
  {
    hide RootCovers, TotalOrder, Sub, Spliced;
    assert n in f.cells && m in f.cells && n != z && m != z && SplicedAt(f, g, z, child, n) && g.cmp == f.cmp &&
      g.flip == f.flip by {
      SplicedKeys(f, g, z, child, n);
      SplicedKeys(f, g, z, child, m);
    }
    assert Covers(f, n, m) && Links(f, n);
    SplicedSub(f, g, z, child, f.Left(n), m);
    SplicedSub(f, g, z, child, f.Right(n), m);
  }

  lemma SplicedKeys<K(!new)>(f: Shape<K>, g: Shape<K>, z: Node<K>, child: Node?<K>, n: Node<K>)
    requires Spliced(f, g, z, child) && n in g.cells
    ensures n in f.cells && n != z && SplicedAt(f, g, z, child, n) && g.cmp == f.cmp && g.flip == f.flip
  {
    assert SplicedAt(f, g, z, child, n);
  }

  lemma SplicedLinks<K(!new)>(f: Shape<K>, g: Shape<K>, z: Node<K>, child: Node?<K>, n: Node<K>)
    requires Linked(f) && Spliced(f, g, z, child) && n in g.cells
    ensures Links(g, n) && g.marks[n].sub <= g.cells.Keys
  {
    hide Covers, RootCovers, TotalOrder;
    SpliceFacts(f, z, child);
    assert Links(f, n) && Links(f, z) && SplicedAt(f, g, z, child, n) && f.marks[n].sub <= f.cells.Keys;
    if f.Left(n) != null && f.Left(n) != z { assert SplicedAt(f, g, z, child, f.Left(n)) && Links(f, f.Left(n)); }
    if f.Right(n) != null && f.Right(n) != z { assert SplicedAt(f, g, z, child, f.Right(n)) && Links(f, f.Right(n)); }
    if f.Parent(n) != null && f.Parent(n) != z { assert SplicedAt(f, g, z, child, f.Parent(n)); }
    if child != null { assert SplicedAt(f, g, z, child, child); }
    if f.Parent(z) != null { assert SplicedAt(f, g, z, child, f.Parent(z)); }
  }

  lemma SplicedRootCovers<K(!new)>(f: Shape<K>, g: Shape<K>, z: Node<K>, child: Node?<K>, n: Node<K>)
    requires Linked(f) && Spliced(f, g, z, child) && n in g.cells
    ensures RootCovers(g, n)
  {
    hide Covers, TotalOrder, Links;
    assert RootCovers(f, n);
    SplicedSub(f, g, z, child, f.root, n);
  }

  /** What is left is one search tree. */
  lemma SplicedLinked<K(!new)>(f: Shape<K>, g: Shape<K>, z: Node<K>, child: Node?<K>)
    requires Linked(f) && Spliced(f, g, z, child)
    ensures Linked(g)
  {
    hide Covers, RootCovers, TotalOrder, Links, SplicedAt;
    SpliceFacts(f, z, child);
    forall n | n in g.cells ensures Links(g, n) && RootCovers(g, n) && g.marks[n].sub <= g.cells.Keys {
      SplicedLinks(f, g, z, child, n);
      SplicedRootCovers(f, g, z, child, n);
    }
    forall n, m | n in g.cells && m in g.cells ensures Covers(g, n, m) {
      SplicedCovers(f, g, z, child, n, m);
    }
  }

  /** Taking out `z` takes a black node from the paths through it, if `z` is black. */
  lemma SplicedColors<K(!new)>(f: Shape<K>, g: Shape<K>, z: Node<K>, child: Node?<K>, n: Node<K>)
    requires RedBlack(f) && Spliced(f, g, z, child) && n in g.cells
    ensures n != f.Parent(z) || f.cells[z].red ==> Even(g, n)
    ensures n == f.Parent(z) && !f.cells[z].red ==>
      (g.Left(n) == child && ShortLeft(g, n)) || (g.Right(n) == child && ShortRight(g, n))
    ensures NoRedRed(g, n, child)
    ensures f.cells[z].red ==> NoRedRed(g, n, null)
  {
    hide Covers, RootCovers, TotalOrder;
    SpliceFacts(f, z, child);
    assert Links(f, n) && SplicedAt(f, g, z, child, n) && Even(f, n) && NoRedRed(f, n, null) && Even(f, z) &&
      NoRedRed(f, z, null);
    if f.Left(n) != null && f.Left(n) != z { assert SplicedAt(f, g, z, child, f.Left(n)) && Links(f, f.Left(n)); }
    if f.Right(n) != null && f.Right(n) != z { assert SplicedAt(f, g, z, child, f.Right(n)) && Links(f, f.Right(n)); }
    if child != null { assert SplicedAt(f, g, z, child, child); }
    if f.Parent(z) != null { assert SplicedAt(f, g, z, child, f.Parent(z)); }
  }

  lemma SplicedTop<K(!new)>(f: Shape<K>, g: Shape<K>, z: Node<K>, child: Node?<K>)
    requires RedBlack(f) && Spliced(f, g, z, child)
    ensures Red(g, g.root) ==> g.root == child && !f.cells[z].red
    ensures f.Parent(z) == null ==> child == g.root
    ensures f.Parent(z) != null ==> f.Parent(z) in g.cells && f.Parent(z) != child
  {
    hide Covers, RootCovers, TotalOrder, Links;
    SpliceFacts(f, z, child);
    if f.root != null && f.root != z { assert SplicedAt(f, g, z, child, f.root); }
  }

  /** A red node leaves a red-black tree, a black one a lack where it was. */
  lemma SplicedKeeps<K(!new)>(f: Shape<K>, g: Shape<K>, z: Node<K>, child: Node?<K>)
    requires RedBlack(f) && Spliced(f, g, z, child)
    ensures if f.cells[z].red then RedBlack(g) else Lacking(g, f.Parent(z), child)
  {
    hide Linked, Even, NoRedRed, ShortLeft, ShortRight, SplicedAt;
    SplicedLinked(f, g, z, child);
    SplicedTop(f, g, z, child);
    forall n | n in g.cells
      ensures n != f.Parent(z) || f.cells[z].red ==> Even(g, n)
      ensures n == f.Parent(z) && !f.cells[z].red ==>
        (g.Left(n) == child && ShortLeft(g, n)) || (g.Right(n) == child && ShortRight(g, n))
      ensures NoRedRed(g, n, child)
      ensures f.cells[z].red ==> NoRedRed(g, n, null)
    {
      SplicedColors(f, g, z, child, n);
    }
  }

  ghost function SplicedMarks<K>(f: Shape<K>, z: Node<K>): map<Node<K>, Mark<K>> {
    map n | n in f.marks && n != z :: Mark(f.marks[n].sub - {z}, f.marks[n].black)
  }

  /** The writes of the splice: the child's parent, and the link to `z`. */
  ghost function Bypassed<K>(f: Shape<K>, z: Node<K>, child: Node?<K>): (g: Shape<K>)
    requires z in f.cells && (child != null ==> child in f.cells) && (f.Parent(z) != null ==> f.Parent(z) in f.cells)
    ensures g.cells.Keys == f.cells.Keys && g.marks == f.marks && g.cmp == f.cmp && g.flip == f.flip
    ensures f.Parent(z) == null ==> g.root == child
    ensures f.Parent(z) != null ==> g.root == f.root
  {
    Hook(Adopt(f, child, f.Parent(z)), f.Parent(z), z, child)
  }

  lemma BypassedCell<K(!new)>(f: Shape<K>, z: Node<K>, child: Node?<K>, n: Node<K>)
    requires z in f.cells && n in f.cells && (child != null ==> child in f.cells)
    requires f.Parent(z) != null ==> f.Parent(z) in f.cells && f.Parent(z) != child
    ensures Bypassed(f, z, child).cells[n] == (
      if n == f.Parent(z) then (if f.Left(n) == z then f.cells[n].(left := child) else f.cells[n].(right := child))
      else if n == child then f.cells[n].(parent := f.Parent(z))
      else f.cells[n])
  {
  }

  lemma BypassedAt<K(!new)>(f: Shape<K>, g: Shape<K>, z: Node<K>, child: Node?<K>, n: Node<K>)
    requires Linked(f) && OnlyChild(f, z, child) && n in f.cells && n != z
    requires (child != null ==> child in f.cells) && (f.Parent(z) != null ==> f.Parent(z) in f.cells)
    requires g.cells == Bypassed(f, z, child).cells - {z} && g.marks == SplicedMarks(f, z)
    ensures SplicedAt(f, g, z, child, n)
  {
    SpliceFacts(f, z, child);
    OnlyParentPoints(f, z, n);
    hide Linked, OnlyChild;
    BypassedCell(f, z, child, n);
    hide Bypassed;
  }

  lemma SpliceByWrites<K(!new)>(f: Shape<K>, g: Shape<K>, z: Node<K>, child: Node?<K>)
    requires Linked(f) && OnlyChild(f, z, child)
    requires (child != null ==> child in f.cells) && (f.Parent(z) != null ==> f.Parent(z) in f.cells)
    requires var h := Bypassed(f, z, child); g == h.(cells := h.cells - {z}, marks := SplicedMarks(f, z))
    ensures Spliced(f, g, z, child)
  {
    hide Linked, SplicedAt;
    SpliceFacts(f, z, child);
    forall n | n in f.cells && n != z ensures SplicedAt(f, g, z, child, n) {
      BypassedAt(f, g, z, child, n);
    }
  }
}
