/** `RB_REMOVE_COLOR`: one side of one node lacks a black node, and each round either moves
    the lack up or repairs it. */
module RbLack {
  import opened RbNodes
  import opened RbColors

  /** The left side of `p` is one black node short of what the mark of `p` asks for. */
  ghost predicate ShortLeft<K>(f: Shape<K>, p: Node<K>) {
    && p in f.cells && p in f.marks
    && Black(f, f.Left(p)) + 1 == Black(f, f.Right(p))
    && f.marks[p].black == Black(f, f.Right(p)) + (if f.cells[p].red then 0 else 1)
  }

  ghost predicate ShortRight<K>(f: Shape<K>, p: Node<K>) {
    && p in f.cells && p in f.marks
    && Black(f, f.Right(p)) + 1 == Black(f, f.Left(p))
    && f.marks[p].black == Black(f, f.Left(p)) + (if f.cells[p].red then 0 else 1)
  }

  /** `c` is the short child of `p`, or the root when there is no `p`. */
  ghost predicate LackAt<K>(f: Shape<K>, p: Node?<K>, c: Node?<K>) {
    && (p == null ==> c == f.root)
    && (p != null ==> p in f.cells && p != c
                      && ((f.Left(p) == c && ShortLeft(f, p)) || (f.Right(p) == c && ShortRight(f, p))))
  }

  /** The loop's state: everything is even but `p`, and only `c` may clash with its colour. */
  ghost predicate Lacking<K(!new)>(f: Shape<K>, p: Node?<K>, c: Node?<K>) {
    && Linked(f) && LackAt(f, p, c)
    && (Red(f, f.root) ==> f.root == c)
    && (forall n {:trigger Even(f, n)} :: n in f.cells && n != p ==> Even(f, n))
    && (forall n {:trigger NoRedRed(f, n, c)} :: n in f.cells && n != c ==> NoRedRed(f, n, c))
  }

  /** What the loop reads: the sibling is there and has a black node the short side has not. */
  lemma SiblingFacts<K(!new)>(f: Shape<K>, p: Node<K>, c: Node?<K>)
    requires Lacking(f, p, c) && f.Left(p) == c
    ensures p in f.cells && f.marks.Keys == f.cells.Keys && ShortLeft(f, p)
    ensures var tmp := f.Right(p);
      && tmp != null && tmp in f.cells && tmp != p && tmp != c && f.Parent(tmp) == p
      && Black(f, tmp) >= 1
      && (f.Left(tmp) != null ==> f.Left(tmp) in f.cells && f.Left(tmp) != p && f.Left(tmp) != tmp && f.Left(tmp) != c)
      && (f.Right(tmp) != null ==>
        f.Right(tmp) in f.cells && f.Right(tmp) != p && f.Right(tmp) != tmp && f.Right(tmp) != c)
      && (f.Left(tmp) != null ==> f.Left(tmp) != f.Right(tmp))
      && (f.cells[tmp].red ==> !f.cells[p].red && !Red(f, f.Left(tmp)) && !Red(f, f.Right(tmp)))
  {
    hide Covers, RootCovers, TotalOrder;
    assert Links(f, p);
    var tmp := f.Right(p);
    assert tmp != null;
    assert Links(f, tmp) && NoRedRed(f, p, c) && NoRedRed(f, tmp, c);
    OnlyParentPoints(f, tmp, p);
    if f.Left(tmp) != null { OnlyParentPoints(f, f.Left(tmp), tmp); }
    if f.Right(tmp) != null { OnlyParentPoints(f, f.Right(tmp), tmp); }
  }

  /** Red sibling, node by node: colours swapped, then `p` rotated down to the left. */
  lemma RedSiblingAt<K(!new)>(f: Shape<K>, f1: Shape<K>, g: Shape<K>, p: Node<K>, c: Node?<K>, n: Node<K>)
    requires Lacking(f, p, c) && f.Left(p) == c && Red(f, f.Right(p)) && !Red(f, c)
    requires SwapColors(f, f1, f.Right(p), p) && TurnedLeft(f1, g, p) && n in f.cells
    ensures n != p ==> Even(g, n)
    ensures n == p ==> ShortLeft(g, p)
    ensures NoRedRed(g, n, c)
  {
    hide Covers, RootCovers, TotalOrder;
    SiblingFacts(f, p, c);
    var tmp := f.Right(p);
    assert Links(f, n) && Links(f, p) && Links(f, tmp);
    assert SameLinkAt(f, f1, n) && SameLinkAt(f, f1, p) && SameLinkAt(f, f1, tmp);
    if n != p { assert Even(f, n); }
    if n != c { assert NoRedRed(f, n, c); }
    assert Even(f, tmp) && NoRedRed(f, tmp, c) && NoRedRed(f, p, c);
    assert TurnedAt(f1, g, p, n) && TurnedAt(f1, g, p, p) && TurnedAt(f1, g, p, tmp);
    if n != tmp && n != p { assert SameShade(f, f1, n); }
    var l, r, b := f.Left(n), f.Right(n), f.Left(tmp);
    if l != null {
      assert TurnedAt(f1, g, p, l);
      if l != tmp && l != p { assert SameShade(f, f1, l); }
    }
    if r != null {
      assert TurnedAt(f1, g, p, r);
      if r != tmp && r != p { assert SameShade(f, f1, r); }
    }
    if b != null {
      assert TurnedAt(f1, g, p, b) && SameShade(f, f1, b);
    }
  }

  /** Red sibling: after the step the sibling is black and the lack is where it was. */
  lemma RedSiblingKeeps<K(!new)>(f: Shape<K>, f1: Shape<K>, g: Shape<K>, p: Node<K>, c: Node?<K>)
    requires Lacking(f, p, c) && f.Left(p) == c && Red(f, f.Right(p)) && !Red(f, c)
    requires SwapColors(f, f1, f.Right(p), p) && TurnedLeft(f1, g, p)
    ensures Lacking(g, p, c) && g.Left(p) == c && !Red(g, g.Right(p)) && Red(g, p) && !Red(g, c)
  {
    SameLinksLinked(f, f1);
    TurnLinked(f1, g, p);
    forall n | n in f.cells
      ensures n != p ==> Even(g, n)
      ensures n == p ==> ShortLeft(g, p)
      ensures NoRedRed(g, n, c)
    {
      RedSiblingAt(f, f1, g, p, c, n);
    }
    RedSiblingTop(f, f1, g, p, c);
  }

  lemma RedSiblingTop<K(!new)>(f: Shape<K>, f1: Shape<K>, g: Shape<K>, p: Node<K>, c: Node?<K>)
    requires Lacking(f, p, c) && f.Left(p) == c && Red(f, f.Right(p)) && !Red(f, c)
    requires SwapColors(f, f1, f.Right(p), p) && TurnedLeft(f1, g, p)
    ensures p in g.cells && g.Left(p) == c && p != c && Red(g, p) && !Red(g, g.Right(p)) && !Red(g, g.root) &&
      !Red(g, c)
  {
    hide Covers, TotalOrder;
    SiblingFacts(f, p, c);
    var tmp := f.Right(p);
    assert Links(f, p) && RootCovers(f, p);
    assert SameLinkAt(f, f1, p) && SameLinkAt(f, f1, tmp) && TurnedAt(f1, g, p, p) && TurnedAt(f1, g, p, tmp);
    var b := f.Left(tmp);
    if b != null { assert TurnedAt(f1, g, p, b) && SameShade(f, f1, b); }
    if c != null && c in f.cells { assert SameShade(f, f1, c) && TurnedAt(f1, g, p, c); }
    assert SameLinkAt(f, f1, f.root) && TurnedAt(f1, g, p, f.root);
    if f.root != p && f.root != tmp { assert SameShade(f, f1, f.root); }
  }

  /** Black sibling with black children: the sibling turns red and the lack moves up to `p`. */
  ghost predicate SinkStep<K>(f: Shape<K>, g: Shape<K>, p: Node<K>, tmp: Node<K>) {
    && SameLinks(f, g) && p in f.marks && tmp in f.marks && p in f.cells
    && Shaded(g, tmp, true, f.marks[tmp].black - 1)
    && Shaded(g, p, f.cells[p].red, f.marks[p].black - 1)
    && forall n {:trigger SameShade(f, g, n)} :: n in f.cells && n != p && n != tmp ==> SameShade(f, g, n)
  }

  /** A black node without red children. */
  ghost predicate BlackFamily<K>(f: Shape<K>, tmp: Node?<K>) {
    tmp != null && tmp in f.cells && !f.cells[tmp].red && !Red(f, f.Left(tmp)) && !Red(f, f.Right(tmp))
  }

  lemma SinkAt<K(!new)>(f: Shape<K>, g: Shape<K>, p: Node<K>, c: Node?<K>, n: Node<K>)
    requires Lacking(f, p, c) && f.Left(p) == c && !Red(f, c)
    requires BlackFamily(f, f.Right(p)) && SinkStep(f, g, p, f.Right(p))
    requires n in f.cells
    ensures n != f.Parent(p) ==> Even(g, n)
    ensures n != p ==> NoRedRed(g, n, p)
    ensures n == f.Parent(p) ==> (g.Left(n) == p && ShortLeft(g, n)) || (g.Right(n) == p && ShortRight(g, n))
  {
    hide Covers, RootCovers, TotalOrder;
    SiblingFacts(f, p, c);
    var tmp := f.Right(p);
    assert Links(f, n) && Links(f, p) && Links(f, tmp) && SameLinkAt(f, g, n) && SameLinkAt(f, g, p) &&
      SameLinkAt(f, g, tmp);
    if n != p { assert Even(f, n); }
    if n != c { assert NoRedRed(f, n, c); }
    if n != p && n != tmp { assert SameShade(f, g, n); }
    if f.Left(n) != null && f.Left(n) != p && f.Left(n) != tmp { assert SameShade(f, g, f.Left(n)); }
    if f.Right(n) != null && f.Right(n) != p && f.Right(n) != tmp { assert SameShade(f, g, f.Right(n)); }
  }

  lemma SinkMoves<K(!new)>(f: Shape<K>, g: Shape<K>, p: Node<K>, c: Node?<K>)
    requires Lacking(f, p, c) && f.Left(p) == c && !Red(f, c)
    requires BlackFamily(f, f.Right(p)) && SinkStep(f, g, p, f.Right(p))
    ensures Lacking(g, f.Parent(p), p) && SameLinks(f, g) && g.cells[p].red == f.cells[p].red
  {
    hide Linked, Even, NoRedRed, ShortLeft, ShortRight;
    SameLinksLinked(f, g);
    SiblingFacts(f, p, c);
    forall n | n in f.cells
      ensures n != f.Parent(p) ==> Even(g, n)
      ensures n != p ==> NoRedRed(g, n, p)
      ensures n == f.Parent(p) ==> (g.Left(n) == p && ShortLeft(g, n)) || (g.Right(n) == p && ShortRight(g, n))
    {
      SinkAt(f, g, p, c, n);
    }
    SinkTop(f, g, p, c);
  }

  lemma SinkTop<K(!new)>(f: Shape<K>, g: Shape<K>, p: Node<K>, c: Node?<K>)
    requires Lacking(f, p, c) && f.Left(p) == c && !Red(f, c)
    requires BlackFamily(f, f.Right(p)) && SinkStep(f, g, p, f.Right(p))
    ensures f.Parent(p) == null ==> p == f.root
    ensures f.Parent(p) != null ==> f.Parent(p) in f.cells && f.Parent(p) != p
    ensures Red(g, g.root) ==> g.root == p
    ensures p in g.cells && g.cells[p].red == f.cells[p].red
  {
    hide Covers, TotalOrder;
    SiblingFacts(f, p, c);
    assert Links(f, p) && RootCovers(f, p) && Links(f, f.Right(p));
    OnlyParentPoints(f, p, p);
    if f.root != p && f.root != f.Right(p) { assert SameShade(f, g, f.root); }
  }

  /** Black sibling whose near child alone is red, node by node. */
  lemma NearRedEven<K(!new)>(f: Shape<K>, f1: Shape<K>, g: Shape<K>, p: Node<K>, c: Node?<K>, tmp: Node<K>,
      near: Node<K>, n: Node<K>)
    requires Lacking(f, p, c) && f.Left(p) == c && !Red(f, c) && f.Right(p) == tmp && tmp in f.cells &&
      !f.cells[tmp].red
    requires f.Left(tmp) == near && Red(f, near) && !Red(f, f.Right(tmp))
    requires SwapColors(f, f1, near, tmp) && TurnedRight(f1, g, tmp) && n in f.cells
    ensures n != p ==> Even(g, n)
    ensures n == p ==> ShortLeft(g, p)
  {
    hide Covers, RootCovers, TotalOrder, ParentOk;
    SiblingFacts(f, p, c);
    assert Links(f, n) && Links(f, p) && Links(f, tmp) && Links(f, near);
    assert SameLinkAt(f, f1, n) && SameLinkAt(f, f1, near) && SameLinkAt(f, f1, tmp);
    if n != p { assert Even(f, n); }
    if n != c { assert NoRedRed(f, n, c); }
    assert Even(f, tmp) && NoRedRed(f, tmp, c) && Even(f, near) && NoRedRed(f, near, c);
    assert TurnedRightAt(f1, g, tmp, n) && TurnedRightAt(f1, g, tmp, near) && TurnedRightAt(f1, g, tmp, tmp);
    if n != tmp && n != near { assert SameShade(f, f1, n); }
    var l, r, b := f.Left(n), f.Right(n), f.Right(near);
    if l != null {
      assert TurnedRightAt(f1, g, tmp, l);
      if l != tmp && l != near { assert SameShade(f, f1, l); }
    }
    if r != null {
      assert TurnedRightAt(f1, g, tmp, r);
      if r != tmp && r != near { assert SameShade(f, f1, r); }
    }
    if b != null {
      assert TurnedRightAt(f1, g, tmp, b) && Links(f, b);
      if b != tmp { assert SameShade(f, f1, b); }
    }
  }

  lemma NearRedCalm<K(!new)>(f: Shape<K>, f1: Shape<K>, g: Shape<K>, p: Node<K>, c: Node?<K>, tmp: Node<K>,
      near: Node<K>, n: Node<K>)
    requires Lacking(f, p, c) && f.Left(p) == c && !Red(f, c) && f.Right(p) == tmp && tmp in f.cells &&
      !f.cells[tmp].red
    requires f.Left(tmp) == near && Red(f, near) && !Red(f, f.Right(tmp))
    requires SwapColors(f, f1, near, tmp) && TurnedRight(f1, g, tmp) && n in f.cells
    ensures n != c ==> NoRedRed(g, n, c)
  {
    hide Covers, RootCovers, TotalOrder, ParentOk, Even;
    SiblingFacts(f, p, c);
    assert Links(f, n) && Links(f, p) && Links(f, tmp) && Links(f, near);
    assert SameLinkAt(f, f1, n) && SameLinkAt(f, f1, near) && SameLinkAt(f, f1, tmp);
    if n != p { assert Even(f, n); }
    if n != c { assert NoRedRed(f, n, c); }
    assert Even(f, tmp) && NoRedRed(f, tmp, c) && Even(f, near) && NoRedRed(f, near, c);
    assert TurnedRightAt(f1, g, tmp, n) && TurnedRightAt(f1, g, tmp, near) && TurnedRightAt(f1, g, tmp, tmp);
    if n != tmp && n != near { assert SameShade(f, f1, n); }
    var l, r, b := f.Left(n), f.Right(n), f.Right(near);
    if l != null {
      assert TurnedRightAt(f1, g, tmp, l);
      if l != tmp && l != near { assert SameShade(f, f1, l); }
    }
    if r != null {
      assert TurnedRightAt(f1, g, tmp, r);
      if r != tmp && r != near { assert SameShade(f, f1, r); }
    }
    if b != null {
      assert TurnedRightAt(f1, g, tmp, b) && Links(f, b);
      if b != tmp { assert SameShade(f, f1, b); }
    }
  }

  /** Black sibling whose near child alone is red: rotated, the far child is the red one. */
  lemma NearRedKeeps<K(!new)>(f: Shape<K>, f1: Shape<K>, g: Shape<K>, p: Node<K>, c: Node?<K>, tmp: Node<K>,
      near: Node<K>)
    requires Lacking(f, p, c) && f.Left(p) == c && !Red(f, c) && f.Right(p) == tmp && tmp in f.cells &&
      !f.cells[tmp].red
    requires f.Left(tmp) == near && Red(f, near) && !Red(f, f.Right(tmp))
    requires SwapColors(f, f1, near, tmp) && TurnedRight(f1, g, tmp)
    ensures Lacking(g, p, c) && g.Left(p) == c && !Red(g, c)
    ensures g.Right(p) == near && near in g.cells && !g.cells[near].red && g.Right(near) == tmp && Red(g, tmp)
  {
    hide Linked, Even, NoRedRed, ShortLeft, ShortRight;
    SameLinksLinked(f, f1);
    TurnRightLinked(f1, g, tmp);
    forall n | n in f.cells
      ensures n != p ==> Even(g, n)
      ensures n == p ==> ShortLeft(g, p)
      ensures n != c ==> NoRedRed(g, n, c)
    {
      NearRedEven(f, f1, g, p, c, tmp, near, n);
      NearRedCalm(f, f1, g, p, c, tmp, near, n);
    }
    NearRedTop(f, f1, g, p, c, tmp, near);
  }

  lemma NearRedTop<K(!new)>(f: Shape<K>, f1: Shape<K>, g: Shape<K>, p: Node<K>, c: Node?<K>, tmp: Node<K>,
      near: Node<K>)
    requires Lacking(f, p, c) && f.Left(p) == c && !Red(f, c) && f.Right(p) == tmp && tmp in f.cells &&
      !f.cells[tmp].red
    requires f.Left(tmp) == near && Red(f, near)
    requires SwapColors(f, f1, near, tmp) && TurnedRight(f1, g, tmp)
    ensures p in g.cells && p != c && g.Left(p) == c && !Red(g, c) && !Red(g, g.root)
    ensures g.Right(p) == near && near in g.cells && !g.cells[near].red && g.Right(near) == tmp && Red(g, tmp)
  {
    hide Covers, TotalOrder;
    SiblingFacts(f, p, c);
    assert Links(f, p) && RootCovers(f, p) && Links(f, tmp);
    assert SameLinkAt(f, f1, p) && SameLinkAt(f, f1, tmp) && SameLinkAt(f, f1, near);
    assert TurnedRightAt(f1, g, tmp, p) && TurnedRightAt(f1, g, tmp, tmp) && TurnedRightAt(f1, g, tmp, near);
    if c != null && c in f.cells { assert SameShade(f, f1, c) && TurnedRightAt(f1, g, tmp, c); }
    assert SameLinkAt(f, f1, f.root) && TurnedRightAt(f1, g, tmp, f.root) && Links(f, near);
    if f.root != near && f.root != tmp { assert SameShade(f, f1, f.root); }
  }

  /** The sibling takes the colour of `p`; `p` and the far child turn black. */
  ghost predicate FarStep<K>(f: Shape<K>, g: Shape<K>, p: Node<K>, c: Node?<K>, tmp: Node<K>, far: Node<K>) {
    && SameLinks(f, g) && p in f.marks && p in f.cells && tmp in f.marks && far in f.marks
    && Shaded(g, tmp, f.cells[p].red, f.marks[p].black)
    && Shaded(g, p, false, Black(f, c) + 1)
    && Shaded(g, far, false, f.marks[far].black + 1)
    && forall n {:trigger SameShade(f, g, n)} :: n in f.cells && n != p && n != tmp && n != far ==> SameShade(f, g, n)
  }

  lemma FarRedEven<K(!new)>(f: Shape<K>, f1: Shape<K>, g: Shape<K>, p: Node<K>, c: Node?<K>, tmp: Node<K>,
      far: Node<K>, n: Node<K>)
    requires Lacking(f, p, c) && f.Left(p) == c && !Red(f, c) && f.Right(p) == tmp && tmp in f.cells &&
      !f.cells[tmp].red
    requires f.Right(tmp) == far && Red(f, far)
    requires FarStep(f, f1, p, c, tmp, far) && TurnedLeft(f1, g, p) && n in f.cells
    ensures Even(g, n)
  {
    hide Covers, RootCovers, TotalOrder, ParentOk;
    SiblingFacts(f, p, c);
    assert Links(f, n) && Links(f, p) && Links(f, tmp) && Links(f, far);
    assert SameLinkAt(f, f1, n) && SameLinkAt(f, f1, p) && SameLinkAt(f, f1, tmp);
    if n != p { assert Even(f, n); }
    if n != c { assert NoRedRed(f, n, c); }
    assert Even(f, tmp) && NoRedRed(f, tmp, c) && NoRedRed(f, far, c) && NoRedRed(f, p, c);
    assert TurnedAt(f1, g, p, n) && TurnedAt(f1, g, p, p) && TurnedAt(f1, g, p, tmp);
    if n != p && n != tmp && n != far { assert SameShade(f, f1, n); }
    var l, r, b := f.Left(n), f.Right(n), f.Left(tmp);
    if l != null {
      assert TurnedAt(f1, g, p, l);
      if l != p && l != tmp && l != far { assert SameShade(f, f1, l); }
    }
    if r != null {
      assert TurnedAt(f1, g, p, r);
      if r != p && r != tmp && r != far { assert SameShade(f, f1, r); }
    }
    if b != null {
      assert TurnedAt(f1, g, p, b) && SameShade(f, f1, b);
    }
  }

  lemma FarRedCalm<K(!new)>(f: Shape<K>, f1: Shape<K>, g: Shape<K>, p: Node<K>, c: Node?<K>, tmp: Node<K>,
      far: Node<K>, n: Node<K>)
    requires Lacking(f, p, c) && f.Left(p) == c && !Red(f, c) && f.Right(p) == tmp && tmp in f.cells &&
      !f.cells[tmp].red
    requires f.Right(tmp) == far && Red(f, far)
    requires FarStep(f, f1, p, c, tmp, far) && TurnedLeft(f1, g, p) && n in f.cells
    ensures NoRedRed(g, n, null)
  {
    hide Covers, RootCovers, TotalOrder, ParentOk, Even;
    SiblingFacts(f, p, c);
    assert Links(f, n) && Links(f, p) && Links(f, tmp) && Links(f, far);
    assert SameLinkAt(f, f1, n) && SameLinkAt(f, f1, p) && SameLinkAt(f, f1, tmp);
    if n != p { assert Even(f, n); }
    if n != c { assert NoRedRed(f, n, c); }
    assert Even(f, tmp) && NoRedRed(f, tmp, c) && NoRedRed(f, far, c) && NoRedRed(f, p, c);
    assert TurnedAt(f1, g, p, n) && TurnedAt(f1, g, p, p) && TurnedAt(f1, g, p, tmp);
    if n != p && n != tmp && n != far { assert SameShade(f, f1, n); }
    var l, r, b := f.Left(n), f.Right(n), f.Left(tmp);
    if l != null {
      assert TurnedAt(f1, g, p, l);
      if l != p && l != tmp && l != far { assert SameShade(f, f1, l); }
    }
    if r != null {
      assert TurnedAt(f1, g, p, r);
      if r != p && r != tmp && r != far { assert SameShade(f, f1, r); }
    }
    if b != null {
      assert TurnedAt(f1, g, p, b) && SameShade(f, f1, b);
    }
  }

  /** Black sibling with a red far child: one rotation repairs the lack for good. */
  lemma FarRedRepairs<K(!new)>(f: Shape<K>, f1: Shape<K>, g: Shape<K>, p: Node<K>, c: Node?<K>, tmp: Node<K>,
      far: Node<K>)
    requires Lacking(f, p, c) && f.Left(p) == c && !Red(f, c) && f.Right(p) == tmp && tmp in f.cells &&
      !f.cells[tmp].red
    requires f.Right(tmp) == far && Red(f, far)
    requires FarStep(f, f1, p, c, tmp, far) && TurnedLeft(f1, g, p)
    ensures RedBlack(g)
  {
    hide Linked, Even, NoRedRed, ShortLeft, ShortRight;
    SameLinksLinked(f, f1);
    TurnLinked(f1, g, p);
    forall n | n in f.cells ensures Even(g, n) && NoRedRed(g, n, null) {
      FarRedEven(f, f1, g, p, c, tmp, far, n);
      FarRedCalm(f, f1, g, p, c, tmp, far, n);
    }
    FarRedTop(f, f1, g, p, c, tmp, far);
  }

  lemma FarRedTop<K(!new)>(f: Shape<K>, f1: Shape<K>, g: Shape<K>, p: Node<K>, c: Node?<K>, tmp: Node<K>, far: Node<K>)
    requires Lacking(f, p, c) && f.Left(p) == c && !Red(f, c) && f.Right(p) == tmp && tmp in f.cells
    requires f.Right(tmp) == far && Red(f, far)
    requires FarStep(f, f1, p, c, tmp, far) && TurnedLeft(f1, g, p)
    ensures !Red(g, g.root)
  {
    hide Covers, TotalOrder;
    SiblingFacts(f, p, c);
    assert Links(f, p) && RootCovers(f, p) && Links(f, tmp) && Links(f, far);
    assert SameLinkAt(f, f1, p) && SameLinkAt(f, f1, tmp) && TurnedAt(f1, g, p, tmp);
    assert SameLinkAt(f, f1, f.root) && TurnedAt(f1, g, p, f.root);
    if f.root != p && f.root != tmp && f.root != far { assert SameShade(f, f1, f.root); }
  }

  /** A red node takes the lack away by turning black. */
  lemma PaintRepairs<K(!new)>(f: Shape<K>, g: Shape<K>, p: Node?<K>, c: Node<K>)
    requires Lacking(f, p, c) && Red(f, c) && c in f.marks && PaintedStep(f, g, c, false, f.marks[c].black + 1)
    ensures RedBlack(g)
  {
    SameLinksLinked(f, g);
    forall n | n in f.cells ensures Even(g, n) && NoRedRed(g, n, null) {
      PaintRepairsAt(f, g, p, c, n);
    }
    if f.root != null && f.root != c { assert SameShade(f, g, f.root); }
  }

  lemma PaintRepairsAt<K(!new)>(f: Shape<K>, g: Shape<K>, p: Node?<K>, c: Node<K>, n: Node<K>)
    requires Lacking(f, p, c) && Red(f, c) && c in f.marks && PaintedStep(f, g, c, false, f.marks[c].black + 1)
    requires n in f.cells
    ensures Even(g, n) && NoRedRed(g, n, null)
  {
    hide Covers, RootCovers, TotalOrder;
    assert Links(f, n) && Links(f, c) && SameLinkAt(f, g, n);
    if n != p { assert Even(f, n); }
    if p != null { assert Links(f, p); }
    if n != c { assert NoRedRed(f, n, c) && SameShade(f, g, n); }
    if f.Left(n) != null && f.Left(n) != c { assert SameShade(f, g, f.Left(n)); }
    if f.Right(n) != null && f.Right(n) != c { assert SameShade(f, g, f.Right(n)); }
  }

  lemma RootIsNoChild<K(!new)>(f: Shape<K>, p: Node<K>)
    requires Linked(f) && p in f.cells
    ensures f.root != null && f.Left(p) != f.root && f.Right(p) != f.root
  {
    hide Covers, TotalOrder;
    assert RootCovers(f, p) && Links(f, p) && Links(f, f.root);
  }

  /** At a black root, or in an empty tree, the lack is no lack. */
  lemma RootRepairs<K(!new)>(f: Shape<K>, p: Node?<K>, c: Node?<K>)
    requires Lacking(f, p, c) && c == f.root && !Red(f, c)
    ensures RedBlack(f)
  {
    hide Covers, TotalOrder, RootCovers, Links;
    if p != null { RootIsNoChild(f, p); }
    forall n | n in f.cells ensures Even(f, n) && NoRedRed(f, n, null) {
      if n != c { assert NoRedRed(f, n, c); }
    }
  }

  lemma MirrorLacking<K(!new)>(f: Shape<K>, p: Node?<K>, c: Node?<K>)
    requires Lacking(f, p, c)
    ensures Lacking(Mirror(f), p, c)
  {
    MirrorLinked(f);
    var g := Mirror(f);
    forall n | n in f.cells
      ensures n != p ==> Even(g, n)
      ensures n != c ==> NoRedRed(g, n, c)
    {
      MirrorColorsAt(f, n, c);
    }
  }

  lemma LackingLinked<K(!new)>(f: Shape<K>, p: Node?<K>, c: Node?<K>)
    requires Lacking(f, p, c)
    ensures Linked(f) && f.marks.Keys == f.cells.Keys && (p != null ==> p in f.cells)
    ensures f.root != null ==> f.root in f.cells
    ensures c != null ==> c in f.cells
    ensures p == null ==> c == f.root
    ensures p != null ==> c != f.root && (f.Left(p) == c || f.Right(p) == c)
  {
    if p != null {
      RootIsNoChild(f, p);
      assert Links(f, p);
    }
  }

  lemma PaintSink<K(!new)>(f: Shape<K>, f1: Shape<K>, g: Shape<K>, p: Node<K>, tmp: Node<K>)
    requires f.marks.Keys == f.cells.Keys && {p, tmp} <= f.cells.Keys && p != tmp
    requires PaintedStep(f, f1, tmp, true, f.marks[tmp].black - 1)
    requires PaintedStep(f1, g, p, f.cells[p].red, f.marks[p].black - 1)
    ensures SinkStep(f, g, p, tmp)
  {
    SameLinksTransits(f, f1, g);
    assert SameShade(f1, g, tmp);
    forall n | n in f.cells && n != p && n != tmp ensures SameShade(f, g, n) {
      assert SameShade(f, f1, n) && SameShade(f1, g, n);
    }
  }

  lemma PaintFar<K(!new)>(f: Shape<K>, f1: Shape<K>, f2: Shape<K>, g: Shape<K>, p: Node<K>, c: Node?<K>, tmp: Node<K>,
      far: Node<K>)
    requires f.marks.Keys == f.cells.Keys && {p, tmp, far} <= f.cells.Keys && p != tmp && tmp != far && far != p
    requires PaintedStep(f, f1, tmp, f.cells[p].red, f.marks[p].black)
    requires PaintedStep(f1, f2, p, false, Black(f, c) + 1)
    requires PaintedStep(f2, g, far, false, f.marks[far].black + 1)
    ensures FarStep(f, g, p, c, tmp, far)
  {
    SameLinksTransits(f, f1, f2);
    SameLinksTransits(f, f2, g);
    assert SameShade(f1, f2, tmp) && SameShade(f2, g, tmp) && SameShade(f2, g, p);
    forall n | n in f.cells && n != p && n != tmp && n != far ensures SameShade(f, g, n) {
      assert SameShade(f, f1, n) && SameShade(f1, f2, n) && SameShade(f2, g, n);
    }
  }

  lemma MirrorSameLinks<K(!new)>(f: Shape<K>, g: Shape<K>)
    requires f.marks.Keys == f.cells.Keys && SameLinks(f, g)
    ensures SameLinks(Mirror(f), Mirror(g))
  {
    forall n | n in f.cells ensures SameLinkAt(Mirror(f), Mirror(g), n) {
      assert SameLinkAt(f, g, n);
    }
  }

  lemma MirrorSink<K(!new)>(f: Shape<K>, g: Shape<K>, p: Node<K>, tmp: Node<K>)
    requires f.marks.Keys == f.cells.Keys && {p, tmp} <= f.cells.Keys && SinkStep(f, g, p, tmp)
    ensures SinkStep(Mirror(f), Mirror(g), p, tmp)
  {
    MirrorSameLinks(f, g);
    forall n | n in f.cells && n != p && n != tmp ensures SameShade(Mirror(f), Mirror(g), n) {
      assert SameShade(f, g, n);
    }
  }

  lemma MirrorFar<K(!new)>(f: Shape<K>, g: Shape<K>, p: Node<K>, c: Node?<K>, tmp: Node<K>, far: Node<K>)
    requires f.marks.Keys == f.cells.Keys && {p, tmp, far} <= f.cells.Keys && FarStep(f, g, p, c, tmp, far)
    ensures FarStep(Mirror(f), Mirror(g), p, c, tmp, far)
  {
    MirrorSameLinks(f, g);
    forall n | n in f.cells && n != p && n != tmp && n != far ensures SameShade(Mirror(f), Mirror(g), n) {
      assert SameShade(f, g, n);
    }
  }

  lemma SiblingRightFacts<K(!new)>(f: Shape<K>, p: Node<K>, c: Node?<K>)
    requires Lacking(f, p, c) && f.Right(p) == c
    ensures p in f.cells && f.marks.Keys == f.cells.Keys && ShortRight(f, p)
    ensures var tmp := f.Left(p);
      && tmp != null && tmp in f.cells && tmp != p && tmp != c && f.Parent(tmp) == p
      && Black(f, tmp) >= 1
      && (f.Left(tmp) != null ==> f.Left(tmp) in f.cells && f.Left(tmp) != p && f.Left(tmp) != tmp && f.Left(tmp) != c)
      && (f.Right(tmp) != null ==>
        f.Right(tmp) in f.cells && f.Right(tmp) != p && f.Right(tmp) != tmp && f.Right(tmp) != c)
      && (f.Right(tmp) != null ==> f.Left(tmp) != f.Right(tmp))
      && (f.cells[tmp].red ==> !f.cells[p].red && !Red(f, f.Left(tmp)) && !Red(f, f.Right(tmp)))
  {
    hide Covers, RootCovers, TotalOrder;
    MirrorLacking(f, p, c);
    SiblingFacts(Mirror(f), p, c);
  }

  lemma RedSiblingRightKeeps<K(!new)>(f: Shape<K>, f1: Shape<K>, g: Shape<K>, p: Node<K>, c: Node?<K>)
    requires Lacking(f, p, c) && f.Right(p) == c && Red(f, f.Left(p)) && !Red(f, c)
    requires SwapColors(f, f1, f.Left(p), p) && TurnedRight(f1, g, p)
    ensures Lacking(g, p, c) && g.Right(p) == c && !Red(g, g.Left(p)) && Red(g, p) && !Red(g, c)
  {
    hide Linked, Lacking;
    LackingLinked(f, p, c);
    MirrorLacking(f, p, c);
    MirrorSwap(f, f1, f.Left(p), p);
    MirrorTurn(f1, g, p);
    RedSiblingKeeps(Mirror(f), Mirror(f1), Mirror(g), p, c);
    MirrorLacking(Mirror(g), p, c);
    MirrorTwice(g);
  }

  lemma SinkRightMoves<K(!new)>(f: Shape<K>, g: Shape<K>, p: Node<K>, c: Node?<K>)
    requires Lacking(f, p, c) && f.Right(p) == c && !Red(f, c)
    requires BlackFamily(f, f.Left(p)) && SinkStep(f, g, p, f.Left(p))
    ensures Lacking(g, f.Parent(p), p) && SameLinks(f, g) && g.cells[p].red == f.cells[p].red
  {
    hide Linked, Lacking;
    LackingLinked(f, p, c);
    MirrorLacking(f, p, c);
    MirrorSink(f, g, p, f.Left(p));
    SinkMoves(Mirror(f), Mirror(g), p, c);
    MirrorLacking(Mirror(g), f.Parent(p), p);
    MirrorTwice(g);
  }

  lemma NearRedRightKeeps<K(!new)>(f: Shape<K>, f1: Shape<K>, g: Shape<K>, p: Node<K>, c: Node?<K>, tmp: Node<K>,
      near: Node<K>)
    requires Lacking(f, p, c) && f.Right(p) == c && !Red(f, c) && f.Left(p) == tmp && tmp in f.cells &&
      !f.cells[tmp].red
    requires f.Right(tmp) == near && Red(f, near) && !Red(f, f.Left(tmp))
    requires SwapColors(f, f1, near, tmp) && TurnedLeft(f1, g, tmp)
    ensures Lacking(g, p, c) && g.Right(p) == c && !Red(g, c)
    ensures g.Left(p) == near && near in g.cells && !g.cells[near].red && g.Left(near) == tmp && Red(g, tmp)
  {
    hide Linked, Lacking;
    LackingLinked(f, p, c);
    MirrorLacking(f, p, c);
    MirrorSwap(f, f1, near, tmp);
    MirrorTurnBack(f1, g, tmp);
    NearRedKeeps(Mirror(f), Mirror(f1), Mirror(g), p, c, tmp, near);
    MirrorLacking(Mirror(g), p, c);
    MirrorTwice(g);
  }

  lemma FarRedRightRepairs<K(!new)>(f: Shape<K>, f1: Shape<K>, g: Shape<K>, p: Node<K>, c: Node?<K>, tmp: Node<K>,
      far: Node<K>)
    requires Lacking(f, p, c) && f.Right(p) == c && !Red(f, c) && f.Left(p) == tmp && tmp in f.cells &&
      !f.cells[tmp].red
    requires f.Left(tmp) == far && Red(f, far)
    requires FarStep(f, f1, p, c, tmp, far) && TurnedRight(f1, g, p)
    ensures RedBlack(g)
  {
    hide Linked, Lacking, RedBlack;
    LackingLinked(f, p, c);
    MirrorLacking(f, p, c);
    MirrorFar(f, f1, p, c, tmp, far);
    MirrorTurn(f1, g, p);
    FarRedRepairs(Mirror(f), Mirror(f1), Mirror(g), p, c, tmp, far);
    MirrorRedBlack(Mirror(g));
    MirrorTwice(g);
  }

  lemma MirrorRedBlack<K(!new)>(f: Shape<K>)
    requires RedBlack(f)
    ensures RedBlack(Mirror(f))
  {
    MirrorLinked(f);
    forall n | n in f.cells ensures Even(Mirror(f), n) && NoRedRed(Mirror(f), n, null) {
      MirrorColorsAt(f, n, null);
    }
  }
}
