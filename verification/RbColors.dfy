/** Black heights and red nodes: what each step of the recolouring loops keeps. */
module RbColors {
  import opened RbNodes

  /** Black height of a child pointer; an absent child counts none. */
  ghost function Black<K>(f: Shape<K>, c: Node?<K>): int {
    if c != null && c in f.marks then f.marks[c].black else 0
  }

  ghost predicate Red<K>(f: Shape<K>, c: Node?<K>) {
    c != null && c in f.cells && f.cells[c].red
  }

  /** Both children have the black height the node's mark asks for. */
  ghost predicate Even<K>(f: Shape<K>, n: Node<K>) {
    && n in f.cells && n in f.marks
    && Black(f, f.Left(n)) == Black(f, f.Right(n))
    && f.marks[n].black == Black(f, f.Left(n)) + (if f.cells[n].red then 0 else 1)
  }

  /** A red node has no red child, `but` excepted. */
  ghost predicate NoRedRed<K>(f: Shape<K>, n: Node<K>, but: Node?<K>) {
    n in f.cells && (f.cells[n].red ==>
      && (Red(f, f.Left(n)) ==> f.Left(n) == but)
      && (Red(f, f.Right(n)) ==> f.Right(n) == but))
  }

  /** `RB_INSERT_COLOR`'s loop: only the red `elm` may have a red parent, or be a red root. */
  ghost predicate Inserting<K(!new)>(f: Shape<K>, elm: Node<K>) {
    && Linked(f) && elm in f.cells && f.cells[elm].red
    && (Red(f, f.root) ==> f.root == elm)
    && (forall n {:trigger Even(f, n)} :: n in f.cells ==> Even(f, n))
    && (forall n {:trigger NoRedRed(f, n, elm)} :: n in f.cells ==> NoRedRed(f, n, elm))
  }

  /** The red-black conditions. */
  ghost predicate RedBlack<K(!new)>(f: Shape<K>) {
    && Linked(f) && !Red(f, f.root)
    && (forall n {:trigger Even(f, n)} :: n in f.cells ==> Even(f, n))
    && (forall n {:trigger NoRedRed(f, n, null)} :: n in f.cells ==> NoRedRed(f, n, null))
  }

  /** The links and the subtree of a node are the same in both shapes. */
  ghost predicate SameLinkAt<K>(f: Shape<K>, g: Shape<K>, n: Node<K>) {
    && n in f.cells && n in f.marks && n in g.cells && n in g.marks
    && g.Left(n) == f.Left(n) && g.Right(n) == f.Right(n) && g.Parent(n) == f.Parent(n)
    && g.marks[n].sub == f.marks[n].sub
  }

  ghost predicate SameLinks<K>(f: Shape<K>, g: Shape<K>) {
    && g.cells.Keys == f.cells.Keys && g.marks.Keys == f.marks.Keys && g.root == f.root
    && g.cmp == f.cmp && g.flip == f.flip
    && forall n {:trigger SameLinkAt(f, g, n)} :: n in f.cells ==> SameLinkAt(f, g, n)
  }

  /** Colours do not matter to the links. */
  lemma SameLinksLinked<K(!new)>(f: Shape<K>, g: Shape<K>)
    requires Linked(f) && SameLinks(f, g)
    ensures Linked(g)
  {
    hide Links, RootCovers;
    forall n | n in f.cells ensures Links(g, n) && RootCovers(g, n) && g.marks[n].sub <= f.cells.Keys {
      LinksSame(f, g, n);
    }
    forall n, m | n in f.cells && m in f.cells ensures Covers(g, n, m) {
      CoversSame(f, g, n, m);
    }
  }

  lemma LinksSame<K(!new)>(f: Shape<K>, g: Shape<K>, n: Node<K>)
    requires Linked(f) && SameLinks(f, g) && n in f.cells
    ensures Links(g, n) && RootCovers(g, n) && g.marks[n].sub <= f.cells.Keys
  {
    hide Covers;
    assert Links(f, n) && RootCovers(f, n) && SameLinkAt(f, g, n) && SameLinkAt(f, g, f.root);
    if f.Left(n) != null { assert SameLinkAt(f, g, f.Left(n)); }
    if f.Right(n) != null { assert SameLinkAt(f, g, f.Right(n)); }
    if f.Parent(n) != null { assert SameLinkAt(f, g, f.Parent(n)); }
  }

  lemma CoversSame<K(!new)>(f: Shape<K>, g: Shape<K>, n: Node<K>, m: Node<K>)
    requires Linked(f) && SameLinks(f, g) && n in f.cells && m in f.cells
    ensures Covers(g, n, m)
  {
    hide ParentOk, RootCovers;
    assert Links(f, n) && Covers(f, n, m) && SameLinkAt(f, g, n) && SameLinkAt(f, g, m);
    if f.Left(n) != null { assert SameLinkAt(f, g, f.Left(n)); }
    if f.Right(n) != null { assert SameLinkAt(f, g, f.Right(n)); }
  }

  /** Colour and black height of a node are the same in both shapes. */
  ghost predicate SameShade<K>(f: Shape<K>, g: Shape<K>, n: Node<K>) {
    && n in f.cells && n in f.marks && n in g.cells && n in g.marks
    && g.cells[n].red == f.cells[n].red && g.marks[n].black == f.marks[n].black
  }

  ghost predicate Shaded<K>(g: Shape<K>, n: Node<K>, red: bool, black: int) {
    n in g.cells && n in g.marks && g.cells[n].red == red && g.marks[n].black == black
  }

  /** `uncle` and `parent` are the two children of `gparent`, `elm` a child of `parent`. */
  ghost predicate Family<K>(f: Shape<K>, elm: Node<K>, uncle: Node?<K>, parent: Node<K>, gparent: Node<K>) {
    && parent in f.cells && gparent in f.cells && elm in f.cells && (uncle != null ==> uncle in f.cells)
    && (f.Left(parent) == elm || f.Right(parent) == elm)
    && ((f.Left(gparent) == parent && f.Right(gparent) == uncle) ||
      (f.Right(gparent) == parent && f.Left(gparent) == uncle))
  }

  /** The red uncle: parent and uncle turn black, the grandparent red, and the trouble moves up. */
  ghost predicate RedUncleStep<K>(f: Shape<K>, g: Shape<K>, uncle: Node<K>, parent: Node<K>, gparent: Node<K>) {
    && SameLinks(f, g) && uncle in f.marks && parent in f.marks && gparent in f.marks
    && Shaded(g, uncle, false, f.marks[uncle].black + 1)
    && Shaded(g, parent, false, f.marks[parent].black + 1)
    && Shaded(g, gparent, true, f.marks[gparent].black)
    && forall n {:trigger SameShade(f, g, n)} ::
         n in f.cells && n != uncle && n != parent && n != gparent ==> SameShade(f, g, n)
  }

  lemma OtherShade<K(!new)>(f: Shape<K>, g: Shape<K>, n: Node?<K>, uncle: Node<K>, parent: Node<K>, gparent: Node<K>)
    requires RedUncleStep(f, g, uncle, parent, gparent) && (n != null ==> n in f.cells)
    ensures n != null && n != uncle && n != parent && n != gparent ==> SameShade(f, g, n)
  {
  }

  lemma RedUncleEven<K(!new)>(f: Shape<K>, g: Shape<K>, elm: Node<K>, uncle: Node<K>, parent: Node<K>,
      gparent: Node<K>, n: Node<K>)
    requires Inserting(f, elm) && Family(f, elm, uncle, parent, gparent) && Red(f, parent) && Red(f, uncle)
    requires RedUncleStep(f, g, uncle, parent, gparent) && n in f.cells
    ensures Even(g, n)
  {
    hide Covers, RootCovers;
    assert Even(f, n) && Links(f, n) && SameLinkAt(f, g, n);
    assert Links(f, gparent) && Links(f, parent) && Even(f, gparent) && NoRedRed(f, gparent, elm);
    OtherShade(f, g, f.Left(n), uncle, parent, gparent);
    OtherShade(f, g, f.Right(n), uncle, parent, gparent);
    OtherShade(f, g, n, uncle, parent, gparent);
  }

  lemma RedUncleNoRedRed<K(!new)>(f: Shape<K>, g: Shape<K>, elm: Node<K>, uncle: Node<K>, parent: Node<K>,
      gparent: Node<K>, n: Node<K>)
    requires Inserting(f, elm) && Family(f, elm, uncle, parent, gparent) && Red(f, parent) && Red(f, uncle)
    requires RedUncleStep(f, g, uncle, parent, gparent) && n in f.cells
    ensures NoRedRed(g, n, gparent)
  {
    hide Covers, RootCovers, Even;
    assert NoRedRed(f, n, elm) && Links(f, n) && SameLinkAt(f, g, n) && Links(f, parent) && Links(f, uncle) &&
      Links(f, gparent);
    OtherShade(f, g, f.Left(n), uncle, parent, gparent);
    OtherShade(f, g, f.Right(n), uncle, parent, gparent);
    OtherShade(f, g, n, uncle, parent, gparent);
  }

  lemma RedUncleKeeps<K(!new)>(f: Shape<K>, g: Shape<K>, elm: Node<K>, uncle: Node<K>, parent: Node<K>,
      gparent: Node<K>)
    requires Inserting(f, elm) && Family(f, elm, uncle, parent, gparent) && Red(f, parent) && Red(f, uncle)
    requires RedUncleStep(f, g, uncle, parent, gparent)
    ensures Inserting(g, gparent)
  {
    hide Linked, Even, NoRedRed;
    SameLinksLinked(f, g);
    forall n | n in f.cells ensures Even(g, n) && NoRedRed(g, n, gparent) {
      RedUncleEven(f, g, elm, uncle, parent, gparent, n);
      RedUncleNoRedRed(f, g, elm, uncle, parent, gparent, n);
    }
    RedUncleRoot(f, g, elm, uncle, parent, gparent);
  }

  lemma RedUncleRoot<K(!new)>(f: Shape<K>, g: Shape<K>, elm: Node<K>, uncle: Node<K>, parent: Node<K>, gparent: Node<K>)
    requires Inserting(f, elm) && Family(f, elm, uncle, parent, gparent) && Red(f, parent) && Red(f, uncle)
    requires RedUncleStep(f, g, uncle, parent, gparent)
    ensures Red(g, g.root) ==> g.root == gparent
  {
    hide Covers, RootCovers;
    assert Links(f, gparent) && Links(f, elm) && Links(f, parent);
    if f.root != parent && f.root != uncle && f.root != gparent && f.root != null { assert SameShade(f, g, f.root); }
  }

  /** A left rotation keeps colours and black heights with their nodes. */
  lemma TurnShade<K(!new)>(f: Shape<K>, g: Shape<K>, elm: Node<K>, c: Node?<K>)
    requires TurnedLeft(f, g, elm) && (c != null ==> c in f.cells)
    ensures Black(g, c) == Black(f, c) && (Red(g, c) <==> Red(f, c)) && (c != null ==> SameShade(f, g, c))
    ensures c != null ==> Black(f, c) == f.marks[c].black && (Red(f, c) <==> f.cells[c].red)
  {
    if c != null { assert TurnedAt(f, g, elm, c); }
  }

  lemma InnerTurnAt<K(!new)>(f: Shape<K>, g: Shape<K>, parent: Node<K>, elm: Node<K>, n: Node<K>)
    requires Inserting(f, elm) && Red(f, parent) && TurnedLeft(f, g, parent) && f.Right(parent) == elm && n in f.cells
    ensures Even(g, n) && NoRedRed(g, n, parent)
  {
    hide Covers, RootCovers, LeftTurnMark, ParentOk, TotalOrder, TurnedLeft, Black, Red;
    RedIs(f, parent);
    assert Links(f, n) && Links(f, parent) && Links(f, elm);
    assert Even(f, n) && NoRedRed(f, n, elm) && Even(f, elm) && NoRedRed(f, elm, elm);
    assert NoRedRed(f, parent, elm) && Even(f, parent);
    TurnedHere(f, g, parent, n);
    TurnShade(f, g, parent, n);
    TurnShade(f, g, parent, f.Left(n));
    TurnShade(f, g, parent, f.Right(n));
    TurnShade(f, g, parent, f.Left(elm));
    TurnShade(f, g, parent, parent);
    TurnShade(f, g, parent, elm);
  }

  lemma TurnedHere<K(!new)>(f: Shape<K>, g: Shape<K>, elm: Node<K>, n: Node<K>)
    requires TurnedLeft(f, g, elm) && n in f.cells
    ensures TurnedAt(f, g, elm, n)
  {
  }

  lemma RedIs<K(!new)>(f: Shape<K>, n: Node<K>)
    requires Red(f, n)
    ensures n in f.cells && f.cells[n].red
  {
  }

  /** Rotating a red right child over its red parent swaps their roles. */
  lemma InnerTurnKeeps<K(!new)>(f: Shape<K>, g: Shape<K>, parent: Node<K>, elm: Node<K>)
    requires Inserting(f, elm) && Red(f, parent) && TurnedLeft(f, g, parent) && f.Right(parent) == elm
    requires f.root != parent
    ensures Inserting(g, parent)
    ensures g.Left(elm) == parent && g.Parent(parent) == elm && g.Parent(elm) == f.Parent(parent)
  {
    hide Linked, Even, NoRedRed;
    TurnLinked(f, g, parent);
    forall n | n in f.cells ensures Even(g, n) && NoRedRed(g, n, parent) {
      InnerTurnAt(f, g, parent, elm, n);
    }
    LeftTurnFacts(f, parent);
    assert TurnedAt(f, g, parent, parent) && TurnedAt(f, g, parent, elm);
    InnerTurnRoot(f, g, parent, elm);
  }

  lemma InnerTurnRoot<K(!new)>(f: Shape<K>, g: Shape<K>, parent: Node<K>, elm: Node<K>)
    requires Inserting(f, elm) && Red(f, parent) && TurnedLeft(f, g, parent) && f.Right(parent) == elm &&
      f.root != parent
    ensures !Red(g, g.root)
  {
    hide Covers, RootCovers;
    assert Links(f, elm) && Links(f, parent);
    if f.root != null { assert TurnedAt(f, g, parent, f.root); }
  }

  /** Parent and grandparent exchange their colours before the outer rotation. */
  ghost predicate SwapColors<K>(f: Shape<K>, g: Shape<K>, parent: Node<K>, gparent: Node<K>) {
    && SameLinks(f, g) && parent in f.marks && gparent in f.marks
    && Shaded(g, parent, false, f.marks[parent].black + 1)
    && Shaded(g, gparent, true, f.marks[gparent].black - 1)
    && forall n {:trigger SameShade(f, g, n)} :: n in f.cells && n != parent && n != gparent ==> SameShade(f, g, n)
  }

  lemma OuterTurnAt<K(!new)>(f: Shape<K>, f1: Shape<K>, g: Shape<K>, elm: Node<K>, parent: Node<K>, gparent: Node<K>,
      n: Node<K>)
    requires Inserting(f, elm) && Red(f, parent) && f.Right(parent) == elm
    requires gparent in f.cells && f.Right(gparent) == parent && !Red(f, f.Left(gparent))
    requires SwapColors(f, f1, parent, gparent) && TurnedLeft(f1, g, gparent) && n in f.cells
    ensures Even(g, n) && NoRedRed(g, n, elm)
  {
    hide Covers, RootCovers, LeftTurnMark, ParentOk, TotalOrder, TurnedLeft, Black, Red, SwapColors;
    RedIs(f, parent);
    assert Links(f, n) && Links(f, parent) && Links(f, elm) && Links(f, gparent);
    assert Even(f, n) && NoRedRed(f, n, elm) && Even(f, parent) && NoRedRed(f, parent, elm);
    assert Even(f, gparent) && NoRedRed(f, gparent, elm);
    SwapTurn(f, f1, g, parent, gparent, n);
    SwapTurn(f, f1, g, parent, gparent, f.Left(n));
    SwapTurn(f, f1, g, parent, gparent, f.Right(n));
    SwapTurn(f, f1, g, parent, gparent, f.Left(parent));
    SwapTurn(f, f1, g, parent, gparent, parent);
    SwapTurn(f, f1, g, parent, gparent, gparent);
  }

  /** A node after an exchange of colours and a left rotation. */
  lemma SwapTurn<K(!new)>(f: Shape<K>, f1: Shape<K>, g: Shape<K>, parent: Node<K>, gparent: Node<K>, c: Node?<K>)
    requires Linked(f) && SwapColors(f, f1, parent, gparent) && TurnedLeft(f1, g, gparent)
    requires c != null ==> c in f.cells
    ensures c != null && c != parent && c != gparent ==> Black(g, c) == Black(f, c) && (Red(g, c) <==> Red(f, c))
    ensures c == null ==> Black(g, c) == Black(f, c) && !Red(g, c)
    ensures c != null ==> c in f1.cells && SameLinkAt(f, f1, c) && TurnedAt(f1, g, gparent, c)
    ensures c != null ==> (Red(g, c) <==> g.cells[c].red) && Black(g, c) == g.marks[c].black
    ensures c != null ==> (Red(f, c) <==> f.cells[c].red) && Black(f, c) == f.marks[c].black
    ensures c == parent ==> !g.cells[c].red && g.marks[c].black == f.marks[c].black + 1
    ensures c == gparent ==> g.cells[c].red && g.marks[c].black == f.marks[c].black - 1
  {
    if c != null {
      assert SameLinkAt(f, f1, c) && TurnedAt(f1, g, gparent, c);
      if c != parent && c != gparent { assert SameShade(f, f1, c); }
    }
  }

  /** Rotating the grandparent down repairs a red right child of a red right child. */
  lemma OuterTurnKeeps<K(!new)>(f: Shape<K>, f1: Shape<K>, g: Shape<K>, elm: Node<K>, parent: Node<K>, gparent: Node<K>)
    requires Inserting(f, elm) && Red(f, parent) && f.Right(parent) == elm
    requires gparent in f.cells && f.Right(gparent) == parent && !Red(f, f.Left(gparent))
    requires SwapColors(f, f1, parent, gparent) && TurnedLeft(f1, g, gparent)
    ensures Inserting(g, elm) && !Red(g, parent) && g.Parent(elm) == parent
  {
    SameLinksLinked(f, f1);
    TurnLinked(f1, g, gparent);
    forall n | n in f.cells ensures Even(g, n) && NoRedRed(g, n, elm) {
      OuterTurnAt(f, f1, g, elm, parent, gparent, n);
    }
    OuterTurnTop(f, f1, g, elm, parent, gparent);
  }

  lemma OuterTurnTop<K(!new)>(f: Shape<K>, f1: Shape<K>, g: Shape<K>, elm: Node<K>, parent: Node<K>, gparent: Node<K>)
    requires Inserting(f, elm) && Red(f, parent) && f.Right(parent) == elm
    requires gparent in f.cells && f.Right(gparent) == parent
    requires SwapColors(f, f1, parent, gparent) && TurnedLeft(f1, g, gparent)
    ensures elm in g.cells && g.cells[elm].red && parent in g.cells && !g.cells[parent].red && g.Parent(elm) == parent
    ensures !Red(g, g.root)
  {
    hide Covers;
    assert Links(f, elm) && Links(f, parent) && Links(f, gparent) && RootCovers(f, elm);
    assert SameLinkAt(f, f1, elm) && SameLinkAt(f, f1, parent) && SameLinkAt(f, f1, gparent);
    OnlyParentPoints(f, elm, parent);
    OnlyParentPoints(f, parent, gparent);
    assert SameShade(f, f1, elm);
    assert TurnedAt(f1, g, gparent, elm) && TurnedAt(f1, g, gparent, parent);
    assert SameLinkAt(f, f1, f.root) && TurnedAt(f1, g, gparent, f.root);
    if f.root != gparent && f.root != parent { assert SameShade(f, f1, f.root); }
  }

  /** With a black parent, or at the root, nothing is wrong but perhaps a red root. */
  ghost predicate RootStep<K>(f: Shape<K>, g: Shape<K>) {
    && f.root != null && f.root in f.cells && f.root in f.marks && SameLinks(f, g)
    && Shaded(g, f.root, false, f.marks[f.root].black + (if f.cells[f.root].red then 1 else 0))
    && forall n {:trigger SameShade(f, g, n)} :: n in f.cells && n != f.root ==> SameShade(f, g, n)
  }

  lemma RootStepAt<K(!new)>(f: Shape<K>, g: Shape<K>, elm: Node<K>, n: Node<K>)
    requires Inserting(f, elm) && !Red(f, f.Parent(elm)) && RootStep(f, g) && n in f.cells
    ensures Even(g, n) && NoRedRed(g, n, null)
  {
    hide Covers;
    assert Links(f, n) && Links(f, elm) && Even(f, n) && NoRedRed(f, n, elm) && Links(f, f.root);
    assert SameLinkAt(f, g, n) && RootCovers(f, n);
    if n != f.root { assert SameShade(f, g, n); }
    if f.Left(n) != null { assert SameShade(f, g, f.Left(n)); }
    if f.Right(n) != null { assert SameShade(f, g, f.Right(n)); }
  }

  lemma InsertedIsRedBlack<K(!new)>(f: Shape<K>, g: Shape<K>, elm: Node<K>)
    requires Inserting(f, elm) && !Red(f, f.Parent(elm)) && RootStep(f, g)
    ensures RedBlack(g)
  {
    SameLinksLinked(f, g);
    forall n | n in f.cells ensures Even(g, n) && NoRedRed(g, n, null) {
      RootStepAt(f, g, elm, n);
    }
  }

  /** One node gets a colour, and the black height that goes with it. */
  ghost function Painted<K>(f: Shape<K>, n: Node<K>, red: bool, black: nat): (g: Shape<K>)
    requires n in f.cells && n in f.marks
    ensures g.cells.Keys == f.cells.Keys && g.marks.Keys == f.marks.Keys && g.root == f.root
  {
    f.SetRed(n, red).SetMark(n, f.marks[n].(black := black))
  }

  ghost predicate PaintedStep<K>(f: Shape<K>, g: Shape<K>, n: Node<K>, red: bool, black: int) {
    && SameLinks(f, g) && n in f.cells && Shaded(g, n, red, black)
    && forall m {:trigger SameShade(f, g, m)} :: m in f.cells && m != n ==> SameShade(f, g, m)
  }

  lemma PaintedIsStep<K(!new)>(f: Shape<K>, n: Node<K>, red: bool, black: nat)
    requires f.marks.Keys == f.cells.Keys && n in f.cells
    ensures PaintedStep(f, Painted(f, n, red, black), n, red, black)
  {
  }

  lemma SameLinksTransits<K(!new)>(f: Shape<K>, g: Shape<K>, h: Shape<K>)
    requires SameLinks(f, g) && SameLinks(g, h)
    ensures SameLinks(f, h)
  {
    forall n | n in f.cells ensures SameLinkAt(f, h, n) {
      assert SameLinkAt(f, g, n) && SameLinkAt(g, h, n);
    }
  }

  lemma PaintRedUncle<K(!new)>(f: Shape<K>, f1: Shape<K>, f2: Shape<K>, g: Shape<K>, uncle: Node<K>, parent: Node<K>,
      gparent: Node<K>)
    requires f.marks.Keys == f.cells.Keys && {uncle, parent, gparent} <= f.cells.Keys
    requires uncle != parent && parent != gparent && gparent != uncle
    requires PaintedStep(f, f1, uncle, false, f.marks[uncle].black + 1)
    requires PaintedStep(f1, f2, parent, false, f.marks[parent].black + 1)
    requires PaintedStep(f2, g, gparent, true, f.marks[gparent].black)
    ensures RedUncleStep(f, g, uncle, parent, gparent)
  {
    SameLinksTransits(f, f1, f2);
    SameLinksTransits(f, f2, g);
    assert SameShade(f1, f2, uncle) && SameShade(f2, g, uncle) && SameShade(f2, g, parent);
    forall n | n in f.cells && n != uncle && n != parent && n != gparent ensures SameShade(f, g, n) {
      assert SameShade(f, f1, n) && SameShade(f1, f2, n) && SameShade(f2, g, n);
    }
  }

  lemma PaintSwap<K(!new)>(f: Shape<K>, f1: Shape<K>, g: Shape<K>, parent: Node<K>, gparent: Node<K>)
    requires f.marks.Keys == f.cells.Keys && {parent, gparent} <= f.cells.Keys && parent != gparent
    requires PaintedStep(f, f1, parent, false, f.marks[parent].black + 1)
    requires PaintedStep(f1, g, gparent, true, f.marks[gparent].black - 1)
    ensures SwapColors(f, g, parent, gparent)
  {
    SameLinksTransits(f, f1, g);
    assert SameShade(f1, g, parent);
    forall n | n in f.cells && n != parent && n != gparent ensures SameShade(f, g, n) {
      assert SameShade(f, f1, n) && SameShade(f1, g, n);
    }
  }

  /** A red parent is not the root, so there is a grandparent, and it is black. */
  lemma RedParent<K(!new)>(f: Shape<K>, elm: Node<K>)
    requires Inserting(f, elm) && Red(f, f.Parent(elm))
    ensures var p := f.Parent(elm);
      && p in f.cells && p != elm && f.Parent(p) != null && f.Parent(p) in f.cells
      && f.Parent(p) != p && f.Parent(p) != elm && f.root != p
      && (f.Left(f.Parent(p)) == p || f.Right(f.Parent(p)) == p) && f.Left(f.Parent(p)) != f.Right(f.Parent(p))
      && (f.Left(p) == elm || f.Right(p) == elm) && f.Left(p) != f.Right(p)
      && !f.cells[f.Parent(p)].red && f.marks[f.Parent(p)].black >= 1
      && (f.Left(f.Parent(p)) != null ==> f.Left(f.Parent(p)) in f.cells && f.Left(f.Parent(p)) != f.Parent(p))
      && (f.Right(f.Parent(p)) != null ==> f.Right(f.Parent(p)) in f.cells && f.Right(f.Parent(p)) != f.Parent(p))
  {
    hide Covers, RootCovers;
    var p := f.Parent(elm);
    assert Links(f, elm) && Links(f, p);
    OnlyParentPoints(f, elm, p);
    var gp := f.Parent(p);
    assert Links(f, gp);
    OnlyParentPoints(f, p, gp);
    assert NoRedRed(f, gp, elm) && Even(f, gp);
  }

  /** The nodes that are not below a node: fewer of them for its parent. */
  ghost function Outside<K>(f: Shape<K>, n: Node<K>): set<Node<K>> {
    if n in f.marks then f.cells.Keys - f.marks[n].sub else {}
  }

  lemma OutsideShrinks<K(!new)>(f: Shape<K>, c: Node<K>, p: Node<K>)
    requires Linked(f) && c in f.cells && f.Parent(c) == p
    ensures p in f.cells && Outside(f, p) < Outside(f, c)
  {
    hide RootCovers;
    assert Links(f, c) && Links(f, p) && Covers(f, p, p);
    forall m | m in f.cells && m in f.marks[c].sub ensures m in f.marks[p].sub {
      assert Covers(f, p, m);
    }
    assert p in Outside(f, c) && p !in Outside(f, p);
  }

  lemma MirrorInserting<K(!new)>(f: Shape<K>, elm: Node<K>)
    requires Inserting(f, elm)
    ensures Inserting(Mirror(f), elm)
  {
    MirrorLinked(f);
    var g := Mirror(f);
    forall n | n in f.cells ensures Even(g, n) && NoRedRed(g, n, elm) {
      MirrorColorsAt(f, n, elm);
    }
  }

  lemma MirrorColorsAt<K(!new)>(f: Shape<K>, n: Node<K>, but: Node?<K>)
    requires Linked(f) && n in f.cells
    ensures Even(Mirror(f), n) <==> Even(f, n)
    ensures NoRedRed(Mirror(f), n, but) <==> NoRedRed(f, n, but)
  {
    hide Covers, RootCovers;
    assert Links(f, n);
  }

  lemma MirrorSwap<K(!new)>(f: Shape<K>, f1: Shape<K>, parent: Node<K>, gparent: Node<K>)
    requires f.marks.Keys == f.cells.Keys && {parent, gparent} <= f.cells.Keys
    requires SwapColors(f, f1, parent, gparent)
    ensures SwapColors(Mirror(f), Mirror(f1), parent, gparent)
  {
    forall n | n in f.cells ensures SameLinkAt(Mirror(f), Mirror(f1), n) {
      assert SameLinkAt(f, f1, n);
    }
    forall n | n in f.cells && n != parent && n != gparent ensures SameShade(Mirror(f), Mirror(f1), n) {
      assert SameShade(f, f1, n);
    }
  }

  lemma InnerTurnRightKeeps<K(!new)>(f: Shape<K>, g: Shape<K>, parent: Node<K>, elm: Node<K>)
    requires Inserting(f, elm) && Red(f, parent) && TurnedRight(f, g, parent) && f.Left(parent) == elm
    requires f.root != parent
    ensures Inserting(g, parent)
    ensures g.Right(elm) == parent && g.Parent(parent) == elm && g.Parent(elm) == f.Parent(parent)
  {
    MirrorInserting(f, elm);
    MirrorTurn(f, g, parent);
    InnerTurnKeeps(Mirror(f), Mirror(g), parent, elm);
    MirrorInserting(Mirror(g), parent);
    MirrorTwice(g);
  }

  lemma SwapTurnKeys<K(!new)>(f: Shape<K>, f1: Shape<K>, g: Shape<K>, elm: Node<K>, parent: Node<K>, gparent: Node<K>)
    requires Inserting(f, elm) && Red(f, parent) && SwapColors(f, f1, parent, gparent) && TurnedRight(f1, g, gparent)
    ensures f.marks.Keys == f.cells.Keys == f1.marks.Keys == f1.cells.Keys == g.marks.Keys == g.cells.Keys
    ensures parent in f.cells
  {
  }

  lemma OuterTurnRightKeeps<K(!new)>(f: Shape<K>, f1: Shape<K>, g: Shape<K>, elm: Node<K>, parent: Node<K>,
      gparent: Node<K>)
    requires Inserting(f, elm) && Red(f, parent) && f.Left(parent) == elm
    requires gparent in f.cells && f.Left(gparent) == parent && !Red(f, f.Right(gparent))
    requires SwapColors(f, f1, parent, gparent) && TurnedRight(f1, g, gparent)
    ensures Inserting(g, elm) && !Red(g, parent) && g.Parent(elm) == parent
  {
    hide Inserting, SwapColors, TurnedLeft, TurnedRight;
    SwapTurnKeys(f, f1, g, elm, parent, gparent);
    MirrorInserting(f, elm);
    MirrorSwap(f, f1, parent, gparent);
    MirrorTurn(f1, g, gparent);
    OuterTurnKeeps(Mirror(f), Mirror(f1), Mirror(g), elm, parent, gparent);
    MirrorInserting(Mirror(g), elm);
    MirrorTwice(g);
  }

  lemma RedUncleSameLinks<K(!new)>(f: Shape<K>, g: Shape<K>, uncle: Node<K>, parent: Node<K>, gparent: Node<K>)
    requires RedUncleStep(f, g, uncle, parent, gparent)
    ensures SameLinks(f, g)
  {
  }

  lemma InsertingLinked<K(!new)>(f: Shape<K>, elm: Node<K>)
    requires Inserting(f, elm)
    ensures Linked(f) && f.marks.Keys == f.cells.Keys && elm in f.cells && f.cells[elm].red
    ensures f.Parent(elm) != null ==> f.Parent(elm) in f.cells
    ensures f.root != null && f.root in f.cells
  {
    hide Covers;
    assert Links(f, elm) && RootCovers(f, elm);
  }

  /** The same nodes under the same order. */
  ghost predicate SameNodes<K>(f: Shape<K>, g: Shape<K>) {
    g.cells.Keys == f.cells.Keys && g.marks.Keys == f.marks.Keys && g.cmp == f.cmp && g.flip == f.flip
  }

  lemma SwapLinked<K(!new)>(f: Shape<K>, g: Shape<K>, parent: Node<K>, gparent: Node<K>)
    requires Linked(f) && SwapColors(f, g, parent, gparent)
    ensures Linked(g) && SameNodes(f, g)
  {
    SameLinksLinked(f, g);
    SameLinksNodes(f, g);
  }

  lemma SameLinksNodes<K(!new)>(f: Shape<K>, g: Shape<K>)
    requires f.marks.Keys == f.cells.Keys && SameLinks(f, g)
    ensures SameNodes(f, g)
  {
  }

  lemma TurnLeftNodes<K(!new)>(f: Shape<K>, g: Shape<K>, elm: Node<K>)
    requires f.marks.Keys == f.cells.Keys && TurnedLeft(f, g, elm)
    ensures SameNodes(f, g)
  {
  }

  lemma TurnRightNodes<K(!new)>(f: Shape<K>, g: Shape<K>, elm: Node<K>)
    requires f.marks.Keys == f.cells.Keys && TurnedRight(f, g, elm)
    ensures SameNodes(f, g)
  {
  }

  lemma RootStepPainted<K(!new)>(f: Shape<K>, g: Shape<K>, black: int)
    requires f.root != null && f.root in f.cells && f.root in f.marks
    requires black == f.marks[f.root].black + (if f.cells[f.root].red then 1 else 0)
    requires PaintedStep(f, g, f.root, false, black)
    ensures RootStep(f, g)
  {
  }

  lemma RootStepNodes<K(!new)>(f: Shape<K>, g: Shape<K>)
    requires f.marks.Keys == f.cells.Keys && RootStep(f, g)
    ensures SameNodes(f, g)
  {
    SameLinksNodes(f, g);
  }

  lemma SameNodesItself<K(!new)>(f: Shape<K>)
    ensures SameNodes(f, f)
  {
  }

  lemma NodesTransit<K(!new)>(f: Shape<K>, g: Shape<K>, h: Shape<K>)
    requires SameNodes(f, g) && SameNodes(g, h)
    ensures SameNodes(f, h)
  {
  }

  lemma FamilyOf<K(!new)>(f: Shape<K>, elm: Node<K>, parent: Node<K>, gparent: Node<K>)
    requires Inserting(f, elm) && elm in f.cells && f.Parent(elm) == parent
    requires Red(f, parent) && f.Parent(parent) == gparent && gparent in f.cells
    ensures f.Left(gparent) == parent ==> Family(f, elm, f.Right(gparent), parent, gparent)
    ensures f.Right(gparent) == parent ==> Family(f, elm, f.Left(gparent), parent, gparent)
  {
    RedParent(f, elm);
  }

  /** Recolouring leaves the links, so two steps up there is less outside. */
  lemma ClimbTwice<K(!new)>(f: Shape<K>, g: Shape<K>, elm: Node<K>, parent: Node<K>, gparent: Node<K>)
    requires Linked(f) && SameLinks(f, g) && elm in f.cells && f.Parent(elm) == parent
    requires parent in f.cells && f.Parent(parent) == gparent
    ensures Outside(g, gparent) < Outside(f, elm) && SameNodes(f, g)
    ensures gparent in g.cells && (g.Parent(gparent) != null ==> g.Parent(gparent) in g.cells)
  {
    OutsideShrinks(f, elm, parent);
    OutsideShrinks(f, parent, gparent);
    assert Links(f, gparent) && SameLinkAt(f, g, gparent);
    assert Outside(g, gparent) == Outside(f, gparent);
  }

  /** After the inner rotation the old child stands between the old parent and the grandparent. */
  lemma InnerTurnLeftStays<K(!new)>(f: Shape<K>, g: Shape<K>, parent: Node<K>, elm: Node<K>, gparent: Node<K>)
    requires Linked(f) && TurnedLeft(f, g, parent) && f.Right(parent) == elm && f.Parent(parent) == gparent
    requires gparent in f.cells && f.Left(gparent) == parent
    requires elm in f.cells && f.Parent(elm) == parent
    ensures g.Left(gparent) == elm && g.Right(gparent) == f.Right(gparent)
    ensures SameNodes(f, g) && SameShade(f, g, elm) && SameShade(f, g, gparent)
    ensures f.Right(gparent) != null && f.Right(gparent) in f.cells ==> SameShade(f, g, f.Right(gparent))
  {
    hide Covers, RootCovers;
    OnlyParentPoints(f, parent, gparent);
    OnlyParentPoints(f, elm, gparent);
    TurnLeftNodes(f, g, parent);
    assert TurnedAt(f, g, parent, gparent) && TurnedAt(f, g, parent, elm);
    if f.Right(gparent) != null && f.Right(gparent) in f.cells { assert TurnedAt(f, g, parent, f.Right(gparent)); }
  }

  lemma InnerTurnRightStays<K(!new)>(f: Shape<K>, g: Shape<K>, parent: Node<K>, elm: Node<K>, gparent: Node<K>)
    requires Linked(f) && TurnedRight(f, g, parent) && f.Left(parent) == elm && f.Parent(parent) == gparent
    requires gparent in f.cells && f.Right(gparent) == parent
    requires elm in f.cells && f.Parent(elm) == parent
    ensures g.Right(gparent) == elm && g.Left(gparent) == f.Left(gparent)
    ensures SameNodes(f, g) && SameShade(f, g, elm) && SameShade(f, g, gparent)
    ensures f.Left(gparent) != null && f.Left(gparent) in f.cells ==> SameShade(f, g, f.Left(gparent))
  {
    hide Covers, RootCovers;
    OnlyParentPoints(f, parent, gparent);
    OnlyParentPoints(f, elm, gparent);
    TurnRightNodes(f, g, parent);
    assert TurnedRightAt(f, g, parent, gparent) && TurnedRightAt(f, g, parent, elm);
    if f.Left(gparent) != null && f.Left(gparent) in f.cells { assert TurnedRightAt(f, g, parent, f.Left(gparent)); }
  }

  lemma RedBlackLinked<K(!new)>(f: Shape<K>)
    requires RedBlack(f)
    ensures Linked(f)
  {
  }
}
