/** The elementary writes the tree operations are made of, and rotations as sequences of them. */
module RbSteps {
  import opened RbNodes

  /** The link that leads from parent `p`, or the root, to `from` now leads to `to`. */
  function Hook<K>(f: Shape<K>, p: Node?<K>, from: Node<K>, to: Node?<K>): (g: Shape<K>)
    requires p != null ==> p in f.cells
    ensures g.cells.Keys == f.cells.Keys && g.marks == f.marks
  {
    if p == null then f.SetRoot(to)
    else if f.Left(p) == from then f.SetLeft(p, to)
    else f.SetRight(p, to)
  }

  /** A child, if there is one, points back to `p`. */
  function Adopt<K>(f: Shape<K>, c: Node?<K>, p: Node?<K>): (g: Shape<K>)
    requires c != null ==> c in f.cells
    ensures g.cells.Keys == f.cells.Keys && g.marks == f.marks && g.root == f.root
  {
    if c != null then f.SetParent(c, p) else f
  }

  ghost predicate LeftStepsFit<K>(f: Shape<K>, elm: Node<K>, tmp: Node<K>) {
    && elm in f.cells && tmp in f.cells && f.Right(elm) == tmp && (f.Left(tmp) != null ==> f.Left(tmp) in f.cells)
    && (f.Parent(elm) != null ==> f.Parent(elm) in f.cells)
  }

  /** First the inner subtree moves from `tmp` to `elm`. */
  ghost function LeftInner<K>(f: Shape<K>, elm: Node<K>, tmp: Node<K>): (g: Shape<K>)
    requires LeftStepsFit(f, elm, tmp)
    ensures g.cells.Keys == f.cells.Keys && g.marks == f.marks && g.root == f.root && g.cmp == f.cmp && g.flip == f.flip
  {
    Adopt(f.SetRight(elm, f.Left(tmp)), f.Left(tmp), elm)
  }

  /** Then `tmp` takes the place of `elm`, and `elm` goes below it. */
  ghost function LeftOuter<K>(f: Shape<K>, elm: Node<K>, tmp: Node<K>, p: Node?<K>): (g: Shape<K>)
    requires elm in f.cells && tmp in f.cells && (p != null ==> p in f.cells)
    ensures g.cells.Keys == f.cells.Keys && g.marks == f.marks && g.cmp == f.cmp && g.flip == f.flip
  {
    Hook(f.SetParent(tmp, p), p, elm, tmp).SetLeft(tmp, elm).SetParent(elm, tmp)
  }

  ghost function LeftSteps<K>(f: Shape<K>, elm: Node<K>, tmp: Node<K>): (g: Shape<K>)
    requires LeftStepsFit(f, elm, tmp)
    ensures g.cells.Keys == f.cells.Keys && g.marks == f.marks && g.cmp == f.cmp && g.flip == f.flip
  {
    LeftOuter(LeftInner(f, elm, tmp), elm, tmp, f.Parent(elm))
  }

  lemma LeftInnerAt<K>(f: Shape<K>, elm: Node<K>, tmp: Node<K>, n: Node<K>)
    requires LeftStepsFit(f, elm, tmp) && n in f.cells && f.Left(tmp) != elm
    ensures LeftInner(f, elm, tmp).cells[n] ==
      if n == elm then f.cells[n].(right := f.Left(tmp))
      else if n == f.Left(tmp) then f.cells[n].(parent := elm)
      else f.cells[n]
  {
  }

  lemma LeftOuterAt<K>(f: Shape<K>, elm: Node<K>, tmp: Node<K>, p: Node?<K>, n: Node<K>)
    requires elm in f.cells && tmp in f.cells && (p != null ==> p in f.cells) && n in f.cells
    requires tmp != elm && p != elm && p != tmp
    ensures LeftOuter(f, elm, tmp, p).cells[n] ==
      if n == elm then f.cells[n].(parent := tmp)
      else if n == tmp then f.cells[n].(left := elm, parent := p)
      else if n == p then (if f.Left(n) == elm then f.cells[n].(left := tmp) else f.cells[n].(right := tmp))
      else f.cells[n]
    ensures LeftOuter(f, elm, tmp, p).root == if p == null then tmp else f.root
  {
  }

  lemma LeftStepsFits<K(!new)>(f: Shape<K>, elm: Node<K>)
    requires Linked(f) && elm in f.cells && f.Right(elm) != null
    ensures CanTurnLeft(f, elm) && LeftStepsFit(f, elm, f.Right(elm))
  {
    hide Linked;
    LeftTurnFacts(f, elm);
  }

  lemma LeftStepsAt<K(!new)>(f: Shape<K>, elm: Node<K>, n: Node<K>)
    requires Linked(f) && elm in f.cells && f.Right(elm) != null && n in f.cells
    requires CanTurnLeft(f, elm) && LeftStepsFit(f, elm, f.Right(elm))
    ensures LeftSteps(f, elm, f.Right(elm)).cells[n] == LeftTurn(f, elm, n)
  {
    hide Linked, LeftInner, LeftOuter;
    LeftTurnFacts(f, elm);
    var tmp := f.Right(elm);
    var f2 := LeftInner(f, elm, tmp);
    LeftInnerAt(f, elm, tmp, n);
    LeftOuterAt(f2, elm, tmp, f.Parent(elm), n);
  }

  ghost function LeftTurnMarks<K>(f: Shape<K>, elm: Node<K>): map<Node<K>, Mark<K>>
    requires CanTurnLeft(f, elm)
  {
    map n | n in f.marks :: LeftTurnMark(f, elm, n)
  }

  lemma LeftStepsTurn<K(!new)>(f: Shape<K>, elm: Node<K>, g: Shape<K>)
    requires Linked(f) && elm in f.cells && f.Right(elm) != null
    requires LeftStepsFit(f, elm, f.Right(elm)) && CanTurnLeft(f, elm)
    requires g == LeftSteps(f, elm, f.Right(elm)).(marks := LeftTurnMarks(f, elm))
    ensures TurnedLeft(f, g, elm)
  {
    hide Linked, LeftTurn, LeftTurnMark, LeftInner, LeftOuter;
    LeftTurnFacts(f, elm);
    LeftOuterAt(LeftInner(f, elm, f.Right(elm)), elm, f.Right(elm), f.Parent(elm), elm);
    forall n | n in f.cells ensures TurnedAt(f, g, elm, n) {
      LeftStepsAt(f, elm, n);
    }
  }

  ghost predicate RightStepsFit<K>(f: Shape<K>, elm: Node<K>, tmp: Node<K>) {
    && elm in f.cells && tmp in f.cells && f.Left(elm) == tmp && (f.Right(tmp) != null ==> f.Right(tmp) in f.cells)
    && (f.Parent(elm) != null ==> f.Parent(elm) in f.cells)
  }

  /** First the inner subtree moves from `tmp` to `elm`. */
  ghost function RightInner<K>(f: Shape<K>, elm: Node<K>, tmp: Node<K>): (g: Shape<K>)
    requires RightStepsFit(f, elm, tmp)
    ensures g.cells.Keys == f.cells.Keys && g.marks == f.marks && g.root == f.root && g.cmp == f.cmp && g.flip == f.flip
  {
    Adopt(f.SetLeft(elm, f.Right(tmp)), f.Right(tmp), elm)
  }

  /** Then `tmp` takes the place of `elm`, and `elm` goes below it. */
  ghost function RightOuter<K>(f: Shape<K>, elm: Node<K>, tmp: Node<K>, p: Node?<K>): (g: Shape<K>)
    requires elm in f.cells && tmp in f.cells && (p != null ==> p in f.cells)
    ensures g.cells.Keys == f.cells.Keys && g.marks == f.marks && g.cmp == f.cmp && g.flip == f.flip
  {
    Hook(f.SetParent(tmp, p), p, elm, tmp).SetRight(tmp, elm).SetParent(elm, tmp)
  }

  ghost function RightSteps<K>(f: Shape<K>, elm: Node<K>, tmp: Node<K>): (g: Shape<K>)
    requires RightStepsFit(f, elm, tmp)
    ensures g.cells.Keys == f.cells.Keys && g.marks == f.marks && g.cmp == f.cmp && g.flip == f.flip
  {
    RightOuter(RightInner(f, elm, tmp), elm, tmp, f.Parent(elm))
  }

  lemma RightInnerAt<K>(f: Shape<K>, elm: Node<K>, tmp: Node<K>, n: Node<K>)
    requires RightStepsFit(f, elm, tmp) && n in f.cells && f.Right(tmp) != elm
    ensures RightInner(f, elm, tmp).cells[n] ==
      if n == elm then f.cells[n].(left := f.Right(tmp))
      else if n == f.Right(tmp) then f.cells[n].(parent := elm)
      else f.cells[n]
  {
  }

  lemma RightOuterAt<K>(f: Shape<K>, elm: Node<K>, tmp: Node<K>, p: Node?<K>, n: Node<K>)
    requires elm in f.cells && tmp in f.cells && (p != null ==> p in f.cells) && n in f.cells
    requires tmp != elm && p != elm && p != tmp
    ensures RightOuter(f, elm, tmp, p).cells[n] ==
      if n == elm then f.cells[n].(parent := tmp)
      else if n == tmp then f.cells[n].(right := elm, parent := p)
      else if n == p then (if f.Left(n) == elm then f.cells[n].(left := tmp) else f.cells[n].(right := tmp))
      else f.cells[n]
    ensures RightOuter(f, elm, tmp, p).root == if p == null then tmp else f.root
  {
  }

  lemma RightStepsFits<K(!new)>(f: Shape<K>, elm: Node<K>)
    requires Linked(f) && elm in f.cells && f.Left(elm) != null
    ensures CanTurnRight(f, elm) && RightStepsFit(f, elm, f.Left(elm))
  {
    hide Linked;
    RightTurnFacts(f, elm);
  }

  lemma RightStepsAt<K(!new)>(f: Shape<K>, elm: Node<K>, n: Node<K>)
    requires Linked(f) && elm in f.cells && f.Left(elm) != null && n in f.cells
    requires CanTurnRight(f, elm) && RightStepsFit(f, elm, f.Left(elm))
    ensures RightSteps(f, elm, f.Left(elm)).cells[n] == RightTurn(f, elm, n)
  {
    hide Linked, RightInner, RightOuter;
    RightTurnFacts(f, elm);
    var tmp := f.Left(elm);
    var f2 := RightInner(f, elm, tmp);
    RightInnerAt(f, elm, tmp, n);
    RightOuterAt(f2, elm, tmp, f.Parent(elm), n);
  }

  ghost function RightTurnMarks<K>(f: Shape<K>, elm: Node<K>): map<Node<K>, Mark<K>>
    requires CanTurnRight(f, elm)
  {
    map n | n in f.marks :: RightTurnMark(f, elm, n)
  }

  lemma RightStepsTurn<K(!new)>(f: Shape<K>, elm: Node<K>, g: Shape<K>)
    requires Linked(f) && elm in f.cells && f.Left(elm) != null
    requires RightStepsFit(f, elm, f.Left(elm)) && CanTurnRight(f, elm)
    requires g == RightSteps(f, elm, f.Left(elm)).(marks := RightTurnMarks(f, elm))
    ensures TurnedRight(f, g, elm)
  {
    hide Linked, RightTurn, RightTurnMark, RightInner, RightOuter;
    RightTurnFacts(f, elm);
    RightOuterAt(RightInner(f, elm, f.Left(elm)), elm, f.Left(elm), f.Parent(elm), elm);
    forall n | n in f.cells ensures TurnedRightAt(f, g, elm, n) {
      RightStepsAt(f, elm, n);
    }
  }
}
