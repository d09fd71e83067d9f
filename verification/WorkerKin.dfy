/** Parents and children among the sessions of a worker. */
module WorkerKin {
  import opened SessionCore
  import opened Sequences
  import opened WorkerLists

  type Bonds = map<Session, Bond>

  /** A parent has its running children in its list, and nobody else. */
  ghost predicate BondOk(f: Bonds, s: Session) {
    && s in f
    && (f[s].parent != null ==> f[s].parent in f && f[s].parent != s && s in f[f[s].parent].children)
    && Distinct(f[s].children) && forall c :: c in f[s].children ==> c in f && f[c].parent == s
  }

  ghost predicate Bonded(f: Bonds) {
    forall s {:trigger BondOk(f, s)} :: s in f ==> BondOk(f, s)
  }

  /** The end of `s`: its children have no parent any more, and its parent has one child less. */
  function PartedAt(f: Bonds, s: Session, x: Session): Bond
    requires s in f && x in f
  {
    Bond(if x in f[s].children then null else f[x].parent,
         if x == f[s].parent then Sans<Session>(f[x].children, s) else f[x].children)
  }

  function Parted(f: Bonds, s: Session): Bonds
    requires s in f
  {
    map x | x in f && x != s :: PartedAt(f, s, x)
  }

  lemma PartedOne(f: Bonds, s: Session, x: Session)
    requires Bonded(f) && s in f && x in f && x != s
    ensures BondOk(Parted(f, s), x)
  {
    var g := Parted(f, s);
    assert BondOk(f, x) && BondOk(f, s);
    SansDistinct<Session>(f[x].children, s);
    if g[x].parent != null {
      assert BondOk(f, f[x].parent);
      SansMember<Session>(f[f[x].parent].children, s, x);
    }
    forall c | c in g[x].children ensures c in g && g[c].parent == x {
      SansMember<Session>(f[x].children, s, c);
      assert BondOk(f, c);
    }
  }

  lemma PartedBonded(f: Bonds, s: Session)
    requires Bonded(f) && s in f
    ensures Bonded(Parted(f, s))
  {
    forall x | x in Parted(f, s) ensures BondOk(Parted(f, s), x) {
      PartedOne(f, s, x);
    }
  }

  /** What an action makes of parents and children. */
  ghost function KinAfter(f: Bonds, s: Session, a: Action, peer: Session?, step: Step): Bonds
    requires s in f
  {
    if step.Gone? then Parted(f, s)
    else if a.SetParent? then f[s := f[s].(parent := peer)]
    else if a.AddChild? && peer != null then f[s := f[s].(children := [peer] + f[s].children)]
    else f
  }

  lemma KinAfterFacts(f: Bonds, s: Session, a: Action, peer: Session?, step: Step)
    requires s in f
    ensures Bonded(f) && !a.SetParent? && !a.AddChild? ==> Bonded(KinAfter(f, s, a, peer, step))
    ensures Bonded(f) ==> f[s].parent != s && s !in f[s].children && (f[s].parent != null ==> f[s].parent in f)
  {
    if Bonded(f) {
      PartedBonded(f, s);
      assert BondOk(f, s);
    }
  }

  /** `c` becomes a child of `p`. */
  function Adopted(f: Bonds, p: Session, c: Session): (g: Bonds)
    requires p in f && c in f && p != c
    ensures g.Keys == f.Keys
  {
    f[c := f[c].(parent := p)][p := f[p].(children := [c] + f[p].children)]
  }

  lemma AdoptedBonded(f: Bonds, p: Session, c: Session)
    requires Bonded(f) && p in f && c in f && p != c && f[c].parent == null
    ensures Bonded(Adopted(f, p, c))
  {
    var g := Adopted(f, p, c);
    assert BondOk(f, p) && BondOk(f, c);
    assert c !in f[p].children;
    JoinedDistinct(f[p].children, c);
    forall x | x in g ensures BondOk(g, x) {
      assert BondOk(f, x);
      if f[x].parent != null { assert BondOk(f, f[x].parent); }
    }
  }

  lemma BornBonded(f: Bonds, s: Session)
    requires Bonded(f) && s !in f
    ensures Bonded(f[s := Bond(null, [])])
  {
    var g := f[s := Bond(null, [])];
    forall x | x in g ensures BondOk(g, x) {
      if x != s { assert BondOk(f, x); }
    }
  }
}
