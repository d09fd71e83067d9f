/** Parents and children: a child that ends reports to its parent by its done callback, whichever
    of the two ends first. */
module SessionFamily {
  import opened Sequences

  /** The fields of a session that tie it to its parent and its children. */
  datatype Record = Record(haveParent: bool, parent: Session?, children: seq<Session>, finished: seq<Session>,
                           doneCb: bool, doneCalls: nat, ended: bool, freed: bool)

  class Session {
    var haveParent: bool
    var parent: Session?
    var children: seq<Session>
    var finished: seq<Session>
    /** Whether a done callback is set. */
    var doneCb: bool
    /** How often it has run. */
    var doneCalls: nat
    /** Its automaton has come to its end. */
    var ended: bool
    var freed: bool

    function Rec(): Record
      reads this
    {
      Record(haveParent, parent, children, finished, doneCb, doneCalls, ended, freed)
    }

    constructor ()
      ensures Rec() == NEWBORN
    {
      haveParent, parent, children, finished := false, null, [], [];
      doneCb, doneCalls, ended, freed := false, 0, false, false;
    }

    /** Runs the done callback, if there is one, and frees the session. */
    method CallDoneAndFree()
      modifies this`doneCalls, this`freed
      ensures Rec() == Reported(old(Rec()))
    {
      if doneCb {
        doneCalls := doneCalls + 1;
      }
      freed := true;
    }
  }

  const NEWBORN := Record(false, null, [], [], false, 0, false, false)

  function Reported(r: Record): Record {
    r.(freed := true, doneCalls := r.doneCalls + if r.doneCb then 1 else 0)
  }

  datatype Standing = Plain | Child | Finished | Orphan | Freed

  /** Where a session stands towards a parent. */
  function StandingOf(r: Record): Standing {
    if r.freed then Freed
    else if !r.haveParent then Plain
    else if r.parent == null then Orphan
    else if r.ended then Finished
    else Child
  }

  type Records = map<Session, Record>

  /** A session and the lists of its parent agree. */
  ghost predicate Upward(f: Records, s: Session) {
    && s in f
    && (StandingOf(f[s]).Child? || StandingOf(f[s]).Finished? ==>
          var p := f[s].parent;
          && p in f && p != s && !f[p].freed && !f[p].ended
          && (s in f[p].children <==> StandingOf(f[s]).Child?) && (s in f[p].finished <==> StandingOf(f[s]).Finished?))
  }

  /** A session and its own lists agree. */
  ghost predicate Downward(f: Records, s: Session) {
    && s in f && Distinct(f[s].children) && Distinct(f[s].finished)
    && (f[s].ended || f[s].freed ==> f[s].children == [] && f[s].finished == [])
    && (forall c :: c in f[s].children ==> c in f && StandingOf(f[c]).Child? && f[c].parent == s)
    && (forall c :: c in f[s].finished ==> c in f && StandingOf(f[c]).Finished? && f[c].parent == s)
  }

  /** The callback has run once exactly if the session was a child and is freed. */
  ghost predicate Counted(f: Records, s: Session) {
    s in f && f[s].doneCalls == if f[s].freed && f[s].haveParent && f[s].doneCb then 1 else 0
  }

  ghost predicate Kin(f: Records, s: Session) {
    Upward(f, s) && Downward(f, s) && Counted(f, s)
  }

  ghost predicate AllKin(f: Records) {
    forall s {:trigger Kin(f, s)} :: s in f ==> Kin(f, s)
  }

  lemma KinAt(f: Records, s: Session)
    requires AllKin(f) && s in f
    ensures Kin(f, s) && (f[s].parent != null && f[s].parent in f ==> Kin(f, f[s].parent))
  {
    hide Kin;
    assert Kin(f, s);
    if f[s].parent != null && f[s].parent in f { assert Kin(f, f[s].parent); }
  }

  /** The child is bundled: it has a parent, and heads its list of children. */
  ghost function Bundled(f: Records, p: Session, c: Session, doneCb: bool, x: Session): Record
    requires x in f
  {
    if x == c then f[x].(haveParent := true, parent := p, doneCb := doneCb)
    else if x == p then f[x].(children := [c] + f[x].children)
    else f[x]
  }

  ghost predicate IsBundled(f: Records, g: Records, p: Session, c: Session, doneCb: bool) {
    && p in f && c in f && p != c && !f[p].freed && !f[p].ended && !f[c].freed && !f[c].ended && !f[c].haveParent
    && g.Keys == f.Keys && forall x :: x in f ==> g[x] == Bundled(f, p, c, doneCb, x)
  }

  lemma BundledKin(f: Records, g: Records, p: Session, c: Session, doneCb: bool)
    requires AllKin(f) && IsBundled(f, g, p, c, doneCb)
    ensures AllKin(g)
  {
    forall x | x in g ensures Kin(g, x) {
      BundledOne(f, g, p, c, doneCb, x);
    }
  }

  lemma BundledOne(f: Records, g: Records, p: Session, c: Session, doneCb: bool, x: Session)
    requires AllKin(f) && IsBundled(f, g, p, c, doneCb) && x in f
    ensures Kin(g, x)
  {
    hide AllKin, Distinct, Upward, Downward;
    KinAt(f, x);
    BundledUp(f, g, p, c, doneCb, x);
    BundledDown(f, g, p, c, doneCb, x);
  }

  lemma BundledUp(f: Records, g: Records, p: Session, c: Session, doneCb: bool, x: Session)
    requires AllKin(f) && IsBundled(f, g, p, c, doneCb) && x in f
    ensures Upward(g, x)
  {
    hide AllKin, Downward, Counted;
    KinAt(f, x);
    NotListed(f, p, c);
  }

  /** A session without a parent is in nobody's lists. */
  lemma NotListed(f: Records, p: Session, c: Session)
    requires AllKin(f) && p in f && c in f && !f[c].haveParent
    ensures c !in f[p].children && c !in f[p].finished
  {
    hide AllKin, Upward, Counted, Distinct;
    KinAt(f, p);
  }

  lemma BundledDown(f: Records, g: Records, p: Session, c: Session, doneCb: bool, x: Session)
    requires AllKin(f) && IsBundled(f, g, p, c, doneCb) && x in f
    ensures Downward(g, x)
  {
    hide AllKin, Upward, Counted, Distinct;
    KinAt(f, x);
    NotListed(f, p, c);
    NotListed(f, x, c);
    assert Distinct(f[p].children) by { KinAt(f, p); }
    JoinedDistinct(f[p].children, c);
    forall y | y in g[x].children ensures y in g && StandingOf(g[y]).Child? && g[y].parent == x {
      assert y in f[x].children || (x == p && y == c);
    }
    forall y | y in g[x].finished ensures y in g && StandingOf(g[y]).Finished? && g[y].parent == x {
      assert y in f[x].finished;
    }
  }


  /** Running children lose their parent, finished ones report and go. */
  ghost function Unhooked(f: Records, s: Session, x: Session): Record
    requires x in f && s in f
  {
    if x == s then f[x].(children := [], finished := [])
    else if x in f[s].children then f[x].(parent := null)
    else if x in f[s].finished then Reported(f[x].(parent := null))
    else f[x]
  }

  lemma UnhookedKin(f: Records, g: Records, s: Session)
    requires AllKin(f) && s in f && !f[s].freed
    requires g.Keys == f.Keys && forall x :: x in f ==> g[x] == Unhooked(f, s, x)
    ensures AllKin(g)
  {
    assert Kin(f, s);
    forall x | x in g ensures Kin(g, x) {
      UnhookedOne(f, g, s, x);
    }
  }

  lemma UnhookedOne(f: Records, g: Records, s: Session, x: Session)
    requires AllKin(f) && s in f && !f[s].freed && x in f
    requires g.Keys == f.Keys && forall y :: y in f ==> g[y] == Unhooked(f, s, y)
    ensures Kin(g, x)
  {
    hide AllKin, Distinct, Upward, Downward;
    KinAt(f, x);
    KinAt(f, s);
    UnhookedUp(f, g, s, x);
    UnhookedDown(f, g, s, x);
    UnhookedCounts(f, g, s, x);
  }

  lemma UnhookedCounts(f: Records, g: Records, s: Session, x: Session)
    requires Kin(f, s) && Kin(f, x)
    requires g.Keys == f.Keys && forall y :: y in f ==> g[y] == Unhooked(f, s, y)
    ensures Counted(g, x)
  {
    hide Distinct, Upward;
  }

  lemma UnhookedUp(f: Records, g: Records, s: Session, x: Session)
    requires AllKin(f) && s in f && !f[s].freed && x in f
    requires g.Keys == f.Keys && forall y :: y in f ==> g[y] == Unhooked(f, s, y)
    ensures Upward(g, x)
  {
    hide AllKin, Distinct, Counted;
    KinAt(f, x);
    KinAt(f, s);
  }

  lemma UnhookedDown(f: Records, g: Records, s: Session, x: Session)
    requires AllKin(f) && s in f && !f[s].freed && x in f
    requires g.Keys == f.Keys && forall y :: y in f ==> g[y] == Unhooked(f, s, y)
    ensures Downward(g, x)
  {
    hide AllKin, Distinct, Counted, Upward;
    KinAt(f, x);
    KinAt(f, s);
    NoneTwice<Session>();
    forall c | c in g[x].children ensures c in g && StandingOf(g[c]).Child? && g[c].parent == x {
      assert c in f[x].children && c !in f[s].children && c !in f[s].finished;
    }
    forall c | c in g[x].finished ensures c in g && StandingOf(g[c]).Finished? && g[c].parent == x {
      assert c in f[x].finished && c !in f[s].children && c !in f[s].finished;
    }
  }

  /** Without one of its elements. */
  function Dropped(l: seq<Session>, k: nat): seq<Session>
    requires k < |l|
  {
    l[..k] + l[k + 1..]
  }

  /** The session moves from its parent's list of children to that of the finished ones. */
  ghost function MovedOver(f: Records, p: Session, s: Session, k: nat, x: Session): Record
    requires x in f && p in f && k < |f[p].children|
  {
    if x == s then f[x].(ended := true)
    else if x == p then f[x].(children := Dropped(f[x].children, k), finished := [s] + f[x].finished)
    else f[x]
  }

  ghost predicate IsMoved(f: Records, g: Records, p: Session, s: Session, k: nat) {
    && s in f && StandingOf(f[s]).Child? && f[s].parent == p && p in f
    && k < |f[p].children| && f[p].children[k] == s && f[s].children == [] && f[s].finished == []
    && g.Keys == f.Keys && forall x :: x in f ==> g[x] == MovedOver(f, p, s, k, x)
  }

  lemma MovedKin(f: Records, g: Records, p: Session, s: Session, k: nat)
    requires AllKin(f) && IsMoved(f, g, p, s, k)
    ensures AllKin(g)
  {
    forall x | x in g ensures Kin(g, x) {
      MovedOne(f, g, p, s, k, x);
    }
  }

  lemma DroppedHolds(l: seq<Session>, k: nat)
    requires Distinct(l) && k < |l|
    ensures Distinct(Dropped(l, k)) && forall x :: x in Dropped(l, k) <==> x in l && x != l[k]
  {
    var m := Dropped(l, k);
    assert forall i :: 0 <= i < |m| ==> m[i] == if i < k then l[i] else l[i + 1];
    forall x | x in l && x != l[k] ensures x in m {
      var i :| 0 <= i < |l| && l[i] == x;
      assert m[if i < k then i else i - 1] == x;
    }
  }

  lemma MovedOne(f: Records, g: Records, p: Session, s: Session, k: nat, x: Session)
    requires AllKin(f) && IsMoved(f, g, p, s, k) && x in f
    ensures Kin(g, x)
  {
    hide AllKin, Dropped, Distinct;
    KinAt(f, s);
    KinAt(f, p);
    KinAt(f, x);
    DroppedHolds(f[p].children, k);
    JoinedDistinct(f[p].finished, s);
    forall y | y in g[x].children ensures y in g && StandingOf(g[y]).Child? && g[y].parent == x {
      assert y in f[x].children && y != s;
    }
    forall y | y in g[x].finished ensures y in g && StandingOf(g[y]).Finished? && g[y].parent == x {
      assert y in f[x].finished || (x == p && y == s);
    }
  }

  lemma UnhookedEnds(f: Records, g: Records, s: Session)
    requires Kin(f, s) && g.Keys == f.Keys && forall x :: x in f ==> g[x] == Unhooked(f, s, x)
    ensures g[s].haveParent == f[s].haveParent && g[s].parent == f[s].parent && g[s].freed == f[s].freed &&
      g[s].ended == f[s].ended
    ensures forall c :: c in f[s].children ==> c in g && c != s && StandingOf(g[c]) == Orphan
    ensures forall c :: c in f[s].finished ==> c in g && c != s && StandingOf(g[c]) == Freed
  {
    FamilyApart(f, s);
  }

  lemma MovedEnds(f: Records, g: Records, p: Session, s: Session, k: nat)
    requires IsMoved(f, g, p, s, k)
    ensures StandingOf(g[s]) == Finished && g[s].parent == p
    ensures forall c :: c in f && c != s ==> StandingOf(g[c]) == StandingOf(f[c])
  {
  }

  /** A session that ends without a parent is freed at once. */
  lemma AloneKin(f: Records, g: Records, s: Session)
    requires AllKin(f) && s in f && f[s].children == [] && f[s].finished == [] &&
      (f[s].haveParent ==> f[s].parent == null) && !f[s].freed
    requires g ==
      f[s := if f[s].haveParent then Reported(f[s].(ended := true)) else f[s].(ended := true, freed := true)]
    ensures AllKin(g)
  {
    assert Kin(f, s);
    forall x | x in g ensures Kin(g, x) {
      AloneOne(f, g, s, x);
    }
  }

  lemma AloneOne(f: Records, g: Records, s: Session, x: Session)
    requires AllKin(f) && s in f && f[s].children == [] && f[s].finished == [] &&
      (f[s].haveParent ==> f[s].parent == null) && !f[s].freed
    requires g ==
      f[s := if f[s].haveParent then Reported(f[s].(ended := true)) else f[s].(ended := true, freed := true)]
    requires x in f
    ensures Kin(g, x)
  {
    assert Kin(f, s) && Kin(f, x);
    if f[x].parent != null && f[x].parent in f { assert Kin(f, f[x].parent); }
    hide AllKin, Distinct;
    forall y | y in g[x].children ensures y in g && StandingOf(g[y]).Child? && g[y].parent == x {
      assert y in f[x].children && y != s;
    }
    forall y | y in g[x].finished ensures y in g && StandingOf(g[y]).Finished? && g[y].parent == x {
      assert y in f[x].finished && y != s;
    }
  }

  /** A session has a parent or had one exactly if it was bundled, and has the callback asked for then. */
  ghost predicate Remembered(f: Records, asked: map<Session, bool>) {
    && asked.Keys <= f.Keys
    && forall s :: s in f ==> (f[s].haveParent <==> s in asked) && (s in asked ==> f[s].doneCb == asked[s])
  }

  lemma RememberedMore(f: Records, g: Records, asked: map<Session, bool>, p: Session, c: Session, doneCb: bool)
    requires Remembered(f, asked) && IsBundled(f, g, p, c, doneCb)
    ensures Remembered(g, asked[c := doneCb])
  {
  }

  lemma RememberedUnhooked(f: Records, g: Records, asked: map<Session, bool>, s: Session)
    requires Remembered(f, asked) && s in f
    requires g.Keys == f.Keys && forall x :: x in f ==> g[x] == Unhooked(f, s, x)
    ensures Remembered(g, asked)
  {
  }

  lemma RememberedMoved(f: Records, g: Records, asked: map<Session, bool>, p: Session, s: Session, k: nat)
    requires Remembered(f, asked) && IsMoved(f, g, p, s, k)
    ensures Remembered(g, asked)
  {
  }

  lemma RememberedAlone(f: Records, g: Records, asked: map<Session, bool>, s: Session)
    requires Remembered(f, asked) && s in f && g.Keys == f.Keys
    requires forall x :: x in f ==> g[x].haveParent == f[x].haveParent && g[x].doneCb == f[x].doneCb
    ensures Remembered(g, asked)
  {
  }

  lemma RememberedCleared(f: Records, g: Records, asked: map<Session, bool>, s: Session)
    requires Remembered(f, asked) && s in f
    requires g.Keys == f.Keys && forall x :: x in f ==> g[x] == Cleared(f, s, x)
    ensures Remembered(g, asked)
  {
  }

  class Family {
    ghost var all: set<Session>
    /** The sessions that were bundled, and whether a callback was asked for. */
    ghost var asked: map<Session, bool>

    ghost function View(): (f: Records)
      reads this`all, all
      ensures f.Keys == all
    {
      map s | s in all :: s.Rec()
    }

    ghost predicate Valid()
      reads this, all
    {
      AllKin(View()) && Remembered(View(), asked)
    }

    constructor ()
      ensures Valid() && all == {} && asked == map[]
    {
      all, asked := {}, map[];
    }

    /** In every run: the callback of a bundled session has run once when it is freed if it was asked for,
        and has not run before or otherwise. */
    lemma CallbackRunsOnce(s: Session)
      requires Valid() && s in all
      ensures s.doneCalls == if s in asked && asked[s] && s.freed then 1 else 0
    {
      assert Kin(View(), s);
      hide Upward, Downward;
    }

    method NewSession() returns (s: Session)
      requires Valid()
      modifies this`all
      ensures Valid() && fresh(s) && all == old(all) + {s} && asked == old(asked) && s.Rec() == NEWBORN
    {
      ghost var f := View();
      s := new Session();
      all := all + {s};
      BornKin(f, View(), s);
    }

    /** `esq_session_bundle_child`, when parent and child take the two actions: false when the
        child has a parent already, which makes the process exit. */
    method BundleChild(parent: Session, child: Session, doneCb: bool) returns (ok: bool)
      requires Valid() && parent in all && child in all && parent != child
      requires !parent.freed && !parent.ended && !child.freed && !child.ended
      modifies this`asked, parent`children, child`haveParent, child`parent, child`doneCb
      ensures Valid() && ok == !old(child.haveParent) && (!ok ==> View() == old(View()))
      ensures ok ==> IsBundled(old(View()), View(), parent, child, doneCb)
      ensures ok ==> child.haveParent && child.parent == parent && child.doneCb == doneCb
      ensures ok ==> parent.children == [child] + old(parent.children)
      ensures asked == if ok then old(asked)[child := doneCb] else old(asked)
    {
      hide AllKin, Remembered, Kin;
      if child.haveParent {
        return false;
      }
      ghost var f := View();
      child.haveParent := true;
      child.doneCb := doneCb;
      child.parent := parent;
      parent.children := [child] + parent.children;
      forall x | x in all ensures x.Rec() == Bundled(f, parent, child, doneCb, x) {
        assert f[x] == old(x.Rec());
      }
      RememberedMore(f, View(), asked, parent, child, doneCb);
      asked := asked[child := doneCb];
      BundledKin(f, View(), parent, child, doneCb);
      return true;
    }

    /** The running children lose their parent. */
    method OrphanAll(children: seq<Session>)
      requires Distinct(children)
      modifies children`parent
      ensures forall c :: c in children ==> c.Rec() == old(c.Rec()).(parent := null)
    {
      var i := 0;
      while i < |children|
        invariant 0 <= i <= |children|
        invariant forall j :: 0 <= j < |children| ==>
          children[j].Rec() == if j < i then old(children[j].Rec()).(parent := null) else old(children[j].Rec())
      {
        children[i].parent := null;
        i := i + 1;
      }
    }

    /** The finished children report and go. */
    method ReportAll(finished: seq<Session>)
      requires Distinct(finished)
      modifies finished`parent, finished`doneCalls, finished`freed
      ensures forall c :: c in finished ==> c.Rec() == Reported(old(c.Rec()).(parent := null))
    {
      var i := 0;
      while i < |finished|
        invariant 0 <= i <= |finished|
        invariant forall j :: 0 <= j < |finished| ==>
          finished[j].Rec() ==
          if j < i then Reported(old(finished[j].Rec()).(parent := null)) else old(finished[j].Rec())
      {
        finished[i].parent := null;
        finished[i].CallDoneAndFree();
        i := i + 1;
      }
    }

    /** `esq_unhook_child_session` */
    method UnhookChildren(s: Session)
      requires Valid() && s in all && !s.freed
      modifies s`children, s`finished, s.children`parent, s.finished`parent, s.finished`doneCalls, s.finished`freed
      ensures Valid() && s.children == [] && s.finished == []
      ensures forall x :: x in all ==> View()[x] == Unhooked(old(View()), s, x)
    {
      hide Reported, AllKin, Distinct, Upward, Counted, Remembered;
      ghost var f := View();
      KinAt(f, s);
      var children, finished := s.children, s.finished;
      FamilyApart(f, s);
      OrphanAll(children);
      ReportAll(finished);
      s.children := [];
      s.finished := [];
      forall x | x in all ensures x.Rec() == Unhooked(f, s, x) {
        assert f[x] == old(x.Rec());
      }
      RememberedUnhooked(f, View(), asked, s);
      UnhookedKin(f, View(), s);
    }

    /** `esq_move_child_session_into_finish_list` */
    method MoveIntoFinishList(parent: Session, s: Session)
        returns (ghost k: nat)
      requires Valid() && s in all && parent in all && s.parent == parent && StandingOf(s.Rec()).Child?
      requires s.children == [] && s.finished == []
      modifies parent`children, parent`finished, s`ended
      ensures Valid() && IsMoved(old(View()), View(), parent, s, k)
    {
      hide AllKin, Distinct, Downward, Counted, Dropped, Remembered;
      ghost var f := View();
      KinAt(f, s);
      var i := 0;
      while i < |parent.children| && parent.children[i] != s
        invariant 0 <= i <= |parent.children| && forall j :: 0 <= j < i ==> parent.children[j] != s
      {
        i := i + 1;
      }
      parent.children := Dropped(parent.children, i);
      parent.finished := [s] + parent.finished;
      s.ended := true;
      k := i;
      forall x | x in all ensures x.Rec() == MovedOver(f, parent, s, i, x) {
        assert f[x] == old(x.Rec());
      }
      RememberedMoved(f, View(), asked, parent, s, i);
      MovedKin(f, View(), parent, s, i);
    }

    /** What `__esq_session_take_action` does for a session whose automaton asks to free it. */
    method EndSession(s: Session)
      requires Valid() && s in all && !s.freed && !s.ended
      modifies s, s.parent, s.children`parent, s.finished`parent, s.finished`doneCalls, s.finished`freed
      ensures Valid()
      ensures s.children == [] && s.finished == []
      ensures forall c :: c in old(s.children) ==> StandingOf(c.Rec()) == Orphan
      ensures forall c :: c in old(s.finished) ==> StandingOf(c.Rec()) == Freed
      ensures if old(StandingOf(s.Rec())).Child? then StandingOf(s.Rec()) == Finished && s.parent == old(s.parent)
              else StandingOf(s.Rec()) == Freed
    {
      ghost var f := View();
      assert Kin(f, s);
      FamilyApart(f, s);
      if StandingOf(f[s]).Child? { ParentApart(f, s); }
      UnhookChildren(s);
      ghost var g := View();
      hide AllKin, Kin;
      UnhookedEnds(f, g, s);
      var parent := s.parent;
      if s.haveParent && parent != null {
        ghost var k := MoveIntoFinishList(parent, s);
        MovedEnds(g, View(), parent, s, k);
      } else {
        EndAlone(s);
      }
    }

    method EndAlone(s: Session)
      requires Valid() && s in all && s.children == [] && s.finished == [] && !s.freed &&
        (s.haveParent ==> s.parent == null)
      modifies s`ended, s`freed, s`doneCalls
      ensures Valid() && s.freed && forall x :: x in all && x != s ==> View()[x] == old(View())[x]
    {
      hide AllKin, Remembered;
      ghost var g := View();
      s.ended := true;
      if s.haveParent {
        s.CallDoneAndFree();
      } else {
        s.freed := true;
      }
      forall x | x in all && x != s ensures x.Rec() == g[x] {
      }
      assert View() == g[s := s.Rec()];
      RememberedAlone(g, View(), asked, s);
      AloneKin(g, View(), s);
    }

    /** The done callbacks of the finished children, each freed behind it. */
    method DoneAll(finished: seq<Session>)
      requires Distinct(finished)
      modifies finished`doneCalls, finished`freed
      ensures forall c :: c in finished ==> c.Rec() == Reported(old(c.Rec()))
    {
      var i := 0;
      while i < |finished|
        invariant 0 <= i <= |finished|
        invariant forall j :: 0 <= j < |finished| ==>
          finished[j].Rec() == if j < i then Reported(old(finished[j].Rec())) else old(finished[j].Rec())
      {
        finished[i].CallDoneAndFree();
        i := i + 1;
      }
    }

    /** `esq_execute_session_done_cb`: the finished children report and go while the parent runs. */
    method ExecuteDoneCb(s: Session)
      requires Valid() && s in all && !s.freed
      modifies s`finished, s.finished`doneCalls, s.finished`freed
      ensures Valid() && s.finished == [] && s.children == old(s.children)
      ensures forall c :: c in old(s.finished) ==> StandingOf(c.Rec()) == Freed
    {
      hide Reported, AllKin, Distinct, Upward, Counted, Remembered;
      ghost var f := View();
      KinAt(f, s);
      FamilyApart(f, s);
      var finished := s.finished;
      DoneAll(finished);
      s.finished := [];
      forall x | x in all ensures x.Rec() == Cleared(f, s, x) {
        assert f[x] == old(x.Rec());
      }
      RememberedCleared(f, View(), asked, s);
      ClearedKin(f, View(), s);
      ReportedFreed();
    }
  }

  lemma ReportedFreed()
    ensures forall r: Record {:trigger Reported(r)} :: StandingOf(Reported(r)).Freed?
  {
  }

  ghost function Cleared(f: Records, s: Session, x: Session): Record
    requires x in f && s in f
  {
    if x == s then f[x].(finished := [])
    else if x in f[s].finished then Reported(f[x])
    else f[x]
  }

  lemma ClearedKin(f: Records, g: Records, s: Session)
    requires AllKin(f) && s in f && g.Keys == f.Keys && forall x :: x in f ==> g[x] == Cleared(f, s, x)
    ensures AllKin(g)
  {
    forall x | x in g ensures Kin(g, x) {
      ClearedOne(f, g, s, x);
    }
  }

  lemma ClearedOne(f: Records, g: Records, s: Session, x: Session)
    requires AllKin(f) && s in f && g.Keys == f.Keys && forall y :: y in f ==> g[y] == Cleared(f, s, y)
    requires x in f
    ensures Kin(g, x)
  {
    assert Kin(f, s) && Kin(f, x);
    if f[x].parent != null && f[x].parent in f { assert Kin(f, f[x].parent); }
    hide AllKin, Distinct;
    forall y | y in g[x].children ensures y in g && StandingOf(g[y]).Child? && g[y].parent == x {
      assert y in f[x].children && y !in f[s].finished;
    }
    forall y | y in g[x].finished ensures y in g && StandingOf(g[y]).Finished? && g[y].parent == x {
      assert y in f[x].finished && y !in f[s].finished;
    }
  }

  lemma ParentApart(f: Records, s: Session)
    requires AllKin(f) && s in f && f[s].parent != null && StandingOf(f[s]).Child?
    ensures f[s].parent in f && f[s].parent != s && f[s].parent !in f[s].finished
  {
    assert Kin(f, s);
    var p := f[s].parent;
    assert !f[p].ended;
    assert forall c :: c in f[s].finished ==> f[c].ended;
  }

  /** Every bundled child is in exactly one of four places, and its callback has run exactly once
      when it is freed and not before. */
  lemma OnePlace(f: Records, s: Session)
    requires AllKin(f) && s in f && f[s].haveParent
    ensures var p := f[s].parent;
      match StandingOf(f[s]) {
        case Child => p in f && s in f[p].children && s !in f[p].finished
        case Finished => p in f && s in f[p].finished && s !in f[p].children
        case Orphan => p == null
        case Freed => forall q :: q in f ==> s !in f[q].children && s !in f[q].finished
        case Plain => false
      }
    ensures StandingOf(f[s]).Orphan? ==> forall q :: q in f ==> s !in f[q].children && s !in f[q].finished
    ensures f[s].doneCalls == if f[s].freed && f[s].doneCb then 1 else 0
  {
    assert Kin(f, s);
    forall q | q in f && (StandingOf(f[s]).Freed? || StandingOf(f[s]).Orphan?)
      ensures s !in f[q].children && s !in f[q].finished
    {
      assert Kin(f, q);
    }
  }

  lemma BornKin(f: Records, g: Records, s: Session)
    requires AllKin(f) && s !in f && g == f[s := NEWBORN]
    ensures AllKin(g)
  {
    forall x | x in g ensures Kin(g, x) {
      if x != s {
        assert Kin(f, x);
        assert s !in f[x].children && s !in f[x].finished;
      }
    }
  }

  lemma FamilyApart(f: Records, s: Session)
    requires Kin(f, s)
    ensures forall c :: c in f[s].children ==> c in f && c != s && c !in f[s].finished
    ensures forall c :: c in f[s].finished ==> c in f && c != s
  {
    forall c | c in f[s].children || c in f[s].finished ensures c != s {
    }
  }
}
