/** The sessions of a worker and its lists of them. A list is a sequence here, a session's successor
    in it what its `next` link leads to; `SessionLists` proves the linking of the lists. */
module WorkerLists {
  import opened SessionCore
  import opened Sequences

  class Session {
    var kind: SessionType
    var lc: Label
    var fd: int
    var timeouts: int
    var timeoutms: int
    var bits: set<EventBit>
    var bits2: set<EventBit>
    var haveParent: bool
    var windUpS: int
    var windUpMs: int

    /** The session that is to be told when this one ends, and those that are to tell this one. */
    var parent: Session?
    var children: seq<Session>

    function Core(): SessionCore.Core
      reads this`kind, this`lc, this`fd, this`timeouts, this`timeoutms, this`bits, this`bits2, this`haveParent
    {
      SessionCore.Core(kind, lc, fd, timeouts, timeoutms, bits, bits2, haveParent)
    }

    function Kin(): Bond
      reads this`parent, this`children
    {
      Bond(parent, children)
    }

    /** When the session began to wait, in seconds and a rest. */
    function Began(): (int, int)
      reads this`windUpS, this`windUpMs
    {
      (windUpS, windUpMs)
    }

    /** If it waits now, it has begun now, or was waiting and has begun when it had. */
    twostate predicate Stamped(nowS: int, nowMs: int)
      reads this`lc, this`windUpS, this`windUpMs
    {
      lc.WindedUp? ==> Began() == if old(lc.WindedUp?) then old(Began()) else (nowS, nowMs)
    }

    constructor ()
      ensures Core() == NEWBORN && Kin() == Bond(null, [])
    {
      kind, lc, fd, timeouts, timeoutms, bits, bits2, haveParent := NoFd, Initial, 0, 0, 0, {}, {}, false;
      windUpS, windUpMs, parent, children := 0, 0, null, [];
    }
  }

  datatype Bond = Bond(parent: Session?, children: seq<Session>)

  ghost function Just(s: Session?): set<Session> {
    if s == null then {} else {s}
  }

  type Lists = seq<seq<Session>>

  /** A session is in list `w` and in no other; a new session in one of the two lists for them. */
  ghost predicate In(ls: Lists, s: Session, w: int) {
    && |ls| == LISTS
    && (forall i {:trigger s in ls[i]} :: 0 <= i < LOCAL_NEW ==> (s in ls[i] <==> w == i))
    && (w == LOCAL_NEW <==> s in ls[LOCAL_NEW] || s in ls[GLOBAL_NEW])
    && !(s in ls[LOCAL_NEW] && s in ls[GLOBAL_NEW])
  }

  /** A session stands where its fields say, and they are as they should be. */
  ghost predicate Stands(ls: Lists, s: Session, c: Core) {
    In(ls, s, Where(c)) && Sane(c)
  }

  /** The lists hold sessions of the worker, each once. */
  ghost predicate Tidy(ls: Lists, sessions: set<Session>) {
    && |ls| == LISTS
    && forall i {:trigger ls[i]} :: 0 <= i < LISTS ==> Distinct(ls[i]) && forall s :: s in ls[i] ==> s in sessions
  }

  /** List `i` lost or kept `s`, or has it at the end where sessions join it. */
  ghost predicate MovesAt(ls: Lists, ls': Lists, s: Session, i: nat) {
    && i < |ls| == |ls'| && Sans(ls'[i], s) == Sans(ls[i], s)
    && (|| ls'[i] == ls[i] || ls'[i] == Sans(ls[i], s)
        || (TO_100MS <= i <= NO_TIME && ls'[i] == [s] + Sans(ls[i], s))
        || (!(TO_100MS <= i <= NO_TIME) && ls'[i] == Sans(ls[i], s) + [s]))
  }

  /** No other session than `s` has moved. */
  ghost predicate OnlyMoves(ls: Lists, ls': Lists, s: Session) {
    |ls| == |ls'| == LISTS && forall i {:trigger MovesAt(ls, ls', s, i)} :: 0 <= i < LISTS ==> MovesAt(ls, ls', s, i)
  }

  lemma SansTwice(l: seq<Session>, s: Session)
    ensures Sans(Sans(l, s), s) == Sans(l, s)
  {
    SansMember(l, s, s);
    SansAbsent(Sans(l, s), s);
  }

  lemma {:induction false} SansTail(l: seq<Session>, s: Session)
    requires s !in l
    ensures Sans(l + [s], s) == l
  {
    if l == [] {
      assert l + [s] == [s];
    } else {
      SansTail(l[1..], s);
      assert (l + [s])[1..] == l[1..] + [s];
    }
  }

  lemma SansHead(l: seq<Session>, s: Session)
    requires s !in l
    ensures Sans([s] + l, s) == l
  {
    SansAbsent(l, s);
    assert ([s] + l)[1..] == l;
  }

  /** What a change of the lists on behalf of `s` keeps. */
  ghost predicate Relisted(ls: Lists, ls': Lists, sessions: set<Session>, s: Session, w: int) {
    && Tidy(ls', sessions) && In(ls', s, w) && OnlyMoves(ls, ls', s)
    && forall x, v :: x in sessions && x != s && In(ls, x, v) ==> In(ls', x, v)
  }

  lemma RelistedSize(ls: Lists, ls': Lists, sessions: set<Session>, s: Session, w: int)
    requires Relisted(ls, ls', sessions, s, w)
    ensures |ls'| == LISTS
  {
  }

  /** Changing list `i` by `s` alone. */
  lemma OneList(ls: Lists, ls': Lists, sessions: set<Session>, i: nat, s: Session, v: int, w: int)
    requires Tidy(ls, sessions) && i < LISTS && |ls'| == LISTS && ls' == ls[i := ls'[i]] && In(ls, s, v)
    requires MovesAt(ls, ls', s, i) && Distinct(ls'[i]) && s in sessions
    requires v == NOWHERE || (v == (if i < LOCAL_NEW then i else LOCAL_NEW) && s in ls[i])
    requires w == if s in ls'[i] then (if i < LOCAL_NEW then i else LOCAL_NEW) else NOWHERE
    ensures Relisted(ls, ls', sessions, s, w)
  {
    hide Sans;
    forall x | x in ls'[i] ensures x in sessions {
      if x != s { SansMember(ls'[i], s, x); SansMember(ls[i], s, x); }
    }
    forall x, u | x in sessions && x != s && In(ls, x, u) ensures In(ls', x, u) {
      SansMember(ls'[i], s, x);
      SansMember(ls[i], s, x);
    }
  }

  lemma LeavingRelists(ls: Lists, sessions: set<Session>, i: nat, s: Session)
    requires Tidy(ls, sessions) && i < LISTS && In(ls, s, if i < LOCAL_NEW then i else LOCAL_NEW) && s in ls[i]
    ensures Relisted(ls, Leaving(ls, i, s), sessions, s, NOWHERE)
  {
    hide Sans, In, Distinct;
    SansTwice(ls[i], s);
    SansDistinct(ls[i], s);
    SansMember(ls[i], s, s);
    OneList(ls, Leaving(ls, i, s), sessions, i, s, if i < LOCAL_NEW then i else LOCAL_NEW, NOWHERE);
  }

  lemma HeadRelists(ls: Lists, sessions: set<Session>, i: nat, s: Session)
    requires Tidy(ls, sessions) && TO_100MS <= i <= NO_TIME && In(ls, s, NOWHERE) && s in sessions
    ensures Relisted(ls, AtHead(ls, i, s), sessions, s, i)
  {
    SansHead(ls[i], s);
    SansAbsent(ls[i], s);
    JoinedDistinct(ls[i], s);
    var ls' := AtHead(ls, i, s);
    assert ls'[i] == [s] + ls[i];
    hide Sans, In, Distinct;
    assert MovesAt(ls, ls', s, i);
    hide MovesAt;
    OneList(ls, AtHead(ls, i, s), sessions, i, s, NOWHERE, i);
  }

  lemma TailRelists(ls: Lists, sessions: set<Session>, i: nat, s: Session)
    requires Tidy(ls, sessions) && i < LISTS && !(TO_100MS <= i <= NO_TIME) && In(ls, s, NOWHERE) && s in sessions
    ensures Relisted(ls, AtTail(ls, i, s), sessions, s, if i < LOCAL_NEW then i else LOCAL_NEW)
  {
    SansTail(ls[i], s);
    SansAbsent(ls[i], s);
    JoinedDistinct(ls[i], s);
    var ls' := AtTail(ls, i, s);
    assert ls'[i] == ls[i] + [s];
    hide Sans, In, Distinct;
    assert MovesAt(ls, ls', s, i);
    hide MovesAt;
    OneList(ls, AtTail(ls, i, s), sessions, i, s, NOWHERE, if i < LOCAL_NEW then i else LOCAL_NEW);
  }

  lemma RelistedTwice(ls: Lists, ls1: Lists, ls2: Lists, sessions: set<Session>, s: Session, v: int, w: int)
    requires Relisted(ls, ls1, sessions, s, v) && Relisted(ls1, ls2, sessions, s, w)
    ensures Relisted(ls, ls2, sessions, s, w)
  {
    hide Tidy;
    forall i | 0 <= i < LISTS ensures MovesAt(ls, ls2, s, i) {
      assert MovesAt(ls, ls1, s, i) && MovesAt(ls1, ls2, s, i);
    }
  }

  lemma RelistedNot(ls: Lists, sessions: set<Session>, s: Session, w: int)
    requires Tidy(ls, sessions) && In(ls, s, w)
    ensures Relisted(ls, ls, sessions, s, w)
  {
  }

  lemma FirstLeaves(ls: Lists, sessions: set<Session>, i: nat)
    requires Tidy(ls, sessions) && (i == LOCAL_NEW || i == GLOBAL_NEW) && ls[i] != []
    requires In(ls, ls[i][0], LOCAL_NEW)
    ensures Relisted(ls, ls[i := ls[i][1..]], sessions, ls[i][0], NOWHERE)
  {
    var s, rest := ls[i][0], ls[i][1..];
    assert forall j :: 0 <= j < |rest| ==> rest[j] == ls[i][j + 1] && rest[j] != s;
    SansAbsent(rest, s);
    assert Sans(ls[i], s) == rest;
    assert ls[i := rest] == Leaving(ls, i, s);
    LeavingRelists(ls, sessions, i, s);
  }

  lemma Unlisted(ls: Lists, ls': Lists, s: Session, i: nat)
    requires MovesAt(ls, ls', s, i) && s !in ls[i] && s !in ls'[i]
    ensures ls'[i] == ls[i]
  {
    SansAbsent(ls[i], s);
    SansAbsent(ls'[i], s);
  }

  /** The first session of a list has left it. */
  lemma FirstHasLeft(ls: Lists, ls': Lists, s: Session, i: nat)
    requires OnlyMoves(ls, ls', s) && i < LISTS && ls[i] != [] && ls[i][0] == s && Distinct(ls[i]) && s !in ls'[i]
    ensures ls'[i] == ls[i][1..]
  {
    var rest := ls[i][1..];
    assert MovesAt(ls, ls', s, i);
    assert forall j :: 0 <= j < |rest| ==> rest[j] == ls[i][j + 1] && rest[j] != s;
    SansAbsent(rest, s);
    assert Sans(ls[i], s) == rest;
    SansAbsent(ls'[i], s);
  }

  lemma GoneTidy(ls: Lists, sessions: set<Session>, s: Session)
    requires Tidy(ls, sessions) && In(ls, s, NOWHERE)
    ensures Tidy(ls, sessions - {s})
  {
    assert forall i :: 0 <= i < LOCAL_NEW ==> s !in ls[i];
  }

  /** The lists without a session. */
  function Departed(ls: Lists, s: Session): (r: Lists)
    ensures |r| == |ls| && forall i :: 0 <= i < |ls| ==> r[i] == Sans(ls[i], s)
  {
    seq(|ls|, i requires 0 <= i < |ls| => Sans(ls[i], s))
  }

  lemma DepartedIs(ls: Lists, ls': Lists, sessions: set<Session>, s: Session)
    requires OnlyMoves(ls, ls', s) && Tidy(ls', sessions) && s !in sessions
    ensures ls' == Departed(ls, s)
  {
    forall i | 0 <= i < LISTS ensures ls'[i] == Sans(ls[i], s) {
      assert MovesAt(ls, ls', s, i);
      SansAbsent(ls'[i], s);
    }
  }
}
