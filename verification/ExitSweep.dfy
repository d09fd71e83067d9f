/** The exit sweep: every session in a list is told to exit. */
module ExitSweep {
  import opened SessionCore
  import opened Sequences
  import opened WorkerLists
  import opened Worker
  import opened Sweeps

  /** A session knows of the exit, or is on its way out and need not know. */
  predicate Told(c: Core) {
    Exit in c.bits || c.lc.WaitForRemoved? || c.lc.WaitForWindUp?
  }

  /** Outside its callback no session has given up its socket and not yet wound up. */
  predicate Resting(c: Core) {
    !InCallback(c)
  }

  lemma ExitAccepted(c: Core, ioFails: bool)
    requires Sane(c) && ACTIVE <= Where(c) <= NO_TIME && Resting(c)
    ensures Next(c, NotifyExit, ioFails).On?
    ensures var n := Next(c, NotifyExit, ioFails).core;
      Told(n) && Resting(n) && !n.lc.WindedUp? && (c.lc.Active? ==> n.lc.Active?)
    ensures Where(c) == ACTIVE ==> c.lc.Active?
  {
    match c.kind
    case NoFd =>
    case SingleShot => match c.lc { case _ => }
    case MultiShot => match c.lc { case _ => }
  }

  /** In the middle of a session that still is among them, exactly the exit is refused. */
  lemma ExitRefused(c: Core, ioFails: bool)
    requires Sane(c) && ACTIVE <= Where(c) <= NO_TIME
    ensures Next(c, NotifyExit, ioFails).Crash? <==> !Resting(c)
  {
    if Resting(c) { ExitAccepted(c, ioFails); }
  }

  /** A second exit changes nothing. */
  lemma ExitTwice(c: Core, ioFails: bool, again: bool)
    requires Sane(c) && ACTIVE <= Where(c) <= NO_TIME && Resting(c)
    ensures var step := Next(c, NotifyExit, ioFails);
      step.On? && Next(step.core, NotifyExit, again) == step
  {
    ExitAccepted(c, ioFails);
    var n := Next(c, NotifyExit, ioFails).core;
    assert Exit in n.bits ==> n.bits + {Exit} == n.bits;
  }

  lemma EndNext(l: seq<Session>, was: seq<Session>, k: nat)
    requires EndsWith(l, was, k) && k < |was| && Distinct(l)
    ensures was[k] in l && Successor(l, was[k]) == if k + 1 < |was| then was[k + 1] else null
  {
    var n := |l| - (|was| - k);
    assert l[n] == l[n..][0] == was[k..][0];
    if k + 1 < |was| { assert l[n + 1] == l[n..][1] == was[k..][1]; }
    SuccessorIs(l, n);
  }

  lemma EndShrinks(ls: Lists, ls': Lists, i: nat, was: seq<Session>, k: nat)
    requires i < LISTS && |ls| == |ls'| == LISTS && k < |was| && EndsWith(ls[i], was, k) && Distinct(ls[i])
    requires MovesAt(ls, ls', was[k], i) && (i == ACTIVE ==> ls'[i] == ls[i]) && i <= NO_TIME
    ensures EndsWith(ls'[i], was, k + 1)
  {
    hide Sans, Distinct;
    var l, p := ls[i], was[k];
    var a, b := l[..|l| - (|was| - k)], was[k + 1..];
    InMiddle(l, was, k);
    SansMiddle(a, p, b);
    EndsWithBoth(a, p, b);
  }

  /** One session of list `i` is told to exit. */
  method TellExit(ctx: Context, i: nat, p: Session, ioFails: bool, nowS: int, nowMs: int)
    requires ctx.Valid() && !ctx.crashed && i <= NO_TIME && p in ctx.lists[i] && Resting(p.Core())
    modifies ctx, p
    ensures ctx.Valid() && !ctx.crashed && ctx.sessions == old(ctx.sessions)
    ensures Next(old(p.Core()), NotifyExit, ioFails) == On(p.Core())
    ensures |ctx.lists| == LISTS && MovesAt(old(ctx.lists), ctx.lists, p, i) &&
      (i == ACTIVE ==> ctx.lists[i] == old(ctx.lists[i]))
  {
    assert p in ctx.sessions && ctx.Kept(p);
    assert Where(p.Core()) == i;
    ExitAccepted(p.Core(), ioFails);
    assert forall x {:trigger ctx.Kept(x)} :: x in ctx.sessions ==> ctx.Kept(x);
    hide Next, Where, Sane, Tidy;
    ctx.TakeAction(p, NotifyExit, null, ioFails, false, nowS, nowMs);
  }

  /** A session that takes an exit. */
  ghost predicate Reachable(c: Core) {
    Sane(c) && ACTIVE <= Where(c) <= NO_TIME && Resting(c)
  }

  /** A session is what one exit has made of it, */
  ghost predicate Exited(x: Session, first: map<Session, Clock>, fails: set<Session>)
    reads x
  {
    x in first && Reachable(first[x].core) && Next(first[x].core, NotifyExit, x in fails) == On(x.Core())
  }

  /** or still as it was. */
  ghost predicate Going(x: Session, first: map<Session, Clock>, fails: set<Session>)
    reads x
  {
    Exited(x, first, fails) || (x in first && ClockOf(x) == first[x] && Resting(x.Core()))
  }

  ghost predicate AllGoing(sessions: set<Session>, first: map<Session, Clock>, fails: set<Session>)
    reads sessions
  {
    forall x {:trigger Going(x, first, fails)} :: x in sessions ==> Going(x, first, fails)
  }

  ghost predicate AllExited(some: set<Session>, first: map<Session, Clock>, fails: set<Session>)
    reads some
  {
    forall x {:trigger Exited(x, first, fails)} :: x in some ==> Exited(x, first, fails)
  }

  lemma GoingOn(x: Session, first: map<Session, Clock>, fails: set<Session>)
    requires Going(x, first, fails)
    ensures Resting(x.Core())
    ensures Reachable(x.Core()) ==>
      x in first && Reachable(first[x].core) &&
      Next(x.Core(), NotifyExit, x in fails) == Next(first[x].core, NotifyExit, x in fails)
    ensures Exited(x, first, fails) ==> Told(x.Core()) && !x.lc.WindedUp?
  {
    if Exited(x, first, fails) {
      ExitAccepted(first[x].core, x in fails);
      ExitTwice(first[x].core, x in fails, x in fails);
      hide Next, Where, Sane;
    }
  }

  /** The sweep has come to `p`, the `k`-th session of the list; those before it, and `done`, are told. */
  ghost predicate Exiting(ctx: Context, i: nat, p: Session?, k: nat, was: seq<Session>, first: map<Session, Clock>,
                          fails: set<Session>, done: set<Session>)
    reads ctx, ctx.sessions, ctx.alive, done
  {
    && ctx.Valid() && !ctx.crashed && i <= NO_TIME && |ctx.lists| == LISTS && k <= |was| &&
      p == (if k < |was| then was[k] else null)
    && EndsWith(ctx.lists[i], was, k) && AllGoing(ctx.sessions, first, fails) && AllExited(done, first, fails)
    && (forall j {:trigger was[j]} :: 0 <= j < |was| ==> was[j] in ctx.sessions && (j < k ==> was[j] in done))
  }

  /** One round of the sweep. */
  method ExitOne(ctx: Context, i: nat, p: Session, fails: set<Session>, nowS: int, nowMs: int, ghost k: nat,
                 ghost was: seq<Session>, ghost first: map<Session, Clock>, ghost done: set<Session>)
      returns (next: Session?)
    requires Exiting(ctx, i, p, k, was, first, fails, done) && k < |was|
    modifies ctx, p
    ensures ctx.sessions == old(ctx.sessions) && next == (if k + 1 < |was| then was[k + 1] else null)
    ensures Exiting(ctx, i, next, k + 1, was, first, fails, done + {p})
  {
    EndNext(ctx.lists[i], was, k);
    next := Successor(ctx.lists[i], p);
    assert Going(p, first, fails);
    GoingOn(p, first, fails);
    ghost var ls := ctx.lists;
    assert Distinct(ls[i]) && p in ctx.sessions && ctx.Kept(p);
    hide Successor, EndsWith, MovesAt, Told, Resting, Tidy, In, Sane, Where, Next;
    ListedReachable(ctx, p, i);
    label L: TellExit(ctx, i, p, p in fails, nowS, nowMs);
    EndShrinks(ls, ctx.lists, i, was, k);
    assert Exited(p, first, fails);
    forall x | x in ctx.sessions ensures Going(x, first, fails) {
      assert old@L(Going(x, first, fails));
    }
    forall x | x in done + {p} ensures Exited(x, first, fails) {
      assert x in done ==> old@L(Exited(x, first, fails));
    }
  }

  lemma ListedReachable(ctx: Context, p: Session, i: nat)
    requires ctx.Valid() && i <= NO_TIME && p in ctx.lists[i] && p in ctx.sessions && Resting(p.Core())
    ensures Reachable(p.Core())
  {
    assert ctx.Kept(p);
  }

  /** `NOTIFY_EXIT_TO_SESSION_LIST` on one list: every session in it is told, although the visited
      ones may leave it or come back to its head. */
  method NotifyExitToList(ctx: Context, i: nat, fails: set<Session>, nowS: int, nowMs: int,
                          ghost first: map<Session, Clock>, ghost before: set<Session>)
      returns (ghost done: set<Session>)
    requires ctx.Valid() && !ctx.crashed && i <= NO_TIME && AllGoing(ctx.sessions, first, fails)
    requires AllExited(before, first, fails) && before <= ctx.sessions
    modifies ctx, ctx.sessions
    ensures ctx.Valid() && !ctx.crashed && ctx.sessions == old(ctx.sessions) && AllGoing(ctx.sessions, first, fails)
    ensures AllExited(done, first, fails) && done <= ctx.sessions
    ensures before <= done && forall x :: x in old(ctx.lists[i]) ==> x in done
  {
    hide Exiting, EndsWith, Told, Resting, In, Sane, Where, Session.Core, Context.Valid, AllGoing, AllExited;
    SixLists(ctx);
    ghost var was := ctx.lists[i];
    ghost var k := 0;
    done := before;
    var p := if ctx.lists[i] == [] then null else ctx.lists[i][0];
    ExitStarts(ctx, i, first, fails, done);
    while p != null
      invariant k <= |was| && p == (if k < |was| then was[k] else null) && ctx.sessions == old(ctx.sessions)
      invariant Exiting(ctx, i, p, k, was, first, fails, done) && before <= done <= ctx.sessions
      decreases |was| - k
    {
      ExitHere(ctx, i, p, k, was, first, fails, done);
      ghost var q := p;
      p := ExitOne(ctx, i, p, fails, nowS, nowMs, k, was, first, done);
      done := done + {q};
      k := k + 1;
    }
    ExitDone(ctx, i, k, was, first, fails, done);
  }

  lemma SixLists(ctx: Context)
    requires ctx.Valid()
    ensures |ctx.lists| == LISTS
  {
  }

  lemma ExitStarts(ctx: Context, i: nat, first: map<Session, Clock>, fails: set<Session>, done: set<Session>)
    requires ctx.Valid() && !ctx.crashed && i <= NO_TIME && |ctx.lists| == LISTS
    requires AllGoing(ctx.sessions, first, fails) && AllExited(done, first, fails)
    ensures Exiting(ctx, i, if ctx.lists[i] == [] then null else ctx.lists[i][0], 0, ctx.lists[i], first, fails, done)
  {
    hide Told, Resting, In, Sane, Where, Session.Core, Going, Exited;
    assert ctx.lists[i][0..] == ctx.lists[i];
  }

  lemma ExitHere(ctx: Context, i: nat, p: Session, k: nat, was: seq<Session>, first: map<Session, Clock>,
                 fails: set<Session>, done: set<Session>)
    requires Exiting(ctx, i, p, k, was, first, fails, done)
    ensures p in ctx.sessions
  {
  }

  lemma ExitDone(ctx: Context, i: nat, k: nat, was: seq<Session>, first: map<Session, Clock>, fails: set<Session>,
                 done: set<Session>)
    requires Exiting(ctx, i, null, k, was, first, fails, done)
    ensures ctx.Valid() && !ctx.crashed && AllGoing(ctx.sessions, first, fails) && AllExited(done, first, fails)
    ensures forall x :: x in was ==> x in done
  {
  }

  /** What the whole sweep makes of a session: one exit if it was in a list, nothing else. */
  ghost predicate ToldOnce(x: Session, c: Clock, ioFails: bool)
    reads x
  {
    if ACTIVE <= Where(c.core) <= NO_TIME
    then Next(c.core, NotifyExit, ioFails) == On(x.Core()) && Told(x.Core()) && Resting(x.Core()) && !x.lc.WindedUp?
    else ClockOf(x) == c && Resting(x.Core())
  }

  lemma GoneOut(x: Session, first: map<Session, Clock>, fails: set<Session>, done: set<Session>)
    requires Going(x, first, fails) && (x in done ==> Exited(x, first, fails))
    requires x in first && ACTIVE <= Where(first[x].core) <= NO_TIME ==> x in done
    ensures x in first && ToldOnce(x, first[x], x in fails)
  {
    hide Where, Next, Told, Resting, Sane;
    GoingOn(x, first, fails);
  }

  /** `esq_worker_notify_exit_to_all_sessions`: between callbacks the sweep over the six lists ends
      the process for no session and reaches every session in a list. */
  method NotifyExitToAll(ctx: Context, fails: set<Session>, nowS: int, nowMs: int)
    requires ctx.Valid() && !ctx.crashed && forall x :: x in ctx.sessions ==> Resting(x.Core())
    modifies ctx, ctx.sessions
    ensures ctx.Valid() && !ctx.crashed && ctx.sessions == old(ctx.sessions)
    ensures forall x {:trigger x in ctx.sessions} :: x in ctx.sessions ==> ToldOnce(x, old(ClockOf(x)), x in fails)
  {
    ghost var first := map x | x in ctx.sessions :: ClockOf(x);
    forall x | x in ctx.sessions ensures Going(x, first, fails) {
    }
    var i := ACTIVE;
    ghost var done := {};
    while i <= NO_TIME
      invariant ACTIVE <= i <= LOCAL_NEW && ctx.Valid() && !ctx.crashed && ctx.sessions == old(ctx.sessions)
      invariant AllGoing(ctx.sessions, first, fails) && AllExited(done, first, fails) && done <= ctx.sessions
      invariant forall x :: x in ctx.sessions && ACTIVE <= Where(first[x].core) < i ==> x in done
    {
      ghost var ls := ctx.lists;
      assert |ls| == LISTS;
      forall x | x in ctx.sessions && Where(first[x].core) == i && !Exited(x, first, fails) ensures x in ls[i] {
        assert Going(x, first, fails) && ctx.Kept(x);
      }
      done := done + set x | x in ctx.sessions && Exited(x, first, fails);
      hide Told, Where, Tidy, In, Sane, Resting, Next;
      done := NotifyExitToList(ctx, i, fails, nowS, nowMs, first, done);
      i := i + 1;
    }
    forall x | x in ctx.sessions ensures ToldOnce(x, first[x], x in fails) {
      assert Going(x, first, fails);
      GoneOut(x, first, fails, done);
    }
  }
}
