/** The loop of a worker: callbacks, one at a time, and what it does between them. */
module WorkerLoop {
  import opened SessionCore
  import opened WorkerLists
  import opened WorkerKin
  import opened Worker
  import opened Sweeps
  import opened ExitSweep

  class Loop {
    const ctx: Context
    /** The session whose callback is being executed. */
    var running: Session?
    /** When the sessions that wait now have begun to, by the steps of this loop. */
    ghost var since: map<Session, (int, int)>

    /** No session is in its callback but the one whose callback is being executed. */
    ghost predicate OneRuns()
      reads this, ctx`sessions, ctx.sessions
    {
      && (running != null ==> running in ctx.sessions)
      && forall s {:trigger Rests(s)} :: s in ctx.sessions && s != running ==> Rests(s)
    }

    ghost predicate Rests(s: Session)
      reads s
    {
      Resting(s.Core())
    }

    ghost predicate Waits(s: Session)
      reads this`since, s
    {
      (s in since <==> s.lc.WindedUp?) && (s in since ==> s.Began() == since[s])
    }

    ghost predicate AllWait()
      reads this`since, ctx`sessions, ctx.sessions
    {
      since.Keys <= ctx.sessions && forall s {:trigger Waits(s)} :: s in ctx.sessions ==> Waits(s)
    }

    ghost predicate Valid()
      reads this, ctx, ctx.sessions, ctx.alive
    {
      ctx.Valid() && !ctx.crashed && OneRuns() && AllWait()
    }

    /** Whoever waits and was not waiting, waits since now. */
    ghost predicate Noted(was: map<Session, (int, int)>, nowS: int, nowMs: int)
      reads this`since, ctx`sessions, ctx.sessions
    {
      && since.Keys <= ctx.sessions && (forall s :: s in ctx.sessions ==> (s in since <==> s.lc.WindedUp?))
      && forall s {:trigger since[s]} :: s in since ==> since[s] == if s in was then was[s] else (nowS, nowMs)
    }

    ghost predicate Fits(s: Session, nowS: int, nowMs: int)
      reads this`since, s
    {
      s.lc.WindedUp? ==> s.Began() == if s in since then since[s] else (nowS, nowMs)
    }

    ghost method Note(nowS: int, nowMs: int)
      requires forall s {:trigger Fits(s, nowS, nowMs)} :: s in ctx.sessions ==> Fits(s, nowS, nowMs)
      modifies this`since
      ensures Noted(old(since), nowS, nowMs) && AllWait()
    {
      since := map s | s in ctx.sessions && s.lc.WindedUp? :: if s in since then since[s] else (nowS, nowMs);
      forall s | s in ctx.sessions ensures Waits(s) {
        assert old(Fits(s, nowS, nowMs));
      }
    }

    constructor ()
      ensures Valid() && running == null && fresh(ctx) && ctx.sessions == {}
    {
      ctx := new Context();
      running, since := null, map[];
    }

    method NewSession() returns (s: Session)
      requires Valid()
      modifies ctx`sessions, ctx`alive
      ensures Valid() && fresh(s) && ctx.sessions == old(ctx.sessions) + {s} && s.Core() == NEWBORN
    {
      s := ctx.NewSession();
    }

    /** `esq_session_pop_the_first_active`: the first active session is executed, and never refuses. */
    method RunFirst() returns (found: bool)
      requires Valid() && running == null
      modifies this`running, ctx, if ctx.lists[ACTIVE] == [] then {} else {ctx.lists[ACTIVE][0]}
      ensures Valid() && ctx.sessions == old(ctx.sessions)
      ensures found <==> |old(ctx.lists)| == LISTS && old(ctx.lists)[ACTIVE] != []
      ensures if found then running == old(ctx.lists)[ACTIVE][0] && running.lc.ExecuteCb? else running == null
      ensures found ==>
        && |ctx.lists| == LISTS && ctx.lists[ACTIVE] == old(ctx.lists)[ACTIVE][1..]
        && Next(old(ctx.lists[ACTIVE][0].Core()), RunCb, false) == On(running.Core())
    {
      if ctx.lists[ACTIVE] == [] {
        return false;
      }
      var s := ctx.lists[ACTIVE][0];
      assert s in ctx.lists[ACTIVE] && ctx.Kept(s);
      RunAccepted(s.Core());
      hide Session.Core, Next, Where, Sane, In, Tidy, Resting, Bonded;
      ghost var was := ctx.lists;
      label L: ctx.TakeAction(s, RunCb, null, false, false, 0, 0);
      running := s;
      assert ctx.Kept(s) && OnlyMoves(was, ctx.lists, s);
      FirstHasLeft(was, ctx.lists, s, ACTIVE);
      forall x | x in ctx.sessions && x != s ensures Rests(x) && Waits(x) {
        assert old@L(Rests(x) && Waits(x));
      }
      assert old@L(Waits(s));
      return true;
    }

    /** What a session is after an action on `s`: unless it is `s`, or told of its end, as it was. */
    ghost function Moved(x: Session, s: Session, a: Action, ioFails: bool): Core
      reads x, s, s.parent
    {
      var step := Next(s.Core(), a, ioFails);
      if x == s && step.On? then step.core
      else if x == s.parent && step.Gone? && Next(x.Core(), NotifyEvent({TaskDone}), ioFails).On?
        then Next(x.Core(), NotifyEvent({TaskDone}), ioFails).core
      else x.Core()
    }

    method Deliver(s: Session, a: Action, ioFails: bool, lockRefuses: bool, nowS: int, nowMs: int)
      requires ctx.Valid() && !ctx.crashed && s in ctx.sessions && !a.PickUp? && !a.SetParent? && !a.AddChild?
      modifies ctx, s, ctx.Heirs(s, a, ioFails), ctx.Orphans(s, a, ioFails)`parent
      ensures var step := Next(old(s.Core()), a, ioFails);
        && ctx.crashed == Exits(step, old(ctx.AboveOf(s.parent)), lockRefuses)
        && (!ctx.crashed ==> ctx.Valid())
        && (step.On? ==> s.Core() == step.core)
        && ctx.sessions == (if step.Gone? || step.Elsewhere? then old(ctx.sessions) - {s} else old(ctx.sessions))
      ensures forall x :: x in old(ctx.sessions) && x in ctx.sessions && !ctx.crashed ==>
        x.Core() == old(Moved(x, s, a, ioFails)) && x.Stamped(nowS, nowMs)
    {
      hide Next, Bonded, RefusesEvents, Context.Kinship, Context.Kept, Context.Peopled, Context.Listed, Session.Core,
        Departed, OnlyMoves;
      SendFacts(s, a, ioFails);
      ghost var step, parent := Next(s.Core(), a, ioFails), s.parent;
      ctx.TakeAction(s, a, null, ioFails, lockRefuses, nowS, nowMs);
      forall x | x in ctx.sessions && !ctx.crashed && x != s && !(x == parent && step.Gone?)
        ensures x.Core() == old(x.Core()) && x.Began() == old(x.Began())
      {
      }
      if !ctx.crashed && step.Gone? && parent != null && parent in ctx.sessions {
        ToldActs(old(parent.Core()), ioFails);
        LabelOf(parent);
      }
    }

    /** The same, and the time of it is noted. */
    method Send(s: Session, a: Action, ioFails: bool, lockRefuses: bool, nowS: int, nowMs: int)
      requires ctx.Valid() && !ctx.crashed && AllWait()
      requires s in ctx.sessions && !a.PickUp? && !a.SetParent? && !a.AddChild?
      modifies this`since, ctx, s, ctx.Heirs(s, a, ioFails), ctx.Orphans(s, a, ioFails)`parent
      ensures var step := Next(old(s.Core()), a, ioFails);
        && ctx.crashed == Exits(step, old(ctx.AboveOf(s.parent)), lockRefuses)
        && (!ctx.crashed ==> ctx.Valid())
        && (step.On? ==> s.Core() == step.core)
        && ctx.sessions == (if step.Gone? || step.Elsewhere? then old(ctx.sessions) - {s} else old(ctx.sessions))
      ensures forall x :: x in old(ctx.sessions) && x in ctx.sessions && !ctx.crashed ==>
        x.Core() == old(Moved(x, s, a, ioFails))
      ensures !ctx.crashed ==> Noted(old(since), nowS, nowMs) && AllWait()
    {
      hide Next, Moved, Context.Valid, Session.Core, Exits, Context.AboveOf, Noted;
      Deliver(s, a, ioFails, lockRefuses, nowS, nowMs);
      if !ctx.crashed {
        forall x | x in ctx.sessions ensures Fits(x, nowS, nowMs) {
          assert old(Waits(x)) && x.Stamped(nowS, nowMs);
        }
        Note(nowS, nowMs);
      }
    }

    lemma SendFacts(s: Session, a: Action, ioFails: bool)
      requires ctx.Valid() && !ctx.crashed && s in ctx.sessions && !a.PickUp?
      ensures ctx.Ready(s, a) && ctx.OthersKept(s) && s in ctx.alive
      ensures s.parent != s && s !in s.children &&
        (s.parent != null && s.parent in ctx.sessions ==> !s.parent.kind.HashLock?)
    {
      assert ctx.Kept(s);
      if s.parent != null && s.parent in ctx.sessions { assert ctx.Kept(s.parent); }
      KinAfterFacts(ctx.Kinship(), s, a, null, Gone);
    }

    /** A session that is told does not begin to wait. */
    lemma ToldActs(c: Core, ioFails: bool)
      ensures Next(c, NotifyEvent({TaskDone}), ioFails).On? ==>
        !Next(c, NotifyEvent({TaskDone}), ioFails).core.lc.WindedUp?
    {
    }

    lemma LabelOf(x: Session)
      ensures x.Core().lc == x.lc
    {
    }

    /** Any other action on any session, be it by a callback, by an event, or by the worker. A session
        that ends or is handed over in its own callback has none any more. */
    method Act(s: Session, a: Action, ioFails: bool, lockRefuses: bool, nowS: int, nowMs: int)
      requires Valid() && s in ctx.sessions && !a.RunCb? && !a.PickUp? && !a.SetParent? && !a.AddChild?
      modifies this`running, this`since, ctx, s, ctx.Heirs(s, a, ioFails), ctx.Orphans(s, a, ioFails)`parent
      ensures var step := Next(old(s.Core()), a, ioFails);
        && ctx.crashed == Exits(step, old(ctx.AboveOf(s.parent)), lockRefuses)
        && (!ctx.crashed ==> Valid())
        && (step.On? ==> s.Core() == step.core)
        && ctx.sessions == (if step.Gone? || step.Elsewhere? then old(ctx.sessions) - {s} else old(ctx.sessions))
        && running == if s == old(running) && !step.On? then null else old(running)
      ensures forall x :: x in old(ctx.sessions) && x in ctx.sessions && !ctx.crashed ==>
        x.Core() == old(Moved(x, s, a, ioFails))
      ensures !ctx.crashed ==> Noted(old(since), nowS, nowMs)
    {
      hide Session.Core, Next, Resting, InCallback, RefusesEvents, Context.Valid, Context.AboveOf, Moved,
        Noted;
      var step := Next(s.Core(), a, ioFails);
      MovedRests(s, a, ioFails);
      ghost var moved := map x | x in ctx.sessions :: Moved(x, s, a, ioFails);
      assert forall x :: x in moved && x != running ==> Resting(moved[x]);
      Send(s, a, ioFails, lockRefuses, nowS, nowMs);
      if s == running && !step.On? {
        running := null;
      }
      if !ctx.crashed {
        forall x | x in ctx.sessions && x != running ensures Rests(x) {
          assert x.Core() == moved[x];
        }
      }
    }

    lemma MovedRests(s: Session, a: Action, ioFails: bool)
      requires Valid() && s in ctx.sessions && !a.RunCb?
      ensures forall x :: x in ctx.sessions && x != running ==> Resting(Moved(x, s, a, ioFails))
    {
      hide Next, Context.Valid;
      OnlyRunCbCalls(s.Core(), a, ioFails);
      forall x | x in ctx.sessions && x != running ensures Resting(Moved(x, s, a, ioFails)) {
        assert Rests(x);
        OnlyRunCbCalls(x.Core(), NotifyEvent({TaskDone}), ioFails);
      }
    }

    /** The worker winds the session up whose callback has returned. */
    method Return(ioFails: bool, lockRefuses: bool, nowS: int, nowMs: int)
      requires Valid() && running != null
      modifies this`running, this`since, ctx, running, ctx.Heirs(running, WindUp, ioFails),
        ctx.Orphans(running, WindUp, ioFails)`parent
      ensures ctx.crashed ==
        Exits(Next(old(running.Core()), WindUp, ioFails), old(ctx.AboveOf(running.parent)), lockRefuses)
      ensures running == null && (!ctx.crashed ==> Valid() && Noted(old(since), nowS, nowMs))
      ensures forall x :: x in old(ctx.sessions) && x in ctx.sessions && !ctx.crashed ==>
        x.Core() == old(Moved(x, running, WindUp, ioFails))
    {
      assert ctx.Kept(running);
      var s := running;
      if Next(s.Core(), WindUp, ioFails).On? { WindUpReturns(s.Core(), ioFails); }
      Act(s, WindUp, ioFails, lockRefuses, nowS, nowMs);
      running := null;
    }

    method BundleChild(parent: Session, child: Session)
      requires Valid() && parent in ctx.sessions && child in ctx.sessions
      modifies ctx, parent, child
      ensures ctx.crashed == !(MayBeChild(old(child.Core())) && MayBeParent(old(parent.Core())))
      ensures !ctx.crashed ==> Valid() && ctx.sessions == old(ctx.sessions)
      ensures !ctx.crashed ==>
        child.Core() == old(child.Core()).(haveParent := true) && parent.Core() == old(parent.Core())
    {
      hide Bonded;
      label L: ctx.BundleChild(parent, child);
      if !ctx.crashed {
        forall x | x in ctx.sessions ensures Waits(x) && (x != running ==> Rests(x)) {
          assert old@L(Waits(x) && (x != running ==> Rests(x)));
        }
      }
    }

    /** A new session is picked up, and begins to wait unless its socket cannot be installed. */
    method PickUpFirst(i: nat, ioFails: bool, nowS: int, nowMs: int) returns (found: bool)
      requires Valid() && (i == LOCAL_NEW || i == GLOBAL_NEW)
      modifies this`since, ctx, if ctx.lists[i] == [] then {} else {ctx.lists[i][0]}
      ensures Valid() && ctx.sessions == old(ctx.sessions) && Noted(old(since), nowS, nowMs)
      ensures found <==> |old(ctx.lists)| == LISTS && old(ctx.lists)[i] != []
      ensures found ==>
        && |ctx.lists| == LISTS && ctx.lists[i] == old(ctx.lists)[i][1..]
        && Next(old(ctx.lists[i][0].Core()), PickUp, ioFails) == On(old(ctx.lists)[i][0].Core())
    {
      PickUpFits(i, ioFails);
      label L: found := ctx.PickUpFirst(i, ioFails, nowS, nowMs);
      forall x | x in ctx.sessions ensures Fits(x, nowS, nowMs) && (x != running ==> Rests(x)) {
        assert old@L(Waits(x) && (x != running ==> Rests(x)));
      }
      Note(nowS, nowMs);
    }

    lemma PickUpFits(i: nat, ioFails: bool)
      requires Valid() && (i == LOCAL_NEW || i == GLOBAL_NEW)
      ensures |ctx.lists| == LISTS && (ctx.lists[i] != [] ==>
        Next(ctx.lists[i][0].Core(), PickUp, ioFails) == On(Installed(ctx.lists[i][0].Core(), ioFails)))
    {
      if ctx.lists[i] != [] {
        var s := ctx.lists[i][0];
        assert s in ctx.lists[i] && ctx.Kept(s);
        PickUpAccepted(s.Core(), ioFails);
      }
    }

    /** The timeout sweep: it fires exactly for the sessions that wait with a timeout and have waited
        past it since they began to, and changes nobody else. */
    method Timing(nowS: int, nowMs: int, fails: set<Session>)
      requires Valid() && 0 <= nowMs < MICROS
      modifies this`since, ctx, ctx.sessions
      ensures Valid() && ctx.sessions == old(ctx.sessions) && Noted(old(since), nowS, nowMs)
      ensures forall x {:trigger x in ctx.sessions} :: x in ctx.sessions ==>
        x.Core() == if Overdue(old(since), old(x.Core()), x, nowS, nowMs) then TimedOut(old(x.Core()), x in fails)
                    else old(x.Core())
    {
      hide LateThen, TimedOut, Overdue, Where, Context.Valid, ListsSwept;
      ghost var first := map x | x in ctx.sessions :: ClockOf(x);
      label L: Sweeps.Timing(ctx, nowS, nowMs, fails, first);
      ghost var late := AllLate(ctx.sessions, first, nowS, nowMs, NO_TIME);
      forall x | x in ctx.sessions
        ensures Fits(x, nowS, nowMs) && (x != running ==> Rests(x))
        ensures var c := first[x].core;
          x.Core() == if Overdue(old(since), c, x, nowS, nowMs) then TimedOut(c, x in fails) else c
      {
        assert old@L(Waits(x) && (x != running ==> Rests(x))) && Tracked(x, first, late, fails);
        SweptClock(x, first[x], since, x in fails, nowS, nowMs);
      }
      Note(nowS, nowMs);
    }

    /** The exit sweep between callbacks: it makes the process exit for no session, and every session
        that has begun and is not a new one is told once. */
    method NotifyExit(nowS: int, nowMs: int, fails: set<Session>)
      requires Valid() && running == null
      modifies this`since, ctx, ctx.sessions
      ensures Valid() && ctx.sessions == old(ctx.sessions) && Noted(old(since), nowS, nowMs)
      ensures forall x {:trigger x in ctx.sessions} :: x in ctx.sessions ==>
        if old(x.lc.Initial?) || old(x.lc.WaitForCpu?) then x.Core() == old(x.Core())
        else Next(old(x.Core()), SessionCore.NotifyExit, x in fails) == On(x.Core()) && Told(x.Core())
    {
      hide Context.Valid, Where, Resting, Told, Next;
      AllListed();
      label L: NotifyExitToAll(ctx, fails, nowS, nowMs);
      forall x | x in ctx.sessions ensures Fits(x, nowS, nowMs) && Rests(x) {
        assert old@L(Waits(x)) && ToldOnce(x, old@L(ClockOf(x)), x in fails);
      }
      Note(nowS, nowMs);
    }

    /** Between callbacks every session rests, and is in one of the six lists unless it is new. */
    lemma AllListed()
      requires Valid() && running == null
      ensures forall x :: x in ctx.sessions ==> Resting(x.Core())
      ensures forall x {:trigger Where(x.Core())} :: x in ctx.sessions ==>
        (ACTIVE <= Where(x.Core()) <= NO_TIME <==> !x.lc.Initial? && !x.lc.WaitForCpu?)
    {
      forall x | x in ctx.sessions
        ensures Resting(x.Core())
        ensures ACTIVE <= Where(x.Core()) <= NO_TIME <==> !x.lc.Initial? && !x.lc.WaitForCpu?
      {
        assert Rests(x);
        if !x.lc.Initial? { ReturnedIsListed(x.Core()); }
      }
    }
  }

  /** Who is in a timing list and late, is overdue; a timeout lets nobody wait on or be called. */
  lemma SweptClock(x: Session, c: Clock, since: map<Session, (int, int)>, ioFails: bool, nowS: int, nowMs: int)
    requires 0 <= nowMs < MICROS && (x in since <==> c.core.lc.WindedUp?)
    requires x in since ==> since[x] == (c.windUpS, c.windUpMs)
    ensures TO_100MS <= Where(c.core) < NO_TIME && LateThen(c, nowS, nowMs) <==> Overdue(since, c.core, x, nowS, nowMs)
    ensures !TimedOut(c.core, ioFails).lc.WindedUp? && Resting(TimedOut(c.core, ioFails))
  {
    LateExactly(c, nowS, nowMs);
    hide LateThen, FiresAfter, Micros;
  }

  /** A session waits with a timeout, and past it. */
  ghost predicate Overdue(since: map<Session, (int, int)>, c: Core, x: Session, nowS: int, nowMs: int) {
    && x in since && (c.timeouts >= 1 || c.timeoutms > 0)
    && Micros(nowS, nowMs) > FiresAfter(since[x], c.timeouts, c.timeoutms)
  }

  lemma RunAccepted(c: Core)
    requires Sane(c) && Where(c) == ACTIVE
    ensures Next(c, RunCb, false).On? && Next(c, RunCb, false).core.lc.ExecuteCb?
  {
  }
}
