/** The timeout sweep and the exit sweep: they walk through a list by a saved successor while
    the visited sessions move to other lists. */
module Sweeps {
  import opened SessionCore
  import opened Sequences
  import opened WorkerLists
  import opened Worker

  /** The session behind `p` in its list. */
  function Successor(l: seq<Session>, p: Session): Session? {
    if l == [] then null
    else if l[0] == p then (if |l| == 1 then null else l[1])
    else Successor(l[1..], p)
  }

  lemma {:induction false} SuccessorIs(l: seq<Session>, k: nat)
    requires Distinct(l) && k < |l|
    ensures Successor(l, l[k]) == if k + 1 < |l| then l[k + 1] else null
  {
    if k == 0 {
    } else {
      SuccessorIs(l[1..], k - 1);
      assert l[1..][k - 1] == l[k];
    }
  }

  lemma {:induction false} WithoutOneMore(l: seq<Session>, gone: set<Session>, k: nat)
    requires k < |l|
    ensures Without(l[..k + 1], gone) == Without(l[..k], gone) + (if l[k] in gone then [] else [l[k]])
  {
    if k == 0 {
      assert l[..1] == [l[0]] && l[..1][1..] == [];
    } else {
      WithoutOneMore(l[1..], gone, k - 1);
      assert l[..k + 1][1..] == l[1..][..k] && l[..k][1..] == l[1..][..k - 1];
    }
  }

  /** What a timeout makes of a session: it gives up its socket, or becomes active. */
  function TimedOut(c: Core, ioFails: bool): Core {
    Removing(c.(bits := c.bits + {Timeout}), ioFails)
  }

  /** In a list of sessions with timeouts all are single-shot ones that take a timeout. */
  lemma TimeoutAccepted(c: Core, ioFails: bool)
    requires Sane(c) && TO_100MS <= Where(c) <= LONGER
    ensures Next(c, NotifyTimeout, ioFails) == On(TimedOut(c, ioFails))
    ensures Where(TimedOut(c, ioFails)) == ACTIVE || Where(TimedOut(c, ioFails)) == NO_TIME
  {
  }

  /** Where a sweep of the list that was `was` stands at its `k`-th session. */
  ghost predicate Swept(l: seq<Session>, was: seq<Session>, late: set<Session>, k: nat) {
    k <= |was| && l == Without(was[..k], late) + was[k..]
  }

  lemma SweepSkips(l: seq<Session>, was: seq<Session>, late: set<Session>, k: nat)
    requires Swept(l, was, late, k) && k < |was| && was[k] !in late
    ensures Swept(l, was, late, k + 1)
  {
    WithoutOneMore(was, late, k);
    assert was[k..] == [was[k]] + was[k + 1..];
  }

  lemma SweepTakes(l: seq<Session>, l': seq<Session>, was: seq<Session>, late: set<Session>, k: nat)
    requires Swept(l, was, late, k) && k < |was| && was[k] in late && Distinct(l)
    requires Sans(l', was[k]) == Sans(l, was[k]) && was[k] !in l'
    ensures Swept(l', was, late, k + 1)
  {
    hide Without, Sans, Distinct;
    WithoutOneMore(was, late, k);
    var a, b := Without(was[..k], late), was[k + 1..];
    assert was[k..] == [was[k]] + b;
    Regroup(a, was[k], b);
    SansMiddle(a, was[k], b);
    SansAbsent(l', was[k]);
  }

  lemma SweptNext(l: seq<Session>, was: seq<Session>, late: set<Session>, k: nat)
    requires Swept(l, was, late, k) && k < |was| && Distinct(l)
    ensures was[k] in l && Successor(l, was[k]) == if k + 1 < |was| then was[k + 1] else null
  {
    var n := |Without(was[..k], late)|;
    SuccessorIs(l, n);
    assert l[n] == was[k];
  }

  /** One session of a list with timeouts is told that its time is over. */
  method TellTimeout(ctx: Context, i: nat, p: Session, ioFails: bool, nowS: int, nowMs: int)
    requires ctx.Valid() && !ctx.crashed && TO_100MS <= i <= LONGER && p in ctx.lists[i]
    modifies ctx, p
    ensures ctx.Valid() && !ctx.crashed && ctx.sessions == old(ctx.sessions)
    ensures p.Core() == TimedOut(old(p.Core()), ioFails)
    ensures p !in ctx.lists[i] && Sans(ctx.lists[i], p) == Sans(old(ctx.lists[i]), p)
    ensures OtherTimingLists(old(ctx.lists), ctx.lists, i)
  {
    ghost var ls := ctx.lists;
    assert p in ctx.sessions && ctx.Kept(p);
    TimeoutAccepted(p.Core(), ioFails);
    assert forall x {:trigger ctx.Kept(x)} :: x in ctx.sessions ==> ctx.Kept(x);
    hide Next, Where, Sane, Tidy, TimedOut;
    ctx.TakeAction(p, NotifyTimeout, null, ioFails, false, nowS, nowMs);
    assert ctx.Kept(p);
    assert MovesAt(ls, ctx.lists, p, i);
    forall j | TO_100MS <= j <= LONGER && j != i ensures ctx.lists[j] == ls[j] {
      assert MovesAt(ls, ctx.lists, p, j);
      Unlisted(ls, ctx.lists, p, j);
    }
  }

  ghost predicate OtherTimingLists(ls: Lists, ls': Lists, i: nat) {
    |ls| == |ls'| == LISTS && forall j :: TO_100MS <= j <= LONGER && j != i ==> ls'[j] == ls[j]
  }

  /** The fields of a session a sweep looks at. */
  datatype Clock = Clock(core: Core, windUpS: int, windUpMs: int)

  function ClockOf(p: Session): Clock
    reads p
  {
    Clock(p.Core(), p.windUpS, p.windUpMs)
  }

  /** Past the deadline: whole seconds first, the rest only within the deadline's second. */
  predicate LateThen(c: Clock, nowS: int, nowMs: int) {
    || nowS > c.windUpS + c.core.timeouts
    || (nowS == c.windUpS + c.core.timeouts && nowMs > c.windUpMs + c.core.timeoutms)
  }

  const MICROS := 1_000_000

  /** A time in microseconds: the rest of a time is one, as the system call gives it. */
  function Micros(s: int, us: int): int {
    s * MICROS + us
  }

  /** The moment behind which a sweep fires. The milliseconds of the timeout are added to microseconds,
      and the sum is not carried into the seconds. */
  function FiresAfter(began: (int, int), s: int, ms: int): int {
    var rest := began.1 + ms;
    Micros(began.0 + s, if rest < 0 then -1 else if rest >= MICROS then MICROS - 1 else rest)
  }

  /** The moment the session asked for. */
  function Deadline(began: (int, int), s: int, ms: int): int {
    Micros(began.0 + s, began.1 + 1000 * ms)
  }

  lemma LateExactly(c: Clock, nowS: int, nowMs: int)
    requires 0 <= nowMs < MICROS
    ensures LateThen(c, nowS, nowMs) <==>
      Micros(nowS, nowMs) > FiresAfter((c.windUpS, c.windUpMs), c.core.timeouts, c.core.timeoutms)
  {
  }

  /** Nobody waits longer than asked for. */
  lemma NeverOverdue(c: Clock, nowS: int, nowMs: int)
    requires c.core.timeoutms >= 0 && 0 <= c.windUpMs && 0 <= nowMs < MICROS
    requires Micros(nowS, nowMs) > Deadline((c.windUpS, c.windUpMs), c.core.timeouts, c.core.timeoutms)
    ensures LateThen(c, nowS, nowMs)
  {
  }

  /** Sweeps fire at the right times exactly for timeouts of whole seconds; with milliseconds they fire
      too early at some time. */
  lemma OnTimeIffWholeSeconds(c: Clock)
    requires 0 <= c.windUpMs < MICROS
    ensures var due := Deadline((c.windUpS, c.windUpMs), c.core.timeouts, c.core.timeoutms);
      (forall nowS, nowMs {:trigger LateThen(c, nowS, nowMs)} :: 0 <= nowMs < MICROS ==>
         (LateThen(c, nowS, nowMs) <==> Micros(nowS, nowMs) > due))
      <==> c.core.timeoutms == 0
  {
    var began := (c.windUpS, c.windUpMs);
    var fires, due := FiresAfter(began, c.core.timeouts, c.core.timeoutms),
      Deadline(began, c.core.timeouts, c.core.timeoutms);
    forall nowS, nowMs | 0 <= nowMs < MICROS
      ensures LateThen(c, nowS, nowMs) <==> Micros(nowS, nowMs) > fires
    {
      LateExactly(c, nowS, nowMs);
    }
    if c.core.timeoutms != 0 {
      hide LateThen;
      var now := if fires < due then due else fires;
      assert now == Micros(now / MICROS, now % MICROS);
      assert LateThen(c, now / MICROS, now % MICROS) <==> now > fires;
    }
  }

  /** Two hundred milliseconds are over after two hundred and one microseconds. */
  lemma FiresEarly()
    ensures Micros(1000, 500_201) > FiresAfter((1000, 500_000), 0, 200)
    ensures Deadline((1000, 500_000), 0, 200) - Micros(1000, 500_201) == 199_799
  {
  }

  /** A session is as it was, or, if it is done with, as the timeout has left it. */
  ghost predicate Tracked(p: Session, first: map<Session, Clock>, done: set<Session>, fails: set<Session>)
    reads p
  {
    p in first && if p in done then p.Core() == TimedOut(first[p].core, p in fails) else ClockOf(p) == first[p]
  }

  ghost predicate AllTracked(sessions: set<Session>, first: map<Session, Clock>, done: set<Session>,
      fails: set<Session>)
    reads sessions
  {
    forall x {:trigger Tracked(x, first, done, fails)} :: x in sessions ==> Tracked(x, first, done, fails)
  }

  /** Those of the first `k` sessions that are late have been told so. */
  ghost predicate DoneSoFar(was: seq<Session>, late: set<Session>, done: set<Session>, k: nat) {
    && k <= |was| && done <= late
    && forall j {:trigger was[j]} :: 0 <= j < |was| ==> (was[j] in done <==> j < k && was[j] in late)
  }

  /** The late sessions of a list, by their clocks when the sweep begins. */
  ghost function LateOnes(was: seq<Session>, first: map<Session, Clock>, nowS: int, nowMs: int): set<Session> {
    set p | p in was && p in first && LateThen(first[p], nowS, nowMs)
  }

  /** The sweep has come to `p`, the `k`-th session of the list, or to its end. */
  ghost predicate Sweeping(ctx: Context, i: nat, p: Session?, k: nat, was: seq<Session>, late: set<Session>,
      done: set<Session>,
                           first: map<Session, Clock>, fails: set<Session>, ls: Lists, base: set<Session>)
    reads ctx, ctx.sessions, ctx.alive
  {
    && ctx.Valid() && !ctx.crashed && i < LISTS == |ctx.lists| && k <= |was| &&
      p == (if k < |was| then was[k] else null)
    && Swept(ctx.lists[i], was, late, k) && OtherTimingLists(ls, ctx.lists, i)
    && DoneSoFar(was, late, done, k) && AllTracked(ctx.sessions, first, base + done, fails)
    && (forall j :: 0 <= j < |was| ==> was[j] !in base)
  }

  /** One round of the sweep: `p` is the `k`-th session of the list. */
  method CheckOne(ctx: Context, i: nat, p: Session, nowS: int, nowMs: int, fails: set<Session>, ghost k: nat,
      ghost was: seq<Session>,
                  ghost late: set<Session>, ghost done: set<Session>, ghost first: map<Session, Clock>, ghost ls: Lists,
                  ghost base: set<Session>)
      returns (next: Session?, ghost after: set<Session>)
    requires TO_100MS <= i <= LONGER && Distinct(was) && late == LateOnes(was, first, nowS, nowMs)
    requires Sweeping(ctx, i, p, k, was, late, done, first, fails, ls, base) && k < |was|
    modifies ctx, p
    ensures ctx.sessions == old(ctx.sessions) && next == (if k + 1 < |was| then was[k + 1] else null)
    ensures Sweeping(ctx, i, next, k + 1, was, late, after, first, fails, ls, base)
  {
    hide Without, Successor, TimedOut, Swept;
    SweptNext(ctx.lists[i], was, late, k);
    after := done;
    assert p in ctx.lists[i] && p in ctx.sessions && Tracked(p, first, base + done, fails);
    next := Successor(ctx.lists[i], p);
    if LateThen(ClockOf(p), nowS, nowMs) {
      ghost var before := ctx.lists;
      label L: TellTimeout(ctx, i, p, p in fails, nowS, nowMs);
      SweepTakes(before[i], ctx.lists[i], was, late, k);
      OthersTwice(ls, before, ctx.lists, i);
      after := done + {p};
      forall x | x in ctx.sessions ensures Tracked(x, first, base + after, fails) {
        assert old@L(Tracked(x, first, base + done, fails));
      }
    } else {
      SweepSkips(ctx.lists[i], was, late, k);
    }
  }

  /** `CHECK_EVENTS_TIMING2` on one list. `fails` are those whose socket cannot be given up. The
      late sessions are told so, each once; the others stay, in their order. */
  method CheckTiming(ctx: Context, i: nat, nowS: int, nowMs: int, fails: set<Session>,
                     ghost first: map<Session, Clock>, ghost base: set<Session>)
    requires ctx.Valid() && !ctx.crashed && TO_100MS <= i <= LONGER
    requires AllTracked(ctx.sessions, first, base, fails) && forall p :: p in ctx.lists[i] ==> p !in base
    modifies ctx, ctx.sessions
    ensures ctx.Valid() && !ctx.crashed && ctx.sessions == old(ctx.sessions)
    ensures var late := LateOnes(old(ctx.lists[i]), first, nowS, nowMs);
      ctx.lists[i] == Without(old(ctx.lists[i]), late) && AllTracked(ctx.sessions, first, base + late, fails)
    ensures OtherTimingLists(old(ctx.lists), ctx.lists, i)
  {
    ghost var ls, was := ctx.lists, ctx.lists[i];
    ghost var late := LateOnes(was, first, nowS, nowMs);
    ghost var k, done := 0, {};
    var p := if ctx.lists[i] == [] then null else ctx.lists[i][0];
    SweepStarts(was, late);
    assert base + {} == base;
    assert Sweeping(ctx, i, p, k, was, late, done, first, fails, ls, base);
    assert Distinct(was);
    assert forall j :: 0 <= j < |was| ==> was[j] in ctx.sessions;
    hide LateOnes, Sweeping, Distinct, Tidy, In, AllTracked, DoneSoFar, OtherTimingLists;
    while p != null
      invariant k <= |was| && p == (if k < |was| then was[k] else null) && ctx.sessions == old(ctx.sessions)
      invariant Sweeping(ctx, i, p, k, was, late, done, first, fails, ls, base)
      decreases |was| - k
    {
      p, done := CheckOne(ctx, i, p, nowS, nowMs, fails, k, was, late, done, first, ls, base);
      k := k + 1;
    }
    SweepDone(ctx, i, k, was, late, done, first, fails, ls, base);
  }

  lemma SweepDone(ctx: Context, i: nat, k: nat, was: seq<Session>, late: set<Session>, done: set<Session>,
                  first: map<Session, Clock>, fails: set<Session>, ls: Lists, base: set<Session>)
    requires Sweeping(ctx, i, null, k, was, late, done, first, fails, ls, base) && forall p :: p in late ==> p in was
    ensures ctx.Valid() && !ctx.crashed && ctx.lists[i] == Without(was, late)
    ensures AllTracked(ctx.sessions, first, base + late, fails) && OtherTimingLists(ls, ctx.lists, i)
  {
    SweepEnds(ctx.lists[i], was, late, done);
  }

  lemma OthersTwice(a: Lists, b: Lists, c: Lists, i: nat)
    requires OtherTimingLists(a, b, i) && OtherTimingLists(b, c, i)
    ensures OtherTimingLists(a, c, i)
  {
  }

  lemma SweepStarts(was: seq<Session>, late: set<Session>)
    ensures Swept(was, was, late, 0) && DoneSoFar(was, late, {}, 0)
  {
    assert was[0..] == was;
  }

  lemma SweepEnds(l: seq<Session>, was: seq<Session>, late: set<Session>, done: set<Session>)
    requires Swept(l, was, late, |was|) && DoneSoFar(was, late, done, |was|) && forall p :: p in late ==> p in was
    ensures l == Without(was, late) && done == late
  {
    assert was[..|was|] == was;
  }

  lemma {:induction false} WithoutAlike(l: seq<Session>, a: set<Session>, b: set<Session>)
    requires forall i :: 0 <= i < |l| ==> (l[i] in a <==> l[i] in b)
    ensures Without(l, a) == Without(l, b)
  {
    if l == [] {
    } else {
      WithoutAlike(l[1..], a, b);
    }
  }

  /** The sessions that wait with a timeout and are past their deadline, in the lists before `i`. */
  ghost function AllLate(sessions: set<Session>, first: map<Session, Clock>, nowS: int, nowMs: int,
      i: int): set<Session> {
    set p | p in sessions && p in first && TO_100MS <= Where(first[p].core) < i && LateThen(first[p], nowS, nowMs)
  }

  /** A session stands in timing list `j` exactly when its fields say so. */
  ghost predicate PlacedAt(was: Lists, sessions: set<Session>, first: map<Session, Clock>, j: int, p: Session) {
    0 <= j < |was| && (p in was[j] <==> p in sessions && p in first && Where(first[p].core) == j)
  }

  lemma LateMore(was: Lists, sessions: set<Session>, first: map<Session, Clock>, nowS: int, nowMs: int, i: nat)
    requires TO_100MS <= i <= LONGER && |was| == LISTS
    requires forall j, p {:trigger PlacedAt(was, sessions, first, j, p)} :: TO_100MS <= j <= LONGER ==>
      PlacedAt(was, sessions, first, j, p)
    ensures var done, late, all := AllLate(sessions, first, nowS, nowMs, i), LateOnes(was[i], first, nowS, nowMs),
                                   AllLate(sessions, first, nowS, nowMs, NO_TIME);
      && AllLate(sessions, first, nowS, nowMs, i + 1) == done + late
      && (forall p :: p in was[i] ==> p !in done)
      && forall k :: 0 <= k < |was[i]| ==> (was[i][k] in late <==> was[i][k] in all)
  {
    var done, late, next := AllLate(sessions, first, nowS, nowMs, i), LateOnes(was[i], first, nowS, nowMs),
      AllLate(sessions, first, nowS, nowMs, i + 1);
    forall p | p in next ensures p in done + late {
      assert PlacedAt(was, sessions, first, i, p);
    }
    forall p | p in done + late ensures p in next {
      assert PlacedAt(was, sessions, first, i, p);
    }
    forall p | p in was[i] ensures p !in done {
      assert PlacedAt(was, sessions, first, i, p);
    }
    forall k | 0 <= k < |was[i]|
      ensures was[i][k] in late <==> was[i][k] in AllLate(sessions, first, nowS, nowMs, NO_TIME)
    {
      assert PlacedAt(was, sessions, first, i, was[i][k]);
    }
  }

  /** The lists with timeouts before `i` are swept, the others as they were. */
  ghost predicate ListsSwept(was: Lists, ls: Lists, late: set<Session>, i: int) {
    && |was| == |ls| == LISTS
    && forall j {:trigger ls[j]} :: TO_100MS <= j <= LONGER ==> ls[j] == if j < i then Without(was[j], late) else was[j]
  }

  /** `esq_session_timing`: in one go over the four lists exactly the sessions past their deadline
      are told so, each once, and those that are not stay in their lists in their order. */
  method Timing(ctx: Context, nowS: int, nowMs: int, fails: set<Session>, ghost first: map<Session, Clock>)
    requires ctx.Valid() && !ctx.crashed && first == map x | x in ctx.sessions :: ClockOf(x)
    modifies ctx, ctx.sessions
    ensures ctx.Valid() && !ctx.crashed && ctx.sessions == old(ctx.sessions)
    ensures var late := AllLate(ctx.sessions, first, nowS, nowMs, NO_TIME);
      AllTracked(ctx.sessions, first, late, fails) && ListsSwept(old(ctx.lists), ctx.lists, late, NO_TIME)
  {
    ghost var was, all := ctx.lists, AllLate(ctx.sessions, first, nowS, nowMs, NO_TIME);
    var i := TO_100MS;
    ghost var done := AllLate(ctx.sessions, first, nowS, nowMs, i);
    assert done == {};
    forall j, p | TO_100MS <= j <= LONGER ensures PlacedAt(was, ctx.sessions, first, j, p) {
      if p in was[j] { assert p in ctx.sessions; }
      if p in ctx.sessions { assert ctx.Kept(p); }
    }
    assert ListsSwept(was, ctx.lists, all, i);
    hide Tidy, In, Where;
    while i <= LONGER
      invariant TO_100MS <= i <= NO_TIME && ctx.Valid() && !ctx.crashed && ctx.sessions == old(ctx.sessions)
      invariant done == AllLate(ctx.sessions, first, nowS, nowMs, i) && AllTracked(ctx.sessions, first, done, fails)
      invariant ListsSwept(was, ctx.lists, all, i)
    {
      LateMore(was, ctx.sessions, first, nowS, nowMs, i);
      CheckTiming(ctx, i, nowS, nowMs, fails, first, done);
      ghost var late := LateOnes(was[i], first, nowS, nowMs);
      LateMore(was, ctx.sessions, first, nowS, nowMs, i);
      WithoutAlike(was[i], late, all);
      done := done + late;
      i := i + 1;
    }
  }
}
