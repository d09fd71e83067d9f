/** What becomes of the events of a session: from one callback to the next none is lost, and none is
    made up. */
module SessionEvents {
  import opened SessionCore

  /** The steps that hand the socket to the layer below, or take it back. */
  predicate NeedsIo(c: Core, a: Action) {
    c.fd > 0 && match a {
      case PickUp => c.lc.WaitForCpu?
      case WindUp => c.lc.WaitForReinstall?
      case NotifyTimeout => c.lc.WindedUp?
      case NotifyExit => c.lc.WindedUp? && c.kind.SingleShot?
      case RemoveFd => c.lc.ExecuteCb?
      case _ => false
    }
  }

  /** What a step has to tell a session: an event, an exit, a timeout, or a failure of its socket. */
  function News(c: Core, i: Input): set<EventBit> {
    var failure := if i.IoFails? && NeedsIo(c, i.action) then {FdError} else {};
    match i.action
    case NotifyEvent(bits) => bits
    case NotifyExit => {Exit} + failure
    case NotifyTimeout => {Timeout} + failure
    case _ => failure
  }

  /** What a run has to tell a session. */
  function AllNews(c: Core, ins: seq<Input>): set<EventBit>
    decreases |ins|
  {
    if ins == [] then {}
    else match Next(c, ins[0].action, ins[0].IoFails?) {
      case On(n) => News(c, ins[0]) + AllNews(n, ins[1..])
      case _ => {}
    }
  }

  /** What it has to tell it before the callback returns. */
  function NewsAtWork(c: Core, ins: seq<Input>): set<EventBit>
    decreases |ins|
  {
    if ins == [] || !c.lc.ExecuteCb? then {}
    else match Next(c, ins[0].action, ins[0].IoFails?) {
      case On(n) => News(c, ins[0]) + NewsAtWork(n, ins[1..])
      case _ => {}
    }
  }

  /** A run between two callbacks, in which the session keeps to its kind. */
  predicate Between(ins: seq<Input>) {
    forall i :: 0 <= i < |ins| ==> !ins[i].action.RunCb? && !ins[i].action.AddSockFdMulti?
  }

  predicate HasSocket(c: Core) {
    c.kind.SingleShot? || c.kind.MultiShot?
  }

  /** A multi-shot session that has given up its socket. */
  predicate OnItsWayOut(c: Core) {
    c.kind.MultiShot? && (c.lc.WaitForRemovedAndWindUp? || c.lc.WaitForRemoved? || c.lc.WaitForWindUp?
                          || (c.lc.ExecuteCb? && c.fd == 0))
  }

  lemma WayOutStays(c: Core, a: Action, ioFails: bool)
    requires OnItsWayOut(c) && Next(c, a, ioFails).On?
    ensures OnItsWayOut(Next(c, a, ioFails).core)
  {
    match c.lc case _ =>
  }

  /** It has no further callback, so what it is told need not be kept. */
  lemma {:induction false} WayOutIsFinal(c: Core, ins: seq<Input>)
    requires OnItsWayOut(c)
    ensures Lifetime(c, ins).On? ==> OnItsWayOut(Lifetime(c, ins).core) && !Lifetime(c, ins).core.lc.Active?
    decreases |ins|
  {
    if ins == [] {
    } else {
      var step := Next(c, ins[0].action, ins[0].IoFails?);
      if step.On? {
        WayOutStays(c, ins[0].action, ins[0].IoFails?);
        WayOutIsFinal(step.core, ins[1..]);
      }
    }
  }

  /** What its callback will next be given, as things are. */
  function Pending(c: Core): set<EventBit> {
    if c.kind.MultiShot? && c.lc.ExecuteCb? && c.bits2 != {} then c.bits2 else c.bits
  }

  /** A step from `c` to `n` keeps what the session was told, and adds its news. In a multi-shot callback
      that is kept apart from what that callback was given. */
  predicate Keeps(c: Core, i: Input, n: Core) {
    && n.kind == c.kind && (n.lc.ExecuteCb? ==> c.lc.ExecuteCb?)
    && if c.kind.MultiShot? && n.lc.ExecuteCb? then n.bits == c.bits && n.bits2 == c.bits2 + News(c, i)
       else n.bits == Pending(c) + News(c, i)
  }

  lemma SingleKeeps(c: Core, i: Input)
    requires c.kind.SingleShot? && !i.action.RunCb? && !i.action.AddSockFdMulti?
    requires SingleNext(c, i.action, i.IoFails?).On?
    ensures Keeps(c, i, SingleNext(c, i.action, i.IoFails?).core)
  {
    match c.lc case _ =>
  }

  lemma MultiKeeps(c: Core, i: Input)
    requires c.kind.MultiShot? && !c.lc.ExecuteCb? && !i.action.RunCb?
    requires MultiNext(c, i.action, i.IoFails?).On? && !OnItsWayOut(MultiNext(c, i.action, i.IoFails?).core)
    ensures Keeps(c, i, MultiNext(c, i.action, i.IoFails?).core)
  {
    match c.lc case _ =>
  }

  lemma CallbackKeeps(c: Core, i: Input)
    requires c.kind.MultiShot? && c.lc.ExecuteCb?
    requires MultiCallback(c, i.action, i.IoFails?).On? && !OnItsWayOut(MultiCallback(c, i.action, i.IoFails?).core)
    ensures Keeps(c, i, MultiCallback(c, i.action, i.IoFails?).core)
  {
  }

  /** So does every step of a session that goes on, unless it is on its way out. */
  lemma NewsIsPending(c: Core, i: Input)
    requires HasSocket(c) && Between([i]) && Next(c, i.action, i.IoFails?).On?
    requires !OnItsWayOut(Next(c, i.action, i.IoFails?).core)
    ensures Keeps(c, i, Next(c, i.action, i.IoFails?).core)
  {
    hide Keeps, SingleNext, MultiNext, MultiCallback, SingleCallback, OnItsWayOut;
    assert [i][0] == i;
    if c.kind.SingleShot? {
      SingleKeeps(c, i);
    } else if c.lc.ExecuteCb? {
      CallbackNext(c, i.action, i.IoFails?);
      CallbackKeeps(c, i);
    } else {
      MultiKeeps(c, i);
    }
  }

  /** What the next callback is given, if the run reaches it: all it has to tell, and what the last one
      was given, which a multi-shot session keeps only if it was told nothing during that callback. */
  function Given(c: Core, ins: seq<Input>): set<EventBit> {
    var kept := if c.kind.MultiShot? && NewsAtWork(c, ins) != {} then {} else c.bits;
    kept + AllNews(c, ins)
  }

  lemma {:induction false} OutsideCallback(c: Core, ins: seq<Input>)
    requires HasSocket(c) && Between(ins) && (c.kind.SingleShot? || !c.lc.ExecuteCb?)
    ensures var step := Lifetime(c, ins);
      step.On? && step.core.lc.Active? ==> step.core.kind == c.kind && step.core.bits == c.bits + AllNews(c, ins)
    decreases |ins|
  {
    if ins == [] {
    } else {
      var step := Next(c, ins[0].action, ins[0].IoFails?);
      if step.On? {
        if OnItsWayOut(step.core) {
          WayOutIsFinal(step.core, ins[1..]);
        } else {
          NewsIsPending(c, ins[0]);
          OutsideCallback(step.core, ins[1..]);
        }
      }
    }
  }

  lemma {:induction false} FromCallback(c: Core, ins: seq<Input>)
    requires c.kind.MultiShot? && c.lc.ExecuteCb? && Between(ins)
    ensures var step, late := Lifetime(c, ins), c.bits2 + NewsAtWork(c, ins);
      step.On? && step.core.lc.Active? ==>
        step.core.kind == c.kind && step.core.bits == (if late == {} then c.bits else c.bits2) + AllNews(c, ins)
    decreases |ins|
  {
    if ins == [] {
    } else {
      var step := Next(c, ins[0].action, ins[0].IoFails?);
      if step.On? {
        var n := step.core;
        if OnItsWayOut(n) {
          WayOutIsFinal(n, ins[1..]);
        } else {
          NewsIsPending(c, ins[0]);
          if n.lc.ExecuteCb? {
            FromCallback(n, ins[1..]);
          } else {
            ReturnTellsNothing(c, ins[0]);
            OutsideCallback(n, ins[1..]);
          }
        }
      }
    }
  }

  lemma ReturnTellsNothing(c: Core, i: Input)
    requires c.kind.MultiShot? && c.lc.ExecuteCb? && Next(c, i.action, i.IoFails?).On?
    requires !Next(c, i.action, i.IoFails?).core.lc.ExecuteCb? && !OnItsWayOut(Next(c, i.action, i.IoFails?).core)
    ensures News(c, i) == {}
  {
  }

  /** An active session is executed, and given what it was told. */
  lemma Called(c: Core)
    requires HasSocket(c) && c.lc.Active?
    ensures var step := Next(c, RunCb, false);
      step.On? && step.core.lc.ExecuteCb? && step.core.kind == c.kind && step.core.bits == c.bits
    ensures c.kind.MultiShot? ==> Next(c, RunCb, false).core.bits2 == {}
  {
  }

  /** From one callback to the next: a session active at `b` is executed, and by `ins` becomes active
      again. Then it is given every event, exit, timeout and failure of the run, and nothing else but
      what is said to be kept. */
  lemma EveryEventArrives(b: Core, ins: seq<Input>)
    requires HasSocket(b) && b.lc.Active? && Between(ins)
    ensures var c := Next(b, RunCb, false).core;
      var step := Lifetime(c, ins);
      step.On? && step.core.lc.Active? ==>
        Next(step.core, RunCb, false).On? && Next(step.core, RunCb, false).core.bits == Given(c, ins)
  {
    hide Next, Lifetime, AllNews, NewsAtWork;
    Called(b);
    var c := Next(b, RunCb, false).core;
    if c.kind.MultiShot? { FromCallback(c, ins); } else { OutsideCallback(c, ins); }
    var step := Lifetime(c, ins);
    if step.On? && step.core.lc.Active? { Called(step.core); }
  }

  /** Its first callback is given all it was told since it has its socket. */
  lemma FirstEvents(c: Core, ins: seq<Input>)
    requires HasSocket(c) && c.lc.Initial? && c.bits == {} && Between(ins)
    ensures var step := Lifetime(c, ins);
      step.On? && step.core.lc.Active? ==>
        Next(step.core, RunCb, false).On? && Next(step.core, RunCb, false).core.bits == AllNews(c, ins)
  {
    hide Next, Lifetime, AllNews;
    OutsideCallback(c, ins);
    var step := Lifetime(c, ins);
    if step.On? && step.core.lc.Active? { Called(step.core); }
  }

  lemma {:induction false} LifetimeSplits(c: Core, a: seq<Input>, b: seq<Input>)
    ensures Lifetime(c, a + b) == match Lifetime(c, a) { case On(m) => Lifetime(m, b) case step => step }
    decreases |a|
  {
    if a == [] {
      assert a + b == b;
    } else {
      assert (a + b)[0] == a[0] && (a + b)[1..] == a[1..] + b;
      var step := Next(c, a[0].action, a[0].IoFails?);
      if step.On? { LifetimeSplits(step.core, a[1..], b); }
    }
  }

  /** A single-shot session that takes a multi-shot socket in its callback forgets what it was told during
      that callback: the next one is given exactly what comes after. */
  lemma SwitchForgets(c: Core, before: seq<Input>, fd: int, after: seq<Input>)
    requires c.kind.SingleShot? && Between(before) && Between(after)
    requires Lifetime(c, before).On? && Lifetime(c, before).core.kind.SingleShot?
    requires Lifetime(c, before).core.lc.ExecuteCb?
    ensures var start := MultiStart(Lifetime(c, before).core, fd);
      var step := Lifetime(c, before + ([Ok(AddSockFdMulti(fd))] + after));
      step.On? && step.core.lc.Active? ==>
        Next(step.core, RunCb, false).On? && Next(step.core, RunCb, false).core.bits == AllNews(start, after)
  {
    var m := Lifetime(c, before).core;
    var switch := Ok(AddSockFdMulti(fd));
    LifetimeSplits(c, before, [switch] + after);
    LifetimeGoesOn(m, switch, after, MultiStart(m, fd));
    FirstEvents(MultiStart(m, fd), after);
  }

  /** A session that is notified outside its callback is active then, or becomes active when its socket
      is given up, or is on its way out; an event makes it active at once. In its callback it stays. */
  lemma NotifiedWakes(c: Core, a: Action, ioFails: bool)
    requires Sane(c) && (a.NotifyEvent? || a.NotifyTimeout? || a.NotifyExit?) && Next(c, a, ioFails).On?
    ensures var n := Next(c, a, ioFails).core;
      && (InCallback(c) ==> n.lc == c.lc)
      && (!InCallback(c) ==> n.lc.Active? || (!a.NotifyEvent? && (OnItsWayOut(c) || n.lc.WaitForRemovedThenActive?)))
      && (n.lc.WaitForRemovedThenActive? ==> Next(n, NotifyAioRemoved, false) == On(n.(lc := Active)))
  {
    match c.kind
    case NoFd =>
    case SingleShot => match c.lc { case _ => }
    case MultiShot => match c.lc { case _ => }
  }

  /** When the callback has returned, a multi-shot session is active again exactly if it was told
      something meanwhile. A single-shot session never is for that reason: with news it waits like any
      other, and is active only if its socket cannot be installed. */
  lemma ReturnWakes(c: Core, ioFails: bool)
    requires Sane(c) && InCallback(c) && Next(c, WindUp, ioFails).On?
    ensures var n := Next(c, WindUp, ioFails).core;
      && (n.lc.Active? <==> if c.kind.MultiShot? then c.lc.ExecuteCb? && c.bits2 != {} else c.fd > 0 && ioFails)
      && if c.lc.WaitForRemovedAndWindUp? then OnItsWayOut(n) else n.lc.Active? || n.lc.WindedUp?
  {
  }

  const PARENT_SLEEPS := [Ok(NotifyEvent({TaskDone})), Ok(AddSockFdSingle(5, 0, 0)), Ok(WindUp)]

  /** A parent whose child ends while the parent is in its callback, and which then waits for a socket
      without a timeout: it has been told, but waits in the list without timeouts. */
  lemma EventSleeps()
    ensures var step := Lifetime(NEWBORN, [INSTALL] + (UNTIL_CALLBACK + PARENT_SLEEPS));
      step.On? && TaskDone in step.core.bits && step.core.lc.WindedUp? && Where(step.core) == NO_TIME
  {
    hide Lifetime;
    var begun := NEWBORN.(kind := SingleShot, fd := 5, timeouts := 1);
    LifetimeGoesOn(NEWBORN, INSTALL, UNTIL_CALLBACK + PARENT_SLEEPS, begun);
    UntilCallback(begun, PARENT_SLEEPS);
    SleepsFrom(begun.(lc := ExecuteCb, bits := begun.bits + {Read}));
  }

  lemma SleepsFrom(c: Core)
    requires c.kind.SingleShot? && c.lc.ExecuteCb?
    ensures var step := Lifetime(c, PARENT_SLEEPS);
      step.On? && TaskDone in step.core.bits && step.core.lc.WindedUp? && Where(step.core) == NO_TIME
  {
    hide Lifetime;
    var told, again, wind := Ok(NotifyEvent({TaskDone})), Ok(AddSockFdSingle(5, 0, 0)), Ok(WindUp);
    var c1 := c.(bits := c.bits + {TaskDone});
    var c2 := c1.(fd := 5, timeouts := 0, timeoutms := 0, lc := WaitForReinstall);
    var c3 := c2.(lc := WindedUp);
    assert PARENT_SLEEPS == [told] + ([again] + ([wind] + []));
    LifetimeGoesOn(c, told, [again] + ([wind] + []), c1);
    LifetimeGoesOn(c1, again, [wind] + [], c2);
    LifetimeGoesOn(c2, wind, [], c3);
    LifetimeEnds(c3);
  }

  /** A session gets a parent by being bundled, and in no other way; its kind is that of the socket it
      asked for last. */
  lemma ParentAndKind(c: Core, a: Action, ioFails: bool)
    requires Next(c, a, ioFails).On?
    ensures var n := Next(c, a, ioFails).core;
      && (n.haveParent <==> c.haveParent || a.SetParent?)
      && n.kind == if a.AddSockFdMulti? then MultiShot else if a.AddSockFdSingle? then SingleShot else c.kind
  {
  }

  /** Before the session waits, and while it does. */
  predicate Waiting(c: Core) {
    c.lc.Initial? || c.lc.WaitForCpu? || c.lc.WaitForReinstall? || c.lc.WindedUp?
  }

  predicate AsksNoMore(ins: seq<Input>) {
    Between(ins) && forall i :: 0 <= i < |ins| ==> !ins[i].action.AddSockFdSingle?
  }

  lemma StepWaits(c: Core, a: Action, ioFails: bool)
    requires c.kind.SingleShot? && !a.AddSockFdSingle? && !a.AddSockFdMulti? && Next(c, a, ioFails).On?
    ensures var n := Next(c, a, ioFails).core;
      n.kind.SingleShot? && (Waiting(n) ==>
        Waiting(c) && n.fd == c.fd && n.timeouts == c.timeouts && n.timeoutms == c.timeoutms)
  {
  }

  lemma {:induction false} RunWaits(c: Core, ins: seq<Input>)
    requires c.kind.SingleShot? && AsksNoMore(ins) && Lifetime(c, ins).On?
    ensures var n := Lifetime(c, ins).core;
      n.kind.SingleShot? && (Waiting(n) ==>
        Waiting(c) && n.fd == c.fd && n.timeouts == c.timeouts && n.timeoutms == c.timeoutms)
    decreases |ins|
  {
    if ins == [] {
    } else {
      StepWaits(c, ins[0].action, ins[0].IoFails?);
      RunWaits(Next(c, ins[0].action, ins[0].IoFails?).core, ins[1..]);
    }
  }

  /** A single-shot session waits for the socket it asked for last, with the timeouts it asked for and in
      the list for them, in its first wait and behind every callback. */
  lemma WaitsAsAsked(b: Core, fd: int, s: int, ms: int, ioFails: bool, ins: seq<Input>)
    requires Sane(b) && AsksNoMore(ins)
    ensures var asked := Next(b, AddSockFdSingle(fd, s, ms), ioFails);
      asked.On? ==>
        var step := Lifetime(asked.core, ins);
        step.On? && step.core.lc.WindedUp? ==>
          && step.core.fd == fd && step.core.timeouts == s && step.core.timeoutms == ms
          && Where(step.core) == TimingList(s, ms)
  {
    var asked := Next(b, AddSockFdSingle(fd, s, ms), ioFails);
    if asked.On? {
      if Lifetime(asked.core, ins).On? { RunWaits(asked.core, ins); }
    }
  }

  /** When each action is expected. */
  predicate Expects(c: Core, a: Action) {
    match a
    case WindUp => c.lc.Initial? || c.lc.ExecuteCb? || c.lc.WaitForReinstall? || c.lc.WaitForRemovedAndWindUp? ||
      c.lc.WaitForWindUp?
    case WindUpRr => HasSocket(c) && c.lc.Initial?
    case PickUp => c.lc.WaitForCpu?
    case SetParent => MayBeChild(c)
    case AddChild => MayBeParent(c)
    case RemoveFd => c.kind.MultiShot? && c.lc.ExecuteCb?
    case NotifyEvent(_) => !RefusesEvents(c)
    case NotifyAioRemoved => c.lc.WaitForRemovedThenActive? || c.lc.WaitForRemovedAndWindUp? || c.lc.WaitForRemoved?
    case NotifyTimeout => c.kind.SingleShot? && c.lc.WindedUp?
    case NotifyExit => !c.lc.Initial? && !c.lc.WaitForCpu? && !c.lc.WaitForRemovedAndWindUp?
    case RunCb => c.lc.Active?
    case _ => c.kind.NoFd? || (c.kind.SingleShot? && c.lc.ExecuteCb?)
  }

  /** When it ends the session: without a socket, or when nothing holds the socket any more. */
  predicate Ends(c: Core, a: Action) {
    match a
    case WindUp => c.kind.NoFd? || c.lc.WaitForWindUp? || (c.lc.ExecuteCb? && (c.kind.SingleShot? || c.fd == 0))
    case NotifyAioRemoved => c.lc.WaitForRemoved?
    case HashLockRead => c.kind.SingleShot?
    case _ => false
  }

  /** An action makes the process exit exactly if it is not expected, and ends a session or hands it over
      exactly as said; in all other cases the session goes on. */
  lemma StepsExactly(c: Core, a: Action, ioFails: bool)
    requires Sane(c)
    ensures Next(c, a, ioFails).Crash? <==> !Expects(c, a)
    ensures Next(c, a, ioFails).Gone? <==> Expects(c, a) && Ends(c, a)
    ensures Next(c, a, ioFails).Elsewhere? <==> Expects(c, a) && !Ends(c, a) && (a.HashLockRead? || a.HashLockWrite?)
  {
    match c.kind
    case NoFd =>
    case SingleShot => match c.lc { case _ => }
    case MultiShot => match c.lc { case _ => }
    case HashLock =>
  }

  /** A session that takes its first socket waits for it when it has been picked up, by whichever list. */
  lemma FirstWait(c: Core, rr: bool, fd: int, s: int, ms: int)
    requires Sane(c) && c.kind.NoFd?
    ensures var step := Lifetime(c, [Ok(AddSockFdSingle(fd, s, ms)), Ok(if rr then WindUpRr else WindUp), Ok(PickUp)]);
      step == On(Core(SingleShot, WindedUp, fd, s, ms, {}, c.bits2, c.haveParent))
  {
    var ask, wind, pick := Ok(AddSockFdSingle(fd, s, ms)), Ok(if rr then WindUpRr else WindUp), Ok(PickUp);
    var c1 := Core(SingleShot, Initial, fd, s, ms, {}, c.bits2, c.haveParent);
    hide Lifetime;
    Thrice(c, ask, wind, pick, c1, c1.(lc := WaitForCpu), c1.(lc := WindedUp));
  }

  /** So does one that takes a multi-shot socket, be it its first or in a callback. */
  lemma FirstMultiWait(c: Core, rr: bool, fd: int)
    requires Sane(c) && (c.kind.NoFd? || (c.kind.SingleShot? && c.lc.ExecuteCb?))
    ensures var step := Lifetime(c, [Ok(AddSockFdMulti(fd)), Ok(if rr then WindUpRr else WindUp), Ok(PickUp)]);
      step == On(Core(MultiShot, WindedUp, fd, 0, 0, {}, c.bits2, c.haveParent))
  {
    var ask, wind, pick := Ok(AddSockFdMulti(fd)), Ok(if rr then WindUpRr else WindUp), Ok(PickUp);
    var c1 := Core(MultiShot, Initial, fd, 0, 0, {}, c.bits2, c.haveParent);
    hide Lifetime;
    Thrice(c, ask, wind, pick, c1, c1.(lc := WaitForCpu), c1.(lc := WindedUp));
  }

  lemma Thrice(c: Core, x: Input, y: Input, z: Input, c1: Core, c2: Core, c3: Core)
    requires Next(c, x.action, x.IoFails?) == On(c1) && Next(c1, y.action, y.IoFails?) == On(c2)
    requires Next(c2, z.action, z.IoFails?) == On(c3)
    ensures Lifetime(c, [x, y, z]) == On(c3)
  {
    hide Next;
    assert [x, y, z] == [x] + [y, z] && [y, z] == [y] + [z] && [z] == [z] + [];
    LifetimeGoesOn(c, x, [y, z], c1);
    LifetimeGoesOn(c1, y, [z], c2);
    LifetimeGoesOn(c2, z, [], c3);
    LifetimeEnds(c3);
  }

  /** A session whose socket is taken back has none any more, be it by a timeout, an exit, or for good. */
  lemma SocketGivenUp(c: Core, a: Action, ioFails: bool)
    requires Sane(c) && Next(c, a, ioFails).On? && (a.RemoveFd? || NeedsIo(c, a)) && !a.PickUp? && !a.WindUp?
    ensures Next(c, a, ioFails).core.fd == 0
    ensures a.RemoveFd? && c.fd <= 0 ==> Next(c, a, ioFails) == On(c.(fd := 0))
  {
  }

  /** A socket that cannot be taken back: the failure is noted, but no callback follows. */
  lemma FailureIsNeverTold(c: Core, ins: seq<Input>)
    requires c.kind.MultiShot? && c.lc.ExecuteCb? && c.fd > 0
    ensures var step := Next(c, RemoveFd, true);
      && step == On(c.(fd := 0, bits2 := c.bits2 + {FdError}))
      && (Lifetime(step.core, ins).On? ==> !Lifetime(step.core, ins).core.lc.Active?)
  {
    WayOutIsFinal(c.(fd := 0, bits2 := c.bits2 + {FdError}), ins);
  }

  predicate Has(ins: seq<Input>, a: Action) {
    exists i :: 0 <= i < |ins| && ins[i].action == a
  }

  lemma HasFirst(ins: seq<Input>, a: Action)
    requires ins != []
    ensures Has(ins, a) <==> ins[0].action == a || Has(ins[1..], a)
  {
    if Has(ins, a) && ins[0].action != a {
      var i :| 0 <= i < |ins| && ins[i].action == a;
      assert ins[1..][i - 1] == ins[i];
    }
    if Has(ins[1..], a) {
      var i :| 0 <= i < |ins[1..]| && ins[1..][i].action == a;
      assert ins[i + 1] == ins[1..][i];
    }
  }

  lemma {:induction false} EndsBehindOne(c: Core, ins: seq<Input>)
    requires c.kind.MultiShot? && (c.lc.WaitForRemoved? || c.lc.WaitForWindUp?)
    ensures var left := if c.lc.WaitForRemoved? then NotifyAioRemoved else WindUp;
      (Lifetime(c, ins).Gone? ==> Has(ins, left)) && (Lifetime(c, ins).On? ==> !Has(ins, left))
    decreases |ins|
  {
    if ins == [] {
    } else {
      HasFirst(ins, if c.lc.WaitForRemoved? then NotifyAioRemoved else WindUp);
      var step := Next(c, ins[0].action, ins[0].IoFails?);
      if step.On? { EndsBehindOne(step.core, ins[1..]); }
    }
  }

  /** A session that gives up its socket for good ends when both its callback has returned and the layer
      below has let the socket go, in either order, and not before. */
  lemma EndsBehindBoth(c: Core, ins: seq<Input>)
    requires c.kind.MultiShot? && c.lc.ExecuteCb? && c.fd > 0 && Next(c, RemoveFd, false).On?
    ensures var step := Lifetime(Next(c, RemoveFd, false).core, ins);
      var both := Has(ins, WindUp) && Has(ins, NotifyAioRemoved);
      (step.Gone? ==> both) && (step.On? ==> !both)
  {
    if ins == [] {
    } else {
      HasFirst(ins, WindUp);
      HasFirst(ins, NotifyAioRemoved);
      var n := Next(c, RemoveFd, false).core;
      var step := Next(n, ins[0].action, ins[0].IoFails?);
      if step.On? { EndsBehindOne(step.core, ins[1..]); }
    }
  }

  /** The list for a time in milliseconds, by the names of the lists. */
  function ListFor(time: int): int {
    if time >= 10_000 then LONGER
    else if 1_000 <= time < 10_000 then TO_10S
    else if 100 <= time < 1_000 then TO_1S
    else if 0 < time < 100 then TO_100MS
    else NO_TIME
  }

  /** A session is in the list for its timeout exactly if its milliseconds do not carry it over the limit
      of the list its seconds choose. */
  lemma TimingListIs(s: int, ms: int)
    requires s >= 0 && ms >= 0
    ensures TimingList(s, ms) == ListFor(1000 * s + ms) <==>
      s >= 10 || (1 <= s && 1000 * s + ms < 10_000) || (s == 0 && ms < 1_000)
  {
  }
}
