/** The session automata: what each action does to a session, and the list it then belongs to. */
module SessionCore {
  datatype SessionType = NoFd | SingleShot | MultiShot | HashLock

  /** The labels the automata wait at. */
  datatype Label = Initial | WaitForCpu | WindedUp | WaitForRemovedThenActive | Active | ExecuteCb
                 | WaitForReinstall | WaitForRemovedAndWindUp | WaitForRemoved | WaitForWindUp

  datatype EventBit = FdClose | FdError | Timeout | Read | Write | LockObtain | TaskDone | Exit

  datatype Action = WindUp | WindUpRr | PickUp | SetParent | AddChild
                  | AddSockFdMulti(multiFd: int) | AddSockFdSingle(fd: int, timeouts: int, timeoutms: int)
                  | RemoveFd | NotifyEvent(bits: set<EventBit>) | NotifyAioRemoved | NotifyTimeout | NotifyExit
                  | RunCb | HashLockRead | HashLockWrite

  /** The fields of a session the automata use. */
  datatype Core = Core(kind: SessionType, lc: Label, fd: int, timeouts: int, timeoutms: int,
                       bits: set<EventBit>, bits2: set<EventBit>, haveParent: bool)

  /** An action makes the process exit, frees the session, hands it to the hash-lock automaton, or
      leads on. */
  datatype Step = Crash | Gone | Elsewhere | On(core: Core)

  /** The lists by number: active, four of waiting sessions by their timeouts, one without, and
      the two of new sessions. */
  const ACTIVE := 0
  const TO_100MS := 1
  const TO_1S := 2
  const TO_10S := 3
  const LONGER := 4
  const NO_TIME := 5
  const LOCAL_NEW := 6
  const GLOBAL_NEW := 7
  const LISTS := 8
  const NOWHERE := -1

  /** The list for a pair of timeouts. */
  function TimingList(s: int, ms: int): (i: int)
    ensures TO_100MS <= i <= NO_TIME
  {
    if s >= 10 then LONGER
    else if s >= 1 then TO_10S
    else if ms >= 100 then TO_1S
    else if ms > 0 then TO_100MS
    else NO_TIME
  }

  /** The list a session belongs to; a new session is in one of two, this is the first. */
  function Where(c: Core): int {
    match c.lc
    case Initial => NOWHERE
    case WaitForCpu => LOCAL_NEW
    case WindedUp => TimingList(c.timeouts, c.timeoutms)
    case WaitForRemovedThenActive => NO_TIME
    case Active => ACTIVE
    case ExecuteCb => NOWHERE
    case WaitForReinstall => NOWHERE
    case WaitForRemovedAndWindUp => NO_TIME
    case WaitForRemoved => NO_TIME
    case WaitForWindUp => NO_TIME
  }

  /** What the fields of a session keep to: the timeouts of one that is in the list without
      timeouts for its state's sake are zero, so it leaves the list it has joined. */
  predicate Sane(c: Core) {
    && (c.kind.MultiShot? ==> c.timeouts == 0 && c.timeoutms == 0)
    && (c.lc.WaitForRemovedThenActive? ==> c.kind.SingleShot? && c.timeouts == 0 && c.timeoutms == 0)
    && (c.lc.WaitForRemovedAndWindUp? || c.lc.WaitForRemoved? || c.lc.WaitForWindUp? ==> c.kind.MultiShot?)
    && (c.lc.WaitForReinstall? ==> c.kind.SingleShot?)
    && (c.kind.NoFd? ==> c.lc.Initial?) && !c.kind.HashLock?
  }

  /** The list a session leaves by its timeouts is the one its state says it is in. */
  lemma LeavesWhatItJoined(c: Core)
    requires Sane(c) && TO_100MS <= Where(c) <= NO_TIME
    ensures TimingList(c.timeouts, c.timeoutms) == Where(c)
  {
  }

  function Installed(c: Core, ioFails: bool): Core {
    if c.fd > 0 && ioFails then c.(bits := c.bits + {FdError}, lc := Active) else c.(lc := WindedUp)
  }

  function Removing(c: Core, ioFails: bool): Core {
    if c.fd > 0 then
      if ioFails then c.(fd := 0, bits := c.bits + {FdError}, lc := Active)
      else c.(fd := 0, timeouts := 0, timeoutms := 0, lc := WaitForRemovedThenActive)
    else c.(lc := Active)
  }

  function MultiStart(c: Core, fd: int): Core {
    c.(kind := MultiShot, lc := Initial, fd := fd, timeouts := 0, timeoutms := 0, bits := {})
  }

  function NoFdNext(c: Core, a: Action): Step {
    match a
    case WindUp => Gone
    case AddSockFdMulti(fd) => On(MultiStart(c, fd))
    case AddSockFdSingle(fd, s, ms) =>
      On(c.(kind := SingleShot, lc := Initial, fd := fd, timeouts := s, timeoutms := ms, bits := {}))
    case HashLockRead => Elsewhere
    case HashLockWrite => Elsewhere
    case _ => Crash
  }

  function SingleCallback(c: Core, a: Action): Step {
    match a
    case WindUp => Gone
    case AddSockFdMulti(fd) => On(MultiStart(c, fd))
    case AddChild => On(c)
    case AddSockFdSingle(fd, s, ms) => On(c.(fd := fd, timeouts := s, timeoutms := ms, lc := WaitForReinstall))
    case NotifyExit => On(c.(bits := c.bits + {Exit}))
    case NotifyEvent(b) => On(c.(bits := c.bits + b))
    case HashLockWrite => Elsewhere
    case HashLockRead => Gone  // the number of the new type is taken for a request to free
    case _ => Crash
  }

  function MultiCallback(c: Core, a: Action, ioFails: bool): Step {
    match a
    case WindUp =>
      if c.fd == 0 then Gone
      else if c.bits2 != {} then On(c.(bits := c.bits2, lc := Active))
      else On(c.(lc := WindedUp))
    case RemoveFd =>
      if c.fd <= 0 then On(c.(fd := 0))
      else if ioFails then On(c.(fd := 0, bits2 := c.bits2 + {FdError}))
      else On(c.(fd := 0, lc := WaitForRemovedAndWindUp))
    case NotifyEvent(b) => On(c.(bits2 := c.bits2 + b))
    case NotifyExit => On(c.(bits2 := c.bits2 + {Exit}))
    case _ => Crash
  }

  function SingleNext(c: Core, a: Action, ioFails: bool): Step {
    match (c.lc, a)
    case (Initial, WindUp) => On(c.(lc := WaitForCpu))
    case (Initial, WindUpRr) => On(c.(lc := WaitForCpu))
    case (Initial, SetParent) => if c.haveParent then Crash else On(c.(haveParent := true))
    case (WaitForCpu, PickUp) => On(Installed(c, ioFails))
    case (WindedUp, NotifyEvent(b)) => On(c.(bits := c.bits + b, lc := Active))
    case (WindedUp, NotifyTimeout) => On(Removing(c.(bits := c.bits + {Timeout}), ioFails))
    case (WindedUp, NotifyExit) => On(Removing(c.(bits := c.bits + {Exit}), ioFails))
    case (WaitForRemovedThenActive, NotifyAioRemoved) => On(c.(lc := Active))
    case (WaitForRemovedThenActive, NotifyExit) => On(c.(bits := c.bits + {Exit}))
    case (Active, NotifyEvent(b)) => On(c.(bits := c.bits + b))
    case (Active, NotifyExit) => On(c.(bits := c.bits + {Exit}))
    case (Active, RunCb) => On(c.(lc := ExecuteCb))
    case (ExecuteCb, _) => SingleCallback(c, a)
    case (WaitForReinstall, WindUp) => On(Installed(c, ioFails))
    case (WaitForReinstall, NotifyExit) => On(c.(bits := c.bits + {Exit}))
    case (WaitForReinstall, NotifyEvent(b)) => On(c.(bits := c.bits + b))
    case _ => Crash
  }

  function MultiNext(c: Core, a: Action, ioFails: bool): Step {
    match (c.lc, a)
    case (Initial, WindUp) => On(c.(lc := WaitForCpu))
    case (Initial, WindUpRr) => On(c.(lc := WaitForCpu))
    case (WaitForCpu, PickUp) => On(Installed(c, ioFails))
    case (WindedUp, NotifyEvent(b)) => On(c.(bits := c.bits + b, lc := Active))
    case (WindedUp, NotifyExit) => On(c.(bits := c.bits + {Exit}, lc := Active))
    case (Active, NotifyEvent(b)) => On(c.(bits := c.bits + b))
    case (Active, NotifyExit) => On(c.(bits := c.bits + {Exit}))
    case (Active, RunCb) => On(c.(lc := ExecuteCb, bits2 := {}))
    case (ExecuteCb, _) => MultiCallback(c, a, ioFails)
    case (WaitForRemovedAndWindUp, NotifyAioRemoved) => On(c.(lc := WaitForWindUp))
    case (WaitForRemovedAndWindUp, WindUp) => On(c.(lc := WaitForRemoved))
    case (WaitForRemoved, NotifyAioRemoved) => Gone
    case (WaitForRemoved, NotifyExit) => On(c)
    case (WaitForWindUp, WindUp) => Gone
    case (WaitForWindUp, NotifyExit) => On(c)
    case _ => Crash
  }

  function Next(c: Core, a: Action, ioFails: bool): Step {
    match c.kind
    case NoFd => NoFdNext(c, a)
    case SingleShot => SingleNext(c, a, ioFails)
    case MultiShot => MultiNext(c, a, ioFails)
    case HashLock => Elsewhere
  }

  /** The automata in the callback. */
  lemma CallbackNext(c: Core, a: Action, ioFails: bool)
    requires c.lc.ExecuteCb?
    ensures SingleNext(c, a, ioFails) == SingleCallback(c, a)
    ensures MultiNext(c, a, ioFails) == MultiCallback(c, a, ioFails)
  {
    hide SingleCallback, MultiCallback;
  }

  lemma SingleSane(c: Core, a: Action, ioFails: bool)
    requires Sane(c) && c.kind.SingleShot? && SingleNext(c, a, ioFails).On?
    ensures Sane(SingleNext(c, a, ioFails).core)
  {
    match c.lc case _ =>
  }

  lemma MultiSane(c: Core, a: Action, ioFails: bool)
    requires Sane(c) && c.kind.MultiShot? && MultiNext(c, a, ioFails).On?
    ensures Sane(MultiNext(c, a, ioFails).core)
  {
    match c.lc case _ =>
  }

  /** No action takes a session out of what its kind and state allow. */
  lemma NextSane(c: Core, a: Action, ioFails: bool)
    requires Sane(c) && Next(c, a, ioFails).On?
    ensures Sane(Next(c, a, ioFails).core)
  {
    match c.kind
    case NoFd =>
    case SingleShot => SingleSane(c, a, ioFails); hide SingleNext;
    case MultiShot => MultiSane(c, a, ioFails); hide MultiNext;
    case HashLock =>
  }

  /** The timeouts of a session in a list do not change, except to none on the way to the list without. */
  ghost predicate TimeoutsStay(c: Core, n: Core) {
    (n.timeouts != c.timeouts || n.timeoutms != c.timeoutms) ==>
      Where(c) == Where(n) == NOWHERE || (Where(n) == NO_TIME && n.timeouts == n.timeoutms == 0)
  }

  lemma SingleTimeoutsStay(c: Core, a: Action, ioFails: bool)
    requires Sane(c) && c.kind.SingleShot? && SingleNext(c, a, ioFails).On?
    ensures TimeoutsStay(c, SingleNext(c, a, ioFails).core)
  {
    match c.lc case _ =>
  }

  /** The timeouts change only while the session is in no list, or to none as it moves to the
      list without. */
  lemma TimeoutsStayWhileListed(c: Core, a: Action, ioFails: bool)
    requires Sane(c) && Next(c, a, ioFails).On?
    ensures TimeoutsStay(c, Next(c, a, ioFails).core)
  {
    match c.kind
    case NoFd =>
    case SingleShot => SingleTimeoutsStay(c, a, ioFails); hide SingleNext;
    case MultiShot => match c.lc { case _ => }
    case HashLock =>
  }

  /** A session with a parent keeps having one, and an exit ends no session. */
  lemma ActionFacts(c: Core, a: Action, ioFails: bool)
    ensures (a.SetParent? || c.haveParent) && Next(c, a, ioFails).On? ==> Next(c, a, ioFails).core.haveParent
    ensures a.NotifyExit? ==> !Next(c, a, ioFails).Gone?
  {
  }

  lemma ActionSane(c: Core, a: Action, ioFails: bool)
    requires Sane(c)
    ensures Next(c, a, ioFails).On? ==> Sane(Next(c, a, ioFails).core)
    ensures Next(c, a, ioFails).On? && (a.SetParent? || c.haveParent) ==> Next(c, a, ioFails).core.haveParent
  {
    if Next(c, a, ioFails).On? { NextSane(c, a, ioFails); }
    ActionFacts(c, a, ioFails);
  }

  /** The states in which a session does not expect an event: before it is wound up, and while it
      waits for its socket to be given up. */
  predicate RefusesEvents(c: Core) {
    match c.kind
    case NoFd => true
    case SingleShot => c.lc.Initial? || c.lc.WaitForCpu? || c.lc.WaitForRemovedThenActive?
    case MultiShot => c.lc.Initial? || c.lc.WaitForCpu? || c.lc.WaitForRemovedAndWindUp? || c.lc.WaitForRemoved? ||
      c.lc.WaitForWindUp?
    case HashLock => false
  }

  /** Those are exactly the states in which an event, such as the end of a child, makes the process
      exit; in every other one the session goes on. */
  lemma RefusesExactly(c: Core, bits: set<EventBit>, ioFails: bool)
    requires Sane(c)
    ensures Next(c, NotifyEvent(bits), ioFails).Crash? <==> RefusesEvents(c)
    ensures Next(c, NotifyEvent(bits), ioFails).On? <==> !RefusesEvents(c)
  {
    match c.kind
    case NoFd =>
    case SingleShot => match c.lc { case _ => }
    case MultiShot => match c.lc { case _ => }
    case HashLock =>
  }

  /** In its callback, or in the state in which its callback left it, before it is wound up. */
  predicate InCallback(c: Core) {
    c.lc.ExecuteCb? || c.lc.WaitForReinstall? || c.lc.WaitForRemovedAndWindUp?
  }

  /** Nothing but its execution takes a session there, */
  lemma OnlyRunCbCalls(c: Core, a: Action, ioFails: bool)
    ensures !InCallback(c) && !a.RunCb? && Next(c, a, ioFails).On? ==> !InCallback(Next(c, a, ioFails).core)
  {
    match c.kind
    case NoFd =>
    case SingleShot => match c.lc { case _ => }
    case MultiShot => match c.lc { case _ => }
    case HashLock =>
  }

  /** and winding up takes it out again. */
  lemma WindUpReturns(c: Core, ioFails: bool)
    requires Next(c, WindUp, ioFails).On?
    ensures !InCallback(Next(c, WindUp, ioFails).core)
  {
  }

  /** Out of its callback a session that has begun is in a list. */
  lemma ReturnedIsListed(c: Core)
    requires !InCallback(c) && !c.lc.Initial?
    ensures ACTIVE <= Where(c) <= LOCAL_NEW && (c.lc.WaitForCpu? <==> Where(c) == LOCAL_NEW)
  {
  }

  /** A session that may be bundled to a parent, and one that may have it bundled to it. */
  predicate MayBeChild(c: Core) {
    c.kind.SingleShot? && c.lc.Initial? && !c.haveParent
  }

  predicate MayBeParent(c: Core) {
    c.kind.SingleShot? && c.lc.ExecuteCb?
  }

  lemma BundleSteps(child: Core, parent: Core)
    requires Sane(child) && Sane(parent)
    ensures Next(child, SetParent, false) == if MayBeChild(child) then On(child.(haveParent := true)) else Crash
    ensures Next(parent, AddChild, false) == if MayBeParent(parent) then On(parent) else Crash
  {
  }

  /** What a session that ends finds: no parent any more, one the hash-lock automaton has, or one here. */
  datatype Above = None | Away | Here(core: Core)

  /** When an action makes the process exit: its session does not expect it, or ends and has a parent
      that does not expect to be told. What the hash-lock automaton expects is `lockRefuses`. */
  predicate Exits(step: Step, above: Above, lockRefuses: bool) {
    || step.Crash?
    || (step.Gone? && match above {
          case None => false
          case Away => lockRefuses
          case Here(c) => RefusesEvents(c)
        })
  }

  /** A session that was told that a child has ended: its callback will be given the news, and it is active,
      or in its callback. */
  predicate Knows(c: Core) {
    && TaskDone in (if c.kind.MultiShot? && c.lc.ExecuteCb? then c.bits2 else c.bits)
    && (c.lc.Active? || InCallback(c))
  }

  lemma ToldKnows(c: Core, ioFails: bool)
    ensures Next(c, NotifyEvent({TaskDone}), ioFails).On? ==> Knows(Next(c, NotifyEvent({TaskDone}), ioFails).core)
  {
    match c.kind
    case NoFd =>
    case SingleShot => match c.lc { case _ => }
    case MultiShot => match c.lc { case _ => }
    case HashLock =>
  }

  /** An action, and whether the socket layer fails if the action needs it. */
  datatype Input = Ok(action: Action) | IoFails(action: Action)

  /** What a session becomes by a sequence of actions. */
  function Lifetime(c: Core, ins: seq<Input>): Step
    decreases |ins|
  {
    if ins == [] then On(c)
    else match Next(c, ins[0].action, ins[0].IoFails?) {
      case On(n) => Lifetime(n, ins[1..])
      case step => step
    }
  }

  const NEWBORN := Core(NoFd, Initial, 0, 0, 0, {}, {}, false)
  const INSTALL := Ok(AddSockFdSingle(5, 1, 0))
  const UNTIL_CALLBACK := [Ok(WindUp), Ok(PickUp), Ok(NotifyEvent({Read})), Ok(RunCb)]

  lemma LifetimeGoesOn(c: Core, a: Input, rest: seq<Input>, n: Core)
    requires Next(c, a.action, a.IoFails?) == On(n)
    ensures Lifetime(c, [a] + rest) == Lifetime(n, rest)
  {
    assert ([a] + rest)[1..] == rest;
  }

  lemma LifetimeEnds(c: Core)
    ensures Lifetime(c, []) == On(c)
  {
  }

  /** A session up to its callback, with what it does before and after it has joined a worker. */
  lemma UntilCallback(c: Core, rest: seq<Input>)
    requires c.kind.SingleShot? && c.lc.Initial? && c.fd == 5
    ensures Lifetime(c, UNTIL_CALLBACK + rest)
         == Lifetime(c.(lc := ExecuteCb, bits := c.bits + {Read}), rest)
  {
    hide Lifetime;
    var wind, pick, event, run := Ok(WindUp), Ok(PickUp), Ok(NotifyEvent({Read})), Ok(RunCb);
    var c1 := c.(lc := WaitForCpu);
    var c2 := c.(lc := WindedUp);
    var c3 := c.(lc := Active, bits := c.bits + {Read});
    LifetimeGoesOn(c, wind, [pick, event, run] + rest, c1);
    LifetimeGoesOn(c1, pick, [event, run] + rest, c2);
    LifetimeGoesOn(c2, event, [run] + rest, c3);
    LifetimeGoesOn(c3, run, rest, c3.(lc := ExecuteCb));
    assert [wind] + ([pick, event, run] + rest) == UNTIL_CALLBACK + rest;
    assert [pick] + ([event, run] + rest) == [pick, event, run] + rest;
    assert [event] + ([run] + rest) == [event, run] + rest;
  }

  const CHILD_LIFE := [INSTALL, Ok(SetParent)] + (UNTIL_CALLBACK + [Ok(WindUp)])
  const REINSTALLS := [Ok(AddChild), INSTALL, Ok(WindUp), Ok(NotifyTimeout)]
  const PARENT_LIFE := [INSTALL] + (UNTIL_CALLBACK + REINSTALLS)

  lemma ChildLife()
    ensures Lifetime(NEWBORN, CHILD_LIFE).Gone?
  {
    var begun := NEWBORN.(kind := SingleShot, fd := 5, timeouts := 1);
    var child := begun.(haveParent := true);
    var life := UNTIL_CALLBACK + [Ok(WindUp)];
    assert CHILD_LIFE == [INSTALL] + ([Ok(SetParent)] + life);
    LifetimeGoesOn(NEWBORN, INSTALL, [Ok(SetParent)] + life, begun);
    LifetimeGoesOn(begun, Ok(SetParent), life, child);
    UntilCallback(child, [Ok(WindUp)]);
  }

  lemma ParentLife()
    ensures var parent := Lifetime(NEWBORN, PARENT_LIFE);
      parent.On? && parent.core.kind.SingleShot? && parent.core.lc.WaitForRemovedThenActive?
  {
    var begun := NEWBORN.(kind := SingleShot, fd := 5, timeouts := 1);
    var called := begun.(lc := ExecuteCb, bits := begun.bits + {Read});
    LifetimeGoesOn(NEWBORN, INSTALL, UNTIL_CALLBACK + REINSTALLS, begun);
    UntilCallback(begun, REINSTALLS);
    TimedOutAtOnce(called);
  }

  lemma TimedOutAtOnce(called: Core)
    requires called.kind.SingleShot? && called.lc.ExecuteCb?
    ensures var parent := Lifetime(called, REINSTALLS);
      parent.On? && parent.core.kind.SingleShot? && parent.core.lc.WaitForRemovedThenActive?
  {
    hide Lifetime;
    var again := called.(fd := 5, timeouts := 1, timeoutms := 0, lc := WaitForReinstall);
    var waits := again.(lc := WindedUp);
    var add, wind, late := Ok(AddChild), Ok(WindUp), Ok(NotifyTimeout);
    assert REINSTALLS == [add] + [INSTALL, wind, late];
    assert [INSTALL, wind, late] == [INSTALL] + [wind, late];
    assert [wind, late] == [wind] + [late];
    assert [late] == [late] + [];
    LifetimeGoesOn(called, add, [INSTALL, wind, late], called);
    LifetimeGoesOn(called, INSTALL, [wind, late], again);
    LifetimeGoesOn(again, wind, [late], waits);
    LifetimeGoesOn(waits, late, [], Removing(waits.(bits := waits.bits + {Timeout}), false));
    LifetimeEnds(Removing(waits.(bits := waits.bits + {Timeout}), false));
  }

  /** A parent that waits for a socket with a timeout, and whose time is over before its child ends:
      while its socket is being given up the end of the child makes the process exit. */
  lemma ChildEndsTooEarly()
    ensures Lifetime(NEWBORN, CHILD_LIFE).Gone?
    ensures var parent := Lifetime(NEWBORN, PARENT_LIFE);
      && parent.On? && parent.core.lc.WaitForRemovedThenActive?
      && Next(parent.core, NotifyEvent({TaskDone}), false).Crash?
  {
    hide Lifetime;
    ChildLife();
    ParentLife();
  }
}
