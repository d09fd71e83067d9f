/** A worker: what an action does to a session, to the lists, and to the session's parent. */
module Worker {
  import opened SessionCore
  import opened Sequences
  import opened WorkerLists
  import opened WorkerKin

  /** What an automaton asks of its caller. */
  datatype PostOp = NoOp | FreeSession | SwitchType | HandOver | JoinLocalNew | JoinGlobalNew

  class Context {
    var lists: Lists
    /** An action no state expects has made the process exit. */
    var crashed: bool
    ghost var sessions: set<Session>
    /** With those that were handed over to the hash-lock automaton. */
    ghost var alive: set<Session>

    constructor ()
      ensures Valid() && sessions == alive == {} && !crashed
    {
      lists := seq(LISTS, _ => []);
      crashed, sessions, alive := false, {}, {};
    }

    ghost predicate Kept(s: Session)
      reads this, s
    {
      Stands(lists, s, s.Core()) && (s.parent != null ==> s.Core().haveParent)
    }

    /** Every session is in the one list its state implies. */
    ghost predicate Listed()
      reads this, sessions
    {
      Tidy(lists, sessions) && forall s {:trigger Kept(s)} :: s in sessions ==> Kept(s)
    }

    ghost predicate Peopled()
      reads this, alive
    {
      sessions <= alive && forall s :: s in alive && s !in sessions ==> s.kind.HashLock?
    }

    ghost function Kinship(): (f: Bonds)
      reads this`alive, alive`parent, alive`children
      ensures f.Keys == alive
    {
      map s | s in alive :: s.Kin()
    }

    /** Every session is in its list, and parents and children agree. */
    ghost predicate Valid()
      reads this, sessions, alive
    {
      Listed() && Peopled() && Bonded(Kinship())
    }

    method JoinTimingList(s: Session, nowS: int, nowMs: int)
      requires Tidy(lists, sessions) && s in sessions && In(lists, s, NOWHERE)
      modifies this`lists, s`windUpS, s`windUpMs
      ensures Relisted(old(lists), lists, sessions, s, TimingList(s.timeouts, s.timeoutms))
      ensures lists == AtHead(old(lists), TimingList(s.timeouts, s.timeoutms), s) && s.Began() == (nowS, nowMs)
    {
      var i := TimingList(s.timeouts, s.timeoutms);
      HeadRelists(lists, sessions, i, s);
      lists := lists[i := [s] + lists[i]];
      s.windUpS, s.windUpMs := nowS, nowMs;
    }

    method LeftTimingList(s: Session)
      requires Tidy(lists, sessions) && s in sessions && In(lists, s, TimingList(s.timeouts, s.timeoutms))
      modifies this`lists
      ensures Relisted(old(lists), lists, sessions, s, NOWHERE)
    {
      var i := TimingList(s.timeouts, s.timeoutms);
      LeavingRelists(lists, sessions, i, s);
      lists := lists[i := Sans(lists[i], s)];
    }

    method ChangeToNoTimingList(s: Session, nowS: int, nowMs: int)
      requires Tidy(lists, sessions) && s in sessions && In(lists, s, TimingList(s.timeouts, s.timeoutms))
      modifies this`lists, s`timeouts, s`timeoutms, s`windUpS, s`windUpMs
      ensures s.timeouts == s.timeoutms == 0
      ensures Relisted(old(lists), lists, sessions, s, NO_TIME)
    {
      RelistedNot(lists, sessions, s, TimingList(s.timeouts, s.timeoutms));
      if s.timeouts != 0 || s.timeoutms != 0 {
        ghost var was := lists;
        LeftTimingList(s);
        ghost var left := lists;
        s.timeouts := 0;
        s.timeoutms := 0;
        JoinTimingList(s, nowS, nowMs);
        RelistedTwice(was, left, lists, sessions, s, NOWHERE, NO_TIME);
      }
    }

    method JoinActiveList(s: Session)
      requires Tidy(lists, sessions) && s in sessions && In(lists, s, NOWHERE)
      modifies this`lists
      ensures Relisted(old(lists), lists, sessions, s, ACTIVE)
    {
      TailRelists(lists, sessions, ACTIVE, s);
      lists := lists[ACTIVE := lists[ACTIVE] + [s]];
    }

    method LeftActiveList(s: Session)
      requires Tidy(lists, sessions) && s in sessions && In(lists, s, ACTIVE)
      modifies this`lists
      ensures Relisted(old(lists), lists, sessions, s, NOWHERE)
    {
      LeavingRelists(lists, sessions, ACTIVE, s);
      lists := lists[ACTIVE := Sans(lists[ACTIVE], s)];
    }

    /** From a timing list to the end of the active list. */
    method Activate(s: Session)
      requires Tidy(lists, sessions) && s in sessions && In(lists, s, TimingList(s.timeouts, s.timeoutms))
      modifies this`lists
      ensures Relisted(old(lists), lists, sessions, s, ACTIVE)
    {
      ghost var was := lists;
      LeftTimingList(s);
      ghost var left := lists;
      JoinActiveList(s);
      RelistedTwice(was, left, lists, sessions, s, NOWHERE, ACTIVE);
    }

    /** `__install_fd` of both automata. */
    method InstallFd(s: Session, ioFails: bool, nowS: int, nowMs: int)
      requires Tidy(lists, sessions) && s in sessions && In(lists, s, NOWHERE)
      modifies this`lists, s
      ensures s.Kin() == old(s.Kin()) && (s.lc.WindedUp? ==> s.Began() == (nowS, nowMs))
      ensures s.Core() == Installed(old(s.Core()), ioFails)
      ensures Relisted(old(lists), lists, sessions, s, Where(s.Core()))
    {
      if s.fd > 0 {
        if ioFails {
          s.bits := s.bits + {FdError};
          JoinActiveList(s);
          s.lc := Active;
          return;
        }
      }
      JoinTimingList(s, nowS, nowMs);
      s.lc := WindedUp;
    }

    /** `__remove_fd_then_active` */
    method RemoveFdThenActive(s: Session, ioFails: bool, nowS: int, nowMs: int)
      requires Tidy(lists, sessions) && s in sessions && In(lists, s, TimingList(s.timeouts, s.timeoutms))
      modifies this`lists, s
      ensures s.Kin() == old(s.Kin()) && s.Stamped(nowS, nowMs)
      ensures s.Core() == Removing(old(s.Core()), ioFails)
      ensures Relisted(old(lists), lists, sessions, s, Where(s.Core()))
    {
      if s.fd > 0 {
        s.fd := 0;
        if ioFails {
          s.bits := s.bits + {FdError};
          Activate(s);
          s.lc := Active;
        } else {
          ChangeToNoTimingList(s, nowS, nowMs);
          s.lc := WaitForRemovedThenActive;
        }
      } else {
        Activate(s);
        s.lc := Active;
      }
    }

    /** `s` is where its state says; but a session that is picked up has just left its list. */
    ghost predicate Ready(s: Session, a: Action)
      reads this, s
    {
      && s in sessions && Tidy(lists, sessions) && Sane(s.Core()) && !crashed
      && (a.PickUp? ==> s.lc.WaitForCpu?)
      && In(lists, s, if a.PickUp? then NOWHERE else Where(s.Core())) && (s.parent != null ==> s.Core().haveParent)
    }

    /** An automaton has done what `step` says, up to what it asks for by `op`. */
    ghost predicate Followed(step: Step, a: Action, op: PostOp, s: Session)
      reads this, s
    {
      && crashed == step.Crash?
      && (step.Gone? ==> op.FreeSession?)
      && (step.Elsewhere? ==> op.HandOver? && s.kind.HashLock?)
      && (step.On? ==> s.Core() == step.core)
      && (step.On? ==> op == if !s.lc.WaitForCpu? then NoOp else if a.WindUpRr? then JoinGlobalNew else JoinLocalNew)
    }

    /** The single-shot automaton, until the session is picked up. */
    method RunSingleShotNew(s: Session, a: Action, ioFails: bool, nowS: int, nowMs: int) returns (op: PostOp)
      requires Ready(s, a) && s.kind.SingleShot? && (s.lc.Initial? || s.lc.WaitForCpu?)
      modifies this`lists, this`crashed, s
      ensures s.Kin() == old(s.Kin()) && s.Stamped(nowS, nowMs)
      ensures Followed(SingleNext(old(s.Core()), a, ioFails), a, op, s)
      ensures !crashed ==> Relisted(old(lists), lists, sessions, s, if op.NoOp? then Where(s.Core()) else NOWHERE)
    {
      hide Relisted, Tidy, In;
      RelistedNot(lists, sessions, s, if a.PickUp? then NOWHERE else Where(s.Core()));
      op := NoOp;
      match s.lc
      case Initial =>
        if a.WindUp? {
          s.lc := WaitForCpu;
          return JoinLocalNew;
        } else if a.WindUpRr? {
          s.lc := WaitForCpu;
          return JoinGlobalNew;
        } else if a.SetParent? {
          if s.haveParent {
            crashed := true;
          } else {
            s.haveParent := true;
          }
        } else {
          crashed := true;
        }
      case WaitForCpu =>
        if a.PickUp? {
          InstallFd(s, ioFails, nowS, nowMs);
        } else {
          crashed := true;
        }
      case _ =>
        assert false;
    }

    /** The single-shot automaton, from there until the session is active. */
    method RunSingleShotWaiting(s: Session, a: Action, ioFails: bool, nowS: int, nowMs: int) returns (op: PostOp)
      requires Ready(s, a) && s.kind.SingleShot? && (s.lc.WindedUp? || s.lc.WaitForRemovedThenActive?)
      modifies this`lists, this`crashed, s
      ensures s.Kin() == old(s.Kin()) && s.Stamped(nowS, nowMs)
      ensures Followed(SingleNext(old(s.Core()), a, ioFails), a, op, s)
      ensures !crashed ==> Relisted(old(lists), lists, sessions, s, if op.NoOp? then Where(s.Core()) else NOWHERE)
    {
      hide Relisted, Tidy, In;
      RelistedNot(lists, sessions, s, if a.PickUp? then NOWHERE else Where(s.Core()));
      op := NoOp;
      match s.lc
      case WindedUp =>
        if a.NotifyEvent? {
          s.bits := s.bits + a.bits;
          Activate(s);
          s.lc := Active;
        } else if a.NotifyTimeout? {
          s.bits := s.bits + {Timeout};
          RemoveFdThenActive(s, ioFails, nowS, nowMs);
        } else if a.NotifyExit? {
          s.bits := s.bits + {Exit};
          RemoveFdThenActive(s, ioFails, nowS, nowMs);
        } else {
          crashed := true;
        }
      case WaitForRemovedThenActive =>
        if a.NotifyAioRemoved? {
          Activate(s);
          s.lc := Active;
        } else if a.NotifyExit? {
          s.bits := s.bits + {Exit};
        } else {
          crashed := true;
        }
      case _ =>
        assert false;
    }

    /** The single-shot automaton, while the session is active, and behind its callback. */
    method RunSingleShotActive(s: Session, a: Action, ioFails: bool, nowS: int, nowMs: int) returns (op: PostOp)
      requires Ready(s, a) && s.kind.SingleShot? && (s.lc.Active? || s.lc.WaitForReinstall?)
      modifies this`lists, this`crashed, s
      ensures s.Kin() == old(s.Kin()) && s.Stamped(nowS, nowMs)
      ensures Followed(SingleNext(old(s.Core()), a, ioFails), a, op, s)
      ensures !crashed ==> Relisted(old(lists), lists, sessions, s, if op.NoOp? then Where(s.Core()) else NOWHERE)
      ensures a.NotifyExit? && old(s.lc.Active?) ==> lists == old(lists)
    {
      hide Relisted, Tidy, In;
      RelistedNot(lists, sessions, s, if a.PickUp? then NOWHERE else Where(s.Core()));
      op := NoOp;
      if s.lc.Active? {
        if a.NotifyEvent? {
          s.bits := s.bits + a.bits;
        } else if a.NotifyExit? {
          s.bits := s.bits + {Exit};
        } else if a.RunCb? {
          LeftActiveList(s);
          s.lc := ExecuteCb;
        } else {
          crashed := true;
        }
      } else {
        if a.WindUp? {
          InstallFd(s, ioFails, nowS, nowMs);
        } else if a.NotifyExit? {
          s.bits := s.bits + {Exit};
        } else if a.NotifyEvent? {
          s.bits := s.bits + a.bits;
        } else {
          crashed := true;
        }
      }
    }

    /** The single-shot automaton, in the callback. */
    method RunSingleShotCallback(s: Session, a: Action, ioFails: bool) returns (op: PostOp)
      requires Ready(s, a) && s.kind.SingleShot? && s.lc.ExecuteCb?
      modifies this`crashed, s
      ensures s.Kin() == old(s.Kin()) && !s.lc.WindedUp?
      ensures if a.AddSockFdMulti? then op.SwitchType? && s.Core() == old(s.Core()).(kind := MultiShot) && !crashed
              else Followed(SingleNext(old(s.Core()), a, ioFails), a, op, s)
      ensures !crashed ==> Relisted(lists, lists, sessions, s, if op.NoOp? then Where(s.Core()) else NOWHERE)
    {
      hide Relisted, Tidy, In, SingleNext;
      CallbackNext(s.Core(), a, ioFails);
      RelistedNot(lists, sessions, s, NOWHERE);
      op := NoOp;
      if a.WindUp? {
        return FreeSession;
      } else if a.AddSockFdMulti? {
        s.kind := MultiShot;
        return SwitchType;
      } else if a.AddChild? {
      } else if a.AddSockFdSingle? {
        s.fd := a.fd;
        s.timeouts := a.timeouts;
        s.timeoutms := a.timeoutms;
        s.lc := WaitForReinstall;
      } else if a.NotifyExit? {
        s.bits := s.bits + {Exit};
      } else if a.NotifyEvent? {
        s.bits := s.bits + a.bits;
      } else if a.HashLockWrite? {
        s.kind := HashLock;
        return HandOver;
      } else if a.HashLockRead? {
        s.kind := HashLock;
        return FreeSession;
      } else {
        crashed := true;
      }
    }

    /** The single-shot automaton. */
    method RunSingleShot(s: Session, a: Action, ioFails: bool, nowS: int, nowMs: int) returns (op: PostOp)
      requires Ready(s, a) && s.kind.SingleShot?
      modifies this`lists, this`crashed, s
      ensures s.Kin() == old(s.Kin()) && s.Stamped(nowS, nowMs)
      ensures if old(s.lc.ExecuteCb?) && a.AddSockFdMulti?
              then op.SwitchType? && s.Core() == old(s.Core()).(kind := MultiShot) && !crashed
              else Followed(SingleNext(old(s.Core()), a, ioFails), a, op, s)
      ensures !crashed ==> Relisted(old(lists), lists, sessions, s, if op.NoOp? then Where(s.Core()) else NOWHERE)
      ensures a.NotifyExit? && old(s.lc.Active?) ==> lists == old(lists)
    {
      hide Relisted, Tidy, In, SingleNext;
      if s.lc.ExecuteCb? {
        op := RunSingleShotCallback(s, a, ioFails);
      } else if s.lc.Active? || s.lc.WaitForReinstall? {
        op := RunSingleShotActive(s, a, ioFails, nowS, nowMs);
      } else if s.lc.WindedUp? || s.lc.WaitForRemovedThenActive? {
        op := RunSingleShotWaiting(s, a, ioFails, nowS, nowMs);
      } else {
        op := RunSingleShotNew(s, a, ioFails, nowS, nowMs);
      }
    }

    /** The multi-shot automaton, until the callback runs. */
    method RunMultiShotWaiting(s: Session, a: Action, ioFails: bool, nowS: int, nowMs: int) returns (op: PostOp)
      requires Ready(s, a) && s.kind.MultiShot? && (s.lc.Initial? || s.lc.WaitForCpu? || s.lc.WindedUp? || s.lc.Active?)
      modifies this`lists, this`crashed, s
      ensures s.Kin() == old(s.Kin()) && s.Stamped(nowS, nowMs)
      ensures Followed(MultiNext(old(s.Core()), a, ioFails), a, op, s)
      ensures !crashed ==> Relisted(old(lists), lists, sessions, s, if op.NoOp? then Where(s.Core()) else NOWHERE)
      ensures a.NotifyExit? && old(s.lc.Active?) ==> lists == old(lists)
    {
      hide Relisted, Tidy, In;
      RelistedNot(lists, sessions, s, if a.PickUp? then NOWHERE else Where(s.Core()));
      op := NoOp;
      match s.lc
      case Initial =>
        if a.WindUp? {
          s.lc := WaitForCpu;
          return JoinLocalNew;
        } else if a.WindUpRr? {
          s.lc := WaitForCpu;
          return JoinGlobalNew;
        } else {
          crashed := true;
        }
      case WaitForCpu =>
        if a.PickUp? {
          InstallFd(s, ioFails, nowS, nowMs);
        } else {
          crashed := true;
        }
      case WindedUp =>
        if a.NotifyEvent? {
          s.bits := s.bits + a.bits;
          Activate(s);
          s.lc := Active;
        } else if a.NotifyExit? {
          s.bits := s.bits + {Exit};
          Activate(s);
          s.lc := Active;
        } else {
          crashed := true;
        }
      case Active =>
        if a.NotifyEvent? {
          s.bits := s.bits + a.bits;
        } else if a.NotifyExit? {
          s.bits := s.bits + {Exit};
        } else if a.RunCb? {
          LeftActiveList(s);
          s.bits2 := {};
          s.lc := ExecuteCb;
        } else {
          crashed := true;
        }
      case _ =>
        assert false;
    }

    /** The multi-shot automaton, in the callback. */
    method RunMultiShotCallback(s: Session, a: Action, ioFails: bool, nowS: int, nowMs: int) returns (op: PostOp)
      requires Ready(s, a) && s.kind.MultiShot? && s.lc.ExecuteCb?
      modifies this`lists, this`crashed, s
      ensures s.Kin() == old(s.Kin()) && s.Stamped(nowS, nowMs)
      ensures Followed(MultiNext(old(s.Core()), a, ioFails), a, op, s)
      ensures !crashed ==> Relisted(old(lists), lists, sessions, s, if op.NoOp? then Where(s.Core()) else NOWHERE)
    {
      hide Relisted, Tidy, In, MultiNext;
      CallbackNext(s.Core(), a, ioFails);
      RelistedNot(lists, sessions, s, NOWHERE);
      op := NoOp;
      if a.WindUp? {
        if s.fd != 0 {
          if s.bits2 != {} {
            s.bits := s.bits2;
            JoinActiveList(s);
            s.lc := Active;
          } else {
            JoinTimingList(s, nowS, nowMs);
            s.lc := WindedUp;
          }
        } else {
          return FreeSession;
        }
      } else if a.RemoveFd? {
        if s.fd > 0 {
          s.fd := 0;
          if ioFails {
            s.bits2 := s.bits2 + {FdError};
          } else {
            JoinTimingList(s, nowS, nowMs);
            s.lc := WaitForRemovedAndWindUp;
          }
        } else {
          s.fd := 0;
        }
      } else if a.NotifyEvent? {
        s.bits2 := s.bits2 + a.bits;
      } else if a.NotifyExit? {
        s.bits2 := s.bits2 + {Exit};
      } else {
        crashed := true;
      }
    }

    /** The multi-shot automaton, after the socket was given up. */
    method RunMultiShotRemoved(s: Session, a: Action, ioFails: bool) returns (op: PostOp)
      requires Ready(s, a) && s.kind.MultiShot?
      requires s.lc.WaitForRemovedAndWindUp? || s.lc.WaitForRemoved? || s.lc.WaitForWindUp?
      modifies this`lists, this`crashed, s
      ensures s.Kin() == old(s.Kin()) && !s.lc.WindedUp?
      ensures Followed(MultiNext(old(s.Core()), a, ioFails), a, op, s)
      ensures !crashed ==> Relisted(old(lists), lists, sessions, s, if op.NoOp? then Where(s.Core()) else NOWHERE)
    {
      hide Relisted, Tidy, In;
      RelistedNot(lists, sessions, s, NO_TIME);
      op := NoOp;
      match s.lc
      case WaitForRemovedAndWindUp =>
        if a.NotifyAioRemoved? {
          s.lc := WaitForWindUp;
        } else if a.WindUp? {
          s.lc := WaitForRemoved;
        } else {
          crashed := true;
        }
      case WaitForRemoved =>
        if a.NotifyAioRemoved? {
          LeftTimingList(s);
          return FreeSession;
        } else if a.NotifyExit? {
        } else {
          crashed := true;
        }
      case WaitForWindUp =>
        if a.WindUp? {
          LeftTimingList(s);
          return FreeSession;
        } else if a.NotifyExit? {
        } else {
          crashed := true;
        }
      case _ =>
        assert false;
    }

    /** The multi-shot automaton. */
    method RunMultiShot(s: Session, a: Action, ioFails: bool, nowS: int, nowMs: int) returns (op: PostOp)
      requires Ready(s, a) && s.kind.MultiShot?
      modifies this`lists, this`crashed, s
      ensures s.Kin() == old(s.Kin()) && s.Stamped(nowS, nowMs)
      ensures Followed(MultiNext(old(s.Core()), a, ioFails), a, op, s)
      ensures !crashed ==> Relisted(old(lists), lists, sessions, s, if op.NoOp? then Where(s.Core()) else NOWHERE)
      ensures a.NotifyExit? && old(s.lc.Active?) ==> lists == old(lists)
    {
      hide Relisted, Tidy, In, MultiNext;
      if s.lc.Initial? || s.lc.WaitForCpu? || s.lc.WindedUp? || s.lc.Active? {
        op := RunMultiShotWaiting(s, a, ioFails, nowS, nowMs);
      } else if s.lc.ExecuteCb? {
        op := RunMultiShotCallback(s, a, ioFails, nowS, nowMs);
      } else {
        op := RunMultiShotRemoved(s, a, ioFails);
      }
    }

    ghost predicate OthersKept(s: Session)
      reads this, sessions
    {
      forall x {:trigger Kept(x)} :: x in sessions && x != s ==> Kept(x)
    }

    /** A session without a socket yet. */
    method RunNoFd(s: Session, a: Action) returns (op: PostOp)
      requires s.kind.NoFd?
      modifies this`crashed, s`kind
      ensures !crashed ==> match NoFdNext(old(s.Core()), a) {
        case Gone => op.FreeSession? && s.kind.NoFd?
        case Elsewhere => op.HandOver? && s.kind.HashLock?
        case Crash => old(crashed)
        case On(c) => op.SwitchType? && s.kind == c.kind && (a.AddSockFdMulti? || a.AddSockFdSingle?)
      }
      ensures crashed <==> old(crashed) || NoFdNext(old(s.Core()), a).Crash?
    {
      op := NoOp;
      if a.WindUp? {
        op := FreeSession;
      } else if a.AddSockFdMulti? {
        s.kind := MultiShot;
        op := SwitchType;
      } else if a.AddSockFdSingle? {
        s.kind := SingleShot;
        op := SwitchType;
      } else if a.HashLockRead? || a.HashLockWrite? {
        s.kind := HashLock;
        op := HandOver;
      } else {
        crashed := true;
      }
    }

    /** The beginning of an automaton, after the type of a session has been switched. */
    method Begin(s: Session, a: Action)
      requires a.AddSockFdMulti? || a.AddSockFdSingle?
      modifies s
      ensures s.Kin() == old(s.Kin())
      ensures s.Core() == old(s.Core()).(lc := Initial, bits := {}, fd := if a.AddSockFdMulti? then a.multiFd else a.fd,
        timeouts := if a.AddSockFdMulti? then 0 else a.timeouts,
        timeoutms := if a.AddSockFdMulti? then 0 else a.timeoutms)
    {
      s.lc := Initial;
      if a.AddSockFdMulti? {
        s.fd := a.multiFd;
        s.timeouts := 0;
        s.timeoutms := 0;
      } else {
        s.fd := a.fd;
        s.timeouts := a.timeouts;
        s.timeoutms := a.timeoutms;
      }
      s.bits := {};
    }

    /** What the automaton of the session's type, and after a switch the next one, makes of an action. */
    method RunAutomaton(s: Session, a: Action, ioFails: bool, nowS: int, nowMs: int) returns (op: PostOp)
      requires Ready(s, a)
      modifies this`lists, this`crashed, s
      ensures s.Kin() == old(s.Kin()) && s.Stamped(nowS, nowMs)
      ensures Followed(Next(old(s.Core()), a, ioFails), a, op, s)
      ensures !crashed ==> Relisted(old(lists), lists, sessions, s, if op.NoOp? then Where(s.Core()) else NOWHERE)
      ensures a.NotifyExit? && old(s.lc.Active?) ==> lists == old(lists)
    {
      hide Relisted, Tidy, In, SingleNext, MultiNext;
      RelistedNot(lists, sessions, s, if a.PickUp? then NOWHERE else Where(s.Core()));
      ghost var c := s.Core();
      if s.kind.NoFd? {
        op := RunNoFd(s, a);
        if !crashed && op.SwitchType? {
          Begin(s, a);
          op := NoOp;
        }
      } else if s.kind.SingleShot? {
        op := RunSingleShot(s, a, ioFails, nowS, nowMs);
        if !crashed && op.SwitchType? {
          SwitchInCallback(c, a, ioFails);
          Begin(s, a);
          op := NoOp;
        }
      } else {
        op := RunMultiShot(s, a, ioFails, nowS, nowMs);
      }
    }

    method JoinNew(s: Session, i: nat, ghost ls: Lists)
      requires (i == LOCAL_NEW || i == GLOBAL_NEW) && s in sessions && Relisted(ls, lists, sessions, s, NOWHERE)
      modifies this`lists
      ensures Relisted(ls, lists, sessions, s, LOCAL_NEW) && s in lists[i]
    {
      ghost var left := lists;
      TailRelists(lists, sessions, i, s);
      lists := lists[i := lists[i] + [s]];
      RelistedTwice(ls, left, lists, sessions, s, NOWHERE, LOCAL_NEW);
    }

    method JoinNewLists(s: Session, op: PostOp, ghost ls: Lists)
      requires s in sessions && !op.SwitchType? && (op.JoinLocalNew? || op.JoinGlobalNew? ==> s.lc.WaitForCpu?)
      requires Relisted(ls, lists, sessions, s, if op.NoOp? then Where(s.Core()) else NOWHERE)
      modifies this`lists
      ensures Relisted(ls, lists, sessions, s, if op.FreeSession? || op.HandOver? then NOWHERE else Where(s.Core()))
      ensures op.NoOp? ==> lists == old(lists)
      ensures |lists| == LISTS && (op.JoinLocalNew? ==> s in lists[LOCAL_NEW]) &&
        (op.JoinGlobalNew? ==> s in lists[GLOBAL_NEW])
    {
      hide Relisted;
      if op.JoinGlobalNew? {
        JoinNew(s, GLOBAL_NEW, ls);
      } else if op.JoinLocalNew? {
        JoinNew(s, LOCAL_NEW, ls);
      }
      RelistedSize(ls, lists, sessions, s, if op.FreeSession? || op.HandOver? then NOWHERE else Where(s.Core()));
    }

    /** A session that has become a new one is in the list for what wound it up. */
    ghost predicate Queued(s: Session, a: Action)
      reads this`lists, s`lc
    {
      s.lc.WaitForCpu? ==> |lists| == LISTS && s in lists[if a.WindUpRr? then GLOBAL_NEW else LOCAL_NEW]
    }

    /** The automata, and the lists of new sessions. */
    method RunAndJoin(s: Session, a: Action, ioFails: bool, nowS: int, nowMs: int) returns (op: PostOp)
      requires Ready(s, a) && OthersKept(s)
      modifies this`lists, this`crashed, s
      ensures s.Kin() == old(s.Kin()) && s.Stamped(nowS, nowMs) && Followed(Next(old(s.Core()), a, ioFails), a, op, s)
      ensures !crashed ==>
        Relisted(old(lists), lists, sessions, s, if op.FreeSession? || op.HandOver? then NOWHERE else Where(s.Core()))
      ensures !crashed ==> OthersKept(s)
      ensures Next(old(s.Core()), a, ioFails).On? ==> Queued(s, a)
      ensures a.NotifyExit? && old(s.lc.Active?) ==> lists == old(lists)
    {
      ghost var ls := lists;
      op := RunAutomaton(s, a, ioFails, nowS, nowMs);
      if !crashed {
        hide Session.Core, Next, Tidy, In, OnlyMoves;
        JoinNewLists(s, op, ls);
        forall x | x in sessions && x != s ensures Kept(x) {
          assert old(Kept(x));
        }
      }
    }

    /** A session that is freed or handed over is none of the worker's any more. */
    ghost method Depart(s: Session, op: PostOp)
      requires Tidy(lists, sessions) && Peopled() && s in sessions && OthersKept(s) &&
        (op.HandOver? ==> s.kind.HashLock?)
      requires if op.FreeSession? || op.HandOver? then In(lists, s, NOWHERE) else Kept(s)
      modifies this`sessions, this`alive
      ensures Listed() && Peopled()
      ensures sessions == if op.FreeSession? || op.HandOver? then old(sessions) - {s} else old(sessions)
      ensures alive == if op.FreeSession? then old(alive) - {s} else old(alive)
      ensures Kinship() == if op.FreeSession? then old(Kinship()) - {s} else old(Kinship())
    {
      hide Stands, Tidy, In, Session.Core;
      if op.FreeSession? || op.HandOver? {
        GoneTidy(lists, sessions, s);
        sessions := sessions - {s};
        alive := if op.FreeSession? then alive - {s} else alive;
      }
      forall x | x in sessions ensures Kept(x) {
        assert old(Kept(x));
      }
    }

    /** The dispatch of an action, and the lists of new sessions. */
    method Dispatch(s: Session, a: Action, ioFails: bool, nowS: int, nowMs: int) returns (op: PostOp)
      requires Ready(s, a) && OthersKept(s) && Peopled()
      modifies this, s
      ensures s.Kin() == old(s.Kin()) && s.Stamped(nowS, nowMs)
      ensures crashed == Next(old(s.Core()), a, ioFails).Crash?
      ensures !crashed ==> Listed() && Peopled() && OnlyMoves(old(lists), lists, s)
      ensures !crashed ==> (op.FreeSession? <==> Next(old(s.Core()), a, ioFails).Gone?)
      ensures !crashed && s in sessions && (s.parent != null || a.SetParent?) ==> s.Core().haveParent
      ensures Kinship() == if Next(old(s.Core()), a, ioFails).Gone? then old(Kinship()) - {s} else old(Kinship())
      ensures a.NotifyExit? && old(s.lc.Active?) ==> lists == old(lists)
      ensures Next(old(s.Core()), a, ioFails).On? ==> s.Core() == Next(old(s.Core()), a, ioFails).core && Queued(s, a)
      ensures sessions ==
        if Next(old(s.Core()), a, ioFails).Gone? || Next(old(s.Core()), a, ioFails).Elsewhere?
        then old(sessions) - {s} else old(sessions)
      ensures alive == if Next(old(s.Core()), a, ioFails).Gone? then old(alive) - {s} else old(alive)
    {
      hide Session.Core, Next, Sane, Where, Kinship;
      ghost var c := s.Core();
      ActionSane(c, a, ioFails);
      op := RunAndJoin(s, a, ioFails, nowS, nowMs);
      assert Kinship() == old(Kinship());
      if !crashed {
        assert op.FreeSession? || op.HandOver? || Kept(s);
        hide Stands, Kept, Tidy, OnlyMoves, In, Listed;
        Depart(s, op);
      }
    }

    /** `esq_unhook_child_session`: the children lose their parent. */
    method Unhook(s: Session)
      requires s !in s.children
      modifies s`children, s.children`parent
      ensures s.children == [] && forall c :: c in old(s.children) ==> c.parent == null
    {
      var children, i := s.children, 0;
      while i < |children|
        invariant i <= |children| && forall j :: 0 <= j < i ==> children[j].parent == null
      {
        children[i].parent := null;
        i := i + 1;
      }
      s.children := [];
    }

    ghost function AboveOf(parent: Session?): Above
      reads parent
    {
      if parent == null then None else if parent.kind.HashLock? then Away else Here(parent.Core())
    }

    ghost function Heirs(s: Session, a: Action, ioFails: bool): set<Session>
      reads s
    {
      if Next(s.Core(), a, ioFails).Gone? && s.parent != null then {s.parent} else {}
    }

    ghost function Orphans(s: Session, a: Action, ioFails: bool): set<Session>
      reads s
    {
      if Next(s.Core(), a, ioFails).Gone? then set c | c in s.children else {}
    }

    /** The parent of a session that has ended knows it, and is where it belongs then. */
    ghost predicate Told(ls: Lists, s: Session, p: Session?, above: Above, ioFails: bool)
      reads this, p
    {
      && p != null && p in sessions && above.Here?
      && var step := Next(above.core, NotifyEvent({TaskDone}), ioFails);
        step.On? && p.Core() == step.core && Knows(p.Core()) && OnlyMoves(Departed(ls, s), lists, p)
    }

    /** What is left of a session that has ended: children, and a parent to tell. */
    ghost predicate Leaving(s: Session, parent: Session?, f: Bonds)
      reads this, s, alive
    {
      s !in alive && Bonded(f) && s in f && s.Kin() == f[s] && s.parent == parent && Kinship() == f - {s} &&
        f.Keys == alive + {s}
    }

    ghost predicate KinParted(f: Bonds, s: Session)
      reads this`alive, alive`parent, alive`children
    {
      s in f && f.Keys == alive + {s} && s !in alive && forall x :: x in alive ==> x.Kin() == PartedAt(f, s, x)
    }

    /** The children lose their parent, and the parent a child. */
    method CutKin(s: Session, parent: Session?, ghost f: Bonds)
      requires Leaving(s, parent, f)
      modifies s`children, s.children`parent, Just(parent)`children
      ensures KinParted(f, s) && forall x :: x in alive ==> x.parent == null || x.parent == old(x.parent)
    {
      assert BondOk(f, s);
      assert forall x :: x in alive ==> x.Kin() == f[x];
      Unhook(s);
      assert forall x :: x in alive ==>
        x.Kin() == Bond(if x in f[s].children then null else f[x].parent, f[x].children);
      if parent != null {
        parent.children := Sans(parent.children, s);
      }
    }

    method LeaveKin(s: Session, parent: Session?, ghost f: Bonds)
      requires Listed() && Peopled() && Leaving(s, parent, f)
      modifies s`children, s.children`parent, Just(parent)`children
      ensures Listed() && Peopled() && Kinship() == Parted(f, s) && AboveOf(parent) == old(AboveOf(parent))
    {
      hide Session.Core, Stands, PartedAt, Bonded;
      label L: CutKin(s, parent, f);
      forall x | x in sessions ensures Kept(x) {
        assert old@L(Kept(x));
      }
      assert Kinship() == Parted(f, s);
    }

    /** The children are left, and the parent is told. */
    method TakeLeave(s: Session, parent: Session?, ioFails: bool, lockRefuses: bool, nowS: int, nowMs: int,
        ghost ls: Lists,
                     ghost f: Bonds, ghost above: Above)
      requires !crashed && Listed() && Peopled() && Leaving(s, parent, f) && OnlyMoves(ls, lists, s) &&
        above == AboveOf(parent)
      modifies this, s`children, s.children`parent, parent
      ensures sessions == old(sessions) && alive == old(alive)
      ensures crashed == Exits(Gone, above, lockRefuses)
      ensures !crashed ==> Listed() && Peopled() && Kinship() == Parted(f, s)
      ensures !above.Here? ==> lists == old(lists)
      ensures !crashed && above.Here? ==> Told(ls, s, parent, above, ioFails)
    {
      hide Session.Core, Parted, Bonded, BondOk, Kinship, Next, RefusesEvents, Departed, OnlyMoves, Listed, Peopled;
      KinAfterFacts(f, s, WindUp, null, Gone);
      LeaveKin(s, parent, f);
      if parent != null {
        if parent.kind.HashLock? {
          crashed := lockRefuses;
        } else {
          TellParent(s, parent, ioFails, nowS, nowMs, ls);
        }
      }
    }

    method TellParent(s: Session, parent: Session, ioFails: bool, nowS: int, nowMs: int, ghost ls: Lists)
      requires !crashed && Listed() && Peopled() && parent in alive && !parent.kind.HashLock? && s !in alive &&
        OnlyMoves(ls, lists, s)
      modifies this, parent
      ensures sessions == old(sessions) && alive == old(alive) && Kinship() == old(Kinship())
      ensures crashed == RefusesEvents(old(parent.Core()))
      ensures !crashed ==> Listed() && Peopled() && Told(ls, s, parent, Here(old(parent.Core())), ioFails)
    {
      hide Session.Core, Kinship, Next, RefusesEvents, Departed, OnlyMoves, Tidy, In, Sane, Where;
      assert Kept(parent);
      RefusesExactly(parent.Core(), {TaskDone}, ioFails);
      ToldKnows(parent.Core(), ioFails);
      DepartedIs(ls, lists, sessions, s);
      var _ := Dispatch(parent, NotifyEvent({TaskDone}), ioFails, nowS, nowMs);
    }

    /** The two actions of a bundling write the links of the session that takes them. */
    method SetKin(s: Session, a: Action, peer: Session?, ghost f: Bonds)
      requires Listed() && Peopled() && s in alive && f == Kinship() && (a.SetParent? || a.AddChild? ==> peer != null)
      requires s in sessions && (s.parent != null || a.SetParent?) ==> s.Core().haveParent
      modifies s`parent, s`children
      ensures Listed() && Peopled() && s.Core() == old(s.Core())
      ensures Kinship() == KinAfter(f, s, a, peer, On(s.Core()))
    {
      hide Session.Core, Stands;
      if a.SetParent? {
        s.parent := peer;
      } else if a.AddChild? {
        s.children := [peer] + s.children;
      }
      forall x | x in sessions ensures Kept(x) {
        assert old(Kept(x));
      }
    }

    /** What follows the dispatch: a session that has ended takes leave, another one may have new kin. */
    method Settle(s: Session, a: Action, peer: Session?, ended: bool, parent: Session?, ioFails: bool,
        lockRefuses: bool,
                  nowS: int, nowMs: int, ghost ls: Lists, ghost f: Bonds, ghost above: Above, ghost step: Step)
      requires !crashed && Listed() && Peopled() && s in f && OnlyMoves(ls, lists, s) && step.Gone? == ended &&
        !step.Crash?
      requires if ended then Leaving(s, parent, f) && above == AboveOf(parent) else s in alive && f == Kinship()
      requires s in sessions && (s.parent != null || a.SetParent?) ==> s.Core().haveParent
      requires a.SetParent? || a.AddChild? ==> peer != null
      modifies this, s`parent, s`children, if ended then Just(parent) else {}
      modifies (if ended then set c | c in s.children else {})`parent
      ensures !ended ==> s.Core() == old(s.Core())
      ensures sessions == old(sessions) && alive == old(alive)
      ensures crashed == Exits(step, above, lockRefuses)
      ensures !crashed ==> Listed() && Peopled() && Kinship() == KinAfter(f, s, a, peer, step)
      ensures !(step.Gone? && above.Here?) ==> lists == old(lists)
      ensures !crashed && step.Gone? && above.Here? ==> Told(ls, s, parent, above, ioFails)
    {
      hide Session.Core, Listed, Peopled, Kinship, OnlyMoves, Parted, Told, RefusesEvents;
      if ended {
        TakeLeave(s, parent, ioFails, lockRefuses, nowS, nowMs, ls, f, above);
      } else {
        SetKin(s, a, peer, f);
      }
    }

    /** `__esq_session_take_action`. A session that ends leaves its children without a parent and tells
        its own one, which becomes active; no other session moves. `peer` is the session an action is about. */
    method TakeAction(s: Session, a: Action, peer: Session?, ioFails: bool, lockRefuses: bool, nowS: int, nowMs: int)
      requires Ready(s, a) && OthersKept(s) && Peopled() && (a.SetParent? || a.AddChild? ==> peer != null)
      requires Next(s.Core(), a, ioFails).Gone? ==> Bonded(Kinship())
      modifies this, s, Heirs(s, a, ioFails), Orphans(s, a, ioFails)`parent
      ensures var step, above := Next(old(s.Core()), a, ioFails), old(AboveOf(s.parent));
        && crashed == Exits(step, above, lockRefuses)
        && (!crashed ==> Listed() && Peopled() && Kinship() == KinAfter(old(Kinship()), s, a, peer, step))
        && (!crashed && old(Bonded(Kinship())) && !a.SetParent? && !a.AddChild? ==> Valid())
        && (!crashed && !(step.Gone? && above.Here?) ==> OnlyMoves(old(lists), lists, s))
        && (!crashed && step.Gone? && above.Here? ==> Told(old(lists), s, old(s.parent), above, ioFails))
        && (step.On? ==> s.Core() == step.core && s.Stamped(nowS, nowMs) && Queued(s, a))
        && sessions == (if step.Gone? || step.Elsewhere? then old(sessions) - {s} else old(sessions))
        && alive == (if step.Gone? then old(alive) - {s} else old(alive))
      ensures a.NotifyExit? && old(s.lc.Active?) ==> lists == old(lists)
    {
      ghost var f, ls, step, above := Kinship(), lists, Next(s.Core(), a, ioFails), AboveOf(s.parent);
      var parent := s.parent;
      assert s in alive && f[s] == s.Kin();
      ActionFacts(s.Core(), a, ioFails);
      KinAfterFacts(f, s, a, peer, step);
      hide Session.Core, AboveOf, KinAfter, Kinship, Sans, BondOk, Bonded, Next, Tidy, Stands, OnlyMoves, Parted,
        RefusesEvents, Knows;
      var op := Dispatch(s, a, ioFails, nowS, nowMs);
      hide Listed, Peopled, Kept;
      if !crashed {
        Settle(s, a, peer, op.FreeSession?, parent, ioFails, lockRefuses, nowS, nowMs, ls, f, above, step);
      }
    }

    /** `esq_session_new`: a session that is in no list yet. */
    method NewSession() returns (s: Session)
      requires Valid() && !crashed
      modifies this`sessions, this`alive
      ensures Valid() && fresh(s) && sessions == old(sessions) + {s} && alive == old(alive) + {s} && s.Core() == NEWBORN
    {
      s := new Session();
      BornBonded(Kinship(), s);
      ghost var f := Kinship();
      sessions, alive := sessions + {s}, alive + {s};
      assert Kinship() == f[s := Bond(null, [])];
      assert Kept(s);
      forall x | x in sessions && x != s ensures Kept(x) {
        assert old(Kept(x));
      }
    }

    /** The child's half of a bundling. */
    method GiveParent(child: Session, parent: Session)
      requires Valid() && !crashed && parent in sessions && child in sessions
      modifies this, child
      ensures crashed == !MayBeChild(old(child.Core()))
      ensures !crashed ==> Listed() && Peopled() && sessions == old(sessions) && alive == old(alive)
      ensures !crashed ==> child.Core() == old(child.Core()).(haveParent := true)
      ensures !crashed ==> Kinship() == var f := old(Kinship()); f[child := f[child].(parent := parent)]
    {
      hide Session.Core, Next, Bonded, Sane, Where, In, Tidy, Kinship, MayBeChild, MayBeParent;
      assert Kept(child);
      BundleSteps(child.Core(), child.Core());
      TakeAction(child, SetParent, parent, false, false, 0, 0);
    }

    /** The parent's half. */
    method GiveChild(parent: Session, child: Session)
      requires Listed() && Peopled() && !crashed && parent in sessions && child in sessions
      modifies this, parent
      ensures crashed == !MayBeParent(old(parent.Core()))
      ensures !crashed ==> Listed() && Peopled() && sessions == old(sessions) && alive == old(alive)
      ensures !crashed ==> parent.Core() == old(parent.Core())
      ensures !crashed ==>
        Kinship() == var f := old(Kinship()); f[parent := f[parent].(children := [child] + f[parent].children)]
    {
      hide Session.Core, Next, Bonded, Sane, Where, In, Tidy, Kinship, MayBeChild, MayBeParent;
      assert Kept(parent);
      BundleSteps(parent.Core(), parent.Core());
      TakeAction(parent, AddChild, child, false, false, 0, 0);
    }

    /** `esq_session_bundle_child`: the child must not have begun, the parent be in its callback. */
    method BundleChild(parent: Session, child: Session)
      requires Valid() && !crashed && parent in sessions && child in sessions
      modifies this, parent, child
      ensures crashed == !(MayBeChild(old(child.Core())) && MayBeParent(old(parent.Core())))
      ensures !crashed ==> Valid() && sessions == old(sessions) && alive == old(alive) && parent != child
      ensures !crashed ==> Kinship() == Adopted(old(Kinship()), parent, child)
      ensures !crashed ==> child.parent == parent && parent.children == [child] + old(parent.children)
      ensures !crashed ==> child.Core() == old(child.Core()).(haveParent := true) && parent.Core() == old(parent.Core())
    {
      ghost var f := Kinship();
      assert Kept(child) && (MayBeChild(child.Core()) ==> f[child].parent == null);
      GiveParent(child, parent);
      if !crashed {
        assert parent == child ==> !MayBeParent(parent.Core());
        hide Session.Core, Listed, Peopled, MayBeChild, MayBeParent;
        GiveChild(parent, child);
        if !crashed {
          AdoptedBonded(f, parent, child);
          assert Kinship() == Adopted(f, parent, child);
        }
      }
    }

    /** Takes the first session of a list of new ones and lets it go to work. It never is one that
        does not expect it. */
    method PickUpFirst(i: nat, ioFails: bool, nowS: int, nowMs: int) returns (found: bool)
      requires Valid() && !crashed && (i == LOCAL_NEW || i == GLOBAL_NEW)
      modifies this, if lists[i] == [] then {} else {lists[i][0]}
      ensures Valid() && !crashed && sessions == old(sessions) && alive == old(alive)
      ensures found <==> |old(lists)| == LISTS && old(lists)[i] != []
      ensures found ==> var s := old(lists)[i][0];
        && s in sessions && s.Core() == Installed(old(lists[i][0].Core()), ioFails) && lists[i] == old(lists)[i][1..]
        && s.Stamped(nowS, nowMs)
    {
      if lists[i] == [] {
        return false;
      }
      var s := lists[i][0];
      assert Kept(s) && s.lc.WaitForCpu?;
      PickUpAccepted(s.Core(), ioFails);
      InstalledElsewhere(s.Core(), ioFails);
      label L: TakeOut(i);
      ghost var left := lists;
      hide Session.Core, Next, Tidy, Where, Sane, Relisted;
      TakeAction(s, PickUp, null, ioFails, false, nowS, nowMs);
      assert Kept(s);
      assert MovesAt(left, lists, s, i);
      Unlisted(left, lists, s, i);
      return true;
    }

    /** The first session leaves a list of new ones. */
    method TakeOut(i: nat)
      requires Valid() && !crashed && (i == LOCAL_NEW || i == GLOBAL_NEW) && lists[i] != []
      modifies this`lists
      ensures |lists| == LISTS && lists[i] == old(lists)[i][1..] && OthersKept(old(lists)[i][0]) &&
        Ready(old(lists)[i][0], PickUp)
      ensures Peopled() && Bonded(Kinship()) && Kinship() == old(Kinship())
    {
      var s := lists[i][0];
      assert Kept(s);
      FirstLeaves(lists, sessions, i);
      lists := lists[i := lists[i][1..]];
      forall x | x in sessions && x != s ensures Kept(x) {
        assert old(Kept(x));
      }
    }
  }

  lemma PickUpAccepted(c: SessionCore.Core, ioFails: bool)
    requires Sane(c) && c.lc.WaitForCpu?
    ensures Next(c, PickUp, ioFails) == On(Installed(c, ioFails))
  {
  }

  lemma InstalledElsewhere(c: SessionCore.Core, ioFails: bool)
    ensures Where(Installed(c, ioFails)) != LOCAL_NEW
  {
  }

  lemma SwitchInCallback(c: SessionCore.Core, a: Action, ioFails: bool)
    requires c.kind.SingleShot? && c.lc.ExecuteCb? && a.AddSockFdMulti?
    ensures Next(c, a, ioFails) == On(MultiStart(c, a.multiFd))
  {
  }
}
