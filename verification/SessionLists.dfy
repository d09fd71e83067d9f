/** The doubly linked lists of sessions. A session carries its own links, so it is in one
    list at most. */
module SessionLists {
  import opened Sequences

  class Session {
    var prev: Session?
    var next: Session?

    constructor ()
      ensures prev == null && next == null
    {
      prev, next := null, null;
    }
  }

  function Front(s: seq<Session>): Session? { if s == [] then null else s[0] }
  function Back(s: seq<Session>): Session? { if s == [] then null else s[|s| - 1] }

  class List {
    var head: Session?
    var tail: Session?
    ghost var items: seq<Session>

    /** The links of the `i`-th session lead to its neighbours. */
    ghost predicate LinkedAt(i: nat)
      reads this, items`prev, items`next
    {
      && i < |items|
      && items[i].prev == (if i == 0 then null else items[i - 1])
      && items[i].next == (if i == |items| - 1 then null else items[i + 1])
    }

    ghost predicate Valid()
      reads this, items`prev, items`next
    {
      && head == Front(items) && tail == Back(items) && Distinct(items)
      && forall i {:trigger LinkedAt(i)} :: 0 <= i < |items| ==> LinkedAt(i)
    }

    constructor ()
      ensures Valid() && items == []
    {
      head, tail, items := null, null, [];
    }

    /** `DOUBLE_LL_JOIN_HEAD` */
    method JoinHead(node: Session)
      requires Valid() && node !in items
      modifies this, node`prev, node`next, items`prev
      ensures Valid() && items == [node] + old(items)
    {
      ghost var was := items;
      node.prev := null;
      if head != null {
        node.next := head;
        head.prev := node;
        head := node;
      } else {
        node.next := null;
        head := node;
        tail := node;
      }
      items := [node] + items;
      forall i | 0 <= i < |items| ensures LinkedAt(i) {
        if i > 0 { assert items[i] == was[i - 1] && old(LinkedAt(i - 1)); }
      }
    }

    /** `DOUBLE_LL_JOIN_TAIL` */
    method JoinTail(node: Session)
      requires Valid() && node !in items
      modifies this, node`prev, node`next, items`next
      ensures Valid() && items == old(items) + [node]
    {
      ghost var was := items;
      node.next := null;
      if tail != null {
        node.prev := tail;
        tail.next := node;
        tail := node;
      } else {
        node.prev := null;
        head := node;
        tail := node;
      }
      items := items + [node];
      forall i | 0 <= i < |items| ensures LinkedAt(i) {
        if i < |was| { assert items[i] == was[i] && old(LinkedAt(i)); }
      }
    }

    /** `DOUBLE_LL_LEFT` */
    method Left(node: Session, ghost k: nat)
      requires Valid() && k < |items| && items[k] == node
      modifies this, items`prev, items`next
      ensures Valid() && items == old(items)[..k] + old(items)[k + 1..]
    {
      ghost var was := items;
      assert old(LinkedAt(k));
      if node.prev != null {
        if node.next != null {
          node.prev.next := node.next;
          node.next.prev := node.prev;
        } else {
          node.prev.next := null;
          tail := node.prev;
        }
      } else {
        if node.next != null {
          node.next.prev := null;
          head := node.next;
        } else {
          head := null;
          tail := null;
        }
      }
      items := items[..k] + items[k + 1..];
      forall i | 0 <= i < |items| ensures LinkedAt(i) {
        var j := if i < k then i else i + 1;
        assert items[i] == was[j] && old(LinkedAt(j));
      }
    }
  }

  /** A list of new sessions: joined at the tail, popped at the head, linked one way. */
  class Queue {
    var head: Session?
    var tail: Session?
    ghost var items: seq<Session>

    ghost predicate LinkedAt(i: nat)
      reads this, items`next
    {
      i < |items| && items[i].next == (if i == |items| - 1 then null else items[i + 1])
    }

    ghost predicate Valid()
      reads this, items`next
    {
      && head == Front(items) && tail == Back(items) && Distinct(items)
      && forall i {:trigger LinkedAt(i)} :: 0 <= i < |items| ==> LinkedAt(i)
    }

    constructor ()
      ensures Valid() && items == []
    {
      head, tail, items := null, null, [];
    }

    method Join(session: Session)
      requires Valid() && session !in items
      modifies this, session`prev, session`next, items`next
      ensures Valid() && items == old(items) + [session]
    {
      ghost var was := items;
      session.prev := null;
      session.next := null;
      if tail != null {
        tail.next := session;
        tail := session;
      } else {
        head := session;
        tail := session;
      }
      items := items + [session];
      forall i | 0 <= i < |items| ensures LinkedAt(i) {
        if i < |was| { assert items[i] == was[i] && old(LinkedAt(i)); }
      }
    }

    method Pop() returns (session: Session?)
      requires Valid()
      modifies this
      ensures Valid() && (session == null <==> old(items) == [])
      ensures session != null ==> session == old(items)[0] && items == old(items)[1..]
      ensures session == null ==> items == []
    {
      session := head;
      if head != null {
        ghost var was := items;
        assert LinkedAt(0);
        if head.next != null {
          head := head.next;
        } else {
          head := null;
          tail := null;
        }
        items := items[1..];
        forall i | 0 <= i < |items| ensures LinkedAt(i) {
          assert items[i] == was[i + 1] && old(LinkedAt(i + 1));
        }
      }
    }
  }

  /** A list is as it was if nothing of it was written. */
  twostate lemma Untouched(l: List)
    requires old(l.Valid()) && unchanged(l) && forall x :: x in l.items ==> unchanged(x)
    ensures l.Valid()
  {
    forall i | 0 <= i < |l.items| ensures l.LinkedAt(i) {
      assert old(l.LinkedAt(i)) && l.items[i] in l.items;
    }
  }

  lemma TakenOut(was: seq<Session>, s: Session) returns (k: nat)
    requires Distinct(was) && s in was
    ensures k < |was| && was[k] == s && was[..k] + was[k + 1..] == Sans(was, s)
    ensures forall x :: x in Sans(was, s) <==> x in was && x != s
  {
    k :| 0 <= k < |was| && was[k] == s;
    assert was == was[..k] + [s] + was[k + 1..];
    SansMiddle(was[..k], s, was[k + 1..]);
    forall x ensures x in Sans(was, s) <==> x in was && x != s {
      SansMember(was, s, x);
    }
  }

  /** What a visit makes of a session: it stays, or leaves its list for the head of one or the tail of another. */
  datatype Move = Stay | ToHead(to: nat) | ToTail(to: nat)

  predicate Fits(m: Move, n: nat, i: nat) {
    match m
    case Stay => true
    case ToHead(to) => to < n
    case ToTail(to) => to < n && to != i
  }

  ghost function Moved(ls: seq<seq<Session>>, i: nat, x: Session, m: Move): (r: seq<seq<Session>>)
    requires i < |ls| && Fits(m, |ls|, i)
    ensures |r| == |ls|
  {
    match m
    case Stay => ls
    case ToHead(to) => AtHead(Leaving(ls, i, x), to, x)
    case ToTail(to) => AtTail(Leaving(ls, i, x), to, x)
  }

  ghost predicate AllFit(xs: seq<Session>, moves: map<Session, Move>, n: nat, i: nat) {
    forall k :: 0 <= k < |xs| ==> xs[k] in moves && Fits(moves[xs[k]], n, i)
  }

  /** The lists after visits of these sessions of list `i`, one after the other. */
  ghost function MovedAll(ls: seq<seq<Session>>, i: nat, xs: seq<Session>, moves: map<Session, Move>)
    : (r: seq<seq<Session>>)
    requires i < |ls| && AllFit(xs, moves, |ls|, i)
    ensures |r| == |ls|
  {
    if xs == [] then ls
    else
      var x, before := xs[|xs| - 1], xs[..|xs| - 1];
      Moved(MovedAll(ls, i, before, moves), i, x, moves[x])
  }

  lemma FitsHere(xs: seq<Session>, moves: map<Session, Move>, n: nat, i: nat, k: nat)
    requires AllFit(xs, moves, n, i) && k <= |xs|
    ensures AllFit(xs[..k], moves, n, i) && (k < |xs| ==> xs[k] in moves && Fits(moves[xs[k]], n, i))
  {
  }

  lemma OneVisit(ls: seq<seq<Session>>, i: nat, xs: seq<Session>, moves: map<Session, Move>, k: nat)
    requires k < |xs| && i < |ls| && AllFit(xs, moves, |ls|, i)
    ensures AllFit(xs[..k], moves, |ls|, i) && AllFit(xs[..k + 1], moves, |ls|, i)
    ensures xs[k] in moves && Fits(moves[xs[k]], |ls|, i)
    ensures MovedAll(ls, i, xs[..k + 1], moves) == Moved(MovedAll(ls, i, xs[..k], moves), i, xs[k], moves[xs[k]])
  {
    hide Moved, AllFit;
    FitsHere(xs, moves, |ls|, i, k);
    FitsHere(xs, moves, |ls|, i, k + 1);
    assert xs[..k + 1][..k] == xs[..k];
  }

  /** Behind the visited session its list still is as it was. */
  lemma MovedEnds(ls: seq<seq<Session>>, i: nat, was: seq<Session>, k: nat, m: Move)
    requires i < |ls| && Fits(m, |ls|, i) && EndsWith(ls[i], was, k) && k < |was| && Distinct(ls[i])
    ensures EndsWith(Moved(ls, i, was[k], m)[i], was, k + 1)
  {
    hide Sans, Distinct;
    var l, p := ls[i], was[k];
    var a, b := l[..|l| - (|was| - k)], was[k + 1..];
    InMiddle(l, was, k);
    SansMiddle(a, p, b);
    EndsWithBoth(a, p, b);
  }

  /** Those of `xs` whose visit makes them leave their list. */
  ghost function Leavers(xs: seq<Session>, moves: map<Session, Move>): set<Session>
    requires forall k :: 0 <= k < |xs| ==> xs[k] in moves
  {
    set k | 0 <= k < |xs| && moves[xs[k]] != Stay :: xs[k]
  }

  /** A sweep that takes nothing back to its list leaves there exactly those that stay, in order. */
  lemma {:induction false} SweptRest(ls: seq<seq<Session>>, i: nat, xs: seq<Session>, moves: map<Session, Move>)
    requires i < |ls| && AllFit(xs, moves, |ls|, i) && forall k :: 0 <= k < |xs| ==> moves[xs[k]] != ToHead(i)
    ensures MovedAll(ls, i, xs, moves)[i] == Without(ls[i], Leavers(xs, moves))
  {
    hide Sans, Without;
    if xs == [] {
      WithoutNothing(ls[i]);
      assert Leavers(xs, moves) == {};
    } else {
      var x, before := xs[|xs| - 1], xs[..|xs| - 1];
      SweptRest(ls, i, before, moves);
      WithoutAnother(ls[i], Leavers(before, moves), x);
      OneLeaver(xs, moves);
    }
  }

  lemma OneLeaver(xs: seq<Session>, moves: map<Session, Move>)
    requires xs != [] && forall k :: 0 <= k < |xs| ==> xs[k] in moves
    ensures var x, before := xs[|xs| - 1], xs[..|xs| - 1];
      Leavers(xs, moves) == if moves[x] == Stay then Leavers(before, moves) else Leavers(before, moves) + {x}
  {
  }

  /** Several lists of sessions, as a worker has them: each session is in one of them at most. */
  class Lists {
    const lists: seq<List>
    ghost var sessions: set<Session>

    ghost predicate Apart()
      reads this, lists
    {
      && (forall i, j :: 0 <= i < j < |lists| ==> lists[i] != lists[j])
      && (forall i, x :: 0 <= i < |lists| && x in lists[i].items ==> x in sessions)
      && (forall i, j, x :: 0 <= i < |lists| && 0 <= j < |lists| && x in lists[i].items && x in lists[j].items ==>
        i == j)
    }

    ghost predicate Valid()
      reads this, lists, sessions
    {
      Apart() && forall i {:trigger lists[i]} :: 0 <= i < |lists| ==> lists[i].Valid()
    }

    ghost function View(): (ls: seq<seq<Session>>)
      reads lists
      ensures |ls| == |lists| && forall i :: 0 <= i < |ls| ==> ls[i] == lists[i].items
    {
      seq(|lists|, i requires 0 <= i < |lists| reads lists => lists[i].items)
    }

    constructor (empty: seq<List>, ghost all: set<Session>)
      requires Distinct(empty) && forall l :: l in empty ==> l.Valid() && l.items == []
      ensures Valid() && lists == empty && sessions == all
    {
      lists, sessions := empty, all;
    }

    ghost predicate Nowhere(s: Session)
      reads this, lists
    {
      s in sessions && forall i :: 0 <= i < |lists| ==> s !in lists[i].items
    }

    method JoinHead(i: nat, s: Session)
      requires Valid() && i < |lists| && Nowhere(s)
      modifies lists[i], s, lists[i].items
      ensures Valid() && View() == AtHead(old(View()), i, s)
    {
      label L: lists[i].JoinHead(s);
      forall j | 0 <= j < |lists| && j != i ensures lists[j].Valid() {
        assert old@L(lists[j].Valid());
        Untouched@L(lists[j]);
      }
    }

    method JoinTail(i: nat, s: Session)
      requires Valid() && i < |lists| && Nowhere(s)
      modifies lists[i], s, lists[i].items
      ensures Valid() && View() == AtTail(old(View()), i, s)
    {
      label L: lists[i].JoinTail(s);
      forall j | 0 <= j < |lists| && j != i ensures lists[j].Valid() {
        assert old@L(lists[j].Valid());
        Untouched@L(lists[j]);
      }
    }

    method Left(i: nat, s: Session)
      requires Valid() && i < |lists| && s in lists[i].items
      modifies lists[i], lists[i].items
      ensures Valid() && View() == Leaving(old(View()), i, s) && Nowhere(s)
    {
      hide Sans, Distinct;
      ghost var k := TakenOut(lists[i].items, s);
      label L: lists[i].Left(s, k);
      forall j | 0 <= j < |lists| && j != i ensures lists[j].Valid() {
        assert old@L(lists[j].Valid());
        Untouched@L(lists[j]);
      }
    }

    method MoveOne(i: nat, s: Session, m: Move)
      requires Valid() && i < |lists| && s in lists[i].items && Fits(m, |lists|, i)
      modifies lists, sessions
      ensures Valid() && View() == Moved(old(View()), i, s, m)
    {
      hide Sans;
      assert s in sessions && lists[i] in lists && forall x :: x in lists[i].items ==> x in sessions;
      match m
      case Stay =>
      case ToHead(to) =>
        Left(i, s);
        assert lists[to] in lists && forall x :: x in lists[to].items ==> x in sessions;
        JoinHead(to, s);
      case ToTail(to) =>
        Left(i, s);
        assert lists[to] in lists && forall x :: x in lists[to].items ==> x in sessions;
        JoinTail(to, s);
    }

    lemma NextOf(i: nat, was: seq<Session>, k: nat)
      requires Valid() && i < |lists| && EndsWith(lists[i].items, was, k) && k < |was|
      ensures was[k] in lists[i].items && was[k].next == if k + 1 < |was| then was[k + 1] else null
    {
      var l := lists[i].items;
      var n := |l| - (|was| - k);
      assert l[n] == l[n..][0] == was[k..][0];
      if k + 1 < |was| { assert l[n + 1] == l[n..][1] == was[k..][1]; }
      assert lists[i].LinkedAt(n);
    }

    /** The sweeps of a worker: the link to the next session is read before the visit, which may take
        the visited one to another list or back to the head of this one. Each session that was in the
        list is visited, once and in order. */
    method Sweep(i: nat, moves: map<Session, Move>) returns (ghost visited: seq<Session>)
      requires Valid() && i < |lists| && AllFit(lists[i].items, moves, |lists|, i)
      modifies lists, sessions
      ensures Valid() && visited == old(lists[i].items) && AllFit(visited, moves, |lists|, i)
      ensures View() == MovedAll(old(View()), i, visited, moves)
    {
      hide MovedAll, Moved, EndsWith, AllFit, Fits;
      ghost var was, ls := lists[i].items, View();
      ghost var k := 0;
      var p := lists[i].head;
      SweepStarts(ls, i, moves);
      FitsHere(was, moves, |ls|, i, 0);
      assert p == if 0 < |was| then was[0] else null;
      hide Apart, List.Valid;
      while p != null
        invariant k <= |was| && p == (if k < |was| then was[k] else null)
        invariant Valid() && EndsWith(lists[i].items, was, k) && AllFit(was[..k], moves, |ls|, i)
        invariant View() == MovedAll(ls, i, was[..k], moves)
        decreases |was| - k
      {
        p := Visit(i, p, moves, was, k, ls);
        k := k + 1;
      }
      visited := was;
      assert was[..k] == was;
    }

    /** One round of a sweep. */
    method Visit(i: nat, p: Session, moves: map<Session, Move>, ghost was: seq<Session>, ghost k: nat,
                 ghost ls: seq<seq<Session>>) returns (next: Session?)
      requires Valid() && i < |lists| == |ls| && k < |was| && p == was[k] && AllFit(was, moves, |ls|, i)
      requires EndsWith(lists[i].items, was, k) && AllFit(was[..k], moves, |ls|, i)
      requires View() == MovedAll(ls, i, was[..k], moves)
      modifies lists, sessions
      ensures Valid() && next == (if k + 1 < |was| then was[k + 1] else null)
      ensures EndsWith(lists[i].items, was, k + 1) && AllFit(was[..k + 1], moves, |ls|, i)
      ensures View() == MovedAll(ls, i, was[..k + 1], moves)
    {
      hide MovedAll, Moved, EndsWith, AllFit, Fits, Apart, Sans;
      OneVisit(ls, i, was, moves, k);
      NextOf(i, was, k);
      assert Distinct(lists[i].items) by { assert lists[i].Valid(); }
      hide List.Valid, Distinct;
      MovedEnds(View(), i, was, k, moves[p]);
      next := p.next;
      MoveOne(i, p, moves[p]);
    }
  }

  lemma SweepStarts(ls: seq<seq<Session>>, i: nat, moves: map<Session, Move>)
    requires i < |ls|
    ensures ls[i][..0] == [] && EndsWith(ls[i], ls[i], 0)
    ensures AllFit([], moves, |ls|, i) && MovedAll(ls, i, [], moves) == ls
  {
    assert ls[i][0..] == ls[i];
  }
}
