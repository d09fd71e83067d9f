/** What the ring of log buffers amounts to: a bounded queue of chunks between the producers
    and the disk, and what every run of it keeps. */
module LogQueue {
  import opened Bytes

  const BUFFERS := 4
  const BUFFER_SIZE := 4096

  /** Where the one worker stands in flushing a buffer: it writes outside the lock. */
  datatype Phase = Idle | Writing | Written

  datatype Outcome = Closed | Busy | Again | BadParam | TooLong | Logged

  /** The chunks in the order they go to disk. `sealed` says that the last one takes no more. */
  datatype Queue = Queue(chunks: seq<seq<byte>>, sealed: bool, phase: Phase,
                         disk: seq<byte>, accepted: seq<byte>, stopped: bool)

  const START := Queue([], false, Idle, [], [], false)

  /** The chunk a message is to go to: a new one behind a sealed one. */
  function Opened(q: Queue): Queue {
    if q.chunks == [] || q.sealed then q.(chunks := q.chunks + [[]], sealed := false) else q
  }

  /** What the lock protects in one pass of a producer's loop; `msg` is the formatted text. */
  function Pass(q: Queue, msg: seq<byte>): (Queue, Outcome) {
    if q.stopped then (q, Closed)
    else if q.sealed && |q.chunks| >= BUFFERS then (q, Busy)
    else
      var o := Opened(q);
      var last := |o.chunks| - 1;
      if msg == [] then (o, BadParam)
      else if |msg| < BUFFER_SIZE - |o.chunks[last]| then
        (o.(chunks := o.chunks[last := o.chunks[last] + msg], accepted := o.accepted + msg), Logged)
      else if |msg| >= BUFFER_SIZE then (o, TooLong)
      else (o.(sealed := true), Again)
  }

  /** The worker picks the oldest chunk; an empty one it leaves where it is. */
  function Begun(q: Queue): Queue {
    if q.chunks == [] then q
    else q.(sealed := q.sealed || |q.chunks| == 1, phase := if q.chunks[0] == [] then Idle else Writing)
  }

  function WrittenOut(q: Queue): Queue {
    if q.chunks == [] then q else q.(disk := q.disk + q.chunks[0], phase := Written)
  }

  function Ended(q: Queue): Queue {
    if q.chunks == [] then q else q.(chunks := q.chunks[1..], sealed := q.sealed && |q.chunks| > 1, phase := Idle)
  }

  function Flat(chunks: seq<seq<byte>>): seq<byte> {
    if chunks == [] then [] else chunks[0] + Flat(chunks[1..])
  }

  /** What was accepted and is not on disk. */
  function Pending(q: Queue): seq<byte> {
    if q.phase.Written? && q.chunks != [] then Flat(q.chunks[1..]) else Flat(q.chunks)
  }

  ghost predicate Sound(q: Queue) {
    && |q.chunks| <= BUFFERS
    && (q.chunks == [] ==> !q.sealed && q.phase.Idle?)
    && (!q.phase.Idle? ==> q.chunks[0] != [] && (|q.chunks| == 1 ==> q.sealed))
    && (forall k :: 0 <= k < |q.chunks| ==> |q.chunks[k]| < BUFFER_SIZE)
    && (forall k :: 0 < k < |q.chunks| && q.chunks[k] == [] ==> k == |q.chunks| - 1 && !q.sealed)
  }

  /** Nothing is lost, doubled or out of order. */
  ghost predicate Conserved(q: Queue) {
    q.disk + Pending(q) == q.accepted
  }

  /** The steps of producers, the worker and the one who stops them. */
  datatype Event = Log(msg: seq<byte>) | Begin | Write | End | Stop

  function Step(q: Queue, e: Event): Queue {
    match e
    case Log(msg) => Pass(q, msg).0
    case Begin => if q.phase.Idle? then Begun(q) else q
    case Write => if q.phase.Writing? then WrittenOut(q) else q
    case End => if q.phase.Written? then Ended(q) else q
    case Stop => q.(stopped := true)
  }

  function Run(q: Queue, es: seq<Event>): Queue
    decreases |es|
  {
    if es == [] then q else Run(Step(q, es[0]), es[1..])
  }

  lemma {:induction false} FlatAppend(a: seq<seq<byte>>, b: seq<seq<byte>>)
    ensures Flat(a + b) == Flat(a) + Flat(b)
  {
    if a == [] {
      assert a + b == b;
    } else {
      FlatAppend(a[1..], b);
      assert (a + b)[1..] == a[1..] + b && (a + b)[0] == a[0];
      Associate(a[0], Flat(a[1..]), Flat(b));
    }
  }

  lemma Associate(a: seq<byte>, b: seq<byte>, c: seq<byte>)
    ensures a + (b + c) == (a + b) + c
  {
  }

  lemma FlatOne(c: seq<byte>)
    ensures Flat([c]) == c
  {
    assert [c][1..] == [];
  }

  lemma FlatLast(s: seq<seq<byte>>, c: seq<byte>)
    requires s != []
    ensures Flat(s[|s| - 1 := c]) == Flat(s[..|s| - 1]) + c
  {
    FlatAppend(s[..|s| - 1], [c]);
    FlatOne(c);
    assert s[|s| - 1 := c] == s[..|s| - 1] + [c];
  }

  lemma OpenedKeeps(q: Queue)
    requires Sound(q) && !(q.sealed && |q.chunks| >= BUFFERS)
    ensures Sound(Opened(q)) && Pending(Opened(q)) == Pending(q) && Opened(q).chunks != []
    ensures q.phase.Written? ==> |Opened(q).chunks| > 1
  {
    FlatAppend(q.chunks, [[]]);
    FlatOne([]);
    if q.phase.Written? {
      FlatAppend(q.chunks[1..], [[]]);
      assert (q.chunks + [[]])[1..] == q.chunks[1..] + [[]];
    }
  }

  /** A message goes to the end of what is pending. */
  lemma LastGrows(q: Queue, msg: seq<byte>)
    requires q.chunks != [] && (q.phase.Written? ==> |q.chunks| > 1)
    ensures var last := |q.chunks| - 1;
      Pending(q.(chunks := q.chunks[last := q.chunks[last] + msg])) == Pending(q) + msg
  {
    hide Flat;
    var last := |q.chunks| - 1;
    var t := q.chunks[last := q.chunks[last] + msg];
    if q.phase.Written? {
      assert t[1..] == q.chunks[1..][last - 1 := q.chunks[1..][last - 1] + msg];
      LastOf(q.chunks[1..], msg);
    } else {
      LastOf(q.chunks, msg);
    }
  }

  lemma LastOf(s: seq<seq<byte>>, msg: seq<byte>)
    requires s != []
    ensures Flat(s[|s| - 1 := s[|s| - 1] + msg]) == Flat(s) + msg
  {
    hide Flat;
    var end := |s| - 1;
    FlatLast(s, s[end] + msg);
    FlatLast(s, s[end]);
    assert s[end := s[end]] == s;
    Associate(Flat(s[..end]), s[end], msg);
  }

  lemma PassAppends(q: Queue, msg: seq<byte>)
    requires Sound(q)
    ensures var (o, r) := Pass(q, msg);
      && Sound(o) && o.disk == q.disk && o.phase == q.phase
      && Pending(o) == Pending(q) + (if r.Logged? then msg else [])
      && o.accepted == q.accepted + (if r.Logged? then msg else [])
  {
    hide Flat, Pending, Opened;
    if !q.stopped && !(q.sealed && |q.chunks| >= BUFFERS) {
      OpenedSame(q);
      OpenedKeeps(q);
      LastGrows(Opened(q), msg);
      var o := Opened(q);
      SameChunks(o.(chunks := o.chunks[|o.chunks| - 1 := o.chunks[|o.chunks| - 1] + msg]));
    }
    SameChunks(Opened(q));
    assert Pending(q) + [] == Pending(q) && q.accepted + [] == q.accepted;
  }

  /** The bytes the producer's buffer still has room for, its terminating zero included. */
  function Space(q: Queue): int {
    if q.chunks == [] || q.sealed then BUFFER_SIZE else BUFFER_SIZE - |q.chunks[|q.chunks| - 1]|
  }

  /** What a producer is told: that the log is closed, or has no buffer to spare, whatever the message;
      else that there is nothing to log, or too much for any buffer, or that it fits, or fits the next. */
  lemma PassAnswers(q: Queue, msg: seq<byte>)
    requires Sound(q)
    ensures var (o, r) := Pass(q, msg);
      && (r.Closed? <==> q.stopped)
      && (r.Busy? <==> !q.stopped && q.sealed && |q.chunks| == 4)
      && (!r.Closed? && !r.Busy? ==>
           && (r.BadParam? <==> |msg| == 0) && (r.TooLong? <==> |msg| >= 4096)
           && (r.Logged? <==> 0 < |msg| < Space(q)) && (r.Again? <==> Space(q) <= |msg| < 4096))
  {
  }

  /** Whoever is sent round again is logged in the next pass, or waits for a buffer. */
  lemma AgainOnce(q: Queue, msg: seq<byte>)
    requires Sound(q) && Pass(q, msg).1.Again?
    ensures var (o, r) := Pass(Pass(q, msg).0, msg); r.Logged? || (r.Busy? && |o.chunks| == 4)
  {
    PassAppends(q, msg);
    PassAnswers(q, msg);
    PassAnswers(Pass(q, msg).0, msg);
  }

  /** A chunk that is closed stays as it is and closed, until it has been written or a new one is behind it. */
  lemma ClosedStays(q: Queue, e: Event)
    requires Sound(q) && q.sealed
    ensures var n := Step(q, e);
      || (n.chunks == q.chunks && n.sealed)
      || (q.chunks != [] && n.chunks == q.chunks[1..] && (n.sealed || n.chunks == []))
      || (|n.chunks| == |q.chunks| + 1 && n.chunks[..|q.chunks|] == q.chunks)
  {
    hide Flat;
  }

  lemma OpenedSame(q: Queue)
    ensures var o := Opened(q); o.disk == q.disk && o.phase == q.phase && o.accepted == q.accepted
  {
  }

  /** What is pending is told by the chunks and the phase. */
  lemma SameChunks(q: Queue)
    ensures forall p: Queue {:trigger Pending(p)} ::
      p.chunks == q.chunks && p.phase == q.phase ==> Pending(p) == Pending(q)
  {
  }

  lemma StepKeeps(q: Queue, e: Event)
    requires Sound(q) && Conserved(q)
    ensures Sound(Step(q, e)) && Conserved(Step(q, e))
  {
    hide Sound, Conserved, Pass, Begun, WrittenOut, Ended;
    match e
    case Log(msg) => LogKeeps(q, msg);
    case Begin => if q.phase.Idle? { BeginKeeps(q); }
    case Write => if q.phase.Writing? { WriteKeeps(q); }
    case End => if q.phase.Written? { EndKeeps(q); }
    case Stop => StopKeeps(q);
  }

  lemma LogKeeps(q: Queue, msg: seq<byte>)
    requires Sound(q) && Conserved(q)
    ensures Sound(Pass(q, msg).0) && Conserved(Pass(q, msg).0)
  {
    hide Sound, Pass, Pending;
    PassAppends(q, msg);
    var more := if Pass(q, msg).1.Logged? then msg else [];
    Associate(q.disk, Pending(q), more);
  }

  lemma BeginKeeps(q: Queue)
    requires Sound(q) && Conserved(q) && q.phase.Idle?
    ensures Sound(Begun(q)) && Conserved(Begun(q))
  {
    hide Flat;
  }

  lemma WriteKeeps(q: Queue)
    requires Sound(q) && Conserved(q) && q.phase.Writing?
    ensures Sound(WrittenOut(q)) && Conserved(WrittenOut(q))
  {
    hide Flat;
    FlatFirst(q.chunks);
    Associate(q.disk, q.chunks[0], Flat(q.chunks[1..]));
  }

  lemma FlatFirst(chunks: seq<seq<byte>>)
    requires chunks != []
    ensures Flat(chunks) == chunks[0] + Flat(chunks[1..])
  {
  }

  lemma EndKeeps(q: Queue)
    requires Sound(q) && Conserved(q) && q.phase.Written?
    ensures Sound(Ended(q)) && Conserved(Ended(q))
  {
    hide Flat;
  }

  lemma StopKeeps(q: Queue)
    requires Sound(q) && Conserved(q)
    ensures Sound(q.(stopped := true)) && Conserved(q.(stopped := true))
  {
    hide Flat;
  }

  /** Whatever the interleaving: the disk holds the accepted messages in the order they were
      accepted, up to what is still in the buffers, in order. */
  lemma {:induction false} RunKeeps(q: Queue, es: seq<Event>)
    requires Sound(q) && Conserved(q)
    ensures Sound(Run(q, es)) && Conserved(Run(q, es))
    decreases |es|
  {
    if es == [] {
    } else {
      StepKeeps(q, es[0]);
      RunKeeps(Step(q, es[0]), es[1..]);
    }
  }

  lemma EveryRun(es: seq<Event>)
    ensures Sound(Run(START, es)) && Conserved(Run(START, es))
  {
    RunKeeps(START, es);
  }

  /** One call of the flush, with no producer in between. */
  function Flush(q: Queue): Queue {
    Step(Step(Step(q, Begin), Write), End)
  }

  function Flushes(q: Queue, n: nat): Queue
    decreases n
  {
    if n == 0 then q else Flushes(Flush(q), n - 1)
  }

  /** An empty chunk was picked, or others stand behind it: the worker never gets past it. */
  ghost predicate Stuck(q: Queue) {
    q.chunks != [] && q.chunks[0] == [] && (|q.chunks| > 1 || q.sealed)
  }

  lemma StuckStays(q: Queue, e: Event)
    requires Sound(q) && Stuck(q)
    ensures Sound(Step(q, e)) && Stuck(Step(q, e)) && Step(q, e).disk == q.disk
  {
  }

  /** Nothing reaches the disk any more, whatever is logged. */
  lemma {:induction false} StuckForEver(q: Queue, es: seq<Event>)
    requires Sound(q) && Stuck(q)
    ensures Stuck(Run(q, es)) && Run(q, es).disk == q.disk
    decreases |es|
  {
    if es == [] {
    } else {
      StuckStays(q, es[0]);
      StuckForEver(Step(q, es[0]), es[1..]);
    }
  }

  lemma FlushTakesOne(q: Queue)
    requires Sound(q) && Conserved(q) && q.phase.Idle?
    ensures var p := Flush(q);
      && Sound(p) && Conserved(p) && p.phase.Idle? && p.accepted == q.accepted
      && p.chunks == (if q.chunks == [] || q.chunks[0] == [] then q.chunks else q.chunks[1..])
  {
    StepKeeps(q, Begin);
    StepKeeps(Step(q, Begin), Write);
    StepKeeps(Step(Step(q, Begin), Write), End);
  }

  lemma {:induction false} FlushesTakeAll(q: Queue, n: nat)
    requires Sound(q) && Conserved(q) && q.phase.Idle? && (|q.chunks| <= n || q.chunks[0] == [])
    ensures var p := Flushes(q, n);
      && Conserved(p) && p.phase.Idle? && p.accepted == q.accepted
      && (Flat(p.chunks) == [] <==> Flat(q.chunks) == [] || q.chunks[0] != [])
    decreases n
  {
    if n == 0 {
    } else {
      hide Flush, Conserved, Flat;
      FlushTakesOne(q);
      FlushesTakeAll(Flush(q), n - 1);
      if q.chunks != [] && q.chunks[0] != [] { TakenFlat(q); }
    }
  }

  /** Behind a chunk that is not empty nothing is left to write, or one that can be written comes first. */
  lemma TakenFlat(q: Queue)
    requires Sound(q) && q.chunks != [] && q.chunks[0] != []
    ensures Flat(q.chunks) != []
    ensures |q.chunks| > 1 && q.chunks[1] == [] ==> Flat(q.chunks[1..]) == []
  {
    if |q.chunks| > 1 && q.chunks[1] == [] {
      FlatOne(q.chunks[1]);
      assert q.chunks[1..] == [q.chunks[1]];
    }
  }

  /** The four flushes after the stop write everything, unless an empty chunk stands first and
      messages behind it: then they write nothing. */
  lemma DrainExact(q: Queue)
    requires Sound(q) && Conserved(q) && q.phase.Idle?
    ensures Flushes(q, BUFFERS).disk == q.accepted <==> Pending(q) == [] || q.chunks[0] != []
  {
    FlushesTakeAll(q, BUFFERS);
  }

  /** Messages a buffer can hold, and not empty. */
  ghost predicate Proper(e: Event) {
    e.Log? ==> 1 <= |e.msg| < BUFFER_SIZE
  }

  ghost predicate NoHollow(q: Queue) {
    forall k :: 0 <= k < |q.chunks| ==> q.chunks[k] != []
  }

  /** With such messages only, no chunk is ever empty, so the flushes after the stop write all. */
  lemma {:induction false} ProperRun(q: Queue, es: seq<Event>)
    requires Sound(q) && Conserved(q) && NoHollow(q) && forall e :: e in es ==> Proper(e)
    ensures var p := Run(q, es);
      && Sound(p) && Conserved(p) && NoHollow(p)
      && (p.phase.Idle? ==> Flushes(p, BUFFERS).disk == p.accepted)
    decreases |es|
  {
    hide Sound, Conserved, NoHollow, Proper, Step, Flushes;
    if es == [] {
      if q.phase.Idle? { ProperDrained(q); }
    } else {
      StepKeeps(q, es[0]);
      assert Proper(es[0]);
      NoHollowStays(q, es[0]);
      ProperRun(Step(q, es[0]), es[1..]);
    }
  }

  lemma ProperDrained(q: Queue)
    requires Sound(q) && Conserved(q) && NoHollow(q) && q.phase.Idle?
    ensures Flushes(q, BUFFERS).disk == q.accepted
  {
    hide Sound, Conserved, Flushes;
    DrainExact(q);
  }

  lemma NoHollowStays(q: Queue, e: Event)
    requires NoHollow(q) && Proper(e)
    ensures NoHollow(Step(q, e))
  {
  }

  /** A rejected message on an idle ring, then a flush: later messages never reach the disk. */
  lemma RejectedMessageBlocks()
    ensures var q := Run(START, [Log([]), Begin, Log([65])]);
      q.accepted == [65] && Stuck(q) && q.phase.Idle? && Flushes(q, BUFFERS).disk == []
  {
    hide Run, Step, Flushes;
    assert [Log([]), Begin, Log([65])] == [Log([])] + [Begin, Log([65])];
    assert [Begin, Log([65])] == [Begin] + [Log([65])] && [Log([65])] == [Log([65])] + [];
    var q1 := START.(chunks := [[]]);
    var q2 := q1.(sealed := true);
    var q3 := q2.(chunks := [[], [65]], sealed := false, accepted := [65]);
    Rejected();
    Sealed();
    Accepted();
    RunOne(START, Log([]), [Begin, Log([65])]);
    RunOne(q1, Begin, [Log([65])]);
    RunOne(q2, Log([65]), []);
    RunNone(q3);
    FlushOnly(q3, BUFFERS);
  }

  lemma RunOne(q: Queue, e: Event, es: seq<Event>)
    ensures Run(q, [e] + es) == Run(Step(q, e), es)
  {
    hide Step;
    assert ([e] + es)[1..] == es;
  }

  lemma RunNone(q: Queue)
    ensures Run(q, []) == q
  {
  }

  lemma Rejected()
    ensures Step(START, Log([])) == START.(chunks := [[]])
  {
  }

  lemma Sealed()
    ensures var q := START.(chunks := [[]]); Step(q, Begin) == q.(sealed := true)
  {
  }

  lemma Accepted()
    ensures var q := START.(chunks := [[]], sealed := true);
      Step(q, Log([65])) == q.(chunks := [[], [65]], sealed := false, accepted := [65])
  {
    var none: seq<byte>, msg: seq<byte> := [], [65];
    assert none + msg == msg && ([none] + [none])[1 := msg] == [none, msg];
  }

  lemma {:induction false} FlushOnly(q: Queue, n: nat)
    requires Sound(q) && Stuck(q)
    ensures Flushes(q, n).disk == q.disk
  {
    if n == 0 {
    } else {
      StuckStays(q, Begin);
      StuckStays(Step(q, Begin), Write);
      StuckStays(Step(Step(q, Begin), Write), End);
      FlushOnly(Flush(q), n - 1);
    }
  }
}
