/** The logger: four buffers in a ring, many producers and one worker. Each method is what
    happens between one locking and unlocking, or the write between two of them. */
module Logger {
  import opened Bytes
  import opened LogQueue

  datatype BufferState = Empty | Use | Full

  type Index = i: int | 0 <= i < BUFFERS

  function NextIdx(i: Index): Index {
    var r := i + 1;
    if r >= BUFFERS then 0 else r
  }

  /** The place of the `k`-th of `n` used buffers, the last of which is at `user`. */
  function Slot(user: Index, n: nat, k: nat): Index
    requires n <= BUFFERS
  {
    (user + BUFFERS + 1 - n + k) % BUFFERS
  }

  /** Where the buffers are that follow each other. */
  lemma SlotFacts(user: Index, n: nat, k: nat)
    requires n <= BUFFERS && k < BUFFERS
    ensures Slot(user, n, k) == Slot(user, n, 0) <==> k == 0
    ensures n > 0 ==> (Slot(user, n, k) == user <==> k == n - 1)
    ensures n == 0 ==> (Slot(user, n, k) == user <==> k == BUFFERS - 1)
    ensures n < BUFFERS ==> Slot(NextIdx(user), n + 1, k) == Slot(user, n, k)
    ensures n < BUFFERS ==> Slot(user, n + 1, k) == Slot(user, n, if k == 0 then BUFFERS - 1 else k - 1)
    ensures n > 0 ==> Slot(user, n - 1, k) == Slot(user, n, if k < BUFFERS - 1 then k + 1 else 0)
  {
    hide Slot;
    SlotApart(user, n, k);
    SlotOfUser(user, n, k);
    if n < BUFFERS {
      SlotOfNext(user, n, k);
      SlotShifts(user, n + 1, if k == 0 then BUFFERS - 1 else k - 1);
    }
    if n > 0 { SlotShifts(user, n, k); }
  }

  lemma SlotApart(user: Index, n: nat, k: nat)
    requires n <= BUFFERS && k < BUFFERS
    ensures Slot(user, n, k) == Slot(user, n, 0) <==> k == 0
  {
  }

  lemma SlotOfUser(user: Index, n: nat, k: nat)
    requires n <= BUFFERS && k < BUFFERS
    ensures Slot(user, n, k) == user <==> k == if n > 0 then n - 1 else BUFFERS - 1
  {
  }

  lemma SlotOfNext(user: Index, n: nat, k: nat)
    requires n < BUFFERS
    ensures Slot(NextIdx(user), n + 1, k) == Slot(user, n, k)
  {
  }

  lemma SlotShifts(user: Index, n: nat, k: nat)
    requires 0 < n <= BUFFERS && k < BUFFERS
    ensures Slot(user, n - 1, k) == Slot(user, n, if k < BUFFERS - 1 then k + 1 else 0)
  {
  }

  function Chunks(text: seq<seq<byte>>, user: Index, n: nat): (s: seq<seq<byte>>)
    requires |text| == BUFFERS && n <= BUFFERS
    ensures |s| == n && forall k :: 0 <= k < n ==> s[k] == text[Slot(user, n, k)]
  {
    seq(n, k requires 0 <= k < n => text[Slot(user, n, k)])
  }

  /** The `k`-th buffer from the oldest on is as it should be. */
  ghost predicate LaidAt(text: seq<seq<byte>>, state: seq<BufferState>, user: Index, n: nat, k: nat) {
    && |text| == BUFFERS && |state| == BUFFERS && n <= BUFFERS
    && var i := Slot(user, n, k);
      if k < n then !state[i].Empty? && (k < n - 1 ==> state[i].Full?) else state[i].Empty? && text[i] == []
  }

  ghost predicate Laid(text: seq<seq<byte>>, state: seq<BufferState>, user: Index, n: nat) {
    forall k {:trigger LaidAt(text, state, user, n, k)} :: 0 <= k < BUFFERS ==> LaidAt(text, state, user, n, k)
  }

  /** The buffer after the user's is free exactly when not all are used. */
  lemma NextIsFree(text: seq<seq<byte>>, state: seq<BufferState>, user: Index, n: nat)
    requires Laid(text, state, user, n)
    ensures |text| == |state| == BUFFERS && n <= BUFFERS
    ensures n > 0 ==> (state[NextIdx(user)].Empty? <==> n < BUFFERS)
    ensures state[user].Empty? <==> n == 0
    ensures n == 0 ==> text[user] == []
  {
    hide Laid, LaidAt, Slot;
    UserState(text, state, user, n);
    NextState(text, state, user, n);
  }

  lemma UserState(text: seq<seq<byte>>, state: seq<BufferState>, user: Index, n: nat)
    requires Laid(text, state, user, n)
    ensures |text| == |state| == BUFFERS && n <= BUFFERS
    ensures (state[user].Empty? <==> n == 0) && (n == 0 ==> text[user] == [])
  {
    assert LaidAt(text, state, user, n, 0);
    assert LaidAt(text, state, user, n, if n == 0 then BUFFERS - 1 else n - 1);
    hide Laid;
  }

  lemma NextState(text: seq<seq<byte>>, state: seq<BufferState>, user: Index, n: nat)
    requires Laid(text, state, user, n) && |state| == BUFFERS && n <= BUFFERS
    ensures n > 0 ==> (state[NextIdx(user)].Empty? <==> n < BUFFERS)
  {
    if n > 0 {
      assert LaidAt(text, state, user, n, if n < BUFFERS then n else 0);
      hide Laid;
    }
  }

  lemma OpenNext(text: seq<seq<byte>>, state: seq<BufferState>, user: Index, n: nat)
    requires Laid(text, state, user, n) && |text| == |state| == BUFFERS && 0 < n < BUFFERS && state[user].Full?
    ensures var u := NextIdx(user);
      && Laid(text[u := []], state[u := Use], u, n + 1)
      && Chunks(text[u := []], u, n + 1) == Chunks(text, user, n) + [[]]
      && Slot(u, n + 1, 0) == Slot(user, n, 0)
  {
    hide Slot, LaidAt;
    var u := NextIdx(user);
    var text', state', m := text[u := []], state[u := Use], n + 1;
    SlotFacts(user, n, 0);
    forall k | 0 <= k < BUFFERS ensures LaidAt(text', state', u, m, k) {
      OpenNextAt(text, state, user, n, k);
    }
    var s, t := Chunks(text, user, n) + [[]], Chunks(text', u, n + 1);
    forall k | 0 <= k < n + 1 ensures s[k] == t[k] {
      SlotFacts(user, n, k);
      SlotFacts(u, n + 1, k);
    }
  }

  lemma OpenNextAt(text: seq<seq<byte>>, state: seq<BufferState>, user: Index, n: nat, k: nat)
    requires Laid(text, state, user, n) && |text| == |state| == BUFFERS && 0 < n < BUFFERS && state[user].Full?
    requires k < BUFFERS
    ensures var u := NextIdx(user); LaidAt(text[u := []], state[u := Use], u, n + 1, k)
  {
    assert LaidAt(text, state, user, n, k);
    hide Slot, Laid;
    SlotFacts(user, n, k);
    SlotFacts(NextIdx(user), n + 1, k);
  }

  /** The user's buffer gets another content or state, and stays in use. */
  lemma UserWrites(text: seq<seq<byte>>, state: seq<BufferState>, user: Index, n: nat, t: seq<byte>, s: BufferState)
    requires Laid(text, state, user, n) && |text| == |state| == BUFFERS && n <= BUFFERS && !s.Empty?
    ensures Laid(text[user := t], state[user := s], user, if n == 0 then 1 else n)
    ensures n > 0 ==> Chunks(text[user := t], user, n) == Chunks(text, user, n)[n - 1 := t]
    ensures n == 0 ==> Chunks(text[user := t], user, 1) == [t]
  {
    hide Slot, LaidAt;
    var m := if n == 0 then 1 else n;
    var text', state' := text[user := t], state[user := s];
    forall k | 0 <= k < BUFFERS ensures LaidAt(text', state', user, m, k) {
      UserWritesAt(text, state, user, n, t, s, k);
    }
    var a, b := Chunks(text, user, m)[m - 1 := t], Chunks(text', user, m);
    forall k | 0 <= k < m ensures a[k] == b[k] {
      SlotFacts(user, m, k);
    }
    assert a == b;
  }

  lemma UserWritesAt(text: seq<seq<byte>>, state: seq<BufferState>, user: Index, n: nat, t: seq<byte>, s: BufferState,
      k: nat)
    requires Laid(text, state, user, n) && |text| == |state| == BUFFERS && n <= BUFFERS && !s.Empty? && k < BUFFERS
    ensures LaidAt(text[user := t], state[user := s], user, if n == 0 then 1 else n, k)
  {
    var j := if n > 0 then k else if k == 0 then BUFFERS - 1 else k - 1;
    assert LaidAt(text, state, user, n, j);
    hide Slot, Laid;
    SlotFacts(user, n, k);
    SlotFacts(user, if n == 0 then 1 else n, k);
  }

  /** The oldest buffer takes no more messages. */
  lemma OldestFills(text: seq<seq<byte>>, state: seq<BufferState>, user: Index, n: nat)
    requires Laid(text, state, user, n) && |text| == |state| == BUFFERS && 0 < n <= BUFFERS
    ensures Laid(text, state[Slot(user, n, 0) := Full], user, n) && (Slot(user, n, 0) == user <==> n == 1)
  {
    hide Slot;
    SlotFacts(user, n, 0);
    var state' := state[Slot(user, n, 0) := Full];
    forall k | 0 <= k < BUFFERS ensures LaidAt(text, state', user, n, k) {
      assert LaidAt(text, state, user, n, k);
      SlotFacts(user, n, k);
    }
  }

  /** The oldest buffer is emptied. */
  lemma OldestLeaves(text: seq<seq<byte>>, state: seq<BufferState>, user: Index, n: nat)
    requires Laid(text, state, user, n) && |text| == |state| == BUFFERS && 0 < n <= BUFFERS
    ensures var i := Slot(user, n, 0);
      && Laid(text[i := []], state[i := Empty], user, n - 1)
      && Chunks(text[i := []], user, n - 1) == Chunks(text, user, n)[1..]
      && (n > 1 ==> NextIdx(i) == Slot(user, n - 1, 0)) && (n == 1 ==> i == user)
      && (n > 1 ==> i != user)
  {
    hide Slot, LaidAt, Chunks;
    OldestLeavesChunks(text, user, n);
    SlotFacts(user, n, 0);
    SlotNext(user, n, 0);
    var i := Slot(user, n, 0);
    var text', state', m := text[i := []], state[i := Empty], n - 1;
    forall k | 0 <= k < BUFFERS ensures LaidAt(text', state', user, m, k) {
      OldestLeavesAt(text, state, user, n, k);
    }
  }

  lemma SlotNext(user: Index, n: nat, k: nat)
    requires 0 < n <= BUFFERS && k < BUFFERS
    ensures NextIdx(Slot(user, n, k)) == Slot(user, n - 1, k)
  {
  }

  lemma OldestLeavesAt(text: seq<seq<byte>>, state: seq<BufferState>, user: Index, n: nat, k: nat)
    requires Laid(text, state, user, n) && |text| == |state| == BUFFERS && 0 < n <= BUFFERS && k < BUFFERS
    ensures var i := Slot(user, n, 0); LaidAt(text[i := []], state[i := Empty], user, n - 1, k)
  {
    var j := if k < BUFFERS - 1 then k + 1 else 0;
    assert LaidAt(text, state, user, n, j);
    hide Slot, Laid;
    SlotFacts(user, n, k);
    SlotFacts(user, n, j);
  }

  lemma OldestLeavesChunks(text: seq<seq<byte>>, user: Index, n: nat)
    requires |text| == BUFFERS && 0 < n <= BUFFERS
    ensures Chunks(text[Slot(user, n, 0) := []], user, n - 1) == Chunks(text, user, n)[1..]
  {
    hide Slot;
    var i := Slot(user, n, 0);
    var s, t := Chunks(text, user, n)[1..], Chunks(text[i := []], user, n - 1);
    forall k | 0 <= k < n - 1 ensures s[k] == t[k] {
      SlotFacts(user, n, k);
      SlotFacts(user, n, k + 1);
    }
  }

  function Around(from: Index, k: nat): Index {
    (from + k) % BUFFERS
  }

  ghost predicate EmptyAt(state: seq<BufferState>, from: Index, k: nat) {
    |state| == BUFFERS && state[Around(from, k)].Empty?
  }

  /** From `from` on `i` buffers are unused and the next is used, or all four are unused. */
  ghost predicate FirstUsed(state: seq<BufferState>, from: Index, i: nat) {
    && |state| == BUFFERS && i <= BUFFERS && (forall k :: 0 <= k < i ==> EmptyAt(state, from, k))
    && (i < BUFFERS ==> !EmptyAt(state, from, i))
  }

  /** Where the worker starts to look, it finds the oldest used buffer. */
  lemma OldestFound(text: seq<seq<byte>>, state: seq<BufferState>, user: Index, n: nat, worker: Index, i: nat)
    requires Laid(text, state, user, n) && |text| == |state| == BUFFERS && n <= BUFFERS
    requires n == 0 ==> worker == user
    requires n > 0 ==> worker == Slot(user, n, 0) || NextIdx(worker) == Slot(user, n, 0)
    requires FirstUsed(state, if worker == user then NextIdx(worker) else worker, i)
    ensures i < BUFFERS <==> n > 0
    ensures n > 0 ==> Around(if worker == user then NextIdx(worker) else worker, i) == Slot(user, n, 0)
  {
    hide Laid, LaidAt, EmptyAt, Slot, Around, FirstUsed;
    var j := FirstFrom(text, state, user, n, worker);
    OneFirst(state, if worker == user then NextIdx(worker) else worker, i, j);
  }

  lemma OneFirst(state: seq<BufferState>, from: Index, i: nat, j: nat)
    requires FirstUsed(state, from, i) && FirstUsed(state, from, j)
    ensures i == j
  {
    hide EmptyAt;
  }

  /** How far the oldest used buffer is, all before it being empty. */
  lemma FirstFrom(text: seq<seq<byte>>, state: seq<BufferState>, user: Index, n: nat, worker: Index) returns (j: nat)
    requires Laid(text, state, user, n) && |text| == |state| == BUFFERS && n <= BUFFERS
    requires n == 0 ==> worker == user
    requires n > 0 ==> worker == Slot(user, n, 0) || NextIdx(worker) == Slot(user, n, 0)
    ensures var from := if worker == user then NextIdx(worker) else worker;
      FirstUsed(state, from, j) && (j < BUFFERS <==> n > 0) && (n > 0 ==> Around(from, j) == Slot(user, n, 0))
  {
    hide Laid, LaidAt, EmptyAt, Slot, Around;
    var from := if worker == user then NextIdx(worker) else worker;
    j := Distance(user, n, worker);
    forall k | 0 <= k < j ensures EmptyAt(state, from, k) {
      BeforeOldest(text, state, user, n, worker, k);
    }
    if n > 0 { NotEmptyAt(text, state, user, n, from, j, 0); }
  }

  function Distance(user: Index, n: nat, worker: Index): (j: nat)
    requires n <= BUFFERS && (n > 0 ==> worker == Slot(user, n, 0) || NextIdx(worker) == Slot(user, n, 0))
    ensures j <= BUFFERS && (j < BUFFERS <==> n > 0)
    ensures n > 0 ==> Around(if worker == user then NextIdx(worker) else worker, j) == Slot(user, n, 0)
    ensures n > 0 && j > 0 ==> j == 1 || n == 1
  {
    if n == 0 then BUFFERS
    else if worker == user then (if n == 1 && worker == Slot(user, n, 0) then BUFFERS - 1 else 0)
    else if worker == Slot(user, n, 0) then 0 else 1
  }

  lemma BeforeOldest(text: seq<seq<byte>>, state: seq<BufferState>, user: Index, n: nat, worker: Index, k: nat)
    requires Laid(text, state, user, n) && |text| == |state| == BUFFERS && n <= BUFFERS
    requires n == 0 ==> worker == user
    requires n > 0 ==> worker == Slot(user, n, 0) || NextIdx(worker) == Slot(user, n, 0)
    requires k < Distance(user, n, worker)
    ensures EmptyAt(state, if worker == user then NextIdx(worker) else worker, k)
  {
    hide Laid, LaidAt, EmptyAt;
    var m := if n == 0 then k else if Distance(user, n, worker) == 1 then BUFFERS - 1 else k + 1;
    NotEmptyAt(text, state, user, n, if worker == user then NextIdx(worker) else worker, k, m);
  }

  lemma NotEmptyAt(text: seq<seq<byte>>, state: seq<BufferState>, user: Index, n: nat, from: Index, k: nat, m: nat)
    requires Laid(text, state, user, n) && n <= BUFFERS && m < BUFFERS && Around(from, k) == Slot(user, n, m)
    ensures EmptyAt(state, from, k) <==> m >= n
  {
    assert LaidAt(text, state, user, n, m);
    hide Slot, Around, Laid;
  }

  lemma UserLast(user: Index, n: nat)
    requires 0 < n <= BUFFERS
    ensures Slot(user, n, n - 1) == user
  {
  }

  class Ring {
    /** The bytes of a buffer before its offset. */
    const text: array<seq<byte>>
    const state: array<BufferState>
    var userIdx: Index
    var workerIdx: Index
    var stopFlag: bool
    var disk: seq<byte>
    ghost var phase: Phase
    ghost var used: nat
    ghost var accepted: seq<byte>

    ghost predicate Valid()
      reads this, text, state
    {
      && text.Length == BUFFERS && state.Length == BUFFERS && used <= BUFFERS
      && Laid(text[..], state[..], userIdx, used) && WorkerBehind() && Sound(Queue())
    }

    /** The worker stands at the oldest used buffer, or just behind it. */
    ghost predicate WorkerBehind()
      requires used <= BUFFERS && state.Length == BUFFERS
      reads this, state
    {
      && (used == 0 ==> workerIdx == userIdx)
      && (used > 0 ==> workerIdx == Slot(userIdx, used, 0) || NextIdx(workerIdx) == Slot(userIdx, used, 0))
      && (!phase.Idle? ==> used > 0 && workerIdx == Slot(userIdx, used, 0) && state[workerIdx].Full?)
    }

    /** The used buffers in the order of the ring, as the queue they implement. */
    ghost function Queue(): LogQueue.Queue
      requires text.Length == BUFFERS && state.Length == BUFFERS && used <= BUFFERS
      reads this, text, state
    {
      LogQueue.Queue(Chunks(text[..], userIdx, used), used > 0 && state[userIdx].Full?, phase, disk, accepted, stopFlag)
    }

    constructor ()
      ensures Valid() && Queue() == START
    {
      text := new seq<byte>[BUFFERS](_ => []);
      state := new BufferState[BUFFERS](_ => Empty);
      userIdx, workerIdx, stopFlag, disk := 0, 0, false, [];
      phase, used, accepted := Idle, 0, [];
      new;
      forall k | 0 <= k < BUFFERS ensures LaidAt(text[..], state[..], userIdx, used, k) {}
    }

    /** Makes the user's buffer one that takes messages, if there is one. */
    method Open() returns (ok: bool)
      requires Valid()
      modifies this`userIdx, this`used, text, state
      ensures Valid()
      ensures ok == !(old(Queue()).sealed && |old(Queue()).chunks| >= BUFFERS)
      ensures Queue() == (if ok then Opened(old(Queue())) else old(Queue()))
      ensures ok ==> used > 0 && state[userIdx].Use?
    {
      hide Laid, Sound, Slot, Pending;
      NextIsFree(text[..], state[..], userIdx, used);
      if state[userIdx].Full? {
        var next := NextIdx(userIdx);
        if state[next].Empty? {
          OpenNext(text[..], state[..], userIdx, used);
          OpenedKeeps(Queue());
          userIdx := next;
          state[userIdx] := Use;
          text[userIdx] := [];
          used := used + 1;
        } else {
          return false;
        }
      } else {
        UserWrites(text[..], state[..], userIdx, used, text[userIdx], Use);
        OpenedKeeps(Queue());
        assert text[..][userIdx := text[userIdx]] == text[..];
        ghost var q := Queue();
        state[userIdx] := Use;
        used := if used == 0 then 1 else used;
        UserLast(userIdx, used);
        assert Queue().chunks == Opened(q).chunks;
      }
      return true;
    }

    /** The message goes behind what the user's buffer holds. */
    method Append(msg: seq<byte>)
      requires Valid() && used > 0 && state[userIdx].Use?
      requires var q := Queue(); var last := |q.chunks| - 1;
        Sound(q.(chunks := q.chunks[last := q.chunks[last] + msg], accepted := q.accepted + msg))
      modifies this`accepted, text
      ensures Valid() && var q := old(Queue()); var last := |q.chunks| - 1;
        Queue() == q.(chunks := q.chunks[last := q.chunks[last] + msg], accepted := q.accepted + msg)
    {
      hide Laid, Sound, Slot;
      UserLast(userIdx, used);
      UserWrites(text[..], state[..], userIdx, used, text[userIdx] + msg, Use);
      assert state[..][userIdx := Use] == state[..];
      text[userIdx] := text[userIdx] + msg;
      accepted := accepted + msg;
    }

    /** The user's buffer takes no more messages. */
    method Fill()
      requires Valid() && used > 0 && state[userIdx].Use? && Sound(Queue().(sealed := true))
      modifies state
      ensures Valid() && Queue() == old(Queue()).(sealed := true)
    {
      hide Laid, Sound, Slot;
      UserLast(userIdx, used);
      UserWrites(text[..], state[..], userIdx, used, text[userIdx], Full);
      assert text[..][userIdx := text[userIdx]] == text[..];
      state[userIdx] := Full;
    }

    /** One pass of the loop of `esq_log`. */
    method Log(msg: seq<byte>) returns (r: Outcome)
      requires Valid()
      modifies this`userIdx, this`used, this`accepted, text, state
      ensures Valid() && (Queue(), r) == Pass(old(Queue()), msg)
    {
      hide Laid, Sound, Slot, Pending;
      PassAppends(Queue(), msg);
      if stopFlag {
        return Closed;
      }
      var ok := Open();
      if !ok {
        return Busy;
      }
      UserLast(userIdx, used);
      var offset := |text[userIdx]|;
      if msg == [] {
        return BadParam;
      } else if |msg| >= BUFFER_SIZE - offset {
        if |msg| >= BUFFER_SIZE {
          return TooLong;
        } else {
          Fill();
          return Again;
        }
      } else {
        Append(msg);
        return Logged;
      }
    }

    /** The first used buffer from `from` on, around the ring. */
    method FindUsed(from: Index) returns (idx: Index, found: bool, ghost i: nat)
      requires state.Length == BUFFERS
      ensures FirstUsed(state[..], from, i) && (found <==> i < BUFFERS) && idx == Around(from, i)
    {
      idx, i := from, 0;
      for n := 0 to BUFFERS
        invariant n == i && idx == Around(from, i) && forall k :: 0 <= k < i ==> EmptyAt(state[..], from, k)
      {
        if !state[idx].Empty? {
          return idx, true, i;
        }
        idx, i := NextIdx(idx), i + 1;
      }
      found := false;
    }

    /** Picks the buffer to write, or none. */
    method FlushBegin() returns (offset: nat)
      requires Valid() && phase.Idle?
      modifies this`workerIdx, this`phase, state
      ensures Valid() && Queue() == Begun(old(Queue()))
      ensures offset > 0 <==> phase.Writing?
      ensures offset > 0 ==> offset == |text[workerIdx]|
    {
      hide Laid, FirstUsed, Around;
      var idx := workerIdx;
      if idx == userIdx {
        idx := NextIdx(idx);
      }
      ghost var from, i := idx, 0;
      var found;
      idx, found, i := FindUsed(idx);
      OldestFound(text[..], state[..], userIdx, used, workerIdx, i);
      if !found {
        return 0;
      }
      OldestFills(text[..], state[..], userIdx, used);
      workerIdx := idx;
      state[workerIdx] := Full;
      offset := |text[workerIdx]|;
      phase := if offset > 0 then Writing else Idle;
    }

    /** Writes the picked buffer to the file, outside the lock. */
    method FlushToDisk(offset: nat)
      requires Valid() && phase.Writing? && offset == |text[workerIdx]|
      modifies this`disk, this`phase
      ensures Valid() && Queue() == WrittenOut(old(Queue()))
    {
      disk := disk + text[workerIdx][..offset];
      phase := Written;
    }

    /** Gives the written buffer back to the producers. */
    method FlushEnd()
      requires Valid() && phase.Written?
      modifies this`phase, this`used, text, state
      ensures Valid() && Queue() == Ended(old(Queue()))
    {
      hide Laid;
      OldestLeaves(text[..], state[..], userIdx, used);
      text[workerIdx] := [];
      state[workerIdx] := Empty;
      used := used - 1;
      phase := Idle;
    }

    /** Tells producers and worker to stop. */
    method Detach()
      requires Valid()
      modifies this`stopFlag
      ensures Valid() && Queue() == Step(old(Queue()), Stop)
    {
      stopFlag := true;
    }

    /** `esq_logger_flush_one_buffer` when no producer comes in between. */
    method FlushOneBuffer()
      requires Valid() && phase.Idle?
      modifies this`workerIdx, this`phase, this`disk, this`used, text, state
      ensures Valid() && Queue() == Flush(old(Queue())) && phase.Idle?
    {
      var offset := FlushBegin();
      if offset == 0 {
        return;
      }
      FlushToDisk(offset);
      FlushEnd();
    }

    /** What the worker does last: one flush for each buffer. */
    method Drain()
      requires Valid() && phase.Idle?
      modifies this`workerIdx, this`phase, this`disk, this`used, text, state
      ensures Valid() && Queue() == Flushes(old(Queue()), BUFFERS)
    {
      ghost var q := Queue();
      var i := 0;
      while i < BUFFERS
        invariant 0 <= i <= BUFFERS && Valid() && phase.Idle?
        invariant Flushes(Queue(), BUFFERS - i) == Flushes(q, BUFFERS)
      {
        FlushOneBuffer();
        i := i + 1;
      }
    }
  }
}
