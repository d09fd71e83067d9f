/** Targets of a synchronization: those with the same hash prefix are linked into one list, and the
    lists into a list of their heads. */
module SyncTargets {
  import opened Bytes
  import opened Sequences

  class Target {
    /** The bytes of the hash the target stands for; the others are never looked at. */
    const key: seq<byte>
    var sameHashNext: Target?
    var nextHashList: Target?

    constructor (key: seq<byte>)
      ensures this.key == key && sameHashNext == null && nextHashList == null
    {
      this.key := key;
      sameHashNext, nextHashList := null, null;
    }
  }

  /** The first target in `[lo, hi)` with a key, or `hi`. */
  function First(all: seq<Target>, key: seq<byte>, lo: nat, hi: nat): (k: nat)
    requires lo <= hi <= |all|
    ensures lo <= k <= hi && (k < hi ==> all[k].key == key)
    ensures forall i :: lo <= i < k ==> all[i].key != key
    decreases hi - lo
  {
    if lo == hi || all[lo].key == key then lo else First(all, key, lo + 1, hi)
  }

  /** The head of the list a target is in: the first one with its key. */
  function HeadOf(all: seq<Target>, k: nat): (h: nat)
    requires k < |all|
    ensures h <= k && all[h].key == all[k].key
  {
    First(all, all[k].key, 0, k + 1)
  }

  predicate IsHead(all: seq<Target>, k: nat) {
    k < |all| && HeadOf(all, k) == k
  }

  /** The first head in `[lo, hi)`, or `hi`. */
  function FirstHead(all: seq<Target>, lo: nat, hi: nat): (k: nat)
    requires lo <= hi <= |all|
    ensures lo <= k <= hi && (k < hi ==> IsHead(all, k))
    ensures forall i :: lo <= i < k ==> !IsHead(all, i)
    decreases hi - lo
  {
    if lo == hi || IsHead(all, lo) then lo else FirstHead(all, lo + 1, hi)
  }

  function NodeAt(all: seq<Target>, k: nat, hi: nat): Target?
    requires hi <= |all|
  {
    if k < hi then all[k] else null
  }

  /** The next target with the same key, among the first `hi`. */
  function SameLink(all: seq<Target>, j: nat, hi: nat): Target?
    requires j < |all| && hi <= |all|
  {
    if j < hi then NodeAt(all, First(all, all[j].key, j + 1, hi), hi) else null
  }

  /** The next head after a head, among the first `hi`. */
  function HeadLink(all: seq<Target>, j: nat, hi: nat): Target?
    requires j < |all| && hi <= |all|
  {
    if j < hi && IsHead(all, j) then NodeAt(all, FirstHead(all, j + 1, hi), hi) else null
  }

  /** The links of a target when the first `hi` are linked. */
  ghost predicate LinkedAt(all: seq<Target>, j: nat, hi: nat)
    reads all
  {
    && j < |all| && hi <= |all|
    && all[j].sameHashNext == SameLink(all, j, hi) && all[j].nextHashList == HeadLink(all, j, hi)
  }

  ghost predicate Linked(all: seq<Target>, hi: nat)
    reads all
  {
    hi <= |all| && forall j {:trigger LinkedAt(all, j, hi)} :: 0 <= j < |all| ==> LinkedAt(all, j, hi)
  }

  lemma {:induction false} FirstExtends(all: seq<Target>, key: seq<byte>, lo: nat, hi: nat)
    requires lo <= hi < |all|
    ensures First(all, key, lo, hi + 1) ==
      if First(all, key, lo, hi) < hi then First(all, key, lo, hi) else if all[hi].key == key then hi else hi + 1
    decreases hi - lo
  {
    if lo == hi || all[lo].key == key {
    } else {
      FirstExtends(all, key, lo + 1, hi);
    }
  }

  lemma {:induction false} FirstHeadExtends(all: seq<Target>, lo: nat, hi: nat)
    requires lo <= hi < |all|
    ensures FirstHead(all, lo, hi + 1) ==
      if FirstHead(all, lo, hi) < hi then FirstHead(all, lo, hi) else if IsHead(all, hi) then hi else hi + 1
    decreases hi - lo
  {
    if lo == hi || IsHead(all, lo) {
    } else {
      FirstHeadExtends(all, lo + 1, hi);
    }
  }

  /** The first with a key is a head, and the head of all that have it. */
  lemma FirstIsHead(all: seq<Target>, key: seq<byte>, hi: nat)
    requires hi <= |all| && First(all, key, 0, hi) < hi
    ensures IsHead(all, First(all, key, 0, hi))
    ensures forall k :: 0 <= k < |all| && all[k].key == key ==> HeadOf(all, k) == First(all, key, 0, hi)
  {
  }

  /** Looks along the heads for the one with the key of the target at `i`. */
  method FindHead(all: seq<Target>, i: nat) returns (p: Target?, ghost j: nat)
    requires 0 < i < |all| && Linked(all, i)
    ensures j == First(all, all[i].key, 0, i) && p == NodeAt(all, j, i)
  {
    var key := all[i].key;
    p, j := all[0], 0;
    while p != null
      invariant j <= i && p == NodeAt(all, j, i) && (j < i ==> IsHead(all, j))
      invariant First(all, key, 0, i) >= j
      decreases i - j
    {
      if |p.key| == |key| && (|p.key| == 0 || p.key == key) {
        return;
      }
      assert LinkedAt(all, j, i);
      if First(all, key, 0, i) < i { FirstIsHead(all, key, i); }
      assert p.key != key;
      j := FirstHead(all, j + 1, i);
      p := p.nextHashList;
    }
  }

  /** The end of the list of heads. */
  method LastHead(all: seq<Target>, i: nat) returns (p: Target, ghost j: nat)
    requires 0 < i < |all| && Linked(all, i)
    ensures j < i && p == all[j] && IsHead(all, j) && HeadLink(all, j, i) == null
  {
    p, j := all[0], 0;
    assert LinkedAt(all, j, i);
    while p.nextHashList != null
      invariant j < i && p == all[j] && IsHead(all, j) && LinkedAt(all, j, i)
      decreases i - j
    {
      j := FirstHead(all, j + 1, i);
      p := p.nextHashList;
      assert LinkedAt(all, j, i);
    }
  }

  /** The end of the list that starts at `head`. */
  method LastSame(all: seq<Target>, i: nat, head: Target, ghost h: nat) returns (p: Target, ghost j: nat)
    requires h < i < |all| && Linked(all, i) && head == all[h]
    ensures h <= j < i && p == all[j] && p.key == head.key && SameLink(all, j, i) == null
  {
    p, j := head, h;
    assert LinkedAt(all, j, i);
    while p.sameHashNext != null
      invariant h <= j < i && p == all[j] && p.key == head.key && LinkedAt(all, j, i)
      decreases i - j
    {
      j := First(all, p.key, j + 1, i);
      p := p.sameHashNext;
      assert LinkedAt(all, j, i);
    }
  }

  lemma SameLinkGrows(all: seq<Target>, j: nat, i: nat)
    requires j < |all| && i < |all|
    ensures SameLink(all, j, i + 1) ==
            if j < i && SameLink(all, j, i) == null && all[i].key == all[j].key then all[i] else SameLink(all, j, i)
  {
    if j < i { FirstExtends(all, all[j].key, j + 1, i); }
  }

  lemma HeadLinkGrows(all: seq<Target>, j: nat, i: nat)
    requires j < |all| && i < |all|
    ensures HeadLink(all, j, i + 1) ==
            if j < i && IsHead(all, j) && HeadLink(all, j, i) == null && IsHead(all, i)
            then all[i] else HeadLink(all, j, i)
  {
    hide IsHead;
    if j < i { FirstHeadExtends(all, j + 1, i); }
  }

  lemma NewHead(all: seq<Target>, i: nat)
    requires i < |all|
    ensures First(all, all[i].key, 0, i) == i <==> IsHead(all, i)
    ensures IsHead(all, i) ==> forall j :: 0 <= j < i ==> all[j].key != all[i].key
  {
    FirstExtends(all, all[i].key, 0, i);
  }

  lemma Apart(all: seq<Target>, k: nat, m: nat)
    requires Distinct(all) && k < |all| && m < |all|
    ensures all[k] == all[m] <==> k == m
  {
  }

  /** Only the last head has no head behind it. */
  lemma OnlyLastHead(all: seq<Target>, k: nat, m: nat, i: nat)
    requires k < i <= |all| && m < i && m != k && IsHead(all, m) && IsHead(all, k) && HeadLink(all, k, i) == null
    ensures HeadLink(all, m, i) != null
  {
    hide IsHead;
  }

  lemma OnlyLastSame(all: seq<Target>, k: nat, m: nat, i: nat)
    requires k < i <= |all| && m < i && m != k && all[m].key == all[k].key && SameLink(all, k, i) == null
    ensures SameLink(all, m, i) != null
  {
  }

  /** One more target is linked: into the list of its key, or as a head of its own. */
  method LinkTarget(all: seq<Target>, i: nat)
    requires 0 < i < |all| && Distinct(all) && Linked(all, i)
    modifies all`sameHashNext, all`nextHashList
    ensures Linked(all, i + 1)
  {
    hide First, FirstHead, Distinct, SameLink, HeadLink, IsHead, HeadOf;
    ghost var hi := i + 1;
    var p;
    ghost var j;
    p, j := FindHead(all, i);
    NewHead(all, i);
    if p == null {
      ghost var k;
      p, k := LastHead(all, i);
      label L: p.nextHashList := all[i];
      forall m | 0 <= m < |all| ensures LinkedAt(all, m, hi) {
        assert old@L(LinkedAt(all, m, i));
        SameLinkGrows(all, m, i);
        HeadLinkGrows(all, m, i);
        if m < i && IsHead(all, m) && m != k { OnlyLastHead(all, k, m, i); }
        Apart(all, k, m);
      }
    } else {
      ghost var k;
      p, k := LastSame(all, i, p, j);
      label L: p.sameHashNext := all[i];
      forall m | 0 <= m < |all| ensures LinkedAt(all, m, hi) {
        assert old@L(LinkedAt(all, m, i));
        SameLinkGrows(all, m, i);
        HeadLinkGrows(all, m, i);
        if m < i && all[m].key == all[k].key && m != k { OnlyLastSame(all, k, m, i); }
        Apart(all, k, m);
      }
    }
  }

  /** `bee_create_target_cross_links` */
  method CreateTargetCrossLinks(all: seq<Target>)
    requires Distinct(all) && forall t :: t in all ==> t.sameHashNext == null && t.nextHashList == null
    modifies all`sameHashNext, all`nextHashList
    ensures Linked(all, |all|)
  {
    if |all| == 0 {
      return;
    }
    var i := 1;
    assert forall j :: 0 <= j < |all| ==> all[j] in all;
    while i < |all|
      invariant 1 <= i <= |all| && Linked(all, i)
    {
      LinkTarget(all, i);
      i := i + 1;
    }
  }

  /** The lists part the targets: two are in one list exactly when they have the same key, and no
      two heads have the same. */
  lemma Partition(all: seq<Target>, j: nat, k: nat)
    requires j < |all| && k < |all|
    ensures HeadOf(all, j) == HeadOf(all, k) <==> all[j].key == all[k].key
    ensures IsHead(all, j) && IsHead(all, k) && j != k ==> all[j].key != all[k].key
    ensures IsHead(all, HeadOf(all, j))
  {
    FirstIsHead(all, all[j].key, j + 1);
    FirstIsHead(all, all[k].key, k + 1);
  }

  /** An item goes to a target when its hash begins with the target's. */
  predicate Matches(t: Target, hash: seq<byte>) {
    t.key <= hash
  }

  /** What has been visited when the lists before head `h` are done, and of that of `h` all before `m`. */
  ghost predicate Visited(all: seq<Target>, visited: seq<Target>, hash: seq<byte>, h: nat, m: nat) {
    && h <= |all| && m <= |all| && Distinct(visited)
    && (forall v :: 0 <= v < |visited| ==> visited[v] in all)
    && forall k: nat {:trigger HeadOf(all, k)} :: k < |all| ==>
         (all[k] in visited <==> Matches(all[k], hash) && (HeadOf(all, k) < h || (HeadOf(all, k) == h && k < m)))
  }

  /** Of one list, the targets between two places do not count when they have another key. */
  lemma VisitedOn(all: seq<Target>, visited: seq<Target>, hash: seq<byte>, h: nat, m: nat, next: nat)
    requires Visited(all, visited, hash, h, m) && h < |all| && IsHead(all, h) && m <= next <= |all|
    requires forall k :: m <= k < next ==> all[k].key != all[h].key
    ensures Visited(all, visited, hash, h, next)
  {
  }

  lemma VisitOne(all: seq<Target>, visited: seq<Target>, hash: seq<byte>, h: nat, m: nat)
    requires Visited(all, visited, hash, h, m) && Distinct(all) && m < |all| && HeadOf(all, m) == h
    requires Matches(all[m], hash)
    ensures Visited(all, visited + [all[m]], hash, h, m + 1)
  {
    hide HeadOf, Matches, Distinct;
    VisitedAt(all, visited, hash, h, m, m);
    JoinedDistinct(visited, all[m]);
    forall k: nat | k < |all|
      ensures all[k] in visited + [all[m]] <==>
              Matches(all[k], hash) && (HeadOf(all, k) < h || (HeadOf(all, k) == h && k < m + 1))
    {
      VisitedAt(all, visited, hash, h, m, k);
      Apart(all, k, m);
      OneMore(visited, all[m], all[k]);
    }
    forall v | 0 <= v < |visited + [all[m]]| ensures (visited + [all[m]])[v] in all {
      if v < |visited| { assert visited[v] in all; }
    }
  }

  lemma VisitedAt(all: seq<Target>, visited: seq<Target>, hash: seq<byte>, h: nat, m: nat, k: nat)
    requires Visited(all, visited, hash, h, m) && k < |all|
    ensures all[k] in visited <==> Matches(all[k], hash) && (HeadOf(all, k) < h || (HeadOf(all, k) == h && k < m))
  {
    var head := HeadOf(all, k);
  }

  lemma OneMore(visited: seq<Target>, t: Target, x: Target)
    ensures x in visited + [t] <==> x in visited || x == t
  {
  }

  /** When the list of `h` is done, or has nothing to do, the next head is next. */
  lemma NextList(all: seq<Target>, visited: seq<Target>, hash: seq<byte>, h: nat)
    requires h < |all| && IsHead(all, h)
    requires Visited(all, visited, hash, h, |all|) || (Visited(all, visited, hash, h, 0) && !Matches(all[h], hash))
    ensures Visited(all, visited, hash, FirstHead(all, h + 1, |all|), 0)
  {
    var next := FirstHead(all, h + 1, |all|);
    forall k | 0 <= k < |all|
      ensures all[k] in visited <==> Matches(all[k], hash) && HeadOf(all, k) < next
    {
      HeadIsHead(all, k);
    }
  }

  lemma HeadIsHead(all: seq<Target>, k: nat)
    requires k < |all|
    ensures IsHead(all, HeadOf(all, k))
  {
    FirstIsHead(all, all[k].key, k + 1);
  }

  lemma SameHead(all: seq<Target>, h: nat, m: nat)
    requires h <= m < |all| && IsHead(all, h) && all[m].key == all[h].key
    ensures HeadOf(all, m) == h
  {
    FirstIsHead(all, all[m].key, m + 1);
    HeadIsHead(all, m);
  }

  /** `bee_bucket_sync_data_to_target_list`: all targets of one list. */
  method SyncList(all: seq<Target>, list: Target, ghost hash: seq<byte>, before: seq<Target>, ghost h: nat)
    returns (sent: seq<Target>)
    requires Distinct(all) && Linked(all, |all|) && h < |all| && list == all[h] && IsHead(all, h)
    requires Visited(all, before, hash, h, 0) && Matches(list, hash)
    ensures Visited(all, sent, hash, h, |all|)
  {
    sent := before;
    ghost var n, m := |all|, h;
    var p: Target? := list;
    assert forall k :: 0 <= k < h ==> all[k].key != all[h].key;
    VisitedOn(all, sent, hash, h, 0, h);
    while p != null
      invariant h <= m <= n && p == NodeAt(all, m, n) && (m < n ==> all[m].key == list.key)
      invariant Visited(all, sent, hash, h, m)
      decreases n - m
    {
      hide Visited, IsHead;
      assert LinkedAt(all, m, n);
      SameHead(all, h, m);
      VisitOne(all, sent, hash, h, m);
      sent := sent + [p];
      ghost var next := First(all, list.key, m + 1, n);
      VisitedOn(all, sent, hash, h, m + 1, next);
      m := next;
      p := p.sameHashNext;
    }
  }

  /** `bee_bucket_sync_db_item`, when no send fails: every target that matches is sent the item, once,
      and no other. */
  method SyncItem(all: seq<Target>, hash: seq<byte>) returns (sent: seq<Target>)
    requires Distinct(all) && Linked(all, |all|)
    ensures Distinct(sent) && (forall v :: 0 <= v < |sent| ==> sent[v] in all)
    ensures forall k :: 0 <= k < |all| ==> (all[k] in sent <==> all[k].key <= hash)
  {
    sent := [];
    ghost var n, h := |all|, 0;
    var p := if |all| == 0 then null else all[0];
    while p != null
      invariant h <= n && p == NodeAt(all, h, n) && (h < n ==> IsHead(all, h))
      invariant Visited(all, sent, hash, h, 0)
      decreases n - h
    {
      if |p.key| == 0 || Matches(p, hash) {
        sent := SyncList(all, p, hash, sent, h);
      }
      assert LinkedAt(all, h, n);
      NextList(all, sent, hash, h);
      h := FirstHead(all, h + 1, n);
      p := p.nextHashList;
    }
    forall k | 0 <= k < n ensures all[k] in sent <==> Matches(all[k], hash) {
      assert HeadOf(all, k) < n;
    }
  }
}
