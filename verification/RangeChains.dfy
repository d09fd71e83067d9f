/** Nodes keyed by hash prefixes, and the chains a rebuild is to leave behind. */
module RangeChains {
  import opened Bytes
  import opened Sequences

  /** Bytes in a hash value. */
  const HASH_LENGTH := 32

  class RangeNode {
    const ip: nat
    const port: nat
    const prefix: seq<byte>
    var deleted: bool
    var next: RangeNode?

    constructor (ip: nat, port: nat, prefix: seq<byte>, deleted: bool)
      ensures this.ip == ip && this.port == port && this.prefix == prefix
      ensures this.deleted == deleted && next == null
    {
      this.ip, this.port, this.prefix, this.deleted := ip, port, prefix, deleted;
      next := null;
    }
  }

  /** The nodes registered for exactly `h`, from position `lo` on, in list order. */
  function GroupFrom(all: seq<RangeNode>, h: seq<byte>, lo: nat): (s: seq<RangeNode>)
    requires lo <= |all|
    decreases |all| - lo
  {
    if lo == |all| then []
    else if all[lo].prefix == h then [all[lo]] + GroupFrom(all, h, lo + 1)
    else GroupFrom(all, h, lo + 1)
  }

  /** The nodes for the proper prefixes of `h` below length `l`, longest prefix first. */
  function Shorter(all: seq<RangeNode>, h: seq<byte>, l: nat): seq<RangeNode>
    requires l <= |h|
  {
    if l == 0 then [] else GroupFrom(all, h[..l - 1], 0) + Shorter(all, h, l - 1)
  }

  /** All nodes whose prefix matches a hash, longest prefix first, list order within a length. */
  function Matching(all: seq<RangeNode>, hash: seq<byte>): seq<RangeNode> {
    Shorter(all, hash, |hash|)
  }

  ghost predicate Fits(n: RangeNode, hash: seq<byte>) {
    |n.prefix| < |hash| && n.prefix == hash[..|n.prefix|]
  }

  /** Where a node stands in a list without repetition. */
  ghost predicate At(all: seq<RangeNode>, n: RangeNode, i: nat) {
    i < |all| && all[i] == n
  }

  /** `a` is due before `b`: its prefix is longer, or as long and it comes first in the list. */
  ghost predicate Precedes(all: seq<RangeNode>, a: RangeNode, b: RangeNode) {
    |a.prefix| > |b.prefix| || (|a.prefix| == |b.prefix| && exists i, j :: At(all, a, i) && At(all, b, j) && i < j)
  }

  ghost predicate InOrder(all: seq<RangeNode>, s: seq<RangeNode>) {
    forall i, j :: 0 <= i < j < |s| ==> Precedes(all, s[i], s[j])
  }

  lemma {:induction false} GroupHolds(all: seq<RangeNode>, h: seq<byte>, lo: nat, n: RangeNode)
    requires lo <= |all|
    ensures n in GroupFrom(all, h, lo) <==> n.prefix == h && n in all[lo..]
    decreases |all| - lo
  {
    if lo == |all| {
    } else {
      GroupHolds(all, h, lo + 1, n);
      assert all[lo..] == [all[lo]] + all[lo + 1..];
    }
  }

  lemma {:induction false} GroupInOrder(all: seq<RangeNode>, h: seq<byte>, lo: nat)
    requires lo <= |all|
    ensures InOrder(all, GroupFrom(all, h, lo))
    decreases |all| - lo
  {
    if lo == |all| {
    } else {
      GroupInOrder(all, h, lo + 1);
      var rest := GroupFrom(all, h, lo + 1);
      if all[lo].prefix == h {
        forall j | 0 <= j < |rest| ensures Precedes(all, all[lo], rest[j]) {
          GroupHolds(all, h, lo + 1, rest[j]);
          var k :| 0 <= k < |all[lo + 1..]| && all[lo + 1..][k] == rest[j];
          assert At(all, all[lo], lo) && At(all, rest[j], lo + 1 + k);
        }
      }
    }
  }

  lemma {:induction false} ShorterHolds(all: seq<RangeNode>, h: seq<byte>, l: nat, n: RangeNode)
    requires l <= |h|
    ensures n in Shorter(all, h, l) <==> n in all && |n.prefix| < l && n.prefix == h[..|n.prefix|]
  {
    if l == 0 {
    } else {
      GroupHolds(all, h[..l - 1], 0, n);
      assert all[0..] == all;
      ShorterHolds(all, h, l - 1, n);
    }
  }

  lemma {:induction false} ShorterInOrder(all: seq<RangeNode>, h: seq<byte>, l: nat)
    requires l <= |h|
    ensures InOrder(all, Shorter(all, h, l))
  {
    if l == 0 {
    } else {
      var group, rest := GroupFrom(all, h[..l - 1], 0), Shorter(all, h, l - 1);
      GroupInOrder(all, h[..l - 1], 0);
      ShorterInOrder(all, h, l - 1);
      forall i, j | 0 <= i < |group| && 0 <= j < |rest| ensures Precedes(all, group[i], rest[j]) {
        GroupHolds(all, h[..l - 1], 0, group[i]);
        ShorterHolds(all, h, l - 1, rest[j]);
      }
    }
  }

  /** A list without repetition puts no node before itself. */
  lemma PrecedesIsStrict(all: seq<RangeNode>, n: RangeNode)
    requires Distinct(all)
    ensures !Precedes(all, n, n)
  {
  }

  /** What a lookup owes its caller: every matching node, once, longest prefix first. */
  lemma MatchingIsRight(all: seq<RangeNode>, hash: seq<byte>)
    requires Distinct(all)
    ensures forall n :: n in Matching(all, hash) <==> n in all && Fits(n, hash)
    ensures InOrder(all, Matching(all, hash)) && Distinct(Matching(all, hash))
  {
    var s := Matching(all, hash);
    forall n: RangeNode ensures n in s <==> n in all && Fits(n, hash) {
      ShorterHolds(all, hash, |hash|, n);
    }
    ShorterInOrder(all, hash, |hash|);
    forall i, j | 0 <= i < j < |s| ensures s[i] != s[j] {
      assert Precedes(all, s[i], s[j]);
      PrecedesIsStrict(all, s[i]);
    }
  }

  /** The first position in `[lo, hi)` with prefix `h`, or `hi`. */
  function First(all: seq<RangeNode>, h: seq<byte>, lo: nat, hi: nat): (k: nat)
    requires lo <= hi <= |all|
    ensures lo <= k <= hi && (k < hi ==> all[k].prefix == h)
    ensures forall i :: lo <= i < k ==> all[i].prefix != h
    decreases hi - lo
  {
    if lo == hi || all[lo].prefix == h then lo else First(all, h, lo + 1, hi)
  }

  /** The head of the longest prefix of `h` below length `l` that has nodes, or -1. */
  function ShortHead(all: seq<RangeNode>, h: seq<byte>, l: nat): (k: int)
    requires l <= |h|
    ensures -1 <= k < |all|
  {
    if l == 0 then -1
    else if First(all, h[..l - 1], 0, |all|) < |all| then First(all, h[..l - 1], 0, |all|)
    else ShortHead(all, h, l - 1)
  }

  /** Where the `next` pointer of the node at `j` is to lead: on within its group, and from the
      last one to the head of the longest shorter prefix. */
  function Succ(all: seq<RangeNode>, j: nat): (k: int)
    requires j < |all|
    ensures -1 <= k < |all|
  {
    var h := all[j].prefix;
    if First(all, h, j + 1, |all|) < |all| then First(all, h, j + 1, |all|) else ShortHead(all, h, |h|)
  }

  function NodeAt(all: seq<RangeNode>, k: int): RangeNode?
    requires -1 <= k < |all|
  {
    if k < 0 then null else all[k]
  }

  ghost predicate NextIs(all: seq<RangeNode>, j: nat)
    reads all
  {
    j < |all| && all[j].next == NodeAt(all, Succ(all, j))
  }

  /** What is to come from the node at `j` on. */
  function Tail(all: seq<RangeNode>, j: nat): seq<RangeNode>
    requires j < |all|
  {
    GroupFrom(all, all[j].prefix, j) + Shorter(all, all[j].prefix, |all[j].prefix|)
  }

  /** Following `next` from `n` gives the nodes of `s` and then ends. */
  ghost predicate Chain(n: RangeNode?, s: seq<RangeNode>)
    reads s
  {
    if s == [] then n == null else n == s[0] && Chain(s[0].next, s[1..])
  }

  lemma {:induction false} GroupSkips(all: seq<RangeNode>, h: seq<byte>, lo: nat)
    requires lo <= |all|
    ensures var k := First(all, h, lo, |all|);
      && GroupFrom(all, h, lo) == GroupFrom(all, h, k)
      && (k < |all| ==> GroupFrom(all, h, k) == [all[k]] + GroupFrom(all, h, k + 1))
      && (k == |all| ==> GroupFrom(all, h, lo) == [])
    decreases |all| - lo
  {
    if lo == |all| || all[lo].prefix == h {
    } else {
      GroupSkips(all, h, lo + 1);
    }
  }

  /** Only the bytes before `l` matter. */
  lemma {:induction false} ShorterOfPrefix(all: seq<RangeNode>, h: seq<byte>, m: nat, l: nat)
    requires l <= m <= |h|
    ensures Shorter(all, h[..m], l) == Shorter(all, h, l)
  {
    if l == 0 {
    } else {
      assert h[..m][..l - 1] == h[..l - 1];
      ShorterOfPrefix(all, h, m, l - 1);
    }
  }

  /** The short head is where the list of the shorter matches begins. */
  lemma {:induction false} ShortHeadStarts(all: seq<RangeNode>, h: seq<byte>, l: nat)
    requires l <= |h|
    ensures var k := ShortHead(all, h, l);
      && (k < 0 ==> Shorter(all, h, l) == [])
      && (k >= 0 ==> |all[k].prefix| < l && Shorter(all, h, l) == Tail(all, k))
  {
    if l == 0 {
    } else {
      var p := h[..l - 1];
      var k := First(all, p, 0, |all|);
      GroupSkips(all, p, 0);
      if k < |all| {
        ShorterOfPrefix(all, h, l - 1, l - 1);
      } else {
        ShortHeadStarts(all, h, l - 1);
      }
    }
  }

  /** When every pointer leads where it should, each node is followed by what is due after it:
      the tails are shared, and no chain runs in a circle. */
  lemma {:induction false} ChainFrom(all: seq<RangeNode>, j: nat)
    requires j < |all| && forall i :: 0 <= i < |all| ==> NextIs(all, i)
    ensures Chain(all[j], Tail(all, j))
    decreases |all[j].prefix|, |all| - j
  {
    var h := all[j].prefix;
    assert NextIs(all, j);
    GroupSkips(all, h, j);
    GroupSkips(all, h, j + 1);
    var k := First(all, h, j + 1, |all|);
    if k < |all| {
      ChainFrom(all, k);
      assert Tail(all, j)[1..] == Tail(all, k);
    } else {
      ShortHeadStarts(all, h, |h|);
      var q := ShortHead(all, h, |h|);
      assert Tail(all, j)[1..] == Shorter(all, h, |h|);
      if q >= 0 { ChainFrom(all, q); }
    }
  }
}
