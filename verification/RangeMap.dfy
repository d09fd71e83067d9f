/** The range map: one search tree per prefix length, and a rebuild that links the chains.
    A tree is a map here from keys to nodes; `RbTree` proves that it is one. */
module RangeMap {
  import opened Bytes
  import opened Sequences
  import opened RangeChains

  datatype Outcome = Done | AlreadyExists | NotExists

  /** What the trees hold for prefix `h` after the first `hi` nodes of the list were loaded. */
  ghost predicate HeadIs(trees: seq<map<seq<byte>, RangeNode>>, all: seq<RangeNode>, hi: nat, h: seq<byte>) {
    && hi <= |all| && |h| < |trees|
    && (h in trees[|h|] <==> First(all, h, 0, hi) < hi)
    && (h in trees[|h|] ==> trees[|h|][h] == all[First(all, h, 0, hi)])
  }

  ghost predicate Heads(trees: seq<map<seq<byte>, RangeNode>>, all: seq<RangeNode>, hi: nat) {
    && |trees| == HASH_LENGTH
    && (forall l, h :: 0 <= l < |trees| && h in trees[l] ==> |h| == l)
    && (forall h {:trigger HeadIs(trees, all, hi, h)} :: |h| < HASH_LENGTH ==> HeadIs(trees, all, hi, h))
  }

  /** No two nodes have the same address and prefix. */
  ghost predicate Unlike(all: seq<RangeNode>) {
    forall i, j :: 0 <= i < |all| && 0 <= j < |all| && Is(all[j], all[i].ip, all[i].port, all[i].prefix) ==>
      all[i] == all[j]
  }

  ghost predicate Short(all: seq<RangeNode>) {
    forall i :: 0 <= i < |all| ==> |all[i].prefix| < HASH_LENGTH
  }

  /** `longest` is the greatest length in use, or zero. */
  ghost predicate Bounds(all: seq<RangeNode>, longest: nat) {
    && longest < HASH_LENGTH && InUse(all, longest)
    && forall i :: 0 <= i < |all| ==> |all[i].prefix| <= longest
  }

  ghost predicate InUse(all: seq<RangeNode>, longest: int) {
    longest == 0 || exists i :: 0 <= i < |all| && |all[i].prefix| == longest
  }

  /** The next node of the group of the node at `j`, among the first `hi` nodes. */
  function GroupSucc(all: seq<RangeNode>, j: nat, hi: nat): RangeNode?
    requires j < hi <= |all|
  {
    var k := First(all, all[j].prefix, j + 1, hi);
    if k < hi then all[k] else null
  }

  /** The pointer at `j` while only groups are linked, of the first `hi` nodes. */
  ghost predicate GroupNext(all: seq<RangeNode>, j: nat, hi: nat)
    reads all
  {
    j < hi <= |all| && all[j].next == GroupSucc(all, j, hi)
  }

  ghost predicate Grouped(all: seq<RangeNode>, hi: nat)
    reads all
  {
    forall j {:trigger GroupNext(all, j, hi)} :: 0 <= j < hi ==> GroupNext(all, j, hi)
  }

  ghost predicate GroupedFor(all: seq<RangeNode>, hi: nat, h: seq<byte>)
    reads all
  {
    forall j {:trigger GroupNext(all, j, hi)} :: 0 <= j < hi <= |all| && all[j].prefix == h ==> GroupNext(all, j, hi)
  }

  /** Where the pointer at `j` leads when the groups are linked, and its own, if `done`, also
      to the next shorter one. */
  ghost function CrossSucc(all: seq<RangeNode>, j: nat, done: bool): RangeNode?
    requires j < |all|
  {
    var h := all[j].prefix;
    if GroupSucc(all, j, |all|) != null || !done then GroupSucc(all, j, |all|) else NodeAt(all, ShortHead(all, h, |h|))
  }

  ghost predicate CrossNext(all: seq<RangeNode>, j: nat, done: bool)
    reads all
  {
    j < |all| && all[j].next == CrossSucc(all, j, done)
  }

  /** The prefixes whose groups the pass has come by: the longer ones, and of length `l` all but `todo`. */
  ghost predicate Reached(h: seq<byte>, l: int, todo: set<seq<byte>>) {
    |h| > l || (|h| == l && h !in todo)
  }

  ghost predicate Crossed(all: seq<RangeNode>, l: int, todo: set<seq<byte>>)
    reads all
  {
    forall j: nat {:trigger all[j]} :: j < |all| ==> CrossNext(all, j, Reached(all[j].prefix, l, todo))
  }

  function NoTrees(): seq<map<seq<byte>, RangeNode>> {
    seq(HASH_LENGTH, _ => map[])
  }

  class Map {
    var trees: seq<map<seq<byte>, RangeNode>>
    var longest: nat
    var allList: seq<RangeNode>
    /** The list the trees and chains were built from. */
    ghost var built: seq<RangeNode>

    /** The trees and chains are those of `all`. */
    ghost predicate Built(all: seq<RangeNode>)
      reads this, all
    {
      && Heads(trees, all, |all|) && Bounds(all, longest)
      && forall i :: 0 <= i < |all| ==> NextIs(all, i)
    }

    /** New nodes stand before those built in, and wait for the next rebuild. */
    ghost predicate Valid()
      reads this, allList, built
    {
      && Distinct(allList) && Short(allList) && Unlike(allList)
      && |built| <= |allList| && allList[|allList| - |built|..] == built
      && (forall n :: n in built ==> !n.deleted)
      && Built(built)
    }

    constructor ()
      ensures Valid() && allList == []
    {
      trees := NoTrees();
      longest, allList, built := 0, [], [];
    }

    /** Empties the trees, and takes the nodes marked as deleted out of the list. */
    method Clean()
      requires Distinct(allList)
      modifies this, allList`next
      ensures trees == NoTrees() && allList == Without(old(allList), old(Marked(allList))) && longest == old(longest)
      ensures forall n :: n in allList ==> n in old(allList) && !n.deleted && n.next == null
    {
      hide NoTrees, Without, Distinct;
      trees := NoTrees();
      var all, kept, i := allList, [], 0;
      ghost var gone := Marked(all);
      while i < |all|
        invariant 0 <= i <= |all| && kept + Without(all[i..], gone) == Without(all, gone)
        invariant longest == old(longest) && trees == NoTrees()
        invariant forall n :: n in kept ==> n in all && !n.deleted && n.next == null
      {
        var p := all[i];
        WithoutStep(all, gone, i);
        if !p.deleted {
          p.next := null;
          kept := kept + [p];
        }
        i := i + 1;
      }
      WithoutEnd(all, gone);
      allList := kept;
    }

    /** The end of the group that starts at `head`. */
    method LastOfGroup(head: RangeNode, ghost hi: nat) returns (s: RangeNode, ghost j: nat)
      requires hi <= |allList| && GroupedFor(allList, hi, head.prefix)
      requires exists i :: 0 <= i < hi && allList[i] == head
      ensures j < hi && s == allList[j] && s.prefix == head.prefix && GroupSucc(allList, j, hi) == null
    {
      s := head;
      j :| 0 <= j < hi && allList[j] == head;
      while s.next != null
        invariant j < hi && s == allList[j] && s.prefix == head.prefix
        decreases hi - j
      {
        assert GroupNext(allList, j, hi);
        j := First(allList, s.prefix, j + 1, hi);
        s := s.next;
      }
      assert GroupNext(allList, j, hi);
    }

    /** Puts the node at `i` into its tree, or at the end of the group of its prefix. */
    method LoadNode(ghost i: nat, p: RangeNode)
      requires i < |allList| && allList[i] == p && p.next == null && |p.prefix| < HASH_LENGTH
      requires Distinct(allList) && Heads(trees, allList, i) && Grouped(allList, i)
      modifies this`trees, allList[..i]`next
      ensures Heads(trees, allList, i + 1) && Grouped(allList, i + 1)
    {
      hide First, Heads;
      ghost var all, h, hi := allList, p.prefix, i + 1;
      var length := |p.prefix|;
      HeadOf(trees, all, i, h);
      if p.prefix in trees[length] {
        var s := trees[length][p.prefix];
        ghost var j;
        s, j := LastOfGroup(s, i);
        assert s == allList[..i][j];
        label L: s.next := p;
        HeadsGrow(trees, trees, all, i);
        forall k | 0 <= k < hi ensures GroupNext(all, k, hi) {
          GroupGrows(all, k, i);
          if k < i {
            assert old@L(GroupNext(all, k, i));
            if k != j && all[k].prefix == h { OnlyLastEnds(all, j, k, i); }
          }
        }
      } else {
        trees := trees[length := trees[length][p.prefix := p]];
        HeadsGrow(old(trees), trees, all, i);
        forall k | 0 <= k < hi ensures GroupNext(all, k, hi) {
          GroupGrows(all, k, i);
          if k < i {
            assert GroupNext(all, k, i);
            NoMember(old(trees), all, i, h, k);
          }
        }
      }
    }

    /** Loads the nodes of the list one after the other. */
    method LoadGroups()
      requires Distinct(allList) && Short(allList) && trees == NoTrees()
      requires forall n :: n in allList ==> n.next == null
      modifies this`trees, allList`next
      ensures Heads(trees, allList, |allList|) && Grouped(allList, |allList|)
    {
      var i := 0;
      NoHeads(allList);
      while i < |allList|
        invariant 0 <= i <= |allList| && Heads(trees, allList, i) && Grouped(allList, i)
        invariant forall n :: n in allList[i..] ==> n.next == null
      {
        hide Heads, Grouped;
        var p := allList[i];
        ghost var behind, before := allList[i + 1..], allList[..i + 1];
        assert forall n :: n in behind ==> n !in before;
        LoadNode(i, p);
        i := i + 1;
      }
    }

    /** Leads the group of `n` on to the longest shorter prefix, of length at most `length`. */
    method LinkShortMatch(length: int, n: RangeNode)
      requires length == |n.prefix| - 1 && |n.prefix| < HASH_LENGTH && n in allList
      requires Distinct(allList) && Heads(trees, allList, |allList|) && GroupedFor(allList, |allList|, n.prefix)
      modifies allList`next
      ensures forall j: nat {:trigger allList[j]} :: j < |allList| ==>
        if allList[j].prefix == n.prefix then CrossNext(allList, j, true) else allList[j].next == old(allList[j].next)
    {
      ghost var all := allList;
      var h, l := n.prefix, length;
      while l >= 0
        invariant -1 <= l <= length
        invariant ShortHead(all, h, |h|) == ShortHead(all, h, l + 1)
        invariant forall i: nat {:trigger all[i]} :: i < |all| ==> all[i].next == old(all[i].next)
        decreases l + 1
      {
        HeadOf(trees, all, |all|, h[..l]);
        if h[..l] in trees[l] {
          var p := trees[l][h[..l]];
          ghost var j;
          var k;
          k, j := LastOfGroup(n, |all|);
          k.next := p;
          forall i: nat | i < |all|
            ensures if all[i].prefix == h then CrossNext(all, i, true) else all[i].next == old(all[i].next)
          {
            if all[i].prefix == h {
              assert old(GroupNext(all, i, |all|));
              if i != j { OnlyLastEnds(all, j, i, |all|); }
            }
          }
          return;
        }
        l := l - 1;
      }
      forall i: nat | i < |all| && all[i].prefix == h ensures CrossNext(all, i, true) {
        assert old(GroupNext(all, i, |all|));
      }
    }

    /** Leads every group on to the next shorter one, longest prefixes first. */
    method BuildCrossDepthReference()
      requires Distinct(allList) && Short(allList) && Heads(trees, allList, |allList|) && Grouped(allList, |allList|)
      modifies this`longest, allList`next
      ensures Bounds(allList, longest) && Crossed(allList, 0, {})
    {
      var length := HASH_LENGTH - 1;
      var most := 0;
      NoneReached(allList);
      while length >= 0
        invariant -1 <= length < HASH_LENGTH && 0 <= most < HASH_LENGTH
        invariant Crossed(allList, length + 1, {}) && Seen(allList, length, most)
        decreases length + 1
      {
        hide Crossed, Heads, Seen, Short, Distinct;
        most := LinkLength(length, most);
        length := length - 1;
      }
      longest := most;
    }

    /** Links the groups of one length, whatever the order of their heads. */
    method LinkLength(length: nat, before: nat) returns (most: nat)
      requires Distinct(allList) && Short(allList) && Heads(trees, allList, |allList|)
      requires length < HASH_LENGTH && before < HASH_LENGTH
      requires Crossed(allList, length + 1, {}) && Seen(allList, length, before)
      modifies allList`next
      ensures Crossed(allList, length, {}) && most < HASH_LENGTH && Seen(allList, length - 1, most)
    {
      hide Heads, Short, Distinct, Seen, Crossed;
      most := before;
      assert |trees| == HASH_LENGTH by { HeadOf(trees, allList, |allList|, []); }
      var todo := trees[length].Keys;
      CrossBegins(trees, allList, length);
      SeenStays(trees, allList, length, most);
      while todo != {}
        invariant todo <= trees[length].Keys && Crossed(allList, length, todo) && most < HASH_LENGTH
        invariant if todo == trees[length].Keys then most == before else Seen(allList, length - 1, most)
        decreases todo
      {
        var h :| h in todo;
        HeadLength(trees, allList, length, h);
        HeadOf(trees, allList, |allList|, h);
        var n := trees[length][h];
        ghost var was := most;
        if most == 0 {
          most := length;
        }
        SeenMore(allList, length, was, most, n);
        LinkGroup(length, n, todo);
        todo := todo - {h};
      }
    }

    /** One more group of this length is linked. */
    method LinkGroup(length: nat, n: RangeNode, ghost todo: set<seq<byte>>)
      requires Distinct(allList) && Heads(trees, allList, |allList|) && n in allList
      requires |n.prefix| == length < HASH_LENGTH && n.prefix in todo && Crossed(allList, length, todo)
      modifies allList`next
      ensures Crossed(allList, length, todo - {n.prefix})
    {
      hide Heads, Distinct, GroupedFor;
      ghost var rest := todo - {n.prefix};
      CrossGroup(allList, length, todo, n.prefix);
      LinkShortMatch(length - 1, n);
      forall j: nat | j < |allList| ensures CrossNext(allList, j, Reached(allList[j].prefix, length, rest)) {
        assert old(CrossNext(allList, j, Reached(allList[j].prefix, length, todo)));
      }
    }

    /** Rebuilds trees and chains from the nodes of the list that are not deleted. */
    method Rebuild()
      requires Distinct(allList) && Short(allList) && Unlike(allList)
      modifies this, allList`next
      ensures Valid() && built == allList == Without(old(allList), old(Marked(allList)))
    {
      hide Heads, Crossed, Grouped, Bounds, NextIs, Without, NoTrees;
      WithoutKeeps(allList, Marked(allList));
      Clean();
      assert forall i :: 0 <= i < |allList| ==> allList[i] in old(allList);
      LoadGroups();
      BuildCrossDepthReference();
      CrossedIsBuilt(allList);
      built := allList;
    }

    /** The node with this address and this prefix. */
    method FindNode(ip: nat, port: nat, prefix: seq<byte>) returns (p: RangeNode?)
      ensures p != null ==> p in allList && Is(p, ip, port, prefix)
      ensures p == null ==> forall n :: n in allList ==> !Is(n, ip, port, prefix)
    {
      var i := 0;
      while i < |allList|
        invariant 0 <= i <= |allList| && forall j :: 0 <= j < i ==> !Is(allList[j], ip, port, prefix)
      {
        if Is(allList[i], ip, port, prefix) {
          return allList[i];
        }
        i := i + 1;
      }
      p := null;
    }

    /** Registers a node; lookups see it after the next rebuild. */
    method AddNode(ip: nat, port: nat, prefix: seq<byte>, deleted: bool) returns (r: Outcome)
      requires Valid() && |prefix| < HASH_LENGTH
      modifies this`allList
      ensures Valid() && built == old(built)
      ensures r == if exists n :: n in old(allList) && Is(n, ip, port, prefix) then AlreadyExists else Done
      ensures r == AlreadyExists ==> allList == old(allList)
      ensures r == Done ==> |allList| > 0 && allList[1..] == old(allList)
      ensures r == Done ==> fresh(allList[0]) && Is(allList[0], ip, port, prefix) && allList[0].deleted == deleted
    {
      hide Heads, Bounds, NextIs, Unlike;
      var p := FindNode(ip, port, prefix);
      if p != null {
        return AlreadyExists;
      }
      var n := new RangeNode(ip, port, prefix, deleted);
      UnlikeGrows(allList, n);
      allList := [n] + allList;
      assert allList[|allList| - |built|..] == old(allList)[|old(allList)| - |built|..];
      return Done;
    }

    /** Takes a node out and rebuilds. */
    method DelNode(ip: nat, port: nat, prefix: seq<byte>) returns (r: Outcome)
      requires Valid()
      modifies this, allList
      ensures Valid() && r != AlreadyExists
      ensures r == NotExists <==> forall n :: n in old(allList) ==> !Is(n, ip, port, prefix)
      ensures r == NotExists ==> built == old(built) && allList == old(allList)
      ensures r == Done ==>
        built == allList == Without(old(allList), old(Marked(allList)) + Those(old(allList), ip, port, prefix))
    {
      hide Heads, Bounds, NextIs, Without;
      var p := FindNode(ip, port, prefix);
      if p == null {
        return NotExists;
      }
      ghost var all := allList;
      assert Those(all, ip, port, prefix) == {p};
      p.deleted := true;
      assert Marked(all) == old(Marked(all)) + {p};
      Rebuild();
      return Done;
    }

    /** Takes all nodes out. */
    method DelAllNode()
      requires Valid()
      modifies this, allList
      ensures Valid() && allList == []
    {
      var i := 0;
      while i < |allList|
        invariant 0 <= i <= |allList| && allList == old(allList)
        invariant forall j :: 0 <= j < i ==> allList[j].deleted
      {
        allList[i].deleted := true;
        i := i + 1;
      }
      WithoutKeeps(allList, Marked(allList));
      WithoutAll(allList, Marked(allList));
      Rebuild();
    }

    /** Rebuilds. A second rebuild changes nothing. */
    method Flush()
      requires Valid()
      modifies this, allList`next
      ensures Valid() && built == allList == Without(old(allList), old(Marked(allList)))
      ensures old(built == allList) ==>
        allList == old(allList) && trees == old(trees) && longest == old(longest) &&
        forall n :: n in allList ==> n.next == old(n.next)
    {
      ghost var all, before, most := allList, trees, longest;
      if built == allList { WithoutNone(all, Marked(all)); }
      Rebuild();
      if old(built == allList) {
        assert old(Built(all));
        assert Built(all);
        BuiltOnce(all, before, most, trees, longest);
        forall n | n in all ensures n.next == old(n.next) {
          var i :| 0 <= i < |all| && all[i] == n;
          assert old(NextIs(all, i)) && NextIs(all, i);
        }
      }
    }

    /** The first node for a hash; its chain holds all matching nodes, longest prefix first. */
    method Find(hash: seq<byte>) returns (p: RangeNode?)
      requires Valid() && |hash| == HASH_LENGTH
      ensures Chain(p, Matching(built, hash))
    {
      var l := longest;
      while l >= 0
        invariant -1 <= l <= longest
        invariant forall m :: l < m <= longest ==> First(built, hash[..m], 0, |built|) == |built|
        decreases l + 1
      {
        var f := hash[..l];
        assert HeadIs(trees, built, |built|, f);
        if f in trees[l] {
          p := trees[l][f];
          HeadFound(built, hash, l, longest);
          ChainFrom(built, ShortHead(built, hash, |hash|));
          ShortHeadStarts(built, hash, |hash|);
          return;
        }
        l := l - 1;
      }
      NoneFound(built, hash, |hash|, longest);
      p := null;
    }

    /** How many addresses a hash has, or -1 when they are more than there is room for. */
    method GetAddresses(hash: seq<byte>, maxAddresses: nat) returns (r: int, addresses: seq<(nat, nat)>)
      requires Valid() && |hash| == HASH_LENGTH
      ensures var s := Matching(built, hash);
        && r == (if |s| <= maxAddresses then |s| else -1)
        && |addresses| == (if |s| <= maxAddresses then |s| else maxAddresses)
        && forall i :: 0 <= i < |addresses| ==> addresses[i] == (s[i].ip, s[i].port)
    {
      var n := Find(hash);
      var i := 0;
      addresses := [];
      ghost var s := Matching(built, hash);
      MatchingHolds(built, hash);
      while n != null
        invariant 0 <= i <= |s| && i <= maxAddresses && Chain(n, s[i..])
        invariant |addresses| == i && forall j :: 0 <= j < i ==> addresses[j] == (s[j].ip, s[j].port)
        decreases |s| - i
      {
        assert n == s[i] && s[i] in s && s[i..][1..] == s[i + 1..];
        assert !n.deleted;  // a node marked as deleted would be skipped here, but no chain has one
        if i >= maxAddresses {
          return -1, addresses;
        }
        addresses := addresses + [(n.ip, n.port)];
        i := i + 1;
        n := n.next;
      }
      r := i;
    }
  }

  /** The nodes marked as deleted. */
  function Marked(all: seq<RangeNode>): set<RangeNode>
    reads all`deleted
  {
    set n | n in all && n.deleted
  }

  /** The nodes with this address and prefix. */
  function Those(all: seq<RangeNode>, ip: nat, port: nat, prefix: seq<byte>): set<RangeNode> {
    set n | n in all && Is(n, ip, port, prefix)
  }

  lemma WithoutStep(all: seq<RangeNode>, gone: set<RangeNode>, i: nat)
    requires i < |all|
    ensures Without(all[i..], gone) == (if all[i] in gone then [] else [all[i]]) + Without(all[i + 1..], gone)
  {
    assert all[i..][1..] == all[i + 1..];
  }

  lemma WithoutEnd(all: seq<RangeNode>, gone: set<RangeNode>)
    ensures Without(all[|all|..], gone) == []
  {
  }

  lemma HeadOf(trees: seq<map<seq<byte>, RangeNode>>, all: seq<RangeNode>, hi: nat, h: seq<byte>)
    requires Heads(trees, all, hi) && |h| < HASH_LENGTH
    ensures HeadIs(trees, all, hi, h) && |trees| == HASH_LENGTH
    ensures h in trees[|h|] ==> exists i :: 0 <= i < hi && all[i] == trees[|h|][h]
    ensures h in trees[|h|] ==> trees[|h|][h].prefix == h
  {
    assert HeadIs(trees, all, hi, h);
  }

  lemma NoMember(trees: seq<map<seq<byte>, RangeNode>>, all: seq<RangeNode>, hi: nat, h: seq<byte>, k: nat)
    requires Heads(trees, all, hi) && k < hi <= |all| && |h| < HASH_LENGTH && h !in trees[|h|]
    ensures all[k].prefix != h
  {
    assert HeadIs(trees, all, hi, h);
  }

  /** One more node of the list: its prefix gets a head if it had none. */
  lemma HeadsGrow(trees: seq<map<seq<byte>, RangeNode>>, after: seq<map<seq<byte>, RangeNode>>, all: seq<RangeNode>,
      i: nat)
    requires i < |all| && |all[i].prefix| < HASH_LENGTH && Heads(trees, all, i)
    requires var h := all[i].prefix;
      after == if h in trees[|h|] then trees else trees[|h| := trees[|h|][h := all[i]]]
    ensures Heads(after, all, i + 1)
  {
    var h, hi := all[i].prefix, i + 1;
    assert HeadIs(trees, all, i, h);
    forall g: seq<byte> | |g| < HASH_LENGTH ensures HeadIs(after, all, hi, g) {
      assert HeadIs(trees, all, i, g);
      FirstExtends(all, g, 0, i);
    }
  }

  lemma GroupGrows(all: seq<RangeNode>, j: nat, i: nat)
    requires j <= i < |all|
    ensures j < i && (all[i].prefix != all[j].prefix || GroupSucc(all, j, i) != null) ==>
      GroupSucc(all, j, i + 1) == GroupSucc(all, j, i)
    ensures j < i && all[i].prefix == all[j].prefix && GroupSucc(all, j, i) == null ==>
      GroupSucc(all, j, i + 1) == all[i]
    ensures j == i ==> GroupSucc(all, j, i + 1) == null
  {
    if j < i { FirstExtends(all, all[j].prefix, j + 1, i); }
  }

  lemma OnlyLastEnds(all: seq<RangeNode>, j: nat, k: nat, hi: nat)
    requires j < hi <= |all| && k < hi && j != k && all[k].prefix == all[j].prefix && GroupSucc(all, j, hi) == null
    ensures GroupSucc(all, k, hi) != null
  {
  }

  lemma NoHeads(all: seq<RangeNode>)
    ensures Heads(NoTrees(), all, 0)
  {
    var trees := NoTrees();
    forall h: seq<byte> | |h| < HASH_LENGTH ensures HeadIs(trees, all, 0, h) {}
  }

  /** What `longest` is when all lengths above `l` have been seen: the greatest of them in use. */
  ghost predicate Seen(all: seq<RangeNode>, l: int, longest: int) {
    && (longest == 0 || longest > l) && InUse(all, longest)
    && forall i :: 0 <= i < |all| && |all[i].prefix| > l ==> |all[i].prefix| <= longest
  }

  lemma NoneReached(all: seq<RangeNode>)
    requires Short(all) && Grouped(all, |all|)
    ensures Crossed(all, HASH_LENGTH, {}) && Seen(all, HASH_LENGTH - 1, 0)
  {
    forall j: nat | j < |all| ensures CrossNext(all, j, Reached(all[j].prefix, HASH_LENGTH, {})) {
      assert GroupNext(all, j, |all|);
    }
  }

  lemma CrossBegins(trees: seq<map<seq<byte>, RangeNode>>, all: seq<RangeNode>, l: nat)
    requires Crossed(all, l + 1, {}) && Heads(trees, all, |all|) && l < HASH_LENGTH
    ensures Crossed(all, l, trees[l].Keys)
  {
    forall j: nat | j < |all| ensures CrossNext(all, j, Reached(all[j].prefix, l, trees[l].Keys)) {
      assert CrossNext(all, j, Reached(all[j].prefix, l + 1, {}));
      if |all[j].prefix| == l && all[j].prefix !in trees[l] { NoMember(trees, all, |all|, all[j].prefix, j); }
    }
  }

  lemma SeenStays(trees: seq<map<seq<byte>, RangeNode>>, all: seq<RangeNode>, l: nat, most: nat)
    requires Seen(all, l, most) && Heads(trees, all, |all|) && l < HASH_LENGTH
    ensures trees[l].Keys == {} ==> Seen(all, l - 1, most)
  {
    if trees[l].Keys == {} {
      forall i | 0 <= i < |all| && |all[i].prefix| == l ensures false {
        NoMember(trees, all, |all|, all[i].prefix, i);
      }
    }
  }

  lemma HeadLength(trees: seq<map<seq<byte>, RangeNode>>, all: seq<RangeNode>, l: nat, h: seq<byte>)
    requires Heads(trees, all, |all|) && l < |trees| && h in trees[l]
    ensures |h| == l
  {
  }

  lemma SeenMore(all: seq<RangeNode>, l: nat, before: nat, most: nat, n: RangeNode)
    requires n in all && |n.prefix| == l
    requires (Seen(all, l, before) || Seen(all, l - 1, before)) && before < HASH_LENGTH && l < HASH_LENGTH &&
      most == if before == 0 then l else before
    ensures Seen(all, l - 1, most)
  {
  }

  lemma CrossGroup(all: seq<RangeNode>, l: nat, todo: set<seq<byte>>, h: seq<byte>)
    requires Crossed(all, l, todo) && h in todo && |h| == l
    ensures GroupedFor(all, |all|, h)
  {
    forall j: nat | j < |all| && all[j].prefix == h ensures GroupNext(all, j, |all|) {
      assert CrossNext(all, j, Reached(all[j].prefix, l, todo));
    }
  }

  ghost predicate Inside(s: seq<RangeNode>, all: seq<RangeNode>, gone: set<RangeNode>) {
    forall i {:trigger s[i]} :: 0 <= i < |s| ==> s[i] in all && s[i] !in gone
  }

  lemma {:induction false} WithoutInside(all: seq<RangeNode>, gone: set<RangeNode>)
    ensures Inside(Without(all, gone), all, gone)
    ensures forall n :: n in all && n !in gone ==> n in Without(all, gone)
    ensures Distinct(all) ==> Distinct(Without(all, gone))
  {
    if all == [] {
    } else {
      WithoutInside(all[1..], gone);
      var s, rest := Without(all, gone), Without(all[1..], gone);
      var k := |s| - |rest|;
      forall i | 0 <= i < |s| ensures s[i] in all && s[i] !in gone && (i >= k ==> s[i] in all[1..]) {
        if i >= k { assert s[i] == rest[i - k]; }
      }
      if Distinct(all) {
        assert all[0] !in all[1..];
        forall i, j | 0 <= i < j < |s| ensures s[i] != s[j] {
          if i >= k { assert s[i] == rest[i - k] && s[j] == rest[j - k]; }
        }
      }
    }
  }

  lemma WithoutKeeps(all: seq<RangeNode>, gone: set<RangeNode>)
    requires Distinct(all) && Short(all) && Unlike(all)
    ensures Distinct(Without(all, gone)) && Short(Without(all, gone)) && Unlike(Without(all, gone))
    ensures Inside(Without(all, gone), all, gone)
  {
    hide Without;
    WithoutInside(all, gone);
  }

  lemma UnlikeGrows(all: seq<RangeNode>, n: RangeNode)
    requires Unlike(all) && forall m :: m in all ==> !Is(m, n.ip, n.port, n.prefix)
    ensures Unlike([n] + all)
  {
    var more := [n] + all;
    assert forall k :: 0 < k < |more| ==> more[k] == all[k - 1] && more[k] in all;
  }

  lemma WithoutAll(all: seq<RangeNode>, gone: set<RangeNode>)
    requires forall n :: n in all ==> n in gone
    ensures Without(all, gone) == []
  {
    WithoutInside(all, gone);
  }

  lemma {:induction false} WithoutNone(all: seq<RangeNode>, gone: set<RangeNode>)
    requires forall n :: n in all ==> n !in gone
    ensures Without(all, gone) == all
  {
    if all == [] {
    } else {
      WithoutNone(all[1..], gone);
    }
  }

  lemma CrossedIsBuilt(all: seq<RangeNode>)
    requires Short(all) && Crossed(all, 0, {})
    ensures forall i :: 0 <= i < |all| ==> NextIs(all, i)
  {
    forall i: nat | i < |all| ensures NextIs(all, i) {
      assert CrossNext(all, i, Reached(all[i].prefix, 0, {}));
    }
  }

  predicate Is(n: RangeNode, ip: nat, port: nat, prefix: seq<byte>) {
    n.ip == ip && n.port == port && n.prefix == prefix
  }

  /** The trees and `longest` depend on nothing but the list they are built from; so do, by
      `NextIs`, the chains. What was registered and deleted before leaves no trace. */
  lemma BuiltOnce(all: seq<RangeNode>, trees: seq<map<seq<byte>, RangeNode>>, longest: nat,
                  trees': seq<map<seq<byte>, RangeNode>>, longest': nat)
    requires Short(all) && Heads(trees, all, |all|) && Heads(trees', all, |all|)
    requires Bounds(all, longest) && Bounds(all, longest')
    ensures trees == trees' && longest == longest'
  {
    forall l | 0 <= l < HASH_LENGTH ensures trees[l] == trees'[l] {
      forall h | h in trees[l] ensures h in trees'[l] && trees'[l][h] == trees[l][h] {
        assert HeadIs(trees, all, |all|, h) && HeadIs(trees', all, |all|, h);
      }
      forall h | h in trees'[l] ensures h in trees[l] {
        assert HeadIs(trees, all, |all|, h) && HeadIs(trees', all, |all|, h);
      }
      assert trees[l].Keys == trees'[l].Keys;
    }
  }

  ghost predicate FirstOn(all: seq<RangeNode>, h: seq<byte>, lo: nat, hi: nat) {
    lo <= hi < |all| && First(all, h, lo, hi + 1) ==
      if First(all, h, lo, hi) < hi then First(all, h, lo, hi) else if all[hi].prefix == h then hi else hi + 1
  }

  lemma {:induction false} FirstExtends(all: seq<RangeNode>, h: seq<byte>, lo: nat, hi: nat)
    requires lo <= hi < |all|
    ensures FirstOn(all, h, lo, hi)
    decreases hi - lo
  {
    if lo == hi || all[lo].prefix == h {
    } else {
      FirstExtends(all, h, lo + 1, hi);
    }
  }

  lemma MatchingHolds(all: seq<RangeNode>, hash: seq<byte>)
    ensures forall n :: n in Matching(all, hash) ==> n in all
  {
    forall n | n in Matching(all, hash) ensures n in all {
      ShorterHolds(all, hash, |hash|, n);
    }
  }

  lemma {:induction false} NoGroup(all: seq<RangeNode>, h: seq<byte>, lo: nat, longest: nat)
    requires lo <= |all| && Bounds(all, longest) && |h| > longest
    ensures First(all, h, lo, |all|) == |all|
  {
  }

  /** No length above `l` has a match, so the head at `l` is where the matches start. */
  lemma {:induction false} HeadFound(all: seq<RangeNode>, hash: seq<byte>, l: nat, longest: nat)
    requires |hash| == HASH_LENGTH && l <= longest && Bounds(all, longest)
    requires First(all, hash[..l], 0, |all|) < |all|
    requires forall m :: l < m <= longest ==> First(all, hash[..m], 0, |all|) == |all|
    ensures ShortHead(all, hash, |hash|) == First(all, hash[..l], 0, |all|)
  {
    ShortHeadAbove(all, hash, l, |hash|, longest);
  }

  lemma {:induction false} ShortHeadAbove(all: seq<RangeNode>, hash: seq<byte>, l: nat, top: nat, longest: nat)
    requires |hash| == HASH_LENGTH && l < top <= |hash| && Bounds(all, longest)
    requires First(all, hash[..l], 0, |all|) < |all|
    requires forall m :: l < m <= longest ==> First(all, hash[..m], 0, |all|) == |all|
    ensures ShortHead(all, hash, top) == First(all, hash[..l], 0, |all|)
  {
    if l + 1 >= top {
    } else {
      if top - 1 > longest { NoGroup(all, hash[..top - 1], 0, longest); }
      ShortHeadAbove(all, hash, l, top - 1, longest);
    }
  }

  lemma {:induction false} NoneFound(all: seq<RangeNode>, hash: seq<byte>, top: nat, longest: nat)
    requires |hash| == HASH_LENGTH && top <= |hash| && Bounds(all, longest)
    requires forall m :: 0 <= m <= longest ==> First(all, hash[..m], 0, |all|) == |all|
    ensures Shorter(all, hash, top) == []
  {
    if top == 0 {
    } else {
      if top - 1 > longest { NoGroup(all, hash[..top - 1], 0, longest); }
      GroupSkips(all, hash[..top - 1], 0);
      NoneFound(all, hash, top - 1, longest);
    }
  }
}
