/** The file cache: entries are lent, counted, and evicted from the tail. A method is what happens
    under one locking. */
module FileCache {
  import opened Bytes
  import opened Sequences

  const PATH_MAX := 256

  class Entry {
    const name: string
    const size: nat
    var borrowCnt: int
    var purged: bool
    /** How often the memory was given back. */
    ghost var frees: nat
    /** How often it was lent and not given back. */
    ghost var loans: nat

    constructor (name: string, size: nat)
      ensures this.name == name && this.size == size && borrowCnt == 0 && !purged && frees == 0 && loans == 0
    {
      this.name, this.size := name, size;
      borrowCnt, purged, frees, loans := 0, false, 0, 0;
    }
  }

  function Sum(l: seq<Entry>): nat {
    if l == [] then 0 else l[0].size + Sum(l[1..])
  }

  lemma {:induction false} SumSplits(a: seq<Entry>, b: seq<Entry>)
    ensures Sum(a + b) == Sum(a) + Sum(b)
  {
    if a == [] {
      assert a + b == b;
    } else {
      SumSplits(a[1..], b);
      assert (a + b)[1..] == a[1..] + b;
    }
  }

  lemma SumOfNone()
    ensures Sum([]) == 0
  {
  }

  lemma SumFrom(l: seq<Entry>, k: nat)
    requires k < |l|
    ensures Sum(l[k..]) == l[k].size + Sum(l[k + 1..])
  {
    assert l[k..][1..] == l[k + 1..];
  }

  lemma SumOfLast(l: seq<Entry>)
    requires l != []
    ensures Sum(l) == Sum(l[..|l| - 1]) + l[|l| - 1].size
  {
    SumSplits(l[..|l| - 1], [l[|l| - 1]]);
    assert l == l[..|l| - 1] + [l[|l| - 1]];
    assert [l[|l| - 1]][1..] == [];
  }

  lemma {:induction false} SansSum(l: seq<Entry>, e: Entry)
    requires Distinct(l)
    ensures Distinct(Sans(l, e)) && |Sans(l, e)| <= |l|
    ensures Sum(Sans(l, e)) <= Sum(l) && (e in l ==> Sum(Sans(l, e)) == Sum(l) - e.size)
  {
    if l == [] {
    } else {
      SansSum(l[1..], e);
      assert l[0] !in l[1..];
      SansMember(l[1..], e, l[0]);
      var rest := Sans(l[1..], e);
      assert e in l <==> l[0] == e || e in l[1..];
      if l[0] == e {
        SansAbsent(l[1..], e);
        assert Sans(l, e) == rest;
      } else {
        assert forall i :: 0 < i <= |rest| ==> ([l[0]] + rest)[i] == rest[i - 1];
        assert Sans(l, e) == [l[0]] + rest && ([l[0]] + rest)[1..] == rest;
      }
    }
  }

  /** The tree has exactly the entries of the main list, under their names. */
  ghost predicate Indexed(main: seq<Entry>, tree: map<string, Entry>) {
    && (forall i :: 0 <= i < |main| ==> main[i].name in tree && tree[main[i].name] == main[i])
    && (forall n :: n in tree ==> InList(main, tree[n]) && tree[n].name == n)
  }

  predicate InList(l: seq<Entry>, e: Entry) {
    e in l
  }

  /** A list of the same entries but `p` is indexed by the tree without the name of `p`. */
  lemma IndexedWithout(main: seq<Entry>, tree: map<string, Entry>, p: Entry, l: seq<Entry>)
    requires Indexed(main, tree) && p in main
    requires (forall i :: 0 <= i < |l| ==> l[i] in main && l[i] != p) &&
      (forall i :: 0 <= i < |main| ==> main[i] == p || main[i] in l)
    ensures Indexed(l, tree - {p.name})
  {
    var t := tree - {p.name};
    assert tree[p.name] == p;
    forall i | 0 <= i < |l| ensures l[i].name in t && t[l[i].name] == l[i] {
      assert l[i] in main;
    }
    forall n | n in t ensures InList(l, t[n]) {
      assert InList(main, tree[n]);
    }
  }

  lemma UnlinkedIndexed(main: seq<Entry>, tree: map<string, Entry>, p: Entry)
    requires Distinct(main) && Indexed(main, tree) && p in main
    ensures Distinct(Sans(main, p)) && Indexed(Sans(main, p), tree - {p.name})
  {
    hide Distinct, Sans, Sum, Indexed;
    SansSum(main, p);
    var l := Sans(main, p);
    forall i | 0 <= i < |l| ensures l[i] in main && l[i] != p { SansMember(main, p, l[i]); }
    forall i | 0 <= i < |main| ensures main[i] == p || main[i] in l { SansMember(main, p, main[i]); }
    IndexedWithout(main, tree, p, l);
  }

  /** A list of the same entries is indexed by the same tree. */
  lemma IndexedAlike(main: seq<Entry>, tree: map<string, Entry>, l: seq<Entry>)
    requires Indexed(main, tree)
    requires (forall i :: 0 <= i < |l| ==> l[i] in main) && (forall i :: 0 <= i < |main| ==> main[i] in l)
    ensures Indexed(l, tree)
  {
    forall i | 0 <= i < |l| ensures l[i].name in tree && tree[l[i].name] == l[i] {
      assert l[i] in main;
    }
    forall n | n in tree ensures InList(l, tree[n]) {
      assert InList(main, tree[n]);
    }
  }

  lemma InsertedIndexed(main: seq<Entry>, tree: map<string, Entry>, p: Entry)
    requires Distinct(main) && Indexed(main, tree) && p.name !in tree
    ensures p !in main && Distinct([p] + main) && Indexed([p] + main, tree[p.name := p])
  {
    var l := [p] + main;
    assert forall i :: 0 < i < |l| ==> l[i] == main[i - 1] && l[i] in main;
  }

  lemma InsertedSum(main: seq<Entry>, purged: seq<Entry>, p: Entry, all: set<Entry>)
    requires p !in all && Within(main, all) && Within(purged, all)
    ensures p !in purged && Within([p] + main, all + {p}) && Within(purged, all + {p})
    ensures Sum([p] + main) == p.size + Sum(main)
  {
    PushedSum(main, p);
  }

  ghost predicate Within(l: seq<Entry>, all: set<Entry>) {
    forall i :: 0 <= i < |l| ==> l[i] in all
  }

  class Cache {
    /** The limit on the sizes cached; none if it is not positive. */
    var sizeMax: int
    var sizeTotal: int
    var tree: map<string, Entry>
    var main: seq<Entry>
    var purgedList: seq<Entry>
    /** Entries that are or once were in the cache. */
    ghost var all: set<Entry>
    /** An entry was given back more often than lent. */
    ghost var misused: bool

    /** An entry is cached, or evicted and still lent, or freed, and freed once at most. */
    ghost predicate Held(e: Entry)
      reads this`main, this`purgedList, this`misused, e
    {
      && (e in main <==> !e.purged && e.frees == 0) && (e in purgedList <==> e.purged && e.frees == 0)
      && e.frees <= 1 && (e.frees == 1 ==> e.borrowCnt == 0)
      && (!misused ==> e.borrowCnt == e.loans && (e in purgedList ==> e.borrowCnt > 0))
    }

    ghost predicate Valid()
      reads this, all
    {
      && Distinct(main) && Distinct(purgedList) && Indexed(main, tree) && Within(main, all) && Within(purgedList, all)
      && (forall e {:trigger Held(e)} :: e in all ==> Held(e))
      && sizeTotal >= Sum(main)
    }

    constructor (sizeMax: int)
      ensures Valid() && this.sizeMax == sizeMax && main == [] && all == {} && !misused
    {
      this.sizeMax := sizeMax;
      sizeTotal, tree, main, purgedList := 0, map[], [], [];
      all, misused := {}, false;
    }

    /** In every run without misuse: an entry that is lent is not freed, and known as cached or as
        evicted; one that is not lent is cached or freed. */
    lemma LentIsKept(e: Entry)
      requires Valid() && e in all && !misused
      ensures e.borrowCnt == e.loans
      ensures e.loans > 0 ==> e.frees == 0 && (e in main || e in purgedList)
      ensures e.loans == 0 ==> (e in main <==> e.frees == 0) && e.frees <= 1
    {
      assert Held(e);
    }

    /** `file_lru_setup` sets the limit at any time; what is cached stays. */
    method Setup(sizeMax: int)
      requires Valid()
      modifies this`sizeMax
      ensures Valid() && this.sizeMax == sizeMax
    {
      this.sizeMax := sizeMax;
    }

    /** Takes an entry out of tree and main list: lent ones are kept aside, others freed. */
    method Evict(p: Entry)
      requires Valid() && p in main && p in all
      modifies this`tree, this`main, this`purgedList, p`purged, p`frees
      ensures main == Sans(old(main), p) && Distinct(main) && Distinct(purgedList) && Indexed(main, tree)
      ensures Within(main, all) && Within(purgedList, all)
      ensures forall e {:trigger Held(e)} :: e in all ==> Held(e)
      ensures purgedList == if p.borrowCnt != 0 then [p] + old(purgedList) else old(purgedList)
      ensures p.frees == old(p.frees) + (if p.borrowCnt != 0 then 0 else 1)
    {
      hide Sans, Distinct, Indexed, Within, Sum;
      assert Held(p);
      UnlinkedIndexed(main, tree, p);
      PushedDistinct(purgedList, p);
      WithinSans(main, p, all);
      PushedWithin(purgedList, p, all);
      main := Sans(main, p);
      tree := tree - {p.name};
      if p.borrowCnt != 0 {
        p.purged := true;
        purgedList := [p] + purgedList;
      } else {
        p.frees := p.frees + 1;
      }
      forall e | e in all ensures Held(e) {
        assert old(Held(e));
      }
    }

    /** One round of `file_lru_purge_all`; the total is left as it is. */
    method PurgeHead()
      requires Valid() && main != []
      modifies this`tree, this`main, this`purgedList, main`purged, main`frees
      ensures Valid() && |main| < |old(main)| && sizeTotal == old(sizeTotal)
    {
      hide Sans, Distinct, Indexed, Sum, Within;
      var p := main[0];
      Among(main, 0, all);
      SansSum(main, p);
      SansShorter(main, p);
      Evict(p);
    }

    /** `file_lru_purge_all` */
    method PurgeAll()
      requires Valid()
      modifies this`tree, this`main, this`purgedList, all`purged, all`frees
      ensures Valid() && main == [] && tree == map[] && sizeTotal == old(sizeTotal)
    {
      while main != []
        invariant Valid() && sizeTotal == old(sizeTotal)
        decreases |main|
      {
        PurgeHead();
      }
      assert tree.Keys == {};
    }

    method PurgeTail(p: Entry)
      requires Valid() && main != [] && main[|main| - 1] == p
      modifies this`sizeTotal, this`tree, this`main, this`purgedList, p`purged, p`frees
      ensures Valid() && TailGone(old(main), main) && sizeTotal == old(sizeTotal) - p.size
    {
      hide Sans, Distinct, Indexed, Sum, Within, TailGone;
      Among(main, |main| - 1, all);
      TailLeaves(main, p);
      Evict(p);
      sizeTotal := sizeTotal - p.size;
    }

    /** `__file_lru_purge`: evicts from the tail until there is room, or nothing is left. */
    method Purge(fileSize: nat)
      requires Valid()
      modifies this`sizeTotal, this`tree, this`main, this`purgedList, all`purged, all`frees
      ensures Valid() && (sizeMax - sizeTotal >= fileSize || main == [])
      ensures |main| <= |old(main)| && main == old(main)[..|main|]
      ensures sizeTotal == old(sizeTotal) - Sum(old(main)[|main|..])
      ensures |main| < |old(main)| ==> sizeMax - (sizeTotal + old(main)[|main|].size) < fileSize
    {
      hide Distinct, Indexed, Sum, Within, Held;
      ghost var was := main;
      assert was[|was|..] == [];
      SumOfNone();
      while sizeMax - sizeTotal < fileSize
        invariant Valid() && |main| <= |was| && main == was[..|main|]
        invariant sizeTotal == old(sizeTotal) - Sum(was[|main|..])
        invariant |main| < |was| ==> sizeMax - (sizeTotal + was[|main|].size) < fileSize
        decreases |main|
      {
        if main == [] {
          break;
        }
        SumFrom(was, |main| - 1);
        Among(main, |main| - 1, all);
        PurgeTail(main[|main| - 1]);
      }
    }

    ghost function Cached(name: string): set<Entry>
      reads this`tree
    {
      if name in tree then {tree[name]} else {}
    }

    /** A file that is cached is lent at once. */
    method BorrowCached(name: string) returns (p: Entry?)
      requires Valid()
      modifies Cached(name)`borrowCnt, Cached(name)`loans
      ensures Valid() && (p != null <==> name in tree) && (p != null ==> p.name == name)
      ensures p != null ==> p == tree[name] && p.borrowCnt == old(p.borrowCnt) + 1 && p.loans == old(p.loans) + 1
    {
      if name !in tree {
        return null;
      }
      p := tree[name];
      p.borrowCnt, p.loans := p.borrowCnt + 1, p.loans + 1;
      hide Distinct, Indexed, Sum;
      forall e | e in all ensures Held(e) {
        assert old(Held(e));
      }
    }

    /** A cached entry is lent and becomes the most recent. */
    method Refresh(e: Entry)
      requires Valid() && e in main
      modifies this`main, e`borrowCnt, e`loans
      ensures Valid() && main == [e] + Sans(old(main), e)
      ensures e.borrowCnt == old(e.borrowCnt) + 1 && e.loans == old(e.loans) + 1
    {
      hide Sans, Distinct, Indexed, Sum, Within;
      RefreshedIndexed(main, tree, e, all);
      e.borrowCnt, e.loans := e.borrowCnt + 1, e.loans + 1;
      main := [e] + Sans(main, e);
      forall x | x in all ensures Held(x) {
        assert old(Held(x));
      }
    }

    /** An entry as loading makes it. */
    ghost predicate Untouched(p: Entry)
      reads p
    {
      p.borrowCnt == 0 && !p.purged && p.frees == 0 && p.loans == 0
    }

    method Insert(p: Entry)
      requires Valid() && Untouched(p) && p !in all && p.name !in tree
      modifies this`sizeTotal, this`tree, this`main, this`all, p`borrowCnt, p`loans
      ensures Valid() && main == [p] + old(main) && all == old(all) + {p} && p.borrowCnt == 1 && p.loans == 1
      ensures sizeTotal == old(sizeTotal) + p.size
    {
      hide Distinct, Indexed, Sum, Within;
      InsertedIndexed(main, tree, p);
      InsertedSum(main, purgedList, p, all);
      p.borrowCnt, p.loans := p.borrowCnt + 1, p.loans + 1;
      sizeTotal := sizeTotal + p.size;
      tree := tree[p.name := p];
      main := [p] + main;
      all := all + {p};
      forall x | x in all ensures Held(x) {
        if x != p { assert old(Held(x)); }
      }
    }

    /** Behind a new entry, the entries that are left are the foremost, and no more are gone than must be. */
    ghost predicate Room(was: seq<Entry>, total: int, p: Entry)
      reads this`main, this`sizeMax, this`sizeTotal
    {
      main != [] && RoomFor(was, main[1..], total, sizeTotal - p.size, sizeMax, p.size)
    }

    /** A file just loaded is put into the cache and lent, unless it has come into the cache meanwhile: then
        the other entry is lent, as the most recent. The limit may have been lowered since loading checked the
        size; then the file is alone in the cache, and too large. */
    method BorrowLoaded(p: Entry) returns (e: Entry)
      requires Valid() && Untouched(p) && p !in all
      modifies this`sizeTotal, this`tree, this`main, this`purgedList, this`all, p, all`borrowCnt, all`loans, all`purged,
        all`frees
      ensures Valid() && main != [] && main[0] == e && e.name == p.name && old(all) <= all
      ensures forall x :: x in old(all) && x != e ==> x.borrowCnt == old(x.borrowCnt) && x.loans == old(x.loans)
      ensures p.name in old(tree) ==> e == old(tree)[p.name] && p.frees == 1 && main[1..] == Sans(old(main), e)
      ensures p.name in old(tree) ==>
        e.borrowCnt == old(tree[p.name].borrowCnt) + 1 && e.loans == old(tree[p.name].loans) + 1
      ensures p.name in old(tree) ==> tree == old(tree) && sizeTotal == old(sizeTotal)
      ensures p.name !in old(tree) ==> e == p && e.borrowCnt == e.loans == 1 && Room(old(main), old(sizeTotal), p)
      ensures p.name !in old(tree) && sizeMax > 0 ==> (Sum(main) <= sizeMax <==> p.size <= sizeMax)
      ensures p.name !in old(tree) && 0 < sizeMax < p.size ==> main == [p]
    {
      hide Distinct, Indexed, Sum, Within;
      TreeEntry(main, tree, all, p.name);
      if p.name in tree {
        e := tree[p.name];
        Refresh(e);
        p.frees := 1;
        return;
      }
      ghost var was, before := main, tree;
      AllLeft(was, sizeTotal, sizeMax, p.size);
      if sizeMax > 0 {
        var newTotal := sizeTotal + p.size;
        if newTotal > sizeMax {
          Purge(p.size);
        }
      }
      NoNewName(was, before, main, tree, p.name);
      PushedSum(main, p);
      ghost var left := main;
      assert RoomFor(was, left, old(sizeTotal), sizeTotal, sizeMax, p.size);
      Insert(p);
      assert main[1..] == left;
      e := p;
    }

    /** What loading accepts: a file that is there, not empty, and within the limit. */
    predicate Loads(name: string, disk: map<string, nat>)
      reads this`sizeMax
    {
      name in disk && disk[name] > 0 && (sizeMax > 0 ==> disk[name] <= sizeMax)
    }

    /** `file_lru_borrow`, with nothing in between; `known` is the bloom filter's answer, `disk` the
        sizes of the files. */
    method Borrow(name: string, known: bool, disk: map<string, nat>) returns (e: Entry?)
      requires Valid()
      modifies this`sizeTotal, this`tree, this`main, this`purgedList, this`all, all`borrowCnt, all`loans, all`purged,
        all`frees
      ensures Valid() && old(all) <= all
      ensures e != null <==>
        && 0 < |name| < 256 && known
        && (name in old(tree) || (name in disk && 0 < disk[name] && (sizeMax <= 0 || disk[name] <= sizeMax)))
      ensures e != null ==> e.name == name && name in tree && tree[name] == e && e in all
      ensures e != null ==> e.borrowCnt == (if name in old(tree) then old(tree[name].borrowCnt) else 0) + 1
      ensures e != null ==> e.loans == (if name in old(tree) then old(tree[name].loans) else 0) + 1
      ensures forall x :: x in old(all) && x != e ==> x.borrowCnt == old(x.borrowCnt) && x.loans == old(x.loans)
      ensures e == null || name in old(tree) ==> main == old(main) && tree == old(tree) && sizeTotal == old(sizeTotal)
      ensures e != null && name !in old(tree) ==> e.size == disk[name] && Room(old(main), old(sizeTotal), e)
      ensures e != null && sizeMax > 0 && name !in old(tree) ==> Sum(main) <= sizeMax
    {
      if |name| == 0 || |name| >= PATH_MAX || !known {
        return null;
      }
      assert name in tree ==> InList(main, tree[name]) && tree[name] in all;
      e := BorrowCached(name);
      if e != null {
        return;
      }
      if !Loads(name, disk) {
        return null;
      }
      var p := new Entry(name, disk[name]);
      e := BorrowLoaded(p);
      assert e in main;
    }

    /** `file_lru_return`: false when the entry was not lent. */
    method Return(p: Entry) returns (ok: bool)
      requires Valid() && p in all && p.frees == 0
      modifies this`purgedList, this`misused, p`borrowCnt, p`loans, p`frees
      ensures Valid() && main == old(main) && ok == (old(p.borrowCnt) > 0) && p.borrowCnt == old(p.borrowCnt) - 1
      ensures p.frees == 1 <==> old(p.purged) && old(p.borrowCnt) == 1
      ensures misused == (old(misused) || !ok) && p.loans == if old(p.loans) > 0 then old(p.loans) - 1 else 0
    {
      hide Sans, Sum, Distinct, Indexed, Within;
      assert Held(p);
      p.borrowCnt, p.loans := p.borrowCnt - 1, if p.loans > 0 then p.loans - 1 else 0;
      if p.borrowCnt < 0 {
        misused := true;
        forall x | x in all ensures Held(x) { assert old(Held(x)); }
        return false;
      }
      ok := true;
      if !p.purged || p.borrowCnt > 0 {
        forall x | x in all ensures Held(x) { assert old(Held(x)); }
        return;
      }
      SansSum(purgedList, p);
      WithinSans(purgedList, p, all);
      purgedList := Sans(purgedList, p);
      p.frees := p.frees + 1;
      forall x | x in all ensures Held(x) {
        assert old(Held(x));
      }
    }
  }

  /** `left` of the entries `was` with `rest` of `total` bytes, to have room for `need` of at most `max`. */
  ghost predicate RoomFor(was: seq<Entry>, left: seq<Entry>, total: int, rest: int, max: int, need: nat) {
    && left <= was && rest == total - Sum(was[|left|..])
    && (max <= 0 || total + need <= max ==> left == was)
    && (|left| < |was| ==> max - (rest + was[|left|].size) < need)
  }

  lemma AllLeft(was: seq<Entry>, total: int, max: int, need: nat)
    ensures RoomFor(was, was, total, total, max, need)
  {
    assert was[|was|..] == [];
  }

  ghost predicate TailGone(a: seq<Entry>, b: seq<Entry>) {
    a != [] && b == a[..|a| - 1]
  }

  lemma TailLeaves(l: seq<Entry>, p: Entry)
    requires l != [] && l[|l| - 1] == p && Distinct(l)
    ensures p in l && TailGone(l, Sans(l, p)) && Sum(l) == Sum(Sans(l, p)) + p.size
  {
    SansLast(l);
    SumOfLast(l);
  }

  lemma SansLast(l: seq<Entry>)
    requires l != [] && Distinct(l)
    ensures Sans(l, l[|l| - 1]) == l[..|l| - 1]
  {
    SansOfLast(l, |l| - 1);
  }

  lemma {:induction false} SansOfLast(l: seq<Entry>, k: nat)
    requires Distinct(l) && k == |l| - 1
    ensures Sans(l, l[k]) == l[..k]
  {
    if k > 0 {
      SansOfLast(l[1..], k - 1);
      assert l[1..][k - 1] == l[k] && l[..k] == [l[0]] + l[1..][..k - 1];
    } else {
      assert l[1..] == [];
    }
  }

  lemma RefreshedIndexed(main: seq<Entry>, tree: map<string, Entry>, e: Entry, all: set<Entry>)
    requires Distinct(main) && Indexed(main, tree) && e in main && Within(main, all)
    ensures var l := [e] + Sans(main, e); Distinct(l) && Indexed(l, tree) && Sum(l) == Sum(main)
    ensures Within([e] + Sans(main, e), all) && forall x: Entry :: x in [e] + Sans(main, e) <==> x in main
  {
    hide Sans, Distinct, Sum, Indexed;
    var rest := Sans(main, e);
    SansSum(main, e);
    WithinSans(main, e, all);
    PushedDistinct(rest, e);
    PushedSum(rest, e);
    IndexedAlike(main, tree, [e] + rest);
    WithinAlike(main, [e] + rest, all);
  }

  lemma PushedSum(l: seq<Entry>, p: Entry)
    ensures Sum([p] + l) == p.size + Sum(l) && (l == [] ==> Sum([p] + l) == p.size)
  {
    assert ([p] + l)[1..] == l;
  }

  lemma TreeEntry(main: seq<Entry>, tree: map<string, Entry>, all: set<Entry>, name: string)
    requires Indexed(main, tree) && Within(main, all)
    ensures name in tree ==> tree[name] in main && tree[name] in all && tree[name].name == name
  {
    if name in tree { assert InList(main, tree[name]); }
  }

  /** A tree of fewer entries has no new names. */
  lemma NoNewName(main: seq<Entry>, tree: map<string, Entry>, l: seq<Entry>, t: map<string, Entry>, name: string)
    requires Indexed(main, tree) && Indexed(l, t) && l <= main && name !in tree
    ensures name !in t
  {
  }

  lemma Among(l: seq<Entry>, i: nat, all: set<Entry>)
    requires Within(l, all) && i < |l|
    ensures l[i] in l && l[i] in all
  {
  }

  lemma WithinAlike(l: seq<Entry>, m: seq<Entry>, all: set<Entry>)
    requires Within(l, all) && forall i :: 0 <= i < |m| ==> m[i] in l
    ensures Within(m, all)
  {
  }

  lemma WithinSans(l: seq<Entry>, e: Entry, all: set<Entry>)
    requires Within(l, all)
    ensures Within(Sans(l, e), all) && forall x: Entry :: x in Sans(l, e) <==> x in l && x != e
  {
    hide Sans;
    var m := Sans(l, e);
    forall x: Entry ensures x in m <==> x in l && x != e { SansMember(l, e, x); }
    forall i | 0 <= i < |m| ensures m[i] in l { SansMember(l, e, m[i]); }
    WithinAlike(l, m, all);
  }

  lemma PushedWithin(l: seq<Entry>, p: Entry, all: set<Entry>)
    requires Within(l, all) && p in all
    ensures Within([p] + l, all)
  {
  }

  lemma PushedDistinct(l: seq<Entry>, p: Entry)
    requires Distinct(l)
    ensures p !in l ==> Distinct([p] + l)
  {
    var m := [p] + l;
    assert forall i :: 0 < i < |m| ==> m[i] == l[i - 1] && m[i] in l;
  }

  lemma {:induction false} SansShorter(l: seq<Entry>, e: Entry)
    requires e in l
    ensures |Sans(l, e)| < |l|
  {
    if l[0] == e {
      SansLonger(l[1..], e);
    } else {
      SansShorter(l[1..], e);
    }
  }

  lemma {:induction false} SansLonger(l: seq<Entry>, e: Entry)
    ensures |Sans(l, e)| <= |l|
  {
    if l == [] {
    } else {
      SansLonger(l[1..], e);
    }
  }
}
