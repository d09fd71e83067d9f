/** The head-match tree: registering patterns, compiling the tables, matching a string. */
module Hmt {
  import opened Bytes
  import opened Patterns
  import opened Trie
  import opened JumpTables
  import TrieCorrect
  import Matcher

  const ITEM_MAX: nat := 111

  datatype Scale = Scale16 | Scale32 | Scale64 | Scale128 | Scale512 | ScaleOther

  function PatternLengthMax(scale: Scale): nat {
    match scale
    case Scale16 => 16
    case Scale32 => 32
    case Scale64 => 64
    case Scale128 => 128
    case Scale512 => 512
    case ScaleOther => 128
  }

  datatype Item<U> = Item(pattern: seq<byte>, userdata: U)

  /** The patterns of an item array. */
  ghost function PatternsOf<U>(items: seq<Item<U>>): (ps: seq<seq<byte>>)
    ensures |ps| == |items| && forall i :: 0 <= i < |items| ==> ps[i] == items[i].pattern
  {
    seq(|items|, i requires 0 <= i < |items| => items[i].pattern)
  }

  /** What an item array registers, without regard to order. */
  ghost function RegistryOf<U>(items: seq<Item<U>>): map<seq<byte>, U> {
    map i | 0 <= i < |items| && forall j :: i < j < |items| ==> items[j].pattern != items[i].pattern
      :: items[i].pattern := items[i].userdata
  }

  /** The naive meaning of a match: the longest registered pattern that begins `str`. */
  ghost predicate IsAnswer<U>(registry: map<seq<byte>, U>, str: seq<byte>, answer: Option<(U, nat)>) {
    match answer
    case None => forall p :: p in registry ==> !(p <= str)
    case Some((u, length)) =>
      exists p :: p in registry && p <= str && registry[p] == u && |p| == length
                  && forall q :: q in registry && q <= str ==> |q| <= |p|
  }

  ghost function AnswerAt<U>(items: seq<Item<U>>, r: int): Option<(U, nat)>
    requires -1 <= r < |items|
  {
    if r == -1 then None else Some((items[r].userdata, |items[r].pattern|))
  }

  ghost predicate WellKept<U>(items: seq<Item<U>>, max: nat) {
    var ps := PatternsOf(items);
    && |items| < ITEM_MAX
    && Descending(ps) && AllText(ps)
    && forall i :: 0 <= i < |ps| ==> 0 < |ps[i]| < max
  }

  lemma DistinctPatterns<U>(items: seq<Item<U>>, i: int, j: int)
    requires Descending(PatternsOf(items)) && AllText(PatternsOf(items)) && 0 <= i < j < |items|
    ensures items[i].pattern != items[j].pattern
  {
    var ps := PatternsOf(items);
    assert Above(ps[i], ps[j]);
    CompareZero(ps[i], ps[j]);
  }

  /** A registry lists an item array: every item under its own pattern, and nothing else. */
  ghost predicate Lists<U>(registry: map<seq<byte>, U>, items: seq<Item<U>>) {
    && (forall i :: 0 <= i < |items| ==>
         items[i].pattern in registry && registry[items[i].pattern] == items[i].userdata)
    && (forall p :: p in registry ==> exists i :: 0 <= i < |items| && items[i].pattern == p)
  }

  lemma RegistryLists<U>(items: seq<Item<U>>)
    requires Descending(PatternsOf(items)) && AllText(PatternsOf(items))
    ensures Lists(RegistryOf(items), items)
  {
    hide Descending, AllText, PatternsOf, RegistryOf;
    forall i, j | 0 <= i < j < |items| ensures items[i].pattern != items[j].pattern {
      DistinctPatterns(items, i, j);
    }
    DistinctLists(items);
  }

  lemma DistinctLists<U>(items: seq<Item<U>>)
    requires forall i, j :: 0 <= i < j < |items| ==> items[i].pattern != items[j].pattern
    ensures Lists(RegistryOf(items), items)
  {
    hide RegistryOf;
    forall i | 0 <= i < |items|
      ensures items[i].pattern in RegistryOf(items) && RegistryOf(items)[items[i].pattern] == items[i].userdata
    {
      ListedLast(items, i);
    }
    OnlyListed(items);
  }

  lemma ListedLast<U>(items: seq<Item<U>>, i: nat)
    requires i < |items| && forall j :: 0 <= j < |items| && j != i ==> items[j].pattern != items[i].pattern
    ensures items[i].pattern in RegistryOf(items) && RegistryOf(items)[items[i].pattern] == items[i].userdata
  {
  }

  lemma OnlyListed<U>(items: seq<Item<U>>)
    ensures forall p :: p in RegistryOf(items) ==> exists i :: 0 <= i < |items| && items[i].pattern == p
  {
  }

  lemma ListsUnique<U>(a: map<seq<byte>, U>, b: map<seq<byte>, U>, items: seq<Item<U>>)
    requires Lists(a, items) && Lists(b, items)
    ensures a == b
  {
    assert forall p :: p in a ==> p in b && a[p] == b[p];
    assert forall p :: p in b ==> p in a;
  }

  lemma ListsInsert<U>(a: map<seq<byte>, U>, items: seq<Item<U>>, i: nat, k: Item<U>)
    requires Lists(a, items) && i <= |items| && k.pattern !in a
    ensures Lists(a[k.pattern := k.userdata], items[..i] + [k] + items[i..])
  {
    var items' := items[..i] + [k] + items[i..];
    assert items'[i] == k;
    forall p | p in a
      ensures exists j :: 0 <= j < |items'| && items'[j].pattern == p
    {
      var j :| 0 <= j < |items| && items[j].pattern == p;
      assert items'[if j < i then j else j + 1] == items[j];
    }
  }

  /** The longest prefix among the array's patterns is the answer of the registry. */
  lemma LongestIsAnswer<U>(items: seq<Item<U>>, str: seq<byte>, r: int)
    requires Descending(PatternsOf(items)) && AllText(PatternsOf(items))
    requires IsLongest(PatternsOf(items), str, r)
    ensures IsAnswer(RegistryOf(items), str, AnswerAt(items, r))
  {
    hide Descending, AllText, RegistryOf;
    RegistryLists(items);
    var ps, registry := PatternsOf(items), RegistryOf(items);
    if r >= 0 {
      var p := items[r].pattern;
      assert p in registry && p <= str && registry[p] == items[r].userdata;
    }
  }

  lemma AboveRest(ps: seq<seq<byte>>, i: nat, p: seq<byte>)
    requires Descending(ps) && i <= |ps| && (i < |ps| ==> Above(p, ps[i]))
    ensures forall j :: i <= j < |ps| ==> Above(p, ps[j])
  {
    hide Above;
    forall j | i < j < |ps| ensures Above(p, ps[j]) {
      AboveTransitive(p, ps[i], ps[j]);
    }
  }

  /** Inserting below every larger pattern and above every smaller one keeps the order. */
  lemma InsertDescends(ps: seq<seq<byte>>, i: nat, p: seq<byte>)
    requires Descending(ps) && i <= |ps|
    requires forall j :: 0 <= j < i ==> Above(ps[j], p)
    requires i < |ps| ==> Above(p, ps[i])
    ensures Descending(ps[..i] + [p] + ps[i..])
  {
    hide Above, Agree;
    AboveRest(ps, i, p);
    var ps' := ps[..i] + [p] + ps[i..];
    forall a, b | 0 <= a < b < |ps'| ensures Above(ps'[a], ps'[b]) {
      assert ps'[a] == if a < i then ps[a] else if a == i then p else ps[a - 1];
      assert ps'[b] == if b < i then ps[b] else if b == i then p else ps[b - 1];
    }
  }

  lemma InsertKeeps<U>(items: seq<Item<U>>, i: nat, k: Item<U>, max: nat)
    requires WellKept(items, max) && |items| + 1 < ITEM_MAX && i <= |items|
    requires IsText(k.pattern) && 0 < |k.pattern| < max
    requires forall j :: 0 <= j < i ==> Above(items[j].pattern, k.pattern)
    requires i < |items| ==> Above(k.pattern, items[i].pattern)
    ensures WellKept(items[..i] + [k] + items[i..], max)
  {
    hide Descending, Above, IsText;
    var ps := PatternsOf(items);
    InsertDescends(ps, i, k.pattern);
    assert PatternsOf(items[..i] + [k] + items[i..]) == ps[..i] + [k.pattern] + ps[i..];
  }

  lemma InsertRegisters<U>(items: seq<Item<U>>, i: nat, k: Item<U>, max: nat)
    requires i <= |items| && WellKept(items, max) && WellKept(items[..i] + [k] + items[i..], max)
    ensures RegistryOf(items[..i] + [k] + items[i..]) == RegistryOf(items)[k.pattern := k.userdata]
    ensures k.pattern !in RegistryOf(items)
  {
    hide Descending, AllText, RegistryOf, PatternsOf, Lists;
    var items' := items[..i] + [k] + items[i..];
    RegistryLists(items);
    RegistryLists(items');
    InsertIsNew(items, i, k, max);
    NotListed(RegistryOf(items), items, k.pattern);
    ListsInsert(RegistryOf(items), items, i, k);
    ListsUnique(RegistryOf(items'), RegistryOf(items)[k.pattern := k.userdata], items');
  }

  lemma InsertIsNew<U>(items: seq<Item<U>>, i: nat, k: Item<U>, max: nat)
    requires i <= |items| && WellKept(items[..i] + [k] + items[i..], max)
    ensures forall j :: 0 <= j < |items| ==> items[j].pattern != k.pattern
  {
    hide Descending, AllText, PatternsOf;
    var items' := items[..i] + [k] + items[i..];
    forall j | 0 <= j < |items| ensures items[j].pattern != k.pattern {
      assert items'[i] == k && items'[if j < i then j else j + 1] == items[j];
      if j < i { DistinctPatterns(items', j, i); } else { DistinctPatterns(items', i, j + 1); }
    }
  }

  lemma NotListed<U>(registry: map<seq<byte>, U>, items: seq<Item<U>>, p: seq<byte>)
    requires Lists(registry, items) && forall j :: 0 <= j < |items| ==> items[j].pattern != p
    ensures p !in registry
  {
  }

  lemma Listed<U>(registry: map<seq<byte>, U>, items: seq<Item<U>>, i: nat)
    requires Lists(registry, items) && i < |items|
    ensures items[i].pattern in registry
  {
  }

  lemma KeptIsText<U>(items: seq<Item<U>>, max: nat, i: nat)
    requires WellKept(items, max) && i < |items|
    ensures IsText(items[i].pattern)
  {
    assert PatternsOf(items)[i] == items[i].pattern;
  }

  lemma KeptIsReady<U>(items: seq<Item<U>>, max: nat)
    requires WellKept(items, max)
    ensures Ready(PatternsOf(items), max)
  {
  }

  /** Moves the items from `i` on up by one and puts `k` there. */
  method InsertAt<T>(items: array<T>, cnt: nat, i: nat, k: T)
    requires i <= cnt < items.Length
    modifies items
    ensures items[..cnt + 1] == old(items[..i]) + [k] + old(items[i..cnt])
  {
    var j := cnt;
    while j > i
      invariant i <= j <= cnt
      invariant forall x :: 0 <= x <= j ==> items[x] == old(items[x])
      invariant forall x :: j < x <= cnt ==> items[x] == old(items[x - 1])
    {
      items[j] := items[j - 1];
      j := j - 1;
    }
    items[i] := k;
  }

  /** The answer the compiled tables give: the range search over the whole array. */
  ghost function TableAnswer<U>(items: seq<Item<U>>, max: nat, str: seq<byte>): Option<(U, nat)>
    requires items != [] && WellKept(items, max)
  {
    var ps := PatternsOf(items);
    TrieCorrect.WholeRange(ps);
    AnswerAt(items, Search(ps, max, str, 0, 0, |ps| - 1))
  }

  /** On patterns without clashes the table answer is the longest registered prefix. */
  lemma TableAnswerIsRight<U>(items: seq<Item<U>>, max: nat, str: seq<byte>)
    requires items != [] && WellKept(items, max) && Compatible(PatternsOf(items)) && IsText(str)
    ensures IsAnswer(RegistryOf(items), str, TableAnswer(items, max, str))
  {
    hide Search, IsLongest;
    var ps := PatternsOf(items);
    TrieCorrect.AlwaysRightIffCompatible(ps, max);
    LongestIsAnswer(items, str, Search(ps, max, str, 0, 0, |ps| - 1));
  }

  /** An answer of the registry is the longest prefix among the array's patterns. */
  lemma AnswerIsLongest<U>(items: seq<Item<U>>, str: seq<byte>, r: int)
    requires Descending(PatternsOf(items)) && AllText(PatternsOf(items)) && -1 <= r < |items|
    requires r >= 0 ==> items[r].pattern <= str
    requires IsAnswer(RegistryOf(items), str, AnswerAt(items, r))
    ensures IsLongest(PatternsOf(items), str, r)
  {
    hide Descending, AllText, RegistryOf;
    RegistryLists(items);
    var ps := PatternsOf(items);
    forall k | 0 <= k < |ps| && ps[k] <= str
      ensures r >= 0 && |ps[k]| <= |ps[r]|
    {
      assert items[k].pattern in RegistryOf(items);
    }
  }

  /** The exact condition for a compiled tree: every string gets the longest registered
      prefix if and only if no two registered patterns clash. */
  lemma TreeAlwaysRightIffCompatible<U>(items: seq<Item<U>>, max: nat)
    requires items != [] && WellKept(items, max)
    ensures (forall str :: IsText(str) ==> IsAnswer(RegistryOf(items), str, TableAnswer(items, max, str)))
       <==> Compatible(PatternsOf(items))
  {
    hide IsAnswer, Compatible, TableAnswer, RegistryOf, PatternsOf, WellKept;
    if Compatible(PatternsOf(items)) {
      forall str | IsText(str) ensures IsAnswer(RegistryOf(items), str, TableAnswer(items, max, str)) {
        TableAnswerIsRight(items, max, str);
      }
    } else {
      var str := ClashAnswersWrong(items, max);
    }
  }

  lemma ClashAnswersWrong<U>(items: seq<Item<U>>, max: nat) returns (str: seq<byte>)
    requires items != [] && WellKept(items, max) && !Compatible(PatternsOf(items))
    ensures IsText(str) && !IsAnswer(RegistryOf(items), str, TableAnswer(items, max, str))
  {
    hide Descending, AllText, Range, Search, IsAnswer, IsLongest, RegistryOf, Clash, PatternsOf;
    var ps := PatternsOf(items);
    var i, j :| 0 <= i < |ps| && 0 <= j < |ps| && Clash(ps[i], ps[j]);
    TrieCorrect.WholeRange(ps);
    var k := TrieCorrect.ClashIsWrong(ps, max, i, j);
    str := ps[k];
    TrieCorrect.PatternIsText(ps, k);
    SearchPrefix(ps, max, str);
    var r := Search(ps, max, str, 0, 0, |ps| - 1);
    if IsAnswer(RegistryOf(items), str, AnswerAt(items, r)) {
      AnswerIsLongest(items, str, r);
    }
  }

  lemma SearchPrefix(ps: seq<seq<byte>>, max: nat, str: seq<byte>)
    requires Range(ps, 0, 0, |ps| - 1) && Descending(ps) && AllText(ps)
    ensures var r := Search(ps, max, str, 0, 0, |ps| - 1); r == -1 || ps[r] <= str
  {
    hide Descending, AllText, Search;
    TrieCorrect.SearchIsSound(ps, max, str, 0, 0, |ps| - 1);
  }

  /** Complete tables for some patterns: those of the search, the fall-backs, the lengths, and the entry. */
  ghost predicate TablesFor(ps: seq<seq<byte>>, max: nat, t: Tables, els: seq<schar>, lens: seq<int>, enter: schar) {
    && Ready(ps, max) && ps != [] && Sized(t, |ps|, max) && Range(ps, 0, 0, |ps| - 1)
    && Filled(ps, max, t, 0, 0, |ps| - 1)
    && (forall row: nat :: row < |ps| ==> Matcher.FallsBack(ps, max, els, row))
    && |lens| == |ps| && (forall i :: 0 <= i < |ps| ==> lens[i] == |ps[i]|)
    && enter == Entry(ps, max, 0, 0, |ps| - 1)
  }

  /** Allocates the tables and fills them all. */
  lemma EntersSomewhere(ps: seq<seq<byte>>, max: nat, t: Tables, els: seq<schar>, lens: seq<int>, enter: schar)
    requires TablesFor(ps, max, t, els, lens, enter)
    ensures enter != -1
  {
    hide Filled, Matcher.FallsBack, Entry, Ready, Range, Sized;
  }

  method BuildTables(ps: seq<seq<byte>>, max: nat)
    returns (hi: array<schar>, lo: array<schar>, nx: array<schar>, els: array<schar>, lens: array<int>, enter: schar)
    requires Ready(ps, max) && ps != []
    ensures fresh(hi) && fresh(lo) && fresh(nx) && fresh(els) && fresh(lens)
    ensures TablesFor(ps, max, Snapshot(hi, lo, nx), els[..], lens[..], enter)
  {
    hide Descending, AllText, Filled, Matcher.FallsBack, Entry;
    var size := |ps| * max;
    hi, lo := new schar[size], new schar[size];
    els, nx := new schar[size], new schar[size];
    lens := new int[|ps|];
    var i := 0;
    while i < |ps|
      invariant 0 <= i <= |ps|
      invariant forall n :: 0 <= n < i ==> lens[n] == |ps[n]|
    {
      lens[i] := |ps[i]|;
      i := i + 1;
    }
    TrieCorrect.WholeRange(ps);
    Matcher.FillSomeoneElseMatchedTable(ps, lens, max, els);
    enter := FillJumpTables(ps, max, hi, lo, nx, 0, 0, |ps| - 1);
  }

  class Tree<U(0)> {
    const max: nat
    const lenMax: nat
    var cnt: nat
    var items: array<Item<U>>
    var enterPoint: schar
    var higher: array?<schar>
    var lower: array?<schar>
    var nextLevel: array?<schar>
    var someoneElse: array?<schar>
    var lengths: array?<int>

    ghost predicate Valid()
      reads this, items
    {
      && items.Length == max < ITEM_MAX && cnt <= max && 0 < lenMax
      && WellKept(items[..cnt], lenMax)
    }

    ghost function Registry(): map<seq<byte>, U>
      requires cnt <= items.Length
      reads this, items
    {
      RegistryOf(items[..cnt])
    }

    /** The tables stand for the items as they are now. */
    ghost predicate Compiled()
      reads this, items, higher, lower, nextLevel, someoneElse, lengths
    {
      && Valid() && cnt > 0
      && higher != null && lower != null && nextLevel != null && someoneElse != null && lengths != null
      && TablesFor(PatternsOf(items[..cnt]), lenMax, Snapshot(higher, lower, nextLevel), someoneElse[..], lengths[..],
           enterPoint)
    }

    constructor (max: nat, scale: Scale)
      requires max < ITEM_MAX
      ensures Valid() && fresh(items) && enterPoint == -1
      ensures this.max == max && lenMax == PatternLengthMax(scale) && cnt == 0 && Registry() == map[]
    {
      this.max := max;
      lenMax := PatternLengthMax(scale);
      cnt := 0;
      enterPoint := -1;
      items := new Item<U>[max];
      higher, lower, nextLevel, someoneElse, lengths := null, null, null, null, null;
    }

    /** Refuses a tree for too many items. */
    static method New(max: nat, scale: Scale) returns (t: Tree?<U>)
      ensures t == null <==> max >= 111
      ensures t != null ==> fresh(t) && t.Valid() && fresh(t.items) && t.enterPoint == -1 && t.Registry() == map[]
      ensures t != null ==> t.max == max && t.cnt == 0 && t.lenMax == PatternLengthMax(scale)
      ensures t != null && scale == Scale16 ==> t.lenMax == 16
      ensures t != null && scale == Scale32 ==> t.lenMax == 32
      ensures t != null && scale == Scale64 ==> t.lenMax == 64
      ensures t != null && (scale == Scale128 || scale == ScaleOther) ==> t.lenMax == 128
      ensures t != null && scale == Scale512 ==> t.lenMax == 512
    {
      if max >= ITEM_MAX {
        return null;
      }
      t := new Tree(max, scale);
    }

    /** Sorted, duplicate-free registration; -1 too many, -2 empty or too long, -3 there already. */
    method Add(pattern: seq<byte>, userdata: U) returns (code: int)
      requires Valid() && IsText(pattern)
      modifies this`cnt, items
      ensures Valid() && items == old(items)
      ensures code == if |pattern| >= lenMax || pattern == [] then -2
                      else if old(cnt) >= max then -1
                      else if pattern in old(Registry()) then -3
                      else 0
      ensures Registry() == if code == 0 then old(Registry())[pattern := userdata] else old(Registry())
      ensures cnt == old(cnt) + if code == 0 then 1 else 0
    {
      hide Descending, AllText, RegistryOf, PatternsOf, Agree, Lists;
      var l := if |pattern| < lenMax then |pattern| else lenMax;
      if l >= lenMax || l <= 0 {
        return -2;
      }
      if cnt >= max {
        return -1;
      }
      ghost var was := items[..cnt];
      RegistryLists(was);
      var k := Item(pattern, userdata);
      var i: nat := 0;
      while i < cnt
        invariant i <= cnt == |was| && items[..cnt] == was
        invariant forall j :: 0 <= j < i ==> Above(was[j].pattern, pattern)
      {
        var r := Compare(pattern, items[i].pattern);
        CompareSymmetric(pattern, was[i].pattern);
        if r > 0 {
          break;
        } else if r < 0 {
          i := i + 1;
          continue;
        } else {
          KeptIsText(was, lenMax, i);
          CompareZero(pattern, was[i].pattern);
          Listed(Registry(), was, i);
          return -3;
        }
      }
      assert items[..i] == was[..i] && items[i..cnt] == was[i..];
      InsertAt(items, cnt, i, k);
      cnt := cnt + 1;
      InsertKeeps(was, i, k, lenMax);
      InsertRegisters(was, i, k, lenMax);
      return 0;
    }

    /** Builds the tables; without items there is nothing to build, and nothing will match. */
    method Compile() returns (code: int)
      requires Valid()
      modifies this`enterPoint, this`higher, this`lower, this`nextLevel, this`someoneElse, this`lengths
      ensures Valid() && Registry() == old(Registry()) && unchanged(items)
      ensures code == if cnt == 0 then -1 else 0
      ensures if cnt == 0 then enterPoint == -1 else Compiled() && enterPoint != -1
    {
      hide WellKept, Ready, PatternsOf, RegistryOf, TablesFor, Snapshot;
      higher, lower, nextLevel, someoneElse, lengths := null, null, null, null, null;
      enterPoint := -1;
      if cnt == 0 {
        return -1;
      }
      var its := items[..cnt];
      var ps := seq(cnt, n requires 0 <= n < |its| => its[n].pattern);
      assert ps == PatternsOf(its);
      KeptIsReady(its, lenMax);
      var hi, lo, nx, els, lens, enter := BuildTables(ps, lenMax);
      EntersSomewhere(ps, lenMax, Snapshot(hi, lo, nx), els[..], lens[..], enter);
      higher, lower, nextLevel, someoneElse, lengths := hi, lo, nx, els, lens;
      enterPoint := enter;
      return 0;
    }

    /** The longest registered pattern that begins `str`, with its data and its length. */
    method Match(str: seq<byte>) returns (answer: Option<(U, nat)>)
      requires Valid() && (enterPoint == -1 || Compiled()) && IsText(str)
      ensures enterPoint == -1 ==> answer == None
      ensures enterPoint != -1 ==> answer == TableAnswer(items[..cnt], lenMax, str)
      ensures enterPoint != -1 && Compatible(PatternsOf(items[..cnt])) ==> IsAnswer(Registry(), str, answer)
    {
      hide Descending, AllText, RegistryOf, Filled, Matcher.FallsBack, Entry, Range, Search, IsAnswer, Compatible;
      if enterPoint == -1 {
        return None;
      }
      var its := items[..cnt];
      var ps := seq(cnt, n requires 0 <= n < |its| => its[n].pattern);
      assert ps == PatternsOf(its);
      assert forall i :: 0 <= i < cnt ==> lengths[..][i] == lengths[i];
      var r := Matcher.Walk(ps, lenMax, higher, lower, nextLevel, someoneElse, enterPoint, str);
      if Compatible(ps) {
        TableAnswerIsRight(its, lenMax, str);
      }
      if r == -1 {
        return None;
      } else {
        return Some((items[r].userdata, lengths[r]));
      }
    }
  }

  /** Different patterns a tree has room for, none of them empty or too long. */
  ghost predicate Fit(patterns: seq<seq<byte>>, max: nat, limit: nat) {
    && |patterns| <= max && AllText(patterns) && (forall i :: 0 <= i < |patterns| ==> 0 < |patterns[i]| < limit)
    && forall i, j :: 0 <= i < j < |patterns| ==> patterns[i] != patterns[j]
  }

  /** The registry after the first `n` patterns. */
  ghost predicate Holds<U>(registry: map<seq<byte>, U>, patterns: seq<seq<byte>>, data: seq<U>, n: nat) {
    && n <= |patterns| == |data|
    && (forall i :: 0 <= i < n ==> patterns[i] in registry && registry[patterns[i]] == data[i])
    && forall p :: p in registry ==> p in patterns[..n]
  }

  lemma HoldsMore<U>(registry: map<seq<byte>, U>, patterns: seq<seq<byte>>, data: seq<U>, n: nat)
    requires Holds(registry, patterns, data, n) && n < |patterns|
    requires forall i, j :: 0 <= i < j < |patterns| ==> patterns[i] != patterns[j]
    ensures patterns[n] !in registry && Holds(registry[patterns[n] := data[n]], patterns, data, n + 1)
  {
    assert forall i :: 0 <= i < n ==> patterns[..n][i] == patterns[i];
    assert patterns[..n + 1] == patterns[..n] + [patterns[n]];
  }

  lemma HoldsCompatible<U>(items: seq<Item<U>>, patterns: seq<seq<byte>>, data: seq<U>)
    requires Descending(PatternsOf(items)) && AllText(PatternsOf(items)) && Compatible(patterns)
    requires Holds(RegistryOf(items), patterns, data, |patterns|)
    ensures Compatible(PatternsOf(items))
  {
    hide Descending, AllText, RegistryOf, Clash;
    RegistryLists(items);
    assert patterns[..|patterns|] == patterns;
    var ps := PatternsOf(items);
    forall i, j | 0 <= i < |ps| && 0 <= j < |ps| ensures !Clash(ps[i], ps[j]) {
      assert items[i].pattern in patterns && items[j].pattern in patterns;
    }
  }

  /** A registered pattern is its own longest prefix. */
  lemma AnswerForItself<U>(registry: map<seq<byte>, U>, p: seq<byte>, answer: Option<(U, nat)>)
    requires p in registry && IsAnswer(registry, p, answer)
    ensures answer == Some((registry[p], |p|))
  {
    if answer.Some? {
      var q :| q in registry && q <= p && registry[q] == answer.value.0 && |q| == answer.value.1
               && forall r :: r in registry && r <= p ==> |r| <= |q|;
      assert q == p;
    }
  }

  /** A new tree takes any patterns that fit, each with its data. */
  method AddAll<U(0)>(max: nat, scale: Scale, patterns: seq<seq<byte>>, data: seq<U>)
      returns (t: Tree<U>, codes: seq<int>)
    requires max < ITEM_MAX && |data| == |patterns| && Fit(patterns, max, PatternLengthMax(scale))
    ensures fresh(t) && fresh(t.items) && t.Valid() && t.cnt == |patterns|
    ensures Holds(t.Registry(), patterns, data, |patterns|)
    ensures |codes| == |patterns| && forall i :: 0 <= i < |codes| ==> codes[i] == 0
  {
    hide RegistryOf, WellKept;
    var tree: Tree?<U> := Tree.New(max, scale);
    t, codes := tree, [];
    while |codes| < |patterns|
      invariant fresh(t) && fresh(t.items) && t.Valid() && t.cnt == |codes| <= |patterns|
      invariant t.max == max && t.lenMax == PatternLengthMax(scale)
      invariant Holds(t.Registry(), patterns, data, |codes|)
      invariant forall i :: 0 <= i < |codes| ==> codes[i] == 0
      decreases |patterns| - |codes|
    {
      var n := |codes|;
      HoldsMore(t.Registry(), patterns, data, n);
      var code := t.Add(patterns[n], data[n]);
      codes := codes + [code];
    }
  }

  /** Each pattern matches itself. */
  method MatchAll<U(0)>(t: Tree<U>, patterns: seq<seq<byte>>, data: seq<U>) returns (answers: seq<Option<(U, nat)>>)
    requires t.Valid() && Holds(t.Registry(), patterns, data, |patterns|) && AllText(patterns)
    requires if patterns == [] then t.enterPoint == -1 else t.enterPoint != -1 && t.Compiled()
    ensures |answers| == |patterns|
    ensures Compatible(patterns) ==> forall i :: 0 <= i < |answers| ==> answers[i] == Some((data[i], |patterns[i]|))
  {
    hide RegistryOf, IsAnswer, Compatible, TablesFor, TableAnswer, Descending, PatternsOf;
    WellKeptOrder(t.items[..t.cnt], t.lenMax);
    if Compatible(patterns) {
      HoldsCompatible(t.items[..t.cnt], patterns, data);
    }
    answers := [];
    while |answers| < |patterns|
      invariant |answers| <= |patterns|
      invariant Compatible(patterns) ==> forall i :: 0 <= i < |answers| ==> answers[i] == Some((data[i], |patterns[i]|))
      decreases |patterns| - |answers|
    {
      var p := patterns[|answers|];
      var answer := t.Match(p);
      if Compatible(patterns) {
        AnswerForItself(t.Registry(), p, answer);
      }
      answers := answers + [answer];
    }
  }

  /** A tree from its making to its answers: all patterns that fit are taken, compiling succeeds unless
      there are none, and then each of them, if they are compatible, matches itself. */
  method Serve<U(0)>(max: nat, scale: Scale, patterns: seq<seq<byte>>, data: seq<U>)
      returns (codes: seq<int>, compiled: int, answers: seq<Option<(U, nat)>>)
    requires max < ITEM_MAX && |data| == |patterns| && Fit(patterns, max, PatternLengthMax(scale))
    ensures |codes| == |patterns| && forall i :: 0 <= i < |codes| ==> codes[i] == 0
    ensures compiled == (if patterns == [] then -1 else 0) && |answers| == |patterns|
    ensures Compatible(patterns) ==> forall i :: 0 <= i < |answers| ==> answers[i] == Some((data[i], |patterns[i]|))
  {
    hide RegistryOf, WellKept, Compatible, TablesFor;
    var t: Tree<U>;
    t, codes := AddAll(max, scale, patterns, data);
    compiled := t.Compile();
    answers := MatchAll(t, patterns, data);
  }

  lemma WellKeptOrder<U>(items: seq<Item<U>>, max: nat)
    requires WellKept(items, max)
    ensures Descending(PatternsOf(items)) && AllText(PatternsOf(items))
  {
  }
}
