/** A body that arrives in any number of buffers: which cuts change nothing. */
module FormCuts {
  import opened Bytes
  import opened FormText
  import opened FormParser
  import opened FormRoundTrip
  import opened FormChunks

  /** A place in a body between two items, or in a value. */
  datatype Spot = AtBoundary(parts: seq<Part>) | AtFormData(part: Part, parts: seq<Part>)
                | AtName(part: Part, parts: seq<Part>)
                | AtFilename(file: File, value: string, parts: seq<Part>) | AtType(value: string, parts: seq<Part>)
                | AtEmptyLine(value: string, parts: seq<Part>) | AtValue(value: string, parts: seq<Part>) | AtEnd

  /** The items still to come, at most. */
  function Size(s: Spot): nat {
    match s
    case AtBoundary(ps) => 8 * |ps| + 1
    case AtFormData(_, ps) => 8 * |ps| + 8
    case AtName(_, ps) => 8 * |ps| + 7
    case AtFilename(_, _, ps) => 8 * |ps| + 6
    case AtType(_, ps) => 8 * |ps| + 5
    case AtEmptyLine(_, ps) => 8 * |ps| + 4
    case AtValue(_, ps) => 8 * |ps| + 4
    case AtEnd => 0
  }

  /** The state the parser is in there. */
  function StateOf(s: Spot): Kind {
    match s
    case AtBoundary(_) => Boundary
    case AtFormData(_, _) => FormData
    case AtName(_, _) => Name
    case AtFilename(_, _, _) => Filename
    case AtType(_, _) => ContentType
    case AtEmptyLine(_, _) => EmptyLine
    case AtValue(_, _) => Value
    case AtEnd => Finish
  }

  /** The next item. */
  function Item(s: Spot, boundary: string): string {
    match s
    case AtBoundary(ps) => if ps == [] then FINISH_MARK else CONTENT_DFD
    case AtFormData(p, _) => NAME_S + (p.name + QUOTE)
    case AtName(p, _) => if p.file == None then EMPTY_LINE else FNAME_S + (p.file.value.name + QUOTE)
    case AtFilename(f, _, _) => CONTENT_TYPE_PREFIX + f.contentType
    case AtType(_, _) => EMPTY_LINE
    case AtEmptyLine(v, _) => v + (CRLF + boundary)
    case AtValue(v, _) => v + (CRLF + boundary)
    case AtEnd => ""
  }

  function ItemEvents(s: Spot, boundary: string): seq<Event> {
    match s
    case AtBoundary(ps) => if ps == [] then [Event(Finish, FINISH_MARK)] else [Event(FormData, CONTENT_DFD)]
    case AtFormData(p, _) => [Event(Name, p.name)]
    case AtName(p, _) => if p.file == None then [Event(EmptyLine, EMPTY_LINE)] else [Event(Filename, p.file.value.name)]
    case AtFilename(f, _, _) => [Event(ContentType, f.contentType)]
    case AtType(_, _) => [Event(EmptyLine, EMPTY_LINE)]
    case AtEmptyLine(v, _) => [Event(Value, v), Event(Boundary, CRLF + boundary)]
    case AtValue(v, _) => (if v == "" then [] else [Event(Value, v)]) + [Event(Boundary, CRLF + boundary)]
    case AtEnd => []
  }

  /** The place behind the next item. */
  function Next(s: Spot): (n: Spot)
    requires !s.AtEnd?
    ensures Size(n) < Size(s)
  {
    match s
    case AtBoundary(ps) => if ps == [] then AtEnd else AtFormData(ps[0], ps[1..])
    case AtFormData(p, ps) => AtName(p, ps)
    case AtName(p, ps) => if p.file == None then AtEmptyLine(p.value, ps) else AtFilename(p.file.value, p.value, ps)
    case AtFilename(_, v, ps) => AtType(v, ps)
    case AtType(v, ps) => AtEmptyLine(v, ps)
    case AtEmptyLine(_, ps) => AtBoundary(ps)
    case AtValue(_, ps) => AtBoundary(ps)
  }

  /** What is left of the body, and the events it is to give. */
  function Left(s: Spot, boundary: string): string
    decreases Size(s)
  {
    if s.AtEnd? then "" else Item(s, boundary) + Left(Next(s), boundary)
  }

  function Due(s: Spot, boundary: string): seq<Event>
    decreases Size(s)
  {
    if s.AtEnd? then [] else ItemEvents(s, boundary) + Due(Next(s), boundary)
  }

  predicate CleanItem(s: Spot, boundary: string)
    requires boundary != ""
  {
    match s
    case AtFormData(p, _) => '"' !in p.name
    case AtName(p, _) => p.file == None || '"' !in p.file.value.name
    case AtFilename(f, _, _) => CleanType(f.contentType)
    case AtEmptyLine(v, _) => FirstAtEnd(v, Delimiter(boundary))
    case AtValue(v, _) => FirstAtEnd(v, Delimiter(boundary))
    case _ => true
  }

  /** All items from here on are as they should be. */
  predicate CleanFrom(s: Spot, boundary: string)
    requires boundary != ""
    decreases Size(s)
  {
    s.AtEnd? || (CleanItem(s, boundary) && CleanFrom(Next(s), boundary))
  }

  /** Consecutive events of a value made one. */
  function Joined(es: seq<Event>): seq<Event>
    decreases |es|
  {
    if |es| < 2 then es
    else if es[0].kind.Value? && es[1].kind.Value? then Joined([Event(Value, es[0].data + es[1].data)] + es[2..])
    else [es[0]] + Joined(es[1..])
  }

  /** A cut `c` bytes from here, with some memory behind the buffer: the events up to the cut and the
      place it leaves the parser at. A cut is of no harm between items and in a value. In any other item,
      and in the boundary line behind a value, there is no such place. Behind a content type, of two bytes
      at least, it turns on the memory: the parser looks for the line break there. */
  function Cut(s: Spot, boundary: string, c: nat, beyond: string): Option<(seq<Event>, Spot)>
    requires c <= |Left(s, boundary)|
    decreases Size(s)
  {
    if c == 0 then Some(([], s))
    else if c < |Item(s, boundary)| || (s.AtFilename? && c == |Item(s, boundary)|) then
      if (s.AtEmptyLine? || s.AtValue?) && c <= |s.value|
        then Some(([Event(Value, s.value[..c])], AtValue(s.value[c..], s.parts)))
      else if s.AtFilename? && c == |Item(s, boundary)| && |s.file.contentType| >= 2 && StartsWith(beyond, CRLF)
        then Some((ItemEvents(s, boundary), Next(s)))
      else None
    else match Cut(Next(s), boundary, c - |Item(s, boundary)|, beyond) {
      case None => None
      case Some((es, n)) => Some((ItemEvents(s, boundary) + es, n))
    }
  }

  lemma CutNothing(s: Spot, boundary: string, beyond: string)
    ensures Cut(s, boundary, 0, beyond) == Some(([], s))
  {
  }

  lemma CutBehind(s: Spot, boundary: string, c: nat, beyond: string)
    requires !s.AtEnd? && |Item(s, boundary)| <= c <= |Left(s, boundary)| && (s.AtFilename? ==> c > |Item(s, boundary)|)
    ensures |Left(s, boundary)| == |Item(s, boundary)| + |Left(Next(s), boundary)|
    ensures Cut(s, boundary, c, beyond) == match Cut(Next(s), boundary, c - |Item(s, boundary)|, beyond) {
      case None => None
      case Some((es, n)) => Some((ItemEvents(s, boundary) + es, n))
    }
  {
    hide Item, ItemEvents;
    ItemThere(s, boundary);
  }

  lemma ItemThere(s: Spot, boundary: string)
    requires !s.AtEnd?
    ensures Item(s, boundary) != ""
    ensures s.AtEmptyLine? || s.AtValue? ==> |Item(s, boundary)| == |s.value| + |CRLF + boundary|
  {
  }

  lemma CutInside(s: Spot, boundary: string, c: nat, beyond: string)
    requires (s.AtEmptyLine? || s.AtValue?) && 0 < c <= |Left(s, boundary)| && c < |Item(s, boundary)|
    ensures Cut(s, boundary, c, beyond) ==
      if c <= |s.value| then Some(([Event(Value, s.value[..c])], AtValue(s.value[c..], s.parts))) else None
  {
    hide Item, Left;
  }

  lemma CutAtType(s: Spot, boundary: string, beyond: string)
    requires s.AtFilename? && |Item(s, boundary)| <= |Left(s, boundary)|
    ensures Cut(s, boundary, |Item(s, boundary)|, beyond) ==
      if |s.file.contentType| >= 2 && StartsWith(beyond, CRLF) then Some((ItemEvents(s, boundary), Next(s))) else None
  {
    hide Item, Left, ItemEvents, StartsWith;
    ItemThere(s, boundary);
  }

  /** No harmless cut is in an item that is no value. */
  lemma CutNotInItem(s: Spot, boundary: string, c: nat, beyond: string)
    requires 0 < c <= |Left(s, boundary)| && Cut(s, boundary, c, beyond).Some?
    ensures !s.AtEnd?
    ensures c < |Item(s, boundary)| ==> (s.AtEmptyLine? || s.AtValue?) && c <= |s.value|
  {
    hide Item, Left, StartsWith;
    NothingAtEnd(s, boundary);
  }

  /** A harmless cut behind a content type and its line break is behind all of the empty line. */
  lemma LineTaken(s: Spot, boundary: string, c: nat, beyond: string)
    requires s.AtFilename? && |Item(s, boundary)| < c <= |Left(s, boundary)|
    requires c - |Item(s, boundary)| <= |Left(Next(s), boundary)|
    requires Cut(Next(s), boundary, c - |Item(s, boundary)|, beyond).Some?
    ensures c >= |Item(s, boundary)| + |CRLF|
  {
    hide Left, Cut;
    CutNotInItem(Next(s), boundary, c - |Item(s, boundary)|, beyond);
  }

  lemma NothingAtEnd(s: Spot, boundary: string)
    ensures s.AtEnd? ==> Left(s, boundary) == ""
  {
  }

  lemma LeftLength(s: Spot, boundary: string)
    requires !s.AtEnd?
    ensures |Left(s, boundary)| == |Item(s, boundary)| + |Left(Next(s), boundary)|
    ensures (s.AtEmptyLine? || s.AtValue?) ==> |s.value| < |Item(s, boundary)|
  {
    hide Item;
    ItemThere(s, boundary);
  }

  lemma Unfold(s: Spot, boundary: string)
    requires !s.AtEnd?
    ensures Left(s, boundary) == Item(s, boundary) + Left(Next(s), boundary)
    ensures Due(s, boundary) == ItemEvents(s, boundary) + Due(Next(s), boundary)
  {
    hide Item, ItemEvents;
  }

  lemma JoinedBehind(e: Event, x: seq<Event>)
    requires !e.kind.Value?
    ensures Joined([e] + x) == [e] + Joined(x)
  {
    assert ([e] + x)[1..] == x;
  }

  lemma JoinedValue(v: Event, e: Event, x: seq<Event>)
    requires !e.kind.Value?
    ensures Joined([v, e] + x) == [v, e] + Joined(x)
  {
    var es := [v, e] + x;
    assert es[0] == v && es[1] == e && es[1..] == [e] + x;
    assert Joined(es) == [v] + Joined([e] + x);
    hide Joined;
    JoinedBehind(e, x);
  }

  /** What follows an item is joined by itself. */
  lemma JoinedItem(s: Spot, boundary: string, x: seq<Event>)
    requires !s.AtEnd?
    ensures Joined(ItemEvents(s, boundary) + x) == ItemEvents(s, boundary) + Joined(x)
  {
    var es := ItemEvents(s, boundary);
    if |es| == 1 {
      JoinedBehind(es[0], x);
    } else {
      assert es == [es[0], es[1]];
      JoinedValue(es[0], es[1], x);
    }
  }

  lemma {:induction false} JoinedDue(s: Spot, boundary: string)
    ensures Joined(Due(s, boundary)) == Due(s, boundary)
    decreases Size(s)
  {
    if s.AtEnd? {
    } else {
      JoinedDue(Next(s), boundary);
      JoinedItem(s, boundary, Due(Next(s), boundary));
    }
  }

  /** A value at the beginning only gets longer by joining. */
  lemma {:induction false} JoinedStarts(v: string, x: seq<Event>)
    ensures var j := Joined([Event(Value, v)] + x);
      j != [] && j[0].kind.Value? && |j[0].data| >= |v|
    decreases |x|
  {
    var es := [Event(Value, v)] + x;
    if x == [] || !x[0].kind.Value? {
    } else {
      assert es[2..] == x[1..];
      JoinedStarts(v + x[0].data, x[1..]);
    }
  }

  ghost predicate Takes(s: Spot, boundary: string, x: string, beyond: string)
    requires boundary != "" && |beyond| >= OVERRUN && !s.AtEnd?
  {
    On(Item(s, boundary) + x, beyond, StateOf(s), Delimiter(boundary)) ==
    Prepend(ItemEvents(s, boundary), On(x, beyond, StateOf(Next(s)), Delimiter(boundary)))
  }

  lemma TakesNames(s: Spot, boundary: string, x: string, beyond: string)
    requires boundary != "" && |beyond| >= OVERRUN && CleanItem(s, boundary) && (s.AtFormData? || s.AtName?)
    ensures Takes(s, boundary, x, beyond)
  {
    hide On, Delimiter, Prepend;
    var p, d := s.part, Delimiter(boundary);
    if s.AtFormData? {
      OnName(p.name, x, beyond, d);
      assert NAME_S + (p.name + QUOTE) + x == NAME_S + (p.name + (QUOTE + x));
    } else if p.file == None {
      OnEmptyLine(Name, x, beyond, d);
    } else {
      var name := p.file.value.name;
      OnFilename(name, x, beyond, d);
      assert FNAME_S + (name + QUOTE) + x == FNAME_S + (name + (QUOTE + x));
    }
  }

  lemma TakesType(s: Spot, boundary: string, x: string, beyond: string)
    requires boundary != "" && |beyond| >= OVERRUN && CleanItem(s, boundary) && s.AtFilename? && StartsWith(x, CRLF)
    ensures Takes(s, boundary, x, beyond)
  {
    hide On, Delimiter, Prepend, CleanType;
    var t := s.file.contentType;
    OnType(t, x, beyond, Delimiter(boundary));
    assert CONTENT_TYPE_PREFIX + t + x == CONTENT_TYPE_PREFIX + (t + x);
  }

  lemma TakesValue(s: Spot, boundary: string, x: string, beyond: string)
    requires boundary != "" && |beyond| >= OVERRUN && CleanItem(s, boundary) && (s.AtEmptyLine? || s.AtValue?)
    ensures Takes(s, boundary, x, beyond)
  {
    hide On, Delimiter, Prepend, FirstAtEnd;
    var v := s.value;
    assert v + (CRLF + boundary) + x == v + (CRLF + boundary + x);
    if s.AtEmptyLine? { OnValue(v, boundary, x, beyond); } else { OnLaterValue(v, boundary, x, beyond); }
  }

  /** An item is taken with what is behind it; a content type needs the line break there. */
  lemma OnItem(s: Spot, boundary: string, x: string, beyond: string)
    requires boundary != "" && |beyond| >= OVERRUN && !s.AtEnd? && CleanItem(s, boundary)
    requires s.AtFilename? ==> StartsWith(x, CRLF)
    requires Next(s).AtEnd? ==> x == ""
    ensures Takes(s, boundary, x, beyond)
  {
    hide On, Delimiter, Prepend, CleanItem, StartsWith;
    match s
    case AtBoundary(ps) =>
      if ps == [] { OnEnd(beyond, Delimiter(boundary)); } else { OnFormData(x, beyond, Delimiter(boundary)); }
    case AtFormData(_, _) => TakesNames(s, boundary, x, beyond);
    case AtName(_, _) => TakesNames(s, boundary, x, beyond);
    case AtFilename(_, _, _) => TakesType(s, boundary, x, beyond);
    case AtType(_, _) => OnEmptyLine(ContentType, x, beyond, Delimiter(boundary));
    case AtEmptyLine(_, _) => TakesValue(s, boundary, x, beyond);
    case AtValue(_, _) => TakesValue(s, boundary, x, beyond);
  }

  lemma OnEnd(beyond: string, d: string)
    requires |beyond| >= OVERRUN
    ensures On(FINISH_MARK + "", beyond, Boundary, d) ==
      Prepend([Event(Finish, FINISH_MARK)], On("", beyond, Finish, d))
  {
    assert FINISH_MARK + "" == FINISH_MARK;
    OnFinish(beyond, d);
  }

  lemma LeftHasLine(s: Spot, boundary: string)
    requires s.AtType?
    ensures StartsWith(Left(s, boundary), CRLF)
  {
  }

  /** What is left begins with the next item. */
  lemma LeftSplits(s: Spot, boundary: string, c: nat)
    requires !s.AtEnd? && c <= |Left(s, boundary)|
    ensures var item, rest := Item(s, boundary), Left(Next(s), boundary);
      && (c <= |item| ==> Left(s, boundary)[..c] == item[..c])
      && (c >= |item| ==> c - |item| <= |rest| && Left(s, boundary)[..c] == item + rest[..c - |item|]
                          && Left(s, boundary)[c..] == rest[c - |item|..])
  {
    hide Item;
    SplitText(Item(s, boundary), Left(Next(s), boundary), c);
  }

  lemma ItemLeft(s: Spot, boundary: string)
    requires !s.AtEnd?
    ensures |Left(s, boundary)| >= |Item(s, boundary)|
  {
    hide Item;
  }

  lemma SplitText(a: string, b: string, c: nat)
    requires c <= |a + b|
    ensures c <= |a| ==> (a + b)[..c] == a[..c]
    ensures c >= |a| ==> (a + b)[..c] == a + b[..c - |a|] && (a + b)[c..] == b[c - |a|..]
  {
  }

  lemma OnNothing(beyond: string, state: Kind, d: string)
    requires |beyond| >= OVERRUN
    ensures On("", beyond, state, d) == Outcome([], state, true)
  {
  }

  /** A buffer in a value without a delimiter. */
  lemma OnOpen(state: Kind, value: string, beyond: string, d: string)
    requires |beyond| >= OVERRUN && value != "" && Find(value, d) == -1 && (state.EmptyLine? || state.Value?)
    ensures On(value, beyond, state, d) == Outcome([Event(Value, value)], Value, true)
  {
    hide Find, Go;
    assert (value + beyond)[..|value|] == value;
  }

  /** Behind a content type at the end of the buffer the line break is in the memory. */
  lemma OnTypeAtEnd(f: File, beyond: string, d: string)
    requires |beyond| >= OVERRUN && CleanType(f.contentType) && |f.contentType| >= 2 && StartsWith(beyond, CRLF)
    ensures On(CONTENT_TYPE_PREFIX + f.contentType, beyond, Filename, d) ==
      Outcome([Event(ContentType, f.contentType)], ContentType, true)
  {
    hide StartsWith, Loop, Go, Find;
    var t := f.contentType;
    var x := CONTENT_TYPE_PREFIX + t;
    var mem := x + beyond;
    StartsIs(beyond, CRLF);
    TypeWindow(t, beyond);
    FirstWithTail(t[1..], CRLF, beyond[|CRLF|..OVERRUN]);
    StartsHere(CONTENT_TYPE_PREFIX, t);
    LoopType(mem, |x|, d);
    GoEnds([Event(ContentType, t)], mem, |x|, |x|, ContentType, d);
  }

  lemma TypeWindow(t: string, beyond: string)
    requires t != "" && |beyond| >= OVERRUN && beyond[..|CRLF|] == CRLF
    ensures var x := CONTENT_TYPE_PREFIX + t;
      var mem := x + beyond;
      && mem[..|x|] == x && mem[|CONTENT_TYPE_PREFIX|..|x|] == t
      && mem[OVERRUN..OVERRUN + |x|] == t[1..] + CRLF + beyond[|CRLF|..OVERRUN]
  {
    var x, more := CONTENT_TYPE_PREFIX + t, beyond[|CRLF|..OVERRUN];
    var mem := x + beyond;
    assert beyond[..OVERRUN] == CRLF + more;
    assert mem[OVERRUN..|x|] == t[1..];
    assert mem[|x|..OVERRUN + |x|] == beyond[..OVERRUN];
    assert mem[OVERRUN..OVERRUN + |x|] == mem[OVERRUN..|x|] + mem[|x|..OVERRUN + |x|];
  }

  lemma StartsIs(s: string, p: string)
    requires StartsWith(s, p)
    ensures |p| <= |s| && s[..|p|] == p
  {
  }

  lemma StartsHere(p: string, s: string)
    ensures StartsWith(p + s, p)
  {
  }

  lemma GoEnds(es: seq<Event>, mem: string, n: nat, c: nat, state: Kind, d: string)
    requires n + OVERRUN <= |mem| && 0 < c && c >= n
    ensures Go(es, mem, n, c, state, d) == Outcome(es, state, true)
  {
  }

  /** The place a harmless cut leads to, and what the first buffer gives. */
  ghost predicate Leads(s: Spot, boundary: string, c: nat, beyond: string, es: seq<Event>, n: Spot)
    requires boundary != "" && |beyond| >= OVERRUN && c <= |Left(s, boundary)|
  {
    && On(Left(s, boundary)[..c], beyond, StateOf(s), Delimiter(boundary)) == Outcome(es, StateOf(n), true)
    && Left(s, boundary)[c..] == Left(n, boundary) && CleanFrom(n, boundary)
    && Joined(es + Due(n, boundary)) == Due(s, boundary)
  }

  lemma LeadsHere(s: Spot, boundary: string, beyond: string)
    requires boundary != "" && |beyond| >= OVERRUN && CleanFrom(s, boundary)
    ensures Leads(s, boundary, 0, beyond, [], s)
  {
    hide On, Left, Due, CleanFrom, Delimiter;
    OnNothing(beyond, StateOf(s), Delimiter(boundary));
    JoinedDue(s, boundary);
    assert [] + Due(s, boundary) == Due(s, boundary);
  }

  /** A value cut in two, as text. */
  lemma ValueLeft(s: Spot, boundary: string, c: nat)
    requires (s.AtEmptyLine? || s.AtValue?) && c <= |s.value|
    ensures c <= |Left(s, boundary)| && Left(s, boundary)[..c] == s.value[..c]
    ensures Left(s, boundary)[c..] == Left(AtValue(s.value[c..], s.parts), boundary)
  {
    CutText(s.value, CRLF + boundary, Left(AtBoundary(s.parts), boundary), c);
  }

  lemma CutText(v: string, line: string, rest: string, c: nat)
    requires c <= |v|
    ensures (v + line + rest)[..c] == v[..c] && (v + line + rest)[c..] == v[c..] + line + rest
  {
    assert v + line + rest == v[..c] + (v[c..] + line + rest);
  }

  /** And as events. */
  lemma ValueDue(s: Spot, boundary: string, c: nat)
    requires (s.AtEmptyLine? || s.AtValue?) && 0 < c <= |s.value|
    ensures Joined([Event(Value, s.value[..c])] + Due(AtValue(s.value[c..], s.parts), boundary)) == Due(s, boundary)
  {
    hide Joined, Due, Left;
    var v, end, rest := s.value, Event(Boundary, CRLF + boundary), Due(AtBoundary(s.parts), boundary);
    Unfold(AtValue(v[c..], s.parts), boundary);
    Unfold(s, boundary);
    JoinedPieces(v[..c], v[c..], end, rest);
    JoinedDue(AtBoundary(s.parts), boundary);
    assert v[..c] + v[c..] == v;
    assert ItemEvents(s, boundary) == [Event(Value, v), end];
  }

  lemma LeadsIntoValue(s: Spot, boundary: string, c: nat, beyond: string)
    requires boundary != "" && |beyond| >= OVERRUN && CleanFrom(s, boundary) && (s.AtEmptyLine? || s.AtValue?) &&
      0 < c <= |s.value|
    requires c <= |Left(s, boundary)|
    ensures Leads(s, boundary, c, beyond, [Event(Value, s.value[..c])], AtValue(s.value[c..], s.parts))
  {
    hide On, Delimiter, FirstAtEnd, Find, Joined, Left, Due;
    var v, d := s.value, Delimiter(boundary);
    ValueLeft(s, boundary, c);
    ValueDue(s, boundary, c);
    DelimiterIsNot(boundary);
    NoneInStart(v, d, c);
    OnOpen(StateOf(s), v[..c], beyond, d);
    FirstInRest(v, d, c);
  }

  lemma DelimiterIsNot(boundary: string)
    requires boundary != ""
    ensures Delimiter(boundary) != "" && CRLF + boundary == Delimiter(boundary) + [boundary[|boundary| - 1]]
  {
  }

  lemma JoinedPieces(a: string, b: string, end: Event, x: seq<Event>)
    requires !end.kind.Value?
    ensures Joined([Event(Value, a)] + ((if b == "" then [] else [Event(Value, b)]) + [end] + x)) ==
      [Event(Value, a + b), end] + Joined(x)
  {
    if b == "" {
      assert a + b == a;
      JoinedValue(Event(Value, a), end, x);
      assert [Event(Value, a)] + ([] + [end] + x) == [Event(Value, a), end] + x;
    } else {
      var es := [Event(Value, a)] + ([Event(Value, b)] + [end] + x);
      assert es[2..] == [end] + x;
      JoinedValue(Event(Value, a + b), end, x);
      assert [Event(Value, a + b)] + ([end] + x) == [Event(Value, a + b), end] + x;
    }
  }

  lemma LeadsBehind(s: Spot, boundary: string, c: nat, beyond: string, es: seq<Event>, n: Spot)
    requires boundary != "" && |beyond| >= OVERRUN && CleanFrom(s, boundary) && !s.AtEnd?
    requires |Item(s, boundary)| <= c <= |Left(s, boundary)| && c - |Item(s, boundary)| <= |Left(Next(s), boundary)|
    requires Leads(Next(s), boundary, c - |Item(s, boundary)|, beyond, es, n)
    requires s.AtFilename? ==> c >= |Item(s, boundary)| + |CRLF|
    ensures Leads(s, boundary, c, beyond, ItemEvents(s, boundary) + es, n)
  {
    hide On, Delimiter, Joined, CleanItem, Item, ItemEvents, StateOf, Left, Due;
    LeftSplits(s, boundary, c);
    var x := Left(Next(s), boundary)[..c - |Item(s, boundary)|];
    NeedsLine(s, boundary, x);
    OnItem(s, boundary, x, beyond);
    DueBehind(s, boundary, es, Due(n, boundary));
  }

  lemma DueBehind(s: Spot, boundary: string, es: seq<Event>, due: seq<Event>)
    requires !s.AtEnd? && Joined(es + due) == Due(Next(s), boundary)
    ensures Joined(ItemEvents(s, boundary) + es + due) == Due(s, boundary)
  {
    hide Joined, ItemEvents;
    JoinedItem(s, boundary, es + due);
    assert ItemEvents(s, boundary) + es + due == ItemEvents(s, boundary) + (es + due);
  }

  /** A harmless cut: the first buffer ends as planned, and the rest is what is left there. */
  lemma {:induction false} CutLeads(s: Spot, boundary: string, c: nat, beyond: string)
    requires boundary != "" && |beyond| >= OVERRUN && CleanFrom(s, boundary) && c <= |Left(s, boundary)|
    ensures match Cut(s, boundary, c, beyond) {
      case None => true
      case Some((es, n)) => Leads(s, boundary, c, beyond, es, n)
    }
    decreases Size(s)
  {
    hide Leads, Cut, Left, Item, CleanItem, StartsWith;
    CutNothing(s, boundary, beyond);
    if c == 0 {
      LeadsHere(s, boundary, beyond);
    } else if Cut(s, boundary, c, beyond).Some? {
      CutNotInItem(s, boundary, c, beyond);
      LeftLength(s, boundary);
      if c < |Item(s, boundary)| {
        CutInside(s, boundary, c, beyond);
        LeadsIntoValue(s, boundary, c, beyond);
      } else if s.AtFilename? && c == |Item(s, boundary)| {
        CutAtType(s, boundary, beyond);
        LeadsToType(s, boundary, beyond);
      } else {
        CutBehind(s, boundary, c, beyond);
        CutLeads(Next(s), boundary, c - |Item(s, boundary)|, beyond);
        var r := Cut(Next(s), boundary, c - |Item(s, boundary)|, beyond).value;
        if s.AtFilename? { LineTaken(s, boundary, c, beyond); }
        LeadsBehind(s, boundary, c, beyond, r.0, r.1);
      }
    }
  }

  lemma LeadsToType(s: Spot, boundary: string, beyond: string)
    requires boundary != "" && |beyond| >= OVERRUN && CleanFrom(s, boundary) && s.AtFilename?
    requires |s.file.contentType| >= 2 && StartsWith(beyond, CRLF) && |Item(s, boundary)| <= |Left(s, boundary)|
    ensures Leads(s, boundary, |Item(s, boundary)|, beyond, ItemEvents(s, boundary), Next(s))
  {
    hide On, Delimiter, Joined, StartsWith;
    LeftSplits(s, boundary, |Item(s, boundary)|);
    OnTypeAtEnd(s.file, beyond, Delimiter(boundary));
    JoinedItem(s, boundary, Due(Next(s), boundary));
    JoinedDue(Next(s), boundary);
  }

  /** What cannot become right any more, whatever comes: the buffer is refused, or its events are not
      the beginning of those due, or every next buffer is refused. */
  ghost predicate Spoilt(o: Outcome, rest: string, due: seq<Event>, d: string) {
    || !o.ok
    || (forall x {:trigger o.events + x} :: Joined(o.events + x) != due)
    || (rest != "" && !o.state.Void? && forall z, b {:trigger On(z, b, o.state, d)} ::
      z != "" && z <= rest && |b| >= OVERRUN ==> !On(z, b, o.state, d).ok)
  }

  /** Behind a quoted item that is cut there is no quote. */
  lemma OnCutQuoted(state: Kind, start: string, text: string, c: nat, beyond: string, d: string)
    requires |beyond| >= OVERRUN && '"' !in text && 0 < c < |start + (text + QUOTE)|
    requires (state.FormData? && start == NAME_S) || (state.Name? && start == FNAME_S)
    ensures !On((start + (text + QUOTE))[..c], beyond, state, d).ok
  {
    hide Go;
    var x := (start + (text + QUOTE))[..c];
    assert (x + beyond)[..c] == x && x[0] == start[0];
    forall j | |start| <= j < c ensures x[j] != '"' {
      assert x[j] == text[j - |start|];
    }
    assert !StartsWith(x, EMPTY_LINE);
  }

  lemma OnCutMark(state: Kind, mark: string, c: nat, beyond: string, d: string)
    requires |beyond| >= OVERRUN && 0 < c < |mark|
    requires (state.Boundary? && (mark == CONTENT_DFD || mark == FINISH_MARK)) ||
      ((state.Name? || state.ContentType?) && mark == EMPTY_LINE)
    ensures !On(mark[..c], beyond, state, d).ok
  {
    hide Go;
    var x := mark[..c];
    assert (x + beyond)[..c] == x && x[0] == mark[0];
    assert mark == FINISH_MARK ==> !StartsWith(x, CONTENT_DFD);
    assert mark == CONTENT_DFD ==> x != FINISH_MARK;
    assert mark == EMPTY_LINE ==> !StartsWith(x, FNAME_S);
  }

  /** A cut in an item of the headers, but the type. */
  lemma CutInItem(s: Spot, boundary: string, c: nat, beyond: string)
    requires boundary != "" && |beyond| >= OVERRUN && CleanFrom(s, boundary) && 0 < c < |Item(s, boundary)| &&
      c <= |Left(s, boundary)|
    requires s.AtBoundary? || s.AtFormData? || s.AtName? || s.AtType?
    ensures !On(Left(s, boundary)[..c], beyond, StateOf(s), Delimiter(boundary)).ok
  {
    hide On, Delimiter;
    LeftSplits(s, boundary, c);
    var d := Delimiter(boundary);
    match s
    case AtBoundary(ps) => OnCutMark(Boundary, Item(s, boundary), c, beyond, d);
    case AtFormData(p, _) => OnCutQuoted(FormData, NAME_S, p.name, c, beyond, d);
    case AtName(p, _) =>
      if p.file == None {
        OnCutMark(Name, EMPTY_LINE, c, beyond, d);
      } else {
        OnCutQuoted(Name, FNAME_S, p.file.value.name, c, beyond, d);
      }
    case AtType(_, _) => OnCutMark(ContentType, EMPTY_LINE, c, beyond, d);
    case _ =>
  }

  /** In the delimiter behind a value: what there is of it is taken for value. */
  lemma CutInDelimiter(s: Spot, boundary: string, c: nat, beyond: string)
    requires boundary != "" && |beyond| >= OVERRUN && CleanFrom(s, boundary) && (s.AtEmptyLine? || s.AtValue?)
    requires |s.value| < c < |s.value + Delimiter(boundary)| && c <= |Left(s, boundary)|
    ensures Spoilt(On(Left(s, boundary)[..c], beyond, StateOf(s), Delimiter(boundary)), Left(s, boundary)[c..],
      Due(s, boundary), Delimiter(boundary))
  {
    hide On, FirstAtEnd, Find, Joined, Delimiter, Left;
    var v, d := s.value, Delimiter(boundary);
    var x := (v + d)[..c];
    BeginOfLine(s, boundary, c);
    NoneBefore(v, d, c);
    OnOpen(StateOf(s), x, beyond, d);
    forall y ensures Joined([Event(Value, x)] + y) != Due(s, boundary) {
      JoinedStarts(x, y);
    }
  }

  lemma BeginOfLine(s: Spot, boundary: string, c: nat)
    requires boundary != "" && (s.AtEmptyLine? || s.AtValue?) && c <= |s.value + Delimiter(boundary)| &&
      c <= |Left(s, boundary)|
    ensures Left(s, boundary)[..c] == (s.value + Delimiter(boundary))[..c]
  {
    hide Delimiter;
    DelimiterIsNot(boundary);
    var vd, last := s.value + Delimiter(boundary), [boundary[|boundary| - 1]];
    assert s.value + (CRLF + boundary) == vd + last;
    CutText(vd, last, Left(Next(s), boundary), c);
  }

  /** Behind the delimiter and before the last byte of the boundary line. */
  lemma CutInLine(s: Spot, boundary: string, beyond: string)
    requires boundary != "" && |beyond| >= OVERRUN && CleanFrom(s, boundary) && (s.AtEmptyLine? || s.AtValue?)
    requires |s.value + Delimiter(boundary)| <= |Left(s, boundary)|
    ensures var c := |s.value + Delimiter(boundary)|;
      Spoilt(On(Left(s, boundary)[..c], beyond, StateOf(s), Delimiter(boundary)), Left(s, boundary)[c..],
        Due(s, boundary), Delimiter(boundary))
  {
    hide On, FirstAtEnd, Find, Joined, Delimiter, Left, Due;
    var v, d := s.value, Delimiter(boundary);
    var c := |v + d|;
    BeginOfLine(s, boundary, c);
    EndOfLine(s, boundary);
    DelimiterIsNot(boundary);
    OnWholeDelimiter(StateOf(s), v, d, beyond);
    assert (v + d)[..c] == v + d;
    var o, rest := On(v + d, beyond, StateOf(s), d), Left(s, boundary)[c..];
    if o.ok {
      forall z, b | z != "" && z <= rest && |b| >= OVERRUN ensures !On(z, b, o.state, d).ok {
        LastByteRefused(boundary, AtBoundary(s.parts), z, b, d);
      }
    }
  }

  lemma EndOfLine(s: Spot, boundary: string)
    requires boundary != "" && (s.AtEmptyLine? || s.AtValue?)
    ensures var c := |s.value + Delimiter(boundary)|;
      c <= |Left(s, boundary)| &&
        Left(s, boundary)[c..] == [boundary[|boundary| - 1]] + Left(AtBoundary(s.parts), boundary)
  {
    hide Delimiter;
    DelimiterIsNot(boundary);
    var vd, last := s.value + Delimiter(boundary), [boundary[|boundary| - 1]];
    assert s.value + (CRLF + boundary) == vd + last;
    CutText(vd, last, Left(Next(s), boundary), |vd|);
    assert vd[|vd|..] + last == last;
  }

  lemma OnWholeDelimiter(state: Kind, v: string, d: string, beyond: string)
    requires |beyond| >= OVERRUN && FirstAtEnd(v, d) && d != "" && (state.EmptyLine? || state.Value?)
    ensures var o := On(v + d, beyond, state, d); o.ok ==> o.state.Boundary?
  {
    hide Find, Loop;
    var x := v + d;
    assert (x + beyond)[..|x|] == x;
    if state.EmptyLine? { LoopValue(x + beyond, |x|, d); } else { LoopLaterValue(x + beyond, |x|, d); }
  }

  /** A buffer that begins with the last byte of a boundary line. */
  lemma LastByteRefused(boundary: string, s: Spot, z: string, b: string, d: string)
    requires boundary != "" && s.AtBoundary? && z != "" && |b| >= OVERRUN
    requires z <= [boundary[|boundary| - 1]] + Left(s, boundary)
    ensures !On(z, b, Boundary, d).ok
  {
    hide Go;
    BehindLastByte(boundary[|boundary| - 1], Left(s, boundary), z);
    assert (z + b)[..|z|] == z;
  }

  lemma BehindLastByte(last: char, rest: string, z: string)
    requires rest == FINISH_MARK || StartsWith(rest, CONTENT_DFD)
    requires z != "" && z <= [last] + rest
    ensures !StartsWith(z, CONTENT_DFD) && z != FINISH_MARK
  {
    assert |z| > 1 ==> z[1] == rest[0];
    assert |z| > 2 ==> z[2] == rest[1];
  }

  /** What the parser does with a content type, by where it finds a line break. */
  ghost predicate TypeAnswer(o: Outcome, x: string, beyond: string, t: int, d: string)
    requires |x| > OVERRUN && |beyond| >= OVERRUN && t <= |x|
  {
    var mem := x + beyond;
    if t < 0 then !o.ok
    else if OVERRUN + t >= |x| then
      o == Outcome([Event(ContentType, mem[|CONTENT_TYPE_PREFIX|..OVERRUN + t])], ContentType, true)
    else o.ok == On(x[OVERRUN + t..], beyond, ContentType, d).ok
  }

  lemma OnTypeAnswer(x: string, beyond: string, t: int, d: string)
    requires |x| > OVERRUN && |beyond| >= OVERRUN && StartsWith(x, CONTENT_TYPE_PREFIX)
    requires t == Find((x + beyond)[OVERRUN..OVERRUN + |x|], CRLF)
    ensures TypeAnswer(On(x, beyond, Filename, d), x, beyond, t, d)
  {
    hide Find, StartsWith, Loop;
    var mem := x + beyond;
    assert mem[..|x|] == x;
    LoopType(mem, |x|, d);
    if t >= 0 {
      var es := [Event(ContentType, mem[|CONTENT_TYPE_PREFIX|..OVERRUN + t])];
      if OVERRUN + t >= |x| {
        GoEnds(es, mem, |x|, OVERRUN + t, ContentType, d);
      } else {
        assert x == x[..OVERRUN + t] + x[OVERRUN + t..];
        GoOn(es, x[..OVERRUN + t], x[OVERRUN + t..], beyond, ContentType, d);
      }
    }
  }

  /** A buffer that does not begin with an empty line is refused behind a content type. */
  lemma NoEmptyLine(z: string, b: string, d: string)
    requires z != "" && |b| >= OVERRUN && !StartsWith(z, EMPTY_LINE)
    ensures !On(z, b, ContentType, d).ok
  {
    hide Go;
    assert (z + b)[..|z|] == z;
  }

  /** A clean type has no line break behind its first byte, nor does one begin with its last. */
  lemma NoBreak(t: string, i: nat)
    requires CleanType(t) && 1 <= i < |t|
    ensures !(t[i] == '\r' && ((t + CRLF)[i + 1] == '\n'))
  {
    var rest := t[1..] + CRLF;
    if t[i] == '\r' && (t + CRLF)[i + 1] == '\n' {
      assert rest[i - 1..i + 1] == CRLF;
      assert Occurs(rest, CRLF, i - 1);
    }
  }

  /** A cut in a content type or, the memory being otherwise, behind it, or in its line break. */
  lemma CutInType(s: Spot, boundary: string, c: nat, beyond: string)
    requires boundary != "" && |beyond| >= OVERRUN && CleanFrom(s, boundary) && s.AtFilename? &&
      c <= |Left(s, boundary)|
    requires 0 < c <= |Item(s, boundary)| + 1
    requires c == |Item(s, boundary)| ==> |s.file.contentType| < 2 || !StartsWith(beyond, CRLF)
    ensures Spoilt(On(Left(s, boundary)[..c], beyond, Filename, Delimiter(boundary)), Left(s, boundary)[c..],
      Due(s, boundary), Delimiter(boundary))
  {
    hide On, Joined, Delimiter, Left, Due, TypeAnswer, CleanType, StartsWith, Find;
    var d, x := Delimiter(boundary), Left(s, boundary)[..c];
    if c <= OVERRUN {
      ShortType(x, beyond, d);
    } else {
      TypeBegins(s, boundary, c);
      var k := Find((x + beyond)[OVERRUN..OVERRUN + c], CRLF);
      OnTypeAnswer(x, beyond, k, d);
      CutTypeAnswered(s, boundary, c, beyond, k, On(x, beyond, Filename, d));
    }
  }

  lemma CutTypeAnswered(s: Spot, boundary: string, c: nat, beyond: string, k: int, o: Outcome)
    requires boundary != "" && |beyond| >= OVERRUN && s.AtFilename? && CleanType(s.file.contentType) &&
      c <= |Left(s, boundary)|
    requires OVERRUN < c <= |Item(s, boundary)| + 1
    requires c == |Item(s, boundary)| ==> |s.file.contentType| < 2 || !StartsWith(beyond, CRLF)
    requires var x, t := Left(s, boundary)[..c], s.file.contentType;
      && x[|CONTENT_TYPE_PREFIX|..] == (t + CRLF)[..c - |CONTENT_TYPE_PREFIX|]
      && k <= c && (k >= 0 ==> Occurs((x + beyond)[OVERRUN..OVERRUN + |x|], CRLF, k))
      && TypeAnswer(o, x, beyond, k, Delimiter(boundary))
    ensures Spoilt(o, Left(s, boundary)[c..], Due(s, boundary), Delimiter(boundary))
  {
    hide On, Joined, Delimiter, Left, Due, CleanType, StartsWith, Occurs;
    var d, x, t := Delimiter(boundary), Left(s, boundary)[..c], s.file.contentType;
    if k >= 0 && o.ok {
      BreakAtEnd(t, x, beyond, k);
      if OVERRUN + k < c {
        BreakIsNoEmptyLine(x, k);
        NoEmptyLine(x[OVERRUN + k..], beyond, d);
      } else if c < |Item(s, boundary)| {
        RestRefused(s, boundary, c, d);
      } else {
        var typed := (x + beyond)[|CONTENT_TYPE_PREFIX|..OVERRUN + k];
        assert |typed| != |t|;
        OtherFirst(Event(ContentType, typed), s, boundary);
      }
    }
  }

  lemma BreakIsNoEmptyLine(x: string, k: nat)
    requires OVERRUN + k == |x| - 1
    ensures x[OVERRUN + k..] != "" && !StartsWith(x[OVERRUN + k..], EMPTY_LINE)
  {
    assert |EMPTY_LINE| == 4 && |x[OVERRUN + k..]| == 1;
  }

  lemma RestRefused(s: Spot, boundary: string, c: nat, d: string)
    requires s.AtFilename? && CleanType(s.file.contentType) && OVERRUN < c < |Item(s, boundary)| &&
      c <= |Left(s, boundary)|
    ensures forall z, b {:trigger On(z, b, ContentType, d)} ::
      z != "" && z <= Left(s, boundary)[c..] && |b| >= OVERRUN ==> !On(z, b, ContentType, d).ok
    ensures Left(s, boundary)[c..] != ""
  {
    hide On, Left, Item, CleanType, StartsWith;
    ItemLeft(s, boundary);
    forall z, b | z != "" && z <= Left(s, boundary)[c..] && |b| >= OVERRUN ensures !On(z, b, ContentType, d).ok {
      RestOfType(s, boundary, c, z);
      NoEmptyLine(z, b, d);
    }
  }

  /** Events that begin with another content type are not those due. */
  lemma OtherFirst(e: Event, s: Spot, boundary: string)
    requires s.AtFilename? && e.kind.ContentType? && e.data != s.file.contentType
    ensures forall y {:trigger [e] + y} :: Joined([e] + y) != Due(s, boundary)
  {
    hide Joined;
    assert Due(s, boundary)[0] == Event(ContentType, s.file.contentType);
    forall y ensures Joined([e] + y) != Due(s, boundary) {
      JoinedBehind(e, y);
    }
  }

  lemma ShortType(x: string, beyond: string, d: string)
    requires 0 < |x| <= OVERRUN && |beyond| >= OVERRUN
    ensures !On(x, beyond, Filename, d).ok
  {
    hide Go, Find;
    assert (x + beyond)[..|x|] == x;
  }

  /** The first buffer is the prefix, the type or its beginning, and at most the first byte of the line break. */
  lemma TypeBegins(s: Spot, boundary: string, c: nat)
    requires s.AtFilename? && OVERRUN < c <= |Item(s, boundary)| + 1 && c <= |Left(s, boundary)|
    ensures var x, t := Left(s, boundary)[..c], s.file.contentType;
      StartsWith(x, CONTENT_TYPE_PREFIX) && x[|CONTENT_TYPE_PREFIX|..] == (t + CRLF)[..c - |CONTENT_TYPE_PREFIX|]
  {
    hide Left, Item;
    TypeIsNext(s, boundary);
    LeftHasLine(Next(s), boundary);
    BeginOfText(CONTENT_TYPE_PREFIX, s.file.contentType, CRLF, Left(Next(s), boundary), c);
  }

  lemma BeginOfText(a: string, b: string, line: string, rest: string, c: nat)
    requires StartsWith(rest, line) && line != "" && |a| <= c <= |a + b| + 1
    ensures c <= |a + b + rest| && StartsWith((a + b + rest)[..c], a)
    ensures (a + b + rest)[..c][|a|..] == (b + line)[..c - |a|]
  {
    assert rest == line + rest[|line|..];
  }

  /** A line break that begins in such a buffer begins with its last byte. */
  lemma BreakAtEnd(t: string, x: string, beyond: string, k: nat)
    requires CleanType(t) && OVERRUN < |x| <= |CONTENT_TYPE_PREFIX| + |t| + 1 && |beyond| >= OVERRUN
    requires x[|CONTENT_TYPE_PREFIX|..] == (t + CRLF)[..|x| - |CONTENT_TYPE_PREFIX|]
    requires Occurs((x + beyond)[OVERRUN..OVERRUN + |x|], CRLF, k)
    ensures OVERRUN + k < |x| ==> OVERRUN + k == |x| - 1
    ensures |x| == |CONTENT_TYPE_PREFIX| + |t| && 1 + k == |t| ==> StartsWith(beyond, CRLF)
  {
    var mem, m := x + beyond, |x| - |CONTENT_TYPE_PREFIX|;
    var window := mem[OVERRUN..OVERRUN + |x|];
    assert window[k] == window[k..k + 2][0] && window[k + 1] == window[k..k + 2][1];
    assert mem[OVERRUN + k] == '\r' && mem[OVERRUN + k + 1] == '\n';
    if OVERRUN + k + 1 < |x| {
      assert x[OVERRUN + k] == x[|CONTENT_TYPE_PREFIX|..][1 + k] == (t + CRLF)[1 + k];
      assert x[OVERRUN + k + 1] == x[|CONTENT_TYPE_PREFIX|..][2 + k] == (t + CRLF)[2 + k];
      NoBreak(t, 1 + k);
    }
    if |x| == |CONTENT_TYPE_PREFIX| + |t| && 1 + k == |t| {
      assert beyond[0] == mem[|x|] && beyond[1] == mem[|x| + 1];
      assert beyond[..2] == CRLF;
    }
  }

  /** Nor does the rest of a type begin with an empty line. */
  lemma RestOfType(s: Spot, boundary: string, c: nat, z: string)
    requires s.AtFilename? && CleanType(s.file.contentType) && OVERRUN < c < |Item(s, boundary)| &&
      c <= |Left(s, boundary)|
    requires z != "" && z <= Left(s, boundary)[c..]
    ensures !StartsWith(z, EMPTY_LINE)
  {
    hide CleanType, StartsWith, Item;
    TypeLeft(s, boundary, c);
    RestOfTypeText(s.file.contentType, Left(Next(s), boundary), c - |CONTENT_TYPE_PREFIX|, z);
  }

  lemma TypeLeft(s: Spot, boundary: string, c: nat)
    requires s.AtFilename? && |CONTENT_TYPE_PREFIX| <= c <= |Item(s, boundary)| && c <= |Left(s, boundary)|
    ensures |Item(s, boundary)| == |CONTENT_TYPE_PREFIX| + |s.file.contentType| &&
      StartsWith(Left(Next(s), boundary), CRLF)
    ensures Left(s, boundary)[c..] == s.file.contentType[c - |CONTENT_TYPE_PREFIX|..] + Left(Next(s), boundary)
  {
    hide Left, Item;
    LeftHasLine(Next(s), boundary);
    TypeIsNext(s, boundary);
    RestOfText(CONTENT_TYPE_PREFIX, s.file.contentType, Left(Next(s), boundary), c);
  }

  lemma TypeIsNext(s: Spot, boundary: string)
    requires s.AtFilename?
    ensures Item(s, boundary) == CONTENT_TYPE_PREFIX + s.file.contentType
    ensures Left(s, boundary) == CONTENT_TYPE_PREFIX + s.file.contentType + Left(Next(s), boundary)
  {
  }

  lemma RestOfText(a: string, b: string, d: string, c: nat)
    requires |a| <= c <= |a + b|
    ensures (a + b + d)[c..] == b[c - |a|..] + d
  {
  }

  lemma RestOfTypeText(t: string, rest: string, k: nat, z: string)
    requires CleanType(t) && 1 <= k < |t| && StartsWith(rest, CRLF) && z != "" && z <= t[k..] + rest
    ensures !StartsWith(z, EMPTY_LINE)
  {
    if StartsWith(z, EMPTY_LINE) {
      assert rest[0] == rest[..2][0] == '\r';
      assert z[0] == t[k] && z[0] == z[..4][0] && z[1] == z[..4][1];
      assert z[1] == (t[k..] + rest)[1] == (t + CRLF)[k + 1];
      NoBreak(t, k);
    }
  }

  /** What is spoilt behind an item spoils the whole. */
  lemma SpoiltBehind(s: Spot, boundary: string, c: nat, beyond: string)
    requires boundary != "" && |beyond| >= OVERRUN && CleanFrom(s, boundary) && !s.AtEnd?
    requires |Item(s, boundary)| <= c <= |Left(s, boundary)| && c - |Item(s, boundary)| <= |Left(Next(s), boundary)|
    requires s.AtFilename? ==> c >= |Item(s, boundary)| + |CRLF|
    requires var b := c - |Item(s, boundary)|;
      Spoilt(On(Left(Next(s), boundary)[..b], beyond, StateOf(Next(s)), Delimiter(boundary)),
        Left(Next(s), boundary)[b..], Due(Next(s), boundary), Delimiter(boundary))
    ensures Spoilt(On(Left(s, boundary)[..c], beyond, StateOf(s), Delimiter(boundary)), Left(s, boundary)[c..],
      Due(s, boundary), Delimiter(boundary))
  {
    hide On, Delimiter, Spoilt, CleanItem, Item, ItemEvents, StateOf, Left, Due, Prepend;
    LeftSplits(s, boundary, c);
    var x := Left(Next(s), boundary)[..c - |Item(s, boundary)|];
    NeedsLine(s, boundary, x);
    OnItem(s, boundary, x, beyond);
    SpoiltPrepended(s, boundary, On(x, beyond, StateOf(Next(s)), Delimiter(boundary)), Left(s, boundary)[c..],
      Delimiter(boundary));
  }

  lemma NeedsLine(s: Spot, boundary: string, x: string)
    requires !s.AtEnd? && x <= Left(Next(s), boundary) && (s.AtFilename? ==> |x| >= |CRLF|)
    ensures s.AtFilename? ==> StartsWith(x, CRLF)
    ensures Next(s).AtEnd? ==> x == ""
  {
    if s.AtFilename? {
      LeftHasLine(Next(s), boundary);
      assert x[..|CRLF|] == Left(Next(s), boundary)[..|CRLF|];
    }
  }

  lemma SpoiltPrepended(s: Spot, boundary: string, o: Outcome, rest: string, d: string)
    requires !s.AtEnd? && Spoilt(o, rest, Due(Next(s), boundary), d)
    ensures Spoilt(Prepend(ItemEvents(s, boundary), o), rest, Due(s, boundary), d)
  {
    hide On, Joined, ItemEvents;
    if forall y {:trigger o.events + y} :: Joined(o.events + y) != Due(Next(s), boundary) {
      forall y ensures Joined(ItemEvents(s, boundary) + o.events + y) != Due(s, boundary) {
        NotDueBehind(s, boundary, o.events, y);
      }
    }
  }

  lemma NotDueBehind(s: Spot, boundary: string, x: seq<Event>, y: seq<Event>)
    requires !s.AtEnd?
    ensures Joined(ItemEvents(s, boundary) + x + y) == Due(s, boundary) ==> Joined(x + y) == Due(Next(s), boundary)
  {
    hide Joined, ItemEvents;
    var es := ItemEvents(s, boundary);
    JoinedItem(s, boundary, x + y);
    assert es + x + y == es + (x + y);
    SameBehind(es, Joined(x + y), Due(Next(s), boundary));
  }

  lemma SameBehind(a: seq<Event>, b: seq<Event>, c: seq<Event>)
    ensures a + b == a + c ==> b == c
  {
    if a + b == a + c {
      assert (a + b)[|a|..] == b && (a + c)[|a|..] == c;
    }
  }

  /** A cut of another kind: nothing that comes can make it good. */
  lemma {:induction false} CutSpoils(s: Spot, boundary: string, c: nat, beyond: string)
    requires boundary != "" && |beyond| >= OVERRUN && CleanFrom(s, boundary) && c <= |Left(s, boundary)|
    requires Cut(s, boundary, c, beyond) == None
    ensures Spoilt(On(Left(s, boundary)[..c], beyond, StateOf(s), Delimiter(boundary)), Left(s, boundary)[c..],
      Due(s, boundary), Delimiter(boundary))
    decreases Size(s)
  {
    hide Spoilt, On, Delimiter, CleanItem, Due;
    var item := Item(s, boundary);
    if s.AtFilename? && c <= |item| + 1 {
      CutInType(s, boundary, c, beyond);
    } else if c >= |item| {
      LeftSplits(s, boundary, c);
      CutSpoils(Next(s), boundary, c - |item|, beyond);
      SpoiltBehind(s, boundary, c, beyond);
    } else if s.AtEmptyLine? || s.AtValue? {
      DelimiterIsNot(boundary);
      if c == |s.value + Delimiter(boundary)| {
        CutInLine(s, boundary, beyond);
      } else {
        CutInDelimiter(s, boundary, c, beyond);
      }
    } else {
      SpoiltAtOnce(s, boundary, c, beyond);
    }
  }

  lemma SpoiltAtOnce(s: Spot, boundary: string, c: nat, beyond: string)
    requires boundary != "" && |beyond| >= OVERRUN && CleanFrom(s, boundary) && 0 < c < |Item(s, boundary)| &&
      c <= |Left(s, boundary)|
    requires s.AtBoundary? || s.AtFormData? || s.AtName? || s.AtType?
    ensures Spoilt(On(Left(s, boundary)[..c], beyond, StateOf(s), Delimiter(boundary)), Left(s, boundary)[c..],
      Due(s, boundary), Delimiter(boundary))
  {
    hide On, Delimiter;
    CutInItem(s, boundary, c, beyond);
  }
}
