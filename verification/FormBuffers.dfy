/** Bodies in any number of buffers: they come back as they were exactly when every cut is harmless. */
module FormBuffers {
  import opened Bytes
  import opened FormText
  import opened FormParser
  import opened FormRoundTrip
  import opened FormChunks
  import opened FormCuts

  /** A buffer, and what stands behind it in memory. */
  datatype Buffer = Buffer(data: string, beyond: string)

  predicate Backed(bs: seq<Buffer>) {
    forall b :: b in bs ==> |b.beyond| >= OVERRUN
  }

  function Text(bs: seq<Buffer>): string {
    if bs == [] then "" else bs[0].data + Text(bs[1..])
  }

  /** One call after the other with the same context, until one fails. */
  function ParseAll(bs: seq<Buffer>, state: Kind, d: string): Outcome
    requires Backed(bs)
  {
    if bs == [] then Outcome([], state, true)
    else
      var (o, d') := Parse(bs[0].data + bs[0].beyond, |bs[0].data|, state, d);
      if o.ok then Prepend(o.events, ParseAll(bs[1..], o.state, d')) else o
  }

  /** Everything has come, whole. */
  predicate Comes(o: Outcome, due: seq<Event>) {
    o.ok && o.state.Finish? && Joined(o.events) == due
  }

  /** How far the first `i` buffers reach. */
  function Reach(bs: seq<Buffer>, i: nat): (c: nat)
    requires i <= |bs|
    ensures c <= |Text(bs)|
  {
    if i == 0 then 0 else |bs[0].data| + Reach(bs[1..], i - 1)
  }

  /** The cut behind every buffer is harmless; an empty buffer makes none. */
  predicate Harmless(s: Spot, boundary: string, bs: seq<Buffer>)
    requires |Text(bs)| <= |Left(s, boundary)|
  {
    forall i: nat :: i < |bs| ==> HarmlessAt(s, boundary, bs, i)
  }

  predicate HarmlessAt(s: Spot, boundary: string, bs: seq<Buffer>, i: nat)
    requires |Text(bs)| <= |Left(s, boundary)| && i < |bs|
  {
    bs[i].data == "" || Cut(s, boundary, Reach(bs, i + 1), bs[i].beyond).Some?
  }

  lemma ParseOn(b: Buffer, state: Kind, d: string)
    requires |b.beyond| >= OVERRUN && !state.Void?
    ensures Parse(b.data + b.beyond, |b.data|, state, d) == (On(b.data, b.beyond, state, d), d)
  {
    hide Loop;
  }

  lemma FirstOf(bs: seq<Buffer>)
    requires bs != []
    ensures |bs[0].data| <= |Text(bs)| && Text(bs)[..|bs[0].data|] == bs[0].data &&
      Text(bs)[|bs[0].data|..] == Text(bs[1..])
  {
  }

  lemma NothingLeft(s: Spot, boundary: string)
    ensures Left(s, boundary) == "" <==> s.AtEnd?
  {
  }

  /** A value in front of other events. */
  lemma {:induction false} ValueInFront(u: string, x: seq<Event>)
    ensures var j := Joined(x);
      Joined([Event(Value, u)] + x) ==
        if j != [] && j[0].kind.Value? then [Event(Value, u + j[0].data)] + j[1..] else [Event(Value, u)] + j
    decreases |x|
  {
    var es := [Event(Value, u)] + x;
    if x == [] {
    } else if x[0].kind.Value? {
      var v, more := x[0].data, x[1..];
      assert es[2..] == more && x == [Event(Value, v)] + more;
      ValueInFront(u + v, more);
      ValueInFront(v, more);
      assert forall w :: (u + v) + w == u + (v + w);
    } else {
      assert es[1..] == x && Joined(x)[0] == x[0];
    }
  }

  /** Joining may begin with the end. */
  lemma {:induction false} JoinedLater(a: seq<Event>, x: seq<Event>, y: seq<Event>)
    requires Joined(x) == Joined(y)
    ensures Joined(a + x) == Joined(a + y)
    decreases |a|
  {
    hide Joined;
    if a == [] {
      assert a + x == x && a + y == y;
    } else {
      JoinedLater(a[1..], x, y);
      Unfolded(a, x);
      Unfolded(a, y);
      if a[0].kind.Value? {
        ValueInFront(a[0].data, a[1..] + x);
        ValueInFront(a[0].data, a[1..] + y);
      } else {
        JoinedBehind(a[0], a[1..] + x);
        JoinedBehind(a[0], a[1..] + y);
      }
    }
  }

  lemma Unfolded(a: seq<Event>, x: seq<Event>)
    requires a != []
    ensures a + x == [a[0]] + (a[1..] + x)
    ensures a[0].kind.Value? ==> a[0] == Event(Value, a[0].data)
  {
  }

  /** Not beginning with an empty value. */
  predicate Solid(x: seq<Event>) {
    x == [] || x[0] != Event(Value, "")
  }

  predicate WithValue(x: seq<Event>) {
    x != [] && x[0].kind.Value?
  }

  lemma JoinedBegins(x: seq<Event>)
    ensures WithValue(Joined(x)) <==> WithValue(x)
    ensures Solid(x) ==> Solid(Joined(x))
  {
    if WithValue(x) {
      JoinedStarts(x[0].data, x[1..]);
      assert x == [Event(Value, x[0].data)] + x[1..];
    }
  }

  lemma ValueCancels(u: string, x: seq<Event>, y: seq<Event>)
    requires Joined([Event(Value, u)] + x) == Joined([Event(Value, u)] + y)
    requires (WithValue(x) <==> WithValue(y)) || (Solid(x) && Solid(y))
    ensures Joined(x) == Joined(y)
  {
    hide Joined;
    ValueInFront(u, x);
    ValueInFront(u, y);
    JoinedBegins(x);
    JoinedBegins(y);
    FrontCancels(u, Joined(x), Joined(y));
  }

  lemma FrontCancels(u: string, x: seq<Event>, y: seq<Event>)
    requires (WithValue(x) <==> WithValue(y)) || (Solid(x) && Solid(y))
    requires (if WithValue(x) then [Event(Value, u + x[0].data)] + x[1..] else [Event(Value, u)] + x) ==
             (if WithValue(y) then [Event(Value, u + y[0].data)] + y[1..] else [Event(Value, u)] + y)
    ensures x == y
  {
    var j := if WithValue(x) then [Event(Value, u + x[0].data)] + x[1..] else [Event(Value, u)] + x;
    assert j[0].data[|u|..] == if WithValue(x) then x[0].data else "";
    assert j[0].data[|u|..] == if WithValue(y) then y[0].data else "";
    assert j[1..] == if WithValue(x) then x[1..] else x;
    assert j[1..] == if WithValue(y) then y[1..] else y;
    assert WithValue(x) ==> x == [Event(Value, x[0].data)] + x[1..];
    assert WithValue(y) ==> y == [Event(Value, y[0].data)] + y[1..];
  }

  /** The last of these events is not a value. */
  predicate Closed(a: seq<Event>) {
    a == [] || !a[|a| - 1].kind.Value?
  }

  lemma {:induction false} JoinedCancels(a: seq<Event>, x: seq<Event>, y: seq<Event>)
    requires Joined(a + x) == Joined(a + y)
    requires Closed(a) || (Solid(x) && Solid(y))
    ensures Joined(x) == Joined(y)
    decreases |a|
  {
    hide Joined;
    if a == [] {
      assert a + x == x && a + y == y;
    } else {
      Unfolded(a, x);
      Unfolded(a, y);
      if a[0].kind.Value? {
        assert a[1..] == [] ==> a[1..] + x == x && a[1..] + y == y;
        ValueCancels(a[0].data, a[1..] + x, a[1..] + y);
      } else {
        JoinedBehind(a[0], a[1..] + x);
        JoinedBehind(a[0], a[1..] + y);
        SameBehind([a[0]], Joined(a[1..] + x), Joined(a[1..] + y));
      }
      JoinedCancels(a[1..], x, y);
    }
  }

  /** In a value no buffer begins with an empty piece of it. */
  lemma OnSolid(x: string, beyond: string, d: string)
    requires |beyond| >= OVERRUN
    ensures Solid(On(x, beyond, Value, d).events) && (x == "" <==> On(x, beyond, Value, d).events == [])
  {
    hide Go;
    assert (x + beyond)[..|x|] == x;
    if x != "" {
      var k := Find(x, d);
      LoopSolid(x + beyond, |x|, d);
    }
  }

  lemma LoopSolid(mem: string, n: nat, d: string)
    requires 0 < n && n + OVERRUN <= |mem|
    ensures Solid(Loop(mem, n, Value, d).events) && Loop(mem, n, Value, d).events != []
  {
  }

  lemma {:induction false} AllSolid(bs: seq<Buffer>, d: string)
    requires Backed(bs)
    ensures Solid(ParseAll(bs, Value, d).events)
  {
    if bs == [] {
    } else {
      var b := bs[0];
      ParseOn(b, Value, d);
      OnSolid(b.data, b.beyond, d);
      hide On;
      if b.data == "" {
        OnNothing(b.beyond, Value, d);
        AllSolid(bs[1..], d);
      }
    }
  }

  lemma ValueItem(s: Spot, boundary: string, c: nat)
    requires (s.AtEmptyLine? || s.AtValue?) && c <= |s.value|
    ensures var n := AtValue(s.value[c..], s.parts);
      && |Item(s, boundary)| == c + |Item(n, boundary)| && Next(s) == Next(n)
      && |Left(s, boundary)| == c + |Left(n, boundary)|
  {
    hide Left;
    LeftLength(s, boundary);
    LeftLength(AtValue(s.value[c..], s.parts), boundary);
  }

  /** A cut behind a harmless cut is harmless as seen from the first exactly when it is from the second. */
  lemma {:induction false} CutTwice(s: Spot, boundary: string, c: nat, b: string, c': nat, b': string)
    requires c <= |Left(s, boundary)| && Cut(s, boundary, c, b).Some? && 0 < c' <= |Left(s, boundary)| - c
    ensures var n := Cut(s, boundary, c, b).value.1;
      && |Left(n, boundary)| == |Left(s, boundary)| - c
      && (Cut(n, boundary, c', b').Some? <==> Cut(s, boundary, c + c', b').Some?)
    decreases Size(s)
  {
    hide Left, Item, Cut, StartsWith;
    CutNothing(s, boundary, b);
    if c == 0 {
    } else if (s.AtEmptyLine? || s.AtValue?) && c <= |s.value| {
      CutTwiceInValue(s, boundary, c, b, c', b');
    } else {
      CutNotInItem(s, boundary, c, b);
      LeftLength(s, boundary);
      CutBehind(s, boundary, c + c', b');
      if c > |Item(s, boundary)| || !s.AtFilename? {
        CutBehind(s, boundary, c, b);
        CutTwice(Next(s), boundary, c - |Item(s, boundary)|, b, c', b');
      } else {
        CutAtType(s, boundary, b);
      }
    }
  }

  lemma CutTwiceInValue(s: Spot, boundary: string, c: nat, b: string, c': nat, b': string)
    requires (s.AtEmptyLine? || s.AtValue?) && 0 < c <= |s.value|
    requires c <= |Left(s, boundary)| && 0 < c' <= |Left(s, boundary)| - c
    ensures Cut(s, boundary, c, b).Some?
    ensures var n := Cut(s, boundary, c, b).value.1;
      && |Left(n, boundary)| == |Left(s, boundary)| - c
      && (Cut(n, boundary, c', b').Some? <==> Cut(s, boundary, c + c', b').Some?)
  {
    hide Left, Item, Cut;
    var n := AtValue(s.value[c..], s.parts);
    ValueItem(s, boundary, c);
    LeftLength(s, boundary);
    CutInside(s, boundary, c, b);
    if c + c' < |Item(s, boundary)| {
      CutInside(s, boundary, c + c', b');
      CutInside(n, boundary, c', b');
    } else {
      LeftLength(n, boundary);
      CutBehind(s, boundary, c + c', b');
      CutBehind(n, boundary, c', b');
    }
  }


  /** Behind a harmless first cut the others are seen alike from both places. */
  lemma HarmlessBehind(s: Spot, boundary: string, bs: seq<Buffer>, es: seq<Event>, n: Spot)
    requires bs != [] && |Text(bs)| <= |Left(s, boundary)| && |Text(bs[1..])| <= |Left(n, boundary)|
    requires Cut(s, boundary, |bs[0].data|, bs[0].beyond) == Some((es, n))
    ensures Harmless(s, boundary, bs) <==> Harmless(n, boundary, bs[1..])
  {
    hide Left, Cut, HarmlessAt, Text;
    assert HarmlessAt(s, boundary, bs, 0) by { FirstHarmless(s, boundary, bs); }
    forall i: nat | i < |bs[1..]| ensures HarmlessAt(s, boundary, bs, i + 1) <==> HarmlessAt(n, boundary, bs[1..], i) {
      OneBehind(s, boundary, bs, es, n, i);
    }
    if Harmless(n, boundary, bs[1..]) {
      forall i: nat | i < |bs| ensures HarmlessAt(s, boundary, bs, i) {
        assert i == 0 || HarmlessAt(n, boundary, bs[1..], i - 1);
      }
    }
  }

  lemma FirstHarmless(s: Spot, boundary: string, bs: seq<Buffer>)
    requires bs != [] && |Text(bs)| <= |Left(s, boundary)|
    ensures HarmlessAt(s, boundary, bs, 0) <==> bs[0].data == "" || Cut(s, boundary, |bs[0].data|, bs[0].beyond).Some?
  {
    hide Cut;
    assert Reach(bs, 1) == |bs[0].data|;
  }

  lemma ReachBehind(bs: seq<Buffer>, i: nat)
    requires bs != [] && i < |bs[1..]|
    ensures bs[1..][i] == bs[i + 1] && Reach(bs, i + 2) == |bs[0].data| + Reach(bs[1..], i + 1)
  {
  }

  lemma OneBehind(s: Spot, boundary: string, bs: seq<Buffer>, es: seq<Event>, n: Spot, i: nat)
    requires bs != [] && |Text(bs)| <= |Left(s, boundary)| && |Text(bs[1..])| <= |Left(n, boundary)| && i < |bs[1..]|
    requires Cut(s, boundary, |bs[0].data|, bs[0].beyond) == Some((es, n))
    ensures HarmlessAt(s, boundary, bs, i + 1) <==> HarmlessAt(n, boundary, bs[1..], i)
  {
    hide Cut, Left, Text, Reach;
    var c, more := |bs[0].data|, Reach(bs[1..], i + 1);
    ReachBehind(bs, i);
    if bs[i + 1].data != "" {
      Reaches(bs[1..], i);
      CutTwice(s, boundary, c, bs[0].beyond, more, bs[i + 1].beyond);
    }
  }

  lemma {:induction false} Reaches(bs: seq<Buffer>, i: nat)
    requires i < |bs| && bs[i].data != ""
    ensures Reach(bs, i + 1) > 0
  {
    if i == 0 {
    } else {
      Reaches(bs[1..], i - 1);
    }
  }

  /** Where every next buffer is refused, no delivery of something succeeds. */
  lemma {:induction false} AllRefused(bs: seq<Buffer>, state: Kind, d: string)
    requires Backed(bs) && Text(bs) != "" && !state.Void?
    requires forall z, b {:trigger On(z, b, state, d)} :: z != "" && z <= Text(bs) && |b| >= OVERRUN ==>
      !On(z, b, state, d).ok
    ensures !ParseAll(bs, state, d).ok
  {
    hide On;
    var b := bs[0];
    ParseOn(b, state, d);
    FirstOf(bs);
    if b.data == "" {
      OnNothing(b.beyond, state, d);
      AllRefused(bs[1..], state, d);
    } else {
      assert b.data <= Text(bs);
    }
  }

  /** One buffer, then the others. */
  lemma ParseMore(bs: seq<Buffer>, state: Kind, d: string)
    requires Backed(bs) && bs != [] && !state.Void?
    ensures var o := On(bs[0].data, bs[0].beyond, state, d);
      ParseAll(bs, state, d) == if o.ok then Prepend(o.events, ParseAll(bs[1..], o.state, d)) else o
  {
    hide On;
    ParseOn(bs[0], state, d);
  }

  lemma SpoiltStays(bs: seq<Buffer>, state: Kind, due: seq<Event>, d: string)
    requires Backed(bs) && bs != [] && !state.Void?
    requires Spoilt(On(bs[0].data, bs[0].beyond, state, d), Text(bs[1..]), due, d)
    ensures !Comes(ParseAll(bs, state, d), due)
  {
    hide On, Joined;
    ParseMore(bs, state, d);
    var o := On(bs[0].data, bs[0].beyond, state, d);
    if o.ok {
      var more := ParseAll(bs[1..], o.state, d);
      if forall x {:trigger o.events + x} :: Joined(o.events + x) != due {
        assert Joined(o.events + more.events) != due;
      } else {
        AllRefused(bs[1..], o.state, d);
      }
    }
  }

  /** What a harmless cut leaves behind is joined to what comes later. */
  lemma {:induction false} CutCloses(s: Spot, boundary: string, c: nat, beyond: string)
    requires c <= |Left(s, boundary)|
    ensures match Cut(s, boundary, c, beyond) {
      case None => true
      case Some((es, n)) => n.AtValue? || Closed(es)
    }
    decreases Size(s)
  {
    hide Left, Item;
    if c == 0 || s.AtEnd? {
    } else {
      LeftLength(s, boundary);
      LastIsLine(s, boundary);
      if c >= |Item(s, boundary)| && (c > |Item(s, boundary)| || !s.AtFilename?) {
        CutCloses(Next(s), boundary, c - |Item(s, boundary)|, beyond);
        match Cut(Next(s), boundary, c - |Item(s, boundary)|, beyond) {
          case None =>
          case Some((es, n)) => ClosedBehind(ItemEvents(s, boundary), es);
        }
      }
    }
  }

  lemma LastIsLine(s: Spot, boundary: string)
    requires !s.AtEnd?
    ensures Closed(ItemEvents(s, boundary))
  {
  }

  lemma ClosedBehind(a: seq<Event>, b: seq<Event>)
    requires Closed(a)
    ensures Closed(b) ==> Closed(a + b)
  {
  }

  lemma DueSolid(s: Spot, boundary: string)
    requires s.AtValue?
    ensures Solid(Due(s, boundary))
  {
    assert s.value != "" ==> Due(s, boundary)[0].data == s.value;
  }

  /** What comes behind a harmless cut is right exactly when the whole is. */
  lemma ComesBehind(s: Spot, boundary: string, bs: seq<Buffer>, es: seq<Event>, n: Spot)
    requires Backed(bs) && bs != [] && boundary != ""
    requires n.AtValue? || Closed(es)
    requires On(bs[0].data, bs[0].beyond, StateOf(s), Delimiter(boundary)) == Outcome(es, StateOf(n), true)
    requires Joined(es + Due(n, boundary)) == Due(s, boundary)
    ensures Comes(ParseAll(bs, StateOf(s), Delimiter(boundary)), Due(s, boundary)) <==>
            Comes(ParseAll(bs[1..], StateOf(n), Delimiter(boundary)), Due(n, boundary))
  {
    hide On, Joined, Due, Delimiter;
    var d := Delimiter(boundary);
    ParseMore(bs, StateOf(s), d);
    var o := ParseAll(bs[1..], StateOf(n), d);
    JoinedDue(n, boundary);
    if Joined(o.events) == Due(n, boundary) {
      JoinedLater(es, o.events, Due(n, boundary));
    }
    if Joined(es + o.events) == Due(s, boundary) {
      if n.AtValue? {
        AllSolid(bs[1..], d);
        DueSolid(n, boundary);
      }
      JoinedCancels(es, o.events, Due(n, boundary));
    }
  }

  /** From any place between two items, or in a value. */
  lemma {:induction false} FromSpot(s: Spot, boundary: string, bs: seq<Buffer>)
    requires boundary != "" && CleanFrom(s, boundary) && Backed(bs) && Text(bs) == Left(s, boundary)
    ensures Comes(ParseAll(bs, StateOf(s), Delimiter(boundary)), Due(s, boundary)) <==> Harmless(s, boundary, bs)
    decreases |bs|
  {
    hide CleanFrom, Left, Due, Cut, Comes, Spoilt, ParseAll, Harmless, Delimiter;
    if bs == [] {
      NoBuffers(s, boundary);
    } else {
      var c, beyond := |bs[0].data|, bs[0].beyond;
      FirstOf(bs);
      CutLeads(s, boundary, c, beyond);
      CutCloses(s, boundary, c, beyond);
      match Cut(s, boundary, c, beyond) {
        case None =>
          CutSpoils(s, boundary, c, beyond);
          SpoiltStays(bs, StateOf(s), Due(s, boundary), Delimiter(boundary));
          Harmful(s, boundary, bs);
        case Some((es, n)) =>
          ComesBehind(s, boundary, bs, es, n);
          HarmlessBehind(s, boundary, bs, es, n);
          FromSpot(n, boundary, bs[1..]);
      }
    }
  }

  lemma Harmful(s: Spot, boundary: string, bs: seq<Buffer>)
    requires bs != [] && |Text(bs)| <= |Left(s, boundary)|
    requires Cut(s, boundary, |bs[0].data|, bs[0].beyond).None?
    ensures !Harmless(s, boundary, bs)
  {
    hide Cut, Left, Text, HarmlessAt;
    CutNothing(s, boundary, bs[0].beyond);
    FirstHarmless(s, boundary, bs);
  }

  lemma NoBuffers(s: Spot, boundary: string)
    requires boundary != "" && Left(s, boundary) == ""
    ensures Comes(ParseAll([], StateOf(s), Delimiter(boundary)), Due(s, boundary)) && Harmless(s, boundary, [])
  {
    NothingLeft(s, boundary);
  }

  /** A part in a body, as the places on the way through it see it. */
  lemma ValueIsLeft(v: string, ps: seq<Part>, boundary: string)
    ensures EMPTY_LINE + Left(AtEmptyLine(v, ps), boundary) == FromValue(v, boundary, Left(AtBoundary(ps), boundary))
    ensures Due(AtEmptyLine(v, ps), boundary) ==
      [Event(Value, v), Event(Boundary, CRLF + boundary)] + Due(AtBoundary(ps), boundary)
  {
    hide Left, Due;
    Unfold(AtEmptyLine(v, ps), boundary);
    Quoted("", v, CRLF + boundary, Left(AtBoundary(ps), boundary));
  }

  lemma FileIsLeft(p: Part, ps: seq<Part>, boundary: string)
    ensures Left(AtName(p, ps), boundary) ==
      FromFile(p.file, FromValue(p.value, boundary, Left(AtBoundary(ps), boundary)))
    ensures Due(AtName(p, ps), boundary) ==
      FileEvents(p.file) + (ValueEvents(p.value, boundary) + Due(AtBoundary(ps), boundary))
  {
    hide FromValue;
    var v := p.value;
    ValueIsLeft(v, ps, boundary);
    var e, end, due :=
      Event(EmptyLine, EMPTY_LINE), [Event(Value, v), Event(Boundary, CRLF + boundary)], Due(AtBoundary(ps), boundary);
    assert [e] + (end + due) == ValueEvents(v, boundary) + due;
    match p.file
    case None =>
      assert Left(AtName(p, ps), boundary) == EMPTY_LINE + Left(AtEmptyLine(v, ps), boundary);
      assert [] + (ValueEvents(v, boundary) + due) == ValueEvents(v, boundary) + due;
    case Some(f) => TypeIsLeft(p, f, ps, boundary, ValueEvents(v, boundary) + due);
  }

  lemma TypeIsLeft(p: Part, f: File, ps: seq<Part>, boundary: string, due: seq<Event>)
    requires p.file == Some(f) && due == [Event(EmptyLine, EMPTY_LINE)] + Due(AtEmptyLine(p.value, ps), boundary)
    ensures var last := EMPTY_LINE + Left(AtEmptyLine(p.value, ps), boundary);
      && Left(AtName(p, ps), boundary) == FNAME_S + (f.name + (QUOTE + (CONTENT_TYPE_PREFIX + (f.contentType + last))))
      && Due(AtName(p, ps), boundary) == [Event(Filename, f.name), Event(ContentType, f.contentType)] + due
  {
    hide Left, Due;
    var last := EMPTY_LINE + Left(AtEmptyLine(p.value, ps), boundary);
    var typed := Left(AtFilename(f, p.value, ps), boundary);
    Unfold(AtType(p.value, ps), boundary);
    Unfold(AtFilename(f, p.value, ps), boundary);
    Unfold(AtName(p, ps), boundary);
    Quoted(CONTENT_TYPE_PREFIX, f.contentType, "", last);
    Quoted(FNAME_S, f.name, QUOTE, typed);
  }

  lemma Quoted(start: string, text: string, end: string, rest: string)
    ensures start + (text + end) + rest == start + (text + (end + rest)) && (text + end) + rest == text + (end + rest)
    ensures end == "" ==> start + text + rest == start + (text + rest)
  {
  }

  lemma PartIsLeft(ps: seq<Part>, boundary: string)
    requires ps != []
    ensures var more := AtBoundary(ps[1..]);
      && Left(AtBoundary(ps), boundary) == Head(ps[0], FromValue(ps[0].value, boundary, Left(more, boundary)))
      && Due(AtBoundary(ps), boundary) == PartEvents(ps[0], boundary) + Due(more, boundary)
  {
    hide Left, Due, FromFile, FromValue, FileEvents, ValueEvents;
    var p, more := ps[0], ps[1..];
    FileIsLeft(p, more, boundary);
    Unfold(AtFormData(p, more), boundary);
    Unfold(AtBoundary(ps), boundary);
    Quoted(NAME_S, p.name, QUOTE, Left(AtName(p, more), boundary));
    Nest(Event(FormData, CONTENT_DFD), Event(Name, p.name), FileEvents(p.file), ValueEvents(p.value, boundary),
      Due(AtBoundary(more), boundary));
  }

  lemma Nest(e: Event, n: Event, a: seq<Event>, b: seq<Event>, c: seq<Event>)
    ensures [e] + ([n] + (a + (b + c))) == (([e, n] + a) + b) + c
  {
  }

  lemma {:induction false} BodyIsLeft(ps: seq<Part>, boundary: string)
    ensures Left(AtBoundary(ps), boundary) == Rendered(ps, boundary, FINISH_MARK)
    ensures Due(AtBoundary(ps), boundary) == PartsEvents(ps, boundary) + [Event(Finish, FINISH_MARK)]
  {
    if ps == [] {
      assert Left(AtEnd, boundary) == "" && Due(AtEnd, boundary) == [];
    } else {
      hide Head, FromValue, PartEvents, Left, Due;
      BodyIsLeft(ps[1..], boundary);
      PartIsLeft(ps, boundary);
      Associate(PartEvents(ps[0], boundary), PartsEvents(ps[1..], boundary), [Event(Finish, FINISH_MARK)]);
    }
  }

  lemma {:induction false} CleanParts(ps: seq<Part>, boundary: string)
    requires boundary != "" && forall p :: p in ps ==> Clean(p, boundary)
    ensures CleanFrom(AtBoundary(ps), boundary)
  {
    if ps == [] {
    } else {
      hide FirstAtEnd, CleanType, Delimiter;
      CleanParts(ps[1..], boundary);
      var p, more := ps[0], ps[1..];
      assert Clean(p, boundary);
      assert CleanFrom(AtEmptyLine(p.value, more), boundary);
      assert p.file.Some? ==> CleanFrom(AtType(p.value, more), boundary);
      assert p.file.Some? ==> CleanFrom(AtFilename(p.file.value, p.value, more), boundary);
      assert CleanFrom(AtName(p, more), boundary);
      assert CleanFrom(AtFormData(p, more), boundary);
    }
  }

  /** A cut in a whole body: the first buffer must hold the boundary line with its line break. */
  predicate HarmlessCut(parts: seq<Part>, boundary: string, c: nat, b: Buffer)
    requires c <= |Render(parts, boundary)|
  {
    c >= |boundary| + |CRLF| &&
    (b.data == "" || (BodyIsLeft(parts, boundary); Cut(AtBoundary(parts), boundary, c - |boundary|, b.beyond).Some?))
  }

  predicate HarmlessCuts(parts: seq<Part>, boundary: string, bs: seq<Buffer>)
    requires |Text(bs)| <= |Render(parts, boundary)|
  {
    forall i {:trigger bs[i]} | 0 <= i < |bs| :: HarmlessCut(parts, boundary, Reach(bs, i + 1), bs[i])
  }

  /** The first buffer without the boundary line behind it. */
  function Behind(bs: seq<Buffer>, boundary: string): seq<Buffer>
    requires bs != [] && |bs[0].data| >= |boundary|
  {
    [bs[0].(data := bs[0].data[|boundary|..])] + bs[1..]
  }

  lemma BehindReach(bs: seq<Buffer>, boundary: string, i: nat)
    requires bs != [] && |bs[0].data| >= |boundary| && i < |bs|
    ensures Reach(bs, i + 1) == |boundary| + Reach(Behind(bs, boundary), i + 1) && Reach(bs, i + 1) >= |bs[0].data|
    ensures Text(bs) == bs[0].data[..|boundary|] + Text(Behind(bs, boundary))
  {
    var cs := Behind(bs, boundary);
    assert cs[1..] == bs[1..];
    assert bs[0].data == bs[0].data[..|boundary|] + cs[0].data;
  }

  /** A first buffer that does not hold the boundary line and its line break is refused. */
  lemma ShortStart(boundary: string, rest: string, x: string, beyond: string)
    requires GoodBoundary(boundary) && |beyond| >= OVERRUN && |rest| >= |CRLF| && rest[..|CRLF|] == CRLF
    requires x <= boundary + rest && |x| < |boundary| + |CRLF|
    ensures !Parse(x + beyond, |x|, Void, "").0.ok
  {
    hide Go, LocateBoundary, Parse, FirstAtEnd;
    assert boundary + rest == boundary + CRLF + rest[|CRLF|..];
    NoLine(boundary, x);
    LineRefused(x, beyond);
  }

  lemma JoinedWhole(e: Event, es: seq<Event>, due: seq<Event>)
    requires !e.kind.Value?
    ensures Joined([e] + es) == [e] + due <==> Joined(es) == due
  {
    hide Joined;
    JoinedBehind(e, es);
    SameBehind([e], Joined(es), due);
  }

  /** The first buffer of a body, with the boundary line in it. */
  lemma StartComes(parts: seq<Part>, boundary: string, bs: seq<Buffer>)
    requires GoodBoundary(boundary) && parts != [] && Backed(bs) && bs != [] && Text(bs) == Render(parts, boundary)
    requires |bs[0].data| >= |boundary| + |CRLF|
    ensures Backed(Behind(bs, boundary)) && Text(Behind(bs, boundary)) == Rendered(parts, boundary, FINISH_MARK)
    ensures ParseAll(bs, Void, "") ==
            Prepend([Event(Boundary, boundary)], ParseAll(Behind(bs, boundary), Boundary, Delimiter(boundary)))
  {
    hide Parse, On, Rendered, Delimiter, FirstAtEnd, Text, Render, Prepend, Behind;
    StartText(parts, boundary, bs);
    var cs, d := Behind(bs, boundary), Delimiter(boundary);
    ParseStarts(boundary, cs[0].data, bs[0].beyond);
    ParseMore(cs, Boundary, d);
    var o := On(cs[0].data, cs[0].beyond, Boundary, d);
    PrependBoth(Event(Boundary, boundary), o);
    if o.ok {
      PrependTwice([Event(Boundary, boundary)], o.events, ParseAll(bs[1..], o.state, d));
    }
  }

  lemma PrependBoth(e: Event, o: Outcome)
    ensures Prepend([e], o) == o.(events := [e] + o.events)
  {
  }

  lemma StartText(parts: seq<Part>, boundary: string, bs: seq<Buffer>)
    requires parts != [] && Backed(bs) && bs != [] && Text(bs) == Render(parts, boundary) &&
      |bs[0].data| >= |boundary| + |CRLF|
    ensures var cs := Behind(bs, boundary);
      && Backed(cs) && cs != [] && cs[1..] == bs[1..] && cs[0].beyond == bs[0].beyond &&
        bs[0].data == boundary + cs[0].data
      && Text(cs) == Rendered(parts, boundary, FINISH_MARK) && cs[0].data[..|CRLF|] == CRLF && |cs[0].data| >= |CRLF|
  {
    hide Rendered;
    var cs, rest := Behind(bs, boundary), Rendered(parts, boundary, FINISH_MARK);
    BehindReach(bs, boundary, 0);
    FirstLine(parts, boundary);
    SameStart(bs[0].data[..|boundary|], Text(cs), boundary, rest);
    var more := Text(bs[1..]);
    assert cs[1..] == bs[1..];
    assert bs[0].data == bs[0].data[..|boundary|] + cs[0].data;
    assert (cs[0].data + more)[..|CRLF|] == cs[0].data[..|CRLF|];
  }

  lemma SameStart(a: string, x: string, b: string, y: string)
    requires a + x == b + y && |a| == |b|
    ensures a == b && x == y
  {
    assert (a + x)[..|a|] == a && (b + y)[..|b|] == b;
    assert (a + x)[|a|..] == x && (b + y)[|b|..] == y;
  }

  /** The cuts of a body, seen from its start and from behind the boundary line. */
  lemma StartHarmless(parts: seq<Part>, boundary: string, bs: seq<Buffer>)
    requires bs != [] && |bs[0].data| >= |boundary| + |CRLF| && Text(bs) == Render(parts, boundary)
    requires Text(Behind(bs, boundary)) == Left(AtBoundary(parts), boundary)
    ensures HarmlessCuts(parts, boundary, bs) <==> Harmless(AtBoundary(parts), boundary, Behind(bs, boundary))
  {
    hide Cut, Left, Render, Text, HarmlessAt, HarmlessCut;
    var cs := Behind(bs, boundary);
    assert |cs| == |bs|;
    forall i: nat | i < |bs|
      ensures HarmlessCut(parts, boundary, Reach(bs, i + 1), bs[i]) <==> HarmlessAt(AtBoundary(parts), boundary, cs, i)
    {
      OneFromStart(parts, boundary, bs, i);
    }
    assert HarmlessCuts(parts, boundary, bs) ==>
      forall i: nat :: i < |bs| ==> HarmlessCut(parts, boundary, Reach(bs, i + 1), bs[i]);
  }

  lemma OneFromStart(parts: seq<Part>, boundary: string, bs: seq<Buffer>, i: nat)
    requires bs != [] && |bs[0].data| >= |boundary| + |CRLF| && Text(bs) == Render(parts, boundary) && i < |bs|
    requires Text(Behind(bs, boundary)) == Left(AtBoundary(parts), boundary)
    ensures HarmlessCut(parts, boundary, Reach(bs, i + 1), bs[i]) <==>
            HarmlessAt(AtBoundary(parts), boundary, Behind(bs, boundary), i)
  {
    hide Cut, Left, Render, Text;
    BehindReach(bs, boundary, i);
  }

  /** The body of a form of clean parts comes back whole and as it was, up to values in pieces, exactly
      when there is a part and each of the cuts is harmless. */
  lemma InBuffers(parts: seq<Part>, boundary: string, bs: seq<Buffer>)
    requires GoodBoundary(boundary) && forall p :: p in parts ==> Clean(p, boundary)
    requires Backed(bs) && Text(bs) == Render(parts, boundary)
    ensures Comes(ParseAll(bs, Void, ""), FormEvents(parts, boundary)) <==>
      parts != [] && HarmlessCuts(parts, boundary, bs)
  {
    hide Clean, Comes, Parse, HarmlessCuts, FormEvents, Rendered, FirstAtEnd;
    BoundaryLong(boundary);
    if parts == [] {
      FirstOf(bs);
      EmptyStart(boundary, bs[0]);
      StartRefused(bs, FormEvents(parts, boundary));
    } else {
      PartsInBuffers(parts, boundary, bs);
    }
  }

  /** What comes first of a form without parts is refused, be it the whole body or less. */
  lemma EmptyStart(boundary: string, b: Buffer)
    requires GoodBoundary(boundary) && |b.beyond| >= OVERRUN && b.data <= Render([], boundary)
    ensures !Parse(b.data + b.beyond, |b.data|, Void, "").0.ok
  {
    hide Go, LocateBoundary, FirstAtEnd, Occurs, Find, Parse;
    var line, x := boundary + "--", b.data;
    assert Render([], boundary) == line + CRLF;
    EmptyLineFound(boundary);
    if |x| == |line + CRLF| {
      assert x == (line + CRLF)[..|x|] == line + CRLF;
      EmptyFormRefused(boundary, b.beyond);
    } else {
      NoLine(line, x);
      LineRefused(x, b.beyond);
    }
  }

  lemma NoLine(line: string, x: string)
    requires FirstAtEnd(line, CRLF) && x <= line + CRLF && |x| < |line + CRLF|
    ensures LocateBoundary(x) == -1
  {
    hide Find, FirstAtEnd, Occurs;
    assert Start(x) == (line + CRLF)[..|Start(x)|];
    NoneBefore(line, CRLF, |Start(x)|);
  }

  lemma LineRefused(x: string, beyond: string)
    requires |beyond| >= OVERRUN && LocateBoundary(x) == -1
    ensures !Parse(x + beyond, |x|, Void, "").0.ok
  {
    assert (x + beyond)[..|x|] == x;
  }

  lemma PartsInBuffers(parts: seq<Part>, boundary: string, bs: seq<Buffer>)
    requires GoodBoundary(boundary) && parts != [] && (forall p :: p in parts ==> Clean(p, boundary))
    requires Backed(bs) && Text(bs) == Render(parts, boundary)
    ensures Comes(ParseAll(bs, Void, ""), FormEvents(parts, boundary)) <==> HarmlessCuts(parts, boundary, bs)
  {
    hide Clean, GoodBoundary, Comes, Joined, Rendered, CleanFrom, Left, Due, Parse, Harmless, HarmlessCuts, Delimiter;
    BoundaryLong(boundary);
    if |bs[0].data| < |boundary| + |CRLF| {
      FirstOf(bs);
      FirstLine(parts, boundary);
      ShortStart(boundary, Rendered(parts, boundary, FINISH_MARK), bs[0].data, bs[0].beyond);
      StartRefused(bs, FormEvents(parts, boundary));
      StartHarmful(parts, boundary, bs);
    } else {
      var cs := Behind(bs, boundary);
      BodyIsLeft(parts, boundary);
      CleanParts(parts, boundary);
      StartComes(parts, boundary, bs);
      FromSpot(AtBoundary(parts), boundary, cs);
      StartHarmless(parts, boundary, bs);
      ComesWhole(Event(Boundary, boundary), ParseAll(cs, Boundary, Delimiter(boundary)),
        Due(AtBoundary(parts), boundary));
    }
  }

  lemma BoundaryLong(boundary: string)
    requires GoodBoundary(boundary)
    ensures boundary != ""
  {
  }

  lemma ComesWhole(e: Event, o: Outcome, due: seq<Event>)
    requires !e.kind.Value?
    ensures Comes(Prepend([e], o), [e] + due) <==> Comes(o, due)
  {
    hide Joined;
    JoinedWhole(e, o.events, due);
  }

  lemma StartRefused(bs: seq<Buffer>, due: seq<Event>)
    requires Backed(bs) && bs != [] && !Parse(bs[0].data + bs[0].beyond, |bs[0].data|, Void, "").0.ok
    ensures !Comes(ParseAll(bs, Void, ""), due)
  {
    hide Parse, Joined;
  }

  lemma StartHarmful(parts: seq<Part>, boundary: string, bs: seq<Buffer>)
    requires bs != [] && |bs[0].data| < |boundary| + |CRLF| && |Text(bs)| <= |Render(parts, boundary)|
    ensures !HarmlessCuts(parts, boundary, bs)
  {
    hide Cut, Text, Render;
    assert Reach(bs, 1) == |bs[0].data|;
    assert !HarmlessCut(parts, boundary, Reach(bs, 1), bs[0]);
  }

  /** A cut in the header of a form with one field: the first buffer is refused. */
  lemma CutInHeader(beyond: string)
    requires |beyond| >= OVERRUN
    ensures var boundary, form, front := "--ab", [Part("n", None, "v")], "--ab" + (CONTENT_DFD + " name=");
      && GoodBoundary(boundary) && (forall p :: p in form ==> Clean(p, boundary)) && front <= Render(form, boundary)
      && !Parse(front + beyond, |front|, Void, "").0.ok
  {
    hide On, Parse, Delimiter, Rendered, Head, Clean, GoodBoundary, Prepend;
    var boundary, start := "--ab", " name=";
    SmallForm(boundary);
    SmallBody(boundary, start);
    ParseStarts(boundary, CONTENT_DFD + start, beyond);
    OnFormData(start, beyond, Delimiter(boundary));
    OnCutQuoted(FormData, NAME_S, "n", |start|, beyond, Delimiter(boundary));
    PrependOk([Event(FormData, CONTENT_DFD)], On(start, beyond, FormData, Delimiter(boundary)));
    PrependOk([Event(Boundary, boundary)], On(CONTENT_DFD + start, beyond, Boundary, Delimiter(boundary)));
  }

  lemma PrependOk(es: seq<Event>, o: Outcome)
    ensures Prepend(es, o).ok == o.ok
  {
  }

  lemma SmallBody(boundary: string, start: string)
    requires boundary == "--ab" && start == " name="
    ensures boundary + (CONTENT_DFD + start) <= Render([Part("n", None, "v")], boundary)
    ensures (NAME_S + ("n" + QUOTE))[..|start|] == start
  {
    hide FromValue, Rendered;
    var p := Part("n", None, "v");
    var last := FromValue(p.value, boundary, FINISH_MARK);
    OneRenders(p, boundary);
    assert NAME_S == start + QUOTE;
    Startings(boundary, CONTENT_DFD, start, QUOTE, p.name + (QUOTE + last));
    Startings("", "", start, QUOTE, p.name + QUOTE);
  }

  lemma Startings(a: string, b: string, c: string, d: string, e: string)
    ensures a + (b + c) <= a + (b + ((c + d) + e))
    ensures ((c + d) + e)[..|c|] == c
  {
    assert (c + d) + e == c + (d + e);
    assert b + (c + (d + e)) == (b + c) + (d + e);
    assert a + ((b + c) + (d + e)) == (a + (b + c)) + (d + e);
  }

  lemma OneRenders(p: Part, boundary: string)
    ensures Rendered([p], boundary, FINISH_MARK) == Head(p, FromValue(p.value, boundary, FINISH_MARK))
  {
    hide Head, FromValue;
    assert [p][1..] == [] && Rendered([], boundary, FINISH_MARK) == FINISH_MARK;
  }

  lemma SmallForm(boundary: string)
    requires boundary == "--ab"
    ensures GoodBoundary(boundary) && Clean(Part("n", None, "v"), boundary)
  {
    assert boundary + CRLF == "--ab\r\n";
    forall j: nat | j < |boundary| ensures !Occurs(boundary + CRLF, CRLF, j) {
      Differs(boundary + CRLF, CRLF, j, 0);
    }
    FindIs(boundary + CRLF, CRLF, |boundary|);
    var d := Delimiter(boundary);
    assert d == "\r\n--a" && "v" + d == "v\r\n--a";
    Differs("v" + d, d, 0, 0);
    assert Occurs("v" + d, d, 1);
    FindIs("v" + d, d, 1);
  }
}
