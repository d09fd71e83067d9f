/** Forms as lists of parts, and when parsing a form gives back its parts. */
module FormRoundTrip {
  import opened Bytes
  import opened FormText
  import opened FormParser

  datatype File = File(name: string, contentType: string)
  datatype Part = Part(name: string, file: Option<File>, value: string)

  const QUOTE := "\""

  /** The end of a part's headers, its value and the next boundary line. */
  function FromValue(value: string, boundary: string, rest: string): string {
    EMPTY_LINE + (value + (CRLF + boundary + rest))
  }

  function FromFile(file: Option<File>, last: string): string {
    match file
    case None => last
    case Some(f) => FNAME_S + (f.name + (QUOTE + (CONTENT_TYPE_PREFIX + (f.contentType + last))))
  }

  /** The headers of a part, up to the empty line `last` begins with. */
  function Head(p: Part, last: string): string {
    CONTENT_DFD + (NAME_S + (p.name + (QUOTE + FromFile(p.file, last))))
  }

  /** The parts as they stand in a body, each followed by the boundary line, then `tail`. */
  function Rendered(parts: seq<Part>, boundary: string, tail: string): string {
    if parts == [] then tail
    else Head(parts[0], FromValue(parts[0].value, boundary, Rendered(parts[1..], boundary, tail)))
  }

  /** A whole body: the first boundary line, the parts, and the closing mark. */
  function Render(parts: seq<Part>, boundary: string): string {
    boundary + Rendered(parts, boundary, FINISH_MARK)
  }

  const FIELD := "\r\nContent-Disposition: form-data; name=\"n\"\r\n\r\nv\r\n--ab"

  /** A form with a field, as it is sent. */
  lemma FormLooks()
    ensures Render([Part("n", None, "v")], "--ab") == "--ab" + (FIELD + "--\r\n")
  {
    hide Head, FromValue;
    assert [Part("n", None, "v")][1..] == [];
    FieldLooks(FINISH_MARK);
  }

  lemma FieldLooks(rest: string)
    ensures Head(Part("n", None, "v"), FromValue("v", "--ab", rest)) == FIELD + rest
  {
    HeadLooks("n");
    ValueLooks("v");
    var head, value := CONTENT_DFD + (NAME_S + ("n" + QUOTE)), EMPTY_LINE + ("v" + (CRLF + "--ab"));
    Regroup(CONTENT_DFD, NAME_S, "n", QUOTE, FromValue("v", "--ab", rest));
    Regroup(EMPTY_LINE, "v", CRLF, "--ab", rest);
    assert head + (value + rest) == (head + value) + rest;
  }

  lemma HeadLooks(n: string)
    requires n == "n"
    ensures CONTENT_DFD + (NAME_S + (n + QUOTE)) == "\r\nContent-Disposition: form-data; name=\"n\""
  {
  }

  lemma ValueLooks(v: string)
    requires v == "v"
    ensures EMPTY_LINE + (v + (CRLF + "--ab")) == "\r\n\r\nv\r\n--ab"
  {
  }

  /** What a file has in its headers beside. */
  lemma FileLooks(f: File, last: string)
    requires f == File("f", "t")
    ensures FromFile(Some(f), last) == "; filename=\"f\"\r\nContent-Type: t" + last
  {
    assert FNAME_S + (f.name + (QUOTE + (CONTENT_TYPE_PREFIX + f.contentType))) ==
      "; filename=\"f\"\r\nContent-Type: t";
    assert CONTENT_TYPE_PREFIX + (f.contentType + last) == (CONTENT_TYPE_PREFIX + f.contentType) + last;
    Regroup(FNAME_S, f.name, QUOTE, CONTENT_TYPE_PREFIX + f.contentType, last);
  }

  lemma Regroup(a: string, b: string, c: string, d: string, rest: string)
    ensures a + (b + (c + (d + rest))) == (a + (b + (c + d))) + rest
  {
    assert c + (d + rest) == (c + d) + rest;
    assert b + ((c + d) + rest) == (b + (c + d)) + rest;
  }

  function HeadEvents(p: Part): seq<Event> {
    [Event(FormData, CONTENT_DFD), Event(Name, p.name)] + FileEvents(p.file)
  }

  function FileEvents(file: Option<File>): seq<Event> {
    match file
    case None => []
    case Some(f) => [Event(Filename, f.name), Event(ContentType, f.contentType)]
  }

  function ValueEvents(value: string, boundary: string): seq<Event> {
    [Event(EmptyLine, EMPTY_LINE), Event(Value, value), Event(Boundary, CRLF + boundary)]
  }

  function PartEvents(p: Part, boundary: string): seq<Event> {
    HeadEvents(p) + ValueEvents(p.value, boundary)
  }

  function PartsEvents(parts: seq<Part>, boundary: string): seq<Event> {
    if parts == [] then [] else PartEvents(parts[0], boundary) + PartsEvents(parts[1..], boundary)
  }

  /** All events of a body. */
  function FormEvents(parts: seq<Part>, boundary: string): seq<Event> {
    [Event(Boundary, boundary)] + (PartsEvents(parts, boundary) + [Event(Finish, FINISH_MARK)])
  }

  /** The delimiter the parser searches for lacks the last byte of the boundary line. */
  function Delimiter(boundary: string): string
    requires boundary != ""
  {
    CRLF + boundary[..|boundary| - 1]
  }

  /** What makes a part come back as it was. */
  predicate Clean(p: Part, boundary: string)
    requires boundary != ""
  {
    CleanHead(p) && FirstAtEnd(p.value, Delimiter(boundary))
  }

  predicate CleanHead(p: Part) {
    '"' !in p.name && CleanFile(p.file)
  }

  predicate CleanFile(file: Option<File>) {
    match file
    case None => true
    case Some(f) => '"' !in f.name && CleanType(f.contentType)
  }

  /** Not empty, and without a line break behind the first byte. */
  predicate CleanType(contentType: string) {
    contentType != "" && FirstAtEnd(contentType[1..], CRLF)
  }

  /** A boundary line the parser takes: 4 to 254 bytes, no line break. */
  predicate GoodBoundary(boundary: string) {
    4 <= |boundary| <= 254 && FirstAtEnd(boundary, CRLF)
  }

  /** The loop on `rest` with `beyond` behind it in memory. */
  function On(rest: string, beyond: string, state: Kind, d: string): Outcome
    requires |beyond| >= OVERRUN
  {
    Loop(rest + beyond, |rest|, state, d)
  }

  lemma GoOn(events: seq<Event>, a: string, rest: string, beyond: string, state: Kind, d: string)
    requires |beyond| >= OVERRUN && a != ""
    ensures Go(events, a + rest + beyond, |a + rest|, |a|, state, d) == Prepend(events, On(rest, beyond, state, d))
  {
    assert (a + rest + beyond)[|a|..] == rest + beyond;
    if rest == "" { assert a + rest == a; }
  }

  lemma Begins(a: string, rest: string, beyond: string)
    ensures StartsWith(a + rest, a) && (a + rest)[|a|..] == rest
    ensures (a + rest + beyond)[..|a + rest|] == a + rest
  {
  }

  lemma OnFormData(rest: string, beyond: string, d: string)
    requires |beyond| >= OVERRUN
    ensures On(CONTENT_DFD + rest, beyond, Boundary, d) ==
            Prepend([Event(FormData, CONTENT_DFD)], On(rest, beyond, FormData, d))
  {
    hide Go, Prepend, StartsWith;
    Begins(CONTENT_DFD, rest, beyond);
    GoOn([Event(FormData, CONTENT_DFD)], CONTENT_DFD, rest, beyond, FormData, d);
  }

  /** The first quote behind `s` and `text`. */
  lemma QuoteAfter(s: string, text: string, rest: string)
    ensures var q := FindChar(s + (text + (QUOTE + rest)), '"', |s|);
      && |s| <= q < |s + (text + (QUOTE + rest))| && (q == |s| + |text| <==> '"' !in text)
  {
    var all := s + (text + (QUOTE + rest));
    assert all[|s| + |text|] == '"';
    if '"' in text {
      var i :| 0 <= i < |text| && text[i] == '"';
      assert all[|s| + i] == '"';
    } else {
      forall i | |s| <= i < |s| + |text| ensures all[i] != '"' {
        assert all[i] == text[i - |s|];
      }
    }
  }

  lemma OnName(name: string, rest: string, beyond: string, d: string)
    requires |beyond| >= OVERRUN
    ensures var o := On(NAME_S + (name + (QUOTE + rest)), beyond, FormData, d);
      if '"' !in name then o == Prepend([Event(Name, name)], On(rest, beyond, Name, d))
      else o.events != [] && o.events[0] != Event(Name, name)
  {
    var all := NAME_S + (name + (QUOTE + rest));
    QuoteAfter(NAME_S, name, rest);
    Begins(NAME_S, name + (QUOTE + rest), beyond);
    var q := FindChar(all, '"', |NAME_S|);
    if '"' !in name {
      assert all[|NAME_S|..q] == name;
      assert NAME_S + name + QUOTE + rest == all;
      GoOn([Event(Name, name)], NAME_S + name + QUOTE, rest, beyond, Name, d);
      hide Go, Prepend, StartsWith, FindChar;
    } else {
      assert |all[|NAME_S|..q]| != |name|;
      hide StartsWith, FindChar, Loop;
      LoopName(all + beyond, |all|, d);
    }
  }

  lemma LoopName(mem: string, n: nat, d: string)
    requires 0 < n && n + OVERRUN <= |mem|
    requires StartsWith(mem[..n], NAME_S) && FindChar(mem[..n], '"', |NAME_S|) >= 0
    ensures var o := Loop(mem, n, FormData, d);
      o.events != [] && o.events[0] == Event(Name, mem[..n][|NAME_S|..FindChar(mem[..n], '"', |NAME_S|)])
  {
    hide StartsWith, FindChar;
  }

  lemma OnEmptyLine(state: Kind, rest: string, beyond: string, d: string)
    requires |beyond| >= OVERRUN && (state.Name? || state.ContentType?)
    ensures On(EMPTY_LINE + rest, beyond, state, d) ==
      Prepend([Event(EmptyLine, EMPTY_LINE)], On(rest, beyond, EmptyLine, d))
  {
    Begins(EMPTY_LINE, rest, beyond);
    GoOn([Event(EmptyLine, EMPTY_LINE)], EMPTY_LINE, rest, beyond, EmptyLine, d);
    assert !StartsWith(EMPTY_LINE + rest, FNAME_S) by {
      assert FNAME_S[0] == ';' && (EMPTY_LINE + rest)[0] == '\r';
    }
    hide Go, Prepend, StartsWith;
  }

  lemma OnFilename(name: string, rest: string, beyond: string, d: string)
    requires |beyond| >= OVERRUN
    ensures var o := On(FNAME_S + (name + (QUOTE + rest)), beyond, Name, d);
      if '"' !in name then o == Prepend([Event(Filename, name)], On(rest, beyond, Filename, d))
      else o.events != [] && o.events[0] != Event(Filename, name)
  {
    var all := FNAME_S + (name + (QUOTE + rest));
    QuoteAfter(FNAME_S, name, rest);
    Begins(FNAME_S, name + (QUOTE + rest), beyond);
    var q := FindChar(all, '"', |FNAME_S|);
    if '"' !in name {
      assert all[|FNAME_S|..q] == name;
      assert FNAME_S + name + QUOTE + rest == all;
      GoOn([Event(Filename, name)], FNAME_S + name + QUOTE, rest, beyond, Filename, d);
      hide Go, Prepend, StartsWith, FindChar;
    } else {
      assert |all[|FNAME_S|..q]| != |name|;
      hide StartsWith, FindChar, Loop;
      LoopFilename(all + beyond, |all|, d);
    }
  }

  lemma LoopFilename(mem: string, n: nat, d: string)
    requires 0 < n && n + OVERRUN <= |mem|
    requires StartsWith(mem[..n], FNAME_S) && FindChar(mem[..n], '"', |FNAME_S|) >= 0
    ensures var o := Loop(mem, n, Name, d);
      o.events != [] && o.events[0] == Event(Filename, mem[..n][|FNAME_S|..FindChar(mem[..n], '"', |FNAME_S|)])
  {
    hide StartsWith, FindChar;
  }

  /** What the loop does with a content type, by where it finds its end. */
  lemma LoopType(mem: string, n: nat, d: string)
    requires OVERRUN < n && n + OVERRUN <= |mem| && StartsWith(mem[..n], CONTENT_TYPE_PREFIX)
    ensures var t, o := Find(mem[OVERRUN..OVERRUN + n], CRLF), Loop(mem, n, Filename, d);
      if t >= 0 then
        o == Go([Event(ContentType, mem[|CONTENT_TYPE_PREFIX|..OVERRUN + t])], mem, n, OVERRUN + t, ContentType, d)
      else o == FAILED
  {
    hide StartsWith, Find, Go;
  }

  /** Where the parser finds the end of a content type with a line break behind it. */
  lemma TypeEnd(contentType: string, after: string, beyond: string)
    requires |after| >= |CRLF| && after[..|CRLF|] == CRLF && |beyond| >= OVERRUN
    ensures var all := CONTENT_TYPE_PREFIX + (contentType + after); var n := |all|;
      var t := Find((all + beyond)[OVERRUN..OVERRUN + n], CRLF);
      CleanType(contentType) <==> t >= 0 && OVERRUN + t == |CONTENT_TYPE_PREFIX| + |contentType|
  {
    var all := CONTENT_TYPE_PREFIX + (contentType + after);
    var window := (all + beyond)[OVERRUN..OVERRUN + |all|];
    if contentType != "" {
      var text, tail := contentType[1..], after[|CRLF|..] + beyond[..OVERRUN];
      assert window == text + CRLF + tail;
      FirstWithTail(text, CRLF, tail);
    }
  }

  lemma OnType(contentType: string, rest: string, beyond: string, d: string)
    requires |beyond| >= OVERRUN && |rest| >= |CRLF| && rest[..|CRLF|] == CRLF
    ensures var o := On(CONTENT_TYPE_PREFIX + (contentType + rest), beyond, Filename, d);
      if CleanType(contentType) then o == Prepend([Event(ContentType, contentType)], On(rest, beyond, ContentType, d))
      else o.events != [] && o.events[0] != Event(ContentType, contentType)
  {
    hide Loop;
    var all := CONTENT_TYPE_PREFIX + (contentType + rest);
    Begins(CONTENT_TYPE_PREFIX, contentType + rest, beyond);
    TypeEnd(contentType, rest, beyond);
    LoopType(all + beyond, |all|, d);
    if CleanType(contentType) {
      assert (all + beyond)[|CONTENT_TYPE_PREFIX|..|CONTENT_TYPE_PREFIX| + |contentType|] == contentType;
      assert all == CONTENT_TYPE_PREFIX + contentType + rest;
      GoOn([Event(ContentType, contentType)], CONTENT_TYPE_PREFIX + contentType, rest, beyond, ContentType, d);
      hide Go;
    }
  }

  lemma LoopValue(mem: string, n: nat, d: string)
    requires 0 < n && n + OVERRUN <= |mem| && Find(mem[..n], d) >= 0
    ensures var k := Find(mem[..n], d);
      Loop(mem, n, EmptyLine, d) ==
      Go([Event(Value, mem[..n][..k]), Event(Boundary, mem[k..k + |d| + 1])], mem, n, k + |d| + 1, Boundary, d)
  {
    hide Find, Go;
  }

  /** Where a value with a boundary line behind it is found to end. */
  lemma ValueEnd(value: string, boundary: string, rest: string, beyond: string)
    requires boundary != ""
    ensures var d, line := Delimiter(boundary), CRLF + boundary;
      var all := value + (line + rest);
      && (all + beyond)[..|all|] == all && Find(all, d) >= 0 && (FirstAtEnd(value, d) <==> Find(all, d) == |value|)
      && (all + beyond)[|value|..|value| + |d| + 1] == line && all[..|value|] == value && all == value + line + rest
      && |line| == |d| + 1
  {
    var d, line := Delimiter(boundary), CRLF + boundary;
    var all, tail := value + (line + rest), line[|d|..] + rest;
    assert line == d + line[|d|..];
    assert all == value + d + tail;
    FirstWithTail(value, d, tail);
    assert Occurs(all, d, |value|);
    hide FirstAtEnd, Find, Occurs;
  }

  lemma OnValue(value: string, boundary: string, rest: string, beyond: string)
    requires |beyond| >= OVERRUN && boundary != ""
    ensures var d := Delimiter(boundary);
      var o := On(value + (CRLF + boundary + rest), beyond, EmptyLine, d);
      if FirstAtEnd(value, d) then
        o == Prepend([Event(Value, value), Event(Boundary, CRLF + boundary)], On(rest, beyond, Boundary, d))
      else o.events != [] && o.events[0] != Event(Value, value)
  {
    hide Loop, Find, Delimiter, FirstAtEnd, Go;
    var d, line := Delimiter(boundary), CRLF + boundary;
    var all := value + (line + rest);
    ValueEnd(value, boundary, rest, beyond);
    LoopValue(all + beyond, |all|, d);
    var k := Find(all, d);
    var es := [Event(Value, all[..k]), Event(Boundary, (all + beyond)[k..k + |d| + 1])];
    GoBegins(es, all + beyond, |all|, k + |d| + 1, Boundary, d);
    if k == |value| {
      GoOn(es, value + line, rest, beyond, Boundary, d);
    } else {
      assert |all[..k]| != |value|;
    }
  }

  lemma GoBegins(es: seq<Event>, mem: string, n: nat, c: nat, state: Kind, d: string)
    requires n + OVERRUN <= |mem| && 0 < c
    ensures es <= Go(es, mem, n, c, state, d).events
  {
    hide Loop;
  }

  /** `a` then `o` begins with `a` then `b` only if `o` begins with `b`. */
  lemma AfterSame(a: seq<Event>, b: seq<Event>, o: Outcome)
    ensures a + b <= Prepend(a, o).events <==> b <= o.events
  {
    if a + b <= a + o.events {
      assert (a + o.events)[..|a + b|] == a + b;
      assert forall i :: 0 <= i < |b| ==> b[i] == (a + b)[|a| + i] == o.events[i];
    }
  }

  lemma OnFromValue(state: Kind, value: string, boundary: string, rest: string, beyond: string)
    requires |beyond| >= OVERRUN && rest != "" && boundary != "" && (state.Name? || state.ContentType?)
    ensures var d := Delimiter(boundary);
      var o := On(FromValue(value, boundary, rest), beyond, state, d);
      var es := [Event(EmptyLine, EMPTY_LINE), Event(Value, value), Event(Boundary, CRLF + boundary)];
      if FirstAtEnd(value, d) then o == Prepend(es, On(rest, beyond, Boundary, d)) else !(es <= o.events)
  {
    hide On, Delimiter, Prepend, FirstAtEnd;
    var d := Delimiter(boundary);
    var after := value + (CRLF + boundary + rest);
    OnEmptyLine(state, after, beyond, d);
    OnValue(value, boundary, rest, beyond);
    var e, es := [Event(EmptyLine, EMPTY_LINE)], [Event(Value, value), Event(Boundary, CRLF + boundary)];
    var o := On(after, beyond, EmptyLine, d);
    AfterSame(e, es, o);
    PrependTwice(e, es, On(rest, beyond, Boundary, d));
    assert e + es == [Event(EmptyLine, EMPTY_LINE), Event(Value, value), Event(Boundary, CRLF + boundary)];
  }

  /** A first event as wanted leads on to the rest; another one spoils the whole. */
  lemma OneMore(e: Event, es: seq<Event>, o: Outcome, p: Outcome, q: Outcome, first: bool, good: bool)
    requires if first then o == Prepend([e], p) else o.events != [] && o.events[0] != e
    requires if good then p == Prepend(es, q) else !(es <= p.events)
    ensures if first && good then o == Prepend([e] + es, q) else !([e] + es <= o.events)
  {
    AfterSame([e], es, p);
    PrependTwice([e], es, q);
    if !first { assert ([e] + es)[0] == e; }
  }

  /** Where the headers end: behind the name, or behind the type of a file. */
  function LastKind(file: Option<File>): Kind {
    if file.None? then Name else ContentType
  }

  lemma OnFromFile(file: Option<File>, last: string, beyond: string, d: string)
    requires |beyond| >= OVERRUN && |last| >= |EMPTY_LINE| && last[..|CRLF|] == CRLF
    ensures var o := On(FromFile(file, last), beyond, Name, d);
      if CleanFile(file) then o == Prepend(FileEvents(file), On(last, beyond, LastKind(file), d))
      else !(FileEvents(file) <= o.events)
  {
    match file
    case None =>
      PrependTwice([], [], On(last, beyond, Name, d));
    case Some(f) =>
      OnType(f.contentType, last, beyond, d);
      var typed := CONTENT_TYPE_PREFIX + (f.contentType + last);
      OnFilename(f.name, typed, beyond, d);
      var o, p, q := On(FNAME_S + (f.name + (QUOTE + typed)), beyond, Name, d), On(typed, beyond, Filename, d),
        On(last, beyond, ContentType, d);
      var e1, e2 := Event(Filename, f.name), Event(ContentType, f.contentType);
      OneMore(e1, [e2], o, p, q, '"' !in f.name, CleanType(f.contentType));
      assert [e1] + [e2] == FileEvents(file);
      hide On, Prepend, CleanType;
  }

  /** The headers of a part. */
  lemma OnHead(part: Part, last: string, beyond: string, d: string)
    requires |beyond| >= OVERRUN && |last| >= |EMPTY_LINE| && last[..|CRLF|] == CRLF
    ensures var o := On(Head(part, last), beyond, Boundary, d);
      if CleanHead(part) then o == Prepend(HeadEvents(part), On(last, beyond, LastKind(part.file), d))
      else !(HeadEvents(part) <= o.events)
  {
    hide On, Prepend, CleanFile, FromFile;
    var filed := FromFile(part.file, last);
    var named := NAME_S + (part.name + (QUOTE + filed));
    OnFromFile(part.file, last, beyond, d);
    OnName(part.name, filed, beyond, d);
    OnFormData(named, beyond, d);
    var o, p, q, r := On(CONTENT_DFD + named, beyond, Boundary, d), On(named, beyond, FormData, d),
      On(filed, beyond, Name, d), On(last, beyond, LastKind(part.file), d);
    var e1, e2, es := Event(FormData, CONTENT_DFD), Event(Name, part.name), FileEvents(part.file);
    OneMore(e2, es, p, q, r, '"' !in part.name, CleanFile(part.file));
    OneMore(e1, [e2] + es, o, p, r, true, CleanHead(part));
    assert [e1] + ([e2] + es) == HeadEvents(part);
  }

  /** One part, on the way from one boundary line to the next. */
  lemma OnPart(part: Part, boundary: string, rest: string, beyond: string)
    requires |beyond| >= OVERRUN && rest != "" && boundary != ""
    ensures var d := Delimiter(boundary);
      var o := On(Head(part, FromValue(part.value, boundary, rest)), beyond, Boundary, d);
      if Clean(part, boundary) then o == Prepend(PartEvents(part, boundary), On(rest, beyond, Boundary, d))
      else !(PartEvents(part, boundary) <= o.events)
  {
    hide On, Delimiter, Prepend, FirstAtEnd, CleanHead, Head;
    var d, last := Delimiter(boundary), FromValue(part.value, boundary, rest);
    assert last[..|CRLF|] == CRLF;
    OnHead(part, last, beyond, d);
    OnFromValue(LastKind(part.file), part.value, boundary, rest, beyond);
    var a, b := HeadEvents(part), ValueEvents(part.value, boundary);
    AfterSame(a, b, On(last, beyond, LastKind(part.file), d));
    PrependTwice(a, b, On(rest, beyond, Boundary, d));
    assert a <= a + b;
  }

  lemma OnFinish(beyond: string, d: string)
    requires |beyond| >= OVERRUN
    ensures On(FINISH_MARK, beyond, Boundary, d) == Outcome([Event(Finish, FINISH_MARK)], Finish, true)
  {
    hide Go;
    assert (FINISH_MARK + beyond)[..|FINISH_MARK|] == FINISH_MARK;
  }

  /** The parts come back exactly when each of them is clean. */
  lemma {:induction false} OnParts(parts: seq<Part>, boundary: string, tail: string, beyond: string)
    requires |beyond| >= OVERRUN && boundary != "" && tail != ""
    ensures var o := On(Rendered(parts, boundary, tail), beyond, Boundary, Delimiter(boundary));
      && Rendered(parts, boundary, tail) != ""
      && if forall p :: p in parts ==> Clean(p, boundary)
         then o == Prepend(PartsEvents(parts, boundary), On(tail, beyond, Boundary, Delimiter(boundary)))
         else !(PartsEvents(parts, boundary) <= o.events)
  {
    var d := Delimiter(boundary);
    if parts == [] {
      PrependTwice([], [], On(tail, beyond, Boundary, d));
    } else {
      var rest := Rendered(parts[1..], boundary, tail);
      OnParts(parts[1..], boundary, tail, beyond);
      OnPart(parts[0], boundary, rest, beyond);
      hide On, Clean, Delimiter, PartEvents, Prepend, Head;
      assert forall p :: p in parts <==> p == parts[0] || p in parts[1..];
      var a, b := PartEvents(parts[0], boundary), PartsEvents(parts[1..], boundary);
      AfterSame(a, b, On(rest, beyond, Boundary, d));
      PrependTwice(a, b, On(tail, beyond, Boundary, d));
      assert a <= a + b;
    }
  }

  lemma LineFound(line: string, rest: string)
    requires 2 <= |line| <= BOUNDARY_MAX - |CRLF| && FirstAtEnd(line, CRLF)
    requires |rest| >= |CRLF| && rest[..|CRLF|] == CRLF
    ensures LocateBoundary(line + rest) == |line| - 1
  {
    var all := line + rest;
    var tail := Start(all)[|line| + |CRLF|..];
    assert Start(all) == line + CRLF + tail;
    FirstWithTail(line, CRLF, tail);
  }

  /** A first line of any length: found as a whole, or too long to end among the first bytes. */
  lemma LineLength(line: string, rest: string)
    requires 2 <= |line| && FirstAtEnd(line, CRLF) && |rest| >= |CRLF| && rest[..|CRLF|] == CRLF
    ensures LocateBoundary(line + rest) == if |line| <= BOUNDARY_MAX - |CRLF| then |line| - 1 else -1
  {
    if |line| <= BOUNDARY_MAX - |CRLF| {
      LineFound(line, rest);
    } else {
      hide Find, FirstAtEnd;
      var text := line + CRLF;
      assert line + rest == text + rest[|CRLF|..];
      assert Start(line + rest) == text[..BOUNDARY_MAX];
      NoneBefore(line, CRLF, BOUNDARY_MAX);
    }
  }

  /** The first boundary line is found, and its delimiter kept. */
  lemma ParseStarts(boundary: string, rest: string, beyond: string)
    requires |beyond| >= OVERRUN && GoodBoundary(boundary) && |rest| >= |CRLF| && rest[..|CRLF|] == CRLF
    ensures var (o, d) := Parse(boundary + rest + beyond, |boundary + rest|, Void, "");
      d == Delimiter(boundary) && o == Prepend([Event(Boundary, boundary)], On(rest, beyond, Boundary, d))
  {
    hide Go, Prepend, On, LocateBoundary, FirstAtEnd, Occurs;
    var all := boundary + rest;
    LineFound(boundary, rest);
    assert (all + beyond)[..|all|] == all;
    assert (all + beyond)[..|boundary| - 1] == boundary[..|boundary| - 1];
    assert (all + beyond)[..|boundary|] == boundary;
    GoOn([Event(Boundary, boundary)], boundary, rest, beyond, Boundary, Delimiter(boundary));
  }

  /** Before the line break of an empty form there is none. */
  lemma EmptyLineFound(boundary: string)
    requires GoodBoundary(boundary)
    ensures FirstAtEnd(boundary + "--", CRLF)
  {
    var text, line := boundary + CRLF, boundary + "--" + CRLF;
    assert Occurs(line, CRLF, |boundary| + 2);
    forall j: nat | j < |boundary| + 2 ensures !Occurs(line, CRLF, j) {
      assert line[|boundary|] == '-' && line[|boundary| + 1] == '-';
      if j + 1 < |boundary| {
        assert line[j..j + |CRLF|] == text[j..j + |CRLF|];
        assert !Occurs(text, CRLF, j);
      } else {
        Differs(line, CRLF, j, if j < |boundary| then 1 else 0);
      }
    }
  }

  /** The body of a form without parts is refused: its first line is taken for the boundary line. */
  lemma EmptyFormRefused(boundary: string, beyond: string)
    requires GoodBoundary(boundary) && |beyond| >= OVERRUN
    ensures var body := Render([], boundary);
      var o := Parse(body + beyond, |body|, Void, "").0;
      !o.ok && !([Event(Boundary, boundary)] <= o.events)
  {
    hide Go, Prepend, On, LocateBoundary, FirstAtEnd, Occurs, Find, Loop;
    EmptyLineFound(boundary);
    var line := boundary + "--";
    var body := line + CRLF;
    assert Render([], boundary) == body;
    LineLength(line, CRLF);
    assert (body + beyond)[..|body|] == body;
    assert (body + beyond)[..|line|] == line;
    GoOn([Event(Boundary, line)], line, CRLF, beyond, Boundary, CRLF + (body + beyond)[..|line| - 1]);
    BreakRefused(beyond, CRLF + (body + beyond)[..|line| - 1]);
    PrependFirst(Event(Boundary, line), On(CRLF, beyond, Boundary, CRLF + (body + beyond)[..|line| - 1]));
    assert |line| != |boundary|;
  }

  lemma PrependFirst(e: Event, o: Outcome)
    ensures Prepend([e], o).events != [] && Prepend([e], o).events[0] == e && Prepend([e], o).ok == o.ok
  {
  }

  lemma BreakRefused(beyond: string, d: string)
    requires |beyond| >= OVERRUN
    ensures !On(CRLF, beyond, Boundary, d).ok
  {
    hide Go;
    assert (CRLF + beyond)[..|CRLF|] == CRLF;
  }

  /** Parsing the body of a form in one buffer gives back its parts exactly when there is one, no name has
      a quote in it, no type is empty or broken, and no value has the kept delimiter in it. */
  lemma RoundTrip(parts: seq<Part>, boundary: string, beyond: string)
    requires GoodBoundary(boundary) && |beyond| >= OVERRUN
    ensures var body := Render(parts, boundary);
      var (o, d) := Parse(body + beyond, |body|, Void, "");
      var good := parts != [] && forall p :: p in parts ==> Clean(p, boundary);
      && (o.events == FormEvents(parts, boundary) <==> good)
      && (good ==> o.state == Finish && o.ok)
  {
    hide Clean, Parse, Render, FormEvents;
    if parts == [] {
      EmptyFormRefused(boundary, beyond);
      BoundaryFirst(parts, boundary);
    } else {
      PartsRoundTrip(parts, boundary, beyond);
    }
  }

  lemma BoundaryFirst(parts: seq<Part>, boundary: string)
    ensures [Event(Boundary, boundary)] <= FormEvents(parts, boundary)
  {
  }

  lemma PartsRoundTrip(parts: seq<Part>, boundary: string, beyond: string)
    requires GoodBoundary(boundary) && |beyond| >= OVERRUN && parts != []
    ensures var body := Render(parts, boundary);
      var (o, d) := Parse(body + beyond, |body|, Void, "");
      var good := forall p :: p in parts ==> Clean(p, boundary);
      && (o.events == FormEvents(parts, boundary) <==> good)
      && (good ==> o.state == Finish && o.ok)
  {
    hide On, Clean, Rendered, PartsEvents, Parse, Delimiter, FirstAtEnd;
    var rest, d := Rendered(parts, boundary, FINISH_MARK), Delimiter(boundary);
    FirstLine(parts, boundary);
    ParseStarts(boundary, rest, beyond);
    OnParts(parts, boundary, FINISH_MARK, beyond);
    OnFinish(beyond, d);
    SameEvents(Event(Boundary, boundary), PartsEvents(parts, boundary), [Event(Finish, FINISH_MARK)],
      On(rest, beyond, Boundary, d));
  }

  /** Events that are those wanted begin with them. */
  lemma SameEvents(first: Event, all: seq<Event>, last: seq<Event>, o: Outcome)
    ensures Prepend([first], o).events == [first] + (all + last) <==> o.events == all + last
    ensures o.events == all + last ==> all <= o.events
  {
    if [first] + o.events == [first] + (all + last) {
      assert o.events == ([first] + o.events)[1..] == ([first] + (all + last))[1..] == all + last;
    }
  }

  lemma FirstLine(parts: seq<Part>, boundary: string)
    requires parts != []
    ensures var rest := Rendered(parts, boundary, FINISH_MARK); |rest| >= |CRLF| && rest[..|CRLF|] == CRLF
  {
  }

  /** RFC 2046 forbids the whole boundary line in a value; the parser needs more: a value that
      holds all of it but the last byte is cut. */
  lemma LegalValueIsCut(beyond: string)
    requires |beyond| >= OVERRUN
    ensures var value, boundary := "\r\n--ab!", "--abc";
      && GoodBoundary(boundary) && Find(value + CRLF + boundary, CRLF + boundary) == |value|
      && var body := Render([Part("n", None, value)], boundary);
         Parse(body + beyond, |body|, Void, "").0.events != FormEvents([Part("n", None, value)], boundary)
  {
    hide Parse, Render, FormEvents, GoodBoundary, Clean, Find;
    var value, boundary := "\r\n--ab!", "--abc";
    ShortLine(boundary);
    WholeLineLast(value, boundary);
    CutEarly(value, boundary);
    var form := [Part("n", None, value)];
    assert Part("n", None, value) in form;
    RoundTrip(form, boundary, beyond);
  }

  lemma ShortLine(boundary: string)
    requires boundary == "--abc"
    ensures GoodBoundary(boundary)
  {
    var line := boundary + CRLF;
    assert line == "--abc\r\n";
    forall j: nat | j < |boundary| ensures !Occurs(line, CRLF, j) {
      Differs(line, CRLF, j, 0);
    }
    FindIs(line, CRLF, |boundary|);
  }

  lemma WholeLineLast(value: string, boundary: string)
    requires value == "\r\n--ab!" && boundary == "--abc"
    ensures Find(value + CRLF + boundary, CRLF + boundary) == |value|
  {
    var all, whole := value + CRLF + boundary, CRLF + boundary;
    assert all == "\r\n--ab!\r\n--abc" && whole == "\r\n--abc";
    forall j: nat | j < |value| ensures !Occurs(all, whole, j) {
      Differs(all, whole, j, if j == 0 then 6 else 0);
    }
    FindIs(all, whole, |value|);
  }

  lemma CutEarly(value: string, boundary: string)
    requires value == "\r\n--ab!" && boundary == "--abc"
    ensures !Clean(Part("n", None, value), boundary)
  {
    hide Find;
    var d := Delimiter(boundary);
    assert d == "\r\n--ab";
    assert (value + d)[0..|d|] == d;
    assert Occurs(value + d, d, 0);
  }
}
