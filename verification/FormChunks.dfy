/** A body that arrives in two buffers, cut somewhere in a value. */
module FormChunks {
  import opened Bytes
  import opened FormText
  import opened FormParser
  import opened FormRoundTrip

  lemma HeadGrows(p: Part, last: string, x: string)
    ensures Head(p, last + x) == Head(p, last) + x
  {
    match p.file
    case None =>
    case Some(f) =>
      assert f.contentType + (last + x) == (f.contentType + last) + x;
      var typed := CONTENT_TYPE_PREFIX + (f.contentType + last);
      assert CONTENT_TYPE_PREFIX + (f.contentType + (last + x)) == typed + x;
      assert f.name + (QUOTE + (typed + x)) == (f.name + (QUOTE + typed)) + x;
      assert FromFile(p.file, last + x) == FromFile(p.file, last) + x;
  }

  lemma {:induction false} RenderedGrows(parts: seq<Part>, boundary: string, tail: string, x: string)
    ensures Rendered(parts, boundary, tail + x) == Rendered(parts, boundary, tail) + x
  {
    if parts == [] {
    } else {
      RenderedGrows(parts[1..], boundary, tail, x);
      var rest := Rendered(parts[1..], boundary, tail);
      var v := parts[0].value;
      assert v + (CRLF + boundary + (rest + x)) == (v + (CRLF + boundary + rest)) + x;
      assert FromValue(v, boundary, rest + x) == FromValue(v, boundary, rest) + x;
      HeadGrows(parts[0], FromValue(v, boundary, rest), x);
    }
  }

  lemma {:induction false} RenderedJoins(a: seq<Part>, b: seq<Part>, boundary: string, tail: string)
    ensures Rendered(a + b, boundary, tail) == Rendered(a, boundary, Rendered(b, boundary, tail))
    ensures PartsEvents(a + b, boundary) == PartsEvents(a, boundary) + PartsEvents(b, boundary)
  {
    hide Head, FromValue, PartEvents;
    if a == [] {
      assert a + b == b;
    } else {
      RenderedJoins(a[1..], b, boundary, tail);
      assert (a + b)[1..] == a[1..] + b && (a + b)[0] == a[0];
      Associate(PartEvents(a[0], boundary), PartsEvents(a[1..], boundary), PartsEvents(b, boundary));
    }
  }

  lemma Associate(a: seq<Event>, b: seq<Event>, c: seq<Event>)
    ensures a + (b + c) == (a + b) + c
  {
  }

  /** The first buffer: up to `c` bytes of the value of `p`. */
  function Front(before: seq<Part>, p: Part, boundary: string, c: nat): string
    requires c <= |p.value|
  {
    boundary + Rendered(before, boundary, Head(p, EMPTY_LINE + p.value[..c]))
  }

  /** The second buffer: the rest. */
  function Back(p: Part, after: seq<Part>, boundary: string, c: nat): string
    requires c <= |p.value|
  {
    p.value[c..] + (CRLF + boundary + Rendered(after, boundary, FINISH_MARK))
  }

  lemma ValueSplits(value: string, c: nat, line: string)
    requires c <= |value|
    ensures (EMPTY_LINE + value[..c]) + (value[c..] + line) == EMPTY_LINE + (value + line)
  {
    assert value == value[..c] + value[c..];
  }

  lemma OneRendered(p: Part, after: seq<Part>, boundary: string, c: nat)
    requires c <= |p.value|
    ensures var start, x := EMPTY_LINE + p.value[..c], Back(p, after, boundary, c);
      Rendered([p] + after, boundary, FINISH_MARK) == Head(p, start) + x
  {
    hide Head;
    var start, x := EMPTY_LINE + p.value[..c], Back(p, after, boundary, c);
    assert ([p] + after)[1..] == after;
    var line := CRLF + boundary + Rendered(after, boundary, FINISH_MARK);
    ValueSplits(p.value, c, line);
    HeadGrows(p, start, x);
  }

  lemma CutFits(before: seq<Part>, p: Part, after: seq<Part>, boundary: string, c: nat)
    requires c <= |p.value|
    ensures Front(before, p, boundary, c) + Back(p, after, boundary, c) == Render(before + ([p] + after), boundary)
  {
    hide Rendered, Head, Back;
    RenderedJoins(before, [p] + after, boundary, FINISH_MARK);
    OneRendered(p, after, boundary, c);
    var head, x := Head(p, EMPTY_LINE + p.value[..c]), Back(p, after, boundary, c);
    RenderedGrows(before, boundary, head, x);
    assert boundary + (Rendered(before, boundary, head) + x) == (boundary + Rendered(before, boundary, head)) + x;
  }

  /** A value goes on to the end of the buffer. */
  lemma OnOpenValue(value: string, beyond: string, d: string)
    requires |beyond| >= OVERRUN && value != "" && Find(value, d) == -1
    ensures On(value, beyond, EmptyLine, d) == Outcome([Event(Value, value)], Value, true)
  {
    hide Find, Go;
    assert (value + beyond)[..|value|] == value;
  }

  lemma OnOpenEnd(state: Kind, value: string, beyond: string, d: string)
    requires |beyond| >= OVERRUN && Find(value, d) == -1 && (state.Name? || state.ContentType?)
    ensures On(EMPTY_LINE + value, beyond, state, d) ==
      if value == "" then Outcome([Event(EmptyLine, EMPTY_LINE)], EmptyLine, true)
      else Outcome([Event(EmptyLine, EMPTY_LINE), Event(Value, value)], Value, true)
  {
    if value == "" {
      assert EMPTY_LINE + value == EMPTY_LINE && (EMPTY_LINE + beyond)[..|EMPTY_LINE|] == EMPTY_LINE;
      var es := [Event(EmptyLine, EMPTY_LINE)];
      PrependEnd(es, EmptyLine);
      assert Loop(EMPTY_LINE + beyond, |EMPTY_LINE|, state, d) ==
        Go(es, EMPTY_LINE + beyond, |EMPTY_LINE|, |EMPTY_LINE|, EmptyLine, d) by {
        assert !StartsWith(EMPTY_LINE, FNAME_S) && StartsWith(EMPTY_LINE, EMPTY_LINE);
        hide Go, Find;
      }
      hide Loop;
    } else {
      OnOpenValue(value, beyond, d);
      OnEmptyLine(state, value, beyond, d);
      hide On;
      assert [Event(EmptyLine, EMPTY_LINE)] + [Event(Value, value)] ==
        [Event(EmptyLine, EMPTY_LINE), Event(Value, value)];
    }
  }

  /** The events of the value of the first buffer, and of the second. */
  function EarlyValue(value: string, c: nat): seq<Event>
    requires c <= |value|
  {
    if c == 0 then [] else [Event(Value, value[..c])]
  }

  function LateValue(value: string, c: nat): seq<Event>
    requires c <= |value|
  {
    if 0 < c == |value| then [] else [Event(Value, value[c..])]
  }

  lemma LoopLaterValue(mem: string, n: nat, d: string)
    requires 0 < n && n + OVERRUN <= |mem| && Find(mem[..n], d) >= 0
    ensures var k := Find(mem[..n], d);
      Loop(mem, n, Value, d) ==
      if k == 0 then Go([Event(Boundary, mem[..|d| + 1])], mem, n, |d| + 1, Boundary, d)
      else Go([Event(Value, mem[..n][..k]), Event(Boundary, mem[k..k + |d| + 1])], mem, n, k + |d| + 1, Boundary, d)
  {
    hide Find, Go;
  }

  lemma OnLaterValue(value: string, boundary: string, rest: string, beyond: string)
    requires |beyond| >= OVERRUN && boundary != "" && FirstAtEnd(value, Delimiter(boundary))
    ensures On(value + (CRLF + boundary + rest), beyond, Value, Delimiter(boundary)) ==
      Prepend((if value == "" then [] else [Event(Value, value)]) + [Event(Boundary, CRLF + boundary)],
              On(rest, beyond, Boundary, Delimiter(boundary)))
  {
    var d, line := Delimiter(boundary), CRLF + boundary;
    var all := value + (line + rest);
    ValueEnd(value, boundary, rest, beyond);
    LoopLaterValue(all + beyond, |all|, d);
    hide Loop, Find, Delimiter, FirstAtEnd;
    var es := (if value == "" then [] else [Event(Value, value)]) + [Event(Boundary, line)];
    GoOn(es, value + line, rest, beyond, Boundary, d);
    hide Go, On, Prepend;
    if value == "" {
      assert es == [Event(Boundary, line)];
    } else {
      assert es == [Event(Value, value), Event(Boundary, line)];
    }
  }

  /** The first buffer behind its first line. */
  lemma OnFront(before: seq<Part>, p: Part, boundary: string, c: nat, beyond: string)
    requires boundary != "" && |beyond| >= OVERRUN && c <= |p.value|
    requires Clean(p, boundary) && forall q :: q in before ==> Clean(q, boundary)
    ensures On(Rendered(before, boundary, Head(p, EMPTY_LINE + p.value[..c])), beyond, Boundary, Delimiter(boundary)) ==
      Outcome(PartsEvents(before, boundary) +
        (HeadEvents(p) + ([Event(EmptyLine, EMPTY_LINE)] + EarlyValue(p.value, c))),
              if c == 0 then EmptyLine else Value, true)
  {
    var d, value := Delimiter(boundary), p.value[..c];
    var last := EMPTY_LINE + value;
    var head := Head(p, last);
    assert head != "" && last[..|CRLF|] == CRLF;
    OnParts(before, boundary, head, beyond);
    OnHead(p, last, beyond, d);
    NoneInStart(p.value, d, c);
    OnOpenEnd(LastKind(p.file), value, beyond, d);
    hide On, Rendered, Head, Clean, PartsEvents, HeadEvents, Delimiter;
    assert [Event(EmptyLine, EMPTY_LINE)] + EarlyValue(p.value, c) == On(last, beyond, LastKind(p.file), d).events;
  }

  lemma FrontHasLine(before: seq<Part>, p: Part, boundary: string, last: string)
    ensures var rest := Rendered(before, boundary, Head(p, last)); |rest| >= |CRLF| && rest[..|CRLF|] == CRLF
  {
  }

  lemma ParseFront(before: seq<Part>, p: Part, boundary: string, c: nat, beyond: string)
    requires GoodBoundary(boundary) && |beyond| >= OVERRUN && c <= |p.value|
    requires Clean(p, boundary) && forall q :: q in before ==> Clean(q, boundary)
    ensures var front := Front(before, p, boundary, c);
      Parse(front + beyond, |front|, Void, "") ==
      (Outcome([Event(Boundary, boundary)] + (PartsEvents(before, boundary)
                 + (HeadEvents(p) + ([Event(EmptyLine, EMPTY_LINE)] + EarlyValue(p.value, c)))),
               if c == 0 then EmptyLine else Value, true), Delimiter(boundary))
  {
    hide On, Rendered, Head, Parse, PartsEvents, HeadEvents, Delimiter;
    var rest := Rendered(before, boundary, Head(p, EMPTY_LINE + p.value[..c]));
    FrontHasLine(before, p, boundary, EMPTY_LINE + p.value[..c]);
    ParseStarts(boundary, rest, beyond);
    OnFront(before, p, boundary, c, beyond);
  }

  lemma ParseBack(p: Part, after: seq<Part>, boundary: string, c: nat, beyond: string)
    requires GoodBoundary(boundary) && |beyond| >= OVERRUN && c <= |p.value|
    requires Clean(p, boundary) && forall q :: q in after ==> Clean(q, boundary)
    ensures var back := Back(p, after, boundary, c);
      Parse(back + beyond, |back|, if c == 0 then EmptyLine else Value, Delimiter(boundary)).0 ==
      Outcome(LateValue(p.value, c) + [Event(Boundary, CRLF + boundary)]
              + (PartsEvents(after, boundary) + [Event(Finish, FINISH_MARK)]), Finish, true)
  {
    var d, rest := Delimiter(boundary), Rendered(after, boundary, FINISH_MARK);
    var back := Back(p, after, boundary, c);
    OnParts(after, boundary, FINISH_MARK, beyond);
    OnFinish(beyond, d);
    if c == 0 {
      OnValue(p.value, boundary, rest, beyond);
      assert p.value[0..] == p.value && back == p.value + (CRLF + boundary + rest);
      assert On(back, beyond, EmptyLine, d) == Loop(back + beyond, |back|, EmptyLine, d);
      assert LateValue(p.value, c) + [Event(Boundary, CRLF + boundary)] ==
        [Event(Value, p.value), Event(Boundary, CRLF + boundary)];
    } else {
      FirstInRest(p.value, d, c);
      OnLaterValue(p.value[c..], boundary, rest, beyond);
      assert On(back, beyond, Value, d) == Loop(back + beyond, |back|, Value, d);
    }
    hide Loop, On, Rendered, PartsEvents, Clean, Delimiter;
  }

  /** The events before those of a value, and after them. */
  function Until(before: seq<Part>, p: Part, boundary: string): seq<Event> {
    [Event(Boundary, boundary)] + (PartsEvents(before, boundary) + (HeadEvents(p) + [Event(EmptyLine, EMPTY_LINE)]))
  }

  function Since(after: seq<Part>, boundary: string): seq<Event> {
    [Event(Boundary, CRLF + boundary)] + (PartsEvents(after, boundary) + [Event(Finish, FINISH_MARK)])
  }

  lemma Regroup(f: seq<Event>, a: seq<Event>, h: seq<Event>, e: seq<Event>, v: seq<Event>, l: seq<Event>,
      c: seq<Event>, g: seq<Event>)
    ensures f + ((a + ((h + (e + v + l)) + c)) + g) == (f + (a + (h + e))) + v + (l + (c + g))
  {
  }

  /** Where a value lies in the events of a form. */
  lemma ValueAmong(before: seq<Part>, p: Part, after: seq<Part>, boundary: string)
    ensures FormEvents(before + ([p] + after), boundary) ==
      Until(before, p, boundary) + [Event(Value, p.value)] + Since(after, boundary)
  {
    hide HeadEvents;
    RenderedJoins(before, [p] + after, boundary, "");
    assert ([p] + after)[1..] == after;
    assert ValueEvents(p.value, boundary) ==
      [Event(EmptyLine, EMPTY_LINE)] + [Event(Value, p.value)] + [Event(Boundary, CRLF + boundary)];
    Regroup([Event(Boundary, boundary)], PartsEvents(before, boundary), HeadEvents(p), [Event(EmptyLine, EMPTY_LINE)],
            [Event(Value, p.value)], [Event(Boundary, CRLF + boundary)], PartsEvents(after, boundary),
              [Event(Finish, FINISH_MARK)]);
  }

  lemma Rejoin(f: seq<Event>, a: seq<Event>, h: seq<Event>, e: seq<Event>, v: seq<Event>, w: seq<Event>, s: seq<Event>)
    ensures (f + (a + (h + (e + v)))) + (w + s) == (f + (a + (h + e))) + (v + w) + s
  {
  }

  /** A value in two pieces, or whole when one of them would be empty. */
  function Pieces(value: string, c: nat): seq<Event>
    requires c <= |value|
  {
    if 0 < c < |value| then [Event(Value, value[..c]), Event(Value, value[c..])] else [Event(Value, value)]
  }

  lemma PiecesJoin(value: string, c: nat)
    requires c <= |value|
    ensures EarlyValue(value, c) + LateValue(value, c) == Pieces(value, c)
  {
    assert value[..|value|] == value && value[0..] == value;
  }

  /** Two calls of the parser, the second with the context the first has left. */
  function TwoBuffers(front: string, back: string, beyond: string, beyond': string): (Outcome, Outcome)
    requires |beyond| >= OVERRUN && |beyond'| >= OVERRUN
  {
    var (o, d) := Parse(front + beyond, |front|, Void, "");
    (o, Parse(back + beyond', |back|, o.state, d).0)
  }

  /** A cut anywhere in a value changes nothing but that the value may come in two pieces. */
  lemma CutInValue(before: seq<Part>, p: Part, after: seq<Part>, boundary: string, c: nat, beyond: string,
      beyond': string)
    requires GoodBoundary(boundary) && |beyond| >= OVERRUN && |beyond'| >= OVERRUN && c <= |p.value|
    requires Clean(p, boundary) && forall q :: q in before || q in after ==> Clean(q, boundary)
    ensures Front(before, p, boundary, c) + Back(p, after, boundary, c) == Render(before + ([p] + after), boundary)
    ensures FormEvents(before + ([p] + after), boundary) ==
      Until(before, p, boundary) + [Event(Value, p.value)] + Since(after, boundary)
    ensures var r := TwoBuffers(Front(before, p, boundary, c), Back(p, after, boundary, c), beyond, beyond');
      && r.0.events + r.1.events == Until(before, p, boundary) + Pieces(p.value, c) + Since(after, boundary)
      && r.0.ok && r.1.ok && r.1.state == Finish
  {
    hide FormEvents, Render, Parse, Front, Back, PartsEvents, HeadEvents, Clean, Delimiter, EarlyValue, LateValue,
      Pieces;
    CutFits(before, p, after, boundary, c);
    ValueAmong(before, p, after, boundary);
    ParseFront(before, p, boundary, c, beyond);
    ParseBack(p, after, boundary, c, beyond');
    PiecesJoin(p.value, c);
    var rest := PartsEvents(after, boundary) + [Event(Finish, FINISH_MARK)];
    var late, line := LateValue(p.value, c), [Event(Boundary, CRLF + boundary)];
    assert late + line + rest == late + Since(after, boundary);
    Rejoin([Event(Boundary, boundary)], PartsEvents(before, boundary), HeadEvents(p), [Event(EmptyLine, EMPTY_LINE)],
           EarlyValue(p.value, c), late, Since(after, boundary));
  }
}
