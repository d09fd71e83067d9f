/** The multipart parser: it is fed buffer by buffer and keeps its place in a context. */
module FormParser {
  import opened FormText

  datatype Kind = Void | Error | EmptyLine | Boundary | FormData | Finish | Name | Filename | Value | ContentType

  /** One call of the application's callback. */
  datatype Event = Event(kind: Kind, data: string)

  /** What one call of the parser does: its events, the state it leaves and its result. */
  datatype Outcome = Outcome(events: seq<Event>, state: Kind, ok: bool)

  const BOUNDARY_MAX := 256
  const CRLF := "\r\n"
  const CONTENT_DFD := "\r\nContent-Disposition: form-data;"
  const NAME_S := " name=\""
  const FNAME_S := "; filename=\""
  const EMPTY_LINE := "\r\n\r\n"
  const CONTENT_TYPE_PREFIX := "\r\nContent-Type: "
  const FINISH_MARK := "--\r\n"

  /** How far the search for the end of a content type looks past the end of the buffer. */
  const OVERRUN := 17

  const FAILED := Outcome([Event(Error, "")], Error, false)

  /** The bytes among which the first line must end. */
  function Start(buf: string): string {
    if BOUNDARY_MAX < |buf| then buf[..BOUNDARY_MAX] else buf
  }

  /** The length of the first line less its last byte, or -1 without a line of two bytes at least. */
  function LocateBoundary(buf: string): (l: int)
    ensures -1 <= l < |buf|
    ensures l != -1 ==>
      l >= 1 && Occurs(Start(buf), CRLF, l + 1) && forall j: nat :: j <= l ==> !Occurs(Start(buf), CRLF, j)
    ensures l == -1 <==>
      (forall j: nat :: !Occurs(Start(buf), CRLF, j)) || Occurs(Start(buf), CRLF, 0) || Occurs(Start(buf), CRLF, 1)
  {
    var k := Find(Start(buf), CRLF);
    if k < 2 then -1 else k - 1
  }

  function Prepend(events: seq<Event>, o: Outcome): Outcome {
    o.(events := events + o.events)
  }

  /** The parser's loop on the `n` bytes that are left; `mem` goes on behind them. */
  function Loop(mem: string, n: nat, state: Kind, d: string): Outcome
    requires n + OVERRUN <= |mem|
    decreases n, 1
  {
    if n == 0 then Outcome([], state, true)
    else
      var buf := mem[..n];
      match state
      case EmptyLine =>
        var k := Find(buf, d);
        if k >= 0 then
          Go([Event(Value, buf[..k]), Event(Boundary, mem[k..k + |d| + 1])], mem, n, k + |d| + 1, Boundary, d)
        else Outcome([Event(Value, buf)], Value, true)
      case Value =>
        var k := Find(buf, d);
        if k > 0 then
          Go([Event(Value, buf[..k]), Event(Boundary, mem[k..k + |d| + 1])], mem, n, k + |d| + 1, Boundary, d)
        else if k == 0 then Go([Event(Boundary, mem[..|d| + 1])], mem, n, |d| + 1, Boundary, d)
        else Outcome([Event(Value, buf)], Value, true)
      case Boundary =>
        if StartsWith(buf, CONTENT_DFD) then Go([Event(FormData, CONTENT_DFD)], mem, n, |CONTENT_DFD|, FormData, d)
        else if buf == FINISH_MARK then Outcome([Event(Finish, buf)], Finish, true)
        else FAILED
      case FormData =>
        var q := FindChar(buf, '"', |NAME_S|);
        if StartsWith(buf, NAME_S) && q >= 0 then Go([Event(Name, buf[|NAME_S|..q])], mem, n, q + 1, Name, d)
        else FAILED
      case Name =>
        var q := FindChar(buf, '"', |FNAME_S|);
        if StartsWith(buf, FNAME_S) then
          if q >= 0 then Go([Event(Filename, buf[|FNAME_S|..q])], mem, n, q + 1, Filename, d) else FAILED
        else if StartsWith(buf, EMPTY_LINE) then Go([Event(EmptyLine, EMPTY_LINE)], mem, n, |EMPTY_LINE|, EmptyLine, d)
        else FAILED
      case Filename =>
        var t := Find(mem[OVERRUN..OVERRUN + n], CRLF);
        if n > OVERRUN && StartsWith(buf, CONTENT_TYPE_PREFIX) && t >= 0 then
          Go([Event(ContentType, mem[|CONTENT_TYPE_PREFIX|..OVERRUN + t])], mem, n, OVERRUN + t, ContentType, d)
        else FAILED
      case ContentType =>
        if StartsWith(buf, EMPTY_LINE) then Go([Event(EmptyLine, EMPTY_LINE)], mem, n, |EMPTY_LINE|, EmptyLine, d)
        else FAILED
      case Finish => Outcome([], Finish, false)
      case Error => Outcome([], Error, false)
      case Void => FAILED
  }

  /** On behind `c` bytes, if there are that many. */
  function Go(events: seq<Event>, mem: string, n: nat, c: nat, state: Kind, d: string): Outcome
    requires n + OVERRUN <= |mem| && 0 < c
    decreases n, 0
  {
    Prepend(events, if c >= n then Outcome([], state, true) else Loop(mem[c..], n - c, state, d))
  }

  /** One call of the parser, and the delimiter it leaves in the context. */
  function Parse(mem: string, n: nat, state: Kind, d: string): (Outcome, string)
    requires n + OVERRUN <= |mem|
  {
    if state.Void? then
      var r := LocateBoundary(mem[..n]);
      if r <= 2 || r + 2 >= BOUNDARY_MAX then (Outcome([], Void, false), d)
      else
        var d' := CRLF + mem[..r];
        (Go([Event(Boundary, mem[..r + 1])], mem, n, r + 1, Boundary, d'), d')
    else (Loop(mem, n, state, d), d)
  }

  /** What comes out when the loop has come to `i` with these events. */
  function Remaining(mem: string, len: nat, i: nat, events: seq<Event>, state: Kind, d: string): Outcome
    requires len + OVERRUN <= |mem|
  {
    if i >= len then Outcome(events, state, true) else Prepend(events, Loop(mem[i..], len - i, state, d))
  }

  lemma GoRemains(events: seq<Event>, mem: string, n: nat, c: nat, state: Kind, d: string)
    requires n + OVERRUN <= |mem| && 0 < c
    ensures Go(events, mem, n, c, state, d) == Remaining(mem, n, c, events, state, d)
  {
    hide Loop;
    PrependEnd(events, state);
  }

  lemma LoopRemains(mem: string, n: nat, state: Kind, d: string)
    requires n + OVERRUN <= |mem|
    ensures Loop(mem, n, state, d) == Remaining(mem, n, 0, [], state, d)
  {
    PrependTwice([], [], Loop(mem, n, state, d));
    assert mem[0..] == mem;
  }

  lemma RemainingStep(mem: string, len: nat, i: nat, events: seq<Event>, state: Kind, d: string, more: seq<Event>,
      c: nat, next: Kind)
    requires len + OVERRUN <= |mem| && i < len && 0 < c
    requires Loop(mem[i..], len - i, state, d) == Go(more, mem[i..], len - i, c, next, d)
    ensures Remaining(mem, len, i, events, state, d) == Remaining(mem, len, i + c, events + more, next, d)
  {
    hide Loop, Go;
    GoRemains(more, mem[i..], len - i, c, next, d);
    assert i + c < len ==> mem[i..][c..] == mem[i + c..];
    PrependTwice(events, more, if i + c < len then Loop(mem[i + c..], len - i - c, next, d) else FAILED);
    PrependEnd(events + more, next);
  }

  lemma RemainingEnds(mem: string, len: nat, i: nat, events: seq<Event>, state: Kind, d: string, o: Outcome)
    requires len + OVERRUN <= |mem| && i < len && Loop(mem[i..], len - i, state, d) == o
    ensures Remaining(mem, len, i, events, state, d) == o.(events := events + o.events)
  {
    hide Loop;
  }

  lemma RemainingNone(mem: string, len: nat, i: nat, events: seq<Event>, state: Kind, d: string)
    requires len + OVERRUN <= |mem| && i >= len
    ensures Remaining(mem, len, i, events, state, d) == Outcome(events, state, true)
  {
  }

  class Context {
    var lastItemType: Kind
    var boundary: string

    constructor ()
      ensures lastItemType == Void && boundary == ""
    {
      lastItemType, boundary := Void, "";
    }

    /** The search for the first line, in a context that has none yet. */
    method Begin(mem: string, len: nat) returns (events: seq<Event>, i: nat, state: Kind, ok: bool)
      requires len + OVERRUN <= |mem|
      modifies this`boundary
      ensures ok ==> Parse(mem, len, lastItemType, old(boundary)) ==
                     (Remaining(mem, len, i, events, state, boundary), boundary)
      ensures !ok ==>
        events == [] && Parse(mem, len, lastItemType, old(boundary)) == (Outcome([], lastItemType, false), boundary)
    {
      hide Occurs, Start, Find, LocateBoundary, Loop, Go, Remaining;
      events, i, state, ok := [], 0, lastItemType, true;
      if state.Void? {
        var r := LocateBoundary(mem[..len]);
        if r <= 2 || r + 2 >= BOUNDARY_MAX {
          ok := false;
          return;
        }
        boundary := CRLF + mem[..r];
        events := [Event(Boundary, mem[..r + 1])];
        i, state := r + 1, Boundary;
        GoRemains(events, mem, len, i, state, boundary);
      } else {
        LoopRemains(mem, len, state, boundary);
      }
    }

    /** Parses `len` bytes of `mem`; the callbacks are collected in `events`. */
    method PostDataParser(mem: string, len: nat) returns (events: seq<Event>, ok: bool)
      requires len + OVERRUN <= |mem|
      modifies this
      ensures (Outcome(events, lastItemType, ok), boundary) == Parse(mem, len, old(lastItemType), old(boundary))
    {
      hide Occurs, Start, Find, Loop, LocateBoundary, Parse, Go, Remaining;
      var i, state;
      events, i, state, ok := Begin(mem, len);
      if !ok {
        return;
      }
      while i < len
        invariant Parse(mem, len, old(lastItemType), old(boundary)) ==
                  (Remaining(mem, len, i, events, state, boundary), boundary)
        invariant lastItemType == old(lastItemType)
        decreases len - i
      {
        var more, c, next, go := Item(mem[i..], len - i, state);
        if !go {
          RemainingEnds(mem, len, i, events, state, boundary, Outcome(more, next, !next.Error? && state != Finish));
          lastItemType := next;
          return events + more, !next.Error? && state != Finish;
        }
        RemainingStep(mem, len, i, events, state, boundary, more, c, next);
        events := events + more;
        i, state := i + c, next;
      }
      RemainingNone(mem, len, i, events, state, boundary);
      lastItemType := state;
      ok := true;
    }

    /** A round in a value. */
    method ValueItem(mem: string, n: nat, state: Kind) returns (events: seq<Event>, c: nat, next: Kind, go: bool)
      requires 0 < n && n + OVERRUN <= |mem| && (state.EmptyLine? || state.Value?)
      ensures go ==> 0 < c && Loop(mem, n, state, boundary) == Go(events, mem, n, c, next, boundary)
      ensures !go ==> Loop(mem, n, state, boundary) == Outcome(events, next, !next.Error? && state != Finish)
    {
      hide Go, Prepend, Find, Occurs;
      var buf := mem[..n];
      var k := Find(buf, boundary);
      if k < 0 {
        return [Event(Value, buf)], n, Value, false;
      }
      events := [Event(Boundary, mem[k..k + |boundary| + 1])];
      if state.EmptyLine? || k != 0 {
        events := [Event(Value, buf[..k]), Event(Boundary, mem[k..k + |boundary| + 1])];
      }
      return events, k + |boundary| + 1, Boundary, true;
    }

    /** A round at the type of a file, or behind it. */
    method TypeItem(mem: string, n: nat, state: Kind) returns (events: seq<Event>, c: nat, next: Kind, go: bool)
      requires 0 < n && n + OVERRUN <= |mem| && (state.Filename? || state.ContentType?)
      ensures go ==> 0 < c && Loop(mem, n, state, boundary) == Go(events, mem, n, c, next, boundary)
      ensures !go ==> Loop(mem, n, state, boundary) == Outcome(events, next, !next.Error? && state != Finish)
    {
      hide Go, Prepend, StartsWith, Find, Occurs;
      var buf := mem[..n];
      events, c, next, go := [Event(Error, "")], 0, Error, false;
      if state.ContentType? {
        if StartsWith(buf, EMPTY_LINE) {
          return [Event(EmptyLine, EMPTY_LINE)], |EMPTY_LINE|, EmptyLine, true;
        }
      } else if n > |CONTENT_TYPE_PREFIX| + 1 && StartsWith(buf, CONTENT_TYPE_PREFIX) {
        var typeEnd := Find(mem[OVERRUN..OVERRUN + n], CRLF);
        if typeEnd >= 0 {
          var itemLen := OVERRUN + typeEnd;
          return [Event(ContentType, mem[|CONTENT_TYPE_PREFIX|..itemLen])], itemLen, ContentType, true;
        }
      }
    }

    /** One round of the loop: its callbacks, how many bytes it takes, and the next state. */
    method Item(mem: string, n: nat, state: Kind) returns (events: seq<Event>, c: nat, next: Kind, go: bool)
      requires 0 < n && n + OVERRUN <= |mem|
      ensures go ==> 0 < c && Loop(mem, n, state, boundary) == Go(events, mem, n, c, next, boundary)
      ensures !go ==> Loop(mem, n, state, boundary) == Outcome(events, next, !next.Error? && state != Finish)
    {
      hide Go, Prepend, StartsWith, FindChar, Find, Occurs;
      var buf := mem[..n];
      events, c, next, go := [Event(Error, "")], 0, Error, false;
      match state
      case EmptyLine =>
        events, c, next, go := ValueItem(mem, n, state);
      case Boundary =>
        if StartsWith(buf, CONTENT_DFD) {
          return [Event(FormData, CONTENT_DFD)], |CONTENT_DFD|, FormData, true;
        } else if n == 4 && buf[0] == '-' && buf[1] == '-' && buf[2] == '\r' && buf[3] == '\n' {
          assert buf == FINISH_MARK;
          return [Event(Finish, buf)], 0, Finish, false;
        }
      case FormData =>
        if StartsWith(buf, NAME_S) {
          var nameEnd := FindChar(buf, '"', |NAME_S|);
          if nameEnd > 0 {
            return [Event(Name, buf[|NAME_S|..nameEnd])], nameEnd + 1, Name, true;
          }
        }
      case Finish =>
        return [], 0, Finish, false;
      case Name =>
        if StartsWith(buf, FNAME_S) {
          var nameEnd := FindChar(buf, '"', |FNAME_S|);
          if nameEnd > 0 {
            return [Event(Filename, buf[|FNAME_S|..nameEnd])], nameEnd + 1, Filename, true;
          }
        } else if StartsWith(buf, EMPTY_LINE) {
          return [Event(EmptyLine, EMPTY_LINE)], |EMPTY_LINE|, EmptyLine, true;
        }
      case Filename =>
        events, c, next, go := TypeItem(mem, n, state);
      case Value =>
        events, c, next, go := ValueItem(mem, n, state);
      case ContentType =>
        events, c, next, go := TypeItem(mem, n, state);
      case Error =>
        return [], 0, Error, false;
      case Void =>
    }
  }

  ghost predicate NoError(events: seq<Event>) {
    forall i :: 0 <= i < |events| ==> !events[i].kind.Error?
  }

  /** A buffer that is taken reports no error. One that is refused reports one, as its last event, and leaves
      the parser in error; only where the parser had not begun, or had come to its end, nothing is reported. */
  ghost predicate Orderly(o: Outcome, state: Kind) {
    if o.ok then NoError(o.events) && !o.state.Error?
    else if o.events == [] then o.state == state && (state.Void? || state.Error? || state.Finish?)
    else
      var last := |o.events| - 1;
      o.state.Error? && o.events[last] == Event(Error, "") && NoError(o.events[..last])
  }

  lemma {:induction false} LoopOrderly(mem: string, n: nat, state: Kind, d: string)
    requires 0 < n && n + OVERRUN <= |mem|
    ensures Orderly(Loop(mem, n, state, d), state)
    ensures !Loop(mem, n, state, d).ok && Loop(mem, n, state, d).events == [] ==> state.Error? || state.Finish?
    decreases n, 1
  {
    hide Go, StartsWith, FindChar, Find, Occurs, Orderly;
    var buf := mem[..n];
    match state
    case EmptyLine =>
      var k := Find(buf, d);
      if k >= 0 {
        var line := Event(Boundary, mem[k..k + |d| + 1]);
        GoOrderly([Event(Value, buf[..k]), line], mem, n, k + |d| + 1, Boundary, d, state);
      } else { ValueOrderly(buf, state); }
    case Value =>
      var k := Find(buf, d);
      if k > 0 {
        var line := Event(Boundary, mem[k..k + |d| + 1]);
        GoOrderly([Event(Value, buf[..k]), line], mem, n, k + |d| + 1, Boundary, d, state);
      } else if k == 0 {
        GoOrderly([Event(Boundary, mem[..|d| + 1])], mem, n, |d| + 1, Boundary, d, state);
      } else { ValueOrderly(buf, state); }
    case Boundary =>
      if StartsWith(buf, CONTENT_DFD) {
        GoOrderly([Event(FormData, CONTENT_DFD)], mem, n, |CONTENT_DFD|, FormData, d, state);
      } else { LastOrderly(buf, state); }
    case FormData =>
      var q := FindChar(buf, '"', |NAME_S|);
      if StartsWith(buf, NAME_S) && q >= 0 {
        GoOrderly([Event(Name, buf[|NAME_S|..q])], mem, n, q + 1, Name, d, state);
      } else { LastOrderly(buf, state); }
    case Name =>
      var q := FindChar(buf, '"', |FNAME_S|);
      if StartsWith(buf, FNAME_S) {
        if q >= 0 { GoOrderly([Event(Filename, buf[|FNAME_S|..q])], mem, n, q + 1, Filename, d, state); }
        else { LastOrderly(buf, state); }
      } else if StartsWith(buf, EMPTY_LINE) {
        GoOrderly([Event(EmptyLine, EMPTY_LINE)], mem, n, |EMPTY_LINE|, EmptyLine, d, state);
      } else { LastOrderly(buf, state); }
    case Filename =>
      var t := Find(mem[OVERRUN..OVERRUN + n], CRLF);
      if n > OVERRUN && StartsWith(buf, CONTENT_TYPE_PREFIX) && t >= 0 {
        var kind := Event(ContentType, mem[|CONTENT_TYPE_PREFIX|..OVERRUN + t]);
        GoOrderly([kind], mem, n, OVERRUN + t, ContentType, d, state);
      } else { LastOrderly(buf, state); }
    case ContentType =>
      if StartsWith(buf, EMPTY_LINE) {
        GoOrderly([Event(EmptyLine, EMPTY_LINE)], mem, n, |EMPTY_LINE|, EmptyLine, d, state);
      } else { LastOrderly(buf, state); }
    case _ => LastOrderly(buf, state);
  }

  lemma ValueOrderly(buf: string, state: Kind)
    ensures Orderly(Outcome([Event(Value, buf)], Value, true), state)
  {
  }

  lemma LastOrderly(buf: string, state: Kind)
    ensures Orderly(FAILED, state) && Orderly(Outcome([Event(Finish, buf)], Finish, true), state)
    ensures Orderly(Outcome([], Finish, false), Finish) && Orderly(Outcome([], Error, false), Error)
  {
  }

  lemma {:induction false} GoOrderly(events: seq<Event>, mem: string, n: nat, c: nat, next: Kind, d: string,
                                      state: Kind)
    requires n + OVERRUN <= |mem| && 0 < c && n > 0 && events != [] && NoError(events)
    requires !next.Void? && !next.Error? && !next.Finish?
    ensures Orderly(Go(events, mem, n, c, next, d), state) && Go(events, mem, n, c, next, d).events != []
    decreases n, 0
  {
    hide Loop;
    if c < n {
      LoopOrderly(mem[c..], n - c, next, d);
      var o := Loop(mem[c..], n - c, next, d);
      if !o.ok {
        var last := |o.events| - 1;
        assert (events + o.events)[..|events| + last] == events + o.events[..last];
      }
    }
  }

  lemma ParseOrderly(mem: string, n: nat, state: Kind, d: string)
    requires 0 < n && n + OVERRUN <= |mem|
    ensures Orderly(Parse(mem, n, state, d).0, state)
  {
    hide Loop, Go, Orderly, NoError, LocateBoundary;
    if state.Void? {
      var r := LocateBoundary(mem[..n]);
      if r <= 2 || r + 2 >= BOUNDARY_MAX {
        NothingOrderly();
      } else {
        LineOrderly(mem[..r + 1]);
        GoOrderly([Event(Boundary, mem[..r + 1])], mem, n, r + 1, Boundary, CRLF + mem[..r], state);
      }
    } else {
      LoopOrderly(mem, n, state, d);
    }
  }

  lemma NothingOrderly()
    ensures Orderly(Outcome([], Void, false), Void)
  {
  }

  lemma LineOrderly(line: string)
    ensures NoError([Event(Boundary, line)])
  {
  }

  lemma PrependEnd(a: seq<Event>, state: Kind)
    ensures Prepend(a, Outcome([], state, true)) == Outcome(a, state, true)
  {
  }

  lemma PrependTwice(a: seq<Event>, b: seq<Event>, o: Outcome)
    ensures forall p: Outcome :: Prepend(a, Prepend(b, p)) == Prepend(a + b, p)
    ensures Prepend([], o) == o
  {
    forall p: Outcome ensures Prepend(a, Prepend(b, p)) == Prepend(a + b, p) {
      assert a + (b + p.events) == (a + b) + p.events;
    }
  }
}
