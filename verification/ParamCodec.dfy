/** Typed parameters on their way from a client to a server: the encoder's bytes, and the search
    for a parameter by its name. */
module ParamCodec {
  import opened Bytes

  const MKC_D_INT := 0
  const MKC_D_BUF := 1
  const MKC_D_ID := 2

  const HEAD := 4
  const WORD := 4

  /** An `int` in memory, lowest byte first. */
  type Word = w: seq<byte> | |w| == WORD witness [0, 0, 0, 0]

  datatype Value = Int(word: Word) | Buf(data: seq<byte>) | Id(data: seq<byte>)

  datatype Param = Param(name: seq<byte>, value: Value)

  function TypeOf(v: Value): (t: nat)
    ensures t <= 2
  {
    match v
    case Int(_) => MKC_D_INT
    case Buf(_) => MKC_D_BUF
    case Id(_) => MKC_D_ID
  }

  function DataOf(v: Value): seq<byte> {
    match v
    case Int(w) => w
    case Buf(d) => d
    case Id(d) => d
  }

  /** Four bytes of head, the name with its terminating zero, the data. */
  function Encoded(p: Param): seq<byte> {
    HeadOf(p) + (p.name + [0]) + DataOf(p.value)
  }

  function HeadOf(p: Param): (h: seq<byte>)
    ensures |h| == HEAD
  {
    var n, d := |p.name| + 1, |DataOf(p.value)|;
    [TypeOf(p.value) * 4, n % 256, d / 256 % 256, d % 256]
  }

  function EncodedAll(ps: seq<Param>): seq<byte> {
    if ps == [] then [] else Encoded(ps[0]) + EncodedAll(ps[1..])
  }

  /** What goes over the wire: type, length of the name with its zero, length of the data, name, data. */
  lemma WireExample(d: seq<byte>)
    requires |d| == 0x0203
    ensures Encoded(Param([97, 98], Int([4, 3, 2, 1]))) == [0, 3, 0, 4, 97, 98, 0, 4, 3, 2, 1]
    ensures Encoded(Param([97], Buf([7]))) == [4, 2, 0, 1, 97, 0, 7]
    ensures Encoded(Param([], Id(d))) == [8, 1, 2, 3, 0] + d
  {
  }

  lemma {:induction false} EncodedAllGrows(ps: seq<Param>, p: Param)
    ensures EncodedAll(ps + [p]) == EncodedAll(ps) + Encoded(p)
  {
    hide Encoded;
    if ps == [] {
      assert ps + [p] == [p] && [p][1..] == [];
    } else {
      EncodedAllGrows(ps[1..], p);
      assert (ps + [p])[1..] == ps[1..] + [p];
      assert Encoded(ps[0]) + (EncodedAll(ps[1..]) + Encoded(p)) == (Encoded(ps[0]) + EncodedAll(ps[1..])) + Encoded(p);
    }
  }

  lemma Regroup(a: seq<byte>, b: seq<byte>, c: seq<byte>, d: seq<byte>)
    ensures ((a + b) + c) + d == a + (b + c + d)
  {
  }

  /** `pony_monkey_get_data_length` announces as many bytes as are sent. */
  method GetDataLength(ps: seq<Param>) returns (s: nat)
    ensures s == |EncodedAll(ps)|
  {
    s := 0;
    for i := 0 to |ps|
      invariant s == |EncodedAll(ps[..i])|
    {
      s := s + HEAD + |DataOf(ps[i].value)| + (|ps[i].name| + 1);
      EncodedAllGrows(ps[..i], ps[i]);
      assert ps[..i] + [ps[i]] == ps[..i + 1];
    }
    assert ps[..|ps|] == ps;
  }

  /** `pony_monkey_send_data`, when no write fails. */
  method SendData(ps: seq<Param>) returns (sent: seq<byte>)
    ensures sent == EncodedAll(ps)
  {
    sent := [];
    for i := 0 to |ps|
      invariant sent == EncodedAll(ps[..i])
    {
      hide EncodedAll, DataOf;
      EncodedAllGrows(ps[..i], ps[i]);
      assert ps[..i] + [ps[i]] == ps[..i + 1];
      ghost var before := sent;
      var v, n := ps[i].value, |ps[i].name| + 1;
      sent := sent + [TypeOf(v) * 4, n % 256, |DataOf(v)| / 256 % 256, |DataOf(v)| % 256];
      hide HeadOf;
      sent := sent + (ps[i].name + [0]);
      sent := sent + DataOf(v);
      Regroup(before, HeadOf(ps[i]), ps[i].name + [0], DataOf(v));
    }
    assert ps[..|ps|] == ps;
  }

  /** `v |= b << 8 * i` for a signed `b`: a negative byte sets all bits above it. */
  function OrShifted(v: Word, b: byte, i: nat): (w: Word)
    requires i < WORD && forall j :: i <= j < WORD ==> v[j] == 0 || v[j] == 255
    ensures forall j :: i < j < WORD ==> w[j] == v[j] || w[j] == 255
  {
    [if i == 0 then Or(v[0], b) else v[0],
     if i == 1 then Or(v[1], b) else if i < 1 && b >= 128 then 255 else v[1],
     if i == 2 then Or(v[2], b) else if i < 2 && b >= 128 then 255 else v[2],
     if i == 3 then Or(v[3], b) else if i < 3 && b >= 128 then 255 else v[3]]
  }

  /** Bitwise or, with no bits or all bits on the left. */
  function Or(a: byte, b: byte): byte
    requires a == 0 || a == 255
  {
    if a == 255 then 255 else b
  }

  /** The loop that puts a word together. */
  function DecodedWord(b: Word): Word {
    OrShifted(OrShifted(OrShifted(OrShifted([0, 0, 0, 0], b[0], 0), b[1], 1), b[2], 2), b[3], 3)
  }

  /** A byte is read as sent unless some byte below it is 128 or more; then it is read as 255. */
  lemma WordIs(b: Word, i: nat)
    requires i < WORD
    ensures DecodedWord(b)[i] == if exists j :: 0 <= j < i && b[j] >= 128 then 255 else b[i]
  {
    assert (exists j :: 0 <= j < i && b[j] >= 128) <==>
      (i > 0 && b[0] >= 128) || (i > 1 && b[1] >= 128) || (i > 2 && b[2] >= 128);
  }

  /** An integer arrives as it was sent exactly when above its lowest byte of 128 or more there are
      no bits but ones, or there is none among the lower three bytes. */
  lemma WordArrives(b: Word)
    ensures DecodedWord(b) == b <==>
      && (b[0] >= 128 ==> b[1] == b[2] == b[3] == 255)
      && (b[1] >= 128 ==> b[2] == b[3] == 255)
      && (b[2] >= 128 ==> b[3] == 255)
  {
  }

  /** 128 is sent as 128 and read as -128. */
  lemma WordChanges()
    ensures DecodedWord([128, 0, 0, 0]) == [128, 255, 255, 255]
  {
  }

  /** The type is in bits 2 and 3, whatever the others are. */
  function Kind(b: byte): (t: nat)
    ensures t < 4 && 16 * (b / 16) + 4 * t + b % 4 == b
  {
    b / 4 % 4
  }

  function NameLength(s: seq<byte>): nat
    requires |s| >= HEAD
  {
    s[1]
  }

  function DataLength(s: seq<byte>): nat
    requires |s| >= HEAD
  {
    var high: int := s[2];
    high * 256 + s[3]
  }

  /** `l` bytes of payload with other memory behind them. A record that calls itself an integer is
      read as four bytes, whatever it says its length is. */
  function Decode(mem: seq<byte>, l: nat, name: seq<byte>): Option<Value>
    requires l + WORD <= |mem|
    decreases l
  {
    if l <= HEAD then None
    else
      var kind, namelen, datalen := Kind(mem[0]), NameLength(mem), DataLength(mem);
      if l - HEAD < namelen + datalen then None
      else if |name| + 1 != namelen || mem[HEAD..HEAD + |name|] != name then
        Decode(mem[HEAD + namelen + datalen..], l - HEAD - namelen - datalen, name)
      else
        Taken(mem, HEAD + namelen, kind, datalen)
  }

  /** The value at an offset, by the type and the length its record says. */
  function Taken(mem: seq<byte>, at: nat, kind: nat, datalen: nat): Option<Value>
    requires at + datalen <= |mem| && at + WORD <= |mem|
  {
    if kind == MKC_D_INT then Some(Int(DecodedWord(mem[at..at + WORD])))
    else if kind == MKC_D_BUF then Some(Buf(mem[at..at + datalen]))
    else if kind == MKC_D_ID then Some(Id(mem[at..at + datalen]))
    else None
  }

  /** Whether there is an answer, and what it is unless it is an integer, turns on the payload alone. */
  lemma {:induction false} OnlyPayload(mem: seq<byte>, other: seq<byte>, l: nat, name: seq<byte>)
    requires l + WORD <= |mem| && l + WORD <= |other| && mem[..l] == other[..l]
    ensures var a, b := Decode(mem, l, name), Decode(other, l, name);
      a == b || (a.Some? && b.Some? && a.value.Int? && b.value.Int?)
    decreases l
  {
    hide NameLength, DataLength, Kind, Taken;
    if l <= HEAD {
    } else {
      SamePayload(mem, other, l);
      var namelen, datalen := NameLength(mem), DataLength(mem);
      var next := HEAD + namelen + datalen;
      if l < next {
      } else {
        SameSlice(mem, other, l, HEAD + namelen, next);
        if |name| + 1 == namelen { SameSlice(mem, other, l, HEAD, HEAD + |name|); }
        SameRest(mem, other, l, next);
        if |name| + 1 != namelen || mem[HEAD..HEAD + |name|] != name {
          OnlyPayload(mem[next..], other[next..], l - next, name);
        } else {
          TakenAlike(mem, other, HEAD + namelen, Kind(mem[0]), datalen);
        }
      }
    }
  }

  lemma TakenAlike(mem: seq<byte>, other: seq<byte>, at: nat, kind: nat, d: nat)
    requires at + d <= |mem| && at + WORD <= |mem| && at + d <= |other| && at + WORD <= |other|
    requires mem[at..at + d] == other[at..at + d]
    ensures var a, b := Taken(mem, at, kind, d), Taken(other, at, kind, d);
      a == b || (a.Some? && b.Some? && a.value.Int? && b.value.Int?)
  {
    hide DecodedWord;
  }

  lemma SamePayload(mem: seq<byte>, other: seq<byte>, l: nat)
    requires HEAD <= l <= |mem| && l <= |other| && mem[..l] == other[..l]
    ensures mem[0] == other[0] && NameLength(mem) == NameLength(other) && DataLength(mem) == DataLength(other)
  {
    assert forall i :: 0 <= i < l ==> mem[i] == mem[..l][i] && other[i] == other[..l][i];
  }

  lemma SameSlice(mem: seq<byte>, other: seq<byte>, l: nat, i: nat, j: nat)
    requires l <= |mem| && l <= |other| && mem[..l] == other[..l] && i <= j <= l
    ensures mem[i..j] == other[i..j]
  {
    assert mem[i..j] == mem[..l][i..j] && other[i..j] == other[..l][i..j];
  }

  lemma SameRest(mem: seq<byte>, other: seq<byte>, l: nat, i: nat)
    requires l <= |mem| && l <= |other| && mem[..l] == other[..l] && i <= l
    ensures mem[i..][..l - i] == other[i..][..l - i]
  {
    SameSlice(mem, other, l, i, l);
    assert mem[i..][..l - i] == mem[i..l] && other[i..][..l - i] == other[i..l];
  }

  method ReadWord(mem: seq<byte>, offset: nat) returns (v: Word)
    requires offset + WORD <= |mem|
    ensures v == DecodedWord(mem[offset..offset + WORD])
  {
    v := [0, 0, 0, 0];
    ghost var b := mem[offset..offset + WORD];
    for i := 0 to WORD
      invariant i == 0 ==> v == [0, 0, 0, 0]
      invariant i == 1 ==> v == OrShifted([0, 0, 0, 0], b[0], 0)
      invariant i == 2 ==> v == OrShifted(OrShifted([0, 0, 0, 0], b[0], 0), b[1], 1)
      invariant i == 3 ==> v == OrShifted(OrShifted(OrShifted([0, 0, 0, 0], b[0], 0), b[1], 1), b[2], 2)
      invariant i == 4 ==> v == DecodedWord(b)
    {
      hide OrShifted;
      v := OrShifted(v, mem[offset + i], i);
    }
  }

  method TakeValue(mem: seq<byte>, offset: nat, kind: nat, datalen: nat) returns (r: Option<Value>)
    requires offset + datalen <= |mem| && offset + WORD <= |mem|
    ensures r == Taken(mem, offset, kind, datalen)
  {
    if kind == MKC_D_INT {
      var v := ReadWord(mem, offset);
      return Some(Int(v));
    } else if kind == MKC_D_BUF {
      return Some(Buf(mem[offset..offset + datalen]));
    } else if kind == MKC_D_ID {
      return Some(Id(mem[offset..offset + datalen]));
    } else {
      return None;
    }
  }

  /** What the search finds from an offset on. */
  ghost function From(mem: seq<byte>, offset: nat, l: nat, name: seq<byte>): Option<Value>
    requires offset <= l && l + WORD <= |mem|
  {
    Decode(mem[offset..], l - offset, name)
  }

  lemma FromStart(mem: seq<byte>, l: nat, name: seq<byte>)
    requires l + WORD <= |mem|
    ensures From(mem, 0, l, name) == Decode(mem, l, name)
  {
    assert mem[0..] == mem;
  }

  lemma FromEnd(mem: seq<byte>, offset: nat, l: nat, name: seq<byte>)
    requires offset <= l <= offset + HEAD && l + WORD <= |mem|
    ensures From(mem, offset, l, name) == None
  {
  }

  /** What a round of the search makes of the record in front. */
  lemma DecodeStep(mem: seq<byte>, offset: nat, l: nat, name: seq<byte>)
    requires offset + HEAD < l && l + WORD <= |mem|
    ensures var head, at := mem[offset..offset + HEAD], offset + HEAD;
      var n, d := NameLength(head), DataLength(head);
      From(mem, offset, l, name) ==
        if l - at < n + d then None
        else if |name| + 1 != n || mem[at..at + |name|] != name then From(mem, at + n + d, l, name)
        else Taken(mem, at + n, Kind(head[0]), d)
  {
    hide Kind, NameLength, DataLength, Taken;
    var s, at := mem[offset..], offset + HEAD;
    SameHead(mem, offset);
    var n, d := NameLength(s), DataLength(s);
    if l - at >= n + d {
      Slices(mem, offset, HEAD, HEAD + |name|, |name| + 1 == n);
      SameTaken(mem, offset, HEAD + n, Kind(s[0]), d);
      assert s[HEAD + n + d..] == mem[at + n + d..];
    }
  }

  lemma SameHead(mem: seq<byte>, offset: nat)
    requires offset + HEAD <= |mem|
    ensures var head, s := mem[offset..offset + HEAD], mem[offset..];
      NameLength(head) == NameLength(s) && DataLength(head) == DataLength(s) && head[0] == s[0]
  {
  }

  lemma SameTaken(mem: seq<byte>, offset: nat, i: nat, kind: nat, d: nat)
    requires offset + i + d <= |mem| && offset + i + WORD <= |mem|
    ensures Taken(mem[offset..], i, kind, d) == Taken(mem, offset + i, kind, d)
  {
    hide DecodedWord;
    Slices(mem, offset, i, i + WORD, true);
    Slices(mem, offset, i, i + d, true);
  }

  lemma Slices(mem: seq<byte>, offset: nat, i: nat, j: nat, ok: bool)
    requires offset <= |mem| && i <= j && (ok ==> offset + j <= |mem|)
    ensures ok ==> mem[offset..][i..j] == mem[offset + i..offset + j]
  {
  }

  /** `esq_mkc_get_session_param_by_name` */
  method GetParamByName(mem: seq<byte>, l: nat, name: seq<byte>) returns (r: Option<Value>)
    requires l + WORD <= |mem|
    ensures r == Decode(mem, l, name)
  {
    hide Decode, Taken, NameLength, DataLength, Kind, From;
    var offset := 0;
    FromStart(mem, l, name);
    while true
      invariant 0 <= offset <= l && From(mem, offset, l, name) == Decode(mem, l, name)
      decreases l - offset
    {
      if l - offset <= HEAD {
        FromEnd(mem, offset, l, name);
        return None;
      }
      DecodeStep(mem, offset, l, name);
      var head := mem[offset..offset + HEAD];
      var namelen, datalen := NameLength(head), DataLength(head);
      offset := offset + HEAD;
      if l - offset < namelen + datalen {
        return None;
      }
      if |name| + 1 != namelen || mem[offset..offset + |name|] != name {
        offset := offset + namelen + datalen;
        continue;
      }
      offset := offset + namelen;
      r := TakeValue(mem, offset, Kind(head[0]), datalen);
      return;
    }
  }

  /** What the head of a record has room for. */
  predicate Fits(p: Param) {
    |p.name| <= 254 && |DataOf(p.value)| <= 0xffff
  }

  function Arrived(v: Value): Value {
    match v
    case Int(w) => Int(DecodedWord(w))
    case _ => v
  }

  /** The first parameter with a name. */
  function FirstNamed(ps: seq<Param>, name: seq<byte>): Option<Value> {
    if ps == [] then None else if ps[0].name == name then Some(ps[0].value) else FirstNamed(ps[1..], name)
  }

  lemma HeadReads(p: Param)
    requires Fits(p)
    ensures var s, d := Encoded(p), |DataOf(p.value)|;
      && |s| == HEAD + |p.name| + 1 + d && Kind(s[0]) == TypeOf(p.value) && NameLength(s) == |p.name| + 1 &&
        DataLength(s) == d
      && s[HEAD..HEAD + |p.name|] == p.name && s[HEAD + |p.name| + 1..] == DataOf(p.value)
  {
  }

  /** One record in front of others: it is taken if it has the name, else passed over. */
  lemma DecodeOne(p: Param, rest: seq<byte>, beyond: seq<byte>, name: seq<byte>)
    requires Fits(p) && |beyond| >= WORD
    ensures var mem := Encoded(p) + rest + beyond; var l := |Encoded(p) + rest|;
      Decode(mem, l, name) == if p.name == name then Some(Arrived(p.value)) else Decode(rest + beyond, |rest|, name)
  {
    hide Encoded, Kind, NameLength, DataLength, Taken, Arrived, DataOf;
    HeadReads(p);
    var s := Encoded(p);
    var mem, l, n, d := s + rest + beyond, |s + rest|, |p.name|, |DataOf(p.value)|;
    MemReads(p, s, rest + beyond);
    assert s + (rest + beyond) == mem;
    assert name == p.name <==> |name| == n && mem[HEAD..HEAD + |name|] == name;
    if name == p.name { TakenArrives(p.value, mem, HEAD + n + 1); }
  }

  lemma MemReads(p: Param, s: seq<byte>, tail: seq<byte>)
    requires |s| == HEAD + |p.name| + 1 + |DataOf(p.value)| && s[HEAD..HEAD + |p.name|] == p.name &&
      s[HEAD + |p.name| + 1..] == DataOf(p.value)
    ensures var mem, at := s + tail, HEAD + |p.name| + 1;
      && mem[0] == s[0] && NameLength(mem) == NameLength(s) && DataLength(mem) == DataLength(s)
      && mem[HEAD..HEAD + |p.name|] == p.name && mem[at..at + |DataOf(p.value)|] == DataOf(p.value)
      && mem[|s|..] == tail
  {
    var mem := s + tail;
    assert mem[0] == s[0] && mem[1] == s[1] && mem[2] == s[2] && mem[3] == s[3];
  }

  lemma TakenArrives(v: Value, mem: seq<byte>, at: nat)
    requires at + |DataOf(v)| <= |mem| && at + WORD <= |mem| && mem[at..at + |DataOf(v)|] == DataOf(v)
    ensures Taken(mem, at, TypeOf(v), |DataOf(v)|) == Some(Arrived(v))
  {
    hide DecodedWord;
  }

  /** Any parameter list arrives: a search finds the first parameter with the name, or none. */
  lemma {:induction false} RoundTrip(ps: seq<Param>, beyond: seq<byte>, name: seq<byte>)
    requires |beyond| >= WORD && forall i :: 0 <= i < |ps| ==> Fits(ps[i])
    ensures Decode(EncodedAll(ps) + beyond, |EncodedAll(ps)|, name) ==
      match FirstNamed(ps, name) { case None => None case Some(v) => Some(Arrived(v)) }
  {
    if ps == [] {
    } else {
      DecodeOne(ps[0], EncodedAll(ps[1..]), beyond, name);
      RoundTrip(ps[1..], beyond, name);
      hide Decode, Encoded;
    }
  }
}
