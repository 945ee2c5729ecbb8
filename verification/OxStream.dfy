/** OX messages on a connection, and the loops that drain it up to the sync ball. */
module OxStream {
  import opened Basics
  import opened Bytes
  import opened CmoCodec
  import opened CmoRoundTrip

  const OX_COMMAND: int := 513
  const OX_DATA: int := 514
  const OX_SYNC_BALL: int := 515

  /** Every message starts with its tag and the sender's serial number. */
  datatype Message =
    | Data(serial: int, cmo: Cmo)
    | Command(serial: int, code: int)
    | Ball(serial: int)

  predicate MessageOk(m: Message) {
    IsInt32(m.serial) &&
    match m
    case Data(_, c) => Sendable(c)
    case Command(_, code) => IsInt32(code)
    case Ball(_) => true
  }

  function TagOf(m: Message): int {
    match m case Data(_, _) => OX_DATA case Command(_, _) => OX_COMMAND case Ball(_) => OX_SYNC_BALL
  }

  function Payload(m: Message, bo: ByteOrder): seq<Byte>
    requires MessageOk(m)
  {
    match m
    case Data(_, c) => Encode(c, bo)
    case Command(_, code) => IntBytes(code, bo)
    case Ball(_) => []
  }

  function EncodeMessage(m: Message, bo: ByteOrder): seq<Byte>
    requires MessageOk(m)
  {
    IntBytes(TagOf(m), bo) + (IntBytes(m.serial, bo) + Payload(m, bo))
  }

  predicate AllOk(ms: seq<Message>) { forall i :: 0 <= i < |ms| ==> MessageOk(ms[i]) }

  function EncodeMessages(ms: seq<Message>, bo: ByteOrder): seq<Byte>
    requires AllOk(ms)
  {
    if ms == [] then [] else EncodeMessage(ms[0], bo) + EncodeMessages(ms[1..], bo)
  }

  datatype Header = Header(tag: int, serial: int)

  function ReadHeader(s: seq<Byte>, bo: ByteOrder): (r: Result<Header>)
    ensures r.Ok? ==> |r.rest| < |s|
    ensures !r.Outside?
  {
    var a := ReadInt(s, bo);
    if !a.Ok? then Exit else
      var b := ReadInt(a.rest, bo);
      if !b.Ok? then Exit else Ok(Header(a.value, b.value), b.rest)
  }

  /** The client's loop: every message before the ball carries an object. */
  function ClientDrain(s: seq<Byte>, bo: ByteOrder): (r: Result<seq<Cmo>>)
    ensures r.Ok? ==> |r.rest| <= |s|
    decreases |s|
  {
    var h := ReadHeader(s, bo);
    if !h.Ok? then Exit
    else if h.value.tag == OX_SYNC_BALL then Ok([], h.rest)
    else
      var c := Decode(h.rest, bo);
      if c.Exit? then Exit else if c.Outside? then Outside else
        var t := ClientDrain(c.rest, bo);
        if t.Ok? then Ok([c.value] + t.value, t.rest) else t
  }

  /** The server's loop skips data and commands, and the header alone of anything else. */
  function ServerDrain(s: seq<Byte>, bo: ByteOrder): (r: Result<seq<Header>>)
    ensures r.Ok? ==> |r.rest| <= |s|
    decreases |s|
  {
    var h := ReadHeader(s, bo);
    if !h.Ok? then Exit
    else if h.value.tag == OX_SYNC_BALL then Ok([], h.rest)
    else
      var b := SkipBody(h.value.tag, h.rest, bo);
      if b.Exit? then Exit else if b.Outside? then Outside else
        var t := ServerDrain(b.rest, bo);
        if t.Ok? then Ok([h.value] + t.value, t.rest) else t
  }

  datatype Skipped = Skipped

  function SkipBody(tag: int, s: seq<Byte>, bo: ByteOrder): (r: Result<Skipped>)
    ensures r.Ok? ==> |r.rest| <= |s|
  {
    if tag == OX_DATA then
      var c := Decode(s, bo);
      if c.Ok? then Ok(Skipped, c.rest) else if c.Exit? then Exit else Outside
    else if tag == OX_COMMAND then
      var c := ReadInt(s, bo);
      if c.Ok? then Ok(Skipped, c.rest) else Exit
    else Ok(Skipped, s)
  }

  lemma HeaderOnto(m: Message, t: seq<Byte>, bo: ByteOrder)
    requires MessageOk(m)
    ensures ReadHeader(EncodeMessage(m, bo) + t, bo) == Ok(Header(TagOf(m), m.serial), Payload(m, bo) + t)
  {
    var a, b, p := IntBytes(TagOf(m), bo), IntBytes(m.serial, bo), Payload(m, bo);
    Assoc(a, b + p, t);
    Assoc(b, p, t);
    IntOnto(TagOf(m), b + (p + t), bo);
    IntOnto(m.serial, p + t, bo);
    hide IntBytes, ReadInt, Payload;
  }

  lemma BodyOnto(m: Message, t: seq<Byte>, bo: ByteOrder)
    requires MessageOk(m)
    ensures SkipBody(TagOf(m), Payload(m, bo) + t, bo) == Ok(Skipped, t)
  {
    match m
    case Data(_, c) => RoundTrip(c, t, bo); hide Encode, Decode;
    case Command(_, code) => IntOnto(code, t, bo); hide IntBytes, ReadInt;
    case Ball(_) => assert [] + t == t;
  }

  /** The true ball followed by t. */
  function AtBall(k: int, t: seq<Byte>, bo: ByteOrder): seq<Byte>
    requires IsInt32(k)
  {
    EncodeMessage(Ball(k), bo) + t
  }

  predicate NoBall(ms: seq<Message>) { forall i :: 0 <= i < |ms| ==> !ms[i].Ball? }

  function Headers(ms: seq<Message>): seq<Header> {
    if ms == [] then [] else [Header(TagOf(ms[0]), ms[0].serial)] + Headers(ms[1..])
  }

  lemma ServerStep(s: seq<Byte>, bo: ByteOrder, h: Header, s1: seq<Byte>, s2: seq<Byte>)
    requires ReadHeader(s, bo) == Ok(h, s1) && h.tag != OX_SYNC_BALL && SkipBody(h.tag, s1, bo) == Ok(Skipped, s2)
    requires ServerDrain(s2, bo).Ok?
    ensures ServerDrain(s, bo).Ok?
    ensures ServerDrain(s, bo).value == [h] + ServerDrain(s2, bo).value
    ensures ServerDrain(s, bo).rest == ServerDrain(s2, bo).rest
  {
    hide ReadHeader, SkipBody;
  }

  lemma BallStops(k: int, t: seq<Byte>, bo: ByteOrder)
    requires IsInt32(k)
    ensures ServerDrain(AtBall(k, t, bo), bo) == Ok([], t)
    ensures ClientDrain(AtBall(k, t, bo), bo) == Ok([], t)
  {
    HeaderOnto(Ball(k), t, bo);
    assert [] + t == t;
    hide ReadHeader, EncodeMessage;
  }

  lemma MessagesUnfold(ms: seq<Message>, bo: ByteOrder)
    requires ms != [] && AllOk(ms)
    ensures MessageOk(ms[0]) && AllOk(ms[1..])
    ensures EncodeMessages(ms, bo) == EncodeMessage(ms[0], bo) + EncodeMessages(ms[1..], bo)
    ensures NoBall(ms) ==> NoBall(ms[1..]) && TagOf(ms[0]) != OX_SYNC_BALL
    ensures Headers(ms) == [Header(TagOf(ms[0]), ms[0].serial)] + Headers(ms[1..])
  {
    hide EncodeMessage;
  }

  lemma NoMessages(bo: ByteOrder)
    ensures AllOk([]) && EncodeMessages([], bo) == [] && Headers([]) == []
    ensures OnlyData([]) && Objects([]) == []
  {
  }

  /** The server's drain loop skips exactly the messages before the ball, whatever words their
      payloads hold, and leaves exactly what follows the ball. */
  lemma {:induction false} ServerDrainStops(ms: seq<Message>, k: int, t: seq<Byte>, bo: ByteOrder)
    requires AllOk(ms) && NoBall(ms) && IsInt32(k)
    ensures ServerDrain(EncodeMessages(ms, bo) + AtBall(k, t, bo), bo) == Ok(Headers(ms), t)
  {
    hide *;
    var u := AtBall(k, t, bo);
    NoMessages(bo);
    if ms == [] {
      BallStops(k, t, bo);
      assert [] + u == u;
    } else {
      MessagesUnfold(ms, bo);
      var m, rest := ms[0], EncodeMessages(ms[1..], bo);
      Assoc(EncodeMessage(m, bo), rest, u);
      HeaderOnto(m, rest + u, bo);
      BodyOnto(m, rest + u, bo);
      ServerDrainStops(ms[1..], k, t, bo);
      ServerStep(EncodeMessage(m, bo) + (rest + u), bo, Header(TagOf(m), m.serial),
                 Payload(m, bo) + (rest + u), rest + u);
    }
  }

  predicate OnlyData(ms: seq<Message>) { forall i :: 0 <= i < |ms| ==> ms[i].Data? }

  function Objects(ms: seq<Message>): seq<Cmo>
    requires OnlyData(ms)
  {
    if ms == [] then [] else [ms[0].cmo] + Objects(ms[1..])
  }

  lemma ClientStep(s: seq<Byte>, bo: ByteOrder, h: Header, s1: seq<Byte>, c: Cmo, s2: seq<Byte>)
    requires ReadHeader(s, bo) == Ok(h, s1) && h.tag != OX_SYNC_BALL && Decode(s1, bo) == Ok(c, s2)
    requires ClientDrain(s2, bo).Ok?
    ensures ClientDrain(s, bo).Ok?
    ensures ClientDrain(s, bo).value == [c] + ClientDrain(s2, bo).value
    ensures ClientDrain(s, bo).rest == ClientDrain(s2, bo).rest
  {
    hide ReadHeader, Decode;
  }

  lemma DataUnfold(ms: seq<Message>, bo: ByteOrder)
    requires ms != [] && AllOk(ms) && OnlyData(ms)
    ensures ms[0].Data? && OnlyData(ms[1..]) && Objects(ms) == [ms[0].cmo] + Objects(ms[1..])
    ensures Sendable(ms[0].cmo) && TagOf(ms[0]) != OX_SYNC_BALL && Payload(ms[0], bo) == Encode(ms[0].cmo, bo)
  {
    hide Sendable, Encode;
  }

  /** The client's drain loop does the same on a stream of replies. */
  lemma {:induction false} ClientDrainStops(ms: seq<Message>, k: int, t: seq<Byte>, bo: ByteOrder)
    requires AllOk(ms) && OnlyData(ms) && IsInt32(k)
    ensures ClientDrain(EncodeMessages(ms, bo) + AtBall(k, t, bo), bo) == Ok(Objects(ms), t)
  {
    hide *;
    var u := AtBall(k, t, bo);
    NoMessages(bo);
    if ms == [] {
      BallStops(k, t, bo);
      assert [] + u == u;
    } else {
      MessagesUnfold(ms, bo);
      DataUnfold(ms, bo);
      var m, rest := ms[0], EncodeMessages(ms[1..], bo);
      Assoc(EncodeMessage(m, bo), rest, u);
      HeaderOnto(m, rest + u, bo);
      RoundTrip(m.cmo, rest + u, bo);
      ClientDrainStops(ms[1..], k, t, bo);
      ClientStep(EncodeMessage(m, bo) + (rest + u), bo, Header(TagOf(m), m.serial),
                 Payload(m, bo) + (rest + u), m.cmo, rest + u);
    }
  }

  /** The tags after which the receiver reads on; after any other it has a bare object. */
  predicate HasBody(tag: int) {
    tag in {INT32, STRING, 5, 26, 60, 0x7f00_0002, 27, 35, 62, TREE, LIST, MONOMIAL32, INTEGER, RATIONAL, DISTRIBUTED,
            POLY_IN_ONE, MACHINE_DOUBLE, IEEE_DOUBLE, BIGFLOAT32}
  }

  lemma BodyAmount(tag: int, s: seq<Byte>, bo: ByteOrder)
    ensures !HasBody(tag) ==> DecodeTag(tag, s, bo).Ok? && DecodeTag(tag, s, bo).rest == s
    ensures HasBody(tag) && DecodeTag(tag, s, bo).Ok? ==> |DecodeTag(tag, s, bo).rest| < |s|
  {
    hide Decode, DecodeMany, DecodeTerms, ReadInts, ReadMpz, ReadString, InOrder;
  }

  /** A loop of the client that stops has consumed at least one header. */
  lemma {:induction false} ClientAmount(s: seq<Byte>, bo: ByteOrder)
    requires ClientDrain(s, bo).Ok?
    ensures |ClientDrain(s, bo).rest| <= |s| - 8
    decreases |s|
  {
    ClientCases(s, bo);
    hide *;
    var h := ReadHeader(s, bo);
    if h.Ok? && h.value.tag != OX_SYNC_BALL {
      ClientAmount(Decode(h.rest, bo).rest, bo);
    }
  }

  lemma ClientCases(s: seq<Byte>, bo: ByteOrder)
    requires ClientDrain(s, bo).Ok?
    ensures var h := ReadHeader(s, bo);
      h.Ok? && |h.rest| == |s| - 8
      && (h.value.tag == OX_SYNC_BALL ==> ClientDrain(s, bo).rest == h.rest)
      && (h.value.tag != OX_SYNC_BALL ==>
            var c := Decode(h.rest, bo);
            c.Ok? && |c.rest| < |h.rest| && ClientDrain(c.rest, bo).Ok?
            && ClientDrain(s, bo).rest == ClientDrain(c.rest, bo).rest)
  {
    HeaderAmount(s, bo);
    hide ReadHeader, Decode;
  }

  lemma HeaderAmount(s: seq<Byte>, bo: ByteOrder)
    ensures ReadHeader(s, bo).Ok? ==> |ReadHeader(s, bo).rest| == |s| - 8
  {
    hide ReadInt;
  }

  /** The restriction to data matters: the client's loop reads an object after every header and takes
      the code of a command for an object's tag.  With a command right before the ball it stops
      right after the ball if and only if that tag has nothing after it. */
  lemma CommandBeforeBallIff(serial: int, code: int, k: int, t: seq<Byte>, bo: ByteOrder)
    requires IsInt32(serial) && IsInt32(code) && IsInt32(k)
    ensures var d := ClientDrain(EncodeMessage(Command(serial, code), bo) + AtBall(k, t, bo), bo);
      d.Ok? && d.rest == t <==> !HasBody(code)
  {
    var m, u := Command(serial, code), AtBall(k, t, bo);
    var s, s1 := EncodeMessage(m, bo) + u, IntBytes(code, bo) + u;
    CommandShape(serial, code, k, t, bo);
    hide *;
    HeaderOnto(m, u, bo);
    IntOnto(code, u, bo);
    DecodeByTag(s1, code, u, bo);
    BodyAmount(code, u, bo);
    if !HasBody(code) {
      BallStops(k, t, bo);
      ClientStep(s, bo, Header(TagOf(m), serial), s1, Decode(s1, bo).value, u);
    } else if ClientDrain(s, bo).Ok? {
      ClientCases(s, bo);
      ClientAmount(Decode(s1, bo).rest, bo);
    }
  }

  lemma CommandShape(serial: int, code: int, k: int, t: seq<Byte>, bo: ByteOrder)
    requires IsInt32(serial) && IsInt32(code) && IsInt32(k)
    ensures var m := Command(serial, code);
      MessageOk(m) && TagOf(m) != OX_SYNC_BALL && m.serial == serial && Payload(m, bo) == IntBytes(code, bo)
    ensures |AtBall(k, t, bo)| == 8 + |t|
  {
    hide IntBytes;
  }

  lemma DecodeByTag(s: seq<Byte>, tag: int, u: seq<Byte>, bo: ByteOrder)
    requires ReadInt(s, bo) == Ok(tag, u)
    ensures Decode(s, bo) == DecodeTag(tag, u, bo)
  {
    hide ReadInt, DecodeTag;
  }

  /** With such a code and nothing after the ball the client swallows the ball and runs into the end
      of its input. */
  lemma CommandDerailsClient(k: int, bo: ByteOrder)
    requires IsInt32(k)
    ensures var m := Command(k, INT32);
      ClientDrain(EncodeMessages([m, Ball(k)], bo), bo) == Exit
  {
    var m, b := Command(k, INT32), Ball(k);
    var e, z := EncodeMessage(b, bo), IntBytes(k, bo);
    assert MessageOk(m) && MessageOk(b) && TagOf(m) == OX_COMMAND && Payload(m, bo) == IntBytes(INT32, bo);
    BallBytes(k, bo);
    hide *;
    EncodeTwo(m, b, bo);
    HeaderOnto(m, e, bo);
    IntOnto(INT32, e, bo);
    IntOnto(OX_SYNC_BALL, z, bo);
    var s1 := IntBytes(INT32, bo) + e;
    DecodeInt32(s1, bo, e, OX_SYNC_BALL, z);
    ShortExit(z, bo);
    ClientStepExit(EncodeMessage(m, bo) + e, bo, Header(OX_COMMAND, k), s1, Int32(OX_SYNC_BALL), z);
  }

  lemma BallBytes(k: int, bo: ByteOrder)
    requires IsInt32(k)
    ensures EncodeMessage(Ball(k), bo) == IntBytes(OX_SYNC_BALL, bo) + IntBytes(k, bo)
  {
    hide IntBytes;
  }

  lemma EncodeTwo(m: Message, b: Message, bo: ByteOrder)
    requires MessageOk(m) && MessageOk(b)
    ensures EncodeMessages([m, b], bo) == EncodeMessage(m, bo) + EncodeMessage(b, bo)
  {
    var e := EncodeMessage(b, bo);
    assert [m, b][1..] == [b] && [b][1..] == [];
    assert EncodeMessages([], bo) == [];
    assert EncodeMessages([b], bo) == e + [] == e;
    hide EncodeMessage;
  }

  lemma DecodeInt32(s: seq<Byte>, bo: ByteOrder, e: seq<Byte>, x: int, z: seq<Byte>)
    requires ReadInt(s, bo) == Ok(INT32, e) && ReadInt(e, bo) == Ok(x, z)
    ensures Decode(s, bo) == Ok(Int32(x), z)
  {
    hide ReadInt;
  }

  lemma ShortExit(z: seq<Byte>, bo: ByteOrder)
    requires |z| < 8
    ensures ClientDrain(z, bo) == Exit
  {
    hide BytesInt;
  }

  lemma ClientStepExit(s: seq<Byte>, bo: ByteOrder, h: Header, s1: seq<Byte>, c: Cmo, s2: seq<Byte>)
    requires ReadHeader(s, bo) == Ok(h, s1) && h.tag != OX_SYNC_BALL && Decode(s1, bo) == Ok(c, s2)
    requires ClientDrain(s2, bo) == Exit
    ensures ClientDrain(s, bo) == Exit
  {
    hide ReadHeader, Decode;
  }
}
