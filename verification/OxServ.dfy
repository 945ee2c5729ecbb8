/** The server that defers the reset signal while its input is blocked. */
module OxServ {
  import opened Basics
  import opened Bytes
  import opened CmoCodec
  import opened CmoRoundTrip
  import opened Connection
  import opened OxReceive
  import opened OxReset
  import opened OxSend
  import opened OxStream

  // ---------- what the handler drains ----------

  /** Data carries an object, anything else but the ball one integer. */
  function DrainBody(tag: int, s: seq<Byte>, bo: ByteOrder): (r: Result<Skipped>)
    ensures r.Ok? ==> |r.rest| <= |s|
  {
    if tag == OX_DATA then
      var c := Decode(s, bo);
      if c.Ok? then Ok(Skipped, c.rest) else if c.Exit? then Exit else Outside
    else
      var c := ReadInt(s, bo);
      if c.Ok? then Ok(Skipped, c.rest) else Exit
  }

  function Drain(s: seq<Byte>, bo: ByteOrder): (r: Result<Skipped>)
    ensures r.Ok? ==> |r.rest| <= |s|
    decreases |s|
  {
    var h := ReadHeader(s, bo);
    if !h.Ok? then Exit
    else if h.value.tag == OX_SYNC_BALL then Ok(Skipped, h.rest)
    else
      var b := DrainBody(h.value.tag, h.rest, bo);
      if !b.Ok? then b else Drain(b.rest, bo)
  }

  /** One round of the loop. */
  lemma DrainRound(s: seq<Byte>, bo: ByteOrder)
    ensures var h := ReadHeader(s, bo);
      && (!h.Ok? ==> h.Exit? && !Drain(s, bo).Ok?)
      && (h.Ok? && h.value.tag == OX_SYNC_BALL ==> Drain(s, bo) == Ok(Skipped, h.rest))
      && (h.Ok? && h.value.tag != OX_SYNC_BALL ==>
            var b := DrainBody(h.value.tag, h.rest, bo);
            if b.Ok? then |b.rest| < |s| && Drain(s, bo) == Drain(b.rest, bo) else !Drain(s, bo).Ok?)
  {
    hide ReadHeader, DrainBody;
  }

  lemma DrainBodyOnto(m: Message, t: seq<Byte>, bo: ByteOrder)
    requires MessageOk(m) && !m.Ball?
    ensures DrainBody(TagOf(m), Payload(m, bo) + t, bo) == Ok(Skipped, t)
  {
    OxStream.BodyOnto(m, t, bo);
    hide Payload, Decode, ReadInt;
  }

  lemma DrainStep(s: seq<Byte>, bo: ByteOrder, h: Header, s1: seq<Byte>, s2: seq<Byte>)
    requires ReadHeader(s, bo) == Ok(h, s1) && h.tag != OX_SYNC_BALL && DrainBody(h.tag, s1, bo) == Ok(Skipped, s2)
    ensures Drain(s, bo) == Drain(s2, bo)
  {
    hide ReadHeader, DrainBody;
  }

  lemma DrainAtBall(k: int, t: seq<Byte>, bo: ByteOrder)
    requires IsInt32(k)
    ensures Drain(AtBall(k, t, bo), bo) == Ok(Skipped, t)
  {
    HeaderOnto(Ball(k), t, bo);
    assert [] + t == t;
    hide ReadHeader, EncodeMessage;
  }

  /** Started between two messages, the handler's loop consumes exactly up to the ball. */
  lemma {:induction false} DrainStops(ms: seq<Message>, k: int, t: seq<Byte>, bo: ByteOrder)
    requires AllOk(ms) && NoBall(ms) && IsInt32(k)
    ensures Drain(EncodeMessages(ms, bo) + AtBall(k, t, bo), bo) == Ok(Skipped, t)
  {
    hide *;
    var u := AtBall(k, t, bo);
    NoMessages(bo);
    if ms == [] {
      DrainAtBall(k, t, bo);
      assert [] + u == u;
    } else {
      MessagesUnfold(ms, bo);
      NotBall(ms);
      var m, rest := ms[0], EncodeMessages(ms[1..], bo);
      Assoc(EncodeMessage(m, bo), rest, u);
      HeaderOnto(m, rest + u, bo);
      DrainBodyOnto(m, rest + u, bo);
      DrainStops(ms[1..], k, t, bo);
      DrainStep(EncodeMessage(m, bo) + (rest + u), bo, Header(TagOf(m), m.serial),
                Payload(m, bo) + (rest + u), rest + u);
    }
  }

  lemma NotBall(ms: seq<Message>)
    requires ms != [] && NoBall(ms)
    ensures !ms[0].Ball? && TagOf(ms[0]) != OX_SYNC_BALL
  {
  }

  /** A loop that stops has consumed one header, or at least two headers and a word. */
  lemma {:induction false} DrainAmount(s: seq<Byte>, bo: ByteOrder)
    requires Drain(s, bo).Ok?
    ensures |Drain(s, bo).rest| == |s| - 8 || |Drain(s, bo).rest| <= |s| - 20
    decreases |s|
  {
    DrainCases(s, bo);
    var h := ReadHeader(s, bo);
    if h.Ok? && h.value.tag != OX_SYNC_BALL {
      DrainAmount(DrainBody(h.value.tag, h.rest, bo).rest, bo);
    }
    hide *;
  }

  lemma DrainCases(s: seq<Byte>, bo: ByteOrder)
    requires Drain(s, bo).Ok?
    ensures var h := ReadHeader(s, bo);
      h.Ok? && |h.rest| == |s| - 8
      && (h.value.tag == OX_SYNC_BALL ==> Drain(s, bo).rest == h.rest)
      && (h.value.tag != OX_SYNC_BALL ==>
            var b := DrainBody(h.value.tag, h.rest, bo);
            b.Ok? && |b.rest| <= |h.rest| - 4 && Drain(s, bo) == Drain(b.rest, bo))
  {
    hide ReadHeader, DrainBody;
    var h := ReadHeader(s, bo);
    HeaderAmount(s, bo);
    if h.value.tag != OX_SYNC_BALL {
      DrainBodyAmount(h.value.tag, h.rest, bo);
    }
  }

  lemma DrainBodyAmount(tag: int, s: seq<Byte>, bo: ByteOrder)
    requires DrainBody(tag, s, bo).Ok?
    ensures |DrainBody(tag, s, bo).rest| <= |s| - 4
  {
    hide Decode, ReadInt;
    if tag == OX_DATA {
      DecodeAmount(s, bo);
    }
  }

  /** Every object starts with a tag. */
  lemma DecodeAmount(s: seq<Byte>, bo: ByteOrder)
    requires Decode(s, bo).Ok?
    ensures |Decode(s, bo).rest| <= |s| - 4
  {
    hide DecodeTag;
  }

  /** Input is not blocked while a command is read.  Whatever has been read of the last command
      before the ball when the signal comes, and whatever follows the ball, the loop stops right
      after the ball if and only if nothing or all of that command had been read. */
  lemma SignalInCommandIff(serial: int, code: int, j: nat, k: int, t: seq<Byte>, bo: ByteOrder)
    requires IsInt32(serial) && IsInt32(code) && IsInt32(k)
    requires j <= |EncodeMessage(Command(serial, code), bo)|
    ensures |EncodeMessage(Command(serial, code), bo)| == 12
    ensures Drain(EncodeMessage(Command(serial, code), bo)[j..] + AtBall(k, t, bo), bo) == Ok(Skipped, t)
      <==> j == 0 || j == 12
  {
    hide *;
    WordRange(serial, code);
    var c, u := EncodeMessage(Command(serial, code), bo), AtBall(k, t, bo);
    CommandSize(serial, code, k, t, bo);
    CommandStops(serial, code, k, t, bo);
    assert c[0..] + u == c + u && c[12..] + u == u;
    assert |c[j..] + u| == 12 - j + 8 + |t|;
    if Drain(c[j..] + u, bo) == Ok(Skipped, t) {
      DrainAmount(c[j..] + u, bo);
    }
  }

  lemma WordRange(serial: int, code: int)
    requires IsInt32(serial) && IsInt32(code)
    ensures MessageOk(Command(serial, code))
  {
  }

  lemma CommandSize(serial: int, code: int, k: int, t: seq<Byte>, bo: ByteOrder)
    requires IsInt32(serial) && IsInt32(code) && IsInt32(k)
    ensures |EncodeMessage(Command(serial, code), bo)| == 12 && |AtBall(k, t, bo)| == 8 + |t|
  {
    hide IntBytes;
  }

  /** Before the header and after the code the loop stands between two messages. */
  lemma CommandStops(serial: int, code: int, k: int, t: seq<Byte>, bo: ByteOrder)
    requires IsInt32(serial) && IsInt32(code) && IsInt32(k)
    ensures Drain(EncodeMessage(Command(serial, code), bo) + AtBall(k, t, bo), bo) == Ok(Skipped, t)
    ensures Drain(AtBall(k, t, bo), bo) == Ok(Skipped, t)
  {
    hide *;
    var m := Command(serial, code);
    OneCommand(m, bo);
    DrainAtBall(k, t, bo);
    DrainStops([m], k, t, bo);
  }

  lemma OneCommand(m: Message, bo: ByteOrder)
    requires m.Command? && IsInt32(m.serial) && IsInt32(m.code)
    ensures AllOk([m]) && NoBall([m]) && EncodeMessages([m], bo) == EncodeMessage(m, bo)
    ensures m == Command(m.serial, m.code)
  {
    MessagesUnfold([m], bo);
    NoMessages(bo);
    hide EncodeMessage, EncodeMessages;
    assert [m][1..] == [];
    assert EncodeMessage(m, bo) + [] == EncodeMessage(m, bo);
  }

  /** In particular when the signal comes between the header of the command and its code. */
  lemma SignalInsideMessageMisses(code: int, k: int, t: seq<Byte>, bo: ByteOrder)
    requires IsInt32(code) && IsInt32(k)
    ensures Drain(Payload(Command(0, code), bo) + AtBall(k, t, bo), bo) != Ok(Skipped, t)
  {
    var c := EncodeMessage(Command(0, code), bo);
    SignalInCommandIff(0, code, 8, k, t, bo);
    assert c[8..] == Payload(Command(0, code), bo);
    hide Drain, AtBall;
  }

  // ---------- a signal before the object of a data message ----------

  /** The first word of what is left. */
  function FirstWord(r: seq<Byte>, bo: ByteOrder): int
    requires |r| >= 4
  {
    BytesInt(r[..4], bo)
  }

  /** Three words whose first one is no special tag are a header and its integer to the loop. */
  lemma SkipRound(r: seq<Byte>, u: seq<Byte>, bo: ByteOrder)
    requires |r| >= 12 && FirstWord(r, bo) != OX_DATA && FirstWord(r, bo) != OX_SYNC_BALL
    ensures Drain(r + u, bo) == Drain(r[12..] + u, bo)
  {
    var s := r + u;
    assert s[..4] == r[..4] && s[4..][4..] == s[8..] && s[8..][4..] == s[12..] && s[12..] == r[12..] + u;
    FirstWordRead(s, bo);
    FirstWordRead(s[4..], bo);
    FirstWordRead(s[8..], bo);
    assert FirstWord(s, bo) == FirstWord(r, bo);
    hide *;
    OneRound(s, bo, FirstWord(s, bo), FirstWord(s[4..], bo), s[4..], s[8..], s[12..]);
  }

  lemma FirstWordRead(s: seq<Byte>, bo: ByteOrder)
    requires |s| >= 4
    ensures ReadInt(s, bo) == Ok(FirstWord(s, bo), s[4..])
  {
    hide BytesInt;
  }

  /** No round of the loop through r starts with the tag of data. */
  predicate NoDataTag(r: seq<Byte>, bo: ByteOrder)
    decreases |r|
  {
    |r| < 12
    || (FirstWord(r, bo) != OX_DATA && (FirstWord(r, bo) == OX_SYNC_BALL || NoDataTag(r[12..], bo)))
  }

  /** The rounds of three words use up r, and none starts with the tag of a ball. */
  predicate InStep(r: seq<Byte>, bo: ByteOrder)
    decreases |r|
  {
    r == [] || (|r| >= 12 && FirstWord(r, bo) != OX_SYNC_BALL && InStep(r[12..], bo))
  }

  /** Started at any bytes in front of the ball whose rounds never meet the tag of data, the loop
      stops right after the ball if and only if those bytes are rounds of three words. */
  lemma {:induction false} LeftOverIff(r: seq<Byte>, k: int, t: seq<Byte>, bo: ByteOrder)
    requires IsInt32(k) && NoDataTag(r, bo)
    ensures Drain(r + AtBall(k, t, bo), bo) == Ok(Skipped, t) <==> InStep(r, bo)
    decreases |r|
  {
    CommandSize(0, 0, k, t, bo);
    StepCases(r, bo);
    hide *;
    var u := AtBall(k, t, bo);
    if r == [] {
      DrainAtBall(k, t, bo);
      assert r + u == u;
    } else if |r| >= 12 && FirstWord(r, bo) != OX_SYNC_BALL {
      NoDataCases(r, bo);
      SkipRound(r, u, bo);
      LeftOverIff(r[12..], k, t, bo);
    } else if Drain(r + u, bo) == Ok(Skipped, t) {
      DrainAmount(r + u, bo);
      if |r| >= 12 {
        BallStopsEarly(r, u, bo);
      }
    }
  }

  lemma NoDataCases(r: seq<Byte>, bo: ByteOrder)
    requires NoDataTag(r, bo) && |r| >= 12
    ensures FirstWord(r, bo) != OX_DATA && (FirstWord(r, bo) == OX_SYNC_BALL || NoDataTag(r[12..], bo))
  {
    hide FirstWord;
  }

  lemma StepCases(r: seq<Byte>, bo: ByteOrder)
    ensures r == [] ==> InStep(r, bo)
    ensures 0 < |r| < 12 ==> !InStep(r, bo)
    ensures |r| >= 12 ==> (InStep(r, bo) <==> FirstWord(r, bo) != OX_SYNC_BALL && InStep(r[12..], bo))
  {
    hide FirstWord;
  }

  lemma BallStopsEarly(r: seq<Byte>, u: seq<Byte>, bo: ByteOrder)
    requires |r| >= 12 && FirstWord(r, bo) == OX_SYNC_BALL && Drain(r + u, bo).Ok?
    ensures |Drain(r + u, bo).rest| == |r| + |u| - 8
  {
    var s := r + u;
    assert s[..4] == r[..4];
    DrainCases(s, bo);
    FirstWordRead(s, bo);
    HeaderTag(s, bo);
    hide Drain, DrainBody, ReadInt, ReadHeader;
  }

  lemma HeaderTag(s: seq<Byte>, bo: ByteOrder)
    requires ReadHeader(s, bo).Ok? && ReadInt(s, bo).Ok?
    ensures ReadHeader(s, bo).value.tag == ReadInt(s, bo).value
  {
    hide ReadInt;
  }

  /** No object's tag is one of the two special ones. */
  lemma ObjectTag(c: Cmo, bo: ByteOrder)
    requires Sendable(c)
    ensures |Encode(c, bo)| >= 4
    ensures FirstWord(Encode(c, bo), bo) != OX_DATA && FirstWord(Encode(c, bo), bo) != OX_SYNC_BALL
  {
    EncodeIs(c, bo);
    CodeIsOrdinary(c);
    hide *;
    var h := IntBytes(Code(c), bo);
    assert (h + Body(c, bo))[..4] == h;
    WordIs(h, bo, Code(c), Encode(c, bo));
  }

  lemma CodeIsOrdinary(c: Cmo)
    requires !c.Missing?
    ensures Code(c) != OX_DATA && Code(c) != OX_SYNC_BALL
  {
  }

  lemma WordIs(h: seq<Byte>, bo: ByteOrder, x: int, e: seq<Byte>)
    requires IsInt32(x) && h == IntBytes(x, bo) && |e| >= 4 && e[..4] == h
    ensures FirstWord(e, bo) == x
  {
    IntRoundTrip(x, bo);
    hide IntBytes, BytesInt;
  }

  /** A data message blocks input only after its header.  A signal in between makes the loop take
      the first three words of the object for a header and an integer.  So for an object shorter
      than six words it stops right after the ball if and only if the object has exactly three; and
      for a longer one, as long as no round meets the tag of data, if and only if the object is
      rounds of three words. */
  lemma SignalBeforeDataIff(c: Cmo, k: int, t: seq<Byte>, bo: ByteOrder)
    requires Sendable(c) && IsInt32(k)
    ensures var e, u := Encode(c, bo), AtBall(k, t, bo);
      && (|e| >= 12 ==> Drain(e + u, bo) == Drain(e[12..] + u, bo))
      && (|e| < 24 ==> (Drain(e + u, bo) == Ok(Skipped, t) <==> |e| == 12))
      && (NoDataTag(e, bo) ==> (Drain(e + u, bo) == Ok(Skipped, t) <==> InStep(e, bo)))
  {
    var e, u := Encode(c, bo), AtBall(k, t, bo);
    ObjectTag(c, bo);
    hide *;
    if |e| >= 12 {
      SkipRound(e, u, bo);
    }
    if |e| < 24 {
      ShortInStep(e, bo);
      LeftOverIff(e, k, t, bo);
    }
    if NoDataTag(e, bo) {
      LeftOverIff(e, k, t, bo);
    }
  }

  lemma ShortInStep(e: seq<Byte>, bo: ByteOrder)
    requires 4 <= |e| < 24 && FirstWord(e, bo) != OX_DATA && FirstWord(e, bo) != OX_SYNC_BALL
    ensures NoDataTag(e, bo) && (InStep(e, bo) <==> |e| == 12)
  {
    if |e| >= 12 {
      assert |e[12..]| < 12;
    }
    hide FirstWord;
  }

  /** In particular an object shorter than three words makes the loop miss the ball. */
  lemma SignalBeforeShortDataMisses(c: Cmo, k: int, t: seq<Byte>, bo: ByteOrder)
    requires Sendable(c) && IsInt32(k) && |Encode(c, bo)| < 12
    ensures Drain(Encode(c, bo) + AtBall(k, t, bo), bo) != Ok(Skipped, t)
  {
    SignalBeforeDataIff(c, k, t, bo);
    hide *;
  }

  /** Messages still in front of the ball can bring the loop back into step: here a string of four
      bytes after the command whose code was taken for a tag. */
  lemma BackInStep(code: int, serial: int, w: seq<Byte>, k: int, t: seq<Byte>, bo: ByteOrder)
    requires IsInt32(code) && code != OX_SYNC_BALL && code != OX_DATA && IsInt32(serial) && IsInt32(k)
    requires |w| == 4 && forall i :: 0 <= i < 4 ==> w[i] != 0
    ensures Drain(Payload(Command(0, code), bo) + (EncodeMessage(Data(serial, Str(w)), bo) + AtBall(k, t, bo)), bo)
      == Ok(Skipped, t)
  {
    var u := AtBall(k, t, bo);
    var z := IntBytes(STRING, bo) + (IntBytes(4, bo) + (w + u));
    StringMessage(serial, w, u, bo);
    assert Payload(Command(0, code), bo) == IntBytes(code, bo);
    DrainAtBall(k, t, bo);
    hide *;
    var s := IntBytes(code, bo) + (IntBytes(OX_DATA, bo) + (IntBytes(serial, bo) + z));
    IntOnto(code, IntBytes(OX_DATA, bo) + (IntBytes(serial, bo) + z), bo);
    IntOnto(OX_DATA, IntBytes(serial, bo) + z, bo);
    IntOnto(serial, z, bo);
    OneRound(s, bo, code, OX_DATA, IntBytes(OX_DATA, bo) + (IntBytes(serial, bo) + z), IntBytes(serial, bo) + z, z);
    IntOnto(STRING, IntBytes(4, bo) + (w + u), bo);
    IntOnto(4, w + u, bo);
    AnyWord(w, u, bo);
    OneRound(z, bo, STRING, 4, IntBytes(4, bo) + (w + u), w + u, u);
  }

  lemma StringMessage(serial: int, w: seq<Byte>, u: seq<Byte>, bo: ByteOrder)
    requires IsInt32(serial) && |w| == 4 && forall i :: 0 <= i < 4 ==> w[i] != 0
    ensures MessageOk(Data(serial, Str(w)))
    ensures EncodeMessage(Data(serial, Str(w)), bo) + u
      == IntBytes(OX_DATA, bo) + (IntBytes(serial, bo) + (IntBytes(STRING, bo) + (IntBytes(4, bo) + (w + u))))
  {
    assert Encode(Str(w), bo) == IntBytes(STRING, bo) + (IntBytes(4, bo) + w);
    hide IntBytes;
  }

  lemma AnyWord(w: seq<Byte>, u: seq<Byte>, bo: ByteOrder)
    requires |w| == 4
    ensures ReadInt(w + u, bo).Ok? && ReadInt(w + u, bo).rest == u
  {
    assert (w + u)[4..] == u;
  }

  /** A header that is none of the two special ones, and the word after it. */
  lemma OneRound(s: seq<Byte>, bo: ByteOrder, tag: int, serial: int, s1: seq<Byte>, s2: seq<Byte>, s3: seq<Byte>)
    requires ReadInt(s, bo) == Ok(tag, s1) && ReadInt(s1, bo) == Ok(serial, s2)
    requires ReadInt(s2, bo).Ok? && ReadInt(s2, bo).rest == s3 && tag != OX_SYNC_BALL && tag != OX_DATA
    ensures Drain(s, bo) == Drain(s3, bo)
  {
    assert ReadHeader(s, bo) == Ok(Header(tag, serial), s2);
    DrainStep(s, bo, Header(tag, serial), s2, s3);
    hide ReadInt, Drain, Decode;
  }

  // ---------- deferring the signal ----------

  /** What happens to the counter and the flag. */
  datatype Event = Signal | Block | Unblock

  /** runs counts how often the handler has run. */
  datatype Gate = Gate(cnt: nat, flag: bool, runs: nat)

  /** A signal at depth zero runs the handler at once, a deeper one is noted; leaving the outermost
      block runs a noted one. */
  function Happens(g: Gate, e: Event): Gate
    requires e.Unblock? ==> g.cnt > 0
  {
    match e
    case Signal => if g.cnt > 0 then g.(flag := true) else Gate(0, false, g.runs + 1)
    case Block => g.(cnt := g.cnt + 1)
    case Unblock => if g.cnt == 1 && g.flag then Gate(0, false, g.runs + 1) else g.(cnt := g.cnt - 1)
  }

  /** The depth stays above the floor throughout. */
  predicate Within(es: seq<Event>, depth: int, floor: int) {
    es == [] || (var d := depth + Change(es[0]); d > floor && Within(es[1..], d, floor))
  }

  function Change(e: Event): int {
    match e case Signal => 0 case Block => 1 case Unblock => -1
  }

  function Depth(es: seq<Event>, depth: int): int {
    if es == [] then depth else Depth(es[1..], depth + Change(es[0]))
  }

  function HappenAll(g: Gate, es: seq<Event>): (g': Gate)
    requires Within(es, g.cnt, -1)
    ensures g'.cnt == Depth(es, g.cnt)
    decreases |es|
  {
    if es == [] then g else
      var g' := Happens(g, es[0]);
      assert g'.cnt == g.cnt + Change(es[0]);
      HappenAll(g', es[1..])
  }

  predicate HasSignal(es: seq<Event>) { exists i :: 0 <= i < |es| && es[i].Signal? }

  lemma {:induction false} WithinLower(es: seq<Event>, depth: int, floor: int, lower: int)
    requires Within(es, depth, floor) && lower <= floor
    ensures Within(es, depth, lower)
  {
    if es != [] {
      WithinLower(es[1..], depth + Change(es[0]), floor, lower);
    }
  }

  /** While input stays blocked, at whatever depth, no signal runs the handler; that one came is
      remembered. */
  lemma {:induction false} NothingRunsBlocked(g: Gate, es: seq<Event>)
    requires g.cnt > 0 && Within(es, g.cnt, 0)
    ensures Within(es, g.cnt, -1)
    ensures var g' := HappenAll(g, es);
      g'.runs == g.runs && g'.cnt == Depth(es, g.cnt) && g'.cnt > 0
      && (g'.flag <==> g.flag || HasSignal(es))
    decreases |es|
  {
    WithinLower(es, g.cnt, 0, -1);
    if es != [] {
      NothingRunsBlocked(Happens(g, es[0]), es[1..]);
      assert HasSignal(es) <==> es[0].Signal? || HasSignal(es[1..]) by {
        if HasSignal(es[1..]) {
          var i :| 0 <= i < |es[1..]| && es[1..][i].Signal?;
          assert es[i + 1].Signal?;
        }
        if i :| 0 <= i < |es| && es[i].Signal? && i > 0 {
          assert es[1..][i - 1].Signal?;
        }
      }
    }
  }

  /** A whole blocked stretch, from the outermost block to its end: the handler runs once at the
      end if any signal came, however many did, and not at all otherwise. */
  lemma SignalsMerge(g: Gate, es: seq<Event>)
    requires g.cnt == 0 && !g.flag
    requires Within(es, 1, 0) && Depth(es, 1) == 1
    ensures Within(es, 1, -1)
    ensures var g' := Happens(HappenAll(Happens(g, Block), es), Unblock);
      g' == Gate(0, false, g.runs + if HasSignal(es) then 1 else 0)
  {
    NothingRunsBlocked(Happens(g, Block), es);
    hide HasSignal, Within, Depth;
  }

  /** Outside blocks no signal is left waiting, over any run of events. */
  lemma {:induction false} NoneLeftWaiting(g: Gate, es: seq<Event>)
    requires (g.flag ==> g.cnt > 0) && Within(es, g.cnt, -1)
    ensures var g' := HappenAll(g, es);
      g'.flag ==> g'.cnt > 0
    decreases |es|
  {
    if es != [] {
      NoneLeftWaiting(Happens(g, es[0]), es[1..]);
    }
  }

  // ---------- the server ----------

  /** How a piece of the receive loop ends: normally, by the long jump back to the loop, or with
      the process. */
  datatype Ending = Normal | Jumped | Ended

  class OxServer {
    const fd: OxFile
    var sigusr1cnt: nat
    var sigusr1flag: bool
    var stack: seq<Cmo>
    /** History: how often the handler has run. */
    ghost var runs: nat

    ghost function GateNow(): Gate
      reads this
    {
      Gate(sigusr1cnt, sigusr1flag, runs)
    }

    constructor (f: OxFile)
      ensures fd == f && GateNow() == Gate(0, false, 0) && stack == []
    {
      fd := f;
      sigusr1cnt, sigusr1flag, stack, runs := 0, false, [], 0;
    }

    method BlockInput()
      modifies `sigusr1cnt
      ensures GateNow() == Happens(old(GateNow()), Block)
    {
      sigusr1cnt := sigusr1cnt + 1;
    }

    /** The state after the handler: its ball is sent, the stack is empty, the input goes on after
        the client's ball. */
    twostate predicate HandlerRan(ending: Ending, bo: ByteOrder)
      reads this, fd, fd.Buffer()
    {
      && old(fd.Valid()) && fd.Ready(bo)
      && fd.Sent() == old(fd.Sent()) + EncodeMessage(Ball(old(fd.serialNumber)), bo)
      && stack == []
      && var d := Drain(old(fd.input), bo);
        (d.Ok? ==> ending.Jumped? && fd.input == d.rest)
        && (!d.Ok? ==> ending.Ended?)
    }

    /** The handler, called by the signal or by the end of the outermost block. */
    method ResetConnection(ghost bo: ByteOrder) returns (ending: Ending)
      requires fd.Ready(bo)
      modifies this, fd`input, fd`receivedSerialNumber, fd`wire, fd`wbufCount, fd`serialNumber, fd.Buffer()
      ensures fd.Ready(bo)
      ensures GateNow() == Happens(old(GateNow()), Signal)
      ensures old(sigusr1cnt) > 0 ==>
        ending.Normal? && stack == old(stack) && fd.input == old(fd.input)
        && fd.Sent() == old(fd.Sent()) && fd.serialNumber == old(fd.serialNumber)
      ensures old(sigusr1cnt) == 0 ==> HandlerRan(ending, bo)
    {
      hide EncodeMessage, Drain, IntBytes;
      if sigusr1cnt > 0 {
        sigusr1flag := true;
        return Normal;
      }
      sigusr1flag := false;
      runs := runs + 1;
      SendBall(fd);
      stack := [];
      ending := DrainToBall(bo);
    }

    method DrainToBall(ghost bo: ByteOrder) returns (ending: Ending)
      requires fd.Ready(bo)
      modifies fd`input, fd`receivedSerialNumber
      ensures fd.Ready(bo)
      ensures var d := Drain(old(fd.input), bo);
        (d.Ok? ==> ending.Jumped? && fd.input == d.rest) && (!d.Ok? ==> ending.Ended?)
    {
      hide Drain, DrainBody, ReadHeader, Decode, ReadInt;
      ghost var d := Drain(fd.input, bo);
      while true
        invariant fd.Ready(bo) && Drain(fd.input, bo) == d
        decreases |fd.input|
      {
        DrainRound(fd.input, bo);
        var tag := ReceiveOxTag(fd, bo);
        if !tag.Got? {
          return Ended;
        }
        if tag.value == OX_SYNC_BALL {
          return Jumped;
        }
        var more := SkipOne(tag.value, bo);
        if !more {
          return Ended;
        }
      }
    }

    /** What follows the header of a message that is no ball. */
    method SkipOne(tag: int, ghost bo: ByteOrder) returns (more: bool)
      requires fd.Ready(bo)
      modifies fd`input
      ensures fd.Ready(bo)
      ensures var b := DrainBody(tag, old(fd.input), bo);
        (more <==> b.Ok?) && (more ==> fd.input == b.rest)
    {
      hide Decode, ReadInt;
      if tag == OX_DATA {
        var c := ReceiveCmo(fd, bo);
        more := c.Got?;
      } else {
        var i := fd.ReceiveInt32();
        more := i.Got?;
      }
    }

    method UnblockInput(ghost bo: ByteOrder) returns (ending: Ending)
      requires fd.Ready(bo) && sigusr1cnt > 0
      modifies this, fd`input, fd`receivedSerialNumber, fd`wire, fd`wbufCount, fd`serialNumber, fd.Buffer()
      ensures fd.Ready(bo)
      ensures GateNow() == Happens(old(GateNow()), Unblock)
      ensures old(sigusr1cnt == 1 && sigusr1flag) ==> HandlerRan(ending, bo)
      ensures !old(sigusr1cnt == 1 && sigusr1flag) ==>
        ending.Normal? && stack == old(stack) && fd.input == old(fd.input)
        && fd.Sent() == old(fd.Sent()) && fd.serialNumber == old(fd.serialNumber)
    {
      sigusr1cnt := sigusr1cnt - 1;
      if sigusr1cnt == 0 && sigusr1flag {
        ending := ResetConnection(bo);
      } else {
        ending := Normal;
      }
    }

    /** The body of a data message, with some signals raised while the object is read: without any
        the object is pushed; with any it is dropped, the handler runs once the object is complete,
        and the loop goes on with an empty stack after the client's ball. */
    method ReceiveData(ghost bo: ByteOrder, signals: nat) returns (ending: Ending)
      requires fd.Ready(bo) && sigusr1cnt == 0 && !sigusr1flag
      modifies this, fd`input, fd`receivedSerialNumber, fd`wire, fd`wbufCount, fd`serialNumber, fd.Buffer()
      ensures fd.Ready(bo) && (!ending.Ended? ==> sigusr1cnt == 0 && !sigusr1flag)
      ensures var d := Decode(old(fd.input), bo);
        (!d.Ok? ==> ending.Ended?)
        && (d.Ok? && signals == 0 ==>
              ending.Normal? && stack == old(stack) + [d.value] && fd.input == d.rest && runs == old(runs))
        && (d.Ok? && signals > 0 ==>
              var u := Drain(d.rest, bo);
              stack == [] && runs == old(runs) + 1
              && fd.Sent() == old(fd.Sent()) + EncodeMessage(Ball(old(fd.serialNumber)), bo)
              && (u.Ok? ==> ending.Jumped? && fd.input == u.rest) && (!u.Ok? ==> ending.Ended?))
    {
      hide Decode, Drain, EncodeMessage;
      BlockInput();
      for k := 0 to signals
        invariant fd.Ready(bo) && fd.input == old(fd.input) && fd.Sent() == old(fd.Sent())
        invariant fd.serialNumber == old(fd.serialNumber)
        invariant stack == old(stack) && sigusr1cnt == 1 && runs == old(runs) && (sigusr1flag <==> k > 0)
      {
        ending := ResetConnection(bo);
      }
      var c := ReceiveCmo(fd, bo);
      if !c.Got? {
        return Ended;
      }
      ending := UnblockInput(bo);
      if ending.Normal? {
        stack := stack + [c.value];
      }
    }
  }
}
