/** The reset handshake between an OX client (ox_reset in ox.c) and a draining server
    (serv1.c), as a state machine over two FIFO channels and one asynchronous signal.
    Epoch k is the time between the client's k-th reset and the next one. */
module ResetProtocol {

  /** What travels on a data channel. A data packet carries the epoch of the client message
      that caused it; a ball carries the number of the reset it belongs to. */
  datatype Packet = Data(epoch: nat, payload: int) | Ball(no: nat)

  datatype Client = Normal | Resetting

  /** Waiting: in select, signal unmasked. Busy: inside sm_receive_ox, the engine may run with
      the signal unmasked. Checking: signal masked, about to test the interrupt flag.
      Draining: in exchange_ox_sync_ball. */
  datatype Server = Waiting | Busy(epoch: nat, unmasked: bool) | Checking | Draining

  datatype Fate = Processed | Dropped(reset: nat)
  datatype Entry = Entry(packet: Packet, fate: Fate)
  datatype Taken = Taken(origin: nat, payload: int, at: nat)

  datatype State = State(
    client: Client,
    epoch: nat,              // resets completed by the client
    server: Server,
    balls: nat,              // balls sent by the server
    c2s: seq<Packet>,
    s2c: seq<Packet>,
    command: bool,           // reset command on its way through the control connection
    pending: bool,           // signal raised, not yet delivered
    flag: bool,              // interrupt flag of the server
    sent: seq<Packet>,       // history: data packets the client sent
    log: seq<Entry>,         // history: what the server did with each of them
    taken: seq<Taken>,       // history: replies the client accepted as results
    answers: seq<Entry>,     // history: what the client did with each reply
    misread: bool)           // history: a ball was read where none is expected

  datatype Step =
    | ClientSend(payload: int)
    | ClientTake
    | ClientStartReset
    | ClientSkip
    | ClientFinish
    | CommandArrives
    | SignalDelivered
    | ServerReceive
    | ServerReply(payload: int)
    | ServerMask(unmask: bool)
    | ServerDone
    | ServerWake
    | ServerCheck
    | ServerDrain

  function Start(): State {
    State(Normal, 0, Waiting, 0, [], [], false, false, false, [], [], [], [], false)
  }

  predicate Enabled(s: State, t: Step) {
    match t
    case ClientSend(_) => s.client.Normal?
    case ClientTake => s.client.Normal? && s.s2c != []
    case ClientStartReset => s.client.Normal?
    case ClientSkip => s.client.Resetting? && s.s2c != [] && s.s2c[0].Data?
    case ClientFinish => s.client.Resetting? && s.s2c != [] && s.s2c[0].Ball?
    case CommandArrives => s.command
    case SignalDelivered => s.pending && (s.server.Waiting? || (s.server.Busy? && s.server.unmasked))
    case ServerReceive => s.server.Waiting? && s.c2s != []
    case ServerReply(_) => s.server.Busy?
    case ServerMask(_) => s.server.Busy?
    case ServerDone => s.server.Busy? && !s.server.unmasked
    case ServerWake => s.server.Waiting?
    case ServerCheck => s.server.Checking?
    case ServerDrain => s.server.Draining? && s.c2s != []
  }

  function Apply(s: State, t: Step): State
    requires Enabled(s, t)
  {
    match t
    case ClientSend(v) =>
      s.(c2s := s.c2s + [Data(s.epoch, v)], sent := s.sent + [Data(s.epoch, v)])
    case ClientTake =>
      if s.s2c[0].Data? then
        s.(s2c := s.s2c[1..], taken := s.taken + [Taken(s.s2c[0].epoch, s.s2c[0].payload, s.epoch)],
           answers := s.answers + [Entry(s.s2c[0], Processed)])
      else s.(s2c := s.s2c[1..], misread := true)
    case ClientStartReset =>
      s.(client := Resetting, command := true)
    case ClientSkip =>
      s.(s2c := s.s2c[1..], answers := s.answers + [Entry(s.s2c[0], Dropped(s.epoch + 1))])
    case ClientFinish =>
      s.(client := Normal, epoch := s.epoch + 1, s2c := s.s2c[1..], c2s := s.c2s + [Ball(s.epoch + 1)],
         misread := s.misread || s.s2c[0].no != s.epoch + 1)
    case CommandArrives =>
      s.(command := false, pending := true)
    case SignalDelivered =>
      s.(pending := false, flag := true)
    case ServerReceive =>
      if s.c2s[0].Data? then
        s.(server := Busy(s.c2s[0].epoch, false), c2s := s.c2s[1..], log := s.log + [Entry(s.c2s[0], Processed)])
      else s.(server := Checking, c2s := s.c2s[1..], misread := true)
    case ServerReply(v) =>
      s.(s2c := s.s2c + [Data(s.server.epoch, v)])
    case ServerMask(u) =>
      s.(server := Busy(s.server.epoch, u))
    case ServerDone =>
      s.(server := Checking)
    case ServerWake =>
      s.(server := Checking)
    case ServerCheck =>
      if s.flag then s.(server := Draining, balls := s.balls + 1, s2c := s.s2c + [Ball(s.balls + 1)])
      else s.(server := Waiting)
    case ServerDrain =>
      if s.c2s[0].Data? then
        s.(c2s := s.c2s[1..], log := s.log + [Entry(s.c2s[0], Dropped(s.balls))])
      else
        s.(server := Waiting, flag := false, c2s := s.c2s[1..], misread := s.misread || s.c2s[0].no != s.balls)
  }

  /** A run is a sequence of steps, each enabled where it is taken. */
  predicate CanRun(s: State, run: seq<Step>)
    decreases |run|
  {
    run == [] || (Enabled(s, run[0]) && CanRun(Apply(s, run[0]), run[1..]))
  }

  function After(s: State, run: seq<Step>): State
    requires CanRun(s, run)
    decreases |run|
  {
    if run == [] then s else After(Apply(s, run[0]), run[1..])
  }

  // ---------- the phases of a run ----------

  ghost predicate AllData(q: seq<Packet>, e: nat) {
    forall i :: 0 <= i < |q| ==> q[i].Data? && q[i].epoch == e
  }

  /** Old messages, then the client's ball for reset e, then messages of epoch e. */
  ghost predicate BallInside(q: seq<Packet>, k: nat, e: nat) {
    && e > 0 && k < |q| && q[k] == Ball(e)
    && AllData(q[..k], e - 1) && AllData(q[k + 1..], e)
  }

  ghost predicate ServerInEpoch(s: State) {
    !s.server.Draining? && (s.server.Busy? ==> s.server.epoch == s.epoch)
  }

  /** No reset in progress. */
  ghost predicate Idle(s: State) {
    && s.client.Normal? && s.balls == s.epoch && ServerInEpoch(s)
    && AllData(s.c2s, s.epoch) && AllData(s.s2c, s.epoch)
    && !s.command && !s.pending && !s.flag
  }

  /** Reset requested, the server has not answered yet. */
  ghost predicate Requested(s: State) {
    && s.client.Resetting? && s.balls == s.epoch && ServerInEpoch(s)
    && AllData(s.c2s, s.epoch) && AllData(s.s2c, s.epoch)
    && OneSignal(s.command, s.pending, s.flag)
  }

  predicate OneSignal(a: bool, b: bool, c: bool) {
    (a && !b && !c) || (!a && b && !c) || (!a && !b && c)
  }

  /** The server has sent its ball and waits for the client's. */
  ghost predicate Answered(s: State) {
    && s.client.Resetting? && s.balls == s.epoch + 1 && s.server.Draining?
    && AllData(s.c2s, s.epoch)
    && s.s2c != [] && s.s2c[|s.s2c| - 1] == Ball(s.epoch + 1) && AllData(s.s2c[..|s.s2c| - 1], s.epoch)
    && !s.command && !s.pending && s.flag
  }

  /** The client has sent its ball, the server has not reached it; the client may already
      have asked for the next reset. */
  ghost predicate Closing(s: State) {
    && s.balls == s.epoch && s.server.Draining? && s.s2c == []
    && (exists k: nat :: BallInside(s.c2s, k, s.epoch))
    && s.flag && (if s.client.Normal? then !s.command && !s.pending else OneSignal(s.command, s.pending, false))
  }

  ghost predicate Phase(s: State) {
    Idle(s) || Requested(s) || Answered(s) || Closing(s)
  }

  // ---------- histories ----------

  function DataOf(q: seq<Packet>): seq<Packet> {
    if q == [] then [] else (if q[0].Data? then [q[0]] else []) + DataOf(q[1..])
  }

  function Packets(log: seq<Entry>): (q: seq<Packet>)
    ensures |q| == |log| && forall i :: 0 <= i < |log| ==> q[i] == log[i].packet
  {
    seq(|log|, i requires 0 <= i < |log| => log[i].packet)
  }

  /** Nothing is lost, duplicated or reordered on the way to the server. */
  ghost predicate Conserved(s: State) {
    Packets(s.log) + DataOf(s.c2s) == s.sent
  }

  /** A packet dropped in reset r was sent in the epoch that reset r ended; what was processed
      in an epoch precedes what was dropped from it. */
  ghost predicate FatesOrdered(s: State) {
    && (forall i :: 0 <= i < |s.log| ==>
          s.log[i].packet.Data? && s.log[i].packet.epoch + (if s.server.Draining? then 1 else 0) <= s.balls)
    && (forall i :: 0 <= i < |s.log| && s.log[i].fate.Dropped? ==>
          s.log[i].packet.epoch + 1 == s.log[i].fate.reset <= s.balls)
    && (forall i, j :: 0 <= i < j < |s.log| ==> s.log[i].packet.epoch <= s.log[j].packet.epoch)
    && (forall i, j :: (0 <= i < j < |s.log| && s.log[i].packet.epoch == s.log[j].packet.epoch
                        && s.log[i].fate.Dropped?) ==> s.log[j].fate.Dropped?)
  }

  /** Every reply accepted as a result answers a message of the same epoch. */
  ghost predicate RepliesFresh(s: State) {
    forall i :: 0 <= i < |s.taken| ==> s.taken[i].origin == s.taken[i].at
  }

  /** A reply skipped in reset r came in the epoch that reset r ends; what was accepted in an epoch
      precedes what was skipped from it. */
  ghost predicate AnswersOrdered(s: State) {
    && (forall i :: 0 <= i < |s.answers| ==> s.answers[i].packet.Data? && s.answers[i].packet.epoch <= s.epoch)
    && (forall i :: 0 <= i < |s.answers| && s.answers[i].fate.Dropped? ==>
          s.answers[i].packet.epoch + 1 == s.answers[i].fate.reset
          && (s.answers[i].packet.epoch == s.epoch ==> s.client.Resetting?))
    && (forall i, j :: 0 <= i < j < |s.answers| ==> s.answers[i].packet.epoch <= s.answers[j].packet.epoch)
    && (forall i, j :: (0 <= i < j < |s.answers| && s.answers[i].packet.epoch == s.answers[j].packet.epoch
                        && s.answers[i].fate.Dropped?) ==> s.answers[j].fate.Dropped?)
  }

  ghost predicate Inv(s: State) {
    Phase(s) && Conserved(s) && FatesOrdered(s) && RepliesFresh(s) && AnswersOrdered(s) && !s.misread
  }

  // ---------- every step keeps the invariant ----------

  lemma AllDataSnoc(q: seq<Packet>, e: nat, v: int)
    requires AllData(q, e)
    ensures AllData(q + [Data(e, v)], e)
  {
  }

  lemma AllDataTail(q: seq<Packet>, e: nat)
    requires AllData(q, e) && q != []
    ensures AllData(q[1..], e) && q[0].Data? && q[0].epoch == e
  {
  }

  /** A client message joins the part after the ball. */
  lemma BallInsideSnoc(q: seq<Packet>, k: nat, e: nat, v: int)
    requires BallInside(q, k, e)
    ensures BallInside(q + [Data(e, v)], k, e)
  {
    var q' := q + [Data(e, v)];
    assert q'[..k] == q[..k];
    assert q'[k + 1..] == q[k + 1..] + [Data(e, v)];
  }

  lemma BallInsideTail(q: seq<Packet>, k: nat, e: nat)
    requires BallInside(q, k, e)
    ensures q != [] && (k == 0 ==> q[0] == Ball(e) && AllData(q[1..], e))
    ensures k > 0 ==> q[0].Data? && q[0].epoch == e - 1 && BallInside(q[1..], k - 1, e)
  {
    if k > 0 {
      assert q[1..][..k - 1] == q[..k][1..];
      assert q[1..][k..] == q[k + 1..];
      assert q[..k][0] == q[0];
    }
  }

  lemma BallInsideNew(q: seq<Packet>, e: nat)
    requires AllData(q, e)
    ensures BallInside(q + [Ball(e + 1)], |q|, e + 1)
  {
    var q' := q + [Ball(e + 1)];
    assert q'[..|q|] == q && q'[|q| + 1..] == [];
  }

  lemma IdleStep(s: State, t: Step)
    requires Idle(s) && Enabled(s, t)
    ensures Idle(Apply(s, t)) || Requested(Apply(s, t))
    ensures Apply(s, t).misread == s.misread
  {
    hide AllData, DataOf, BallInside;
    match t
    case ClientSend(v) => AllDataSnoc(s.c2s, s.epoch, v);
    case ClientTake => AllDataTail(s.s2c, s.epoch);
    case ServerReceive => AllDataTail(s.c2s, s.epoch);
    case ServerReply(v) => AllDataSnoc(s.s2c, s.epoch, v);
    case _ =>
  }

  lemma RequestedStep(s: State, t: Step)
    requires Requested(s) && Enabled(s, t)
    ensures Requested(Apply(s, t)) || Answered(Apply(s, t))
    ensures Apply(s, t).misread == s.misread
  {
    hide AllData, DataOf, BallInside;
    match t
    case ClientSkip => AllDataTail(s.s2c, s.epoch);
    case ClientFinish => AllDataTail(s.s2c, s.epoch);
    case ServerReceive => AllDataTail(s.c2s, s.epoch);
    case ServerReply(v) => AllDataSnoc(s.s2c, s.epoch, v);
    case ServerCheck =>
      var q := s.s2c + [Ball(s.epoch + 1)];
      assert q[..|q| - 1] == s.s2c;
    case _ =>
  }

  /** The first ball the client meets is the server's answer. */
  lemma LastIsBall(s: State)
    requires Answered(s) && s.s2c[0].Ball?
    ensures s.s2c == [Ball(s.epoch + 1)]
  {
    var q := s.s2c[..|s.s2c| - 1];
    assert s.s2c == q + [Ball(s.epoch + 1)];
  }

  lemma AnsweredStep(s: State, t: Step)
    requires Answered(s) && Enabled(s, t)
    ensures Answered(Apply(s, t)) || Closing(Apply(s, t))
    ensures Apply(s, t).misread == s.misread
  {
    hide AllData, DataOf, BallInside;
    var q := s.s2c[..|s.s2c| - 1];
    match t
    case ClientSkip =>
      assert |s.s2c| > 1;
      AllDataTail(q, s.epoch);
      assert q[1..] == s.s2c[1..][..|s.s2c| - 2];
    case ClientFinish =>
      LastIsBall(s);
      BallInsideNew(s.c2s, s.epoch);
    case ServerDrain => AllDataTail(s.c2s, s.epoch);
    case _ =>
  }

  lemma ClosingStep(s: State, t: Step)
    requires Closing(s) && Enabled(s, t)
    ensures Closing(Apply(s, t)) || Idle(Apply(s, t)) || Requested(Apply(s, t))
    ensures Apply(s, t).misread == s.misread
  {
    hide AllData, DataOf, BallInside;
    var k: nat :| BallInside(s.c2s, k, s.epoch);
    match t
    case ClientSend(v) => BallInsideSnoc(s.c2s, k, s.epoch, v);
    case ServerDrain =>
      BallInsideTail(s.c2s, k, s.epoch);
      EmptyData(s.epoch);
    case _ =>
  }

  lemma EmptyData(e: nat)
    ensures AllData([], e)
  {
  }

  lemma PhaseStep(s: State, t: Step)
    requires Phase(s) && Enabled(s, t)
    ensures Phase(Apply(s, t)) && Apply(s, t).misread == s.misread
  {
    hide Idle, Requested, Answered, Closing, Apply, Enabled;
    if Idle(s) {
      IdleStep(s, t);
    } else if Requested(s) {
      RequestedStep(s, t);
    } else if Answered(s) {
      AnsweredStep(s, t);
    } else {
      ClosingStep(s, t);
    }
  }

  lemma {:induction false} DataOfSnoc(q: seq<Packet>, d: Packet)
    ensures DataOf(q + [d]) == DataOf(q) + if d.Data? then [d] else []
  {
    if q == [] {
      assert q + [d] == [d];
    } else {
      DataOfSnoc(q[1..], d);
      assert (q + [d])[1..] == q[1..] + [d];
    }
  }

  lemma ConservedStep(s: State, t: Step)
    requires Conserved(s) && Enabled(s, t)
    ensures Conserved(Apply(s, t))
  {
    var s' := Apply(s, t);
    match t
    case ClientSend(v) =>
      DataOfSnoc(s.c2s, Data(s.epoch, v));
      assert (Packets(s.log) + DataOf(s.c2s)) + [Data(s.epoch, v)]
          == Packets(s.log) + (DataOf(s.c2s) + [Data(s.epoch, v)]);
    case ClientFinish =>
      DataOfSnoc(s.c2s, Ball(s.epoch + 1));
    case ServerReceive =>
      if s.c2s[0].Data? { LogSnoc(s.log, Entry(s.c2s[0], Processed)); }
      LogHead(s, s');
    case ServerDrain =>
      if s.c2s[0].Data? { LogSnoc(s.log, Entry(s.c2s[0], Dropped(s.balls))); }
      LogHead(s, s');
    case _ =>
  }

  lemma LogHead(s: State, s': State)
    requires Conserved(s) && s.c2s != [] && s'.c2s == s.c2s[1..] && s'.sent == s.sent
    requires if s.c2s[0].Data? then Packets(s'.log) == Packets(s.log) + [s.c2s[0]] else s'.log == s.log
    ensures Conserved(s')
  {
    var rest := DataOf(s.c2s[1..]);
    if s.c2s[0].Data? {
      assert (Packets(s.log) + [s.c2s[0]]) + rest == Packets(s.log) + ([s.c2s[0]] + rest);
    } else {
      assert [] + rest == rest;
    }
  }

  // What a server step appends to the log.

  lemma LogSnoc(log: seq<Entry>, e: Entry)
    ensures Packets(log + [e]) == Packets(log) + [e.packet]
  {
  }

  /** The next packet belongs to the epoch the server is in. */
  lemma NextEpoch(s: State)
    requires Phase(s) && s.c2s != [] && s.c2s[0].Data?
    ensures s.c2s[0].epoch + (if s.server.Draining? then 1 else 0) == s.balls
  {
    if Closing(s) {
      var k: nat :| BallInside(s.c2s, k, s.epoch);
      BallInsideTail(s.c2s, k, s.epoch);
    }
  }

  lemma FatesStep(s: State, t: Step)
    requires Phase(s) && FatesOrdered(s) && Enabled(s, t)
    ensures FatesOrdered(Apply(s, t))
  {
    hide Phase, DataOf, FatesOrdered;
    var s' := Apply(s, t);
    if t.ServerReceive? && s.c2s[0].Data? {
      NextEpoch(s);
      FatesAppend(s, Entry(s.c2s[0], Processed), s');
    } else if t.ServerDrain? && s.c2s[0].Data? {
      NextEpoch(s);
      FatesAppend(s, Entry(s.c2s[0], Dropped(s.balls)), s');
    } else {
      FatesSame(s, s');
    }
  }

  lemma FatesSame(s: State, s': State)
    requires FatesOrdered(s) && s'.log == s.log && s'.balls >= s.balls
    requires s'.server.Draining? && !s.server.Draining? ==> s'.balls > s.balls
    ensures FatesOrdered(s')
  {
  }

  lemma FatesAppend(s: State, e: Entry, s': State)
    requires FatesOrdered(s) && s'.log == s.log + [e] && s'.balls == s.balls
    requires s'.server.Draining? <==> s.server.Draining?
    requires e.packet.Data? && e.packet.epoch + (if s.server.Draining? then 1 else 0) == s.balls
    requires e.fate == if s.server.Draining? then Dropped(s.balls) else Processed
    ensures FatesOrdered(s')
  {
    var n := |s.log|;
    assert s'.log[n] == e && forall i :: 0 <= i < n ==> s'.log[i] == s.log[i];
    forall i, j | 0 <= i < j < |s'.log|
      ensures s'.log[i].packet.epoch <= s'.log[j].packet.epoch
    {
    }
  }

  lemma RepliesStep(s: State, t: Step)
    requires Phase(s) && RepliesFresh(s) && Enabled(s, t)
    ensures RepliesFresh(Apply(s, t))
  {
    if t.ClientTake? {
      if Idle(s) {
        AllDataTail(s.s2c, s.epoch);
      }
    }
  }

  /** The next reply belongs to the client's epoch. */
  lemma NextReply(s: State)
    requires Phase(s) && s.s2c != [] && s.s2c[0].Data?
    ensures s.s2c[0].epoch == s.epoch
  {
    if Answered(s) {
      assert s.s2c[..|s.s2c| - 1] != [] ==> s.s2c[0] == s.s2c[..|s.s2c| - 1][0];
    }
  }

  lemma AnswersStep(s: State, t: Step)
    requires Phase(s) && AnswersOrdered(s) && Enabled(s, t)
    ensures AnswersOrdered(Apply(s, t))
  {
    hide Phase, DataOf, AnswersOrdered;
    var s' := Apply(s, t);
    if t.ClientTake? && s.s2c[0].Data? {
      NextReply(s);
      AnswersAppend(s, Entry(s.s2c[0], Processed), s');
    } else if t.ClientSkip? {
      NextReply(s);
      AnswersAppend(s, Entry(s.s2c[0], Dropped(s.epoch + 1)), s');
    } else {
      AnswersSame(s, s');
    }
  }

  lemma AnswersSame(s: State, s': State)
    requires AnswersOrdered(s) && s'.answers == s.answers && s'.epoch >= s.epoch
    requires s'.epoch == s.epoch && s.client.Resetting? ==> s'.client.Resetting?
    ensures AnswersOrdered(s')
  {
  }

  lemma AnswersAppend(s: State, e: Entry, s': State)
    requires AnswersOrdered(s) && s'.answers == s.answers + [e] && s'.epoch == s.epoch && s'.client == s.client
    requires e.packet.Data? && e.packet.epoch == s.epoch
    requires e.fate == if s.client.Resetting? then Dropped(s.epoch + 1) else Processed
    ensures AnswersOrdered(s')
  {
    var n := |s.answers|;
    assert s'.answers[n] == e && forall i :: 0 <= i < n ==> s'.answers[i] == s.answers[i];
  }

  lemma InvStep(s: State, t: Step)
    requires Inv(s) && Enabled(s, t)
    ensures Inv(Apply(s, t))
  {
    hide *;
    InvParts(s);
    PhaseStep(s, t);
    ConservedStep(s, t);
    FatesStep(s, t);
    RepliesStep(s, t);
    AnswersStep(s, t);
    InvParts(Apply(s, t));
  }

  lemma InvParts(s: State)
    ensures Inv(s) <==>
      Phase(s) && Conserved(s) && FatesOrdered(s) && RepliesFresh(s) && AnswersOrdered(s) && !s.misread
  {
  }

  // ---------- safety over whole runs ----------

  lemma StartInv()
    ensures Inv(Start())
  {
  }

  /** Every run from a state that satisfies the invariant ends in one that does. */
  lemma {:induction false} RunKeeps(s: State, run: seq<Step>)
    requires Inv(s) && CanRun(s, run)
    ensures Inv(After(s, run))
    decreases |run|
  {
    if run != [] {
      InvStep(s, run[0]);
      RunKeeps(Apply(s, run[0]), run[1..]);
    }
    hide Inv, Enabled, Apply;
  }

  /** Every state reached by any run satisfies the invariant. */
  lemma RunSafe(run: seq<Step>)
    requires CanRun(Start(), run)
    ensures Inv(After(Start(), run))
  {
    StartInv();
    RunKeeps(Start(), run);
    hide *;
  }

  /** Histories only grow; what is added later belongs to the current epoch or a later one. */
  ghost predicate Grows(s: State, s': State) {
    && s.epoch <= s'.epoch && |s.sent| <= |s'.sent| && |s.taken| <= |s'.taken|
    && s'.sent[..|s.sent|] == s.sent && s'.taken[..|s.taken|] == s.taken
    && (forall k :: |s.sent| <= k < |s'.sent| ==> s'.sent[k].Data? && s'.sent[k].epoch >= s.epoch)
    && (forall k :: |s.taken| <= k < |s'.taken| ==> s'.taken[k].at >= s.epoch)
  }

  lemma GrowsStep(s: State, s': State, t: Step)
    requires Enabled(s', t) && Grows(s, s')
    ensures Grows(s, Apply(s', t))
  {
    hide Grows, DataOf;
    var u := Apply(s', t);
    match t
    case ClientSend(v) => GrowsMore(s, s', u);
    case ClientTake => GrowsMore(s, s', u);
    case _ => GrowsMore(s, s', u);
  }

  lemma GrowsMore(s: State, s': State, u: State)
    requires Grows(s, s') && s'.epoch <= u.epoch
    requires u.sent == s'.sent || (exists d: Packet :: d.Data? && d.epoch == s'.epoch && u.sent == s'.sent + [d])
    requires u.taken == s'.taken || (exists k: Taken :: k.at == s'.epoch && u.taken == s'.taken + [k])
    ensures Grows(s, u)
  {
  }

  lemma GrowsRefl(s: State)
    ensures Grows(s, s)
  {
  }

  lemma {:induction false} GrowsAlong(s: State, s': State, run: seq<Step>)
    requires Grows(s, s') && CanRun(s', run)
    ensures Grows(s, After(s', run))
    decreases |run|
  {
    if run != [] {
      GrowsStep(s, s', run[0]);
      GrowsAlong(s, Apply(s', run[0]), run[1..]);
    }
    hide Grows, Enabled, Apply;
  }

  /** A state of a run and a later one. */
  lemma LaterState(before: seq<Step>, later: seq<Step>)
    requires CanRun(Start(), before) && CanRun(After(Start(), before), later)
    ensures var s := After(Start(), before);
      Inv(After(s, later)) && Grows(s, After(s, later))
  {
    var s := After(Start(), before);
    RunSafe(before);
    RunKeeps(s, later);
    GrowsRefl(s);
    GrowsAlong(s, s, later);
    hide *;
  }

  /** A message sent after the client's r-th reset is never dropped by reset r or an earlier one. */
  lemma LaterMessagesSurvive(before: seq<Step>, later: seq<Step>, k: nat)
    requires CanRun(Start(), before) && CanRun(After(Start(), before), later)
    ensures var s := After(Start(), before);
      var s' := After(s, later);
      |s.sent| <= k < |s'.log| ==>
        k < |s'.sent| && s'.log[k].packet == s'.sent[k]
        && (s'.log[k].fate.Dropped? ==> s'.log[k].fate.reset > s.epoch)
  {
    LaterState(before, later);
    var s := After(Start(), before);
    var s' := After(s, later);
    if |s.sent| <= k < |s'.log| {
      LogIsPrefix(s', k);
    }
    hide Enabled, Apply, CanRun, After, Phase;
  }

  lemma LogIsPrefix(s: State, k: nat)
    requires Conserved(s) && k < |s.log|
    ensures k < |s.sent| && s.log[k].packet == s.sent[k]
  {
  }

  /** A result accepted after the r-th reset answers a message sent after that reset. */
  lemma NoStaleResult(before: seq<Step>, later: seq<Step>, k: nat)
    requires CanRun(Start(), before) && CanRun(After(Start(), before), later)
    ensures var s := After(Start(), before);
      var s' := After(s, later);
      |s.taken| <= k < |s'.taken| ==> s'.taken[k].origin >= s.epoch
  {
    LaterState(before, later);
    hide Enabled, Apply, CanRun, After, Phase;
  }

  /** Messages of the client's current epoch are processed, never dropped, until it resets again. */
  lemma CurrentEpochProcessed(run: seq<Step>, k: nat)
    requires CanRun(Start(), run)
    ensures var s := After(Start(), run);
      k < |s.log| && s.client.Normal? && s.log[k].packet.Data? && s.log[k].packet.epoch == s.epoch ==>
        s.log[k].fate.Processed?
  {
    RunSafe(run);
    hide Enabled, Apply, CanRun, After;
  }

  /** Signals do not merge or get lost: the server has answered every reset but the current one,
      and the client meets exactly the ball of its own reset. */
  lemma OneBallPerReset(run: seq<Step>)
    requires CanRun(Start(), run)
    ensures var s := After(Start(), run);
      && s.epoch <= s.balls <= s.epoch + 1
      && (s.balls > s.epoch ==> s.client.Resetting?)
      && !s.misread
  {
    RunSafe(run);
    hide Enabled, Apply, CanRun, After;
  }

  /** The states of one reset with a message under way. */
  lemma OneResetStates(v: int) returns (ss: seq<State>, run: seq<Step>)
    ensures |run| == 9 && |ss| == 10 && ss[0] == Start()
    ensures forall i :: 0 <= i < 9 ==> Enabled(ss[i], run[i]) && Apply(ss[i], run[i]) == ss[i + 1]
    ensures ss[9] == State(Normal, 1, Waiting, 1, [], [], false, false, false, [Data(0, v)],
                           [Entry(Data(0, v), Dropped(1))], [], [], false)
  {
    var q, l := [Data(0, v)], [Entry(Data(0, v), Dropped(1))];
    run := [ClientSend(v), ClientStartReset, CommandArrives, SignalDelivered, ServerWake, ServerCheck, ClientFinish,
            ServerDrain, ServerDrain];
    ss := [Start(),
           State(Normal, 0, Waiting, 0, q, [], false, false, false, q, [], [], [], false),
           State(Resetting, 0, Waiting, 0, q, [], true, false, false, q, [], [], [], false),
           State(Resetting, 0, Waiting, 0, q, [], false, true, false, q, [], [], [], false),
           State(Resetting, 0, Waiting, 0, q, [], false, false, true, q, [], [], [], false),
           State(Resetting, 0, Checking, 0, q, [], false, false, true, q, [], [], [], false),
           State(Resetting, 0, Draining, 1, q, [Ball(1)], false, false, true, q, [], [], [], false),
           State(Normal, 1, Draining, 1, q + [Ball(1)], [], false, false, true, q, [], [], [], false),
           State(Normal, 1, Draining, 1, [Ball(1)], [], false, false, true, q, l, [], [], false),
           State(Normal, 1, Waiting, 1, [], [], false, false, false, q, l, [], [], false)];
  }

  lemma {:induction false} StatesMakeRun(ss: seq<State>, run: seq<Step>)
    requires |ss| == |run| + 1
    requires forall i :: 0 <= i < |run| ==> Enabled(ss[i], run[i]) && Apply(ss[i], run[i]) == ss[i + 1]
    ensures CanRun(ss[0], run) && After(ss[0], run) == ss[|run|]
    decreases |run|
  {
    if run != [] {
      StatesMakeRun(ss[1..], run[1..]);
    }
    hide Enabled, Apply;
  }

  /** The statements above are not empty: a message under way when the client resets is dropped
      by that reset, and the exchange ends with both sides in the next epoch. */
  lemma OneResetHappens(v: int) returns (run: seq<Step>)
    ensures CanRun(Start(), run)
    ensures var s := After(Start(), run);
      s.epoch == s.balls == 1 && s.client.Normal? && s.server.Waiting?
      && s.log == [Entry(Data(0, v), Dropped(1))] && s.c2s == s.s2c == []
  {
    hide *;
    var ss;
    ss, run := OneResetStates(v);
    StatesMakeRun(ss, run);
  }
}
