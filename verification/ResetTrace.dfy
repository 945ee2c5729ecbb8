/** What was sent, received and dropped in a run of the reset protocol, read off its steps alone. */
module ResetTrace {
  import opened ResetProtocol

  // ---------- read off the steps ----------

  /** Resets the client has finished. */
  function Finishes(run: seq<Step>): nat {
    if run == [] then 0
    else Finishes(run[..|run| - 1]) + if run[|run| - 1].ClientFinish? then 1 else 0
  }

  /** What the client puts into the channel in step t after r. */
  function PutByClient(r: seq<Step>, t: Step): seq<Packet> {
    if t.ClientSend? then [Data(Finishes(r), t.payload)]
    else if t.ClientFinish? then [Ball(Finishes(r) + 1)]
    else []
  }

  /** All that was put into the channel to the server. */
  function ToServer(run: seq<Step>): seq<Packet> {
    if run == [] then [] else
      var r, t := run[..|run| - 1], run[|run| - 1];
      ToServer(r) + PutByClient(r, t)
  }

  /** How many packets the server has taken from it. */
  function ServerReads(run: seq<Step>): nat {
    if run == [] then 0 else
      var t := run[|run| - 1];
      ServerReads(run[..|run| - 1]) + if t.ServerReceive? || t.ServerDrain? then 1 else 0
  }

  /** The k-th packet of a channel, if there is one. */
  function At(q: seq<Packet>, k: int): seq<Packet> {
    if 0 <= k < |q| then [q[k]] else []
  }

  function EpochOf(q: seq<Packet>): nat {
    if q != [] && q[0].Data? then q[0].epoch else 0
  }

  /** The epoch of the message the server took last. */
  function Origin(run: seq<Step>): nat {
    EpochOf(At(ToServer(run), ServerReads(run) - 1))
  }

  /** A signal came after the server took the last ball. */
  function Signalled(run: seq<Step>): bool {
    if run == [] then false else
      var r, t := run[..|run| - 1], run[|run| - 1];
      if t.SignalDelivered? then true
      else if t.ServerDrain? && NextRequest(r) == [] then false
      else Signalled(r)
  }

  function Balls(q: seq<Packet>): nat {
    if q == [] then 0 else Balls(q[..|q| - 1]) + if q[|q| - 1].Ball? then 1 else 0
  }

  /** All that was put into the channel to the client. */
  function ToClient(run: seq<Step>): seq<Packet> {
    if run == [] then [] else
      var r, t := run[..|run| - 1], run[|run| - 1];
      ToClient(r) + if t.ServerReply? then [Data(Origin(r), t.payload)]
                    else if t.ServerCheck? && Signalled(r) then [Ball(Balls(ToClient(r)) + 1)] else []
  }

  /** The message the server takes next, the reply the client takes next. */
  function NextRequest(r: seq<Step>): seq<Packet> { DataOf(At(ToServer(r), ServerReads(r))) }

  function NextReplyOf(r: seq<Step>): seq<Packet> { DataOf(At(ToClient(r), ClientReads(r))) }

  function ClientReads(run: seq<Step>): nat {
    if run == [] then 0 else
      var t := run[|run| - 1];
      ClientReads(run[..|run| - 1]) + if t.ClientTake? || t.ClientSkip? || t.ClientFinish? then 1 else 0
  }

  /** The replies sent: payloads in order, each with the epoch of the message it answers. */
  function Replies(run: seq<Step>): seq<Packet> {
    if run == [] then [] else
      var r, t := run[..|run| - 1], run[|run| - 1];
      Replies(r) + if t.ServerReply? then [Data(Origin(r), t.payload)] else []
  }

  /** The messages sent. */
  function Requests(run: seq<Step>): seq<Packet> {
    if run == [] then [] else
      var r, t := run[..|run| - 1], run[|run| - 1];
      Requests(r) + if t.ClientSend? then [Data(Finishes(r), t.payload)] else []
  }

  function WithFate(q: seq<Packet>, f: Fate): seq<Entry> {
    if q == [] then [] else [Entry(q[0], f)]
  }

  /** What the server did with each message: received, or dropped by the reset that ends its epoch. */
  function ServerLog(run: seq<Step>): seq<Entry> {
    if run == [] then [] else
      var r, t := run[..|run| - 1], run[|run| - 1];
      ServerLog(r) + if t.ServerReceive? then WithFate(NextRequest(r), Processed)
                     else if t.ServerDrain? then WithFate(NextRequest(r), Dropped(EpochOf(NextRequest(r)) + 1)) else []
  }

  /** What the client did with each reply: taken as a result, or skipped by the reset in progress. */
  function ClientLog(run: seq<Step>): seq<Entry> {
    if run == [] then [] else
      var r, t := run[..|run| - 1], run[|run| - 1];
      ClientLog(r) + if t.ClientTake? then WithFate(NextReplyOf(r), Processed)
                     else if t.ClientSkip? then WithFate(NextReplyOf(r), Dropped(Finishes(r) + 1)) else []
  }

  function ResultsOf(q: seq<Packet>, at: nat): seq<Taken> {
    if q != [] && q[0].Data? then [Taken(q[0].epoch, q[0].payload, at)] else []
  }

  /** The results taken, each with the epoch it was taken in. */
  function Results(run: seq<Step>): seq<Taken> {
    if run == [] then [] else
      var r, t := run[..|run| - 1], run[|run| - 1];
      Results(r) + if t.ClientTake? then ResultsOf(NextReplyOf(r), Finishes(r)) else []
  }

  // ---------- the state machine agrees ----------

  ghost predicate ServerSide(run: seq<Step>, s: State) {
    && ServerReads(run) <= |ToServer(run)| && s.c2s == ToServer(run)[ServerReads(run)..]
    && (s.server.Busy? ==> s.server.epoch == Origin(run))
    && s.sent == Requests(run) == DataOf(ToServer(run)) && s.log == ServerLog(run)
  }

  ghost predicate ClientSide(run: seq<Step>, s: State) {
    && ClientReads(run) <= |ToClient(run)| && s.s2c == ToClient(run)[ClientReads(run)..]
    && DataOf(ToClient(run)) == Replies(run)
    && s.answers == ClientLog(run) && s.taken == Results(run)
  }

  ghost predicate Traced(run: seq<Step>, s: State) {
    && s.epoch == Finishes(run) && s.flag == Signalled(run) && s.balls == Balls(ToClient(run))
    && ServerSide(run, s) && ClientSide(run, s)
  }

  lemma Snoc(r: seq<Step>, t: Step)
    ensures (r + [t])[..|r + [t]| - 1] == r && (r + [t])[|r + [t]| - 1] == t && r + [t] != []
  {
  }

  /** The next packet of a channel. */
  lemma NextOf(q: seq<Packet>, k: nat)
    requires k < |q|
    ensures At(q, k) == [q[k]] && q[k..] != [] && q[k..][0] == q[k] && q[k..][1..] == q[k + 1..]
    ensures DataOf(At(q, k)) == if q[k].Data? then [q[k]] else []
  {
    assert [q[k]][1..] == [];
    assert DataOf([]) == [];
    var none: seq<Packet> := [];
    assert [q[k]] + none == [q[k]] && none + none == none;
  }

  /** A packet put into a channel. */
  lemma PutInto(q: seq<Packet>, k: nat, p: seq<Packet>)
    requires k <= |q|
    ensures (q + p)[k..] == q[k..] + p
    ensures At(q + p, k - 1) == At(q, k - 1)
  {
  }

  // What one more step adds to the lists.

  lemma ToServerGrows(r: seq<Step>, t: Step)
    ensures ToServer(r + [t]) == ToServer(r) + PutByClient(r, t)
    ensures ServerReads(r + [t]) == ServerReads(r) + if t.ServerReceive? || t.ServerDrain? then 1 else 0
  {
    Snoc(r, t);
    hide PutByClient;
  }

  lemma RequestsGrow(r: seq<Step>, t: Step)
    ensures Requests(r + [t]) == Requests(r) + if t.ClientSend? then [Data(Finishes(r), t.payload)] else []
  {
    Snoc(r, t);
    hide Finishes;
  }

  lemma ServerLogGrows(r: seq<Step>, t: Step)
    ensures ServerLog(r + [t])
      == ServerLog(r) + if t.ServerReceive? then WithFate(NextRequest(r), Processed)
                        else if t.ServerDrain? then WithFate(NextRequest(r), Dropped(EpochOf(NextRequest(r)) + 1)) else []
  {
    Snoc(r, t);
    hide NextRequest, WithFate, EpochOf;
  }

  lemma ToClientGrows(r: seq<Step>, t: Step)
    ensures ToClient(r + [t])
      == ToClient(r) + if t.ServerReply? then [Data(Origin(r), t.payload)]
                       else if t.ServerCheck? && Signalled(r) then [Ball(Balls(ToClient(r)) + 1)] else []
  {
    Snoc(r, t);
    hide Origin, Signalled, Balls;
  }

  lemma ClientReadsGrow(r: seq<Step>, t: Step)
    ensures ClientReads(r + [t]) == ClientReads(r) + if t.ClientTake? || t.ClientSkip? || t.ClientFinish? then 1 else 0
  {
    Snoc(r, t);
  }

  lemma RepliesGrow(r: seq<Step>, t: Step)
    ensures Replies(r + [t]) == Replies(r) + if t.ServerReply? then [Data(Origin(r), t.payload)] else []
  {
    Snoc(r, t);
    hide Origin;
  }

  lemma ClientLogGrows(r: seq<Step>, t: Step)
    ensures ClientLog(r + [t])
      == ClientLog(r) + if t.ClientTake? then WithFate(NextReplyOf(r), Processed)
                        else if t.ClientSkip? then WithFate(NextReplyOf(r), Dropped(Finishes(r) + 1)) else []
  {
    Snoc(r, t);
    hide NextReplyOf, WithFate, Finishes;
  }

  lemma ResultsGrow(r: seq<Step>, t: Step)
    ensures Results(r + [t]) == Results(r) + if t.ClientTake? then ResultsOf(NextReplyOf(r), Finishes(r)) else []
  {
    Snoc(r, t);
    hide NextReplyOf, ResultsOf, Finishes;
  }

  lemma CountersGrow(r: seq<Step>, t: Step)
    ensures Finishes(r + [t]) == Finishes(r) + if t.ClientFinish? then 1 else 0
    ensures Signalled(r + [t])
      == if t.SignalDelivered? then true else if t.ServerDrain? && NextRequest(r) == [] then false else Signalled(r)
  {
    Snoc(r, t);
    hide NextRequest;
  }

  // What one step does to the state.

  lemma ServerApplied(s: State, t: Step)
    requires Enabled(s, t)
    ensures var s' := Apply(s, t);
      && (t.ServerReceive? || t.ServerDrain? ==> s.c2s != [])
      && s'.c2s == (if t.ClientSend? then s.c2s + [Data(s.epoch, t.payload)]
                    else if t.ClientFinish? then s.c2s + [Ball(s.epoch + 1)]
                    else if t.ServerReceive? || t.ServerDrain? then s.c2s[1..] else s.c2s)
      && s'.sent == s.sent + (if t.ClientSend? then [Data(s.epoch, t.payload)] else [])
      && s'.log == s.log + (if t.ServerReceive? && s.c2s[0].Data? then [Entry(s.c2s[0], Processed)]
                            else if t.ServerDrain? && s.c2s[0].Data? then [Entry(s.c2s[0], Dropped(s.balls))] else [])
      && (s'.server.Busy? ==>
            if t.ServerReceive? then s.c2s[0].Data? && s'.server.epoch == s.c2s[0].epoch
            else s.server.Busy? && s'.server.epoch == s.server.epoch && !t.ServerDrain?)
      && (t.ServerDrain? ==> s.server.Draining?)
  {
    match t
    case _ =>
  }

  lemma ClientApplied(s: State, t: Step)
    requires Enabled(s, t) && (t.ClientTake? ==> s.s2c[0].Data?)
    ensures var s' := Apply(s, t);
      && (t.ClientTake? || t.ClientSkip? || t.ClientFinish? ==> s.s2c != [])
      && (t.ClientSkip? ==> s.s2c[0].Data?) && (t.ClientFinish? ==> s.s2c[0].Ball?)
      && (t.ServerReply? ==> s.server.Busy?)
      && s'.s2c == (if t.ServerReply? then s.s2c + [Data(s.server.epoch, t.payload)]
                    else if t.ServerCheck? && s.flag then s.s2c + [Ball(s.balls + 1)]
                    else if t.ClientTake? || t.ClientSkip? || t.ClientFinish? then s.s2c[1..] else s.s2c)
      && s'.answers == s.answers + (if t.ClientTake? then [Entry(s.s2c[0], Processed)]
                                    else if t.ClientSkip? then [Entry(s.s2c[0], Dropped(s.epoch + 1))] else [])
      && s'.taken == s.taken + (if t.ClientTake? then [Taken(s.s2c[0].epoch, s.s2c[0].payload, s.epoch)] else [])
  {
    match t
    case _ =>
  }

  lemma CountersApplied(s: State, t: Step)
    requires Enabled(s, t)
    ensures var s' := Apply(s, t);
      && s'.epoch == s.epoch + (if t.ClientFinish? then 1 else 0)
      && s'.balls == s.balls + (if t.ServerCheck? && s.flag then 1 else 0)
      && (t.ServerDrain? ==> s.c2s != [])
      && s'.flag == (if t.SignalDelivered? then true else if t.ServerDrain? && s.c2s[0].Ball? then false else s.flag)
  {
    if t.ClientFinish? {
    } else if t.ServerCheck? {
    } else if t.ServerDrain? {
    } else if t.SignalDelivered? {
    } else {
      OtherCounters(s, t);
    }
  }

  lemma OtherCounters(s: State, t: Step)
    requires Enabled(s, t) && !t.ClientFinish? && !t.ServerCheck? && !t.ServerDrain? && !t.SignalDelivered?
    ensures var s' := Apply(s, t);
      s'.epoch == s.epoch && s'.balls == s.balls && s'.flag == s.flag
  {
    match t
    case _ =>
  }

  // The two agree.

  lemma ChannelToServer(r: seq<Step>, s: State, t: Step)
    requires Enabled(s, t) && Traced(r, s)
    ensures var q, k, s' := ToServer(r + [t]), ServerReads(r + [t]), Apply(s, t);
      k <= |q| && s'.c2s == q[k..] && s'.sent == Requests(r + [t]) == DataOf(q)
  {
    hide Enabled, Apply, DataOf, ToServer, ServerReads, Requests, Finishes, ClientSide, Balls, Signalled, ToClient,
      ServerLog, Origin;
    ToServerGrows(r, t);
    RequestsGrow(r, t);
    ServerApplied(s, t);
    var q, k := ToServer(r), ServerReads(r);
    if t.ClientSend? {
      PutInto(q, k, [Data(s.epoch, t.payload)]);
      DataOfSnoc(q, Data(s.epoch, t.payload));
    } else if t.ClientFinish? {
      PutInto(q, k, [Ball(s.epoch + 1)]);
      DataOfSnoc(q, Ball(s.epoch + 1));
    }
    assert q + [] == q && s.sent + [] == s.sent;
  }

  lemma WorksOn(r: seq<Step>, s: State, t: Step)
    requires Enabled(s, t) && Traced(r, s) && Apply(s, t).server.Busy?
    ensures Apply(s, t).server.epoch == Origin(r + [t])
  {
    hide Enabled, Apply, ToServer, ServerReads, PutByClient, ClientSide, Balls, Signalled, ToClient, ServerLog, Requests,
      DataOf, Finishes, At, EpochOf;
    ToServerGrows(r, t);
    ServerApplied(s, t);
    var q, k := ToServer(r), ServerReads(r);
    PutInto(q, k, PutByClient(r, t));
    if t.ServerReceive? {
      NextOf(q, k);
      PutInto(q, k + 1, PutByClient(r, t));
      OnePacket(q[k], Processed);
    }
  }

  lemma LoggedByServer(r: seq<Step>, s: State, t: Step)
    requires Inv(s) && Enabled(s, t) && Traced(r, s)
    ensures Apply(s, t).log == ServerLog(r + [t])
  {
    hide *;
    NeverMisread(s, t);
    ServerApplied(s, t);
    ChannelParts(r, s);
    if t.ServerDrain? && s.c2s[0].Data? {
      Drained(s);
    }
    ServerLogGrows(r, t);
    if t.ServerReceive? || t.ServerDrain? {
      NextRequestIs(r);
      var p := s.c2s[0];
      OnePacket(p, Processed);
      OnePacket(p, Dropped(EpochOf([p]) + 1));
      OnePacket(p, Dropped(EpochOf([]) + 1));
    }
    NothingMore(s.log);
  }

  lemma ChannelParts(r: seq<Step>, s: State)
    requires Traced(r, s)
    ensures ServerReads(r) <= |ToServer(r)| && s.c2s == ToServer(r)[ServerReads(r)..] && s.log == ServerLog(r)
  {
    hide Finishes, Signalled, Balls, ToClient, ToServer, Origin, ClientReads, ServerReads, DataOf, Replies, Requests,
      ClientLog, ServerLog, Results;
  }

  lemma NextRequestIs(r: seq<Step>)
    requires ServerReads(r) < |ToServer(r)|
    ensures ToServer(r)[ServerReads(r)..][0] == ToServer(r)[ServerReads(r)]
    ensures NextRequest(r) == if ToServer(r)[ServerReads(r)].Data? then [ToServer(r)[ServerReads(r)]] else []
  {
    NextOf(ToServer(r), ServerReads(r));
    hide DataOf, At, ToServer, ServerReads;
  }

  lemma ServerSideStep(r: seq<Step>, s: State, t: Step)
    requires Inv(s) && Enabled(s, t) && Traced(r, s)
    ensures ServerSide(r + [t], Apply(s, t))
  {
    ChannelToServer(r, s, t);
    LoggedByServer(r, s, t);
    if Apply(s, t).server.Busy? {
      WorksOn(r, s, t);
    }
    hide Inv, Enabled, Apply, DataOf, ToServer, ServerReads, Requests, ServerLog, Origin, Traced;
  }

  lemma OnePacket(p: Packet, f: Fate)
    ensures WithFate([p], f) == [Entry(p, f)] && WithFate([], f) == []
    ensures EpochOf([p]) == if p.Data? then p.epoch else 0
  {
  }

  lemma NeverMisread(s: State, t: Step)
    requires Inv(s) && Enabled(s, t)
    ensures t.ServerReceive? ==> s.c2s[0].Data?
    ensures t.ClientTake? ==> s.s2c[0].Data?
  {
    InvStep(s, t);
    InvParts(s);
    InvParts(Apply(s, t));
    hide Phase, Conserved, FatesOrdered, RepliesFresh, AnswersOrdered, Inv;
  }

  lemma Drained(s: State)
    requires Inv(s) && s.server.Draining? && s.c2s != [] && s.c2s[0].Data?
    ensures s.c2s[0].epoch + 1 == s.balls
  {
    InvParts(s);
    NextEpoch(s);
    hide *;
  }

  lemma TraceParts(r: seq<Step>, s: State)
    requires Traced(r, s)
    ensures s.epoch == Finishes(r) && s.flag == Signalled(r) && s.balls == Balls(ToClient(r))
    ensures s.server.Busy? ==> s.server.epoch == Origin(r)
    ensures ClientReads(r) <= |ToClient(r)| && s.s2c == ToClient(r)[ClientReads(r)..]
    ensures DataOf(ToClient(r)) == Replies(r) && s.answers == ClientLog(r) && s.taken == Results(r)
  {
    hide Finishes, Signalled, Balls, ToClient, ToServer, Origin, ClientReads, ServerReads, DataOf, Replies, Requests,
      ClientLog, ServerLog, Results;
  }

  lemma ChannelToClient(r: seq<Step>, s: State, t: Step)
    requires Inv(s) && Enabled(s, t) && Traced(r, s)
    ensures var q, k, s' := ToClient(r + [t]), ClientReads(r + [t]), Apply(s, t);
      k <= |q| && s'.s2c == q[k..] && DataOf(q) == Replies(r + [t])
  {
    hide *;
    NeverMisread(s, t);
    TraceParts(r, s);
    ToClientGrows(r, t);
    ClientReadsGrow(r, t);
    RepliesGrow(r, t);
    ClientApplied(s, t);
    var q, k := ToClient(r), ClientReads(r);
    if t.ServerReply? {
      PutInto(q, k, [Data(Origin(r), t.payload)]);
      DataOfSnoc(q, Data(Origin(r), t.payload));
    } else if t.ServerCheck? && s.flag {
      PutInto(q, k, [Ball(s.balls + 1)]);
      DataOfSnoc(q, Ball(s.balls + 1));
      NothingMore(Replies(r));
    } else {
      NothingMore(q);
      NothingMore(Replies(r));
    }
  }

  lemma NothingMore<T>(q: seq<T>)
    ensures q + [] == q
  {
  }

  lemma LoggedByClient(r: seq<Step>, s: State, t: Step)
    requires Inv(s) && Enabled(s, t) && Traced(r, s)
    ensures Apply(s, t).answers == ClientLog(r + [t]) && Apply(s, t).taken == Results(r + [t])
  {
    hide *;
    NeverMisread(s, t);
    TraceParts(r, s);
    ClientApplied(s, t);
    ClientLogGrows(r, t);
    ResultsGrow(r, t);
    NothingMore(s.taken);
    if t.ClientTake? || t.ClientSkip? {
      NextReplyIs(r);
      var p := s.s2c[0];
      OnePacket(p, Processed);
      OnePacket(p, Dropped(s.epoch + 1));
      OneResult(p, s.epoch);
    } else {
      NothingMore(s.answers);
    }
  }

  lemma NextReplyIs(r: seq<Step>)
    requires ClientReads(r) < |ToClient(r)|
    ensures ToClient(r)[ClientReads(r)..][0] == ToClient(r)[ClientReads(r)]
    ensures NextReplyOf(r) == if ToClient(r)[ClientReads(r)].Data? then [ToClient(r)[ClientReads(r)]] else []
  {
    NextOf(ToClient(r), ClientReads(r));
    hide DataOf, At, ToClient, ClientReads;
  }

  lemma OneResult(p: Packet, at: nat)
    ensures p.Data? ==> ResultsOf([p], at) == [Taken(p.epoch, p.payload, at)]
  {
  }

  lemma ClientSideStep(r: seq<Step>, s: State, t: Step)
    requires Inv(s) && Enabled(s, t) && Traced(r, s)
    ensures ClientSide(r + [t], Apply(s, t))
  {
    ChannelToClient(r, s, t);
    LoggedByClient(r, s, t);
    hide Inv, Enabled, Apply, DataOf, ToClient, ClientReads, Replies, ClientLog, Results, Traced;
  }

  lemma CountersStep(r: seq<Step>, s: State, t: Step)
    requires Inv(s) && Enabled(s, t) && Traced(r, s)
    ensures var s' := Apply(s, t);
      s'.epoch == Finishes(r + [t]) && s'.flag == Signalled(r + [t]) && s'.balls == Balls(ToClient(r + [t]))
  {
    hide Inv, Enabled, Apply, DataOf, At, ToClient, ToServer, ServerReads, Finishes, Origin, Balls, Signalled, ClientSide;
    ToClientGrows(r, t);
    CountersGrow(r, t);
    CountersApplied(s, t);
    var q, k := ToClient(r), ServerReads(r);
    if t.ServerReply? {
      BallsSnoc(q, Data(Origin(r), t.payload));
    } else if t.ServerCheck? && s.flag {
      BallsSnoc(q, Ball(s.balls + 1));
    }
    assert q + [] == q;
    if t.ServerDrain? {
      NextOf(ToServer(r), k);
    }
  }

  lemma BallsSnoc(q: seq<Packet>, p: Packet)
    ensures Balls(q + [p]) == Balls(q) + if p.Ball? then 1 else 0
  {
    assert (q + [p])[..|q + [p]| - 1] == q;
  }

  lemma TracedStart()
    ensures Traced([], Start())
  {
  }

  lemma {:induction false} AfterSnoc(s: State, r: seq<Step>, t: Step)
    requires CanRun(s, r + [t])
    ensures CanRun(s, r) && Enabled(After(s, r), t) && After(s, r + [t]) == Apply(After(s, r), t)
    decreases |r|
  {
    if r == [] {
      assert [] + [t] == [t] && [t][1..] == [];
    } else {
      assert (r + [t])[1..] == r[1..] + [t] && (r + [t])[0] == r[0];
      AfterSnoc(Apply(s, r[0]), r[1..], t);
    }
    hide Enabled, Apply;
  }

  /** Every run leaves the state its steps say: channels, histories, epochs, balls and signal. */
  lemma {:induction false} RunTraced(run: seq<Step>)
    requires CanRun(Start(), run)
    ensures Inv(After(Start(), run)) && Traced(run, After(Start(), run))
    decreases |run|
  {
    hide *;
    if run == [] {
      StartIs();
      RunSafe(run);
      TracedStart();
    } else {
      var r, t := run[..|run| - 1], run[|run| - 1];
      assert run == r + [t];
      AfterSnoc(Start(), r, t);
      RunTraced(r);
      var s := After(Start(), r);
      InvStep(s, t);
      CountersStep(r, s, t);
      ServerSideStep(r, s, t);
      ClientSideStep(r, s, t);
      TracedFrom(run, Apply(s, t));
    }
  }

  lemma StartIs()
    ensures After(Start(), []) == Start() && CanRun(Start(), [])
  {
  }

  lemma TracedFrom(run: seq<Step>, s: State)
    requires s.epoch == Finishes(run) && s.flag == Signalled(run) && s.balls == Balls(ToClient(run))
    requires ServerSide(run, s) && ClientSide(run, s)
    ensures Traced(run, s)
  {
  }

  // ---------- the results ----------

  function FatesOf(log: seq<Entry>, f: bool): seq<Packet> {
    if log == [] then [] else
      FatesOf(log[..|log| - 1], f)
      + if log[|log| - 1].fate.Processed? == f then [log[|log| - 1].packet] else []
  }

  /** The data the results carry. */
  function DataTaken(ts: seq<Taken>): seq<Packet> {
    if ts == [] then [] else
      DataTaken(ts[..|ts| - 1]) + [Data(ts[|ts| - 1].origin, ts[|ts| - 1].payload)]
  }

  /** Main result, towards the client: the replies sent in a run, payloads and epochs in order, are
      exactly those the client took or skipped, in that order, and then those still under way.  What
      it took is what its results hold; what it skipped from an epoch comes after what it took from
      it, and was skipped by the reset that ends the epoch. */
  lemma RepliesConserved(run: seq<Step>)
    requires CanRun(Start(), run)
    ensures var s := After(Start(), run);
      && Replies(run) == Packets(ClientLog(run)) + DataOf(s.s2c)
      && FatesOf(ClientLog(run), true) == DataTaken(s.taken)
      && s.taken == Results(run) && AnswersOrdered(s) && s.answers == ClientLog(run)
  {
    hide *;
    RunTraced(run);
    var s := After(Start(), run);
    InvParts(s);
    TraceParts(run, s);
    ReadIsLogged(run);
    DataSplit(ToClient(run), ClientReads(run));
    TakenAreProcessed(run);
  }

  /** And towards the server. */
  lemma RequestsConserved(run: seq<Step>)
    requires CanRun(Start(), run)
    ensures var s := After(Start(), run);
      && Requests(run) == Packets(ServerLog(run)) + DataOf(s.c2s)
      && s.log == ServerLog(run) && FatesOrdered(s)
  {
    hide *;
    RunTraced(run);
    var s := After(Start(), run);
    InvParts(s);
    ServerParts(run, s);
    ConservedIs(s);
  }

  lemma ServerParts(run: seq<Step>, s: State)
    requires Traced(run, s)
    ensures s.sent == Requests(run) && s.log == ServerLog(run)
  {
    hide Finishes, Signalled, Balls, ToClient, ToServer, Origin, ClientReads, ServerReads, DataOf, Replies, Requests,
      ClientLog, ServerLog, Results;
  }

  lemma ConservedIs(s: State)
    requires Conserved(s)
    ensures s.sent == Packets(s.log) + DataOf(s.c2s)
  {
    hide DataOf, Packets;
  }

  lemma {:induction false} DataSplit(q: seq<Packet>, k: nat)
    requires k <= |q|
    ensures DataOf(q) == DataOf(q[..k]) + DataOf(q[k..])
  {
    if k == 0 {
      assert q[..0] == [] && q[0..] == q;
    } else {
      DataSplit(q[1..], k - 1);
      assert q[..k][1..] == q[1..][..k - 1] && q[k..] == q[1..][k - 1..];
    }
  }

  /** Every data packet the client has read is in its record. */
  lemma {:induction false} ReadIsLogged(run: seq<Step>)
    requires CanRun(Start(), run)
    ensures ClientReads(run) <= |ToClient(run)|
    ensures Packets(ClientLog(run)) == DataOf(ToClient(run)[..ClientReads(run)])
    decreases |run|
  {
    hide *;
    if run == [] {
      NoneRead();
    } else {
      var r, t := run[..|run| - 1], run[|run| - 1];
      assert run == r + [t];
      AfterSnoc(Start(), r, t);
      ReadIsLogged(r);
      RunTraced(r);
      var s := After(Start(), r);
      TraceParts(r, s);
      NeverMisread(s, t);
      ClientApplied(s, t);
      ToClientGrows(r, t);
      ClientReadsGrow(r, t);
      ClientLogGrows(r, t);
      OneMoreRead(r, t);
    }
  }

  lemma NoneRead()
    ensures ClientReads([]) == 0 && Packets(ClientLog([])) == DataOf(ToClient([])[..0]) == []
  {
  }

  lemma OneMoreRead(r: seq<Step>, t: Step)
    requires ClientReads(r) <= |ToClient(r)|
    requires t.ClientTake? || t.ClientSkip? || t.ClientFinish? ==> ClientReads(r) < |ToClient(r)|
    requires t.ClientFinish? ==> ToClient(r)[ClientReads(r)].Ball?
    requires Packets(ClientLog(r)) == DataOf(ToClient(r)[..ClientReads(r)])
    ensures ClientReads(r + [t]) <= |ToClient(r + [t])|
    ensures Packets(ClientLog(r + [t])) == DataOf(ToClient(r + [t])[..ClientReads(r + [t])])
  {
    hide *;
    ToClientGrows(r, t);
    ClientReadsGrow(r, t);
    ClientLogGrows(r, t);
    var q, k := ToClient(r), ClientReads(r);
    var q' := ToClient(r + [t]);
    assert q <= q';
    assert q'[..k] == q[..k];
    NothingMore(ClientLog(r));
    if t.ClientTake? || t.ClientSkip? || t.ClientFinish? {
      NextReplyIs(r);
      assert q'[..k + 1] == q[..k] + [q[k]];
      DataOfSnoc(q[..k], q[k]);
      NothingMore(DataOf(q[..k]));
      OnePacket(q[k], Processed);
      OnePacket(q[k], Dropped(Finishes(r) + 1));
      LogSnoc(ClientLog(r), Entry(q[k], Processed));
      LogSnoc(ClientLog(r), Entry(q[k], Dropped(Finishes(r) + 1)));
    }
  }

  lemma {:induction false} TakenAreProcessed(run: seq<Step>)
    ensures FatesOf(ClientLog(run), true) == DataTaken(Results(run))
    decreases |run|
  {
    hide *;
    if run == [] {
      NoResults();
    } else {
      var r, t := run[..|run| - 1], run[|run| - 1];
      assert run == r + [t];
      TakenAreProcessed(r);
      ClientLogGrows(r, t);
      ResultsGrow(r, t);
      NextIsData(r);
      OneMoreFate(ClientLog(r), Results(r), NextReplyOf(r), Finishes(r));
      NothingMore(ClientLog(r));
      NothingMore(Results(r));
    }
  }

  lemma NoResults()
    ensures FatesOf(ClientLog([]), true) == DataTaken(Results([]))
  {
  }

  lemma NextIsData(r: seq<Step>)
    ensures NextReplyOf(r) == [] || (|NextReplyOf(r)| == 1 && NextReplyOf(r)[0].Data?)
  {
    var p := At(ToClient(r), ClientReads(r));
    hide ToClient, ClientReads;
    assert DataOf([]) == [];
    if p != [] {
      assert p[1..] == [];
      NothingMore([p[0]]);
    }
  }

  lemma OneMoreFate(log: seq<Entry>, ts: seq<Taken>, p: seq<Packet>, e: nat)
    requires FatesOf(log, true) == DataTaken(ts)
    requires p == [] || (|p| == 1 && p[0].Data?)
    ensures FatesOf(log + WithFate(p, Processed), true) == DataTaken(ts + ResultsOf(p, e))
    ensures FatesOf(log + WithFate(p, Dropped(e + 1)), true) == DataTaken(ts)
  {
    if p == [] {
      assert log + [] == log && ts + [] == ts;
    } else {
      var a, b, c := Entry(p[0], Processed), Entry(p[0], Dropped(e + 1)), Taken(p[0].epoch, p[0].payload, e);
      assert (log + [a])[..|log + [a]| - 1] == log && (log + [b])[..|log + [b]| - 1] == log;
      assert (ts + [c])[..|ts + [c]| - 1] == ts;
    }
  }

  // ---------- such runs exist ----------

  lemma Witness(ss: seq<State>, run: seq<Step>)
    requires |ss| == |run| + 1 && ss[0] == Start()
    requires forall i :: 0 <= i < |run| ==> Enabled(ss[i], run[i]) && Apply(ss[i], run[i]) == ss[i + 1]
    ensures CanRun(Start(), run) && After(Start(), run) == ss[|run|]
  {
    StatesMakeRun(ss, run);
    hide *;
  }

  /** Up to the server's reply. */
  lemma ReplyStates(v: int, w: int) returns (ss: seq<State>, run: seq<Step>)
    ensures run == [ClientSend(v), ServerReceive, ServerReply(w)] && |ss| == 4 && ss[0] == Start()
    ensures forall i :: 0 <= i < 3 ==> Enabled(ss[i], run[i]) && Apply(ss[i], run[i]) == ss[i + 1]
    ensures ss[3] == Replied(v, w)
  {
    var q := [Data(0, v)];
    run := [ClientSend(v), ServerReceive, ServerReply(w)];
    ss := [Start(),
           State(Normal, 0, Waiting, 0, q, [], false, false, false, q, [], [], [], false),
           State(Normal, 0, Busy(0, false), 0, [], [], false, false, false, q, [Entry(q[0], Processed)], [], [], false),
           Replied(v, w)];
  }

  function Replied(v: int, w: int): State {
    State(Normal, 0, Busy(0, false), 0, [], [Data(0, w)], false, false, false, [Data(0, v)],
          [Entry(Data(0, v), Processed)], [], [], false)
  }

  lemma ReplyRun(v: int, w: int)
    ensures var run := [ClientSend(v), ServerReceive, ServerReply(w)];
      CanRun(Start(), run) && After(Start(), run) == Replied(v, w)
  {
    hide *;
    var ss, run := ReplyStates(v, w);
    Witness(ss, run);
  }

  lemma {:induction false} RunOn(s: State, r: seq<Step>, t: Step)
    requires CanRun(s, r) && Enabled(After(s, r), t)
    ensures CanRun(s, r + [t]) && After(s, r + [t]) == Apply(After(s, r), t)
    decreases |r|
  {
    if r == [] {
      assert [] + [t] == [t] && [t][1..] == [];
    } else {
      assert (r + [t])[1..] == r[1..] + [t] && (r + [t])[0] == r[0];
      RunOn(Apply(s, r[0]), r[1..], t);
    }
    hide Enabled, Apply;
  }

  /** A reply is taken as a result, with its payload. */
  lemma ReplyTaken(v: int, w: int) returns (run: seq<Step>)
    ensures CanRun(Start(), run)
    ensures Replies(run) == [Data(0, w)] && After(Start(), run).taken == [Taken(0, w, 0)]
  {
    hide *;
    ReplyRun(v, w);
    var r := [ClientSend(v), ServerReceive, ServerReply(w)];
    TakeReply(v, w);
    run := r + [ClientTake];
    RunOn(Start(), r, ClientTake);
    OneReply(run, Entry(Data(0, w), Processed));
  }

  lemma TakeReply(v: int, w: int)
    ensures var s := Replied(v, w);
      && Enabled(s, ClientTake) && Apply(s, ClientTake).s2c == []
      && Apply(s, ClientTake).taken == [Taken(0, w, 0)]
      && Apply(s, ClientTake).answers == [Entry(Data(0, w), Processed)]
  {
  }

  lemma OneReply(run: seq<Step>, e: Entry)
    requires CanRun(Start(), run)
    requires After(Start(), run).answers == [e] && After(Start(), run).s2c == []
    ensures Replies(run) == [e.packet]
  {
    RepliesConserved(run);
    hide Replies, ClientLog, After, CanRun;
    assert DataOf([]) == [];
    assert Packets([e]) == [e.packet];
    NothingMore([e.packet]);
  }

  /** A late reply is skipped by the reset that follows it. */
  lemma LateReplySkipped(v: int, w: int) returns (run: seq<Step>)
    ensures CanRun(Start(), run)
    ensures Replies(run) == [Data(0, w)]
    ensures var s := After(Start(), run);
      s.taken == [] && s.answers == [Entry(Data(0, w), Dropped(1))]
  {
    hide *;
    ReplyRun(v, w);
    var r := [ClientSend(v), ServerReceive, ServerReply(w)];
    SkipReply(v, w);
    RunOn(Start(), r, ClientStartReset);
    run := r + [ClientStartReset] + [ClientSkip];
    RunOn(Start(), r + [ClientStartReset], ClientSkip);
    OneReply(run, Entry(Data(0, w), Dropped(1)));
  }

  lemma SkipReply(v: int, w: int)
    ensures var s := Replied(v, w);
      && Enabled(s, ClientStartReset)
      && var s' := Apply(s, ClientStartReset);
      && Enabled(s', ClientSkip) && Apply(s', ClientSkip).s2c == [] && Apply(s', ClientSkip).taken == []
      && Apply(s', ClientSkip).answers == [Entry(Data(0, w), Dropped(1))]
  {
  }
}
