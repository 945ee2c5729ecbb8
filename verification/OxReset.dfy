/** Draining a connection up to the sync ball, on both ends. */
module OxReset {
  import opened Basics
  import opened Bytes
  import opened CmoCodec
  import opened Connection
  import opened OxReceive
  import opened OxSend
  import opened OxStream

  const SM_CONTROL_RESET_CONNECTION: int := 1030

  method ReceiveOxTag(f: OxFile, ghost bo: ByteOrder) returns (r: Read<int>)
    requires f.Ready(bo)
    modifies f`input, f`receivedSerialNumber
    ensures f.Ready(bo)
    ensures var h := ReadHeader(old(f.input), bo);
      (h.Exit? ==> r.Exited?)
      && (h.Ok? ==> r == Got(h.value.tag) && f.receivedSerialNumber == h.value.serial && f.input == h.rest)
  {
    hide ReadInt;
    var tag :- f.ReceiveInt32();
    var serial :- f.ReceiveInt32();
    f.receivedSerialNumber := serial;
    r := Got(tag);
  }

  /** The client's drain loop, with the objects it throws away. */
  method SkipToBall(f: OxFile, ghost bo: ByteOrder) returns (r: Read<bool>, ghost skipped: seq<Cmo>)
    requires f.Ready(bo)
    modifies f`input, f`receivedSerialNumber
    ensures f.Ready(bo)
    ensures var d := ClientDrain(old(f.input), bo);
      (d.Exit? ==> r.Exited?) && (d.Outside? ==> r.Undefined?)
      && (d.Ok? ==> r.Got? && f.input == d.rest && skipped == d.value)
  {
    ghost var d := ClientDrain(f.input, bo);
    ContinuesFirst(d);
    skipped := [];
    while true
      invariant f.Ready(bo)
      invariant Continues(d, skipped, ClientDrain(f.input, bo))
      decreases |f.input|
    {
      hide ReadHeader, Decode;
      ghost var t := ClientDrain(f.input, bo);
      var tag :- ReceiveOxTag(f, bo);
      if tag == OX_SYNC_BALL {
        break;
      }
      var ob :- ReceiveCmo(f, bo);
      ContinuesNext(d, skipped, t, ob, ClientDrain(f.input, bo));
      skipped := skipped + [ob];
    }
    ContinuesDone(d, skipped, f.input);
    r := Got(true);
  }

  /** What follows a header: nothing, for a tag the loop does not know. */
  method SkipOne(f: OxFile, tag: int, ghost bo: ByteOrder) returns (r: Read<Skipped>)
    requires f.Ready(bo)
    modifies f`input
    ensures f.Ready(bo) && f.Agrees(r, SkipBody(tag, old(f.input), bo))
  {
    hide Decode, ReadInt;
    if tag == OX_DATA {
      var ob :- ReceiveCmo(f, bo);
    } else if tag == OX_COMMAND {
      var code :- f.ReceiveInt32();
    }
    r := Got(Skipped);
  }

  /** The server's drain loop. */
  method SkipAllToBall(f: OxFile, ghost bo: ByteOrder) returns (r: Read<bool>, ghost skipped: seq<Header>)
    requires f.Ready(bo)
    modifies f`input, f`receivedSerialNumber
    ensures f.Ready(bo)
    ensures var d := ServerDrain(old(f.input), bo);
      (d.Exit? ==> r.Exited?) && (d.Outside? ==> r.Undefined?)
      && (d.Ok? ==> r.Got? && f.input == d.rest && skipped == d.value)
  {
    ghost var d := ServerDrain(f.input, bo);
    ContinuesFirst(d);
    skipped := [];
    while true
      invariant f.Ready(bo)
      invariant Continues(d, skipped, ServerDrain(f.input, bo))
      decreases |f.input|
    {
      hide ReadHeader, SkipBody;
      ghost var t := ServerDrain(f.input, bo);
      var tag :- ReceiveOxTag(f, bo);
      if tag == OX_SYNC_BALL {
        break;
      }
      ghost var h := Header(tag, f.receivedSerialNumber);
      var done :- SkipOne(f, tag, bo);
      ContinuesNext(d, skipped, t, h, ServerDrain(f.input, bo));
      skipped := skipped + [h];
    }
    ContinuesDone(d, skipped, f.input);
    r := Got(true);
  }

  /** The client's reset: the request goes out on the control connection, the replies still on
      their way are thrown away up to the server's ball, and the client answers with its own.
      The ball is written but not flushed: with a write buffer it waits for the next flush. */
  method ClientReset(sv: OxFile, control: OxFile, ghost bo: ByteOrder)
    returns (r: Read<bool>, ghost skipped: seq<Cmo>)
    requires sv != control && sv.Ready(bo) && control.Valid() && sv.Buffer() !! control.Buffer()
    modifies sv`input, sv`receivedSerialNumber, sv`wire, sv`wbufCount, sv`serialNumber, sv.Buffer()
    modifies control`wire, control`wbufCount, control`serialNumber, control.Buffer()
    ensures sv.Ready(bo) && control.Valid()
    ensures control.wire == control.Sent() == old(control.Sent())
      + EncodeMessage(Command(old(control.serialNumber), SM_CONTROL_RESET_CONNECTION), control.Order32())
    ensures var d := ClientDrain(old(sv.input), bo);
      (d.Exit? ==> r.Exited?) && (d.Outside? ==> r.Undefined?)
      && (d.Ok? ==>
            r.Got? && sv.input == d.rest && skipped == d.value
            && sv.Sent() == old(sv.Sent()) + EncodeMessage(Ball(old(sv.serialNumber)), bo))
  {
    hide EncodeMessage, ClientDrain;
    SendOxCommand(control, SM_CONTROL_RESET_CONNECTION);
    var found;
    found, skipped := SkipToBall(sv, bo);
    if !found.Got? {
      r := found;
      return;
    }
    SendBall(sv);
    r := Got(true);
  }

  /** The server's half: its ball first, then everything up to the client's ball is dropped. */
  method ExchangeOxSyncBall(f: OxFile, ghost bo: ByteOrder) returns (r: Read<bool>, ghost skipped: seq<Header>)
    requires f.Ready(bo)
    modifies f`input, f`receivedSerialNumber, f`wire, f`wbufCount, f`serialNumber, f.Buffer()
    ensures f.Ready(bo)
    ensures f.Sent() == old(f.Sent()) + EncodeMessage(Ball(old(f.serialNumber)), bo)
    ensures var d := ServerDrain(old(f.input), bo);
      (d.Exit? ==> r.Exited?) && (d.Outside? ==> r.Undefined?)
      && (d.Ok? ==> r.Got? && f.input == d.rest && skipped == d.value)
  {
    hide EncodeMessage, ServerDrain;
    SendBall(f);
    r, skipped := SkipAllToBall(f, bo);
  }

  // ---------- any number of exchanges ----------

  /** What a side sends over some resets: the messages before each ball, the balls' serial numbers,
      and what follows the last one. */
  predicate EpochsOk(es: seq<seq<Message>>, ks: seq<int>) {
    |es| == |ks| && forall i :: 0 <= i < |es| ==> AllOk(es[i]) && NoBall(es[i]) && IsInt32(ks[i])
  }

  function EncodeEpochs(es: seq<seq<Message>>, ks: seq<int>, t: seq<Byte>, bo: ByteOrder): seq<Byte>
    requires EpochsOk(es, ks)
    decreases |es|
  {
    if es == [] then t else EncodeMessages(es[0], bo) + AtBall(ks[0], EncodeEpochs(es[1..], ks[1..], t, bo), bo)
  }

  /** The server's part of n exchanges, one after the other, and the client's. */
  function ServerDrains(n: nat, s: seq<Byte>, bo: ByteOrder): Result<seq<seq<Header>>> {
    if n == 0 then Ok([], s) else
      var d := ServerDrain(s, bo);
      if d.Exit? then Exit else if d.Outside? then Outside else
        var r := ServerDrains(n - 1, d.rest, bo);
        if r.Ok? then Ok([d.value] + r.value, r.rest) else r
  }

  function ClientDrains(n: nat, s: seq<Byte>, bo: ByteOrder): Result<seq<seq<Cmo>>> {
    if n == 0 then Ok([], s) else
      var d := ClientDrain(s, bo);
      if d.Exit? then Exit else if d.Outside? then Outside else
        var r := ClientDrains(n - 1, d.rest, bo);
        if r.Ok? then Ok([d.value] + r.value, r.rest) else r
  }

  predicate AllData(es: seq<seq<Message>>) { forall i :: 0 <= i < |es| ==> OnlyData(es[i]) }

  function AllHeaders(es: seq<seq<Message>>): (r: seq<seq<Header>>)
    ensures |r| == |es| && forall i :: 0 <= i < |es| ==> r[i] == Headers(es[i])
  {
    seq(|es|, i requires 0 <= i < |es| => Headers(es[i]))
  }

  function AllObjects(es: seq<seq<Message>>): (r: seq<seq<Cmo>>)
    requires AllData(es)
    ensures |r| == |es| && forall i :: 0 <= i < |es| ==> r[i] == Objects(es[i])
  {
    seq(|es|, i requires 0 <= i < |es| => Objects(es[i]))
  }

  lemma EpochsUnfold(es: seq<seq<Message>>, ks: seq<int>, t: seq<Byte>, bo: ByteOrder)
    requires EpochsOk(es, ks) && es != []
    ensures AllOk(es[0]) && NoBall(es[0]) && IsInt32(ks[0]) && EpochsOk(es[1..], ks[1..]) && |ks| == |es|
    ensures EncodeEpochs(es, ks, t, bo)
      == EncodeMessages(es[0], bo) + AtBall(ks[0], EncodeEpochs(es[1..], ks[1..], t, bo), bo)
    ensures AllHeaders(es) == [Headers(es[0])] + AllHeaders(es[1..])
    ensures AllData(es) ==>
      OnlyData(es[0]) && AllData(es[1..]) && AllObjects(es) == [Objects(es[0])] + AllObjects(es[1..])
  {
    hide AllOk, NoBall, OnlyData, EncodeMessages, AtBall, Headers, Objects, IsInt32;
  }

  lemma {:induction false} ServerMeets(es: seq<seq<Message>>, ks: seq<int>, t: seq<Byte>, bo: ByteOrder)
    requires EpochsOk(es, ks)
    ensures ServerDrains(|es|, EncodeEpochs(es, ks, t, bo), bo) == Ok(AllHeaders(es), t)
    decreases |es|
  {
    if es != [] {
      EpochsUnfold(es, ks, t, bo);
      ServerDrainStops(es[0], ks[0], EncodeEpochs(es[1..], ks[1..], t, bo), bo);
      ServerMeets(es[1..], ks[1..], t, bo);
    }
    hide EpochsOk, EncodeMessages, AtBall, ServerDrain, Headers;
  }

  lemma {:induction false} ClientMeets(es: seq<seq<Message>>, ks: seq<int>, t: seq<Byte>, bo: ByteOrder)
    requires EpochsOk(es, ks) && AllData(es)
    ensures ClientDrains(|es|, EncodeEpochs(es, ks, t, bo), bo) == Ok(AllObjects(es), t)
    decreases |es|
  {
    if es != [] {
      EpochsUnfold(es, ks, t, bo);
      ClientDrainStops(es[0], ks[0], EncodeEpochs(es[1..], ks[1..], t, bo), bo);
      ClientMeets(es[1..], ks[1..], t, bo);
    }
    hide EpochsOk, EncodeMessages, AtBall, ClientDrain, Objects;
  }

  /** Any number of exchanges: whatever replies and requests were still under way at each, both ends
      drop at every reset exactly what the other sent since the reset before, stop exactly at its
      ball, and lose nothing after the last one. */
  lemma ExchangeMeets(replies: seq<seq<Message>>, requests: seq<seq<Message>>, js: seq<int>, ks: seq<int>,
                      later: seq<Byte>, later': seq<Byte>, bo: ByteOrder)
    requires EpochsOk(replies, js) && AllData(replies) && EpochsOk(requests, ks) && |replies| == |requests|
    ensures var n := |replies|;
      && ClientDrains(n, EncodeEpochs(replies, js, later, bo), bo) == Ok(AllObjects(replies), later)
      && ServerDrains(n, EncodeEpochs(requests, ks, later', bo), bo) == Ok(AllHeaders(requests), later')
  {
    ClientMeets(replies, js, later, bo);
    ServerMeets(requests, ks, later', bo);
    hide *;
  }
}
