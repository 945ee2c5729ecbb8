/** A connection end: the write buffer, the byte order chosen at the start, and the routines that
    send and receive integers. */
module Connection {
  import opened Basics
  import opened Bytes
  import opened BigInt
  import opened CmoCodec
  import opened CmoRoundTrip

  /** How the outcome of a receiving routine reaches its caller: the process exits at the end of
      the input. */
  datatype Read<T> = Got(value: T) | Exited | Undefined {
    predicate IsFailure() { !Got? }

    function PropagateFailure<U>(): Read<U>
      requires IsFailure()
    {
      if Exited? then Exited else Undefined
    }

    function Extract(): T
      requires Got?
    {
      value
    }
  }

  /** Network order or the order of the host's memory. */
  datatype Mode = Nbo | Lbo

  /** The first byte of the integer 1 in the host's memory. */
  function Offer(host: ByteOrder): Byte {
    IntBytes(1, host)[0]
  }

  lemma OffersDiffer()
    ensures Offer(Little) == 1 && Offer(Big) == 0
  {
    var d := Digits256(1, 4);
    assert d == [1] + Digits256(0, 3);
    assert Digits256(0, 3) == [0] + Digits256(0, 2);
    assert Digits256(0, 2) == [0] + Digits256(0, 1);
    assert Digits256(0, 1) == [0] + Digits256(0, 0);
  }

  /** The order on the wire once a host has seen its peer's offer. */
  function AgreedOrder(host: ByteOrder, received: Byte): ByteOrder {
    if received == Offer(host) then host else Big
  }

  /** Both ends of a connection settle on the same order: the little one when it is that of both
      hosts, and network order otherwise. */
  lemma HandshakeAgrees(a: ByteOrder, b: ByteOrder)
    ensures AgreedOrder(a, Offer(b)) == AgreedOrder(b, Offer(a))
    ensures AgreedOrder(a, Offer(b)) == if a.Little? && b.Little? then Little else Big
    ensures forall x: Byte :: AgreedOrder(a, x) == if a.Little? && x == 1 then Little else Big
  {
    OffersDiffer();
  }

  /** Bytes of a double, least significant first, in the memory of a host. */
  predicate IsImage(d: seq<Byte>) { |d| == 8 }

  lemma SwappedInt(x: int)
    requires IsInt32(x)
    ensures Reverse(IntBytes(x, Little)) == IntBytes(x, Big)
    ensures Reverse(IntBytes(x, Big)) == IntBytes(x, Little)
  {
    ReverseTwice(IntBytes(x, Little));
  }

  /** The two's complement of the next serial number. */
  function NextSerial(k: int): (r: int)
    requires IsInt32(k)
    ensures IsInt32(r)
  {
    if k + 1 == TWO_TO_THE_31 then -TWO_TO_THE_31 else k + 1
  }

  class OxFile {
    const host: ByteOrder
    /** The words in one limb of a big integer on this host. */
    const limb: nat

    /** The bytes handed to the operating system, and the bytes that have not been read. */
    var wire: seq<Byte>
    var input: seq<Byte>

    var wbuf: array?<Byte>
    var wbufSize: nat
    var wbufCount: nat

    /** Which of the sending and receiving routines are installed. */
    var mode32: Mode
    var mode64: Mode

    var serialNumber: int
    var receivedSerialNumber: int

    ghost predicate Valid()
      reads this
    {
      && LimbWords(limb) && (limb == 2 ==> host.Little?)
      && IsInt32(serialNumber)
      && (wbuf == null ==> wbufCount == 0)
      && (wbuf != null ==> wbufCount <= wbufSize <= wbuf.Length)
      && (mode64.Nbo? ==> host.Little?)
    }

    ghost function Buffer(): set<object>
      reads this
    {
      if wbuf == null then {} else {wbuf}
    }

    /** Everything written so far, in order. */
    ghost function Sent(): seq<Byte>
      requires Valid()
      reads this, Buffer()
    {
      if wbuf == null then wire else wire + wbuf[..wbufCount]
    }

    function Order32(): ByteOrder
      reads this
    {
      if mode32.Nbo? then Big else host
    }

    function Order64(): ByteOrder
      reads this
    {
      if mode64.Nbo? then Big else host
    }

    /** Integers and doubles travel in the same order: so it is once the order is determined. */
    ghost predicate Negotiated()
      reads this
    {
      Order32() == Order64()
    }

    /** Ready to exchange objects in the given order. */
    ghost predicate Ready(bo: ByteOrder)
      reads this
    {
      Valid() && Order32() == bo && Order64() == bo
    }

    constructor (h: ByteOrder, n: nat, s: seq<Byte>)
      requires LimbWords(n) && (n == 2 ==> h.Little?)
      ensures Valid() && Sent() == [] && input == s && host == h && limb == n
      ensures wbuf == null && Order32() == Big && Order64() == h
    {
      host, limb := h, n;
      wire, input := [], s;
      wbuf, wbufSize, wbufCount := null, 0, 0;
      mode32, mode64 := Nbo, Lbo;
      serialNumber, receivedSerialNumber := 0, 0;
    }

    // ---------- the write buffer ----------

    method Flush()
      requires Valid()
      modifies this`wire, this`wbufCount
      ensures Valid() && wbufCount == 0 && wire == Sent() == old(Sent())
    {
      if wbuf != null {
        wire := wire + wbuf[..wbufCount];
        wbufCount := 0;
      }
    }

    method SetBuffer(buffer: array?<Byte>, size: nat)
      requires Valid() && (buffer != null ==> size <= buffer.Length)
      modifies this`wire, this`wbuf, this`wbufSize, this`wbufCount
      ensures Valid() && Sent() == old(Sent()) && wire == Sent()
      ensures wbufSize == size && (wbuf == null <==> buffer == null && size == 0)
      ensures buffer != null ==> wbuf == buffer
      ensures buffer == null && size > 0 ==> fresh(wbuf)
    {
      var buf := buffer;
      if buf == null && size > 0 {
        buf := new Byte[size];
      }
      if wbuf != null {
        Flush();
      }
      wbuf, wbufSize, wbufCount := buf, size, 0;
    }

    method Write(bytes: seq<Byte>)
      requires Valid()
      modifies this`wire, this`wbufCount, Buffer()
      ensures Valid() && Sent() == old(Sent()) + bytes
    {
      if wbuf == null {
        wire := wire + bytes;
      } else if wbufCount + |bytes| >= wbufSize {
        Flush();
        wire := wire + bytes;
      } else {
        forall i | 0 <= i < |bytes| {
          wbuf[wbufCount + i] := bytes[i];
        }
        assert wbuf[..wbufCount + |bytes|] == old(wbuf[..wbufCount]) + bytes;
        wbufCount := wbufCount + |bytes|;
      }
    }

    /** A read that gets all it asks for, or exits at the end of the input. */
    method ReadBytes(n: nat) returns (r: Read<seq<Byte>>)
      modifies this`input
      ensures |old(input)| >= n ==> r == Got(old(input)[..n]) && input == old(input)[n..]
      ensures |old(input)| < n ==> r == Exited
    {
      if |input| < n {
        return Exited;
      }
      r := Got(input[..n]);
      input := input[n..];
    }

    // ---------- byte order ----------

    method SetOpt(same: bool)
      requires Valid()
      modifies this`mode32, this`mode64
      ensures Valid() && Negotiated() && Order32() == if same then host else Big
    {
      if !same && host.Little? {
        mode32, mode64 := Nbo, Nbo;
      } else {
        mode32, mode64 := Lbo, Lbo;
      }
    }

    method DetermineByteorderClient() returns (r: Read<Mode>)
      requires Valid()
      modifies this`input, this`wire, this`wbufCount, this`mode32, this`mode64, Buffer()
      ensures Valid()
      ensures old(input) == [] <==> r.Exited?
      ensures r.Got? ==> input == old(input)[1..] && Sent() == old(Sent()) + [Offer(host)]
      ensures r.Got? ==> Negotiated() && Order32() == AgreedOrder(host, old(input)[0])
    {
      var received :- ReadBytes(1);
      Write([Offer(host)]);
      SetOpt(received[0] == Offer(host));
      r := Got(mode32);
    }

    method DetermineByteorderServer() returns (r: Read<Mode>)
      requires Valid()
      modifies this`input, this`wire, this`wbufCount, this`mode32, this`mode64, Buffer()
      ensures Valid()
      ensures old(input) == [] <==> r.Exited?
      ensures Sent() == old(Sent()) + [Offer(host)]
      ensures r.Got? ==> input == old(input)[1..]
      ensures r.Got? ==> Negotiated() && Order32() == AgreedOrder(host, old(input)[0])
    {
      Write([Offer(host)]);
      var received :- ReadBytes(1);
      SetOpt(received[0] == Offer(host));
      r := Got(mode32);
    }

    // ---------- integers and doubles ----------

    method SendInt32(x: int)
      requires Valid() && IsInt32(x)
      modifies this`wire, this`wbufCount, Buffer()
      ensures Valid() && Sent() == old(Sent()) + IntBytes(x, Order32())
    {
      var memory := IntBytes(x, host);
      SwappedInt(x);
      if mode32.Nbo? && host.Little? {
        memory := Reverse(memory);
      }
      Write(memory);
    }

    /** The outcome and the input left are those of the specification. */
    ghost predicate Agrees<T>(r: Read<T>, d: Result<T>)
      reads this
    {
      match d
      case Ok(v, rest) => r == Got(v) && input == rest
      case Exit => r.Exited?
      case Outside => r.Undefined?
    }

    method ReceiveInt32() returns (r: Read<int>)
      modifies this`input
      ensures Agrees(r, ReadInt(old(input), Order32()))
    {
      var memory :- ReadBytes(4);
      ReverseTwice(memory);
      if mode32.Nbo? && host.Little? {
        memory := Reverse(memory);
      }
      r := Got(BytesInt(memory, host));
    }

    /** A double is eight bytes, here always listed least significant first. */
    method SendDouble(d: seq<Byte>)
      requires Valid() && IsImage(d)
      modifies this`wire, this`wbufCount, Buffer()
      ensures Valid() && Sent() == old(Sent()) + InOrder(d, Order64())
    {
      var memory := InOrder(d, host);
      if mode64.Nbo? {
        memory := Reverse(memory);
      }
      Write(memory);
    }

    method ReceiveDouble() returns (r: Read<seq<Byte>>)
      requires Valid()
      modifies this`input
      ensures |old(input)| < 8 ==> r.Exited?
      ensures |old(input)| >= 8 ==> r == Got(InOrder(old(input)[..8], Order64())) && input == old(input)[8..]
    {
      var memory :- ReadBytes(8);
      if mode64.Nbo? {
        memory := Reverse(memory);
      }
      r := Got(InOrder(memory, host));
    }
  }

  /** An object sent after the handshake arrives whole at the other end, whatever the byte orders
      of the two hosts. */
  lemma TransferAfterHandshake(a: ByteOrder, b: ByteOrder, c: Cmo, rest: seq<Byte>)
    requires Sendable(c)
    ensures Decode(Encode(c, AgreedOrder(a, Offer(b))) + rest, AgreedOrder(b, Offer(a))) == Ok(c, rest)
  {
    HandshakeAgrees(a, b);
    RoundTrip(c, rest, AgreedOrder(a, Offer(b)));
    hide *;
  }
}
