/** Sending objects and messages on a connection. */
module OxSend {
  import opened Basics
  import opened Bytes
  import opened BigInt
  import opened CmoCodec
  import opened Connection
  import opened OxStream

  /** A GNU MP integer: the sign and count of its limbs, and the limbs, low limb first. */
  datatype Mpz = Mpz(size: int, limbs: seq<nat>)

  predicate MpzOk(m: Mpz, n: nat) {
    LimbWords(n) && |m.limbs| == Abs(m.size) && DigitsIn(m.limbs, LimbBase(n)) && Minimal(m.limbs)
  }

  function MpzValue(m: Mpz, n: nat): int
    requires LimbWords(n)
  {
    Signed(m.size, Value(m.limbs, LimbBase(n)))
  }

  /** The canonical representation on a host. */
  function ToMpz(v: int, n: nat): (m: Mpz)
    requires LimbWords(n)
    ensures MpzOk(m, n)
  {
    var limbs := ToDigits(Abs(v), LimbBase(n));
    Mpz(if v < 0 then -|limbs| else |limbs|, limbs)
  }

  lemma ToMpzValue(v: int, n: nat)
    requires LimbWords(n)
    ensures MpzValue(ToMpz(v, n), n) == v
  {
    ValueOfToDigits(Abs(v), LimbBase(n));
    hide Value;
  }

  /** The words sent are the canonical words of the value, their count carries its sign. */
  lemma WireIsWords(m: Mpz, n: nat)
    requires MpzOk(m, n)
    ensures Wire(m.limbs, n) == Words(MpzValue(m, n))
    ensures m.limbs != [] ==> Wire(m.limbs, n) != [] && MpzValue(m, n) != 0
  {
    WireCanonical(m.limbs, n);
    if m.limbs != [] {
      ValuePositive(m.limbs, LimbBase(n));
    }
    hide Wire, Value, ToDigits;
  }

  lemma EncodeWordsStep(w: seq<nat>, i: nat, bo: ByteOrder)
    requires DigitsIn(w, WORD) && i < |w|
    ensures IsWord(w[i]) && DigitsIn(w[i..], WORD) && DigitsIn(w[i + 1..], WORD)
    ensures EncodeWords(w[i..], bo) == WordBytes(w[i], bo) + EncodeWords(w[i + 1..], bo)
  {
    assert w[i..][1..] == w[i + 1..];
  }

  lemma WordAsInt(u: nat, bo: ByteOrder)
    requires IsWord(u)
    ensures IntBytes(FromWord(u), bo) == WordBytes(u, bo)
  {
  }

  method SendWords(f: OxFile, ptr: seq<nat>, len: nat)
    requires f.Valid() && len <= |ptr| && DigitsIn(ptr, WORD)
    modifies f`wire, f`wbufCount, f.Buffer()
    ensures f.Valid() && f.Sent() == old(f.Sent()) + EncodeWords(ptr[..len], f.Order32())
  {
    ghost var bo, sent, w := f.Order32(), f.Sent(), ptr[..len];
    DigitsPrefix(ptr, len);
    EncodeNothing(bo);
    hide *;
    assert w[0..] == w;
    var i := 0;
    while i < len
      invariant 0 <= i <= len
      invariant f.Valid() && f.Order32() == bo && DigitsIn(w[i..], WORD)
      invariant f.Sent() + EncodeWords(w[i..], bo) == sent + EncodeWords(w, bo)
    {
      EncodeWordsStep(w, i, bo);
      WordAsInt(w[i], bo);
      Assoc(f.Sent(), WordBytes(w[i], bo), EncodeWords(w[i + 1..], bo));
      f.SendInt32(FromWord(ptr[i]));
      i := i + 1;
    }
    assert w[i..] == [];
    assert f.Sent() + [] == f.Sent();
  }

  lemma EncodeNothing(bo: ByteOrder)
    ensures EncodeWords([], bo) == [] && EncodeInts([], bo) == []
  {
  }

  /** The whole encoding in terms of the limbs. */
  lemma EncodeMpzLimbs(m: Mpz, n: nat, bo: ByteOrder)
    requires MpzOk(m, n) && MpzFits(MpzValue(m, n))
    ensures var w := Wire(m.limbs, n);
      var len: int := |w|;
      var size := if m.size < 0 then -len else len;
      IsInt32(len) && EncodeMpz(MpzValue(m, n), bo) == IntBytes(size, bo) + EncodeWords(w, bo)
  {
    WireIsWords(m, n);
    hide Wire, Words, Value, EncodeWords, IntBytes;
  }

  lemma WireIsPrefix(limbs: seq<nat>, n: nat)
    requires LimbWords(n) && DigitsIn(limbs, LimbBase(n))
    ensures var ptr := Split(limbs, n);
      var len := |ptr|;
      Wire(limbs, n) == ptr[..if len > 0 && ptr[len - 1] == 0 then len - 1 else len]
  {
    hide Split;
  }

  lemma LimbsOk(m: Mpz, n: nat)
    requires MpzOk(m, n)
    ensures LimbWords(n) && DigitsIn(m.limbs, LimbBase(n))
  {
  }

  method SendSized(f: OxFile, size: int, ptr: seq<nat>, len: nat)
    requires f.Valid() && IsInt32(size) && len <= |ptr| && DigitsIn(ptr, WORD)
    modifies f`wire, f`wbufCount, f.Buffer()
    ensures f.Valid() && DigitsIn(ptr[..len], WORD)
    ensures f.Sent() == old(f.Sent()) + (IntBytes(size, f.Order32()) + EncodeWords(ptr[..len], f.Order32()))
  {
    DigitsPrefix(ptr, len);
    hide *;
    Assoc(f.Sent(), IntBytes(size, f.Order32()), EncodeWords(ptr[..len], f.Order32()));
    f.SendInt32(size);
    SendWords(f, ptr, len);
  }

  lemma DigitsPrefix(d: seq<nat>, len: nat)
    requires len <= |d| && DigitsIn(d, WORD)
    ensures DigitsIn(d[..len], WORD)
  {
  }

  method SendMpz(f: OxFile, m: Mpz)
    requires f.Valid() && MpzOk(m, f.limb) && MpzFits(MpzValue(m, f.limb))
    modifies f`wire, f`wbufCount, f.Buffer()
    ensures f.Valid()
    ensures f.Sent() == old(f.Sent()) + EncodeMpz(MpzValue(m, f.limb), f.Order32())
  {
    WireIsPrefix(m.limbs, f.limb);
    EncodeMpzLimbs(m, f.limb, f.Order32());
    LimbsOk(m, f.limb);
    hide *;
    var ptr := Split(m.limbs, f.limb);
    var len: int := |ptr|;
    if len > 0 && ptr[len - 1] == 0 {
      len := len - 1;
    }
    SendSized(f, if m.size < 0 then -len else len, ptr, len);
  }

  method SendValue(f: OxFile, v: int)
    requires f.Valid() && MpzFits(v)
    modifies f`wire, f`wbufCount, f.Buffer()
    ensures f.Valid()
    ensures f.Sent() == old(f.Sent()) + EncodeMpz(v, f.Order32())
  {
    ToMpzValue(v, f.limb);
    SendMpz(f, ToMpz(v, f.limb));
  }

  method SendInts(f: OxFile, xs: seq<int>)
    requires f.Valid() && IntsFit(xs)
    modifies f`wire, f`wbufCount, f.Buffer()
    ensures f.Valid()
    ensures f.Sent() == old(f.Sent()) + EncodeInts(xs, f.Order32())
  {
    ghost var bo, sent := f.Order32(), f.Sent();
    EncodeNothing(bo);
    hide *;
    assert xs[0..] == xs;
    var i := 0;
    while i < |xs|
      invariant 0 <= i <= |xs|
      invariant f.Valid() && f.Order32() == bo && IntsFit(xs[i..])
      invariant f.Sent() + EncodeInts(xs[i..], bo) == sent + EncodeInts(xs, bo)
    {
      EncodeIntsStep(xs, i, bo);
      Assoc(f.Sent(), IntBytes(xs[i], bo), EncodeInts(xs[i + 1..], bo));
      f.SendInt32(xs[i]);
      i := i + 1;
    }
    assert xs[i..] == [];
    assert f.Sent() + [] == f.Sent();
  }

  lemma EncodeIntsStep(xs: seq<int>, i: nat, bo: ByteOrder)
    requires IntsFit(xs) && i < |xs|
    ensures IsInt32(xs[i]) && IntsFit(xs[i..]) && IntsFit(xs[i + 1..])
    ensures EncodeInts(xs[i..], bo) == IntBytes(xs[i], bo) + EncodeInts(xs[i + 1..], bo)
  {
    assert xs[i..][1..] == xs[i + 1..];
  }

  // ---------- objects ----------

  method SendCmo(f: OxFile, c: Cmo)
    requires f.Valid() && f.Negotiated() && Sendable(c)
    modifies f`wire, f`wbufCount, f.Buffer()
    ensures f.Valid()
    ensures f.Sent() == old(f.Sent()) + Encode(c, f.Order32())
    decreases c, 3
  {
    var tag := Code(c);
    EncodeIs(c, f.Order32());
    Assoc(f.Sent(), IntBytes(tag, f.Order32()), Body(c, f.Order32()));
    hide *;
    f.SendInt32(tag);
    SendBody(f, c);
  }

  lemma EncodeIs(c: Cmo, bo: ByteOrder)
    requires Sendable(c)
    ensures IsInt32(Code(c)) && Encode(c, bo) == IntBytes(Code(c), bo) + Body(c, bo)
  {
  }

  method SendBody(f: OxFile, c: Cmo)
    requires f.Valid() && f.Negotiated() && Sendable(c)
    modifies f`wire, f`wbufCount, f.Buffer()
    ensures f.Valid()
    ensures f.Sent() == old(f.Sent()) + Body(c, f.Order32())
    decreases c, 2
  {
    match c
    case Plain(_) => assert f.Sent() + [] == f.Sent();
    case Int32(i) => f.SendInt32(i);
    case Str(s) => SendString(f, c);
    case Wrapped(_, ob) => SendCmo(f, ob);
    case Pair(_, _, _) => SendPair(f, c);
    case Tree(_, _, _) => SendTree(f, c);
    case List(_) => SendList(f, c);
    case Monomial32(_, _) => SendMonomial32(f, c);
    case ZZ(v) => SendValue(f, v);
    case QQ(_, _) => SendRational(f, c);
    case Distributed(_, _) => SendDistributed(f, c);
    case PolyInOne(_, _) => SendPolyInOne(f, c);
    case Double(d) => f.SendDouble(d);
  }

  method SendString(f: OxFile, c: Cmo)
    requires f.Valid() && f.Negotiated() && Sendable(c) && c.Str?
    modifies f`wire, f`wbufCount, f.Buffer()
    ensures f.Valid()
    ensures f.Sent() == old(f.Sent()) + Body(c, f.Order32())
  {
    Assoc(f.Sent(), IntBytes(|c.s|, f.Order32()), c.s);
    f.SendInt32(|c.s|);
    if |c.s| > 0 {
      f.Write(c.s);
    } else {
      assert f.Sent() + c.s == f.Sent();
    }
  }

  method SendRational(f: OxFile, c: Cmo)
    requires f.Valid() && f.Negotiated() && Sendable(c) && c.QQ?
    modifies f`wire, f`wbufCount, f.Buffer()
    ensures f.Valid()
    ensures f.Sent() == old(f.Sent()) + Body(c, f.Order32())
  {
    Assoc(f.Sent(), EncodeMpz(c.num, f.Order32()), EncodeMpz(c.den, f.Order32()));
    SendValue(f, c.num);
    SendValue(f, c.den);
  }

  method SendPair(f: OxFile, c: Cmo)
    requires f.Valid() && f.Negotiated() && Sendable(c) && c.Pair?
    modifies f`wire, f`wbufCount, f.Buffer()
    ensures f.Valid()
    ensures f.Sent() == old(f.Sent()) + Body(c, f.Order32())
    decreases c, 1
  {
    Assoc(f.Sent(), Encode(c.first, f.Order32()), Encode(c.second, f.Order32()));
    SendCmo(f, c.first);
    SendCmo(f, c.second);
  }

  method SendTree(f: OxFile, c: Cmo)
    requires f.Valid() && f.Negotiated() && Sendable(c) && c.Tree?
    modifies f`wire, f`wbufCount, f.Buffer()
    ensures f.Valid()
    ensures f.Sent() == old(f.Sent()) + Body(c, f.Order32())
    decreases c, 1
  {
    ghost var bo, sent := f.Order32(), f.Sent();
    ghost var n, a, l := Encode(c.name, bo), Encode(c.attributes, bo), Encode(c.leaves, bo);
    assert Body(c, bo) == n + (a + l);
    Assoc(sent, n, a + l);
    Assoc(sent + n, a, l);
    hide Encode, Body, Sendable;
    SendCmo(f, c.name);
    SendCmo(f, c.attributes);
    SendCmo(f, c.leaves);
  }

  method SendList(f: OxFile, c: Cmo)
    requires f.Valid() && f.Negotiated() && Sendable(c) && c.List?
    modifies f`wire, f`wbufCount, f.Buffer()
    ensures f.Valid()
    ensures f.Sent() == old(f.Sent()) + Body(c, f.Order32())
    decreases c, 1
  {
    ghost var bo := f.Order32();
    assert Body(c, bo) == IntBytes(|c.items|, bo) + EncodeAll(c.items, bo);
    Assoc(f.Sent(), IntBytes(|c.items|, bo), EncodeAll(c.items, bo));
    f.SendInt32(|c.items|);
    SendItems(f, c.items);
  }

  method SendMonomial32(f: OxFile, c: Cmo)
    requires f.Valid() && f.Negotiated() && Sendable(c) && c.Monomial32?
    modifies f`wire, f`wbufCount, f.Buffer()
    ensures f.Valid()
    ensures f.Sent() == old(f.Sent()) + Body(c, f.Order32())
    decreases c, 1
  {
    ghost var bo, sent := f.Order32(), f.Sent();
    ghost var n, x, e := IntBytes(|c.exps|, bo), EncodeInts(c.exps, bo), Encode(c.coef, bo);
    assert Body(c, bo) == n + (x + e);
    Assoc(sent, n, x + e);
    Assoc(sent + n, x, e);
    f.SendInt32(|c.exps|);
    SendInts(f, c.exps);
    SendCmo(f, c.coef);
  }

  method SendDistributed(f: OxFile, c: Cmo)
    requires f.Valid() && f.Negotiated() && Sendable(c) && c.Distributed?
    modifies f`wire, f`wbufCount, f.Buffer()
    ensures f.Valid()
    ensures f.Sent() == old(f.Sent()) + Body(c, f.Order32())
    decreases c, 1
  {
    ghost var bo, sent := f.Order32(), f.Sent();
    ghost var n, r, e := IntBytes(|c.monomials|, bo), Encode(c.ringdef, bo), EncodeAll(c.monomials, bo);
    assert Body(c, bo) == n + (r + e);
    Assoc(sent, n, r + e);
    Assoc(sent + n, r, e);
    f.SendInt32(|c.monomials|);
    SendCmo(f, c.ringdef);
    SendItems(f, c.monomials);
  }

  method SendPolyInOne(f: OxFile, c: Cmo)
    requires f.Valid() && f.Negotiated() && Sendable(c) && c.PolyInOne?
    modifies f`wire, f`wbufCount, f.Buffer()
    ensures f.Valid()
    ensures f.Sent() == old(f.Sent()) + Body(c, f.Order32())
    decreases c, 1
  {
    ghost var bo, sent := f.Order32(), f.Sent();
    ghost var n, x, e := IntBytes(|c.terms|, bo), IntBytes(c.variable, bo), EncodeTerms(c.terms, bo);
    assert Body(c, bo) == n + (x + e);
    Assoc(sent, n, x + e);
    Assoc(sent + n, x, e);
    f.SendInt32(|c.terms|);
    f.SendInt32(c.variable);
    SendTerms(f, c.terms);
  }

  lemma EncodeAllStep(cs: seq<Cmo>, i: nat, bo: ByteOrder)
    requires i < |cs| && AllSendable(cs[i..])
    ensures Sendable(cs[i]) && AllSendable(cs[i + 1..])
    ensures EncodeAll(cs[i..], bo) == Encode(cs[i], bo) + EncodeAll(cs[i + 1..], bo)
  {
    assert cs[i..][1..] == cs[i + 1..];
  }

  method SendItems(f: OxFile, cs: seq<Cmo>)
    requires f.Valid() && f.Negotiated() && AllSendable(cs)
    modifies f`wire, f`wbufCount, f.Buffer()
    ensures f.Valid()
    ensures f.Sent() == old(f.Sent()) + EncodeAll(cs, f.Order32())
    decreases cs, 0
  {
    ghost var bo, sent := f.Order32(), f.Sent();
    assert cs[0..] == cs;
    var i := 0;
    while i < |cs|
      invariant 0 <= i <= |cs|
      invariant f.Valid() && f.Negotiated() && f.Order32() == bo
      invariant AllSendable(cs[i..])
      invariant f.Sent() + EncodeAll(cs[i..], bo) == sent + EncodeAll(cs, bo)
    {
      EncodeAllStep(cs, i, bo);
      Assoc(f.Sent(), Encode(cs[i], bo), EncodeAll(cs[i + 1..], bo));
      SendCmo(f, cs[i]);
      i := i + 1;
      hide *;
    }
    assert cs[i..] == [];
    assert f.Sent() + [] == f.Sent();
  }

  lemma EncodeTermsStep(ts: seq<Term>, i: nat, bo: ByteOrder)
    requires i < |ts| && TermsSendable(ts[i..])
    ensures TermSendable(ts[i]) && TermsSendable(ts[i + 1..])
    ensures EncodeTerms(ts[i..], bo) == EncodeTerm(ts[i], bo) + EncodeTerms(ts[i + 1..], bo)
  {
    assert ts[i..][1..] == ts[i + 1..];
  }

  method SendTerm(f: OxFile, x: Term)
    requires f.Valid() && f.Negotiated() && TermSendable(x)
    modifies f`wire, f`wbufCount, f.Buffer()
    ensures f.Valid()
    ensures f.Sent() == old(f.Sent()) + EncodeTerm(x, f.Order32())
    decreases x, 0
  {
    ghost var bo := f.Order32();
    assert EncodeTerm(x, bo) == IntBytes(x.exp, bo) + Encode(x.coef, bo);
    Assoc(f.Sent(), IntBytes(x.exp, bo), Encode(x.coef, bo));
    f.SendInt32(x.exp);
    SendCmo(f, x.coef);
  }

  method SendTerms(f: OxFile, ts: seq<Term>)
    requires f.Valid() && f.Negotiated() && TermsSendable(ts)
    modifies f`wire, f`wbufCount, f.Buffer()
    ensures f.Valid()
    ensures f.Sent() == old(f.Sent()) + EncodeTerms(ts, f.Order32())
    decreases ts, 0
  {
    ghost var bo, sent := f.Order32(), f.Sent();
    assert ts[0..] == ts;
    var i := 0;
    while i < |ts|
      invariant 0 <= i <= |ts|
      invariant f.Valid() && f.Negotiated() && f.Order32() == bo
      invariant TermsSendable(ts[i..])
      invariant f.Sent() + EncodeTerms(ts[i..], bo) == sent + EncodeTerms(ts, bo)
    {
      EncodeTermsStep(ts, i, bo);
      Assoc(f.Sent(), EncodeTerm(ts[i], bo), EncodeTerms(ts[i + 1..], bo));
      SendTerm(f, ts[i]);
      i := i + 1;
      hide *;
    }
    assert ts[i..] == [];
    assert f.Sent() + [] == f.Sent();
  }

  // ---------- messages ----------

  method SendOxTag(f: OxFile, tag: int)
    requires f.Valid() && IsInt32(tag)
    modifies f`wire, f`wbufCount, f`serialNumber, f.Buffer()
    ensures f.Valid() && f.serialNumber == NextSerial(old(f.serialNumber))
    ensures f.Sent() == old(f.Sent()) + (IntBytes(tag, f.Order32()) + IntBytes(old(f.serialNumber), f.Order32()))
  {
    Assoc(f.Sent(), IntBytes(tag, f.Order32()), IntBytes(f.serialNumber, f.Order32()));
    f.SendInt32(tag);
    f.SendInt32(f.serialNumber);
    f.serialNumber := NextSerial(f.serialNumber);
  }

  /** Sends one message under the next serial number and flushes the buffer. */
  method SendOxCommand(f: OxFile, code: int)
    requires f.Valid() && IsInt32(code)
    modifies f`wire, f`wbufCount, f`serialNumber, f.Buffer()
    ensures f.Valid() && f.serialNumber == NextSerial(old(f.serialNumber))
    ensures f.wire == f.Sent() == old(f.Sent()) + EncodeMessage(Command(old(f.serialNumber), code), f.Order32())
  {
    ghost var bo, sent := f.Order32(), f.Sent();
    ghost var a, b, p := IntBytes(OX_COMMAND, bo), IntBytes(f.serialNumber, bo), IntBytes(code, bo);
    Assoc(a, b, p);
    Assoc(sent, a + b, p);
    SendOxTag(f, OX_COMMAND);
    f.SendInt32(code);
    f.Flush();
  }

  method SendOxCmo(f: OxFile, c: Cmo)
    requires f.Valid() && f.Negotiated() && Sendable(c)
    modifies f`wire, f`wbufCount, f`serialNumber, f.Buffer()
    ensures f.Valid() && f.serialNumber == NextSerial(old(f.serialNumber))
    ensures MessageOk(Data(old(f.serialNumber), c))
    ensures f.wire == f.Sent() == old(f.Sent()) + EncodeMessage(Data(old(f.serialNumber), c), f.Order32())
  {
    ghost var bo, sent := f.Order32(), f.Sent();
    ghost var a, b, p := IntBytes(OX_DATA, bo), IntBytes(f.serialNumber, bo), Encode(c, bo);
    Assoc(a, b, p);
    Assoc(sent, a + b, p);
    SendOxTag(f, OX_DATA);
    SendCmo(f, c);
    f.Flush();
  }

  /** The ball has no body, and the buffer is not flushed. */
  method SendBall(f: OxFile)
    requires f.Valid()
    modifies f`wire, f`wbufCount, f`serialNumber, f.Buffer()
    ensures f.Valid() && f.serialNumber == NextSerial(old(f.serialNumber))
    ensures f.Sent() == old(f.Sent()) + EncodeMessage(Ball(old(f.serialNumber)), f.Order32())
  {
    ghost var bo := f.Order32();
    assert IntBytes(f.serialNumber, bo) + [] == IntBytes(f.serialNumber, bo);
    SendOxTag(f, OX_SYNC_BALL);
  }
}
