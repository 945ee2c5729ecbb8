/** Writing an object into a memory buffer whose size was computed beforehand. */
module Dump {
  import opened Basics
  import opened Bytes
  import opened BigInt
  import opened CmoCodec
  import opened OxSend
  import OxStream

  // ---------- the size ----------

  function LimbsOf(v: int, n: nat): nat
    requires LimbWords(n)
  {
    |ToMpz(v, n).limbs|
  }

  /** The size the program computes: an object it has no case for is a bare tag. */
  function CmoLen(c: Cmo, n: nat): nat
    requires LimbWords(n)
    decreases c, 1
  {
    match c
    case Int32(_) => 8
    case Str(s) => 8 + |s|
    case Wrapped(_, ob) => 4 + CmoLen(ob, n)
    case List(items) => 8 + ItemsLen(items, n)
    case Monomial32(exps, coef) => 4 + 4 * (|exps| + 1) + CmoLen(coef, n)
    case ZZ(v) => 8 + 4 * LimbsOf(v, n)
    case Distributed(r, ms) => 8 + ItemsLen(ms, n) + CmoLen(r, n)
    case _ => 4
  }

  function ItemsLen(cs: seq<Cmo>, n: nat): nat
    requires LimbWords(n)
    decreases cs, 0
  {
    if cs == [] then 0 else CmoLen(cs[0], n) + ItemsLen(cs[1..], n)
  }

  lemma {:induction false} ItemsLenAppend(cs: seq<Cmo>, i: nat, n: nat)
    requires LimbWords(n) && i < |cs|
    ensures ItemsLen(cs[..i + 1], n) == ItemsLen(cs[..i], n) + CmoLen(cs[i], n)
  {
    if i == 0 {
      assert cs[..1] == [cs[0]] && cs[..1][1..] == [] && cs[..0] == [];
    } else {
      ItemsLenAppend(cs[1..], i - 1, n);
      assert cs[1..][..i] == cs[..i + 1][1..];
      assert cs[1..][..i - 1] == cs[..i][1..];
    }
  }

  lemma SizeIsLimbs(v: int, n: nat)
    requires LimbWords(n)
    ensures Abs(ToMpz(v, n).size) == LimbsOf(v, n)
  {
  }

  method Cmolen(c: Cmo, n: nat) returns (size: nat)
    requires LimbWords(n)
    ensures size == CmoLen(c, n)
    decreases c, 1
  {
    hide ToMpz, MpzOk, LimbsOf, ItemsLen;
    size := 4;
    if c.Int32? {
      size := size + 4;
    } else if c.Str? {
      size := size + 4 + |c.s|;
    } else if c.Wrapped? {
      var k := Cmolen(c.ob, n);
      size := size + k;
    } else if c.List? {
      var k := CmolenList(c.items, n);
      size := size + k;
    } else if c.Monomial32? {
      var k := Cmolen(c.coef, n);
      size := size + (|c.exps| + 1) * 4 + k;
    } else if c.ZZ? {
      SizeIsLimbs(c.v, n);
      size := size + 4 + Abs(ToMpz(c.v, n).size) * 4;
    } else if c.Distributed? {
      var k := CmolenList(c.monomials, n);
      var k' := Cmolen(c.ringdef, n);
      size := size + k + k';
    }
  }

  method CmolenList(items: seq<Cmo>, n: nat) returns (size: nat)
    requires LimbWords(n)
    ensures size == 4 + ItemsLen(items, n)
    decreases items, 0
  {
    size := 4;
    for i := 0 to |items|
      invariant size == 4 + ItemsLen(items[..i], n)
    {
      ItemsLenAppend(items, i, n);
      var k := Cmolen(items[i], n);
      size := size + k;
    }
    assert items[..|items|] == items;
  }

  // ---------- the bytes ----------

  /** One word of each limb, the low one. */
  function LowWords(limbs: seq<nat>): (w: seq<nat>)
    ensures |w| == |limbs| && DigitsIn(w, WORD)
  {
    if limbs == [] then [] else [limbs[0] % WORD] + LowWords(limbs[1..])
  }

  function DumpMpz(v: int, n: nat): seq<Byte>
    requires LimbWords(n) && IsInt32(ToMpz(v, n).size)
  {
    var m := ToMpz(v, n);
    IntBytes(m.size, Big) + EncodeWords(LowWords(m.limbs), Big)
  }

  /** The limb count is at most the word count. */
  lemma LimbsFit(v: int, n: nat)
    requires LimbWords(n) && MpzFits(v)
    ensures IsInt32(ToMpz(v, n).size)
    ensures n == 1 ==> LimbsOf(v, n) == |Words(v)|
    ensures n == 2 ==> LimbsOf(v, n) == (|Words(v)| + 1) / 2
  {
    var m := ToMpz(v, n);
    ToMpzValue(v, n);
    WireIsWords(m, n);
    WireLength(m.limbs, n);
    hide ToDigits, Words, Wire;
  }

  lemma WireLength(limbs: seq<nat>, n: nat)
    requires LimbWords(n) && DigitsIn(limbs, LimbBase(n)) && Minimal(limbs)
    ensures n == 1 ==> |Wire(limbs, n)| == |limbs|
    ensures n == 2 ==> |limbs| == (|Wire(limbs, n)| + 1) / 2
  {
    hide Split;
    if n == 1 {
      SplitOne(limbs);
    }
  }

  lemma SplitOne(limbs: seq<nat>)
    requires DigitsIn(limbs, LimbBase(1))
    ensures Split(limbs, 1) == limbs
  {
  }

  /** What is written: only the tag of an object the program has no case for. */
  function DumpOf(c: Cmo, n: nat): seq<Byte>
    requires LimbWords(n) && Sendable(c)
    decreases c, 2
  {
    IntBytes(Code(c), Big) + DumpBody(c, n)
  }

  function DumpBody(c: Cmo, n: nat): seq<Byte>
    requires LimbWords(n) && Sendable(c)
    decreases c, 1
  {
    match c
    case Int32(i) => IntBytes(i, Big)
    case Str(s) => IntBytes(|s|, Big) + s
    case Wrapped(_, ob) => DumpOf(ob, n)
    case List(items) => IntBytes(|items|, Big) + DumpItems(items, n)
    case Monomial32(exps, coef) => IntBytes(|exps|, Big) + (EncodeInts(exps, Big) + DumpOf(coef, n))
    case ZZ(v) => (LimbsFit(v, n); DumpMpz(v, n))
    case Distributed(r, ms) => IntBytes(|ms|, Big) + (DumpOf(r, n) + DumpItems(ms, n))
    case _ => []
  }

  function DumpItems(cs: seq<Cmo>, n: nat): seq<Byte>
    requires LimbWords(n) && AllSendable(cs)
    decreases cs, 0
  {
    if cs == [] then [] else DumpOf(cs[0], n) + DumpItems(cs[1..], n)
  }

  lemma {:induction false} EncodeWordsLength(w: seq<nat>, bo: ByteOrder)
    requires DigitsIn(w, WORD)
    ensures |EncodeWords(w, bo)| == 4 * |w|
  {
    if w != [] {
      EncodeWordsLength(w[1..], bo);
    }
  }

  lemma {:induction false} EncodeIntsLength(xs: seq<int>, bo: ByteOrder)
    requires IntsFit(xs)
    ensures |EncodeInts(xs, bo)| == 4 * |xs|
  {
    if xs != [] {
      EncodeIntsLength(xs[1..], bo);
    }
  }

  /** The computed size is exact, for every object and limb size. */
  lemma {:induction false} DumpLength(c: Cmo, n: nat)
    requires LimbWords(n) && Sendable(c)
    ensures |DumpOf(c, n)| == CmoLen(c, n)
    decreases c, 1
  {
    match c
    case Wrapped(_, ob) => DumpLength(ob, n);
    case List(items) => ItemsLength(items, n);
    case Monomial32(exps, coef) =>
      EncodeIntsLength(exps, Big);
      DumpLength(coef, n);
    case ZZ(v) =>
      LimbsFit(v, n);
      EncodeWordsLength(LowWords(ToMpz(v, n).limbs), Big);
    case Distributed(r, ms) =>
      DumpLength(r, n);
      ItemsLength(ms, n);
    case _ =>
  }

  lemma {:induction false} ItemsLength(cs: seq<Cmo>, n: nat)
    requires LimbWords(n) && AllSendable(cs)
    ensures |DumpItems(cs, n)| == ItemsLen(cs, n)
    decreases cs, 0
  {
    if cs != [] {
      DumpLength(cs[0], n);
      ItemsLength(cs[1..], n);
    }
  }

  // ---------- against the wire ----------

  /** Objects the program has a case for, all the way down. */
  predicate Dumpable(c: Cmo)
    decreases c, 1
  {
    match c
    case Plain(_) => true
    case Int32(_) => true
    case Str(_) => true
    case Wrapped(_, ob) => Dumpable(ob)
    case List(items) => AllDumpable(items)
    case Monomial32(_, coef) => Dumpable(coef)
    case ZZ(_) => true
    case Distributed(r, ms) => Dumpable(r) && AllDumpable(ms)
    case _ => false
  }

  predicate AllDumpable(cs: seq<Cmo>)
    decreases cs, 0
  {
    cs == [] || (Dumpable(cs[0]) && AllDumpable(cs[1..]))
  }

  lemma {:induction false} LowWordsOfWords(w: seq<nat>)
    requires DigitsIn(w, WORD)
    ensures LowWords(w) == w
  {
    if w != [] {
      LowWordsOfWords(w[1..]);
    }
  }

  lemma DumpMpzIsEncodeMpz(v: int)
    requires MpzFits(v)
    ensures IsInt32(ToMpz(v, 1).size) && DumpMpz(v, 1) == EncodeMpz(v, Big)
  {
    LimbsFit(v, 1);
    LowWordsOfWords(Words(v));
    hide ToDigits;
  }

  lemma EncodeNonempty(c: Cmo, bo: ByteOrder)
    requires Sendable(c)
    ensures |Encode(c, bo)| >= 4
  {
  }

  /** Every integer inside fits one word. */
  predicate SmallIntegers(c: Cmo)
    decreases c, 1
  {
    match c
    case Wrapped(_, ob) => SmallIntegers(ob)
    case Pair(_, a, b) => SmallIntegers(a) && SmallIntegers(b)
    case Tree(n, a, l) => SmallIntegers(n) && SmallIntegers(a) && SmallIntegers(l)
    case List(items) => AllSmall(items)
    case Monomial32(_, coef) => SmallIntegers(coef)
    case ZZ(v) => Abs(v) < WORD
    case QQ(a, b) => Abs(a) < WORD && Abs(b) < WORD
    case Distributed(r, ms) => SmallIntegers(r) && AllSmall(ms)
    case PolyInOne(_, ts) => TermsSmall(ts)
    case _ => true
  }

  predicate AllSmall(cs: seq<Cmo>)
    decreases cs, 0
  {
    cs == [] || (SmallIntegers(cs[0]) && AllSmall(cs[1..]))
  }

  predicate TermsSmall(ts: seq<Term>)
    decreases ts, 0
  {
    ts == [] || (TermSmall(ts[0]) && TermsSmall(ts[1..]))
  }

  predicate TermSmall(t: Term)
    decreases t, 1
  {
    SmallIntegers(t.coef)
  }

  /** What comes out as it is sent: with one word per limb any object whose parts all have a case,
      with two words only one whose integers all fit a word. */
  predicate Faithful(c: Cmo, n: nat) { Dumpable(c) && (n == 2 ==> SmallIntegers(c)) }

  predicate AllFaithful(cs: seq<Cmo>, n: nat) { AllDumpable(cs) && (n == 2 ==> AllSmall(cs)) }

  /** An integer against the wire: the low word of every limb is all there is in it, or words are
      missing. */
  lemma MpzAgainstWire(v: int, n: nat)
    requires LimbWords(n) && MpzFits(v)
    ensures IsInt32(ToMpz(v, n).size)
    ensures n == 1 || Abs(v) < WORD ==> DumpMpz(v, n) == EncodeMpz(v, Big)
    ensures n == 2 && Abs(v) >= WORD ==> |DumpMpz(v, n)| < |EncodeMpz(v, Big)|
  {
    LimbsFit(v, n);
    if n == 1 {
      DumpMpzIsEncodeMpz(v);
    } else {
      var m := ToMpz(v, 2);
      EncodeWordsLength(LowWords(m.limbs), Big);
      EncodeWordsLength(Words(v), Big);
      OneWordIff(v);
      if Abs(v) < WORD {
        SmallMpz(v);
      }
    }
    hide ToDigits, EncodeWords, LowWords;
  }

  /** The buffer holds exactly what is sent in network order, or comes out shorter than it. */
  lemma {:induction false} DumpAgainstWire(c: Cmo, n: nat)
    requires LimbWords(n) && Sendable(c)
    ensures Faithful(c, n) ==> DumpOf(c, n) == Encode(c, Big)
    ensures !Faithful(c, n) ==> |DumpOf(c, n)| < |Encode(c, Big)|
    decreases c, 1
  {
    match c
    case Wrapped(_, ob) => DumpAgainstWire(ob, n);
    case List(items) => ItemsAgainstWire(items, n);
    case Monomial32(_, coef) => DumpAgainstWire(coef, n);
    case ZZ(v) => MpzDumped(v, n);
    case Distributed(r, ms) =>
      DumpAgainstWire(r, n);
      ItemsAgainstWire(ms, n);
    case _ => UndumpedShorter(c, n);
    hide DumpMpz, EncodeMpz, EncodeInts, EncodeTerms;
  }

  lemma MpzDumped(v: int, n: nat)
    requires LimbWords(n) && Sendable(ZZ(v))
    ensures Faithful(ZZ(v), n) ==> DumpOf(ZZ(v), n) == Encode(ZZ(v), Big)
    ensures !Faithful(ZZ(v), n) ==> |DumpOf(ZZ(v), n)| < |Encode(ZZ(v), Big)|
  {
    MpzAgainstWire(v, n);
    hide DumpMpz, EncodeMpz, ToMpz;
  }

  /** A bare tag, or an object whose body the program leaves out. */
  lemma UndumpedShorter(c: Cmo, n: nat)
    requires LimbWords(n) && Sendable(c)
    requires !c.Wrapped? && !c.List? && !c.Monomial32? && !c.ZZ? && !c.Distributed?
    ensures Faithful(c, n) ==> DumpOf(c, n) == Encode(c, Big)
    ensures !Faithful(c, n) ==> |DumpOf(c, n)| < |Encode(c, Big)|
  {
    match c
    case Pair(_, a, _) => EncodeNonempty(a, Big);
    case Tree(name, _, _) => EncodeNonempty(name, Big);
    case _ =>
  }

  lemma {:induction false} ItemsAgainstWire(cs: seq<Cmo>, n: nat)
    requires LimbWords(n) && AllSendable(cs)
    ensures AllFaithful(cs, n) ==> DumpItems(cs, n) == EncodeAll(cs, Big)
    ensures !AllFaithful(cs, n) ==> |DumpItems(cs, n)| < |EncodeAll(cs, Big)|
    decreases cs, 0
  {
    if cs != [] {
      DumpAgainstWire(cs[0], n);
      ItemsAgainstWire(cs[1..], n);
    }
  }

  /** So with one word per limb the buffer is what is sent if and only if every part has a case. */
  lemma DumpIsWireIff(c: Cmo)
    requires Sendable(c)
    ensures DumpOf(c, 1) == Encode(c, Big) <==> Dumpable(c)
  {
    DumpAgainstWire(c, 1);
    assert Faithful(c, 1) <==> Dumpable(c);
    hide *;
  }

  /** With two words per limb only the low word of each limb is written, so an object comes out as
      it is sent if and only if every part has a case and every integer in it fits one word. */
  lemma WideLimbsIff(c: Cmo)
    requires Sendable(c)
    ensures DumpOf(c, 2) == Encode(c, Big) <==> Dumpable(c) && SmallIntegers(c)
  {
    DumpAgainstWire(c, 2);
    assert Faithful(c, 2) <==> Dumpable(c) && SmallIntegers(c);
    hide *;
  }

  lemma OneWordIff(v: int)
    ensures |Words(v)| <= 1 <==> Abs(v) < WORD
  {
    var a: nat := Abs(v);
    if a != 0 {
      ToDigitsStep(a, WORD);
      QuotientRemainder(a, WORD);
    }
  }

  lemma SmallMpz(v: int)
    requires Abs(v) < WORD
    ensures ToMpz(v, 2).limbs == Words(v) && LowWords(Words(v)) == Words(v)
  {
    var a: nat := Abs(v);
    if a != 0 {
      ToDigitsStep(a, WORD);
      ToDigitsStep(a, WORD * WORD);
      DivisionUnique(a, WORD, 0, a);
      DivisionUnique(a, WORD * WORD, 0, a);
    }
    LowWordsOfWords(Words(v));
  }

  // ---------- the buffer ----------

  class Dumper {
    /** The size of a limb in words. */
    const limb: nat
    var dBuf: array<Byte>
    var dPtr: nat

    ghost predicate Valid()
      reads this
    {
      LimbWords(limb) && dPtr <= dBuf.Length
    }

    ghost function Written(): seq<Byte>
      requires Valid()
      reads this, dBuf
    {
      dBuf[..dPtr]
    }

    constructor (s: array<Byte>, n: nat)
      requires LimbWords(n)
      ensures Valid() && limb == n && dBuf == s && Written() == []
    {
      limb, dBuf, dPtr := n, s, 0;
    }

    method DumpString(s: seq<Byte>)
      requires Valid() && dPtr + |s| <= dBuf.Length
      modifies this`dPtr, dBuf
      ensures Valid() && Written() == old(Written()) + s && dPtr == old(dPtr) + |s|
    {
      forall i | 0 <= i < |s| {
        dBuf[dPtr + i] := s[i];
      }
      assert dBuf[..dPtr + |s|] == old(dBuf[..dPtr]) + s;
      dPtr := dPtr + |s|;
    }

    /** Network order. */
    method DumpInteger(x: int)
      requires Valid() && IsInt32(x) && dPtr + 4 <= dBuf.Length
      modifies this`dPtr, dBuf
      ensures Valid() && Written() == old(Written()) + IntBytes(x, Big) && dPtr == old(dPtr) + 4
    {
      DumpString(IntBytes(x, Big));
    }

    method DumpMpzOf(v: int)
      requires Valid() && IsInt32(ToMpz(v, limb).size) && dPtr + 4 + 4 * LimbsOf(v, limb) <= dBuf.Length
      modifies this`dPtr, dBuf
      ensures Valid() && Written() == old(Written()) + DumpMpz(v, limb)
    {
      var m := ToMpz(v, limb);
      ghost var written, w := Written(), LowWords(m.limbs);
      ghost var z := IntBytes(m.size, Big);
      Assoc(written, z, EncodeWords(w, Big));
      assert DumpMpz(v, limb) == z + EncodeWords(w, Big);
      DumpInteger(m.size);
      var len := Abs(m.size);
      assert w[0..] == w;
      var i := 0;
      while i < len
        invariant 0 <= i <= len == |w| && Valid() && dPtr + 4 * (len - i) <= dBuf.Length
        invariant Written() + EncodeWords(w[i..], Big) == written + z + EncodeWords(w, Big)
      {
        LowWordsAt(m.limbs, i);
        EncodeWordsStep(w, i, Big);
        WordAsInt(w[i], Big);
        Assoc(Written(), WordBytes(w[i], Big), EncodeWords(w[i + 1..], Big));
        hide IntBytes, WordBytes, EncodeWords, LowWords;
        DumpInteger(FromWord(m.limbs[i] % WORD));
        i := i + 1;
      }
      assert w[i..] == [];
      assert Written() + [] == Written();
    }

    method DumpInts(xs: seq<int>)
      requires Valid() && IntsFit(xs) && dPtr + 4 * |xs| <= dBuf.Length
      modifies this`dPtr, dBuf
      ensures Valid() && Written() == old(Written()) + EncodeInts(xs, Big)
    {
      ghost var written := Written();
      assert xs[0..] == xs;
      var i := 0;
      while i < |xs|
        invariant 0 <= i <= |xs| && Valid() && dPtr + 4 * (|xs| - i) <= dBuf.Length
        invariant Written() + EncodeInts(xs[i..], Big) == written + EncodeInts(xs, Big)
      {
        EncodeIntsStep(xs, i, Big);
        Assoc(Written(), IntBytes(xs[i], Big), EncodeInts(xs[i + 1..], Big));
        hide IntBytes, EncodeInts;
        DumpInteger(xs[i]);
        i := i + 1;
      }
      assert xs[i..] == [];
      assert Written() + [] == Written();
    }

    /** Writes the object: room for the computed size is enough, and all of it is used. */
    method DumpCmo(c: Cmo)
      requires Valid() && Sendable(c) && dPtr + CmoLen(c, limb) <= dBuf.Length
      modifies this`dPtr, dBuf
      ensures Valid() && dPtr == old(dPtr) + CmoLen(c, limb)
      ensures Written() == old(Written()) + DumpOf(c, limb)
      decreases c, 3
    {
      DumpIs(c, limb);
      var code := Code(c);
      Assoc(Written(), IntBytes(code, Big), DumpBody(c, limb));
      hide *;
      DumpInteger(code);
      DumpCmoBody(c);
    }

    method DumpCmoBody(c: Cmo)
      requires Valid() && Sendable(c) && dPtr + |DumpBody(c, limb)| <= dBuf.Length
      modifies this`dPtr, dBuf
      ensures Valid() && Written() == old(Written()) + DumpBody(c, limb) && dPtr == old(dPtr) + |DumpBody(c, limb)|
      decreases c, 2
    {
      match c {
        case Int32(i) => DumpInteger(i);
        case Str(s) =>
          Assoc(Written(), IntBytes(|s|, Big), s);
          DumpInteger(|s|);
          DumpString(s);
        case Wrapped(_, ob) =>
          DumpLength(ob, limb);
          DumpCmo(ob);
        case List(items) => DumpCmoList(c);
        case Monomial32(exps, coef) => DumpCmoMonomial32(c);
        case ZZ(v) =>
          LimbsFit(v, limb);
          EncodeWordsLength(LowWords(ToMpz(v, limb).limbs), Big);
          DumpMpzOf(v);
        case Distributed(r, ms) => DumpCmoDistributed(c);
        case _ => assert Written() + [] == Written();
      }
    }

    method DumpCmoList(c: Cmo)
      requires Valid() && Sendable(c) && c.List? && dPtr + |DumpBody(c, limb)| <= dBuf.Length
      modifies this`dPtr, dBuf
      ensures Valid() && Written() == old(Written()) + DumpBody(c, limb)
      decreases c, 1
    {
      ghost var n, e := IntBytes(|c.items|, Big), DumpItems(c.items, limb);
      assert DumpBody(c, limb) == n + e;
      Assoc(Written(), n, e);
      DumpInteger(|c.items|);
      DumpCells(c.items);
    }

    method DumpCmoMonomial32(c: Cmo)
      requires Valid() && Sendable(c) && c.Monomial32? && dPtr + |DumpBody(c, limb)| <= dBuf.Length
      modifies this`dPtr, dBuf
      ensures Valid() && Written() == old(Written()) + DumpBody(c, limb)
      decreases c, 1
    {
      ghost var n, x, e := IntBytes(|c.exps|, Big), EncodeInts(c.exps, Big), DumpOf(c.coef, limb);
      assert DumpBody(c, limb) == n + (x + e);
      Assoc(Written(), n, x + e);
      Assoc(Written() + n, x, e);
      EncodeIntsLength(c.exps, Big);
      DumpLength(c.coef, limb);
      hide CmoLen, DumpOf, DumpBody, EncodeInts;
      DumpInteger(|c.exps|);
      DumpInts(c.exps);
      DumpCmo(c.coef);
    }

    method DumpCmoDistributed(c: Cmo)
      requires Valid() && Sendable(c) && c.Distributed? && dPtr + |DumpBody(c, limb)| <= dBuf.Length
      modifies this`dPtr, dBuf
      ensures Valid() && Written() == old(Written()) + DumpBody(c, limb)
      decreases c, 1
    {
      ghost var n, r, e := IntBytes(|c.monomials|, Big), DumpOf(c.ringdef, limb), DumpItems(c.monomials, limb);
      assert DumpBody(c, limb) == n + (r + e);
      Assoc(Written(), n, r + e);
      Assoc(Written() + n, r, e);
      DumpLength(c.ringdef, limb);
      hide CmoLen, DumpOf, DumpBody, DumpItems;
      DumpInteger(|c.monomials|);
      DumpCmo(c.ringdef);
      DumpCells(c.monomials);
    }

    method DumpCells(cs: seq<Cmo>)
      requires Valid() && AllSendable(cs) && dPtr + |DumpItems(cs, limb)| <= dBuf.Length
      modifies this`dPtr, dBuf
      ensures Valid() && Written() == old(Written()) + DumpItems(cs, limb)
      decreases cs, 0
    {
      hide DumpOf, DumpItems, CmoLen, Sendable, AllSendable, LimbWords;
      ghost var written := Written();
      assert cs[0..] == cs;
      var i := 0;
      while i < |cs|
        invariant 0 <= i <= |cs| && Valid() && AllSendable(cs[i..]) && dPtr + |DumpItems(cs[i..], limb)| <= dBuf.Length
        invariant Written() + DumpItems(cs[i..], limb) == written + DumpItems(cs, limb)
      {
        DumpItemsStep(cs, i, limb);
        DumpLength(cs[i], limb);
        Assoc(Written(), DumpOf(cs[i], limb), DumpItems(cs[i + 1..], limb));
        DumpCmo(cs[i]);
        i := i + 1;
      }
      assert cs[i..] == [];
      NoItems(limb);
      assert Written() + [] == Written();
    }
  }

  lemma NoItems(n: nat)
    requires LimbWords(n)
    ensures AllSendable([]) && DumpItems([], n) == []
  {
  }

  lemma LowWordsAt(limbs: seq<nat>, i: nat)
    requires i < |limbs|
    ensures LowWords(limbs)[i] == limbs[i] % WORD
  {
    if i > 0 {
      LowWordsAt(limbs[1..], i - 1);
    }
  }

  lemma DumpIs(c: Cmo, n: nat)
    requires LimbWords(n) && Sendable(c)
    ensures !c.Missing? && IsInt32(Code(c)) && DumpOf(c, n) == IntBytes(Code(c), Big) + DumpBody(c, n)
    ensures CmoLen(c, n) == 4 + |DumpBody(c, n)|
  {
    DumpLength(c, n);
    EncodeIs(c, Big);
    hide CmoLen, DumpBody, Sendable, Code;
  }

  lemma DumpItemsStep(cs: seq<Cmo>, i: nat, n: nat)
    requires LimbWords(n) && i < |cs| && AllSendable(cs[i..])
    ensures Sendable(cs[i]) && AllSendable(cs[i + 1..])
    ensures DumpItems(cs[i..], n) == DumpOf(cs[i], n) + DumpItems(cs[i + 1..], n)
  {
    assert cs[i..][1..] == cs[i + 1..];
  }

  // ---------- the converter ----------

  /** What the converter is given: a bare object, or a message, whose serial number is -1. */
  datatype Expr = Object(cmo: Cmo) | Data(cmo: Cmo) | Command(code: int)

  predicate ExprOk(e: Expr) {
    match e
    case Object(c) => Sendable(c)
    case Data(c) => Sendable(c)
    case Command(code) => IsInt32(code)
  }

  function DumpExpr(e: Expr, n: nat): seq<Byte>
    requires LimbWords(n) && ExprOk(e)
  {
    match e
    case Object(c) => DumpOf(c, n)
    case Data(c) => IntBytes(OxStream.OX_DATA, Big) + (IntBytes(-1, Big) + DumpOf(c, n))
    case Command(code) => IntBytes(OxStream.OX_COMMAND, Big) + (IntBytes(-1, Big) + IntBytes(code, Big))
  }

  /** What the converter shows: a buffer of the size computed beforehand, filled exactly. */
  method Display(e: Expr, n: nat) returns (dBuff: array<Byte>)
    requires LimbWords(n) && ExprOk(e)
    ensures fresh(dBuff) && dBuff[..] == DumpExpr(e, n)
  {
    hide DumpOf, CmoLen, Sendable, IntBytes, LimbWords;
    var len: nat;
    match e {
      case Object(c) => len := Cmolen(c, n);
      case Data(c) => len := Cmolen(c, n); len := 8 + len;
      case Command(_) => len := 12;
    }
    dBuff := new Byte[len](_ => 0);
    var d := new Dumper(dBuff, n);
    match e {
      case Object(c) => d.DumpCmo(c);
      case Data(c) =>
        d.DumpInteger(OxStream.OX_DATA);
        d.DumpInteger(-1);
        d.DumpCmo(c);
        Assoc(IntBytes(OxStream.OX_DATA, Big), IntBytes(-1, Big), DumpOf(c, n));
      case Command(code) =>
        d.DumpInteger(OxStream.OX_COMMAND);
        d.DumpInteger(-1);
        d.DumpInteger(code);
        Assoc(IntBytes(OxStream.OX_COMMAND, Big), IntBytes(-1, Big), IntBytes(code, Big));
    }
    assert d.Written() == DumpExpr(e, n);
    assert dBuff[..len] == dBuff[..];
  }

  /** With one word per limb what is shown of a message is what is sent of it, serial number -1, if
      and only if every part of its object has a case. */
  lemma ExprIsWireIff(e: Expr)
    requires ExprOk(e)
    ensures e.Data? ==>
      OxStream.MessageOk(OxStream.Data(-1, e.cmo))
      && (DumpExpr(e, 1) == OxStream.EncodeMessage(OxStream.Data(-1, e.cmo), Big) <==> Dumpable(e.cmo))
    ensures e.Command? ==>
      OxStream.MessageOk(OxStream.Command(-1, e.code))
      && DumpExpr(e, 1) == OxStream.EncodeMessage(OxStream.Command(-1, e.code), Big)
  {
    hide DumpOf, Encode, Dumpable, Sendable, IntBytes;
    if e.Data? {
      DumpIsWireIff(e.cmo);
      var a, b := IntBytes(OxStream.OX_DATA, Big), IntBytes(-1, Big);
      SameTail(a + b, DumpOf(e.cmo, 1), Encode(e.cmo, Big));
      Assoc(a, b, DumpOf(e.cmo, 1));
      Assoc(a, b, Encode(e.cmo, Big));
    }
  }

  lemma SameTail(h: seq<Byte>, s: seq<Byte>, t: seq<Byte>)
    ensures h + s == h + t <==> s == t
  {
    if h + s == h + t {
      assert (h + s)[|h|..] == s && (h + t)[|h|..] == t;
    }
  }
}
