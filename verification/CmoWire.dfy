/** The wire form of objects and messages, word by word: tag numbers, the order of the fields, and
    the bytes of one example of each kind. */
module CmoWire {
  import opened Basics
  import opened Bytes
  import opened BigInt
  import opened CmoCodec
  import opened CmoRoundTrip
  import opened OxSend
  import OxStream
  import Dump
  import CmoStray

  // ---------- words ----------

  function Weighed(s: seq<Byte>): nat
    requires |s| == 4
  {
    (s[0] as int) * 0x100_0000 + (s[1] as int) * 0x1_0000 + (s[2] as int) * 0x100 + s[3] as int
  }

  lemma WordWeighed(u: int)
    requires IsWord(u)
    ensures Weighed(WordBytes(u, Big)) == u && Weighed(Reverse(WordBytes(u, Little))) == u
  {
    var d := Digits256(u, 4);
    WordRoundTrip(u, Little);
    ValueOfFour(d);
    hide Digits256, Value256;
  }

  lemma ValueOfFour(d: seq<Byte>)
    requires |d| == 4
    ensures Value256(d)
      == d[0] as int + 0x100 * (d[1] as int) + 0x1_0000 * (d[2] as int) + 0x100_0000 * (d[3] as int)
  {
    assert Value256(d[1..][1..][1..][1..]) == 0;
    assert Value256(d[1..][1..][1..]) == d[3];
    assert Value256(d[1..][1..]) == d[2] as int + 0x100 * (d[3] as int);
  }

  /** In network order the first byte of an integer is the most significant one, in the other order
      the last; a negative integer is its two's complement. */
  lemma IntOnWire(x: int)
    requires IsInt32(x)
    ensures Weighed(IntBytes(x, Big)) == (if x < 0 then x + 0x1_0000_0000 else x)
    ensures IntBytes(x, Little) == Reverse(IntBytes(x, Big))
  {
    WordWeighed(ToWord(x));
    ReverseTwice(Digits256(ToWord(x), 4));
    hide Digits256;
  }

  /** The four bytes of a number are determined by their weighted sum. */
  lemma Unweigh(s: seq<Byte>, a: Byte, b: Byte, c: Byte, d: Byte)
    requires |s| == 4
    requires Weighed(s) == (a as int) * 0x100_0000 + (b as int) * 0x1_0000 + (c as int) * 0x100 + d as int
    ensures s == [a, b, c, d]
  {
    assert s == [s[0], s[1], s[2], s[3]];
    hide *;
    var x, y, z, w := s[0] as int, s[1] as int, s[2] as int, s[3] as int;
    SumOfFour(s);
    assert x == a as int;
    assert y == b as int;
    assert z == c as int;
  }

  lemma SumOfFour(s: seq<Byte>)
    requires |s| == 4
    ensures Weighed(s) == (s[0] as int) * 0x100_0000 + (s[1] as int) * 0x1_0000 + (s[2] as int) * 0x100 + s[3] as int
  {
  }

  lemma SmallInt(x: Byte)
    ensures IntBytes(x, Big) == [0, 0, 0, x]
  {
    hide *;
    ByteInt(x);
    IntOnWire(x);
    Unweigh(IntBytes(x, Big), 0, 0, 0, x);
  }

  lemma ByteInt(x: Byte)
    ensures IsInt32(x) && IsWord(x)
  {
  }

  lemma SmallWord(x: Byte)
    ensures WordBytes(x, Big) == [0, 0, 0, x]
  {
    hide *;
    ByteInt(x);
    WordWeighed(x);
    Unweigh(WordBytes(x, Big), 0, 0, 0, x);
  }

  // ---------- the fields in order ----------

  /** The number of each kind of object. */
  lemma TagNumbers(c: Cmo)
    requires !c.Missing?
    ensures c.Plain? ==> Code(c) == match c.plain case Null => 1 case Zero => 22 case DmsGeneric => 24
    ensures c.Wrapped? ==>
      Code(c) == match c.wrap case Mathcap => 5 case RingByName => 26 case Indeterminate => 60 case Error2 => 2130706434
    ensures c.Pair? ==> Code(c) == match c.pair case Recursive => 27 case Complex => 35 case Lambda => 62
    ensures (c.Int32? ==> Code(c) == 2) && (c.Str? ==> Code(c) == 4) && (c.Tree? ==> Code(c) == 61)
    ensures (c.List? ==> Code(c) == 17) && (c.Monomial32? ==> Code(c) == 19) && (c.ZZ? ==> Code(c) == 20)
    ensures (c.QQ? ==> Code(c) == 21) && (c.Distributed? ==> Code(c) == 31) && (c.PolyInOne? ==> Code(c) == 33)
    ensures c.Double? ==> Code(c) == 51
  {
  }

  /** The tag is the first word of every object. */
  lemma TagOnWire(c: Cmo, t: seq<Byte>, bo: ByteOrder)
    requires Sendable(c) && !c.Missing?
    ensures |Encode(c, bo)| >= 4
    ensures ReadInt(Encode(c, bo) + t, bo) == Ok(Code(c), Encode(c, bo)[4..] + t)
  {
    EncodeIs(c, bo);
    hide *;
    var h, b := IntBytes(Code(c), bo), Body(c, bo);
    Assoc(h, b, t);
    IntOnto(Code(c), b + t, bo);
    assert (h + b)[4..] == b;
  }

  /** One integer, or a length and characters. */
  lemma SimpleOnWire(c: Cmo, t: seq<Byte>, bo: ByteOrder)
    requires Sendable(c)
    ensures var s := Encode(c, bo)[4..] + t;
      && (c.Plain? ==> s == t)
      && (c.Int32? ==> ReadInt(s, bo) == Ok(c.i, t))
      && (c.Str? ==> ReadInt(s, bo) == Ok(|c.s|, c.s + t))
      && (c.ZZ? ==> ReadMpz(s, bo) == Ok(c.v, t))
      && (c.Double? ==> s == InOrder(c.image, bo) + t)
  {
    BodyAfterTag(c, bo);
    var s := Encode(c, bo)[4..] + t;
    if c.Int32? {
      IntOnto(c.i, t, bo);
    } else if c.Str? {
      Assoc(IntBytes(|c.s|, bo), c.s, t);
      IntOnto(|c.s|, c.s + t, bo);
    } else if c.ZZ? {
      MpzOnto(c.v, t, bo);
    } else if c.Plain? {
      assert s == [] + t == t;
    }
    hide Encode, IntBytes, ReadInt, ReadMpz, EncodeMpz, InOrder;
  }

  lemma BodyAfterTag(c: Cmo, bo: ByteOrder)
    requires Sendable(c)
    ensures !c.Missing? && |Encode(c, bo)| >= 4 && Encode(c, bo)[4..] == Body(c, bo)
  {
    EncodeIs(c, bo);
    assert (IntBytes(Code(c), bo) + Body(c, bo))[4..] == Body(c, bo);
    hide Encode, Body, IntBytes, Sendable;
  }

  /** A fraction: the numerator, then the denominator. */
  lemma FractionOnWire(num: int, den: int, t: seq<Byte>, bo: ByteOrder)
    requires MpzFits(num) && MpzFits(den)
    ensures Sendable(QQ(num, den))
    ensures var a := ReadMpz(Encode(QQ(num, den), bo)[4..] + t, bo);
      a.Ok? && a.value == num && ReadMpz(a.rest, bo) == Ok(den, t)
  {
    FractionBody(num, den, bo);
    hide *;
    var a, b := EncodeMpz(num, bo), EncodeMpz(den, bo);
    Assoc(a, b, t);
    MpzOnto(num, b + t, bo);
    MpzOnto(den, t, bo);
  }

  lemma FractionBody(num: int, den: int, bo: ByteOrder)
    requires MpzFits(num) && MpzFits(den)
    ensures Sendable(QQ(num, den)) && |Encode(QQ(num, den), bo)| >= 4
    ensures Encode(QQ(num, den), bo)[4..] == EncodeMpz(num, bo) + EncodeMpz(den, bo)
  {
    BodyAfterTag(QQ(num, den), bo);
    hide Encode, EncodeMpz, MpzFits;
  }

  /** Objects that hold others: which comes first. */
  lemma PartsOnWire(c: Cmo, t: seq<Byte>, bo: ByteOrder)
    requires Sendable(c)
    ensures var s := Encode(c, bo)[4..] + t;
      && (c.Wrapped? ==> Decode(s, bo) == Ok(c.ob, t))
      && (c.Pair? ==>
            var a := Decode(s, bo);
            a.Ok? && a.value == c.first && Decode(a.rest, bo) == Ok(c.second, t))
      && (c.Tree? ==>
            var a := Decode(s, bo);
            && a.Ok? && a.value == c.name
            && var b := Decode(a.rest, bo);
            && b.Ok? && b.value == c.attributes && Decode(b.rest, bo) == Ok(c.leaves, t))
  {
    BodyAfterTag(c, bo);
    var s := Encode(c, bo)[4..] + t;
    if c.Wrapped? {
      RoundTrip(c.ob, t, bo);
    } else if c.Pair? {
      TwoOnto(c.first, c.second, t, bo);
    } else if c.Tree? {
      var e := Encode(c.attributes, bo) + Encode(c.leaves, bo);
      Assoc(Encode(c.name, bo), e, t);
      RoundTrip(c.name, e + t, bo);
      TwoOnto(c.attributes, c.leaves, t, bo);
    }
    hide Encode, Decode;
  }

  lemma TwoOnto(a: Cmo, b: Cmo, t: seq<Byte>, bo: ByteOrder)
    requires Sendable(a) && Sendable(b)
    ensures Decode(Encode(a, bo) + Encode(b, bo) + t, bo) == Ok(a, Encode(b, bo) + t)
    ensures Decode(Encode(b, bo) + t, bo) == Ok(b, t)
  {
    Assoc(Encode(a, bo), Encode(b, bo), t);
    RoundTrip(a, Encode(b, bo) + t, bo);
    RoundTrip(b, t, bo);
    hide *;
  }

  /** Reads the items one after the other. */
  predicate ItemsFollow(items: seq<Cmo>, s: seq<Byte>, t: seq<Byte>, bo: ByteOrder) {
    if items == [] then s == t else
      var a := Decode(s, bo);
      a.Ok? && a.value == items[0] && ItemsFollow(items[1..], a.rest, t, bo)
  }

  lemma {:induction false} ItemsOnWire(items: seq<Cmo>, t: seq<Byte>, bo: ByteOrder)
    requires AllSendable(items)
    ensures ItemsFollow(items, EncodeAll(items, bo) + t, t, bo)
  {
    if items == [] {
      assert EncodeAll(items, bo) + t == t;
    } else {
      var e, u := Encode(items[0], bo), EncodeAll(items[1..], bo);
      Assoc(e, u, t);
      RoundTrip(items[0], u + t, bo);
      ItemsOnWire(items[1..], t, bo);
    }
    hide Encode, Decode, Sendable;
  }

  predicate TermsFollow(ts: seq<Term>, s: seq<Byte>, t: seq<Byte>, bo: ByteOrder) {
    if ts == [] then s == t else
      var e := ReadInt(s, bo);
      e.Ok? && e.value == ts[0].exp &&
      var a := Decode(e.rest, bo);
      a.Ok? && a.value == ts[0].coef && TermsFollow(ts[1..], a.rest, t, bo)
  }

  lemma {:induction false} TermsOnWire(ts: seq<Term>, t: seq<Byte>, bo: ByteOrder)
    requires TermsSendable(ts)
    ensures TermsFollow(ts, EncodeTerms(ts, bo) + t, t, bo)
  {
    if ts == [] {
      assert EncodeTerms(ts, bo) + t == t;
    } else {
      var x, c, u := IntBytes(ts[0].exp, bo), Encode(ts[0].coef, bo), EncodeTerms(ts[1..], bo);
      assert EncodeTerms(ts, bo) == x + c + u;
      Assoc(x + c, u, t);
      Assoc(x, c, u + t);
      IntOnto(ts[0].exp, c + (u + t), bo);
      RoundTrip(ts[0].coef, u + t, bo);
      TermsOnWire(ts[1..], t, bo);
    }
    hide Encode, Decode, Sendable, IntBytes, ReadInt;
  }

  /** Lists and polynomials: the count, what comes before the items, then the items. */
  lemma ListsOnWire(c: Cmo, t: seq<Byte>, bo: ByteOrder)
    requires Sendable(c)
    ensures var r := ReadInt(Encode(c, bo)[4..] + t, bo);
      && (c.List? ==> r.Ok? && r.value == |c.items| && ItemsFollow(c.items, r.rest, t, bo))
      && (c.Distributed? ==>
            r.Ok? && r.value == |c.monomials| &&
            var a := Decode(r.rest, bo);
            a.Ok? && a.value == c.ringdef && ItemsFollow(c.monomials, a.rest, t, bo))
      && (c.PolyInOne? ==>
            r.Ok? && r.value == |c.terms| &&
            var x := ReadInt(r.rest, bo);
            x.Ok? && x.value == c.variable && TermsFollow(c.terms, x.rest, t, bo))
      && (c.Monomial32? ==>
            r.Ok? && r.value == |c.exps| &&
            var xs := ReadInts(|c.exps|, r.rest, bo);
            xs.Ok? && xs.value == c.exps && Decode(xs.rest, bo) == Ok(c.coef, t))
  {
    BodyAfterTag(c, bo);
    if c.List? {
      var e := EncodeAll(c.items, bo);
      Assoc(IntBytes(|c.items|, bo), e, t);
      IntOnto(|c.items|, e + t, bo);
      ItemsOnWire(c.items, t, bo);
    } else if c.Distributed? {
      var r, e := Encode(c.ringdef, bo), EncodeAll(c.monomials, bo);
      AssocInside([], IntBytes(|c.monomials|, bo), r + e, t);
      Assoc(IntBytes(|c.monomials|, bo), r + e, t);
      Assoc(r, e, t);
      IntOnto(|c.monomials|, r + (e + t), bo);
      RoundTrip(c.ringdef, e + t, bo);
      ItemsOnWire(c.monomials, t, bo);
    } else if c.PolyInOne? {
      var x, e := IntBytes(c.variable, bo), EncodeTerms(c.terms, bo);
      Assoc(IntBytes(|c.terms|, bo), x + e, t);
      Assoc(x, e, t);
      IntOnto(|c.terms|, x + (e + t), bo);
      IntOnto(c.variable, e + t, bo);
      TermsOnWire(c.terms, t, bo);
    } else if c.Monomial32? {
      var x, e := EncodeInts(c.exps, bo), Encode(c.coef, bo);
      Assoc(IntBytes(|c.exps|, bo), x + e, t);
      Assoc(x, e, t);
      IntOnto(|c.exps|, x + (e + t), bo);
      IntsOnto(c.exps, e + t, bo);
      RoundTrip(c.coef, t, bo);
    }
    hide Encode, Decode, IntBytes, ReadInt, ReadInts, EncodeAll, EncodeInts, EncodeTerms, ItemsFollow, TermsFollow;
  }

  // ---------- examples, in network order ----------

  lemma MinusOne()
    ensures IntBytes(-1, Big) == [255, 255, 255, 255]
  {
    hide *;
    LiteralInts();
    IntOnWire(-1);
    Unweigh(IntBytes(-1, Big), 255, 255, 255, 255);
  }

  /** An integer of one word: its size with the sign, then the word. */
  lemma SmallMpz(x: Byte)
    requires x > 0
    ensures MpzFits(x) && EncodeMpz(x, Big) == [0, 0, 0, 1, 0, 0, 0, x]
    ensures MpzFits(-(x as int)) && EncodeMpz(-(x as int), Big) == [255, 255, 255, 255, 0, 0, 0, x]
  {
    OneWord(x);
    OneWord(-(x as int));
    SmallInt(1);
    MinusOne();
    SmallWord(x);
    hide IntBytes, WordBytes, Words;
  }

  lemma OneWord(v: int)
    requires 0 < Abs(v) < 256
    ensures MpzFits(v) && Words(v) == [Abs(v)] && SignedSize(v) == (if v < 0 then -1 else 1)
    ensures EncodeMpz(v, Big) == IntBytes(SignedSize(v), Big) + WordBytes(Abs(v), Big)
  {
    var a: nat := Abs(v);
    ToDigitsStep(a, WORD);
    DivisionUnique(a, WORD, 0, a);
    assert ToDigits(0, WORD) == [];
    assert Words(v) == [a];
    assert [a][1..] == [];
    assert EncodeWords([], Big) == [];
    assert EncodeWords([a], Big) == WordBytes(a, Big) + [] == WordBytes(a, Big);
    hide IntBytes, WordBytes;
  }

  /** A number of two words is sent low word first. */
  lemma TwoWords(x: Byte, y: Byte)
    requires y > 0
    ensures var v := (x as int) + 0x1_0000_0000 * (y as int);
      MpzFits(v) && EncodeMpz(v, Big) == [0, 0, 0, 2, 0, 0, 0, x, 0, 0, 0, y]
  {
    var v: nat := (x as int) + 0x1_0000_0000 * (y as int);
    ToDigitsStep(v, WORD);
    DivisionUnique(v, WORD, y as int, x as int);
    ToDigitsStep(y as int, WORD);
    DivisionUnique(y as int, WORD, 0, y as int);
    assert ToDigits(0, WORD) == [];
    var w := Words(v);
    assert w == [x as int, y as int] by {
      assert w[1..] == ToDigits(y as int, WORD);
      assert ToDigits(y as int, WORD)[1..] == [];
    }
    SmallInt(2);
    SmallWord(x);
    SmallWord(y);
    assert w[1..] == [y as int] && [y as int][1..] == [];
    assert EncodeWords([], Big) == [];
    assert EncodeWords([y as int], Big) == WordBytes(y as int, Big) + [] == WordBytes(y as int, Big);
    assert EncodeWords(w, Big) == WordBytes(x as int, Big) + EncodeWords([y as int], Big);
    hide IntBytes, WordBytes, ToDigits;
  }

  lemma EncodeParts(c: Cmo)
    requires Sendable(c)
    ensures !c.Missing? && IsInt32(Code(c)) && Encode(c, Big) == IntBytes(Code(c), Big) + Body(c, Big)
  {
    EncodeIs(c, Big);
    hide Body;
  }

  lemma PlainExamples()
    ensures Encode(Plain(Null), Big) == [0, 0, 0, 1] && Encode(Plain(Zero), Big) == [0, 0, 0, 22]
    ensures Encode(Plain(DmsGeneric), Big) == [0, 0, 0, 24]
  {
    Codes();
    hide IntBytes;
  }

  lemma TextExamples()
    ensures Encode(Int32(7), Big) == [0, 0, 0, 2, 0, 0, 0, 7]
    ensures Encode(Str([111, 120]), Big) == [0, 0, 0, 4, 0, 0, 0, 2, 111, 120]
  {
    Codes();
    hide IntBytes;
  }

  lemma DoubleExample()
    ensures Encode(Double([1, 2, 3, 4, 5, 6, 7, 8]), Big) == [0, 0, 0, 51, 8, 7, 6, 5, 4, 3, 2, 1]
  {
    Codes();
    hide IntBytes;
    assert Encode(Double([1, 2, 3, 4, 5, 6, 7, 8]), Big)
      == IntBytes(51, Big) + Reverse([1, 2, 3, 4, 5, 6, 7, 8]);
  }

  /** The small numbers of the examples. */
  lemma Codes()
    ensures forall x: Byte :: IntBytes(x, Big) == [0, 0, 0, x]
  {
    forall x: Byte
      ensures IntBytes(x, Big) == [0, 0, 0, x]
    {
      SmallInt(x);
    }
  }

  lemma IntegerExamples()
    ensures Sendable(ZZ(5)) && Encode(ZZ(5), Big) == [0, 0, 0, 20] + [0, 0, 0, 1, 0, 0, 0, 5]
    ensures Sendable(ZZ(-5)) && Encode(ZZ(-5), Big) == [0, 0, 0, 20] + [255, 255, 255, 255, 0, 0, 0, 5]
    ensures Sendable(ZZ(0x3_0000_0009))
      && Encode(ZZ(0x3_0000_0009), Big) == [0, 0, 0, 20] + [0, 0, 0, 2, 0, 0, 0, 9, 0, 0, 0, 3]
  {
    hide *;
    SmallMpz(5);
    TwoWords(9, 3);
    SmallInt(20);
    IntegerBytes(5);
    IntegerBytes(-5);
    IntegerBytes(0x3_0000_0009);
  }

  lemma IntegerBytes(v: int)
    requires MpzFits(v)
    ensures Sendable(ZZ(v)) && Encode(ZZ(v), Big) == IntBytes(20, Big) + EncodeMpz(v, Big)
  {
    EncodeParts(ZZ(v));
    hide Encode, IntBytes, EncodeMpz, MpzFits;
  }

  /** The fraction 2/3. */
  lemma FractionExample()
    ensures Sendable(QQ(2, 3))
      && Encode(QQ(2, 3), Big) == [0, 0, 0, 21] + ([0, 0, 0, 1, 0, 0, 0, 2] + [0, 0, 0, 1, 0, 0, 0, 3])
  {
    hide *;
    SmallMpz(2);
    SmallMpz(3);
    SmallInt(21);
    FractionBytes(2, 3);
  }

  lemma FractionBytes(num: int, den: int)
    requires MpzFits(num) && MpzFits(den)
    ensures Sendable(QQ(num, den))
      && Encode(QQ(num, den), Big) == IntBytes(21, Big) + (EncodeMpz(num, Big) + EncodeMpz(den, Big))
  {
    EncodeParts(QQ(num, den));
    hide Encode, IntBytes, EncodeMpz, MpzFits;
  }

  /** The objects 1, 2 and 3 of the next examples. */
  const ONE: Cmo := Int32(1)
  const TWO: Cmo := Int32(2)
  const THREE: Cmo := Int32(3)

  lemma Numbers()
    ensures Sendable(ONE) && Sendable(TWO) && Sendable(THREE)
    ensures Encode(ONE, Big) == [0, 0, 0, 2, 0, 0, 0, 1]
    ensures Encode(TWO, Big) == [0, 0, 0, 2, 0, 0, 0, 2]
    ensures Encode(THREE, Big) == [0, 0, 0, 2, 0, 0, 0, 3]
  {
    Codes();
    hide IntBytes;
  }

  lemma WrappedExamples()
    ensures Sendable(Wrapped(Mathcap, ONE))
      && Encode(Wrapped(Mathcap, ONE), Big) == [0, 0, 0, 5] + [0, 0, 0, 2, 0, 0, 0, 1]
    ensures Sendable(Wrapped(Error2, ONE))
      && Encode(Wrapped(Error2, ONE), Big) == [127, 0, 0, 2] + [0, 0, 0, 2, 0, 0, 0, 1]
  {
    hide *;
    Numbers();
    SmallInt(5);
    ErrorTag();
    WrappedCodes();
    WrappedBytes(Mathcap, ONE);
    WrappedBytes(Error2, ONE);
  }

  lemma WrappedCodes()
    ensures Code(Wrapped(Mathcap, ONE)) == 5 && Code(Wrapped(Error2, ONE)) == 2130706434
  {
  }

  lemma ErrorTag()
    ensures IntBytes(2130706434, Big) == [127, 0, 0, 2]
  {
    hide *;
    LiteralInts();
    IntOnWire(2130706434);
    Unweigh(IntBytes(2130706434, Big), 127, 0, 0, 2);
  }

  lemma LiteralInts()
    ensures IsInt32(-1) && IsInt32(2130706434)
  {
  }

  lemma PairExample()
    ensures Sendable(Pair(Complex, ONE, TWO))
      && Encode(Pair(Complex, ONE, TWO), Big)
        == [0, 0, 0, 35] + ([0, 0, 0, 2, 0, 0, 0, 1] + [0, 0, 0, 2, 0, 0, 0, 2])
  {
    hide *;
    Numbers();
    SmallInt(35);
    PairBytes(ONE, TWO);
  }

  lemma TreeExample()
    ensures Sendable(Tree(ONE, TWO, THREE))
      && Encode(Tree(ONE, TWO, THREE), Big)
        == [0, 0, 0, 61] + ([0, 0, 0, 2, 0, 0, 0, 1] + ([0, 0, 0, 2, 0, 0, 0, 2] + [0, 0, 0, 2, 0, 0, 0, 3]))
  {
    hide *;
    Numbers();
    SmallInt(61);
    TreeBytes(ONE, TWO, THREE);
  }

  lemma WrappedBytes(k: WrapTag, a: Cmo)
    requires Sendable(a)
    ensures Sendable(Wrapped(k, a)) && IsInt32(Code(Wrapped(k, a)))
      && Encode(Wrapped(k, a), Big) == IntBytes(Code(Wrapped(k, a)), Big) + Encode(a, Big)
  {
    WrappedBody(k, a);
    hide *;
    EncodeParts(Wrapped(k, a));
  }

  lemma WrappedBody(k: WrapTag, a: Cmo)
    requires Sendable(a)
    ensures Sendable(Wrapped(k, a)) && Body(Wrapped(k, a), Big) == Encode(a, Big)
  {
    hide Encode, IntBytes;
  }

  lemma PairBytes(a: Cmo, b: Cmo)
    requires Sendable(a) && Sendable(b)
    ensures Sendable(Pair(Complex, a, b))
      && Encode(Pair(Complex, a, b), Big) == IntBytes(35, Big) + (Encode(a, Big) + Encode(b, Big))
  {
    EncodeParts(Pair(Complex, a, b));
    hide Encode, IntBytes;
  }

  lemma TreeBytes(a: Cmo, b: Cmo, c: Cmo)
    requires Sendable(a) && Sendable(b) && Sendable(c)
    ensures Sendable(Tree(a, b, c))
      && Encode(Tree(a, b, c), Big) == IntBytes(61, Big) + (Encode(a, Big) + (Encode(b, Big) + Encode(c, Big)))
  {
    EncodeParts(Tree(a, b, c));
    hide Encode, IntBytes;
  }

  lemma ListExample()
    ensures Sendable(List([ONE, TWO]))
      && Encode(List([ONE, TWO]), Big)
        == [0, 0, 0, 17] + ([0, 0, 0, 2] + ([0, 0, 0, 2, 0, 0, 0, 1] + [0, 0, 0, 2, 0, 0, 0, 2]))
  {
    hide *;
    Numbers();
    SmallInt(17);
    SmallInt(2);
    ItemBytes(ONE, TWO);
    ListBytes([ONE, TWO]);
  }

  lemma ListBody(cs: seq<Cmo>)
    requires AllSendable(cs) && |cs| < 0x8000_0000
    ensures Sendable(List(cs)) && Code(List(cs)) == 17
    ensures Body(List(cs), Big) == IntBytes(|cs|, Big) + EncodeAll(cs, Big)
  {
    hide *;
    SendableList(cs);
    CmoStray.SmallTags();
    CmoStray.ListParts(List(cs), Big);
  }

  lemma SendableList(cs: seq<Cmo>)
    requires AllSendable(cs) && |cs| < 0x8000_0000
    ensures Sendable(List(cs))
  {
    hide AllSendable, TermsSendable, IntsFit, MpzFits;
  }

  lemma ListBytes(cs: seq<Cmo>)
    requires AllSendable(cs) && |cs| < 0x8000_0000
    ensures Sendable(List(cs))
      && Encode(List(cs), Big) == IntBytes(17, Big) + (IntBytes(|cs|, Big) + EncodeAll(cs, Big))
  {
    hide *;
    ListBody(cs);
    EncodeParts(List(cs));
  }

  lemma MonomialExample()
    ensures Sendable(Monomial32([4, 6], ONE))
      && Encode(Monomial32([4, 6], ONE), Big)
        == [0, 0, 0, 19] + ([0, 0, 0, 2] + ([0, 0, 0, 4] + [0, 0, 0, 6] + [0, 0, 0, 2, 0, 0, 0, 1]))
  {
    hide *;
    Numbers();
    SmallInt(19);
    SmallInt(2);
    SmallInt(4);
    SmallInt(6);
    ExponentBytes(4, 6);
    MonomialBytes([4, 6], ONE);
  }

  lemma MonomialBytes(xs: seq<int>, c: Cmo)
    requires IntsFit(xs) && |xs| < 0x8000_0000 && Sendable(c)
    ensures Sendable(Monomial32(xs, c))
      && Encode(Monomial32(xs, c), Big)
        == IntBytes(19, Big) + (IntBytes(|xs|, Big) + (EncodeInts(xs, Big) + Encode(c, Big)))
  {
    EncodeParts(Monomial32(xs, c));
    hide Encode, IntBytes, EncodeInts;
  }

  lemma DistributedExample()
    ensures Sendable(Distributed(THREE, [ONE, TWO]))
      && Encode(Distributed(THREE, [ONE, TWO]), Big)
        == [0, 0, 0, 31] + ([0, 0, 0, 2]
          + ([0, 0, 0, 2, 0, 0, 0, 3] + ([0, 0, 0, 2, 0, 0, 0, 1] + [0, 0, 0, 2, 0, 0, 0, 2])))
  {
    hide *;
    Numbers();
    SmallInt(31);
    SmallInt(2);
    ItemBytes(ONE, TWO);
    DistributedBytes(THREE, [ONE, TWO]);
  }

  lemma DistributedBytes(r: Cmo, ms: seq<Cmo>)
    requires Sendable(r) && AllSendable(ms) && |ms| < 0x8000_0000
    ensures Sendable(Distributed(r, ms))
      && Encode(Distributed(r, ms), Big)
        == IntBytes(31, Big) + (IntBytes(|ms|, Big) + (Encode(r, Big) + EncodeAll(ms, Big)))
  {
    EncodeParts(Distributed(r, ms));
    hide Encode, IntBytes, EncodeAll;
  }

  lemma PolyInOneExample()
    ensures Sendable(PolyInOne(9, [Term(4, ONE)]))
      && Encode(PolyInOne(9, [Term(4, ONE)]), Big)
        == [0, 0, 0, 33] + ([0, 0, 0, 1] + ([0, 0, 0, 9] + ([0, 0, 0, 4] + [0, 0, 0, 2, 0, 0, 0, 1])))
  {
    hide *;
    Numbers();
    SmallInt(33);
    SmallInt(1);
    SmallInt(9);
    SmallInt(4);
    ItemBytes(ONE, TWO);
    PolyInOneBytes(9, [Term(4, ONE)]);
  }

  lemma PolyInOneBody(x: int, ts: seq<Term>)
    requires 0 <= x < 0x8000_0000 && TermsSendable(ts) && |ts| < 0x8000_0000
    ensures Sendable(PolyInOne(x, ts)) && Code(PolyInOne(x, ts)) == 33
    ensures Body(PolyInOne(x, ts), Big) == IntBytes(|ts|, Big) + (IntBytes(x, Big) + EncodeTerms(ts, Big))
  {
    assert Sendable(PolyInOne(x, ts)) by { hide TermsSendable; }
    hide *;
    CmoStray.PolyInOneParts(PolyInOne(x, ts), Big);
  }

  lemma PolyInOneBytes(x: int, ts: seq<Term>)
    requires 0 <= x < 0x8000_0000 && TermsSendable(ts) && |ts| < 0x8000_0000
    ensures Sendable(PolyInOne(x, ts))
      && Encode(PolyInOne(x, ts), Big)
        == IntBytes(33, Big) + (IntBytes(|ts|, Big) + (IntBytes(x, Big) + EncodeTerms(ts, Big)))
  {
    hide *;
    PolyInOneBody(x, ts);
    EncodeParts(PolyInOne(x, ts));
  }

  lemma ItemBytes(a: Cmo, b: Cmo)
    requires Sendable(a) && Sendable(b)
    ensures AllSendable([a, b]) && EncodeAll([a, b], Big) == Encode(a, Big) + Encode(b, Big)
    ensures TermsSendable([Term(4, a)]) && EncodeTerms([Term(4, a)], Big) == IntBytes(4, Big) + Encode(a, Big)
  {
    assert [a, b][1..] == [b] && [b][1..] == [];
    assert AllSendable([]) && EncodeAll([], Big) == [];
    assert EncodeAll([b], Big) == Encode(b, Big) + [] == Encode(b, Big);
    var ts := [Term(4, a)];
    assert ts[1..] == [] && TermsSendable([]) && EncodeTerms([], Big) == [];
    assert TermSendable(ts[0]);
    assert EncodeTerms(ts, Big) == EncodeTerm(ts[0], Big) + [] == EncodeTerm(ts[0], Big);
    hide Encode, Sendable, IntBytes;
  }

  lemma ExponentBytes(x: Byte, y: Byte)
    ensures IntsFit([x as int, y as int])
    ensures EncodeInts([x as int, y as int], Big) == IntBytes(x, Big) + IntBytes(y, Big)
  {
    var xs := [x as int, y as int];
    assert xs[1..] == [y as int] && [y as int][1..] == [];
    assert EncodeInts([], Big) == [];
    assert EncodeInts([y as int], Big) == IntBytes(y as int, Big) + [] == IntBytes(y as int, Big);
    hide IntBytes;
  }

  /** Messages: tag, serial number, then the object or the code. */
  lemma MessageExamples()
    ensures OxStream.MessageOk(OxStream.Command(6, 1030))
      && OxStream.EncodeMessage(OxStream.Command(6, 1030), Big) == [0, 0, 2, 1] + [0, 0, 0, 6] + [0, 0, 4, 6]
    ensures OxStream.MessageOk(OxStream.Data(6, ONE))
      && OxStream.EncodeMessage(OxStream.Data(6, ONE), Big)
        == [0, 0, 2, 2] + [0, 0, 0, 6] + [0, 0, 0, 2, 0, 0, 0, 1]
    ensures OxStream.MessageOk(OxStream.Ball(6))
      && OxStream.EncodeMessage(OxStream.Ball(6), Big) == [0, 0, 2, 3] + [0, 0, 0, 6]
  {
    hide *;
    Numbers();
    SmallInt(6);
    TwoByteInt(2, 1);
    TwoByteInt(2, 2);
    TwoByteInt(2, 3);
    TwoByteInt(4, 6);
    MessageBytes(6, 1030, ONE);
  }

  lemma MessageBytes(serial: int, code: int, c: Cmo)
    requires 0 <= serial < 0x8000_0000 && 0 <= code < 0x8000_0000 && Sendable(c)
    ensures OxStream.MessageOk(OxStream.Command(serial, code))
      && OxStream.EncodeMessage(OxStream.Command(serial, code), Big)
        == IntBytes(513, Big) + IntBytes(serial, Big) + IntBytes(code, Big)
    ensures OxStream.MessageOk(OxStream.Data(serial, c))
      && OxStream.EncodeMessage(OxStream.Data(serial, c), Big)
        == IntBytes(514, Big) + IntBytes(serial, Big) + Encode(c, Big)
    ensures OxStream.MessageOk(OxStream.Ball(serial))
      && OxStream.EncodeMessage(OxStream.Ball(serial), Big) == IntBytes(515, Big) + IntBytes(serial, Big)
  {
    hide Encode, IntBytes, Sendable;
  }

  lemma TwoByteInt(y: Byte, x: Byte)
    ensures var v := (y as int) * 256 + x as int;
      IsInt32(v) && IntBytes(v, Big) == [0, 0, y, x]
  {
    var v := (y as int) * 256 + x as int;
    IntOnWire(v);
    Unweigh(IntBytes(v, Big), 0, 0, y, x);
    hide IntBytes, Weighed;
  }

  /** On a host with 64-bit limbs the dump keeps the low word of each limb: of 1 + 7*2^32 + 5*2^64
      the 7 is lost. */
  lemma WideDumpExample()
    ensures var v := 1 + 7 * 0x1_0000_0000 + 5 * 0x1_0000_0000_0000_0000;
      IsInt32(ToMpz(v, 2).size) && Dump.DumpMpz(v, 2) == [0, 0, 0, 2] + ([0, 0, 0, 1] + [0, 0, 0, 5])
  {
    var v: nat := 1 + 7 * 0x1_0000_0000 + 5 * 0x1_0000_0000_0000_0000;
    hide *;
    var a: nat := 1 + 7 * 0x1_0000_0000;
    WideLimbs(v, a);
    WideDump(v, a);
    SmallInt(2);
    SmallWord(1);
    SmallWord(5);
  }

  lemma WideLimbs(v: nat, a: nat)
    requires a == 1 + 7 * 0x1_0000_0000 && v == a + 5 * 0x1_0000_0000_0000_0000
    ensures LimbBase(2) == 0x1_0000_0000_0000_0000 && ToDigits(v, LimbBase(2)) == [a, 5]
  {
    var m := LimbBase(2);
    ToDigitsStep(v, m);
    DivisionUnique(v, m, 5, a);
    ToDigitsStep(5, m);
    DivisionUnique(5, m, 0, 5);
    assert ToDigits(0, m) == [];
    assert [5] + [] == [5] && [a] + [5] == [a, 5];
    hide ToDigits;
  }

  lemma WideDump(v: nat, a: nat)
    requires a == 1 + 7 * 0x1_0000_0000 && v > 0 && ToDigits(v, LimbBase(2)) == [a, 5]
    ensures IsInt32(ToMpz(v, 2).size) && Dump.DumpMpz(v, 2) == IntBytes(2, Big) + (WordBytes(1, Big) + WordBytes(5, Big))
  {
    var w := Dump.LowWords([a, 5]);
    assert w == [1, 5] by {
      assert [a, 5][1..] == [5] && [5][1..] == [];
      assert Dump.LowWords([]) == [];
      assert Dump.LowWords([5]) == [5];
      assert a % WORD == 1;
    }
    assert [1, 5][1..] == [5] && [5][1..] == [];
    assert EncodeWords([], Big) == [];
    assert EncodeWords([5], Big) == WordBytes(5, Big) + [] == WordBytes(5, Big);
    assert EncodeWords([1, 5], Big) == WordBytes(1, Big) + EncodeWords([5], Big);
    hide IntBytes, WordBytes, ToDigits, Dump.LowWords, EncodeWords;
  }
}
