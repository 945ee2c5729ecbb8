/** Whatever is sent is received: decoding undoes encoding and consumes exactly the encoding. */
module CmoRoundTrip {
  import opened Basics
  import opened Bytes
  import opened BigInt
  import opened CmoCodec

  lemma IntOnto(x: int, t: seq<Byte>, bo: ByteOrder)
    requires IsInt32(x)
    ensures ReadInt(IntBytes(x, bo) + t, bo) == Ok(x, t)
  {
    var s := IntBytes(x, bo) + t;
    assert s[..4] == IntBytes(x, bo) && s[4..] == t;
    IntRoundTrip(x, bo);
  }

  lemma WordsStep(s: seq<Byte>, bo: ByteOrder, n: nat, x: nat, s1: seq<Byte>, w: seq<nat>, t: seq<Byte>)
    requires n > 0 && |s| >= 4 && BytesWord(s[..4], bo) == x && s[4..] == s1
    requires IsWord(x) && ReadWords(n - 1, s1, bo) == Ok(w, t)
    ensures ReadWords(n, s, bo) == Ok([x] + w, t)
  {
    hide BytesWord;
  }

  lemma WordsUnfold(w: seq<nat>, bo: ByteOrder)
    requires w != [] && DigitsIn(w, WORD)
    ensures IsWord(w[0]) && DigitsIn(w[1..], WORD) && w == [w[0]] + w[1..]
    ensures EncodeWords(w, bo) == WordBytes(w[0], bo) + EncodeWords(w[1..], bo)
  {
  }

  lemma FirstFour(h: seq<Byte>, t: seq<Byte>)
    requires |h| == 4
    ensures (h + t)[..4] == h && (h + t)[4..] == t
  {
  }

  lemma {:induction false} WordsOnto(w: seq<nat>, t: seq<Byte>, bo: ByteOrder)
    requires DigitsIn(w, WORD)
    ensures ReadWords(|w|, EncodeWords(w, bo) + t, bo) == Ok(w, t)
  {
    if w == [] {
      assert EncodeWords(w, bo) + t == t;
    } else {
      WordsUnfold(w, bo);
      hide *;
      var h, u := WordBytes(w[0], bo), EncodeWords(w[1..], bo);
      Assoc(h, u, t);
      FirstFour(h, u + t);
      WordRoundTrip(w[0], bo);
      WordsOnto(w[1..], t, bo);
      WordsStep(h + (u + t), bo, |w|, w[0], u + t, w[1..], t);
    }
  }

  lemma MpzStep(s: seq<Byte>, bo: ByteOrder, size: int, u: seq<Byte>, w: seq<nat>, t: seq<Byte>)
    requires ReadInt(s, bo) == Ok(size, u) && ReadWords(Abs(size), u, bo) == Ok(w, t)
    ensures ReadMpz(s, bo) == Ok(Signed(size, Value(w, WORD)), t)
  {
    hide ReadInt, ReadWords, Value;
  }

  lemma SignedSizeOf(v: int)
    requires MpzFits(v)
    ensures Abs(SignedSize(v)) == |Words(v)|
    ensures Signed(SignedSize(v), Abs(v)) == v
    ensures Value(Words(v), WORD) == Abs(v)
  {
    ValueOfToDigits(Abs(v), WORD);
    hide Value;
  }

  lemma MpzOnto(v: int, t: seq<Byte>, bo: ByteOrder)
    requires MpzFits(v)
    ensures ReadMpz(EncodeMpz(v, bo) + t, bo) == Ok(v, t)
  {
    var w, size := Words(v), SignedSize(v);
    var u := EncodeWords(w, bo);
    assert EncodeMpz(v, bo) == IntBytes(size, bo) + u;
    Assoc(IntBytes(size, bo), u, t);
    IntOnto(size, u + t, bo);
    WordsOnto(w, t, bo);
    SignedSizeOf(v);
    MpzStep(EncodeMpz(v, bo) + t, bo, size, u + t, w, t);
    hide *;
  }

  lemma {:induction false} CStringWhole(s: seq<Byte>)
    requires forall i :: 0 <= i < |s| ==> s[i] != 0
    ensures CString(s) == s
  {
    if s != [] {
      CStringWhole(s[1..]);
    }
  }

  lemma StringOnto(s: seq<Byte>, t: seq<Byte>, bo: ByteOrder)
    requires |s| < TWO_TO_THE_31 && forall i :: 0 <= i < |s| ==> s[i] != 0
    ensures ReadString(IntBytes(|s|, bo) + s + t, bo) == Ok(s, t)
  {
    assert IntBytes(|s|, bo) + s + t == IntBytes(|s|, bo) + (s + t);
    IntOnto(|s|, s + t, bo);
    assert (s + t)[..|s|] == s && (s + t)[|s|..] == t;
    CStringWhole(s);
    hide ReadInt, IntBytes, CString;
  }

  lemma IntsStep(s: seq<Byte>, bo: ByteOrder, n: nat, x: int, s1: seq<Byte>, xs: seq<int>, t: seq<Byte>)
    requires n > 0 && ReadInt(s, bo) == Ok(x, s1) && ReadInts(n - 1, s1, bo) == Ok(xs, t)
    ensures ReadInts(n, s, bo) == Ok([x] + xs, t)
  {
    hide ReadInt;
  }

  lemma IntsUnfold(xs: seq<int>, bo: ByteOrder)
    requires xs != [] && IntsFit(xs)
    ensures IsInt32(xs[0]) && IntsFit(xs[1..]) && xs == [xs[0]] + xs[1..]
    ensures EncodeInts(xs, bo) == IntBytes(xs[0], bo) + EncodeInts(xs[1..], bo)
  {
  }

  lemma {:induction false} IntsOnto(xs: seq<int>, t: seq<Byte>, bo: ByteOrder)
    requires IntsFit(xs)
    ensures ReadInts(|xs|, EncodeInts(xs, bo) + t, bo) == Ok(xs, t)
  {
    if xs == [] {
      assert EncodeInts(xs, bo) + t == t;
    } else {
      IntsUnfold(xs, bo);
      hide *;
      var h, u := IntBytes(xs[0], bo), EncodeInts(xs[1..], bo);
      Assoc(h, u, t);
      IntOnto(xs[0], u + t, bo);
      IntsOnto(xs[1..], t, bo);
      IntsStep(h + (u + t), bo, |xs|, xs[0], u + t, xs[1..], t);
    }
  }

  /** Main result: the receiver rebuilds the object and stops exactly where it ends, whatever
      follows and in either byte order. */
  lemma {:induction false} RoundTrip(c: Cmo, t: seq<Byte>, bo: ByteOrder)
    requires Sendable(c)
    ensures Decode(Encode(c, bo) + t, bo) == Ok(c, t)
    decreases c, 3
  {
    var b := Body(c, bo);
    assert IsInt32(Code(c));
    assert Encode(c, bo) + t == IntBytes(Code(c), bo) + (b + t);
    IntOnto(Code(c), b + t, bo);
    BodyOnto(c, t, bo);
    hide ReadInt, IntBytes, Body, DecodeTag, Encode, Code, Sendable;
  }

  lemma {:induction false} BodyOnto(c: Cmo, t: seq<Byte>, bo: ByteOrder)
    requires Sendable(c)
    ensures DecodeTag(Code(c), Body(c, bo) + t, bo) == Ok(c, t)
    decreases c, 2
  {
    match c
    case Wrapped(_, _) => WrappedOnto(c, t, bo);
    case Pair(_, _, _) => PairOnto(c, t, bo);
    case Tree(_, _, _) => TreeOnto(c, t, bo);
    case List(_) => ListOnto(c, t, bo);
    case Monomial32(_, _) => MonomialOnto(c, t, bo);
    case Distributed(_, _) => DistributedOnto(c, t, bo);
    case PolyInOne(_, _) => PolyInOneOnto(c, t, bo);
    case _ => LeafOnto(c, t, bo);
  }

  lemma LeafOnto(c: Cmo, t: seq<Byte>, bo: ByteOrder)
    requires Sendable(c) && (c.Plain? || c.Int32? || c.Str? || c.ZZ? || c.QQ? || c.Double?)
    ensures DecodeTag(Code(c), Body(c, bo) + t, bo) == Ok(c, t)
  {
    hide ReadInt, ReadString, ReadMpz, IntBytes, EncodeMpz, InOrder;
    match c
    case Plain(_) => assert [] + t == t;
    case Int32(i) => IntOnto(i, t, bo);
    case Str(s) => StringOnto(s, t, bo);
    case ZZ(v) => MpzOnto(v, t, bo);
    case QQ(a, b) =>
      var eb := EncodeMpz(b, bo);
      assert Body(c, bo) + t == EncodeMpz(a, bo) + (eb + t);
      MpzOnto(a, eb + t, bo);
      MpzOnto(b, t, bo);
    case Double(d) =>
      var e := InOrder(d, bo);
      assert (e + t)[..8] == e && (e + t)[8..] == t;
      InOrderTwice(d, bo);
  }

  lemma WrappedStep(g: WrapTag, s: seq<Byte>, bo: ByteOrder, a: Cmo, t: seq<Byte>)
    requires Decode(s, bo) == Ok(a, t)
    ensures DecodeTag(WrapCode(g), s, bo) == Ok(Wrapped(g, a), t)
  {
    assert WrapCode(g) in {5, 26, 60, 0x7f00_0002} && WrapOf(WrapCode(g)) == g;
    hide Decode;
  }

  lemma {:induction false} WrappedOnto(c: Cmo, t: seq<Byte>, bo: ByteOrder)
    requires Sendable(c) && c.Wrapped?
    ensures DecodeTag(Code(c), Body(c, bo) + t, bo) == Ok(c, t)
    decreases c, 1
  {
    assert Body(c, bo) == Encode(c.ob, bo) && Code(c) == WrapCode(c.wrap);
    RoundTrip(c.ob, t, bo);
    WrappedStep(c.wrap, Body(c, bo) + t, bo, c.ob, t);
    hide *;
  }

  lemma PairStep(g: PairTag, s: seq<Byte>, bo: ByteOrder, a: Cmo, s1: seq<Byte>, b: Cmo, t: seq<Byte>)
    requires Decode(s, bo) == Ok(a, s1) && Decode(s1, bo) == Ok(b, t)
    ensures DecodeTag(PairCode(g), s, bo) == Ok(Pair(g, a, b), t)
  {
    assert PairCode(g) in {27, 35, 62} && PairOf(PairCode(g)) == g;
    hide Decode;
  }

  lemma {:induction false} PairOnto(c: Cmo, t: seq<Byte>, bo: ByteOrder)
    requires Sendable(c) && c.Pair?
    ensures DecodeTag(Code(c), Body(c, bo) + t, bo) == Ok(c, t)
    decreases c, 1
  {
    var a, b := Encode(c.first, bo), Encode(c.second, bo);
    assert Body(c, bo) == a + b && Code(c) == PairCode(c.pair);
    Assoc(a, b, t);
    RoundTrip(c.first, b + t, bo);
    RoundTrip(c.second, t, bo);
    PairStep(c.pair, Body(c, bo) + t, bo, c.first, b + t, c.second, t);
    hide *;
  }

  lemma TreeStep(s: seq<Byte>, bo: ByteOrder, n: Cmo, s1: seq<Byte>, a: Cmo, s2: seq<Byte>, l: Cmo, t: seq<Byte>)
    requires Decode(s, bo) == Ok(n, s1) && Decode(s1, bo) == Ok(a, s2) && Decode(s2, bo) == Ok(l, t)
    ensures DecodeTag(TREE, s, bo) == Ok(Tree(n, a, l), t)
  {
    hide Decode;
  }

  lemma {:induction false} TreeOnto(c: Cmo, t: seq<Byte>, bo: ByteOrder)
    requires Sendable(c) && c.Tree?
    ensures DecodeTag(Code(c), Body(c, bo) + t, bo) == Ok(c, t)
    decreases c, 1
  {
    var n, a, l := Encode(c.name, bo), Encode(c.attributes, bo), Encode(c.leaves, bo);
    assert Body(c, bo) == n + (a + l) && Code(c) == TREE;
    Assoc(n, a + l, t);
    Assoc(a, l, t);
    RoundTrip(c.name, a + (l + t), bo);
    RoundTrip(c.attributes, l + t, bo);
    RoundTrip(c.leaves, t, bo);
    TreeStep(Body(c, bo) + t, bo, c.name, a + (l + t), c.attributes, l + t, c.leaves, t);
    hide *;
  }

  lemma ListStep(s: seq<Byte>, bo: ByteOrder, n: int, s1: seq<Byte>, cs: seq<Cmo>, t: seq<Byte>)
    requires ReadInt(s, bo) == Ok(n, s1) && DecodeMany(n, s1, bo) == Ok(cs, t)
    ensures DecodeTag(LIST, s, bo) == Ok(List(cs), t)
  {
    hide ReadInt, DecodeMany;
  }

  lemma {:induction false} ListOnto(c: Cmo, t: seq<Byte>, bo: ByteOrder)
    requires Sendable(c) && c.List?
    ensures DecodeTag(Code(c), Body(c, bo) + t, bo) == Ok(c, t)
    decreases c, 1
  {
    var e, n := EncodeAll(c.items, bo), IntBytes(|c.items|, bo);
    assert Body(c, bo) == n + e && Code(c) == LIST;
    Assoc(n, e, t);
    IntOnto(|c.items|, e + t, bo);
    ManyOnto(c.items, t, bo);
    ListStep(Body(c, bo) + t, bo, |c.items|, e + t, c.items, t);
    hide *;
  }

  lemma MonomialStep(s: seq<Byte>, bo: ByteOrder, n: int, s1: seq<Byte>, xs: seq<int>, s2: seq<Byte>,
                     c: Cmo, t: seq<Byte>)
    requires ReadInt(s, bo) == Ok(n, s1) && ReadInts(n, s1, bo) == Ok(xs, s2) && Decode(s2, bo) == Ok(c, t)
    ensures DecodeTag(MONOMIAL32, s, bo) == Ok(Monomial32(xs, c), t)
  {
    hide ReadInt, ReadInts, Decode;
  }

  lemma {:induction false} MonomialOnto(c: Cmo, t: seq<Byte>, bo: ByteOrder)
    requires Sendable(c) && c.Monomial32?
    ensures DecodeTag(Code(c), Body(c, bo) + t, bo) == Ok(c, t)
    decreases c, 1
  {
    var n, x, e := IntBytes(|c.exps|, bo), EncodeInts(c.exps, bo), Encode(c.coef, bo);
    assert Body(c, bo) == n + (x + e) && Code(c) == MONOMIAL32;
    Assoc(n, x + e, t);
    Assoc(x, e, t);
    IntOnto(|c.exps|, x + (e + t), bo);
    IntsOnto(c.exps, e + t, bo);
    RoundTrip(c.coef, t, bo);
    MonomialStep(Body(c, bo) + t, bo, |c.exps|, x + (e + t), c.exps, e + t, c.coef, t);
    hide *;
  }

  lemma DistributedStep(s: seq<Byte>, bo: ByteOrder, n: int, s1: seq<Byte>, r: Cmo, s2: seq<Byte>,
                        cs: seq<Cmo>, t: seq<Byte>)
    requires ReadInt(s, bo) == Ok(n, s1) && Decode(s1, bo) == Ok(r, s2) && DecodeMany(n, s2, bo) == Ok(cs, t)
    ensures DecodeTag(DISTRIBUTED, s, bo) == Ok(Distributed(r, cs), t)
  {
    hide ReadInt, DecodeMany, Decode;
  }

  lemma {:induction false} DistributedOnto(c: Cmo, t: seq<Byte>, bo: ByteOrder)
    requires Sendable(c) && c.Distributed?
    ensures DecodeTag(Code(c), Body(c, bo) + t, bo) == Ok(c, t)
    decreases c, 1
  {
    var m := |c.monomials|;
    var n, r, e := IntBytes(m, bo), Encode(c.ringdef, bo), EncodeAll(c.monomials, bo);
    assert Body(c, bo) == n + (r + e) && Code(c) == DISTRIBUTED;
    Assoc(n, r + e, t);
    Assoc(r, e, t);
    IntOnto(m, r + (e + t), bo);
    RoundTrip(c.ringdef, e + t, bo);
    ManyOnto(c.monomials, t, bo);
    DistributedStep(Body(c, bo) + t, bo, m, r + (e + t), c.ringdef, e + t, c.monomials, t);
    hide *;
  }

  lemma PolyInOneStep(s: seq<Byte>, bo: ByteOrder, n: int, s1: seq<Byte>, x: int, s2: seq<Byte>,
                      ts: seq<Term>, t: seq<Byte>)
    requires ReadInt(s, bo) == Ok(n, s1) && ReadInt(s1, bo) == Ok(x, s2) && DecodeTerms(n, s2, bo) == Ok(ts, t)
    ensures DecodeTag(POLY_IN_ONE, s, bo) == Ok(PolyInOne(x, ts), t)
  {
    hide ReadInt, DecodeTerms;
  }

  lemma {:induction false} PolyInOneOnto(c: Cmo, t: seq<Byte>, bo: ByteOrder)
    requires Sendable(c) && c.PolyInOne?
    ensures DecodeTag(Code(c), Body(c, bo) + t, bo) == Ok(c, t)
    decreases c, 1
  {
    var m := |c.terms|;
    var n, x, e := IntBytes(m, bo), IntBytes(c.variable, bo), EncodeTerms(c.terms, bo);
    assert Body(c, bo) == n + (x + e) && Code(c) == POLY_IN_ONE;
    Assoc(n, x + e, t);
    Assoc(x, e, t);
    IntOnto(m, x + (e + t), bo);
    IntOnto(c.variable, e + t, bo);
    TermsOnto(c.terms, t, bo);
    PolyInOneStep(Body(c, bo) + t, bo, m, x + (e + t), c.variable, e + t, c.terms, t);
    hide *;
  }

  lemma ManyStep(s: seq<Byte>, bo: ByteOrder, n: nat, c: Cmo, s1: seq<Byte>, cs: seq<Cmo>, t: seq<Byte>)
    requires n > 0 && Decode(s, bo) == Ok(c, s1) && DecodeMany(n - 1, s1, bo) == Ok(cs, t)
    ensures DecodeMany(n, s, bo) == Ok([c] + cs, t)
  {
    hide Decode;
  }

  lemma ManyUnfold(cs: seq<Cmo>, bo: ByteOrder)
    requires cs != [] && AllSendable(cs)
    ensures Sendable(cs[0]) && AllSendable(cs[1..]) && cs == [cs[0]] + cs[1..]
    ensures EncodeAll(cs, bo) == Encode(cs[0], bo) + EncodeAll(cs[1..], bo)
  {
  }

  lemma {:induction false} ManyOnto(cs: seq<Cmo>, t: seq<Byte>, bo: ByteOrder)
    requires AllSendable(cs)
    ensures DecodeMany(|cs|, EncodeAll(cs, bo) + t, bo) == Ok(cs, t)
    decreases cs, 0
  {
    if cs == [] {
      assert EncodeAll(cs, bo) + t == t;
    } else {
      ManyUnfold(cs, bo);
      hide *;
      var e, u := Encode(cs[0], bo), EncodeAll(cs[1..], bo);
      Assoc(e, u, t);
      RoundTrip(cs[0], u + t, bo);
      ManyOnto(cs[1..], t, bo);
      ManyStep(e + (u + t), bo, |cs|, cs[0], u + t, cs[1..], t);
    }
  }

  /** The exponent and the coefficient, one after the other. */
  ghost predicate ReadsTerm(s: seq<Byte>, bo: ByteOrder, x: Term, t: seq<Byte>) {
    var e := ReadInt(s, bo);
    e.Ok? && e.value == x.exp && Decode(e.rest, bo) == Ok(x.coef, t)
  }

  lemma {:induction false} TermOnto(x: Term, t: seq<Byte>, bo: ByteOrder)
    requires TermSendable(x)
    ensures ReadsTerm(EncodeTerm(x, bo) + t, bo, x, t)
    decreases x, 0
  {
    var h, u := IntBytes(x.exp, bo), Encode(x.coef, bo);
    assert EncodeTerm(x, bo) == h + u;
    Assoc(h, u, t);
    IntOnto(x.exp, u + t, bo);
    RoundTrip(x.coef, t, bo);
    hide ReadInt, Decode, IntBytes, Encode;
  }

  lemma TermsStep(s: seq<Byte>, bo: ByteOrder, n: nat, x: Term, s1: seq<Byte>, ts: seq<Term>, t: seq<Byte>)
    requires n > 0 && ReadsTerm(s, bo, x, s1) && DecodeTerms(n - 1, s1, bo) == Ok(ts, t)
    ensures DecodeTerms(n, s, bo) == Ok([x] + ts, t)
  {
    hide ReadInt, Decode;
  }

  lemma TermsUnfold(ts: seq<Term>, bo: ByteOrder)
    requires ts != [] && TermsSendable(ts)
    ensures TermSendable(ts[0]) && TermsSendable(ts[1..]) && ts == [ts[0]] + ts[1..]
    ensures EncodeTerms(ts, bo) == EncodeTerm(ts[0], bo) + EncodeTerms(ts[1..], bo)
  {
  }

  lemma {:induction false} TermsOnto(ts: seq<Term>, t: seq<Byte>, bo: ByteOrder)
    requires TermsSendable(ts)
    ensures DecodeTerms(|ts|, EncodeTerms(ts, bo) + t, bo) == Ok(ts, t)
    decreases ts, 0
  {
    if ts == [] {
      assert EncodeTerms(ts, bo) + t == t;
    } else {
      TermsUnfold(ts, bo);
      hide *;
      var e, u := EncodeTerm(ts[0], bo), EncodeTerms(ts[1..], bo);
      Assoc(e, u, t);
      TermOnto(ts[0], u + t, bo);
      TermsOnto(ts[1..], t, bo);
      TermsStep(e + (u + t), bo, |ts|, ts[0], u + t, ts[1..], t);
    }
  }

  /** No encoding is a proper beginning of another, and different objects differ on the wire. */
  lemma PrefixFree(a: Cmo, b: Cmo, t: seq<Byte>, u: seq<Byte>, bo: ByteOrder)
    requires Sendable(a) && Sendable(b)
    requires Encode(a, bo) + t == Encode(b, bo) + u
    ensures a == b && t == u
  {
    RoundTrip(a, t, bo);
    RoundTrip(b, u, bo);
  }
}
