/** Bytes that are no encoding: what is cut short, and what no sender of this model writes. */
module CmoStray {
  import opened Basics
  import opened Bytes
  import opened BigInt
  import opened CmoCodec
  import opened CmoRoundTrip
  import opened OxSend
  import Dump

  /** The first k bytes of a followed by b. */
  lemma CutSum(a: seq<Byte>, b: seq<Byte>, k: nat)
    requires k <= |a| + |b|
    ensures (a + b)[..k] == if k <= |a| then a[..k] else a + b[..k - |a|]
  {
  }

  // ---------- numbers cut short ----------

  lemma {:induction false} ShortWords(n: nat, s: seq<Byte>, bo: ByteOrder)
    ensures ReadWords(n, s, bo).Exit? <==> |s| < 4 * n
  {
    if n > 0 && |s| >= 4 {
      ShortWords(n - 1, s[4..], bo);
    }
  }

  lemma {:induction false} ShortInts(n: nat, s: seq<Byte>, bo: ByteOrder)
    ensures ReadInts(n, s, bo).Exit? <==> |s| < 4 * n
    ensures !ReadInts(n, s, bo).Outside?
    decreases n
  {
    if n > 0 && |s| >= 4 {
      ShortInts(n - 1, s[4..], bo);
    }
  }

  lemma IntLength(x: int, bo: ByteOrder)
    requires IsInt32(x)
    ensures |IntBytes(x, bo)| == 4
  {
  }

  lemma MpzLength(v: int, bo: ByteOrder)
    requires MpzFits(v)
    ensures |EncodeMpz(v, bo)| == 4 + 4 * |Words(v)|
    ensures EncodeMpz(v, bo) == IntBytes(SignedSize(v), bo) + EncodeWords(Words(v), bo)
    ensures IsInt32(SignedSize(v)) && Abs(SignedSize(v)) == |Words(v)|
  {
    SignedSizeOf(v);
    Dump.EncodeWordsLength(Words(v), bo);
    hide Words, EncodeWords, Value;
  }

  lemma MpzCut(v: int, k: nat, bo: ByteOrder)
    requires MpzFits(v) && k < |EncodeMpz(v, bo)|
    ensures ReadMpz(EncodeMpz(v, bo)[..k], bo).Exit?
  {
    MpzLength(v, bo);
    var h, w := IntBytes(SignedSize(v), bo), EncodeWords(Words(v), bo);
    IntLength(SignedSize(v), bo);
    CutSum(h, w, k);
    if k >= 4 {
      var u := w[..k - 4];
      assert EncodeMpz(v, bo)[..k] == h + u;
      IntOnto(SignedSize(v), u, bo);
      ShortWords(|Words(v)|, u, bo);
    }
    hide IntBytes, EncodeWords, Words, ReadWords, EncodeMpz, MpzFits;
  }

  // ---------- objects cut short ----------

  /** Main result: a receiver that finds the input ended inside an object exits, wherever it ends. */
  lemma {:induction false} CutExits(c: Cmo, k: nat, bo: ByteOrder)
    requires Sendable(c) && k < |Encode(c, bo)|
    ensures Decode(Encode(c, bo)[..k], bo).Exit?
    decreases c, 3
  {
    EncodeIs(c, bo);
    var h, b := IntBytes(Code(c), bo), Body(c, bo);
    CutSum(h, b, k);
    if k < 4 {
      ShortHeader(Encode(c, bo)[..k], bo);
    } else {
      IntOnto(Code(c), b[..k - 4], bo);
      BodyCut(c, k - 4, bo);
      HeaderThen(h + b[..k - 4], bo, Code(c), b[..k - 4]);
    }
    hide *;
  }

  lemma ShortHeader(s: seq<Byte>, bo: ByteOrder)
    requires |s| < 4
    ensures ReadInt(s, bo).Exit? && Decode(s, bo).Exit?
  {
  }

  lemma HeaderThen(s: seq<Byte>, bo: ByteOrder, tag: int, t: seq<Byte>)
    requires ReadInt(s, bo) == Ok(tag, t)
    ensures Decode(s, bo) == DecodeTag(tag, t, bo)
  {
    hide ReadInt, DecodeTag;
  }

  lemma {:induction false} BodyCut(c: Cmo, k: nat, bo: ByteOrder)
    requires Sendable(c) && k < |Body(c, bo)|
    ensures DecodeTag(Code(c), Body(c, bo)[..k], bo).Exit?
    decreases c, 2
  {
    if c.Wrapped? {
      WrappedParts(c, bo);
      CutExits(c.ob, k, bo);
      WrappedExits(c.wrap, Body(c, bo)[..k], bo);
    } else if c.Pair? {
      PairCut(c, k, bo);
    } else if c.Tree? {
      TreeCut(c, k, bo);
    } else if c.List? {
      ListCut(c, k, bo);
    } else if c.Monomial32? {
      MonomialCut(c, k, bo);
    } else if c.Distributed? {
      DistributedCut(c, k, bo);
    } else if c.PolyInOne? {
      PolyInOneCut(c, k, bo);
    } else {
      SendableHere(c);
      LeafCut(c, k, bo);
    }
    hide *;
  }

  lemma SendableHere(c: Cmo)
    requires Sendable(c)
    ensures !c.Missing?
  {
  }

  lemma LeafCut(c: Cmo, k: nat, bo: ByteOrder)
    requires Sendable(c) && k < |Body(c, bo)|
    requires c.Plain? || c.Int32? || c.Str? || c.ZZ? || c.QQ? || c.Double?
    ensures DecodeTag(Code(c), Body(c, bo)[..k], bo).Exit?
  {
    hide ReadString, ReadMpz, EncodeMpz, InOrder, IntBytes, ReadInt, Decode, DecodeMany, DecodeTerms, MpzFits;
    if c.Int32? {
      IntLength(c.i, bo);
      ShortHeader(Body(c, bo)[..k], bo);
    } else if c.Str? {
      StringCut(c.s, k, bo);
    } else if c.ZZ? {
      MpzCut(c.v, k, bo);
    } else if c.QQ? {
      var a, b := EncodeMpz(c.num, bo), EncodeMpz(c.den, bo);
      CutSum(a, b, k);
      if k < |a| {
        MpzCut(c.num, k, bo);
      } else {
        assert k == |a| ==> a[..k] == a + b[..0];
        MpzOnto(c.num, b[..k - |a|], bo);
        MpzCut(c.den, k - |a|, bo);
      }
    }
  }

  lemma StringCut(s: seq<Byte>, k: nat, bo: ByteOrder)
    requires |s| < TWO_TO_THE_31 && k < |IntBytes(|s|, bo) + s|
    ensures ReadString((IntBytes(|s|, bo) + s)[..k], bo).Exit?
  {
    IntLength(|s|, bo);
    CutSum(IntBytes(|s|, bo), s, k);
    if k >= 4 {
      assert k == 4 ==> IntBytes(|s|, bo)[..4] == IntBytes(|s|, bo) + s[..0];
      IntOnto(|s|, s[..k - 4], bo);
    }
    hide IntBytes;
  }

  lemma WrappedParts(c: Cmo, bo: ByteOrder)
    requires Sendable(c) && c.Wrapped?
    ensures Sendable(c.ob) && Body(c, bo) == Encode(c.ob, bo) && Code(c) == WrapCode(c.wrap)
  {
    hide Encode;
  }

  lemma WrappedExits(g: WrapTag, s: seq<Byte>, bo: ByteOrder)
    requires Decode(s, bo).Exit?
    ensures DecodeTag(WrapCode(g), s, bo).Exit?
  {
    assert WrapCode(g) in {5, 26, 60, 0x7f00_0002};
    hide Decode;
  }

  /** Two objects, the second cut short when the first is not. */
  lemma {:induction false} TwoCut(a: Cmo, b: seq<Byte>, k: nat, bo: ByteOrder)
    requires Sendable(a) && k < |Encode(a, bo)| + |b|
    ensures k < |Encode(a, bo)| ==> Decode((Encode(a, bo) + b)[..k], bo).Exit?
    ensures k >= |Encode(a, bo)| ==>
      Decode((Encode(a, bo) + b)[..k], bo) == Ok(a, b[..k - |Encode(a, bo)|])
    decreases a, 4
  {
    hide *;
    var e := Encode(a, bo);
    CutSum(e, b, k);
    if k < |e| {
      CutExits(a, k, bo);
    } else {
      assert k == |e| ==> e[..k] == e + b[..0];
      RoundTrip(a, b[..k - |e|], bo);
    }
  }

  lemma {:induction false} PairCut(c: Cmo, k: nat, bo: ByteOrder)
    requires Sendable(c) && c.Pair? && k < |Body(c, bo)|
    ensures DecodeTag(Code(c), Body(c, bo)[..k], bo).Exit?
    decreases c, 1
  {
    hide *;
    PairParts(c, bo);
    var a, b := Encode(c.first, bo), Encode(c.second, bo);
    TwoCut(c.first, b, k, bo);
    if k >= |a| {
      CutExits(c.second, k - |a|, bo);
    }
    PairExits(c.pair, Body(c, bo)[..k], bo);
  }

  lemma PairParts(c: Cmo, bo: ByteOrder)
    requires Sendable(c) && c.Pair?
    ensures Sendable(c.first) && Sendable(c.second) && Code(c) == PairCode(c.pair)
    ensures Body(c, bo) == Encode(c.first, bo) + Encode(c.second, bo)
  {
    hide Encode;
  }

  lemma PairExits(g: PairTag, s: seq<Byte>, bo: ByteOrder)
    requires Decode(s, bo).Exit? || (Decode(s, bo).Ok? && Decode(Decode(s, bo).rest, bo).Exit?)
    ensures DecodeTag(PairCode(g), s, bo).Exit?
  {
    assert PairCode(g) in {27, 35, 62};
    hide Decode;
  }

  lemma {:induction false} TreeCut(c: Cmo, k: nat, bo: ByteOrder)
    requires Sendable(c) && c.Tree? && k < |Body(c, bo)|
    ensures DecodeTag(Code(c), Body(c, bo)[..k], bo).Exit?
    decreases c, 1
  {
    hide *;
    TreeParts(c, bo);
    var n, a, l := Encode(c.name, bo), Encode(c.attributes, bo), Encode(c.leaves, bo);
    var s := Body(c, bo)[..k];
    TwoCut(c.name, a + l, k, bo);
    if k >= |n| {
      var k1 := k - |n|;
      TwoCut(c.attributes, l, k1, bo);
      if k1 >= |a| {
        CutExits(c.leaves, k1 - |a|, bo);
      }
    }
    TreeExits(s, bo);
  }

  lemma TreeParts(c: Cmo, bo: ByteOrder)
    requires Sendable(c) && c.Tree?
    ensures Sendable(c.name) && Sendable(c.attributes) && Sendable(c.leaves) && Code(c) == TREE
    ensures Body(c, bo) == Encode(c.name, bo) + (Encode(c.attributes, bo) + Encode(c.leaves, bo))
  {
    hide Encode;
  }

  lemma TreeExits(s: seq<Byte>, bo: ByteOrder)
    requires var a := Decode(s, bo);
      a.Exit? || (a.Ok? && var b := Decode(a.rest, bo); b.Exit? || (b.Ok? && Decode(b.rest, bo).Exit?))
    ensures DecodeTag(TREE, s, bo).Exit?
  {
    hide Decode;
  }

  /** After a count, the rest of the body. */
  lemma CountCut(n: int, b: seq<Byte>, k: nat, bo: ByteOrder)
    requires IsInt32(n) && k < 4 + |b|
    ensures |IntBytes(n, bo)| == 4
    ensures k < 4 ==> ReadInt((IntBytes(n, bo) + b)[..k], bo).Exit?
    ensures k >= 4 ==> ReadInt((IntBytes(n, bo) + b)[..k], bo) == Ok(n, b[..k - 4])
  {
    IntLength(n, bo);
    hide IntBytes;
    CutSum(IntBytes(n, bo), b, k);
    if k >= 4 {
      assert k == 4 ==> IntBytes(n, bo)[..k] == IntBytes(n, bo) + b[..0];
      IntOnto(n, b[..k - 4], bo);
    }
  }

  lemma {:induction false} ManyCut(cs: seq<Cmo>, k: nat, bo: ByteOrder)
    requires AllSendable(cs) && k < |EncodeAll(cs, bo)|
    ensures DecodeMany(|cs|, EncodeAll(cs, bo)[..k], bo).Exit?
    decreases cs, 0
  {
    if cs != [] {
      ManyUnfold(cs, bo);
      var e, u := Encode(cs[0], bo), EncodeAll(cs[1..], bo);
      TwoCut(cs[0], u, k, bo);
      if k >= |e| {
        ManyCut(cs[1..], k - |e|, bo);
      }
      ManyExits(|cs|, EncodeAll(cs, bo)[..k], bo);
      hide *;
    }
  }

  lemma ManyExits(n: nat, s: seq<Byte>, bo: ByteOrder)
    requires n > 0
    requires Decode(s, bo).Exit? || (Decode(s, bo).Ok? && DecodeMany(n - 1, Decode(s, bo).rest, bo).Exit?)
    ensures DecodeMany(n, s, bo).Exit?
  {
    hide Decode;
  }

  lemma {:induction false} ListCut(c: Cmo, k: nat, bo: ByteOrder)
    requires Sendable(c) && c.List? && k < |Body(c, bo)|
    ensures DecodeTag(Code(c), Body(c, bo)[..k], bo).Exit?
    decreases c, 1
  {
    hide *;
    ListParts(c, bo);
    var e := EncodeAll(c.items, bo);
    CountCut(|c.items|, e, k, bo);
    if k >= 4 {
      ManyCut(c.items, k - 4, bo);
    }
    ListExits(Body(c, bo)[..k], bo);
  }

  lemma ListParts(c: Cmo, bo: ByteOrder)
    requires Sendable(c) && c.List?
    ensures IsInt32(|c.items|) && AllSendable(c.items) && Code(c) == LIST
    ensures Body(c, bo) == IntBytes(|c.items|, bo) + EncodeAll(c.items, bo)
    ensures |IntBytes(|c.items|, bo)| == 4
  {
    IntLength(|c.items|, bo);
    hide Encode, EncodeAll, IntBytes, AllSendable;
  }

  lemma ListExits(s: seq<Byte>, bo: ByteOrder)
    requires ReadInt(s, bo).Exit? || (ReadInt(s, bo).Ok? && DecodeMany(ReadInt(s, bo).value, ReadInt(s, bo).rest, bo).Exit?)
    ensures DecodeTag(LIST, s, bo).Exit?
  {
    hide ReadInt, DecodeMany;
  }

  lemma {:induction false} MonomialCut(c: Cmo, k: nat, bo: ByteOrder)
    requires Sendable(c) && c.Monomial32? && k < |Body(c, bo)|
    ensures DecodeTag(Code(c), Body(c, bo)[..k], bo).Exit?
    decreases c, 1
  {
    hide *;
    MonomialParts(c, bo);
    var x, e := EncodeInts(c.exps, bo), Encode(c.coef, bo);
    CountCut(|c.exps|, x + e, k, bo);
    if k >= 4 {
      ExponentsCut(c.exps, e, k - 4, bo);
      if k - 4 >= |x| {
        CutExits(c.coef, k - 4 - |x|, bo);
      }
    }
    MonomialExits(Body(c, bo)[..k], bo);
  }

  lemma ExponentsCut(xs: seq<int>, e: seq<Byte>, k: nat, bo: ByteOrder)
    requires IntsFit(xs) && |EncodeInts(xs, bo)| == 4 * |xs| && k < 4 * |xs| + |e|
    ensures k < 4 * |xs| ==> ReadInts(|xs|, (EncodeInts(xs, bo) + e)[..k], bo).Exit?
    ensures k >= 4 * |xs| ==> ReadInts(|xs|, (EncodeInts(xs, bo) + e)[..k], bo) == Ok(xs, e[..k - 4 * |xs|])
  {
    hide *;
    var x := EncodeInts(xs, bo);
    CutSum(x, e, k);
    if k < 4 * |xs| {
      ShortInts(|xs|, (x + e)[..k], bo);
    } else {
      assert k == |x| ==> x[..k] == x + e[..0];
      IntsOnto(xs, e[..k - |x|], bo);
    }
  }

  lemma MonomialParts(c: Cmo, bo: ByteOrder)
    requires Sendable(c) && c.Monomial32?
    ensures IsInt32(|c.exps|) && IntsFit(c.exps) && Sendable(c.coef) && Code(c) == MONOMIAL32
    ensures Body(c, bo) == IntBytes(|c.exps|, bo) + (EncodeInts(c.exps, bo) + Encode(c.coef, bo))
    ensures |EncodeInts(c.exps, bo)| == 4 * |c.exps| && |IntBytes(|c.exps|, bo)| == 4
  {
    IntLength(|c.exps|, bo);
    Dump.EncodeIntsLength(c.exps, bo);
    hide Encode, EncodeInts, IntBytes;
  }

  lemma MonomialExits(s: seq<Byte>, bo: ByteOrder)
    requires var h := ReadInt(s, bo);
      h.Exit? || (h.Ok? && var e := ReadInts(h.value, h.rest, bo); e.Exit? || (e.Ok? && Decode(e.rest, bo).Exit?))
    ensures DecodeTag(MONOMIAL32, s, bo).Exit?
  {
    hide ReadInt, ReadInts, Decode;
  }

  lemma {:induction false} DistributedCut(c: Cmo, k: nat, bo: ByteOrder)
    requires Sendable(c) && c.Distributed? && k < |Body(c, bo)|
    ensures DecodeTag(Code(c), Body(c, bo)[..k], bo).Exit?
    decreases c, 1
  {
    hide *;
    DistributedParts(c, bo);
    var r, e := Encode(c.ringdef, bo), EncodeAll(c.monomials, bo);
    CountCut(|c.monomials|, r + e, k, bo);
    if k >= 4 {
      TwoCut(c.ringdef, e, k - 4, bo);
      if k - 4 >= |r| {
        ManyCut(c.monomials, k - 4 - |r|, bo);
      }
    }
    DistributedExits(Body(c, bo)[..k], bo);
  }

  lemma DistributedParts(c: Cmo, bo: ByteOrder)
    requires Sendable(c) && c.Distributed?
    ensures IsInt32(|c.monomials|) && Sendable(c.ringdef) && AllSendable(c.monomials) && Code(c) == DISTRIBUTED
    ensures Body(c, bo) == IntBytes(|c.monomials|, bo) + (Encode(c.ringdef, bo) + EncodeAll(c.monomials, bo))
    ensures |IntBytes(|c.monomials|, bo)| == 4
  {
    IntLength(|c.monomials|, bo);
    hide Encode, EncodeAll, IntBytes, AllSendable;
  }

  lemma DistributedExits(s: seq<Byte>, bo: ByteOrder)
    requires var h := ReadInt(s, bo);
      h.Exit? || (h.Ok? && var r := Decode(h.rest, bo); r.Exit? || (r.Ok? && DecodeMany(h.value, r.rest, bo).Exit?))
    ensures DecodeTag(DISTRIBUTED, s, bo).Exit?
  {
    hide ReadInt, Decode, DecodeMany;
  }

  lemma {:induction false} PolyInOneCut(c: Cmo, k: nat, bo: ByteOrder)
    requires Sendable(c) && c.PolyInOne? && k < |Body(c, bo)|
    ensures DecodeTag(Code(c), Body(c, bo)[..k], bo).Exit?
    decreases c, 1
  {
    hide *;
    PolyInOneParts(c, bo);
    var x, e := IntBytes(c.variable, bo), EncodeTerms(c.terms, bo);
    CountCut(|c.terms|, x + e, k, bo);
    if k >= 4 {
      CountCut(c.variable, e, k - 4, bo);
      if k >= 8 {
        TermsCut(c.terms, k - 8, bo);
      }
    }
    PolyInOneExits(Body(c, bo)[..k], bo);
  }

  lemma PolyInOneParts(c: Cmo, bo: ByteOrder)
    requires Sendable(c) && c.PolyInOne?
    ensures IsInt32(|c.terms|) && IsInt32(c.variable) && TermsSendable(c.terms) && Code(c) == POLY_IN_ONE
    ensures Body(c, bo) == IntBytes(|c.terms|, bo) + (IntBytes(c.variable, bo) + EncodeTerms(c.terms, bo))
    ensures |IntBytes(|c.terms|, bo)| == 4 && |IntBytes(c.variable, bo)| == 4
  {
    IntLength(|c.terms|, bo);
    IntLength(c.variable, bo);
    hide Encode, EncodeTerms, IntBytes, TermsSendable;
  }

  lemma PolyInOneExits(s: seq<Byte>, bo: ByteOrder)
    requires var h := ReadInt(s, bo);
      h.Exit? || (h.Ok? && var x := ReadInt(h.rest, bo); x.Exit? || (x.Ok? && DecodeTerms(h.value, x.rest, bo).Exit?))
    ensures DecodeTag(POLY_IN_ONE, s, bo).Exit?
  {
    hide ReadInt, DecodeTerms;
  }

  lemma TermParts(ts: seq<Term>, bo: ByteOrder)
    requires ts != [] && TermsSendable(ts)
    ensures TermSendable(ts[0]) && IsInt32(ts[0].exp) && Sendable(ts[0].coef) && TermsSendable(ts[1..])
    ensures EncodeTerms(ts, bo) == IntBytes(ts[0].exp, bo) + (Encode(ts[0].coef, bo) + EncodeTerms(ts[1..], bo))
    ensures |IntBytes(ts[0].exp, bo)| == 4
  {
    IntLength(ts[0].exp, bo);
    Assoc(IntBytes(ts[0].exp, bo), Encode(ts[0].coef, bo), EncodeTerms(ts[1..], bo));
    hide Encode, IntBytes, Sendable;
  }

  /** The exponent and the coefficient of a term, and what follows. */
  lemma {:induction false} TermCut(x: Term, u: seq<Byte>, k: nat, bo: ByteOrder)
    requires TermSendable(x) && k < 4 + |Encode(x.coef, bo)| + |u|
    ensures var s := (IntBytes(x.exp, bo) + (Encode(x.coef, bo) + u))[..k];
      var h := ReadInt(s, bo);
      if k < 4 then h.Exit? else
        && h.Ok?
        && (k - 4 < |Encode(x.coef, bo)| ==> Decode(h.rest, bo).Exit?)
        && (k - 4 >= |Encode(x.coef, bo)| ==> Decode(h.rest, bo) == Ok(x.coef, u[..k - 4 - |Encode(x.coef, bo)|]))
    decreases x, 5
  {
    assert IsInt32(x.exp) && Sendable(x.coef);
    hide *;
    CountCut(x.exp, Encode(x.coef, bo) + u, k, bo);
    if k >= 4 {
      TwoCut(x.coef, u, k - 4, bo);
    }
  }

  lemma {:induction false} TermsCut(ts: seq<Term>, k: nat, bo: ByteOrder)
    requires TermsSendable(ts) && k < |EncodeTerms(ts, bo)|
    ensures DecodeTerms(|ts|, EncodeTerms(ts, bo)[..k], bo).Exit?
    decreases ts, 0
  {
    NoTerms(bo);
    hide *;
    if ts != [] {
      TermParts(ts, bo);
      var e, u := Encode(ts[0].coef, bo), EncodeTerms(ts[1..], bo);
      TermCut(ts[0], u, k, bo);
      if k - 4 >= |e| {
        TermsCut(ts[1..], k - 4 - |e|, bo);
      }
      TermsExits(|ts|, EncodeTerms(ts, bo)[..k], bo);
    }
  }

  lemma NoTerms(bo: ByteOrder)
    ensures EncodeTerms([], bo) == []
  {
  }

  lemma TermsExits(n: nat, s: seq<Byte>, bo: ByteOrder)
    requires n > 0
    requires var e := ReadInt(s, bo);
      e.Exit? || (e.Ok? && var a := Decode(e.rest, bo); a.Exit? || (a.Ok? && DecodeTerms(n - 1, a.rest, bo).Exit?))
    ensures DecodeTerms(n, s, bo).Exit?
  {
    hide ReadInt, Decode;
  }

  // ---------- counts and tags no sender writes ----------

  /** What the decoder makes of a tag is decided by the tag. */
  lemma TagThen(tag: int, t: seq<Byte>, bo: ByteOrder)
    requires IsInt32(tag)
    ensures Decode(IntBytes(tag, bo) + t, bo) == DecodeTag(tag, t, bo)
  {
    IntOnto(tag, t, bo);
    hide IntBytes, ReadInt, DecodeTag;
  }

  /** A negative count stands for an empty list. */
  lemma NegativeList(n: int, t: seq<Byte>, bo: ByteOrder)
    requires IsInt32(n) && n < 0
    ensures Decode(IntBytes(17, bo) + (IntBytes(n, bo) + t), bo) == Ok(List([]), t)
  {
    hide *;
    TagThen(17, IntBytes(n, bo) + t, bo) by { SmallTags(); }
    IntOnto(n, t, bo);
    NoneOf(n, t, bo);
    ListStep(IntBytes(n, bo) + t, bo, n, t, [], t) by { SmallTags(); }
    SmallTags();
  }

  lemma SmallTags()
    ensures IsInt32(17) && IsInt32(4) && LIST == 17 && STRING == 4
  {
  }

  lemma NoneOf(n: int, t: seq<Byte>, bo: ByteOrder)
    requires n <= 0
    ensures DecodeMany(n, t, bo) == Ok([], t)
  {
  }

  lemma {:induction false} StringEnds(p: seq<Byte>, q: seq<Byte>)
    requires forall i :: 0 <= i < |p| ==> p[i] != 0
    ensures CString(p + ([0] + q)) == p
  {
    var s := p + ([0] + q);
    if p != [] {
      StringEnds(p[1..], q);
      assert s[1..] == p[1..] + ([0] + q);
    }
  }

  /** A string with a zero byte inside ends there, its other bytes are consumed. */
  lemma StringWithZero(p: seq<Byte>, q: seq<Byte>, t: seq<Byte>, bo: ByteOrder)
    requires (forall i :: 0 <= i < |p| ==> p[i] != 0) && |p| + 1 + |q| < 0x8000_0000
    ensures Decode(IntBytes(4, bo) + (IntBytes(|p| + 1 + |q|, bo) + (p + ([0] + q) + t)), bo) == Ok(Str(p), t)
  {
    hide *;
    SmallTags();
    var w := p + ([0] + q);
    var n := |p| + 1 + |q|;
    SmallCount(n);
    TagThen(4, IntBytes(n, bo) + (w + t), bo);
    IntOnto(n, w + t, bo);
    assert (w + t)[..n] == w && (w + t)[n..] == t;
    StringEnds(p, q);
    ReadStringIs(IntBytes(n, bo) + (w + t), n, w, t, p, bo);
    StringTag(IntBytes(n, bo) + (w + t), p, t, bo);
  }

  lemma SmallCount(n: nat)
    requires n < 0x8000_0000
    ensures IsInt32(n)
  {
  }

  lemma ReadStringIs(s: seq<Byte>, n: nat, w: seq<Byte>, t: seq<Byte>, p: seq<Byte>, bo: ByteOrder)
    requires |w| == n && ReadInt(s, bo) == Ok(n, w + t) && (w + t)[..n] == w && (w + t)[n..] == t && CString(w) == p
    ensures ReadString(s, bo) == Ok(p, t)
  {
    hide ReadInt, CString;
  }

  lemma StringTag(s: seq<Byte>, p: seq<Byte>, t: seq<Byte>, bo: ByteOrder)
    requires ReadString(s, bo) == Ok(p, t)
    ensures DecodeTag(4, s, bo) == Ok(Str(p), t)
  {
    hide ReadString;
  }

  /** A tag the receiver has no case for is taken alone, what follows it is left. */
  lemma UnknownTag(tag: int, t: seq<Byte>, bo: ByteOrder)
    requires IsInt32(tag)
    requires tag !in {1, 2, 4, 5, 17, 19, 20, 21, 22, 24, 26, 27, 31, 33, 35, 40, 51, 52, 60, 61, 62, 0x7f00_0002}
    ensures Decode(IntBytes(tag, bo) + t, bo) == Ok(Missing, t)
  {
    TagThen(tag, t, bo);
    hide IntBytes, ReadInt, Decode;
  }
}
