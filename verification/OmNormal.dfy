/** The normal form an object has after it was printed and read. */
module OmNormal {
  import opened Basics
  import opened OmLexer
  import opened OmTree
  import opened OmText
  import opened OmObject
  import opened OmParser
  import opened OmPrint
  import opened OmRoundTrip
  import Numeral

  /** Zero and small integers become big integers, texts lose the spaces around them, fractions
      and lists are found again, and anything else applied becomes a tree of the basic dictionary. */
  function Norm(o: Obj): Obj
    requires Printable(o)
    decreases o, 1
  {
    match o
    case Null => ZZ(0)
    case Zero => ZZ(0)
    case Int32(i) => ZZ(i)
    case ZZ(v) => o
    case QQ(a, b) => o
    case Text(s) => OmObject.Text(Trim(s))
    case List(items) => List(NormAll(items))
    case Monomial(c, ps) => Tree(MONOM, BASIC, [Norm(c)] + Integers(ps))
    case DmsGeneric => Tree(POLY_RING, BASIC, [ZZ(2)])
    case RecursivePoly(vs, p) => NormPoly(p, NormAll(vs))
    case Distributed(_, ms) => Distributed(DmsGeneric, NormMonomials(ms))
    case BigFloat(a, e) => Tree(TIMES, BASIC, [ZZ(a), Tree(POWER, BASIC, [ZZ(2), ZZ(e)])])
    case Indeterminate(n) => o
    case Tree(n, _, leaves) => Make(n, NormAll(leaves))
  }

  function NormAll(os: seq<Obj>): (r: seq<Obj>)
    requires AllPrintable(os)
    ensures |r| == |os|
    decreases os, 0
  {
    if os == [] then [] else [Norm(os[0])] + NormAll(os[1..])
  }

  function Integers(vs: seq<int>): seq<Obj> {
    if vs == [] then [] else [ZZ(vs[0])] + Integers(vs[1..])
  }

  function NormMonomials(ms: seq<Obj>): seq<Obj>
    requires MonomialsPrintable(ms)
    decreases ms, 0
  {
    if ms == [] then [] else [Monomial(Norm(ms[0].coef), ms[0].powers)] + NormMonomials(ms[1..])
  }

  /** Sums of products of powers and coefficients. */
  function NormPoly(p: Obj, vs: seq<Obj>): Obj
    requires PolyPrintable(p, |vs|)
    decreases p, 2
  {
    if p.OneVar? then NormTerms(vs[p.variable], p.degrees, p.coefs, vs) else Norm(p)
  }

  function NormTerms(x: Obj, ds: seq<int>, cs: seq<Obj>, vs: seq<Obj>): Obj
    requires cs != [] && |ds| == |cs| && CoefsPrintable(cs, |vs|)
    decreases cs, 0
  {
    var n := |cs| - 1;
    var mono := Tree(TIMES, BASIC, [Tree(POWER, BASIC, [x, ZZ(ds[n])]), NormPoly(cs[n], vs)]);
    if n == 0 then mono else Tree(PLUS, BASIC, [NormTerms(x, ds[..n], cs[..n], vs), mono])
  }

  // ---------- integers ----------

  lemma {:induction false} DigitsRead(v: nat)
    ensures AllDigits(Numeral.Digits(v, 10), 10)
    ensures DigitsValue(Numeral.Digits(v, 10), 10) == v
  {
    if v > 0 {
      var t, d := Numeral.Digits(v / 10, 10), v % 10;
      Numeral.DigitsStep(v, 10);
      DigitsRead(v / 10);
      Numeral.DigitCharValue(d);
      var s := Numeral.Digits(v, 10);
      assert s[..|s| - 1] == t && s[|s| - 1] == Numeral.DigitChar(d);
      assert AllDigits(s, 10) by { LastDigit(t, d); }
      hide Numeral.Digits, Numeral.DigitChar, Numeral.DigitValue;
    }
  }

  lemma LastDigit(t: string, d: nat)
    requires AllDigits(t, 10) && d < 10
    ensures AllDigits(t + [Numeral.DigitChar(d)], 10)
  {
  }

  lemma DigitsAreDigits(s: string)
    requires AllDigits(s, 10)
    ensures forall i :: 0 <= i < |s| ==> '0' <= s[i] <= '9'
  {
  }

  lemma {:induction false} TrimNothing(s: string)
    requires forall i :: 0 <= i < |s| ==> !IsSpace(s[i])
    ensures Trim(s) == s
  {
    if s != "" {
      DropEndNothing(s);
    }
  }

  lemma {:induction false} DropEndNothing(s: string)
    requires forall i :: 0 <= i < |s| ==> !IsSpace(s[i])
    ensures DropEnd(s) == s
  {
    if s != "" {
      DropEndNothing(s[1..]);
      assert !IsSpace(s[0]);
    }
  }

  lemma SignedReads(d: string, negative: bool)
    requires d != "" && AllDigits(d, 10)
    ensures var s := if negative then ['-'] + d else d;
      s != "" && ParseInteger(s) == Some(Sign(negative, DigitsValue(d, 10)))
  {
    DigitsAreDigits(d);
    var s := if negative then ['-'] + d else d;
    assert negative ==> s[1..] == d;
    assert !negative ==> s[0..] == d && s[0] != '-';
    assert s[if negative then 1 else 0] == d[0] != 'x';
    hide DigitsValue, AllDigits;
  }

  lemma SignedText(d: string, negative: bool)
    requires d != "" && AllDigits(d, 10)
    ensures var s := if negative then ['-'] + d else d;
      NoTag(s) && Trim(s) == s
  {
    DigitsAreDigits(d);
    var s := if negative then ['-'] + d else d;
    assert forall i :: 0 <= i < |s| ==> s[i] == '-' || '0' <= s[i] <= '9';
    TrimNothing(s);
    hide Trim, AllDigits;
  }

  /** The decimal text of an integer, with or without minus, is read as that integer. */
  lemma IntTextReads(v: int)
    ensures NoTag(IntText(v)) && ReadInt(IntOm(v)) == Some(v)
  {
    var a: nat := Abs(v);
    var d := if v == 0 then ['0'] else Numeral.Digits(a, 10);
    DigitsRead(a);
    ZeroRead();
    SignedText(d, v < 0);
    SignedReads(d, v < 0);
    hide Numeral.Digits, DigitsValue, Trim, ParseInteger, AllDigits, NoTag;
  }

  lemma ZeroRead()
    ensures AllDigits(['0'], 10) && DigitsValue(['0'], 10) == 0
    ensures Trim([' ', '0', ' ']) == ['0'] && Trim(['0']) == ['0'] && ParseInteger(['0']) == Some(0)
    ensures NoTag([' ', '0', ' ']) && NoTag(['0'])
  {
    assert ['0'][..0] == "";
    assert DigitsValue("", 10) == 0;
    assert [' ', '0', ' '][1..] == ['0', ' '];
    assert DropStart([' ', '0', ' ']) == ['0', ' '];
    assert ['0', ' '][1..] == [' '] && AllSpaces([' ']);
    assert DropEnd(['0', ' ']) == ['0'] + DropEnd([' ']);
    assert ['0'][0..] == ['0'];
    TrimNothing(['0']);
  }

  // ---------- trees ----------

  lemma Dictionaries()
    ensures SymbolName(LIST) && SymbolName(OVER) && SymbolName(TIMES) && SymbolName(PLUS) && SymbolName(POWER)
    ensures SymbolName(MONOM) && SymbolName(DMP) && SymbolName(SDMP) && SymbolName(POLY_RING)
    ensures CdName(BASIC) && CdName(POLY)
    ensures DMP !in {LIST, OVER, TIMES, PLUS, POWER, MONOM, POLY_RING}
    ensures LIST !in {OVER, TIMES, PLUS, POWER, MONOM, POLY_RING} && OVER !in {TIMES, PLUS, POWER, MONOM, POLY_RING}
  {
  }

  /** Readable, and read as o. */
  predicate Reads(om: Om, o: Obj) { Lexable(om) && Read(om) == Some(o) }

  predicate AllRead(oms: seq<Om>, os: seq<Obj>) { AllLexable(oms) && ReadAll(oms) == Some(os) }

  lemma ReadsCons(om: Om, o: Obj, oms: seq<Om>, os: seq<Obj>)
    requires Reads(om, o) && AllRead(oms, os)
    ensures AllRead([om] + oms, [o] + os)
  {
    assert ([om] + oms)[1..] == oms;
    hide Lexable, Read;
  }

  lemma ReadsTwo(a: Om, x: Obj, b: Om, y: Obj)
    requires Reads(a, x) && Reads(b, y)
    ensures AllRead([], []) && AllRead([a], [x]) && AllRead([a, b], [x, y])
  {
    NoneRead();
    hide Lexable, Read;
    assert AllRead([], []);
    hide *;
    ReadsCons(b, y, [], []);
    ReadsCons(a, x, [], []);
    assert [a] + [] == [a] && [b] + [] == [b] && [x] + [] == [x] && [y] + [] == [y];
    ReadsCons(a, x, [b], [y]);
    assert [a] + [b] == [a, b] && [x] + [y] == [x, y];
  }

  lemma ReadsApp(n: string, cd: string, args: seq<Om>, leaves: seq<Obj>)
    requires SymbolName(n) && CdName(cd) && n != DMP && AllRead(args, leaves)
    ensures Reads(App(n, cd, args), Make(n, leaves))
  {
    hide AllLexable, ReadAll, ReadMonomials, Make;
  }

  lemma ReadsInt(v: int)
    ensures Reads(IntOm(v), ZZ(v))
  {
    IntTextReads(v);
    hide ReadInt, IntText;
  }

  lemma {:induction false} ReadsInts(vs: seq<int>)
    ensures AllRead(IntOms(vs), Integers(vs))
  {
    if vs != [] {
      ReadsInt(vs[0]);
      ReadsInts(vs[1..]);
      ReadsCons(IntOm(vs[0]), ZZ(vs[0]), IntOms(vs[1..]), Integers(vs[1..]));
    }
    hide Reads, IntOm;
  }

  /** An application that is neither a list nor a fraction. */
  lemma MakeTree(n: string, leaves: seq<Obj>)
    requires n != LIST && n != OVER
    ensures Make(n, leaves) == Tree(n, BASIC, leaves)
  {
  }

  /** The tree of an object is read as its normal form. */
  lemma {:induction false} ReadsNorm(o: Obj)
    requires Printable(o)
    ensures Reads(ToOm(o), Norm(o))
    decreases o, 1
  {
    match o
    case List(_) => ReadsGroup(o);
    case Monomial(_, _) => ReadsGroup(o);
    case Tree(_, _, _) => ReadsGroup(o);
    case RecursivePoly(vs, p) =>
      ReadsAll(vs);
      PolyReads(p, AllOm(vs), NormAll(vs));
    case Distributed(_, _) => ReadsDistributed(o);
    case _ => ReadsLeaf(o);
  }

  lemma ReadsLeaf(o: Obj)
    requires o.Null? || o.Zero? || o.Int32? || o.ZZ? || o.QQ? || o.Text? || o.DmsGeneric? || o.BigFloat?
      || o.Indeterminate?
    requires Printable(o)
    ensures Reads(ToOm(o), Norm(o))
  {
    Dictionaries();
    match o
    case Int32(i) => ReadsInt(i);
    case ZZ(v) => ReadsInt(v);
    case QQ(a, b) => ReadsFraction(a, b);
    case DmsGeneric =>
      ReadsInt(2);
      ReadsTwo(IntOm(2), ZZ(2), IntOm(2), ZZ(2));
      ReadsApp(POLY_RING, POLY, [IntOm(2)], [ZZ(2)]);
      MakeTree(POLY_RING, [ZZ(2)]);
    case BigFloat(a, e) => ReadsBigFloat(a, e);
    case _ => ZeroRead();
    hide Lexable, Read, IntOm, SymbolName, CdName;
  }

  lemma ReadsFraction(a: int, b: int)
    ensures Reads(App(OVER, BASIC, [IntOm(a), IntOm(b)]), QQ(a, b))
  {
    Dictionaries();
    ReadsInt(a);
    ReadsInt(b);
    ReadsTwo(IntOm(a), ZZ(a), IntOm(b), ZZ(b));
    ReadsApp(OVER, BASIC, [IntOm(a), IntOm(b)], [ZZ(a), ZZ(b)]);
    hide Reads, IntOm, SymbolName, CdName, AllRead;
  }

  lemma ReadsBigFloat(a: int, e: int)
    ensures Reads(App(TIMES, BASIC, [IntOm(a), App(POWER, BASIC, [IntOm(2), IntOm(e)])]),
                  Tree(TIMES, BASIC, [ZZ(a), Tree(POWER, BASIC, [ZZ(2), ZZ(e)])]))
  {
    Dictionaries();
    hide *;
    var p, q := App(POWER, BASIC, [IntOm(2), IntOm(e)]), Tree(POWER, BASIC, [ZZ(2), ZZ(e)]);
    ReadsInt(a);
    ReadsInt(2);
    ReadsInt(e);
    ReadsTwo(IntOm(2), ZZ(2), IntOm(e), ZZ(e));
    ReadsApp(POWER, BASIC, [IntOm(2), IntOm(e)], [ZZ(2), ZZ(e)]);
    MakeTree(POWER, [ZZ(2), ZZ(e)]);
    ReadsTwo(IntOm(a), ZZ(a), p, q);
    ReadsApp(TIMES, BASIC, [IntOm(a), p], [ZZ(a), q]);
    MakeTree(TIMES, [ZZ(a), q]);
  }

  lemma {:induction false} ReadsGroup(o: Obj)
    requires (o.List? || o.Monomial? || o.Tree?) && Printable(o)
    ensures Reads(ToOm(o), Norm(o))
    decreases o, 0
  {
    Dictionaries();
    match o
    case List(items) =>
      ReadsAll(items);
      ReadsApp(LIST, BASIC, AllOm(items), NormAll(items));
    case Monomial(c, ps) =>
      ReadsNorm(c);
      ReadsInts(ps);
      ReadsCons(ToOm(c), Norm(c), IntOms(ps), Integers(ps));
      ReadsApp(MONOM, POLY, [ToOm(c)] + IntOms(ps), [Norm(c)] + Integers(ps));
      MakeTree(MONOM, [Norm(c)] + Integers(ps));
    case Tree(n, cd, leaves) =>
      ReadsAll(leaves);
      ReadsApp(n, cd, AllOm(leaves), NormAll(leaves));
    hide Reads, AllRead, SymbolName, CdName;
  }

  lemma {:induction false} ReadsAll(os: seq<Obj>)
    requires AllPrintable(os)
    ensures AllRead(AllOm(os), NormAll(os))
    ensures forall i :: 0 <= i < |os| ==> Reads(AllOm(os)[i], NormAll(os)[i])
    decreases os, 0
  {
    if os != [] {
      ReadsNorm(os[0]);
      ReadsAll(os[1..]);
      ReadsCons(ToOm(os[0]), Norm(os[0]), AllOm(os[1..]), NormAll(os[1..]));
    }
    hide Reads, ToOm, Norm;
  }

  lemma NumericReads(c: Obj)
    requires Numeric(c)
    ensures Printable(c) && Reads(ToOm(c), Norm(c)) && (Norm(c).ZZ? || Norm(c).QQ?)
  {
    ReadsLeaf(c);
    hide Reads, ToOm;
  }

  lemma {:induction false} PowersReadBack(vs: seq<int>)
    requires forall i :: 0 <= i < |vs| ==> IsInt32(vs[i])
    ensures AllLexable(IntOms(vs)) && ReadPowers(IntOms(vs)) == Some(vs)
  {
    NoneRead();
    if vs != [] {
      var v, rest := vs[0], vs[1..];
      assert IntOms(vs) == [IntOm(v)] + IntOms(rest) && vs == [v] + rest && Wrap32(v) == v;
      assert IsInt32(v) && forall i :: 0 <= i < |rest| ==> rest[i] == vs[i + 1];
      IntTextReads(v);
      PowersReadBack(rest);
      PowersCons(v, IntOms(rest), rest);
    }
    hide ReadInt, IntText, Wrap32, ReadPowers, AllLexable;
  }

  lemma PowersCons(v: int, oms: seq<Om>, vs: seq<int>)
    requires NoTag(IntText(v)) && ReadInt(IntOm(v)) == Some(v) && AllLexable(oms) && ReadPowers(oms) == Some(vs)
    ensures AllLexable([IntOm(v)] + oms) && ReadPowers([IntOm(v)] + oms) == Some([Wrap32(v)] + vs)
  {
    assert ([IntOm(v)] + oms)[1..] == oms;
    hide ReadInt, IntText, Wrap32;
  }

  lemma MonomialCons(c: Om, o: Obj, oms: seq<Om>, vs: seq<int>)
    requires Reads(c, o) && (o.ZZ? || o.QQ?) && AllLexable(oms) && ReadPowers(oms) == Some(vs)
    ensures var om := App(MONOM, POLY, [c] + oms);
      Lexable(om) && ReadMonomial(om) == Some(Monomial(o, vs))
  {
    Dictionaries();
    ReadsParts(c, o);
    hide *;
    MonomialIs(c, o, oms, vs);
    LexableCons(c, oms);
    LexableApp(MONOM, POLY, [c] + oms);
  }

  lemma LexableCons(c: Om, oms: seq<Om>)
    requires Lexable(c) && AllLexable(oms)
    ensures AllLexable([c] + oms)
  {
    assert ([c] + oms)[1..] == oms;
    hide Lexable;
  }

  lemma LexableApp(n: string, cd: string, args: seq<Om>)
    requires SymbolName(n) && CdName(cd) && AllLexable(args)
    ensures Lexable(App(n, cd, args))
  {
    hide AllLexable, SymbolName, CdName;
  }

  lemma MonomialIs(c: Om, o: Obj, oms: seq<Om>, vs: seq<int>)
    requires Read(c) == Some(o) && (o.ZZ? || o.QQ?) && ReadPowers(oms) == Some(vs)
    ensures ReadMonomial(App(MONOM, POLY, [c] + oms)) == Some(Monomial(o, vs))
  {
    assert ([c] + oms)[1..] == oms;
    hide Read, ReadPowers;
  }

  lemma MonomialReadsBack(m: Obj)
    requires MonomialPrintable(m)
    ensures Printable(m.coef)
    ensures var om := App(MONOM, POLY, [ToOm(m.coef)] + IntOms(m.powers));
      Lexable(om) && ReadMonomial(om) == Some(Monomial(Norm(m.coef), m.powers))
  {
    NumericReads(m.coef);
    PowersReadBack(m.powers);
    MonomialCons(ToOm(m.coef), Norm(m.coef), IntOms(m.powers), m.powers);
    hide *;
  }

  lemma {:induction false} MonomialsReadBack(ms: seq<Obj>)
    requires MonomialsPrintable(ms)
    ensures AllLexable(MonomialOms(ms)) && ReadMonomials(MonomialOms(ms)) == Some(NormMonomials(ms))
    decreases ms, 0
  {
    if ms != [] {
      MonomialReadsBack(ms[0]);
      MonomialsReadBack(ms[1..]);
      var oms := MonomialOms(ms);
      assert oms[1..] == MonomialOms(ms[1..]);
    }
    hide ReadMonomial, Lexable, Norm, ToOm, IntOms;
  }

  lemma {:induction false} ReadsDistributed(o: Obj)
    requires o.Distributed? && Printable(o)
    ensures Reads(ToOm(o), Norm(o))
    decreases o, 0
  {
    Dictionaries();
    ReadsNorm(o.ring);
    MonomialsReadBack(o.monomials);
    var ring, inner := ToOm(o.ring), App(SDMP, POLY, MonomialOms(o.monomials));
    assert ToOm(o) == App(DMP, POLY, [ring, inner]) && Norm(o) == Distributed(DmsGeneric, NormMonomials(o.monomials));
    DmpIsRead(ring, Norm(o.ring), MonomialOms(o.monomials), NormMonomials(o.monomials));
    hide *;
  }

  lemma DmpIsRead(ring: Om, x: Obj, ms: seq<Om>, os: seq<Obj>)
    requires Reads(ring, x) && AllLexable(ms) && ReadMonomials(ms) == Some(os)
    ensures Reads(App(DMP, POLY, [ring, App(SDMP, POLY, ms)]), Distributed(DmsGeneric, os))
  {
    Dictionaries();
    var inner := App(SDMP, POLY, ms);
    assert Lexable(inner);
    assert [ring, inner][1..] == [inner] && [inner][1..] == [];
    assert AllLexable([inner]);
    assert AllLexable([ring, inner]);
    hide ReadMonomials;
  }

  lemma {:induction false} PolyReads(p: Obj, vs: seq<Om>, xs: seq<Obj>)
    requires |vs| == |xs| && PolyPrintable(p, |vs|)
    requires forall i :: 0 <= i < |vs| ==> Reads(vs[i], xs[i])
    ensures Reads(PolyOm(p, vs), NormPoly(p, xs))
    decreases p, 2
  {
    if p.OneVar? {
      TermsRead(vs[p.variable], xs[p.variable], p.degrees, p.coefs, vs, xs);
    } else {
      ReadsNorm(p);
    }
    hide Reads, TermsOm, NormTerms, ToOm, Norm;
  }

  lemma TermRead(x: Om, y: Obj, d: int, c: Om, k: Obj)
    requires Reads(x, y) && Reads(c, k)
    ensures Reads(MonoOm(x, d, c), Tree(TIMES, BASIC, [Tree(POWER, BASIC, [y, ZZ(d)]), k]))
  {
    Dictionaries();
    assert MonoOm(x, d, c) == App(TIMES, BASIC, [App(POWER, BASIC, [x, IntOm(d)]), c]);
    hide *;
    var p, q := App(POWER, BASIC, [x, IntOm(d)]), Tree(POWER, BASIC, [y, ZZ(d)]);
    ReadsInt(d);
    ReadsTwo(x, y, IntOm(d), ZZ(d));
    ReadsApp(POWER, BASIC, [x, IntOm(d)], [y, ZZ(d)]);
    MakeTree(POWER, [y, ZZ(d)]);
    ReadsTwo(p, q, c, k);
    ReadsApp(TIMES, BASIC, [p, c], [q, k]);
    MakeTree(TIMES, [q, k]);
  }

  lemma SumRead(a: Om, x: Obj, b: Om, y: Obj)
    requires Reads(a, x) && Reads(b, y)
    ensures Reads(App(PLUS, BASIC, [a, b]), Tree(PLUS, BASIC, [x, y]))
  {
    Dictionaries();
    hide *;
    ReadsTwo(a, x, b, y);
    ReadsApp(PLUS, BASIC, [a, b], [x, y]);
    MakeTree(PLUS, [x, y]);
  }

  lemma {:induction false} TermsRead(x: Om, y: Obj, ds: seq<int>, cs: seq<Obj>, vs: seq<Om>, xs: seq<Obj>)
    requires cs != [] && |ds| == |cs| && |vs| == |xs| && CoefsPrintable(cs, |vs|) && Reads(x, y)
    requires forall i :: 0 <= i < |vs| ==> Reads(vs[i], xs[i])
    ensures Reads(TermsOm(x, ds, cs, vs), NormTerms(y, ds, cs, xs))
    decreases cs, 0
  {
    var n := |cs| - 1;
    PolyReads(cs[n], vs, xs);
    TermRead(x, y, ds[n], PolyOm(cs[n], vs), NormPoly(cs[n], xs));
    if n > 0 {
      TermsRead(x, y, ds[..n], cs[..n], vs, xs);
      SumRead(TermsOm(x, ds[..n], cs[..n], vs), NormTerms(y, ds[..n], cs[..n], xs), MonoOm(x, ds[n], PolyOm(cs[n], vs)),
              Tree(TIMES, BASIC, [Tree(POWER, BASIC, [y, ZZ(ds[n])]), NormPoly(cs[n], xs)]));
    }
    hide Reads, PolyOm, NormPoly, PolyPrintable;
  }

  // ---------- the whole text ----------

  /** The printer's whole output. */
  function PrintText(o: Obj): string
    requires Printable(o)
  {
    OpenTag(OMOBJ) + (Print(o) + CloseTag(OMOBJ))
  }

  lemma ParseSteps(s: string, s1: string, o: Obj, s2: string, r: string)
    requires Lex(s) == (StartTag(OMOBJ), s1) && ParseObject(s1) == Ok(o, s2) && Lex(s2) == (EndTag(OMOBJ), r)
    ensures Parse(s) == Ok(o, r)
  {
    hide Lex, ParseObject;
  }

  /** Main result: the printed text of an object, whatever follows it, is read as the object's
      normal form, and exactly the text is consumed. */
  lemma PrintedIsRead(o: Obj, r: string)
    requires Printable(o)
    ensures Parse(PrintText(o) + r) == Ok(Norm(o), r)
  {
    Names();
    ReadsNorm(o);
    PrintIsRender(o);
    TextIs(o);
    ReadsParts(ToOm(o), Norm(o));
    hide *;
    var s2 := CloseTag(OMOBJ) + r;
    var s1 := Print(o) + s2;
    AssocInside(OpenTag(OMOBJ), Print(o), CloseTag(OMOBJ), r);
    LexOpen(OMOBJ, s1);
    TreeReads(ToOm(o), s2);
    LexClose(OMOBJ, r);
    ParseSteps(OpenTag(OMOBJ) + s1, s1, Norm(o), s2, r);
  }

  lemma TextIs(o: Obj)
    requires Printable(o)
    ensures PrintText(o) == OpenTag(OMOBJ) + (Print(o) + CloseTag(OMOBJ))
  {
    hide Print, OpenTag, CloseTag;
  }

  lemma ReadsParts(om: Om, o: Obj)
    requires Reads(om, o)
    ensures Lexable(om) && Read(om).Some? && Read(om).value == o
  {
    hide Lexable, Read;
  }
}
