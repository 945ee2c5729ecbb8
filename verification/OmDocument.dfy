/** Whole documents in any layout, and the text of one object of each kind. */
module OmDocument {
  import opened Basics
  import opened OmLexer
  import opened OmTree
  import opened OmText
  import opened OmObject
  import opened OmParser
  import opened OmPrint
  import opened OmRoundTrip
  import OmNormal
  import Numeral
  import GmpText

  // ---------- layout ----------

  /** The same tree laid out as the printer does. */
  function Plainly(om: Om): Om
    decreases om, 1
  {
    match om
    case Int(t, _) => Int(t)
    case Str(t, _) => Str(t)
    case Var(n, _) => Var(n)
    case App(n, cd, args, _, _) => App(n, cd, AllPlainly(args))
  }

  function AllPlainly(oms: seq<Om>): (r: seq<Om>)
    ensures |r| == |oms|
    decreases oms, 0
  {
    if oms == [] then [] else [Plainly(oms[0])] + AllPlainly(oms[1..])
  }

  lemma {:induction false} PlainlyAt(oms: seq<Om>, i: nat)
    requires i < |oms|
    ensures AllPlainly(oms)[i] == Plainly(oms[i])
  {
    if i > 0 {
      PlainlyAt(oms[1..], i - 1);
    }
    hide Plainly;
  }

  lemma PlainlyTail(oms: seq<Om>)
    requires oms != []
    ensures AllPlainly(oms)[1..] == AllPlainly(oms[1..])
  {
    hide Plainly;
  }

  /** What a tree is read as does not depend on its layout. */
  lemma {:induction false} PlainlyReads(om: Om)
    ensures Read(Plainly(om)) == Read(om)
    decreases om, 3
  {
    match om
    case App(_, _, args, _, _) =>
      if om.name == DMP {
        if |args| == 2 {
          PlainlyAt(args, 0);
          PlainlyAt(args, 1);
          PlainlyReads(args[0]);
          if args[1].App? {
            MonomialsPlainly(args[1].args);
            PlainlyParts(args[1]);
          }
          DmpPlainly(om);
        } else {
          NoDmp(om);
        }
      } else {
        AllPlainlyReads(args);
        OtherPlainly(om);
      }
      hide *;
    case _ =>
  }

  lemma PlainlyParts(om: Om)
    requires om.App?
    ensures Plainly(om) == App(om.name, om.cd, AllPlainly(om.args))
  {
    hide AllPlainly;
  }

  lemma DmpPlainly(om: Om)
    requires om.App? && om.name == DMP && |om.args| == 2
    requires AllPlainly(om.args)[0] == Plainly(om.args[0]) && AllPlainly(om.args)[1] == Plainly(om.args[1])
    requires Read(Plainly(om.args[0])) == Read(om.args[0])
    requires om.args[1].App? ==>
      Plainly(om.args[1]) == App(om.args[1].name, om.args[1].cd, AllPlainly(om.args[1].args))
      && ReadMonomials(AllPlainly(om.args[1].args)) == ReadMonomials(om.args[1].args)
    ensures Read(Plainly(om)) == Read(om)
  {
    PlainlyParts(om);
    assert !om.args[1].App? ==> !Plainly(om.args[1]).App?;
    hide Plainly, AllPlainly, ReadMonomials, ReadAll;
  }

  lemma NoDmp(om: Om)
    requires om.App? && om.name == DMP && |om.args| != 2
    ensures Read(Plainly(om)) == Read(om)
  {
    hide AllPlainly;
  }

  lemma OtherPlainly(om: Om)
    requires om.App? && om.name != DMP && ReadAll(AllPlainly(om.args)) == ReadAll(om.args)
    ensures Read(Plainly(om)) == Read(om)
  {
    hide AllPlainly, ReadAll, Make;
  }

  lemma {:induction false} AllPlainlyReads(oms: seq<Om>)
    ensures ReadAll(AllPlainly(oms)) == ReadAll(oms)
    decreases oms, 0
  {
    if oms != [] {
      PlainlyReads(oms[0]);
      AllPlainlyReads(oms[1..]);
      PlainlyTail(oms);
    }
    hide Read, Plainly;
  }

  lemma {:induction false} PowersPlainly(oms: seq<Om>)
    ensures ReadPowers(AllPlainly(oms)) == ReadPowers(oms)
    decreases oms
  {
    if oms != [] {
      PowersPlainly(oms[1..]);
      PlainlyTail(oms);
      assert ReadInt(Plainly(oms[0])) == ReadInt(oms[0]) by { hide ParseInteger, Trim, AllPlainly; }
    }
    hide ReadInt, Wrap32, Plainly;
  }

  lemma {:induction false} MonomialsPlainly(oms: seq<Om>)
    ensures ReadMonomials(AllPlainly(oms)) == ReadMonomials(oms)
    decreases oms, 0
  {
    if oms != [] {
      MonomialPlainly(oms[0]);
      MonomialsPlainly(oms[1..]);
      PlainlyTail(oms);
    }
    hide ReadMonomial, Plainly;
  }

  lemma {:induction false} MonomialPlainly(om: Om)
    ensures ReadMonomial(Plainly(om)) == ReadMonomial(om)
    decreases om, 0
  {
    if om.App? && om.args != [] {
      PlainlyParts(om);
      PlainlyAt(om.args, 0);
      PlainlyTail(om.args);
      PlainlyReads(om.args[0]);
      PowersPlainly(om.args[1..]);
    }
    hide Read, ReadPowers, AllPlainly;
  }

  lemma {:induction false} PlainlyLexable(om: Om)
    requires Lexable(om)
    ensures Lexable(Plainly(om))
    decreases om, 1
  {
    match om
    case App(_, _, args, _, _) =>
      AllPlainlyLexable(args);
      PlainlyParts(om);
      hide AllPlainly, Plainly, SymbolName, CdName, AllLexable;
    case _ =>
  }

  lemma {:induction false} AllPlainlyLexable(oms: seq<Om>)
    requires AllLexable(oms)
    ensures AllLexable(AllPlainly(oms))
    decreases oms, 0
  {
    if oms != [] {
      PlainlyLexable(oms[0]);
      AllPlainlyLexable(oms[1..]);
      PlainlyTail(oms);
    }
    hide Lexable, Plainly;
  }

  /** Spaces before tags and between attributes, and the order of a symbol's attributes, change
      neither the object read nor where reading stops. */
  lemma LayoutIrrelevant(om: Om, r: string)
    requires Lexable(om) && Read(om).Some?
    ensures ParseObject(Render(om) + r) == ParseObject(Render(Plainly(om)) + r)
  {
    hide *;
    PlainlyReads(om);
    PlainlyLexable(om);
    TreeReads(om, r);
    TreeReads(Plainly(om), r);
  }

  /** A whole document, with spaces before its tags. */
  lemma DocumentReads(om: Om, sp: string, tail: string, r: string)
    requires Lexable(om) && Read(om).Some? && AllSpaces(sp) && AllSpaces(tail)
    ensures Parse(sp + (OpenTag(OMOBJ) + (Render(om) + (tail + (CloseTag(OMOBJ) + r))))) == Ok(Read(om).value, r)
  {
    Names();
    hide *;
    var s3 := CloseTag(OMOBJ) + r;
    var s2 := tail + s3;
    var s1 := Render(om) + s2;
    var s0 := OpenTag(OMOBJ) + s1;
    TagFirst(s1, r);
    LexOpen(OMOBJ, s1);
    LexLead(sp, s0);
    TreeReads(om, s2);
    LexClose(OMOBJ, r);
    LexLead(tail, s3);
    DocumentSteps(sp + s0, s1, Read(om).value, s2, r);
  }

  lemma TagFirst(s: string, r: string)
    ensures OpenTag(OMOBJ) + s != "" && !IsSpace((OpenTag(OMOBJ) + s)[0])
    ensures CloseTag(OMOBJ) + r != "" && !IsSpace((CloseTag(OMOBJ) + r)[0])
  {
  }

  lemma DocumentSteps(s: string, s1: string, o: Obj, s2: string, r: string)
    requires Lex(s) == (StartTag(OMOBJ), s1) && ParseObject(s1) == Ok(o, s2) && Lex(s2) == (EndTag(OMOBJ), r)
    ensures Parse(s) == Ok(o, r)
  {
    hide Lex, ParseObject;
  }

  // ---------- literal texts ----------

  lemma TagTexts()
    ensures OpenTag(OMI) == "<OMI>" && CloseTag(OMI) == "</OMI>" && OpenTag(OMA) == "<OMA>" && CloseTag(OMA) == "</OMA>"
    ensures OpenTag(OMSTR) == "<OMSTR>" && CloseTag(OMSTR) == "</OMSTR>"
    ensures OpenTag(OMOBJ) == "<OMOBJ>" && CloseTag(OMOBJ) == "</OMOBJ>"
  {
  }

  lemma NameTexts()
    ensures BASIC == "basic" && POLY == "poly" && LIST == "list" && OVER == "over" && TIMES == "times" && PLUS == "plus"
    ensures POWER == "power" && MONOM == "Monom" && DMP == "DMP" && SDMP == "SDMP" && POLY_RING == "PolyRing"
  {
  }

  lemma OneDigit(d: nat)
    requires 0 < d < 10
    ensures IntText(d) == [('0' as int + d) as char]
  {
    assert d / 10 == 0 && d % 10 == d;
    assert Numeral.Digits(0, 10) == "";
    assert Numeral.Digits(d, 10) == "" + [Numeral.DigitChar(d)];
  }

  /** The integers 1, 2 and 3. */
  lemma Integers()
    ensures IntElement(1) == "<OMI>1</OMI>" && IntElement(2) == "<OMI>2</OMI>" && IntElement(3) == "<OMI>3</OMI>"
  {
    TagTexts();
    OneDigit(1);
    OneDigit(2);
    OneDigit(3);
    hide OpenTag, CloseTag, IntText;
  }

  /** The text of an application. */
  function AppText(name: string, cd: string, args: string): string {
    "<OMA><OMS name=\"" + (name + ("\" cd=\"" + (cd + ("\"/>" + (args + "</OMA>")))))
  }

  /** The same with the dictionary first. */
  function CdFirstText(name: string, cd: string, args: string): string {
    "<OMA><OMS cd=\"" + (cd + ("\" name=\"" + (name + ("\"/>" + (args + "</OMA>")))))
  }

  lemma QuoteAround(v: string, t: string)
    ensures Quote(v) + t == "\"" + (v + ("\"" + t))
  {
  }

  lemma TwoTexts(k1: string, v1: string, k2: string, v2: string, args: string)
    ensures TwoAttributes(k1, v1, k2, v2, PLAIN) + args
      == "<OMS " + (k1 + ("\"" + (v1 + ("\" " + (k2 + ("\"" + (v2 + ("\"/>" + args))))))))
  {
    SymbolJoin(k1, v1, k2, v2, PLAIN, args);
    QuoteAround(v2, ['/', '>'] + args);
    assert "" + (['/', '>'] + args) == ['/', '>'] + args;
    var t2 := "\"/>" + args;
    assert "\"" + (['/', '>'] + args) == t2;
    var t1 := [' '] + (k2 + ("\"" + (v2 + t2)));
    QuoteAround(v1, t1);
    assert "\"" + t1 == "\" " + (k2 + ("\"" + (v2 + t2)));
    var t0 := k1 + ("\"" + (v1 + ("\"" + t1)));
    assert ['<'] + (OMS + ([' '] + t0)) == "<OMS " + t0;
    hide *;
  }

  lemma ApplicationText(name: string, cd: string, args: string)
    ensures Application(name, cd, args) == AppText(name, cd, args)
  {
    TagTexts();
    KeyTexts(name, cd, args + "</OMA>");
    TwoTexts(NAME, name, CD, cd, args + "</OMA>");
    ApplicationParts(name, cd, args);
    hide *;
    assert "<OMA>" + ("<OMS name=\"" + (name + ("\" cd=\"" + (cd + ("\"/>" + (args + "</OMA>"))))))
      == "<OMA><OMS name=\"" + (name + ("\" cd=\"" + (cd + ("\"/>" + (args + "</OMA>")))));
    AppTextIs(name, cd, args);
  }

  lemma AppTextIs(name: string, cd: string, args: string)
    ensures AppText(name, cd, args) == "<OMA><OMS name=\"" + (name + ("\" cd=\"" + (cd + ("\"/>" + (args + "</OMA>")))))
    ensures CdFirstText(name, cd, args) == "<OMA><OMS cd=\"" + (cd + ("\" name=\"" + (name + ("\"/>" + (args + "</OMA>")))))
  {
  }

  lemma ApplicationParts(name: string, cd: string, args: string)
    ensures Application(name, cd, args) == OpenTag(OMA) + (TwoAttributes(NAME, name, CD, cd, PLAIN) + (args + CloseTag(OMA)))
  {
    assert "" + ['/', '>'] == ['/', '>'];
    assert SymbolTag(name, cd) == TwoAttributes(NAME, name, CD, cd, PLAIN);
    Assoc(SymbolTag(name, cd), args, CloseTag(OMA));
    hide Quote, OpenTag, CloseTag, TwoAttributes, SymbolTag;
  }

  lemma KeyTexts(name: string, cd: string, t: string)
    ensures "<OMS " + (NAME + ("\"" + (name + ("\" " + (CD + ("\"" + (cd + ("\"/>" + t))))))))
      == "<OMS name=\"" + (name + ("\" cd=\"" + (cd + ("\"/>" + t))))
    ensures "<OMS " + (CD + ("\"" + (cd + ("\" " + (NAME + ("\"" + (name + ("\"/>" + t))))))))
      == "<OMS cd=\"" + (cd + ("\" name=\"" + (name + ("\"/>" + t))))
  {
    var u := cd + ("\"/>" + t);
    var v := name + ("\"/>" + t);
    assert "\" " + (CD + ("\"" + u)) == "\" cd=\"" + u;
    assert "\" " + (NAME + ("\"" + v)) == "\" name=\"" + v;
    var x := name + ("\" cd=\"" + u);
    var y := cd + ("\" name=\"" + v);
    assert "<OMS " + (NAME + ("\"" + x)) == "<OMS name=\"" + x;
    assert "<OMS " + (CD + ("\"" + y)) == "<OMS cd=\"" + y;
  }

  lemma NumberTexts()
    ensures Print(Null) == "<OMI>0</OMI>" && Print(Zero) == "<OMI> 0 </OMI>"
    ensures Print(Int32(3)) == "<OMI>3</OMI>" && Print(ZZ(2)) == "<OMI>2</OMI>"
  {
    TagTexts();
    Integers();
    hide OpenTag, CloseTag, IntElement;
  }

  lemma StringText()
    ensures Print(OmObject.Text("ab")) == "<OMSTR>ab</OMSTR>"
  {
    TagTexts();
    hide OpenTag, CloseTag, IntElement;
  }

  lemma VariableText()
    ensures Print(Indeterminate("x")) == "<OMV name=\"x\"/>"
  {
  }

  /** The fraction 2/3. */
  lemma FractionText()
    ensures Print(QQ(2, 3)) == AppText("over", "basic", "<OMI>2</OMI>" + "<OMI>3</OMI>")
  {
    Integers();
    NameTexts();
    ApplicationText(OVER, BASIC, IntElement(2) + IntElement(3));
    assert Print(QQ(2, 3)) == Application(OVER, BASIC, IntElement(2) + IntElement(3));
    hide *;
  }

  /** The floating-point number 3 * 2^1. */
  lemma FloatText()
    ensures Print(BigFloat(3, 1))
      == AppText("times", "basic", "<OMI>3</OMI>" + AppText("power", "basic", "<OMI>2</OMI>" + "<OMI>1</OMI>"))
  {
    Integers();
    NameTexts();
    var power := Application(POWER, BASIC, IntElement(2) + IntElement(1));
    ApplicationText(POWER, BASIC, IntElement(2) + IntElement(1));
    ApplicationText(TIMES, BASIC, IntElement(3) + power);
    assert Print(BigFloat(3, 1)) == Application(TIMES, BASIC, IntElement(3) + power);
    hide *;
  }

  /** The list of 1 and 2. */
  lemma ListText()
    ensures Printable(List([ZZ(1), ZZ(2)]))
    ensures Print(List([ZZ(1), ZZ(2)])) == AppText("list", "basic", "<OMI>1</OMI>" + "<OMI>2</OMI>")
  {
    Integers();
    NameTexts();
    PairPrint(ZZ(1), ZZ(2));
    var o := List([ZZ(1), ZZ(2)]);
    assert Printable(o);
    ApplicationText(LIST, BASIC, IntElement(1) + IntElement(2));
    assert Print(o) == Application(LIST, BASIC, IntElement(1) + IntElement(2)) by { hide Application, IntElement; }
    hide *;
  }

  lemma PairPrint(a: Obj, b: Obj)
    requires Printable(a) && Printable(b)
    ensures AllPrintable([a, b]) && PrintAll([a, b]) == Print(a) + Print(b)
  {
    assert [a, b][1..] == [b] && [b][1..] == [];
    assert AllPrintable([b]);
    assert PrintAll([b]) == Print(b) + PrintAll([]) == Print(b);
    hide Print, Printable;
  }

  /** An application of plus to 1 and 2. */
  lemma TreeText()
    ensures Printable(Tree("plus", "basic", [ZZ(1), ZZ(2)]))
    ensures Print(Tree("plus", "basic", [ZZ(1), ZZ(2)])) == AppText("plus", "basic", "<OMI>1</OMI>" + "<OMI>2</OMI>")
  {
    Integers();
    PairPrint(ZZ(1), ZZ(2));
    var o := Tree("plus", "basic", [ZZ(1), ZZ(2)]);
    assert Printable(o) by { hide AllPrintable; }
    ApplicationText("plus", "basic", IntElement(1) + IntElement(2));
    assert Print(o) == Application("plus", "basic", IntElement(1) + IntElement(2)) by { hide Application, IntElement; }
    hide *;
  }

  /** The monomial 3 * x1 * x2^2. */
  lemma MonomialText()
    ensures Printable(Monomial(ZZ(3), [1, 2]))
    ensures Print(Monomial(ZZ(3), [1, 2]))
      == AppText("Monom", "poly", "<OMI>3</OMI>" + ("<OMI>1</OMI>" + "<OMI>2</OMI>"))
  {
    Integers();
    NameTexts();
    PowersText(1, 2);
    var o := Monomial(ZZ(3), [1, 2]);
    assert Printable(o);
    ApplicationText(MONOM, POLY, IntElement(3) + (IntElement(1) + IntElement(2)));
    assert Print(o) == Application(MONOM, POLY, IntElement(3) + PrintInts([1, 2]))
      by { hide Application, IntElement, PrintInts; }
    hide *;
  }

  lemma PowersText(a: int, b: int)
    ensures PrintInts([a, b]) == IntElement(a) + IntElement(b) && PrintInts([a]) == IntElement(a)
  {
    assert [a, b][1..] == [b] && [b][1..] == [] && [a][1..] == [];
    assert PrintInts([]) == "";
    assert PrintInts([b]) == IntElement(b) + "" == IntElement(b);
    assert PrintInts([a]) == IntElement(a) + "" == IntElement(a);
    hide IntElement;
  }

  /** The distributed polynomial 3 * x1^2; its ring is written as a ring of two variables. */
  lemma DistributedText()
    ensures Printable(Distributed(DmsGeneric, [Monomial(ZZ(3), [2])]))
    ensures Print(Distributed(DmsGeneric, [Monomial(ZZ(3), [2])]))
      == AppText("DMP", "poly", AppText("PolyRing", "poly", "<OMI>2</OMI>")
           + AppText("SDMP", "poly", AppText("Monom", "poly", "<OMI>3</OMI>" + "<OMI>2</OMI>")))
  {
    Integers();
    NameTexts();
    PowersText(2, 2);
    var ring := Application(POLY_RING, POLY, IntElement(2));
    var mono := Application(MONOM, POLY, IntElement(3) + IntElement(2));
    var sum := Application(SDMP, POLY, mono);
    OneMonomial();
    ApplicationText(POLY_RING, POLY, IntElement(2));
    ApplicationText(MONOM, POLY, IntElement(3) + IntElement(2));
    ApplicationText(SDMP, POLY, mono);
    ApplicationText(DMP, POLY, ring + sum);
    hide *;
  }

  lemma OneMonomial()
    ensures var o := Distributed(DmsGeneric, [Monomial(ZZ(3), [2])]);
      && Printable(o)
      && Print(o) == Application(DMP, POLY, Application(POLY_RING, POLY, IntElement(2))
           + Application(SDMP, POLY, Application(MONOM, POLY, IntElement(3) + PrintInts([2]))))
  {
    var ms := [Monomial(ZZ(3), [2])];
    assert ms[1..] == [] && MonomialsPrintable([]);
    assert MonomialPrintable(ms[0]);
    assert MonomialsPrintable(ms);
    var m := Application(MONOM, POLY, IntElement(3) + PrintInts([2]));
    assert PrintMonomials(ms) == m + PrintMonomials([]) == m by { hide Application, IntElement, PrintInts; }
    hide Application, IntElement, PrintInts, MonomialsPrintable, PrintMonomials;
  }

  /** The polynomial 3 * x + 2 * x^2 in one variable, as a sum of products. */
  lemma PolynomialText()
    ensures Printable(RecursivePoly([Indeterminate("x")], OneVar(0, [1, 2], [ZZ(3), ZZ(2)])))
    ensures Print(RecursivePoly([Indeterminate("x")], OneVar(0, [1, 2], [ZZ(3), ZZ(2)])))
      == AppText("plus", "basic",
           AppText("times", "basic", AppText("power", "basic", "<OMV name=\"x\"/>" + "<OMI>1</OMI>") + "<OMI>3</OMI>")
           + AppText("times", "basic", AppText("power", "basic", "<OMV name=\"x\"/>" + "<OMI>2</OMI>") + "<OMI>2</OMI>"))
  {
    Integers();
    NameTexts();
    VariableText();
    var x := Print(Indeterminate("x"));
    var p1 := Application(POWER, BASIC, x + IntElement(1));
    var p2 := Application(POWER, BASIC, x + IntElement(2));
    var t1 := Application(TIMES, BASIC, p1 + IntElement(3));
    var t2 := Application(TIMES, BASIC, p2 + IntElement(2));
    TwoTerms();
    ApplicationText(POWER, BASIC, x + IntElement(1));
    ApplicationText(POWER, BASIC, x + IntElement(2));
    ApplicationText(TIMES, BASIC, p1 + IntElement(3));
    ApplicationText(TIMES, BASIC, p2 + IntElement(2));
    ApplicationText(PLUS, BASIC, t1 + t2);
    hide *;
  }

  lemma TwoTerms()
    ensures var x := Print(Indeterminate("x"));
      var o := RecursivePoly([Indeterminate("x")], OneVar(0, [1, 2], [ZZ(3), ZZ(2)]));
      && Printable(o)
      && Print(o) == Application(PLUS, BASIC,
           Application(TIMES, BASIC, Application(POWER, BASIC, x + IntElement(1)) + IntElement(3))
           + Application(TIMES, BASIC, Application(POWER, BASIC, x + IntElement(2)) + IntElement(2)))
  {
    var v := Indeterminate("x");
    var x := Print(v);
    var cs, ds, vs := [ZZ(3), ZZ(2)], [1, 2], [v];
    assert vs[1..] == [] && cs[..1] == [ZZ(3)] && ds[..1] == [1];
    TermsPrintable();
    var ts := PrintEach(vs);
    assert ts == [x] + PrintEach([]) == [x];
    hide *;
    OneVarText(vs, ds, cs, ts);
    TermsText(x, ts);
  }

  lemma OneVarText(vs: seq<Obj>, ds: seq<int>, cs: seq<Obj>, ts: seq<string>)
    requires Printable(RecursivePoly(vs, OneVar(0, ds, cs))) && AllPrintable(vs) && ts == PrintEach(vs)
    ensures |vs| > 0 && cs != [] && |ds| == |cs| && CoefsPrintable(cs, |ts|)
    ensures Print(RecursivePoly(vs, OneVar(0, ds, cs))) == PrintTerms(ts[0], ds, cs, ts)
  {
    hide *;
    RecursiveText(vs, OneVar(0, ds, cs));
    TermsOfPoly(OneVar(0, ds, cs), ts);
  }

  lemma TermsOfPoly(p: Obj, ts: seq<string>)
    requires p.OneVar? && PolyPrintable(p, |ts|)
    ensures 0 <= p.variable < |ts| && p.coefs != [] && |p.degrees| == |p.coefs| && CoefsPrintable(p.coefs, |ts|)
    ensures PrintPoly(p, ts) == PrintTerms(ts[p.variable], p.degrees, p.coefs, ts)
  {
    hide CoefsPrintable, PrintTerms, Printable, Print;
  }

  lemma RecursiveText(vs: seq<Obj>, p: Obj)
    requires Printable(RecursivePoly(vs, p)) && AllPrintable(vs)
    ensures PolyPrintable(p, |vs|) && Print(RecursivePoly(vs, p)) == PrintPoly(p, PrintEach(vs))
  {
    hide PrintPoly, PrintEach, PolyPrintable, AllPrintable;
  }

  lemma TermsPrintable()
    ensures AllPrintable([Indeterminate("x")]) && CoefsPrintable([ZZ(3)], 1) && CoefsPrintable([ZZ(3), ZZ(2)], 1)
    ensures Printable(RecursivePoly([Indeterminate("x")], OneVar(0, [1, 2], [ZZ(3), ZZ(2)])))
  {
    assert [Indeterminate("x")][1..] == [] && AllPrintable([]);
    var cs := [ZZ(3), ZZ(2)];
    assert [ZZ(3)][..0] == [] && CoefsPrintable([], 1) && cs[..1] == [ZZ(3)];
    assert CoefsPrintable([ZZ(3)], 1);
    assert CoefsPrintable(cs, 1);
  }

  lemma TermsText(x: string, ts: seq<string>)
    requires |ts| == 1 && CoefsPrintable([ZZ(3), ZZ(2)], 1) && CoefsPrintable([ZZ(3)], 1)
    ensures PrintTerms(x, [1, 2], [ZZ(3), ZZ(2)], ts) == Application(PLUS, BASIC,
           Application(TIMES, BASIC, Application(POWER, BASIC, x + IntElement(1)) + IntElement(3))
           + Application(TIMES, BASIC, Application(POWER, BASIC, x + IntElement(2)) + IntElement(2)))
  {
    var cs, ds := [ZZ(3), ZZ(2)], [1, 2];
    assert cs[..1] == [ZZ(3)] && ds[..1] == [1];
    assert PrintPoly(ZZ(3), ts) == IntElement(3) && PrintPoly(ZZ(2), ts) == IntElement(2)
      by { hide IntElement; }
    hide Application, IntElement, PrintPoly, CoefsPrintable;
  }

  // ---------- documents read ----------

  const CD_FIRST: Look := Look(true, "", [' '], [' '], "", "")

  lemma CdFirstRender(n: string, cd: string, args: seq<Om>)
    ensures Render(App(n, cd, args, "", CD_FIRST)) == CdFirstText(n, cd, RenderAll(args))
  {
    hide *;
    var u := RenderAll(args) + "</OMA>";
    TagTexts();
    CdFirstParts(n, cd, args);
    KeyTexts(n, cd, u);
    TwoTexts(CD, cd, NAME, n, u);
    AppTextIs(n, cd, RenderAll(args));
    var t := cd + ("\" name=\"" + (n + ("\"/>" + u)));
    assert "<OMA>" + ("<OMS cd=\"" + t) == "<OMA><OMS cd=\"" + t;
  }

  lemma CdFirstParts(n: string, cd: string, args: seq<Om>)
    ensures Render(App(n, cd, args, "", CD_FIRST))
      == OpenTag(OMA) + (TwoAttributes(CD, cd, NAME, n, PLAIN) + (RenderAll(args) + CloseTag(OMA)))
  {
    var om := App(n, cd, args, "", CD_FIRST);
    SameTwo(CD, cd, NAME, n);
    var c := TwoAttributes(CD, cd, NAME, n, CD_FIRST);
    assert SymbolText(n, cd, CD_FIRST) == "" + c == c by { hide TwoAttributes; }
    assert RenderAll(args) + "" == RenderAll(args);
    assert Bare(om) == OpenTag(OMA) + (SymbolText(n, cd, CD_FIRST) + (RenderAll(args) + "") + CloseTag(OMA))
      by { hide OpenTag, CloseTag, SymbolText, RenderAll; }
    hide *;
    RenderIs(om);
    EmptyFront(Bare(om));
    Assoc(c, RenderAll(args), CloseTag(OMA));
  }

  lemma SameTwo(k1: string, v1: string, k2: string, v2: string)
    ensures TwoAttributes(k1, v1, k2, v2, CD_FIRST) == TwoAttributes(k1, v1, k2, v2, PLAIN)
  {
    hide Quote;
  }

  /** With the dictionary in front of the name, an application is read as with the name in front. */
  lemma CdFirstReads(n: string, cd: string, args: seq<Om>, r: string)
    requires Lexable(App(n, cd, args)) && Read(App(n, cd, args)).Some?
    ensures ParseObject(CdFirstText(n, cd, RenderAll(args)) + r) == Ok(Read(App(n, cd, args)).value, r)
    ensures ParseObject(AppText(n, cd, RenderAll(args)) + r) == Ok(Read(App(n, cd, args)).value, r)
  {
    var om := App(n, cd, args, "", CD_FIRST);
    SameTree(n, cd, args);
    hide *;
    CdFirstRender(n, cd, args);
    TreeReads(om, r);
    RenderApp(n, cd, args, RenderAll(args));
    ApplicationText(n, cd, RenderAll(args));
    TreeReads(App(n, cd, args), r);
  }

  lemma SameTree(n: string, cd: string, args: seq<Om>)
    requires Lexable(App(n, cd, args))
    ensures Lexable(App(n, cd, args, "", CD_FIRST)) && Read(App(n, cd, args, "", CD_FIRST)) == Read(App(n, cd, args))
  {
    hide AllLexable, SymbolName, CdName, ReadAll, ReadMonomials, Make;
  }

  lemma IntIsRead(d: nat, sp: string)
    requires 0 < d < 10 && AllSpaces(sp)
    ensures var om := Int([('0' as int + d) as char], sp); Lexable(om) && Read(om) == Some(ZZ(d))
  {
    OneDigit(d);
    OmNormal.IntTextReads(d);
    hide IntText, ParseInteger, Trim;
  }

  /** The sum of 1 and 2, its dictionary first. */
  lemma CdFirstExample(r: string)
    ensures Parse("<OMOBJ>" + (CdFirstText("plus", "basic", "<OMI>1</OMI>" + "<OMI>2</OMI>") + ("</OMOBJ>" + r)))
      == Ok(Tree("plus", "basic", [ZZ(1), ZZ(2)]), r)
  {
    var om := App("plus", "basic", [Int("1"), Int("2")], "", CD_FIRST);
    SumIsRead("", "", "", CD_FIRST);
    SumParts("", "");
    CdFirstRender("plus", "basic", [Int("1"), Int("2")]);
    TagTexts();
    DocumentReads(om, "", "", r);
    EmptyFront(OpenTag(OMOBJ) + (Render(om) + ("" + (CloseTag(OMOBJ) + r))));
    EmptyFront(CloseTag(OMOBJ) + r);
    hide *;
  }

  lemma EmptyFront(s: string)
    ensures "" + s == s
  {
  }

  lemma SumParts(sp1: string, sp2: string)
    ensures RenderAll([Int("1", sp1), Int("2", sp2)]) == (sp1 + "<OMI>1</OMI>") + (sp2 + "<OMI>2</OMI>")
    ensures "" + "<OMI>1</OMI>" == "<OMI>1</OMI>" && "" + "<OMI>2</OMI>" == "<OMI>2</OMI>"
  {
    TagTexts();
    RenderTwo(Int("1", sp1), Int("2", sp2));
    assert Element(OMI, "1") == "<OMI>1</OMI>" && Element(OMI, "2") == "<OMI>2</OMI>";
    assert Render(Int("1", sp1)) == sp1 + Element(OMI, "1") && Render(Int("2", sp2)) == sp2 + Element(OMI, "2")
      by { hide Element; }
    hide *;
  }

  lemma SumIsRead(sp: string, sp1: string, sp2: string, look: Look)
    requires AllSpaces(sp) && AllSpaces(sp1) && AllSpaces(sp2) && Spacious(look)
    ensures var om := App("plus", "basic", [Int("1", sp1), Int("2", sp2)], sp, look);
      Lexable(om) && Read(om) == Some(Tree("plus", "basic", [ZZ(1), ZZ(2)]))
  {
    NameTexts();
    OmNormal.Dictionaries();
    IntIsRead(1, sp1);
    IntIsRead(2, sp2);
    var a, b := Int("1", sp1), Int("2", sp2);
    assert a == Int([('0' as int + 1) as char], sp1) && b == Int([('0' as int + 2) as char], sp2);
    OmNormal.ReadsTwo(a, ZZ(1), b, ZZ(2)) by { hide Lexable, Read; }
    OmNormal.MakeTree("plus", [ZZ(1), ZZ(2)]);
    hide *;
    SumUnfold([a, b], [ZZ(1), ZZ(2)], sp, look);
  }

  lemma SumUnfold(args: seq<Om>, leaves: seq<Obj>, sp: string, look: Look)
    requires OmNormal.AllRead(args, leaves) && AllSpaces(sp) && Spacious(look)
    ensures var om := App("plus", "basic", args, sp, look); Lexable(om) && Read(om) == Some(Make("plus", leaves))
  {
    NameTexts();
    OmNormal.Dictionaries();
    hide AllLexable, ReadAll, ReadMonomials, Make, SymbolName, CdName;
  }

  /** The same sum with spaces, tabs and line ends between its tags and attributes. */
  lemma SpacedExample(r: string)
    ensures Parse("\t" + ("<OMOBJ>" + (("\n " + ("<OMA>" + ((" " + ("<OMS" + ("\n" + ("cd=" + ("\"basic\"" + ("\t"
        + ("name=" + ("\"plus\"" + (" " + "/>"))))))))) + ((("\t" + "<OMI>1</OMI>") + ("\r\n" + "<OMI>2</OMI>")) + "\n")
        + "</OMA>"))) + ("\r" + ("</OMOBJ>" + r)))))
      == Ok(Tree("plus", "basic", [ZZ(1), ZZ(2)]), r)
  {
    var look := Look(true, " ", "\n", "\t", " ", "\n");
    var om := App("plus", "basic", [Int("1", "\t"), Int("2", "\r\n")], "\n ", look);
    SumIsRead("\n ", "\t", "\r\n", look);
    SumParts("\t", "\r\n");
    TagTexts();
    SpacedSymbol(look);
    DocumentReads(om, "\t", "\r", r);
    assert Bare(om) == OpenTag(OMA) + (SymbolText("plus", "basic", look) + (RenderAll(om.args) + "\n") + CloseTag(OMA))
      by { hide OpenTag, CloseTag, SymbolText, RenderAll; }
    assert Render(om) == "\n " + Bare(om) by { hide Bare; }
    hide *;
  }

  lemma SpacedSymbol(look: Look)
    requires look == Look(true, " ", "\n", "\t", " ", "\n")
    ensures SymbolText("plus", "basic", look) == " " + ("<OMS" + ("\n" + ("cd=" + ("\"basic\"" + ("\t"
        + ("name=" + ("\"plus\"" + (" " + "/>"))))))))
  {
    assert CD == "cd=" && NAME == "name=" && Quote("basic") == "\"basic\"" && Quote("plus") == "\"plus\"";
    var u := "\n" + ("cd=" + ("\"basic\"" + ("\t" + ("name=" + ("\"plus\"" + (" " + "/>"))))));
    assert ['<'] + (OMS + u) == "<OMS" + u;
    hide Quote;
  }

  // ---------- numbers and escapes in texts ----------

  /** The text u shows the digits ds, letters as capitals. */
  predicate ShowsCapitals(u: string, ds: seq<nat>, base: nat) {
    |u| == |ds| && forall i :: 0 <= i < |ds| ==> ds[i] < base && ds[i] < 16 && u[i] == GmpText.UPPER[ds[i]]
  }

  lemma CapitalShown(d: nat)
    requires d < 16
    ensures Numeral.DigitValue(GmpText.UPPER[d]) == d && !('a' <= GmpText.UPPER[d] <= 'z')
    ensures GmpText.UPPER[d] != '-' && GmpText.UPPER[d] != 'x'
  {
    GmpText.LetterAt(d);
    hide GmpText.UPPER, GmpText.LOWER;
  }

  lemma {:induction false} CapitalsValue(u: string, ds: seq<nat>, base: nat)
    requires ShowsCapitals(u, ds, base)
    ensures AllDigits(u, base) && DigitsValue(u, base) == GmpText.Number(ds, base, 0)
  {
    hide GmpText.UPPER;
    forall i | 0 <= i < |u|
      ensures 0 <= Numeral.DigitValue(u[i]) < base && !('a' <= u[i] <= 'z')
    {
      CapitalShown(ds[i]);
    }
    if u != "" {
      var n := |u| - 1;
      CapitalsValue(u[..n], ds[..n], base);
      CapitalShown(ds[n]);
      assert ds == ds[..n] + [ds[n]];
      GmpText.NumberSnoc(ds[..n], ds[n], base, 0);
    }
    hide Numeral.DigitValue, GmpText.Number;
  }

  lemma ParsedParts(s: string, i: nat, t: string)
    requires s != "" && t != "" && i == (if s[0] == '-' then 1 else 0) && i <= |s| && s[i..] == t
    ensures t[0] == 'x' && |t| >= 2 && AllDigits(t[1..], 16) ==>
      ParseInteger(s) == Some(Sign(i == 1, DigitsValue(t[1..], 16)))
    ensures t[0] != 'x' && AllDigits(t, 10) ==> ParseInteger(s) == Some(Sign(i == 1, DigitsValue(t, 10)))
  {
    assert s[i] == t[0];
    assert |t| >= 2 ==> s[i + 1..] == t[1..];
    hide AllDigits, DigitsValue;
  }

  /** An integer's text: a minus or none, then decimal digits, or x and hexadecimal digits. */
  lemma IntegerRead(negative: bool, hex: bool, u: string, ds: seq<nat>)
    requires u != "" && ShowsCapitals(u, ds, if hex then 16 else 10)
    ensures var v: int := GmpText.Number(ds, if hex then 16 else 10, 0);
      ParseInteger((if negative then "-" else "") + ((if hex then "x" else "") + u)) == Some(if negative then -1 * v else v)
  {
    CapitalsValue(u, ds, if hex then 16 else 10);
    CapitalShown(ds[0]);
    assert u[0] != '-' && u[0] != 'x';
    SignedInteger(negative, hex, u);
    hide *;
    SignIs(negative, GmpText.Number(ds, if hex then 16 else 10, 0));
  }

  lemma SignIs(negative: bool, v: nat)
    ensures Sign(negative, v) == if negative then -1 * v as int else v
  {
  }

  lemma SignedInteger(negative: bool, hex: bool, u: string)
    requires u != "" && u[0] != '-' && u[0] != 'x' && AllDigits(u, if hex then 16 else 10)
    ensures ParseInteger((if negative then "-" else "") + ((if hex then "x" else "") + u))
      == Some(Sign(negative, DigitsValue(u, if hex then 16 else 10)))
  {
    hide *;
    var t := (if hex then "x" else "") + u;
    var s := (if negative then "-" else "") + t;
    var i := if negative then 1 else 0;
    assert s[i..] == t;
    assert s[0] == if negative then '-' else t[0];
    assert t[0] == if hex then 'x' else u[0];
    assert if hex then t[1..] == u else t == u;
    ParsedParts(s, i, t);
  }

  /** Exponents keep their low 32 bits. */
  lemma LowBits(v: int)
    ensures IsInt32(Wrap32(v)) && (v - Wrap32(v)) % 0x1_0000_0000 == 0
    ensures IsInt32(v) ==> Wrap32(v) == v
  {
  }

  /** A backslash and three octal digits stand for one character. */
  lemma OctalEscape(a: nat, b: nat, c: nat, t: string)
    requires a < 4 && b < 8 && c < 8
    ensures EscapeAt([GmpText.LOWER[a]] + ([GmpText.LOWER[b]] + ([GmpText.LOWER[c]] + t))) == ((64 * a + 8 * b + c) as char, t)
  {
    GmpText.LetterAt(a);
    GmpText.LetterAt(b);
    GmpText.LetterAt(c);
    var s := [GmpText.LOWER[a]] + ([GmpText.LOWER[b]] + ([GmpText.LOWER[c]] + t));
    assert s[0] == GmpText.LOWER[a] && s[1] == GmpText.LOWER[b] && s[2] == GmpText.LOWER[c] && s[3..] == t;
    hide GmpText.LOWER, GmpText.UPPER;
  }
}
