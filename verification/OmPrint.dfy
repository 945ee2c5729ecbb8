/** The printer's text is the text of the object's tree. */
module OmPrint {
  import opened OmTree
  import opened OmObject

  lemma RenderCons(a: Om, rest: seq<Om>)
    ensures RenderAll([a] + rest) == Render(a) + RenderAll(rest)
  {
    assert ([a] + rest)[1..] == rest;
    hide Render;
  }

  lemma RenderTwo(a: Om, b: Om)
    ensures RenderAll([]) == "" && RenderAll([a]) == Render(a) && RenderAll([a, b]) == Render(a) + Render(b)
  {
    RenderCons(a, []);
    RenderCons(b, []);
    RenderCons(a, [b]);
    assert [a] + [] == [a] && [b] + [] == [b] && [a] + [b] == [a, b];
    assert Render(a) + "" == Render(a) && Render(b) + "" == Render(b);
    hide Render;
  }

  lemma RenderInt(v: int)
    ensures Render(IntOm(v)) == IntElement(v)
  {
    RenderPlain(IntText(v), "", "", []);
    hide Render, Element;
  }

  lemma {:induction false} RenderInts(vs: seq<int>)
    ensures RenderAll(IntOms(vs)) == PrintInts(vs)
  {
    if vs != [] {
      RenderInts(vs[1..]);
      RenderInt(vs[0]);
      RenderCons(IntOm(vs[0]), IntOms(vs[1..]));
    }
    hide Render, IntElement, IntOm, RenderAll;
    assert vs == [] ==> RenderAll([]) == "" by { RenderTwo(IntOm(0), IntOm(0)); }
  }

  lemma RenderApp(n: string, cd: string, args: seq<Om>, text: string)
    requires RenderAll(args) == text
    ensures Render(App(n, cd, args)) == Application(n, cd, text)
  {
    RenderPlain("", n, cd, args);
    hide Element, SymbolTag, RenderAll, Render;
  }

  lemma {:induction false} PrintIsRender(o: Obj)
    requires Printable(o)
    ensures Print(o) == Render(ToOm(o))
    decreases o, 1
  {
    match o
    case List(_) => PrintGroup(o);
    case Monomial(_, _) => PrintGroup(o);
    case QQ(_, _) => PrintLeaf(o);
    case DmsGeneric => PrintLeaf(o);
    case RecursivePoly(vs, p) =>
      EachIsRender(vs);
      PolyIsRender(p, AllOm(vs), PrintEach(vs));
    case Distributed(_, _) => PrintDistributed(o);
    case BigFloat(_, _) => PrintLeaf(o);
    case Tree(_, _, _) => PrintGroup(o);
    case _ => PrintLeaf(o);
  }

  lemma PrintLeaf(o: Obj)
    requires o.Null? || o.Zero? || o.Int32? || o.ZZ? || o.QQ? || o.Text? || o.DmsGeneric? || o.BigFloat?
      || o.Indeterminate?
    requires Printable(o)
    ensures Print(o) == Render(ToOm(o))
  {
    hide Element, SymbolTag, VarTag, IntText, RenderAll, Application, Render;
    RenderPlain(match o case Null => ['0'] case Zero => [' ', '0', ' '] case Int32(i) => IntText(i) case ZZ(v) => IntText(v)
      case Text(s) => s case Indeterminate(n) => n case _ => "", "", "", []);
    match o
    case QQ(a, b) =>
      RenderInt(a);
      RenderInt(b);
      RenderTwo(IntOm(a), IntOm(b));
      RenderApp(OVER, BASIC, [IntOm(a), IntOm(b)], IntElement(a) + IntElement(b));
    case DmsGeneric =>
      RenderInt(2);
      RenderTwo(IntOm(2), IntOm(2));
      RenderApp(POLY_RING, POLY, [IntOm(2)], IntElement(2));
    case BigFloat(a, e) =>
      var power := App(POWER, BASIC, [IntOm(2), IntOm(e)]);
      RenderInt(a);
      RenderInt(2);
      RenderInt(e);
      RenderTwo(IntOm(2), IntOm(e));
      RenderApp(POWER, BASIC, [IntOm(2), IntOm(e)], IntElement(2) + IntElement(e));
      RenderTwo(IntOm(a), power);
      RenderApp(TIMES, BASIC, [IntOm(a), power], IntElement(a) + Render(power));
    case _ =>
  }

  lemma {:induction false} PrintGroup(o: Obj)
    requires (o.List? || o.Monomial? || o.Tree?) && Printable(o)
    ensures Print(o) == Render(ToOm(o))
    decreases o, 0
  {
    hide Render, RenderAll, Application;
    match o
    case List(items) =>
      AllIsRender(items);
      RenderApp(LIST, BASIC, AllOm(items), PrintAll(items));
    case Monomial(c, ps) =>
      PrintIsRender(c);
      RenderInts(ps);
      RenderCons(ToOm(c), IntOms(ps));
      RenderApp(MONOM, POLY, [ToOm(c)] + IntOms(ps), Print(c) + PrintInts(ps));
    case Tree(n, cd, leaves) =>
      AllIsRender(leaves);
      RenderApp(n, cd, AllOm(leaves), PrintAll(leaves));
  }

  lemma {:induction false} AllIsRender(os: seq<Obj>)
    requires AllPrintable(os)
    ensures PrintAll(os) == RenderAll(AllOm(os))
    decreases os, 0
  {
    if os != [] {
      PrintIsRender(os[0]);
      AllIsRender(os[1..]);
      RenderCons(ToOm(os[0]), AllOm(os[1..]));
    }
    hide Print, Render, ToOm;
  }

  lemma {:induction false} EachIsRender(os: seq<Obj>)
    requires AllPrintable(os)
    ensures forall i :: 0 <= i < |os| ==> PrintEach(os)[i] == Render(AllOm(os)[i])
    decreases os, 0
  {
    if os != [] {
      PrintIsRender(os[0]);
      EachIsRender(os[1..]);
    }
    hide Print, Render, ToOm;
  }

  lemma {:induction false} PrintDistributed(o: Obj)
    requires o.Distributed? && Printable(o)
    ensures Print(o) == Render(ToOm(o))
    decreases o, 0
  {
    hide Render, RenderAll, Application;
    var ring, ms := ToOm(o.ring), MonomialOms(o.monomials);
    var inner := App(SDMP, POLY, ms);
    PrintIsRender(o.ring);
    MonomialsAreRender(o.monomials);
    RenderApp(SDMP, POLY, ms, PrintMonomials(o.monomials));
    RenderTwo(ring, inner);
    RenderApp(DMP, POLY, [ring, inner], Render(ring) + Render(inner));
  }

  lemma {:induction false} MonomialsAreRender(ms: seq<Obj>)
    requires MonomialsPrintable(ms)
    ensures PrintMonomials(ms) == RenderAll(MonomialOms(ms))
    decreases ms, 0
  {
    hide Print, Render, ToOm, Application;
    if ms != [] {
      var c, ps := ms[0].coef, ms[0].powers;
      PrintLeafCoef(ms[0]);
      MonomialsAreRender(ms[1..]);
      RenderInts(ps);
      RenderCons(ToOm(c), IntOms(ps));
      RenderApp(MONOM, POLY, [ToOm(c)] + IntOms(ps), Print(c) + PrintInts(ps));
      RenderCons(App(MONOM, POLY, [ToOm(c)] + IntOms(ps)), MonomialOms(ms[1..]));
    }
  }

  lemma PrintLeafCoef(m: Obj)
    requires MonomialPrintable(m)
    ensures Printable(m.coef) && Print(m.coef) == Render(ToOm(m.coef))
  {
    PrintLeaf(m.coef);
    hide Print, Render, ToOm;
  }

  lemma {:induction false} PolyIsRender(p: Obj, vs: seq<Om>, ts: seq<string>)
    requires |vs| == |ts| && PolyPrintable(p, |vs|)
    requires forall i :: 0 <= i < |vs| ==> ts[i] == Render(vs[i])
    ensures PrintPoly(p, ts) == Render(PolyOm(p, vs))
    decreases p, 2
  {
    if p.OneVar? {
      TermsAreRender(vs[p.variable], p.degrees, p.coefs, vs, ts);
    } else {
      PrintIsRender(p);
    }
    hide Render, Print, ToOm, PrintTerms, TermsOm;
  }

  lemma {:induction false} TermsAreRender(x: Om, ds: seq<int>, cs: seq<Obj>, vs: seq<Om>, ts: seq<string>)
    requires cs != [] && |ds| == |cs| && |vs| == |ts| && CoefsPrintable(cs, |vs|)
    requires forall i :: 0 <= i < |vs| ==> ts[i] == Render(vs[i])
    ensures PrintTerms(Render(x), ds, cs, ts) == Render(TermsOm(x, ds, cs, vs))
    decreases cs, 0
  {
    hide Render, RenderAll, Application, PrintPoly, PolyOm, PolyPrintable;
    var n := |cs| - 1;
    PolyIsRender(cs[n], vs, ts);
    MonoIsRender(x, ds[n], PolyOm(cs[n], vs));
    if n > 0 {
      TermsAreRender(x, ds[..n], cs[..n], vs, ts);
      var mono := MonoOm(x, ds[n], PolyOm(cs[n], vs));
      var rest := TermsOm(x, ds[..n], cs[..n], vs);
      RenderTwo(rest, mono);
      RenderApp(PLUS, BASIC, [rest, mono], Render(rest) + Render(mono));
    }
  }

  function MonoOm(x: Om, d: int, c: Om): Om {
    App(TIMES, BASIC, [App(POWER, BASIC, [x, IntOm(d)]), c])
  }

  lemma MonoIsRender(x: Om, d: int, c: Om)
    ensures Render(MonoOm(x, d, c))
      == Application(TIMES, BASIC, Application(POWER, BASIC, Render(x) + IntElement(d)) + Render(c))
  {
    var power := App(POWER, BASIC, [x, IntOm(d)]);
    RenderInt(d);
    RenderTwo(x, IntOm(d));
    RenderApp(POWER, BASIC, [x, IntOm(d)], Render(x) + IntElement(d));
    RenderTwo(power, c);
    RenderApp(TIMES, BASIC, [power, c], Render(power) + Render(c));
    hide Render, RenderAll, Application, IntOm, IntElement;
  }
}
