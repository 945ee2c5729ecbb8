/** Printing and reading keep the number an object denotes, and reading twice changes nothing. */
module OmValue {
  import opened Basics
  import opened OmLexer
  import opened OmText
  import opened OmObject
  import opened OmParser
  import opened OmNormal

  // ---------- the number an object denotes ----------

  function Power(b: real, n: int): real
    decreases if n < 0 then -n else n
  {
    if n == 0 then 1.0
    else if n > 0 then b * Power(b, n - 1)
    else if b == 0.0 then 0.0
    else Power(b, n + 1) / b
  }

  function Over(a: real, b: real): real { if b == 0.0 then 0.0 else a / b }

  function AsInteger(o: Obj): Option<int> {
    match o
    case Null => Some(0)
    case Zero => Some(0)
    case Int32(i) => Some(i)
    case ZZ(v) => Some(v)
    case RecursivePoly(_, p) => AsInteger(p)
    case _ => None
  }

  type Env = string -> real

  /** Numbers, indeterminates, polynomials and arithmetic applications; anything else counts as 0. */
  function Value(o: Obj, env: Env): real
    decreases o, 1
  {
    match o
    case Int32(i) => i as real
    case ZZ(v) => v as real
    case QQ(a, b) => Over(a as real, b as real)
    case Indeterminate(n) => env(n)
    case BigFloat(a, e) => a as real * Power(2.0, e)
    case RecursivePoly(vs, p) => PolyValue(p, Values(vs, env), env)
    case Tree(n, _, leaves) =>
      if |leaves| == 2 then ApplyTo(n, Values(leaves, env), AsInteger(leaves[1])) else 0.0
    case _ => 0.0
  }

  function ApplyTo(n: string, vs: seq<real>, e: Option<int>): real
    requires |vs| == 2
  {
    if n == PLUS then vs[0] + vs[1]
    else if n == TIMES then vs[0] * vs[1]
    else if n == OVER then Over(vs[0], vs[1])
    else if n == POWER && e.Some? then Power(vs[0], e.value)
    else 0.0
  }

  function Values(os: seq<Obj>, env: Env): (r: seq<real>)
    ensures |r| == |os|
    decreases os, 0
  {
    if os == [] then [] else [Value(os[0], env)] + Values(os[1..], env)
  }

  /** A polynomial at a point: its terms summed, each coefficient a polynomial itself. */
  function PolyValue(p: Obj, xs: seq<real>, env: Env): real
    decreases p, 2
  {
    if p.OneVar? then
      if 0 <= p.variable < |xs| && |p.degrees| == |p.coefs| then TermsValue(xs[p.variable], p.degrees, p.coefs, xs, env)
      else 0.0
    else Value(p, env)
  }

  function TermsValue(x: real, ds: seq<int>, cs: seq<Obj>, xs: seq<real>, env: Env): real
    requires |ds| == |cs|
    decreases cs, 0
  {
    if cs == [] then 0.0 else
      var n := |cs| - 1;
      TermsValue(x, ds[..n], cs[..n], xs, env) + Power(x, ds[n]) * PolyValue(cs[n], xs, env)
  }

  // ---------- the value is kept ----------

  lemma ValuesTwo(a: Obj, b: Obj, env: Env)
    ensures Values([a, b], env) == [Value(a, env), Value(b, env)]
  {
    assert [a, b][1..] == [b] && [b][1..] == [];
    assert Values([], env) == [];
    assert Values([b], env) == [Value(b, env)];
    hide Value;
  }

  lemma TreeTwo(n: string, a: Obj, b: Obj, env: Env)
    ensures Value(Tree(n, BASIC, [a, b]), env) == ApplyTo(n, [Value(a, env), Value(b, env)], AsInteger(b))
  {
    ValuesTwo(a, b, env);
    hide ApplyTo;
  }

  lemma NamesDiffer()
    ensures PLUS != TIMES && PLUS != POWER && TIMES != POWER && OVER != PLUS && OVER != TIMES && OVER != POWER
    ensures LIST !in {PLUS, TIMES, OVER, POWER} && MONOM !in {PLUS, TIMES, OVER, POWER}
  {
  }

  /** The value of the tree printed for one term. */
  lemma TermValue(x: Obj, d: int, c: Obj, env: Env)
    ensures Value(Tree(TIMES, BASIC, [Tree(POWER, BASIC, [x, ZZ(d)]), c]), env)
      == Power(Value(x, env), d) * Value(c, env)
  {
    NamesDiffer();
    var p := Tree(POWER, BASIC, [x, ZZ(d)]);
    TreeTwo(POWER, x, ZZ(d), env);
    TreeTwo(TIMES, p, c, env);
    hide Value, Power;
  }

  lemma SumValue(a: Obj, b: Obj, env: Env)
    ensures Value(Tree(PLUS, BASIC, [a, b]), env) == Value(a, env) + Value(b, env)
  {
    TreeTwo(PLUS, a, b, env);
    hide Value;
  }

  /** The normal form denotes the number the object denotes, whatever the values of the
      indeterminates. */
  lemma {:induction false} NormValue(o: Obj, env: Env)
    requires Printable(o)
    ensures Value(Norm(o), env) == Value(o, env)
    decreases o, 1
  {
    match o
    case RecursivePoly(vs, p) =>
      AllValue(vs, env);
      PolyNormValue(p, NormAll(vs), Values(vs, env), env);
    case BigFloat(a, e) => BigFloatValue(a, e, env);
    case Monomial(c, ps) => MonomialValue(Norm(c), Integers(ps), env);
    case Tree(_, _, _) => TreeNormValue(o, env);
    case _ =>
  }

  lemma MonomialValue(c: Obj, rest: seq<Obj>, env: Env)
    ensures Value(Tree(MONOM, BASIC, [c] + rest), env) == 0.0
  {
    NamesDiffer();
  }

  lemma BigFloatValue(a: int, e: int, env: Env)
    ensures Value(Tree(TIMES, BASIC, [ZZ(a), Tree(POWER, BASIC, [ZZ(2), ZZ(e)])]), env) == a as real * Power(2.0, e)
  {
    NamesDiffer();
    var p := Tree(POWER, BASIC, [ZZ(2), ZZ(e)]);
    TreeTwo(POWER, ZZ(2), ZZ(e), env);
    TreeTwo(TIMES, ZZ(a), p, env);
    hide Power;
  }

  lemma {:induction false} AllValue(os: seq<Obj>, env: Env)
    requires AllPrintable(os)
    ensures Values(NormAll(os), env) == Values(os, env)
    ensures forall i :: 0 <= i < |os| ==> Values(os, env)[i] == Value(NormAll(os)[i], env)
    decreases os, 0
  {
    if os != [] {
      NormValue(os[0], env);
      AllValue(os[1..], env);
      assert NormAll(os)[1..] == NormAll(os[1..]);
    }
    hide Value, Norm;
  }

  lemma {:induction false} NormInteger(o: Obj)
    requires Printable(o)
    ensures AsInteger(Norm(o)) == AsInteger(o)
  {
    if o.RecursivePoly? && !o.poly.OneVar? {
      NormInteger(o.poly);
    } else if o.RecursivePoly? {
      assert NormPoly(o.poly, NormAll(o.variables)).Tree?;
    }
  }

  lemma {:induction false} TreeNormValue(o: Obj, env: Env)
    requires o.Tree? && Printable(o)
    ensures Value(Norm(o), env) == Value(o, env)
    decreases o, 0
  {
    var n, leaves := o.name, o.leaves;
    NamesDiffer();
    AllValue(leaves, env);
    if |leaves| == 2 {
      NormInteger(leaves[1]);
      var a, b := NormAll(leaves)[0], NormAll(leaves)[1];
      assert NormAll(leaves) == [a, b];
      TreeTwo(n, a, b, env);
      ValuesTwo(a, b, env);
      SecondLeaf(leaves);
      MakeValue(n, a, b, env);
      hide *;
      TreeOf(o, env);
    } else {
      MakeOther(n, NormAll(leaves), env);
    }
  }

  lemma MakeOther(n: string, leaves: seq<Obj>, env: Env)
    requires |leaves| != 2
    ensures Value(Make(n, leaves), env) == 0.0
  {
  }

  lemma TreeOf(o: Obj, env: Env)
    requires o.Tree? && Printable(o) && |o.leaves| == 2
    ensures AllPrintable(o.leaves) && Norm(o) == Make(o.name, NormAll(o.leaves))
    ensures Value(o, env) == ApplyTo(o.name, Values(o.leaves, env), AsInteger(o.leaves[1]))
  {
    hide Make, NormAll, ApplyTo, Values;
  }

  lemma SecondLeaf(os: seq<Obj>)
    requires AllPrintable(os) && |os| == 2
    ensures Printable(os[1]) && NormAll(os)[1] == Norm(os[1])
  {
    assert os[1..][0] == os[1];
    hide Norm, Printable;
  }

  lemma MakeValue(n: string, a: Obj, b: Obj, env: Env)
    ensures Value(Make(n, [a, b]), env) == Value(Tree(n, BASIC, [a, b]), env)
  {
    NamesDiffer();
    TreeTwo(n, a, b, env);
    hide Power, Over;
  }

  lemma {:induction false} PolyNormValue(p: Obj, vs: seq<Obj>, xs: seq<real>, env: Env)
    requires |vs| == |xs| && PolyPrintable(p, |vs|)
    requires forall i :: 0 <= i < |vs| ==> xs[i] == Value(vs[i], env)
    ensures Value(NormPoly(p, vs), env) == PolyValue(p, xs, env)
    decreases p, 2
  {
    if p.OneVar? {
      TermsNormValue(vs[p.variable], p.degrees, p.coefs, vs, xs, env);
    } else {
      NormValue(p, env);
    }
    hide Value, NormTerms, TermsValue, Norm;
  }

  lemma {:induction false} TermsNormValue(x: Obj, ds: seq<int>, cs: seq<Obj>, vs: seq<Obj>, xs: seq<real>, env: Env)
    requires cs != [] && |ds| == |cs| && |vs| == |xs| && CoefsPrintable(cs, |vs|)
    requires forall i :: 0 <= i < |vs| ==> xs[i] == Value(vs[i], env)
    ensures Value(NormTerms(x, ds, cs, vs), env) == TermsValue(Value(x, env), ds, cs, xs, env)
    decreases cs, 0
  {
    hide *;
    NormTermsSplit(x, ds, cs, vs);
    TermsValueSplit(Value(x, env), ds, cs, xs, env);
    var n := |cs| - 1;
    var c := NormPoly(cs[n], vs);
    PolyNormValue(cs[n], vs, xs, env);
    TermValue(x, ds[n], c, env);
    if n > 0 {
      TermsNormValue(x, ds[..n], cs[..n], vs, xs, env);
      SumValue(NormTerms(x, ds[..n], cs[..n], vs), Tree(TIMES, BASIC, [Tree(POWER, BASIC, [x, ZZ(ds[n])]), c]), env);
    }
  }

  lemma NormTermsSplit(x: Obj, ds: seq<int>, cs: seq<Obj>, vs: seq<Obj>)
    requires cs != [] && |ds| == |cs| && CoefsPrintable(cs, |vs|)
    ensures var n := |cs| - 1;
      CoefsPrintable(cs[..n], |vs|) && PolyPrintable(cs[n], |vs|)
      && var mono := Tree(TIMES, BASIC, [Tree(POWER, BASIC, [x, ZZ(ds[n])]), NormPoly(cs[n], vs)]);
      && (n == 0 ==> NormTerms(x, ds, cs, vs) == mono)
      && (n > 0 ==> NormTerms(x, ds, cs, vs) == Tree(PLUS, BASIC, [NormTerms(x, ds[..n], cs[..n], vs), mono]))
  {
    hide NormPoly, PolyPrintable;
  }

  lemma TermsValueSplit(x: real, ds: seq<int>, cs: seq<Obj>, xs: seq<real>, env: Env)
    requires cs != [] && |ds| == |cs|
    ensures var n := |cs| - 1;
      var t := Power(x, ds[n]) * PolyValue(cs[n], xs, env);
      && (n == 0 ==> TermsValue(x, ds, cs, xs, env) == t)
      && (n > 0 ==> TermsValue(x, ds, cs, xs, env) == TermsValue(x, ds[..n], cs[..n], xs, env) + t)
  {
    hide PolyValue, Power;
    var n := |cs| - 1;
    assert n == 0 ==> cs[..n] == [];
  }

  /** So the object read back denotes the number the printed one did. */
  lemma PrintedValue(o: Obj, r: string, env: Env)
    requires Printable(o)
    ensures Parse(PrintText(o) + r).Ok?
    ensures Value(Parse(PrintText(o) + r).value, env) == Value(o, env)
  {
    PrintedIsRead(o, r);
    NormValue(o, env);
    hide *;
  }

  // ---------- reading again changes nothing ----------

  lemma {:induction false} TrimTwice(s: string)
    ensures Trim(Trim(s)) == Trim(s)
    ensures NoTag(s) ==> NoTag(Trim(s))
  {
    var t := DropStart(s);
    DropStartTag(s);
    if t != "" {
      DropEndIs(t);
      var u := DropEnd(t);
      DropEndTwice(t);
      assert u[0] == t[0] && DropStart(u) == u;
    }
  }

  lemma {:induction false} DropStartTag(s: string)
    ensures NoTag(s) ==> NoTag(DropStart(s))
  {
    if s != "" {
      DropStartTag(s[1..]);
    }
  }

  lemma {:induction false} DropEndTwice(s: string)
    ensures DropEnd(DropEnd(s)) == DropEnd(s)
  {
    if !AllSpaces(s) {
      DropEndTwice(s[1..]);
      DropEndIs(s);
      var u := DropEnd(s);
      assert u[1..] == DropEnd(s[1..]);
      assert !AllSpaces(u);
    }
  }

  /** A normal form is printable and its own normal form. */
  predicate Stable(o: Obj) { Printable(o) && Norm(o) == o }

  predicate AllStable(os: seq<Obj>) { AllPrintable(os) && NormAll(os) == os }

  lemma StableCons(o: Obj, os: seq<Obj>)
    requires Stable(o) && AllStable(os)
    ensures AllStable([o] + os)
  {
    assert ([o] + os)[1..] == os;
    hide Printable, Norm;
  }

  lemma StableNone()
    ensures AllStable([])
  {
  }

  lemma StableTwo(a: Obj, b: Obj)
    requires Stable(a) && Stable(b)
    ensures AllStable([a, b]) && AllStable([a])
  {
    StableNone();
    hide *;
    StableCons(b, []);
    assert [b] + [] == [b];
    StableCons(a, [b]);
    assert [a] + [b] == [a, b];
    StableCons(a, []);
    assert [a] + [] == [a];
  }

  lemma StableMake(n: string, leaves: seq<Obj>)
    requires SymbolName(n) && n != DMP && AllStable(leaves)
    ensures Stable(Make(n, leaves))
  {
    Dictionaries();
    hide AllPrintable, NormAll, SymbolName, CdName;
  }

  lemma StableTree(n: string, leaves: seq<Obj>)
    requires SymbolName(n) && n != DMP && n != LIST && n != OVER && AllStable(leaves)
    ensures Stable(Tree(n, BASIC, leaves))
  {
    MakeTree(n, leaves);
    StableMake(n, leaves);
    hide *;
  }

  lemma StableZZ(v: int)
    ensures Stable(ZZ(v))
  {
  }

  lemma {:induction false} StableIntegers(vs: seq<int>)
    ensures AllStable(Integers(vs))
  {
    StableNone();
    if vs != [] {
      StableZZ(vs[0]);
      StableIntegers(vs[1..]);
      StableCons(ZZ(vs[0]), Integers(vs[1..]));
    }
    hide AllStable, Stable;
  }

  lemma StableList(items: seq<Obj>)
    requires AllStable(items)
    ensures Stable(List(items))
  {
    assert Norm(List(items)) == List(NormAll(items));
  }

  lemma StableDistributed(ms: seq<Obj>)
    requires MonomialsPrintable(ms) && NormMonomials(ms) == ms
    ensures Stable(Distributed(DmsGeneric, ms))
  {
    var o := Distributed(DmsGeneric, ms);
    assert Printable(DmsGeneric);
    assert Printable(o);
    assert Norm(o) == Distributed(DmsGeneric, NormMonomials(ms));
  }

  lemma {:induction false} NormTwice(o: Obj)
    requires Printable(o)
    ensures Stable(Norm(o))
    decreases o, 1
  {
    match o
    case Text(s) => TrimTwice(s);
    case List(items) =>
      AllTwice(items);
      StableList(NormAll(items));
    case RecursivePoly(vs, p) =>
      AllTwice(vs);
      PolyTwice(p, NormAll(vs));
    case Distributed(_, ms) =>
      MonomialsTwice(ms);
      StableDistributed(NormMonomials(ms));
    case Monomial(_, _) => GroupTwice(o);
    case BigFloat(_, _) => GroupTwice(o);
    case DmsGeneric => GroupTwice(o);
    case Tree(_, _, _) => GroupTwice(o);
    case _ =>
  }

  lemma {:induction false} GroupTwice(o: Obj)
    requires o.Monomial? || o.BigFloat? || o.DmsGeneric? || o.Tree?
    requires Printable(o)
    ensures Stable(Norm(o))
    decreases o, 0
  {
    Dictionaries();
    match o
    case Monomial(c, ps) =>
      NormTwice(c);
      StableIntegers(ps);
      StableCons(Norm(c), Integers(ps));
      StableTree(MONOM, [Norm(c)] + Integers(ps));
    case BigFloat(a, e) =>
      StableZZ(a);
      StableZZ(2);
      StableZZ(e);
      StableTwo(ZZ(2), ZZ(e));
      StableTree(POWER, [ZZ(2), ZZ(e)]);
      StableTwo(ZZ(a), Tree(POWER, BASIC, [ZZ(2), ZZ(e)]));
      StableTree(TIMES, [ZZ(a), Tree(POWER, BASIC, [ZZ(2), ZZ(e)])]);
    case DmsGeneric =>
      StableZZ(2);
      StableTwo(ZZ(2), ZZ(2));
      StableTree(POLY_RING, [ZZ(2)]);
    case Tree(n, _, leaves) =>
      AllTwice(leaves);
      StableMake(n, NormAll(leaves));
    hide Stable, AllStable, SymbolName, CdName;
  }

  lemma {:induction false} AllTwice(os: seq<Obj>)
    requires AllPrintable(os)
    ensures AllStable(NormAll(os))
    ensures forall i :: 0 <= i < |os| ==> Stable(NormAll(os)[i])
    decreases os, 0
  {
    StableNone();
    if os != [] {
      NormTwice(os[0]);
      AllTwice(os[1..]);
      StableCons(Norm(os[0]), NormAll(os[1..]));
    }
    hide Stable, AllStable, Norm;
  }

  lemma {:induction false} MonomialsTwice(ms: seq<Obj>)
    requires MonomialsPrintable(ms)
    ensures MonomialsPrintable(NormMonomials(ms)) && NormMonomials(NormMonomials(ms)) == NormMonomials(ms)
    decreases ms
  {
    if ms != [] {
      var m := ms[0];
      var m' := Monomial(Norm(m.coef), m.powers);
      MonomialTwice(m);
      MonomialsTwice(ms[1..]);
      var r := NormMonomials(ms);
      assert r[0] == m' && r[1..] == NormMonomials(ms[1..]);
    }
    hide Norm, MonomialPrintable;
  }

  lemma MonomialTwice(m: Obj)
    requires MonomialPrintable(m)
    ensures Printable(m.coef)
    ensures var m' := Monomial(Norm(m.coef), m.powers);
      MonomialPrintable(m') && Norm(m'.coef) == m'.coef
  {
  }

  lemma {:induction false} PolyTwice(p: Obj, vs: seq<Obj>)
    requires PolyPrintable(p, |vs|) && forall i :: 0 <= i < |vs| ==> Stable(vs[i])
    ensures Stable(NormPoly(p, vs))
    decreases p, 2
  {
    if p.OneVar? {
      TermsTwice(vs[p.variable], p.degrees, p.coefs, vs);
    } else {
      NormTwice(p);
    }
    hide Stable, NormTerms, Norm;
  }

  lemma {:induction false} TermsTwice(x: Obj, ds: seq<int>, cs: seq<Obj>, vs: seq<Obj>)
    requires cs != [] && |ds| == |cs| && CoefsPrintable(cs, |vs|) && Stable(x)
    requires forall i :: 0 <= i < |vs| ==> Stable(vs[i])
    ensures Stable(NormTerms(x, ds, cs, vs))
    decreases cs, 0
  {
    Dictionaries();
    var n := |cs| - 1;
    var c := NormPoly(cs[n], vs);
    PolyTwice(cs[n], vs);
    TermStable(x, ds[n], c);
    if n > 0 {
      TermsTwice(x, ds[..n], cs[..n], vs);
      var rest, mono := NormTerms(x, ds[..n], cs[..n], vs), Tree(TIMES, BASIC, [Tree(POWER, BASIC, [x, ZZ(ds[n])]), c]);
      StableTwo(rest, mono);
      StableTree(PLUS, [rest, mono]);
    }
    hide Stable, AllStable, NormPoly, PolyPrintable, SymbolName;
  }

  lemma TermStable(x: Obj, d: int, c: Obj)
    requires Stable(x) && Stable(c)
    ensures Stable(Tree(TIMES, BASIC, [Tree(POWER, BASIC, [x, ZZ(d)]), c]))
  {
    Dictionaries();
    StableZZ(d);
    StableTwo(x, ZZ(d));
    StableTree(POWER, [x, ZZ(d)]);
    StableTwo(Tree(POWER, BASIC, [x, ZZ(d)]), c);
    StableTree(TIMES, [Tree(POWER, BASIC, [x, ZZ(d)]), c]);
    hide Stable, AllStable, SymbolName, CdName;
  }

  /** Printing what was read and reading it again gives the same object. */
  lemma ReadAgain(o: Obj, r: string)
    requires Printable(o)
    ensures Parse(PrintText(o) + r).Ok? && Printable(Parse(PrintText(o) + r).value)
    ensures var o' := Parse(PrintText(o) + r).value;
      Parse(PrintText(o') + r) == Ok(o', r)
  {
    PrintedIsRead(o, r);
    NormTwice(o);
    StableParts(Norm(o));
    PrintedIsRead(Norm(o), r);
    hide *;
  }

  lemma StableParts(o: Obj)
    requires Stable(o)
    ensures Printable(o) && Norm(o) == o
  {
    hide Printable, Norm;
  }
}
