/** The objects behind OpenMath texts: printing them, and what a reader makes of the tree. */
module OmObject {
  import opened Basics
  import opened OmLexer
  import opened OmTree
  import opened OmText
  import Numeral

  datatype Obj =
    | Null
    | Zero
    | Int32(i: int)
    | ZZ(v: int)
    | QQ(num: int, den: int)
    | Text(s: string)
    | List(items: seq<Obj>)
    | Monomial(coef: Obj, powers: seq<int>)
    | DmsGeneric
    | RecursivePoly(variables: seq<Obj>, poly: Obj)
    | OneVar(variable: int, degrees: seq<int>, coefs: seq<Obj>)
    | Distributed(ring: Obj, monomials: seq<Obj>)
    | BigFloat(mantissa: int, exponent: int)
    | Indeterminate(name: string)
    | Tree(name: string, cd: string, leaves: seq<Obj>)

  const BASIC: string := ['b', 'a', 's', 'i', 'c']
  const POLY: string := ['p', 'o', 'l', 'y']
  const LIST: string := ['l', 'i', 's', 't']
  const OVER: string := ['o', 'v', 'e', 'r']
  const TIMES: string := ['t', 'i', 'm', 'e', 's']
  const PLUS: string := ['p', 'l', 'u', 's']
  const POWER: string := ['p', 'o', 'w', 'e', 'r']
  const MONOM: string := ['M', 'o', 'n', 'o', 'm']
  const DMP: string := ['D', 'M', 'P']
  const SDMP: string := ['S', 'D', 'M', 'P']
  const POLY_RING: string := ['P', 'o', 'l', 'y', 'R', 'i', 'n', 'g']

  // ---------- integers ----------

  /** Decimal, as a big integer prints itself. */
  function IntText(v: int): (s: string)
    ensures s != ""
  {
    var d := if v == 0 then ['0'] else Numeral.Digits(Abs(v), 10);
    if v < 0 then ['-'] + d else d
  }

  predicate AllDigits(s: string, base: nat) {
    forall i :: 0 <= i < |s| ==> 0 <= Numeral.DigitValue(s[i]) < base && !('a' <= s[i] <= 'z')
  }

  function DigitsValue(s: string, base: nat): nat
    requires AllDigits(s, base)
  {
    if s == "" then 0 else DigitsValue(s[..|s| - 1], base) * base + Numeral.DigitValue(s[|s| - 1])
  }

  function Sign(negative: bool, v: nat): int { if negative then 0 - v else v }

  /** An optional minus, then decimal digits, or x and upper-case hexadecimal digits. */
  function ParseInteger(s: string): Option<int>
    requires s != ""
  {
    var i := if s[0] == '-' then 1 else 0;
    if |s| >= i + 2 && s[i] == 'x' then
      if AllDigits(s[i + 1..], 16) then Some(Sign(i == 1, DigitsValue(s[i + 1..], 16))) else None
    else if |s| >= i + 1 then
      if AllDigits(s[i..], 10) then Some(Sign(i == 1, DigitsValue(s[i..], 10))) else None
    else None
  }

  /** The low 32 bits, in two's complement. */
  function Wrap32(v: int): int {
    var u := v % 0x1_0000_0000;
    if u < 0x8000_0000 then u else u - 0x1_0000_0000
  }

  // ---------- names ----------

  predicate IsLetter(c: char) { 'A' <= c <= 'Z' || 'a' <= c <= 'z' }

  predicate IsDigit(c: char) { '0' <= c <= '9' }

  predicate SymbolName(s: string) {
    s != "" && IsLetter(s[0]) && forall i :: 0 <= i < |s| ==> IsLetter(s[i]) || IsDigit(s[i]) || s[i] == '_'
  }

  predicate CdName(s: string) {
    s != "" && 'a' <= s[0] <= 'z' && forall i :: 0 <= i < |s| ==> 'a' <= s[i] <= 'z' || IsDigit(s[i]) || s[i] == '_'
  }

  predicate IsVarChar(c: char) {
    IsLetter(c) || IsDigit(c) || c in ['+', '=', '\'', '(', ')', ',', '-', '.', '/', ':', '?', '!', '#', '$', '%', '*', ';',
                                        '@', '[', ']', '^', '_', '`', '{', '|', '}']
  }

  predicate VarName(s: string) { forall i :: 0 <= i < |s| ==> IsVarChar(s[i]) }

  lemma NamesAreLines(s: string)
    ensures SymbolName(s) || CdName(s) || VarName(s) ==> OneLine(s) && NoQuote(s)
  {
  }

  // ---------- printing ----------

  function IntElement(v: int): string { Element(OMI, IntText(v)) }

  function Application(name: string, cd: string, args: string): string {
    Element(OMA, SymbolTag(name, cd) + args)
  }

  predicate Numeric(o: Obj) { o.Null? || o.Zero? || o.Int32? || o.ZZ? || o.QQ? }

  /** The objects the printer accepts whose text the reader accepts. */
  predicate Printable(o: Obj)
    decreases o, 1
  {
    match o
    case Text(s) => NoTag(s)
    case List(items) => AllPrintable(items)
    case Monomial(c, _) => Printable(c)
    case RecursivePoly(vs, p) => AllPrintable(vs) && PolyPrintable(p, |vs|)
    case OneVar(_, _, _) => false
    case Distributed(ring, ms) => Printable(ring) && MonomialsPrintable(ms)
    case Indeterminate(n) => VarName(n)
    case Tree(n, cd, leaves) => SymbolName(n) && CdName(cd) && n != DMP && AllPrintable(leaves)
    case _ => true
  }

  predicate AllPrintable(os: seq<Obj>)
    decreases os, 0
  {
    os == [] || (Printable(os[0]) && AllPrintable(os[1..]))
  }

  /** A polynomial in one of n variables with at least one term, or another object. */
  predicate PolyPrintable(p: Obj, n: nat)
    decreases p, 2
  {
    if p.OneVar? then
      0 <= p.variable < n && p.coefs != [] && |p.degrees| == |p.coefs| && CoefsPrintable(p.coefs, n)
    else Printable(p)
  }

  predicate CoefsPrintable(cs: seq<Obj>, n: nat)
    decreases cs, 0
  {
    cs == [] || (CoefsPrintable(cs[..|cs| - 1], n) && PolyPrintable(cs[|cs| - 1], n))
  }

  predicate MonomialsPrintable(ms: seq<Obj>)
    decreases ms, 0
  {
    ms == [] || (MonomialPrintable(ms[0]) && MonomialsPrintable(ms[1..]))
  }

  predicate MonomialPrintable(m: Obj)
    decreases m, 0
  {
    m.Monomial? && Numeric(m.coef) && forall i :: 0 <= i < |m.powers| ==> IsInt32(m.powers[i])
  }

  function PrintInts(vs: seq<int>): string {
    if vs == [] then "" else IntElement(vs[0]) + PrintInts(vs[1..])
  }

  /** The body of the text, as the program builds it. */
  function Print(o: Obj): string
    requires Printable(o)
    decreases o, 1
  {
    match o
    case Null => Element(OMI, ['0'])
    case Int32(i) => IntElement(i)
    case Text(s) => Element(OMSTR, s)
    case List(items) => Application(LIST, BASIC, PrintAll(items))
    case Monomial(c, ps) => Application(MONOM, POLY, Print(c) + PrintInts(ps))
    case ZZ(v) => IntElement(v)
    case QQ(a, b) => Application(OVER, BASIC, IntElement(a) + IntElement(b))
    case Zero => Element(OMI, [' ', '0', ' '])
    case DmsGeneric => Application(POLY_RING, POLY, IntElement(2))
    case RecursivePoly(vs, p) => PrintPoly(p, PrintEach(vs))
    case Distributed(ring, ms) => Application(DMP, POLY, Print(ring) + Application(SDMP, POLY, PrintMonomials(ms)))
    case BigFloat(a, e) =>
      Application(TIMES, BASIC, IntElement(a) + Application(POWER, BASIC, IntElement(2) + IntElement(e)))
    case Indeterminate(n) => VarTag(n)
    case Tree(n, cd, leaves) => Application(n, cd, PrintAll(leaves))
  }

  function PrintAll(os: seq<Obj>): string
    requires AllPrintable(os)
    decreases os, 0
  {
    if os == [] then "" else Print(os[0]) + PrintAll(os[1..])
  }

  function PrintEach(os: seq<Obj>): (ts: seq<string>)
    requires AllPrintable(os)
    ensures |ts| == |os|
    decreases os, 0
  {
    if os == [] then [] else [Print(os[0])] + PrintEach(os[1..])
  }

  function PrintMonomials(ms: seq<Obj>): string
    requires MonomialsPrintable(ms)
    decreases ms, 0
  {
    if ms == [] then "" else
      Application(MONOM, POLY, Print(ms[0].coef) + PrintInts(ms[0].powers)) + PrintMonomials(ms[1..])
  }

  /** A polynomial becomes nested sums of products of a power and a coefficient. */
  function PrintPoly(p: Obj, vs: seq<string>): string
    requires PolyPrintable(p, |vs|)
    decreases p, 2
  {
    if p.OneVar? then PrintTerms(vs[p.variable], p.degrees, p.coefs, vs) else Print(p)
  }

  function PrintTerms(x: string, ds: seq<int>, cs: seq<Obj>, vs: seq<string>): string
    requires cs != [] && |ds| == |cs| && CoefsPrintable(cs, |vs|)
    decreases cs, 0
  {
    var n := |cs| - 1;
    var mono := Application(TIMES, BASIC, Application(POWER, BASIC, x + IntElement(ds[n])) + PrintPoly(cs[n], vs));
    if n == 0 then mono
    else Application(PLUS, BASIC, PrintTerms(x, ds[..n], cs[..n], vs) + mono)
  }

  // ---------- the tree of an object ----------

  function IntOm(v: int): Om { Int(IntText(v)) }

  function IntOms(vs: seq<int>): seq<Om> {
    if vs == [] then [] else [IntOm(vs[0])] + IntOms(vs[1..])
  }

  function ToOm(o: Obj): Om
    requires Printable(o)
    decreases o, 1
  {
    match o
    case Null => Int(['0'])
    case Int32(i) => IntOm(i)
    case Text(s) => Str(s)
    case List(items) => App(LIST, BASIC, AllOm(items))
    case Monomial(c, ps) => App(MONOM, POLY, [ToOm(c)] + IntOms(ps))
    case ZZ(v) => IntOm(v)
    case QQ(a, b) => App(OVER, BASIC, [IntOm(a), IntOm(b)])
    case Zero => Int([' ', '0', ' '])
    case DmsGeneric => App(POLY_RING, POLY, [IntOm(2)])
    case RecursivePoly(vs, p) => PolyOm(p, AllOm(vs))
    case Distributed(ring, ms) => App(DMP, POLY, [ToOm(ring), App(SDMP, POLY, MonomialOms(ms))])
    case BigFloat(a, e) => App(TIMES, BASIC, [IntOm(a), App(POWER, BASIC, [IntOm(2), IntOm(e)])])
    case Indeterminate(n) => Var(n)
    case Tree(n, cd, leaves) => App(n, cd, AllOm(leaves))
  }

  function AllOm(os: seq<Obj>): (r: seq<Om>)
    requires AllPrintable(os)
    ensures |r| == |os|
    decreases os, 0
  {
    if os == [] then [] else [ToOm(os[0])] + AllOm(os[1..])
  }

  function MonomialOms(ms: seq<Obj>): (r: seq<Om>)
    requires MonomialsPrintable(ms)
    ensures |r| == |ms|
    decreases ms, 0
  {
    if ms == [] then []
    else [App(MONOM, POLY, [ToOm(ms[0].coef)] + IntOms(ms[0].powers))] + MonomialOms(ms[1..])
  }

  function PolyOm(p: Obj, vs: seq<Om>): Om
    requires PolyPrintable(p, |vs|)
    decreases p, 2
  {
    if p.OneVar? then TermsOm(vs[p.variable], p.degrees, p.coefs, vs) else ToOm(p)
  }

  function TermsOm(x: Om, ds: seq<int>, cs: seq<Obj>, vs: seq<Om>): Om
    requires cs != [] && |ds| == |cs| && CoefsPrintable(cs, |vs|)
    decreases cs, 0
  {
    var n := |cs| - 1;
    var mono := App(TIMES, BASIC, [App(POWER, BASIC, [x, IntOm(ds[n])]), PolyOm(cs[n], vs)]);
    if n == 0 then mono else App(PLUS, BASIC, [TermsOm(x, ds[..n], cs[..n], vs), mono])
  }
}
