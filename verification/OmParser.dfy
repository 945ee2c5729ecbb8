/** The recursive-descent reader of OpenMath texts. */
module OmParser {
  import opened Basics
  import opened OmLexer
  import opened OmTree
  import opened OmText
  import opened OmObject

  /** Fail stands for the reader's exceptions. */
  datatype Parsed<T> = Ok(value: T, rest: string) | Fail

  /** One token of a given kind and attribute. */
  function Expect(s: string, t: Token): (r: Parsed<Token>)
    ensures r.Ok? && !t.NoToken? && !t.Text? ==> |r.rest| < |s|
  {
    if Lex(s).0 == t then Ok(t, Lex(s).1) else Fail
  }

  function NameOf(ws: seq<Word>): Option<string> {
    if |ws| == 7 && ws[0] == Word(OMS_WORD) && ws[2] == Mark('=') && ws[3].Quotation? && ws[5] == Mark('=')
       && ws[6].Quotation?
    then
      if ws[1] == Word(NAME_WORD) && ws[4] == Word(CD_WORD) && SymbolName(ws[3].text) && CdName(ws[6].text) then
        Some(ws[3].text)
      else if ws[1] == Word(CD_WORD) && ws[4] == Word(NAME_WORD) && CdName(ws[3].text) && SymbolName(ws[6].text) then
        Some(ws[6].text)
      else None
    else None
  }

  /** The name in a symbol's tag; its dictionary is only checked. */
  function ParseSymbol(s: string): (r: Parsed<string>)
    ensures r.Ok? ==> |r.rest| < |s|
  {
    var t := Lex(s);
    if !t.0.SingleTag? then Fail
    else
      var n := NameOf(Words(t.0.attribute));
      if n.None? then Fail else Ok(n.value, t.1)
  }

  function ParseVariable(s: string): (r: Parsed<Obj>)
    ensures r.Ok? ==> |r.rest| < |s|
  {
    var t := Lex(s);
    if !t.0.SingleTag? then Fail
    else
      var ws := Words(t.0.attribute);
      if |ws| == 4 && ws[0] == Word(OMV_WORD) && ws[1] == Word(NAME_WORD) && ws[2] == Mark('=') && ws[3].Quotation?
         && VarName(ws[3].text)
      then Ok(Indeterminate(ws[3].text), t.1)
      else Fail
  }

  function ParseOMI(s: string): (r: Parsed<Obj>)
    ensures r.Ok? ==> r.value.ZZ? && |r.rest| < |s|
  {
    var a := Expect(s, StartTag(OMI));
    if a.Fail? then Fail else
      var t := Lex(a.rest);
      if !t.0.Text? then Fail else
        var v := ParseInteger(t.0.attribute);
        if v.None? then Fail else
          var e := Expect(t.1, EndTag(OMI));
          LexAtEnd();
          if e.Fail? then Fail else Ok(ZZ(v.value), e.rest)
  }

  function ParseOMSTR(s: string): (r: Parsed<Obj>)
    ensures r.Ok? ==> |r.rest| < |s|
  {
    var a := Expect(s, StartTag(OMSTR));
    if a.Fail? then Fail else
      var t := Lex(a.rest);
      var u := if t.0.Text? then t.1 else a.rest;
      var e := Expect(u, EndTag(OMSTR));
      LexAtEnd();
      if e.Fail? then Fail
      else Ok(OmObject.Text(if t.0.Text? then t.0.attribute else ""), e.rest)
  }

  predicate StartsWith(s: string, p: string) { p <= s }

  /** What an application stands for. */
  function Make(name: string, leaves: seq<Obj>): Obj {
    if name == LIST then List(leaves)
    else if name == OVER && |leaves| == 2 && leaves[0].ZZ? && leaves[1].ZZ? then QQ(leaves[0].v, leaves[1].v)
    else Tree(name, BASIC, leaves)
  }

  function ParseObject(s: string): (r: Parsed<Obj>)
    ensures r.Ok? ==> |r.rest| < |s|
    decreases |s|, 0
  {
    var t := Lex(s);
    if !t.0.StartTag? && !t.0.SingleTag? then Fail
    else if StartsWith(t.0.attribute, OMV) then ParseVariable(s)
    else if t.0.attribute == OMI then ParseOMI(s)
    else if t.0.attribute == OMSTR then ParseOMSTR(s)
    else if t.0.attribute == OMA then
      var n := ParseSymbol(t.1);
      if n.Fail? then Fail else
        var o := if n.value == DMP then ParseDMP(n.rest) else ParseLeaves(n.value, n.rest);
        if o.Fail? then Fail else
          var e := Expect(o.rest, EndTag(OMA));
          if e.Fail? then Fail else Ok(o.value, e.rest)
    else Fail
  }

  function ParseLeaves(name: string, s: string): (r: Parsed<Obj>)
    ensures r.Ok? ==> |r.rest| <= |s|
    decreases |s|, 2
  {
    var l := ParseObjects(s);
    if l.Fail? then Fail else Ok(Make(name, l.value), l.rest)
  }

  /** Objects up to an end tag, which is left for the caller. */
  function ParseObjects(s: string): (r: Parsed<seq<Obj>>)
    ensures r.Ok? ==> |r.rest| <= |s|
    decreases |s|, 1
  {
    if Lex(s).0.EndTag? then Ok([], s) else
      var o := ParseObject(s);
      if o.Fail? then Fail else
        var l := ParseObjects(o.rest);
        if l.Fail? then Fail else Ok([o.value] + l.value, l.rest)
  }

  /** The ring is read and forgotten. */
  function ParseDMP(s: string): (r: Parsed<Obj>)
    ensures r.Ok? ==> |r.rest| <= |s|
    decreases |s|, 1
  {
    var ring := ParseObject(s);
    if ring.Fail? then Fail else
      var ms := ParseSDMP(ring.rest);
      if ms.Fail? then Fail else Ok(Distributed(DmsGeneric, ms.value), ms.rest)
  }

  function ParseSDMP(s: string): (r: Parsed<seq<Obj>>)
    ensures r.Ok? ==> |r.rest| <= |s|
    decreases |s|, 1
  {
    var a := Expect(s, StartTag(OMA));
    if a.Fail? then Fail else
      var n := ParseSymbol(a.rest);
      if n.Fail? || n.value != SDMP then Fail else ParseMonomials(n.rest)
  }

  /** Monomials up to and with the end tag of the application. */
  function ParseMonomials(s: string): (r: Parsed<seq<Obj>>)
    ensures r.Ok? ==> |r.rest| <= |s|
    decreases |s|, 2
  {
    var t := Lex(s);
    if t.0.EndTag? then (if t.0.attribute == OMA then Ok([], t.1) else Fail)
    else
      var m := ParseMonom(s);
      if m.Fail? then Fail else
        var l := ParseMonomials(m.rest);
        if l.Fail? then Fail else Ok([m.value] + l.value, l.rest)
  }

  function ParseMonom(s: string): (r: Parsed<Obj>)
    ensures r.Ok? ==> |r.rest| < |s|
    decreases |s|, 1
  {
    var a := Expect(s, StartTag(OMA));
    if a.Fail? then Fail else
      var n := ParseSymbol(a.rest);
      if n.Fail? || n.value != MONOM then Fail else
        var c := ParseObject(n.rest);
        if c.Fail? || !(c.value.ZZ? || c.value.QQ? || c.value.Int32? || c.value.Zero?) then Fail else
          var ds := ParsePowers(c.rest);
          if ds.Fail? then Fail else Ok(Monomial(c.value, ds.value), ds.rest)
  }

  /** Integers up to and with the end tag of the application, each cut to 32 bits. */
  function ParsePowers(s: string): (r: Parsed<seq<int>>)
    ensures r.Ok? ==> |r.rest| <= |s|
    decreases |s|
  {
    var t := Lex(s);
    if t.0.EndTag? then (if t.0.attribute == OMA then Ok([], t.1) else Fail)
    else
      var d := ParseOMI(s);
      if d.Fail? then Fail else
        var l := ParsePowers(d.rest);
        if l.Fail? then Fail else Ok([Wrap32(d.value.v)] + l.value, l.rest)
  }

  /** The whole text: one object inside the outermost tag. */
  function Parse(s: string): Parsed<Obj> {
    var a := Expect(s, StartTag(OMOBJ));
    if a.Fail? then Fail else
      var o := ParseObject(a.rest);
      if o.Fail? then Fail else
        var e := Expect(o.rest, EndTag(OMOBJ));
        if e.Fail? then Fail else Ok(o.value, e.rest)
  }
}
