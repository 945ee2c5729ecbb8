/** Reading what was printed gives the object's normal form. */
module OmRoundTrip {
  import opened Basics
  import opened OmLexer
  import opened OmTree
  import opened OmText
  import opened OmObject
  import opened OmParser
  import opened OmPrint

  // ---------- what the reader makes of a tree ----------

  /** Trees whose text splits into tokens as intended. */
  predicate Lexable(om: Om) {
    match om
    case Int(t, sp) => NoTag(t) && AllSpaces(sp)
    case Str(t, sp) => NoTag(t) && AllSpaces(sp)
    case Var(n, sp) => VarName(n) && AllSpaces(sp)
    case App(n, cd, args, sp, look) => SymbolName(n) && CdName(cd) && AllLexable(args) && AllSpaces(sp) && Spacious(look)
  }

  predicate AllLexable(oms: seq<Om>) {
    oms == [] || (Lexable(oms[0]) && AllLexable(oms[1..]))
  }

  function ReadInt(om: Om): Option<int> {
    if om.Int? && Trim(om.text) != "" then ParseInteger(Trim(om.text)) else None
  }

  function Read(om: Om): Option<Obj>
    decreases om, 1
  {
    match om
    case Int(_, _) => if ReadInt(om).Some? then Some(ZZ(ReadInt(om).value)) else None
    case Str(t, _) => Some(OmObject.Text(Trim(t)))
    case Var(n, _) => Some(Indeterminate(n))
    case App(n, _, args, _, _) =>
      if n == DMP then
        if |args| == 2 && Read(args[0]).Some? && args[1].App? && args[1].name == SDMP then
          var ms := ReadMonomials(args[1].args);
          if ms.Some? then Some(Distributed(DmsGeneric, ms.value)) else None
        else None
      else
        var l := ReadAll(args);
        if l.Some? then Some(Make(n, l.value)) else None
  }

  function ReadAll(oms: seq<Om>): Option<seq<Obj>>
    decreases oms, 0
  {
    if oms == [] then Some([]) else
      var o := Read(oms[0]);
      var l := ReadAll(oms[1..]);
      if o.Some? && l.Some? then Some([o.value] + l.value) else None
  }

  function ReadMonomials(oms: seq<Om>): Option<seq<Obj>>
    decreases oms, 0
  {
    if oms == [] then Some([]) else
      var o := ReadMonomial(oms[0]);
      var l := ReadMonomials(oms[1..]);
      if o.Some? && l.Some? then Some([o.value] + l.value) else None
  }

  function ReadMonomial(om: Om): Option<Obj>
    decreases om, 0
  {
    if om.App? && om.name == MONOM && om.args != [] then
      var c := Read(om.args[0]);
      var ps := ReadPowers(om.args[1..]);
      if c.Some? && (c.value.ZZ? || c.value.QQ?) && ps.Some? then Some(Monomial(c.value, ps.value)) else None
    else None
  }

  function ReadPowers(oms: seq<Om>): Option<seq<int>>
    decreases oms, 0
  {
    if oms == [] then Some([]) else
      var p := ReadInt(oms[0]);
      var l := ReadPowers(oms[1..]);
      if p.Some? && l.Some? then Some([Wrap32(p.value)] + l.value) else None
  }

  // ---------- reading a rendered tree ----------

  lemma TagHead(name: string, r: string)
    ensures OpenTag(name) + r == ['<'] + (name + ['>'] + r)
    ensures CloseTag(name) + r == ['<'] + (['/'] + (name + ['>']) + r)
  {
  }

  lemma IntReads(t: string, r: string)
    requires Lexable(Int(t)) && ReadInt(Int(t)).Some?
    ensures ParseOMI(Bare(Int(t)) + r) == Ok(ZZ(ReadInt(Int(t)).value), r)
  {
    Names();
    var s := Bare(Int(t)) + r;
    AssocInside(OpenTag(OMI), t, CloseTag(OMI), r);
    LexOpen(OMI, t + (CloseTag(OMI) + r));
    TagHead(OMI, r);
    LexText(t, ['/'] + (OMI + ['>']) + r);
    LexClose(OMI, r);
    assert s == OpenTag(OMI) + (t + (CloseTag(OMI) + r));
    hide Lex, OpenTag, CloseTag, Trim, ParseInteger, TagName;
  }

  lemma StrReads(t: string, r: string)
    requires Lexable(Str(t))
    ensures ParseOMSTR(Bare(Str(t)) + r) == Ok(OmObject.Text(Trim(t)), r)
  {
    Names();
    var s := Bare(Str(t)) + r;
    AssocInside(OpenTag(OMSTR), t, CloseTag(OMSTR), r);
    LexOpen(OMSTR, t + (CloseTag(OMSTR) + r));
    TagHead(OMSTR, r);
    LexText(t, ['/'] + (OMSTR + ['>']) + r);
    LexClose(OMSTR, r);
    assert s == OpenTag(OMSTR) + (t + (CloseTag(OMSTR) + r));
    hide Lex, OpenTag, CloseTag, Trim, TagName;
  }

  lemma VarReads(n: string, r: string)
    requires Lexable(Var(n))
    ensures ParseVariable(Bare(Var(n)) + r) == Ok(Indeterminate(n), r)
    ensures Lex(Bare(Var(n)) + r).0 == SingleTag(VarAttribute(n))
  {
    NamesAreLines(n);
    LexVar(n, r);
    VarAttributeWords(n);
    hide Lex, VarTag, Words, VarAttribute, VarName, OneLine, NoQuote;
  }

  /** A symbol's tag is read as its quoted name, in whichever order its attributes stand. */
  lemma SymbolReads(n: string, cd: string, look: Look, r: string)
    requires SymbolName(n) && CdName(cd) && Spacious(look)
    ensures ParseSymbol(SymbolText(n, cd, look) + r) == Ok(n, r)
  {
    NamesAreLines(n);
    NamesAreLines(cd);
    LexSymbol(n, cd, look, r);
    SymbolAttributeWords(n, cd, look.swapped);
    NameOfSymbol(n, cd, look.swapped);
    hide Lex, SymbolText, Words, SymbolAttribute, SymbolName, CdName, OneLine, NoQuote, NameOf, Spacious, SymbolWords;
  }

  lemma NameOfSymbol(n: string, cd: string, swapped: bool)
    requires SymbolName(n) && CdName(cd)
    ensures NameOf(SymbolWords(n, cd, swapped)) == Some(n)
  {
    hide SymbolName, CdName;
  }

  // ---------- spaces in front ----------

  lemma BareStarts(om: Om)
    ensures Bare(om) != "" && Bare(om)[0] == '<'
  {
    hide SymbolText, RenderAll, Quote;
  }

  /** Readers look at the first token only, and spaces are no part of it. */
  lemma SameToken(s: string, t: string)
    requires Lex(s) == Lex(t)
    ensures ParseObject(s) == ParseObject(t) && ParseOMI(s) == ParseOMI(t)
    ensures ParseMonom(s) == ParseMonom(t) && ParseSDMP(s) == ParseSDMP(t)
  {
    hide Lex, ParseSymbol, ParseLeaves, ParseDMP, ParseMonomials, ParsePowers;
    assert ParseOMI(s) == ParseOMI(t) && ParseOMSTR(s) == ParseOMSTR(t) && ParseVariable(s) == ParseVariable(t);
  }

  lemma LeadReads(om: Om, r: string)
    requires AllSpaces(om.lead)
    ensures var s, t := Render(om) + r, Bare(om) + r;
      && Lex(s) == Lex(t) && ParseObject(s) == ParseObject(t) && ParseOMI(s) == ParseOMI(t)
      && ParseMonom(s) == ParseMonom(t) && ParseSDMP(s) == ParseSDMP(t)
  {
    RenderIs(om);
    hide *;
    var t := Bare(om) + r;
    BareStarts(om);
    FirstOf(Bare(om), r);
    Assoc(om.lead, Bare(om), r);
    LexLead(om.lead, t);
    SameToken(Render(om) + r, t);
  }

  lemma RenderIs(om: Om)
    ensures Render(om) == om.lead + Bare(om)
  {
  }

  lemma FirstOf(a: string, r: string)
    requires a != "" && a[0] == '<'
    ensures a + r != "" && !IsSpace((a + r)[0])
  {
  }

  lemma LeadSpaces(om: Om)
    requires Lexable(om)
    ensures AllSpaces(om.lead)
  {
  }

  /** How the tag an object starts with chooses its reader. */
  lemma Dispatch(s: string)
    ensures Lex(s).0 == StartTag(OMI) ==> ParseObject(s) == ParseOMI(s)
    ensures Lex(s).0 == StartTag(OMSTR) ==> ParseObject(s) == ParseOMSTR(s)
    ensures forall n: string :: Lex(s).0 == SingleTag(VarAttribute(n)) ==> ParseObject(s) == ParseVariable(s)
  {
    Names();
    assert !StartsWith(OMI, OMV) && !StartsWith(OMSTR, OMV);
    forall n: string
      ensures StartsWith(VarAttribute(n), OMV)
    {
    }
    hide Lex, ParseOMI, ParseOMSTR, ParseVariable, VarAttribute;
  }

  lemma ApplicationText(om: Om, r: string)
    requires om.App?
    ensures Bare(om) + r
      == OpenTag(OMA) + (SymbolText(om.name, om.cd, om.look) + (RenderAll(om.args) + (om.look.tail + (CloseTag(OMA) + r))))
  {
    BareIs(om);
    hide *;
    var c, a, t := SymbolText(om.name, om.cd, om.look), RenderAll(om.args), om.look.tail;
    AssocInside(OpenTag(OMA), c + (a + t), CloseTag(OMA), r);
    Assoc(c, a + t, CloseTag(OMA) + r);
    Assoc(a, t, CloseTag(OMA) + r);
  }

  lemma BareIs(om: Om)
    requires om.App?
    ensures Bare(om)
      == OpenTag(OMA) + (SymbolText(om.name, om.cd, om.look) + (RenderAll(om.args) + om.look.tail) + CloseTag(OMA))
  {
    hide OpenTag, CloseTag, SymbolText, RenderAll;
  }

  /** An object never starts with an end tag. */
  lemma StartsObject(om: Om, r: string)
    requires Lexable(om)
    ensures var t := Lex(Render(om) + r).0;
      (t.StartTag? || t.SingleTag?) && (om.App? ==> t == StartTag(OMA))
  {
    LeadSpaces(om);
    LeadReads(om, r);
    match om
    case Int(t, _) =>
      IntStarts(t, r);
      assert Bare(om) == Bare(Int(t));
      hide *;
    case Str(t, _) =>
      StrStarts(t, r);
      assert Bare(om) == Bare(Str(t));
      hide *;
    case Var(n, _) =>
      VarReads(n, r);
      assert Bare(om) == Bare(Var(n));
      hide *;
    case App(_, _, _, _, _) =>
      AppStarts(om, r);
      hide *;
  }

  lemma AppStarts(om: Om, r: string)
    requires om.App?
    ensures Lex(Bare(om) + r).0 == StartTag(OMA)
  {
    Names();
    hide *;
    ApplicationText(om, r);
    LexOpen(OMA, SymbolText(om.name, om.cd, om.look) + (RenderAll(om.args) + (om.look.tail + (CloseTag(OMA) + r))));
  }

  lemma ElementText(name: string, t: string)
    ensures Element(name, t) == OpenTag(name) + (t + CloseTag(name))
    ensures Bare(Int(t)) == Element(OMI, t) && Bare(Str(t)) == Element(OMSTR, t)
  {
  }

  /** After the name, the parts of an application are read up to its end tag. */
  lemma ApplicationReads(s: string, n: string, s1: string, s2: string, o: Obj, s3: string, r: string)
    requires Lex(s) == (StartTag(OMA), s1) && ParseSymbol(s1) == Ok(n, s2)
    requires (if n == DMP then ParseDMP(s2) else ParseLeaves(n, s2)) == Ok(o, s3)
    requires Lex(s3) == (EndTag(OMA), r)
    ensures ParseObject(s) == Ok(o, r)
  {
    Names();
    assert !StartsWith(OMA, OMV);
    hide Lex, ParseSymbol, ParseDMP, ParseLeaves, ParseOMI, ParseOMSTR, ParseVariable;
  }

  lemma ReadCases(om: Om)
    requires Read(om).Some? && om.App?
    ensures om.name == DMP ==>
      |om.args| == 2 && Read(om.args[0]).Some? && om.args[1].App? && om.args[1].name == SDMP
      && ReadMonomials(om.args[1].args).Some?
      && Read(om).value == Distributed(DmsGeneric, ReadMonomials(om.args[1].args).value)
    ensures om.name != DMP ==> ReadAll(om.args).Some? && Read(om).value == Make(om.name, ReadAll(om.args).value)
  {
    hide ReadMonomials, ReadAll, Make;
  }

  /** Main step: the text of a readable tree, followed by anything, is read as the tree says. */
  lemma {:induction false} TreeReads(om: Om, r: string)
    requires Lexable(om) && Read(om).Some?
    ensures ParseObject(Render(om) + r) == Ok(Read(om).value, r)
    decreases om, 3
  {
    LeadSpaces(om);
    LeadReads(om, r);
    match om
    case Int(t, _) =>
      IntReads(t, r);
      IntStarts(t, r);
      Dispatch(Bare(Int(t)) + r);
      assert Bare(om) == Bare(Int(t));
      hide ParseObject, ParseOMI, Lex, Render, ReadInt, Bare;
    case Str(t, _) =>
      StrReads(t, r);
      StrStarts(t, r);
      Dispatch(Bare(Str(t)) + r);
      assert Bare(om) == Bare(Str(t));
      hide ParseObject, ParseOMSTR, Lex, Render, Bare;
    case Var(n, _) =>
      VarReads(n, r);
      Dispatch(Bare(Var(n)) + r);
      assert Bare(om) == Bare(Var(n));
      hide ParseObject, ParseVariable, Lex, Render, Bare;
    case App(_, _, _, _, _) =>
      AppReads(om, r);
      hide *;
  }

  lemma IntStarts(t: string, r: string)
    ensures Lex(Bare(Int(t)) + r).0 == StartTag(OMI)
  {
    Names();
    hide *;
    ElementText(OMI, t);
    AssocInside(OpenTag(OMI), t, CloseTag(OMI), r);
    LexOpen(OMI, t + (CloseTag(OMI) + r));
  }

  lemma StrStarts(t: string, r: string)
    ensures Lex(Bare(Str(t)) + r).0 == StartTag(OMSTR)
  {
    Names();
    hide *;
    ElementText(OMSTR, t);
    AssocInside(OpenTag(OMSTR), t, CloseTag(OMSTR), r);
    LexOpen(OMSTR, t + (CloseTag(OMSTR) + r));
  }

  lemma AppParts(om: Om)
    requires Lexable(om) && om.App?
    ensures SymbolName(om.name) && CdName(om.cd) && AllLexable(om.args) && Spacious(om.look) && AllSpaces(om.look.tail)
  {
  }

  /** The end tag, whatever spaces are in front of it. */
  lemma EndReads(sp: string, r: string)
    requires AllSpaces(sp)
    ensures Lex(sp + (CloseTag(OMA) + r)) == (EndTag(OMA), r)
  {
    Names();
    var t := CloseTag(OMA) + r;
    assert t[0] == '<';
    LexClose(OMA, r);
    LexLead(sp, t);
    hide *;
  }

  lemma {:induction false} AppReads(om: Om, r: string)
    requires Lexable(om) && om.App? && Read(om).Some?
    ensures ParseObject(Bare(om) + r) == Ok(Read(om).value, r)
    decreases om, 2
  {
    var n, cd, args := om.name, om.cd, om.args;
    var s3 := om.look.tail + (CloseTag(OMA) + r);
    var s2 := RenderAll(args) + s3;
    Names();
    AppParts(om);
    ReadCases(om);
    ApplicationText(om, r);
    EndReads(om.look.tail, r);
    if n == DMP {
      DmpReads(om, s3);
    } else {
      AllReads(args, s3);
      LeavesRead(n, s2, ReadAll(args).value, s3);
    }
    hide *;
    var s1 := SymbolText(n, cd, om.look) + s2;
    LexOpen(OMA, s1);
    SymbolReads(n, cd, om.look, s2);
    ApplicationReads(Bare(om) + r, n, s1, s2, Read(om).value, s3, r);
  }

  lemma LeavesRead(n: string, s: string, leaves: seq<Obj>, rest: string)
    requires ParseObjects(s) == Ok(leaves, rest)
    ensures ParseLeaves(n, s) == Ok(Make(n, leaves), rest)
  {
    hide ParseObjects, Make;
  }

  lemma AllUnfold(oms: seq<Om>)
    requires oms != [] && AllLexable(oms) && ReadAll(oms).Some?
    ensures Lexable(oms[0]) && AllLexable(oms[1..]) && Read(oms[0]).Some? && ReadAll(oms[1..]).Some?
    ensures ReadAll(oms).value == [Read(oms[0]).value] + ReadAll(oms[1..]).value
    ensures RenderAll(oms) == Render(oms[0]) + RenderAll(oms[1..])
  {
    hide Read, Render, Lexable;
  }

  lemma ObjectsStep(s: string, o: Obj, s1: string, l: seq<Obj>, rest: string)
    requires !Lex(s).0.EndTag? && ParseObject(s) == Ok(o, s1) && ParseObjects(s1) == Ok(l, rest)
    ensures ParseObjects(s) == Ok([o] + l, rest)
  {
    hide Lex, ParseObject;
  }

  lemma ObjectsEnd(s: string)
    requires Lex(s).0.EndTag?
    ensures ParseObjects(s) == Ok([], s)
  {
    hide Lex;
  }

  lemma NoneRead()
    ensures ReadAll([]) == Some([]) && ReadMonomials([]) == Some([]) && ReadPowers([]) == Some([]) && RenderAll([]) == ""
  {
  }

  lemma {:induction false} AllReads(oms: seq<Om>, u: string)
    requires AllLexable(oms) && ReadAll(oms).Some? && Lex(u).0.EndTag?
    ensures ParseObjects(RenderAll(oms) + u) == Ok(ReadAll(oms).value, u)
    decreases oms, 0
  {
    if oms == [] {
      NoneRead();
      hide *;
      ObjectsEnd(u);
      assert "" + u == u;
    } else {
      AllUnfold(oms);
      hide *;
      var rest := RenderAll(oms[1..]) + u;
      Assoc(Render(oms[0]), RenderAll(oms[1..]), u);
      StartsObject(oms[0], rest);
      TreeReads(oms[0], rest);
      AllReads(oms[1..], u);
      ObjectsStep(Render(oms[0]) + rest, Read(oms[0]).value, rest, ReadAll(oms[1..]).value, u);
    }
  }

  // ---------- distributed polynomials ----------

  lemma PowersStep(s: string, v: int, s1: string, l: seq<int>, rest: string)
    requires !Lex(s).0.EndTag? && ParseOMI(s) == Ok(ZZ(v), s1) && ParsePowers(s1) == Ok(l, rest)
    ensures ParsePowers(s) == Ok([Wrap32(v)] + l, rest)
  {
    hide Lex, ParseOMI, Wrap32;
  }

  lemma PowersEnd(s: string, rest: string)
    requires Lex(s) == (EndTag(OMA), rest)
    ensures ParsePowers(s) == Ok([], rest) && ParseMonomials(s) == Ok([], rest)
  {
    hide Lex, ParseOMI, ParseMonom;
  }

  lemma PowersUnfold(oms: seq<Om>)
    requires oms != [] && AllLexable(oms) && ReadPowers(oms).Some?
    ensures Lexable(oms[0]) && AllLexable(oms[1..]) && oms[0].Int?
    ensures ReadInt(oms[0]).Some? && ReadPowers(oms[1..]).Some?
    ensures ReadPowers(oms).value == [Wrap32(ReadInt(oms[0]).value)] + ReadPowers(oms[1..]).value
    ensures RenderAll(oms) == Render(oms[0]) + RenderAll(oms[1..])
  {
    hide Render, Lexable, Trim, ParseInteger, Wrap32;
  }

  lemma IntBare(om: Om)
    requires Lexable(om) && om.Int?
    ensures AllSpaces(om.lead) && Lexable(Int(om.text))
    ensures Bare(om) == Bare(Int(om.text)) && ReadInt(om) == ReadInt(Int(om.text))
  {
  }

  lemma {:induction false} PowersRead(oms: seq<Om>, u: string, r: string)
    requires AllLexable(oms) && ReadPowers(oms).Some? && Lex(u) == (EndTag(OMA), r)
    ensures ParsePowers(RenderAll(oms) + u) == Ok(ReadPowers(oms).value, r)
    decreases oms
  {
    if oms == [] {
      NoneRead();
      hide *;
      PowersEnd(u, r);
      assert "" + u == u;
    } else {
      PowersUnfold(oms);
      hide *;
      var rest := RenderAll(oms[1..]) + u;
      Assoc(Render(oms[0]), RenderAll(oms[1..]), u);
      StartsObject(oms[0], rest);
      IntBare(oms[0]);
      IntReads(oms[0].text, rest);
      LeadReads(oms[0], rest);
      PowersRead(oms[1..], u, r);
      PowersStep(Render(oms[0]) + rest, ReadInt(oms[0]).value, rest, ReadPowers(oms[1..]).value, r);
    }
  }

  lemma MonomialCases(om: Om)
    requires Lexable(om) && ReadMonomial(om).Some?
    ensures om.App? && om.name == MONOM && om.args != [] && AllSpaces(om.lead) && Spacious(om.look) && AllSpaces(om.look.tail)
    ensures SymbolName(MONOM) && CdName(om.cd) && Lexable(om.args[0]) && AllLexable(om.args[1..])
    ensures Read(om.args[0]).Some? && ReadPowers(om.args[1..]).Some?
    ensures Read(om.args[0]).value.ZZ? || Read(om.args[0]).value.QQ?
    ensures ReadMonomial(om).value == Monomial(Read(om.args[0]).value, ReadPowers(om.args[1..]).value)
    ensures RenderAll(om.args) == Render(om.args[0]) + RenderAll(om.args[1..])
  {
    hide Read, Render, ReadPowers;
  }

  lemma MonomStep(s: string, s1: string, s2: string, c: Obj, s3: string, ps: seq<int>, rest: string)
    requires Lex(s) == (StartTag(OMA), s1) && ParseSymbol(s1) == Ok(MONOM, s2)
    requires ParseObject(s2) == Ok(c, s3) && (c.ZZ? || c.QQ?) && ParsePowers(s3) == Ok(ps, rest)
    ensures ParseMonom(s) == Ok(Monomial(c, ps), rest)
  {
    hide Lex, ParseSymbol, ParseObject, ParsePowers;
  }

  lemma {:induction false} MonomialReads(om: Om, r: string)
    requires Lexable(om) && ReadMonomial(om).Some?
    ensures ParseMonom(Render(om) + r) == Ok(ReadMonomial(om).value, r)
    decreases om, 1
  {
    Names();
    MonomialCases(om);
    var c, ps := om.args[0], om.args[1..];
    hide *;
    var u := om.look.tail + (CloseTag(OMA) + r);
    var s3 := RenderAll(ps) + u;
    var s2 := Render(c) + s3;
    var s1 := SymbolText(MONOM, om.cd, om.look) + s2;
    ApplicationText(om, r);
    LeadReads(om, r);
    EndReads(om.look.tail, r);
    Assoc(Render(c), RenderAll(ps), u);
    LexOpen(OMA, s1);
    SymbolReads(MONOM, om.cd, om.look, s2);
    TreeReads(c, s3);
    PowersRead(ps, u, r);
    MonomStep(Bare(om) + r, s1, s2, Read(c).value, s3, ReadPowers(ps).value, r);
  }

  lemma MonomialsUnfold(oms: seq<Om>)
    requires oms != [] && AllLexable(oms) && ReadMonomials(oms).Some?
    ensures Lexable(oms[0]) && AllLexable(oms[1..]) && ReadMonomial(oms[0]).Some? && ReadMonomials(oms[1..]).Some?
    ensures ReadMonomials(oms).value == [ReadMonomial(oms[0]).value] + ReadMonomials(oms[1..]).value
    ensures RenderAll(oms) == Render(oms[0]) + RenderAll(oms[1..])
  {
    hide ReadMonomial, Render, Lexable;
  }

  lemma MonomialsStep(s: string, m: Obj, s1: string, l: seq<Obj>, rest: string)
    requires !Lex(s).0.EndTag? && ParseMonom(s) == Ok(m, s1) && ParseMonomials(s1) == Ok(l, rest)
    ensures ParseMonomials(s) == Ok([m] + l, rest)
  {
    hide Lex, ParseMonom;
  }

  lemma {:induction false} MonomialsRead(oms: seq<Om>, u: string, r: string)
    requires AllLexable(oms) && ReadMonomials(oms).Some? && Lex(u) == (EndTag(OMA), r)
    ensures ParseMonomials(RenderAll(oms) + u) == Ok(ReadMonomials(oms).value, r)
    decreases oms, 0
  {
    if oms == [] {
      NoneRead();
      hide *;
      PowersEnd(u, r);
      assert "" + u == u;
    } else {
      MonomialsUnfold(oms);
      hide *;
      var rest := RenderAll(oms[1..]) + u;
      Assoc(Render(oms[0]), RenderAll(oms[1..]), u);
      StartsObject(oms[0], rest);
      MonomialReads(oms[0], rest);
      MonomialsRead(oms[1..], u, r);
      MonomialsStep(Render(oms[0]) + rest, ReadMonomial(oms[0]).value, rest, ReadMonomials(oms[1..]).value, r);
    }
  }

  lemma SdmpStep(s: string, s1: string, s2: string, ms: seq<Obj>, rest: string)
    requires Lex(s) == (StartTag(OMA), s1) && ParseSymbol(s1) == Ok(SDMP, s2) && ParseMonomials(s2) == Ok(ms, rest)
    ensures ParseSDMP(s) == Ok(ms, rest)
  {
    hide Lex, ParseSymbol, ParseMonomials;
  }

  lemma DmpStep(s: string, ring: Obj, s1: string, ms: seq<Obj>, rest: string)
    requires ParseObject(s) == Ok(ring, s1) && ParseSDMP(s1) == Ok(ms, rest)
    ensures ParseDMP(s) == Ok(Distributed(DmsGeneric, ms), rest)
  {
    hide ParseObject, ParseSDMP;
  }

  lemma DmpParts(om: Om)
    requires Lexable(om) && om.App? && Read(om).Some? && om.name == DMP
    ensures |om.args| == 2 && Lexable(om.args[0]) && Lexable(om.args[1]) && om.args[1].App?
    ensures om.args == [om.args[0], om.args[1]]
    ensures om.args[1].name == SDMP ==> Spacious(om.args[1].look) && AllSpaces(om.args[1].look.tail)
    ensures om.args[1].name == SDMP && AllSpaces(om.args[1].lead) && SymbolName(SDMP) && CdName(om.args[1].cd) && AllLexable(om.args[1].args)
  {
    ReadCases(om);
    assert AllLexable(om.args) && om.args[1..][0] == om.args[1];
    assert AllLexable(om.args[1..]);
    hide Read, ReadMonomials;
  }

  lemma {:induction false} DmpReads(om: Om, s: string)
    requires Lexable(om) && om.App? && Read(om).Some? && om.name == DMP
    ensures ParseDMP(RenderAll(om.args) + s) == Ok(Read(om).value, s)
    decreases om, 1
  {
    Names();
    DmpParts(om);
    ReadCases(om);
    var ring, inner := om.args[0], om.args[1];
    var u := inner.look.tail + (CloseTag(OMA) + s);
    EndReads(inner.look.tail, s);
    MonomialsRead(inner.args, u, s);
    TreeReads(ring, Render(inner) + s);
    hide *;
    RenderTwo(ring, inner);
    Assoc(Render(ring), Render(inner), s);
    ApplicationText(inner, s);
    LeadReads(inner, s);
    var s2 := RenderAll(inner.args) + u;
    var s1 := SymbolText(SDMP, inner.cd, inner.look) + s2;
    LexOpen(OMA, s1);
    SymbolReads(SDMP, inner.cd, inner.look, s2);
    SdmpStep(Bare(inner) + s, s1, s2, ReadMonomials(inner.args).value, s);
    DmpStep(Render(ring) + (Render(inner) + s), Read(ring).value, Render(inner) + s,
            ReadMonomials(inner.args).value, s);
  }
}
