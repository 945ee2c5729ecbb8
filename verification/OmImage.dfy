/** What the reader can return: exactly the objects that are their own normal form. */
module OmImage {
  import opened Basics
  import opened OmLexer
  import opened OmTree
  import opened OmText
  import opened OmObject
  import opened OmParser
  import opened OmNormal
  import opened OmValue

  // ---------- texts ----------

  /** The text up to a tag, by its first character. */
  lemma TextOfCases(s: string)
    ensures s == "" || s[0] == '<' ==> TextOf(s).0 == ""
    ensures s != "" && s[0] != '<' && !IsSpace(s[0]) ==> TextOf(s).0 == [s[0]] + TextOf(s[1..]).0
    ensures s != "" && IsSpace(s[0]) ==>
      var sp := Spaces(s);
      var t := s[|sp|..];
      AllSpaces(sp) && sp != ""
      && (t == "" ==> TextOf(s).0 == [END])
      && (t != "" ==> !IsSpace(t[0]))
      && (t != "" && t[0] == '<' ==> TextOf(s).0 == "")
      && (t != "" && t[0] != '<' ==> TextOf(s).0 == sp + TextOf(t).0)
  {
  }

  predicate Kept(t: string) { NoTag(t) && (t != "" ==> !IsSpace(t[|t| - 1])) }

  lemma KeptAppend(a: string, t: string)
    requires NoTag(a) && Kept(t) && (t == "" ==> a != "" && !IsSpace(a[|a| - 1]))
    ensures Kept(a + t)
  {
  }

  lemma KeptShort(c: char)
    ensures Kept("") && Kept([END])
    ensures c != '<' ==> NoTag([c])
  {
  }

  lemma {:induction false} TextOfKept(s: string)
    ensures Kept(TextOf(s).0)
    ensures s != "" && !IsSpace(s[0]) && s[0] != '<' ==> TextOf(s).0 != "" && TextOf(s).0[0] == s[0]
    decreases |s|
  {
    hide *;
    TextOfCases(s);
    KeptShort(if s == "" then END else s[0]);
    if s != "" && s[0] != '<' {
      if IsSpace(s[0]) {
        var sp := Spaces(s);
        var t := s[|sp|..];
        if t != "" && t[0] != '<' {
          TextOfKept(t);
          SpacesAreNoTag(sp);
          KeptAppend(sp, TextOf(t).0);
        }
      } else {
        TextOfKept(s[1..]);
        KeptAppend([s[0]], TextOf(s[1..]).0);
      }
    }
  }

  lemma SpacesAreNoTag(sp: string)
    requires AllSpaces(sp)
    ensures NoTag(sp)
  {
  }

  lemma {:induction false} NoEndSpaces(t: string)
    requires t != "" && !IsSpace(t[|t| - 1])
    ensures DropEnd(t) == t
  {
    if |t| > 1 {
      NoEndSpaces(t[1..]);
    } else {
      assert t[1..] == "";
    }
    assert !AllSpaces(t);
  }

  /** The text between tags has no tag in it and no spaces around it. */
  lemma LexedText(s: string)
    requires Lex(s).0.Text?
    ensures var t := Lex(s).0.attribute;
      NoTag(t) && Trim(t) == t
  {
    var u := SkipSpace(s);
    TextOfKept(u);
    LexedTextIs(s);
    var t := TextOf(u).0;
    NoEndSpaces(t);
    hide TextOf, NoTag, DropEnd;
  }

  lemma LexedTextIs(s: string)
    requires Lex(s).0.Text?
    ensures SkipSpace(s)[0] != '<' && !IsSpace(SkipSpace(s)[0]) && Lex(s).0.attribute == TextOf(SkipSpace(s)).0
  {
    assert !IsSpace(END);
    hide TextOf, SkipSpace, LexTag;
  }

  // ---------- every object read is stable ----------

  lemma VariableIsStable(s: string)
    requires ParseVariable(s).Ok?
    ensures Stable(ParseVariable(s).value)
  {
    hide Lex, Words, VarName;
  }

  lemma IntegerIsStable(s: string)
    requires ParseOMI(s).Ok?
    ensures Stable(ParseOMI(s).value)
  {
    StableZZ(ParseOMI(s).value.v);
    hide *;
  }

  lemma StringIsStable(s: string)
    requires ParseOMSTR(s).Ok?
    ensures Stable(ParseOMSTR(s).value)
  {
    var u := Expect(s, StartTag(OMSTR)).rest;
    if Lex(u).0.Text? {
      LexedText(u);
    }
    assert Trim("") == "";
    hide Lex, NoTag, Trim;
  }

  lemma SymbolIsName(s: string)
    requires ParseSymbol(s).Ok?
    ensures SymbolName(ParseSymbol(s).value)
  {
    hide Lex, Words, SymbolName, CdName;
  }

  /** The parts of an object that was read. */
  lemma ObjectCases(s: string)
    requires ParseObject(s).Ok?
    ensures var o := ParseObject(s).value;
      || (ParseVariable(s).Ok? && o == ParseVariable(s).value)
      || (ParseOMI(s).Ok? && o == ParseOMI(s).value)
      || (ParseOMSTR(s).Ok? && o == ParseOMSTR(s).value)
      || (|Lex(s).1| < |s| && ParseSymbol(Lex(s).1).Ok?
          && var n := ParseSymbol(Lex(s).1);
             |n.rest| < |s|
             && (n.value == DMP ==> ParseDMP(n.rest).Ok? && o == ParseDMP(n.rest).value)
             && (n.value != DMP ==> ParseObjects(n.rest).Ok? && o == Make(n.value, ParseObjects(n.rest).value)))
  {
    hide Lex, ParseVariable, ParseOMI, ParseOMSTR, ParseSymbol, ParseDMP, ParseObjects, Make;
  }

  lemma {:induction false} ObjectIsStable(s: string)
    requires ParseObject(s).Ok?
    ensures Stable(ParseObject(s).value)
    decreases |s|, 0
  {
    hide *;
    ObjectCases(s);
    if ParseVariable(s).Ok? {
      VariableIsStable(s);
    }
    if ParseOMI(s).Ok? {
      IntegerIsStable(s);
    }
    if ParseOMSTR(s).Ok? {
      StringIsStable(s);
    }
    var t := Lex(s).1;
    if |t| < |s| && ParseSymbol(t).Ok? {
      SymbolIsName(t);
      var n := ParseSymbol(t);
      if |n.rest| < |s| {
        if n.value == DMP && ParseDMP(n.rest).Ok? {
          PolynomialIsStable(n.rest);
        }
        if n.value != DMP && ParseObjects(n.rest).Ok? {
          ObjectsAreStable(n.rest);
          StableMake(n.value, ParseObjects(n.rest).value);
        }
      }
    }
  }

  lemma ObjectsCases(s: string)
    requires ParseObjects(s).Ok?
    ensures ParseObjects(s).value == []
      || (ParseObject(s).Ok? && ParseObjects(ParseObject(s).rest).Ok?
          && ParseObjects(s).value == [ParseObject(s).value] + ParseObjects(ParseObject(s).rest).value)
    ensures ParseObject(s).Ok? ==> |ParseObject(s).rest| < |s|
  {
    hide Lex, ParseObject;
  }

  lemma {:induction false} ObjectsAreStable(s: string)
    requires ParseObjects(s).Ok?
    ensures AllStable(ParseObjects(s).value)
    decreases |s|, 1
  {
    StableNone();
    hide *;
    ObjectsCases(s);
    if ParseObjects(s).value != [] {
      ObjectIsStable(s);
      ObjectsAreStable(ParseObject(s).rest);
      StableCons(ParseObject(s).value, ParseObjects(ParseObject(s).rest).value);
    }
  }

  /** A polynomial read: its monomials. */
  lemma PolynomialCases(s: string)
    requires ParseDMP(s).Ok?
    ensures exists u: string ::
        |u| < |s| && ParseMonomials(u).Ok?
        && ParseDMP(s).value == Distributed(DmsGeneric, ParseMonomials(u).value)
  {
    var ring := ParseObject(s);
    var a := Expect(ring.rest, StartTag(OMA));
    var n := ParseSymbol(a.rest);
    assert ParseMonomials(n.rest).Ok?;
    hide Lex, ParseObject, ParseSymbol, ParseMonomials;
  }

  lemma {:induction false} PolynomialIsStable(s: string)
    requires ParseDMP(s).Ok?
    ensures Stable(ParseDMP(s).value)
    decreases |s|, 1
  {
    hide *;
    PolynomialCases(s);
    var u :| |u| < |s| && ParseMonomials(u).Ok?
      && ParseDMP(s).value == Distributed(DmsGeneric, ParseMonomials(u).value);
    MonomialsAreStable(u);
    StableDistributed(ParseMonomials(u).value);
  }

  /** Monomials the printer accepts and reading does not change. */
  predicate MonomialsStable(ms: seq<Obj>) {
    MonomialsPrintable(ms) && NormMonomials(ms) == ms
  }

  predicate MonomialStable(m: Obj) {
    MonomialPrintable(m) && Stable(m.coef)
  }

  lemma MonomialsStableCons(m: Obj, ms: seq<Obj>)
    requires MonomialStable(m) && MonomialsStable(ms)
    ensures MonomialsStable([m] + ms)
  {
    assert ([m] + ms)[1..] == ms && ([m] + ms)[0] == m;
    assert Monomial(m.coef, m.powers) == m;
    hide Norm, Printable;
  }

  lemma MonomialsCases(s: string)
    requires ParseMonomials(s).Ok?
    ensures ParseMonomials(s).value == []
      || (ParseMonom(s).Ok? && ParseMonomials(ParseMonom(s).rest).Ok?
          && ParseMonomials(s).value == [ParseMonom(s).value] + ParseMonomials(ParseMonom(s).rest).value)
    ensures ParseMonom(s).Ok? ==> |ParseMonom(s).rest| < |s|
  {
    hide Lex, ParseMonom;
  }

  lemma {:induction false} MonomialsAreStable(s: string)
    requires ParseMonomials(s).Ok?
    ensures MonomialsPrintable(ParseMonomials(s).value)
    ensures NormMonomials(ParseMonomials(s).value) == ParseMonomials(s).value
    decreases |s|, 2
  {
    hide MonomialsPrintable, NormMonomials, ParseMonomials, ParseMonom, Lex, MonomialStable;
    MonomialsCases(s);
    if ParseMonomials(s).value == [] {
      NoMonomials();
    } else {
      MonomialIsStable(s);
      MonomialsAreStable(ParseMonom(s).rest);
      MonomialsStableCons(ParseMonom(s).value, ParseMonomials(ParseMonom(s).rest).value);
    }
  }

  lemma NoMonomials()
    ensures MonomialsPrintable([]) && NormMonomials([]) == []
  {
  }

  lemma MonomialCases(s: string)
    requires ParseMonom(s).Ok?
    ensures exists u: string ::
        |u| < |s| && ParseObject(u).Ok? && ParsePowers(ParseObject(u).rest).Ok?
        && ParseMonom(s).value == Monomial(ParseObject(u).value, ParsePowers(ParseObject(u).rest).value)
        && Numeric(ParseObject(u).value)
  {
    var a := Expect(s, StartTag(OMA));
    var n := ParseSymbol(a.rest);
    assert ParseObject(n.rest).Ok?;
    hide Lex, ParseObject, ParseSymbol, ParsePowers;
  }

  lemma {:induction false} MonomialIsStable(s: string)
    requires ParseMonom(s).Ok?
    ensures MonomialStable(ParseMonom(s).value)
    decreases |s|, 1
  {
    MonomialCases(s);
    hide ParseMonom, ParseObject, ParsePowers, Stable, Numeric;
    var u :| |u| < |s| && ParseObject(u).Ok?
      && ParsePowers(ParseObject(u).rest).Ok?
      && ParseMonom(s).value == Monomial(ParseObject(u).value, ParsePowers(ParseObject(u).rest).value)
      && Numeric(ParseObject(u).value);
    ObjectIsStable(u);
    PowersAreSmall(ParseObject(u).rest);
  }

  lemma {:induction false} PowersAreSmall(s: string)
    requires ParsePowers(s).Ok?
    ensures var ps := ParsePowers(s).value;
      forall i :: 0 <= i < |ps| ==> IsInt32(ps[i])
    decreases |s|
  {
    if !Lex(s).0.EndTag? {
      PowersAreSmall(ParseOMI(s).rest);
    }
    hide Lex, ParseOMI;
  }

  // ---------- the results ----------

  lemma ParseCases(s: string)
    requires Parse(s).Ok?
    ensures exists u: string :: ParseObject(u).Ok? && Parse(s).value == ParseObject(u).value
  {
    assert ParseObject(Expect(s, StartTag(OMOBJ)).rest).Ok?;
    hide Lex, ParseObject;
  }

  /** Whatever is read is its own normal form and can be printed. */
  lemma ReadIsStable(s: string)
    requires Parse(s).Ok?
    ensures Stable(Parse(s).value)
  {
    hide *;
    ParseCases(s);
    var u :| ParseObject(u).Ok? && Parse(s).value == ParseObject(u).value;
    ObjectIsStable(u);
  }

  /** Main result: reading, printing and reading again gives the same object, for every text the
      reader accepts, in whatever layout. */
  lemma ReadPrintRead(s: string, r: string)
    requires Parse(s).Ok?
    ensures Printable(Parse(s).value)
    ensures Parse(PrintText(Parse(s).value) + r) == Ok(Parse(s).value, r)
  {
    hide *;
    var o := Parse(s).value;
    ReadIsStable(s);
    StableParts(o);
    PrintedIsRead(o, r);
  }

  /** The objects some text is read as are exactly the normal forms. */
  lemma ReadableIff(o: Obj)
    ensures (exists s: string :: Parse(s).Ok? && Parse(s).value == o) <==> Stable(o)
  {
    hide *;
    forall s: string | Parse(s).Ok? && Parse(s).value == o
      ensures Stable(o)
    {
      ReadIsStable(s);
    }
    if Stable(o) {
      StableParts(o);
      PrintedIsRead(o, "");
      assert Parse(PrintText(o) + "").Ok? && Parse(PrintText(o) + "").value == o;
    }
  }

  // ---------- the restrictions on texts and names matter ----------

  /** A string survives, up to the spaces around it, exactly when it holds no tag opener. */
  lemma StringReadIff(s: string, r: string)
    ensures Parse(OpenTag(OMOBJ) + (Element(OMSTR, s) + CloseTag(OMOBJ)) + r) == Ok(OmObject.Text(Trim(s)), r)
      <==> NoTag(s)
  {
    var text := OpenTag(OMOBJ) + (Element(OMSTR, s) + CloseTag(OMOBJ)) + r;
    if NoTag(s) {
      PrintedIsRead(OmObject.Text(s), r);
      StringForm(s);
    } else if Parse(text) == Ok(OmObject.Text(Trim(s)), r) {
      ReadIsStable(text);
      TrimKeepsTag(s);
      StringStable(Trim(s));
    }
    hide *;
  }

  lemma StringForm(s: string)
    requires NoTag(s)
    ensures Printable(OmObject.Text(s)) && Norm(OmObject.Text(s)) == OmObject.Text(Trim(s))
    ensures PrintText(OmObject.Text(s)) == OpenTag(OMOBJ) + (Element(OMSTR, s) + CloseTag(OMOBJ))
  {
    hide Trim, Element, OpenTag, CloseTag, NoTag;
  }

  lemma StringStable(s: string)
    requires Stable(OmObject.Text(s))
    ensures NoTag(s)
  {
    hide NoTag;
  }

  lemma {:induction false} TrimKeepsTag(s: string)
    requires NoTag(Trim(s))
    ensures NoTag(s)
  {
    var t := DropStart(s);
    DropEndKeepsTag(t);
    DropStartKeepsTag(s);
  }

  lemma {:induction false} DropStartKeepsTag(s: string)
    requires NoTag(DropStart(s))
    ensures NoTag(s)
  {
    if s != "" && IsSpace(s[0]) {
      DropStartKeepsTag(s[1..]);
    }
  }

  lemma {:induction false} DropEndKeepsTag(s: string)
    requires NoTag(DropEnd(s))
    ensures NoTag(s)
  {
    if !AllSpaces(s) {
      assert DropEnd(s)[1..] == DropEnd(s[1..]) && DropEnd(s)[0] == s[0];
      DropEndKeepsTag(s[1..]);
    }
  }

  /** An indeterminate survives exactly when its name is one the reader accepts. */
  lemma VariableReadIff(n: string, r: string)
    ensures Parse(OpenTag(OMOBJ) + (VarTag(n) + CloseTag(OMOBJ)) + r) == Ok(Indeterminate(n), r) <==> VarName(n)
  {
    var text := OpenTag(OMOBJ) + (VarTag(n) + CloseTag(OMOBJ)) + r;
    if VarName(n) {
      PrintedIsRead(Indeterminate(n), r);
      VariableForm(n);
    } else if Parse(text) == Ok(Indeterminate(n), r) {
      ReadIsStable(text);
      VariableStable(n);
    }
    hide *;
  }

  lemma VariableForm(n: string)
    requires VarName(n)
    ensures Printable(Indeterminate(n)) && Norm(Indeterminate(n)) == Indeterminate(n)
    ensures PrintText(Indeterminate(n)) == OpenTag(OMOBJ) + (VarTag(n) + CloseTag(OMOBJ))
  {
    hide VarTag, OpenTag, CloseTag, VarName;
  }

  lemma VariableStable(n: string)
    requires Stable(Indeterminate(n))
    ensures VarName(n)
  {
    hide VarName;
  }
}
