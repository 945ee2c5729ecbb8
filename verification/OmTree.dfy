/** OpenMath objects as trees, their text, and the tokens of that text. */
module OmTree {
  import opened OmLexer

  /** How an application is laid out: the order of the attributes of its symbol, the spaces before
      that symbol's tag, between its parts and before its end, and the spaces before the end tag. */
  datatype Look = Look(swapped: bool, lead: string, gap: string, mid: string, last: string, tail: string)

  /** As printed. */
  const PLAIN: Look := Look(false, "", [' '], [' '], "", "")

  /** An object, and the spaces in front of it. */
  datatype Om =
    | Int(text: string, lead: string := "")
    | Str(text: string, lead: string := "")
    | Var(name: string, lead: string := "")
    | App(name: string, cd: string, args: seq<Om>, lead: string := "", look: Look := PLAIN)

  predicate Spacious(look: Look) {
    && AllSpaces(look.lead) && AllSpaces(look.gap) && AllSpaces(look.mid) && AllSpaces(look.last) && AllSpaces(look.tail)
    && look.gap != "" && look.mid != ""
  }

  const OMI: string := ['O', 'M', 'I']
  const OMSTR: string := ['O', 'M', 'S', 'T', 'R']
  const OMA: string := ['O', 'M', 'A']
  const OMOBJ: string := ['O', 'M', 'O', 'B', 'J']
  const OMS: string := ['O', 'M', 'S']
  const OMV: string := ['O', 'M', 'V']
  const NAME: string := ['n', 'a', 'm', 'e', '=']
  const CD: string := ['c', 'd', '=']

  // ---------- text ----------

  function OpenTag(name: string): string { ['<'] + (name + ['>']) }

  function CloseTag(name: string): string { ['<', '/'] + (name + ['>']) }

  function Quote(s: string): string { ['"'] + (s + ['"']) }

  function SymbolTag(name: string, cd: string): string {
    ['<'] + (OMS + ([' '] + (NAME + (Quote(name) + ([' '] + (CD + (Quote(cd) + ['/', '>'])))))))
  }

  function VarTag(name: string): string {
    ['<'] + (OMV + ([' '] + (NAME + (Quote(name) + ['/', '>']))))
  }

  function Element(name: string, body: string): string {
    OpenTag(name) + (body + CloseTag(name))
  }

  /** A symbol's tag with two attributes. */
  function TwoAttributes(k1: string, v1: string, k2: string, v2: string, look: Look): string {
    ['<'] + (OMS + (look.gap + (k1 + (Quote(v1) + (look.mid + (k2 + (Quote(v2) + (look.last + ['/', '>']))))))))
  }

  function SymbolText(name: string, cd: string, look: Look): string {
    look.lead
    + if look.swapped then TwoAttributes(CD, cd, NAME, name, look) else TwoAttributes(NAME, name, CD, cd, look)
  }

  /** The text of an object, without the spaces in front of it. */
  function Bare(om: Om): string
    decreases om, 0
  {
    match om
    case Int(t, _) => Element(OMI, t)
    case Str(t, _) => Element(OMSTR, t)
    case Var(n, _) => VarTag(n)
    case App(n, cd, args, _, look) => Element(OMA, SymbolText(n, cd, look) + (RenderAll(args) + look.tail))
  }

  function Render(om: Om): string
    decreases om, 1
  {
    om.lead + Bare(om)
  }

  function RenderAll(args: seq<Om>): string
    decreases args, 0
  {
    if args == [] then "" else Render(args[0]) + RenderAll(args[1..])
  }

  lemma RenderPlain(t: string, n: string, cd: string, args: seq<Om>)
    ensures Render(Int(t)) == Element(OMI, t) && Render(Str(t)) == Element(OMSTR, t) && Render(Var(t)) == VarTag(t)
    ensures Render(App(n, cd, args)) == Element(OMA, SymbolTag(n, cd) + RenderAll(args))
  {
    assert RenderAll(args) + "" == RenderAll(args);
    assert SymbolText(n, cd, PLAIN) == SymbolTag(n, cd) by {
      assert "" + ['/', '>'] == ['/', '>'];
      hide Quote;
    }
    hide Element, SymbolTag, RenderAll, SymbolText, VarTag;
  }

  // ---------- tokens of tags ----------

  /** Characters a tag takes over one by one. */
  predicate Plain(s: string) {
    forall i :: 0 <= i < |s| ==> s[i] != '>' && s[i] != '/' && s[i] != '"' && !IsSpace(s[i])
  }

  function UpperAll(s: string): (r: string)
    ensures |r| == |s| && forall i :: 0 <= i < |s| ==> r[i] == Upper(s[i])
  {
    seq(|s|, i requires 0 <= i < |s| => Upper(s[i]))
  }

  /** The text of a tag with something put in front. */
  function Before(p: string, r: (string, Stop, string)): (string, Stop, string) {
    (p + r.0, r.1, r.2)
  }

  lemma {:induction false} PlainText(p: string, t: string)
    requires Plain(p)
    ensures TagText(p + t) == Before(UpperAll(p), TagText(t))
  {
    if p == "" {
      assert p + t == t;
      var r := TagText(t);
      assert UpperAll(p) + r.0 == r.0;
      assert r == (r.0, r.1, r.2);
    } else {
      PlainText(p[1..], t);
      assert (p + t)[1..] == p[1..] + t;
      assert UpperAll(p) == [Upper(p[0])] + UpperAll(p[1..]);
      assert [Upper(p[0])] + (UpperAll(p[1..]) + TagText(t).0) == UpperAll(p) + TagText(t).0;
    }
  }

  predicate NoQuote(s: string) { forall i :: 0 <= i < |s| ==> s[i] != '"' }

  lemma {:induction false} QuotedUp(q: string, t: string)
    requires NoQuote(q)
    ensures Quoted(q + (['"'] + t)) == (q + ['"'], t)
  {
    if q == "" {
      assert q + (['"'] + t) == ['"'] + t && (['"'] + t)[1..] == t;
      assert q + ['"'] == ['"'];
    } else {
      QuotedUp(q[1..], t);
      assert (q + (['"'] + t))[1..] == q[1..] + (['"'] + t);
      assert [q[0]] + (q[1..] + ['"']) == q + ['"'];
    }
  }

  lemma QuoteText(q: string, t: string)
    requires NoQuote(q)
    ensures TagText(Quote(q) + t) == Before(Quote(q), TagText(t))
  {
    QuotedUp(q, t);
    var s := Quote(q) + t;
    assert s[1..] == q + (['"'] + t);
    assert s[0] == '"';
    assert ['"'] + (q + ['"']) + TagText(t).0 == Quote(q) + TagText(t).0;
    hide Quoted;
  }

  lemma {:induction false} SpacesSkipped(sp: string, t: string)
    requires AllSpaces(sp) && t != "" && !IsSpace(t[0])
    ensures SkipSpace(sp + t) == t
  {
    if sp == "" {
      assert sp + t == t;
    } else {
      assert (sp + t)[1..] == sp[1..] + t;
      SpacesSkipped(sp[1..], t);
    }
  }

  /** Spaces in front of a tag change nothing. */
  lemma LexLead(sp: string, t: string)
    requires AllSpaces(sp) && t != "" && !IsSpace(t[0])
    ensures Lex(sp + t) == Lex(t)
  {
    SpacesSkipped(sp, t);
    NotSpace(t);
    hide SkipSpace, LexTag, TextOf;
  }

  /** Any number of spaces inside a tag stands for one. */
  lemma SpaceText(sp: string, t: string)
    requires AllSpaces(sp) && sp != "" && t != "" && !IsSpace(t[0]) && t[0] != '>' && t[0] != '/'
    ensures TagText(sp + t) == Before([' '], TagText(t))
  {
    assert (sp + t)[1..] == sp[1..] + t && (sp + t)[0] == sp[0];
    SpacesSkipped(sp[1..], t);
    hide SkipSpace;
  }

  /** Spaces before the end of a tag are dropped. */
  lemma EndSpaces(sp: string, t: string)
    requires AllSpaces(sp) && t != "" && t[0] == '/'
    ensures TagText(sp + t) == TagText(t)
  {
    if sp == "" {
      assert sp + t == t;
    } else {
      assert (sp + t)[1..] == sp[1..] + t && (sp + t)[0] == sp[0];
      SpacesSkipped(sp[1..], t);
    }
    hide SkipSpace;
  }

  lemma CloseText(t: string)
    ensures TagText(['>'] + t) == ("", AtClose, t)
    ensures TagText(['/', '>'] + t) == ("", AtSlash, ['>'] + t)
  {
    assert (['>'] + t)[1..] == t;
    assert (['/', '>'] + t)[1..] == ['>'] + t;
  }

  predicate TagName(s: string) { s != "" && Plain(s) && UpperAll(s) == s }

  lemma NotSpace(s: string)
    requires s != "" && !IsSpace(s[0])
    ensures SkipSpace(s) == s
  {
  }

  /** A tag's name is read in upper case. */
  lemma LexOpen(name: string, r: string)
    requires name != "" && Plain(name)
    ensures Lex(OpenTag(name) + r) == (StartTag(UpperAll(name)), r)
    ensures TagName(name) ==> Lex(OpenTag(name) + r) == (StartTag(name), r)
  {
    var s := OpenTag(name) + r;
    var u := name + (['>'] + r);
    assert s == ['<'] + u && s[1..] == u;
    NotSpace(s);
    NotSpace(u);
    PlainText(name, ['>'] + r);
    CloseText(r);
    assert UpperAll(name) + "" == UpperAll(name);
    hide TagText, SkipSpace, UpperAll;
  }

  lemma LexClose(name: string, r: string)
    requires name != "" && Plain(name)
    ensures Lex(CloseTag(name) + r) == (EndTag(UpperAll(name)), r)
    ensures TagName(name) ==> Lex(CloseTag(name) + r) == (EndTag(name), r)
  {
    var s := CloseTag(name) + r;
    var u := name + (['>'] + r);
    assert s == ['<'] + (['/'] + u) && s[1..] == ['/'] + u && (['/'] + u)[1..] == u;
    NotSpace(s);
    NotSpace(['/'] + u);
    NotSpace(u);
    PlainText(name, ['>'] + r);
    CloseText(r);
    assert UpperAll(name) + "" == UpperAll(name);
    hide TagText, SkipSpace, UpperAll;
  }

  lemma Names()
    ensures TagName(OMI) && TagName(OMSTR) && TagName(OMA) && TagName(OMOBJ) && TagName(OMS) && TagName(OMV)
    ensures Plain(NAME) && UpperAll(NAME) == ['N', 'A', 'M', 'E', '='] && Plain(CD) && UpperAll(CD) == ['C', 'D', '=']
    ensures OMI != OMSTR && OMI != OMA && OMSTR != OMA
  {
  }

  const UPPER_NAME: string := ['N', 'A', 'M', 'E', '=']
  const UPPER_CD: string := ['C', 'D', '=']

  /** The attribute of a symbol's tag, its keys in upper case. */
  function AttributeOf(k1: string, v1: string, k2: string, v2: string): string {
    OMS + ([' '] + (k1 + (Quote(v1) + ([' '] + (k2 + (Quote(v2) + ""))))))
  }

  function SymbolAttribute(name: string, cd: string, swapped: bool): string {
    if swapped then AttributeOf(UPPER_CD, cd, UPPER_NAME, name) else AttributeOf(UPPER_NAME, name, UPPER_CD, cd)
  }

  function VarAttribute(name: string): string {
    OMV + ([' '] + (UPPER_NAME + (Quote(name) + "")))
  }

  predicate Key(k: string) { k != "" && Plain(k) }

  lemma LexTwo(k1: string, v1: string, k2: string, v2: string, look: Look, r: string)
    requires Key(k1) && Key(k2) && NoQuote(v1) && NoQuote(v2) && Spacious(look)
    ensures Lex(TwoAttributes(k1, v1, k2, v2, look) + r)
      == (SingleTag(AttributeOf(UpperAll(k1), v1, UpperAll(k2), v2)), r)
  {
    var t7 := ['/', '>'] + r;
    var t6 := look.last + t7;
    var t5 := Quote(v2) + t6;
    var t4 := k2 + t5;
    var t3 := look.mid + t4;
    var t2 := Quote(v1) + t3;
    var t1 := k1 + t2;
    var t0 := look.gap + t1;
    var u := OMS + t0;
    var s := TwoAttributes(k1, v1, k2, v2, look) + r;
    assert s == ['<'] + u by {
      SymbolJoin(k1, v1, k2, v2, look, r);
    }
    assert s[1..] == u;
    Names();
    NotSpace(s);
    NotSpace(u);
    assert t4[0] == k2[0] && t1[0] == k1[0];
    NotSpace(['>'] + r);
    assert (['>'] + r)[1..] == r;
    assert TagText(u) == (AttributeOf(UpperAll(k1), v1, UpperAll(k2), v2), AtSlash, ['>'] + r) by {
      CloseText(r);
      EndSpaces(look.last, t7);
      QuoteText(v2, t6);
      PlainText(k2, t5);
      SpaceText(look.mid, t4);
      QuoteText(v1, t3);
      PlainText(k1, t2);
      SpaceText(look.gap, t1);
      PlainText(OMS, t0);
      hide TagText, SkipSpace, Plain, UpperAll, Quote, TwoAttributes;
    }
    hide TagText, SkipSpace, Plain, UpperAll, Quote, TwoAttributes, AttributeOf;
  }

  lemma SymbolJoin(k1: string, v1: string, k2: string, v2: string, look: Look, r: string)
    ensures TwoAttributes(k1, v1, k2, v2, look) + r
      == ['<'] + (OMS + (look.gap + (k1 + (Quote(v1) + (look.mid + (k2 + (Quote(v2) + (look.last + (['/', '>'] + r)))))))))
  {
    hide Quote;
  }

  /** A symbol's tag, whatever the order of its attributes and the spaces between them. */
  lemma LexSymbol(name: string, cd: string, look: Look, r: string)
    requires NoQuote(name) && NoQuote(cd) && Spacious(look)
    ensures Lex(SymbolText(name, cd, look) + r) == (SingleTag(SymbolAttribute(name, cd, look.swapped)), r)
  {
    Names();
    var t := if look.swapped then TwoAttributes(CD, cd, NAME, name, look) else TwoAttributes(NAME, name, CD, cd, look);
    LexTwo(CD, cd, NAME, name, look, r);
    LexTwo(NAME, name, CD, cd, look, r);
    assert SymbolText(name, cd, look) + r == look.lead + (t + r);
    assert t[0] == '<';
    LexLead(look.lead, t + r);
    hide Lex, AttributeOf, Plain, UpperAll, NoQuote, TwoAttributes;
  }

  lemma LexVar(name: string, r: string)
    requires NoQuote(name)
    ensures Lex(VarTag(name) + r) == (SingleTag(VarAttribute(name)), r)
  {
    var t3 := ['/', '>'] + r;
    var t2 := Quote(name) + t3;
    var t1 := NAME + t2;
    var t0 := [' '] + t1;
    var u := OMV + t0;
    var s := VarTag(name) + r;
    assert s == ['<'] + u by { hide Quote; }
    assert s[1..] == u;
    Names();
    NotSpace(s);
    NotSpace(u);
    CloseText(r);
    QuoteText(name, t3);
    PlainText(NAME, t2);
    SpaceText([' '], t1);
    PlainText(OMV, t0);
    NotSpace(['>'] + r);
    assert (['>'] + r)[1..] == r;
    hide TagText, SkipSpace, Plain, UpperAll, Quote, VarTag;
  }
}
