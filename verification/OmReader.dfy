/** The reader as the program has it: a stream with one character of pushback, the last token with
    one token of pushback, and one routine for every construct. */
module OmReader {
  import opened Basics
  import opened OmLexer
  import opened OmTree
  import opened OmText
  import opened OmObject
  import opened OmParser

  /** Thrown: the reader gives up with an exception. */
  datatype Try<T> = Got(value: T) | Thrown {
    predicate IsFailure() { Thrown? }

    function PropagateFailure<U>(): Try<U>
      requires IsFailure()
    {
      Thrown
    }

    function Extract(): T
      requires Got?
    {
      value
    }
  }

  /** The characters of a byte stream. */
  predicate ByteText(s: string) { forall i :: 0 <= i < |s| ==> s[i] as int < 256 }

  predicate SpaceCode(ch: int) { ch == ' ' as int || ch == '\t' as int || ch == '\n' as int || ch == '\r' as int }

  /** What a tag's text is, when buf has been taken in and s is left. */
  ghost predicate TagGoesOn(whole: (string, Stop, string), buf: string, s: string) {
    whole == Before(buf, TagText(s))
  }

  lemma TagStart(s: string)
    ensures TagGoesOn(TagText(s), "", s)
  {
    var r := TagText(s);
    assert "" + r.0 == r.0 && r == (r.0, r.1, r.2);
    hide TagText;
  }

  /** One more character, space or quotation of the tag. */
  lemma TagNext(whole: (string, Stop, string), buf: string, c: char, s: string)
    requires TagGoesOn(whole, buf, [c] + s) && c != '>' && c != '/'
    ensures IsSpace(c) ==>
      var t := SkipSpace(s);
      TagGoesOn(whole, if t[0] == '>' || t[0] == '/' then buf else buf + [' '], t)
    ensures c == '"' ==> TagGoesOn(whole, buf + ['"'] + Quoted(s).0, Quoted(s).1)
    ensures !IsSpace(c) && c != '"' ==> TagGoesOn(whole, buf + [Upper(c)], s)
  {
    if IsSpace(c) {
      TagSpace(whole, buf, c, s);
    } else if c == '"' {
      TagQuote(whole, buf, s);
    } else {
      TagPlain(whole, buf, c, s);
    }
    hide *;
  }

  lemma TagQuote(whole: (string, Stop, string), buf: string, s: string)
    requires TagGoesOn(whole, buf, ['"'] + s)
    ensures TagGoesOn(whole, buf + ['"'] + Quoted(s).0, Quoted(s).1)
  {
    var q := Quoted(s);
    var u := TagText(q.1);
    TagCons('"', s);
    hide Quoted, TagText;
    assert buf + (['"'] + q.0 + u.0) == buf + ['"'] + q.0 + u.0;
  }

  lemma TagPlain(whole: (string, Stop, string), buf: string, c: char, s: string)
    requires TagGoesOn(whole, buf, [c] + s) && c != '>' && c != '/' && c != '"' && !IsSpace(c)
    ensures TagGoesOn(whole, buf + [Upper(c)], s)
  {
    var u := TagText(s);
    TagCons(c, s);
    hide TagText;
    assert buf + ([Upper(c)] + u.0) == buf + [Upper(c)] + u.0;
  }

  /** One step of the tag's text. */
  lemma TagCons(c: char, s: string)
    ensures c == '"' ==>
      TagText([c] + s)
        == (['"'] + Quoted(s).0 + TagText(Quoted(s).1).0, TagText(Quoted(s).1).1, TagText(Quoted(s).1).2)
    ensures c != '>' && c != '/' && c != '"' && !IsSpace(c) ==>
      TagText([c] + s) == ([Upper(c)] + TagText(s).0, TagText(s).1, TagText(s).2)
    ensures IsSpace(c) && s != "" ==>
      var t := SkipSpace(s);
      TagText([c] + s)
        == (if t[0] == '>' || t[0] == '/' then TagText(t).0 else [' '] + TagText(t).0, TagText(t).1, TagText(t).2)
    ensures IsSpace(c) ==> TagText([c]) == ([' ', END], AtEnd, "")
  {
    assert ([c] + s)[1..] == s && ([c] + s)[0] == c && [c][1..] == "";
    hide Quoted, SkipSpace;
  }

  lemma TagSpace(whole: (string, Stop, string), buf: string, c: char, s: string)
    requires TagGoesOn(whole, buf, [c] + s) && IsSpace(c)
    ensures var t := SkipSpace(s);
      TagGoesOn(whole, if t[0] == '>' || t[0] == '/' then buf else buf + [' '], t)
  {
    TagCons(c, s);
    if s == "" {
      TagSpaceAtEnd(whole, buf, c);
      assert [c] + s == [c];
    } else {
      var t := SkipSpace(s);
      TagSpaceGoesOn(whole, buf, TagText([c] + s), TagText(t), t);
    }
    hide TagText, SkipSpace;
  }

  lemma TagSpaceGoesOn(whole: (string, Stop, string), buf: string, r: (string, Stop, string),
                       u: (string, Stop, string), t: string)
    requires t != "" && whole == Before(buf, r) && u == TagText(t)
    requires r == (if t[0] == '>' || t[0] == '/' then u.0 else [' '] + u.0, u.1, u.2)
    ensures TagGoesOn(whole, if t[0] == '>' || t[0] == '/' then buf else buf + [' '], t)
  {
    hide TagText;
    assert buf + ([' '] + u.0) == buf + [' '] + u.0;
  }

  lemma TagSpaceAtEnd(whole: (string, Stop, string), buf: string, c: char)
    requires IsSpace(c) && TagGoesOn(whole, buf, [c])
    ensures SkipSpace("") == [END] && END != '>' && END != '/' && TagGoesOn(whole, buf + [' '], [END])
  {
    TagCons(c, "");
    TagAtEnd();
    hide TagText;
    assert buf + [' ', END] == buf + [' '] + [END];
  }

  lemma TagAtEnd()
    ensures TagText([END]) == ([END], AtEnd, "")
  {
    assert TagText("") == ("", AtEnd, "");
    assert [END][1..] == "" && [END] + "" == [END];
  }

  lemma TagStops(whole: (string, Stop, string), buf: string, s: string)
    ensures TagGoesOn(whole, buf, ['>'] + s) ==> whole == (buf, AtClose, s)
    ensures TagGoesOn(whole, buf, ['/'] + s) ==> whole == (buf, AtSlash, s)
    ensures TagGoesOn(whole, buf, "") ==> whole == (buf, AtEnd, "")
  {
    assert (['>'] + s)[1..] == s && (['/'] + s)[1..] == s && buf + "" == buf;
  }

  /** What the characters up to a tag are, when buf has been taken in and s is left. */
  ghost predicate TextGoesOn(whole: (string, string), buf: string, s: string) {
    whole == (buf + TextOf(s).0, TextOf(s).1)
  }

  lemma TextStart(s: string)
    ensures TextGoesOn(TextOf(s), "", s)
  {
    var r := TextOf(s);
    assert "" + r.0 == r.0 && r == (r.0, r.1);
    hide TextOf;
  }

  lemma TextNext(whole: (string, string), buf: string, c: char, s: string)
    requires TextGoesOn(whole, buf, [c] + s) && c != '<' && !IsSpace(c)
    ensures TextGoesOn(whole, buf + [c], s)
  {
    assert ([c] + s)[1..] == s && ([c] + s)[0] == c;
    var r := TextOf(s);
    assert buf + ([c] + r.0) == buf + [c] + r.0;
  }

  lemma TextStops(whole: (string, string), buf: string, s: string)
    ensures TextGoesOn(whole, buf, ['<'] + s) ==> whole == (buf, ['<'] + s)
    ensures TextGoesOn(whole, buf, "") ==> whole == (buf, [END])
  {
    assert buf + "" == buf && (['<'] + s)[0] == '<';
  }

  /** After some spaces sp the text goes on with s. */
  lemma TextSpacesNext(whole: (string, string), buf: string, sp: string, s: string)
    requires sp != "" && AllSpaces(sp) && (s == "" || !IsSpace(s[0])) && TextGoesOn(whole, buf, sp + s)
    ensures s == "" ==> TextGoesOn(whole, buf, [END])
    ensures s != "" && s[0] == '<' ==> TextGoesOn(whole, buf, s)
    ensures s != "" && s[0] != '<' ==> TextGoesOn(whole, buf + sp, s)
  {
    SpacesOf(sp, s);
    assert (sp + s)[|sp|..] == s && (sp + s)[0] == sp[0] && IsSpace(sp[0]);
    if s == "" {
      TextAtEnd();
    } else if s[0] != '<' {
      var r := TextOf(s);
      assert buf + (sp + r.0) == buf + sp + r.0;
    }
    hide Spaces;
  }

  lemma TextAtEnd()
    ensures TextOf([END]) == ([END], [END])
  {
    assert TextOf("") == ("", [END]);
    assert [END][1..] == "" && [END] + "" == [END];
  }

  lemma {:induction false} SpacesOf(sp: string, s: string)
    requires AllSpaces(sp) && (s == "" || !IsSpace(s[0]))
    ensures Spaces(sp + s) == sp
  {
    if sp == "" {
      assert sp + s == s;
    } else {
      assert (sp + s)[1..] == sp[1..] + s && (sp + s)[0] == sp[0];
      SpacesOf(sp[1..], s);
      assert [sp[0]] + sp[1..] == sp;
    }
  }

  class Reader {
    var input: string
    var token: Token
    var pushed: bool
    /** The input in front of the last token. */
    ghost var before: string

    ghost predicate Valid()
      reads this
    {
      ByteText(input) && ByteText(before) && (pushed ==> Lex(before) == (token, input))
    }

    /** The input still to be read, the token pushed back included. */
    ghost function Pending(): string
      reads this
    {
      if pushed then before else input
    }

    constructor (stream: string)
      requires ByteText(stream)
      ensures Valid() && Pending() == stream
    {
      input, token, pushed, before := stream, NoToken, false, "";
    }

    method ReadChar() returns (ch: int)
      requires ByteText(input)
      modifies `input
      ensures ByteText(input)
      ensures old(input) == "" ==> ch == -1 && input == ""
      ensures old(input) != "" ==> ch == old(input)[0] as int && input == old(input)[1..]
    {
      if input == "" {
        return -1;
      }
      ch := input[0] as int;
      input := input[1..];
    }

    /** One byte goes back; the end of the input goes back as the byte 255. */
    method Unread(ch: int)
      requires ByteText(input) && -1 <= ch < 256
      modifies `input
      ensures ByteText(input) && input == [if ch == -1 then END else ch as char] + old(input)
    {
      input := [(ch % 256) as char] + input;
    }

    method SkipSpaces() returns (ch: int)
      requires ByteText(input)
      modifies `input
      ensures ByteText(input) && input == SkipSpace(old(input))
      ensures (ch == -1 && input == [END]) || ch == input[0] as int
    {
      ghost var s := input;
      ch := ReadChar();
      while SpaceCode(ch)
        invariant -1 <= ch < 256 && ByteText(input)
        invariant ch == -1 ==> input == "" && SkipSpace(s) == [END]
        invariant ch != -1 ==> SkipSpace(s) == SkipSpace([ch as char] + input)
        decreases |input|, ch
      {
        assert ([ch as char] + input)[1..] == input;
        ch := ReadChar();
      }
      if ch != -1 {
        NotSpace([ch as char] + input);
      }
      Unread(ch);
      assert ch == -1 ==> [END] + "" == [END];
    }

    /** The rest of a quotation, its closing quote included. */
    method ReadQuotation() returns (buf: string)
      requires ByteText(input)
      modifies `input
      ensures ByteText(input) && (buf, input) == Quoted(old(input))
    {
      ghost var s := input;
      buf := "";
      var ch := 0;
      assert "" + Quoted(s).0 == Quoted(s).0;
      while true
        invariant ByteText(input) && (buf + Quoted(input).0, Quoted(input).1) == Quoted(s)
        decreases |input|
      {
        ghost var t := input;
        ghost var r := Quoted(t);
        ch := ReadChar();
        var c := if ch == -1 then '\U{FFFF}' else ch as char;
        if ch == -1 || c == '"' {
          assert r == ([c], input);
          buf := buf + [c];
          return;
        }
        assert r == ([c] + Quoted(input).0, Quoted(input).1);
        assert buf + ([c] + Quoted(input).0) == buf + [c] + Quoted(input).0;
        buf := buf + [c];
      }
    }

    /** The text of a tag, and the character that ended it. */
    method ReadTag() returns (buf: string, ch: int)
      requires ByteText(input)
      modifies `input
      ensures ByteText(input)
      ensures var r := TagText(old(input));
        buf == r.0 && input == r.2
        && (r.1.AtClose? <==> ch == '>' as int) && (r.1.AtSlash? <==> ch == '/' as int)
    {
      ghost var whole := TagText(input);
      TagStart(input);
      hide TagText, TagGoesOn, Quoted, SkipSpace;
      buf := "";
      while true
        invariant ByteText(input) && TagGoesOn(whole, buf, input)
        decreases |input|, if input != "" && IsSpace(input[0]) then 1 else 0
      {
        ghost var s := input;
        ch := ReadChar();
        TagStops(whole, buf, input);
        if ch == -1 || ch == '>' as int || ch == '/' as int {
          assert ch != -1 ==> s == [ch as char] + input;
          return;
        }
        var c := ch as char;
        assert s == [c] + input;
        TagNext(whole, buf, c, input);
        if IsSpace(c) {
          var next := SkipSpaces();
          if next != '>' as int && next != '/' as int {
            buf := buf + [' '];
          }
        } else {
          buf := buf + [Upper(c)];
          if c == '"' {
            var q := ReadQuotation();
            buf := buf + q;
          }
        }
      }
    }

    /** The text up to a tag, the spaces before the tag left out. */
    method ReadText() returns (buf: string)
      requires ByteText(input)
      modifies `input
      ensures ByteText(input) && (buf, input) == TextOf(old(input))
    {
      ghost var whole := TextOf(input);
      TextStart(input);
      hide TextOf, TextGoesOn;
      buf := "";
      while true
        invariant ByteText(input) && TextGoesOn(whole, buf, input)
        decreases |input|, if input != "" && IsSpace(input[0]) then 1 else 0
      {
        ghost var s := input;
        var ch := ReadChar();
        TextStops(whole, buf, input);
        assert ch != -1 ==> s == [ch as char] + input;
        if ch == -1 || ch == '<' as int {
          Unread(ch);
          assert ch == -1 ==> [END] + "" == [END];
          return;
        }
        var c := ch as char;
        if IsSpace(c) {
          var spaces, next := ReadSpaces(c);
          ghost var rest := if next == -1 then "" else [next as char] + input;
          assert spaces + rest == s;
          TextSpacesNext(whole, buf, spaces, rest);
          if next != '<' as int && next != -1 {
            buf := buf + spaces;
          }
          Unread(next);
          assert next == -1 ==> [END] + "" == [END];
        } else {
          TextNext(whole, buf, c, input);
          buf := buf + [c];
        }
      }
    }

    /** A run of spaces whose first has been read, and the character after it. */
    method ReadSpaces(c: char) returns (spaces: string, ch: int)
      requires ByteText(input) && IsSpace(c)
      modifies `input
      ensures ByteText(input) && -1 <= ch < 256 && spaces != "" && AllSpaces(spaces)
      ensures ch == -1 ==> input == "" && [c] + old(input) == spaces
      ensures ch != -1 ==> !IsSpace(ch as char) && [c] + old(input) == spaces + ([ch as char] + input)
    {
      ghost var s := [c] + input;
      spaces := [c];
      ghost var t := input;
      ch := ReadChar();
      assert ch != -1 ==> t == [ch as char] + input;
      while SpaceCode(ch)
        invariant ByteText(input) && -1 <= ch < 256 && spaces != "" && AllSpaces(spaces)
        invariant ch == -1 ==> input == "" && s == spaces
        invariant ch != -1 ==> s == spaces + ([ch as char] + input)
        decreases |input|, ch
      {
        t := input;
        spaces := spaces + [ch as char];
        assert s == spaces + t;
        ch := ReadChar();
        assert ch != -1 ==> t == [ch as char] + input;
      }
    }

    /** The tag after its '<'. */
    method ReadTagToken()
      requires ByteText(input) && token.NoToken?
      modifies `input, `token
      ensures ByteText(input) && (token, input) == LexTag(old(input))
    {
      hide TagText, SkipSpace;
      var ch := SkipSpaces();
      var closing := ch == '/' as int;
      if closing {
        ch := ReadChar();
        ch := SkipSpaces();
      }
      var buf;
      buf, ch := ReadTag();
      if ch == '>' as int {
        token := if closing then EndTag(buf) else StartTag(buf);
      } else if ch == '/' as int {
        ch := SkipSpaces();
        ch := ReadChar();
        if ch == '>' as int {
          token := SingleTag(buf);
        }
      }
    }

    method ReadNextToken()
      requires Valid()
      modifies this
      ensures Valid() && !pushed && before == old(Pending()) && (token, input) == Lex(before)
    {
      hide LexTag, TextOf, SkipSpace;
      if pushed {
        pushed := false;
        return;
      }
      before := input;
      token := NoToken;
      var ch := SkipSpaces();
      ghost var t := input;
      ch := ReadChar();
      if ch == '<' as int {
        ReadTagToken();
      } else {
        Unread(ch);
        assert input == t;
        var buf := ReadText();
        token := Token.Text(buf);
      }
    }

    method PushBack()
      requires Valid() && !pushed && (token, input) == Lex(before)
      modifies `pushed
      ensures Valid() && pushed && Pending() == before
    {
      pushed := true;
    }

    // ---------- the grammar ----------

    /** The outcome and the input left are those of the specification. */
    ghost predicate Agrees<T>(r: Try<T>, p: Parsed<T>)
      reads this
    {
      match p
      case Ok(v, rest) => r == Got(v) && Pending() == rest
      case Fail => r.Thrown?
    }

    method ExpectToken(t: Token) returns (r: Try<Token>)
      requires Valid()
      modifies this
      ensures Valid() && Agrees(r, Expect(old(Pending()), t))
    {
      ReadNextToken();
      r := if token == t then Got(t) else Thrown;
    }

    method ReadSymbol() returns (r: Try<string>)
      requires Valid()
      modifies this
      ensures Valid() && Agrees(r, ParseSymbol(old(Pending())))
    {
      ReadNextToken();
      if !token.SingleTag? {
        return Thrown;
      }
      var n := NameOf(Words(token.attribute));
      r := if n.None? then Thrown else Got(n.value);
    }

    method ReadVariable() returns (r: Try<Obj>)
      requires Valid()
      modifies this
      ensures Valid() && Agrees(r, ParseVariable(old(Pending())))
    {
      ReadNextToken();
      if !token.SingleTag? {
        return Thrown;
      }
      var ws := Words(token.attribute);
      if |ws| == 4 && ws[0] == Word(OMV_WORD) && ws[1] == Word(NAME_WORD) && ws[2] == Mark('=') && ws[3].Quotation?
         && VarName(ws[3].text)
      {
        r := Got(Indeterminate(ws[3].text));
      } else {
        r := Thrown;
      }
    }

    method ReadOMI() returns (r: Try<Obj>)
      requires Valid()
      modifies this
      ensures Valid() && Agrees(r, ParseOMI(old(Pending())))
      ensures r.Got? ==> r.value.ZZ?
    {
      hide Lex, ByteText;
      var open :- ExpectToken(StartTag(OMI));
      ReadNextToken();
      if !token.Text? {
        return Thrown;
      }
      var v := ParseInteger(token.attribute);
      if v.None? {
        return Thrown;
      }
      var close :- ExpectToken(EndTag(OMI));
      r := Got(ZZ(v.value));
    }

    method ReadOMSTR() returns (r: Try<Obj>)
      requires Valid()
      modifies this
      ensures Valid() && Agrees(r, ParseOMSTR(old(Pending())))
    {
      hide Lex, ByteText;
      var open :- ExpectToken(StartTag(OMSTR));
      ReadNextToken();
      var s := "";
      if token.Text? {
        s := token.attribute;
      } else {
        PushBack();
      }
      var close :- ExpectToken(EndTag(OMSTR));
      r := Got(OmObject.Text(s));
    }

    method ReadObject() returns (r: Try<Obj>)
      requires Valid()
      modifies this
      ensures Valid() && Agrees(r, ParseObject(old(Pending())))
      decreases |Pending()|, 0
    {
      hide Lex, ByteText, ParseSymbol, ParseVariable, ParseOMI, ParseOMSTR, ParseDMP, ParseObjects;
      ReadNextToken();
      if !token.StartTag? && !token.SingleTag? {
        return Thrown;
      }
      if StartsWith(token.attribute, OMV) {
        PushBack();
        r := ReadVariable();
      } else if token.attribute == OMI {
        PushBack();
        r := ReadOMI();
      } else if token.attribute == OMSTR {
        PushBack();
        r := ReadOMSTR();
      } else if token.attribute == OMA {
        var name :- ReadSymbol();
        var o;
        if name == DMP {
          o :- ReadPolynomial();
        } else {
          var leaves :- ReadObjects();
          o := Make(name, leaves);
        }
        var close :- ExpectToken(EndTag(OMA));
        r := Got(o);
      } else {
        r := Thrown;
      }
    }

    method ReadObjects() returns (r: Try<seq<Obj>>)
      requires Valid()
      modifies this
      ensures Valid() && Agrees(r, ParseObjects(old(Pending())))
      decreases |Pending()|, 1
    {
      hide Lex, ByteText, ParseObject, ParseObjects, ListGoesOn;
      ghost var all := ParseObjects(Pending());
      NoneSoFar(all);
      var objects := [];
      ReadNextToken();
      while !token.EndTag?
        invariant Valid() && !pushed && (token, input) == Lex(before) && |before| <= old(|Pending()|)
        invariant ListGoesOn(all, objects, ParseObjects(before))
        decreases |before|
      {
        ghost var t := ParseObjects(before);
        ObjectsStep(before);
        FailsAlike(all, objects, t);
        PushBack();
        var o :- ReadObject();
        ListNext(all, objects, t, o, ParseObjects(Pending()));
        objects := objects + [o];
        ReadNextToken();
      }
      ObjectsStep(before);
      NothingMore(all, objects, before);
      PushBack();
      r := Got(objects);
    }

    /** The ring is read and forgotten. */
    method ReadPolynomial() returns (r: Try<Obj>)
      requires Valid()
      modifies this
      ensures Valid() && Agrees(r, ParseDMP(old(Pending())))
      decreases |Pending()|, 1
    {
      hide Lex, ByteText, ParseObject, ParseSDMP;
      var ring :- ReadObject();
      var ms :- ReadTerms();
      r := Got(Distributed(DmsGeneric, ms));
    }

    method ReadTerms() returns (r: Try<seq<Obj>>)
      requires Valid()
      modifies this
      ensures Valid() && Agrees(r, ParseSDMP(old(Pending())))
      decreases |Pending()|, 1
    {
      hide Lex, ByteText, ParseSymbol, ParseMonomials;
      var open :- ExpectToken(StartTag(OMA));
      var name :- ReadSymbol();
      if name != SDMP {
        return Thrown;
      }
      r := ReadMonomials();
    }

    /** Monomials up to and with the end tag. */
    method ReadMonomials() returns (r: Try<seq<Obj>>)
      requires Valid()
      modifies this
      ensures Valid() && Agrees(r, ParseMonomials(old(Pending())))
      decreases |Pending()|, 2
    {
      hide Lex, ByteText, ParseMonom, ParseMonomials, ListGoesOn;
      ghost var all := ParseMonomials(Pending());
      NoneSoFar(all);
      var monomials := [];
      ReadNextToken();
      while !token.EndTag?
        invariant Valid() && !pushed && (token, input) == Lex(before) && |before| <= old(|Pending()|)
        invariant ListGoesOn(all, monomials, ParseMonomials(before))
        decreases |before|
      {
        ghost var t := ParseMonomials(before);
        MonomialsStep(before);
        FailsAlike(all, monomials, t);
        PushBack();
        var m :- ReadMonom();
        ListNext(all, monomials, t, m, ParseMonomials(Pending()));
        monomials := monomials + [m];
        ReadNextToken();
      }
      MonomialsStep(before);
      if token.attribute == OMA {
        NothingMore(all, monomials, input);
      }
      FailsAlike(all, monomials, ParseMonomials(before));
      r := if token.attribute == OMA then Got(monomials) else Thrown;
    }

    method ReadMonom() returns (r: Try<Obj>)
      requires Valid()
      modifies this
      ensures Valid() && Agrees(r, ParseMonom(old(Pending())))
      decreases |Pending()|, 1
    {
      hide Lex, ByteText, ParseSymbol, ParseObject, ParsePowers;
      var open :- ExpectToken(StartTag(OMA));
      var name :- ReadSymbol();
      if name != MONOM {
        return Thrown;
      }
      var c :- ReadObject();
      if !(c.ZZ? || c.QQ? || c.Int32? || c.Zero?) {
        return Thrown;
      }
      var ds :- ReadPowers();
      r := Got(Monomial(c, ds));
    }

    /** Integers up to and with the end tag, each cut to 32 bits. */
    method ReadPowers() returns (r: Try<seq<int>>)
      requires Valid()
      modifies this
      ensures Valid() && Agrees(r, ParsePowers(old(Pending())))
    {
      hide Lex, ByteText, ParseOMI, ParsePowers, ListGoesOn;
      ghost var all := ParsePowers(Pending());
      NoneSoFar(all);
      var powers := [];
      ReadNextToken();
      while !token.EndTag?
        invariant Valid() && !pushed && (token, input) == Lex(before) && |before| <= old(|Pending()|)
        invariant ListGoesOn(all, powers, ParsePowers(before))
        decreases |before|
      {
        ghost var t := ParsePowers(before);
        PowersStep(before);
        FailsAlike(all, powers, t);
        PushBack();
        var d :- ReadOMI();
        ListNext(all, powers, t, Wrap32(d.v), ParsePowers(Pending()));
        powers := powers + [Wrap32(d.v)];
        ReadNextToken();
      }
      PowersStep(before);
      if token.attribute == OMA {
        NothingMore(all, powers, input);
      }
      FailsAlike(all, powers, ParsePowers(before));
      r := if token.attribute == OMA then Got(powers) else Thrown;
    }

    /** The whole text: one object inside the outermost tag. */
    method ReadWhole() returns (r: Try<Obj>)
      requires Valid()
      modifies this
      ensures Valid() && Agrees(r, Parse(old(Pending())))
    {
      hide Lex, ByteText, ParseObject;
      var open :- ExpectToken(StartTag(OMOBJ));
      var o :- ReadObject();
      var close :- ExpectToken(EndTag(OMOBJ));
      r := Got(o);
    }
  }

  lemma ObjectsStep(s: string)
    ensures Lex(s).0.EndTag? ==> ParseObjects(s) == Ok([], s)
    ensures !Lex(s).0.EndTag? ==>
      var o := ParseObject(s);
      (o.Fail? ==> ParseObjects(s).Fail?)
      && (o.Ok? ==> ParseObjects(s) == WithFirst(o.value, ParseObjects(o.rest)))
  {
    hide Lex, ParseObject;
  }

  lemma MonomialsStep(s: string)
    ensures Lex(s).0.EndTag? ==> ParseMonomials(s) == if Lex(s).0.attribute == OMA then Ok([], Lex(s).1) else Fail
    ensures !Lex(s).0.EndTag? ==>
      var m := ParseMonom(s);
      (m.Fail? ==> ParseMonomials(s).Fail?)
      && (m.Ok? ==> ParseMonomials(s) == WithFirst(m.value, ParseMonomials(m.rest)))
  {
    hide Lex, ParseMonom;
  }

  lemma PowersStep(s: string)
    ensures Lex(s).0.EndTag? ==> ParsePowers(s) == if Lex(s).0.attribute == OMA then Ok([], Lex(s).1) else Fail
    ensures !Lex(s).0.EndTag? ==>
      var d := ParseOMI(s);
      (d.Fail? ==> ParsePowers(s).Fail?)
      && (d.Ok? ==> ParsePowers(s) == WithFirst(Wrap32(d.value.v), ParsePowers(d.rest)))
  {
    hide Lex, ParseOMI;
  }

  /** One more item in front. */
  function WithFirst<T>(x: T, u: Parsed<seq<T>>): Parsed<seq<T>> {
    if u.Fail? then Fail else Ok([x] + u.value, u.rest)
  }

  /** What the specification yields, when the items so far are followed by what it still reads. */
  ghost predicate ListGoesOn<T>(all: Parsed<seq<T>>, items: seq<T>, rest: Parsed<seq<T>>) {
    all == if rest.Fail? then Fail else Ok(items + rest.value, rest.rest)
  }

  lemma NoneSoFar<T>(all: Parsed<seq<T>>)
    ensures ListGoesOn(all, [], all)
  {
    assert all.Ok? ==> [] + all.value == all.value;
  }

  lemma NothingMore<T>(all: Parsed<seq<T>>, items: seq<T>, rest: string)
    requires ListGoesOn(all, items, Ok([], rest))
    ensures all == Ok(items, rest)
  {
    assert items + [] == items;
  }

  lemma FailsAlike<T>(all: Parsed<seq<T>>, items: seq<T>, rest: Parsed<seq<T>>)
    requires ListGoesOn(all, items, rest)
    ensures rest.Fail? ==> all.Fail?
  {
  }

  lemma ListNext<T>(all: Parsed<seq<T>>, items: seq<T>, t: Parsed<seq<T>>, x: T, u: Parsed<seq<T>>)
    requires ListGoesOn(all, items, t) && t == WithFirst(x, u)
    ensures ListGoesOn(all, items + [x], u)
  {
    assert u.Ok? ==> items + ([x] + u.value) == items + [x] + u.value;
  }
}
