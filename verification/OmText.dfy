/** The text between tags, and the words of an attribute. */
module OmText {
  import opened Basics
  import opened OmLexer
  import opened OmTree

  // ---------- text without the spaces around it ----------

  function DropStart(s: string): (t: string)
    ensures t != "" ==> !IsSpace(t[0])
    ensures t == "" <==> AllSpaces(s)
  {
    if s == "" then "" else if IsSpace(s[0]) then DropStart(s[1..]) else s
  }

  function DropEnd(s: string): (t: string)
    ensures t == "" <==> AllSpaces(s)
    ensures t <= s
  {
    if AllSpaces(s) then "" else [s[0]] + DropEnd(s[1..])
  }

  function Trim(s: string): (t: string)
    ensures t == "" <==> AllSpaces(s)
  {
    DropEnd(DropStart(s))
  }

  /** What trimming leaves begins and ends with no space, and only spaces are gone. */
  lemma {:induction false} DropEndIs(s: string)
    requires !AllSpaces(s)
    ensures var t := DropEnd(s);
      t != "" && !IsSpace(t[|t| - 1]) && AllSpaces(s[|t|..])
  {
    var u := s[1..];
    if AllSpaces(u) {
      assert DropEnd(s) == [s[0]] + "" && !IsSpace(s[0]);
    } else {
      DropEndIs(u);
      assert s[|DropEnd(s)|..] == u[|DropEnd(u)|..];
    }
  }

  predicate NoTag(s: string) { forall i :: 0 <= i < |s| ==> s[i] != '<' }

  lemma {:induction false} SpacesThenTag(s: string, r: string)
    requires NoTag(s)
    ensures Spaces(s + (['<'] + r)) == Spaces(s)
  {
    var u := s + (['<'] + r);
    if s == "" {
      assert u == ['<'] + r;
    } else {
      assert u[1..] == s[1..] + (['<'] + r);
      SpacesThenTag(s[1..], r);
    }
  }

  lemma {:induction false} SkipThenTag(s: string, r: string)
    requires NoTag(s)
    ensures SkipSpace(s + (['<'] + r)) == DropStart(s) + (['<'] + r)
    ensures NoTag(DropStart(s))
  {
    var u := s + (['<'] + r);
    if s == "" {
      assert u == ['<'] + r;
      assert DropStart(s) + (['<'] + r) == u;
    } else {
      assert u[1..] == s[1..] + (['<'] + r);
      SkipThenTag(s[1..], r);
    }
  }

  lemma DropEndOne(s: string)
    requires exists i :: 0 <= i < |s| && !IsSpace(s[i])
    ensures DropEnd(s) == [s[0]] + DropEnd(s[1..])
  {
  }

  lemma {:induction false} DropEndSpaces(sp: string, t: string)
    requires t != "" && !IsSpace(t[0])
    ensures DropEnd(sp + t) == sp + DropEnd(t)
  {
    if sp == "" {
      assert sp + t == t && sp + DropEnd(t) == DropEnd(t);
    } else {
      var u := sp + t;
      assert u[|sp|] == t[0];
      assert u[1..] == sp[1..] + t && u[0] == sp[0];
      DropEndSpaces(sp[1..], t);
      DropEndOne(u);
      hide *;
      assert [sp[0]] + (sp[1..] + DropEnd(t)) == sp + DropEnd(t);
    }
  }

  /** The characters up to the tag, without the spaces before it. */
  lemma {:induction false} TextThenTag(s: string, r: string)
    requires NoTag(s)
    ensures TextOf(s + (['<'] + r)) == (DropEnd(s), ['<'] + r)
    decreases |s|
  {
    var u := s + (['<'] + r);
    if s == "" {
      assert u == ['<'] + r;
    } else if IsSpace(s[0]) {
      TextSpaces(s, r);
    } else {
      assert u[1..] == s[1..] + (['<'] + r);
      TextThenTag(s[1..], r);
    }
  }

  lemma {:induction false} TextSpaces(s: string, r: string)
    requires NoTag(s) && s != "" && IsSpace(s[0])
    ensures TextOf(s + (['<'] + r)) == (DropEnd(s), ['<'] + r)
    decreases |s|, 0
  {
    var u := s + (['<'] + r);
    var sp := Spaces(s);
    var t := s[|sp|..];
    SpacesThenTag(s, r);
    SpacesOff(s, r);
    if t == "" {
      OnlySpaces(s, r);
    } else {
      TextThenTag(t, r);
      DropEndSpaces(sp, t);
      TextAfterSpaces(u, sp, t + (['<'] + r));
      hide *;
    }
  }

  lemma SpacesOff(s: string, r: string)
    requires NoTag(s) && s != "" && IsSpace(s[0])
    ensures var sp := Spaces(s);
      var t := s[|sp|..];
      var u := s + (['<'] + r);
      sp != "" && s == sp + t && u[|sp|..] == t + (['<'] + r) && u != "" && u[0] == s[0] && NoTag(t)
      && (t != "" ==> t[0] == s[|sp|] && !IsSpace(t[0]) && t[0] != '<' && (t + (['<'] + r))[0] == t[0])
  {
  }

  lemma OnlySpaces(s: string, r: string)
    requires NoTag(s) && s != "" && IsSpace(s[0]) && s[|Spaces(s)|..] == "" && Spaces(s + (['<'] + r)) == Spaces(s)
    ensures TextOf(s + (['<'] + r)) == (DropEnd(s), ['<'] + r)
  {
    var u := s + (['<'] + r);
    assert s == Spaces(s) && AllSpaces(s);
    assert u[|s|..] == ['<'] + r && u[0] == s[0];
    hide Spaces;
  }

  lemma TextAfterSpaces(u: string, sp: string, v: string)
    requires u != "" && IsSpace(u[0]) && Spaces(u) == sp && u[|sp|..] == v && v != "" && v[0] != '<'
    ensures TextOf(u) == (sp + TextOf(v).0, TextOf(v).1)
  {
    hide Spaces;
  }

  /** A text before a tag is read as its trimmed form; one of spaces alone is not read at all. */
  lemma LexText(s: string, r: string)
    requires NoTag(s)
    ensures Trim(s) != "" ==> Lex(s + (['<'] + r)) == (Text(Trim(s)), ['<'] + r)
    ensures Trim(s) == "" ==> Lex(s + (['<'] + r)) == Lex(['<'] + r)
  {
    var t := DropStart(s);
    SkipThenTag(s, r);
    TextThenTag(t, r);
    SkipThenTag("", r);
    assert "" + (['<'] + r) == ['<'] + r;
    assert t == "" ==> t + (['<'] + r) == ['<'] + r;
    hide TextOf, SkipSpace, DropEnd, LexTag;
  }

  // ---------- words of an attribute ----------

  /** A word is lower-cased; any other character outside quotes stands for itself. */
  datatype Word = Word(word: string) | Quotation(text: string) | Mark(c: char)

  predicate IsWordChar(c: char) {
    'A' <= c <= 'Z' || 'a' <= c <= 'z' || '0' <= c <= '9' || '\U{A0}' <= c <= '\U{FF}'
  }

  function Lower(c: char): char {
    if 'A' <= c <= 'Z' then c - 'A' + 'a' else c
  }

  /** The longest beginning made of word characters, lower-cased. */
  function WordAt(s: string): (w: string)
    ensures |w| <= |s|
  {
    if s == "" || !IsWordChar(s[0]) then "" else [Lower(s[0])] + WordAt(s[1..])
  }

  predicate IsOctal(c: char) { '0' <= c <= '7' }

  /** A letter that names a control character after a backslash, or the character itself. */
  function Escaped(c: char): char {
    if c == 'a' then '\U{7}' else if c == 'b' then '\U{8}' else if c == 'f' then '\U{C}'
    else if c == 'n' then '\n' else if c == 'r' then '\r' else if c == 't' then '\t'
    else if c == 'v' then '\U{B}' else c
  }

  /** What the tokenizer makes of the characters after a backslash: up to three octal digits, or one
      character; the end of the text is taken in as a character. */
  function EscapeAt(s: string): (r: (char, string))
    ensures |r.1| <= |s|
  {
    if s == "" then ('\U{FFFF}', "")
    else if !IsOctal(s[0]) then (Escaped(s[0]), s[1..])
    else if |s| == 1 || !IsOctal(s[1]) then (s[0] - '0', s[1..])
    else
      var two := (s[0] - '0') as int * 8 + (s[1] - '0') as int;
      if |s| == 2 || !IsOctal(s[2]) || s[0] > '3' then (two as char, s[2..])
      else ((two * 8 + (s[2] - '0') as int) as char, s[3..])
  }

  /** Up to the closing quote, the end of the line, or the end. */
  function QuotedAt(s: string): (r: (string, string))
    ensures |r.1| <= |s|
  {
    if s == "" then ("", "")
    else if s[0] == '"' then ("", s[1..])
    else if s[0] == '\n' || s[0] == '\r' then ("", s)
    else if s[0] == '\\' then
      var e := EscapeAt(s[1..]);
      var r := QuotedAt(e.1);
      ([e.0] + r.0, r.1)
    else
      var r := QuotedAt(s[1..]);
      ([s[0]] + r.0, r.1)
  }

  function Words(s: string): seq<Word>
    decreases |s|
  {
    if s == "" then []
    else if s[0] <= ' ' then Words(s[1..])
    else if IsWordChar(s[0]) then
      var w := WordAt(s);
      [Word(w)] + Words(s[|w|..])
    else if s[0] == '"' then
      var q := QuotedAt(s[1..]);
      [Quotation(q.0)] + Words(q.1)
    else [Mark(s[0])] + Words(s[1..])
  }

  function LowerAll(s: string): (r: string)
    ensures |r| == |s| && forall i :: 0 <= i < |s| ==> r[i] == Lower(s[i])
  {
    seq(|s|, i requires 0 <= i < |s| => Lower(s[i]))
  }

  lemma {:induction false} WordUp(w: string, t: string)
    requires (forall i :: 0 <= i < |w| ==> IsWordChar(w[i])) && (t == "" || !IsWordChar(t[0]))
    ensures WordAt(w + t) == LowerAll(w)
  {
    if w == "" {
      assert w + t == t;
    } else {
      assert (w + t)[1..] == w[1..] + t;
      WordUp(w[1..], t);
      assert LowerAll(w) == [Lower(w[0])] + LowerAll(w[1..]);
    }
  }

  lemma WordFirst(w: string, t: string)
    requires WordChars(w) && (t == "" || !IsWordChar(t[0]))
    ensures Words(w + t) == [Word(LowerAll(w))] + Words(t)
  {
    WordUp(w, t);
    assert (w + t)[|w|..] == t;
    assert (w + t)[0] == w[0];
    hide WordAt;
  }

  /** The characters that stand for themselves in a quotation. */
  predicate OneLine(s: string) {
    forall i :: 0 <= i < |s| ==> s[i] != '"' && s[i] != '\\' && s[i] != '\n' && s[i] != '\r'
  }

  lemma {:induction false} QuotedAtUp(q: string, t: string)
    requires OneLine(q)
    ensures QuotedAt(q + (['"'] + t)) == (q, t)
  {
    var s := q + (['"'] + t);
    if q == "" {
      assert s == ['"'] + t && s[1..] == t;
    } else {
      assert s[1..] == q[1..] + (['"'] + t);
      QuotedAtUp(q[1..], t);
      assert [q[0]] + q[1..] == q;
    }
  }

  lemma QuotationFirst(q: string, t: string)
    requires OneLine(q)
    ensures Words(Quote(q) + t) == [Quotation(q)] + Words(t)
  {
    QuotedAtUp(q, t);
    assert (Quote(q) + t)[1..] == q + (['"'] + t);
    hide QuotedAt;
  }

  lemma MarkFirst(c: char, t: string)
    requires c > ' ' && !IsWordChar(c) && c != '"'
    ensures Words([c] + t) == [Mark(c)] + Words(t)
  {
    assert ([c] + t)[1..] == t;
  }

  lemma SpaceFirst(t: string)
    ensures Words([' '] + t) == Words(t)
  {
    assert ([' '] + t)[1..] == t;
  }

  const NAME_WORD: string := ['n', 'a', 'm', 'e']
  const CD_WORD: string := ['c', 'd']
  const OMS_WORD: string := ['o', 'm', 's']
  const OMV_WORD: string := ['o', 'm', 'v']

  function SymbolWords(name: string, cd: string, swapped: bool): seq<Word> {
    if swapped then
      [Word(OMS_WORD), Word(CD_WORD), Mark('='), Quotation(cd), Word(NAME_WORD), Mark('='), Quotation(name)]
    else [Word(OMS_WORD), Word(NAME_WORD), Mark('='), Quotation(name), Word(CD_WORD), Mark('='), Quotation(cd)]
  }

  function VarWords(name: string): seq<Word> {
    [Word(OMV_WORD), Word(NAME_WORD), Mark('='), Quotation(name)]
  }

  predicate WordChars(s: string) { s != "" && forall i :: 0 <= i < |s| ==> IsWordChar(s[i]) }

  const UPPER_NAME_WORD: string := ['N', 'A', 'M', 'E']
  const UPPER_CD_WORD: string := ['C', 'D']

  lemma LowerNames()
    ensures WordChars(UPPER_NAME_WORD) && WordChars(UPPER_CD_WORD) && WordChars(OMS) && WordChars(OMV)
    ensures UPPER_NAME == UPPER_NAME_WORD + ['='] && UPPER_CD == UPPER_CD_WORD + ['=']
    ensures !IsWordChar('=') && !IsWordChar(' ') && '=' > ' '
    ensures LowerAll(UPPER_NAME_WORD) == NAME_WORD && LowerAll(UPPER_CD_WORD) == CD_WORD
    ensures LowerAll(OMS) == OMS_WORD && LowerAll(OMV) == OMV_WORD
  {
  }

  /** NAME="..." in front of the rest. */
  lemma NamedFirst(q: string, t: string)
    requires OneLine(q)
    ensures Words(UPPER_NAME + (Quote(q) + t)) == [Word(NAME_WORD), Mark('='), Quotation(q)] + Words(t)
    ensures Words(UPPER_CD + (Quote(q) + t)) == [Word(CD_WORD), Mark('='), Quotation(q)] + Words(t)
  {
    hide *;
    var u := Quote(q) + t;
    LowerNames();
    QuotationFirst(q, t);
    MarkFirst('=', u);
    WordFirst(UPPER_NAME_WORD, ['='] + u);
    WordFirst(UPPER_CD_WORD, ['='] + u);
    Assoc(UPPER_NAME_WORD, ['='], u);
    Assoc(UPPER_CD_WORD, ['='], u);
    Three(Word(NAME_WORD), Mark('='), Quotation(q), Words(t));
    Three(Word(CD_WORD), Mark('='), Quotation(q), Words(t));
  }

  lemma Three(a: Word, b: Word, c: Word, t: seq<Word>)
    ensures [a] + ([b] + ([c] + t)) == [a, b, c] + t
  {
  }

  /** The attribute of a symbol's tag splits into its words, in whichever order they stand. */
  lemma SymbolAttributeWords(name: string, cd: string, swapped: bool)
    requires OneLine(name) && OneLine(cd)
    ensures Words(SymbolAttribute(name, cd, swapped)) == SymbolWords(name, cd, swapped)
  {
    AttributesAre(name, cd);
    hide *;
    LowerNames();
    if swapped {
      var t2 := UPPER_NAME + (Quote(name) + "");
      var t1 := [' '] + t2;
      var t0 := UPPER_CD + (Quote(cd) + t1);
      NamedFirst(name, "");
      SpaceFirst(t2);
      NamedFirst(cd, t1);
      SpaceFirst(t0);
      WordFirst(OMS, [' '] + t0);
      Seven(Word(OMS_WORD), Word(CD_WORD), Mark('='), Quotation(cd), Word(NAME_WORD), Mark('='), Quotation(name));
    } else {
      var t2 := UPPER_CD + (Quote(cd) + "");
      var t1 := [' '] + t2;
      var t0 := UPPER_NAME + (Quote(name) + t1);
      NamedFirst(cd, "");
      SpaceFirst(t2);
      NamedFirst(name, t1);
      SpaceFirst(t0);
      WordFirst(OMS, [' '] + t0);
      Seven(Word(OMS_WORD), Word(NAME_WORD), Mark('='), Quotation(name), Word(CD_WORD), Mark('='), Quotation(cd));
    }
  }

  lemma AttributesAre(name: string, cd: string)
    ensures SymbolAttribute(name, cd, false)
      == OMS + ([' '] + (UPPER_NAME + (Quote(name) + ([' '] + (UPPER_CD + (Quote(cd) + ""))))))
    ensures SymbolAttribute(name, cd, true)
      == OMS + ([' '] + (UPPER_CD + (Quote(cd) + ([' '] + (UPPER_NAME + (Quote(name) + ""))))))
    ensures VarAttribute(name) == OMV + ([' '] + (UPPER_NAME + (Quote(name) + "")))
    ensures SymbolWords(name, cd, false)
      == [Word(OMS_WORD), Word(NAME_WORD), Mark('='), Quotation(name), Word(CD_WORD), Mark('='), Quotation(cd)]
    ensures SymbolWords(name, cd, true)
      == [Word(OMS_WORD), Word(CD_WORD), Mark('='), Quotation(cd), Word(NAME_WORD), Mark('='), Quotation(name)]
    ensures VarWords(name) == [Word(OMV_WORD), Word(NAME_WORD), Mark('='), Quotation(name)]
    ensures Words("") == []
  {
  }

  lemma Seven(o: Word, a: Word, b: Word, c: Word, d: Word, e: Word, f: Word)
    ensures [o] + ([a, b, c] + ([d, e, f] + [])) == [o, a, b, c, d, e, f]
    ensures [o] + ([a, b, c] + []) == [o, a, b, c]
  {
  }

  lemma VarAttributeWords(name: string)
    requires OneLine(name)
    ensures Words(VarAttribute(name)) == VarWords(name)
  {
    AttributesAre(name, "");
    hide *;
    var t0 := UPPER_NAME + (Quote(name) + "");
    LowerNames();
    NamedFirst(name, "");
    SpaceFirst(t0);
    WordFirst(OMV, [' '] + t0);
    var q := Quotation(name);
    Seven(Word(OMV_WORD), Word(NAME_WORD), Mark('='), q, q, q, q);
  }
}
