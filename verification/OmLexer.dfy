/** The tokens of the OpenMath text form. */
module OmLexer {

  /** An attribute is the text of a tag, outside quotes in upper case, or the characters between
      two tags without the spaces around them. */
  datatype Token = NoToken | Text(attribute: string) | StartTag(attribute: string) | EndTag(attribute: string)
    | SingleTag(attribute: string)

  /** What the end of the input reads as once it has been pushed back. */
  const END: char := '\U{FF}'

  predicate IsSpace(c: char) { c == ' ' || c == '\t' || c == '\n' || c == '\r' }

  predicate AllSpaces(s: string) { forall i :: 0 <= i < |s| ==> IsSpace(s[i]) }

  /** Letters of the ASCII range. */
  function Upper(c: char): char {
    if 'a' <= c <= 'z' then c - 'a' + 'A' else c
  }

  /** The input after its spaces; its end has been pushed back. */
  function SkipSpace(s: string): (t: string)
    ensures t != "" && (|t| <= |s| || t == [END]) && (t != [END] ==> !IsSpace(t[0]))
    ensures s != "" ==> |t| <= |s|
  {
    if s == "" then [END] else if IsSpace(s[0]) then SkipSpace(s[1..]) else s
  }

  // ---------- tags ----------

  /** Up to and with the closing quote; the end of the input is taken in as a character. */
  function Quoted(s: string): (r: (string, string))
    ensures |r.1| <= |s|
  {
    if s == "" then (['\U{FFFF}'], "")
    else if s[0] == '"' then (['"'], s[1..])
    else
      var r := Quoted(s[1..]);
      ([s[0]] + r.0, r.1)
  }

  /** How a tag ended. */
  datatype Stop = AtClose | AtSlash | AtEnd

  /** The rest of a tag: its text, how it ended, and the input after that. */
  function TagText(s: string): (r: (string, Stop, string))
    ensures |r.2| <= |s| && (!r.1.AtEnd? ==> |r.2| < |s|)
    decreases |s|
  {
    if s == "" then ("", AtEnd, "")
    else if s[0] == '>' then ("", AtClose, s[1..])
    else if s[0] == '/' then ("", AtSlash, s[1..])
    else if IsSpace(s[0]) then
      if s[1..] == "" then ([' ', END], AtEnd, "") else
        var t := SkipSpace(s[1..]);
        var r := TagText(t);
        (if t[0] == '>' || t[0] == '/' then r.0 else [' '] + r.0, r.1, r.2)
    else if s[0] == '"' then
      var q := Quoted(s[1..]);
      var r := TagText(q.1);
      (['"'] + q.0 + r.0, r.1, r.2)
    else
      var r := TagText(s[1..]);
      ([Upper(s[0])] + r.0, r.1, r.2)
  }

  /** After the opening bracket. */
  function LexTag(s: string): (r: (Token, string))
    ensures |r.1| <= |s| + 1
    ensures !r.0.NoToken? ==> |r.1| < |s| && !r.0.Text?
  {
    var t := SkipSpace(s);
    var u := if t[0] == '/' then SkipSpace(t[1..]) else t;
    var r := TagText(u);
    if r.1.AtClose? then (if t[0] == '/' then EndTag(r.0) else StartTag(r.0), r.2)
    else if r.1.AtEnd? then (NoToken, r.2)
    else
      var v := SkipSpace(r.2);
      if v[0] == '>' then (SingleTag(r.0), v[1..]) else (NoToken, v[1..])
  }

  // ---------- text ----------

  function Spaces(s: string): (sp: string)
    ensures sp <= s && forall i :: 0 <= i < |sp| ==> IsSpace(sp[i])
    ensures |sp| < |s| ==> !IsSpace(s[|sp|])
  {
    if s == "" || !IsSpace(s[0]) then "" else [s[0]] + Spaces(s[1..])
  }

  /** The characters up to the next tag, spaces before the tag left out. */
  function TextOf(s: string): (r: (string, string))
    ensures |r.1| <= |s| || r.1 == [END]
    decreases |s|
  {
    if s == "" then ("", [END])
    else if s[0] == '<' then ("", s)
    else if IsSpace(s[0]) then
      var sp := Spaces(s);
      var t := s[|sp|..];
      if t == "" then ([END], [END])
      else if t[0] == '<' then ("", t)
      else
        var r := TextOf(t);
        (sp + r.0, r.1)
    else
      var r := TextOf(s[1..]);
      ([s[0]] + r.0, r.1)
  }

  /** The next token and the input after it. */
  function Lex(s: string): (r: (Token, string))
    ensures r.0.StartTag? || r.0.EndTag? || r.0.SingleTag? ==> |r.1| < |s|
    ensures r.0.Text? ==> r.0.attribute != "" && (|r.1| <= |s| || r.1 == [END])
  {
    var t := SkipSpace(s);
    if t[0] == '<' then LexTag(t[1..])
    else
      var r := TextOf(t);
      (Text(r.0), r.1)
  }

  /** At its end the input reads as one more character, again and again. */
  lemma LexAtEnd()
    ensures Lex([END]) == (Text([END]), [END])
  {
    assert [END][1..] == "" && [END] + "" == [END];
    assert TextOf("") == ("", [END]);
  }
}
