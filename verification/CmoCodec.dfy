/** OpenXM Common Mathematical Objects and their binary form on a connection. */
module CmoCodec {
  import opened Basics
  import opened Bytes
  import opened BigInt

  /** Objects that are a bare tag. */
  datatype PlainTag = Null | Zero | DmsGeneric

  /** Objects that hold one other object. */
  datatype WrapTag = Mathcap | RingByName | Indeterminate | Error2

  /** Objects that hold two others: (re, im), (ringdef, coef) and (args, body). */
  datatype PairTag = Complex | Recursive | Lambda

  datatype Term = Term(exp: int, coef: Cmo)

  /** Missing is the null pointer that the receiver returns for a tag it does not know. */
  datatype Cmo =
    | Plain(plain: PlainTag)
    | Int32(i: int)
    | Str(s: seq<Byte>)
    | Wrapped(wrap: WrapTag, ob: Cmo)
    | Pair(pair: PairTag, first: Cmo, second: Cmo)
    | Tree(name: Cmo, attributes: Cmo, leaves: Cmo)
    | List(items: seq<Cmo>)
    | Monomial32(exps: seq<int>, coef: Cmo)
    | ZZ(v: int)
    | QQ(num: int, den: int)
    | Distributed(ringdef: Cmo, monomials: seq<Cmo>)
    | PolyInOne(variable: int, terms: seq<Term>)
    | Double(image: seq<Byte>)
    | Missing

  const STRING: int := 4
  const INT32: int := 2
  const LIST: int := 17
  const MONOMIAL32: int := 19
  const INTEGER: int := 20
  const RATIONAL: int := 21
  const DISTRIBUTED: int := 31
  const POLY_IN_ONE: int := 33
  const MACHINE_DOUBLE: int := 40
  const IEEE_DOUBLE: int := 51
  const BIGFLOAT32: int := 52
  const TREE: int := 61

  function PlainCode(t: PlainTag): int {
    match t case Null => 1 case Zero => 22 case DmsGeneric => 24
  }

  function WrapCode(t: WrapTag): int {
    match t case Mathcap => 5 case RingByName => 26 case Indeterminate => 60 case Error2 => 0x7f00_0002
  }

  function PairCode(t: PairTag): int {
    match t case Complex => 35 case Recursive => 27 case Lambda => 62
  }

  function Code(c: Cmo): int
    requires !c.Missing?
  {
    match c
    case Plain(t) => PlainCode(t)
    case Int32(_) => INT32
    case Str(_) => STRING
    case Wrapped(t, _) => WrapCode(t)
    case Pair(t, _, _) => PairCode(t)
    case Tree(_, _, _) => TREE
    case List(_) => LIST
    case Monomial32(_, _) => MONOMIAL32
    case ZZ(_) => INTEGER
    case QQ(_, _) => RATIONAL
    case Distributed(_, _) => DISTRIBUTED
    case PolyInOne(_, _) => POLY_IN_ONE
    case Double(_) => IEEE_DOUBLE
  }

  // ---------- sending ----------

  /** The words of |v|, low word first. */
  function Words(v: int): (w: seq<nat>)
    ensures DigitsIn(w, WORD)
  {
    ToDigits(Abs(v), WORD)
  }

  /** The size fits an int, also when it is rounded up to whole limbs. */
  predicate MpzFits(v: int) { |Words(v)| + 1 < TWO_TO_THE_31 }

  predicate IntsFit(xs: seq<int>) {
    |xs| < TWO_TO_THE_31 && forall i :: 0 <= i < |xs| ==> IsInt32(xs[i])
  }

  /** The objects a C program can hold and send: fields in range, no null pointer, strings that
      end at their first zero byte. */
  predicate Sendable(c: Cmo)
    decreases c, 1
  {
    match c
    case Plain(_) => true
    case Int32(i) => IsInt32(i)
    case Str(s) => |s| < TWO_TO_THE_31 && forall i :: 0 <= i < |s| ==> s[i] != 0
    case Wrapped(_, ob) => Sendable(ob)
    case Pair(_, a, b) => Sendable(a) && Sendable(b)
    case Tree(n, a, l) => Sendable(n) && Sendable(a) && Sendable(l)
    case List(items) => |items| < TWO_TO_THE_31 && AllSendable(items)
    case Monomial32(exps, coef) => IntsFit(exps) && Sendable(coef)
    case ZZ(v) => MpzFits(v)
    case QQ(a, b) => MpzFits(a) && MpzFits(b)
    case Distributed(r, ms) => Sendable(r) && |ms| < TWO_TO_THE_31 && AllSendable(ms)
    case PolyInOne(x, ts) => IsInt32(x) && |ts| < TWO_TO_THE_31 && TermsSendable(ts)
    case Double(d) => |d| == 8
    case Missing => false
  }

  predicate AllSendable(cs: seq<Cmo>)
    decreases cs, 0
  {
    cs == [] || (Sendable(cs[0]) && AllSendable(cs[1..]))
  }

  predicate TermsSendable(ts: seq<Term>)
    decreases ts, 0
  {
    ts == [] || (TermSendable(ts[0]) && TermsSendable(ts[1..]))
  }

  predicate TermSendable(t: Term)
    decreases t, 1
  {
    IsInt32(t.exp) && Sendable(t.coef)
  }

  function EncodeInts(xs: seq<int>, bo: ByteOrder): seq<Byte>
    requires IntsFit(xs)
  {
    if xs == [] then [] else IntBytes(xs[0], bo) + EncodeInts(xs[1..], bo)
  }

  function EncodeWords(w: seq<nat>, bo: ByteOrder): seq<Byte>
    requires DigitsIn(w, WORD)
  {
    if w == [] then [] else WordBytes(w[0], bo) + EncodeWords(w[1..], bo)
  }

  function SignedSize(v: int): (size: int)
    requires MpzFits(v)
    ensures IsInt32(size)
  {
    if v < 0 then -|Words(v)| else |Words(v)|
  }

  function EncodeMpz(v: int, bo: ByteOrder): seq<Byte>
    requires MpzFits(v)
  {
    IntBytes(SignedSize(v), bo) + EncodeWords(Words(v), bo)
  }

  function Encode(c: Cmo, bo: ByteOrder): seq<Byte>
    requires Sendable(c)
    decreases c, 2
  {
    IntBytes(Code(c), bo) + Body(c, bo)
  }

  /** What follows the tag. */
  function Body(c: Cmo, bo: ByteOrder): seq<Byte>
    requires Sendable(c)
    decreases c, 1
  {
    match c
    case Plain(_) => []
    case Int32(i) => IntBytes(i, bo)
    case Str(s) => IntBytes(|s|, bo) + s
    case Wrapped(_, ob) => Encode(ob, bo)
    case Pair(_, a, b) => Encode(a, bo) + Encode(b, bo)
    case Tree(n, a, l) => Encode(n, bo) + (Encode(a, bo) + Encode(l, bo))
    case List(items) => IntBytes(|items|, bo) + EncodeAll(items, bo)
    case Monomial32(exps, coef) => IntBytes(|exps|, bo) + (EncodeInts(exps, bo) + Encode(coef, bo))
    case ZZ(v) => EncodeMpz(v, bo)
    case QQ(a, b) => EncodeMpz(a, bo) + EncodeMpz(b, bo)
    case Distributed(r, ms) => IntBytes(|ms|, bo) + (Encode(r, bo) + EncodeAll(ms, bo))
    case PolyInOne(x, ts) => IntBytes(|ts|, bo) + (IntBytes(x, bo) + EncodeTerms(ts, bo))
    case Double(d) => InOrder(d, bo)
  }

  function EncodeAll(cs: seq<Cmo>, bo: ByteOrder): seq<Byte>
    requires AllSendable(cs)
    decreases cs, 0
  {
    if cs == [] then [] else Encode(cs[0], bo) + EncodeAll(cs[1..], bo)
  }

  function EncodeTerms(ts: seq<Term>, bo: ByteOrder): seq<Byte>
    requires TermsSendable(ts)
    decreases ts, 0
  {
    if ts == [] then [] else EncodeTerm(ts[0], bo) + EncodeTerms(ts[1..], bo)
  }

  function EncodeTerm(t: Term, bo: ByteOrder): seq<Byte>
    requires TermSendable(t)
    decreases t, 0
  {
    IntBytes(t.exp, bo) + Encode(t.coef, bo)
  }

  // ---------- receiving ----------

  /** Exit: the input ended and the process exits.  Outside: C leaves the result undefined, or
      the object is not part of this model. */
  datatype Result<T> = Ok(value: T, rest: seq<Byte>) | Exit | Outside

  function ReadInt(s: seq<Byte>, bo: ByteOrder): (r: Result<int>)
    ensures r.Ok? ==> |r.rest| == |s| - 4 && IsInt32(r.value)
    ensures !r.Outside?
  {
    if |s| < 4 then Exit else Ok(BytesInt(s[..4], bo), s[4..])
  }

  function ReadInts(n: int, s: seq<Byte>, bo: ByteOrder): (r: Result<seq<int>>)
    ensures r.Ok? ==> |r.rest| <= |s|
    ensures !r.Outside?
    decreases if n > 0 then n else 0
  {
    if n <= 0 then Ok([], s) else
      var h := ReadInt(s, bo);
      if !h.Ok? then Exit else
        var t := ReadInts(n - 1, h.rest, bo);
        if !t.Ok? then t else Ok([h.value] + t.value, t.rest)
  }

  function ReadWords(n: nat, s: seq<Byte>, bo: ByteOrder): (r: Result<seq<nat>>)
    ensures r.Ok? ==> |r.rest| <= |s| && |r.value| == n && DigitsIn(r.value, WORD)
    ensures !r.Outside?
  {
    if n == 0 then Ok([], s)
    else if |s| < 4 then Exit
    else
      var t := ReadWords(n - 1, s[4..], bo);
      BytesWordRange(s[..4], bo);
      if t.Exit? then Exit else Ok([BytesWord(s[..4], bo)] + t.value, t.rest)
  }

  function Signed(sign: int, magnitude: nat): int {
    if sign < 0 then 0 - magnitude else magnitude
  }

  function ReadMpz(s: seq<Byte>, bo: ByteOrder): (r: Result<int>)
    ensures r.Ok? ==> |r.rest| < |s|
    ensures !r.Outside?
  {
    var h := ReadInt(s, bo);
    if !h.Ok? then Exit else
      var w := ReadWords(Abs(h.value), h.rest, bo);
      if w.Exit? then Exit
      else Ok(Signed(h.value, Value(w.value, WORD)), w.rest)
  }

  /** A C string ends at its first zero byte. */
  function CString(s: seq<Byte>): (t: seq<Byte>)
    ensures t <= s && forall i :: 0 <= i < |t| ==> t[i] != 0
  {
    if s == [] || s[0] == 0 then [] else [s[0]] + CString(s[1..])
  }

  function ReadString(s: seq<Byte>, bo: ByteOrder): (r: Result<seq<Byte>>)
    ensures r.Ok? ==> |r.rest| < |s|
  {
    var h := ReadInt(s, bo);
    if !h.Ok? then Exit
    else if h.value < 0 then Outside
    else if |h.rest| < h.value then Exit
    else Ok(CString(h.rest[..h.value]), h.rest[h.value..])
  }

  function PlainOf(tag: int): (t: PlainTag)
    requires tag in {1, 22, 24}
  {
    if tag == 1 then Null else if tag == 22 then Zero else DmsGeneric
  }

  function WrapOf(tag: int): (t: WrapTag)
    requires tag in {5, 26, 60, 0x7f00_0002}
  {
    if tag == 5 then Mathcap else if tag == 26 then RingByName else if tag == 60 then Indeterminate else Error2
  }

  function PairOf(tag: int): (t: PairTag)
    requires tag in {27, 35, 62}
  {
    if tag == 27 then Recursive else if tag == 35 then Complex else Lambda
  }

  function Decode(s: seq<Byte>, bo: ByteOrder): (r: Result<Cmo>)
    ensures r.Ok? ==> |r.rest| < |s|
    decreases |s|, 0
  {
    var h := ReadInt(s, bo);
    if !h.Ok? then Exit else DecodeTag(h.value, h.rest, bo)
  }

  function DecodeTag(tag: int, s: seq<Byte>, bo: ByteOrder): (r: Result<Cmo>)
    ensures r.Ok? ==> |r.rest| <= |s|
    decreases |s|, 1
  {
    if tag in {1, 22, 24} then Ok(Plain(PlainOf(tag)), s)
    else if tag == INT32 then
      var h := ReadInt(s, bo);
      if h.Ok? then Ok(Int32(h.value), h.rest) else Exit
    else if tag == STRING then
      var h := ReadString(s, bo);
      if h.Ok? then Ok(Str(h.value), h.rest) else if h.Exit? then Exit else Outside
    else if tag in {5, 26, 60, 0x7f00_0002} then
      var h := Decode(s, bo);
      if h.Ok? then Ok(Wrapped(WrapOf(tag), h.value), h.rest) else h
    else if tag in {27, 35, 62} then
      var a := Decode(s, bo);
      if !a.Ok? then a else
        var b := Decode(a.rest, bo);
        if b.Ok? then Ok(Pair(PairOf(tag), a.value, b.value), b.rest) else b
    else if tag == TREE then
      var a := Decode(s, bo);
      if !a.Ok? then a else
        var b := Decode(a.rest, bo);
        if !b.Ok? then b else
          var c := Decode(b.rest, bo);
          if c.Ok? then Ok(Tree(a.value, b.value, c.value), c.rest) else c
    else if tag == LIST then
      var h := ReadInt(s, bo);
      if !h.Ok? then Exit else
        var t := DecodeMany(h.value, h.rest, bo);
        if t.Ok? then Ok(List(t.value), t.rest) else if t.Exit? then Exit else Outside
    else if tag == MONOMIAL32 then
      var h := ReadInt(s, bo);
      if !h.Ok? then Exit else
        var e := ReadInts(h.value, h.rest, bo);
        if !e.Ok? then Exit else
          var c := Decode(e.rest, bo);
          if c.Ok? then Ok(Monomial32(e.value, c.value), c.rest) else c
    else if tag == INTEGER then
      var h := ReadMpz(s, bo);
      if h.Ok? then Ok(ZZ(h.value), h.rest) else Exit
    else if tag == RATIONAL then
      var a := ReadMpz(s, bo);
      if !a.Ok? then Exit else
        var b := ReadMpz(a.rest, bo);
        if b.Ok? then Ok(QQ(a.value, b.value), b.rest) else Exit
    else if tag == DISTRIBUTED then
      var h := ReadInt(s, bo);
      if !h.Ok? then Exit else
        var c := Decode(h.rest, bo);
        if !c.Ok? then c else
          var t := DecodeMany(h.value, c.rest, bo);
          if t.Ok? then Ok(Distributed(c.value, t.value), t.rest) else if t.Exit? then Exit else Outside
    else if tag == POLY_IN_ONE then
      var h := ReadInt(s, bo);
      if !h.Ok? then Exit else
        var x := ReadInt(h.rest, bo);
        if !x.Ok? then Exit else
          var t := DecodeTerms(h.value, x.rest, bo);
          if t.Ok? then Ok(PolyInOne(x.value, t.value), t.rest) else if t.Exit? then Exit else Outside
    else if tag == MACHINE_DOUBLE || tag == IEEE_DOUBLE then
      if |s| < 8 then Exit else Ok(Double(InOrder(s[..8], bo)), s[8..])
    else if tag == BIGFLOAT32 then Outside
    else Ok(Missing, s)
  }

  function DecodeMany(n: int, s: seq<Byte>, bo: ByteOrder): (r: Result<seq<Cmo>>)
    ensures r.Ok? ==> |r.rest| <= |s|
    decreases |s|, 2
  {
    if n <= 0 then Ok([], s) else
      var h := Decode(s, bo);
      if h.Exit? then Exit else if h.Outside? then Outside else
        var t := DecodeMany(n - 1, h.rest, bo);
        if t.Ok? then Ok([h.value] + t.value, t.rest) else t
  }

  function DecodeTerms(n: int, s: seq<Byte>, bo: ByteOrder): (r: Result<seq<Term>>)
    ensures r.Ok? ==> |r.rest| <= |s|
    decreases |s|, 2
  {
    if n <= 0 then Ok([], s) else
      var e := ReadInt(s, bo);
      if !e.Ok? then Exit else
        var h := Decode(e.rest, bo);
        if h.Exit? then Exit else if h.Outside? then Outside else
          var t := DecodeTerms(n - 1, h.rest, bo);
          if t.Ok? then Ok([Term(e.value, h.value)] + t.value, t.rest) else t
  }
}
