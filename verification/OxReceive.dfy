/** Receiving objects and messages, and the two loops that drain a connection up to the ball. */
module OxReceive {
  import opened Basics
  import opened Bytes
  import opened BigInt
  import opened CmoCodec
  import opened Connection
  import opened OxSend
  import opened OxStream

  /** One more word turns the specification's result into the next one. */
  lemma ReadWordsStep(n: nat, s: seq<Byte>, bo: ByteOrder)
    requires n > 0
    ensures var h := ReadInt(s, bo);
      var r := ReadWords(n, s, bo);
      (h.Exit? ==> r.Exit?)
      && (h.Ok? ==>
            var t := ReadWords(n - 1, h.rest, bo);
            (t.Exit? ==> r.Exit?)
            && (t.Ok? ==> r == Ok([ToWord(h.value)] + t.value, t.rest)))
  {
    if |s| >= 4 {
      BytesWordRange(s[..4], bo);
    }
    hide BytesWord;
  }

  /** What the specification yields, when the items so far are followed by what it still reads. */
  ghost predicate Continues<T>(d: Result<seq<T>>, items: seq<T>, t: Result<seq<T>>) {
    (t.Exit? ==> d.Exit?) && (t.Outside? ==> d.Outside?) && (t.Ok? ==> d == Ok(items + t.value, t.rest))
  }

  lemma ContinuesFirst<T>(d: Result<seq<T>>)
    ensures Continues(d, [], d)
  {
    if d.Ok? {
      assert [] + d.value == d.value;
    }
  }

  lemma ContinuesNext<T>(d: Result<seq<T>>, items: seq<T>, t: Result<seq<T>>, x: T, u: Result<seq<T>>)
    requires Continues(d, items, t)
    requires t == if u.Ok? then Ok([x] + u.value, u.rest) else u
    ensures Continues(d, items + [x], u)
  {
    if u.Ok? {
      assert items + [x] + u.value == items + ([x] + u.value);
    }
  }

  lemma ContinuesDone<T>(d: Result<seq<T>>, items: seq<T>, s: seq<Byte>)
    requires Continues(d, items, Ok([], s))
    ensures d == Ok(items, s)
  {
    assert items + [] == items;
  }

  lemma WordsNext(d: Result<seq<nat>>, stored: seq<nat>, n: nat, s: seq<Byte>, bo: ByteOrder)
    requires n > 0 && Continues(d, stored, ReadWords(n, s, bo))
    ensures var h := ReadInt(s, bo);
      (h.Exit? ==> d.Exit?)
      && (h.Ok? ==> Continues(d, stored + [ToWord(h.value)], ReadWords(n - 1, h.rest, bo)))
  {
    ReadWordsStep(n, s, bo);
    var h := ReadInt(s, bo);
    if h.Ok? {
      ContinuesNext(d, stored, ReadWords(n, s, bo), ToWord(h.value), ReadWords(n - 1, h.rest, bo));
    }
    hide ReadInt, ReadWords;
  }

  /** Padding the top half-limb with zero does not change the limbs. */
  lemma {:induction false} JoinPad(w: seq<nat>, n: nat)
    requires n == 2 && DigitsIn(w, WORD) && |w| % 2 == 1
    ensures DigitsIn(w + [0], WORD) && Join(w + [0], n) == Join(w, n)
  {
    if |w| > 1 {
      JoinPad(w[2..], n);
      assert (w + [0])[2..] == w[2..] + [0];
    }
  }

  /** The limbs that hold len words. */
  function LimbCount(len: nat, n: nat): nat
    requires LimbWords(n)
  {
    if n == 1 then len else (len + 1) / 2
  }

  /** Memory of whole limbs, the words stored from the bottom and zeros above them. */
  ghost predicate Holds(memory: seq<nat>, w: seq<nat>, n: nat) {
    && LimbWords(n) && |memory| == LimbCount(|w|, n) * n
    && |w| <= |memory| && memory[..|w|] == w
    && forall i :: |w| <= i < |memory| ==> memory[i] == 0
  }

  lemma HeldLimbs(memory: seq<nat>, w: seq<nat>, n: nat)
    requires Holds(memory, w, n) && DigitsIn(w, WORD)
    ensures DigitsIn(memory, WORD) && Join(memory, n) == Join(w, n)
  {
    if n == 2 && |w| % 2 == 1 {
      assert memory == w + [0];
      JoinPad(w, n);
    } else {
      assert memory == w;
    }
  }

  /** Receives the words into memory that was filled with zeros when it was resized. */
  method ReceiveWords(f: OxFile, ptr: array<nat>, len: nat) returns (r: Read<bool>)
    requires f.Valid() && len <= ptr.Length
    modifies f`input, ptr
    ensures var d := ReadWords(len, old(f.input), f.Order32());
      (d.Exit? ==> r.Exited?)
      && (d.Ok? ==> r.Got? && f.input == d.rest && ptr[..len] == d.value)
    ensures forall i :: len <= i < ptr.Length ==> ptr[i] == old(ptr[i])
  {
    ghost var bo := f.Order32();
    ghost var d := ReadWords(len, f.input, bo);
    ContinuesFirst(d);
    var i := 0;
    assert ptr[..i] == [];
    while i < len
      invariant 0 <= i <= len && bo == f.Order32()
      invariant forall k :: len <= k < ptr.Length ==> ptr[k] == old(ptr[k])
      invariant Continues(d, ptr[..i], ReadWords(len - i, f.input, bo))
    {
      WordsNext(d, ptr[..i], len - i, f.input, bo);
      hide *;
      var x :- f.ReceiveInt32();
      ptr[i] := ToWord(x);
      assert ptr[..i + 1] == ptr[..i] + [ToWord(x)];
      i := i + 1;
    }
    ContinuesDone(d, ptr[..i], f.input);
    r := Got(true);
  }

  /** The signed size divided as C divides, rounding toward zero, after stepping away from it. */
  function ResizedTo(size: int, n: nat): (count: nat)
    requires LimbWords(n)
  {
    if n == 1 then Abs(size)
    else if size >= 0 then (size + 1) / n
    else (-(size - 1)) / n
  }

  lemma ResizedCount(size: int, n: nat)
    requires LimbWords(n)
    ensures ResizedTo(size, n) == LimbCount(Abs(size), n)
    ensures LimbCount(Abs(size), n) * n >= Abs(size)
  {
  }

  /** The received integer as the host stores it. */
  ghost predicate StoredValue(m: Mpz, n: nat, v: int) {
    LimbWords(n) && |m.limbs| == Abs(m.size) && DigitsIn(m.limbs, LimbBase(n)) && MpzValue(m, n) == v
  }

  method ReceiveMpz(f: OxFile) returns (r: Read<Mpz>)
    requires f.Valid()
    modifies f`input
    ensures var d := ReadMpz(old(f.input), f.Order32());
      (d.Exit? ==> r.Exited?)
      && (d.Ok? ==> r.Got? && f.input == d.rest && StoredValue(r.value, f.limb, d.value))
  {
    var n := f.limb;
    var size :- f.ReceiveInt32();
    var len := Abs(size);
    var count := ResizedTo(size, n);
    ResizedCount(size, n);
    var ptr := new nat[count * n](_ => 0);
    var received :- ReceiveWords(f, ptr, len);
    ghost var w := ptr[..len];
    assert Holds(ptr[..], w, n);
    HeldLimbs(ptr[..], w, n);
    JoinValue(w, n);
    var limbs := Join(ptr[..], n);
    r := Got(Mpz(if size < 0 then -|limbs| else |limbs|, limbs));
  }

  // ---------- objects ----------

  method ReceiveValue(f: OxFile, ghost bo: ByteOrder) returns (r: Read<int>)
    requires f.Ready(bo)
    modifies f`input
    ensures f.Ready(bo) && f.Agrees(r, ReadMpz(old(f.input), bo))
  {
    var m :- ReceiveMpz(f);
    r := Got(MpzValue(m, f.limb));
  }

  method ReceiveString(f: OxFile, ghost bo: ByteOrder) returns (r: Read<seq<Byte>>)
    requires f.Ready(bo)
    modifies f`input
    ensures f.Ready(bo) && f.Agrees(r, ReadString(old(f.input), bo))
  {
    var len :- f.ReceiveInt32();
    if len < 0 {
      return Undefined;
    }
    var s :- ReceiveAll(f, bo, len);
    r := Got(CString(s));
  }

  /** Each read delivers some of the bytes that are left, at least one. */
  method ReceiveAll(f: OxFile, ghost bo: ByteOrder, len: nat) returns (r: Read<seq<Byte>>)
    requires f.Ready(bo)
    modifies f`input
    ensures f.Ready(bo)
    ensures |old(f.input)| < len ==> r.Exited?
    ensures |old(f.input)| >= len ==> r == Got(old(f.input)[..len]) && f.input == old(f.input)[len..]
  {
    ghost var start := f.input;
    var s: seq<Byte>, i := [], 0;
    while i < len
      invariant 0 <= i <= len && |s| == i && f.Ready(bo)
      invariant start == s + f.input
    {
      if f.input == [] {
        return Exited;
      }
      var n :| 1 <= n <= len - i && n <= |f.input|;
      var got := f.ReadBytes(n);
      s := s + got.value;
      i := i + n;
    }
    assert start[..len] == s && start[len..] == f.input;
    r := Got(s);
  }

  method ReceiveInts(f: OxFile, ghost bo: ByteOrder, len: int) returns (r: Read<seq<int>>)
    requires f.Ready(bo)
    modifies f`input
    ensures f.Ready(bo) && f.Agrees(r, ReadInts(len, old(f.input), bo))
  {
    ghost var d := ReadInts(len, f.input, bo);
    ContinuesFirst(d);
    var xs := [];
    var i := 0;
    while i < len
      invariant 0 <= i && f.Ready(bo)
      invariant Continues(d, xs, ReadInts(len - i, f.input, bo))
    {
      hide ReadInt;
      ghost var t := ReadInts(len - i, f.input, bo);
      var x :- f.ReceiveInt32();
      ContinuesNext(d, xs, t, x, ReadInts(len - i - 1, f.input, bo));
      xs := xs + [x];
      i := i + 1;
    }
    ContinuesDone(d, xs, f.input);
    r := Got(xs);
  }

  method ReceiveCmo(f: OxFile, ghost bo: ByteOrder) returns (r: Read<Cmo>)
    requires f.Ready(bo)
    modifies f`input
    ensures f.Ready(bo) && f.Agrees(r, Decode(old(f.input), bo))
    decreases |f.input|, 0
  {
    var tag :- f.ReceiveInt32();
    r := ReceiveCmoTag(f, bo, tag);
  }

  method ReceiveCmoTag(f: OxFile, ghost bo: ByteOrder, tag: int) returns (r: Read<Cmo>)
    requires f.Ready(bo)
    modifies f`input
    ensures f.Ready(bo) && f.Agrees(r, DecodeTag(tag, old(f.input), bo))
    decreases |f.input|, 2
  {
    hide ReadInt, ReadMpz, ReadString, Decode;
    if tag in {1, 22, 24} {
      r := Got(Plain(PlainOf(tag)));
    } else if tag == INT32 {
      var i :- f.ReceiveInt32();
      r := Got(Int32(i));
    } else if tag == STRING {
      var s :- ReceiveString(f, bo);
      r := Got(Str(s));
    } else if tag in {5, 26, 60, 0x7f00_0002} {
      r := ReceiveWrapped(f, bo, tag);
    } else if tag in {27, 35, 62} {
      r := ReceivePair(f, bo, tag);
    } else if tag == TREE {
      r := ReceiveTree(f, bo);
    } else if tag == LIST {
      r := ReceiveList(f, bo);
    } else if tag == MONOMIAL32 {
      r := ReceiveMonomial32(f, bo);
    } else if tag == INTEGER {
      var v :- ReceiveValue(f, bo);
      r := Got(ZZ(v));
    } else if tag == RATIONAL {
      r := ReceiveRational(f, bo);
    } else if tag == DISTRIBUTED {
      r := ReceiveDistributed(f, bo);
    } else if tag == POLY_IN_ONE {
      r := ReceivePolyInOne(f, bo);
    } else if tag == MACHINE_DOUBLE || tag == IEEE_DOUBLE {
      var d :- f.ReceiveDouble();
      r := Got(Double(d));
    } else if tag == BIGFLOAT32 {
      r := Undefined;
    } else {
      r := Got(Missing);
    }
  }

  method ReceiveWrapped(f: OxFile, ghost bo: ByteOrder, tag: int) returns (r: Read<Cmo>)
    requires f.Ready(bo) && tag in {5, 26, 60, 0x7f00_0002}
    modifies f`input
    ensures f.Ready(bo) && f.Agrees(r, DecodeTag(tag, old(f.input), bo))
    decreases |f.input|, 1
  {
    hide Decode;
    var ob :- ReceiveCmo(f, bo);
    r := Got(Wrapped(WrapOf(tag), ob));
  }

  method ReceivePair(f: OxFile, ghost bo: ByteOrder, tag: int) returns (r: Read<Cmo>)
    requires f.Ready(bo) && tag in {27, 35, 62}
    modifies f`input
    ensures f.Ready(bo) && f.Agrees(r, DecodeTag(tag, old(f.input), bo))
    decreases |f.input|, 1
  {
    hide Decode;
    var a :- ReceiveCmo(f, bo);
    var b :- ReceiveCmo(f, bo);
    r := Got(Pair(PairOf(tag), a, b));
  }

  method ReceiveTree(f: OxFile, ghost bo: ByteOrder) returns (r: Read<Cmo>)
    requires f.Ready(bo)
    modifies f`input
    ensures f.Ready(bo) && f.Agrees(r, DecodeTag(TREE, old(f.input), bo))
    decreases |f.input|, 1
  {
    hide Decode;
    var name :- ReceiveCmo(f, bo);
    var attributes :- ReceiveCmo(f, bo);
    var leaves :- ReceiveCmo(f, bo);
    r := Got(Tree(name, attributes, leaves));
  }

  method ReceiveRational(f: OxFile, ghost bo: ByteOrder) returns (r: Read<Cmo>)
    requires f.Ready(bo)
    modifies f`input
    ensures f.Ready(bo) && f.Agrees(r, DecodeTag(RATIONAL, old(f.input), bo))
  {
    hide ReadMpz;
    var num :- ReceiveValue(f, bo);
    var den :- ReceiveValue(f, bo);
    r := Got(QQ(num, den));
  }

  method ReceiveItems(f: OxFile, ghost bo: ByteOrder, n: int) returns (r: Read<seq<Cmo>>)
    requires f.Ready(bo)
    modifies f`input
    ensures f.Ready(bo) && f.Agrees(r, DecodeMany(n, old(f.input), bo))
    decreases |f.input|, 1
  {
    ghost var d := DecodeMany(n, f.input, bo);
    ContinuesFirst(d);
    var items := [];
    var len := n;
    while len > 0
      invariant f.Ready(bo) && |f.input| <= old(|f.input|)
      invariant Continues(d, items, DecodeMany(len, f.input, bo))
    {
      hide Decode;
      ghost var t := DecodeMany(len, f.input, bo);
      var ob :- ReceiveCmo(f, bo);
      ContinuesNext(d, items, t, ob, DecodeMany(len - 1, f.input, bo));
      items := items + [ob];
      len := len - 1;
    }
    ContinuesDone(d, items, f.input);
    r := Got(items);
  }

  method ReceiveList(f: OxFile, ghost bo: ByteOrder) returns (r: Read<Cmo>)
    requires f.Ready(bo)
    modifies f`input
    ensures f.Ready(bo) && f.Agrees(r, DecodeTag(LIST, old(f.input), bo))
    decreases |f.input|, 1
  {
    hide DecodeMany;
    var len :- f.ReceiveInt32();
    var items :- ReceiveItems(f, bo, len);
    r := Got(List(items));
  }

  method ReceiveMonomial32(f: OxFile, ghost bo: ByteOrder) returns (r: Read<Cmo>)
    requires f.Ready(bo)
    modifies f`input
    ensures f.Ready(bo) && f.Agrees(r, DecodeTag(MONOMIAL32, old(f.input), bo))
    decreases |f.input|, 1
  {
    hide Decode, ReadInts;
    var len :- f.ReceiveInt32();
    var exps :- ReceiveInts(f, bo, len);
    var coef :- ReceiveCmo(f, bo);
    r := Got(Monomial32(exps, coef));
  }

  method ReceiveDistributed(f: OxFile, ghost bo: ByteOrder) returns (r: Read<Cmo>)
    requires f.Ready(bo)
    modifies f`input
    ensures f.Ready(bo) && f.Agrees(r, DecodeTag(DISTRIBUTED, old(f.input), bo))
    decreases |f.input|, 1
  {
    hide Decode, DecodeMany;
    var len :- f.ReceiveInt32();
    var ringdef :- ReceiveCmo(f, bo);
    var items :- ReceiveItems(f, bo, len);
    r := Got(Distributed(ringdef, items));
  }

  method ReceiveTerms(f: OxFile, ghost bo: ByteOrder, n: int) returns (r: Read<seq<Term>>)
    requires f.Ready(bo)
    modifies f`input
    ensures f.Ready(bo) && f.Agrees(r, DecodeTerms(n, old(f.input), bo))
    decreases |f.input|, 1
  {
    ghost var d := DecodeTerms(n, f.input, bo);
    ContinuesFirst(d);
    var terms := [];
    var len := n;
    while len > 0
      invariant f.Ready(bo) && |f.input| <= old(|f.input|)
      invariant Continues(d, terms, DecodeTerms(len, f.input, bo))
    {
      hide Decode;
      ghost var t := DecodeTerms(len, f.input, bo);
      var exp :- f.ReceiveInt32();
      var coef :- ReceiveCmo(f, bo);
      ContinuesNext(d, terms, t, Term(exp, coef), DecodeTerms(len - 1, f.input, bo));
      terms := terms + [Term(exp, coef)];
      len := len - 1;
    }
    ContinuesDone(d, terms, f.input);
    r := Got(terms);
  }

  method ReceivePolyInOne(f: OxFile, ghost bo: ByteOrder) returns (r: Read<Cmo>)
    requires f.Ready(bo)
    modifies f`input
    ensures f.Ready(bo) && f.Agrees(r, DecodeTag(POLY_IN_ONE, old(f.input), bo))
    decreases |f.input|, 1
  {
    hide DecodeTerms;
    var len :- f.ReceiveInt32();
    var variable :- f.ReceiveInt32();
    var terms :- ReceiveTerms(f, bo, len);
    r := Got(PolyInOne(variable, terms));
  }
}
