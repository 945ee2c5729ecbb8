/** Reading a limb-array integer from text, and reading back what was printed. */
module GmpRead {
  import opened Basics
  import opened BigInt
  import opened GmpFake
  import opened Numeral

  // ---------- one digit ----------

  /** The limbs below i have been multiplied, res is carried into limb i. */
  ghost predicate Multiplying(was: seq<nat>, now: seq<nat>, i: nat, res: nat, base: nat, c: nat) {
    && |was| == |now| && i <= |was| && res < base && DigitsIn(now, WORD)
    && now[i..] == was[i..]
    && Value(now[..i], WORD) + Power(WORD, i) * res == base * Value(was[..i], WORD) + c
  }

  lemma {:induction false} ValueSnoc(d: seq<nat>, i: nat)
    requires i < |d|
    ensures Value(d[..i + 1], WORD) == Value(d[..i], WORD) + Power(WORD, i) * d[i]
  {
    if i == 0 {
      assert d[..1] == [d[0]] && d[..1][1..] == [] && d[..0] == [];
    } else {
      ValueSnoc(d[1..], i - 1);
      assert d[1..][..i] == d[..i + 1][1..] && d[1..][..i - 1] == d[..i][1..];
      ValueStep(d[..i + 1], WORD);
      ValueStep(d[..i], WORD);
      var p := Power(WORD, i - 1);
      assert Power(WORD, i) == WORD * p;
      assert WORD * (p * d[i]) == (WORD * p) * d[i];
      hide Power, Value;
    }
  }

  lemma MultiplyNone(was: seq<nat>, base: nat, c: nat)
    requires DigitsIn(was, WORD) && c < base
    ensures Multiplying(was, was, 0, c, base, c)
  {
    assert was[..0] == [];
  }

  /** The product of a limb and the base, with the carry, fits 64 bits. */
  lemma MultiplyLimb(was: seq<nat>, now: seq<nat>, i: nat, res: nat, base: nat, c: nat)
    requires IsBase(base) && i < |was| && Multiplying(was, now, i, res, base, c)
    ensures |now| == |was|
    ensures var uu := now[i] * base + res;
      0 <= uu < WORD * WORD
      && Multiplying(was, now[i := uu % WORD], i + 1, uu / WORD, base, c)
  {
    var x := now[i];
    var uu := x * base + res;
    var next := now[i := uu % WORD];
    assert now[i..][0] == was[i..][0];
    assert next[i + 1..] == now[i..][1..] == was[i + 1..];
    assert next[..i] == now[..i];
    CarryBound(x, res, base);
    ValueSnoc(next, i);
    ValueSnoc(was, i);
    CarryStep(Value(now[..i], WORD), Value(was[..i], WORD), Power(WORD, i), x, res, base, c);
    assert Power(WORD, i + 1) == WORD * Power(WORD, i);
    hide Value, Power;
  }

  lemma CarryBound(x: nat, res: nat, base: nat)
    requires IsBase(base) && x < WORD && res < base
    ensures x * base + res < WORD * base <= WORD * WORD
    ensures (x * base + res) / WORD < base
  {
    assert x * base <= (WORD - 1) * base;
    var uu := x * base + res;
    QuotientRemainder(uu, WORD);
    var q := uu / WORD;
    assert q >= base ==> WORD * q >= WORD * base;
  }

  lemma CarryStep(low: nat, old': nat, p: nat, x: nat, res: nat, base: nat, c: nat)
    requires low + p * res == base * old' + c
    ensures var uu := x * base + res;
      low + p * (uu % WORD) + (WORD * p) * (uu / WORD) == base * (old' + p * x) + c
  {
    var uu := x * base + res;
    QuotientRemainder(uu, WORD);
    var q, r := uu / WORD, uu % WORD;
    assert p * (r + WORD * q) == p * r + (WORD * p) * q by {
      assert p * (WORD * q) == (WORD * p) * q;
    }
    assert p * (x * base + res) == base * (p * x) + p * res by {
      assert p * (x * base) == base * (p * x);
    }
    assert base * (old' + p * x) == base * old' + base * (p * x);
  }

  lemma MultiplyDone(was: seq<nat>, now: seq<nat>, res: nat, base: nat, c: nat)
    requires Multiplying(was, now, |was|, res, base, c)
    ensures DigitsIn(now, WORD)
    ensures Value(now, WORD) == PushDigit(Value(was, WORD), base, c, Power(WORD, |was|))
  {
    MultiplyEnd(was, now, res, base, c);
    hide *;
    ValueBelow(now);
    ReducedIs(Value(was, WORD), base, c, Power(WORD, |was|), res, Value(now, WORD));
  }

  lemma MultiplyEnd(was: seq<nat>, now: seq<nat>, res: nat, base: nat, c: nat)
    requires Multiplying(was, now, |was|, res, base, c)
    ensures |now| == |was| && DigitsIn(now, WORD)
    ensures Value(now, WORD) + Power(WORD, |was|) * res == base * Value(was, WORD) + c
  {
    assert now[..|was|] == now && was[..|was|] == was;
    hide Value, Power;
  }

  lemma ReducedIs(v: nat, base: nat, c: nat, m: nat, q: nat, r: nat)
    requires r < m && r + m * q == base * v + c
    ensures PushDigit(v, base, c, m) == r
  {
    assert v * base == base * v;
    DivisionUnique(v * base + c, m, q, r);
  }

  /** z becomes z * base + c, reduced to the limbs it has. */
  method MultiplyAdd(z: Mpz, base: nat, c: nat)
    requires z.Valid() && IsBase(base) && c < base
    modifies z.d
    ensures z.Valid() && z.Magnitude() == PushDigit(old(z.Magnitude()), base, c, Power(WORD, Abs(z.size)))
  {
    var size := Abs(z.size);
    ghost var was := z.d[..size];
    var res: nat := c;
    MultiplyNone(was, base, c);
    var i := 0;
    while i < size
      invariant 0 <= i <= size && Multiplying(was, z.d[..size], i, res, base, c)
    {
      label Limb:
      MultiplyLimb(was, z.d[..size], i, res, base, c);
      hide Multiplying;
      assert z.d[..size][i] == z.d[i];
      var uu: nat := z.d[i] * base + res;
      res := uu / WORD;
      z.d[i] := uu % WORD;
      assert z.d[..size] == old@Limb(z.d[..size])[i := uu % WORD];
      i := i + 1;
    }
    MultiplyDone(was, z.d[..size], res, base, c);
  }

  // ---------- the whole text ----------

  /** The character at i; the text ends with a zero byte. */
  function CharAt(s: string, i: nat): char {
    if i < |s| then s[i] else '\0'
  }

  /** The first position from i on that is no space. */
  function AfterSpace(s: string, i: nat): (j: nat)
    requires i <= |s|
    ensures i <= j <= |s|
    decreases |s| - i
  {
    if i < |s| && IsSpace(s[i]) then AfterSpace(s, i + 1) else i
  }

  /** The sign, the base and the position of the first digit. */
  datatype Start = Start(negative: bool, base: nat, at: nat)

  function StartOf(s: string, base: nat): (st: Start)
    ensures base != 0 ==> st.base == base
    ensures base == 0 ==> IsBase(st.base)
  {
    var i := AfterSpace(s, 0);
    var negative := CharAt(s, i) == '-';
    var j := if negative || CharAt(s, i) == '+' then i + 1 else i;
    if (base == 0 || base == 16) && CharAt(s, j) == '0' && (CharAt(s, j + 1) == 'x' || CharAt(s, j + 1) == 'X') then
      Start(negative, 16, j + 2)
    else
      Start(negative, if base == 0 then if CharAt(s, j) == '0' then 8 else 10 else base, j)
  }

  /** The limbs reserved for the characters from the first digit on. */
  function Reserved(s: string, st: Start): nat
    requires st.at < |s|
  {
    (if st.base == 8 then 3 else 4) * (|s| - st.at) / 32 + 1
  }

  /** The text goes on after the prefix, and when a digit is there, the limbs in use are reserved:
      otherwise the program reads past the end of the text or of the limbs. */
  predicate InBounds(s: string, st: Start, n: nat) {
    st.at < |s| && (IsDigitAt(s, st) ==> n <= Reserved(s, st))
  }

  predicate IsDigitAt(s: string, st: Start) { 0 <= DigitValue(CharAt(s, st.at)) < st.base }

  method SkipSpace(s: string) returns (i: nat)
    ensures i == AfterSpace(s, 0)
  {
    i := 0;
    while i < |s| && IsSpace(s[i])
      invariant i <= |s| && AfterSpace(s, 0) == AfterSpace(s, i)
    {
      i := i + 1;
    }
  }

  method FindStart(s: string, base: nat) returns (st: Start)
    ensures st == StartOf(s, base)
  {
    var t := SkipSpace(s);
    var c := CharAt(s, t);
    var neg, b := false, base;
    if c == '-' {
      neg := true;
      t := t + 1;
      c := CharAt(s, t);
    } else if c == '+' {
      t := t + 1;
      c := CharAt(s, t);
    }
    if (b == 0 || b == 16) && c == '0' && (CharAt(s, t + 1) == 'x' || CharAt(s, t + 1) == 'X') {
      t := t + 2;
      c := CharAt(s, t);
      b := 16;
    }
    if b == 0 {
      b := if c == '0' then 8 else 10;
    }
    st := Start(neg, b, t);
  }

  /** Reads the number, reduced to the limbs of the target, whose count stays as it is.  Without a
      digit nothing is read, and fewer limbs than the count says may be left. */
  method SetStr(z: Mpz, s: string, base: nat) returns (ok: bool)
    requires z.Valid() && (base == 0 || IsBase(base))
    modifies z, z.d
    ensures var st := StartOf(s, base);
      ok == InBounds(s, st, Abs(old(z.size)))
      && (ok ==>
            && Abs(z.size) == Abs(old(z.size)) && (z.size < 0 <==> st.negative && z.size != 0)
            && IsBase(st.base) && st.at < |s| && z.d.Length == Reserved(s, st))
      && (ok && Abs(z.size) <= Reserved(s, st) ==>
            z.Valid() && z.Magnitude() == ReadFrom(s, st.at, st.base, 0, Power(WORD, Abs(z.size))))
      && (ok && Abs(z.size) > Reserved(s, st) ==>
            !IsDigitAt(s, st) && forall i :: 0 <= i < z.d.Length ==> z.d[i] == 0)
  {
    var st := FindStart(s, base);
    var size := Abs(z.size);
    z.Clear();
    if !(st.at < |s|) {
      return false;
    }
    var len := (if st.base == 8 then 3 else 4) * (|s| - st.at) / 32 + 1;
    z.Realloc(len);
    if len < size {
      ok := !(0 <= DigitValue(CharAt(s, st.at)) < st.base);
    } else {
      ZeroValue(z.d[..size], WORD);
      ReadLoop(z, s, st);
      ok := true;
    }
    if st.negative {
      z.size := -z.size;
    }
  }

  method ReadLoop(z: Mpz, s: string, st: Start)
    requires z.Valid() && z.Magnitude() == 0 && st.at <= |s| && IsBase(st.base)
    modifies z.d
    ensures z.Valid()
    ensures z.Magnitude() == ReadFrom(s, st.at, st.base, 0, Power(WORD, Abs(z.size)))
  {
    ghost var m := Power(WORD, Abs(z.size));
    ghost var total := ReadFrom(s, st.at, st.base, 0, m);
    var t := st.at;
    LimbBound(z);
    while true
      invariant t <= |s| && z.Valid() && z.Magnitude() < m
      invariant total == ReadFrom(s, t, st.base, z.Magnitude(), m)
      decreases |s| - t
    {
      var c := DigitValue(CharAt(s, t));
      if c < 0 || c >= st.base {
        break;
      }
      MultiplyAdd(z, st.base, c);
      LimbBound(z);
      t := t + 1;
    }
  }

  // ---------- printed text ----------

  /** Where the first digit of a printed magnitude stands. */
  function FirstAt(negative: bool, v: nat, base: nat): nat {
    (if negative then 1 else 0) + (if base == 16 && v > 0 then 2 else 0)
  }

  /** The text read for a printed magnitude: in base eight its prefix is one more digit. */
  function DigitsRead(v: nat, base: nat): string
    requires IsBase(base)
  {
    if v == 0 then ['0'] else if base == 8 then ['0'] + Digits(v, base) else Digits(v, base)
  }

  /** The magnitude text m stands in s after k characters of sign. */
  ghost predicate SignedText(s: string, negative: bool, k: nat, m: string) {
    && k == (if negative then 1 else 0) && |s| == k + |m| && m != ""
    && (negative ==> s[0] == '-')
    && forall j :: 0 <= j < |m| ==> s[k + j] == m[j]
  }

  lemma TextShape(negative: bool, v: nat, base: nat)
    requires IsBase(base)
    ensures var m := MagnitudeText(v, base);
      SignedText(Text(negative, v, base), negative, if negative then 1 else 0, m)
  {
    hide Digits;
  }

  predicate Hex(told: nat, m: string) {
    (told == 0 || told == 16) && |m| > 1 && m[0] == '0' && (m[1] == 'x' || m[1] == 'X')
  }

  lemma StartOfSigned(s: string, negative: bool, k: nat, m: string, told: nat)
    requires SignedText(s, negative, k, m)
    requires m[0] != '-' && m[0] != '+' && !IsSpace(m[0])
    ensures StartOf(s, told) == if Hex(told, m) then Start(negative, 16, k + 2)
      else Start(negative, if told == 0 then if m[0] == '0' then 8 else 10 else told, k)
  {
    assert s[k + 0] == m[0];
    assert |m| > 1 ==> s[k + 1] == m[1];
    assert AfterSpace(s, 0) == 0;
  }

  /** The magnitude text by its first characters. */
  lemma MagnitudeStart(v: nat, base: nat, told: nat)
    requires IsBase(base) && (told == base || told == 0)
    ensures var m := MagnitudeText(v, base);
      && m != "" && m[0] != '-' && m[0] != '+' && !IsSpace(m[0])
      && (Hex(told, m) <==> base == 16 && v > 0)
      && (v > 0 ==> (m[0] == '0' <==> base != 10))
      && (v == 0 ==> m[0] == '0')
  {
    if v > 0 {
      FirstDigitOf(v, base);
    }
    hide Digits;
  }

  /** How the reader takes a printed text, told its base or left to find it. */
  lemma StartOfText(negative: bool, v: nat, base: nat, told: nat)
    requires IsBase(base) && (told == base || told == 0)
    ensures var st := StartOf(Text(negative, v, base), told);
      && st.negative == negative && st.at == FirstAt(negative, v, base)
      && (v > 0 ==> st.base == base) && IsBase(st.base)
  {
    TextShape(negative, v, base);
    MagnitudeStart(v, base, told);
    var k := if negative then 1 else 0;
    StartOfSigned(Text(negative, v, base), negative, k, MagnitudeText(v, base), told);
    hide Text, MagnitudeText, StartOf, IsSpace, Hex;
  }

  lemma DigitsFollow(negative: bool, v: nat, base: nat)
    requires IsBase(base)
    ensures var s, at := Text(negative, v, base), FirstAt(negative, v, base);
      at < |s| && s[at..] == DigitsRead(v, base)
  {
    hide Digits;
  }

  lemma FirstDigitOf(v: nat, base: nat)
    requires IsBase(base) && v > 0
    ensures var c := Digits(v, base)[0];
      c != '0' && c != '-' && c != '+' && c != 'x' && c != 'X' && c != '\0' && !IsSpace(c)
  {
    LeadingDigit(v, base);
    var d: nat :| 0 < d < base && Digits(v, base)[0] == DigitChar(d);
    DigitCharValue(d);
    hide DigitChar;
  }

  /** A number that needs n limbs is printed with enough digits for n limbs to be reserved. */
  lemma PrintedReserves(v: nat, n: nat, base: nat, length: nat)
    requires IsBase(base) && (n <= 1 || v >= Power(WORD, n - 1)) && length >= |Digits(v, base)|
    ensures n <= (if base == 8 then 3 else 4) * length / 32 + 1
  {
    if n > 1 {
      DigitsFill(v, n, base);
    }
    hide Digits, Power;
  }

  /** The digits read, from their position to the end of the text. */
  lemma ReadDigitsRead(s: string, at: nat, v: nat, base: nat, m: nat)
    requires IsBase(base) && v < m && at <= |s| && s[at..] == DigitsRead(v, base)
    ensures ReadFrom(s, at, base, 0, m) == v
  {
    var lead := if v == 0 || base == 8 then 1 else 0;
    if lead == 1 {
      assert s[at] == s[at..][0] == DigitChar(0);
      ReadOne(s, at, base, 0, m, 0);
      PushSmall(0, base, 0, 0, m);
    }
    AtEnd(s, at, lead, v, base);
    ReadDigits(s, at + lead, v, base, m);
    hide Digits, DigitsRead, PushDigit;
  }

  lemma AtEnd(s: string, at: nat, lead: nat, v: nat, base: nat)
    requires IsBase(base) && at <= |s| && s[at..] == DigitsRead(v, base)
    requires lead == if v == 0 || base == 8 then 1 else 0
    ensures At(s, at + lead, Digits(v, base)) && at + lead + |Digits(v, base)| == |s|
  {
    assert s[at + lead..] == s[at..][lead..] == Digits(v, base);
    hide Digits;
  }

  /** The limbs for which a printed number has digits. */
  function DigitLimbs(v: nat, base: nat): nat
    requires IsBase(base)
  {
    (if base == 8 then 3 else 4) * |DigitsRead(v, base)| / 32 + 1
  }

  /** What is printed is read back into a target of n limbs, the reader told the base or left to
      find it: sign and value are those of every number that n limbs hold, and the reader stays in
      bounds exactly when n is at most the limbs for which there are digits. */
  lemma PrintedReadsBackIff(negative: bool, v: nat, n: nat, base: nat, told: nat)
    requires IsBase(base) && (told == base || told == 0) && v < Power(WORD, n)
    ensures var s, st := Text(negative, v, base), StartOf(Text(negative, v, base), told);
      && st.negative == negative && st.at < |s|
      && ReadFrom(s, st.at, st.base, 0, Power(WORD, n)) == v
      && (InBounds(s, st, n) <==> n <= DigitLimbs(v, base))
  {
    var s, st := Text(negative, v, base), StartOf(Text(negative, v, base), told);
    StartOfText(negative, v, base, told);
    DigitsFollow(negative, v, base);
    DigitsReadBase(v, base, st.base);
    ReadDigitsRead(s, st.at, v, st.base, Power(WORD, n));
    BoundsAre(s, st, v, n, base);
    hide *;
  }

  /** The text after the prefix is the digits; a zero reserves one limb in any base. */
  lemma BoundsAre(s: string, st: Start, v: nat, n: nat, base: nat)
    requires IsBase(base) && IsBase(st.base) && st.at < |s|
    requires s[st.at..] == DigitsRead(v, base) && (v > 0 ==> st.base == base)
    ensures InBounds(s, st, n) <==> n <= DigitLimbs(v, base)
  {
    assert |s| - st.at == |DigitsRead(v, base)|;
    assert s[st.at] == s[st.at..][0];
    FirstRead(v, base, st.base);
    hide Digits, DigitsRead, DigitValue;
  }

  /** The first character read is a digit. */
  lemma FirstRead(v: nat, base: nat, base': nat)
    requires IsBase(base) && IsBase(base') && (v > 0 ==> base' == base)
    ensures DigitsRead(v, base) != "" && 0 <= DigitValue(DigitsRead(v, base)[0]) < base'
  {
    if v > 0 && base != 8 {
      LeadingDigit(v, base);
      var d: nat :| 0 < d < base && Digits(v, base)[0] == DigitChar(d);
      DigitCharValue(d);
    }
    hide Digits, DigitChar;
  }

  lemma DigitsReadBase(v: nat, base: nat, base': nat)
    requires IsBase(base) && IsBase(base') && (v > 0 ==> base' == base)
    ensures DigitsRead(v, base) == DigitsRead(v, base')
    ensures |DigitsRead(v, base)| >= |Digits(v, base')|
  {
  }

  /** So every number that uses all its limbs is read back. */
  lemma PrintedReadsBack(negative: bool, v: nat, n: nat, base: nat, told: nat)
    requires IsBase(base) && (told == base || told == 0)
    requires v < Power(WORD, n) && (n <= 1 || v >= Power(WORD, n - 1))
    ensures var s, st := Text(negative, v, base), StartOf(Text(negative, v, base), told);
      && InBounds(s, st, n) && st.negative == negative
      && ReadFrom(s, st.at, st.base, 0, Power(WORD, n)) == v
  {
    PrintedReadsBackIff(negative, v, n, base, told);
    DigitsReadBase(v, base, base);
    PrintedReserves(v, n, base, |DigitsRead(v, base)|);
    hide Digits, Text, StartOf, InBounds, ReadFrom, Power, DigitsRead;
  }

  /** And a number of fewer than eight digits held in two limbs or more runs past the one limb
      reserved for it. */
  lemma PaddedOverruns(negative: bool, v: nat, n: nat, base: nat, told: nat)
    requires IsBase(base) && (told == base || told == 0) && v < Power(WORD, n)
    requires n >= 2 && |DigitsRead(v, base)| < 8
    ensures !InBounds(Text(negative, v, base), StartOf(Text(negative, v, base), told), n)
  {
    PrintedReadsBackIff(negative, v, n, base, told);
    hide DigitsRead, Text, StartOf, InBounds, ReadFrom, Power;
  }

  /** Zero is the smallest case. */
  lemma PaddedZeroOverruns(negative: bool, n: nat, base: nat, told: nat)
    requires IsBase(base) && (told == base || told == 0) && n >= 2
    ensures !InBounds(Text(negative, 0, base), StartOf(Text(negative, 0, base), told), n)
  {
    PaddedOverruns(negative, 0, n, base, told);
    hide InBounds, StartOf, Text;
  }
}
