/** Limb-array integers: copying, printing and reading. */
module GmpFake {
  import opened Basics
  import opened BigInt
  import opened Numeral

  /** The size carries the sign; the limbs past it are not used. */
  class Mpz {
    var size: int
    var d: array<nat>

    ghost predicate Valid()
      reads this, d
    {
      Abs(size) <= d.Length && DigitsIn(d[..Abs(size)], WORD)
    }

    ghost function Magnitude(): nat
      requires Valid()
      reads this, d
    {
      Value(d[..Abs(size)], WORD)
    }

    constructor ()
      ensures Valid() && size == 1 && d.Length == 1 && fresh(d) && Magnitude() == 0
    {
      size := 1;
      d := new nat[1](_ => 0);
      new;
      assert d[..1] == [0];
      ZeroValue(d[..1], WORD);
    }

    method Clear()
      requires Valid()
      modifies this`size, d
      ensures Valid() && size == Abs(old(size)) && Magnitude() == 0
      ensures forall i :: 0 <= i < size ==> d[i] == 0
    {
      size := Abs(size);
      forall i | 0 <= i < size {
        d[i] := 0;
      }
      ZeroValue(d[..size], WORD);
    }

    /** Keeps the limbs that fit. */
    method Realloc(n: nat)
      modifies this`d
      ensures fresh(d) && d.Length == n
      ensures forall i :: 0 <= i < n && i < old(d.Length) ==> d[i] == old(d[i])
    {
      var p := new nat[n](_ => 0);
      forall i | 0 <= i < n && i < d.Length {
        p[i] := d[i];
      }
      d := p;
    }

    /** Copies the value and the sign; the number of limbs never shrinks. Copying an integer onto
        itself loses it: its limbs and its sign are cleared before they are read. */
    method Set(src: Mpz)
      requires Valid() && src.Valid() && (src != this ==> src.d != d)
      modifies this`size, this`d, d
      ensures Valid() && (d == old(d) || fresh(d))
      ensures src != this ==> Magnitude() == src.Magnitude() && (size < 0 <==> src.size < 0 && size != 0)
      ensures src != this ==> Abs(size) == if Abs(old(size)) < Abs(src.size) then Abs(src.size) else Abs(old(size))
      ensures src == this ==> Magnitude() == 0 && size == Abs(old(size))
    {
      hide Value;
      var dsize: int, ssize: int := Abs(size), Abs(src.size);
      if dsize < ssize {
        Realloc(ssize);
        size := src.size;
      } else {
        Clear();
        size := if src.size < 0 then -dsize else dsize;
      }
      forall i | 0 <= i < ssize {
        d[i] := src.d[i];
      }
      if src != this {
        ValuePadded(src.d[..ssize], d[..Abs(size)], WORD);
      } else {
        ZeroValue(d[..Abs(size)], WORD);
      }
    }

    /** One division in place: the limbs become the quotient. */
    method DivideBy(base: nat) returns (res: nat)
      requires Valid() && IsBase(base)
      modifies d
      ensures Valid() && res < base && old(Magnitude()) == base * Magnitude() + res
    {
      var n: int := Abs(size);
      ghost var was := d[..n];
      res := 0;
      DivideNone(was, base);
      var j: int := n - 1;
      while j >= 0
        invariant -1 <= j < n && Dividing(was, d[..n], j + 1, res, base)
      {
        label Limb:
        DivideLimb(was, d[..n], j, res, base);
        hide Dividing;
        var uu := WORD * res + d[j];
        res := uu % base;
        d[j] := uu / base;
        assert d[..n] == old@Limb(d[..n])[j := uu / base];
        j := j - 1;
      }
      DivideDone(was, d[..n], res, base);
    }
  }

  /** The limbs from j on have been divided and leave res. */
  ghost predicate Dividing(was: seq<nat>, now: seq<nat>, j: nat, res: nat, base: nat) {
    && |was| == |now| && j <= |was| && res < base && DigitsIn(now, WORD)
    && now[..j] == was[..j]
    && Value(was[j..], WORD) == base * Value(now[j..], WORD) + res
  }

  lemma DivideNone(was: seq<nat>, base: nat)
    requires DigitsIn(was, WORD) && base > 0
    ensures Dividing(was, was, |was|, 0, base)
  {
    assert was[|was|..] == [];
  }

  lemma DivideDone(was: seq<nat>, now: seq<nat>, res: nat, base: nat)
    requires Dividing(was, now, 0, res, base)
    ensures res < base && DigitsIn(now, WORD) && Value(was, WORD) == base * Value(now, WORD) + res
  {
    assert was[0..] == was && now[0..] == now;
  }

  /** The two-limb dividend fits 64 bits, its quotient fits one limb. */
  lemma DivideLimb(was: seq<nat>, now: seq<nat>, j: nat, res: nat, base: nat)
    requires IsBase(base) && j < |was| && Dividing(was, now, j + 1, res, base)
    ensures |now| == |was| && 0 <= WORD * res + now[j] < WORD * WORD
    ensures var uu := WORD * res + now[j];
      Dividing(was, now[j := uu / base], j, uu % base, base)
  {
    var uu := WORD * res + now[j];
    LimbQuotient(res, now[j], base);
    var high, next := now[j + 1..], now[j := uu / base];
    assert now[..j + 1][j] == was[..j + 1][j];
    assert next[..j] == now[..j + 1][..j] == was[..j];
    assert next[j..][1..] == high && was[j..][1..] == was[j + 1..];
    ValueStep(was[j..], WORD);
    ValueStep(next[j..], WORD);
    DivisionStep(now[j], Value(was[j + 1..], WORD), Value(high, WORD), res, base);
    hide Value;
  }

  lemma {:induction false} ZeroValue(s: seq<nat>, base: nat)
    requires forall i :: 0 <= i < |s| ==> s[i] == 0
    ensures Value(s, base) == 0
  {
    if s != [] {
      ZeroValue(s[1..], base);
    }
  }

  lemma {:induction false} ValuePadded(s: seq<nat>, t: seq<nat>, base: nat)
    requires |s| <= |t| && forall i :: 0 <= i < |t| ==> t[i] == if i < |s| then s[i] else 0
    ensures Value(t, base) == Value(s, base)
  {
    if s == [] {
      ZeroValue(t, base);
    } else {
      ValuePadded(s[1..], t[1..], base);
    }
  }

  /** The two-limb dividend fits 64 bits and its quotient fits one limb. */
  lemma LimbQuotient(res: nat, x: nat, base: nat)
    requires IsBase(base) && res < base && x < WORD
    ensures 0 <= WORD * res + x < WORD * WORD
    ensures (WORD * res + x) / base < WORD
  {
    var uu := WORD * res + x;
    assert uu < WORD * base;
    QuotientRemainder(uu, base);
    var q := uu / base;
    assert q >= WORD ==> base * q >= base * WORD;
  }

  lemma DivisionStep(x: nat, high: nat, q: nat, res: nat, base: nat)
    requires base > 0 && high == base * q + res
    ensures var uu := WORD * res + x;
      x + WORD * high == base * (uu / base + WORD * q) + uu % base
  {
    var uu := WORD * res + x;
    QuotientRemainder(uu, base);
    assert WORD * (base * q) == base * (WORD * q);
    assert base * (uu / base + WORD * q) == base * (uu / base) + base * (WORD * q);
  }

  // ---------- printing ----------

  /** The text of a magnitude: a bare zero, or digits after the base's prefix. */
  function MagnitudeText(v: nat, base: nat): string
    requires IsBase(base)
  {
    if v == 0 then ['0']
    else if base == 8 then ['0'] + Digits(v, base)
    else if base == 16 then ['0'] + (['x'] + Digits(v, base))
    else Digits(v, base)
  }

  function Text(negative: bool, v: nat, base: nat): string
    requires IsBase(base)
  {
    if negative then ['-'] + MagnitudeText(v, base) else MagnitudeText(v, base)
  }

  /** The digits the buffer has room for, before the four characters set aside. */
  function Room(n: nat, base: nat): nat {
    32 * n / (if base == 16 then 4 else 3)
  }

  lemma {:induction false} ValueBelow(d: seq<nat>)
    requires DigitsIn(d, WORD)
    ensures Value(d, WORD) < Power(WORD, |d|)
  {
    if d != [] {
      ValueBelow(d[1..]);
      var q, p := Value(d[1..], WORD), Power(WORD, |d| - 1);
      assert WORD * (q + 1) <= WORD * p;
    }
  }

  /** The buffer shows the number behind at least three zeros. */
  lemma BufferShows(v: nat, n: nat, base: nat)
    requires IsBase(base) && v < Power(WORD, n)
    ensures var len := Room(n, base) + 4;
      |Digits(v, base)| + 3 <= len
      && LastDigits(v, len, base) == Zeros(len - |Digits(v, base)|) + Digits(v, base)
  {
    DigitsFit(v, n, base);
    var k := if base == 16 then 32 * n / 4 else 32 * n / 3 + 1;
    var len := Room(n, base) + 4;
    LastDigitsPadded(v, k, base);
    PowerMonotone(base, k, len);
    LastDigitsPadded(v, len, base);
    hide Power, Digits, LastDigits;
  }

  /** The digits are written from the right, each division of z giving one. */
  method FillDigits(z: Mpz, t: array<char>, len: nat, base: nat)
    requires z.Valid() && IsBase(base) && len + 1 == t.Length && t[len] == '\0'
    modifies z.d, t
    ensures t[..len] == LastDigits(old(z.Magnitude()), len, base) && t[len] == '\0'
  {
    ghost var v := z.Magnitude();
    hide *;
    var i: int := len - 1;
    assert t[len..len] == [];
    assert LastDigits(v, len, base) + [] == LastDigits(v, len, base);
    while i >= 0
      invariant -1 <= i < len && z.Valid() && z.d == old(z.d) && t[len] == '\0'
      invariant LastDigits(v, len, base) == LastDigits(z.Magnitude(), i + 1, base) + t[i + 1..len]
    {
      ghost var before, tail := z.Magnitude(), t[i + 1..len];
      var res := z.DivideBy(base);
      DigitStep(before, z.Magnitude(), res, i + 1, base);
      t[i] := DigitChar(res);
      assert t[i..len] == [DigitChar(res)] + tail;
      ghost var head := LastDigits(z.Magnitude(), i, base);
      assert head + [DigitChar(res)] + tail == head + ([DigitChar(res)] + tail);
      i := i - 1;
    }
    NoDigits(z.Magnitude(), base);
    assert t[0..len] == t[..len];
    assert "" + t[..len] == t[..len];
  }

  lemma NoDigits(v: nat, base: nat)
    requires IsBase(base)
    ensures LastDigits(v, 0, base) == ""
  {
  }

  lemma DigitStep(v: nat, q: nat, res: nat, k: nat, base: nat)
    requires IsBase(base) && k > 0 && res < base && v == base * q + res
    ensures base <= 16 && LastDigits(v, k, base) == LastDigits(q, k - 1, base) + [DigitChar(res)]
  {
    DivisionUnique(v, base, q, res);
  }

  lemma SkipAt(shown: string, digits: string, i: nat)
    requires |digits| <= |shown| && shown == Zeros(|shown| - |digits|) + digits
    requires digits != "" ==> digits[0] != '0'
    requires i <= |shown| - |digits| && i < |shown|
    ensures shown[i] == '0' <==> i < |shown| - |digits|
  {
  }

  lemma ShownDigits(shown: string, digits: string)
    requires |digits| <= |shown| && shown == Zeros(|shown| - |digits|) + digits
    ensures shown[|shown| - |digits|..] == digits
  {
  }

  /** The zeros in front are skipped up to the first digit or the end. */
  method SkipZeros(t: array<char>, len: nat, ghost digits: string) returns (i: nat)
    requires len + 1 == t.Length && t[len] == '\0' && |digits| <= len
    requires t[..len] == Zeros(len - |digits|) + digits
    requires digits != "" ==> digits[0] != '0'
    ensures i == len - |digits| && t[i..len] == digits
  {
    ghost var shown := t[..len];
    ShownDigits(shown, digits);
    hide Zeros;
    i := 0;
    while t[i] == '0'
      invariant 0 <= i <= len - |digits|
      decreases len - i
    {
      SkipAt(shown, digits, i);
      i := i + 1;
    }
    if i < len {
      SkipAt(shown, digits, i);
    }
    assert t[i..len] == shown[i..];
  }

  /** The prefix of the base and the sign are put in front of the digits. */
  method PutPrefix(t: array<char>, len: nat, from: nat, base: nat, negative: bool, ghost v: nat) returns (i: nat)
    requires IsBase(base) && len + 1 == t.Length && t[len] == '\0'
    requires 3 <= from <= len && t[from..len] == Digits(v, base)
    requires from < len ==> t[from] != '\0'
    modifies t
    ensures i <= len && t[i..len] == Text(negative, v, base)
  {
    hide Digits;
    i := from;
    if t[i] == '\0' || base == 8 {
      i := PutChar(t, len, i, '0');
    } else if base == 16 {
      i := PutChar(t, len, i, 'x');
      i := PutChar(t, len, i, '0');
    }
    PrefixShown(v, base, t[i..len]);
    if negative {
      i := PutChar(t, len, i, '-');
    }
  }

  method PutChar(t: array<char>, len: nat, i: nat, c: char) returns (i': nat)
    requires 0 < i <= len < t.Length
    modifies t
    ensures i' == i - 1 && t[i'..len] == [c] + old(t[i..len])
  {
    i' := i - 1;
    t[i'] := c;
  }

  lemma PrefixShown(v: nat, base: nat, s: string)
    requires IsBase(base)
    requires var digits := Digits(v, base);
      s == if digits == "" || base == 8 then ['0'] + digits else if base == 16 then ['0'] + (['x'] + digits) else digits
    ensures s == MagnitudeText(v, base)
    ensures Text(false, v, base) == s && Text(true, v, base) == ['-'] + s
  {
    assert v == 0 ==> ['0'] + Digits(v, base) == ['0'];
    hide Digits;
  }

  lemma FirstDigit(v: nat, base: nat)
    requires IsBase(base)
    ensures var s := Digits(v, base);
      s != "" ==> s[0] != '0' && s[0] != '\0'
  {
    if v > 0 {
      LeadingDigit(v, base);
      var d: nat :| 0 < d < base && Digits(v, base)[0] == DigitChar(d);
      DigitCharValue(d);
    }
    hide DigitChar;
  }

  lemma LimbBound(z: Mpz)
    requires z.Valid()
    ensures z.Magnitude() < Power(WORD, Abs(z.size))
  {
    ValueBelow(z.d[..Abs(z.size)]);
  }

  /** Cuts the text out of the filled buffer. */
  method CutText(t: array<char>, len: nat, base: nat, negative: bool, ghost v: nat, ghost n: nat) returns (s: string)
    requires IsBase(base) && v < Power(WORD, n) && len == Room(n, base) + 4
    requires len + 1 == t.Length && t[len] == '\0' && t[..len] == LastDigits(v, len, base)
    modifies t
    ensures s == Text(negative, v, base)
  {
    BufferShows(v, n, base);
    FirstDigit(v, base);
    hide *;
    var i := SkipZeros(t, len, Digits(v, base));
    if i < len {
      assert t[i] == t[i..len][0];
    }
    i := PutPrefix(t, len, i, base, negative, v);
    s := t[i..len];
  }

  /** Prints exactly the value, in any of the three bases; another base counts as ten. */
  method GetStr(base: nat, src: Mpz) returns (s: string)
    requires src.Valid()
    ensures s == Text(src.size < 0, src.Magnitude(), if IsBase(base) then base else 10)
  {
    var b := if base != 10 && base != 16 && base != 8 then 10 else base;
    var n := Abs(src.size);
    var len := Room(n, b) + 4;
    ghost var v := src.Magnitude();
    assert b == if IsBase(base) then base else 10;
    LimbBound(src);
    hide *;
    var z := new Mpz();
    z.Set(src);
    var t := new char[len + 1](_ => '\0');
    FillDigits(z, t, len, b);
    s := CutText(t, len, b, src.size < 0, v, n);
  }
}
