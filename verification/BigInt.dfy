/** Multi-limb integers: the digits a host stores and the words a connection carries. */
module BigInt {
  import opened Basics

  /** The value of little-endian digits in the given base. */
  function Value(d: seq<nat>, base: nat): nat {
    if d == [] then 0 else d[0] + base * Value(d[1..], base)
  }

  predicate DigitsIn(d: seq<nat>, base: nat) {
    forall i :: 0 <= i < |d| ==> d[i] < base
  }

  /** No zero digit at the top. */
  predicate Minimal(d: seq<nat>) {
    d == [] || d[|d| - 1] != 0
  }

  /** The canonical digits of v. */
  function ToDigits(v: nat, base: nat): (d: seq<nat>)
    requires base >= 2
    ensures DigitsIn(d, base) && Minimal(d)
    ensures v == 0 <==> d == []
  {
    if v == 0 then [] else
      QuotientSmaller(v, base);
      assert v == base * (v / base) + v % base;
      [v % base] + ToDigits(v / base, base)
  }

  lemma QuotientSmaller(v: nat, base: nat)
    requires v > 0 && base >= 2
    ensures v / base < v
  {
    var q := v / base;
    QuotientRemainder(v, base);
    assert base * q >= 2 * q;
  }

  lemma DigitsTail(d: seq<nat>, base: nat)
    requires d != [] && DigitsIn(d, base) && Minimal(d)
    ensures DigitsIn(d[1..], base) && Minimal(d[1..]) && d[0] < base
  {
  }

  /** Two multiples of the base that differ by less than the base are equal. */
  lemma SmallMultiple(base: int, k: int)
    requires base > 0 && -base < base * k < base
    ensures k == 0
  {
    assert k >= 1 ==> base * k >= base * 1;
    assert k <= -1 ==> base * k <= base * -1;
  }

  /** Division with remainder is unique. */
  lemma DivisionUnique(v: nat, base: nat, q: nat, r: nat)
    requires base > 0 && r < base && v == r + base * q
    ensures v / base == q && v % base == r
  {
    QuotientRemainder(v, base);
    var q', r' := v / base, v % base;
    SameQuotient(base, q, r, q', r');
  }

  lemma SameQuotient(base: nat, q: int, r: int, q': int, r': int)
    requires base > 0 && 0 <= r < base && 0 <= r' < base
    requires r + base * q == r' + base * q'
    ensures q == q' && r == r'
  {
    assert base * (q - q') == base * q - base * q';
    SmallMultiple(base, q - q');
  }

  lemma ToDigitsStep(v: nat, base: nat)
    requires base >= 2 && v != 0
    ensures v / base < v
    ensures ToDigits(v, base) != []
    ensures ToDigits(v, base)[0] == v % base && ToDigits(v, base)[1..] == ToDigits(v / base, base)
  {
    QuotientSmaller(v, base);
  }

  lemma {:induction false} ValueOfToDigits(v: nat, base: nat)
    requires base >= 2
    ensures Value(ToDigits(v, base), base) == v
  {
    if v != 0 {
      ToDigitsStep(v, base);
      ValueOfToDigits(v / base, base);
      QuotientRemainder(v, base);
      ValueStep(ToDigits(v, base), base);
      hide *;
    }
  }

  lemma ValueStep(d: seq<nat>, base: nat)
    requires d != []
    ensures Value(d, base) == d[0] + base * Value(d[1..], base)
  {
  }

  lemma {:induction false} ValuePositive(d: seq<nat>, base: nat)
    requires base >= 2 && Minimal(d) && d != []
    ensures Value(d, base) > 0
  {
    if |d| > 1 {
      assert d[1..][|d| - 2] == d[|d| - 1];
      ValuePositive(d[1..], base);
      assert base * Value(d[1..], base) > 0;
    } else {
      assert d[1..] == [];
    }
  }

  /** Canonical digits are determined by the value. */
  lemma {:induction false} CanonicalUnique(d: seq<nat>, base: nat)
    requires base >= 2 && DigitsIn(d, base) && Minimal(d)
    ensures d == ToDigits(Value(d, base), base)
  {
    if d != [] {
      var v := Value(d, base);
      ValuePositive(d, base);
      DigitsTail(d, base);
      CanonicalUnique(d[1..], base);
      DivisionUnique(v, base, Value(d[1..], base), d[0]);
      ToDigitsStep(v, base);
      hide *;
      assert d == [d[0]] + d[1..];
      assert ToDigits(v, base) == [ToDigits(v, base)[0]] + ToDigits(v, base)[1..];
    }
  }

  // ---------- limbs and words ----------

  const WORD: nat := 0x1_0000_0000

  /** A limb holds one or two words. */
  predicate LimbWords(n: nat) { n == 1 || n == 2 }

  function LimbBase(n: nat): nat
    requires LimbWords(n)
  {
    if n == 1 then WORD else WORD * WORD
  }

  /** The limb array seen as an array of words, low word first. */
  function Split(limbs: seq<nat>, n: nat): (w: seq<nat>)
    requires LimbWords(n) && DigitsIn(limbs, LimbBase(n))
    ensures |w| == n * |limbs| && DigitsIn(w, WORD)
  {
    if n == 1 then limbs
    else if limbs == [] then []
    else [limbs[0] % WORD, limbs[0] / WORD] + Split(limbs[1..], n)
  }

  /** The limbs that hold the given words, the missing top half filled with zero. */
  function Join(w: seq<nat>, n: nat): (limbs: seq<nat>)
    requires LimbWords(n) && DigitsIn(w, WORD)
    ensures |limbs| == (|w| + n - 1) / n && DigitsIn(limbs, LimbBase(n))
  {
    if n == 1 then w
    else if w == [] then []
    else if |w| == 1 then [w[0]]
    else [w[0] + WORD * w[1]] + Join(w[2..], n)
  }

  /** What is transmitted: one zero word at the top is not sent. */
  function Wire(limbs: seq<nat>, n: nat): (w: seq<nat>)
    requires LimbWords(n) && DigitsIn(limbs, LimbBase(n))
    ensures DigitsIn(w, WORD)
  {
    var s := Split(limbs, n);
    if s != [] && s[|s| - 1] == 0 then s[..|s| - 1] else s
  }

  lemma ValueTwo(a: nat, b: nat, rest: seq<nat>, base: nat)
    ensures Value([a, b] + rest, base) == a + base * b + base * (base * Value(rest, base))
  {
    var d := [a, b] + rest;
    assert d[1..] == [b] + rest;
    assert ([b] + rest)[1..] == rest;
    assert base * (b + base * Value(rest, base)) == base * b + base * (base * Value(rest, base));
  }

  lemma {:induction false} SplitValue(limbs: seq<nat>, n: nat)
    requires LimbWords(n) && DigitsIn(limbs, LimbBase(n))
    ensures Value(Split(limbs, n), WORD) == Value(limbs, LimbBase(n))
  {
    if n == 2 && limbs != [] {
      SplitValue(limbs[1..], n);
      ValueTwo(limbs[0] % WORD, limbs[0] / WORD, Split(limbs[1..], n), WORD);
    }
  }

  lemma {:induction false} JoinValue(w: seq<nat>, n: nat)
    requires LimbWords(n) && DigitsIn(w, WORD)
    ensures Value(Join(w, n), LimbBase(n)) == Value(w, WORD)
  {
    if n == 2 && w != [] {
      if |w| == 1 {
        assert w[1..] == [];
      } else {
        JoinValue(w[2..], n);
        assert w == [w[0], w[1]] + w[2..];
        ValueTwo(w[0], w[1], w[2..], WORD);
        assert Join(w, n)[1..] == Join(w[2..], n);
      }
    }
  }

  lemma {:induction false} ValueDropZero(d: seq<nat>, base: nat)
    requires d != [] && d[|d| - 1] == 0
    ensures Value(d[..|d| - 1], base) == Value(d, base)
  {
    if |d| > 1 {
      var t := d[1..];
      ValueDropZero(t, base);
      assert t[..|t| - 1] == d[..|d| - 1][1..];
    } else {
      assert d[1..] == [] && d[..0] == [];
    }
  }

  /** The top limb is not zero, so at most one of its words is. */
  lemma {:induction false} SplitTop(limbs: seq<nat>, n: nat)
    requires LimbWords(n) && DigitsIn(limbs, LimbBase(n)) && Minimal(limbs) && limbs != []
    ensures var s := Split(limbs, n);
      s[|s| - 1] != 0 || (|s| > 1 && s[|s| - 2] != 0)
  {
    if n == 2 {
      SplitStep(limbs);
      MinimalTail(limbs, n);
      hide *;
      if limbs[1..] != [] {
        SplitTop(limbs[1..], n);
      } else {
        QuotientRemainder(limbs[0], WORD);
      }
    }
  }

  lemma MinimalTail(limbs: seq<nat>, n: nat)
    requires LimbWords(n) && DigitsIn(limbs, LimbBase(n)) && Minimal(limbs) && limbs != []
    ensures limbs[1..] == [] ==> limbs[0] != 0
    ensures DigitsIn(limbs[1..], LimbBase(n)) && Minimal(limbs[1..])
  {
  }

  lemma SplitStep(limbs: seq<nat>)
    requires DigitsIn(limbs, LimbBase(2)) && limbs != []
    ensures limbs[0] / WORD >= 0
    ensures Split(limbs, 2) == [limbs[0] % WORD, limbs[0] / WORD] + Split(limbs[1..], 2)
    ensures |limbs| == 1 ==> Split(limbs[1..], 2) == []
  {
  }

  /** The words on the wire are the canonical words of the value, whatever the limb size. */
  lemma WireCanonical(limbs: seq<nat>, n: nat)
    requires LimbWords(n) && DigitsIn(limbs, LimbBase(n)) && Minimal(limbs)
    ensures Wire(limbs, n) == ToDigits(Value(limbs, LimbBase(n)), WORD)
  {
    var s := Split(limbs, n);
    SplitValue(limbs, n);
    if limbs != [] {
      SplitTop(limbs, n);
      if s[|s| - 1] == 0 {
        ValueDropZero(s, WORD);
      }
    }
    CanonicalUnique(Wire(limbs, n), WORD);
  }

  lemma {:induction false} JoinMinimal(w: seq<nat>, n: nat)
    requires LimbWords(n) && DigitsIn(w, WORD) && Minimal(w)
    ensures Minimal(Join(w, n))
  {
    if n == 2 && |w| > 1 {
      assert w[2..] != [] ==> w[2..][|w| - 3] == w[|w| - 1];
      JoinMinimal(w[2..], n);
    }
  }

  /** An integer sent by a host with either limb size arrives unchanged, and canonical, at a
      host with either limb size. */
  lemma LimbsTransfer(limbs: seq<nat>, n: nat, n': nat)
    requires LimbWords(n) && LimbWords(n') && DigitsIn(limbs, LimbBase(n)) && Minimal(limbs)
    ensures var r := Join(Wire(limbs, n), n');
      && Value(r, LimbBase(n')) == Value(limbs, LimbBase(n))
      && Minimal(r) && (n == n' ==> r == limbs)
  {
    WireCanonical(limbs, n);
    var w := Wire(limbs, n);
    ValueOfToDigits(Value(limbs, LimbBase(n)), WORD);
    JoinValue(w, n');
    JoinMinimal(w, n');
    if n == n' {
      CanonicalUnique(limbs, LimbBase(n));
      CanonicalUnique(Join(w, n'), LimbBase(n'));
    }
  }
}
