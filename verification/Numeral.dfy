/** The text of an integer, and the integer of a text. */
module Numeral {
  import opened Basics
  import opened BigInt

  predicate IsBase(base: nat) { base == 8 || base == 10 || base == 16 }

  function DigitChar(d: nat): (c: char)
    requires d < 16
  {
    if d < 10 then '0' + d as char else 'a' + (d - 10) as char
  }

  /** The value of a digit or a letter of either case; -1 for any other character. */
  function DigitValue(c: char): (d: int)
    ensures -1 <= d < 36
  {
    if '0' <= c <= '9' then c as int - '0' as int
    else if 'A' <= c <= 'Z' then c as int - 'A' as int + 10
    else if 'a' <= c <= 'z' then c as int - 'a' as int + 10
    else -1
  }

  lemma DigitCharValue(d: nat)
    requires d < 16
    ensures DigitValue(DigitChar(d)) == d
    ensures DigitChar(d) == '0' <==> d == 0
    ensures DigitChar(d) != '\0' && DigitChar(d) != 'x' && DigitChar(d) != 'X'
    ensures DigitChar(d) != '-' && DigitChar(d) != '+' && !IsSpace(DigitChar(d))
  {
  }

  predicate IsSpace(c: char) {
    c == ' ' || '\t' <= c <= '\r'
  }

  /** The digits of v, most significant first; none for zero. */
  function Digits(v: nat, base: nat): (s: string)
    requires IsBase(base)
    ensures s == "" <==> v == 0
  {
    if v == 0 then "" else Digits(v / base, base) + [DigitChar(v % base)]
  }

  /** The last k digits of v, zeros included. */
  function LastDigits(v: nat, k: nat, base: nat): (s: string)
    requires IsBase(base)
    ensures |s| == k
  {
    if k == 0 then "" else LastDigits(v / base, k - 1, base) + [DigitChar(v % base)]
  }

  function Zeros(k: nat): (s: string)
    ensures |s| == k && forall i :: 0 <= i < k ==> s[i] == '0'
  {
    seq(k, _ => '0')
  }

  function Power(b: nat, k: nat): (r: nat)
    ensures b > 0 ==> r > 0
  {
    if k == 0 then 1 else b * Power(b, k - 1)
  }

  lemma {:induction false} LeadingDigit(v: nat, base: nat)
    requires IsBase(base) && v > 0
    ensures Digits(v, base)[0] != '0'
    ensures exists d: nat :: 0 < d < base && Digits(v, base)[0] == DigitChar(d)
  {
    DigitsStep(v, base);
    DigitCharValue(v % base);
    if v / base == 0 {
      assert Digits(v, base)[0] == DigitChar(v % base);
    } else {
      LeadingDigit(v / base, base);
      assert Digits(v, base)[0] == Digits(v / base, base)[0];
    }
    hide DigitChar, Digits;
  }

  /** A number below base^k has at most k digits, the rest are zeros in front. */
  lemma {:induction false} LastDigitsPadded(v: nat, k: nat, base: nat)
    requires IsBase(base) && v < Power(base, k)
    ensures |Digits(v, base)| <= k
    ensures LastDigits(v, k, base) == Zeros(k - |Digits(v, base)|) + Digits(v, base)
  {
    if k == 0 {
    } else if v == 0 {
      LastDigitsPadded(0, k - 1, base);
      assert DigitChar(0) == '0';
      assert LastDigits(0, k, base) == Zeros(k - 1) + "" + ['0'];
    } else {
      QuotientBelow(v, k, base);
      LastDigitsPadded(v / base, k - 1, base);
      DigitsStep(v, base);
      var z, t, c := Zeros(k - |Digits(v, base)|), Digits(v / base, base), DigitChar(v % base);
      assert LastDigits(v, k, base) == z + t + [c];
      hide *;
      assert z + t + [c] == z + (t + [c]);
    }
  }

  lemma QuotientBelow(v: nat, k: nat, base: nat)
    requires k > 0 && base > 0 && v < Power(base, k)
    ensures v / base < Power(base, k - 1)
  {
    var p, q := Power(base, k - 1), v / base;
    assert v < base * p;
    QuotientRemainder(v, base);
    assert q >= p ==> base * q >= base * p;
  }

  // ---------- reading ----------

  /** One digit more, keeping what fits below m. */
  function PushDigit(acc: nat, base: nat, d: nat, m: nat): (r: nat)
    requires m > 0
    ensures r < m
  {
    (acc * base + d) % m
  }

  /** Reads digits from position i on, until a character that is no digit of the base; every step
      keeps what fits below m. */
  function ReadFrom(s: string, i: nat, base: nat, acc: nat, m: nat): (r: nat)
    requires i <= |s| && m > 0 && acc < m
    ensures r < m
    decreases |s| - i
  {
    if i < |s| && 0 <= DigitValue(s[i]) < base then
      ReadFrom(s, i + 1, base, PushDigit(acc, base, DigitValue(s[i]), m), m)
    else acc
  }

  lemma ReadOne(s: string, i: nat, base: nat, acc: nat, m: nat, d: nat)
    requires i < |s| && m > 0 && acc < m && base <= 16 && d < base && s[i] == DigitChar(d)
    ensures ReadFrom(s, i, base, acc, m) == ReadFrom(s, i + 1, base, PushDigit(acc, base, d, m), m)
  {
    DigitCharValue(d);
    hide DigitValue, DigitChar;
  }

  lemma DigitsStep(v: nat, base: nat)
    requires IsBase(base) && v > 0
    ensures v / base < v && v % base < base && v == (v / base) * base + v % base
    ensures Digits(v, base) == Digits(v / base, base) + [DigitChar(v % base)]
  {
    QuotientSmaller(v, base);
    QuotientRemainder(v, base);
  }

  /** The text u stands in s at position i. */
  predicate At(s: string, i: nat, u: string) {
    i + |u| <= |s| && s[i..i + |u|] == u
  }

  lemma AtSnoc(s: string, i: nat, t: string, c: char)
    requires At(s, i, t + [c])
    ensures At(s, i, t) && i + |t| < |s| && s[i + |t|] == c
  {
    var u := s[i..i + |t| + 1];
    assert u[..|t|] == t && u[|t|] == c;
    assert s[i..i + |t|] == u[..|t|];
  }

  /** Digits read from the start are the number they show. */
  lemma {:induction false} ReadDigits(s: string, i: nat, v: nat, base: nat, m: nat)
    requires IsBase(base) && v < m && At(s, i, Digits(v, base))
    ensures i + |Digits(v, base)| <= |s|
    ensures ReadFrom(s, i, base, 0, m) == ReadFrom(s, i + |Digits(v, base)|, base, v, m)
  {
    if v > 0 {
      DigitsStep(v, base);
      hide *;
      AtSnoc(s, i, Digits(v / base, base), DigitChar(v % base));
      ReadDigits(s, i, v / base, base, m);
      ReadOne(s, i + |Digits(v / base, base)|, base, v / base, m, v % base);
      PushSmall(v / base, base, v % base, v, m);
      AtLength(s, i, Digits(v, base));
      BaseBound(base);
    }
  }

  lemma AtLength(s: string, i: nat, u: string)
    requires At(s, i, u)
    ensures i + |u| <= |s|
  {
  }

  lemma BaseBound(base: nat)
    requires IsBase(base)
    ensures 8 <= base <= 16
  {
  }

  lemma PushSmall(q: nat, base: nat, d: nat, v: nat, m: nat)
    requires v < m && q * base + d == v
    ensures PushDigit(q, base, d, m) == v
  {
  }

  // ---------- how many digits ----------

  lemma {:induction false} PowerPlus(b: nat, j: nat, k: nat)
    ensures Power(b, j + k) == Power(b, j) * Power(b, k)
  {
    if j > 0 {
      PowerPlus(b, j - 1, k);
      var x, y := Power(b, j - 1), Power(b, k);
      assert b * (x * y) == (b * x) * y;
    }
  }

  lemma {:induction false} PowerOfPower(b: nat, j: nat, n: nat)
    ensures Power(Power(b, j), n) == Power(b, j * n)
  {
    if n > 0 {
      PowerOfPower(b, j, n - 1);
      assert j * n == j + j * (n - 1);
      PowerPlus(b, j, j * (n - 1));
    } else {
      assert j * n == 0;
    }
  }

  lemma {:induction false} PowerMonotone(b: nat, j: nat, k: nat)
    requires b >= 1 && j <= k
    ensures Power(b, j) <= Power(b, k)
  {
    if j < k {
      PowerMonotone(b, j, k - 1);
      var x := Power(b, k - 1);
      assert b * x >= x;
    }
  }

  lemma {:induction false} PowerOfLarger(b: nat, c: nat, k: nat)
    requires b <= c
    ensures Power(b, k) <= Power(c, k)
  {
    if k > 0 {
      PowerOfLarger(b, c, k - 1);
      ProductMonotone(b, c, Power(b, k - 1), Power(c, k - 1));
    }
  }

  lemma ProductMonotone(b: nat, c: nat, x: nat, y: nat)
    requires b <= c && x <= y
    ensures b * x <= c * y
  {
    assert b * x <= b * y;
    assert b * y <= c * y;
  }

  lemma {:induction false} DigitsBound(v: nat, base: nat)
    requires IsBase(base)
    ensures v < Power(base, |Digits(v, base)|)
  {
    if v > 0 {
      DigitsStep(v, base);
      DigitsBound(v / base, base);
      var p, q := Power(base, |Digits(v / base, base)|), v / base;
      assert base * (q + 1) <= base * p;
    }
  }

  lemma PowersOfTwo()
    ensures Power(2, 3) == 8 && Power(2, 4) == 16 && Power(2, 32) == WORD
  {
    assert Power(2, 1) == 2;
    assert Power(2, 2) == 4;
    assert Power(2, 3) == 8;
    assert Power(2, 4) == 16;
    PowerPlus(2, 4, 4);
    PowerPlus(2, 8, 8);
    PowerPlus(2, 16, 16);
  }

  /** Room for the digits of any number below 2^(32n): the bits of a digit are rounded down. */
  lemma DigitsFit(v: nat, n: nat, base: nat)
    requires IsBase(base) && v < Power(WORD, n)
    ensures base == 16 ==> v < Power(base, 32 * n / 4)
    ensures base != 16 ==> v < Power(base, 32 * n / 3 + 1)
  {
    PowersOfTwo();
    PowerOfPower(2, 32, n);
    hide Power;
    if base == 16 {
      PowerOfPower(2, 4, 8 * n);
    } else {
      var k := 32 * n / 3 + 1;
      PowerOfPower(2, 3, k);
      PowerMonotone(2, 32 * n, 3 * k);
      PowerOfLarger(8, base, k);
    }
  }

  /** A number of n limbs has enough digits: the bits of a digit are rounded up. */
  lemma DigitsFill(v: nat, n: nat, base: nat)
    requires IsBase(base) && n > 0 && v >= Power(WORD, n - 1)
    ensures (if base == 8 then 3 else 4) * |Digits(v, base)| > 32 * (n - 1)
  {
    PowersOfTwo();
    PowerOfPower(2, 32, n - 1);
    DigitsBound(v, base);
    var k, j := |Digits(v, base)|, if base == 8 then 3 else 4;
    PowerOfPower(2, j, k);
    PowerOfLarger(base, if base == 8 then 8 else 16, k);
    if j * k <= 32 * (n - 1) {
      PowerMonotone(2, j * k, 32 * (n - 1));
    }
    hide Power, Digits;
  }
}
