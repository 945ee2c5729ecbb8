/** Which texts the reader takes for which numbers, the digits in either case. */
module GmpText {
  import opened Basics
  import opened BigInt
  import opened GmpFake
  import opened Numeral
  import opened GmpRead

  const LOWER: string := "0123456789abcdef"
  const UPPER: string := "0123456789ABCDEF"

  /** The character c shows the digit d. */
  predicate Shows(c: char, d: nat) {
    d < 16 && (c == LOWER[d] || c == UPPER[d])
  }

  /** The text u shows the digits ds of a base. */
  predicate ShowsAll(u: string, ds: seq<nat>, base: nat) {
    |u| == |ds| && forall i :: 0 <= i < |ds| ==> ds[i] < base && Shows(u[i], ds[i])
  }

  /** The number written behind acc by digits, the most significant one first. */
  function Number(ds: seq<nat>, base: nat, acc: nat): nat {
    if ds == [] then acc else Number(ds[1..], base, acc * base + ds[0])
  }

  /** The text ends here, or goes on with a character that shows no digit of the base. */
  predicate Ends(rest: string, base: nat) {
    rest == "" || forall d: nat :: d < base ==> !Shows(rest[0], d)
  }

  predicate Blank(c: char) {
    c == ' ' || c == '\t' || c == '\n' || c == '\U{0B}' || c == '\U{0C}' || c == '\r'
  }

  predicate AllBlank(sp: string) { forall i :: 0 <= i < |sp| ==> Blank(sp[i]) }

  // ---------- characters ----------

  lemma LetterAt(d: nat)
    requires d < 16
    ensures d < 10 ==> LOWER[d] as int == '0' as int + d && UPPER[d] == LOWER[d]
    ensures d >= 10 ==> LOWER[d] as int == 'a' as int + (d - 10) && UPPER[d] as int == 'A' as int + (d - 10)
  {
  }

  lemma ShownValue(c: char, d: nat)
    requires Shows(c, d)
    ensures d < 16 && DigitValue(c) == d
    ensures c != '-' && c != '+' && c != 'x' && c != 'X' && !IsSpace(c)
    ensures c == '0' <==> d == 0
  {
    LetterAt(d);
    hide LOWER, UPPER;
  }

  lemma ValueShown(c: char)
    requires 0 <= DigitValue(c) < 16
    ensures Shows(c, DigitValue(c))
  {
    LetterAt(DigitValue(c));
    hide LOWER, UPPER;
  }

  lemma StopsAt(s: string, i: nat, base: nat, acc: nat, m: nat)
    requires i <= |s| && acc < m && base <= 16 && Ends(s[i..], base)
    ensures ReadFrom(s, i, base, acc, m) == acc
  {
    assert i < |s| ==> s[i..][0] == s[i];
    if i < |s| && 0 <= DigitValue(s[i]) < base {
      ValueShown(s[i]);
    }
    hide DigitValue, Shows;
  }

  // ---------- digits ----------

  lemma SameRest(a: nat, b: nat, base: nat, d: nat, m: nat)
    requires m > 0 && a % m == b % m
    ensures (a * base + d) % m == (b * base + d) % m
  {
    QuotientRemainder(a, m);
    QuotientRemainder(b, m);
    QuotientRemainder(a * base + d, m);
    var r, k, j := a % m, a / m, b / m;
    var y := (a * base + d) / m;
    var x := (a * base + d) % m;
    assert b * base + d == x + m * (y + (j - k) * base) by {
      assert a == m * k + r && b == m * j + r;
      assert b - a == m * (j - k);
      assert (b - a) * base == m * ((j - k) * base);
      assert m * (y + (j - k) * base) == m * y + m * ((j - k) * base);
      assert b * base == a * base + (b - a) * base;
    }
    ModUnique(b * base + d, m, y + (j - k) * base, x);
  }

  lemma ModUnique(n: nat, m: nat, q: int, r: nat)
    requires r < m && n == r + m * q
    ensures n % m == r
  {
    assert q < 0 ==> m * q + m <= 0;
    DivisionUnique(n, m, q, r);
  }

  lemma {:induction false} NumberRest(ds: seq<nat>, base: nat, a: nat, b: nat, m: nat)
    requires m > 0 && a % m == b % m
    ensures Number(ds, base, a) % m == Number(ds, base, b) % m
  {
    if ds != [] {
      SameRest(a, b, base, ds[0], m);
      NumberRest(ds[1..], base, a * base + ds[0], b * base + ds[0], m);
    }
  }

  lemma ShownTail(u: string, ds: seq<nat>, base: nat)
    requires ShowsAll(u, ds, base) && ds != []
    ensures u != "" && ShowsAll(u[1..], ds[1..], base) && ds[0] < base && Shows(u[0], ds[0])
  {
  }

  /** Digits followed by the end of the number are read as their number, reduced below m. */
  lemma {:induction false} ShownReads(s: string, i: nat, u: string, rest: string, ds: seq<nat>, base: nat, acc: nat, m: nat)
    requires base <= 16 && acc < m && ShowsAll(u, ds, base) && Ends(rest, base)
    requires i <= |s| && s[i..] == u + rest
    ensures ReadFrom(s, i, base, acc, m) == Number(ds, base, acc) % m
    decreases |ds|
  {
    hide *;
    if ds == [] {
      NoneShown(u, base);
      assert s[i..] == rest;
      StopsAt(s, i, base, acc, m);
      NumberNone(base, acc, m);
    } else {
      ShownTail(u, ds, base);
      ShownValue(u[0], ds[0]);
      assert s[i] == s[i..][0] == u[0];
      assert s[i + 1..] == s[i..][1..] == u[1..] + rest;
      var next := PushDigit(acc, base, ds[0], m);
      ReadStep(s, i, base, acc, m, ds[0]);
      ShownReads(s, i + 1, u[1..], rest, ds[1..], base, next, m);
      NumberStep(ds, base, acc, m);
    }
  }

  lemma NoneShown(u: string, base: nat)
    requires ShowsAll(u, [], base)
    ensures u == ""
  {
  }

  lemma NumberNone(base: nat, acc: nat, m: nat)
    requires acc < m
    ensures Number([], base, acc) % m == acc
  {
  }

  lemma ReadStep(s: string, i: nat, base: nat, acc: nat, m: nat, d: nat)
    requires i < |s| && acc < m && DigitValue(s[i]) == d < base
    ensures ReadFrom(s, i, base, acc, m) == ReadFrom(s, i + 1, base, PushDigit(acc, base, d, m), m)
  {
    hide DigitValue;
  }

  lemma NumberStep(ds: seq<nat>, base: nat, acc: nat, m: nat)
    requires ds != [] && acc < m
    ensures Number(ds, base, acc) % m == Number(ds[1..], base, PushDigit(acc, base, ds[0], m)) % m
  {
    var a := acc * base + ds[0];
    RestTwice(a, m);
    NumberRest(ds[1..], base, a, a % m, m);
  }

  lemma RestTwice(a: nat, m: nat)
    requires m > 0
    ensures (a % m) % m == a % m
  {
  }

  // ---------- what stands before them ----------

  /** The sign a text may start with. */
  predicate IsSign(sign: string) { sign == "" || sign == "+" || sign == "-" }

  /** How the reader, told a base or zero, comes to read u in the given base: by its prefix, because
      it was told so, or by the first digit. */
  predicate Announces(prefix: string, u: string, rest: string, base: nat, told: nat) {
    if prefix == "" then
      && u != "" && told == (if told == 0 then 0 else base)
      && (told == 0 ==> base == if u[0] == '0' then 8 else 10)
      && ((told == 0 || told == 16) && u == "0" && rest != "" ==> rest[0] != 'x' && rest[0] != 'X')
    else
      (prefix == "0x" || prefix == "0X") && base == 16 && (told == 0 || told == 16)
  }

  lemma {:induction false} SpacesSkipped(s: string, i: nat, k: nat)
    requires i <= k <= |s| && (forall j :: i <= j < k ==> Blank(s[j])) && (k < |s| ==> !IsSpace(s[k]))
    ensures AfterSpace(s, i) == k
    decreases k - i
  {
    if i < k {
      assert Blank(s[i]);
      SpacesSkipped(s, i + 1, k);
    }
  }

  /** The reader after the spaces. */
  lemma StartAt(s: string, i: nat, told: nat, negative: bool, j: nat)
    requires i <= j <= |s| && AfterSpace(s, 0) == i
    requires negative == (CharAt(s, i) == '-') && j == if negative || CharAt(s, i) == '+' then i + 1 else i
    ensures StartOf(s, told)
      == if (told == 0 || told == 16) && CharAt(s, j) == '0' && (CharAt(s, j + 1) == 'x' || CharAt(s, j + 1) == 'X')
         then Start(negative, 16, j + 2)
         else Start(negative, if told == 0 then if CharAt(s, j) == '0' then 8 else 10 else told, j)
  {
  }

  /** The text without the spaces, and the digits at its end. */
  lemma Placed(sp: string, sign: string, prefix: string, t: string)
    ensures var s := sp + sign + prefix + t;
      && |s| == |sp| + |sign| + |prefix| + |t|
      && (forall j :: 0 <= j < |sp| ==> s[j] == sp[j])
      && (forall j :: 0 <= j < |sign| ==> s[|sp| + j] == sign[j])
      && (forall j :: 0 <= j < |prefix| ==> s[|sp| + |sign| + j] == prefix[j])
      && (forall j :: 0 <= j < |t| ==> s[|sp| + |sign| + |prefix| + j] == t[j])
      && s[|sp| + |sign| + |prefix|..] == t
  {
  }

  /** What the reader sees first: spaces, a sign, then a digit of any case. */
  lemma SignSeen(s: string, sp: string, sign: string, prefix: string, t: string)
    requires AllBlank(sp) && IsSign(sign) && s == sp + sign + prefix + t
    requires var c := CharAt(prefix + t, 0);
      prefix + t != "" && c != '-' && c != '+' && !IsSpace(c)
    ensures AfterSpace(s, 0) == |sp|
    ensures (CharAt(s, |sp|) == '-' <==> sign == "-") && (CharAt(s, |sp|) == '+' <==> sign == "+")
  {
    Placed(sp, sign, prefix, t);
    var k := |sp|;
    assert s[k] == if sign != "" then sign[0] else (prefix + t)[0] by {
      if sign != "" {
        assert s[k + 0] == sign[0];
      } else if prefix != "" {
        assert s[k + |sign| + 0] == prefix[0];
      } else {
        assert s[k + |sign| + |prefix| + 0] == t[0];
      }
    }
    forall j | 0 <= j < k
      ensures Blank(s[j])
    {
      assert s[j] == sp[j];
    }
    SpacesSkipped(s, 0, k);
  }

  /** Sign, base and place of the digits of a text of any of these forms. */
  lemma StartFound(sp: string, sign: string, prefix: string, u: string, rest: string, ds: seq<nat>, base: nat, told: nat)
    requires AllBlank(sp) && IsSign(sign) && IsBase(base) && ShowsAll(u, ds, base)
    requires Announces(prefix, u, rest, base, told)
    ensures StartOf(sp + sign + prefix + (u + rest), told) == Start(sign == "-", base, |sp| + |sign| + |prefix|)
  {
    var t := u + rest;
    var s := sp + sign + prefix + t;
    FirstOfText(prefix, u, rest, ds, base, told);
    SignSeen(s, sp, sign, prefix, t);
    var j := |sp| + |sign|;
    Placed(sp, sign, prefix, t);
    SecondChars(s, j, prefix, t);
    StartAt(s, |sp|, told, sign == "-", j);
    hide StartOf, ShowsAll, Shows, AfterSpace, IsSpace, AllBlank;
  }

  lemma SecondChars(s: string, j: nat, prefix: string, t: string)
    requires |s| == j + |prefix| + |t|
    requires forall i :: 0 <= i < |prefix| ==> s[j + i] == prefix[i]
    requires forall i :: 0 <= i < |t| ==> s[j + |prefix| + i] == t[i]
    ensures CharAt(s, j) == CharAt(prefix + t, 0) && CharAt(s, j + 1) == CharAt(prefix + t, 1)
  {
    var w := prefix + t;
    forall i | 0 <= i < |w|
      ensures s[j + i] == w[i]
    {
      if i >= |prefix| {
        assert s[j + |prefix| + (i - |prefix|)] == t[i - |prefix|];
      }
    }
    assert |w| > 0 ==> s[j + 0] == w[0];
    assert |w| > 1 ==> s[j + 1] == w[1];
  }

  lemma FirstOfText(prefix: string, u: string, rest: string, ds: seq<nat>, base: nat, told: nat)
    requires IsBase(base) && ShowsAll(u, ds, base) && Announces(prefix, u, rest, base, told)
    ensures var w := prefix + (u + rest);
      && w != "" && w[0] != '-' && w[0] != '+' && !IsSpace(w[0])
      && ((told == 0 || told == 16) && w[0] == '0' && (CharAt(w, 1) == 'x' || CharAt(w, 1) == 'X') <==> prefix != "")
      && (prefix == "" ==> (w[0] == '0' <==> u[0] == '0'))
  {
    if prefix == "" {
      var w := prefix + (u + rest);
      ShownValue(u[0], ds[0]);
      assert w[0] == u[0];
      if |u| > 1 {
        ShownValue(u[1], ds[1]);
        assert w[1] == u[1];
      } else if rest != "" {
        assert w[1] == rest[0];
        assert u == [u[0]];
      }
    }
    hide DigitValue, Shows;
  }

  // ---------- the law ----------

  /** Spaces, a sign or none, a prefix where the base allows one, digits in either case, and then
      the end or a character that is no digit: the reader finds the sign and, in n limbs, the number
      of the digits reduced to those limbs; it stays in bounds exactly when n is at most the limbs
      the characters reserve. */
  lemma TextReads(sp: string, sign: string, prefix: string, u: string, rest: string, ds: seq<nat>, base: nat, told: nat, n: nat)
    requires AllBlank(sp) && IsSign(sign) && IsBase(base) && ShowsAll(u, ds, base) && u != ""
    requires Announces(prefix, u, rest, base, told) && Ends(rest, base)
    ensures var s := sp + sign + prefix + (u + rest);
      var st := StartOf(s, told);
      && (st.negative <==> sign == "-") && st.at < |s|
      && ReadFrom(s, st.at, st.base, 0, Power(WORD, n)) == Number(ds, base, 0) % Power(WORD, n)
      && (InBounds(s, st, n) <==> n <= (if base == 8 then 3 else 4) * |u + rest| / 32 + 1)
  {
    hide *;
    var t := u + rest;
    var s := sp + sign + prefix + t;
    StartFound(sp, sign, prefix, u, rest, ds, base, told);
    Placed(sp, sign, prefix, t);
    var at := |sp| + |sign| + |prefix|;
    BaseBound(base);
    PowerPositive(n);
    ShownReads(s, at, u, rest, ds, base, 0, Power(WORD, n));
    BoundsOf(s, at, sign == "-", u, rest, ds, base, n);
  }

  lemma PowerPositive(n: nat)
    ensures Power(WORD, n) > 0
  {
  }

  lemma BoundsOf(s: string, at: nat, negative: bool, u: string, rest: string, ds: seq<nat>, base: nat, n: nat)
    requires ShowsAll(u, ds, base) && u != "" && at <= |s| && s[at..] == u + rest
    ensures InBounds(s, Start(negative, base, at), n) <==> n <= (if base == 8 then 3 else 4) * |u + rest| / 32 + 1
  {
    assert s[at] == s[at..][0] == u[0];
    ShownValue(u[0], ds[0]);
    hide DigitValue, Shows;
  }

  // ---------- every number ----------

  lemma {:induction false} NumberSnoc(ds: seq<nat>, d: nat, base: nat, acc: nat)
    ensures Number(ds + [d], base, acc) == Number(ds, base, acc) * base + d
  {
    if ds == [] {
      assert [d][1..] == [];
    } else {
      assert (ds + [d])[1..] == ds[1..] + [d];
      NumberSnoc(ds[1..], d, base, acc * base + ds[0]);
    }
  }

  /** The digits of v, as numbers. */
  function DigitList(v: nat, base: nat): (ds: seq<nat>)
    requires IsBase(base)
  {
    if v == 0 then [] else DigitList(v / base, base) + [v % base]
  }

  /** The text of the digits with some letters in upper case. */
  predicate AnyCase(u: string, w: string) {
    |u| == |w| && forall i :: 0 <= i < |w| ==> u[i] == w[i] || exists d: nat :: d < 16 && w[i] == LOWER[d] && u[i] == UPPER[d]
  }

  lemma CharShows(d: nat)
    requires d < 16
    ensures DigitChar(d) == LOWER[d]
  {
    LetterAt(d);
    hide LOWER, UPPER;
  }

  lemma {:induction false} DigitsShow(v: nat, base: nat)
    requires IsBase(base)
    ensures var ds := DigitList(v, base);
      && Number(ds, base, 0) == v && |Digits(v, base)| == |ds|
      && forall i :: 0 <= i < |ds| ==> ds[i] < base && ds[i] < 16 && Digits(v, base)[i] == LOWER[ds[i]]
  {
    if v > 0 {
      DigitsStep(v, base);
      DigitsShow(v / base, base);
      NumberSnoc(DigitList(v / base, base), v % base, base, 0);
      CharShows(v % base);
    }
    hide DigitChar, LOWER, Number;
  }

  lemma LettersDistinct(d: nat, e: nat)
    requires d < 16 && e < 16 && LOWER[d] == LOWER[e]
    ensures d == e
  {
    LetterAt(d);
    LetterAt(e);
    hide LOWER, UPPER;
  }

  lemma CaseShows(u: string, v: nat, base: nat)
    requires IsBase(base) && AnyCase(u, Digits(v, base))
    ensures ShowsAll(u, DigitList(v, base), base)
  {
    DigitsShow(v, base);
    var w, ds := Digits(v, base), DigitList(v, base);
    hide Digits, DigitList, LOWER, UPPER, Number;
    forall i | 0 <= i < |ds|
      ensures ds[i] < base && Shows(u[i], ds[i])
    {
      if u[i] != w[i] {
        var d: nat :| d < 16 && w[i] == LOWER[d] && u[i] == UPPER[d];
        LettersDistinct(d, ds[i]);
      }
    }
  }

  /** Every number is read from its digits, some letters of which may be capitals, behind spaces,
      a sign and a prefix, whatever follows that is no digit. */
  lemma AnyNumberReads(sp: string, sign: string, prefix: string, u: string, rest: string, v: nat, base: nat, told: nat, n: nat)
    requires AllBlank(sp) && IsSign(sign) && IsBase(base) && v < Power(WORD, n)
    requires if v == 0 then u == "0" else AnyCase(u, Digits(v, base))
    requires Announces(prefix, u, rest, base, told) && Ends(rest, base)
    ensures var s := sp + sign + prefix + (u + rest);
      var st := StartOf(s, told);
      && (st.negative <==> sign == "-") && ReadFrom(s, st.at, st.base, 0, Power(WORD, n)) == v
  {
    hide *;
    var ds := if v == 0 then [0] else DigitList(v, base);
    if v == 0 {
      ZeroShows(base);
    } else {
      CaseShows(u, v, base);
      DigitsShow(v, base);
      SameLength(u, v, base);
    }
    TextReads(sp, sign, prefix, u, rest, ds, base, told, n);
    SmallRest(v, Power(WORD, n));
  }

  lemma SmallRest(v: nat, m: nat)
    requires v < m
    ensures v % m == v
  {
  }

  lemma SameLength(u: string, v: nat, base: nat)
    requires IsBase(base) && v > 0 && AnyCase(u, Digits(v, base))
    ensures u != ""
  {
  }

  lemma ZeroShows(base: nat)
    requires IsBase(base)
    ensures ShowsAll("0", [0], base) && Number([0], base, 0) == 0
  {
    LetterAt(0);
    assert [0][1..] == [];
  }


  // ---------- examples ----------

  lemma Small(n: nat)
    requires n > 0
    ensures Power(WORD, n) > 1000
  {
    PowerMonotone(WORD, 1, n);
    assert Power(WORD, 0) == 1 && Power(WORD, 1) == WORD;
  }

  lemma SmallReads(s: string, sp: string, sign: string, prefix: string, u: string, ds: seq<nat>, base: nat, n: nat, v: nat)
    requires n > 0 && AllBlank(sp) && IsSign(sign) && IsBase(base) && ShowsAll(u, ds, base) && u != ""
    requires Announces(prefix, u, "", base, 0) && s == sp + sign + prefix + u && Number(ds, base, 0) == v < 1000
    ensures var st := StartOf(s, 0);
      (st.negative <==> sign == "-") && ReadFrom(s, st.at, st.base, 0, Power(WORD, n)) == v
  {
    assert u + "" == u;
    assert Ends("", base);
    hide *;
    Small(n);
    TextReads(sp, sign, prefix, u, "", ds, base, 0, n);
    SmallRest(v, Power(WORD, n));
  }

  /** The text "0x1F" is 31. */
  lemma CapitalExample(n: nat)
    requires n > 0
    ensures var st := StartOf("0x1F", 0);
      !st.negative && ReadFrom("0x1F", st.at, st.base, 0, Power(WORD, n)) == 31
  {
    TwoDigits(1, 15, 16);
    hide Power, StartOf, ReadFrom, Number;
    SmallReads("0x1F", "", "", "0x", "1F", [1, 15], 16, n, 31);
  }

  /** The text " +17" is 17. */
  lemma PlusExample(n: nat)
    requires n > 0
    ensures var st := StartOf(" +17", 0);
      !st.negative && ReadFrom(" +17", st.at, st.base, 0, Power(WORD, n)) == 17
  {
    TwoDigits(1, 7, 10);
    hide Power, StartOf, ReadFrom, Number;
    SmallReads(" +17", " ", "+", "", "17", [1, 7], 10, n, 17);
  }

  /** The text "-017" is -15. */
  lemma OctalExample(n: nat)
    requires n > 0
    ensures var st := StartOf("-017", 0);
      st.negative && ReadFrom("-017", st.at, st.base, 0, Power(WORD, n)) == 15
  {
    TwoDigits(1, 7, 8);
    assert [0, 1, 7][1..] == [1, 7];
    assert Number([0, 1, 7], 8, 0) == Number([1, 7], 8, 0);
    hide Power, StartOf, ReadFrom, Number;
    SmallReads("-017", "", "-", "", "017", [0, 1, 7], 8, n, 15);
  }

  /** The texts printed for -255, 8 and 0. */
  lemma PrintExamples()
    ensures Text(true, 255, 16) == "-0xff" && Text(false, 8, 8) == "010" && Text(false, 0, 10) == "0"
  {
    assert Digits(15, 16) == "" + "f";
    assert Digits(255, 16) == Digits(15, 16) + "f";
    assert Digits(1, 8) == "" + "1";
    assert Digits(8, 8) == Digits(1, 8) + "0";
  }

  lemma TwoDigits(a: nat, b: nat, base: nat)
    ensures Number([a, b], base, 0) == a * base + b
  {
    assert [a, b][1..] == [b] && [b][1..] == [];
    assert Number([], base, a * base + b) == a * base + b;
    assert Number([b], base, a) == a * base + b;
  }
}
