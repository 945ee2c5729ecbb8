/** Linear polynomials over F_p as term sequences: the value a coefficient list of calc.c
    denotes.  Monomial 0 is the constant, monomial m > 0 the m-th variable. */
module SparsePoly {
  import opened Modular
  import opened FieldFF

  datatype Term = Term(c: int, m: int)
  type Poly = seq<Term>

  /** No monomial reaches k. */
  ghost predicate Below(f: Poly, k: int) {
    forall i :: 0 <= i < |f| ==> f[i].m < k
  }

  /** Strictly decreasing monomials and no zero coefficient. */
  ghost predicate Canon(f: Poly, p: int) {
    && (forall i :: 0 <= i < |f| ==> 0 < f[i].c < p && f[i].m >= 0)
    && (forall i, j :: 0 <= i < j < |f| ==> f[i].m > f[j].m)
  }

  function Coef(f: Poly, m: int): int {
    if f == [] then 0 else if f[0].m == m then f[0].c else Coef(f[1..], m)
  }

  /** An assignment of values to monomials; a point gives the constant monomial 1. */
  type Assignment = int -> int

  ghost predicate Point(x: Assignment) { x(0) == 1 }

  ghost function Eval(f: Poly, x: Assignment): int {
    if f == [] then 0 else f[0].c * x(f[0].m) + Eval(f[1..], x)
  }

  function NegMul(c: int, b: int, p: int): (r: int)
    requires p > 0
    ensures 0 <= r < p && Cong(r, -(c * b), p)
  {
    CongMod(-(c * b), p);
    (-(c * b)) % p
  }

  function SubMul(a: int, c: int, b: int, p: int): (r: int)
    requires p > 0
    ensures 0 <= r < p && Cong(r, a - c * b, p)
  {
    CongMod(a - c * b, p);
    (a - c * b) % p
  }

  function NegScale(c: int, g: Poly, p: int): (h: Poly)
    requires p > 0
    ensures |h| == |g|
  {
    if g == [] then [] else [Term(NegMul(c, g[0].c, p), g[0].m)] + NegScale(c, g[1..], p)
  }

  /** f - c*g, merged by monomial, dropping terms that cancel. */
  function Minus(f: Poly, c: int, g: Poly, p: int): Poly
    requires p > 0
    decreases |f| + |g|
  {
    if f == [] then NegScale(c, g, p)
    else if g == [] then f
    else if f[0].m == g[0].m then
      var d := SubMul(f[0].c, c, g[0].c, p);
      if d != 0 then [Term(d, f[0].m)] + Minus(f[1..], c, g[1..], p)
      else Minus(f[1..], c, g[1..], p)
    else if f[0].m > g[0].m then [f[0]] + Minus(f[1..], c, g, p)
    else [Term(NegMul(c, g[0].c, p), g[0].m)] + Minus(f, c, g[1..], p)
  }

  // ---------- canonical polynomials ----------

  lemma CanonTail(f: Poly, p: int)
    requires Canon(f, p) && f != []
    ensures Canon(f[1..], p) && Below(f[1..], f[0].m)
    ensures 0 < f[0].c < p && f[0].m >= 0
  {
  }

  lemma CanonCons(t: Term, f: Poly, p: int)
    requires Canon(f, p) && Below(f, t.m) && 0 < t.c < p && t.m >= 0
    ensures Canon([t] + f, p) && Below([t] + f, t.m + 1)
  {
  }

  lemma BelowMono(f: Poly, k: int, l: int)
    requires Below(f, k) && k <= l
    ensures Below(f, l)
  {
  }

  lemma BelowHead(f: Poly, k: int, p: int)
    requires Canon(f, p) && f != [] && f[0].m < k
    ensures Below(f, k)
  {
  }

  lemma {:induction false} CoefBelow(f: Poly, k: int, m: int)
    requires Below(f, k) && k <= m
    ensures Coef(f, m) == 0
  {
    if f != [] {
      assert Below(f[1..], k);
      CoefBelow(f[1..], k, m);
    }
  }

  lemma {:induction false} CoefRange(f: Poly, m: int, p: int)
    requires Canon(f, p) && p > 0
    ensures 0 <= Coef(f, m) < p
    ensures m < 0 ==> Coef(f, m) == 0
  {
    if f != [] {
      CanonTail(f, p);
      CoefRange(f[1..], m, p);
    }
  }

  /** A leading monomial that g does not reach tells f from g. */
  lemma HeadDistinguishes(f: Poly, g: Poly, p: int)
    requires Canon(f, p) && Canon(g, p) && f != []
    requires g != [] ==> g[0].m < f[0].m
    ensures Coef(f, f[0].m) != Coef(g, f[0].m)
  {
    hide Canon, Below;
    CanonTail(f, p);
    if g != [] {
      BelowHead(g, f[0].m, p);
      CoefBelow(g, f[0].m, f[0].m);
    }
  }

  /** A canonical list is determined by its coefficients. */
  lemma {:induction false} CanonUnique(f: Poly, g: Poly, p: int)
    requires Canon(f, p) && Canon(g, p)
    requires forall m :: Coef(f, m) == Coef(g, m)
    ensures f == g
  {
    hide Canon, Below;
    if f == [] && g == [] {
    } else if g == [] || (f != [] && f[0].m > g[0].m) {
      HeadDistinguishes(f, g, p);
    } else if f == [] || g[0].m > f[0].m {
      HeadDistinguishes(g, f, p);
    } else {
      CanonTail(f, p);
      CanonTail(g, p);
      var k := f[0].m;
      assert Coef(f, k) == Coef(g, k);
      forall m
        ensures Coef(f[1..], m) == Coef(g[1..], m)
      {
        CoefBelow(f[1..], k, k);
        CoefBelow(g[1..], k, k);
        assert Coef(f, m) == Coef(g, m);
      }
      CanonUnique(f[1..], g[1..], p);
      assert f == [f[0]] + f[1..] && g == [g[0]] + g[1..];
    }
  }

  /** A nonzero multiple of a nonzero coefficient is nonzero. */
  lemma NegMulNonzero(c: int, b: int, p: int)
    requires IsPrime(p) && 0 < c < p && 0 < b < p
    ensures NegMul(c, b, p) != 0
  {
    if NegMul(c, b, p) == 0 {
      CongSym(0, -(c * b), p);
      CongScale(-1, -(c * b), 0, p);
      NoZeroDivisors(c, b, p);
      CongUnique(b, 0, p);
    }
  }

  lemma {:induction false} CanonNegScale(c: int, g: Poly, p: int, k: int)
    requires IsPrime(p) && 0 < c < p && Canon(g, p) && Below(g, k)
    ensures Canon(NegScale(c, g, p), p) && Below(NegScale(c, g, p), k)
  {
    if g != [] {
      CanonTail(g, p);
      NegMulNonzero(c, g[0].c, p);
      CanonNegScale(c, g[1..], p, g[0].m);
      CanonCons(Term(NegMul(c, g[0].c, p), g[0].m), NegScale(c, g[1..], p), p);
    }
  }

  /** The merge keeps canonical form and the bound on monomials. */
  lemma {:induction false} CanonMinus(f: Poly, c: int, g: Poly, p: int, k: int)
    requires IsPrime(p) && 0 < c < p && Canon(f, p) && Canon(g, p) && Below(f, k) && Below(g, k)
    ensures Canon(Minus(f, c, g, p), p) && Below(Minus(f, c, g, p), k)
    decreases |f| + |g|
  {
    hide Canon, IsPrime, Cong;
    if f == [] {
      CanonNegScale(c, g, p, k);
    } else if g == [] {
    } else {
      CanonTail(f, p);
      CanonTail(g, p);
      CanonMinusStep(f, c, g, p, k);
    }
  }

  lemma {:induction false} CanonMinusStep(f: Poly, c: int, g: Poly, p: int, k: int)
    requires IsPrime(p) && 0 < c < p && Canon(f, p) && Canon(g, p) && Below(f, k) && Below(g, k)
    requires f != [] && g != []
    ensures Canon(Minus(f, c, g, p), p) && Below(Minus(f, c, g, p), k)
    decreases |f| + |g|, 0
  {
    hide Canon, IsPrime, Cong, Below;
    CanonTail(f, p);
    CanonTail(g, p);
    var k0 := if f[0].m >= g[0].m then f[0].m else g[0].m;
    BelowHeads(f, g, k, k0);
    if f[0].m == g[0].m {
      CanonMinus(f[1..], c, g[1..], p, k0);
      var d := SubMul(f[0].c, c, g[0].c, p);
      var rest := Minus(f[1..], c, g[1..], p);
      if d != 0 {
        CanonCons(Term(d, k0), rest, p);
        BelowMono([Term(d, k0)] + rest, k0 + 1, k);
      } else {
        BelowMono(rest, k0, k);
      }
    } else if f[0].m > g[0].m {
      BelowHead(g, k0, p);
      CanonMinus(f[1..], c, g, p, k0);
      CanonCons(f[0], Minus(f[1..], c, g, p), p);
      BelowMono([f[0]] + Minus(f[1..], c, g, p), k0 + 1, k);
    } else {
      BelowHead(f, k0, p);
      NegMulNonzero(c, g[0].c, p);
      CanonMinus(f, c, g[1..], p, k0);
      var t := Term(NegMul(c, g[0].c, p), k0);
      CanonCons(t, Minus(f, c, g[1..], p), p);
      BelowMono([t] + Minus(f, c, g[1..], p), k0 + 1, k);
    }
  }

  lemma BelowHeads(f: Poly, g: Poly, k: int, k0: int)
    requires f != [] && g != [] && Below(f, k) && Below(g, k)
    requires k0 == f[0].m || k0 == g[0].m
    ensures k0 + 1 <= k
  {
  }

  /** Subtracting the multiple that cancels the leading term lowers the leading monomial. */
  lemma MinusCancels(f: Poly, c: int, g: Poly, p: int)
    requires IsPrime(p) && 0 < c < p && Canon(f, p) && Canon(g, p) && f != [] && g != []
    requires f[0].m == g[0].m && Cong(c * g[0].c, f[0].c, p)
    ensures Canon(Minus(f, c, g, p), p) && Below(Minus(f, c, g, p), f[0].m)
  {
    hide Canon, Below, IsPrime;
    CanonTail(f, p);
    CanonTail(g, p);
    var d := SubMul(f[0].c, c, g[0].c, p);
    CongSym(c * g[0].c, f[0].c, p);
    CongRefl(c * g[0].c, p);
    CongSub(f[0].c, c * g[0].c, c * g[0].c, c * g[0].c, p);
    CongTrans(d, f[0].c - c * g[0].c, 0, p);
    CongUnique(d, 0, p);
    CanonMinus(f[1..], c, g[1..], p, f[0].m);
    assert Minus(f, c, g, p) == Minus(f[1..], c, g[1..], p);
  }

  // ---------- coefficients and values of the merge ----------

  lemma {:induction false} CoefNegScale(c: int, g: Poly, p: int, m: int)
    requires p > 0
    ensures Coef(NegScale(c, g, p), m) == (-(c * Coef(g, m))) % p
  {
    if g != [] {
      CoefNegScale(c, g[1..], p, m);
      assert NegScale(c, g, p)[1..] == NegScale(c, g[1..], p);
    }
  }

  /** Every coefficient of the result is the difference of the coefficients. */
  lemma {:induction false} CoefMinus(f: Poly, c: int, g: Poly, p: int, m: int)
    requires p > 0 && Canon(f, p) && Canon(g, p)
    ensures Coef(Minus(f, c, g, p), m) == (Coef(f, m) - c * Coef(g, m)) % p
    decreases |f| + |g|
  {
    hide Canon, Below, Cong;
    if f == [] {
      CoefNegScale(c, g, p, m);
    } else if g == [] {
      CoefRange(f, m, p);
      SmallMod(Coef(f, m), p);
    } else {
      CoefMinusStep(f, c, g, p, m);
    }
  }

  lemma {:induction false} CoefMinusStep(f: Poly, c: int, g: Poly, p: int, m: int)
    requires p > 0 && Canon(f, p) && Canon(g, p) && f != [] && g != []
    ensures Coef(Minus(f, c, g, p), m) == (Coef(f, m) - c * Coef(g, m)) % p
    decreases |f| + |g|, 0
  {
    hide Canon, Below, Cong;
    CanonTail(f, p);
    CanonTail(g, p);
    if f[0].m == g[0].m {
      var d := SubMul(f[0].c, c, g[0].c, p);
      var rest := Minus(f[1..], c, g[1..], p);
      CoefMinus(f[1..], c, g[1..], p, m);
      if d != 0 {
        assert ([Term(d, f[0].m)] + rest)[1..] == rest;
      } else if m == f[0].m {
        CoefBelow(f[1..], m, m);
        CoefBelow(g[1..], m, m);
        SmallMod(0, p);
      }
    } else if f[0].m > g[0].m {
      var rest := Minus(f[1..], c, g, p);
      CoefMinus(f[1..], c, g, p, m);
      assert ([f[0]] + rest)[1..] == rest;
      if m == f[0].m {
        BelowHead(g, m, p);
        CoefBelow(g, m, m);
        SmallMod(f[0].c, p);
      }
    } else {
      var rest := Minus(f, c, g[1..], p);
      CoefMinus(f, c, g[1..], p, m);
      var t := Term(NegMul(c, g[0].c, p), g[0].m);
      assert ([t] + rest)[1..] == rest;
      if m == g[0].m {
        BelowHead(f, m, p);
        CoefBelow(f, m, m);
      }
    }
  }

  lemma {:induction false} EvalNegScale(c: int, g: Poly, p: int, x: Assignment)
    requires p > 0
    ensures Cong(Eval(NegScale(c, g, p), x), -(c * Eval(g, x)), p)
  {
    hide Cong;
    if g == [] {
      CongRefl(0, p);
    } else {
      EvalNegScale(c, g[1..], p, x);
      var h := NegScale(c, g, p);
      assert h[1..] == NegScale(c, g[1..], p);
      var v := x(g[0].m);
      LeadPlus(h[0].c, -(c * g[0].c), v, Eval(h[1..], x), -(c * Eval(g[1..], x)), p);
      SplitProducts(0, g[0].c, c, v, 0, Eval(g[1..], x));
    }
  }

  /** The merge computes f - c*g as a function on points. */
  lemma {:induction false} EvalMinus(f: Poly, c: int, g: Poly, p: int, x: Assignment)
    requires p > 0
    ensures Cong(Eval(Minus(f, c, g, p), x), Eval(f, x) - c * Eval(g, x), p)
    decreases |f| + |g|
  {
    hide Cong;
    if f == [] {
      EvalNegScale(c, g, p, x);
    } else if g == [] {
      CongRefl(Eval(f, x), p);
    } else {
      EvalMinusStep(f, c, g, p, x);
    }
  }

  lemma EvalCons(t: Term, f: Poly, x: Assignment)
    ensures Eval([t] + f, x) == t.c * x(t.m) + Eval(f, x)
  {
    assert ([t] + f)[1..] == f;
  }

  /** A congruent leading coefficient times a value, plus congruent rests. */
  lemma LeadPlus(d: int, e: int, v: int, a: int, b: int, p: int)
    requires Cong(d, e, p) && Cong(a, b, p)
    ensures Cong(d * v + a, e * v + b, p)
  {
    CongScale(v, d, e, p);
    assert v * d == d * v && v * e == e * v;
    CongAdd(d * v, e * v, a, b, p);
  }

  lemma SplitProducts(a: int, b: int, c: int, v: int, s: int, t: int)
    ensures (a - c * b) * v + (s - c * t) == (a * v + s) - c * (b * v + t)
    ensures -(c * b) * v + (s - c * t) == s - c * (b * v + t)
  {
    assert (a - c * b) * v == a * v - c * (b * v);
    assert c * (b * v + t) == c * (b * v) + c * t;
    assert -(c * b) * v == -(c * (b * v));
  }

  lemma EvalUnfold(f: Poly, x: Assignment)
    requires f != []
    ensures Eval(f, x) == f[0].c * x(f[0].m) + Eval(f[1..], x)
  {
  }

  /** One step of the merge: the leading term it emits, if any, and what it has still to merge. */
  lemma EvalOfStep(f: Poly, c: int, g: Poly, p: int, x: Assignment, d: int, k: int, rest: Poly)
    requires p > 0 && f != [] && g != []
    requires f[0].m == g[0].m ==> k == f[0].m && d == SubMul(f[0].c, c, g[0].c, p) && rest == Minus(f[1..], c, g[1..], p)
    requires f[0].m > g[0].m ==> k == f[0].m && d == f[0].c && rest == Minus(f[1..], c, g, p)
    requires f[0].m < g[0].m ==> k == g[0].m && d == NegMul(c, g[0].c, p) && rest == Minus(f, c, g[1..], p)
    ensures Eval(Minus(f, c, g, p), x) == d * x(k) + Eval(rest, x)
  {
    EvalCons(Term(d, k), rest, x);
    hide SubMul, NegMul, Eval;
  }

  lemma {:induction false} EvalMinusStep(f: Poly, c: int, g: Poly, p: int, x: Assignment)
    requires p > 0 && f != [] && g != []
    ensures Cong(Eval(Minus(f, c, g, p), x), Eval(f, x) - c * Eval(g, x), p)
    decreases |f| + |g|, 0
  {
    hide *;
    EvalUnfold(f, x);
    EvalUnfold(g, x);
    if f[0].m == g[0].m {
      var v, d, rest := x(f[0].m), SubMul(f[0].c, c, g[0].c, p), Minus(f[1..], c, g[1..], p);
      EvalMinus(f[1..], c, g[1..], p, x);
      LeadPlus(d, f[0].c - c * g[0].c, v, Eval(rest, x), Eval(f[1..], x) - c * Eval(g[1..], x), p);
      SplitProducts(f[0].c, g[0].c, c, v, Eval(f[1..], x), Eval(g[1..], x));
      EvalOfStep(f, c, g, p, x, d, f[0].m, rest);
    } else if f[0].m > g[0].m {
      var v, d, rest := x(f[0].m), f[0].c, Minus(f[1..], c, g, p);
      EvalMinus(f[1..], c, g, p, x);
      CongRefl(d, p);
      LeadPlus(d, d, v, Eval(rest, x), Eval(f[1..], x) - c * Eval(g, x), p);
      EvalOfStep(f, c, g, p, x, d, f[0].m, rest);
    } else {
      var v, d, rest := x(g[0].m), NegMul(c, g[0].c, p), Minus(f, c, g[1..], p);
      EvalMinus(f, c, g[1..], p, x);
      LeadPlus(d, -(c * g[0].c), v, Eval(rest, x), Eval(f, x) - c * Eval(g[1..], x), p);
      SplitProducts(0, g[0].c, c, v, Eval(f, x), Eval(g[1..], x));
      EvalOfStep(f, c, g, p, x, d, g[0].m, rest);
    }
  }

  /** Two assignments that differ on f at most at the monomials a and b. */
  lemma {:induction false} EvalChange(f: Poly, x: Assignment, y: Assignment, a: int, b: int, p: int)
    requires Canon(f, p) && a != b
    requires forall i :: 0 <= i < |f| && f[i].m != a && f[i].m != b ==> x(f[i].m) == y(f[i].m)
    ensures Eval(f, y) - Eval(f, x) == Coef(f, a) * (y(a) - x(a)) + Coef(f, b) * (y(b) - x(b))
  {
    if f != [] {
      CanonTail(f, p);
      var g := f[1..];
      assert forall i :: 0 <= i < |g| ==> g[i] == f[i + 1];
      EvalChange(g, x, y, a, b, p);
      var k, c := f[0].m, f[0].c;
      assert c * y(k) - c * x(k) == c * (y(k) - x(k));
      CoefBelow(g, k, k);
      if k != a && k != b {
        assert c * (y(k) - x(k)) == 0;
      }
    }
  }
}
