/** The reduced triangular form depends only on the solution set. */
module CanonicalForm {
  import opened Modular
  import opened SparsePoly
  import opened Systems
  import opened Rref

  ghost predicate Monic(rows: seq<Poly>) {
    forall i :: 0 <= i < |rows| ==> rows[i] != [] && rows[i][0].c == 1
  }

  /** Monic rows with strictly decreasing leading variables, none of which occurs in another row. */
  ghost predicate ReducedBasis(rows: seq<Poly>, p: int) {
    && Triangular(rows, p) && ReducedFrom(rows, 0) && Monic(rows)
    && forall i :: 0 <= i < |rows| ==> rows[i][0].m > 0
  }

  ghost predicate IsLead(rows: seq<Poly>, m: int) {
    exists j :: 0 <= j < |rows| && rows[j] != [] && rows[j][0].m == m
  }

  ghost function LeadRow(rows: seq<Poly>, m: int): (j: int)
    requires IsLead(rows, m)
    ensures 0 <= j < |rows| && rows[j] != [] && rows[j][0].m == m
  {
    var j :| 0 <= j < |rows| && rows[j] != [] && rows[j][0].m == m; j
  }

  /** The solution of a reduced basis whose free variables are 0, except that m is 1. */
  ghost function Solution(rows: seq<Poly>, m: int): Assignment {
    k =>
      if k == 0 then 1
      else if IsLead(rows, k) then
        -(Coef(rows[LeadRow(rows, k)], 0) + if m == 0 then 0 else Coef(rows[LeadRow(rows, k)], m))
      else if k == m then 1 else 0
  }

  lemma LeadRowUnique(rows: seq<Poly>, j: nat, p: int)
    requires Triangular(rows, p) && j < |rows|
    ensures IsLead(rows, rows[j][0].m) && LeadRow(rows, rows[j][0].m) == j
  {
    var k := rows[j][0].m;
    assert IsLead(rows, k);
    var i := LeadRow(rows, k);
    assert i == j;
  }

  lemma {:induction false} MonomialOccurs(f: Poly, i: nat, p: int)
    requires Canon(f, p) && i < |f|
    ensures Coef(f, f[i].m) != 0
  {
    if i > 0 {
      CanonTail(f, p);
      MonomialOccurs(f[1..], i - 1, p);
    }
  }

  /** A row of a reduced basis contains no leading variable but its own. */
  lemma OnlyOwnLead(rows: seq<Poly>, j: nat, i: nat, p: int)
    requires ReducedBasis(rows, p) && j < |rows| && i < |rows[j]| && IsLead(rows, rows[j][i].m)
    ensures rows[j][i].m == rows[j][0].m
  {
    MonomialOccurs(rows[j], i, p);
    var k := LeadRow(rows, rows[j][i].m);
    assert k == j;
  }

  lemma BasisRow(rows: seq<Poly>, j: nat, p: int)
    requires ReducedBasis(rows, p) && j < |rows|
    ensures Canon(rows[j], p) && rows[j] != [] && rows[j][0].c == 1 && rows[j][0].m > 0
    ensures Coef(rows[j], rows[j][0].m) == 1 && Below(rows[j], rows[j][0].m + 1)
  {
    BelowHead(rows[j], rows[j][0].m + 1, p);
  }

  lemma {:induction false} EvalZero(f: Poly)
    ensures Eval(f, k => 0) == 0
  {
    if f != [] {
      EvalZero(f[1..]);
    }
  }

  /** Value of a row at the base solution, for any row whose only leading variable is l. */
  lemma EvalBase(rows: seq<Poly>, f: Poly, l: int, p: int)
    requires Canon(f, p) && l > 0 && IsLead(rows, l)
    requires forall i :: 0 <= i < |f| && IsLead(rows, f[i].m) ==> f[i].m == l
    ensures Eval(f, Solution(rows, 0)) == Coef(f, 0) - Coef(f, l) * Coef(rows[LeadRow(rows, l)], 0)
  {
    hide Eval, Canon, Coef;
    var z: Assignment := k => 0;
    EvalZero(f);
    EvalChange(f, z, Solution(rows, 0), 0, l, p);
  }

  /** Making the free variable m equal to 1 changes a row by its coefficient of m and through l. */
  lemma EvalFree(rows: seq<Poly>, f: Poly, l: int, m: int, p: int)
    requires Canon(f, p) && l > 0 && IsLead(rows, l) && m > 0 && !IsLead(rows, m)
    requires forall i :: 0 <= i < |f| && IsLead(rows, f[i].m) ==> f[i].m == l
    ensures Eval(f, Solution(rows, m)) - Eval(f, Solution(rows, 0)) ==
            Coef(f, m) - Coef(f, l) * Coef(rows[LeadRow(rows, l)], m)
  {
    hide Eval, Canon, Coef;
    EvalChange(f, Solution(rows, 0), Solution(rows, m), m, l, p);
  }

  lemma SolutionSolves(rows: seq<Poly>, m: int, p: int)
    requires ReducedBasis(rows, p) && m >= 0 && !IsLead(rows, m)
    ensures Point(Solution(rows, m)) && Sol(rows, Solution(rows, m), p)
  {
    hide Eval, Canon, Coef, Below;
    forall j | 0 <= j < |rows|
      ensures Vanishes(rows[j], Solution(rows, m), p)
    {
      var f, l := rows[j], rows[j][0].m;
      BasisRow(rows, j, p);
      LeadRowUnique(rows, j, p);
      forall i | 0 <= i < |f| && IsLead(rows, f[i].m)
        ensures f[i].m == l
      {
        OnlyOwnLead(rows, j, i, p);
      }
      EvalBase(rows, f, l, p);
      if m > 0 {
        EvalFree(rows, f, l, m, p);
      }
      CongRefl(0, p);
    }
  }

  // ---------- equal leading variables ----------

  lemma VanishingDifference(f: Poly, x: Assignment, y: Assignment, p: int)
    requires Vanishes(f, x, p) && Vanishes(f, y, p)
    ensures Cong(Eval(f, y) - Eval(f, x), 0, p)
  {
    hide Eval, Cong;
    CongSub(Eval(f, y), 0, Eval(f, x), 0, p);
  }

  /** A leading variable of one basis is a leading variable of the other. */
  lemma LeadIsLead(a: seq<Poly>, b: seq<Poly>, i: nat, p: int)
    requires p >= 2 && ReducedBasis(a, p) && ReducedBasis(b, p) && SameSolutions(a, b, p) && i < |a|
    ensures IsLead(b, a[i][0].m)
  {
    hide Eval, Canon, Coef, Below, Cong, Triangular, ReducedFrom;
    BasisRow(a, i, p);
    var f, l := a[i], a[i][0].m;
    if !IsLead(b, l) {
      assert !IsLead(b, 0);
      SolutionSolves(b, 0, p);
      SolutionSolves(b, l, p);
      var x, y := Solution(b, 0), Solution(b, l);
      assert Sol(a, x, p) && Sol(a, y, p);
      VanishingDifference(f, x, y, p);
      forall k | 0 <= k < |f| && f[k].m != l && f[k].m != -1
        ensures x(f[k].m) == y(f[k].m)
      {
        LowerUnchanged(b, f, k, l, p);
      }
      EvalChange(f, x, y, l, -1, p);
      CoefRange(f, -1, p);
      assert Eval(f, y) - Eval(f, x) == 1;
      CongUnique(1, 0, p);
    }
  }

  /** Below a free variable l the solutions for l = 0 and l = 1 agree. */
  lemma LowerUnchanged(b: seq<Poly>, f: Poly, k: nat, l: int, p: int)
    requires ReducedBasis(b, p) && k < |f| && Below(f, l + 1) && f[k].m != l && l > 0
    ensures Solution(b, 0)(f[k].m) == Solution(b, l)(f[k].m)
  {
    var m := f[k].m;
    if m != 0 && IsLead(b, m) {
      var j := LeadRow(b, m);
      BasisRow(b, j, p);
      CoefBelow(b[j], m + 1, l);
    }
  }

  ghost function Leads(rows: seq<Poly>): (s: seq<int>)
    requires forall i :: 0 <= i < |rows| ==> rows[i] != []
    ensures |s| == |rows| && forall i :: 0 <= i < |rows| ==> s[i] == rows[i][0].m
  {
    seq(|rows|, i requires 0 <= i < |rows| => rows[i][0].m)
  }

  ghost predicate Decreasing(s: seq<int>) {
    forall i, j :: 0 <= i < j < |s| ==> s[i] > s[j]
  }

  /** Strictly decreasing sequences with the same elements are equal. */
  lemma {:induction false} SameDecreasing(s: seq<int>, t: seq<int>)
    requires Decreasing(s) && Decreasing(t)
    requires forall v :: v in s <==> v in t
    ensures s == t
  {
    if s != [] || t != [] {
      if s != [] {
        assert s[0] in s;
      }
      if t != [] {
        assert t[0] in t;
      }
      assert s[0] == t[0];
      forall v
        ensures v in s[1..] <==> v in t[1..]
      {
        TailMember(s, v);
        TailMember(t, v);
      }
      SameDecreasing(s[1..], t[1..]);
      assert s == [s[0]] + s[1..] && t == [t[0]] + t[1..];
    }
  }

  lemma TailMember(s: seq<int>, v: int)
    requires Decreasing(s) && s != []
    ensures v in s[1..] <==> v in s && v != s[0]
  {
    assert s == [s[0]] + s[1..];
  }

  lemma SameLeads(a: seq<Poly>, b: seq<Poly>, p: int)
    requires p >= 2 && ReducedBasis(a, p) && ReducedBasis(b, p) && SameSolutions(a, b, p)
    ensures |a| == |b| && forall i :: 0 <= i < |a| ==> a[i] != [] && b[i] != [] && a[i][0].m == b[i][0].m
  {
    var s, t := Leads(a), Leads(b);
    forall v
      ensures v in s <==> v in t
    {
      if v in s {
        var i :| 0 <= i < |s| && s[i] == v;
        LeadIsLead(a, b, i, p);
        assert t[LeadRow(b, v)] == v;
      }
      if v in t {
        var i :| 0 <= i < |t| && t[i] == v;
        LeadIsLead(b, a, i, p);
        assert s[LeadRow(a, v)] == v;
      }
    }
    SameDecreasing(s, t);
  }

  // ---------- equal rows ----------

  lemma SameLeadSet(a: seq<Poly>, b: seq<Poly>, m: int)
    requires |a| == |b| && forall i :: 0 <= i < |a| ==> a[i] != [] && b[i] != [] && a[i][0].m == b[i][0].m
    ensures IsLead(a, m) <==> IsLead(b, m)
  {
    if IsLead(a, m) {
      var j := LeadRow(a, m);
      assert b[j][0].m == m;
    }
    if IsLead(b, m) {
      var j := LeadRow(b, m);
      assert a[j][0].m == m;
    }
  }

  lemma SameCoef(a: seq<Poly>, b: seq<Poly>, i: nat, m: int, p: int)
    requires p >= 2 && ReducedBasis(a, p) && ReducedBasis(b, p) && SameSolutions(a, b, p)
    requires i < |a| == |b|
    requires forall k :: 0 <= k < |a| ==> a[k] != [] && b[k] != [] && a[k][0].m == b[k][0].m
    ensures Coef(a[i], m) == Coef(b[i], m)
  {
    hide Eval, Canon, Below, Cong, Coef;
    var l := a[i][0].m;
    BasisRow(a, i, p);
    BasisRow(b, i, p);
    CoefRange(a[i], m, p);
    CoefRange(b[i], m, p);
    if m < 0 || m == l {
    } else if IsLead(b, m) {
      var k := LeadRow(b, m);
      assert k != i && Coef(a[i], a[k][0].m) == 0 && Coef(b[i], b[k][0].m) == 0;
    } else {
      SameFreeCoef(a, b, i, m, p);
    }
  }

  lemma SameFreeCoef(a: seq<Poly>, b: seq<Poly>, i: nat, m: int, p: int)
    requires p >= 2 && ReducedBasis(a, p) && ReducedBasis(b, p) && SameSolutions(a, b, p)
    requires i < |a| == |b| && m >= 0 && !IsLead(b, m)
    requires forall k :: 0 <= k < |a| ==> a[k] != [] && b[k] != [] && a[k][0].m == b[k][0].m
    ensures Coef(a[i], m) == Coef(b[i], m)
  {
    hide Eval, Canon, Below, Cong, Coef, Triangular, ReducedFrom;
    var f, l := a[i], a[i][0].m;
    BasisRow(a, i, p);
    BasisRow(b, i, p);
    CoefRange(f, m, p);
    CoefRange(b[i], m, p);
    BasisLead(b, i, p);
    assert !IsLead(b, 0);
    SolutionSolves(b, 0, p);
    SolutionSolves(b, m, p);
    var x, y := Solution(b, 0), Solution(b, m);
    assert Sol(a, x, p) && Sol(a, y, p);
    forall k | 0 <= k < |f| && IsLead(b, f[k].m)
      ensures f[k].m == l
    {
      SameLeadSet(a, b, f[k].m);
      OnlyOwnLead(a, i, k, p);
    }
    assert 1 * Coef(b[i], m) == Coef(b[i], m);
    if m == 0 {
      EvalBase(b, f, l, p);
      EqualFromDifference(Eval(f, x), Coef(f, 0), Coef(b[i], 0), p);
    } else {
      EvalFree(b, f, l, m, p);
      VanishingDifference(f, x, y, p);
      EqualFromDifference(Eval(f, y) - Eval(f, x), Coef(f, m), Coef(b[i], m), p);
    }
  }

  lemma BasisLead(b: seq<Poly>, i: nat, p: int)
    requires ReducedBasis(b, p) && i < |b|
    ensures IsLead(b, b[i][0].m) && LeadRow(b, b[i][0].m) == i
  {
    LeadRowUnique(b, i, p);
  }

  lemma EqualFromDifference(d: int, u: int, v: int, p: int)
    requires 0 <= u < p && 0 <= v < p && d == u - v && Cong(d, 0, p)
    ensures u == v
  {
    CongRefl(v, p);
    CongAdd(u - v, 0, v, v, p);
    CongUnique(u, v, p);
  }

  /** Two reduced bases with the same solutions are the same rows. */
  lemma BasisUnique(a: seq<Poly>, b: seq<Poly>, p: int)
    requires p >= 2 && ReducedBasis(a, p) && ReducedBasis(b, p) && SameSolutions(a, b, p)
    ensures a == b
  {
    hide Eval, Below, Cong, SameSolutions, Canon, Coef;
    SameLeads(a, b, p);
    forall i | 0 <= i < |a|
      ensures a[i] == b[i]
    {
      forall m
        ensures Coef(a[i], m) == Coef(b[i], m)
      {
        SameCoef(a, b, i, m, p);
      }
      BasisRow(a, i, p);
      BasisRow(b, i, p);
      CanonUnique(a[i], b[i], p);
    }
  }

  // ---------- the theorem ----------

  /** `out` is what the solver returns for `rows` in its normalizing mode. */
  ghost predicate NormalForm(rows: seq<Poly>, out: seq<Poly>, p: int) {
    Triangular(out, p) && ReducedFrom(out, 0) && Monic(out) && SameSolutions(rows, out, p)
  }

  /** For consistent systems the outputs are identical exactly when the solution sets are. */
  lemma OutputsAgreeIffSolutionsAgree(rows1: seq<Poly>, out1: seq<Poly>, rows2: seq<Poly>, out2: seq<Poly>, p: int)
    requires IsPrime(p) && NormalForm(rows1, out1, p) && NormalForm(rows2, out2, p)
    requires Satisfiable(rows1, p) && Satisfiable(rows2, p)
    ensures out1 == out2 <==> SameSolutions(rows1, rows2, p)
  {
    hide Sol;
    if SameSolutions(rows1, rows2, p) {
      ConsistentBasis(rows1, out1, p);
      ConsistentBasis(rows2, out2, p);
      BasisUnique(out1, out2, p);
    }
  }

  lemma ConsistentBasis(rows: seq<Poly>, out: seq<Poly>, p: int)
    requires NormalForm(rows, out, p) && Satisfiable(rows, p)
    ensures ReducedBasis(out, p)
  {
    var x: Assignment :| Point(x) && Sol(rows, x, p);
    assert Sol(out, x, p);
    forall i | 0 <= i < |out|
      ensures out[i][0].m > 0
    {
      CanonTail(out[i], p);
      if out[i][0].m == 0 {
        ConstNeverVanishes(out[i], x, p);
      }
    }
  }
}
