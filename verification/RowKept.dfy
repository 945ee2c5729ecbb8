/** What the rows of the reduced form have to do with the rows of the input. */
module RowKept {
  import opened Modular
  import opened SparsePoly
  import opened Systems
  import opened RowOrigin
  import opened Rref

  // ---------- for every input ----------

  lemma ClearedEntails(tri: seq<Poly>, out: seq<Poly>, p: int)
    requires Cleared(tri, out, p)
    ensures Entails(out, tri, p)
  {
    hide Eval, Cong, Vanishes;
    forall x: Assignment, k | Sol(out, x, p) && 0 <= k < |tri|
      ensures Vanishes(tri[k], x, p)
    {
      assert AgreeWhere(out[k], tri[k], out[k + 1..], p);
      assert Sol(out[k + 1..], x, p);
      FromZero(out[k], tri[k], x, p);
    }
  }

  /** Output row k takes the values of input row pos[k] wherever the triangular rows before it and
      the output rows after it vanish. */
  lemma RowFromInput(rows: seq<Poly>, tri: seq<Poly>, out: seq<Poly>, pos: seq<nat>, k: nat, p: int)
    requires Picked(rows, tri, pos, p) && Cleared(tri, out, p) && k < |out|
    ensures pos[k] < |rows| && AgreeWhere(out[k], rows[pos[k]], tri[..k] + out[k + 1..], p)
  {
    hide AgreeWhere, Entails;
    var all := tri[..k] + out[k + 1..];
    PartsIn(tri[..k], out[k + 1..]);
    SubsetEntails(all, tri[..k], p);
    SubsetEntails(all, out[k + 1..], p);
    AgreeTrans(out[k], tri[k], rows[pos[k]], out[k + 1..], tri[..k], all, p);
  }

  lemma PartsIn(a: seq<Poly>, b: seq<Poly>)
    ensures forall i :: 0 <= i < |a| ==> a[i] in a + b
    ensures forall i :: 0 <= i < |b| ==> b[i] in a + b
  {
    forall i | 0 <= i < |b|
      ensures b[i] in a + b
    {
      assert (a + b)[|a| + i] == b[i];
    }
  }

  // ---------- when all other output rows vanish ----------

  /** The change of a row's value by the change of one variable. */
  lemma EvalAt(f: Poly, x: Assignment, m: int, v: int, p: int)
    requires Canon(f, p)
    ensures Eval(f, With(x, m, v)) - Eval(f, x) == Coef(f, m) * (v - x(m))
  {
    EvalChange(f, x, With(x, m, v), m, m + 1, p);
    assert Coef(f, m + 1) * 0 == 0;
    hide Eval, Coef, Canon;
  }

  /** The lead of a reduced row is in no other row. */
  lemma OtherRow(rows: seq<Poly>, k: nat, j: nat, p: int)
    requires Triangular(rows, p) && ReducedFrom(rows, 0) && k < |rows| && j < |rows| && j != k
    ensures rows[k] != [] && Canon(rows[k], p) && Canon(rows[j], p) && Coef(rows[j], rows[k][0].m) == 0
  {
  }

  lemma MoveLead(rows: seq<Poly>, k: nat, x: Assignment, v: int, p: int)
    requires Triangular(rows, p) && ReducedFrom(rows, 0) && k < |rows| && Sol(rows[k := []], x, p)
    ensures rows[k] != [] && Sol(rows[k := []], With(x, rows[k][0].m, v), p)
  {
    hide Eval, Coef, Cong, Canon;
    var y := With(x, rows[k][0].m, v);
    var others := rows[k := []];
    forall j | 0 <= j < |others|
      ensures Vanishes(others[j], y, p)
    {
      if j == k {
        VanishesEmpty(y, p);
      } else {
        OtherRow(rows, k, j, p);
        EvalAt(rows[j], x, rows[k][0].m, v, p);
        assert 0 * (v - x(rows[k][0].m)) == 0;
        assert Vanishes(others[j], x, p);
      }
    }
  }

  lemma SolvedLead(rows: seq<Poly>, k: nat, y: Assignment, p: int)
    requires k < |rows| && Sol(rows[k := []], y, p) && Vanishes(rows[k], y, p)
    ensures Sol(rows, y, p)
  {
    hide Vanishes;
    assert forall j :: 0 <= j < |rows| && j != k ==> rows[k := []][j] == rows[j];
  }

  lemma SameCoefAgrees(rows: seq<Poly>, k: nat, f: Poly, x: Assignment, p: int)
    requires IsPrime(p) && Triangular(rows, p) && ReducedFrom(rows, 0) && Entails(rows, [f], p) && Canon(f, p)
    requires k < |rows| && rows[k] != [] && Coef(f, rows[k][0].m) == Coef(rows[k], rows[k][0].m)
    requires Sol(rows[k := []], x, p)
    ensures Cong(Eval(rows[k], x), Eval(f, x), p)
  {
    hide Eval, Coef, Cong, Canon, IsPrime;
    var g := rows[k];
    var m := g[0].m;
    var v := LeadSolve(g, x, p);
    var y := With(x, m, v);
    MoveLead(rows, k, x, v, p);
    SolvedLead(rows, k, y, p);
    assert Vanishes([f][0], y, p);
    EvalAt(f, x, m, v, p);
    EvalAt(g, x, m, v, p);
    CongSub(Eval(g, y), 0, Eval(f, y), 0, p);
    CongRefl(Eval(f, x), p);
    CongAdd(Eval(g, x) - Eval(f, x), 0, Eval(f, x), Eval(f, x), p);
  }

  lemma {:induction false} ZeroEval(f: Poly)
    ensures Eval(f, k => 0) == 0
  {
    if f != [] {
      ZeroEval(f[1..]);
    }
  }

  lemma ZeroSolves(rows: seq<Poly>, p: int)
    ensures Sol(rows, k => 0, p)
  {
    forall i | 0 <= i < |rows|
      ensures Vanishes(rows[i], k => 0, p)
    {
      ZeroEval(rows[i]);
      CongRefl(0, p);
    }
    hide Eval, Cong;
  }

  lemma AgreesSameCoef(rows: seq<Poly>, k: nat, f: Poly, p: int)
    requires p > 0 && Triangular(rows, p) && ReducedFrom(rows, 0) && Canon(f, p)
    requires k < |rows| && rows[k] != [] && AgreeWhere(rows[k], f, rows[k := []], p)
    ensures Coef(f, rows[k][0].m) == Coef(rows[k], rows[k][0].m)
  {
    hide Eval, Coef, Cong, Canon, Sol;
    var g := rows[k];
    var m := g[0].m;
    var z: Assignment := k => 0;
    ZeroSolves(rows[k := []], p);
    MoveLead(rows, k, z, 1, p);
    EvalAt(f, z, m, 1, p);
    EvalAt(g, z, m, 1, p);
    ZeroEval(f);
    ZeroEval(g);
    CoefRange(f, m, p);
    CoefRange(g, m, p);
    CongUnique(Coef(g, m), Coef(f, m), p);
  }

  /** An output row takes the values of an input row wherever all other output rows vanish exactly
      when its leading variable has the same coefficient in that input row. */
  lemma RowKeptIff(rows: seq<Poly>, out: seq<Poly>, k: nat, i: nat, p: int)
    requires IsPrime(p) && AllCanon(rows, p) && i < |rows|
    requires Triangular(out, p) && ReducedFrom(out, 0) && Entails(out, rows, p) && k < |out|
    ensures out[k] != []
    ensures AgreeWhere(out[k], rows[i], out[k := []], p) <==> Coef(rows[i], out[k][0].m) == out[k][0].c
  {
    hide Eval, Cong, Vanishes, Canon, Coef;
    assert out[k] != [] && Canon(out[k], p);
    HeadCoef(out[k], p);
    forall x: Assignment | Sol(out, x, p)
      ensures Sol([rows[i]], x, p)
    {
      assert Vanishes(rows[i], x, p);
    }
    if Coef(rows[i], out[k][0].m) == out[k][0].c {
      forall x: Assignment | Sol(out[k := []], x, p)
        ensures Cong(Eval(out[k], x), Eval(rows[i], x), p)
      {
        SameCoefAgrees(out, k, rows[i], x, p);
      }
    }
    if AgreeWhere(out[k], rows[i], out[k := []], p) {
      PrimeBound(p);
      AgreesSameCoef(out, k, rows[i], p);
    }
  }

  lemma PrimeBound(p: int)
    requires IsPrime(p)
    ensures p >= 2
  {
  }

  /** So a reduced row need not come from any one input row: x2 + 2*x1 and x2 + 3*x1 are reduced to
      x2 and x1, and x1 is neither of them where x2 vanishes. */
  lemma NoRowKept(p: int)
    requires IsPrime(p) && p > 3
    ensures var rows, out := [[Term(1, 2), Term(2, 1)], [Term(1, 2), Term(3, 1)]], [[Term(1, 2)], [Term(1, 1)]];
      && AllCanon(rows, p) && Triangular(out, p) && ReducedFrom(out, 0) && Entails(out, rows, p)
      && forall i :: 0 <= i < |rows| ==> !AgreeWhere(out[1], rows[i], out[1 := []], p)
  {
    var rows: seq<Poly> := [[Term(1, 2), Term(2, 1)], [Term(1, 2), Term(3, 1)]];
    var out: seq<Poly> := [[Term(1, 2)], [Term(1, 1)]];
    ExampleRow(2, p);
    ExampleRow(3, p);
    ExampleOutput(p);
    hide *;
    assert AllCanon(rows, p) by { ExampleCanon(rows[0], rows[1], p); }
    ExampleEntails(p);
    RowKeptIff(rows, out, 1, 0, p);
    RowKeptIff(rows, out, 1, 1, p);
    forall i | 0 <= i < |rows|
      ensures !AgreeWhere(out[1], rows[i], out[1 := []], p)
    {
      assert rows[i] == rows[0] || rows[i] == rows[1];
    }
  }

  lemma ExampleCanon(f: Poly, g: Poly, p: int)
    requires Canon(f, p) && Canon(g, p)
    ensures AllCanon([f, g], p)
  {
    hide Canon;
  }

  lemma ExampleRow(c: int, p: int)
    requires 0 < c < p && p > 3
    ensures Canon([Term(1, 2), Term(c, 1)], p) && Coef([Term(1, 2), Term(c, 1)], 1) == c
    ensures forall x: Assignment :: Eval([Term(1, 2), Term(c, 1)], x) == x(2) + c * x(1)
  {
    var f := [Term(1, 2), Term(c, 1)];
    var g := [Term(c, 1)];
    assert f[1..] == g && g[1..] == [];
    assert Canon(g, p) && Below(g, 2);
    forall x: Assignment
      ensures Eval(f, x) == x(2) + c * x(1)
    {
      assert Eval(g, x) == c * x(1) + Eval([], x);
    }
  }

  lemma ExampleOutput(p: int)
    requires p > 3
    ensures var out := [[Term(1, 2)], [Term(1, 1)]]; Triangular(out, p) && ReducedFrom(out, 0)
  {
    assert [Term(1, 2)][1..] == [] && [Term(1, 1)][1..] == [];
  }

  lemma ExampleEntails(p: int)
    ensures Entails([[Term(1, 2)], [Term(1, 1)]], [[Term(1, 2), Term(2, 1)], [Term(1, 2), Term(3, 1)]], p)
  {
    var rows: seq<Poly> := [[Term(1, 2), Term(2, 1)], [Term(1, 2), Term(3, 1)]];
    var out: seq<Poly> := [[Term(1, 2)], [Term(1, 1)]];
    hide Cong, Vanishes;
    forall x: Assignment | Sol(out, x, p)
      ensures Sol(rows, x, p)
    {
      assert Vanishes(out[0], x, p) && Vanishes(out[1], x, p);
      SumVanishes(2, x, p);
      SumVanishes(3, x, p);
    }
  }

  lemma SumVanishes(c: int, x: Assignment, p: int)
    requires Vanishes([Term(1, 2)], x, p) && Vanishes([Term(1, 1)], x, p)
    ensures Vanishes([Term(1, 2), Term(c, 1)], x, p)
  {
    hide Cong;
    assert [Term(1, 2)][1..] == [] && [Term(1, 1)][1..] == [];
    var f := [Term(1, 2), Term(c, 1)];
    var g := [Term(c, 1)];
    assert f[1..] == g && g[1..] == [];
    assert Eval(g, x) == c * x(1) + Eval([], x);
    assert Eval(f, x) == x(2) + c * x(1);
    assert Eval([Term(1, 2)], x) == x(2) + Eval([], x);
    assert Eval([Term(1, 1)], x) == x(1) + Eval([], x);
    CongScale(c, x(1), 0, p);
    CongAdd(x(2), 0, c * x(1), c * 0, p);
  }

  /** The same rows, their triangular form x2 + 2*x1, x1 and the output are related as the solver
      promises in mode 1. */
  lemma NoRowKeptOutput(p: int)
    requires IsPrime(p) && p > 3
    ensures var rows, out := [[Term(1, 2), Term(2, 1)], [Term(1, 2), Term(3, 1)]], [[Term(1, 2)], [Term(1, 1)]];
      var tri := [[Term(1, 2), Term(2, 1)], [Term(1, 1)]];
      Picked(rows, tri, [0, 1], p) && SameHeads(tri, out) && Cleared(tri, out, p)
  {
    var rows: seq<Poly> := [[Term(1, 2), Term(2, 1)], [Term(1, 2), Term(3, 1)]];
    var out: seq<Poly> := [[Term(1, 2)], [Term(1, 1)]];
    var tri: seq<Poly> := [[Term(1, 2), Term(2, 1)], [Term(1, 1)]];
    ExampleRow(2, p);
    ExampleRow(3, p);
    ExampleUnits();
    AgreeRefl(tri[0], [], p);
    AgreeRefl(tri[1], [], p);
    assert tri[..0] == [] && tri[..1] == [tri[0]] && out[1..] == [out[1]] && out[2..] == [];
    hide Eval, Canon, Coef, IsPrime, Cong;
    forall x: Assignment | Sol([tri[0]], x, p)
      ensures Cong(Eval(tri[1], x), Eval(rows[1], x), p)
    {
      assert Vanishes([tri[0]][0], x, p);
      CongRefl(x(1), p);
      CongAdd(x(2) + 2 * x(1), 0, x(1), x(1), p);
      CongSym(x(2) + 2 * x(1) + x(1), 0 + x(1), p);
    }
    forall x: Assignment | Sol([out[1]], x, p)
      ensures Cong(Eval(out[0], x), Eval(tri[0], x), p)
    {
      assert Vanishes([out[1]][0], x, p);
      CongScale(2, x(1), 0, p);
      CongRefl(x(2), p);
      CongAdd(x(2), x(2), 2 * x(1), 2 * 0, p);
      CongSym(x(2) + 2 * x(1), x(2), p);
    }
    hide *;
    OutputFits(rows, tri, out, p);
  }

  lemma ExampleUnits()
    ensures forall x: Assignment :: Eval([Term(1, 2)], x) == x(2) && Eval([Term(1, 1)], x) == x(1)
  {
    assert [Term(1, 2)][1..] == [] && [Term(1, 1)][1..] == [];
    forall x: Assignment
      ensures Eval([Term(1, 2)], x) == x(2) && Eval([Term(1, 1)], x) == x(1)
    {
      assert Eval([Term(1, 2)], x) == x(2) + Eval([], x);
      assert Eval([Term(1, 1)], x) == x(1) + Eval([], x);
    }
  }

  lemma OutputFits(rows: seq<Poly>, tri: seq<Poly>, out: seq<Poly>, p: int)
    requires |rows| == |tri| == |out| == 2 && (forall i :: 0 <= i < 2 ==> tri[i] != [] && out[i] != [] && tri[i][0] == out[i][0])
    requires tri[0] == rows[0] && AgreeWhere(tri[0], rows[0], [], p) && AgreeWhere(tri[1], rows[1], [tri[0]], p)
    requires AgreeWhere(out[0], tri[0], [out[1]], p) && AgreeWhere(out[1], tri[1], [], p)
    ensures Picked(rows, tri, [0, 1], p) && SameHeads(tri, out) && Cleared(tri, out, p)
  {
    hide AgreeWhere;
    assert tri[..0] == [] && tri[..1] == [tri[0]] && out[1..] == [out[1]] && out[2..] == [];
    var pos: seq<nat> := [0, 1];
    forall k | 0 <= k < 2
      ensures pos[k] < 2 && AgreeWhere(tri[k], rows[pos[k]], tri[..k], p) && AgreeWhere(out[k], tri[k], out[k + 1..], p)
    {
      assert k == 0 || k == 1;
    }
  }
}
