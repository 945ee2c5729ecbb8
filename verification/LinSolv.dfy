/** The solver entry of calc.c (test2_3_4): triangulate, normalize, reduce. */
module LinSolv {
  import opened Modular
  import opened InvFF
  import opened FieldFF
  import opened SparsePoly
  import opened PolyList
  import opened Systems
  import opened RowOrigin
  import opened Triangulation
  import opened Rref
  import opened CanonicalForm

  // ---------- dividing a row by its leading coefficient ----------

  /** h is f divided by the constant lc. */
  ghost predicate Divided(h: Poly, f: Poly, lc: int, p: int) {
    && |h| == |f|
    && forall i :: 0 <= i < |f| ==> h[i].m == f[i].m && 0 < h[i].c < p && Cong(h[i].c * lc, f[i].c, p)
  }

  lemma DividedTail(h: Poly, f: Poly, lc: int, p: int)
    requires Divided(h, f, lc, p) && f != []
    ensures h != [] && Divided(h[1..], f[1..], lc, p)
  {
  }

  lemma {:induction false} DividedEval(h: Poly, f: Poly, lc: int, x: Assignment, p: int)
    requires Divided(h, f, lc, p)
    ensures Cong(lc * Eval(h, x), Eval(f, x), p)
  {
    if f == [] {
      CongRefl(0, p);
    } else {
      DividedTail(h, f, lc, p);
      DividedEval(h[1..], f[1..], lc, x, p);
      var v := x(f[0].m);
      CongScale(v, h[0].c * lc, f[0].c, p);
      DividedTerm(h[0].c, lc, f[0].c, v, Eval(h[1..], x));
      CongAdd(v * (h[0].c * lc), v * f[0].c, lc * Eval(h[1..], x), Eval(f[1..], x), p);
    }
  }

  lemma DividedTerm(a: int, lc: int, b: int, v: int, e: int)
    ensures v * (a * lc) + lc * e == lc * (a * v + e) && v * b == b * v
  {
    assert v * (a * lc) == lc * (a * v);
  }

  /** Division by the leading coefficient keeps the zeros and makes the row monic. */
  lemma DividedMonic(h: Poly, f: Poly, p: int)
    requires IsPrime(p) && Canon(f, p) && f != [] && Divided(h, f, f[0].c, p)
    ensures Canon(h, p) && h != [] && h[0].c == 1 && h[0].m == f[0].m
    ensures forall x: Assignment :: Vanishes(h, x, p) <==> Vanishes(f, x, p)
  {
    hide Eval, Cong;
    var lc := f[0].c;
    assert Cong(h[0].c * lc, lc, p);
    LeadIsOne(h[0].c, lc, p);
    forall x: Assignment
      ensures Vanishes(h, x, p) <==> Vanishes(f, x, p)
    {
      DividedEval(h, f, lc, x, p);
      if Vanishes(h, x, p) {
        CongScale(lc, Eval(h, x), 0, p);
        CongSym(lc * Eval(h, x), Eval(f, x), p);
        CongTrans(Eval(f, x), lc * Eval(h, x), 0, p);
      }
      if Vanishes(f, x, p) {
        CongTrans(lc * Eval(h, x), Eval(f, x), 0, p);
        NoZeroDivisors(lc, Eval(h, x), p);
      }
    }
  }

  lemma LeadIsOne(a: int, lc: int, p: int)
    requires IsPrime(p) && 0 < a < p && 0 < lc < p && Cong(a * lc, lc, p)
    ensures a == 1
  {
    CongRefl(lc, p);
    CongSub(a * lc, lc, lc, lc, p);
    assert a * lc - lc == lc * (a - 1);
    NoZeroDivisors(lc, a - 1, p);
    CongRefl(1, p);
    CongAdd(a - 1, 0, 1, 1, p);
    CongUnique(a, 1, p);
  }

  lemma NoTermsIff(q: PolyNode?, ns: Nodes)
    requires IsList(q, ns)
    ensures q == null <==> TermsOf(ns) == []
    ensures q != null ==> ns != [] && q == ns[0]
  {
  }

  lemma NodeTerms(ns: Nodes, p: int)
    requires Canon(TermsOf(ns), p)
    ensures forall i :: 0 <= i < |ns| ==>
      0 < ns[i].c < p && Rep(ns[i].c, p) && TermsOf(ns)[i] == Term(ns[i].c, ns[i].m)
  {
    TermsInRange(ns, TermsOf(ns), p);
    hide *;
  }

  lemma TermsInRange(ns: Nodes, f: Poly, p: int)
    requires |f| == |ns| && forall i :: 0 <= i < |ns| ==> f[i] == Term(ns[i].c, ns[i].m)
    requires Canon(f, p)
    ensures forall i :: 0 <= i < |ns| ==>
      0 < ns[i].c < p && Rep(ns[i].c, p) && f[i] == Term(ns[i].c, ns[i].m)
  {
  }

  lemma DistinctTail(ns: Nodes, f: PolyNode?, k: nat)
    requires IsList(f, ns) && k < |ns|
    ensures forall i :: 0 <= i < |ns| && i != k ==> ns[i] != ns[k]
  {
  }

  lemma RepRange(d: int, p: int)
    requires Rep(d, p) && d != 0
    ensures 0 < d < p
  {
  }

  lemma DividedIntro(ns: Nodes, f: Poly, lc: int, p: int)
    requires |ns| == |f|
    requires forall i :: 0 <= i < |f| ==> ns[i].m == f[i].m && 0 < ns[i].c < p && Cong(ns[i].c * lc, f[i].c, p)
    ensures Divided(TermsOf(ns), f, lc, p)
  {
  }

  /** Every coefficient of the list is divided by the leading one, node by node. */
  method NormalizeD(f: PolyNode?, p: int, ghost ns: Nodes)
    requires Modulus(p) && IsList(f, ns) && Canon(TermsOf(ns), p)
    modifies ns`c
    ensures IsList(f, ns)
    ensures f != null ==> old(TermsOf(ns)) != [] && Divided(TermsOf(ns), old(TermsOf(ns)), old(TermsOf(ns))[0].c, p)
    ensures f == null ==> TermsOf(ns) == []
  {
    hide *;
    ghost var fv := TermsOf(ns);
    NoTermsIff(f, ns);
    if f == null {
      return;
    }
    NodeTerms(ns, p);
    var myc := f.c;
    var q: PolyNode? := f;
    ghost var k := 0;
    assert ns[0..] == ns;
    while q != null
      invariant k <= |ns| && IsList(q, ns[k..])
      invariant forall i :: 0 <= i < |ns| ==> ns[i].m == fv[i].m
      invariant forall i :: 0 <= i < k ==> 0 < ns[i].c < p && Cong(ns[i].c * myc, fv[i].c, p)
      invariant forall i :: k <= i < |ns| ==> ns[i].c == fv[i].c && Rep(ns[i].c, p) && fv[i].c != 0
      decreases |ns| - k
    {
      ListTail(q, ns[k..]);
      assert q == ns[k] && ns[k..][1..] == ns[k + 1..];
      DistinctTail(ns, f, k);
      assert Rep(q.c, p) && Rep(myc, p);
      var d := DivFF(q.c, myc, p);
      assert 0 < d < p by { RepRange(d, p); }
      q.c := d;
      q := q.next;
      k := k + 1;
    }
    ListEnd(ns[k..]);
    DividedIntro(ns, fv, myc, p);
  }

  // ---------- all rows ----------

  /** The normalization of one list, seen by lists that share no node with it. */
  method NormalizeBeside(f: PolyNode, p: int, ghost ns: Nodes, ghost heads: seq<PolyNode?>, ghost others: seq<Nodes>)
    requires Modulus(p) && IsList(f, ns) && Canon(TermsOf(ns), p) && |heads| == |others|
    requires forall j :: 0 <= j < |others| ==> IsList(heads[j], others[j])
    requires forall j, n :: 0 <= j < |others| && n in others[j] ==> n !in ns
    modifies ns
    ensures IsList(f, ns) && old(TermsOf(ns)) != []
    ensures Divided(TermsOf(ns), old(TermsOf(ns)), old(TermsOf(ns))[0].c, p)
    ensures forall j :: 0 <= j < |others| ==>
      IsList(heads[j], others[j]) && TermsOf(others[j]) == old(TermsOf(others[j]))
  {
    hide *;
    NormalizeD(f, p, ns);
    forall j | 0 <= j < |others|
      ensures IsList(heads[j], others[j])
      ensures TermsOf(others[j]) == old(TermsOf(others[j]))
    {
      ghost var ns' := others[j];
      assert old(IsList(heads[j], ns'));
      forall n | n in ns'
        ensures n.next == old(n.next) && n.c == old(n.c) && n.m == old(n.m)
      {
        assert n in others[j] && n !in ns;
      }
    }
  }

  method NormalizeRow(done: array<PolyNode?>, i: nat, p: int, ghost ds: seq<Nodes>, ghost qs: seq<Poly>)
      returns (ghost h: Poly)
    requires Modulus(p) && HasRows(done, ds, qs) && AllCanon(qs, p)
    requires i < |qs| == |ds| && qs[i] != []
    modifies set n | n in ds[i]
    ensures Divided(h, qs[i], qs[i][0].c, p)
    ensures HasRows(done, ds, qs[i := h])
  {
    hide *;
    HasRowsAt(done, ds, qs, i);
    HasRowsParts(done, ds, qs);
    CanonAt(qs, i, p);
    EmptyList();
    ghost var others := ds[i := []];
    ghost var heads := done[..|ds|][i := null];
    AllDisjoint(ds, i);
    NormalizeBeside(done[i], p, ds[i], heads, others);
    h := TermsOf(ds[i]);
    forall j | 0 <= j < |ds| && j != i
      ensures IsList(done[j], ds[j]) && TermsOf(ds[j]) == qs[j]
    {
      assert heads[j] == done[j] && others[j] == ds[j];
    }
    HasRowsPut(done, ds, qs, i, ds[i], h);
    assert ds[i := ds[i]] == ds;
  }

  /** Rows before i are monic. */
  ghost predicate MonicTo(rows: seq<Poly>, i: nat) {
    i <= |rows| && forall j :: 0 <= j < i ==> rows[j] != [] && rows[j][0].c == 1
  }

  lemma NormalizeStep(rows: seq<Poly>, rows': seq<Poly>, i: nat, h: Poly, p: int)
    requires IsPrime(p) && Triangular(rows, p) && MonicTo(rows, i) && i < |rows|
    requires rows[i] != [] && Divided(h, rows[i], rows[i][0].c, p) && rows' == rows[i := h]
    ensures Triangular(rows', p) && MonicTo(rows', i + 1) && SameSolutions(rows, rows', p)
  {
    hide Canon, Vanishes, Divided, IsPrime;
    DividedMonic(h, rows[i], p);
    assert forall j :: 0 <= j < |rows| && j != i ==> rows'[j] == rows[j];
    forall x: Assignment | Point(x)
      ensures Sol(rows, x, p) <==> Sol(rows', x, p)
    {
      assert forall j :: 0 <= j < |rows| ==> (Vanishes(rows[j], x, p) <==> Vanishes(rows'[j], x, p));
    }
  }

  lemma NormalizeStart(rows: seq<Poly>, p: int)
    requires Triangular(rows, p)
    ensures AllCanon(rows, p) && MonicTo(rows, 0) && forall i :: 0 <= i < |rows| ==> rows[i] != []
  {
  }

  method NormalizeAll(done: array<PolyNode?>, donep: nat, p: int, ghost ds: seq<Nodes>, ghost qs0: seq<Poly>)
      returns (ghost qs: seq<Poly>)
    requires Modulus(p) && HasRows(done, ds, qs0) && |ds| == |qs0| == donep && Triangular(qs0, p)
    modifies NodesOf(ds)
    ensures HasRows(done, ds, qs) && |qs| == donep
    ensures Triangular(qs, p) && Monic(qs) && SameSolutions(qs0, qs, p)
  {
    hide *;
    PrimeOf(p);
    qs := qs0;
    NormalizeStart(qs, p);
    SameRefl(qs, p);
    for i := 0 to donep
      invariant |qs| == donep && HasRows(done, ds, qs) && Triangular(qs, p)
      invariant MonicTo(qs, i) && SameSolutions(qs0, qs, p)
    {
      NormalizeStart(qs, p);
      NodesPut(ds, i, []);
      ghost var h := NormalizeRow(done, i, p, ds, qs);
      ghost var qs': seq<Poly> := qs[i := h];
      NormalizeStep(qs, qs', i, h, p);
      SameTrans(qs0, qs, qs', p);
      qs := qs';
    }
    MonicAll(qs);
  }

  lemma MonicAll(rows: seq<Poly>)
    requires MonicTo(rows, |rows|)
    ensures Monic(rows)
  {
  }

  lemma MonicHeads(a: seq<Poly>, b: seq<Poly>)
    requires Monic(a) && SameHeads(a, b)
    ensures Monic(b)
  {
  }

  // ---------- the entry ----------

  /** mode 0: triangular; mode 1: reduced; mode 2: normalized and reduced.  The result is empty
      exactly when no row has a variable or the rows that have one are contradictory.  Row k of the
      triangular form is input row pos[k] freed of the rows before it; row k of the reduced form is
      that row freed of the rows after it, with the same leading term. */
  method Solve(bodies: seq<PolyNode?>, mode: int, p: int, ghost ls: seq<Nodes>, ghost rows: seq<Poly>)
      returns (done: array<PolyNode?>, n: nat, ghost ds: seq<Nodes>, ghost qs: seq<Poly>,
               ghost tri: seq<Poly>, ghost pos: seq<nat>)
    requires Modulus(p) && |bodies| == |ls| == |rows| && Separate(ls) && AllCanon(rows, p)
    requires forall i :: 0 <= i < |ls| ==> IsList(bodies[i], ls[i]) && TermsOf(ls[i]) == rows[i]
    requires exists i :: 0 <= i < |rows| && rows[i] != []
    modifies NodesOf(ls)
    ensures fresh(done)
    ensures n == 0 <==> AllConst(rows) || !VarSatisfiable(rows, p)
    ensures n > 0 ==> |qs| == n && HasRows(done, ds, qs) && Triangular(qs, p) && SameSolutions(rows, qs, p)
    ensures n > 0 ==> Triangular(tri, p) && Picked(rows, tri, pos, p) && Entails(tri, rows, p)
    ensures n > 0 && mode == 0 ==> qs == tri
    ensures n > 0 && mode != 0 ==> ReducedFrom(qs, 0)
    ensures n > 0 && mode != 0 && mode != 2 ==> SameHeads(tri, qs) && Cleared(tri, qs, p)
    ensures n > 0 && mode == 2 ==> NormalForm(rows, qs, p)
  {
    hide *;
    ModulusPrime(p);
    var size := |bodies|;
    var inn := new PolyNode?[size];
    done := new PolyNode?[size];
    for i := 0 to size
      modifies inn
      invariant forall j :: 0 <= j < i ==> inn[j] == bodies[j]
    {
      inn[i] := bodies[i];
    }
    forall i | 0 <= i < |ls|
      ensures IsList(inn[i], ls[i]) && TermsOf(ls[i]) == rows[i]
    {
      ghost var ns := ls[i];
      assert old(IsList(bodies[i], ns)) && old(TermsOf(ns)) == rows[i];
      forall x | x in ns
        ensures x.next == old(x.next) && x.c == old(x.c) && x.m == old(x.m)
      {
      }
    }
    HoldsIntro(inn, ls, rows);
    n, ds, qs, pos := Triangulate(inn, done, size, p, ls, rows);
    tri := qs;
    if n == 0 {
      return;
    }
    HasRowsIntro(done, ds, qs);
    SameRefl(qs, p);
    NodesWithin(ds);
    ghost var region := NodesOf(ds);
    assert forall x :: x in region ==> x in NodesOf(ls) || fresh(x);
    ghost var qs0 := qs;
    if mode == 2 {
      qs := NormalizeAll(done, n, p, ds, qs0);
      SameTrans(rows, qs0, qs, p);
    }
    if mode != 0 {
      ghost var qs1 := qs;
      ds, qs := RrefD(done, n, p, ds, qs1);
      SameTrans(rows, qs1, qs, p);
      if mode == 2 {
        MonicHeads(qs1, qs);
        NormalFormIntro(rows, qs, p);
      }
    }
  }

  lemma HoldsIntro(a: array<PolyNode?>, ls: seq<Nodes>, ps: seq<Poly>)
    requires |ls| == |ps| <= a.Length
    requires forall i :: 0 <= i < |ls| ==> IsList(a[i], ls[i]) && TermsOf(ls[i]) == ps[i]
    ensures Holds(a, ls, ps)
  {
    hide IsList, TermsOf;
  }

  lemma HasRowsIntro(a: array<PolyNode?>, ds: seq<Nodes>, qs: seq<Poly>)
    requires Holds(a, ds, qs) && Separate(ds)
    ensures HasRows(a, ds, qs)
  {
  }

  lemma NodesWithin(ds: seq<Nodes>)
    ensures forall n :: n in NodesOf(ds) ==> exists j :: 0 <= j < |ds| && n in ds[j]
  {
  }

  lemma NormalFormIntro(rows: seq<Poly>, qs: seq<Poly>, p: int)
    requires Triangular(qs, p) && ReducedFrom(qs, 0) && Monic(qs) && SameSolutions(rows, qs, p)
    ensures NormalForm(rows, qs, p)
  {
  }

  // ---------- when the answer 0 means "no solution" ----------

  ghost predicate NoConst(rows: seq<Poly>) {
    forall i :: 0 <= i < |rows| ==> !IsConst(rows[i])
  }

  /** The solver's answer 0 means "no solution" for a given input. */
  ghost predicate ZeroMeansUnsolvable(rows: seq<Poly>, p: int) {
    (AllConst(rows) || !VarSatisfiable(rows, p)) <==> !Satisfiable(rows, p)
  }

  /** Exactly when a constant row is not mixed with a solvable system of rows with variables. */
  lemma ZeroMeansUnsolvableIff(rows: seq<Poly>, p: int)
    requires AllCanon(rows, p) && exists i :: 0 <= i < |rows| && rows[i] != []
    ensures ZeroMeansUnsolvable(rows, p) <==> NoConst(rows) || AllConst(rows) || !VarSatisfiable(rows, p)
  {
    hide Eval, Cong;
    if NoConst(rows) {
      forall x: Assignment
        ensures Sol(rows, x, p) <==> VarSol(rows, x, p)
      {
      }
    } else {
      var i :| 0 <= i < |rows| && IsConst(rows[i]);
      forall x: Assignment | Point(x)
        ensures !Sol(rows, x, p)
      {
        ConstNeverVanishes(rows[i], x, p);
      }
    }
  }

  /** A constant row beside a solvable one is not noticed: x1 = 0 together with 1 = 0. */
  lemma MixedConstantMissed(p: int)
    requires IsPrime(p)
    ensures var rows := [[Term(1, 1)], [Term(1, 0)]];
      AllCanon(rows, p) && !ZeroMeansUnsolvable(rows, p)
  {
    var rows: seq<Poly> := [[Term(1, 1)], [Term(1, 0)]];
    assert IsConst(rows[1]);
    var x: Assignment := k => if k == 0 then 1 else 0;
    assert rows[0][1..] == [];
    assert Eval(rows[0], x) == 0;
    CongRefl(0, p);
    assert Point(x) && VarSol(rows, x, p);
    ZeroMeansUnsolvableIff(rows, p);
  }
}
