/** The reduced triangular form: normalize_d, full_reduce_d, rref and the solver entry of calc.c. */
module Rref {
  import opened Modular
  import opened InvFF
  import opened SparsePoly
  import opened PolyList
  import opened Systems
  import opened RowOrigin
  import opened Triangulation
  import R = ReduceD
  import S = FullReduce

  // ---------- values ----------

  /** Rows from k on do not contain each other's leading variables. */
  ghost predicate ReducedFrom(rows: seq<Poly>, k: nat) {
    && (forall i :: 0 <= i < |rows| ==> rows[i] != [])
    && (forall i, j :: k <= i < |rows| && k <= j < |rows| && i != j ==> Coef(rows[i], rows[j][0].m) == 0)
  }

  /** One reduction of a row keeps its head, clears g's leading variable and keeps cleared ones. */
  lemma ReduceRow(f: Poly, c: int, g: Poly, p: int)
    requires IsPrime(p) && p > 0 && Canon(f, p) && Canon(g, p) && f != [] && g != []
    requires f[0].m > g[0].m && S.Multiplier(c, f, g, p)
    ensures var h := R.Reduction(f, c, g, p);
      && Canon(h, p) && h != [] && h[0] == f[0]
      && Coef(h, g[0].m) == 0
      && (forall m :: Coef(f, m) == 0 && Coef(g, m) == 0 ==> Coef(h, m) == 0)
  {
    hide *;
    MultiplierParts(c, f, g, p);
    R.ReductionCases(f, c, g, p);
    if c == 0 {
      CongSym(c * g[0].c, Coef(f, g[0].m), p);
      CoefRange(f, g[0].m, p);
      assert 0 * g[0].c == 0;
      CongUnique(Coef(f, g[0].m), 0, p);
    } else {
      ReduceRowNonzero(f, c, g, p);
    }
  }

  lemma MultiplierParts(c: int, f: Poly, g: Poly, p: int)
    requires g != [] && S.Multiplier(c, f, g, p)
    ensures 0 <= c < p && Cong(c * g[0].c, Coef(f, g[0].m), p)
  {
  }

  lemma ReduceRowNonzero(f: Poly, c: int, g: Poly, p: int)
    requires IsPrime(p) && p > 0 && Canon(f, p) && Canon(g, p) && f != [] && g != []
    requires f[0].m > g[0].m && 0 < c < p && Cong(c * g[0].c, Coef(f, g[0].m), p)
    ensures var h := Minus(f, c, g, p);
      && Canon(h, p) && h != [] && h[0] == f[0]
      && Coef(h, g[0].m) == 0
      && (forall m :: Coef(f, m) == 0 && Coef(g, m) == 0 ==> Coef(h, m) == 0)
  {
    hide *;
    var h := Minus(f, c, g, p);
    CanonTail(f, p);
    assert Below(f, f[0].m + 1) by { BelowHead(f, f[0].m + 1, p); }
    assert Below(g, f[0].m + 1) by { BelowHead(g, f[0].m + 1, p); }
    CanonMinus(f, c, g, p, f[0].m + 1);
    MinusHead(f, c, g, p);
    var k := g[0].m;
    CoefMinus(f, c, g, p, k);
    HeadCoef(g, p);
    ZeroDifference(Coef(f, k), c * g[0].c, p);
    forall m | Coef(f, m) == 0 && Coef(g, m) == 0
      ensures Coef(h, m) == 0
    {
      CoefMinus(f, c, g, p, m);
      SmallMod(0, p);
    }
  }

  lemma HeadCoef(g: Poly, p: int)
    requires Canon(g, p) && g != []
    ensures Coef(g, g[0].m) == g[0].c
  {
  }

  lemma MinusHead(f: Poly, c: int, g: Poly, p: int)
    requires p > 0 && f != [] && g != [] && f[0].m > g[0].m
    ensures Minus(f, c, g, p) != [] && Minus(f, c, g, p)[0] == f[0]
  {
  }

  lemma ZeroDifference(a: int, b: int, p: int)
    requires p > 0 && Cong(b, a, p)
    ensures (a - b) % p == 0
  {
    CongRefl(a, p);
    CongSub(a, a, b, a, p);
    CongMod(a - b, p);
    CongTrans((a - b) % p, a - b, 0, p);
    CongUnique((a - b) % p, 0, p);
  }

  lemma ReductionVanishes(f: Poly, c: int, g: Poly, x: Assignment, p: int)
    requires p > 0 && Vanishes(g, x, p)
    ensures Vanishes(R.Reduction(f, c, g, p), x, p) <==> Vanishes(f, x, p)
  {
    hide Vanishes, Minus;
    VanishesMinus(f, c, g, x, p);
  }

  /** Replacing a row by its reduction by another row keeps the solutions. */
  lemma ReductionKeepsSolutions(rows: seq<Poly>, row: nat, i: nat, c: int, p: int)
    requires p > 0 && row < |rows| && i < |rows| && row != i
    ensures SameSolutions(rows, rows[row := R.Reduction(rows[row], c, rows[i], p)], p)
  {
    hide Vanishes, R.Reduction;
    var h := R.Reduction(rows[row], c, rows[i], p);
    var rows': seq<Poly> := rows[row := h];
    forall x: Assignment | Point(x)
      ensures Sol(rows, x, p) <==> Sol(rows', x, p)
    {
      assert rows'[i] == rows[i] && rows'[row] == h;
      if Vanishes(rows[i], x, p) {
        ReductionVanishes(rows[row], c, rows[i], x, p);
      }
      assert forall k :: 0 <= k < |rows| && k != row ==> rows'[k] == rows[k];
    }
  }

  /** The state of full_reduce_d on row `row`: leading variables of rows k.. are cleared from it. */
  ghost predicate RowState(rows: seq<Poly>, row: nat, k: nat, p: int) {
    && Triangular(rows, p) && row < k <= |rows|
    && ReducedFrom(rows, row + 1)
    && forall j :: k <= j < |rows| ==> Coef(rows[row], rows[j][0].m) == 0
  }

  lemma RowStep(rows: seq<Poly>, row: nat, k: nat, c: int, p: int)
    requires IsPrime(p) && p > 0 && RowState(rows, row, k, p) && row + 1 < k
    requires S.Multiplier(c, rows[row], rows[k - 1], p)
    ensures var rows' := rows[row := R.Reduction(rows[row], c, rows[k - 1], p)];
      && RowState(rows', row, k - 1, p) && SameSolutions(rows, rows', p)
      && rows'[row] != [] && rows'[row][0] == rows[row][0]
  {
    hide Canon, Coef, IsPrime, R.Reduction, S.Multiplier, SameSolutions;
    var f, g := rows[row], rows[k - 1];
    ReduceRow(f, c, g, p);
    ReductionKeepsSolutions(rows, row, k - 1, c, p);
    var h := R.Reduction(f, c, g, p);
    var rows': seq<Poly> := rows[row := h];
    assert forall j :: 0 <= j < |rows| ==> rows'[j] != [] && rows'[j][0] == rows[j][0];
    forall j | k - 1 <= j < |rows|
      ensures Coef(rows'[row], rows'[j][0].m) == 0
    {
      if j > k - 1 {
        assert Coef(f, rows[j][0].m) == 0;
        assert Coef(g, rows[j][0].m) == 0;
      }
    }
  }

  lemma RowStart(rows: seq<Poly>, row: nat, p: int)
    requires Triangular(rows, p) && row < |rows| && ReducedFrom(rows, row + 1)
    ensures RowState(rows, row, |rows|, p)
  {
  }

  lemma RowEnd(rows: seq<Poly>, row: nat, p: int)
    requires RowState(rows, row, row + 1, p)
    ensures ReducedFrom(rows, row) && Triangular(rows, p)
  {
    forall i | row < i < |rows|
      ensures Coef(rows[i], rows[row][0].m) == 0
    {
      BelowHead(rows[i], rows[row][0].m, p);
      CoefBelow(rows[i], rows[row][0].m, rows[row][0].m);
    }
  }

  // ---------- full_reduce_d ----------

  /** A scan of one list, seen by lists that share no node with it. */
  method ScanBeside(ff: PolyNode, g: PolyNode, p: int, ghost ns: Nodes, ghost gs: Nodes,
                    ghost heads: seq<PolyNode?>, ghost others: seq<Nodes>)
      returns (ghost hs: Nodes, ghost c: int)
    requires Modulus(p) && p > 0 && IsList(ff, ns) && IsList(g, gs) && Disjoint(ns, gs)
    requires Canon(TermsOf(ns), p) && Canon(TermsOf(gs), p) && TermsOf(ns) != [] && TermsOf(gs) != []
    requires ff.m > g.m && |heads| == |others|
    requires forall j :: 0 <= j < |others| ==> IsList(heads[j], others[j])
    requires forall j, n :: 0 <= j < |others| && n in others[j] ==> n !in ns
    modifies ns
    ensures IsList(ff, hs) && TermsOf(hs) == old(R.Reduction(TermsOf(ns), c, TermsOf(gs), p))
    ensures old(S.Multiplier(c, TermsOf(ns), TermsOf(gs), p))
    ensures forall n :: n in hs ==> n in ns || fresh(n)
    ensures forall j :: 0 <= j < |others| ==>
      IsList(heads[j], others[j]) && TermsOf(others[j]) == old(TermsOf(others[j]))
  {
    hide *;
    hs, c := S.ScanReduce(ff, g, p, ns, gs);
    forall j | 0 <= j < |others|
      ensures IsList(heads[j], others[j])
      ensures TermsOf(others[j]) == old(TermsOf(others[j]))
    {
      ghost var ns' := others[j];
      assert old(IsList(heads[j], ns'));
      forall n | n in ns'
        ensures n.next == old(n.next) && n.c == old(n.c) && n.m == old(n.m)
      {
        assert n in others[j] && n !in ns;
      }
    }
  }

  /** The rows of one array, each in its own list. */
  ghost predicate HasRows(a: array<PolyNode?>, ds: seq<Nodes>, qs: seq<Poly>)
    reads a, NodesOf(ds)
  {
    Holds(a, ds, qs) && Separate(ds)
  }

  lemma HasRowsAt(a: array<PolyNode?>, ds: seq<Nodes>, qs: seq<Poly>, i: nat)
    requires HasRows(a, ds, qs) && i < |qs| && qs[i] != []
    ensures |ds| == |qs| <= a.Length && a[i] != null && IsList(a[i], ds[i]) && TermsOf(ds[i]) == qs[i]
    ensures qs[i][0] == Term(a[i].c, a[i].m)
  {
    hide IsList, TermsOf;
    HoldsAt(a, ds, qs, i);
  }

  lemma HasRowsParts(a: array<PolyNode?>, ds: seq<Nodes>, qs: seq<Poly>)
    requires HasRows(a, ds, qs)
    ensures Holds(a, ds, qs) && Separate(ds) && |ds| == |qs| <= a.Length
    ensures forall i :: 0 <= i < |ds| ==> IsList(a[i], ds[i]) && TermsOf(ds[i]) == qs[i]
    ensures forall i, j :: 0 <= i < |ds| && 0 <= j < |ds| && i != j ==> Disjoint(ds[i], ds[j])
  {
    hide IsList, TermsOf, Disjoint;
  }

  lemma HasRowsPut(a: array<PolyNode?>, ds: seq<Nodes>, qs: seq<Poly>, k: nat, l: Nodes, f: Poly)
    requires k < |ds| == |qs| <= a.Length && Separate(ds)
    requires forall i :: 0 <= i < |ds| && i != k ==> IsList(a[i], ds[i]) && TermsOf(ds[i]) == qs[i]
    requires IsList(a[k], l) && TermsOf(l) == f
    requires forall j, n :: 0 <= j < |ds| && j != k && n in ds[j] ==> n !in l
    ensures HasRows(a, ds[k := l], qs[k := f])
  {
    hide IsList, TermsOf, Separate;
    HoldsPut(a, ds, qs, k, l, f);
    SeparateReplace(ds, k, l);
  }

  /** One iteration of full_reduce_d: row `row` is reduced by row i. */
  method ScanRow(done: array<PolyNode?>, row: nat, i: nat, p: int, ghost ds: seq<Nodes>, ghost qs: seq<Poly>)
      returns (ghost hs: Nodes, ghost c: int)
    requires Modulus(p) && p > 0 && HasRows(done, ds, qs) && AllCanon(qs, p)
    requires row < |qs| && i < |qs| && row != i && qs[row] != [] && qs[i] != []
    requires |ds| == |qs| && qs[row][0].m > qs[i][0].m
    modifies set n | n in ds[row]
    ensures S.Multiplier(c, qs[row], qs[i], p)
    ensures HasRows(done, ds[row := hs], qs[row := R.Reduction(qs[row], c, qs[i], p)])
    ensures forall n :: n in hs ==> n in ds[row] || fresh(n)
  {
    hide *;
    HasRowsAt(done, ds, qs, row);
    HasRowsAt(done, ds, qs, i);
    HasRowsParts(done, ds, qs);
    CanonAt(qs, row, p);
    CanonAt(qs, i, p);
    EmptyList();
    ghost var others := ds[row := []];
    ghost var heads := done[..|ds|][row := null];
    AllDisjoint(ds, row);
    hs, c := ScanBeside(done[row], done[i], p, ds[row], ds[i], heads, others);
    forall j | 0 <= j < |ds| && j != row
      ensures IsList(done[j], ds[j]) && TermsOf(ds[j]) == qs[j]
    {
      assert heads[j] == done[j] && others[j] == ds[j];
    }
    HasRowsPut(done, ds, qs, row, hs, R.Reduction(qs[row], c, qs[i], p));
  }

  lemma AllDisjoint(ds: seq<Nodes>, k: nat)
    requires k < |ds| && Separate(ds)
    ensures forall j, n :: 0 <= j < |ds| && j != k && n in ds[j] ==> n !in ds[k]
  {
  }

  /** Row `row` is fully reduced by the rows from+0 .. to-1 below it, from the last one up. */
  method FullReduceD(done: array<PolyNode?>, row: nat, to: nat, p: int, ghost ds0: seq<Nodes>, ghost qs0: seq<Poly>)
      returns (ghost ds: seq<Nodes>, ghost qs: seq<Poly>)
    requires Modulus(p) && p > 0 && HasRows(done, ds0, qs0) && |ds0| == |qs0| == to && row < to
    requires Triangular(qs0, p) && ReducedFrom(qs0, row + 1)
    modifies NodesOf(ds0)
    ensures HasRows(done, ds, qs) && |ds| == |qs| == to
    ensures Triangular(qs, p) && ReducedFrom(qs, row) && SameSolutions(qs0, qs, p)
    ensures SameHeads(qs0, qs) && OnlyRow(qs0, qs, row, p)
    ensures forall n :: n in NodesOf(ds) ==> n in NodesOf(ds0) || fresh(n)
  {
    hide *;
    PrimeOf(p);
    ds, qs := ds0, qs0;
    RowStart(qs, row, p);
    SameRefl(qs, p);
    OnlyRowRefl(qs, row, p);
    var i := to - 1;
    while i > row
      invariant row <= i < to == |ds| == |qs|
      invariant HasRows(done, ds, qs) && RowState(qs, row, i + 1, p)
      invariant SameSolutions(qs0, qs, p) && SameHeads(qs0, qs) && OnlyRow(qs0, qs, row, p)
      invariant forall n :: n in NodesOf(ds) ==> n in NodesOf(ds0) || fresh(n)
    {
      RowParts(qs, row, i, p);
      ghost var hs, c;
      hs, c := ScanRow(done, row, i, p, ds, qs);
      RowStep(qs, row, i + 1, c, p);
      ghost var qs': seq<Poly> := qs[row := R.Reduction(qs[row], c, qs[i], p)];
      SameTrans(qs0, qs, qs', p);
      HeadsPut(qs0, qs, qs', row);
      OnlyRowStep(qs0, qs, row, i, c, p);
      NodesPut(ds, row, hs);
      ds, qs := ds[row := hs], qs';
      i := i - 1;
    }
    RowEnd(qs, row, p);
  }

  /** At most one row differs, and only by multiples of the rows after it. */
  ghost predicate OnlyRow(a: seq<Poly>, b: seq<Poly>, row: nat, p: int) {
    && |a| == |b| && row < |a|
    && (forall j :: 0 <= j < |a| && j != row ==> a[j] == b[j])
    && AgreeWhere(b[row], a[row], a[row + 1..], p)
  }

  lemma OnlyRowRefl(a: seq<Poly>, row: nat, p: int)
    requires row < |a|
    ensures OnlyRow(a, a, row, p)
  {
    AgreeRefl(a[row], a[row + 1..], p);
    hide AgreeWhere;
  }

  lemma OnlyRowStep(a: seq<Poly>, b: seq<Poly>, row: nat, i: nat, c: int, p: int)
    requires p > 0 && OnlyRow(a, b, row, p) && row < i < |b|
    ensures OnlyRow(a, b[row := R.Reduction(b[row], c, b[i], p)], row, p)
  {
    hide AgreeWhere, R.Reduction, Entails;
    var rest := a[row + 1..];
    assert rest[i - row - 1] == b[i];
    ReductionAgrees(b[row], c, b[i], rest, p);
    SubsetEntails(rest, rest, p);
    AgreeTrans(R.Reduction(b[row], c, b[i], p), b[row], a[row], rest, rest, rest, p);
  }

  lemma ReductionAgrees(f: Poly, c: int, g: Poly, rows: seq<Poly>, p: int)
    requires p > 0 && g in rows
    ensures AgreeWhere(R.Reduction(f, c, g, p), f, rows, p)
  {
    AgreeRefl(f, rows, p);
    MinusAgrees(f, c, g, rows, p);
    hide AgreeWhere, Minus;
  }

  /** Every row is the triangular row freed of the rows after it. */
  ghost predicate Cleared(tri: seq<Poly>, out: seq<Poly>, p: int) {
    |tri| == |out| && forall k :: 0 <= k < |out| ==> AgreeWhere(out[k], tri[k], out[k + 1..], p)
  }

  /** Rows before k are those of the triangular form. */
  ghost predicate ClearedFrom(tri: seq<Poly>, out: seq<Poly>, k: nat, p: int) {
    Cleared(tri, out, p) && forall j :: 0 <= j < k && j < |out| ==> out[j] == tri[j]
  }

  lemma ClearedStart(tri: seq<Poly>, p: int)
    ensures ClearedFrom(tri, tri, |tri|, p)
  {
    forall k | 0 <= k < |tri|
      ensures AgreeWhere(tri[k], tri[k], tri[k + 1..], p)
    {
      AgreeRefl(tri[k], tri[k + 1..], p);
    }
    hide AgreeWhere;
  }

  lemma ClearedRow(tri: seq<Poly>, out: seq<Poly>, out': seq<Poly>, row: nat, k: nat, p: int)
    requires ClearedFrom(tri, out, k, p) && row < k && OnlyRow(out, out', row, p)
    ensures ClearedFrom(tri, out', row, p)
  {
    hide AgreeWhere;
    forall j | 0 <= j < |out'|
      ensures AgreeWhere(out'[j], tri[j], out'[j + 1..], p)
    {
      if j < row {
        AgreeRefl(tri[j], out'[j + 1..], p);
      } else {
        assert out'[j + 1..] == out[j + 1..];
      }
    }
  }

  lemma ClearedAll(tri: seq<Poly>, out: seq<Poly>, k: nat, p: int)
    requires ClearedFrom(tri, out, k, p)
    ensures Cleared(tri, out, p)
  {
  }

  lemma ClearedLonger(tri: seq<Poly>, out: seq<Poly>, k: nat, l: nat, p: int)
    requires ClearedFrom(tri, out, k, p) && l <= k
    ensures ClearedFrom(tri, out, l, p)
  {
    hide AgreeWhere;
  }

  /** Corresponding rows start with the same term. */
  ghost predicate SameHeads(a: seq<Poly>, b: seq<Poly>) {
    |a| == |b| && forall i :: 0 <= i < |a| ==> a[i] != [] && b[i] != [] && a[i][0] == b[i][0]
  }

  lemma SameRefl(a: seq<Poly>, p: int)
    requires Triangular(a, p)
    ensures SameSolutions(a, a, p) && SameHeads(a, a)
  {
  }

  lemma SameTrans(a: seq<Poly>, b: seq<Poly>, d: seq<Poly>, p: int)
    requires SameSolutions(a, b, p) && SameSolutions(b, d, p)
    ensures SameSolutions(a, d, p)
  {
    hide Sol;
  }

  lemma HeadsTrans(a: seq<Poly>, b: seq<Poly>, d: seq<Poly>)
    requires SameHeads(a, b) && SameHeads(b, d)
    ensures SameHeads(a, d)
  {
  }

  lemma HeadsPut(a: seq<Poly>, b: seq<Poly>, b': seq<Poly>, row: nat)
    requires SameHeads(a, b) && row < |b| && |b'| == |b| && b' == b[row := b'[row]]
    requires b[row] != [] ==> b'[row] != [] && b'[row][0] == b[row][0]
    ensures SameHeads(a, b')
  {
  }

  lemma NodesPut(ds: seq<Nodes>, row: nat, hs: Nodes)
    requires row < |ds|
    ensures forall n :: n in NodesOf(ds[row := hs]) ==> n in NodesOf(ds) || n in hs
    ensures forall n :: n in ds[row] ==> n in NodesOf(ds)
  {
  }

  lemma RowParts(rows: seq<Poly>, row: nat, i: nat, p: int)
    requires RowState(rows, row, i + 1, p) && row < i
    ensures AllCanon(rows, p) && i < |rows| && rows[row] != [] && rows[i] != [] && rows[row][0].m > rows[i][0].m
  {
  }

  // ---------- rref ----------

  /** From the last row up, every row is reduced by the rows below it. */
  method RrefD(done: array<PolyNode?>, donep: nat, p: int, ghost ds0: seq<Nodes>, ghost qs0: seq<Poly>)
      returns (ghost ds: seq<Nodes>, ghost qs: seq<Poly>)
    requires Modulus(p) && p > 0 && HasRows(done, ds0, qs0) && |ds0| == |qs0| == donep
    requires Triangular(qs0, p)
    modifies NodesOf(ds0)
    ensures HasRows(done, ds, qs) && |ds| == |qs| == donep
    ensures Triangular(qs, p) && ReducedFrom(qs, 0) && SameSolutions(qs0, qs, p) && SameHeads(qs0, qs)
    ensures Cleared(qs0, qs, p)
  {
    hide *;
    ds, qs := ds0, qs0;
    SameRefl(qs, p);
    ClearedStart(qs, p);
    ClearedAll(qs, qs, donep, p);
    if donep == 0 {
      ReducedLast(qs, 0, p);
      return;
    }
    ReducedLast(qs, donep - 1, p);
    ClearedLonger(qs, qs, donep, donep - 1, p);
    var i := donep - 1;
    while i > 0
      invariant 0 <= i < donep == |ds| == |qs|
      invariant HasRows(done, ds, qs) && Triangular(qs, p) && ReducedFrom(qs, i)
      invariant SameSolutions(qs0, qs, p) && SameHeads(qs0, qs) && ClearedFrom(qs0, qs, i, p)
      invariant forall n :: n in NodesOf(ds) ==> n in NodesOf(ds0) || fresh(n)
    {
      ghost var qs1 := qs;
      ghost var region := NodesOf(ds);
      assert forall n :: n in region ==> n in NodesOf(ds0) || fresh(n);
      ds, qs := FullReduceD(done, i - 1, donep, p, ds, qs);
      SameTrans(qs0, qs1, qs, p);
      HeadsTrans(qs0, qs1, qs);
      ClearedRow(qs0, qs1, qs, i - 1, i, p);
      i := i - 1;
    }
    ClearedAll(qs0, qs, 0, p);
  }

  lemma ReducedLast(rows: seq<Poly>, k: nat, p: int)
    requires Triangular(rows, p) && k + 1 >= |rows|
    ensures ReducedFrom(rows, k)
  {
  }
}
