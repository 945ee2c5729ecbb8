/** Reduction of a row by the rows below it: normalize_d and full_reduce_d of calc.c. */
module FullReduce {
  import opened Basics
  import opened Modular
  import opened InvFF
  import opened FieldFF
  import opened SparsePoly
  import opened PolyList
  import R = ReduceD

  // ---------- values ----------

  /** Terms above the subtrahend's leading monomial pass through the merge. */
  lemma {:induction false} MinusPrefix(a: Poly, t: Poly, c: int, g: Poly, p: int)
    requires p > 0 && g != [] && t != [] && forall i :: 0 <= i < |a| ==> a[i].m > g[0].m
    ensures Minus(a + t, c, g, p) == a + Minus(t, c, g, p)
  {
    hide Minus;
    if a == [] {
      assert a + t == t;
      assert a + Minus(t, c, g, p) == Minus(t, c, g, p);
    } else {
      MinusPrefix(a[1..], t, c, g, p);
      MinusStepFront(a[0], a[1..] + t, c, g, p);
      assert a + t == [a[0]] + (a[1..] + t);
      PrependAssoc(a, Minus(t, c, g, p));
    }
  }

  lemma MinusStepFront(x: Term, f: Poly, c: int, g: Poly, p: int)
    requires p > 0 && g != [] && x.m > g[0].m
    ensures Minus([x] + f, c, g, p) == [x] + Minus(f, c, g, p)
  {
    assert ([x] + f)[1..] == f;
  }

  lemma PrependAssoc(a: Poly, r: Poly)
    requires a != []
    ensures [a[0]] + (a[1..] + r) == a + r
  {
  }

  lemma {:induction false} CoefAbsent(f: Poly, m: int)
    requires forall i :: 0 <= i < |f| ==> f[i].m != m
    ensures Coef(f, m) == 0
  {
    if f != [] {
      CoefAbsent(f[1..], m);
    }
  }

  lemma {:induction false} CoefAt(f: Poly, i: nat, p: int)
    requires Canon(f, p) && i < |f|
    ensures Coef(f, f[i].m) == f[i].c
  {
    if i > 0 {
      CanonTail(f, p);
      CoefAt(f[1..], i - 1, p);
    }
  }

  lemma CanonPart(f: Poly, k: nat, p: int)
    requires Canon(f, p) && k <= |f|
    ensures Canon(f[k..], p)
    ensures k < |f| ==> forall i :: 0 <= i < k ==> f[i].m > f[k].m
  {
  }

  /** `c` is the multiplier that removes g's leading monomial from f. */
  ghost predicate Multiplier(c: int, f: Poly, g: Poly, p: int)
    requires g != []
  {
    Rep(c, p) && Cong(c * g[0].c, Coef(f, g[0].m), p)
  }

  // ---------- one scan ----------

  /** The node before the tail, and the tail. */
  ghost predicate Scanning(ff: PolyNode, r: PolyNode, q: PolyNode?, pre: seq<PolyNode>, tail: seq<PolyNode>)
    reads pre`next, tail`next
  {
    && Building(r, pre) && pre[0] == ff && r.next == q && IsList(q, tail) && Disjoint(pre, tail)
  }

  lemma ScanningIsList(ff: PolyNode, r: PolyNode, q: PolyNode?, pre: seq<PolyNode>, tail: seq<PolyNode>)
    requires Scanning(ff, r, q, pre, tail)
    ensures IsList(ff, pre + tail) && pre != [] && pre[0] == ff && r in pre && r !in tail
    ensures Building(r, pre) && IsList(q, tail) && Disjoint(pre, tail)
  {
    ListFromParts(pre, r, q, tail);
  }

  lemma ScanningStart(ff: PolyNode, ns: seq<PolyNode>)
    requires IsList(ff, ns)
    ensures ns != [] && Scanning(ff, ff, ff.next, [ff], ns[1..]) && [ff] + ns[1..] == ns
  {
    ListTail(ff, ns);
  }

  lemma ScanningNext(ff: PolyNode, r: PolyNode, q: PolyNode, pre: seq<PolyNode>, tail: seq<PolyNode>)
    requires Scanning(ff, r, q, pre, tail)
    ensures tail != [] && q == tail[0] && Scanning(ff, q, q.next, pre + [q], tail[1..])
    ensures pre + tail == (pre + [q]) + tail[1..]
  {
    hide *;
    ScanningIsList(ff, r, q, pre, tail);
    ScanningLink(ff, r, q, pre, tail);
    ListTail(q, tail);
    ListDistinctTail(q, tail);
    NotInBoth(pre, tail, q);
    BuildingSnoc(r, q, pre);
    DisjointNil(pre, tail);
    R.DisjointMove(pre, tail, []);
    ScanningIntro(ff, q, q.next, pre + [q], tail[1..]);
    assert tail == [q] + tail[1..];
  }

  lemma NotInBoth(pre: seq<PolyNode>, tail: seq<PolyNode>, q: PolyNode)
    requires Disjoint(pre, tail) && tail != [] && q == tail[0]
    ensures q !in pre
  {
    assert q in tail;
  }

  lemma DisjointNil(a: seq<PolyNode>, b: seq<PolyNode>)
    ensures Disjoint(a, []) && Disjoint(b, [])
  {
  }

  lemma ScanningLink(ff: PolyNode, r: PolyNode, q: PolyNode?, pre: seq<PolyNode>, tail: seq<PolyNode>)
    requires Scanning(ff, r, q, pre, tail)
    ensures r.next == q
  {
  }

  lemma ScanningIntro(ff: PolyNode, r: PolyNode, q: PolyNode?, pre: seq<PolyNode>, tail: seq<PolyNode>)
    requires Building(r, pre) && pre != [] && pre[0] == ff && r.next == q && IsList(q, tail) && Disjoint(pre, tail)
    ensures Scanning(ff, r, q, pre, tail)
  {
  }

  lemma ListDistinctTail(q: PolyNode, ns: seq<PolyNode>)
    requires IsList(q, ns)
    ensures ns != [] && Distinct(ns)
  {
  }

  lemma BuildingSnoc(r: PolyNode, q: PolyNode, pre: seq<PolyNode>)
    requires Building(r, pre) && r.next == q && q !in pre
    ensures Building(q, pre + [q])
  {
  }

  /** Point r at another list. */
  method Relink(ghost ff: PolyNode, r: PolyNode, h: PolyNode?, ghost pre: seq<PolyNode>, ghost hs: seq<PolyNode>)
    requires Building(r, pre) && pre[0] == ff && IsList(h, hs) && Disjoint(pre, hs)
    modifies r`next
    ensures Scanning(ff, r, h, pre, hs)
  {
    assert r in pre;
    r.next := h;
  }

  /** Reduce the tail that starts with the matching node and link the result behind r. */
  method ReduceTail(r: PolyNode, f: PolyNode, c: int, g: PolyNode, p: int, ghost ff: PolyNode,
                    ghost pre: seq<PolyNode>, ghost tail: seq<PolyNode>, ghost gs: seq<PolyNode>)
      returns (h: PolyNode?, ghost hs: seq<PolyNode>)
    requires Modulus(p) && Rep(c, p) && c != 0 && p > 0
    requires Scanning(ff, r, f, pre, tail) && IsList(g, gs) && Disjoint(pre, gs) && Disjoint(tail, gs)
    requires R.Nonzero(TermsOf(tail), p) && R.Nonzero(TermsOf(gs), p)
    modifies r`next, tail
    ensures Scanning(ff, r, h, pre, hs)
    ensures TermsOf(hs) == old(Minus(TermsOf(tail), c, TermsOf(gs), p))
    ensures TermsOf(pre) == old(TermsOf(pre))
    ensures IsList(g, gs) && TermsOf(gs) == old(TermsOf(gs)) && Disjoint(pre, gs) && Disjoint(hs, gs)
    ensures forall n :: n in hs ==> n in tail || fresh(n)
  {
    hide *;
    ScanningIsList(ff, r, f, pre, tail);
    TailTerms(f, tail);
    R.ReductionCases(TermsOf(tail), c, TermsOf(gs), p);
    R.DisjointFrame(tail, gs);
    R.DisjointFrame(pre, tail);
    R.DisjointFrame(pre, gs);
    ghost var freed;
    h, hs, freed := R.ReduceD(f, c, g, p, tail, gs);
    forall n | n in pre
      ensures n.next == old(n.next) && n.c == old(n.c) && n.m == old(n.m) && n !in hs
    {
    }
    DisjointIntro(pre, hs);
    DisjointIntro(hs, gs);
    Relink(ff, r, h, pre, hs);
    forall n | n in gs
      ensures n.next == old(n.next) && n.c == old(n.c) && n.m == old(n.m)
    {
    }
  }

  lemma DisjointIntro(a: seq<PolyNode>, b: seq<PolyNode>)
    requires forall n :: n in a ==> n !in b
    ensures Disjoint(a, b)
  {
  }

  lemma TailTerms(q: PolyNode, ns: seq<PolyNode>)
    requires IsList(q, ns)
    ensures ns != [] && q == ns[0] && q in ns && TermsOf(ns) != [] && TermsOf(ns)[0] == Term(q.c, q.m)
  {
  }

  /** What the scan knows about values: before the match nothing has changed and the monomial
      was not met; after it the list is the reduction and cannot match again. */
  ghost predicate ScanValues(a: Poly, t: Poly, f: Poly, g: Poly, c: int, p: int)
    requires p > 0 && g != []
  {
    if c == 0 then
      a + t == f && forall i :: 0 <= i < |a| ==> a[i].m != g[0].m
    else
      a + t == Minus(f, c, g, p) && Multiplier(c, f, g, p) && Below(t, g[0].m)
  }

  lemma ScanValuesStart(f: Poly, g: Poly, p: int)
    requires p > 0 && g != [] && f != [] && f[0].m > g[0].m
    ensures ScanValues([f[0]], f[1..], f, g, 0, p)
  {
  }

  lemma ScanValuesNext(a: Poly, t: Poly, f: Poly, g: Poly, c: int, p: int)
    requires p > 0 && g != [] && t != [] && ScanValues(a, t, f, g, c, p)
    requires t[0].m != g[0].m
    ensures ScanValues(a + [t[0]], t[1..], f, g, c, p)
  {
    hide Minus, Multiplier;
    assert (a + [t[0]]) + t[1..] == a + t;
  }

  /** After a match the head of the rest is below the monomial, so it is passed over. */
  lemma ScanNoSecondMatch(a: Poly, t: Poly, f: Poly, g: Poly, c: int, p: int)
    requires p > 0 && g != [] && t != [] && ScanValues(a, t, f, g, c, p) && c != 0
    ensures t[0].m != g[0].m
  {
  }

  lemma ScanValuesMatch(a: Poly, t: Poly, f: Poly, g: Poly, c: int, p: int)
    requires IsPrime(p) && p > 0 && g != [] && t != [] && ScanValues(a, t, f, g, 0, p)
    requires Canon(f, p) && Canon(g, p) && t[0].m == g[0].m
    requires 0 < c < p && Cong(c * g[0].c, t[0].c, p)
    ensures ScanValues(a, Minus(t, c, g, p), f, g, c, p)
    ensures Canon(Minus(t, c, g, p), p)
  {
    hide Minus, IsPrime, Canon, Cong;
    var k := |a|;
    CanonPart(f, k, p);
    assert f[k..] == t && f[k] == t[0];
    CoefAt(f, k, p);
    assert forall i :: 0 <= i < k ==> a[i] == f[i];
    MinusPrefix(a, t, c, g, p);
    MinusCancels(t, c, g, p);
  }

  lemma ScanValuesEnd(a: Poly, f: Poly, g: Poly, c: int, p: int)
    requires p > 0 && g != [] && f != [] && ScanValues(a, [], f, g, c, p)
    ensures a == R.Reduction(f, c, g, p) && Multiplier(c, f, g, p)
  {
    hide Minus;
    assert a + [] == a;
    if c == 0 {
      CoefAbsent(f, g[0].m);
      CongRefl(0, p);
    }
  }

  /** The state between two iterations of a scan. */
  ghost predicate InScan(ff: PolyNode, r: PolyNode, q: PolyNode?, g: PolyNode, pre: seq<PolyNode>, tail: seq<PolyNode>,
                         gs: seq<PolyNode>, f: Poly, gv: Poly, c: int, p: int)
    reads pre, tail, gs
  {
    && p > 0 && gv != []
    && Scanning(ff, r, q, pre, tail)
    && ScanValues(TermsOf(pre), TermsOf(tail), f, gv, c, p)
    && R.Nonzero(TermsOf(tail), p) && R.Nonzero(gv, p)
    && IsList(g, gs) && TermsOf(gs) == gv && Disjoint(pre, gs) && Disjoint(tail, gs)
  }

  lemma InScanParts(ff: PolyNode, r: PolyNode, q: PolyNode?, g: PolyNode, pre: seq<PolyNode>, tail: seq<PolyNode>,
                    gs: seq<PolyNode>, f: Poly, gv: Poly, c: int, p: int)
    requires InScan(ff, r, q, g, pre, tail, gs, f, gv, c, p)
    ensures p > 0 && gv != [] && Scanning(ff, r, q, pre, tail)
    ensures ScanValues(TermsOf(pre), TermsOf(tail), f, gv, c, p)
    ensures R.Nonzero(TermsOf(tail), p) && R.Nonzero(gv, p) && 0 < gv[0].c < p && Rep(gv[0].c, p)
    ensures IsList(g, gs) && TermsOf(gs) == gv && Disjoint(pre, gs) && Disjoint(tail, gs)
    ensures gs != [] && gv[0] == Term(g.c, g.m) && g in gs && r in pre && pre != []
    ensures q != null ==> tail != [] && TermsOf(tail) != [] && TermsOf(tail)[0] == Term(q.c, q.m)
    ensures q != null ==> 0 < q.c < p && Rep(q.c, p) && q in tail
    ensures q == null ==> tail == []
  {
    hide *;
    InScanDef(ff, r, q, g, pre, tail, gs, f, gv, c, p);
    TailTerms(g, gs);
    NonzeroHead(gv, p);
    ScanningIsList(ff, r, q, pre, tail);
    if q == null {
      ListEnd(tail);
    } else {
      TailTerms(q, tail);
      NonzeroHead(TermsOf(tail), p);
    }
  }

  lemma InScanDef(ff: PolyNode, r: PolyNode, q: PolyNode?, g: PolyNode, pre: seq<PolyNode>, tail: seq<PolyNode>,
                  gs: seq<PolyNode>, f: Poly, gv: Poly, c: int, p: int)
    ensures InScan(ff, r, q, g, pre, tail, gs, f, gv, c, p) <==>
      && p > 0 && gv != [] && Scanning(ff, r, q, pre, tail)
      && ScanValues(TermsOf(pre), TermsOf(tail), f, gv, c, p)
      && R.Nonzero(TermsOf(tail), p) && R.Nonzero(gv, p)
      && IsList(g, gs) && TermsOf(gs) == gv && Disjoint(pre, gs) && Disjoint(tail, gs)
  {
    hide Scanning, ScanValues, TermsOf, IsList, Disjoint;
  }

  /** The node at the scan position has g's leading monomial: reduce from there. */
  method ScanMatch(ff: PolyNode, r: PolyNode, f0: PolyNode, g: PolyNode, p: int,
                   ghost pre: seq<PolyNode>, ghost t0: seq<PolyNode>, ghost gs: seq<PolyNode>,
                   ghost f: Poly, ghost gv: Poly, ghost c0: int)
      returns (q: PolyNode?, ghost tail: seq<PolyNode>, ghost c: int)
    requires Modulus(p) && InScan(ff, r, f0, g, pre, t0, gs, f, gv, c0, p) && f0.m == g.m
    requires Canon(f, p) && Canon(gv, p)
    modifies r, set n | n in t0
    ensures InScan(ff, r, q, g, pre, tail, gs, f, gv, c, p)
    ensures c0 == 0 && c != 0
    ensures forall n :: n in tail ==> n in t0 || fresh(n)
  {
    hide *;
    InScanParts(ff, r, f0, g, pre, t0, gs, f, gv, c0, p);
    PrimeOf(p);
    if c0 != 0 {
      ScanNoSecondMatch(TermsOf(pre), TermsOf(t0), f, gv, c0, p);
    }
    var cc := DivFF(f0.c, g.c, p);
    assert 0 < cc < p by { RepPositive(cc, p); }
    ScanValuesMatch(TermsOf(pre), TermsOf(t0), f, gv, cc, p);
    q, tail := ReduceTail(r, f0, cc, g, p, ff, pre, t0, gs);
    c := cc;
    NonzeroCanon(TermsOf(tail), p);
    InScanDef(ff, r, q, g, pre, tail, gs, f, gv, c, p);
  }

  lemma RepPositive(c: int, p: int)
    requires Rep(c, p) && c != 0
    ensures 0 < c < p
  {
  }

  /** One pass of full_reduce_d: the row ff is reduced once by g, if g's leading monomial
      occurs in it. The head of the row is never touched. */
  method ScanReduce(ff: PolyNode, g: PolyNode, p: int, ghost ns: seq<PolyNode>, ghost gs: seq<PolyNode>)
      returns (ghost hs: seq<PolyNode>, ghost c: int)
    requires Modulus(p) && p > 0 && IsList(ff, ns) && IsList(g, gs) && Disjoint(ns, gs)
    requires Canon(TermsOf(ns), p) && Canon(TermsOf(gs), p) && TermsOf(ns) != [] && TermsOf(gs) != []
    requires ff.m > g.m
    modifies ns
    ensures IsList(ff, hs) && Disjoint(hs, gs)
    ensures TermsOf(hs) == old(R.Reduction(TermsOf(ns), c, TermsOf(gs), p))
    ensures old(Multiplier(c, TermsOf(ns), TermsOf(gs), p))
    ensures forall n :: n in hs ==> n in ns || fresh(n)
  {
    hide *;
    ghost var f, gv := TermsOf(ns), TermsOf(gs);
    ScanInit(ff, g, ns, gs, p);
    var r: PolyNode, q: PolyNode? := ff, ff.next;
    ghost var pre: seq<PolyNode>, tail: seq<PolyNode> := [ff], ns[1..];
    c := 0;
    while q != null
      invariant InScan(ff, r, q, g, pre, tail, gs, f, gv, c, p)
      invariant forall n :: n in pre ==> n in ns || fresh(n)
      invariant forall n :: n in tail ==> n in ns || fresh(n)
      decreases if c == 0 then 1 else 0, |tail|
    {
      InScanParts(ff, r, q, g, pre, tail, gs, f, gv, c, p);
      if q.m == g.m {
        q, tail, c := ScanMatch(ff, r, q, g, p, pre, tail, gs, f, gv, c);
        if q == null {
          break;
        }
        InScanParts(ff, r, q, g, pre, tail, gs, f, gv, c, p);
        ScanNoSecondMatch(TermsOf(pre), TermsOf(tail), f, gv, c, p);
      }
      ScanStep(ff, r, q, pre, tail, gs, f, gv, c, p);
      r, pre, tail := q, pre + [q], tail[1..];
      q := r.next;
      InScanDef(ff, r, q, g, pre, tail, gs, f, gv, c, p);
    }
    InScanParts(ff, r, q, g, pre, tail, gs, f, gv, c, p);
    ScanDone(ff, r, g, pre, gs, f, gv, c, p);
    hs := pre;
  }

  lemma ScanInit(ff: PolyNode, g: PolyNode, ns: seq<PolyNode>, gs: seq<PolyNode>, p: int)
    requires p > 0 && IsList(ff, ns) && IsList(g, gs) && Disjoint(ns, gs)
    requires Canon(TermsOf(ns), p) && Canon(TermsOf(gs), p)
    requires ff.m > g.m
    ensures ns != [] && ff == ns[0] && forall n :: n in [ff] || n in ns[1..] ==> n in ns
    ensures InScan(ff, ff, ff.next, g, [ff], ns[1..], gs, TermsOf(ns), TermsOf(gs), 0, p)
  {
    hide *;
    TailTerms(ff, ns);
    TailTerms(g, gs);
    ScanningStart(ff, ns);
    ScanStartTerms(ff, ns);
    var f, gv := TermsOf(ns), TermsOf(gs);
    ScanValuesStart(f, gv, p);
    NonzeroCanon(f, p);
    NonzeroHead(f, p);
    NonzeroCanon(gv, p);
    ListTail(ff, ns);
    DisjointStart(ff, ns, gs);
    InScanDef(ff, ff, ff.next, g, [ff], ns[1..], gs, f, gv, 0, p);
  }

  lemma ScanDone(ff: PolyNode, r: PolyNode, g: PolyNode, pre: seq<PolyNode>,
                 gs: seq<PolyNode>, f: Poly, gv: Poly, c: int, p: int)
    requires InScan(ff, r, null, g, pre, [], gs, f, gv, c, p) && f != [] && gv != [] && p > 0
    ensures IsList(ff, pre) && Disjoint(pre, gs)
    ensures TermsOf(pre) == R.Reduction(f, c, gv, p) && Multiplier(c, f, gv, p)
  {
    hide *;
    InScanParts(ff, r, null, g, pre, [], gs, f, gv, c, p);
    ScanningIsList(ff, r, null, pre, []);
    assert TermsOf([]) == [] by { NoTerms([]); }
    ScanValuesEnd(TermsOf(pre), f, gv, c, p);
    assert pre + [] == pre;
  }

  lemma NoTerms(ns: seq<PolyNode>)
    ensures TermsOf(ns) == [] <==> ns == []
  {
  }

  lemma NonzeroCanon(f: Poly, p: int)
    requires Canon(f, p)
    ensures R.Nonzero(f, p)
  {
  }

  lemma NonzeroHead(f: Poly, p: int)
    requires R.Nonzero(f, p) && f != []
    ensures 0 < f[0].c < p && Rep(f[0].c, p) && R.Nonzero(f[1..], p)
  {
  }

  lemma ScanStartTerms(ff: PolyNode, ns: seq<PolyNode>)
    requires IsList(ff, ns)
    ensures ns != [] && TermsOf([ff]) == [TermsOf(ns)[0]] && TermsOf(ns[1..]) == TermsOf(ns)[1..]
    ensures forall n :: n in [ff] || n in ns[1..] ==> n in ns
  {
  }

  /** The scan moves on by one node. */
  lemma ScanStep(ff: PolyNode, r: PolyNode, q: PolyNode, pre: seq<PolyNode>, tail: seq<PolyNode>,
                 gs: seq<PolyNode>, f: Poly, gv: Poly, c: int, p: int)
    requires p > 0 && gv != [] && Scanning(ff, r, q, pre, tail)
    requires ScanValues(TermsOf(pre), TermsOf(tail), f, gv, c, p) && q.m != gv[0].m
    requires R.Nonzero(TermsOf(tail), p) && Disjoint(pre, gs) && Disjoint(tail, gs)
    ensures tail != [] && q in tail && Scanning(ff, q, q.next, pre + [q], tail[1..])
    ensures ScanValues(TermsOf(pre + [q]), TermsOf(tail[1..]), f, gv, c, p)
    ensures R.Nonzero(TermsOf(tail[1..]), p) && Disjoint(pre + [q], gs) && Disjoint(tail[1..], gs)
    ensures forall n :: n in tail[1..] ==> n in tail
  {
    hide *;
    ScanningIsList(ff, r, q, pre, tail);
    ListTail(q, tail);
    ScanningNext(ff, r, q, pre, tail);
    R.TermsSnoc(pre, q);
    assert TermsOf(tail)[1..] == TermsOf(tail[1..]);
    ScanValuesNext(TermsOf(pre), TermsOf(tail), f, gv, c, p);
    NonzeroHead(TermsOf(tail), p);
    DisjointStep(pre, tail, gs, q);
  }

  lemma DisjointStep(pre: seq<PolyNode>, tail: seq<PolyNode>, gs: seq<PolyNode>, q: PolyNode)
    requires tail != [] && q == tail[0] && Disjoint(pre, gs) && Disjoint(tail, gs)
    ensures q in tail && Disjoint(pre + [q], gs) && Disjoint(tail[1..], gs)
    ensures forall n :: n in tail[1..] ==> n in tail
  {
  }

  lemma DisjointStart(ff: PolyNode, ns: seq<PolyNode>, gs: seq<PolyNode>)
    requires ns != [] && ff == ns[0] && Disjoint(ns, gs)
    ensures Disjoint([ff], gs) && Disjoint(ns[1..], gs)
  {
    assert ff in ns;
  }
}
