/** The coefficient lists of calc.c on the heap: nodes are relinked and freed in place. */
module PolyList {
  import opened Basics
  import opened Modular
  import opened InvFF
  import opened FieldFF
  import opened SparsePoly

  class PolyNode {
    var c: int
    var m: int
    var next: PolyNode?

    constructor (c: int, m: int)
      ensures this.c == c && this.m == m && next == null
    {
      this.c, this.m, this.next := c, m, null;
    }
  }

  ghost predicate Disjoint(a: seq<PolyNode>, b: seq<PolyNode>) {
    forall n :: n in a ==> n !in b
  }

  /** Every node points to the next one in the sequence, the last one to `end`. */
  ghost predicate Links(ns: seq<PolyNode>, end: PolyNode?)
    reads ns`next
  {
    && (forall i :: 0 <= i < |ns| - 1 ==> ns[i].next == ns[i + 1])
    && (ns != [] ==> ns[|ns| - 1].next == end)
  }

  /** `p` is the head of the null-terminated list with nodes `ns`. */
  ghost predicate IsList(p: PolyNode?, ns: seq<PolyNode>)
    reads ns`next
  {
    && Distinct(ns) && Links(ns, null)
    && p == if ns == [] then null else ns[0]
  }

  /** `r` is the last node of the list under construction. */
  ghost predicate Building(r: PolyNode, out: seq<PolyNode>)
    reads out`next
  {
    && out != [] && Distinct(out) && r == out[|out| - 1]
    && forall i :: 0 <= i < |out| - 1 ==> out[i].next == out[i + 1]
  }

  ghost function TermsOf(ns: seq<PolyNode>): (f: Poly)
    reads ns`c, ns`m
    ensures |f| == |ns| && forall i :: 0 <= i < |ns| ==> f[i] == Term(ns[i].c, ns[i].m)
  {
    if ns == [] then [] else [Term(ns[0].c, ns[0].m)] + TermsOf(ns[1..])
  }

  lemma TermsConcat(a: seq<PolyNode>, b: seq<PolyNode>)
    ensures TermsOf(a + b) == TermsOf(a) + TermsOf(b)
  {
  }

  lemma ListTail(p: PolyNode?, ns: seq<PolyNode>)
    requires IsList(p, ns) && p != null
    ensures ns != [] && p == ns[0] && p !in ns[1..] && IsList(p.next, ns[1..])
    ensures TermsOf(ns) == [Term(p.c, p.m)] + TermsOf(ns[1..])
  {
  }

  lemma BuildingStart(root: PolyNode)
    ensures Building(root, [root])
  {
  }

  lemma BuildingShape(r: PolyNode, out: seq<PolyNode>)
    requires Building(r, out)
    ensures out != [] && r == out[|out| - 1] && r in out
  {
  }

  lemma EmptyList()
    ensures IsList(null, [])
  {
  }

  lemma ListEnd(ns: seq<PolyNode>)
    requires IsList(null, ns)
    ensures ns == []
  {
  }

  /** A list under construction, followed by a finished list, is a list. */
  lemma ListFromParts(out: seq<PolyNode>, r: PolyNode, q: PolyNode?, s: seq<PolyNode>)
    requires Building(r, out) && r.next == q && IsList(q, s) && Disjoint(out, s)
    ensures IsList(out[0], out + s)
    ensures IsList(out[0].next, out[1..] + s)
  {
    var all := out + s;
    forall i, j | 0 <= i < j < |all|
      ensures all[i] != all[j]
    {
      if i < |out| && j >= |out| {
        assert out[i] in out && s[j - |out|] in s;
      }
    }
    forall i | 0 <= i < |all| - 1
      ensures all[i].next == all[i + 1]
    {
    }
    var rest := out[1..] + s;
    assert forall i :: 0 <= i < |rest| ==> rest[i] == all[i + 1];
  }

  /** Append node n after r. */
  method Append(r: PolyNode, n: PolyNode, ghost out: seq<PolyNode>)
    requires Building(r, out) && n !in out
    modifies r`next
    ensures r.next == n && Building(n, out + [n])
  {
    r.next := n;
  }

  /** Finish a list under construction with the list `q`. */
  method Attach(r: PolyNode, q: PolyNode?, ghost out: seq<PolyNode>, ghost s: seq<PolyNode>)
    requires Building(r, out) && IsList(q, s) && Disjoint(out, s)
    modifies r`next
    ensures out != [] && IsList(out[0].next, out[1..] + s)
  {
    r.next := q;
    assert r !in s;
    ListFromParts(out, r, q, s);
  }

  // ---------- the field operations of the sources, as the merge uses them ----------

  lemma MulFFCong(a: int, b: int, p: int)
    requires Modulus(p) && Rep(a, p) && Rep(b, p) && b != 0
    ensures Cong(MulFF(a, b, p), a * b, p)
  {
  }

  lemma NegMulAgrees(c: int, b: int, p: int)
    requires Modulus(p) && Rep(c, p) && Rep(b, p) && b != 0
    ensures NegFF(MulFF(c, b, p), p) == NegMul(c, b, p)
    ensures MulFF(NegFF(c, p), b, p) == NegMul(c, b, p)
  {
    hide Cong, MulFF, NegFF, NegMul, Modulus;
    MulFFCong(c, b, p);
    CongScale(-1, MulFF(c, b, p), c * b, p);
    CongSym(NegMul(c, b, p), -(c * b), p);
    CongTrans(NegFF(MulFF(c, b, p), p), -MulFF(c, b, p), -(c * b), p);
    CongTrans(NegFF(MulFF(c, b, p), p), -(c * b), NegMul(c, b, p), p);
    CongUnique(NegFF(MulFF(c, b, p), p), NegMul(c, b, p), p);
    var n := NegFF(c, p);
    MulFFCong(n, b, p);
    CongScale(b, n, -c, p);
    assert b * n == n * b && b * -c == -(c * b);
    CongTrans(MulFF(n, b, p), n * b, -(c * b), p);
    CongTrans(MulFF(n, b, p), -(c * b), NegMul(c, b, p), p);
    CongUnique(MulFF(n, b, p), NegMul(c, b, p), p);
  }

  lemma SubMulAgrees(a: int, c: int, b: int, p: int)
    requires Modulus(p) && Rep(a, p) && Rep(c, p) && Rep(b, p) && b != 0
    ensures SubFF(a, MulFF(c, b, p), p) == SubMul(a, c, b, p)
  {
    hide Cong, MulFF, SubFF, SubMul, Modulus;
    MulFFCong(c, b, p);
    CongRefl(a, p);
    var m := MulFF(c, b, p);
    CongSub(a, a, m, c * b, p);
    CongTrans(SubFF(a, m, p), a - m, a - c * b, p);
    CongSym(SubMul(a, c, b, p), a - c * b, p);
    CongTrans(SubFF(a, m, p), a - c * b, SubMul(a, c, b, p), p);
    CongUnique(SubFF(a, m, p), SubMul(a, c, b, p), p);
  }

  // ---------- fresh lists ----------

  /** Products of monomials of degree one are not supported: the first one is kept. */
  function MulMonomial(m1: int, m2: int): int {
    if m1 == 0 || m2 == 0 then m1 + m2 else m1
  }

  /** The terms of p1's leading term times every term of g. */
  ghost function Mul1Terms(c: int, m: int, g: Poly, p: int): (h: Poly)
    requires Modulus(p) && Rep(c, p) && forall i :: 0 <= i < |g| ==> Rep(g[i].c, p)
    ensures |h| == |g|
    ensures forall i :: 0 <= i < |g| ==> h[i] == Term(MulFF(c, g[i].c, p), MulMonomial(m, g[i].m))
  {
    seq(|g|, i requires 0 <= i < |g| => Term(MulFF(c, g[i].c, p), MulMonomial(m, g[i].m)))
  }

  method Mul1Poly(p1: PolyNode, p2: PolyNode?, p: int, ghost gs: seq<PolyNode>)
      returns (h: PolyNode?, ghost hs: seq<PolyNode>)
    requires Modulus(p) && IsList(p2, gs) && Rep(p1.c, p)
    requires forall i :: 0 <= i < |gs| ==> Rep(gs[i].c, p)
    ensures fresh(hs) && IsList(h, hs)
    ensures TermsOf(hs) == Mul1Terms(p1.c, p1.m, TermsOf(gs), p)
  {
    hide *;
    var root := new PolyNode(0, 0);
    BuildingStart(root);
    var r, q := root, p2;
    ghost var out := [root];
    ghost var k := 0;
    while q != null
      invariant out != [] && fresh(out) && Building(r, out) && out[0] == root && |out| == k + 1 && k <= |gs|
      invariant IsList(q, gs[k..]) && Rep(p1.c, p) && unchanged(p1)
      invariant forall i :: 0 <= i < |gs| ==> Rep(gs[i].c, p) && unchanged(gs[i])
      invariant forall i :: 0 <= i < k ==>
        out[i + 1].c == MulFF(p1.c, gs[i].c, p) && out[i + 1].m == MulMonomial(p1.m, gs[i].m)
      decreases |gs| - k
    {
      ListTail(q, gs[k..]);
      BuildingShape(r, out);
      assert q == gs[k] && gs[k..][1..] == gs[k + 1..];
      var s := new PolyNode(MulFF(p1.c, q.c, p), MulMonomial(p1.m, q.m));
      Append(r, s, out);
      out := out + [s];
      r, q, k := s, q.next, k + 1;
    }
    BuildingShape(r, out);
    ListEnd(gs[k..]);
    EmptyList();
    Attach(r, null, out, []);
    h, hs := root.next, out[1..];
    assert out[1..] + [] == out[1..];
    assert forall i :: 0 <= i < |hs| ==> hs[i] == out[i + 1];
  }
}
