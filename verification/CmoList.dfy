/** The circular doubly linked lists of the toolkit: a new cell is linked in place between the head
    and the cell before it. */
module CmoList {
  import opened Basics

  class Cell {
    var prev: Cell?
    var next: Cell?
    /** The object the cell points to, by its identity. */
    var cmo: int
    var exp: int

    constructor (ob: int, e: int)
      ensures cmo == ob && exp == e && prev == null && next == null
    {
      prev, next, cmo, exp := null, null, ob, e;
    }
  }

  datatype Item = Item(cmo: int, exp: int)

  /** One step around n places. */
  function Following(i: nat, n: nat): nat
    requires i < n
  {
    if i + 1 == n then 0 else i + 1
  }

  /** Both directions around the ring of cs. */
  ghost predicate Linked(cs: seq<Cell>)
    reads cs`next, cs`prev
  {
    forall i :: 0 <= i < |cs| ==>
      cs[i].next == cs[Following(i, |cs|)] && cs[Following(i, |cs|)].prev == cs[i]
  }

  /** The items of all cells but the head. */
  ghost function ItemsOf(cs: seq<Cell>): (s: seq<Item>)
    requires cs != []
    reads cs`cmo, cs`exp
    ensures |s| == |cs| - 1 && forall i :: 0 <= i < |s| ==> s[i] == Item(cs[i + 1].cmo, cs[i + 1].exp)
  {
    if |cs| == 1 then [] else ItemsOf(cs[..|cs| - 1]) + [Item(cs[|cs| - 1].cmo, cs[|cs| - 1].exp)]
  }

  /** (prev, head) becomes (prev, new, head). */
  method Cons(head: Cell, el: Cell, ghost ring: seq<Cell>)
    requires ring != [] && ring[0] == head && Distinct(ring) && Linked(ring) && el !in ring
    modifies ring`next, ring`prev, el`prev, el`next
    ensures Distinct(ring + [el]) && Linked(ring + [el])
  {
    ghost var n := |ring|;
    assert Following(n - 1, n) == 0;
    var prev := head.prev;
    assert prev == ring[n - 1];
    el.prev := prev;
    head.prev := el;
    prev.next := el;
    el.next := head;
    Closed(ring, el);
  }

  /** The ring with a new last cell, from its links. */
  lemma Closed(ring: seq<Cell>, el: Cell)
    requires ring != [] && Distinct(ring) && el !in ring
    requires forall i :: 0 <= i < |ring| - 1 ==> ring[i].next == ring[i + 1] && ring[i + 1].prev == ring[i]
    requires ring[|ring| - 1].next == el && el.prev == ring[|ring| - 1]
    requires el.next == ring[0] && ring[0].prev == el
    ensures Distinct(ring + [el]) && Linked(ring + [el])
  {
    var all := ring + [el];
    forall i | 0 <= i < |all|
      ensures all[i].next == all[Following(i, |all|)] && all[Following(i, |all|)].prev == all[i]
    {
      if i < |ring| - 1 {
        assert all[i] == ring[i] && all[i + 1] == ring[i + 1];
      }
    }
  }

  lemma ItemsSnoc(ring: seq<Cell>, el: Cell)
    requires ring != []
    ensures ItemsOf(ring + [el]) == ItemsOf(ring) + [Item(el.cmo, el.exp)]
  {
    assert (ring + [el])[..|ring|] == ring;
  }

  class List {
    const head: Cell
    var length: int
    /** All cells of the ring, the head first. */
    ghost var ring: seq<Cell>

    ghost predicate Valid()
      reads this, ring
    {
      ring != [] && ring[0] == head && length == |ring| - 1 && Distinct(ring) && Linked(ring)
    }

    /** Objects and exponents in order. */
    ghost function Contents(): (s: seq<Item>)
      requires Valid()
      reads this, ring
      ensures |s| == length
    {
      ItemsOf(ring)
    }

    constructor ()
      ensures Valid() && fresh(ring) && Contents() == []
    {
      var h := new Cell(0, 0);
      head, length, ring := h, 0, [h];
      new;
      head.next := head;
      head.prev := head;
    }

    method Append(ob: int, e: int)
      requires Valid()
      modifies this, ring
      ensures Valid() && Contents() == old(Contents()) + [Item(ob, e)]
      ensures fresh(ring[|old(ring)|..]) && ring[..|old(ring)|] == old(ring)
    {
      hide Distinct, Linked, ItemsOf;
      var el := new Cell(ob, e);
      Cons(head, el, ring);
      ItemsSnoc(ring, el);
      ring := ring + [el];
      length := length + 1;
    }

    /** The n-th object; None when there is none.  A negative n yields the first cell, which is the
        head itself in an empty list. */
    method Nth(n: int) returns (r: Option<int>)
      requires Valid()
      ensures 0 <= n < length ==> r == Some(Contents()[n].cmo)
      ensures n >= length ==> r == None
      ensures n < 0 ==> r == Some(if length > 0 then Contents()[0].cmo else head.cmo)
    {
      if length <= n {
        return None;
      }
      var k: int := n;
      var el := head.next;
      assert el == ring[Following(0, |ring|)];
      ghost var i := Following(0, |ring|);
      while k > 0
        invariant 0 <= k <= n || k == n < 0
        invariant 0 <= i < |ring| && el == ring[i]
        invariant if n < 0 then i == Following(0, |ring|) else i == n - k + 1
      {
        el := el.next;
        i := Following(i, |ring|);
        k := k - 1;
      }
      r := Some(el.cmo);
    }

    /** The loop over a list: from the first cell to the head. */
    method Items() returns (s: seq<Item>)
      requires Valid()
      ensures s == Contents()
    {
      s := [];
      var el := head.next;
      ghost var i := Following(0, |ring|);
      while el != head
        invariant 0 <= i < |ring| && el == ring[i]
        invariant if i == 0 then s == Contents() else |s| == i - 1 && s == Contents()[..i - 1]
        decreases if i == 0 then 0 else |ring| - i
      {
        s := s + [Item(el.cmo, el.exp)];
        assert s == Contents()[..i];
        el := el.next;
        i := Following(i, |ring|);
      }
    }
  }

  /** Objects without exponents. */
  function Plain(obs: seq<int>): (s: seq<Item>)
    ensures |s| == |obs| && forall i :: 0 <= i < |obs| ==> s[i] == Item(obs[i], 0)
  {
    if obs == [] then [] else Plain(obs[..|obs| - 1]) + [Item(obs[|obs| - 1], 0)]
  }

  /** A list of given objects in order. */
  method FromArray(obs: seq<int>) returns (l: List)
    ensures fresh(l) && l.Valid() && l.Contents() == Plain(obs)
  {
    hide Distinct, Linked, ItemsOf;
    l := new List();
    var i := 0;
    while i < |obs|
      invariant 0 <= i <= |obs| && l.Valid() && fresh(l) && fresh(l.ring) && l.Contents() == Plain(obs[..i])
    {
      ghost var ring := l.ring;
      l.Append(obs[i], 0);
      assert l.ring == ring + l.ring[|ring|..];
      i := i + 1;
      assert obs[..i][..i - 1] == obs[..i - 1];
    }
    assert obs[..i] == obs;
  }
}
