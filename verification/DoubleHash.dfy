/** The probing table of one context: double hashing over a prime number of slots. */
module DoubleHash {

  const SIZE: nat := 1223

  /** A key has been put in a used slot; an empty slot has attribute 0. */
  datatype Slot<V> = Empty | Used(key: string, obj: V, attr: nat)

  /** The characters a C program sees as non-negative. */
  predicate KeyOk(s: string) { forall i :: 0 <= i < |s| ==> 0 < s[i] as int < 128 }

  function Mix(h: nat, c: char): nat { (h * 128 + c as int) % SIZE }

  function HashFrom(s: string, h: nat): (r: nat)
    requires h < SIZE
    ensures r < SIZE
  {
    if s == "" then h else HashFrom(s[1..], Mix(h, s[0]))
  }

  function Hash0Of(s: string): (h: nat)
    ensures h < SIZE
  {
    HashFrom(s, 0)
  }

  method Hash0(s: string) returns (h: nat)
    requires KeyOk(s)
    ensures h == Hash0Of(s) && h < SIZE
  {
    h := 0;
    var i := 0;
    assert s[0..] == s;
    while i < |s|
      invariant 0 <= i <= |s| && h < SIZE && HashFrom(s[i..], h) == Hash0Of(s)
    {
      assert s[i..][1..] == s[i + 1..];
      h := (h * 128 + s[i] as int) % SIZE;
      i := i + 1;
    }
  }

  /** The step, from the first character; the empty key's first character is the zero byte. */
  function Hash1(s: string): (h: nat)
    ensures 1 <= h <= 8
  {
    8 - (if s == "" then 0 else s[0] as int) % 8
  }

  /** The number whose digits to the base 128 are the characters of the key. */
  function InBase128(s: string): nat {
    if s == "" then 0 else InBase128(s[..|s| - 1]) * 128 + s[|s| - 1] as int
  }

  lemma {:induction false} HashSnoc(s: string, c: char, h: nat)
    requires h < SIZE
    ensures HashFrom(s + [c], h) == Mix(HashFrom(s, h), c)
  {
    if s == "" {
      assert [c][1..] == "" && "" + [c] == [c];
    } else {
      assert (s + [c])[1..] == s[1..] + [c] && (s + [c])[0] == s[0];
      HashSnoc(s[1..], c, Mix(h, s[0]));
    }
    hide Mix;
  }

  /** The first slot is that number's remainder. */
  lemma {:induction false} HashIsRemainder(s: string)
    ensures Hash0Of(s) == InBase128(s) % SIZE
  {
    if s != "" {
      var t, c := s[..|s| - 1], s[|s| - 1];
      assert s == t + [c];
      HashSnoc(t, c, 0);
      HashIsRemainder(t);
      MixRemainder(InBase128(t), c);
    }
    hide HashFrom, Mix;
  }

  lemma MixRemainder(n: nat, c: char)
    ensures Mix(n % SIZE, c) == (n * 128 + c as int) % SIZE
  {
  }

  /** The step is between 1 and 8 and makes up the first character to a multiple of 8. */
  lemma StepIs(s: string)
    ensures 1 <= Hash1(s) <= 8 && ((if s == "" then 0 else s[0] as int) + Hash1(s)) % 8 == 0
  {
  }

  // ---------- probing ----------

  function Probe(h0: nat, h1: nat, k: nat): (x: nat)
    ensures x < SIZE
  {
    (h0 + k * h1) % SIZE
  }

  lemma ProbeNext(h0: nat, h1: nat, k: nat)
    requires h0 < SIZE
    ensures Probe(h0, h1, 0) == h0
    ensures (Probe(h0, h1, k) + h1) % SIZE == Probe(h0, h1, k + 1)
  {
    var a := h0 + k * h1;
    assert h0 + (k + 1) * h1 == a + h1;
    ModAdd(a, h1);
  }

  lemma ModAdd(a: nat, b: nat)
    ensures (a % SIZE + b) % SIZE == (a + b) % SIZE
  {
  }

  /** SIZE shares no factor with a step from 1 to 8: each step has an inverse modulo SIZE. */
  function Inverse(h1: nat): (r: nat)
    requires 1 <= h1 <= 8
    ensures r < SIZE && exists q: nat :: r * h1 == q * SIZE + 1
  {
    var r := [1, 612, 408, 306, 734, 204, 699, 153][h1 - 1];
    var q := [0, 1, 1, 1, 3, 1, 4, 1][h1 - 1];
    assert r * h1 == q * SIZE + 1;
    r
  }

  lemma Coprime(h1: nat, d: nat, q: nat)
    requires 1 <= h1 <= 8 && 0 < d < SIZE
    ensures d * h1 != q * SIZE
  {
    if h1 == 1 {
    } else if h1 == 2 {
    } else if h1 == 3 {
    } else if h1 == 4 {
    } else if h1 == 5 {
    } else if h1 == 6 {
    } else if h1 == 7 {
    }
  }

  lemma SameRemainder(a: nat, b: nat)
    requires a <= b && a % SIZE == b % SIZE
    ensures exists q: nat :: b - a == q * SIZE
  {
    assert b - a == (b / SIZE - a / SIZE) * SIZE;
  }

  /** Two probes less than a full turn apart never meet. */
  lemma ProbeInjective(h0: nat, h1: nat, j: nat, k: nat)
    requires 1 <= h1 <= 8 && j < k < j + SIZE
    ensures Probe(h0, h1, j) != Probe(h0, h1, k)
  {
    if Probe(h0, h1, j) == Probe(h0, h1, k) {
      assert k * h1 - j * h1 == (k - j) * h1;
      SameRemainder(h0 + j * h1, h0 + k * h1);
      var q: nat :| (h0 + k * h1) - (h0 + j * h1) == q * SIZE;
      Coprime(h1, k - j, q);
    }
  }

  /** A full turn visits every slot. */
  lemma ProbeReaches(h0: nat, h1: nat, x: nat)
    requires h0 < SIZE && 1 <= h1 <= 8 && x < SIZE
    ensures exists k: nat :: k < SIZE && Probe(h0, h1, k) == x
  {
    var r := Inverse(h1);
    var q: nat :| r * h1 == q * SIZE + 1;
    var d := x + SIZE - h0;
    var k := (d * r) % SIZE;
    var e := (d * r) / SIZE;
    assert d * r == e * SIZE + k;
    ProbeTurn(h0, h1, x, r, q, d, k, e);
    assert Probe(h0, h1, k) == x;
  }

  lemma ProbeTurn(h0: nat, h1: nat, x: nat, r: nat, q: nat, d: nat, k: nat, e: nat)
    requires x < SIZE && h0 + d == x + SIZE && r * h1 == q * SIZE + 1 && d * r == e * SIZE + k
    ensures (h0 + k * h1) % SIZE == x
  {
    assert (d * r) * h1 == d * (r * h1);
    assert d * (q * SIZE + 1) == (d * q) * SIZE + d;
    assert (e * SIZE + k) * h1 == (e * h1) * SIZE + k * h1;
    var f := d * q - e * h1 + 1;
    assert f * SIZE == (d * q) * SIZE - (e * h1) * SIZE + SIZE;
    assert h0 + k * h1 == x + f * SIZE;
    TurnMod(x, h0 + k * h1, f);
  }

  lemma TurnMod(x: nat, y: nat, f: int)
    requires x < SIZE && y == x + f * SIZE
    ensures y % SIZE == x
  {
  }

  /** The probe comes back to its start after exactly one turn. */
  lemma ProbeReturns(h0: nat, h1: nat, k: nat)
    requires h0 < SIZE && 1 <= h1 <= 8 && 0 < k <= SIZE
    ensures Probe(h0, h1, k) == h0 <==> k == SIZE
  {
    ProbeNext(h0, h1, 0);
    if k < SIZE {
      ProbeInjective(h0, h1, 0, k);
    } else {
      assert h0 + SIZE * h1 == h0 + h1 * SIZE;
      TurnMod(h0, h0 + SIZE * h1, h1);
    }
  }

  // ---------- the table as a map ----------

  datatype Entry<V> = Entry(obj: V, attr: nat)

  function Visit(key: string, k: nat): (x: nat)
    ensures x < SIZE
  {
    Probe(Hash0Of(key), Hash1(key), k)
  }

  function NextSlot(x: nat, h1: nat): (y: nat)
    ensures y < SIZE
  {
    (x + h1) % SIZE
  }

  lemma VisitNext(key: string, k: nat)
    requires k < SIZE
    ensures Visit(key, 0) == Hash0Of(key)
    ensures NextSlot(Visit(key, k), Hash1(key)) == Visit(key, k + 1)
    ensures Visit(key, k + 1) == Hash0Of(key) <==> k + 1 == SIZE
  {
    ProbeNext(Hash0Of(key), Hash1(key), k);
    ProbeReturns(Hash0Of(key), Hash1(key), k + 1);
    hide Probe, Hash0Of, Hash1;
  }

  ghost predicate HasKey<V>(t: seq<Slot<V>>, x: nat, key: string) {
    x < |t| && t[x].Used? && t[x].key == key
  }

  /** The first k slots probed for the key are taken by other keys. */
  ghost predicate Passed<V>(t: seq<Slot<V>>, key: string, k: nat)
    requires |t| == SIZE
  {
    forall j :: 0 <= j < k ==> t[Visit(key, j)].Used? && t[Visit(key, j)].key != key
  }

  ghost predicate Reached<V>(t: seq<Slot<V>>, x: nat, key: string)
    requires |t| == SIZE
  {
    exists k: nat :: k < SIZE && Visit(key, k) == x && Passed(t, key, k)
  }

  /** The table holds exactly the entries of m, each where a probe for its key finds it. */
  ghost predicate TableOk<V>(t: seq<Slot<V>>, m: map<string, Entry<V>>) {
    && |t| == SIZE
    && (forall x :: 0 <= x < SIZE && t[x].Used? ==>
          Reached(t, x, t[x].key) && t[x].key in m && m[t[x].key] == Entry(t[x].obj, t[x].attr))
    && (forall key :: key in m ==> exists x: nat :: HasKey(t, x, key))
  }

  lemma EmptyTable<V>(t: seq<Slot<V>>)
    requires |t| == SIZE && forall x :: 0 <= x < SIZE ==> t[x].Empty?
    ensures TableOk(t, map[])
  {
  }

  lemma PassedNone<V>(t: seq<Slot<V>>, key: string)
    requires |t| == SIZE
    ensures Passed(t, key, 0)
  {
  }

  lemma PassedNext<V>(t: seq<Slot<V>>, key: string, k: nat)
    requires |t| == SIZE && Passed(t, key, k) && t[Visit(key, k)].Used? && t[Visit(key, k)].key != key
    ensures Passed(t, key, k + 1)
  {
  }

  lemma PresentEntry<V>(t: seq<Slot<V>>, m: map<string, Entry<V>>, x: nat)
    requires TableOk(t, m) && x < |t| && t[x].Used?
    ensures t[x].key in m && m[t[x].key] == Entry(t[x].obj, t[x].attr)
  {
  }

  /** Where a probe meets an empty slot its key is nowhere in the table. */
  lemma GapMeansAbsent<V>(t: seq<Slot<V>>, m: map<string, Entry<V>>, key: string, k: nat)
    requires TableOk(t, m) && Passed(t, key, k) && t[Visit(key, k)].Empty?
    ensures key !in m
  {
  }

  /** Where a probe comes back to its start every slot is taken by another key. */
  lemma TurnMeansFull<V>(t: seq<Slot<V>>, m: map<string, Entry<V>>, key: string)
    requires TableOk(t, m) && Passed(t, key, SIZE)
    ensures key !in m && forall x :: 0 <= x < SIZE ==> t[x].Used?
  {
    forall x | 0 <= x < SIZE
      ensures t[x].Used? && t[x].key != key
    {
      ProbeReaches(Hash0Of(key), Hash1(key), x);
      var k: nat :| k < SIZE && Probe(Hash0Of(key), Hash1(key), k) == x;
      assert Visit(key, k) == x;
    }
  }

  /** Rewriting the value or the attribute of a key in place. */
  lemma UpdateKeeps<V>(t: seq<Slot<V>>, m: map<string, Entry<V>>, x: nat, obj: V, attr: nat)
    requires TableOk(t, m) && x < SIZE && t[x].Used?
    ensures TableOk(t[x := Used(t[x].key, obj, attr)], m[t[x].key := Entry(obj, attr)])
  {
    var key := t[x].key;
    var t' := t[x := Used(key, obj, attr)];
    forall y | 0 <= y < SIZE && t'[y].Used?
      ensures Reached(t', y, t'[y].key) && (y != x ==> t'[y].key != key)
    {
      StillReached(t, t', y, t[y].key);
      if y != x {
        KeysDiffer(t, m, x, y);
      }
    }
    var m' := m[key := Entry(obj, attr)];
    forall k | k in m'
      ensures exists y: nat :: HasKey(t', y, k)
    {
      if k == key {
        assert HasKey(t', x, k);
      } else {
        var y: nat :| HasKey(t, y, k);
        assert HasKey(t', y, k);
      }
    }
  }

  lemma StillReached<V>(t: seq<Slot<V>>, t': seq<Slot<V>>, y: nat, key: string)
    requires |t| == SIZE == |t'| && Reached(t, y, key)
    requires forall z :: 0 <= z < SIZE && t[z].Used? ==> t'[z].Used? && t'[z].key == t[z].key
    ensures Reached(t', y, key)
  {
    var k: nat :| k < SIZE && Visit(key, k) == y && Passed(t, key, k);
    assert Passed(t', key, k);
  }

  /** No key is in two slots. */
  lemma KeysDiffer<V>(t: seq<Slot<V>>, m: map<string, Entry<V>>, x: nat, y: nat)
    requires TableOk(t, m) && x < SIZE && y < SIZE && x != y && t[x].Used? && t[y].Used?
    ensures t[x].key != t[y].key
  {
  }

  /** Filling the gap a probe for a new key ended in. */
  lemma InsertKeeps<V>(t: seq<Slot<V>>, m: map<string, Entry<V>>, key: string, k: nat, obj: V, attr: nat)
    requires TableOk(t, m) && k < SIZE && Passed(t, key, k) && t[Visit(key, k)].Empty? && key !in m
    ensures TableOk(t[Visit(key, k) := Used(key, obj, attr)], m[key := Entry(obj, attr)])
  {
    var x := Visit(key, k);
    var t' := t[x := Used(key, obj, attr)];
    forall y | 0 <= y < SIZE && t'[y].Used?
      ensures Reached(t', y, t'[y].key) && (y != x ==> t'[y].key != key)
    {
      if y == x {
        assert Passed(t', key, k);
      } else {
        StillReached(t, t', y, t[y].key);
      }
    }
    var m' := m[key := Entry(obj, attr)];
    forall k' | k' in m'
      ensures exists y: nat :: HasKey(t', y, k')
    {
      if k' == key {
        assert HasKey(t', x, k');
      } else {
        var y: nat :| HasKey(t, y, k');
        assert HasKey(t', y, k');
      }
    }
  }

  // ---------- a full table ----------

  ghost function KeysBelow<V>(t: seq<Slot<V>>, n: nat): set<string>
    requires n <= |t|
  {
    set x | 0 <= x < n && t[x].Used? :: t[x].key
  }

  lemma NewKeyBelow<V>(t: seq<Slot<V>>, m: map<string, Entry<V>>, n: nat)
    requires TableOk(t, m) && n < SIZE && t[n].Used?
    ensures t[n].key !in KeysBelow(t, n) && KeysBelow(t, n + 1) == KeysBelow(t, n) + {t[n].key}
  {
    forall x | 0 <= x < n && t[x].Used?
      ensures t[x].key != t[n].key
    {
      KeysDiffer(t, m, x, n);
    }
    hide TableOk;
  }

  ghost function UsedBelow<V>(t: seq<Slot<V>>, n: nat): nat
    requires n <= |t|
  {
    if n == 0 then 0 else UsedBelow(t, n - 1) + if t[n - 1].Used? then 1 else 0
  }

  lemma {:induction false} CountUsed<V>(t: seq<Slot<V>>, n: nat)
    requires n <= |t|
    ensures UsedBelow(t, n) <= n
    ensures UsedBelow(t, n) == n <==> forall x :: 0 <= x < n ==> t[x].Used?
  {
    if n > 0 {
      CountUsed(t, n - 1);
    }
  }

  lemma {:induction false} CountKeys<V>(t: seq<Slot<V>>, m: map<string, Entry<V>>, n: nat)
    requires TableOk(t, m) && n <= SIZE
    ensures |t| == SIZE && |KeysBelow(t, n)| == UsedBelow(t, n)
  {
    if n == 0 {
      assert KeysBelow(t, n) == {};
    } else {
      CountKeys(t, m, n - 1);
      if t[n - 1].Used? {
        NewKeyBelow(t, m, n - 1);
      } else {
        assert KeysBelow(t, n) == KeysBelow(t, n - 1);
      }
      hide TableOk, KeysBelow;
    }
  }

  /** The table is full exactly when it holds SIZE keys. */
  lemma FullIff<V>(t: seq<Slot<V>>, m: map<string, Entry<V>>)
    requires TableOk(t, m)
    ensures |t| == SIZE && |m| <= SIZE
    ensures |m| == SIZE <==> forall x :: 0 <= x < SIZE ==> t[x].Used?
  {
    CountKeys(t, m, SIZE);
    CountUsed(t, SIZE);
    assert m.Keys == KeysBelow(t, SIZE) by {
      forall key | key in m
        ensures key in KeysBelow(t, SIZE)
      {
        var x: nat :| HasKey(t, x, key);
      }
    }
  }
}
