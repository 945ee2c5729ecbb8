/** The dictionary of a context and the look-up through the contexts above it. */
module ContextDic {
  import opened Basics
  import opened DoubleHash

  const PROTECT: nat := 1
  const ABSOLUTE_PROTECT: nat := 2
  const SET_ATTR_FOR_ALL_WORDS: nat := 16

  /** Died: the program reports an error and exits. */
  datatype Outcome<T> = Done(value: T) | Died

  datatype Stored = Plainly(slot: nat) | OverProtected | Refused

  datatype Hit = Present(x: nat) | Gap(x: nat) | Full

  /** What a put makes of the entry of its key, in the strict mode the program runs in. */
  function PutEntry<V>(m: map<string, Entry<V>>, key: string, obj: V): (m': map<string, Entry<V>>)
  {
    if key in m && m[key].attr == ABSOLUTE_PROTECT then m
    else if key in m && m[key].attr == PROTECT then m[key := Entry(obj, PROTECT)]
    else m[key := Entry(obj, 0)]
  }

  /** The bit of an attribute that addresses all words at once. */
  predicate ForAllWords(attr: nat): (b: bool)
    ensures b ==> attr >= SET_ATTR_FOR_ALL_WORDS
  {
    (attr / SET_ATTR_FOR_ALL_WORDS) % 2 == 1
  }

  function WithAttr<V>(m: map<string, Entry<V>>, attr: nat): (m': map<string, Entry<V>>)
    ensures m'.Keys == m.Keys && forall key :: key in m ==> m'[key] == Entry(m[key].obj, attr)
  {
    map key | key in m :: Entry(m[key].obj, attr)
  }

  /** A put ends the program for the empty key and for a new key when the table is full. */
  predicate PutDies<V>(m: map<string, Entry<V>>, key: string) {
    key == "" || (key !in m && |m| == SIZE)
  }

  class Dictionary<V> {
    const dic: array<Slot<V>>
    ghost var contents: map<string, Entry<V>>

    ghost predicate Valid()
      reads this, dic
    {
      TableOk(dic[..], contents)
    }

    constructor ()
      ensures Valid() && fresh(dic) && contents == map[]
    {
      dic := new Slot<V>[SIZE](_ => Empty);
      contents := map[];
      new;
      EmptyTable(dic[..]);
    }

    /** The probing loop of put and find: the slot of the key, the gap in its place, or the start
        again after a full turn. */
    method Search(str: string, h0: nat, h1: nat) returns (hit: Hit, ghost k: nat)
      requires Valid() && h0 == Hash0Of(str) && h1 == Hash1(str)
      ensures hit.Present? ==>
        hit.x < dic.Length && dic[hit.x].Used? && dic[hit.x].key == str && str in contents
        && contents[str] == Entry(dic[hit.x].obj, dic[hit.x].attr)
      ensures hit.Gap? ==>
        str !in contents && k < SIZE && hit.x == Visit(str, k) && dic[..][hit.x].Empty?
        && Passed(dic[..], str, k) && |contents| < SIZE
      ensures hit.Full? ==> str !in contents && |contents| == SIZE
    {
      ghost var t := dic[..];
      FullIff(t, contents);
      PassedNone(t, str);
      VisitNext(str, 0);
      assert TableOk(t, contents);
      hide *;
      var x := h0;
      k := 0;
      while true
        invariant k < SIZE && x == Visit(str, k) && Passed(t, str, k) && x < SIZE == dic.Length
        decreases SIZE - k
      {
        if dic[x].Empty? {
          assert t[x].Empty?;
          GapMeansAbsent(t, contents, str, k);
          return Gap(x), k;
        }
        if dic[x].key == str {
          PresentEntry(t, contents, x);
          return Present(x), k;
        }
        PassedNext(t, str, k);
        VisitNext(str, k);
        x := NextSlot(x, h1);
        k := k + 1;
        if x == h0 {
          TurnMeansFull(t, contents, str);
          return Full, k;
        }
      }
    }

    /** Stores the value, unless the key's entry is absolutely protected. */
    method Put(str: string, h0: nat, h1: nat, ob: V) returns (r: Outcome<Stored>)
      requires Valid() && KeyOk(str) && h0 == Hash0Of(str) && h1 == Hash1(str)
      modifies `contents, dic
      ensures Valid()
      ensures r.Died? <==> PutDies(old(contents), str)
      ensures contents == if r.Died? then old(contents) else PutEntry(old(contents), str, ob)
      ensures r.Done? && str in old(contents) ==>
        (r.value.Refused? <==> old(contents)[str].attr == ABSOLUTE_PROTECT)
        && (r.value.OverProtected? <==> old(contents)[str].attr == PROTECT)
      ensures r.Done? && str !in old(contents) ==> r.value.Plainly?
    {
      if str == "" {
        return Died;
      }
      var hit; ghost var k;
      hit, k := Search(str, h0, h1);
      ghost var t := dic[..];
      match hit {
        case Full => return Died;
        case Gap(x) =>
          InsertKeeps(t, contents, str, k, ob, 0);
          dic[x] := Used(str, ob, 0);
          assert dic[..] == t[x := Used(str, ob, 0)];
          contents := contents[str := Entry(ob, 0)];
          r := Done(Plainly(x));
        case Present(x) =>
          var attr := dic[x].attr;
          if attr == ABSOLUTE_PROTECT {
            return Done(Refused);
          }
          var attr' := if attr == PROTECT then attr else 0;
          UpdateKeeps(t, contents, x, ob, attr');
          dic[x] := Used(str, ob, attr');
          assert dic[..] == t[x := Used(str, ob, attr')];
          contents := contents[str := Entry(ob, attr')];
          r := Done(if attr == PROTECT then OverProtected else Plainly(x));
      }
    }

    /** Sets the attribute of one key, a missing one being reported and not added; or that of all
        words, whatever their protection. */
    method PutAttr(str: string, h0: nat, h1: nat, attr: nat) returns (r: Outcome<bool>)
      requires Valid() && KeyOk(str) && h0 == Hash0Of(str) && h1 == Hash1(str)
      modifies `contents, dic
      ensures Valid()
      ensures ForAllWords(attr) ==>
        r == Done(true) && contents == WithAttr(old(contents), attr - SET_ATTR_FOR_ALL_WORDS)
      ensures !ForAllWords(attr) ==>
        (r.Died? <==> PutDies(old(contents), str))
        && (r.Done? ==> (r.value <==> str in old(contents)))
        && contents == if r.Done? && r.value
             then old(contents)[str := Entry(old(contents)[str].obj, attr)] else old(contents)
    {
      hide *;
      if ForAllWords(attr) {
        SetAllAttrs(attr - SET_ATTR_FOR_ALL_WORDS);
        return Done(true);
      }
      r := SetAttr(str, h0, h1, attr);
    }

    method SetAllAttrs(attr: nat)
      requires Valid()
      modifies `contents, dic
      ensures Valid() && contents == WithAttr(old(contents), attr)
    {
      ghost var t := dic[..];
      FullIff(t, contents);
      hide TableOk;
      for i := 0 to SIZE
        invariant dic.Length == SIZE && contents == old(contents) && TableOk(t, contents) && |t| == SIZE
        invariant forall x :: 0 <= x < SIZE ==>
          dic[x] == if x < i && t[x].Used? then t[x].(attr := attr) else t[x]
      {
        if dic[i].Used? {
          dic[i] := dic[i].(attr := attr);
        }
      }
      AttrsKeep(t, dic[..], contents, attr);
      contents := WithAttr(contents, attr);
    }

    method SetAttr(str: string, h0: nat, h1: nat, attr: nat) returns (r: Outcome<bool>)
      requires Valid() && KeyOk(str) && h0 == Hash0Of(str) && h1 == Hash1(str)
      modifies `contents, dic
      ensures Valid()
      ensures r.Died? <==> PutDies(old(contents), str)
      ensures r.Done? ==> (r.value <==> str in old(contents))
      ensures contents == if r.Done? && r.value
        then old(contents)[str := Entry(old(contents)[str].obj, attr)] else old(contents)
    {
      if str == "" {
        return Died;
      }
      var hit; ghost var k;
      hit, k := Search(str, h0, h1);
      ghost var t := dic[..];
      match hit {
        case Full => r := Died;
        case Gap(_) => r := Done(false);
        case Present(x) =>
          UpdateKeeps(t, contents, x, dic[x].obj, attr);
          dic[x] := Used(str, dic[x].obj, attr);
          assert dic[..] == t[x := dic[x]];
          contents := contents[str := Entry(dic[x].obj, attr)];
          r := Done(true);
      }
    }

    /** The value of the key in this dictionary alone. */
    method Find0(str: string, h0: nat, h1: nat) returns (r: Outcome<Option<V>>)
      requires Valid() && KeyOk(str) && h0 == Hash0Of(str) && h1 == Hash1(str)
      ensures r.Died? <==> str !in contents && |contents| == SIZE
      ensures r.Done? ==> r.value == if str in contents then Some(contents[str].obj) else None
    {
      var hit; ghost var k;
      hit, k := Search(str, h0, h1);
      FullIff(dic[..], contents);
      match hit {
        case Full => r := Died;
        case Gap(_) => r := Done(None);
        case Present(x) => r := Done(Some(dic[x].obj));
      }
    }
  }

  /** Giving every entry one attribute moves no key. */
  lemma AttrsKeep<V>(t: seq<Slot<V>>, t': seq<Slot<V>>, m: map<string, Entry<V>>, attr: nat)
    requires TableOk(t, m) && |t'| == SIZE
    requires forall x :: 0 <= x < SIZE ==> t'[x] == if t[x].Used? then t[x].(attr := attr) else t[x]
    ensures TableOk(t', WithAttr(m, attr))
  {
    var m' := WithAttr(m, attr);
    forall x | 0 <= x < SIZE && t'[x].Used?
      ensures Reached(t', x, t'[x].key) && t'[x].key in m' && m'[t'[x].key] == Entry(t'[x].obj, t'[x].attr)
    {
      StillReached(t, t', x, t[x].key);
    }
    forall key | key in m'
      ensures exists x: nat :: HasKey(t', x, key)
    {
      var x: nat :| HasKey(t, x, key);
      assert HasKey(t', x, key);
    }
  }

  // ---------- laws of the map ----------

  /** The dictionary after a run of puts. */
  function PutAll<V>(m: map<string, Entry<V>>, puts: seq<(string, V)>): map<string, Entry<V>>
    decreases |puts|
  {
    if puts == [] then m else PutAll(PutEntry(m, puts[0].0, puts[0].1), puts[1..])
  }

  /** No run of puts changes an absolutely protected entry. */
  lemma {:induction false} AbsolutelyProtectedStays<V>(m: map<string, Entry<V>>, puts: seq<(string, V)>, key: string)
    requires key in m && m[key].attr == ABSOLUTE_PROTECT
    ensures key in PutAll(m, puts) && PutAll(m, puts)[key] == m[key]
    decreases |puts|
  {
    if puts != [] {
      AbsolutelyProtectedStays(PutEntry(m, puts[0].0, puts[0].1), puts[1..], key);
    }
  }

  /** The value of the last put under the key. */
  function LastPut<V>(puts: seq<(string, V)>, key: string): Option<V> {
    if puts == [] then None
    else if puts[|puts| - 1].0 == key then Some(puts[|puts| - 1].1)
    else LastPut(puts[..|puts| - 1], key)
  }

  lemma {:induction false} PutAllSnoc<V>(m: map<string, Entry<V>>, puts: seq<(string, V)>, p: (string, V))
    ensures PutAll(m, puts + [p]) == PutEntry(PutAll(m, puts), p.0, p.1)
    decreases |puts|
  {
    if puts == [] {
      assert ([p])[1..] == [];
    } else {
      PutAllSnoc(PutEntry(m, puts[0].0, puts[0].1), puts[1..], p);
      assert (puts + [p])[1..] == puts[1..] + [p];
    }
  }

  /** After any run of puts a key that is not absolutely protected has the value of its last put,
      or, without one, what it had before. */
  lemma {:induction false} LastPutWins<V>(m: map<string, Entry<V>>, puts: seq<(string, V)>, key: string)
    requires key in m ==> m[key].attr != ABSOLUTE_PROTECT
    ensures var m' := PutAll(m, puts);
      && (LastPut(puts, key).Some? ==> key in m' && m'[key].obj == LastPut(puts, key).value)
      && (LastPut(puts, key).None? ==> (key in m' <==> key in m) && (key in m ==> m'[key] == m[key]))
      && (key in m' ==> m'[key].attr != ABSOLUTE_PROTECT)
    decreases |puts|
  {
    if puts != [] {
      var front, p := puts[..|puts| - 1], puts[|puts| - 1];
      LastPutWins(m, front, key);
      assert puts == front + [p];
      PutAllSnoc(m, front, p);
    }
  }

  // ---------- contexts ----------

  class Context<V> {
    const dictionary: Dictionary<V>
    const super: Context?<V>
    /** Longer than any chain of contexts above. */
    ghost const depth: nat

    /** The dictionaries from this context up. */
    ghost function Chain(): (c: seq<Dictionary<V>>)
      ensures c != [] && c[0] == dictionary
      decreases depth
    {
      [dictionary] + if super == null || super.depth >= depth then [] else super.Chain()
    }

    ghost predicate Linked()
      decreases depth
    {
      super != null ==> super.depth < depth && super.Linked()
    }

    constructor (sup: Context?<V>)
      requires sup != null ==> sup.Linked()
      ensures super == sup && Linked() && fresh(dictionary) && fresh(dictionary.dic)
      ensures dictionary.Valid() && dictionary.contents == map[]
    {
      var d := new Dictionary<V>();
      dictionary := d;
      super := sup;
      depth := if sup == null then 0 else sup.depth + 1;
    }
  }

  /** The contents of the dictionaries of a chain. */
  ghost function Layers<V>(c: seq<Dictionary<V>>): (s: seq<map<string, Entry<V>>>)
    reads c
    ensures |s| == |c| && forall i :: 0 <= i < |c| ==> s[i] == c[i].contents
  {
    seq(|c|, i requires 0 <= i < |c| reads c => c[i].contents)
  }

  /** The nearest layer that defines the key decides; a full layer without it ends the program. */
  function Resolve<V>(layers: seq<map<string, Entry<V>>>, key: string): Outcome<Option<V>> {
    if layers == [] then Done(None)
    else if key in layers[0] then Done(Some(layers[0][key].obj))
    else if |layers[0]| == SIZE then Died
    else Resolve(layers[1..], key)
  }

  /** Look-up goes through the contexts above until one defines the key. */
  method FindUser<V>(str: string, h0: nat, h1: nat, cp: Context<V>) returns (r: Outcome<Option<V>>)
    requires cp.Linked() && KeyOk(str) && h0 == Hash0Of(str) && h1 == Hash1(str)
    requires forall d :: d in cp.Chain() ==> d.Valid()
    ensures r == Resolve(Layers(cp.Chain()), str)
    decreases cp.depth
  {
    ghost var c := cp.Chain();
    ghost var layers := Layers(c);
    assert c[0] in c;
    var here := cp.dictionary.Find0(str, h0, h1);
    if here.Died? || here.value.Some? {
      return here;
    }
    if cp.super == null {
      assert layers[1..] == [];
      return Done(None);
    }
    assert c[1..] == cp.super.Chain();
    assert layers[1..] == Layers(cp.super.Chain());
    r := FindUser(str, h0, h1, cp.super);
  }

  ghost predicate NoneFull<V>(layers: seq<map<string, Entry<V>>>, i: nat)
    requires i <= |layers|
  {
    forall j :: 0 <= j < i ==> |layers[j]| < SIZE
  }

  /** The nearest layer that defines the key, at i, decides if and only if no layer before it is
      full: look-up in a full one that lacks the key ends the program. */
  lemma {:induction false} ResolveNearest<V>(layers: seq<map<string, Entry<V>>>, key: string, i: nat)
    requires i < |layers| && key in layers[i]
    requires forall j :: 0 <= j < i ==> key !in layers[j] && |layers[j]| <= SIZE
    ensures Resolve(layers, key) == Done(Some(layers[i][key].obj)) <==> NoneFull(layers, i)
    ensures Resolve(layers, key) == Died <==> !NoneFull(layers, i)
  {
    if i > 0 {
      ResolveNearest(layers[1..], key, i - 1);
      NoneFullStep(layers, i);
    }
  }

  /** A key no layer defines is reported as missing if and only if no layer is full. */
  lemma {:induction false} ResolveMissing<V>(layers: seq<map<string, Entry<V>>>, key: string)
    requires forall j :: 0 <= j < |layers| ==> key !in layers[j] && |layers[j]| <= SIZE
    ensures Resolve(layers, key) == Done(None) <==> NoneFull(layers, |layers|)
    ensures Resolve(layers, key) == Died <==> !NoneFull(layers, |layers|)
  {
    if layers != [] {
      ResolveMissing(layers[1..], key);
      NoneFullStep(layers, |layers|);
    }
  }

  lemma NoneFullStep<V>(layers: seq<map<string, Entry<V>>>, i: nat)
    requires 0 < i <= |layers|
    ensures NoneFull(layers, i) <==> |layers[0]| < SIZE && NoneFull(layers[1..], i - 1)
  {
    if |layers[0]| < SIZE && NoneFull(layers[1..], i - 1) {
      forall j | 0 <= j < i
        ensures |layers[j]| < SIZE
      {
        assert j > 0 ==> layers[j] == layers[1..][j - 1];
      }
    }
    if NoneFull(layers, i) {
      assert forall j :: 0 <= j < i - 1 ==> layers[1..][j] == layers[j + 1];
    }
  }
}
