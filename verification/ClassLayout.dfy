/** Classes, their contexts, and the slots of their instance variables. */
module ClassLayout {
  import opened DoubleHash
  import opened ContextDic

  const START: string := "K00start"
  const SIZEOF: string := "K00sizeof"
  const PRIMITIVE_OBJECT: string := "PrimitiveObject"
  const CLASSNAME_CONTEXT: int := 258

  /** A class is referred to by the index of its context. */
  datatype Obj = Int(k: int) | Class(index: nat)

  type Dict = map<string, Entry<Obj>>

  /** The integer field of an object; that of a class holds its tag. */
  function IntegerOf(op: Obj): int {
    match op case Int(k) => k case Class(_) => CLASSNAME_CONTEXT
  }

  /** A context: the one above it (-1 for none) and its dictionary.  History: the slots given to
      its variables in order of declaration, and whether its size has been recorded. */
  datatype Ctx = Ctx(super: int, dict: Dict, slots: seq<int>, closed: bool)

  datatype State = State(ctxs: seq<Ctx>, current: nat, start: int, serial: nat, initialized: bool)

  datatype Step =
    | Declare(name: string, supername: string)
    | DeclareVariable(variable: string)
    | CloseVariables
    | ToPrimitive

  predicate WellFormed(st: State) {
    && 0 < |st.ctxs| && st.current < |st.ctxs| && st.ctxs[0].super == -1
    && (forall c :: 0 < c < |st.ctxs| ==> 0 <= st.ctxs[c].super < c)
    && (forall key :: key in st.ctxs[0].dict && st.ctxs[0].dict[key].obj.Class? ==>
          st.ctxs[0].dict[key].obj.index < |st.ctxs|)
  }

  // ---------- the steps ----------

  function InitialDict(): Dict {
    map[START := Entry(Int(1), ABSOLUTE_PROTECT),
        SIZEOF := Entry(Int(0), ABSOLUTE_PROTECT),
        PRIMITIVE_OBJECT := Entry(Class(0), ABSOLUTE_PROTECT)]
  }

  function Initial(): State {
    State([Ctx(-1, InitialDict(), [], true)], 0, 0, 0, false)
  }

  function SetDict(st: State, c: nat, d: Dict): (st': State)
    requires c < |st.ctxs|
  {
    st.(ctxs := st.ctxs[c := st.ctxs[c].(dict := d)])
  }

  function PutIn(st: State, c: nat, key: string, obj: Obj): Outcome<State>
    requires c < |st.ctxs|
  {
    var d := st.ctxs[c].dict;
    if PutDies(d, key) then Died else Done(SetDict(st, c, PutEntry(d, key, obj)))
  }

  /** Look-up in one full dictionary that lacks the key ends the program. */
  predicate FindDies(d: Dict, key: string) {
    key !in d && |d| == SIZE
  }

  /** The variables of the current class start where those of the class above end; when that one
      has not recorded its size the step only starts the count again. */
  function Reset(st: State): Outcome<State>
    requires WellFormed(st) && st.current > 0
  {
    var d := st.ctxs[st.ctxs[st.current].super].dict;
    if FindDies(d, START) then Died
    else if START !in d then Done(st.(serial := 0))
    else if FindDies(d, SIZEOF) then Died
    else if SIZEOF !in d then Done(st.(serial := 0))
    else Done(st.(serial := 0, start := IntegerOf(d[START].obj) + IntegerOf(d[SIZEOF].obj), initialized := true))
  }

  /** A new class is entered under its name in the top dictionary and becomes the current one. */
  function NewClass(st: State, super: nat): State {
    State(st.ctxs + [Ctx(super, map[], [], false)], |st.ctxs|, st.start, st.serial, st.initialized)
  }

  function DeclareStep(st: State, name: string, supername: string): Outcome<State>
    requires WellFormed(st)
  {
    var top := st.ctxs[0].dict;
    if FindDies(top, supername) then Died
    else if supername !in top || !top[supername].obj.Class? then Done(st)
    else
      var st1 := NewClass(st, top[supername].obj.index);
      var st2 := PutIn(st1, 0, name, Class(st1.current));
      if st2.Died? then Died else
        PutKeepsForm(st1, 0, name, Class(st1.current));
        Reset(st2.value)
  }

  lemma PutKeepsForm(st: State, c: nat, key: string, obj: Obj)
    requires WellFormed(st) && c < |st.ctxs| && (obj.Class? ==> obj.index < |st.ctxs|)
    requires PutIn(st, c, key, obj).Done?
    ensures WellFormed(PutIn(st, c, key, obj).value)
    ensures PutIn(st, c, key, obj).value.current == st.current
  {
  }

  function VariableStep(st: State, variable: string): Outcome<State>
    requires WellFormed(st)
  {
    if st.current == 0 || !st.initialized then Done(st)
    else
      var slot := st.start + st.serial;
      var r := PutIn(st, st.current, variable, Int(slot));
      if r.Died? then Died else
        var c := r.value.ctxs[st.current];
        Done(r.value.(ctxs := r.value.ctxs[st.current := c.(slots := c.slots + [slot])], serial := st.serial + 1))
  }

  function CloseStep(st: State): Outcome<State>
    requires WellFormed(st)
  {
    if st.current == 0 then Done(st)
    else if !st.initialized then Done(st)
    else
      var r := PutIn(st, st.current, START, Int(st.start));
      if r.Died? then Died else
        var r' := PutIn(r.value, st.current, SIZEOF, Int(st.serial));
        if r'.Died? then Died else
          var c := r'.value.ctxs[st.current];
          Done(r'.value.(ctxs := r'.value.ctxs[st.current := c.(closed := true)], initialized := false))
  }

  function Next(st: State, step: Step): Outcome<State>
    requires WellFormed(st)
  {
    match step
    case Declare(name, supername) => DeclareStep(st, name, supername)
    case DeclareVariable(v) => VariableStep(st, v)
    case CloseVariables => CloseStep(st)
    case ToPrimitive => Done(st.(current := 0))
  }

  // ---------- the invariant ----------

  predicate Recorded(d: Dict) {
    START in d && SIZEOF in d && d[START].obj.Int? && d[SIZEOF].obj.Int?
  }

  /** One past the last slot of a class that has recorded its size. */
  function End(c: Ctx): int
    requires Recorded(c.dict)
  {
    c.dict[START].obj.k + c.dict[SIZEOF].obj.k
  }

  /** The slots of a class follow those of the class above without gap, one for each declaration. */
  predicate Laid(ctxs: seq<Ctx>, c: nat)
    requires 0 < c < |ctxs| && 0 <= ctxs[c].super < c
  {
    var x, s := ctxs[c], ctxs[ctxs[c].super];
    && s.closed && Recorded(s.dict)
    && (forall i :: 0 <= i < |x.slots| ==> x.slots[i] == End(s) + i)
    && (x.closed ==> Recorded(x.dict) && x.dict[START].obj.k == End(s) && x.dict[SIZEOF].obj.k == |x.slots|)
  }

  predicate TopOk(d: Dict) {
    && START in d && d[START] == Entry(Int(1), ABSOLUTE_PROTECT)
    && SIZEOF in d && d[SIZEOF] == Entry(Int(0), ABSOLUTE_PROTECT)
  }

  /** Entries a program puts into its own classes carry no protection. */
  predicate Plain(d: Dict) { forall key :: key in d ==> d[key].attr == 0 }

  predicate Open(st: State) { st.current > 0 && st.initialized }

  predicate Inv(st: State) {
    && WellFormed(st)
    && TopOk(st.ctxs[0].dict) && st.ctxs[0].closed && st.ctxs[0].slots == []
    && (forall c :: 0 < c < |st.ctxs| ==> Laid(st.ctxs, c) && Plain(st.ctxs[c].dict))
    && (Open(st) ==>
          var x := st.ctxs[st.current];
          !x.closed && st.start == End(st.ctxs[x.super]) && st.serial == |x.slots|)
  }

  /** The one condition on a run: a class is extended only after its variables were closed. */
  predicate Fine(st: State, step: Step)
    requires WellFormed(st)
  {
    step.Declare? && step.supername in st.ctxs[0].dict && st.ctxs[0].dict[step.supername].obj.Class? ==>
      st.ctxs[st.ctxs[0].dict[step.supername].obj.index].closed
  }

  lemma InvInitial()
    ensures Inv(Initial())
  {
  }

  /** Entering a class name changes no protected entry of the top dictionary. */
  lemma TopKept(d: Dict, name: string, obj: Obj)
    requires TopOk(d)
    ensures TopOk(PutEntry(d, name, obj))
  {
  }

  lemma NewClassInv(st: State, super: nat)
    requires Inv(st) && super < |st.ctxs| && st.ctxs[super].closed
    ensures var st1 := NewClass(st, super);
      && WellFormed(st1) && TopOk(st1.ctxs[0].dict) && st1.ctxs[0].closed && st1.ctxs[0].slots == []
      && (forall c :: 0 < c < |st1.ctxs| ==> Laid(st1.ctxs, c) && Plain(st1.ctxs[c].dict))
      && st1.current > 0 && st1.ctxs[st1.current] == Ctx(super, map[], [], false)
  {
    var st1 := NewClass(st, super);
    ClosedRecorded(st, super);
    forall c | 0 < c < |st1.ctxs|
      ensures Laid(st1.ctxs, c) && Plain(st1.ctxs[c].dict)
    {
      if c < |st.ctxs| {
        assert Laid(st.ctxs, c);
        assert st1.ctxs[c] == st.ctxs[c] && st1.ctxs[st.ctxs[c].super] == st.ctxs[st.ctxs[c].super];
      }
    }
    hide TopOk, End, Recorded;
  }

  lemma ClosedRecorded(st: State, c: nat)
    requires Inv(st) && c < |st.ctxs| && st.ctxs[c].closed
    ensures Recorded(st.ctxs[c].dict)
  {
    if c > 0 {
      assert Laid(st.ctxs, c);
    }
  }

  /** Changing the top dictionary without touching its two records keeps every class in place. */
  lemma TopChangeKeepsLaid(ctxs: seq<Ctx>, ctxs': seq<Ctx>, c: nat)
    requires 0 < c < |ctxs| == |ctxs'| && 0 <= ctxs[c].super < c && Laid(ctxs, c)
    requires forall i :: 0 < i < |ctxs| ==> ctxs'[i] == ctxs[i]
    requires TopOk(ctxs[0].dict) && TopOk(ctxs'[0].dict) && ctxs'[0].closed == ctxs[0].closed
    ensures Laid(ctxs', c)
  {
  }

  lemma DeclareInv(st: State, name: string, supername: string)
    requires Inv(st) && Fine(st, Declare(name, supername))
    requires DeclareStep(st, name, supername).Done?
    ensures Inv(DeclareStep(st, name, supername).value)
  {
    var top := st.ctxs[0].dict;
    if supername in top && top[supername].obj.Class? {
      var super := top[supername].obj.index;
      var st1 := NewClass(st, super);
      NewClassInv(st, super);
      PutKeepsForm(st1, 0, name, Class(st1.current));
      var st2 := PutIn(st1, 0, name, Class(st1.current)).value;
      TopKept(top, name, Class(st1.current));
      forall c | 0 < c < |st2.ctxs|
        ensures Laid(st2.ctxs, c) && Plain(st2.ctxs[c].dict)
      {
        TopChangeKeepsLaid(st1.ctxs, st2.ctxs, c);
      }
      assert Laid(st2.ctxs, st2.current);
      hide Laid, Plain, WellFormed, PutIn, PutEntry;
    }
  }

  /** Changing a class that is still open concerns no other class. */
  lemma OpenChangeKeepsLaid(ctxs: seq<Ctx>, c: nat, x: Ctx, d: nat)
    requires 0 < c < |ctxs| && !ctxs[c].closed && x.super == ctxs[c].super
    requires 0 < d < |ctxs| && d != c && 0 <= ctxs[d].super < d && Laid(ctxs, d)
    ensures Laid(ctxs[c := x], d)
  {
  }

  lemma PlainPut(d: Dict, key: string, obj: Obj)
    requires Plain(d)
    ensures Plain(PutEntry(d, key, obj)) && PutEntry(d, key, obj) == d[key := Entry(obj, 0)]
  {
  }

  /** An open class with a new context in its place. */
  lemma OpenChangeInv(st: State, x: Ctx, st': State)
    requires Inv(st) && Open(st)
    requires x.super == st.ctxs[st.current].super && Plain(x.dict)
    requires st'.ctxs == st.ctxs[st.current := x] && st'.current == st.current
    requires Laid(st.ctxs[st.current := x], st.current)
    requires Open(st') ==> !x.closed && st'.start == st.start && st'.serial == |x.slots|
    ensures Inv(st')
  {
    var c := st.current;
    assert Laid(st.ctxs, c);
    forall d | 0 < d < |st'.ctxs|
      ensures Laid(st'.ctxs, d) && Plain(st'.ctxs[d].dict)
    {
      if d != c {
        OpenChangeKeepsLaid(st.ctxs, c, x, d);
      }
    }
    hide Laid, Plain, End, Recorded;
  }

  lemma VariableInv(st: State, v: string)
    requires Inv(st) && VariableStep(st, v).Done?
    ensures Inv(VariableStep(st, v).value)
  {
    if Open(st) {
      var c := st.current;
      var x := st.ctxs[c];
      var slot := st.start + st.serial;
      PlainPut(x.dict, v, Int(slot));
      var x' := Ctx(x.super, x.dict[v := Entry(Int(slot), 0)], x.slots + [slot], false);
      assert Laid(st.ctxs, c);
      assert VariableStep(st, v).value.ctxs == st.ctxs[c := x'];
      assert Laid(st.ctxs[c := x'], c);
      OpenChangeInv(st, x', VariableStep(st, v).value);
    }
  }

  lemma CloseInv(st: State)
    requires Inv(st) && CloseStep(st).Done?
    ensures Inv(CloseStep(st).value)
  {
    if Open(st) {
      var c := st.current;
      var x := st.ctxs[c];
      PlainPut(x.dict, START, Int(st.start));
      var d := x.dict[START := Entry(Int(st.start), 0)];
      PlainPut(d, SIZEOF, Int(st.serial));
      var x' := Ctx(x.super, d[SIZEOF := Entry(Int(st.serial), 0)], x.slots, true);
      assert Laid(st.ctxs, c);
      assert START != SIZEOF;
      CloseIs(st);
      assert Laid(st.ctxs[c := x'], c);
      OpenChangeInv(st, x', CloseStep(st).value);
    }
  }

  lemma CloseIs(st: State)
    requires Inv(st) && Open(st) && CloseStep(st).Done?
    ensures var x := st.ctxs[st.current];
      var d := x.dict[START := Entry(Int(st.start), 0)][SIZEOF := Entry(Int(st.serial), 0)];
      CloseStep(st).value.ctxs == st.ctxs[st.current := Ctx(x.super, d, x.slots, true)]
      && CloseStep(st).value.current == st.current && !CloseStep(st).value.initialized
  {
    var x := st.ctxs[st.current];
    PlainPut(x.dict, START, Int(st.start));
    PlainPut(x.dict[START := Entry(Int(st.start), 0)], SIZEOF, Int(st.serial));
    hide Laid, TopOk;
  }

  /** Every fine step keeps the invariant. */
  lemma InvNext(st: State, step: Step)
    requires Inv(st) && Fine(st, step) && Next(st, step).Done?
    ensures Inv(Next(st, step).value)
  {
    match step
    case Declare(name, supername) => DeclareInv(st, name, supername);
    case DeclareVariable(v) => VariableInv(st, v);
    case CloseVariables => CloseInv(st);
    case ToPrimitive => hide Laid, Plain, TopOk;
  }

  // ---------- whole runs ----------

  /** The state after the steps; a run that dies has none. */
  function Run(st: State, steps: seq<Step>): Outcome<State>
    requires Inv(st)
    decreases |steps|
  {
    if steps == [] then Done(st)
    else if !Fine(st, steps[0]) then Died
    else
      var r := Next(st, steps[0]);
      if r.Died? then Died else
        InvNext(st, steps[0]);
        Run(r.value, steps[1..])
  }

  lemma {:induction false} RunInv(st: State, steps: seq<Step>)
    requires Inv(st) && Run(st, steps).Done?
    ensures Inv(Run(st, steps).value)
    decreases |steps|
  {
    if steps != [] {
      InvNext(st, steps[0]);
      RunInv(Next(st, steps[0]).value, steps[1..]);
    }
    hide Inv, Next, Fine;
  }

  // ---------- the layout along a chain ----------

  /** The class and those above it. */
  function ChainOf(st: State, c: nat): (chain: seq<nat>)
    requires WellFormed(st) && c < |st.ctxs|
    ensures chain != [] && chain[0] == c
    ensures forall d :: d in chain ==> d < |st.ctxs|
    decreases c
  {
    [c] + if c == 0 then [] else ChainOf(st, st.ctxs[c].super)
  }

  /** One past the last slot of the class above. */
  function FirstSlot(st: State, c: nat): int
    requires Inv(st) && 0 < c < |st.ctxs|
  {
    assert Laid(st.ctxs, c);
    End(st.ctxs[st.ctxs[c].super])
  }

  /** All slots of a closed class and those above it lie below its end, which is at least 1. */
  lemma {:induction false} ChainBelow(st: State, c: nat, d: nat, j: nat)
    requires Inv(st) && c < |st.ctxs| && st.ctxs[c].closed
    requires d in ChainOf(st, c) && j < |st.ctxs[d].slots|
    ensures Recorded(st.ctxs[c].dict) && 1 <= st.ctxs[d].slots[j] < End(st.ctxs[c])
    decreases c
  {
    ClosedEnd(st, c);
    TopHasNoSlots(st, c, d);
    SlotsOf(st, c);
    ClosedEnd(st, st.ctxs[c].super);
    hide *;
    if d != c {
      ChainBelow(st, st.ctxs[c].super, d, j);
    }
  }

  lemma TopHasNoSlots(st: State, c: nat, d: nat)
    requires Inv(st) && c < |st.ctxs| && d in ChainOf(st, c) && |st.ctxs[d].slots| > 0
    ensures c > 0
  {
  }

  lemma SlotsOf(st: State, c: nat)
    requires Inv(st) && 0 < c < |st.ctxs|
    ensures 0 <= st.ctxs[c].super < c && st.ctxs[st.ctxs[c].super].closed
    ensures Recorded(st.ctxs[st.ctxs[c].super].dict) && FirstSlot(st, c) == End(st.ctxs[st.ctxs[c].super])
    ensures forall j :: 0 <= j < |st.ctxs[c].slots| ==> st.ctxs[c].slots[j] == FirstSlot(st, c) + j
    ensures forall d: nat :: d in ChainOf(st, c) ==> d == c || d in ChainOf(st, st.ctxs[c].super)
  {
    assert Laid(st.ctxs, c);
  }

  lemma {:induction false} ClosedEnd(st: State, c: nat)
    requires Inv(st) && c < |st.ctxs| && st.ctxs[c].closed
    ensures Recorded(st.ctxs[c].dict) && End(st.ctxs[c]) >= 1
    ensures c > 0 ==> End(st.ctxs[c]) == FirstSlot(st, c) + |st.ctxs[c].slots|
    decreases c
  {
    ClosedRecorded(st, c);
    if c > 0 {
      assert Laid(st.ctxs, c);
      ClosedEnd(st, st.ctxs[c].super);
    }
  }

  /** No two variable declarations in a class and the classes above it share a slot. */
  lemma {:induction false} NoSharedSlot(st: State, c: nat, d: nat, i: nat, j: nat)
    requires Inv(st) && c < |st.ctxs| && d in ChainOf(st, c)
    requires i < |st.ctxs[c].slots| && j < |st.ctxs[d].slots| && (c, i) != (d, j)
    ensures st.ctxs[c].slots[i] != st.ctxs[d].slots[j]
  {
    assert c > 0;
    assert Laid(st.ctxs, c);
    if d != c {
      ChainBelow(st, st.ctxs[c].super, d, j);
    }
  }

  /** The slots of a closed class and those above it fill the range from 1 to its end. */
  lemma {:induction false} SlotsFill(st: State, c: nat, x: int) returns (d: nat, j: nat)
    requires Inv(st) && c < |st.ctxs| && st.ctxs[c].closed
    requires Recorded(st.ctxs[c].dict) && 1 <= x < End(st.ctxs[c])
    ensures d in ChainOf(st, c) && j < |st.ctxs[d].slots| && st.ctxs[d].slots[j] == x
    decreases c
  {
    assert c > 0;
    assert Laid(st.ctxs, c);
    ClosedEnd(st, c);
    var s := st.ctxs[c].super;
    if x < FirstSlot(st, c) {
      d, j := SlotsFill(st, s, x);
    } else {
      d, j := c, x - FirstSlot(st, c);
    }
  }

  /** The j-th variable of class d has slot x. */
  ghost predicate HoldsSlot(st: State, d: nat, j: nat, x: int) {
    d < |st.ctxs| && j < |st.ctxs[d].slots| && st.ctxs[d].slots[j] == x
  }

  ghost predicate SlotOnChain(st: State, c: nat, x: int)
    requires WellFormed(st) && c < |st.ctxs|
  {
    exists d: nat, j: nat :: d in ChainOf(st, c) && HoldsSlot(st, d, j, x)
  }

  /** No slot is held twice along the chain of a class; the slots up to a closed class are exactly
      1, 2, and so on to its end. */
  ghost predicate LayoutOk(st: State, c: nat)
    requires WellFormed(st) && c < |st.ctxs|
  {
    && (forall d: nat, i: nat, j: nat, x :: d in ChainOf(st, c) && HoldsSlot(st, c, i, x) && HoldsSlot(st, d, j, x) ==>
          c == d && i == j)
    && (st.ctxs[c].closed ==>
          Recorded(st.ctxs[c].dict) && forall x :: 1 <= x < End(st.ctxs[c]) <==> SlotOnChain(st, c, x))
  }

  lemma SlotOnChainIff(st: State, c: nat, x: int)
    requires Inv(st) && c < |st.ctxs| && st.ctxs[c].closed && Recorded(st.ctxs[c].dict)
    ensures 1 <= x < End(st.ctxs[c]) <==> SlotOnChain(st, c, x)
  {
    if 1 <= x < End(st.ctxs[c]) {
      var d, j := SlotsFill(st, c, x);
      assert HoldsSlot(st, d, j, x);
    }
    if SlotOnChain(st, c, x) {
      var d: nat, j: nat :| d in ChainOf(st, c) && HoldsSlot(st, d, j, x);
      ChainBelow(st, c, d, j);
    }
    hide Laid;
  }

  lemma LayoutOfState(st: State, c: nat)
    requires Inv(st) && c < |st.ctxs|
    ensures WellFormed(st) && LayoutOk(st, c)
  {
    forall d: nat, i: nat, j: nat, x | d in ChainOf(st, c) && HoldsSlot(st, c, i, x) && HoldsSlot(st, d, j, x)
      ensures c == d && i == j
    {
      if c != d || i != j {
        NoSharedSlot(st, c, d, i, j);
      }
    }
    if st.ctxs[c].closed {
      ClosedRecorded(st, c);
      forall x
        ensures 1 <= x < End(st.ctxs[c]) <==> SlotOnChain(st, c, x)
      {
        SlotOnChainIff(st, c, x);
      }
    }
    hide Laid, ChainOf;
  }

  /** So it is for every class after every run that extends only closed classes. */
  lemma LayoutOfRuns(steps: seq<Step>, c: nat)
    requires Inv(Initial()) && Run(Initial(), steps).Done?
    requires c < |Run(Initial(), steps).value.ctxs|
    ensures WellFormed(Run(Initial(), steps).value) && LayoutOk(Run(Initial(), steps).value, c)
  {
    RunInv(Initial(), steps);
    LayoutOfState(Run(Initial(), steps).value, c);
    hide *;
  }

  // ---------- classes extended while they are open ----------

  /** One past the last slot of a class, closed or not. */
  function SlotEnd(st: State, c: nat): int
    requires Inv(st) && 0 < c < |st.ctxs|
  {
    FirstSlot(st, c) + |st.ctxs[c].slots|
  }

  /** The slots of any class and those above it are exactly 1, 2, and so on to its last one. */
  lemma SlotsOfChain(st: State, c: nat, x: int)
    requires Inv(st) && 0 < c < |st.ctxs|
    ensures SlotOnChain(st, c, x) <==> 1 <= x < SlotEnd(st, c)
  {
    SlotsOf(st, c);
    var s := st.ctxs[c].super;
    ClosedEnd(st, s);
    SlotOnChainIff(st, s, x);
    assert SlotOnChain(st, c, x) <==> SlotOnChain(st, s, x) || SlotEnd(st, c) > x >= FirstSlot(st, c) by {
      ChainSlots(st, c, x);
    }
    hide *;
  }

  lemma ChainSlots(st: State, c: nat, x: int)
    requires Inv(st) && 0 < c < |st.ctxs| && 0 <= st.ctxs[c].super < c
    ensures SlotOnChain(st, c, x) <==> SlotOnChain(st, st.ctxs[c].super, x) || SlotEnd(st, c) > x >= FirstSlot(st, c)
  {
    SlotsOf(st, c);
    var s := st.ctxs[c].super;
    ChainUnfold(st, c);
    hide Inv, WellFormed, ChainOf, FirstSlot;
    if SlotOnChain(st, c, x) {
      var d: nat, j: nat :| d in ChainOf(st, c) && HoldsSlot(st, d, j, x);
    }
    if SlotOnChain(st, s, x) {
      var d: nat, j: nat :| d in ChainOf(st, s) && HoldsSlot(st, d, j, x);
      assert d in ChainOf(st, c);
    }
    if SlotEnd(st, c) > x >= FirstSlot(st, c) {
      assert HoldsSlot(st, c, x - FirstSlot(st, c), x);
    }
  }

  lemma ChainUnfold(st: State, c: nat)
    requires WellFormed(st) && 0 < c < |st.ctxs|
    ensures 0 <= st.ctxs[c].super < c && ChainOf(st, c) == [c] + ChainOf(st, st.ctxs[c].super)
  {
  }

  /** The states agree on the slots and the super classes of the classes up to c. */
  ghost predicate SameBelow(st: State, st': State, c: nat) {
    && c < |st.ctxs| <= |st'.ctxs|
    && forall d :: 0 <= d <= c ==> st'.ctxs[d].super == st.ctxs[d].super && st'.ctxs[d].slots == st.ctxs[d].slots
  }

  lemma {:induction false} ChainSame(st: State, st': State, c: nat)
    requires WellFormed(st) && WellFormed(st') && SameBelow(st, st', c)
    ensures ChainOf(st', c) == ChainOf(st, c)
    decreases c
  {
    if c > 0 {
      ChainUnfold(st, c);
      ChainUnfold(st', c);
      ChainSame(st, st', st.ctxs[c].super);
    }
  }

  lemma SlotSame(st: State, st': State, c: nat, x: int)
    requires WellFormed(st) && WellFormed(st') && SameBelow(st, st', c)
    ensures SlotOnChain(st', c, x) <==> SlotOnChain(st, c, x)
  {
    ChainSame(st, st', c);
    ChainUpTo(st, c);
    assert forall d: nat, j: nat :: d <= c ==> (HoldsSlot(st', d, j, x) <==> HoldsSlot(st, d, j, x));
    hide ChainOf, WellFormed;
  }

  lemma {:induction false} ChainUpTo(st: State, c: nat)
    requires WellFormed(st) && c < |st.ctxs|
    ensures forall d :: d in ChainOf(st, c) ==> d <= c
    decreases c
  {
    if c > 0 {
      ChainUnfold(st, c);
      ChainUpTo(st, st.ctxs[c].super);
    }
  }

  /** Where the count of a class that extends c starts: behind the end of c when c has recorded its
      size, and where it stood when c has not. */
  lemma StartOfNew(st: State, name: string, supername: string, c: nat)
    requires Inv(st) && 0 < c < |st.ctxs|
    requires supername in st.ctxs[0].dict && st.ctxs[0].dict[supername].obj == Class(c)
    requires DeclareStep(st, name, supername).Done?
    ensures var st1 := DeclareStep(st, name, supername).value;
      && WellFormed(st1) && st1.current == |st.ctxs| && |st1.ctxs| == |st.ctxs| + 1 && st1.serial == 0
      && st1.ctxs[st1.current] == Ctx(c, map[], [], false)
      && (forall d :: 0 < d < |st.ctxs| ==> st1.ctxs[d] == st.ctxs[d])
      && SameBelow(st, st1, c)
      && (st.ctxs[c].closed ==> st1.start == SlotEnd(st, c) && st1.initialized)
      && (START !in st.ctxs[c].dict || SIZEOF !in st.ctxs[c].dict ==>
            st1.start == st.start && st1.initialized == st.initialized)
  {
    var st0 := NewClass(st, c);
    PutKeepsForm(st0, 0, name, Class(st0.current));
    if st.ctxs[c].closed {
      ClosedEnd(st, c);
    }
    assert Laid(st.ctxs, c);
    hide TopOk, Plain;
  }

  /** A class without variables yet takes its first one at the start of the count. */
  lemma FirstVariable(st: State, v: string)
    requires WellFormed(st) && Open(st) && st.serial == 0 && v != ""
    requires st.ctxs[st.current].dict == map[] && st.ctxs[st.current].slots == []
    ensures VariableStep(st, v).Done?
    ensures var st' := VariableStep(st, v).value;
      && WellFormed(st') && |st'.ctxs| == |st.ctxs| && st'.ctxs[st.current].slots == [st.start]
      && st'.ctxs[st.current].super == st.ctxs[st.current].super
      && forall d :: 0 <= d < |st.ctxs| && d != st.current ==> st'.ctxs[d] == st.ctxs[d]
  {
  }

  /** Whatever class is extended, closed or open, current or not: the first variable of the new
      class is given the slot at the start of the count, and a class above holds that slot if and
      only if it lies between 1 and the last slot of the class extended.  Any later variable is
      shared only if the first one is. */
  lemma ExtendingSharesIff(st: State, name: string, supername: string, c: nat, v: string)
    requires Inv(st) && 0 < c < |st.ctxs| && v != ""
    requires supername in st.ctxs[0].dict && st.ctxs[0].dict[supername].obj == Class(c)
    requires DeclareStep(st, name, supername).Done? && DeclareStep(st, name, supername).value.initialized
    ensures var st1 := DeclareStep(st, name, supername).value;
      && WellFormed(st1) && VariableStep(st1, v).Done?
      && var st2 := VariableStep(st1, v).value;
      var n := |st.ctxs|;
      && WellFormed(st2) && |st2.ctxs| == n + 1 && st2.ctxs[n].super == c && st2.ctxs[n].slots == [st1.start]
      && (SlotOnChain(st2, c, st1.start) <==> 1 <= st1.start < SlotEnd(st, c))
      && (forall x :: x >= st1.start >= 1 && SlotOnChain(st2, c, x) ==> SlotOnChain(st2, c, st1.start))
      && (st.ctxs[c].closed ==> st1.start == SlotEnd(st, c))
      && (START !in st.ctxs[c].dict || SIZEOF !in st.ctxs[c].dict ==> st1.start == st.start)
  {
    hide *;
    FormOf(st);
    var st1 := DeclareStep(st, name, supername).value;
    StartOfNew(st, name, supername, c);
    IsOpen(st1);
    FirstVariable(st1, v);
    var st2 := VariableStep(st1, v).value;
    SameAfter(st, st1, st2, c);
    forall x
      ensures SlotOnChain(st2, c, x) <==> 1 <= x < SlotEnd(st, c)
    {
      SlotsOfChain(st, c, x);
      SlotSame(st, st2, c, x);
    }
  }

  lemma IsOpen(st: State)
    requires st.current > 0 && st.initialized
    ensures Open(st)
  {
  }

  lemma FormOf(st: State)
    requires Inv(st)
    ensures WellFormed(st)
  {
  }

  lemma SameAfter(st: State, st1: State, st2: State, c: nat)
    requires SameBelow(st, st1, c) && |st1.ctxs| == |st2.ctxs| && c < |st.ctxs|
    requires forall d :: 0 <= d < |st.ctxs| ==> st2.ctxs[d] == st1.ctxs[d]
    ensures SameBelow(st, st2, c)
  {
  }

  /** So extending an open class that has not recorded its size shares a slot exactly when the
      count did not move past that class. */
  lemma ExtendingOpenIff(st: State, name: string, supername: string, c: nat, v: string)
    requires Inv(st) && Open(st) && 0 < c < |st.ctxs| && v != "" && START !in st.ctxs[c].dict
    requires supername in st.ctxs[0].dict && st.ctxs[0].dict[supername].obj == Class(c)
    requires DeclareStep(st, name, supername).Done?
    ensures var st1 := DeclareStep(st, name, supername).value;
      && WellFormed(st1) && VariableStep(st1, v).Done?
      && var st2 := VariableStep(st1, v).value;
      && WellFormed(st2) && |st2.ctxs| == |st.ctxs| + 1 && st2.ctxs[|st.ctxs|].slots == [st.start]
      && (SlotOnChain(st2, c, st.start) <==> st.start < SlotEnd(st, c))
  {
    StartOfNew(st, name, supername, c);
    assert Open(st) ==> st.initialized;
    ExtendingSharesIff(st, name, supername, c, v);
    OpenStart(st);
    hide *;
  }

  lemma OpenStart(st: State)
    requires Inv(st) && Open(st)
    ensures st.start >= 1 && st.start == FirstSlot(st, st.current)
  {
    SlotsOf(st, st.current);
    ClosedEnd(st, st.ctxs[st.current].super);
    hide Laid, Plain, TopOk;
  }

  /** When the current class has variables and is extended before they are closed, the first
      variable of the new class is given the slot of the first variable of the old one: the start
      of the count was not moved. */
  lemma ExtendingOpenShares(st: State, name: string, supername: string, v: string)
    requires Inv(st) && Open(st) && |st.ctxs[st.current].slots| > 0
    requires supername in st.ctxs[0].dict && st.ctxs[0].dict[supername].obj == Class(st.current)
    requires START !in st.ctxs[st.current].dict
    requires v != "" && DeclareStep(st, name, supername).Done?
    ensures var st1 := DeclareStep(st, name, supername).value;
      && WellFormed(st1) && VariableStep(st1, v).Done?
      && var st2 := VariableStep(st1, v).value;
      var c := st1.current;
      c == |st.ctxs| < |st2.ctxs| && |st2.ctxs| == |st.ctxs| + 1
      && st2.ctxs[c].super == st.current && st2.ctxs[c].slots == [st2.ctxs[st.current].slots[0]]
  {
    var sup := st.current;
    OpenStart(st);
    SlotsOf(st, sup);
    StartOfNew(st, name, supername, sup);
    var st1 := DeclareStep(st, name, supername).value;
    IsOpen(st1) by { assert Open(st); }
    FirstVariable(st1, v);
    hide Inv, WellFormed, DeclareStep, VariableStep, FirstSlot, ChainOf;
  }
}
