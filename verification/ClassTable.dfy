/** The program's global state: the contexts, the current one, and the count of variables. */
module ClassTable {
  import opened Basics
  import opened DoubleHash
  import opened ContextDic
  import opened ClassLayout

  lemma NamesOk()
    ensures KeyOk(START) && KeyOk(SIZEOF) && KeyOk(PRIMITIVE_OBJECT)
    ensures START != "" && SIZEOF != "" && PRIMITIVE_OBJECT != ""
    ensures SIZE > 3
    ensures START != SIZEOF && START != PRIMITIVE_OBJECT && SIZEOF != PRIMITIVE_OBJECT
  {
  }

  /** Contexts are kept in the order they were made and referred to by their place; place 0 is the
      top context. */
  class Classes {
    var dics: seq<Dictionary<Obj>>
    var supers: seq<int>
    var current: nat
    var start: int
    var serial: nat
    var initialized: bool
    /** The contexts with each table seen as a map. */
    ghost var ctxs: seq<Ctx>

    ghost function Tables(): set<object>
      reads `dics, dics
    {
      set d | d in dics :: d.dic
    }

    /** The tables are apart from each other and hold what the contexts say. */
    ghost predicate Tidy()
      reads `dics, `supers, `ctxs, dics, Tables()
    {
      && |dics| == |supers| == |ctxs|
      && (forall i, j :: 0 <= i < j < |dics| ==> dics[i] != dics[j] && dics[i].dic != dics[j].dic)
      && (forall i :: 0 <= i < |dics| ==>
            dics[i].Valid() && dics[i].contents == ctxs[i].dict && supers[i] == ctxs[i].super)
    }

    ghost function Snapshot(): State
      reads this
    {
      State(ctxs, current, start, serial, initialized)
    }

    ghost predicate Valid()
      reads this, dics, Tables()
    {
      Tidy() && WellFormed(Snapshot())
    }

    /** The top context with its three protected entries. */
    constructor ()
      ensures Valid() && Snapshot() == Initial() && fresh(dics) && fresh(Tables())
    {
      hide *;
      var top := new Dictionary<Obj>();
      NamesOk();
      PutProtected(top, START, Int(1));
      PutProtected(top, SIZEOF, Int(0));
      PutProtected(top, PRIMITIVE_OBJECT, Class(0));
      dics, supers, ctxs := [top], [-1], [Ctx(-1, top.contents, [], true)];
      current, start, serial, initialized := 0, 0, 0, false;
      new;
      InitialDictIs();
      OnlyTop();
    }

    lemma OnlyTop()
      requires |dics| == 1 && dics[0].Valid() && dics[0].contents == InitialDict()
      requires supers == [-1] && ctxs == [Ctx(-1, InitialDict(), [], true)]
      requires current == 0 && start == 0 && serial == 0 && !initialized
      ensures Valid() && Snapshot() == Initial() && forall t :: t in Tables() <==> t == dics[0].dic
    {
      InvInitial();
      hide TableOk;
    }

    /** One entry in one context. */
    method PutInto(c: nat, key: string, ob: Obj) returns (r: Outcome<Stored>)
      requires Tidy() && c < |dics| && KeyOk(key)
      modifies `ctxs, dics[c], dics[c].dic
      ensures Tidy()
      ensures var x := old(ctxs[c]);
        (r.Died? <==> PutDies(x.dict, key))
        && ctxs == if r.Died? then old(ctxs) else old(ctxs)[c := x.(dict := PutEntry(x.dict, key, ob))]
    {
      hide PutDies, PutEntry, TableOk, Hash0Of, Hash1;
      var h0 := Hash0(key);
      var d := dics[c];
      r := d.Put(key, h0, Hash1(key), ob);
      forall i | 0 <= i < |dics| && i != c
        ensures dics[i].Valid() && dics[i].contents == old(dics[i].contents)
      {
        assert dics[i] != d && dics[i].dic != d.dic;
      }
      ctxs := ctxs[c := ctxs[c].(dict := d.contents)];
    }

    method FindIn(c: nat, key: string) returns (r: Outcome<Option<Obj>>)
      requires Tidy() && c < |dics| && KeyOk(key)
      ensures Tidy()
      ensures r.Died? <==> FindDies(ctxs[c].dict, key)
      ensures r.Done? ==> r.value == if key in ctxs[c].dict then Some(ctxs[c].dict[key].obj) else None
    {
      hide TableOk, Hash0Of, Hash1, KeyOk;
      var h0 := Hash0(key);
      r := dics[c].Find0(key, h0, Hash1(key));
    }

    method RestartCount()
      requires Tidy()
      modifies `serial
      ensures Tidy() && serial == 0
    {
      hide TableOk;
      serial := 0;
    }

    method StartCount(k: int)
      requires Tidy()
      modifies `start, `initialized
      ensures Tidy() && start == k && initialized
    {
      hide TableOk;
      start, initialized := k, true;
    }

    /** IRESET: starts the count where the class above ends. */
    method ResetVariables() returns (r: Outcome<bool>)
      requires Valid() && current > 0
      modifies `start, `serial, `initialized
      ensures Became(r, Reset(old(Snapshot())))
    {
      hide *;
      NamesOk();
      Opened();
      ghost var st := Snapshot();
      ResetParts(st);
      var sup := supers[current];
      RestartCount();
      var op1 := FindIn(sup, START);
      if op1.Died? {
        BecameDead<bool>(Reset(st));
        return Died;
      }
      if op1.value.None? {
        BecameNow(Done(false), Reset(st));
        return Done(false);
      }
      var op2 := FindIn(sup, SIZEOF);
      if op2.Died? {
        BecameDead<bool>(Reset(st));
        return Died;
      }
      if op2.value.None? {
        BecameNow(Done(false), Reset(st));
        return Done(false);
      }
      StartCount(IntegerOf(op1.value.value) + IntegerOf(op2.value.value));
      r := Done(true);
      BecameNow(r, Reset(st));
    }

    /** A class is entered under its name and becomes the current one. */
    method DeclareClass(name: string, supername: string) returns (r: Outcome<bool>)
      requires Valid() && KeyOk(name) && KeyOk(supername)
      modifies this, dics[0], dics[0].dic
      ensures Became(r, DeclareStep(old(Snapshot()), name, supername))
      ensures r.Done? ==> (r.value <==> |dics| == |old(dics)| + 1)
    {
      hide *;
      Opened();
      ghost var st := Snapshot();
      DeclareParts(st, name, supername);
      var op1 := FindIn(0, supername);
      if op1.Died? {
        BecameDead<bool>(DeclareStep(st, name, supername));
        return Died;
      }
      if op1.value.None? || !op1.value.value.Class? {
        BecameNow(Done(false), DeclareStep(st, name, supername));
        return Done(false);
      }
      var sup := op1.value.value.index;
      StillValid();
      AddContext(sup);
      Opened();
      ghost var st1 := Snapshot();
      PutInIs(st1, 0, name, Class(current));
      assert dics[0] == dics[..|dics| - 1][0];
      var put := PutInto(0, name, Class(current));
      if put.Died? {
        BecameDead<bool>(DeclareStep(st, name, supername));
        return Died;
      }
      StillValid();
      var reset := ResetVariables();
      r := if reset.Died? then Died else Done(true);
      BecameToo(reset, r, DeclareStep(st, name, supername));
    }

    method AddContext(sup: nat)
      requires Valid() && sup < |dics|
      modifies this
      ensures Valid() && Snapshot() == NewClass(old(Snapshot()), sup)
      ensures dics[..|dics| - 1] == old(dics) && fresh(dics[|dics| - 1]) && fresh(dics[|dics| - 1].dic)
    {
      NewClassForm(Snapshot(), sup);
      hide TableOk, PutEntry, WellFormed;
      var d := new Dictionary<Obj>();
      dics := dics + [d];
      supers := supers + [sup];
      ctxs := ctxs + [Ctx(sup, map[], [], false)];
      current := |dics| - 1;
    }

    /** History of the current class. */
    ghost method NoteHistory(x: Ctx)
      requires Tidy() && current < |ctxs| && x.super == ctxs[current].super && x.dict == ctxs[current].dict
      modifies `ctxs
      ensures Tidy() && ctxs == old(ctxs)[current := x]
    {
      hide TableOk;
      ctxs := ctxs[current := x];
    }

    lemma StillValid()
      requires Tidy() && WellFormed(State(ctxs, current, start, serial, initialized))
      ensures Valid() && Snapshot() == State(ctxs, current, start, serial, initialized)
    {
    }

    /** The program died if the step dies, and is now in the state the step leads to. */
    ghost predicate Became<T>(r: Outcome<T>, next: Outcome<State>)
      reads this, dics, Tables()
    {
      match next
      case Died => r.Died?
      case Done(st) => r.Done? && Valid() && Snapshot() == st
    }

    lemma BecameNow<T>(r: Outcome<T>, next: Outcome<State>)
      requires r.Done? && Tidy() && next == Done(State(ctxs, current, start, serial, initialized))
      requires WellFormed(next.value)
      ensures Became(r, next)
    {
    }

    lemma BecameToo<T>(r: Outcome<T>, r': Outcome<T>, next: Outcome<State>)
      requires Became(r, next) && (r.Died? <==> r'.Died?)
      ensures Became(r', next)
    {
      hide Valid;
    }

    lemma BecameDead<T>(next: Outcome<State>)
      requires next.Died?
      ensures Became<T>(Died, next)
    {
    }

    lemma Opened()
      requires Valid()
      ensures Tidy() && WellFormed(Snapshot())
      ensures |dics| == |ctxs| == |supers| && current < |ctxs| && 0 < |ctxs|
      ensures supers[current] == ctxs[current].super
      ensures Snapshot() == State(ctxs, current, start, serial, initialized)
    {
    }

    method CountVariable()
      requires Tidy()
      modifies `serial
      ensures Tidy() && serial == old(serial) + 1
    {
      hide TableOk;
      serial := serial + 1;
    }

    method StopCounting()
      requires Tidy()
      modifies `initialized
      ensures Tidy() && !initialized
    {
      hide TableOk;
      initialized := false;
    }

    /** IPUT: the next slot is given to a variable of the current class. */
    method PutVariable(v: string) returns (r: Outcome<bool>)
      requires Valid() && KeyOk(v)
      modifies `ctxs, `serial, dics[current], dics[current].dic
      ensures Became(r, VariableStep(old(Snapshot()), v))
      ensures r.Done? ==> (r.value <==> current != 0)
    {
      hide *;
      Opened();
      ghost var st := Snapshot();
      VariableIs(st, v);
      if current == 0 {
        BecameNow(Done(false), VariableStep(st, v));
        return Done(false);
      }
      if initialized {
        var slot := start + serial;
        var put := PutInto(current, v, Int(slot));
        if put.Died? {
          BecameDead<bool>(VariableStep(st, v));
          return Died;
        }
        CountVariable();
        NoteHistory(ctxs[current].(slots := ctxs[current].slots + [slot]));
        assert ctxs == st.ctxs[current := ctxs[current]];
      }
      r := Done(true);
      BecameNow(r, VariableStep(st, v));
    }

    /** IEXIT: records where the variables of the current class start and how many there are. */
    method CloseVariables() returns (r: Outcome<bool>)
      requires Valid()
      modifies `ctxs, `initialized, dics[current], dics[current].dic
      ensures Became(r, CloseStep(old(Snapshot())))
      ensures r.Done? ==> (r.value <==> current != 0)
    {
      hide *;
      NamesOk();
      Opened();
      ghost var st := Snapshot();
      CloseParts(st);
      if current == 0 {
        BecameNow(Done(false), CloseStep(st));
        return Done(false);
      }
      if initialized {
        var put := PutInto(current, START, Int(start));
        if put.Died? {
          BecameDead<bool>(CloseStep(st));
          return Died;
        }
        var put' := PutInto(current, SIZEOF, Int(serial));
        if put'.Died? {
          BecameDead<bool>(CloseStep(st));
          return Died;
        }
        StopCounting();
        NoteHistory(ctxs[current].(closed := true));
        assert ctxs == st.ctxs[current := ctxs[current]];
      }
      r := Done(true);
      BecameNow(r, CloseStep(st));
    }

    method ToPrimitiveClass()
      requires Valid()
      modifies `current
      ensures Valid() && Snapshot() == Next(old(Snapshot()), ToPrimitive).value
    {
      current := 0;
    }
  }

  /** The steps part by part. */
  lemma VariableIs(st: State, v: string)
    requires WellFormed(st)
    ensures st.current == 0 || !st.initialized ==> VariableStep(st, v) == Done(st)
    ensures st.current != 0 && st.initialized ==>
      var c, x, slot := st.current, st.ctxs[st.current], st.start + st.serial;
      && (VariableStep(st, v).Died? <==> PutDies(x.dict, v))
      && (VariableStep(st, v).Done? ==>
            var x' := Ctx(x.super, PutEntry(x.dict, v, Int(slot)), x.slots + [slot], x.closed);
            VariableStep(st, v).value == State(st.ctxs[c := x'], c, st.start, st.serial + 1, true)
            && WellFormed(VariableStep(st, v).value))
  {
  }

  lemma CloseParts(st: State)
    requires WellFormed(st)
    ensures st.current == 0 || !st.initialized ==> CloseStep(st) == Done(st)
    ensures st.current != 0 && st.initialized ==>
      var c, x := st.current, st.ctxs[st.current];
      var d := PutEntry(x.dict, START, Int(st.start));
      && (CloseStep(st).Died? <==> PutDies(x.dict, START) || PutDies(d, SIZEOF))
      && (CloseStep(st).Done? ==>
            var x' := Ctx(x.super, PutEntry(d, SIZEOF, Int(st.serial)), x.slots, true);
            CloseStep(st).value == State(st.ctxs[c := x'], c, st.start, st.serial, false)
            && WellFormed(CloseStep(st).value))
  {
  }

  lemma NewClassForm(st: State, super: nat)
    requires WellFormed(st) && super < |st.ctxs|
    ensures WellFormed(NewClass(st, super))
  {
  }

  lemma DeclareParts(st: State, name: string, supername: string)
    requires WellFormed(st)
    ensures var top := st.ctxs[0].dict;
      && (FindDies(top, supername) ==> DeclareStep(st, name, supername).Died?)
      && (!FindDies(top, supername) && (supername !in top || !top[supername].obj.Class?) ==>
            DeclareStep(st, name, supername) == Done(st))
      && (!FindDies(top, supername) && supername in top && top[supername].obj.Class? ==>
            top[supername].obj.index < |st.ctxs|
            && var st1 := NewClass(st, top[supername].obj.index);
            WellFormed(st1) && st1.current == |st.ctxs| && |st1.ctxs| == |st.ctxs| + 1
            && (PutIn(st1, 0, name, Class(st1.current)).Died? ==> DeclareStep(st, name, supername).Died?)
            && (PutIn(st1, 0, name, Class(st1.current)).Done? ==>
                  WellFormed(PutIn(st1, 0, name, Class(st1.current)).value)
                  && DeclareStep(st, name, supername) == Reset(PutIn(st1, 0, name, Class(st1.current)).value)))
  {
    var top := st.ctxs[0].dict;
    if supername in top && top[supername].obj.Class? {
      var st1 := NewClass(st, top[supername].obj.index);
      if PutIn(st1, 0, name, Class(st1.current)).Done? {
        PutKeepsForm(st1, 0, name, Class(st1.current));
      }
    }
    hide PutIn, Reset;
  }

  lemma PutInIs(st: State, c: nat, key: string, ob: Obj)
    requires WellFormed(st) && c < |st.ctxs| && (ob.Class? ==> ob.index < |st.ctxs|)
    ensures var r, d := PutIn(st, c, key, ob), st.ctxs[c].dict;
      && (r.Died? <==> PutDies(d, key))
      && (r.Done? ==>
            r.value == State(st.ctxs[c := st.ctxs[c].(dict := PutEntry(d, key, ob))], st.current, st.start, st.serial,
                             st.initialized)
            && WellFormed(r.value))
  {
    if PutIn(st, c, key, ob).Done? {
      PutKeepsForm(st, c, key, ob);
    }
  }

  lemma ResetParts(st: State)
    requires WellFormed(st) && st.current > 0
    ensures 0 <= st.ctxs[st.current].super < |st.ctxs|
    ensures var d := st.ctxs[st.ctxs[st.current].super].dict;
      && (Reset(st).Died? <==> FindDies(d, START) || (START in d && FindDies(d, SIZEOF)))
      && (Reset(st).Done? ==>
            WellFormed(Reset(st).value)
            && Reset(st).value == if START in d && SIZEOF in d
              then State(st.ctxs, st.current, IntegerOf(d[START].obj) + IntegerOf(d[SIZEOF].obj), 0, true)
              else State(st.ctxs, st.current, st.start, 0, st.initialized))
  {
  }

  lemma InitialDictIs()
    ensures var e: Dict := map[];
      e[START := Entry(Int(1), ABSOLUTE_PROTECT)][SIZEOF := Entry(Int(0), ABSOLUTE_PROTECT)]
        [PRIMITIVE_OBJECT := Entry(Class(0), ABSOLUTE_PROTECT)] == InitialDict()
  {
  }

  /** A put followed by the setting of its attribute, in a table with room. */
  method PutProtected(d: Dictionary<Obj>, key: string, ob: Obj)
    requires d.Valid() && KeyOk(key) && key != "" && key !in d.contents && |d.contents| < SIZE
    modifies d, d.dic
    ensures d.Valid() && d.contents == old(d.contents)[key := Entry(ob, ABSOLUTE_PROTECT)]
    ensures |d.contents| == old(|d.contents|) + 1
  {
    hide TableOk, Hash0Of, Hash1, KeyOk;
    var h0 := Hash0(key);
    var r := d.Put(key, h0, Hash1(key), ob);
    assert d.contents == old(d.contents)[key := Entry(ob, 0)];
    var r' := d.PutAttr(key, h0, Hash1(key), ABSOLUTE_PROTECT);
  }
}
