/**
 * The translation context (the Sink): the output declarations, the registered types,
 * field variables and procedures, the delegate registry, the identity constants of
 * delegate target methods and the fresh-name counter. `Ctx` is its value; class `Sink`
 * holds the same state in fields that its methods update in place.
 */
module Sinks {
  import opened Wrappers
  import opened Boogie
  import opened Cci

  // ----- Boogie parameters built from formals -----

  /** The leading in-parameter standing for the receiver (the delegate instance in a dispatcher). */
  const ThisFormal := Variable(Named("this"), IntType)

  function ResultFormal(t: BType): Variable { Variable(Named("$result"), t) }

  /** The in-copies of the formals that have one, in formal order. */
  function InCopies(fs: seq<Formal>): seq<Variable>
    decreases |fs|
  {
    if |fs| == 0 then []
    else
      var f := fs[|fs| - 1];
      InCopies(fs[..|fs| - 1]) + (if f.inCopy.Some? then [f.inCopy.value] else [])
  }

  /** A formal whose out-copy is a Boogie out-parameter. */
  predicate HasOutSlot(f: Formal) { f.outCopy.Some? && f.IsByRefOrOut() }

  /** The out-copies of by-reference and `out` formals, in formal order. */
  function OutCopies(fs: seq<Formal>): seq<Variable>
    decreases |fs|
  {
    if |fs| == 0 then []
    else
      var f := fs[|fs| - 1];
      OutCopies(fs[..|fs| - 1]) + (if HasOutSlot(f) then [f.outCopy.value] else [])
  }

  lemma {:induction false} InCopiesAppend(a: seq<Formal>, b: seq<Formal>)
    ensures InCopies(a + b) == InCopies(a) + InCopies(b)
    decreases |b|
  {
    if |b| > 0 {
      var b' := b[..|b| - 1];
      assert (a + b)[..|a + b| - 1] == a + b';
      InCopiesAppend(a, b');
    } else {
      assert a + b == a;
    }
  }

  lemma {:induction false} OutCopiesAppend(a: seq<Formal>, b: seq<Formal>)
    ensures OutCopies(a + b) == OutCopies(a) + OutCopies(b)
    decreases |b|
  {
    if |b| > 0 {
      var b' := b[..|b| - 1];
      assert (a + b)[..|a + b| - 1] == a + b';
      OutCopiesAppend(a, b');
    } else {
      assert a + b == a;
    }
  }

  /** The `$result` out-parameter of a non-void method. */
  function ResultSlot(ret: Option<BType>): seq<Variable>
  {
    if ret.Some? then [ResultFormal(ret.value)] else []
  }

  // ----- The context as a value -----

  /** A registered delegate type and its subscribers, in discovery order. */
  datatype DelegateEntry = DelegateEntry(delegateType: TypeDef, subscribers: seq<MethodDef>)

  datatype Ctx = Ctx(
    topLevelDeclarations: seq<Declaration>,
    declaredTypes: set<TypeDef>,
    fieldVariables: map<FieldDef, Variable>,
    procedures: map<MethodDef, Procedure>,
    delegateTypeToDelegates: seq<DelegateEntry>,
    delegateMethodConstants: map<MethodDef, Constant>,
    freshCount: nat)

  const EmptyCtx := Ctx([], {}, map[], map[], [], map[], 0)

  /** How a unit of translation ended. */
  datatype Outcome = Done | Failed(error: Error)

  /** The context after a unit of translation, and how it ended. */
  datatype Step = Step(ctx: Ctx, outcome: Outcome)

  /** The signature FindOrCreateProcedure gives a method. */
  function ProcedureFor(m: MethodDef): Procedure
  {
    Procedure(
      m.uniqueName,
      (if m.isStatic then [] else [ThisFormal]) + InCopies(m.formals),
      OutCopies(m.formals) + ResultSlot(m.returnType))
  }

  function FieldVariableFor(f: FieldDef): Variable { Variable(Named(f.name), f.ty) }

  function FindOrCreateTypeF(ctx: Ctx, t: TypeDef): Ctx
  {
    ctx.(declaredTypes := ctx.declaredTypes + {t})
  }

  function FindOrCreateFieldVariableF(ctx: Ctx, f: FieldDef): (Ctx, Variable)
  {
    if f in ctx.fieldVariables then (ctx, ctx.fieldVariables[f])
    else
      var v := FieldVariableFor(f);
      (ctx.(fieldVariables := ctx.fieldVariables[f := v],
            topLevelDeclarations := ctx.topLevelDeclarations + [GlobalDecl(v)]), v)
  }

  function FindOrCreateProcedureF(ctx: Ctx, m: MethodDef): (Ctx, Procedure)
  {
    if m in ctx.procedures then (ctx, ctx.procedures[m])
    else
      var p := ProcedureFor(m);
      (ctx.(procedures := ctx.procedures[m := p],
            topLevelDeclarations := ctx.topLevelDeclarations + [ProcDecl(p)]), p)
  }

  /** The position of a delegate type in the registry. */
  function EntryIndex(registry: seq<DelegateEntry>, t: TypeDef): (r: Option<nat>)
    ensures r.Some? ==> r.value < |registry| && registry[r.value].delegateType == t
    ensures r.None? ==> forall k :: 0 <= k < |registry| ==> registry[k].delegateType != t
  {
    if |registry| == 0 then None
    else if registry[|registry| - 1].delegateType == t then Some(|registry| - 1)
    else EntryIndex(registry[..|registry| - 1], t)
  }

  function AddDelegateTypeF(ctx: Ctx, t: TypeDef): Ctx
  {
    if EntryIndex(ctx.delegateTypeToDelegates, t).Some? then ctx
    else ctx.(delegateTypeToDelegates := ctx.delegateTypeToDelegates + [DelegateEntry(t, [])])
  }

  /** Registers subscriber `d` for delegate type `t` (called while translating method bodies). */
  function AddDelegateF(ctx: Ctx, t: TypeDef, d: MethodDef): Ctx
  {
    var reg := ctx.delegateTypeToDelegates;
    match EntryIndex(reg, t)
    case None => ctx.(delegateTypeToDelegates := reg + [DelegateEntry(t, [d])])
    case Some(k) =>
      var subs := reg[k].subscribers;
      if d in subs then ctx
      else ctx.(delegateTypeToDelegates := reg[k := DelegateEntry(t, subs + [d])])
  }

  /** The constant a method gets when it is first asked for: one named after its procedure. */
  function IdentityConstant(d: MethodDef): Constant { Constant(d.uniqueName) }

  /** The identity constant `d` has, or will get, under the given table. */
  function ConstOf(consts: map<MethodDef, Constant>, d: MethodDef): Constant
  {
    if d in consts then consts[d] else IdentityConstant(d)
  }

  function FindOrAddDelegateMethodConstantF(consts: map<MethodDef, Constant>, d: MethodDef)
    : (r: (map<MethodDef, Constant>, Constant))
    ensures r.1 == ConstOf(consts, d) && d in r.0
    ensures forall x :: ConstOf(r.0, x) == ConstOf(consts, x)
    ensures r.0.Keys == consts.Keys + {d}
    ensures forall x :: x in consts ==> r.0[x] == consts[x]
  {
    if d in consts then (consts, consts[d])
    else (consts[d := IdentityConstant(d)], IdentityConstant(d))
  }

  /** The table after asking for the constants of `ds` in order. */
  function AddConstants(consts: map<MethodDef, Constant>, ds: seq<MethodDef>): map<MethodDef, Constant>
    decreases |ds|
  {
    if |ds| == 0 then consts
    else FindOrAddDelegateMethodConstantF(AddConstants(consts, ds[..|ds| - 1]), ds[|ds| - 1]).0
  }

  function CreateFreshLocalF(ctx: Ctx, ty: BType): (Ctx, Variable)
  {
    (ctx.(freshCount := ctx.freshCount + 1), Variable(Fresh(ctx.freshCount), ty))
  }

  // ----- Properties of the context operations -----

  /** Asking twice for a method's procedure yields the same procedure and declares it once. */
  lemma FindOrCreateProcedureIdempotent(ctx: Ctx, m: MethodDef)
    ensures var (c1, p1) := FindOrCreateProcedureF(ctx, m);
            m in c1.procedures && c1.procedures[m] == p1 &&
            FindOrCreateProcedureF(c1, m) == (c1, p1)
    ensures var (c1, p1) := FindOrCreateProcedureF(ctx, m);
            c1.topLevelDeclarations ==
              ctx.topLevelDeclarations + (if m in ctx.procedures then [] else [ProcDecl(p1)])
  {
  }

  /** Asking twice for a field's variable yields the same variable and declares it once. */
  lemma FindOrCreateFieldVariableIdempotent(ctx: Ctx, f: FieldDef)
    ensures var (c1, v1) := FindOrCreateFieldVariableF(ctx, f);
            FindOrCreateFieldVariableF(c1, f) == (c1, v1)
    ensures var (c1, v1) := FindOrCreateFieldVariableF(ctx, f);
            c1.topLevelDeclarations ==
              ctx.topLevelDeclarations + (if f in ctx.fieldVariables then [] else [GlobalDecl(v1)])
  {
  }

  /** Asking for constants never changes the constant of any method. */
  lemma {:induction false} AddConstantsConstOf(consts: map<MethodDef, Constant>, ds: seq<MethodDef>)
    ensures forall x :: ConstOf(AddConstants(consts, ds), x) == ConstOf(consts, x)
    decreases |ds|
  {
    if |ds| > 0 {
      AddConstantsConstOf(consts, ds[..|ds| - 1]);
    }
  }

  /** Afterwards exactly the methods already in the table and the asked-for ones have a constant. */
  lemma {:induction false} AddConstantsKeys(consts: map<MethodDef, Constant>, ds: seq<MethodDef>)
    ensures AddConstants(consts, ds).Keys == consts.Keys + set d | d in ds
    decreases |ds|
  {
    if |ds| > 0 {
      var init := ds[..|ds| - 1];
      AddConstantsKeys(consts, init);
      assert ds == init + [ds[|ds| - 1]];
      assert (set d | d in ds) == (set d | d in init) + {ds[|ds| - 1]};
    }
  }

  /** Constants already in the table are kept. */
  lemma {:induction false} AddConstantsKeeps(consts: map<MethodDef, Constant>, ds: seq<MethodDef>)
    ensures forall x :: x in consts ==> x in AddConstants(consts, ds) && AddConstants(consts, ds)[x] == consts[x]
    decreases |ds|
  {
    if |ds| > 0 {
      AddConstantsKeeps(consts, ds[..|ds| - 1]);
    }
  }

  /** Registering a delegate type keeps the registry free of duplicates and adds the type once. */
  lemma AddDelegateTypeRegisters(ctx: Ctx, t: TypeDef)
    ensures var reg := AddDelegateTypeF(ctx, t).delegateTypeToDelegates;
            EntryIndex(reg, t).Some? && ctx.delegateTypeToDelegates <= reg &&
            |reg| <= |ctx.delegateTypeToDelegates| + 1
    ensures AddDelegateTypeF(ctx, t).topLevelDeclarations == ctx.topLevelDeclarations
  {
  }

  /** Successive fresh locals have distinct names. */
  lemma FreshLocalsDistinct(ctx: Ctx, t1: BType, t2: BType)
    ensures var (c1, v1) := CreateFreshLocalF(ctx, t1);
            var (c2, v2) := CreateFreshLocalF(c1, t2);
            v1.name != v2.name
  {
  }

  // ----- What every reachable context satisfies -----

  /** The registry is a dictionary keyed by delegate type: no type has two entries. */
  predicate UniqueTypes(reg: seq<DelegateEntry>)
  {
    forall i, j :: 0 <= i < j < |reg| ==> reg[i].delegateType != reg[j].delegateType
  }

  /** Each registry entry holds an ordered set of subscribers: none is listed twice. */
  predicate UniqueSubscribers(reg: seq<DelegateEntry>)
  {
    forall k, i, j :: 0 <= k < |reg| && 0 <= i < j < |reg[k].subscribers| ==>
      reg[k].subscribers[i] != reg[k].subscribers[j]
  }

  /** Every constant in the table is the one named after its method's procedure. */
  predicate ConstantsByName(consts: map<MethodDef, Constant>)
  {
    forall d :: d in consts ==> consts[d] == IdentityConstant(d)
  }

  /** The invariant of the translation context. */
  predicate Coherent(ctx: Ctx)
  {
    UniqueTypes(ctx.delegateTypeToDelegates) && UniqueSubscribers(ctx.delegateTypeToDelegates) &&
    ConstantsByName(ctx.delegateMethodConstants)
  }

  lemma EmptyCoherent()
    ensures Coherent(EmptyCtx)
  {
  }

  /** Under the invariant, every method's constant is named after its procedure. */
  lemma ConstOfByName(consts: map<MethodDef, Constant>, d: MethodDef)
    requires ConstantsByName(consts)
    ensures ConstOf(consts, d) == Constant(d.uniqueName)
  {
  }

  lemma AddDelegateTypeCoherent(ctx: Ctx, t: TypeDef)
    requires Coherent(ctx)
    ensures Coherent(AddDelegateTypeF(ctx, t))
  {
    var reg := ctx.delegateTypeToDelegates;
    if EntryIndex(reg, t).None? {
      var reg' := AddDelegateTypeF(ctx, t).delegateTypeToDelegates;
      assert reg' == reg + [DelegateEntry(t, [])];
      assert forall k :: 0 <= k < |reg| ==> reg'[k] == reg[k];
    }
  }

  /** Subscribing keeps one entry per type and one occurrence per subscriber. */
  lemma AddDelegateCoherent(ctx: Ctx, t: TypeDef, d: MethodDef)
    requires Coherent(ctx)
    ensures Coherent(AddDelegateF(ctx, t, d))
    ensures var reg := AddDelegateF(ctx, t, d).delegateTypeToDelegates;
            exists k :: 0 <= k < |reg| && reg[k].delegateType == t && d in reg[k].subscribers
  {
    var reg := ctx.delegateTypeToDelegates;
    var reg' := AddDelegateF(ctx, t, d).delegateTypeToDelegates;
    match EntryIndex(reg, t)
    case None =>
      assert reg' == reg + [DelegateEntry(t, [d])];
      assert forall k :: 0 <= k < |reg| ==> reg'[k] == reg[k];
      assert reg'[|reg|].delegateType == t && d in reg'[|reg|].subscribers;
    case Some(k) =>
      var subs := reg[k].subscribers;
      if d !in subs {
        assert reg' == reg[k := DelegateEntry(t, subs + [d])];
        assert forall x :: 0 <= x < |reg| ==> reg'[x].delegateType == reg[x].delegateType;
        forall x, i, j | 0 <= x < |reg'| && 0 <= i < j < |reg'[x].subscribers|
          ensures reg'[x].subscribers[i] != reg'[x].subscribers[j]
        {
          if x == k && j == |subs| {
            assert reg'[x].subscribers[i] == subs[i];
          } else if x == k {
            assert reg'[x].subscribers[i] == subs[i] && reg'[x].subscribers[j] == subs[j];
          }
        }
        assert d in reg'[k].subscribers by {
          assert reg'[k].subscribers[|subs|] == d;
        }
      }
  }

  /** Asking for a constant keeps every constant named after its method. */
  lemma {:induction false} AddConstantsByName(consts: map<MethodDef, Constant>, ds: seq<MethodDef>)
    requires ConstantsByName(consts)
    ensures ConstantsByName(AddConstants(consts, ds))
    decreases |ds|
  {
    if |ds| > 0 {
      AddConstantsByName(consts, ds[..|ds| - 1]);
    }
  }

  // ----- The context as an object -----

  class Sink {
    var topLevelDeclarations: seq<Declaration>
    var declaredTypes: set<TypeDef>
    var fieldVariables: map<FieldDef, Variable>
    var procedures: map<MethodDef, Procedure>
    var delegateTypeToDelegates: seq<DelegateEntry>
    var delegateMethodConstants: map<MethodDef, Constant>
    var freshCount: nat

    function State(): Ctx
      reads this
    {
      Ctx(topLevelDeclarations, declaredTypes, fieldVariables, procedures,
          delegateTypeToDelegates, delegateMethodConstants, freshCount)
    }

    constructor ()
      ensures State() == EmptyCtx
    {
      topLevelDeclarations := [];
      declaredTypes := {};
      fieldVariables := map[];
      procedures := map[];
      delegateTypeToDelegates := [];
      delegateMethodConstants := map[];
      freshCount := 0;
    }

    method AddDeclaration(d: Declaration)
      modifies this
      ensures State() == old(State()).(topLevelDeclarations := old(topLevelDeclarations) + [d])
    {
      topLevelDeclarations := topLevelDeclarations + [d];
    }

    method FindOrCreateType(t: TypeDef)
      modifies this
      ensures State() == FindOrCreateTypeF(old(State()), t)
    {
      declaredTypes := declaredTypes + {t};
    }

    method FindOrCreateFieldVariable(f: FieldDef) returns (v: Variable)
      modifies this
      ensures (State(), v) == FindOrCreateFieldVariableF(old(State()), f)
    {
      if f in fieldVariables {
        v := fieldVariables[f];
      } else {
        v := FieldVariableFor(f);
        fieldVariables := fieldVariables[f := v];
        topLevelDeclarations := topLevelDeclarations + [GlobalDecl(v)];
      }
    }

    method FindOrCreateProcedure(m: MethodDef) returns (p: Procedure)
      modifies this
      ensures (State(), p) == FindOrCreateProcedureF(old(State()), m)
    {
      if m in procedures {
        p := procedures[m];
      } else {
        p := ProcedureFor(m);
        procedures := procedures[m := p];
        topLevelDeclarations := topLevelDeclarations + [ProcDecl(p)];
      }
    }

    method AddDelegateType(t: TypeDef)
      modifies this
      ensures State() == AddDelegateTypeF(old(State()), t)
    {
      var k := EntryIndex(delegateTypeToDelegates, t);
      if k.None? {
        delegateTypeToDelegates := delegateTypeToDelegates + [DelegateEntry(t, [])];
      }
    }

    method AddDelegate(t: TypeDef, d: MethodDef)
      modifies this
      ensures State() == AddDelegateF(old(State()), t, d)
    {
      var k := EntryIndex(delegateTypeToDelegates, t);
      if k.None? {
        delegateTypeToDelegates := delegateTypeToDelegates + [DelegateEntry(t, [d])];
      } else if d !in delegateTypeToDelegates[k.value].subscribers {
        var subs := delegateTypeToDelegates[k.value].subscribers;
        delegateTypeToDelegates := delegateTypeToDelegates[k.value := DelegateEntry(t, subs + [d])];
      }
    }

    method FindOrAddDelegateMethodConstant(d: MethodDef) returns (c: Constant)
      modifies this
      ensures c == ConstOf(old(delegateMethodConstants), d)
      ensures State() == old(State()).(delegateMethodConstants :=
                FindOrAddDelegateMethodConstantF(old(delegateMethodConstants), d).0)
    {
      if d in delegateMethodConstants {
        c := delegateMethodConstants[d];
      } else {
        c := IdentityConstant(d);
        delegateMethodConstants := delegateMethodConstants[d := c];
      }
    }

    method CreateFreshLocal(ty: BType) returns (v: Variable)
      modifies this
      ensures (State(), v) == CreateFreshLocalF(old(State()), ty)
    {
      v := Variable(Fresh(freshCount), ty);
      freshCount := freshCount + 1;
    }
  }
}
