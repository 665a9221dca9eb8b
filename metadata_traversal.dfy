/**
 * The metadata traversal: fields get a global variable, methods a procedure and (unless
 * they are event accessors or fail) an implementation, classes are registered and their
 * members visited, delegate types are only registered, and after the whole assembly one
 * dispatcher is synthesized per registered delegate type. The visit functions state what
 * the class MetadataTraverser does to its Sink.
 */
module MetadataTraversal {
  import opened Wrappers
  import opened Boogie
  import opened Cci
  import opened Sinks
  import opened Dispatch
  import opened MethodVisit

  // ----- Visiting, as functions on the context -----

  /** Visiting a sequence of items in order; a failure stops the traversal (an exception). */
  function Traverse<X>(f: (Ctx, X) -> Step, ctx: Ctx, xs: seq<X>): Step
    decreases |xs|
  {
    if |xs| == 0 then Step(ctx, Done)
    else
      var s := Traverse(f, ctx, xs[..|xs| - 1]);
      if s.outcome.Failed? then s else f(s.ctx, xs[|xs| - 1])
  }

  function VisitFieldF(ctx: Ctx, fd: FieldDef): Step
  {
    Step(FindOrCreateFieldVariableF(ctx, fd).0, Done)
  }

  /** The registrations of delegate subscriptions, in order. */
  function SubscribeAll(ctx: Ctx, subs: seq<Subscription>): (r: Ctx)
    ensures r == ctx.(delegateTypeToDelegates := r.delegateTypeToDelegates)
    decreases |subs|
  {
    if |subs| == 0 then ctx
    else
      var s := subs[|subs| - 1];
      AddDelegateF(SubscribeAll(ctx, subs[..|subs| - 1]), s.delegateType, s.subscriber)
  }

  /** Whether the translation of `m` gets as far as translating its body. */
  predicate BodyReached(m: MethodDef)
  {
    !m.isAbstract && EntryCopyCmds(m.tok, m.formals).Ok? && m.body.Translated?
  }

  /** The context once the body of `m` has been translated: its subscriptions are registered. */
  function AfterBody(ctx: Ctx, m: MethodDef): Ctx
  {
    if BodyReached(m) then SubscribeAll(ctx, m.body.subscriptions) else ctx
  }

  /** A method visit changes only the declarations, the procedures and the registry. */
  function VisitMethodF(ctx: Ctx, m: MethodDef): (r: Step)
    ensures r.ctx == ctx.(topLevelDeclarations := r.ctx.topLevelDeclarations,
                          procedures := r.ctx.procedures,
                          delegateTypeToDelegates := r.ctx.delegateTypeToDelegates)
    ensures ctx.topLevelDeclarations <= r.ctx.topLevelDeclarations
    ensures ctx.procedures.Keys <= r.ctx.procedures.Keys
  {
    if IsEventAccessor(m) then Step(ctx, Done)
    else
      var (c1, proc) := FindOrCreateProcedureF(ctx, m);
      var c2 := AfterBody(c1, m);
      match MethodImplementation(proc, m)
      case Err(e) => Step(c2, Failed(e))
      case Ok(impl) => Step(c2.(topLevelDeclarations := c2.topLevelDeclarations + [ImplDecl(impl)]), Done)
  }

  function VisitMemberF(ctx: Ctx, mem: Member): (r: Step)
    ensures r.ctx.delegateMethodConstants == ctx.delegateMethodConstants
    ensures r.ctx.freshCount == ctx.freshCount
  {
    match mem
    case FieldMember(fd) => VisitFieldF(ctx, fd)
    case MethodMember(m) => VisitMethodF(ctx, m)
  }

  /** Visiting a type never touches the identity constants or the fresh counter. */
  function VisitTypeF(ctx: Ctx, t: TypeDef): (r: Step)
    ensures r.ctx.delegateMethodConstants == ctx.delegateMethodConstants
    ensures r.ctx.freshCount == ctx.freshCount
  {
    match t.kind
    case ClassKind =>
      TraverseKeepsCounters(VisitMemberF, FindOrCreateTypeF(ctx, t), t.members);
      Traverse(VisitMemberF, FindOrCreateTypeF(ctx, t), t.members)
    case DelegateKind => Step(AddDelegateTypeF(ctx, t), Done)
    case OtherKind(_) => Step(ctx, Failed(Unsupported("non-class type")))
  }

  /** All types, then one dispatcher per entry of the registry as it stands afterwards. */
  function VisitAssemblyF(ctx: Ctx, a: Assembly): (r: Step)
    ensures Extends(ctx, r.ctx)
    ensures r.ctx.freshCount == ctx.freshCount
  {
    var s := Traverse(VisitTypeF, ctx, a.types);
    TypesExtend(ctx, a.types);
    if s.outcome.Failed? then s
    else
      DispatchersExtend(s.ctx, s.ctx.delegateTypeToDelegates);
      Traverse(CreateDispatchF, s.ctx, s.ctx.delegateTypeToDelegates)
  }

  // ----- Generic facts about traversals -----

  /** Once a prefix fails, the whole traversal ends in that failure. */
  lemma {:induction false} TraverseSticks<X>(f: (Ctx, X) -> Step, ctx: Ctx, xs: seq<X>, k: nat)
    requires k <= |xs| && Traverse(f, ctx, xs[..k]).outcome.Failed?
    ensures Traverse(f, ctx, xs) == Traverse(f, ctx, xs[..k])
    decreases |xs| - k
  {
    if k < |xs| {
      assert xs[..k + 1][..k] == xs[..k];
      TraverseSticks(f, ctx, xs, k + 1);
    } else {
      assert xs[..k] == xs;
    }
  }

  /** A traversal by steps that keep the constants and the counter keeps them too. */
  lemma {:induction false} TraverseKeepsCounters<X>(f: (Ctx, X) -> Step, ctx: Ctx, xs: seq<X>)
    requires forall c, x :: f(c, x).ctx.delegateMethodConstants == c.delegateMethodConstants &&
                            f(c, x).ctx.freshCount == c.freshCount
    ensures Traverse(f, ctx, xs).ctx.delegateMethodConstants == ctx.delegateMethodConstants
    ensures Traverse(f, ctx, xs).ctx.freshCount == ctx.freshCount
    decreases |xs|
  {
    if |xs| > 0 {
      TraverseKeepsCounters(f, ctx, xs[..|xs| - 1]);
    }
  }

  /** A traversal by steps that keep the fresh counter keeps it too. */
  lemma {:induction false} TraverseKeepsCounter<X>(f: (Ctx, X) -> Step, ctx: Ctx, xs: seq<X>)
    requires forall c, x :: f(c, x).ctx.freshCount == c.freshCount
    ensures Traverse(f, ctx, xs).ctx.freshCount == ctx.freshCount
    decreases |xs|
  {
    if |xs| > 0 {
      TraverseKeepsCounter(f, ctx, xs[..|xs| - 1]);
    }
  }

  /** A traversal by steps that keep the context's invariant keeps it too. */
  lemma {:induction false} TraverseCoherent<X>(f: (Ctx, X) -> Step, ctx: Ctx, xs: seq<X>)
    requires forall c, x :: Coherent(c) ==> Coherent(f(c, x).ctx)
    requires Coherent(ctx)
    ensures Coherent(Traverse(f, ctx, xs).ctx)
    decreases |xs|
  {
    if |xs| > 0 {
      TraverseCoherent(f, ctx, xs[..|xs| - 1]);
    }
  }

  /** What the traversal keeps: declarations, declared types, and registry positions. */
  predicate Extends(c1: Ctx, c2: Ctx)
  {
    c1.topLevelDeclarations <= c2.topLevelDeclarations &&
    c1.declaredTypes <= c2.declaredTypes &&
    c1.procedures.Keys <= c2.procedures.Keys &&
    |c1.delegateTypeToDelegates| <= |c2.delegateTypeToDelegates| &&
    forall k :: 0 <= k < |c1.delegateTypeToDelegates| ==>
      c2.delegateTypeToDelegates[k].delegateType == c1.delegateTypeToDelegates[k].delegateType
  }

  lemma ExtendsTrans(c1: Ctx, c2: Ctx, c3: Ctx)
    requires Extends(c1, c2) && Extends(c2, c3)
    ensures Extends(c1, c3)
  {
  }

  /** A traversal by steps that keep what the traversal keeps keeps it too. */
  lemma {:induction false} TraverseExtends<X>(f: (Ctx, X) -> Step, ctx: Ctx, xs: seq<X>)
    requires forall c, x :: Extends(c, f(c, x).ctx)
    ensures Extends(ctx, Traverse(f, ctx, xs).ctx)
    decreases |xs|
  {
    if |xs| > 0 {
      var s := Traverse(f, ctx, xs[..|xs| - 1]);
      TraverseExtends(f, ctx, xs[..|xs| - 1]);
      if s.outcome.Done? {
        ExtendsTrans(ctx, s.ctx, f(s.ctx, xs[|xs| - 1]).ctx);
      }
    }
  }

  lemma AddDelegateExtends(ctx: Ctx, t: TypeDef, d: MethodDef)
    ensures Extends(ctx, AddDelegateF(ctx, t, d))
    ensures AddDelegateF(ctx, t, d).topLevelDeclarations == ctx.topLevelDeclarations
  {
  }

  lemma {:induction false} SubscribeAllExtends(ctx: Ctx, subs: seq<Subscription>)
    ensures Extends(ctx, SubscribeAll(ctx, subs))
    ensures SubscribeAll(ctx, subs).topLevelDeclarations == ctx.topLevelDeclarations
    ensures SubscribeAll(ctx, subs).procedures == ctx.procedures
    decreases |subs|
  {
    if |subs| > 0 {
      var s := subs[|subs| - 1];
      var mid := SubscribeAll(ctx, subs[..|subs| - 1]);
      SubscribeAllExtends(ctx, subs[..|subs| - 1]);
      AddDelegateExtends(mid, s.delegateType, s.subscriber);
      ExtendsTrans(ctx, mid, AddDelegateF(mid, s.delegateType, s.subscriber));
    }
  }

  lemma VisitMethodExtends(ctx: Ctx, m: MethodDef)
    ensures Extends(ctx, VisitMethodF(ctx, m).ctx)
  {
    if !IsEventAccessor(m) {
      var (c1, proc) := FindOrCreateProcedureF(ctx, m);
      SubscribeAllExtends(c1, if BodyReached(m) then m.body.subscriptions else []);
    }
  }

  lemma VisitMemberExtends(ctx: Ctx, mem: Member)
    ensures Extends(ctx, VisitMemberF(ctx, mem).ctx)
  {
    if mem.MethodMember? {
      VisitMethodExtends(ctx, mem.def);
    }
  }

  lemma VisitTypeExtends(ctx: Ctx, t: TypeDef)
    ensures Extends(ctx, VisitTypeF(ctx, t).ctx)
  {
    if t.kind.ClassKind? {
      forall c, mem ensures Extends(c, VisitMemberF(c, mem).ctx) {
        VisitMemberExtends(c, mem);
      }
      TraverseExtends(VisitMemberF, FindOrCreateTypeF(ctx, t), t.members);
    }
  }

  lemma TypesExtend(ctx: Ctx, types: seq<TypeDef>)
    ensures Extends(ctx, Traverse(VisitTypeF, ctx, types).ctx)
    ensures Traverse(VisitTypeF, ctx, types).ctx.freshCount == ctx.freshCount
  {
    forall c, t ensures Extends(c, VisitTypeF(c, t).ctx) {
      VisitTypeExtends(c, t);
    }
    TraverseExtends(VisitTypeF, ctx, types);
    TraverseKeepsCounter(VisitTypeF, ctx, types);
  }

  lemma DispatchersExtend(ctx: Ctx, reg: seq<DelegateEntry>)
    ensures Extends(ctx, Traverse(CreateDispatchF, ctx, reg).ctx)
    ensures Traverse(CreateDispatchF, ctx, reg).ctx.freshCount == ctx.freshCount
  {
    TraverseExtends(CreateDispatchF, ctx, reg);
    TraverseKeepsCounter(CreateDispatchF, ctx, reg);
  }

  // ----- The context's invariant -----

  /** Registering the subscriptions of a body keeps the context's invariant. */
  lemma {:induction false} SubscribeAllCoherent(ctx: Ctx, subs: seq<Subscription>)
    requires Coherent(ctx)
    ensures Coherent(SubscribeAll(ctx, subs))
    decreases |subs|
  {
    if |subs| > 0 {
      var s := subs[|subs| - 1];
      SubscribeAllCoherent(ctx, subs[..|subs| - 1]);
      AddDelegateCoherent(SubscribeAll(ctx, subs[..|subs| - 1]), s.delegateType, s.subscriber);
    }
  }

  lemma VisitMethodCoherent(ctx: Ctx, m: MethodDef)
    requires Coherent(ctx)
    ensures Coherent(VisitMethodF(ctx, m).ctx)
  {
    if !IsEventAccessor(m) {
      var (c1, proc) := FindOrCreateProcedureF(ctx, m);
      SubscribeAllCoherent(c1, if BodyReached(m) then m.body.subscriptions else []);
    }
  }

  lemma VisitTypeCoherent(ctx: Ctx, t: TypeDef)
    requires Coherent(ctx)
    ensures Coherent(VisitTypeF(ctx, t).ctx)
  {
    match t.kind
    case ClassKind =>
      forall c, mem | Coherent(c) ensures Coherent(VisitMemberF(c, mem).ctx) {
        if mem.MethodMember? {
          VisitMethodCoherent(c, mem.def);
        }
      }
      TraverseCoherent(VisitMemberF, FindOrCreateTypeF(ctx, t), t.members);
    case DelegateKind =>
      AddDelegateTypeCoherent(ctx, t);
    case OtherKind(_) =>
  }

  /** Visiting an assembly keeps the context's invariant, whether or not it fails. */
  lemma VisitAssemblyCoherent(ctx: Ctx, a: Assembly)
    requires Coherent(ctx)
    ensures Coherent(Traverse(VisitTypeF, ctx, a.types).ctx)
    ensures Coherent(VisitAssemblyF(ctx, a).ctx)
  {
    forall c, t | Coherent(c) ensures Coherent(VisitTypeF(c, t).ctx) {
      VisitTypeCoherent(c, t);
    }
    TraverseCoherent(VisitTypeF, ctx, a.types);
    var s := Traverse(VisitTypeF, ctx, a.types);
    if s.outcome.Done? {
      forall c, e | Coherent(c) ensures Coherent(CreateDispatchF(c, e).ctx) {
        CreateDispatchCoherent(c, e);
      }
      TraverseCoherent(CreateDispatchF, s.ctx, s.ctx.delegateTypeToDelegates);
    }
  }

  // ----- Implementations: counting them -----

  lemma {:induction false} ImplCountAppend(a: seq<Declaration>, b: seq<Declaration>)
    ensures ImplCount(a + b) == ImplCount(a) + ImplCount(b)
    decreases |a|
  {
    if |a| > 0 {
      assert (a + b)[1..] == a[1..] + b;
      ImplCountAppend(a[1..], b);
    } else {
      assert a + b == b;
    }
  }

  // ----- Methods -----

  /**
   * Visiting a method: an event accessor leaves the context as it is. Any other method
   * first gets its procedure; if it then fails (an abstract method always does, as
   * Unsupported) no implementation is added, and otherwise exactly one implementation,
   * bound to that procedure, is appended.
   */
  lemma VisitMethodSpec(ctx: Ctx, m: MethodDef)
    ensures IsEventAccessor(m) ==> VisitMethodF(ctx, m) == Step(ctx, Done)
    ensures !IsEventAccessor(m) ==>
              var r, (c1, proc) := VisitMethodF(ctx, m), FindOrCreateProcedureF(ctx, m);
              m in r.ctx.procedures && r.ctx.procedures[m] == proc &&
              c1.topLevelDeclarations <= r.ctx.topLevelDeclarations &&
              (m.isAbstract ==> r.outcome == Failed(Unsupported("abstract method"))) &&
              (r.outcome.Failed? ==>
                 r.ctx.topLevelDeclarations == c1.topLevelDeclarations &&
                 ImplCount(r.ctx.topLevelDeclarations) == ImplCount(ctx.topLevelDeclarations)) &&
              (r.outcome.Done? <==> MethodImplementation(proc, m).Ok?) &&
              (r.outcome.Done? ==>
                 r.ctx.topLevelDeclarations ==
                   c1.topLevelDeclarations + [ImplDecl(MethodImplementation(proc, m).value)] &&
                 MethodImplementation(proc, m).value.name == proc.name)
  {
    if !IsEventAccessor(m) {
      var (c1, proc) := FindOrCreateProcedureF(ctx, m);
      SubscribeAllExtends(c1, if BodyReached(m) then m.body.subscriptions else []);
      var added := if m in ctx.procedures then [] else [ProcDecl(proc)];
      assert c1.topLevelDeclarations == ctx.topLevelDeclarations + added;
      ImplCountAppend(ctx.topLevelDeclarations, added);
      assert ImplCount(added) == 0;
    }
  }

  // ----- Types -----

  /**
   * The three kinds of types: a class is registered and its members are visited; a
   * delegate type is only added to the registry, with nothing declared; any other kind
   * is unsupported and leaves the context as it is.
   */
  lemma VisitTypeSpec(ctx: Ctx, t: TypeDef)
    ensures t.kind.ClassKind? ==>
              VisitTypeF(ctx, t) == Traverse(VisitMemberF, FindOrCreateTypeF(ctx, t), t.members) &&
              t in VisitTypeF(ctx, t).ctx.declaredTypes
    ensures t.kind.DelegateKind? ==>
              var r := VisitTypeF(ctx, t);
              r.outcome == Done && EntryIndex(r.ctx.delegateTypeToDelegates, t).Some? &&
              r.ctx.topLevelDeclarations == ctx.topLevelDeclarations &&
              r.ctx.declaredTypes == ctx.declaredTypes
    ensures t.kind.OtherKind? ==> VisitTypeF(ctx, t) == Step(ctx, Failed(Unsupported("non-class type")))
  {
    if t.kind.ClassKind? {
      forall c, mem ensures Extends(c, VisitMemberF(c, mem).ctx) {
        VisitMemberExtends(c, mem);
      }
      TraverseExtends(VisitMemberF, FindOrCreateTypeF(ctx, t), t.members);
    } else if t.kind.DelegateKind? {
      AddDelegateTypeRegisters(ctx, t);
    }
  }

  // ----- The assembly -----

  /** The Invoke method of a registered delegate type. */
  function InvokeOf(e: DelegateEntry): Option<MethodDef>
  {
    FindInvoke(Methods(e.delegateType.members))
  }

  predicate HasInvokes(reg: seq<DelegateEntry>)
  {
    forall k :: 0 <= k < |reg| ==> InvokeOf(reg[k]).Some?
  }

  /** The dispatchers of the registry, in registry order. */
  function Dispatchers(consts: map<MethodDef, Constant>, reg: seq<DelegateEntry>): (ds: seq<Declaration>)
    requires HasInvokes(reg)
    ensures |ds| == 2 * |reg|
    decreases |reg|
  {
    if |reg| == 0 then []
    else
      var e := reg[|reg| - 1];
      Dispatchers(consts, reg[..|reg| - 1]) + DispatchDecls(consts, InvokeOf(e).value, e.subscribers)
  }

  /** The cascade depends on the constant table only through the constants it gives. */
  lemma {:induction false} CascadeConsts(c1: map<MethodDef, Constant>, c2: map<MethodDef, Constant>,
                                         subs: seq<MethodDef>, invars: seq<Variable>,
                                         outvars: seq<Variable>, tok: Token)
    requires forall x :: ConstOf(c1, x) == ConstOf(c2, x)
    ensures Cascade(c1, subs, invars, outvars, tok) == Cascade(c2, subs, invars, outvars, tok)
    decreases |subs|
  {
    if |subs| > 0 {
      CascadeConsts(c1, c2, subs[..|subs| - 1], invars, outvars, tok);
    }
  }

  /** One CreateDispatchMethod, stated against the constants it started from. */
  lemma CreateDispatchStep(ctx: Ctx, consts: map<MethodDef, Constant>, e: DelegateEntry)
    requires forall x :: ConstOf(ctx.delegateMethodConstants, x) == ConstOf(consts, x)
    ensures var r := CreateDispatchF(ctx, e);
            (r.outcome.Done? <==> InvokeOf(e).Some?) &&
            (r.outcome.Failed? ==> r.outcome.error.InternalDefect? && r.ctx == ctx) &&
            r.ctx.delegateTypeToDelegates == ctx.delegateTypeToDelegates &&
            (forall x :: ConstOf(r.ctx.delegateMethodConstants, x) == ConstOf(consts, x)) &&
            (InvokeOf(e).Some? ==>
               r.ctx.topLevelDeclarations ==
                 ctx.topLevelDeclarations + DispatchDecls(consts, InvokeOf(e).value, e.subscribers))
  {
    if InvokeOf(e).Some? {
      var inv := InvokeOf(e).value;
      AddConstantsConstOf(ctx.delegateMethodConstants, e.subscribers);
      CascadeConsts(ctx.delegateMethodConstants, consts, e.subscribers,
                    DispatchInParams(inv.formals), DispatchOutParams(inv.formals, inv.returnType), inv.tok);
    }
  }

  lemma HasInvokesInit(reg: seq<DelegateEntry>)
    requires |reg| > 0
    ensures HasInvokes(reg) <==> HasInvokes(reg[..|reg| - 1]) && InvokeOf(reg[|reg| - 1]).Some?
  {
  }

  /**
   * Creating the dispatchers of a registry succeeds exactly when every registered type
   * has an Invoke method; it then appends the dispatchers in registry order and leaves
   * the registry and the constants of all methods as they were.
   */
  lemma {:induction false} CreateDispatchersSpec(ctx: Ctx, reg: seq<DelegateEntry>)
    ensures var r := Traverse(CreateDispatchF, ctx, reg);
            (r.outcome.Done? <==> HasInvokes(reg)) &&
            (r.outcome.Failed? ==> r.outcome.error.InternalDefect?) &&
            r.ctx.delegateTypeToDelegates == ctx.delegateTypeToDelegates &&
            (forall x :: ConstOf(r.ctx.delegateMethodConstants, x) == ConstOf(ctx.delegateMethodConstants, x)) &&
            (HasInvokes(reg) ==>
               r.ctx.topLevelDeclarations ==
                 ctx.topLevelDeclarations + Dispatchers(ctx.delegateMethodConstants, reg))
    decreases |reg|
  {
    if |reg| > 0 {
      var init, e := reg[..|reg| - 1], reg[|reg| - 1];
      CreateDispatchersSpec(ctx, init);
      HasInvokesInit(reg);
      var s := Traverse(CreateDispatchF, ctx, init);
      assert Traverse(CreateDispatchF, ctx, reg) ==
             if s.outcome.Failed? then s else CreateDispatchF(s.ctx, e);
      if s.outcome.Done? {
        CreateDispatchStep(s.ctx, ctx.delegateMethodConstants, e);
      }
    }
  }

  /** The dispatchers of a registry prefix are a prefix of the dispatchers. */
  lemma {:induction false} DispatchersPrefix(consts: map<MethodDef, Constant>, reg: seq<DelegateEntry>, n: nat)
    requires HasInvokes(reg) && n <= |reg|
    ensures HasInvokes(reg[..n]) && Dispatchers(consts, reg)[..2 * n] == Dispatchers(consts, reg[..n])
    decreases |reg|
  {
    HasInvokesPrefix(reg, n);
    if n < |reg| {
      var init := reg[..|reg| - 1];
      HasInvokesInit(reg);
      DispatchersPrefix(consts, init, n);
      assert init[..n] == reg[..n];
      var pre := Dispatchers(consts, init);
      var e := reg[|reg| - 1];
      assert Dispatchers(consts, reg) == pre + DispatchDecls(consts, InvokeOf(e).value, e.subscribers);
      AppendTake(pre, DispatchDecls(consts, InvokeOf(e).value, e.subscribers), 2 * n);
    } else {
      assert reg[..n] == reg;
    }
  }

  lemma HasInvokesPrefix(reg: seq<DelegateEntry>, n: nat)
    requires HasInvokes(reg) && n <= |reg|
    ensures HasInvokes(reg[..n])
  {
  }

  /**
   * The dispatchers of registry entry k sit at positions 2k and 2k+1: the procedure,
   * then the implementation with the same name and parameters, the locals iter, niter,
   * method, receiver, and the chain walk over that entry's subscribers.
   */
  lemma DispatcherAt(consts: map<MethodDef, Constant>, reg: seq<DelegateEntry>, k: nat)
    requires HasInvokes(reg) && k < |reg|
    ensures var inv, ds := InvokeOf(reg[k]).value, Dispatchers(consts, reg);
            var invars, outvars := DispatchInParams(inv.formals), DispatchOutParams(inv.formals, inv.returnType);
            ds[2 * k] == ProcDecl(Procedure(inv.uniqueName, invars, outvars)) &&
            ds[2 * k + 1] == ImplDecl(Implementation(inv.uniqueName, invars, outvars,
                                                     [IterLocal, NiterLocal, MethodLocal, ReceiverLocal],
                                                     DispatchBody(ThisFormal,
                                                       Cascade(consts, reg[k].subscribers, invars, outvars, inv.tok)),
                                                     []))
  {
    DispatchersPrefix(consts, reg, k + 1);
    var p := reg[..k + 1];
    TakeLast(reg, k);
    var pre := Dispatchers(consts, reg[..k]);
    var own := DispatchDecls(consts, InvokeOf(reg[k]).value, reg[k].subscribers);
    assert Dispatchers(consts, p) == pre + own;
    AppendAt(pre, own, 2 * k);
    AppendAt(pre, own, 2 * k + 1);
    TakeAt(Dispatchers(consts, reg), 2 * k + 2, 2 * k);
    TakeAt(Dispatchers(consts, reg), 2 * k + 2, 2 * k + 1);
  }

  lemma TakeLast<T>(s: seq<T>, k: nat)
    requires k < |s|
    ensures var p := s[..k + 1]; |p| == k + 1 && p[..k] == s[..k] && p[k] == s[k]
  {
  }

  lemma AppendAt<T>(pre: seq<T>, own: seq<T>, i: nat)
    requires |pre| <= i < |pre| + |own|
    ensures (pre + own)[i] == own[i - |pre|]
  {
  }

  lemma AppendTake<T>(pre: seq<T>, own: seq<T>, n: nat)
    requires n <= |pre|
    ensures (pre + own)[..n] == pre[..n]
  {
  }

  lemma TakeAt<T>(s: seq<T>, n: nat, i: nat)
    requires i < n <= |s|
    ensures s[..n][i] == s[i]
  {
  }

  /** The registry entry of a type, once present, stays present while the traversal keeps positions. */
  lemma RegisteredStays(c1: Ctx, c2: Ctx, t: TypeDef)
    requires Extends(c1, c2) && EntryIndex(c1.delegateTypeToDelegates, t).Some?
    ensures EntryIndex(c2.delegateTypeToDelegates, t).Some?
  {
  }

  /** After visiting types without failure, every delegate type among them is registered. */
  lemma {:induction false} DelegatesRegistered(ctx: Ctx, types: seq<TypeDef>)
    requires Traverse(VisitTypeF, ctx, types).outcome.Done?
    ensures forall k :: 0 <= k < |types| && types[k].kind.DelegateKind? ==>
              EntryIndex(Traverse(VisitTypeF, ctx, types).ctx.delegateTypeToDelegates, types[k]).Some?
    decreases |types|
  {
    if |types| > 0 {
      var init, t := types[..|types| - 1], types[|types| - 1];
      var s := Traverse(VisitTypeF, ctx, init);
      DelegatesRegistered(ctx, init);
      var r := VisitTypeF(s.ctx, t);
      assert Traverse(VisitTypeF, ctx, types) == r;
      VisitTypeExtends(s.ctx, t);
      if t.kind.DelegateKind? {
        AddDelegateTypeRegisters(s.ctx, t);
      }
      forall k | 0 <= k < |types| && types[k].kind.DelegateKind?
        ensures EntryIndex(r.ctx.delegateTypeToDelegates, types[k]).Some?
      {
        if k < |init| {
          assert types[k] == init[k];
          RegisteredStays(s.ctx, r.ctx, types[k]);
        }
      }
    }
  }

  /** The delegate types that have a registry entry. */
  function RegisteredTypes(reg: seq<DelegateEntry>): set<TypeDef>
  {
    set k | 0 <= k < |reg| :: reg[k].delegateType
  }

  /** A registry without duplicate types has one entry per registered type. */
  lemma {:induction false} RegisteredTypesCount(reg: seq<DelegateEntry>)
    requires UniqueTypes(reg)
    ensures |RegisteredTypes(reg)| == |reg|
    decreases |reg|
  {
    if |reg| > 0 {
      var init, t := reg[..|reg| - 1], reg[|reg| - 1].delegateType;
      assert UniqueTypes(init) by {
        forall i, j | 0 <= i < j < |init| ensures init[i].delegateType != init[j].delegateType {
          assert init[i] == reg[i] && init[j] == reg[j];
        }
      }
      RegisteredTypesCount(init);
      assert RegisteredTypes(reg) == RegisteredTypes(init) + {t} by {
        forall x ensures x in RegisteredTypes(reg) <==> x in RegisteredTypes(init) + {t} {
          if x in RegisteredTypes(reg) {
            var k :| 0 <= k < |reg| && reg[k].delegateType == x;
            if k < |init| { assert init[k] == reg[k]; }
          }
          if x in RegisteredTypes(init) {
            var k :| 0 <= k < |init| && init[k].delegateType == x;
            assert reg[k] == init[k];
          }
        }
      }
      assert t !in RegisteredTypes(init) by {
        forall k | 0 <= k < |init| ensures init[k].delegateType != t {
          assert init[k] == reg[k];
        }
      }
    }
  }

  /**
   * Visiting an assembly: if its types are visited without failure, every delegate type
   * among them is registered, and the assembly is translated exactly when every
   * registered type has an Invoke method; then the declarations are those of the type
   * visits followed by one dispatcher pair per registered type, in registry order.
   */
  lemma VisitAssemblySpec(ctx: Ctx, a: Assembly)
    ensures var s := Traverse(VisitTypeF, ctx, a.types);
            s.outcome.Failed? ==> VisitAssemblyF(ctx, a) == s
    ensures var s, r := Traverse(VisitTypeF, ctx, a.types), VisitAssemblyF(ctx, a);
            var reg := s.ctx.delegateTypeToDelegates;
            s.outcome.Done? ==>
              (forall k :: 0 <= k < |a.types| && a.types[k].kind.DelegateKind? ==>
                 EntryIndex(reg, a.types[k]).Some?) &&
              (r.outcome.Done? <==> HasInvokes(reg)) &&
              (r.outcome.Done? ==>
                 r.ctx.topLevelDeclarations ==
                   s.ctx.topLevelDeclarations + Dispatchers(s.ctx.delegateMethodConstants, reg) &&
                 |r.ctx.topLevelDeclarations| == |s.ctx.topLevelDeclarations| + 2 * |reg|)
    ensures var s, r := Traverse(VisitTypeF, ctx, a.types), VisitAssemblyF(ctx, a);
            var reg := s.ctx.delegateTypeToDelegates;
            Coherent(ctx) && s.outcome.Done? ==>
              UniqueTypes(reg) && |RegisteredTypes(reg)| == |reg| &&
              (r.outcome.Done? ==>
                 |r.ctx.topLevelDeclarations| == |s.ctx.topLevelDeclarations| + 2 * |RegisteredTypes(reg)|)
  {
    var s := Traverse(VisitTypeF, ctx, a.types);
    if s.outcome.Done? {
      DelegatesRegistered(ctx, a.types);
      CreateDispatchersSpec(s.ctx, s.ctx.delegateTypeToDelegates);
      if Coherent(ctx) {
        VisitAssemblyCoherent(ctx, a);
        RegisteredTypesCount(s.ctx.delegateTypeToDelegates);
      }
    }
  }

  /**
   * Translating an assembly from a fresh Sink: if it succeeds, it declares exactly one
   * procedure and one implementation per distinct registered delegate type, after the
   * declarations of the type visits.
   */
  lemma TranslateFromEmpty(a: Assembly)
    ensures var s, r := Traverse(VisitTypeF, EmptyCtx, a.types), VisitAssemblyF(EmptyCtx, a);
            var reg := s.ctx.delegateTypeToDelegates;
            r.outcome.Done? ==>
              s.outcome.Done? && UniqueTypes(reg) &&
              |r.ctx.topLevelDeclarations| == |s.ctx.topLevelDeclarations| + 2 * |RegisteredTypes(reg)|
  {
    EmptyCoherent();
    VisitAssemblySpec(EmptyCtx, a);
  }

  // ----- The traverser as an object -----

  /** The loop over type.Methods that looks for Invoke. */
  method LookupInvoke(methods: seq<MethodDef>) returns (invokeMethod: Option<MethodDef>)
    ensures invokeMethod == FindInvoke(methods)
  {
    invokeMethod := None;
    for k := 0 to |methods|
      invariant FindInvoke(methods) == FindInvoke(methods[k..])
    {
      assert methods[k..][1..] == methods[k + 1..];
      if methods[k].name == "Invoke" {
        invokeMethod := Some(methods[k]);
        return;
      }
    }
  }

  class MetadataTraverser {
    const sink: Sink

    constructor (sink: Sink)
      ensures this.sink == sink
    {
      this.sink := sink;
    }

    method VisitField(fd: FieldDef)
      modifies sink
      ensures Step(sink.State(), Done) == VisitFieldF(old(sink.State()), fd)
    {
      var _ := sink.FindOrCreateFieldVariable(fd);
    }

    /** The registrations the statement traverser makes while it translates a body. */
    method Subscribe(subs: seq<Subscription>)
      modifies sink
      ensures sink.State() == SubscribeAll(old(sink.State()), subs)
    {
      for k := 0 to |subs|
        invariant sink.State() == SubscribeAll(old(sink.State()), subs[..k])
      {
        assert subs[..k + 1][..k] == subs[..k];
        sink.AddDelegate(subs[k].delegateType, subs[k].subscriber);
      }
      assert subs[..|subs|] == subs;
    }

    method VisitMethod(m: MethodDef) returns (outcome: Outcome)
      modifies sink
      ensures Step(sink.State(), outcome) == VisitMethodF(old(sink.State()), m)
    {
      if IsEventAccessor(m) {
        return Done;
      }
      var proc := sink.FindOrCreateProcedure(m);
      if m.isAbstract {
        return Failed(Unsupported("abstract method"));
      }
      var copies := EntryCopies(m.tok, m.formals);
      if copies.Err? {
        return Failed(copies.error);
      }
      if m.body.Untranslatable? {
        return Failed(m.body.error);
      }
      Subscribe(m.body.subscriptions);
      var stmts := copies.value + m.body.cmds;
      var vars := CollectLocals(m.formals, m.body.locals);
      if vars.Err? {
        return Failed(vars.error);
      }
      var attrs := ForwardAll(m.attributes);
      if attrs.Err? {
        return Failed(attrs.error);
      }
      var impl := Implementation(proc.name, proc.ins, proc.outs, vars.value, stmts, attrs.value);
      sink.AddDeclaration(ImplDecl(impl));
      outcome := Done;
    }

    method VisitMember(mem: Member) returns (outcome: Outcome)
      modifies sink
      ensures Step(sink.State(), outcome) == VisitMemberF(old(sink.State()), mem)
    {
      match mem
      case FieldMember(fd) =>
        VisitField(fd);
        outcome := Done;
      case MethodMember(m) =>
        outcome := VisitMethod(m);
    }

    method VisitType(t: TypeDef) returns (outcome: Outcome)
      modifies sink
      ensures Step(sink.State(), outcome) == VisitTypeF(old(sink.State()), t)
    {
      match t.kind
      case ClassKind =>
        sink.FindOrCreateType(t);
        ghost var start := sink.State();
        var members := t.members;
        for k := 0 to |members|
          invariant Traverse(VisitMemberF, start, members[..k]) == Step(sink.State(), Done)
        {
          assert members[..k + 1][..k] == members[..k];
          outcome := VisitMember(members[k]);
          if outcome.Failed? {
            TraverseSticks(VisitMemberF, start, members, k + 1);
            return;
          }
        }
        assert members[..|members|] == members;
        outcome := Done;
      case DelegateKind =>
        sink.AddDelegateType(t);
        outcome := Done;
      case OtherKind(_) =>
        outcome := Failed(Unsupported("non-class type"));
    }

    /**
     * CreateDispatchMethod for a registry entry: the parameters, the procedure, the
     * cascade (rebinding ifCmd once per subscriber, asking the Sink for each constant),
     * the chain walk and the implementation.
     */
    method CreateDispatchMethod(e: DelegateEntry) returns (outcome: Outcome)
      modifies sink
      ensures Step(sink.State(), outcome) == CreateDispatchF(old(sink.State()), e)
    {
      var invokeMethod := LookupInvoke(Methods(e.delegateType.members));
      if invokeMethod.None? {
        return Failed(InternalDefect("delegate type without Invoke"));
      }
      var inv := invokeMethod.value;
      var tok := inv.tok;
      var invars, outvars, _, _ := DispatchParams(inv.formals, inv.returnType);
      var proc := Procedure(inv.uniqueName, invars, outvars);
      sink.AddDeclaration(ProcDecl(proc));

      var ifCmd := BuildCascade(e.subscribers, invars, outvars, tok);
      var self := Ident(invars[0]);
      var whileStmts := [
        Assign(NoToken, NiterLocal, HeapRead(ReadNext, [self, Ident(IterLocal)])),
        BuildBreakCmd(Binary(Eq, Ident(NiterLocal), HeapRead(ReadHead, [self]))),
        Assign(NoToken, MethodLocal, HeapRead(ReadMethod, [self, Ident(NiterLocal)])),
        Assign(NoToken, ReceiverLocal, HeapRead(ReadReceiver, [self, Ident(NiterLocal)])),
        ifCmd,
        Assign(NoToken, IterLocal, Ident(NiterLocal))];
      var implStmts := [Assign(NoToken, IterLocal, HeapRead(ReadHead, [self])),
                        While(BoolLit(true), [], whileStmts)];
      var impl := Implementation(inv.uniqueName, invars, outvars,
                                 [IterLocal, NiterLocal, MethodLocal, ReceiverLocal], implStmts, []);
      sink.AddDeclaration(ImplDecl(impl));
      outcome := Done;
    }

    /**
     * The foreach over the subscribers that rebinds ifCmd: one layer per subscriber around
     * the previous cascade, asking the Sink for each subscriber's constant.
     */
    method BuildCascade(subs: seq<MethodDef>, invars: seq<Variable>, outvars: seq<Variable>, tok: Token)
      returns (ifCmd: Cmd)
      modifies sink
      ensures ifCmd == Cascade(old(sink.delegateMethodConstants), subs, invars, outvars, tok)
      ensures sink.State() == old(sink.State()).(delegateMethodConstants :=
                AddConstants(old(sink.delegateMethodConstants), subs))
    {
      ghost var consts0 := sink.delegateMethodConstants;
      ifCmd := BuildIfCmd(BoolLit(true), Assume(tok, BoolLit(false)), None);
      for k := 0 to |subs|
        invariant ifCmd == Cascade(consts0, subs[..k], invars, outvars, tok)
        invariant sink.State() == old(sink.State()).(delegateMethodConstants := AddConstants(consts0, subs[..k]))
      {
        var defn := subs[k];
        assert subs[..k + 1][..k] == subs[..k];
        AddConstantsConstOf(consts0, subs[..k]);
        var c := sink.FindOrAddDelegateMethodConstant(defn);
        var bexpr := Binary(Eq, Ident(MethodLocal), ConstRef(c));
        var callCmd := BuildSubscriberCall(defn, c, invars, outvars, tok);
        ifCmd := BuildIfCmd(bexpr, callCmd, Some(ifCmd));
      }
      assert subs[..|subs|] == subs;
    }

    /** base.Visit(assembly): the types in order, stopping at the first failure. */
    method VisitTypes(types: seq<TypeDef>) returns (outcome: Outcome)
      modifies sink
      ensures Step(sink.State(), outcome) == Traverse(VisitTypeF, old(sink.State()), types)
    {
      outcome := Done;
      for k := 0 to |types|
        invariant Traverse(VisitTypeF, old(sink.State()), types[..k]) == Step(sink.State(), Done)
      {
        assert types[..k + 1][..k] == types[..k];
        outcome := VisitType(types[k]);
        if outcome.Failed? {
          TraverseSticks(VisitTypeF, old(sink.State()), types, k + 1);
          return;
        }
      }
      assert types[..|types|] == types;
      outcome := Done;
    }

    /** The foreach over the registry's keys, one CreateDispatchMethod each. */
    method CreateDispatchMethods(registry: seq<DelegateEntry>) returns (outcome: Outcome)
      modifies sink
      ensures Step(sink.State(), outcome) == Traverse(CreateDispatchF, old(sink.State()), registry)
    {
      outcome := Done;
      for k := 0 to |registry|
        invariant Traverse(CreateDispatchF, old(sink.State()), registry[..k]) == Step(sink.State(), Done)
      {
        assert registry[..k + 1][..k] == registry[..k];
        outcome := CreateDispatchMethod(registry[k]);
        if outcome.Failed? {
          TraverseSticks(CreateDispatchF, old(sink.State()), registry, k + 1);
          return;
        }
      }
      assert registry[..|registry|] == registry;
      outcome := Done;
    }

    method VisitAssembly(a: Assembly) returns (outcome: Outcome)
      modifies sink
      ensures Step(sink.State(), outcome) == VisitAssemblyF(old(sink.State()), a)
    {
      outcome := VisitTypes(a.types);
      if outcome.Failed? {
        return;
      }
      outcome := CreateDispatchMethods(sink.delegateTypeToDelegates);
    }
  }
}
